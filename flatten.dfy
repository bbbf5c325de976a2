/** `flatten_dict`: a nested dictionary becomes a flat one whose keys are the
    nested keys joined by a separator. */
module Flatten {

  import opened PyStr
  import opened PyDict

  /** A value of a nested dictionary: a leaf, or a dictionary of further entries. */
  datatype Entry<V> = Leaf(value: V) | Branch(children: seq<(string, Entry<V>)>)

  type Nested<V> = seq<(string, Entry<V>)>

  /** `parent_key + sep + str(k) if parent_key else k`: an empty parent key is
      falsy in Python, so it adds no prefix. */
  function NewKey(parentKey: string, sep: char, k: string): string
  {
    if parentKey != "" then parentKey + [sep] + k else k
  }

  /** The dictionary `flatten_dict(d, parent_key, sep)` returns. */
  function Flattened<V>(d: Nested<V>, parentKey: string, sep: char): Dict<V>
    decreases Branch(d), 2
  {
    FromItems(Items(d, parentKey, sep, |d|))
  }

  /** The list `items` once the loop has seen the first `n` entries of `d`. */
  function Items<V>(d: Nested<V>, parentKey: string, sep: char, n: nat): Dict<V>
    requires n <= |d|
    decreases Branch(d), 1, n
  {
    if n == 0 then []
    else Items(d, parentKey, sep, n - 1) + EntryItems(d[n - 1].1, NewKey(parentKey, sep, d[n - 1].0), sep)
  }

  /** What one entry adds to `items`: a leaf its own pair, a nested dictionary
      the items of its flattening. */
  function EntryItems<V>(v: Entry<V>, key: string, sep: char): Dict<V>
    decreases v, 3
  {
    match v
    case Leaf(x) => [(key, x)]
    case Branch(children) => Flattened(children, key, sep)
  }

  /** `flatten_dict`: the loop over the entries that extends `items`, recursing
      into nested dictionaries, and the final `dict(items)`. */
  method FlattenDict<V>(d: Nested<V>, parentKey: string, sep: char) returns (r: Dict<V>)
    ensures r == Flattened(d, parentKey, sep)
    decreases Branch(d)
  {
    var items: Dict<V> := [];
    for i := 0 to |d|
      invariant items == Items(d, parentKey, sep, i)
    {
      var k := d[i].0;
      var newKey := NewKey(parentKey, sep, k);
      match d[i].1
      case Branch(children) =>
        var sub := FlattenDict(children, newKey, sep);
        items := items + sub;
      case Leaf(x) =>
        items := items + [(newKey, x)];
    }
    r := FromItems(items);
  }

  /** Every leaf of `d`'s first `n` entries with its full key, depth first,
      without any merging of repeated keys. */
  function Leaves<V>(d: Nested<V>, parentKey: string, sep: char, n: nat): Dict<V>
    requires n <= |d|
    decreases Branch(d), 1, n
  {
    if n == 0 then []
    else Leaves(d, parentKey, sep, n - 1) + EntryLeaves(d[n - 1].1, NewKey(parentKey, sep, d[n - 1].0), sep)
  }

  function EntryLeaves<V>(v: Entry<V>, key: string, sep: char): Dict<V>
    decreases v, 3
  {
    match v
    case Leaf(x) => [(key, x)]
    case Branch(children) => Leaves(children, key, sep, |children|)
  }

  /** Merging nested dictionaries as they are flattened gives the same dictionary
      as collecting all the leaves first and merging once. */
  lemma {:induction false} ItemsMergeLeaves<V>(d: Nested<V>, parentKey: string, sep: char, n: nat)
    requires n <= |d|
    ensures FromItems(Items(d, parentKey, sep, n)) == FromItems(Leaves(d, parentKey, sep, n))
    decreases Branch(d), 1, n
  {
    if n > 0 {
      var key := NewKey(parentKey, sep, d[n - 1].0);
      var items := Items(d, parentKey, sep, n - 1);
      var leaves := Leaves(d, parentKey, sep, n - 1);
      var e := EntryItems(d[n - 1].1, key, sep);
      var f := EntryLeaves(d[n - 1].1, key, sep);
      ItemsMergeLeaves(d, parentKey, sep, n - 1);
      EntryMergesLeaves(d[n - 1].1, key, sep);
      MergeAppended(items, leaves, e, f);
    }
  }

  /** Item lists that build the same dictionaries build the same dictionary
      when appended. */
  lemma MergeAppended<V>(items: Dict<V>, leaves: Dict<V>, e: Dict<V>, f: Dict<V>)
    requires FromItems(items) == FromItems(leaves) && FromItems(e) == FromItems(f)
    ensures FromItems(items + e) == FromItems(leaves + f)
  {
    calc {
      FromItems(items + e);
      { FromItemsAbsorbLeft(items, e); }
      FromItems(FromItems(items) + e);
      FromItems(FromItems(leaves) + e);
      { FromItemsAbsorbLeft(leaves, e); }
      FromItems(leaves + e);
      { FromItemsAbsorbRight(leaves, e); }
      FromItems(leaves + FromItems(e));
      FromItems(leaves + FromItems(f));
      { FromItemsAbsorbRight(leaves, f); }
      FromItems(leaves + f);
    }
  }

  lemma {:induction false} EntryMergesLeaves<V>(v: Entry<V>, key: string, sep: char)
    ensures FromItems(EntryItems(v, key, sep)) == FromItems(EntryLeaves(v, key, sep))
    decreases v, 3
  {
    match v
    case Leaf(x) =>
    case Branch(children) =>
      var items := Items(children, key, sep, |children|);
      ItemsMergeLeaves(children, key, sep, |children|);
      FromItemsAbsorbLeft(items, []);
      assert FromItems(items) + [] == FromItems(items);
      assert items + [] == items;
  }

  /** `flatten_dict` is `dict` of the leaves with their full keys, depth first:
      a repeated full key keeps its first position and its last value. */
  lemma FlattenedLeaves<V>(d: Nested<V>, parentKey: string, sep: char)
    ensures Flattened(d, parentKey, sep) == FromItems(Leaves(d, parentKey, sep, |d|))
  {
    ItemsMergeLeaves(d, parentKey, sep, |d|);
  }

  /** The key a leaf gets from its path of nested keys below `parentKey`. */
  function FullKey(parentKey: string, sep: char, path: seq<string>): string
    decreases |path|
  {
    if |path| == 0 then parentKey else FullKey(NewKey(parentKey, sep, path[0]), sep, path[1..])
  }

  /** With no empty key on the path, the full key is the path joined by the
      separator after the parent key. */
  lemma {:induction false} FullKeyJoins(parentKey: string, sep: char, path: seq<string>)
    requires |path| >= 1 && forall i :: 0 <= i < |path| ==> path[i] != ""
    ensures FullKey(parentKey, sep, path) == if parentKey == "" then Join(path, sep) else Join([parentKey] + path, sep)
    decreases |path|
  {
    var first := NewKey(parentKey, sep, path[0]);
    if |path| == 1 {
      assert path[1..] == [];
      if parentKey != "" {
        assert ([parentKey] + path)[1..] == path;
      }
    } else {
      var rest := path[1..];
      assert forall i :: 0 <= i < |rest| ==> rest[i] == path[i + 1];
      FullKeyJoins(first, sep, rest);
      assert first != "";
      assert ([first] + rest)[1..] == rest;
      if parentKey == "" {
        assert Join(path, sep) == path[0] + [sep] + Join(rest, sep);
      } else {
        var full := [parentKey] + path;
        assert full[1..] == path;
        assert Join(full, sep) == parentKey + [sep] + Join(path, sep);
        assert Join(path, sep) == path[0] + [sep] + Join(rest, sep);
      }
    }
  }

  /** The leaves of `d`'s first `n` entries with the path of keys leading to
      each, depth first. */
  function Paths<V>(d: Nested<V>, n: nat): seq<(seq<string>, V)>
    requires n <= |d|
    decreases Branch(d), 1, n
  {
    if n == 0 then [] else Paths(d, n - 1) + EntryPaths(d[n - 1].0, d[n - 1].1)
  }

  function EntryPaths<V>(k: string, v: Entry<V>): seq<(seq<string>, V)>
    decreases v, 3
  {
    match v
    case Leaf(x) => [([k], x)]
    case Branch(children) => Below(k, Paths(children, |children|))
  }

  /** The paths `ps`, each one level further down, below key `k`. */
  function Below<V>(k: string, ps: seq<(seq<string>, V)>): (r: seq<(seq<string>, V)>)
    ensures |r| == |ps|
    ensures forall i :: 0 <= i < |ps| ==> r[i] == ([k] + ps[i].0, ps[i].1)
  {
    seq(|ps|, i requires 0 <= i < |ps| => ([k] + ps[i].0, ps[i].1))
  }

  /** Each path's leaf value under the full key of the path. */
  function Keyed<V>(parentKey: string, sep: char, ps: seq<(seq<string>, V)>): (r: Dict<V>)
    ensures |r| == |ps|
    ensures forall i :: 0 <= i < |ps| ==> r[i] == (FullKey(parentKey, sep, ps[i].0), ps[i].1)
  {
    seq(|ps|, i requires 0 <= i < |ps| => (FullKey(parentKey, sep, ps[i].0), ps[i].1))
  }

  lemma KeyedAppend<V>(parentKey: string, sep: char, a: seq<(seq<string>, V)>, b: seq<(seq<string>, V)>)
    ensures Keyed(parentKey, sep, a + b) == Keyed(parentKey, sep, a) + Keyed(parentKey, sep, b)
  {
  }

  /** The leaves are the paths, each under its full key, with its value unchanged. */
  lemma {:induction false} LeavesArePaths<V>(d: Nested<V>, parentKey: string, sep: char, n: nat)
    requires n <= |d|
    ensures Leaves(d, parentKey, sep, n) == Keyed(parentKey, sep, Paths(d, n))
    decreases Branch(d), 1, n
  {
    if n > 0 {
      LeavesArePaths(d, parentKey, sep, n - 1);
      EntryLeavesArePaths(d[n - 1].0, d[n - 1].1, parentKey, sep);
      KeyedAppend(parentKey, sep, Paths(d, n - 1), EntryPaths(d[n - 1].0, d[n - 1].1));
    }
  }

  lemma {:induction false} EntryLeavesArePaths<V>(k: string, v: Entry<V>, parentKey: string, sep: char)
    ensures EntryLeaves(v, NewKey(parentKey, sep, k), sep) == Keyed(parentKey, sep, EntryPaths(k, v))
    decreases v, 3
  {
    var key := NewKey(parentKey, sep, k);
    match v
    case Leaf(x) =>
      assert [k][1..] == [];
      assert FullKey(parentKey, sep, [k]) == key;
      assert Keyed(parentKey, sep, [([k], x)]) == [(key, x)];
    case Branch(children) =>
      var ps := Paths(children, |children|);
      LeavesArePaths(children, key, sep, |children|);
      forall i | 0 <= i < |ps|
        ensures FullKey(parentKey, sep, ([k] + ps[i].0)) == FullKey(key, sep, ps[i].0)
      {
        assert ([k] + ps[i].0)[1..] == ps[i].0;
      }
  }

  /** `flatten_dict` keeps every leaf value unchanged under the full key of its
      path, merging repeated full keys as `dict` does. */
  lemma FlattenedPaths<V>(d: Nested<V>, parentKey: string, sep: char)
    ensures Flattened(d, parentKey, sep) == FromItems(Keyed(parentKey, sep, Paths(d, |d|)))
  {
    FlattenedLeaves(d, parentKey, sep);
    LeavesArePaths(d, parentKey, sep, |d|);
  }
}
