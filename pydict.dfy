/** Python's insertion-ordered `dict` with string keys, as a sequence of
    (key, value) entries. */
module PyDict {

  import opened PyResult

  type Dict<V> = seq<(string, V)>

  /** The keys of `d`, in order. */
  function Keys<V>(d: Dict<V>): (ks: seq<string>)
    ensures |ks| == |d|
    ensures forall i :: 0 <= i < |d| ==> ks[i] == d[i].0
  {
    seq(|d|, i requires 0 <= i < |d| => d[i].0)
  }

  predicate DistinctKeys<V>(d: Dict<V>)
  {
    forall i, j :: 0 <= i < j < |d| ==> d[i].0 != d[j].0
  }

  /** The value of the last entry for `k`: `d[k]` for a dict, and the value
      `dict(items)` keeps for `k` when `items` repeats it. */
  function Get<V>(d: Dict<V>, k: string): Option<V>
  {
    if |d| == 0 then None
    else if d[|d| - 1].0 == k then Some(d[|d| - 1].1)
    else Get(d[..|d| - 1], k)
  }

  /** `d[k] = v`: an existing key keeps its position and takes the new value;
      a new key is appended. */
  function Set<V>(d: Dict<V>, k: string, v: V): Dict<V>
  {
    if |d| == 0 then [(k, v)]
    else if d[0].0 == k then [(k, v)] + d[1..]
    else [d[0]] + Set(d[1..], k, v)
  }

  /** `dict(items)`: the entries set one after another. */
  function FromItems<V>(items: Dict<V>): Dict<V>
  {
    if |items| == 0 then []
    else
      var last := items[|items| - 1];
      Set(FromItems(items[..|items| - 1]), last.0, last.1)
  }

  /** The keys of `ks` in order of first occurrence. */
  function Dedup(ks: seq<string>): seq<string>
  {
    if |ks| == 0 then []
    else if ks[|ks| - 1] in ks[..|ks| - 1] then Dedup(ks[..|ks| - 1])
    else Dedup(ks[..|ks| - 1]) + [ks[|ks| - 1]]
  }

  lemma {:induction false} DedupSameElements(ks: seq<string>)
    ensures forall k :: k in Dedup(ks) <==> k in ks
    decreases |ks|
  {
    if |ks| > 0 {
      DedupSameElements(ks[..|ks| - 1]);
      assert ks == ks[..|ks| - 1] + [ks[|ks| - 1]];
    }
  }

  /** Looking up a key after `d[k] = v`. */
  lemma {:induction false} GetAfterSet<V>(d: Dict<V>, k: string, v: V, j: string)
    requires DistinctKeys(d)
    ensures Get(Set(d, k, v), j) == if j == k then Some(v) else Get(d, j)
    decreases |d|
  {
    if |d| > 0 {
      GetAfterSet(d[1..], k, v, j);
      GetSplit(d[..1], d[1..], j);
      assert d == d[..1] + d[1..];
      if d[0].0 == k {
        GetSplit([(k, v)], d[1..], j);
        GetAbsent(d[1..], k);
        if j == k {
          GetAbsent(d[1..], j);
        }
      } else {
        GetSplit([d[0]], Set(d[1..], k, v), j);
        assert [d[0]] == d[..1];
      }
    }
  }

  /** A lookup in `a + b` finds `b`'s entry when it has one, and `a`'s otherwise. */
  lemma {:induction false} GetSplit<V>(a: Dict<V>, b: Dict<V>, k: string)
    ensures Get(a + b, k) == if Get(b, k).Some? then Get(b, k) else Get(a, k)
    decreases |b|
  {
    if |b| == 0 {
      assert a + b == a;
    } else {
      assert (a + b)[..|a + b| - 1] == a + b[..|b| - 1];
      GetSplit(a, b[..|b| - 1], k);
    }
  }

  /** A key that is not in `d` is not found. */
  lemma {:induction false} GetAbsent<V>(d: Dict<V>, k: string)
    requires forall i :: 0 <= i < |d| ==> d[i].0 != k
    ensures Get(d, k) == None
    decreases |d|
  {
    if |d| > 0 {
      GetAbsent(d[..|d| - 1], k);
    }
  }

  /** A key found in `d` comes with the value of one of its entries. */
  lemma {:induction false} GetEntry<V>(d: Dict<V>, k: string)
    requires Get(d, k).Some?
    ensures exists i :: 0 <= i < |d| && d[i] == (k, Get(d, k).value)
    decreases |d|
  {
    if d[|d| - 1].0 != k {
      GetEntry(d[..|d| - 1], k);
      var i :| 0 <= i < |d| - 1 && d[..|d| - 1][i] == (k, Get(d, k).value);
      assert d[i] == (k, Get(d, k).value);
    }
  }

  /** With distinct keys, each entry's key is found with that entry's value. */
  lemma {:induction false} GetDistinct<V>(d: Dict<V>, j: int)
    requires DistinctKeys(d) && 0 <= j < |d|
    ensures Get(d, d[j].0) == Some(d[j].1)
    decreases |d|
  {
    if j < |d| - 1 {
      GetDistinct(d[..|d| - 1], j);
    }
  }

  /** A key is found exactly when some entry has it. */
  lemma {:induction false} GetFound<V>(d: Dict<V>, k: string)
    ensures Get(d, k).Some? <==> k in Keys(d)
    decreases |d|
  {
    if |d| > 0 {
      GetFound(d[..|d| - 1], k);
      assert Keys(d) == Keys(d[..|d| - 1]) + [d[|d| - 1].0];
    }
  }

  /** `d[k] = v` keeps the key order, appending a key it did not have. */
  lemma {:induction false} KeysAfterSet<V>(d: Dict<V>, k: string, v: V)
    ensures Keys(Set(d, k, v)) == if k in Keys(d) then Keys(d) else Keys(d) + [k]
    decreases |d|
  {
    if |d| > 0 {
      var rest := d[1..];
      assert d == [d[0]] + rest;
      KeysAppend([d[0]], rest);
      if d[0].0 == k {
        KeysAppend([(k, v)], rest);
      } else {
        KeysAfterSet(rest, k, v);
        KeysAppend([d[0]], Set(rest, k, v));
        assert k in Keys(d) <==> k in Keys(rest);
      }
    }
  }

  /** `d[k] = v` keeps the keys distinct. */
  lemma SetKeepsDistinct<V>(d: Dict<V>, k: string, v: V)
    requires DistinctKeys(d)
    ensures DistinctKeys(Set(d, k, v))
  {
    KeysAfterSet(d, k, v);
    var r := Set(d, k, v);
    assert forall i :: 0 <= i < |r| ==> r[i].0 == Keys(r)[i];
  }

  /** `dict(items)` lists each key once. */
  lemma {:induction false} FromItemsDistinct<V>(items: Dict<V>)
    ensures DistinctKeys(FromItems(items))
    decreases |items|
  {
    if |items| > 0 {
      var init := items[..|items| - 1];
      var last := items[|items| - 1];
      FromItemsDistinct(init);
      SetKeepsDistinct(FromItems(init), last.0, last.1);
    }
  }

  /** `dict(items)` keeps each key at the position of its first occurrence. */
  lemma {:induction false} FromItemsKeys<V>(items: Dict<V>)
    ensures Keys(FromItems(items)) == Dedup(Keys(items))
    decreases |items|
  {
    if |items| > 0 {
      var init := items[..|items| - 1];
      var last := items[|items| - 1];
      var ks := Keys(items);
      FromItemsKeys(init);
      KeysAfterSet(FromItems(init), last.0, last.1);
      DedupSameElements(Keys(init));
      assert ks[..|ks| - 1] == Keys(init);
      assert ks[|ks| - 1] == last.0;
    }
  }

  /** `dict(items)` keeps, for each key, the value of its last occurrence. */
  lemma {:induction false} FromItemsGet<V>(items: Dict<V>, k: string)
    ensures Get(FromItems(items), k) == Get(items, k)
    decreases |items|
  {
    if |items| > 0 {
      var init := items[..|items| - 1];
      var last := items[|items| - 1];
      FromItemsGet(init, k);
      FromItemsDistinct(init);
      GetAfterSet(FromItems(init), last.0, last.1, k);
    }
  }

  /** No string occurs twice. */
  predicate Distinct(s: seq<string>)
  {
    forall i, j :: 0 <= i < j < |s| ==> s[i] != s[j]
  }

  lemma {:induction false} DedupIsDistinct(ks: seq<string>)
    ensures Distinct(Dedup(ks))
    decreases |ks|
  {
    if |ks| > 0 {
      DedupIsDistinct(ks[..|ks| - 1]);
      DedupSameElements(ks[..|ks| - 1]);
    }
  }

  lemma {:induction false} DedupOfDistinct(ks: seq<string>)
    requires Distinct(ks)
    ensures Dedup(ks) == ks
    decreases |ks|
  {
    if |ks| > 0 {
      var init := ks[..|ks| - 1];
      assert Distinct(init);
      DedupOfDistinct(init);
      assert ks == init + [ks[|ks| - 1]];
    }
  }

  /** Deduplicating a prefix first changes nothing. */
  lemma {:induction false} DedupAbsorbLeft(x: seq<string>, y: seq<string>)
    ensures Dedup(Dedup(x) + y) == Dedup(x + y)
    decreases |y|
  {
    DedupSameElements(x);
    if |y| == 0 {
      assert Dedup(x) + y == Dedup(x);
      assert x + y == x;
      DedupIsDistinct(x);
      DedupOfDistinct(Dedup(x));
    } else {
      var init := y[..|y| - 1];
      var c := y[|y| - 1];
      DedupAbsorbLeft(x, init);
      assert Dedup(x) + y == (Dedup(x) + init) + [c];
      assert x + y == (x + init) + [c];
    }
  }

  /** Deduplicating a suffix first changes nothing. */
  lemma {:induction false} DedupAbsorbRight(x: seq<string>, y: seq<string>)
    ensures Dedup(x + Dedup(y)) == Dedup(x + y)
    decreases |y|
  {
    if |y| == 0 {
      assert Dedup(y) == y;
    } else {
      var init := y[..|y| - 1];
      var c := y[|y| - 1];
      DedupAbsorbRight(x, init);
      DedupSameElements(init);
      assert x + y == (x + init) + [c];
      if c !in init {
        assert x + Dedup(y) == (x + Dedup(init)) + [c];
      }
    }
  }

  /** Two dictionaries with the same keys in the same order and the same lookups are equal. */
  lemma DictExtensional<V>(p: Dict<V>, q: Dict<V>)
    requires DistinctKeys(p) && DistinctKeys(q) && Keys(p) == Keys(q)
    requires forall k :: Get(p, k) == Get(q, k)
    ensures p == q
  {
    forall i | 0 <= i < |p|
      ensures p[i] == q[i]
    {
      GetDistinct(p, i);
      GetDistinct(q, i);
      assert p[i].0 == Keys(p)[i] == Keys(q)[i] == q[i].0;
    }
  }

  lemma KeysAppend<V>(a: Dict<V>, b: Dict<V>)
    ensures Keys(a + b) == Keys(a) + Keys(b)
  {
  }

  /** `dict(dict(a) + b)` is `dict(a + b)`. */
  lemma FromItemsAbsorbLeft<V>(a: Dict<V>, b: Dict<V>)
    ensures FromItems(FromItems(a) + b) == FromItems(a + b)
  {
    var p := FromItems(FromItems(a) + b);
    var q := FromItems(a + b);
    FromItemsDistinct(FromItems(a) + b);
    FromItemsDistinct(a + b);
    FromItemsKeys(FromItems(a) + b);
    FromItemsKeys(a + b);
    FromItemsKeys(a);
    KeysAppend(FromItems(a), b);
    KeysAppend(a, b);
    DedupAbsorbLeft(Keys(a), Keys(b));
    forall k
      ensures Get(p, k) == Get(q, k)
    {
      FromItemsGet(FromItems(a) + b, k);
      FromItemsGet(a + b, k);
      FromItemsGet(a, k);
      GetSplit(FromItems(a), b, k);
      GetSplit(a, b, k);
    }
    DictExtensional(p, q);
  }

  /** `dict(a + dict(b))` is `dict(a + b)`. */
  lemma FromItemsAbsorbRight<V>(a: Dict<V>, b: Dict<V>)
    ensures FromItems(a + FromItems(b)) == FromItems(a + b)
  {
    var p := FromItems(a + FromItems(b));
    var q := FromItems(a + b);
    FromItemsDistinct(a + FromItems(b));
    FromItemsDistinct(a + b);
    FromItemsKeys(a + FromItems(b));
    FromItemsKeys(a + b);
    FromItemsKeys(b);
    KeysAppend(a, FromItems(b));
    KeysAppend(a, b);
    DedupAbsorbRight(Keys(a), Keys(b));
    forall k
      ensures Get(p, k) == Get(q, k)
    {
      FromItemsGet(a + FromItems(b), k);
      FromItemsGet(a + b, k);
      FromItemsGet(b, k);
      GetSplit(a, FromItems(b), k);
      GetSplit(a, b, k);
    }
    DictExtensional(p, q);
  }
}
