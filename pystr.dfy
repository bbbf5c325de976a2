/** The parts of Python's string handling the conversion relies on:
    `sep.join`, `"".join`, `str.split` and `re.split(r"([./])", s)`. */
module PyStr {

  /** `sep.join(parts)` for a one-character separator. */
  function Join(parts: seq<string>, sep: char): string
  {
    if |parts| == 0 then ""
    else if |parts| == 1 then parts[0]
    else parts[0] + [sep] + Join(parts[1..], sep)
  }

  /** `"".join(parts)`. */
  function Concat(parts: seq<string>): string
  {
    if |parts| == 0 then "" else parts[0] + Concat(parts[1..])
  }

  /** The number of times `c` occurs in `s`. */
  function Occurrences(s: string, c: char): nat
  {
    multiset(s)[c]
  }

  /** `s.split(sep)`: the runs of `s` between occurrences of `sep`. */
  function Split(s: string, sep: char): (r: seq<string>)
    ensures |r| >= 1
  {
    if |s| == 0 then [""]
    else
      var rest := Split(s[1..], sep);
      if s[0] == sep then [""] + rest
      else [[s[0]] + rest[0]] + rest[1..]
  }

  /** `str.split` yields one more part than there are separators. */
  lemma {:induction false} SplitCount(s: string, sep: char)
    ensures |Split(s, sep)| == Occurrences(s, sep) + 1
    decreases |s|
  {
    if |s| > 0 {
      assert s == [s[0]] + s[1..];
      SplitCount(s[1..], sep);
    }
  }

  /** No part `str.split` yields holds the separator. */
  lemma {:induction false} SplitPartsFree(s: string, sep: char)
    ensures forall i :: 0 <= i < |Split(s, sep)| ==> sep !in Split(s, sep)[i]
    decreases |s|
  {
    if |s| > 0 {
      SplitPartsFree(s[1..], sep);
    }
  }

  /** Joining the parts `str.split` yields gives the string back. */
  lemma {:induction false} SplitJoinsBack(s: string, sep: char)
    ensures Join(Split(s, sep), sep) == s
    decreases |s|
  {
    if |s| > 0 {
      assert s == [s[0]] + s[1..];
      SplitJoinsBack(s[1..], sep);
      var rest := Split(s[1..], sep);
      if s[0] == sep {
        assert ([""] + rest)[1..] == rest;
      } else if |rest| > 1 {
        assert ([[s[0]] + rest[0]] + rest[1..])[1..] == rest[1..];
      }
    }
  }

  /** Two strings that each continue with `c` after a `c`-free prefix agree on the prefix. */
  lemma FirstOccurrence(a: string, x: string, b: string, y: string, c: char)
    requires c !in a && c !in b
    requires a + [c] + x == b + [c] + y
    ensures a == b && x == y
  {
    var s := a + [c] + x;
    assert s[|a|] == c && s[|b|] == c;
    assert forall i :: 0 <= i < |a| ==> s[i] == a[i];
    assert forall i :: 0 <= i < |b| ==> s[i] == b[i];
    assert |a| == |b|;
    assert a == s[..|a|];
    assert b == s[..|b|];
    assert x == s[|a| + 1..];
    assert y == s[|b| + 1..];
  }

  /** Joining separator-free parts loses nothing: the parts can be read back. */
  lemma {:induction false} JoinInjective(p: seq<string>, q: seq<string>, sep: char)
    requires |p| >= 1 && |q| >= 1
    requires forall i :: 0 <= i < |p| ==> sep !in p[i]
    requires forall i :: 0 <= i < |q| ==> sep !in q[i]
    requires Join(p, sep) == Join(q, sep)
    ensures p == q
  {
    assert |p| >= 2 ==> Join(p, sep)[|p[0]|] == sep;
    assert |q| >= 2 ==> Join(q, sep)[|q[0]|] == sep;
    if |p| == 1 && |q| == 1 {
    } else if |p| == 1 || |q| == 1 {
      assert false;
    } else {
      FirstOccurrence(p[0], Join(p[1..], sep), q[0], Join(q[1..], sep), sep);
      JoinInjective(p[1..], q[1..], sep);
      assert p == [p[0]] + p[1..];
      assert q == [q[0]] + q[1..];
    }
  }

  /** `Split` undoes `Join` on separator-free parts. */
  lemma SplitJoin(parts: seq<string>, sep: char)
    requires |parts| >= 1
    requires forall i :: 0 <= i < |parts| ==> sep !in parts[i]
    ensures Split(Join(parts, sep), sep) == parts
  {
    SplitPartsFree(Join(parts, sep), sep);
    SplitJoinsBack(Join(parts, sep), sep);
    JoinInjective(Split(Join(parts, sep), sep), parts, sep);
  }

  /** A character in none of the parts, other than the separator, is not in the joined string. */
  lemma {:induction false} JoinFree(parts: seq<string>, sep: char, c: char)
    requires c != sep
    requires forall i :: 0 <= i < |parts| ==> c !in parts[i]
    ensures c !in Join(parts, sep)
    decreases |parts|
  {
    if |parts| >= 2 {
      JoinFree(parts[1..], sep, c);
    }
  }

  /** The joined string starts with the first part. */
  lemma JoinStartsWithFirst(parts: seq<string>, sep: char)
    requires |parts| >= 1
    ensures |Join(parts, sep)| >= |parts[0]| && Join(parts, sep)[..|parts[0]|] == parts[0]
  {
  }

  /** The separators of the unit grammar. */
  predicate IsSeparator(c: char)
  {
    c == '.' || c == '/'
  }

  predicate NoSeparator(s: string)
  {
    forall i :: 0 <= i < |s| ==> !IsSeparator(s[i])
  }

  /** The shape `re.split` produces with one captured separator: pieces free of
      separators, with a one-character separator string between each two. */
  predicate Alternating(r: seq<string>)
  {
    |r| >= 1 && NoSeparator(r[0]) &&
    (|r| == 1 || (|r| >= 3 && (r[1] == "." || r[1] == "/") && Alternating(r[2..])))
  }

  /** `re.split(r"([./])", s)`: the pieces between separators, each separator kept
      as a one-character string between the two pieces it separated. */
  function ReSplit(s: string): (r: seq<string>)
    ensures |r| >= 1
  {
    if |s| == 0 then [""]
    else
      var rest := ReSplit(s[1..]);
      if IsSeparator(s[0]) then ["", [s[0]]] + rest
      else [[s[0]] + rest[0]] + rest[1..]
  }

  /** `re.split` with a captured separator alternates pieces and separators, and
      concatenating its output gives the string back. */
  lemma ReSplitShape(s: string)
    ensures Alternating(ReSplit(s))
    ensures Concat(ReSplit(s)) == s
  {
    ReSplitAlternates(s);
    ReSplitConcat(s);
  }

  lemma {:induction false} ReSplitAlternates(s: string)
    ensures Alternating(ReSplit(s))
    decreases |s|
  {
    if |s| > 0 {
      ReSplitAlternates(s[1..]);
      var rest := ReSplit(s[1..]);
      if IsSeparator(s[0]) {
        assert (["", [s[0]]] + rest)[2..] == rest;
      } else {
        AlternatingExtended(s[0], rest);
      }
    }
  }

  /** Prefixing the first piece with a non-separator keeps the shape. */
  lemma AlternatingExtended(c: char, rest: seq<string>)
    requires !IsSeparator(c) && Alternating(rest)
    ensures Alternating([[c] + rest[0]] + rest[1..])
  {
    var r := [[c] + rest[0]] + rest[1..];
    assert r[0] == [c] + rest[0];
    assert |rest| >= 3 ==> r[1] == rest[1] && r[2..] == rest[2..];
  }

  lemma {:induction false} ReSplitConcat(s: string)
    ensures Concat(ReSplit(s)) == s
    decreases |s|
  {
    if |s| > 0 {
      assert s == [s[0]] + s[1..];
      ReSplitConcat(s[1..]);
      var rest := ReSplit(s[1..]);
      if IsSeparator(s[0]) {
        assert (["", [s[0]]] + rest)[1..] == [[s[0]]] + rest;
        assert ([[s[0]]] + rest)[1..] == rest;
      } else {
        assert ([[s[0]] + rest[0]] + rest[1..])[1..] == rest[1..];
        assert Concat(rest) == rest[0] + Concat(rest[1..]);
      }
    }
  }

  /** The pieces of an alternating split (its even positions). */
  function Pieces(r: seq<string>): seq<string>
  {
    if |r| <= 1 then r else [r[0]] + Pieces(r[2..])
  }

  /** The separators of an alternating split (its odd positions). */
  function Separators(r: seq<string>): seq<string>
  {
    if |r| <= 1 then [] else [r[1]] + Separators(r[2..])
  }

  /** The separator characters of `s`, in order, each as a one-character string. */
  function SeparatorsOf(s: string): seq<string>
  {
    if |s| == 0 then []
    else if IsSeparator(s[0]) then [[s[0]]] + SeparatorsOf(s[1..])
    else SeparatorsOf(s[1..])
  }

  /** `re.split` keeps every separator of `s`, in order. */
  lemma {:induction false} ReSplitSeparators(s: string)
    ensures Separators(ReSplit(s)) == SeparatorsOf(s)
    decreases |s|
  {
    if |s| > 0 {
      ReSplitSeparators(s[1..]);
      var rest := ReSplit(s[1..]);
      if IsSeparator(s[0]) {
        assert (["", [s[0]]] + rest)[2..] == rest;
      } else {
        var r := [[s[0]] + rest[0]] + rest[1..];
        if |rest| > 1 {
          assert r[2..] == rest[2..];
        }
      }
    }
  }

  /** A string without the separator splits into itself alone. */
  lemma Unseparated(s: string, sep: char)
    requires sep !in s
    ensures Split(s, sep) == [s]
  {
    SplitJoin([s], sep);
  }

  /** The separators of a concatenation are those of each part, in order. */
  lemma {:induction false} SeparatorsOfAppend(x: string, y: string)
    ensures SeparatorsOf(x + y) == SeparatorsOf(x) + SeparatorsOf(y)
    decreases |x|
  {
    if |x| == 0 {
      assert x + y == y;
    } else {
      assert (x + y)[1..] == x[1..] + y;
      SeparatorsOfAppend(x[1..], y);
    }
  }

  /** A string without `.` or `/` has no separators. */
  lemma {:induction false} SeparatorsOfPlain(s: string)
    requires '.' !in s && '/' !in s
    ensures SeparatorsOf(s) == []
    decreases |s|
  {
    if |s| > 0 {
      assert s[0] in s;
      assert forall c :: c in s[1..] ==> c in s;
      SeparatorsOfPlain(s[1..]);
    }
  }

  /** The `.`-separated components of each `/`-separated segment, in order. */
  function Components(segments: seq<string>): seq<string>
  {
    if |segments| == 0 then [] else Split(segments[0], '.') + Components(segments[1..])
  }

  lemma PiecesAfterSeparator(c: char, rest: seq<string>)
    requires |rest| >= 1
    ensures Pieces(["", [c]] + rest) == [""] + Pieces(rest)
  {
    assert (["", [c]] + rest)[2..] == rest;
  }

  lemma PiecesExtended(c: char, rest: seq<string>)
    requires |rest| >= 1
    ensures Pieces([[c] + rest[0]] + rest[1..]) == [[c] + Pieces(rest)[0]] + Pieces(rest)[1..]
  {
    var head := [c] + rest[0];
    var r := [head] + rest[1..];
    if |rest| == 1 {
      assert r == [head];
    } else {
      assert r[0] == head;
      assert r[2..] == rest[2..];
      var p := Pieces(rest[2..]);
      assert Pieces(r) == [head] + p;
      assert Pieces(rest) == [rest[0]] + p;
      assert Pieces(rest)[1..] == p;
    }
  }

  lemma ComponentsCons(seg: string, segs: seq<string>)
    ensures Components([seg] + segs) == Split(seg, '.') + Components(segs)
  {
    assert ([seg] + segs)[1..] == segs;
  }

  /** Splitting `c + seg` on `.` where `c` is a dot starts a new, empty component;
      otherwise `c` joins the first component. */
  lemma SplitCons(c: char, seg: string, sep: char)
    ensures c == sep ==> Split([c] + seg, sep) == [""] + Split(seg, sep)
    ensures c != sep ==> Split([c] + seg, sep) == [[c] + Split(seg, sep)[0]] + Split(seg, sep)[1..]
  {
    assert ([c] + seg)[1..] == seg;
  }

  /** The pieces `re.split` yields are exactly what splitting on `/` and then on `.` yields. */
  lemma {:induction false} ReSplitPieces(s: string)
    ensures Pieces(ReSplit(s)) == Components(Split(s, '/'))
    decreases |s|
  {
    if |s| > 0 {
      ReSplitPieces(s[1..]);
      assert s == [s[0]] + s[1..];
      if s[0] == '/' {
        PiecesAfterSlash(s[1..]);
      } else if s[0] == '.' {
        PiecesAfterDot(s[1..]);
      } else {
        PiecesAfterOther(s[0], s[1..]);
      }
    }
  }

  lemma PiecesAfterSlash(t: string)
    requires Pieces(ReSplit(t)) == Components(Split(t, '/'))
    ensures Pieces(ReSplit("/" + t)) == Components(Split("/" + t, '/'))
  {
    assert ("/" + t)[1..] == t;
    PiecesAfterSeparator('/', ReSplit(t));
    SplitCons('/', t, '/');
    ComponentsCons("", Split(t, '/'));
  }

  lemma PiecesAfterDot(t: string)
    requires Pieces(ReSplit(t)) == Components(Split(t, '/'))
    ensures Pieces(ReSplit("." + t)) == Components(Split("." + t, '/'))
  {
    assert ("." + t)[1..] == t;
    PiecesAfterSeparator('.', ReSplit(t));
    ComponentsAfterDot(t);
  }

  /** A leading `.` adds an empty first component. */
  lemma ComponentsAfterDot(t: string)
    ensures Components(Split("." + t, '/')) == [""] + Components(Split(t, '/'))
  {
    var segs := Split(t, '/');
    var tail := Components(segs[1..]);
    var inner := Split(segs[0], '.');
    calc {
      Components(Split("." + t, '/'));
      { SplitCons('.', t, '/'); }
      Components([['.'] + segs[0]] + segs[1..]);
      { ComponentsCons(['.'] + segs[0], segs[1..]); }
      Split(['.'] + segs[0], '.') + tail;
      { SplitCons('.', segs[0], '.'); }
      ([""] + inner) + tail;
      [""] + (inner + tail);
      { assert segs == [segs[0]] + segs[1..];
        ComponentsCons(segs[0], segs[1..]); }
      [""] + Components(segs);
    }
  }

  lemma PiecesAfterOther(c: char, t: string)
    requires !IsSeparator(c)
    requires Pieces(ReSplit(t)) == Components(Split(t, '/'))
    ensures Pieces(ReSplit([c] + t)) == Components(Split([c] + t, '/'))
  {
    assert ([c] + t)[1..] == t;
    var rest := ReSplit(t);
    var segs := Split(t, '/');
    SplitCons(c, t, '/');
    PiecesExtended(c, rest);
    var p := Pieces(rest);
    assert p == Split(segs[0], '.') + Components(segs[1..]) by {
      assert segs == [segs[0]] + segs[1..];
      ComponentsCons(segs[0], segs[1..]);
    }
    ComponentsExtended(c, segs);
  }

  /** Prefixing the first segment with a non-separator prefixes its first component. */
  lemma ComponentsExtended(c: char, segs: seq<string>)
    requires !IsSeparator(c) && |segs| >= 1
    ensures var inner := Split(segs[0], '.');
      Components([[c] + segs[0]] + segs[1..]) == [[c] + inner[0]] + (inner[1..] + Components(segs[1..]))
  {
    var inner := Split(segs[0], '.');
    ComponentsCons([c] + segs[0], segs[1..]);
    SplitCons(c, segs[0], '.');
    assert ([[c] + inner[0]] + inner[1..]) + Components(segs[1..]) == [[c] + inner[0]] + (inner[1..] + Components(segs[1..]));
  }

  /** `a/b` for plain `a` and `b`: two segments of one component each, and one
      separator. */
  lemma QuotientShape(a: string, b: string)
    requires '.' !in a && '/' !in a && a != ""
    requires '.' !in b && '/' !in b && b != ""
    ensures Split(a + "/" + b, '/') == [a, b]
    ensures Components([a, b]) == [a, b]
    ensures SeparatorsOf(a + "/" + b) == ["/"]
  {
    QuotientSplit(a, b);
    PlainComponents(a, b);
    QuotientSeparators(a, b);
  }

  lemma PlainComponents(a: string, b: string)
    requires '.' !in a && '.' !in b
    ensures Components([a, b]) == [a, b]
  {
    Unseparated(a, '.');
    Unseparated(b, '.');
    var segs := [a, b];
    assert segs[1..] == [b];
    assert [b][1..] == [];
    assert Components([b]) == Split(b, '.') + Components([]);
    assert Components(segs) == Split(a, '.') + Components([b]);
  }

  lemma QuotientSplit(a: string, b: string)
    requires '/' !in a && '/' !in b
    ensures Split(a + "/" + b, '/') == [a, b]
  {
    var parts := [a, b];
    assert Join(parts, '/') == a + "/" + b by {
      assert parts[1..] == [b];
    }
    assert forall i :: 0 <= i < |parts| ==> '/' !in parts[i];
    SplitJoin(parts, '/');
  }

  lemma QuotientSeparators(a: string, b: string)
    requires '.' !in a && '/' !in a && '.' !in b && '/' !in b
    ensures SeparatorsOf(a + "/" + b) == ["/"]
  {
    SeparatorsOfPlain(a);
    SeparatorsOfPlain(b);
    SeparatorsOfAppend(a + "/", b);
    SeparatorsOfAppend(a, "/");
    assert SeparatorsOf("/") == ["/"] by {
      assert "/"[1..] == [];
    }
  }
}
