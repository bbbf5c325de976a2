/** The units half of `Parameter.convert_to_SI`: its nested helper
    `get_SI_units`. It reads the module-level dictionary `UNITS`, which is the
    parameter `unitTable` here; the package's own is `Conversion.ToSIUnits`. */
module SIUnits {

  import opened PyResult
  import opened PyStr
  import opened PyDict
  import opened Conversion

  /** What `converted_units` gains from one component of the split: its SI
      symbol when it is a key, nothing otherwise. */
  function ConvertedOf(unitTable: Dict<string>, component: string): seq<string>
  {
    match Get(unitTable, component)
    case Some(u) => [u]
    case None => []
  }

  /** What `separators` gains from one component: the component itself when it
      is not a key but is `/` or `.`, nothing otherwise. */
  function SeparatorOf(unitTable: Dict<string>, component: string): seq<string>
  {
    if Get(unitTable, component).None? && (component == "/" || component == ".") then [component] else []
  }

  /** The list `converted_units` holds after the loop over `components`. */
  function ConvertedUnits(unitTable: Dict<string>, components: seq<string>): seq<string>
  {
    if |components| == 0 then []
    else ConvertedOf(unitTable, components[0]) + ConvertedUnits(unitTable, components[1..])
  }

  /** The list `separators` holds after the loop over `components`. */
  function SeparatorList(unitTable: Dict<string>, components: seq<string>): seq<string>
  {
    if |components| == 0 then []
    else SeparatorOf(unitTable, components[0]) + SeparatorList(unitTable, components[1..])
  }

  /** The values of `zip_longest(a, b)`, pair by pair, without the `None`
      padding of the shorter list. */
  function Interleave(a: seq<string>, b: seq<string>): (r: seq<string>)
    ensures |r| == |a| + |b|
    ensures forall i :: 0 <= i < |a| ==> r[i + (if i < |b| then i else |b|)] == a[i]
    ensures forall j :: 0 <= j < |b| ==> r[j + (if j < |a| then j + 1 else |a|)] == b[j]
  {
    if |a| == 0 then b
    else if |b| == 0 then a
    else [a[0], b[0]] + Interleave(a[1..], b[1..])
  }

  /** The string `get_SI_units` returns. */
  function UnitsOf(unitTable: Dict<string>, units: string): string
  {
    var splitUnits := ReSplit(units);
    Concat(Interleave(ConvertedUnits(unitTable, splitUnits), SeparatorList(unitTable, splitUnits)))
  }

  lemma {:induction false} ConvertedAppend(unitTable: Dict<string>, a: seq<string>, b: seq<string>)
    ensures ConvertedUnits(unitTable, a + b) == ConvertedUnits(unitTable, a) + ConvertedUnits(unitTable, b)
    ensures SeparatorList(unitTable, a + b) == SeparatorList(unitTable, a) + SeparatorList(unitTable, b)
    decreases |a|
  {
    if |a| == 0 {
      assert a + b == b;
    } else {
      assert (a + b)[1..] == a[1..] + b;
      ConvertedAppend(unitTable, a[1..], b);
    }
  }

  /** `get_SI_units`: the loop that sorts the pieces of `re.split` into SI
      symbols and separators, followed by the interleaving join. */
  method GetSIUnits(unitTable: Dict<string>, units: string) returns (r: string)
    ensures r == UnitsOf(unitTable, units)
  {
    var splitUnits := ReSplit(units);
    var convertedUnits: seq<string> := [];
    var separators: seq<string> := [];
    for i := 0 to |splitUnits|
      invariant convertedUnits == ConvertedUnits(unitTable, splitUnits[..i])
      invariant separators == SeparatorList(unitTable, splitUnits[..i])
    {
      var component := splitUnits[i];
      ConvertedAppend(unitTable, splitUnits[..i], [component]);
      assert splitUnits[..i + 1] == splitUnits[..i] + [component];
      assert [component][1..] == [];
      match Get(unitTable, component)
      case Some(u) =>
        convertedUnits := convertedUnits + [u];
      case None =>
        if component == "/" || component == "." {
          separators := separators + [component];
        }
    }
    assert splitUnits[..|splitUnits|] == splitUnits;
    r := Concat(Interleave(convertedUnits, separators));
  }

  /** Every component is a key of the units dictionary. */
  predicate Listed(unitTable: Dict<string>, components: seq<string>)
  {
    forall i :: 0 <= i < |components| ==> Get(unitTable, components[i]).Some?
  }

  /** The SI symbols of listed components, in order. */
  function SISymbols(unitTable: Dict<string>, components: seq<string>): (r: seq<string>)
    requires Listed(unitTable, components)
    ensures |r| == |components|
    ensures forall i :: 0 <= i < |r| ==> Get(unitTable, components[i]) == Some(r[i])
  {
    seq(|components|, i requires 0 <= i < |components| => Get(unitTable, components[i]).value)
  }

  /** Listed components are all converted, each to its SI symbol. */
  lemma {:induction false} ConvertedListed(unitTable: Dict<string>, components: seq<string>)
    requires Listed(unitTable, components)
    ensures ConvertedUnits(unitTable, components) == SISymbols(unitTable, components)
    decreases |components|
  {
    if |components| > 0 {
      var rest := components[1..];
      assert Listed(unitTable, rest) by {
        assert forall i :: 0 <= i < |rest| ==> rest[i] == components[i + 1];
      }
      ConvertedListed(unitTable, rest);
      assert SISymbols(unitTable, components) == [Get(unitTable, components[0]).value] + SISymbols(unitTable, rest);
    }
  }

  /** A component that is not a key is dropped: the rest convert as if it were absent. */
  lemma ConvertedDropsUnlisted(unitTable: Dict<string>, a: seq<string>, c: string, b: seq<string>)
    requires Get(unitTable, c).None?
    ensures ConvertedUnits(unitTable, a + [c] + b) == ConvertedUnits(unitTable, a + b)
  {
    assert ConvertedUnits(unitTable, [c]) == [] by {
      assert [c][1..] == [];
    }
    ConvertedAppend(unitTable, a + [c], b);
    ConvertedAppend(unitTable, a, [c]);
    assert ConvertedUnits(unitTable, a + [c]) == ConvertedUnits(unitTable, a);
    ConvertedAppend(unitTable, a, b);
  }

  /** A separator is never a key of a dictionary with plain keys. */
  lemma SeparatorUnlisted<V>(d: Dict<V>, sep: string)
    requires PlainKeys(d) && (sep == "/" || sep == ".")
    ensures Get(d, sep).None?
  {
    if Get(d, sep).Some? {
      GetEntry(d, sep);
    }
  }

  /** A piece that holds no separator is never `/` or `.`. */
  lemma PieceIsNotSeparator(piece: string)
    requires NoSeparator(piece)
    ensures piece != "/" && piece != "."
  {
    if |piece| == 1 {
      assert !IsSeparator(piece[0]);
    }
  }

  /** On the output of `re.split`, the pieces alone give the converted units and
      the separators alone give the separator list. */
  lemma {:induction false} ConvertedAlternating(unitTable: Dict<string>, r: seq<string>)
    requires PlainKeys(unitTable) && Alternating(r)
    ensures ConvertedUnits(unitTable, r) == ConvertedUnits(unitTable, Pieces(r))
    ensures SeparatorList(unitTable, r) == Separators(r)
    decreases |r|
  {
    PieceIsNotSeparator(r[0]);
    if |r| == 1 {
      assert r[1..] == [];
    } else {
      var rest := r[2..];
      ConvertedAlternating(unitTable, rest);
      SeparatorUnlisted(unitTable, r[1]);
      assert r == [r[0], r[1]] + rest;
      ConvertedAppend(unitTable, [r[0], r[1]], rest);
      ConvertedAppend(unitTable, [r[0]], Pieces(rest));
      assert [r[0], r[1]][1..] == [r[1]];
      assert [r[1]][1..] == [];
      assert [r[0]][1..] == [];
    }
  }

  /** Interleaving the pieces and separators of an alternating split rebuilds it. */
  lemma {:induction false} InterleaveRebuilds(r: seq<string>)
    requires Alternating(r)
    ensures Interleave(Pieces(r), Separators(r)) == r
    decreases |r|
  {
    if |r| > 1 {
      InterleaveRebuilds(r[2..]);
      assert r == [r[0], r[1]] + r[2..];
    }
  }

  /** The number of pieces of an alternating split exceeds its number of separators by one. */
  lemma {:induction false} PiecesOutnumberSeparators(r: seq<string>)
    requires Alternating(r)
    ensures |Pieces(r)| == |Separators(r)| + 1
    decreases |r|
  {
    if |r| > 1 {
      PiecesOutnumberSeparators(r[2..]);
    }
  }

  /** `get_SI_units` keeps every `/` and `.` of the unit string, in order, and
      interleaves them with the SI symbols of the listed components of the
      `/`- and `.`-split, in order; unlisted components contribute nothing. */
  lemma SIUnitsShape(unitTable: Dict<string>, units: string)
    requires PlainKeys(unitTable)
    ensures SeparatorList(unitTable, ReSplit(units)) == SeparatorsOf(units)
    ensures UnitsOf(unitTable, units) ==
      Concat(Interleave(ConvertedUnits(unitTable, Components(Split(units, '/'))), SeparatorsOf(units)))
  {
    ReSplitShape(units);
    ConvertedAlternating(unitTable, ReSplit(units));
    ReSplitSeparators(units);
    ReSplitPieces(units);
  }

  /** When every component is listed, `get_SI_units` rewrites the unit string in
      place: the same separators in the same order, each component replaced by
      its SI symbol. */
  lemma SIUnitsRenames(unitTable: Dict<string>, units: string)
    requires PlainKeys(unitTable) && Listed(unitTable, Components(Split(units, '/')))
    ensures units == Concat(Interleave(Components(Split(units, '/')), SeparatorsOf(units)))
    ensures UnitsOf(unitTable, units) ==
      Concat(Interleave(SISymbols(unitTable, Components(Split(units, '/'))), SeparatorsOf(units)))
  {
    var r := ReSplit(units);
    ReSplitShape(units);
    InterleaveRebuilds(r);
    ReSplitSeparators(units);
    ReSplitPieces(units);
    SIUnitsShape(unitTable, units);
    ConvertedListed(unitTable, Components(Split(units, '/')));
  }

  /** A symbol of the table alone converts to its SI symbol. */
  lemma SymbolUnits(unitTable: Dict<string>, a: string)
    requires PlainKeys(unitTable) && Get(unitTable, a).Some?
    ensures UnitsOf(unitTable, a) == Get(unitTable, a).value
  {
    PlainLookup(unitTable, a);
    Unseparated(a, '/');
    Unseparated(a, '.');
    assert Components([a]) == [a] by {
      assert [a][1..] == [];
    }
    SeparatorsOfPlain(a);
    SIUnitsRenames(unitTable, a);
    var u := SISymbols(unitTable, [a]);
    assert Interleave(u, []) == u;
    assert u[1..] == [];
  }

  /** Interleaving two SI symbols with one `/` and joining gives `A/B`. */
  lemma QuotientJoin(x: string, y: string)
    ensures Concat(Interleave([x, y], ["/"])) == x + "/" + y
  {
    assert Interleave([x, y], ["/"]) == [x, "/", y] by {
      assert [x, y][1..] == [y];
      assert Interleave([y], []) == [y];
    }
    assert Concat([x, "/", y]) == x + "/" + y by {
      assert [x, "/", y][1..] == ["/", y];
      assert ["/", y][1..] == [y];
      assert Concat([y]) == y + Concat([]);
    }
  }

  /** `a/b` for two symbols of the table converts to `A/B`, where `A` and `B`
      are their SI symbols. */
  lemma QuotientUnits(unitTable: Dict<string>, a: string, b: string)
    requires PlainKeys(unitTable) && Get(unitTable, a).Some? && Get(unitTable, b).Some?
    ensures UnitsOf(unitTable, a + "/" + b) == Get(unitTable, a).value + "/" + Get(unitTable, b).value
  {
    PlainLookup(unitTable, a);
    PlainLookup(unitTable, b);
    QuotientShape(a, b);
    SIUnitsRenames(unitTable, a + "/" + b);
    var u := SISymbols(unitTable, [a, b]);
    assert u == [Get(unitTable, a).value, Get(unitTable, b).value];
    QuotientJoin(u[0], u[1]);
  }

  /** `/a` converts to `A/`: the leading empty piece is dropped and the
      separator is kept after the SI symbol. */
  lemma LeadingSlashUnits(unitTable: Dict<string>, a: string)
    requires PlainKeys(unitTable) && Get(unitTable, a).Some?
    ensures UnitsOf(unitTable, "/" + a) == Get(unitTable, a).value + "/"
  {
    PlainLookup(unitTable, a);
    Unseparated(a, '/');
    Unseparated(a, '.');
    var units := "/" + a;
    assert units[0] == '/' && units[1..] == a;
    assert Split(units, '/') == ["", a];
    assert Components(["", a]) == ["", a] by {
      assert ["", a][1..] == [a];
      assert [a][1..] == [];
      assert Split("", '.') == [""];
      assert Components([a]) == Split(a, '.') + Components([]);
      assert Components(["", a]) == Split("", '.') + Components([a]);
    }
    SIUnitsShape(unitTable, units);
    if Get(unitTable, "").Some? {
      PlainLookup(unitTable, "");
    }
    assert ConvertedUnits(unitTable, ["", a]) == [Get(unitTable, a).value] by {
      assert ["", a][1..] == [a];
      assert [a][1..] == [];
      assert ConvertedOf(unitTable, "") == [];
      assert ConvertedUnits(unitTable, [a]) == ConvertedOf(unitTable, a) + ConvertedUnits(unitTable, []);
      assert ConvertedUnits(unitTable, ["", a]) == ConvertedOf(unitTable, "") + ConvertedUnits(unitTable, [a]);
    }
    SeparatorsOfPlain(a);
    assert SeparatorsOf(units) == ["/"];
    var u := Get(unitTable, a).value;
    assert Interleave([u], ["/"]) == [u, "/"];
    assert Concat([u, "/"]) == u + "/" by {
      assert [u, "/"][1..] == ["/"];
      assert Concat(["/"]) == "/" + Concat([]);
    }
  }
}
