/** `Parameter`, `factor`, `Parameters.to_SI` and `dict_to_parameters`: a
    magnitude with a unit string, its conversion to SI units through the
    package's two tables, and dictionaries of parameters built from nested
    dictionaries. */
module Parameter {

  import opened PyResult
  import opened PyStr
  import opened PyDict
  import opened Conversion
  import opened SIFactor
  import opened SIUnits
  import opened Flatten

  /** The `value` of a parameter: a number, or an iterable of numbers that
      `factor` scales element by element. */
  datatype Magnitude = Scalar(x: real) | Sequence(xs: seq<real>)

  /** `factor(data, factor)`: an iterable becomes the list of its elements
      times the factor, in order; a number is multiplied directly. */
  function Factor(data: Magnitude, f: real): (r: Magnitude)
    ensures r.Scalar? <==> data.Scalar?
    ensures r.Scalar? ==> r.x == data.x * f
    ensures r.Sequence? ==> |r.xs| == |data.xs| && forall i :: 0 <= i < |r.xs| ==> r.xs[i] == data.xs[i] * f
  {
    match data
    case Scalar(x) => Scalar(x * f)
    case Sequence(xs) => Sequence(seq(|xs|, i requires 0 <= i < |xs| => xs[i] * f))
  }

  /** Scaling by 1 changes nothing. */
  lemma FactorByOne(data: Magnitude)
    ensures Factor(data, 1.0) == data
  {
    if data.Sequence? {
      assert Factor(data, 1.0).xs == data.xs;
    }
  }

  /** Scaling twice is scaling once by the product of the factors. */
  lemma FactorComposes(data: Magnitude, f: real, g: real)
    ensures Factor(Factor(data, f), g) == Factor(data, f * g)
  {
    if data.Sequence? {
      var once := Factor(data, f);
      var twice := Factor(once, g).xs;
      var direct := Factor(data, f * g).xs;
      forall i | 0 <= i < |twice|
        ensures twice[i] == direct[i]
      {
        assert twice[i] == data.xs[i] * f * g;
        MultiplyAssociates(data.xs[i], f, g);
      }
      assert twice == direct;
    } else {
      MultiplyAssociates(data.x, f, g);
    }
  }

  /** Scaling by a non-zero factor is undone by scaling by its inverse. */
  lemma FactorInverts(data: Magnitude, f: real)
    requires f != 0.0
    ensures Factor(Factor(data, f), 1.0 / f) == data
  {
    var g := 1.0 / f;
    calc {
      Factor(Factor(data, f), g);
      { FactorComposes(data, f, g); }
      Factor(data, f * g);
      { assert f * g == 1.0; }
      Factor(data, 1.0);
      { FactorByOne(data); }
      data;
    }
  }

  lemma MultiplyAssociates(x: real, f: real, g: real)
    ensures x * f * g == x * (f * g)
  {
  }

  /** A positive factor keeps the sign of every number. */
  lemma FactorKeepsSign(data: Magnitude, f: real)
    requires f > 0.0
    ensures data.Scalar? ==> (Factor(data, f).x > 0.0 <==> data.x > 0.0) && (Factor(data, f).x == 0.0 <==> data.x == 0.0)
    ensures data.Sequence? ==> forall i :: 0 <= i < |data.xs| ==>
      (Factor(data, f).xs[i] > 0.0 <==> data.xs[i] > 0.0) && (Factor(data, f).xs[i] == 0.0 <==> data.xs[i] == 0.0)
  {
  }

  /** The value and units of the parameter `convert_to_SI` returns, or the
      exception it raises. The factor is computed first, so its KeyError or
      ValueError ends the conversion before the units are rewritten. */
  function ConvertedToSI(factors: Dict<real>, unitTable: Dict<string>, value: Magnitude, units: string): Result<(Magnitude, string)>
  {
    match SIFactor.FactorOf(factors, units)
    case Err(e) => Err(e)
    case Ok(f) => Ok((Factor(value, f), SIUnits.UnitsOf(unitTable, units)))
  }

  /** What the conversion needs of the module-level tables `FACTORS` and
      `UNITS`: positive factors, keys without separators, and the same keys in
      both. */
  predicate Tables(factors: Dict<real>, unitTable: Dict<string>)
  {
    PositiveFactors(factors) && PlainKeys(factors) && PlainKeys(unitTable) && Keys(factors) == Keys(unitTable)
  }

  /** The package's own tables meet them. */
  lemma PackageTables()
    ensures Tables(ToSIFactor, ToSIUnits)
  {
    FactorsPositive();
    KeysHaveNoSeparator();
    TablesListSameKeys();
  }

  /** The `Parameter` dataclass: a value and the unit string it is measured in. */
  class Parameter {
    var value: Magnitude
    var units: string

    constructor (value: Magnitude, units: string)
      ensures this.value == value && this.units == units
    {
      this.value := value;
      this.units := units;
    }

    /** `convert_to_SI`: a deep copy of the receiver whose value is scaled by
        the SI factor of its units and whose units are rewritten in SI symbols.
        The receiver itself is not changed. */
    method ConvertToSI(factors: Dict<real>, unitTable: Dict<string>) returns (r: Result<Parameter>)
      ensures r.Err? <==> ConvertedToSI(factors, unitTable, value, units).Err?
      ensures r.Err? ==> r.error == ConvertedToSI(factors, unitTable, value, units).error
      ensures r.Ok? ==> fresh(r.value) && (r.value.value, r.value.units) == ConvertedToSI(factors, unitTable, value, units).value
    {
      var paramNew := new Parameter(value, units);
      var f := GetSIFactor(factors, units);
      if f.Err? {
        return Err(f.error);
      }
      paramNew.value := Factor(value, f.value);
      var u := GetSIUnits(unitTable, units);
      paramNew.units := u;
      return Ok(paramNew);
    }
  }

  /** Conversion fails with KeyError for the first component of a non-empty
      segment that is not in the factor table, fails with ValueError when no
      segment is non-empty, and otherwise scales the value by the positive
      quotient of the segments' factors. */
  lemma ConvertedToSIResult(factors: Dict<real>, unitTable: Dict<string>, value: Magnitude, units: string)
    requires PositiveFactors(factors)
    ensures !Known(factors, Components(NonEmpty(Split(units, '/')))) ==>
      ConvertedToSI(factors, unitTable, value, units) ==
        Err(KeyError(FirstUnknown(factors, Components(NonEmpty(Split(units, '/')))).value))
    ensures NonEmpty(Split(units, '/')) == [] ==>
      ConvertedToSI(factors, unitTable, value, units) == Err(ValueError("Invalid units"))
    ensures Known(factors, Components(NonEmpty(Split(units, '/')))) && NonEmpty(Split(units, '/')) != [] ==>
      SegmentsKnown(factors, NonEmpty(Split(units, '/'))) &&
      Quotient(factors, NonEmpty(Split(units, '/'))) > 0.0 &&
      ConvertedToSI(factors, unitTable, value, units) ==
        Ok((Factor(value, Quotient(factors, NonEmpty(Split(units, '/')))), SIUnits.UnitsOf(unitTable, units)))
  {
    var segs := NonEmpty(Split(units, '/'));
    if !Known(factors, Components(segs)) {
      SIFactorUnknown(factors, units);
    } else if segs == [] {
      SIFactorNoSegment(factors, units);
    } else {
      SIFactorQuotient(factors, units);
      QuotientPositive(factors, segs);
    }
  }

  /** A successful conversion keeps the shape of the value and the sign of
      every number in it, and never divides by zero. */
  lemma ConvertedKeepsSign(factors: Dict<real>, unitTable: Dict<string>, value: Magnitude, units: string)
    requires PositiveFactors(factors)
    ensures ConvertedToSI(factors, unitTable, value, units).Err? ==>
      ConvertedToSI(factors, unitTable, value, units).error != ZeroDivisionError
    ensures ConvertedToSI(factors, unitTable, value, units).Ok? ==>
      var v := ConvertedToSI(factors, unitTable, value, units).value.0;
      (v.Scalar? <==> value.Scalar?) &&
      (v.Scalar? ==> (v.x > 0.0 <==> value.x > 0.0) && (v.x == 0.0 <==> value.x == 0.0)) &&
      (v.Sequence? ==>
        |v.xs| == |value.xs| &&
        forall i :: 0 <= i < |v.xs| ==> (v.xs[i] > 0.0 <==> value.xs[i] > 0.0) && (v.xs[i] == 0.0 <==> value.xs[i] == 0.0))
  {
    SIFactorPositive(factors, units);
    if SIFactor.FactorOf(factors, units).Ok? {
      FactorKeepsSign(value, SIFactor.FactorOf(factors, units).value);
    }
  }

  /** When every component of the unit string is in the tables, conversion
      succeeds and rewrites the unit string in place: each component becomes
      its SI symbol, and the separators stay as they were. */
  lemma ConvertedRenames(factors: Dict<real>, unitTable: Dict<string>, value: Magnitude, units: string)
    requires Tables(factors, unitTable) && Known(factors, Components(Split(units, '/')))
    ensures units == Concat(Interleave(Components(Split(units, '/')), SeparatorsOf(units)))
    ensures Listed(unitTable, Components(Split(units, '/')))
    ensures ConvertedToSI(factors, unitTable, value, units).Ok?
    ensures ConvertedToSI(factors, unitTable, value, units).value.1 ==
      Concat(Interleave(SISymbols(unitTable, Components(Split(units, '/'))), SeparatorsOf(units)))
  {
    var segs := Split(units, '/');
    var cs := Components(segs);
    KnownComponents(factors, segs);
    forall i | 0 <= i < |segs|
      ensures segs[i] != ""
    {
      if segs[i] == "" {
        Unseparated("", '.');
        assert Known(factors, Split(segs[i], '.'));
        assert Split(segs[i], '.')[0] == "";
        PlainLookup(factors, "");
      }
    }
    NonEmptyKeepsAll(segs);
    forall i | 0 <= i < |cs|
      ensures Get(unitTable, cs[i]).Some?
    {
      GetFound(factors, cs[i]);
      GetFound(unitTable, cs[i]);
    }
    SIUnitsRenames(unitTable, units);
    ConvertedToSIResult(factors, unitTable, value, units);
  }

  /** A unit string that is one symbol of the tables converts by its factor to
      its SI symbol. */
  lemma SingleSymbol(factors: Dict<real>, unitTable: Dict<string>, value: Magnitude, a: string)
    requires Tables(factors, unitTable) && Get(factors, a).Some?
    ensures Get(unitTable, a).Some?
    ensures ConvertedToSI(factors, unitTable, value, a) ==
      Ok((Factor(value, Get(factors, a).value), Get(unitTable, a).value))
  {
    PlainLookup(factors, a);
    SymbolSegment(factors, a);
    SingleSegment(factors, a);
    GetFound(factors, a);
    GetFound(unitTable, a);
    SymbolUnits(unitTable, a);
  }

  /** `a/b` for two symbols of the tables converts by the quotient of their
      factors to `A/B`, where `A` and `B` are their SI symbols. */
  lemma QuotientOfSymbols(factors: Dict<real>, unitTable: Dict<string>, value: Magnitude, a: string, b: string)
    requires Tables(factors, unitTable) && Get(factors, a).Some? && Get(factors, b).Some?
    ensures Get(unitTable, a).Some? && Get(unitTable, b).Some? && Get(factors, b).value > 0.0
    ensures ConvertedToSI(factors, unitTable, value, a + "/" + b) ==
      Ok((Factor(value, Get(factors, a).value / Get(factors, b).value),
          Get(unitTable, a).value + "/" + Get(unitTable, b).value))
  {
    PositiveLookup(factors, b);
    PlainLookup(factors, a);
    PlainLookup(factors, b);
    GetFound(factors, a);
    GetFound(unitTable, a);
    GetFound(factors, b);
    GetFound(unitTable, b);
    SymbolQuotientFactor(factors, a, b);
    QuotientUnits(unitTable, a, b);
  }

  /** A leading `/` is ignored by the factor but kept by the units: `/a`
      scales by the factor of `a` and converts to `A/`. */
  lemma LeadingSlash(factors: Dict<real>, unitTable: Dict<string>, value: Magnitude, a: string)
    requires Tables(factors, unitTable) && Get(factors, a).Some?
    ensures Get(unitTable, a).Some?
    ensures ConvertedToSI(factors, unitTable, value, "/" + a) ==
      Ok((Factor(value, Get(factors, a).value), Get(unitTable, a).value + "/"))
  {
    GetFound(factors, a);
    GetFound(unitTable, a);
    LeadingSlashFactor(factors, a);
    LeadingSlashUnits(unitTable, a);
  }

  /** The empty unit string and a lone `/` raise ValueError, whatever the tables. */
  lemma NoSegment(factors: Dict<real>, unitTable: Dict<string>, value: Magnitude)
    ensures ConvertedToSI(factors, unitTable, value, "") == Err(ValueError("Invalid units"))
    ensures ConvertedToSI(factors, unitTable, value, "/") == Err(ValueError("Invalid units"))
  {
    NoSegmentFactor(factors);
  }

  /** A plain component that is not in the factor table makes conversion fail
      with KeyError naming it. */
  lemma UnknownSymbol(factors: Dict<real>, unitTable: Dict<string>, value: Magnitude, a: string)
    requires PositiveFactors(factors) && Get(factors, a).None?
    requires '.' !in a && '/' !in a && a != ""
    ensures ConvertedToSI(factors, unitTable, value, a) == Err(KeyError(a))
  {
    Unseparated(a, '/');
    Unseparated(a, '.');
    NonEmptyKeepsAll([a]);
    assert Components([a]) == [a] by {
      assert [a][1..] == [];
    }
    ConvertedToSIResult(factors, unitTable, value, a);
  }

  /** `a/b` with `a` in the factor table and a plain `b` that is not fails with
      KeyError naming `b`. */
  lemma UnknownDivisor(factors: Dict<real>, unitTable: Dict<string>, value: Magnitude, a: string, b: string)
    requires PositiveFactors(factors) && PlainKeys(factors)
    requires Get(factors, a).Some? && Get(factors, b).None?
    requires '.' !in b && '/' !in b && b != ""
    ensures ConvertedToSI(factors, unitTable, value, a + "/" + b) == Err(KeyError(b))
  {
    PlainLookup(factors, a);
    QuotientShape(a, b);
    NonEmptyKeepsAll([a, b]);
    assert FirstUnknown(factors, [a, b]) == Some(b) by {
      assert [a, b][1..] == [b];
    }
    ConvertedToSIResult(factors, unitTable, value, a + "/" + b);
  }

  /** The conversion of one parameter's value and units. */
  type Converter = (Magnitude, string) -> Result<(Magnitude, string)>

  /** `convert_to_SI` on the values and units of one parameter. */
  function ConvertEntry(factors: Dict<real>, unitTable: Dict<string>): (c: Converter)
    ensures forall value, units :: c(value, units) == ConvertedToSI(factors, unitTable, value, units)
  {
    (value, units) => ConvertedToSI(factors, unitTable, value, units)
  }

  /** The dictionary `to_SI` builds from the values and units of its
      entries: each entry converted under its own key, or the first entry's
      exception. */
  function ConvertAll(convert: Converter, entries: Dict<(Magnitude, string)>): Result<Dict<(Magnitude, string)>>
  {
    if |entries| == 0 then Ok([])
    else
      var last := entries[|entries| - 1];
      match ConvertAll(convert, entries[..|entries| - 1])
      case Err(e) => Err(e)
      case Ok(done) =>
        match convert(last.1.0, last.1.1)
        case Err(e) => Err(e)
        case Ok(c) => Ok(done + [(last.0, c)])
  }


  /** One more entry: `to_SI` goes on converting while no entry has failed. */
  lemma ConvertAllStep(convert: Converter, entries: Dict<(Magnitude, string)>, n: nat)
    requires n < |entries|
    ensures ConvertAll(convert, entries[..n + 1]) ==
      match ConvertAll(convert, entries[..n])
      case Err(e) => Err(e)
      case Ok(done) =>
        match convert(entries[n].1.0, entries[n].1.1)
        case Err(e) => Err(e)
        case Ok(c) => Ok(done + [(entries[n].0, c)])
  {
    assert entries[..n + 1][..n] == entries[..n];
  }

  /** `to_SI` succeeds exactly when every entry converts. */
  lemma {:induction false} ConvertAllSucceeds(convert: Converter, entries: Dict<(Magnitude, string)>)
    ensures ConvertAll(convert, entries).Ok? <==> forall i :: 0 <= i < |entries| ==> convert(entries[i].1.0, entries[i].1.1).Ok?
    decreases |entries|
  {
    if |entries| > 0 {
      var n := |entries| - 1;
      ConvertAllSucceeds(convert, entries[..n]);
      assert forall i :: 0 <= i < n ==> entries[..n][i] == entries[i];
    }
  }

  /** `to_SI` keeps exactly the keys, in order, each with its entry converted. */
  lemma {:induction false} ConvertAllKeepsKeys(convert: Converter, entries: Dict<(Magnitude, string)>)
    requires ConvertAll(convert, entries).Ok?
    ensures Keys(ConvertAll(convert, entries).value) == Keys(entries)
    ensures forall i :: 0 <= i < |entries| ==>
      convert(entries[i].1.0, entries[i].1.1) == Ok(ConvertAll(convert, entries).value[i].1)
    decreases |entries|
  {
    if |entries| > 0 {
      var n := |entries| - 1;
      var init := entries[..n];
      ConvertAllKeepsKeys(convert, init);
      assert forall i :: 0 <= i < n ==> init[i] == entries[i];
      var done := ConvertAll(convert, init).value;
      var c := convert(entries[n].1.0, entries[n].1.1).value;
      KeysAppend(done, [(entries[n].0, c)]);
      KeysAppend(init, [entries[n]]);
      assert entries == init + [entries[n]];
    }
  }

  /** When `to_SI` fails, it raises the exception of the first entry that fails. */
  lemma {:induction false} ConvertAllFirstError(convert: Converter, entries: Dict<(Magnitude, string)>)
    requires ConvertAll(convert, entries).Err?
    ensures exists i ::
      0 <= i < |entries| && convert(entries[i].1.0, entries[i].1.1) == Err(ConvertAll(convert, entries).error) &&
      forall j :: 0 <= j < i ==> convert(entries[j].1.0, entries[j].1.1).Ok?
    decreases |entries|
  {
    var n := |entries| - 1;
    var init := entries[..n];
    assert forall i :: 0 <= i < n ==> init[i] == entries[i];
    if ConvertAll(convert, init).Err? {
      ConvertAllFirstError(convert, init);
    } else {
      ConvertAllSucceeds(convert, init);
    }
  }

  /** Once a prefix of the entries fails, so do all the entries. */
  lemma {:induction false} ConvertAllErrorSticks(convert: Converter, entries: Dict<(Magnitude, string)>, n: nat)
    requires n <= |entries| && ConvertAll(convert, entries[..n]).Err?
    ensures ConvertAll(convert, entries) == ConvertAll(convert, entries[..n])
    decreases |entries| - n
  {
    if n < |entries| {
      ConvertAllStep(convert, entries, n);
      ConvertAllErrorSticks(convert, entries, n + 1);
    } else {
      assert entries[..n] == entries;
    }
  }

  /** `Parameters.to_SI` on a dictionary of parameters, each given by its
      value and units: every parameter converted under its own key, in
      order, or the exception of the first one that fails. */
  function ToSI(factors: Dict<real>, unitTable: Dict<string>, parameters: Dict<(Magnitude, string)>): Result<Dict<(Magnitude, string)>>
  {
    ConvertAll(ConvertEntry(factors, unitTable), parameters)
  }

  /** `dict_to_parameters`: the flattened nested dictionary, whose leaves are
      the (value, units) pairs of the parameters, converted to SI units when
      asked. */
  function DictToParameters(factors: Dict<real>, unitTable: Dict<string>, d: Nested<(Magnitude, string)>, convertToSI: bool): Result<Dict<(Magnitude, string)>>
  {
    var parameters := Flattened(d, "", '.');
    if convertToSI then ToSI(factors, unitTable, parameters) else Ok(parameters)
  }

  /** `to_SI` leaves a dictionary's keys as they are, converting each
      parameter with `convert_to_SI`; it fails exactly when some parameter
      fails. */
  lemma ToSIResult(factors: Dict<real>, unitTable: Dict<string>, parameters: Dict<(Magnitude, string)>)
    ensures ToSI(factors, unitTable, parameters).Ok? <==>
      forall i :: 0 <= i < |parameters| ==> ConvertedToSI(factors, unitTable, parameters[i].1.0, parameters[i].1.1).Ok?
    ensures ToSI(factors, unitTable, parameters).Ok? ==>
      Keys(ToSI(factors, unitTable, parameters).value) == Keys(parameters) &&
      forall i :: 0 <= i < |parameters| ==>
        ConvertedToSI(factors, unitTable, parameters[i].1.0, parameters[i].1.1) == Ok(ToSI(factors, unitTable, parameters).value[i].1)
  {
    var convert := ConvertEntry(factors, unitTable);
    ConvertAllSucceeds(convert, parameters);
    if ConvertAll(convert, parameters).Ok? {
      ConvertAllKeepsKeys(convert, parameters);
    }
  }

  /** On a dictionary with distinct keys, `to_SI` succeeds exactly when the
      parameter under every key converts, and then holds under each key the
      conversion of the parameter under it, and under no other key. */
  lemma ToSILookups(factors: Dict<real>, unitTable: Dict<string>, parameters: Dict<(Magnitude, string)>)
    requires DistinctKeys(parameters)
    ensures ToSI(factors, unitTable, parameters).Ok? <==>
      forall k :: Get(parameters, k).Some? ==>
        ConvertedToSI(factors, unitTable, Get(parameters, k).value.0, Get(parameters, k).value.1).Ok?
    ensures ToSI(factors, unitTable, parameters).Ok? ==>
      var converted := ToSI(factors, unitTable, parameters).value;
      DistinctKeys(converted) &&
      forall k :: (Get(converted, k).Some? <==> Get(parameters, k).Some?) &&
        (Get(parameters, k).Some? ==>
          ConvertedToSI(factors, unitTable, Get(parameters, k).value.0, Get(parameters, k).value.1) == Ok(Get(converted, k).value))
  {
    ToSIResult(factors, unitTable, parameters);
    forall k | Get(parameters, k).Some?
      ensures exists i :: 0 <= i < |parameters| && parameters[i] == (k, Get(parameters, k).value)
    {
      GetEntry(parameters, k);
    }
    forall i | 0 <= i < |parameters|
      ensures Get(parameters, parameters[i].0) == Some(parameters[i].1)
    {
      GetDistinct(parameters, i);
    }
    if ToSI(factors, unitTable, parameters).Ok? {
      var converted := ToSI(factors, unitTable, parameters).value;
      forall k | Get(parameters, k).Some?
        ensures ConvertedToSI(factors, unitTable, Get(parameters, k).value.0, Get(parameters, k).value.1).Ok?
      {
        var i :| 0 <= i < |parameters| && parameters[i] == (k, Get(parameters, k).value);
        assert ConvertedToSI(factors, unitTable, parameters[i].1.0, parameters[i].1.1).Ok?;
      }
      assert Keys(converted) == Keys(parameters);
      assert DistinctKeys(converted) by {
        forall i, j | 0 <= i < j < |converted|
          ensures converted[i].0 != converted[j].0
        {
          assert Keys(converted)[i] == Keys(parameters)[i] && Keys(converted)[j] == Keys(parameters)[j];
        }
      }
      forall k
        ensures Get(converted, k).Some? <==> Get(parameters, k).Some?
        ensures Get(parameters, k).Some? ==>
          ConvertedToSI(factors, unitTable, Get(parameters, k).value.0, Get(parameters, k).value.1) == Ok(Get(converted, k).value)
      {
        GetFound(converted, k);
        GetFound(parameters, k);
        if Get(parameters, k).Some? {
          var i :| 0 <= i < |parameters| && parameters[i] == (k, Get(parameters, k).value);
          GetDistinct(converted, i);
          assert converted[i].0 == Keys(converted)[i] == Keys(parameters)[i] == k;
        }
      }
    } else {
      var i :| 0 <= i < |parameters| && !ConvertedToSI(factors, unitTable, parameters[i].1.0, parameters[i].1.1).Ok?;
      var k := parameters[i].0;
      assert Get(parameters, k).Some? &&
        !ConvertedToSI(factors, unitTable, Get(parameters, k).value.0, Get(parameters, k).value.1).Ok?;
    }
  }

  /** `to_SI` applied to a dictionary that agrees, key by key, with the items
      it was built from: success and each converted value read off the items. */
  lemma ToSIOfItems(factors: Dict<real>, unitTable: Dict<string>, parameters: Dict<(Magnitude, string)>, items: Dict<(Magnitude, string)>)
    requires DistinctKeys(parameters)
    requires forall k :: Get(parameters, k) == Get(items, k)
    ensures ToSI(factors, unitTable, parameters).Ok? <==>
      forall k :: Get(items, k).Some? ==>
        ConvertedToSI(factors, unitTable, Get(items, k).value.0, Get(items, k).value.1).Ok?
    ensures ToSI(factors, unitTable, parameters).Ok? ==>
      var converted := ToSI(factors, unitTable, parameters).value;
      DistinctKeys(converted) && Keys(converted) == Keys(parameters) &&
      forall k :: (Get(converted, k).Some? <==> Get(items, k).Some?) &&
        (Get(items, k).Some? ==>
          ConvertedToSI(factors, unitTable, Get(items, k).value.0, Get(items, k).value.1) == Ok(Get(converted, k).value))
  {
    ToSIResult(factors, unitTable, parameters);
    ToSILookups(factors, unitTable, parameters);
    if ToSI(factors, unitTable, parameters).Ok? {
      var converted := ToSI(factors, unitTable, parameters).value;
      forall k
        ensures Get(converted, k).Some? <==> Get(items, k).Some?
        ensures Get(items, k).Some? ==>
          ConvertedToSI(factors, unitTable, Get(items, k).value.0, Get(items, k).value.1).Ok? &&
          ConvertedToSI(factors, unitTable, Get(items, k).value.0, Get(items, k).value.1) == Ok(Get(converted, k).value)
      {
        assert Get(parameters, k) == Get(items, k);
      }
    } else {
      var k :| Get(parameters, k).Some? &&
        !ConvertedToSI(factors, unitTable, Get(parameters, k).value.0, Get(parameters, k).value.1).Ok?;
      assert Get(items, k) == Get(parameters, k);
    }
  }

  /** The parameters `dict_to_parameters` builds are those of the leaves, each
      under the full key of its path: one per distinct full key, in the
      order the keys first occur, with the last leaf's value and units (or
      their conversion) under a repeated key. Converting, it succeeds exactly
      when the last leaf under every full key converts. */
  lemma DictToParametersResult(factors: Dict<real>, unitTable: Dict<string>, d: Nested<(Magnitude, string)>, convertToSI: bool)
    ensures var leaves := Keyed("", '.', Paths(d, |d|));
      DictToParameters(factors, unitTable, d, convertToSI).Ok? ==>
        var parameters := DictToParameters(factors, unitTable, d, convertToSI).value;
        DistinctKeys(parameters) && Keys(parameters) == Dedup(Keys(leaves)) &&
        (!convertToSI ==> forall k :: Get(parameters, k) == Get(leaves, k))
    ensures !convertToSI ==> DictToParameters(factors, unitTable, d, convertToSI).Ok?
    ensures var leaves := Keyed("", '.', Paths(d, |d|));
      convertToSI ==>
        (DictToParameters(factors, unitTable, d, convertToSI).Ok? <==>
          forall k :: Get(leaves, k).Some? ==>
            ConvertedToSI(factors, unitTable, Get(leaves, k).value.0, Get(leaves, k).value.1).Ok?)
    ensures var leaves := Keyed("", '.', Paths(d, |d|));
      convertToSI && DictToParameters(factors, unitTable, d, convertToSI).Ok? ==>
        var parameters := DictToParameters(factors, unitTable, d, convertToSI).value;
        forall k :: (Get(parameters, k).Some? <==> Get(leaves, k).Some?) &&
          (Get(leaves, k).Some? ==>
            ConvertedToSI(factors, unitTable, Get(leaves, k).value.0, Get(leaves, k).value.1) == Ok(Get(parameters, k).value))
  {
    var leaves := Keyed("", '.', Paths(d, |d|));
    var flat := Flattened(d, "", '.');
    FlattenedPaths(d, "", '.');
    FromItemsKeys(leaves);
    FromItemsDistinct(leaves);
    forall k
      ensures Get(flat, k) == Get(leaves, k)
    {
      FromItemsGet(leaves, k);
    }
    if convertToSI {
      ToSIOfItems(factors, unitTable, flat, leaves);
    }
  }
}
