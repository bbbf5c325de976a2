/** The conversions checked by the package's tests, and the behaviours of the
    code on unit strings outside what it was written for, on the package's
    own tables. */
module Examples {

  import opened PyResult
  import opened PyDict
  import opened Conversion
  import opened Parameter
  import opened Flatten

  /** 1 m is 1 m. */
  lemma Metres(factors: Dict<real>, unitTable: Dict<string>)
    requires factors == ToSIFactor && unitTable == ToSIUnits
    ensures ConvertedToSI(factors, unitTable, Scalar(1.0), "m") == Ok((Scalar(1.0), "m"))
  {
    PackageTables();
    TestFactors();
    TestUnits();
    SingleSymbol(factors, unitTable, Scalar(1.0), "m");
  }

  /** 2 mm is 0.002 m. */
  lemma Millimetres(factors: Dict<real>, unitTable: Dict<string>)
    requires factors == ToSIFactor && unitTable == ToSIUnits
    ensures ConvertedToSI(factors, unitTable, Scalar(2.0), "mm") == Ok((Scalar(0.002), "m"))
  {
    PackageTables();
    TestFactors();
    TestUnits();
    SingleSymbol(factors, unitTable, Scalar(2.0), "mm");
  }

  /** 3 mm/s is 0.003 m/s. */
  lemma MillimetresPerSecond(factors: Dict<real>, unitTable: Dict<string>)
    requires factors == ToSIFactor && unitTable == ToSIUnits
    ensures ConvertedToSI(factors, unitTable, Scalar(3.0), "mm/s") == Ok((Scalar(0.003), "m/s"))
  {
    PackageTables();
    TestFactors();
    TestUnits();
    QuotientOfSymbols(factors, unitTable, Scalar(3.0), "mm", "s");
    assert "mm" + "/" + "s" == "mm/s";
    assert "m" + "/" + "s" == "m/s";
    assert Factor(Scalar(3.0), 0.001 / 1.0) == Scalar(0.003);
  }

  /** 3 mm/min is 0.00005 m/s. */
  lemma MillimetresPerMinute(factors: Dict<real>, unitTable: Dict<string>)
    requires factors == ToSIFactor && unitTable == ToSIUnits
    ensures ConvertedToSI(factors, unitTable, Scalar(3.0), "mm/min") == Ok((Scalar(0.00005), "m/s"))
  {
    PackageTables();
    TestFactors();
    TestUnits();
    QuotientOfSymbols(factors, unitTable, Scalar(3.0), "mm", "min");
    assert "mm" + "/" + "min" == "mm/min";
    assert "m" + "/" + "s" == "m/s";
    assert Factor(Scalar(3.0), 0.001 / 60.0) == Scalar(0.00005);
  }

  /** The angular rates of the tests, for any value of Pi. */
  lemma AngularRates(p: real)
    ensures 2.0 * ((p / 180.0) / 60.0) == p / 5400.0
    ensures 100.0 * ((2.0 * p) / 60.0) == 10.0 * p / 3.0
    ensures 1000.0 * ((2.0 * p) / 3600.0) == 5.0 * p / 9.0
  {
  }

  /** 2 deg/min is 2 (Pi/180)/60 rad/s. */
  lemma DegreesPerMinute(factors: Dict<real>, unitTable: Dict<string>)
    requires factors == ToSIFactor && unitTable == ToSIUnits
    ensures ConvertedToSI(factors, unitTable, Scalar(2.0), "deg/min") == Ok((Scalar(Pi / 5400.0), "rad/s"))
  {
    PackageTables();
    TestFactors();
    TestUnits();
    QuotientOfSymbols(factors, unitTable, Scalar(2.0), "deg", "min");
    var units := "deg" + "/" + "min";
    assert ConvertedToSI(factors, unitTable, Scalar(2.0), units) == Ok((Scalar(Pi / 5400.0), "rad/s")) by {
      assert "rad" + "/" + "s" == "rad/s";
      AngularRates(Pi);
    }
    assert units == "deg/min";
  }

  /** 100 rev/min is 100 (2 Pi)/60 rad/s. */
  lemma RevolutionsPerMinute(factors: Dict<real>, unitTable: Dict<string>)
    requires factors == ToSIFactor && unitTable == ToSIUnits
    ensures ConvertedToSI(factors, unitTable, Scalar(100.0), "rev/min") == Ok((Scalar(10.0 * Pi / 3.0), "rad/s"))
  {
    PackageTables();
    TestFactors();
    TestUnits();
    QuotientOfSymbols(factors, unitTable, Scalar(100.0), "rev", "min");
    var units := "rev" + "/" + "min";
    assert ConvertedToSI(factors, unitTable, Scalar(100.0), units) == Ok((Scalar(10.0 * Pi / 3.0), "rad/s")) by {
      assert "rad" + "/" + "s" == "rad/s";
      AngularRates(Pi);
    }
    assert units == "rev/min";
  }

  /** 1000 rev/hour is 1000 (2 Pi)/3600 rad/s. */
  lemma RevolutionsPerHour(factors: Dict<real>, unitTable: Dict<string>)
    requires factors == ToSIFactor && unitTable == ToSIUnits
    ensures ConvertedToSI(factors, unitTable, Scalar(1000.0), "rev/hour") == Ok((Scalar(5.0 * Pi / 9.0), "rad/s"))
  {
    PackageTables();
    TestFactors();
    TestUnits();
    QuotientOfSymbols(factors, unitTable, Scalar(1000.0), "rev", "hour");
    var units := "rev" + "/" + "hour";
    assert ConvertedToSI(factors, unitTable, Scalar(1000.0), units) == Ok((Scalar(5.0 * Pi / 9.0), "rad/s")) by {
      assert "rad" + "/" + "s" == "rad/s";
      AngularRates(Pi);
    }
    assert units == "rev/hour";
  }

  /** A sequence of magnitudes converts element by element. */
  lemma MillimetreSequence(factors: Dict<real>, unitTable: Dict<string>)
    requires factors == ToSIFactor && unitTable == ToSIUnits
    ensures ConvertedToSI(factors, unitTable, Sequence([1.0, 2.0]), "mm") == Ok((Sequence([0.001, 0.002]), "m"))
  {
    PackageTables();
    TestFactors();
    TestUnits();
    SingleSymbol(factors, unitTable, Sequence([1.0, 2.0]), "mm");
    ScaledByMilli();
  }

  lemma ScaledByMilli()
    ensures Factor(Sequence([1.0, 2.0]), 0.001) == Sequence([0.001, 0.002])
  {
    var scaled := Factor(Sequence([1.0, 2.0]), 0.001).xs;
    assert scaled[0] == 0.001 && scaled[1] == 0.002;
    assert scaled == [0.001, 0.002];
  }

  /** `/min` scales by 60, not by 1/60, and converts to `s/`. */
  lemma PerMinute(factors: Dict<real>, unitTable: Dict<string>)
    requires factors == ToSIFactor && unitTable == ToSIUnits
    ensures ConvertedToSI(factors, unitTable, Scalar(1.0), "/min") == Ok((Scalar(60.0), "s/"))
  {
    PackageTables();
    TestFactors();
    TestUnits();
    LeadingSlash(factors, unitTable, Scalar(1.0), "min");
    assert "/" + "min" == "/min";
    assert "s" + "/" == "s/";
  }

  /** A unit string with no non-empty segment raises ValueError. */
  lemma EmptyUnits(factors: Dict<real>, unitTable: Dict<string>, value: Magnitude)
    requires factors == ToSIFactor && unitTable == ToSIUnits
    ensures ConvertedToSI(factors, unitTable, value, "") == Err(ValueError("Invalid units"))
    ensures ConvertedToSI(factors, unitTable, value, "/") == Err(ValueError("Invalid units"))
  {
    NoSegment(factors, unitTable, value);
  }

  /** `^` is not an operator: `mm^3` is an unknown symbol. */
  lemma CubicMillimetres(factors: Dict<real>, unitTable: Dict<string>, value: Magnitude)
    requires factors == ToSIFactor && unitTable == ToSIUnits
    ensures ConvertedToSI(factors, unitTable, value, "kg/mm^3") == Err(KeyError("mm^3"))
  {
    FactorsPositive();
    KeysHaveNoSeparator();
    FactorLookup(10);
    Unlisted("mm^3");
    UnknownDivisor(factors, unitTable, value, "kg", "mm^3");
    assert "kg" + "/" + "mm^3" == "kg/mm^3";
  }

  /** psi converts to `N/m^2`. */
  lemma PressureTarget(factors: Dict<real>, unitTable: Dict<string>, value: Magnitude)
    requires factors == ToSIFactor && unitTable == ToSIUnits
    ensures ConvertedToSI(factors, unitTable, value, "psi") == Ok((Factor(value, 6894.757293168361), "N/m^2"))
  {
    PackageTables();
    FactorLookup(23);
    UnitsLookup(23);
    SingleSymbol(factors, unitTable, value, "psi");
  }

  /** `N/m^2` is not a unit string the tables convert: `m^2` is no symbol. */
  lemma PressureTargetUnknown(factors: Dict<real>, unitTable: Dict<string>, value: Magnitude)
    requires factors == ToSIFactor && unitTable == ToSIUnits
    ensures ConvertedToSI(factors, unitTable, value, "N/m^2") == Err(KeyError("m^2"))
  {
    FactorsPositive();
    KeysHaveNoSeparator();
    FactorLookup(16);
    Unlisted("m^2");
    UnknownDivisor(factors, unitTable, value, "N", "m^2");
    assert "N" + "/" + "m^2" == "N/m^2";
  }

  /** gal converts to `m^3`. */
  lemma VolumeTarget(factors: Dict<real>, unitTable: Dict<string>, value: Magnitude)
    requires factors == ToSIFactor && unitTable == ToSIUnits
    ensures ConvertedToSI(factors, unitTable, value, "gal") == Ok((Factor(value, 0.003785411784), "m^3"))
  {
    PackageTables();
    FactorLookup(25);
    UnitsLookup(25);
    SingleSymbol(factors, unitTable, value, "gal");
  }

  /** `m^3` is no symbol of the tables. */
  lemma VolumeTargetUnknown(factors: Dict<real>, unitTable: Dict<string>, value: Magnitude)
    requires factors == ToSIFactor && unitTable == ToSIUnits
    ensures ConvertedToSI(factors, unitTable, value, "m^3") == Err(KeyError("m^3"))
  {
    FactorsPositive();
    Unlisted("m^3");
    UnknownSymbol(factors, unitTable, value, "m^3");
  }

  /** Converting to SI twice is not converting once: the SI symbols of psi and
      gal are not themselves symbols, so the second conversion fails. */
  lemma ConversionNotIdempotent(factors: Dict<real>, unitTable: Dict<string>, value: Magnitude)
    requires factors == ToSIFactor && unitTable == ToSIUnits
    ensures var p := ConvertedToSI(factors, unitTable, value, "psi");
      p.Ok? && ConvertedToSI(factors, unitTable, p.value.0, p.value.1) == Err(KeyError("m^2"))
    ensures var g := ConvertedToSI(factors, unitTable, value, "gal");
      g.Ok? && ConvertedToSI(factors, unitTable, g.value.0, g.value.1) == Err(KeyError("m^3"))
  {
    PressureTarget(factors, unitTable, value);
    PressureTargetUnknown(factors, unitTable, Factor(value, 6894.757293168361));
    VolumeTarget(factors, unitTable, value);
    VolumeTargetUnknown(factors, unitTable, Factor(value, 0.003785411784));
  }

  /** A dictionary of one leaf flattens to that leaf under its full key. */
  lemma FlattenOneLeaf<V>(k: string, x: V, parentKey: string)
    ensures Flattened([(k, Leaf(x))], parentKey, '.') == [(NewKey(parentKey, '.', k), x)]
  {
    var d := [(k, Leaf(x))];
    var items := [(NewKey(parentKey, '.', k), x)];
    assert Items(d, parentKey, '.', 1) == items;
    assert items[..0] == [];
    assert FromItems(items) == Set(FromItems([]), items[0].0, items[0].1);
  }

  /** Nested keys are joined by `.` below an empty parent key. */
  lemma FlattenNested<V>(x: V, y: V)
    ensures Flattened([("a", Branch([("b", Leaf(x))])), ("c", Leaf(y))], "", '.') == [("a.b", x), ("c", y)]
  {
    var inner := [("b", Leaf(x))];
    var d := [("a", Branch(inner)), ("c", Leaf(y))];
    FlattenOneLeaf("b", x, "a");
    assert NewKey("a", '.', "b") == "a.b";
    assert EntryItems(Branch(inner), "a", '.') == [("a.b", x)];
    assert NewKey("", '.', "a") == "a" && NewKey("", '.', "c") == "c";
    assert Items(d, "", '.', 1) == [("a.b", x)];
    var items := [("a.b", x), ("c", y)];
    assert Items(d, "", '.', 2) == items;
    assert FromItems(items) == Set(FromItems(items[..1]), "c", y);
    assert FromItems(items[..1]) == [("a.b", x)] by {
      assert items[..1][..0] == [];
    }
  }

  /** `dict` of the items with `a.b` repeated: first position, last value. */
  lemma RepeatedItems<V>(x: V, y: V, z: V)
    ensures FromItems([("a.b", x), ("c", y), ("a.b", z)]) == [("a.b", z), ("c", y)]
  {
    var items := [("a.b", x), ("c", y), ("a.b", z)];
    assert items[..2] == [("a.b", x), ("c", y)];
    assert items[..2][..1] == [("a.b", x)];
    assert FromItems([("a.b", x)]) == [("a.b", x)] by {
      assert [("a.b", x)][..0] == [];
    }
    assert FromItems(items[..2]) == [("a.b", x), ("c", y)] by {
      assert FromItems(items[..2]) == Set(FromItems(items[..2][..1]), "c", y);
      assert [("a.b", x)][1..] == [];
    }
    assert FromItems(items) == Set([("a.b", x), ("c", y)], "a.b", z);
    assert [("a.b", x), ("c", y)][1..] == [("c", y)];
  }

  /** A full key that repeats keeps its first position and its last value. */
  lemma FlattenRepeatedKey<V>(x: V, y: V, z: V)
    ensures Flattened([("a.b", Leaf(x)), ("c", Leaf(y)), ("a", Branch([("b", Leaf(z))]))], "", '.') == [("a.b", z), ("c", y)]
  {
    var inner := [("b", Leaf(z))];
    var d := [("a.b", Leaf(x)), ("c", Leaf(y)), ("a", Branch(inner))];
    FlattenOneLeaf("b", z, "a");
    assert NewKey("a", '.', "b") == "a.b";
    assert EntryItems(Branch(inner), "a", '.') == [("a.b", z)];
    assert NewKey("", '.', "a.b") == "a.b" && NewKey("", '.', "c") == "c" && NewKey("", '.', "a") == "a";
    assert Items(d, "", '.', 1) == [("a.b", x)];
    assert Items(d, "", '.', 2) == [("a.b", x), ("c", y)];
    assert Items(d, "", '.', 3) == [("a.b", x), ("c", y), ("a.b", z)];
    RepeatedItems(x, y, z);
  }

  /** An empty key adds no level: its children keep their own keys. */
  lemma FlattenEmptyKey<V>(x: V)
    ensures Flattened([("", Branch([("a", Leaf(x))]))], "", '.') == [("a", x)]
  {
    var inner := [("a", Leaf(x))];
    var d := [("", Branch(inner))];
    assert Items(inner, "", '.', 1) == [("a", x)];
    assert FromItems([("a", x)]) == [("a", x)] by {
      assert [("a", x)][..0] == [];
    }
    assert Flattened(inner, "", '.') == [("a", x)];
    assert EntryItems(Branch(inner), "", '.') == [("a", x)];
    assert Items(d, "", '.', 1) == [("a", x)];
  }

  /** Converting a parameter leaves it as it was and gives a new one. */
  method ConvertMillimetresPerMinute() returns (p: Parameter, q: Result<Parameter>)
    ensures p.value == Scalar(3.0) && p.units == "mm/min"
    ensures q.Ok? && q.value != p && q.value.value == Scalar(0.00005) && q.value.units == "m/s"
  {
    p := new Parameter(Scalar(3.0), "mm/min");
    q := p.ConvertToSI(ToSIFactor, ToSIUnits);
    MillimetresPerMinute(ToSIFactor, ToSIUnits);
  }
}
