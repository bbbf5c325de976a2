/** The static lookup data of the package: the dictionary from each unit symbol
    to the factor that converts a magnitude in that unit to SI, and the
    dictionary from each unit symbol to the SI symbol it converts to. Both are
    dictionary literals, kept as ordered entries in the order they are written. */
module Conversion {

  import opened PyResult
  import opened PyDict

  type PosReal = r: real | r > 0.0 witness 1.0

  /** The circle constant. Only its positivity matters to the model, so its value is left abstract. */
  const Pi: PosReal

  /** The dimensionless symbols. The source also lists the integer 1, which no unit string can be. */
  const Dimensionless: seq<string> := ["1", "-"]

  /** The SI symbols that are themselves symbols mapping to themselves. */
  const SITargets: seq<string> := ["m", "rad", "kg", "s", "N", "Pa", "-", "1"]

  /** The symbols whose SI symbol is a compound string rather than a symbol. */
  const CompoundSymbols: seq<string> := ["psi", "ksi", "gal", "l", "ml"]

  /** The number of entries of each dictionary literal. */
  const Size := 46

  /** Entry `i` of the dictionary from unit symbol to the factor that converts a
      magnitude in that unit to SI, in the order the literal lists them. */
  function FactorEntry(i: nat): (e: (string, real))
    requires i < Size
  {
    match i
    case 0 => ("1", 1.0)
    case 1 => ("km", 1000.0)
    case 2 => ("m", 1.0)
    case 3 => ("mm", 1.0 / 1000.0)
    case 4 => ("cm", 1.0 / 100.0)
    case 5 => ("um", 0.000001)
    case 6 => ("nm", 0.000000001)
    case 7 => ("deg", Pi / 180.0)
    case 8 => ("rad", 1.0)
    case 9 => ("g", 1.0 / 1000.0)
    case 10 => ("kg", 1.0)
    case 11 => ("-", 1.0)
    case 12 => ("s", 1.0)
    case 13 => ("min", 60.0)
    case 14 => ("rev", 2.0 * Pi)
    case 15 => ("hour", 3600.0)
    case 16 => ("N", 1.0)
    case 17 => ("kN", 1000.0)
    case 18 => ("inch", 0.0254)
    case 19 => ("ft", 0.3048)
    case 20 => ("mile", 1609.344)
    case 21 => ("lbf", 4.4482216152605)
    case 22 => ("kip", 4448.2216152605)
    case 23 => ("psi", 6894.757293168361)
    case 24 => ("ksi", 6894757.293168361)
    case 25 => ("gal", 0.003785411784)
    case 26 => ("l", 0.001)
    case 27 => ("ml", 0.000001)
    case 28 => ("bar", 100000.0)
    case 29 => ("kbar", 100000000.0)
    case 30 => ("Mbar", 100000000000.0)
    case 31 => ("Gbar", 100000000000000.0)
    case 32 => ("Pa", 1.0)
    case 33 => ("kPa", 1000.0)
    case 34 => ("MPa", 1000000.0)
    case 35 => ("GPa", 1000000000.0)
    case 36 => ("TPa", 1000000000000.0)
    case 37 => ("lb", 0.45359237)
    case 38 => ("oz", 0.028349523125)
    case 39 => ("slug", 14.5939029372064)
    case 40 => ("stone", 6.35029318)
    case 41 => ("tonne", 1000.0)
    case 42 => ("ton", 907.18474)
    case 43 => ("kton", 907184.74)
    case 44 => ("long_ton", 1016.0469088)
    case 45 => ("short_ton", 907.18474)
  }

  /** Entry `i` of the dictionary from unit symbol to the SI symbol its magnitude
      is expressed in after conversion, in the order the literal lists them. */
  function UnitsEntry(i: nat): (e: (string, string))
    requires i < Size
  {
    match i
    case 0 => ("1", "1")
    case 1 => ("km", "m")
    case 2 => ("m", "m")
    case 3 => ("mm", "m")
    case 4 => ("cm", "m")
    case 5 => ("um", "m")
    case 6 => ("nm", "m")
    case 7 => ("deg", "rad")
    case 8 => ("rad", "rad")
    case 9 => ("g", "kg")
    case 10 => ("kg", "kg")
    case 11 => ("-", "-")
    case 12 => ("s", "s")
    case 13 => ("min", "s")
    case 14 => ("rev", "rad")
    case 15 => ("hour", "s")
    case 16 => ("N", "N")
    case 17 => ("kN", "N")
    case 18 => ("inch", "m")
    case 19 => ("ft", "m")
    case 20 => ("mile", "m")
    case 21 => ("lbf", "N")
    case 22 => ("kip", "N")
    case 23 => ("psi", "N/m^2")
    case 24 => ("ksi", "N/m^2")
    case 25 => ("gal", "m^3")
    case 26 => ("l", "m^3")
    case 27 => ("ml", "m^3")
    case 28 => ("bar", "Pa")
    case 29 => ("kbar", "Pa")
    case 30 => ("Mbar", "Pa")
    case 31 => ("Gbar", "Pa")
    case 32 => ("Pa", "Pa")
    case 33 => ("kPa", "Pa")
    case 34 => ("MPa", "Pa")
    case 35 => ("GPa", "Pa")
    case 36 => ("TPa", "Pa")
    case 37 => ("lb", "kg")
    case 38 => ("oz", "kg")
    case 39 => ("slug", "kg")
    case 40 => ("stone", "kg")
    case 41 => ("tonne", "kg")
    case 42 => ("ton", "kg")
    case 43 => ("kton", "kg")
    case 44 => ("long_ton", "kg")
    case 45 => ("short_ton", "kg")
  }

  /** The entries of the conversion factor literal, in order. */
  function FactorEntries(): (d: Dict<real>)
  {
    seq(Size, i requires 0 <= i < Size => FactorEntry(i))
  }

  /** The entries of the SI symbol literal, in order. */
  function UnitsEntries(): (d: Dict<string>)
  {
    seq(Size, i requires 0 <= i < Size => UnitsEntry(i))
  }

  /** The conversion factor dictionary. */
  const ToSIFactor: Dict<real> := FactorEntries()

  /** The SI symbol dictionary. */
  const ToSIUnits: Dict<string> := UnitsEntries()

  /** Both literals list the same symbols in the same order. */
  lemma EntriesShareKeys()
    ensures forall i :: 0 <= i < Size ==> FactorEntry(i).0 == UnitsEntry(i).0
  {
  }

  lemma TablesListSameKeys()
    ensures Keys(ToSIFactor) == Keys(ToSIUnits)
  {
    EntriesShareKeys();
  }

  /** Every symbol that has a factor has an SI symbol, and conversely. */
  lemma TablesHaveSameKeys(symbol: string)
    ensures Get(ToSIFactor, symbol).Some? <==> Get(ToSIUnits, symbol).Some?
  {
    TablesListSameKeys();
    GetFound(ToSIFactor, symbol);
    GetFound(ToSIUnits, symbol);
  }

  lemma EntriesDistinctBelow()
    ensures forall i, j :: 0 <= i < j < 23 ==> FactorEntry(i).0 != FactorEntry(j).0
  {
  }

  lemma EntriesDistinctAbove()
    ensures forall i, j :: 23 <= i < j < Size ==> FactorEntry(i).0 != FactorEntry(j).0
  {
  }

  lemma EntriesDistinctAcross()
    ensures forall i, j :: 0 <= i < 23 <= j < Size ==> FactorEntry(i).0 != FactorEntry(j).0
  {
  }

  /** No symbol is listed twice. */
  lemma KeysDistinct()
    ensures DistinctKeys(ToSIFactor) && DistinctKeys(ToSIUnits)
  {
    EntriesDistinctBelow();
    EntriesDistinctAbove();
    EntriesDistinctAcross();
    EntriesShareKeys();
  }

  /** Each listed symbol is found with the factor of its own entry. */
  lemma FactorLookup(i: nat)
    requires i < Size
    ensures Get(ToSIFactor, FactorEntry(i).0) == Some(FactorEntry(i).1)
  {
    KeysDistinct();
    GetDistinct(ToSIFactor, i);
  }

  /** Each listed symbol is found with the SI symbol of its own entry. */
  lemma UnitsLookup(i: nat)
    requires i < Size
    ensures Get(ToSIUnits, UnitsEntry(i).0) == Some(UnitsEntry(i).1)
  {
    KeysDistinct();
    GetDistinct(ToSIUnits, i);
  }

  /** Every value of a factor dictionary is strictly positive. */
  predicate PositiveFactors(d: Dict<real>)
  {
    forall i :: 0 <= i < |d| ==> d[i].1 > 0.0
  }

  /** No key is empty, is a separator or contains one. */
  predicate PlainKeys<V>(d: Dict<V>)
  {
    forall i :: 0 <= i < |d| ==> '.' !in d[i].0 && '/' !in d[i].0 && d[i].0 != ""
  }

  /** A key of a dictionary with plain keys has no separator and is not empty. */
  lemma PlainLookup<V>(d: Dict<V>, symbol: string)
    requires PlainKeys(d) && Get(d, symbol).Some?
    ensures '.' !in symbol && '/' !in symbol && symbol != ""
  {
    GetEntry(d, symbol);
  }

  /** Every conversion factor is strictly positive, so no conversion divides by zero. */
  lemma FactorsPositive()
    ensures PositiveFactors(ToSIFactor)
  {
    assert forall i :: 0 <= i < Size ==> FactorEntry(i).1 > 0.0;
  }

  /** The symbols listed in entries `lo` to `hi` have no separator and are not empty. */
  predicate PlainEntries(lo: nat, hi: nat)
    requires lo <= hi <= Size
  {
    forall i :: lo <= i < hi ==> '.' !in FactorEntry(i).0 && '/' !in FactorEntry(i).0 && FactorEntry(i).0 != ""
  }

  lemma PlainEntriesLow()
    ensures PlainEntries(0, 16)
  {
  }

  lemma PlainEntriesMiddle()
    ensures PlainEntries(16, 32)
  {
  }

  lemma PlainEntriesHigh()
    ensures PlainEntries(32, Size)
  {
  }

  /** No symbol of either dictionary is empty, is a separator or contains one. */
  lemma KeysHaveNoSeparator()
    ensures PlainKeys(ToSIFactor) && PlainKeys(ToSIUnits)
  {
    PlainEntriesLow();
    PlainEntriesMiddle();
    PlainEntriesHigh();
    EntriesShareKeys();
    assert PlainEntries(0, Size);
  }

  /** The dimensionless symbols convert to themselves with factor 1. */
  lemma DimensionlessIdentity(d: string)
    requires d in Dimensionless
    ensures Get(ToSIFactor, d) == Some(1.0) && Get(ToSIUnits, d) == Some(d)
  {
    assert Get(ToSIFactor, "1") == Some(1.0) by { FactorLookup(0); }
    assert Get(ToSIFactor, "-") == Some(1.0) by { FactorLookup(11); }
    assert Get(ToSIUnits, "1") == Some("1") by { UnitsLookup(0); }
    assert Get(ToSIUnits, "-") == Some("-") by { UnitsLookup(11); }
  }

  /** The SI symbols that are keys convert with factor 1 ... */
  lemma SITargetsHaveFactorOne()
    ensures Get(ToSIFactor, "m") == Some(1.0)
    ensures Get(ToSIFactor, "rad") == Some(1.0)
    ensures Get(ToSIFactor, "kg") == Some(1.0)
    ensures Get(ToSIFactor, "s") == Some(1.0)
    ensures Get(ToSIFactor, "N") == Some(1.0)
    ensures Get(ToSIFactor, "Pa") == Some(1.0)
    ensures Get(ToSIFactor, "-") == Some(1.0)
  {
    assert Get(ToSIFactor, "m") == Some(1.0) by { FactorLookup(2); }
    assert Get(ToSIFactor, "rad") == Some(1.0) by { FactorLookup(8); }
    assert Get(ToSIFactor, "kg") == Some(1.0) by { FactorLookup(10); }
    assert Get(ToSIFactor, "s") == Some(1.0) by { FactorLookup(12); }
    assert Get(ToSIFactor, "N") == Some(1.0) by { FactorLookup(16); }
    assert Get(ToSIFactor, "Pa") == Some(1.0) by { FactorLookup(32); }
    assert Get(ToSIFactor, "-") == Some(1.0) by { FactorLookup(11); }
  }

  /** ... and to themselves. */
  lemma SITargetsMapToThemselves()
    ensures Get(ToSIUnits, "m") == Some("m")
    ensures Get(ToSIUnits, "rad") == Some("rad")
    ensures Get(ToSIUnits, "kg") == Some("kg")
    ensures Get(ToSIUnits, "s") == Some("s")
    ensures Get(ToSIUnits, "N") == Some("N")
    ensures Get(ToSIUnits, "Pa") == Some("Pa")
    ensures Get(ToSIUnits, "-") == Some("-")
  {
    assert Get(ToSIUnits, "m") == Some("m") by { UnitsLookup(2); }
    assert Get(ToSIUnits, "rad") == Some("rad") by { UnitsLookup(8); }
    assert Get(ToSIUnits, "kg") == Some("kg") by { UnitsLookup(10); }
    assert Get(ToSIUnits, "s") == Some("s") by { UnitsLookup(12); }
    assert Get(ToSIUnits, "N") == Some("N") by { UnitsLookup(16); }
    assert Get(ToSIUnits, "Pa") == Some("Pa") by { UnitsLookup(32); }
    assert Get(ToSIUnits, "-") == Some("-") by { UnitsLookup(11); }
  }

  /** Entries `lo` to `hi` that are not compound convert to an SI target. */
  predicate TargetsInRange(lo: nat, hi: nat)
    requires lo <= hi <= Size
  {
    forall i :: lo <= i < hi && UnitsEntry(i).0 !in CompoundSymbols ==> UnitsEntry(i).1 in SITargets
  }

  lemma TargetsLow()
    ensures TargetsInRange(0, 23)
  {
  }

  lemma TargetsHigh()
    ensures TargetsInRange(23, Size)
  {
  }

  /** Apart from the compound ones, every SI symbol is itself a symbol that maps to itself. */
  lemma SITargetOfSymbol(symbol: string)
    requires Get(ToSIUnits, symbol).Some? && symbol !in CompoundSymbols
    ensures Get(ToSIUnits, symbol).value in SITargets
  {
    GetEntry(ToSIUnits, symbol);
    TargetsLow();
    TargetsHigh();
    var i :| 0 <= i < Size && ToSIUnits[i] == (symbol, Get(ToSIUnits, symbol).value);
    assert UnitsEntry(i) == (symbol, Get(ToSIUnits, symbol).value);
  }

  /** Prefixed metre lengths convert to metres. */
  lemma MetricLengthsShareBase()
    ensures Get(ToSIUnits, "km") == Some("m")
    ensures Get(ToSIUnits, "mm") == Some("m")
    ensures Get(ToSIUnits, "cm") == Some("m")
    ensures Get(ToSIUnits, "um") == Some("m")
    ensures Get(ToSIUnits, "nm") == Some("m")
  {
    UnitsLookup(1);
    UnitsLookup(3);
    UnitsLookup(4);
    UnitsLookup(5);
    UnitsLookup(6);
  }

  /** Imperial lengths convert to metres. */
  lemma ImperialLengthsShareBase()
    ensures Get(ToSIUnits, "inch") == Some("m")
    ensures Get(ToSIUnits, "ft") == Some("m")
    ensures Get(ToSIUnits, "mile") == Some("m")
  {
    UnitsLookup(18);
    UnitsLookup(19);
    UnitsLookup(20);
  }

  /** Prefixed and imperial forces convert to newtons. */
  lemma ForceVariantsShareBase()
    ensures Get(ToSIUnits, "kN") == Some("N")
    ensures Get(ToSIUnits, "lbf") == Some("N")
    ensures Get(ToSIUnits, "kip") == Some("N")
  {
    UnitsLookup(17);
    UnitsLookup(21);
    UnitsLookup(22);
  }

  /** Bar pressures convert to pascals. */
  lemma BarPressuresShareBase()
    ensures Get(ToSIUnits, "bar") == Some("Pa")
    ensures Get(ToSIUnits, "kbar") == Some("Pa")
    ensures Get(ToSIUnits, "Mbar") == Some("Pa")
    ensures Get(ToSIUnits, "Gbar") == Some("Pa")
  {
    UnitsLookup(28);
    UnitsLookup(29);
    UnitsLookup(30);
    UnitsLookup(31);
  }

  /** Prefixed pascal pressures convert to pascals. */
  lemma PascalPressuresShareBase()
    ensures Get(ToSIUnits, "kPa") == Some("Pa")
    ensures Get(ToSIUnits, "MPa") == Some("Pa")
    ensures Get(ToSIUnits, "GPa") == Some("Pa")
    ensures Get(ToSIUnits, "TPa") == Some("Pa")
  {
    UnitsLookup(33);
    UnitsLookup(34);
    UnitsLookup(35);
    UnitsLookup(36);
  }

  /** Degrees and revolutions convert to radians. */
  lemma AngleVariantsShareBase()
    ensures Get(ToSIUnits, "deg") == Some("rad")
    ensures Get(ToSIUnits, "rev") == Some("rad")
  {
    UnitsLookup(7);
    UnitsLookup(14);
  }

  /** Minutes and hours convert to seconds. */
  lemma TimeVariantsShareBase()
    ensures Get(ToSIUnits, "min") == Some("s")
    ensures Get(ToSIUnits, "hour") == Some("s")
  {
    UnitsLookup(13);
    UnitsLookup(15);
  }

  /** Grams and tonnes convert to kilograms. */
  lemma MetricMassesShareBase()
    ensures Get(ToSIUnits, "g") == Some("kg")
    ensures Get(ToSIUnits, "tonne") == Some("kg")
  {
    UnitsLookup(9);
    UnitsLookup(41);
  }

  /** Imperial masses convert to kilograms. */
  lemma ImperialMassesShareBase()
    ensures Get(ToSIUnits, "lb") == Some("kg")
    ensures Get(ToSIUnits, "oz") == Some("kg")
    ensures Get(ToSIUnits, "slug") == Some("kg")
    ensures Get(ToSIUnits, "stone") == Some("kg")
  {
    UnitsLookup(37);
    UnitsLookup(38);
    UnitsLookup(39);
    UnitsLookup(40);
  }

  /** Tons convert to kilograms. */
  lemma TonsShareBase()
    ensures Get(ToSIUnits, "ton") == Some("kg")
    ensures Get(ToSIUnits, "kton") == Some("kg")
    ensures Get(ToSIUnits, "long_ton") == Some("kg")
    ensures Get(ToSIUnits, "short_ton") == Some("kg")
  {
    UnitsLookup(42);
    UnitsLookup(43);
    UnitsLookup(44);
    UnitsLookup(45);
  }

  /** A string that no entry lists is not a key of either dictionary. */
  lemma Unlisted(s: string)
    requires forall i :: 0 <= i < Size ==> FactorEntry(i).0 != s
    ensures Get(ToSIFactor, s) == None && Get(ToSIUnits, s) == None
  {
    EntriesShareKeys();
    GetAbsent(ToSIFactor, s);
    GetAbsent(ToSIUnits, s);
  }

  /** psi and ksi convert to "N/m^2", and gal, l and ml to "m^3" ... */
  lemma CompoundTargets()
    ensures Get(ToSIUnits, "psi") == Some("N/m^2") && Get(ToSIUnits, "ksi") == Some("N/m^2")
    ensures Get(ToSIUnits, "gal") == Some("m^3") && Get(ToSIUnits, "l") == Some("m^3") && Get(ToSIUnits, "ml") == Some("m^3")
  {
    UnitsLookup(23);
    UnitsLookup(24);
    UnitsLookup(25);
    UnitsLookup(26);
    UnitsLookup(27);
  }

  /** ... and neither compound string, nor "m^2", is a symbol. */
  lemma CompoundTargetsAreNotKeys()
    ensures Get(ToSIFactor, "N/m^2") == None && Get(ToSIFactor, "m^3") == None && Get(ToSIFactor, "m^2") == None
  {
    Unlisted("N/m^2");
    Unlisted("m^3");
    Unlisted("m^2");
  }

  /** The factors of the time, length and angle units exercised by the package's tests. */
  lemma TestFactors()
    ensures Get(ToSIFactor, "mm") == Some(0.001) && Get(ToSIFactor, "m") == Some(1.0) && Get(ToSIFactor, "s") == Some(1.0)
    ensures Get(ToSIFactor, "min") == Some(60.0) && Get(ToSIFactor, "hour") == Some(3600.0)
    ensures Get(ToSIFactor, "deg") == Some(Pi / 180.0) && Get(ToSIFactor, "rev") == Some(2.0 * Pi)
  {
    assert Get(ToSIFactor, "mm") == Some(1.0 / 1000.0) by { FactorLookup(3); }
    assert Get(ToSIFactor, "m") == Some(1.0) by { FactorLookup(2); }
    assert Get(ToSIFactor, "s") == Some(1.0) by { FactorLookup(12); }
    assert Get(ToSIFactor, "min") == Some(60.0) by { FactorLookup(13); }
    assert Get(ToSIFactor, "hour") == Some(3600.0) by { FactorLookup(15); }
    assert Get(ToSIFactor, "deg") == Some(Pi / 180.0) by { FactorLookup(7); }
    assert Get(ToSIFactor, "rev") == Some(2.0 * Pi) by { FactorLookup(14); }
  }

  /** The SI symbols of the time, length and angle units exercised by the package's tests. */
  lemma TestUnits()
    ensures Get(ToSIUnits, "mm") == Some("m") && Get(ToSIUnits, "m") == Some("m") && Get(ToSIUnits, "s") == Some("s")
    ensures Get(ToSIUnits, "min") == Some("s") && Get(ToSIUnits, "hour") == Some("s")
    ensures Get(ToSIUnits, "deg") == Some("rad") && Get(ToSIUnits, "rev") == Some("rad")
  {
    assert Get(ToSIUnits, "mm") == Some("m") by { UnitsLookup(3); }
    assert Get(ToSIUnits, "m") == Some("m") by { UnitsLookup(2); }
    assert Get(ToSIUnits, "s") == Some("s") by { UnitsLookup(12); }
    assert Get(ToSIUnits, "min") == Some("s") by { UnitsLookup(13); }
    assert Get(ToSIUnits, "hour") == Some("s") by { UnitsLookup(15); }
    assert Get(ToSIUnits, "deg") == Some("rad") by { UnitsLookup(7); }
    assert Get(ToSIUnits, "rev") == Some("rad") by { UnitsLookup(14); }
  }
}
