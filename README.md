# SI conversion in `parameter`, modelled in Dafny

The Python package `parameter` pairs a number (or a list of numbers) with a
unit string such as `mm/min`, `deg/min` or `N.m`. `Parameter.convert_to_SI`
converts a parameter to SI units using two tables in `conversion.py`:

- `TO_SI_FACTOR` maps each unit symbol to the factor that converts it to SI.
- `TO_SI_UNITS` maps each unit symbol to its SI symbol.

The conversion has two halves:

- **The factor.** The unit string is split on `/`. Every non-empty segment is
  split on `.`, and the table factors of its symbols are multiplied. The
  first segment's product is then divided, left to right, by the products of
  the later segments. An unknown symbol raises `KeyError`. A string with no
  non-empty segment raises `ValueError("Invalid units")`.
- **The units.** The string is cut at every `.` and `/`, with the cuts kept.
  Each symbol found in the unit table is replaced by its SI symbol. The
  replaced symbols and the separators are then interleaved again, with any
  unlisted piece and any empty piece dropped.

The value is scaled by the factor, element by element for a list, into a
deep copy of the parameter. `Parameters.to_SI` does this for every entry of
a dictionary of parameters. `dict_to_parameters` first flattens a nested
dictionary (`flatten_dict`, whose keys are joined with `.`) and then builds
one parameter per distinct full key, from the last leaf under that key.

The modules follow the source:

- `PyResult`: the error values `KeyError`, `ValueError` and `ZeroDivisionError`, and `Result`/`Option`.
- `PyStr`: `str.split`, `re.split(r"([./])", …)`, and joining.
- `PyDict`: an insertion-ordered `dict` as a sequence of pairs, with `d[k]`, `d[k] = v` and `dict(items)`.
- `Conversion`: the two tables and `DIMENSIONLESS`.
- `SIFactor`: `multiply_factor`, `divide_factor`, `split_multiply_factors` and `get_SI_factor`.
- `SIUnits`: `get_SI_units`.
- `Flatten`: `flatten_dict`.
- `Parameter`: `factor`, the `Parameter` class with `convert_to_SI`, `Parameters.to_SI` and `dict_to_parameters`.
- `Examples`: the conversions the package's tests check, read as lemmas, and the edge cases of the code.

`SIFactor` and `SIUnits` take the dictionaries as parameters, in place of
the module globals `FACTORS` and `UNITS`. What they need of them is stated
as predicates: positive factors, and keys that hold no separator. Both are
proved for the package's own tables.

The loops of the source are methods, proved against specification functions:

- `DivideFactor`, `SplitMultiplyFactors` and `GetSIFactor`;
- `GetSIUnits`;
- `FlattenDict`;
- `Parameter.ConvertToSI`, whose deep copy and two field assignments are
  done on a fresh object.

The comprehensions and the recursive `product` lambda are functions.
Lemmas give each function its meaning:

- the segment product;
- the left-to-right quotient;
- the error that is raised first;
- in-place renaming of symbols, with separators kept;
- first position and last value for repeated keys.

Two consequences of the code are worth stating:

- `^` is not a separator, so `kg/mm^3` raises `KeyError("mm^3")`
  (`Examples.CubicMillimetres`).
- `psi` converts to `N/m^2` and `gal` to `m^3`. Neither string is a symbol
  of the tables, so a parameter in those units cannot be converted a second
  time (`Examples.ConversionNotIdempotent`).

## Model

| member | source | states |
|---|---|---|
| Conversion.TablesListSameKeys | src/parameter/conversion.py:5-103 | the factor table and the SI symbol table list exactly the same symbols, in the same order |
| Conversion.TablesHaveSameKeys | src/parameter/conversion.py:5-103 | a symbol has a factor exactly when it has an SI symbol |
| Conversion.KeysDistinct | src/parameter/conversion.py:5-103 | no symbol is listed twice in either table, so each lookup finds the entry written for it |
| Conversion.FactorLookup | src/parameter/conversion.py:5-53 | looking up the symbol of any entry of the factor table yields that entry's factor |
| Conversion.UnitsLookup | src/parameter/conversion.py:55-103 | looking up the symbol of any entry of the units table yields that entry's SI symbol |
| Conversion.FactorsPositive | src/parameter/conversion.py:5-53 | every factor of the table, the π-based ones included, is strictly positive |
| Conversion.KeysHaveNoSeparator | src/parameter/conversion.py:5-103 | no table symbol is empty or contains `.` or `/` |
| Conversion.PlainLookup | src/parameter/conversion.py:5-103 | a symbol found in a table of such symbols is non-empty and separator-free |
| Conversion.DimensionlessIdentity | src/parameter/conversion.py:3-7 | the dimensionless symbols `1` and `-` have factor 1 and are their own SI symbol |
| Conversion.SITargetsHaveFactorOne | src/parameter/conversion.py:9-23 | m, rad, kg, s, N, Pa and `-` have factor 1 |
| Conversion.SITargetsMapToThemselves | src/parameter/conversion.py:59-73 | m, rad, kg, s, N, Pa and `-` are their own SI symbol |
| Conversion.SITargetOfSymbol | src/parameter/conversion.py:55-103 | the SI symbol of every symbol, except psi, ksi, gal, l and ml, is one of the symbols that map to themselves |
| Conversion.MetricLengthsShareBase | src/parameter/conversion.py:58-63 | km, mm, cm, um and nm convert to m |
| Conversion.ImperialLengthsShareBase | src/parameter/conversion.py:75-77 | inch, ft and mile convert to m |
| Conversion.ForceVariantsShareBase | src/parameter/conversion.py:74-79 | kN, lbf and kip convert to N |
| Conversion.BarPressuresShareBase | src/parameter/conversion.py:85-88 | bar, kbar, Mbar and Gbar convert to Pa |
| Conversion.PascalPressuresShareBase | src/parameter/conversion.py:90-93 | kPa, MPa, GPa and TPa convert to Pa |
| Conversion.AngleVariantsShareBase | src/parameter/conversion.py:64-71 | deg and rev convert to rad |
| Conversion.TimeVariantsShareBase | src/parameter/conversion.py:70-72 | min and hour convert to s |
| Conversion.MetricMassesShareBase | src/parameter/conversion.py:66-98 | g and tonne convert to kg |
| Conversion.ImperialMassesShareBase | src/parameter/conversion.py:94-97 | lb, oz, slug and stone convert to kg |
| Conversion.TonsShareBase | src/parameter/conversion.py:99-102 | ton, kton, long_ton and short_ton convert to kg |
| Conversion.Unlisted | src/parameter/conversion.py:5-103 | a string that no entry lists is in neither table |
| Conversion.CompoundTargets | src/parameter/conversion.py:80-84 | psi and ksi convert to `N/m^2`; gal, l and ml convert to `m^3` |
| Conversion.CompoundTargetsAreNotKeys | src/parameter/conversion.py:80-84 | `N/m^2`, `m^3` and `m^2` are not symbols of the factor table |
| Conversion.TestFactors | src/parameter/conversion.py:9-22 | the test units' factors: mm 1/1000, m 1, s 1, min 60, hour 3600, deg π/180, rev 2π |
| Conversion.TestUnits | src/parameter/conversion.py:58-72 | the test units' SI symbols: mm, m → m; s, min, hour → s; deg, rev → rad |
| PyStr.Split | src/parameter/parameter.py:111 | `str.split` always yields at least one part |
| PyStr.SplitCount | src/parameter/parameter.py:111 | `str.split` yields one more part than there are separators |
| PyStr.SplitPartsFree | src/parameter/parameter.py:105 | no part of `str.split` contains the separator |
| PyStr.SplitJoinsBack | src/parameter/parameter.py:111 | joining the parts of `str.split` with the separator gives back the string |
| PyStr.SplitJoin | src/parameter/parameter.py:105 | splitting the join of separator-free parts gives back the parts |
| PyStr.JoinInjective | src/parameter/parameter.py:105 | separator-free parts that join to the same string are equal |
| PyStr.ReSplit | src/parameter/parameter.py:118 | `re.split` with a capturing group yields at least one piece |
| PyStr.ReSplitShape | src/parameter/parameter.py:118 | the pieces of `re.split` alternate between separator-free text and single separators, and concatenate back to the string |
| PyStr.ReSplitSeparators | src/parameter/parameter.py:118 | the separators of `re.split` are those of the string, in order |
| PyStr.ReSplitPieces | src/parameter/parameter.py:105-118 | the text pieces of `re.split` are the `.`-components of the `/`-segments, in order |
| PyStr.QuotientShape | src/parameter/parameter.py:111-118 | `a/b` for plain `a` and `b` splits into `[a, b]` with the single separator `/` |
| PyDict.GetAfterSet | src/parameter/parameter.py:185 | after `d[k] = v`, `k` yields `v` and every other key is unchanged |
| PyDict.KeysAfterSet | src/parameter/parameter.py:185 | `d[k] = v` keeps the key order, appending a new key at the end |
| PyDict.GetSplit | src/parameter/parameter.py:182 | a lookup in appended item lists finds the later entry |
| PyDict.FromItemsDistinct | src/parameter/parameter.py:185 | `dict(items)` lists each key once |
| PyDict.FromItemsKeys | src/parameter/parameter.py:185 | `dict(items)` keeps each key at the position of its first occurrence |
| PyDict.FromItemsGet | src/parameter/parameter.py:185 | `dict(items)` yields, for each key, the value of its last occurrence |
| PyDict.FromItemsAbsorbLeft | src/parameter/parameter.py:182-185 | building the dictionary of a prefix first does not change `dict(items)` |
| PyDict.FromItemsAbsorbRight | src/parameter/parameter.py:182-185 | building the dictionary of a suffix first does not change `dict(items)` |
| PyDict.DictExtensional | src/parameter/parameter.py:185 | two dictionaries with the same key order and the same lookups are equal |
| SIFactor.FirstUnknown | src/parameter/parameter.py:76-80 | the component that raises KeyError is absent from the table, and there is none exactly when every component is present |
| SIFactor.FirstUnknownIsFirst | src/parameter/parameter.py:76-80 | that component is the first absent one: every component before it is in the table |
| SIFactor.TableFactors | src/parameter/parameter.py:79-81 | the tuple of factors has one factor per component, each its table value, all positive for a positive table |
| SIFactor.Product | src/parameter/parameter.py:78 | the recursive product of non-zero (positive) numbers is non-zero (positive) |
| SIFactor.ProductAppend | src/parameter/parameter.py:78 | the product of a concatenation is the product of the products |
| SIFactor.LookupFactorsResult | src/parameter/parameter.py:79-81 | the tuple holds every component's factor, or KeyError names the first unknown component |
| SIFactor.SingleFactor | src/parameter/parameter.py:75-76 | a single component yields its table factor directly, or KeyError |
| SIFactor.MultiplyFactorResult | src/parameter/parameter.py:74-85 | one or more components yield the product of their factors or the first unknown's KeyError; no component raises ValueError |
| SIFactor.SplitMultiplyFactors | src/parameter/parameter.py:100-107 | the loop collects the factor of each non-empty segment, in order, or stops at the first exception |
| SIFactor.SegmentFactorsErrorSticks | src/parameter/parameter.py:103-106 | once a segment raises, the loop's outcome is that exception |
| SIFactor.SegmentFactorsResult | src/parameter/parameter.py:100-107 | the factors are the products of the non-empty segments, or KeyError for the first unknown component over all of them |
| SIFactor.DivideFactor | src/parameter/parameter.py:87-98 | the loop divides the first factor by each later one in turn, raising ZeroDivisionError at a zero divisor and ValueError with no factor |
| SIFactor.DivideLeftResult | src/parameter/parameter.py:92-95 | dividing left to right by non-zero divisors divides by their product; a zero divisor raises ZeroDivisionError |
| SIFactor.GetSIFactor | src/parameter/parameter.py:109-113 | `get_SI_factor` splits on `/`, multiplies within segments and divides across them |
| SIFactor.SIFactorUnknown | src/parameter/parameter.py:76-80 | an unknown component of a non-empty segment raises KeyError naming the first one |
| SIFactor.SIFactorNoSegment | src/parameter/parameter.py:97-107 | with no non-empty segment, ValueError("Invalid units") is raised |
| SIFactor.SIFactorQuotient | src/parameter/parameter.py:87-113 | otherwise the factor is the first segment's product divided by the product of the later segments' products |
| SIFactor.QuotientPositive | src/parameter/parameter.py:87-95 | that quotient is strictly positive for a positive table |
| SIFactor.SIFactorPositive | src/parameter/parameter.py:87-113 | with a positive table every factor is positive and ZeroDivisionError is never raised |
| SIFactor.SingleSegment | src/parameter/parameter.py:109-113 | a unit string without `/` has the product of its components as its factor |
| SIFactor.MultipliedSymbols | src/parameter/parameter.py:74-82 | `.`-joined table symbols have the product of their factors as their factor |
| SIFactor.DividedSymbols | src/parameter/parameter.py:87-113 | `/`-joined table symbols have the first factor divided by each later one, left to right |
| SIFactor.SymbolQuotientFactor | src/parameter/parameter.py:87-113 | `a/b` for table symbols has the factor F(a)/F(b), with F(b) positive |
| SIFactor.LeadingSlashFactor | src/parameter/parameter.py:103-106 | `/a` skips the empty first segment and has the factor F(a) |
| SIFactor.NoSegmentFactor | src/parameter/parameter.py:97-107 | the empty string and `/` raise ValueError("Invalid units") |
| SIUnits.Interleave | src/parameter/parameter.py:130-137 | the `zip_longest` interleaving has the length of both lists together, with each unit and each separator at its alternating position and the longer list's rest at the end |
| SIUnits.GetSIUnits | src/parameter/parameter.py:115-137 | the loop sorts the pieces into SI symbols of listed pieces and separators, and joins them alternately |
| SIUnits.ConvertedListed | src/parameter/parameter.py:123-125 | listed pieces are each replaced by their SI symbol, in order |
| SIUnits.ConvertedDropsUnlisted | src/parameter/parameter.py:123-127 | an unlisted piece is dropped, and the rest convert as if it were absent |
| SIUnits.SeparatorUnlisted | src/parameter/parameter.py:124-126 | a separator is never a table symbol, so it always reaches the separator list |
| SIUnits.ConvertedAlternating | src/parameter/parameter.py:123-127 | on the pieces of `re.split`, only text pieces can convert, and the separators are exactly the separator pieces |
| SIUnits.InterleaveRebuilds | src/parameter/parameter.py:130-137 | interleaving the text pieces and separators of `re.split` rebuilds it |
| SIUnits.PiecesOutnumberSeparators | src/parameter/parameter.py:118 | `re.split` yields one more text piece than separators |
| SIUnits.SIUnitsShape | src/parameter/parameter.py:115-137 | the result interleaves the SI symbols of the listed components with all the string's separators, in their order |
| SIUnits.SIUnitsRenames | src/parameter/parameter.py:115-137 | when every component is listed, each is replaced in place by its SI symbol and the separators stay where they were |
| SIUnits.SymbolUnits | src/parameter/parameter.py:115-137 | a single table symbol converts to its SI symbol |
| SIUnits.QuotientUnits | src/parameter/parameter.py:115-137 | `a/b` for table symbols converts to `A/B` |
| SIUnits.LeadingSlashUnits | src/parameter/parameter.py:118-137 | `/a` converts to `A/`: the empty first piece is dropped and the separator moves after it |
| Flatten.FlattenDict | src/parameter/parameter.py:177-185 | the loop extends the items with leaves and with the items of flattened sub-dictionaries, then builds the dictionary |
| Flatten.ItemsMergeLeaves | src/parameter/parameter.py:179-185 | merging sub-dictionaries as they are flattened gives the same dictionary as merging all leaves once |
| Flatten.FlattenedLeaves | src/parameter/parameter.py:177-185 | the flattened dictionary is `dict` of all leaves with their full keys, depth first |
| Flatten.FullKeyJoins | src/parameter/parameter.py:180 | with no empty key on the path, a leaf's key is its path joined by the separator after the parent key |
| Flatten.LeavesArePaths | src/parameter/parameter.py:179-184 | the leaves are the paths of the nested dictionary, each under its full key, values unchanged |
| Flatten.FlattenedPaths | src/parameter/parameter.py:177-185 | `flatten_dict` keeps every leaf value unchanged under its full key and merges repeated keys as `dict` does |
| Parameter.Factor | src/parameter/parameter.py:173-175 | a number is multiplied by the factor; a list keeps its length and order, each element multiplied |
| Parameter.FactorByOne | src/parameter/parameter.py:173-175 | scaling by 1 changes nothing |
| Parameter.FactorComposes | src/parameter/parameter.py:173-175 | scaling twice is scaling once by the product of the factors |
| Parameter.FactorInverts | src/parameter/parameter.py:173-175 | scaling by a non-zero factor is undone by scaling by its inverse |
| Parameter.FactorKeepsSign | src/parameter/parameter.py:173-175 | a positive factor keeps the sign and the zeros of every number |
| Parameter.PackageTables | src/parameter/parameter.py:19-20 | the globals `FACTORS` and `UNITS` are positive, have separator-free symbols and share their keys |
| Parameter.Parameter.constructor | src/parameter/parameter.py:41-45 | a parameter holds the given value and units |
| Parameter.Parameter.ConvertToSI | src/parameter/parameter.py:53-141 | a new parameter holds the scaled value and the SI units, or the factor's exception is raised; the receiver is not modified |
| Parameter.ConvertedToSIResult | src/parameter/parameter.py:72-141 | conversion raises KeyError for the first unknown component, ValueError with no non-empty segment, or scales by the positive quotient and rewrites the units |
| Parameter.ConvertedKeepsSign | src/parameter/parameter.py:139 | a conversion never raises ZeroDivisionError and keeps the value's shape, signs and zeros |
| Parameter.ConvertedRenames | src/parameter/parameter.py:109-140 | with every component in the tables, conversion succeeds and renames each component in place, keeping the separators |
| Parameter.SingleSymbol | src/parameter/parameter.py:139-140 | one table symbol converts by its factor to its SI symbol |
| Parameter.QuotientOfSymbols | src/parameter/parameter.py:139-140 | `a/b` converts by F(a)/F(b) to `A/B` |
| Parameter.LeadingSlash | src/parameter/parameter.py:103-137 | `/a` converts by F(a) to `A/` |
| Parameter.NoSegment | src/parameter/parameter.py:84-98 | `` and `/` raise ValueError("Invalid units") for any tables |
| Parameter.UnknownSymbol | src/parameter/parameter.py:75-76 | a plain symbol not in the factor table raises KeyError naming it |
| Parameter.UnknownDivisor | src/parameter/parameter.py:79-81 | `a/b` raises KeyError naming `b` when only `a` is in the table |
| Parameter.ConvertAllStep | src/parameter/parameter.py:156 | conversion of the entries proceeds one entry at a time, stopping at the first exception |
| Parameter.ConvertAllSucceeds | src/parameter/parameter.py:156 | converting a dictionary succeeds exactly when every entry converts |
| Parameter.ConvertAllKeepsKeys | src/parameter/parameter.py:156 | the converted dictionary has exactly the same keys in the same order, each entry converted |
| Parameter.ConvertAllFirstError | src/parameter/parameter.py:156 | a failure is the exception of the first entry that fails, all earlier entries converting |
| Parameter.ConvertAllErrorSticks | src/parameter/parameter.py:156 | once a prefix of the entries fails, the whole conversion fails the same way |
| Parameter.ToSIResult | src/parameter/parameter.py:155-156 | `to_SI` succeeds exactly when each parameter converts, and then keeps the keys with each parameter converted |
| Parameter.ToSILookups | src/parameter/parameter.py:155-156 | on distinct keys, `to_SI` succeeds exactly when the parameter under every key converts, and then holds each key's conversion under that key and nothing under any other |
| Parameter.ToSIOfItems | src/parameter/parameter.py:155-156 | the same, read off the items a dictionary was built from when it agrees with them key by key |
| Parameter.DictToParametersResult | src/parameter/parameter.py:187-191 | one parameter per distinct full key of the leaves, in first-occurrence order, with the last leaf's value and units; never fails without conversion; with conversion, succeeds exactly when the last leaf under every key converts, and then holds that leaf's conversion under each key |
| Examples.Metres | test/test_parameter.py:14-15 | 1 m converts to 1 m |
| Examples.Millimetres | test/test_parameter.py:16-17 | 2 mm converts to 0.002 m |
| Examples.MillimetresPerSecond | test/test_parameter.py:18-19 | 3 mm/s converts to 0.003 m/s |
| Examples.MillimetresPerMinute | test/test_parameter.py:20-21 | 3 mm/min converts to 0.00005 m/s |
| Examples.AngularRates | src/parameter/conversion.py:14-22 | the degree and revolution rates, written with π, simplify to the tested values |
| Examples.DegreesPerMinute | test/test_parameter.py:22-23 | 2 deg/min converts to π/5400 rad/s |
| Examples.RevolutionsPerMinute | test/test_parameter.py:24-25 | 100 rev/min converts to 10π/3 rad/s |
| Examples.RevolutionsPerHour | test/test_parameter.py:26-27 | 1000 rev/hour converts to 5π/9 rad/s |
| Examples.MillimetreSequence | src/parameter/parameter.py:173-175 | the list [1, 2] in mm converts element by element to [0.001, 0.002] m |
| Examples.PerMinute | src/parameter/parameter.py:103-137 | `/min` has the factor 60 (the empty segment is skipped) and the units `s/` |
| Examples.EmptyUnits | src/parameter/parameter.py:84-98 | the empty unit string raises ValueError("Invalid units") |
| Examples.CubicMillimetres | test/conftest.py:15 | `kg/mm^3` raises KeyError("mm^3"): exponents are not understood |
| Examples.PressureTarget | src/parameter/conversion.py:30 | psi converts by 6894.757293168361 to `N/m^2` |
| Examples.PressureTargetUnknown | src/parameter/conversion.py:80 | `N/m^2` raises KeyError("m^2") |
| Examples.VolumeTarget | src/parameter/conversion.py:32 | gal converts by 0.003785411784 to `m^3` |
| Examples.VolumeTargetUnknown | src/parameter/conversion.py:82 | `m^3` raises KeyError("m^3") |
| Examples.ConversionNotIdempotent | src/parameter/conversion.py:80-84 | converting the result of a psi or gal conversion a second time fails |
| Examples.FlattenOneLeaf | src/parameter/parameter.py:177-185 | a single leaf flattens to itself under its full key |
| Examples.FlattenNested | src/parameter/parameter.py:177-185 | `{a: {b: x}, c: y}` flattens to `{a.b: x, c: y}` |
| Examples.FlattenRepeatedKey | src/parameter/parameter.py:182-185 | a nested `a.b` repeating a flat `a.b` keeps the first position and the last value |
| Examples.FlattenEmptyKey | src/parameter/parameter.py:180 | an empty key adds no prefix, like an empty parent key |
| Examples.ConvertMillimetresPerMinute | src/parameter/parameter.py:72-141 | converting a 3 mm/min object yields a new 0.00005 m/s object and leaves the receiver unchanged |

## Left out

- `read_yaml`, `parse_yaml_to_parameters` and `dicts_to_parameters`: file and YAML input (`parameter.py:33-39`, `194-202`). The last is one more comprehension over `dict_to_parameters`.
- `Parameters.as_table` and `tabulate_object_attrs`: text presentation with PrettyTable, including float rounding.
- `__str__`, `__repr__` and `main`: presentation, or empty.
- `is_iterable`: Python's runtime type tests. The `Magnitude` datatype (a number or a list of numbers) stands in for them.
- A `str` value, which `factor` would iterate character by character: the model's values are numbers.
- `Parameter(*val)` with the wrong number of fields: the model's leaves are already (value, units) pairs.
- The integer key `1` of both tables: no unit string can equal it. `DIMENSIONLESS` is modelled as `1` and `-`, both strings.
- IEEE floating point: factors and values are exact reals, π is an abstract positive constant, and the tests' epsilon comparisons become exact equalities with π.
- `Parameter.ToSI`: modelled on the (value, units) pairs of the parameters. The fresh `Parameter` objects of the new dictionary are not modelled.
- `Parameter.DictToParameters`: likewise returns the pairs rather than new `Parameter` objects.
- The evaluation order inside `convert_to_SI` is kept only as an outcome: `get_SI_units` cannot raise, so any exception is the factor's.
- The tables `FACTORS` and `UNITS` are parameters of the conversion, not globals. The examples fix them to the package's tables through a precondition.
