/** The factor half of `Parameter.convert_to_SI`: its nested helpers
    `multiply_factor`, `divide_factor`, `split_multiply_factors` and
    `get_SI_factor`. They read the module-level dictionary `FACTORS`, which is
    the parameter `factors` here; the package's own is `Conversion.ToSIFactor`. */
module SIFactor {

  import opened PyResult
  import opened PyStr
  import opened PyDict
  import opened Conversion

  /** Every component is a key of the factor dictionary. */
  predicate Known(factors: Dict<real>, components: seq<string>)
  {
    forall i :: 0 <= i < |components| ==> Get(factors, components[i]).Some?
  }

  /** The first component that is not a key of the factor dictionary, if any. */
  function FirstUnknown(factors: Dict<real>, components: seq<string>): (r: Option<string>)
    ensures r.None? <==> Known(factors, components)
    ensures r.Some? ==> r.value in components && Get(factors, r.value).None?
  {
    if |components| == 0 then None
    else if Get(factors, components[0]).None? then Some(components[0])
    else FirstUnknown(factors, components[1..])
  }

  /** The component `FirstUnknown` names is the first absent one: every
      component before it is in the table. */
  lemma {:induction false} FirstUnknownIsFirst(factors: Dict<real>, components: seq<string>)
    ensures FirstUnknown(factors, components).Some? ==>
      exists i :: 0 <= i < |components| && components[i] == FirstUnknown(factors, components).value &&
        Known(factors, components[..i])
    decreases |components|
  {
    if |components| > 0 && Get(factors, components[0]).Some? {
      var rest := components[1..];
      FirstUnknownIsFirst(factors, rest);
      if FirstUnknown(factors, rest).Some? {
        var i :| 0 <= i < |rest| && rest[i] == FirstUnknown(factors, rest).value && Known(factors, rest[..i]);
        assert components[..i + 1] == [components[0]] + rest[..i];
        assert components[i + 1] == rest[i];
      }
    } else if |components| > 0 {
      assert components[..0] == [];
    }
  }

  /** A key of a dictionary of positive factors has a positive factor. */
  lemma PositiveLookup(factors: Dict<real>, symbol: string)
    requires PositiveFactors(factors) && Get(factors, symbol).Some?
    ensures Get(factors, symbol).value > 0.0
  {
    GetEntry(factors, symbol);
  }

  /** The factors of known components, in order. */
  function TableFactors(factors: Dict<real>, components: seq<string>): (fs: seq<real>)
    requires Known(factors, components)
    ensures |fs| == |components|
    ensures forall i :: 0 <= i < |fs| ==> Get(factors, components[i]) == Some(fs[i])
    ensures PositiveFactors(factors) ==> forall i :: 0 <= i < |fs| ==> fs[i] > 0.0
  {
    if |components| == 0 then []
    else
      var f := Get(factors, components[0]).value;
      var rest := TableFactors(factors, components[1..]);
      assert forall i :: 1 <= i < |components| ==> components[i] == components[1..][i - 1];
      if PositiveFactors(factors) then PositiveLookup(factors, components[0]); [f] + rest
      else [f] + rest
  }

  /** The recursive `product` lambda: `x[0] * product(x[1:])`, and 1 for the empty tuple. */
  function Product(xs: seq<real>): (p: real)
    ensures (forall i :: 0 <= i < |xs| ==> xs[i] != 0.0) ==> p != 0.0
    ensures (forall i :: 0 <= i < |xs| ==> xs[i] > 0.0) ==> p > 0.0
  {
    if |xs| == 0 then 1.0 else xs[0] * Product(xs[1..])
  }

  /** The tuple `FACTORS[component] for component in unit_components`: the
      factors in order, or KeyError for the first missing component. */
  function LookupFactors(factors: Dict<real>, components: seq<string>): Result<seq<real>>
  {
    if |components| == 0 then Ok([])
    else match Get(factors, components[0])
      case None => Err(KeyError(components[0]))
      case Some(f) =>
        match LookupFactors(factors, components[1..])
        case Err(e) => Err(e)
        case Ok(fs) => Ok([f] + fs)
  }

  /** `multiply_factor`: one component is looked up directly, two or more are
      looked up and multiplied, none is ValueError. */
  function MultiplyFactor(factors: Dict<real>, components: seq<string>): Result<real>
  {
    if |components| == 1 then
      match Get(factors, components[0])
      case None => Err(KeyError(components[0]))
      case Some(f) => Ok(f)
    else if |components| >= 2 then
      match LookupFactors(factors, components)
      case Err(e) => Err(e)
      case Ok(fs) => Ok(Product(fs))
    else Err(ValueError("Invalid units"))
  }

  /** The factor of one `/`-separated segment: `multiply_factor(component.split("."))`. */
  function SegmentFactor(factors: Dict<real>, segment: string): Result<real>
  {
    MultiplyFactor(factors, Split(segment, '.'))
  }

  /** The list `split_multiply_factors` builds: the factors of the non-empty
      segments, in order; the first failing segment's error otherwise. */
  function SegmentFactors(factors: Dict<real>, segments: seq<string>): Result<seq<real>>
  {
    if |segments| == 0 then Ok([])
    else
      var last := segments[|segments| - 1];
      match SegmentFactors(factors, segments[..|segments| - 1])
      case Err(e) => Err(e)
      case Ok(fs) =>
        if last == "" then Ok(fs)
        else match SegmentFactor(factors, last)
          case Err(e) => Err(e)
          case Ok(f) => Ok(fs + [f])
  }

  /** `divided /= component` over the remaining components; Python raises
      ZeroDivisionError on a zero divisor. */
  function DivideLeft(x: real, divisors: seq<real>): Result<real>
    decreases |divisors|
  {
    if |divisors| == 0 then Ok(x)
    else if divisors[0] == 0.0 then Err(ZeroDivisionError)
    else DivideLeft(x / divisors[0], divisors[1..])
  }

  /** The value `divide_factor` returns. */
  function Divided(factors: seq<real>): Result<real>
  {
    if |factors| == 1 then Ok(factors[0])
    else if |factors| >= 2 then DivideLeft(factors[0], factors[1..])
    else Err(ValueError("Invalid units"))
  }

  /** The value `get_SI_factor` returns. */
  function FactorOf(factors: Dict<real>, units: string): Result<real>
  {
    match SegmentFactors(factors, Split(units, '/'))
    case Err(e) => Err(e)
    case Ok(fs) => Divided(fs)
  }

  /** `split_multiply_factors`: the loop over the `/`-separated segments that
      appends the factor of each non-empty one. */
  method SplitMultiplyFactors(factors: Dict<real>, unitComponents: seq<string>) returns (r: Result<seq<real>>)
    ensures r == SegmentFactors(factors, unitComponents)
  {
    var fs: seq<real> := [];
    for i := 0 to |unitComponents|
      invariant SegmentFactors(factors, unitComponents[..i]) == Ok(fs)
    {
      var component := unitComponents[i];
      assert unitComponents[..i + 1][..i] == unitComponents[..i];
      if component != "" {
        var f := MultiplyFactor(factors, Split(component, '.'));
        if f.Err? {
          SegmentFactorsErrorSticks(factors, unitComponents, i + 1);
          return Err(f.error);
        }
        fs := fs + [f.value];
      }
    }
    assert unitComponents[..|unitComponents|] == unitComponents;
    return Ok(fs);
  }

  /** Once a prefix of the segments fails, so do all the segments. */
  lemma {:induction false} SegmentFactorsErrorSticks(factors: Dict<real>, segments: seq<string>, n: nat)
    requires n <= |segments| && SegmentFactors(factors, segments[..n]).Err?
    ensures SegmentFactors(factors, segments) == SegmentFactors(factors, segments[..n])
    decreases |segments| - n
  {
    if n < |segments| {
      assert segments[..n + 1][..n] == segments[..n];
      SegmentFactorsErrorSticks(factors, segments, n + 1);
    } else {
      assert segments[..n] == segments;
    }
  }

  /** `divide_factor`: the first factor divided in place by each later one. */
  method DivideFactor(unitComponents: seq<real>) returns (r: Result<real>)
    ensures r == Divided(unitComponents)
  {
    if |unitComponents| == 1 {
      return Ok(unitComponents[0]);
    } else if |unitComponents| >= 2 {
      var divided := unitComponents[0];
      for i := 1 to |unitComponents|
        invariant DivideLeft(divided, unitComponents[i..]) == DivideLeft(unitComponents[0], unitComponents[1..])
      {
        if unitComponents[i] == 0.0 {
          return Err(ZeroDivisionError);
        }
        assert unitComponents[i..][1..] == unitComponents[i + 1..];
        divided := divided / unitComponents[i];
      }
      return Ok(divided);
    } else {
      return Err(ValueError("Invalid units"));
    }
  }

  /** `get_SI_factor`: split on `/`, multiply within segments, divide across them. */
  method GetSIFactor(factors: Dict<real>, units: string) returns (r: Result<real>)
    ensures r == FactorOf(factors, units)
  {
    var divideFactorComponents := Split(units, '/');
    var splitMultiplyFactors := SplitMultiplyFactors(factors, divideFactorComponents);
    if splitMultiplyFactors.Err? {
      return Err(splitMultiplyFactors.error);
    }
    r := DivideFactor(splitMultiplyFactors.value);
  }

  /** The non-empty segments, in order: the ones `split_multiply_factors` looks at. */
  function NonEmpty(segments: seq<string>): seq<string>
  {
    if |segments| == 0 then []
    else
      var last := segments[|segments| - 1];
      NonEmpty(segments[..|segments| - 1]) + (if last == "" then [] else [last])
  }

  /** Each segment's components are keys of the factor dictionary. */
  predicate SegmentsKnown(factors: Dict<real>, segments: seq<string>)
  {
    forall i :: 0 <= i < |segments| ==> Known(factors, Split(segments[i], '.'))
  }

  /** The product of the factors of a segment's components. */
  function SegmentValue(factors: Dict<real>, segment: string): real
    requires Known(factors, Split(segment, '.'))
  {
    Product(TableFactors(factors, Split(segment, '.')))
  }

  function SegmentValues(factors: Dict<real>, segments: seq<string>): seq<real>
    requires SegmentsKnown(factors, segments)
  {
    seq(|segments|, i requires 0 <= i < |segments| => SegmentValue(factors, segments[i]))
  }

  /** The first segment's value divided by the product of the later ones. */
  function Quotient(factors: Dict<real>, segments: seq<string>): real
    requires PositiveFactors(factors) && |segments| >= 1 && SegmentsKnown(factors, segments)
  {
    SegmentValue(factors, segments[0]) / Product(SegmentValues(factors, segments[1..]))
  }

  lemma {:induction false} ProductAppend(a: seq<real>, b: seq<real>)
    ensures Product(a + b) == Product(a) * Product(b)
    decreases |a|
  {
    if |a| > 0 {
      assert (a + b)[1..] == a[1..] + b;
      ProductAppend(a[1..], b);
    } else {
      assert a + b == b;
    }
  }

  lemma KnownAppend(factors: Dict<real>, a: seq<string>, b: seq<string>)
    ensures Known(factors, a + b) <==> Known(factors, a) && Known(factors, b)
  {
    if Known(factors, a) && Known(factors, b) {
      assert forall i :: 0 <= i < |a + b| ==> (a + b)[i] == if i < |a| then a[i] else b[i - |a|];
    }
    if Known(factors, a + b) {
      assert forall i :: 0 <= i < |a| ==> a[i] == (a + b)[i];
      assert forall i :: 0 <= i < |b| ==> b[i] == (a + b)[|a| + i];
    }
  }

  /** The first unknown component of `a + b` is `a`'s, or else `b`'s. */
  lemma {:induction false} FirstUnknownAppend(factors: Dict<real>, a: seq<string>, b: seq<string>)
    ensures FirstUnknown(factors, a + b) ==
      if FirstUnknown(factors, a).Some? then FirstUnknown(factors, a) else FirstUnknown(factors, b)
    decreases |a|
  {
    if |a| == 0 {
      assert a + b == b;
    } else {
      assert (a + b)[1..] == a[1..] + b;
      FirstUnknownAppend(factors, a[1..], b);
    }
  }

  lemma {:induction false} ComponentsAppend(a: seq<string>, b: seq<string>)
    ensures Components(a + b) == Components(a) + Components(b)
    decreases |a|
  {
    if |a| == 0 {
      assert a + b == b;
    } else {
      assert (a + b)[1..] == a[1..] + b;
      ComponentsAppend(a[1..], b);
    }
  }

  /** Every component is known exactly when every segment's components are. */
  lemma {:induction false} KnownComponents(factors: Dict<real>, segments: seq<string>)
    ensures Known(factors, Components(segments)) <==> SegmentsKnown(factors, segments)
    decreases |segments|
  {
    if |segments| > 0 {
      KnownComponents(factors, segments[1..]);
      KnownAppend(factors, Split(segments[0], '.'), Components(segments[1..]));
      assert forall i :: 1 <= i < |segments| ==> segments[i] == segments[1..][i - 1];
    }
  }

  /** Looking up components yields their factors, or KeyError for the first unknown one. */
  lemma {:induction false} LookupFactorsResult(factors: Dict<real>, components: seq<string>)
    ensures Known(factors, components) ==> LookupFactors(factors, components) == Ok(TableFactors(factors, components))
    ensures !Known(factors, components) ==>
      LookupFactors(factors, components) == Err(KeyError(FirstUnknown(factors, components).value))
    decreases |components|
  {
    if |components| > 0 {
      LookupFactorsResult(factors, components[1..]);
    }
  }

  /** A single component yields its factor directly, which is its product. */
  lemma SingleFactor(factors: Dict<real>, c: string)
    ensures MultiplyFactor(factors, [c]) ==
      if Get(factors, c).Some? then Ok(Product(TableFactors(factors, [c]))) else Err(KeyError(c))
  {
    if Get(factors, c).Some? {
      var fs := TableFactors(factors, [c]);
      assert fs == [Get(factors, c).value] + TableFactors(factors, []);
      assert Product(fs) == fs[0] * Product([]);
    }
  }

  /** `multiply_factor` of one or more components is the product of their
      factors, the direct lookup of a single component included; the first
      unknown component raises KeyError, and no component raises ValueError. */
  lemma MultiplyFactorResult(factors: Dict<real>, components: seq<string>)
    ensures MultiplyFactor(factors, components) ==
      if |components| == 0 then Err(ValueError("Invalid units"))
      else if Known(factors, components) then Ok(Product(TableFactors(factors, components)))
      else Err(KeyError(FirstUnknown(factors, components).value))
  {
    if |components| == 1 {
      SingleFactor(factors, components[0]);
      assert components == [components[0]];
    } else if |components| >= 2 {
      LookupFactorsResult(factors, components);
    }
  }

  lemma DivideTwice(x: real, d: real, p: real)
    requires d != 0.0 && p != 0.0
    ensures x / d / p == x / (d * p)
  {
    var q := x / d;
    var r := q / p;
    assert q * d == x;
    assert r * p == q;
    assert r * (d * p) == (r * p) * d;
    assert d * p != 0.0;
  }

  /** Dividing left to right by non-zero divisors divides by their product;
      a zero divisor raises ZeroDivisionError. */
  lemma {:induction false} DivideLeftResult(x: real, divisors: seq<real>)
    ensures (forall i :: 0 <= i < |divisors| ==> divisors[i] != 0.0) ==>
      DivideLeft(x, divisors) == Ok(x / Product(divisors))
    ensures (exists i :: 0 <= i < |divisors| && divisors[i] == 0.0) ==>
      DivideLeft(x, divisors) == Err(ZeroDivisionError)
    decreases |divisors|
  {
    if |divisors| > 0 {
      var d := divisors[0];
      var rest := divisors[1..];
      assert forall i :: 1 <= i < |divisors| ==> divisors[i] == rest[i - 1];
      if d != 0.0 {
        DivideLeftResult(x / d, rest);
        if forall i :: 0 <= i < |divisors| ==> divisors[i] != 0.0 {
          assert forall i :: 0 <= i < |rest| ==> rest[i] == divisors[i + 1];
          assert DivideLeft(x / d, rest) == Ok(x / d / Product(rest));
          assert Product(divisors) == d * Product(rest);
          DivideTwice(x, d, Product(rest));
          assert DivideLeft(x, divisors) == DivideLeft(x / d, rest);
          assert x / d / Product(rest) == x / Product(divisors);
        }
      }
    }
  }

  /** What the segment loop holds after `segments`: the factors of the
      non-empty segments, or the first unknown component's KeyError. */
  predicate SegmentFactorsAre(factors: Dict<real>, segments: seq<string>)
  {
    (Known(factors, Components(NonEmpty(segments))) ==>
      SegmentsKnown(factors, NonEmpty(segments)) &&
      SegmentFactors(factors, segments) == Ok(SegmentValues(factors, NonEmpty(segments)))) &&
    (!Known(factors, Components(NonEmpty(segments))) ==>
      SegmentFactors(factors, segments) == Err(KeyError(FirstUnknown(factors, Components(NonEmpty(segments))).value)))
  }

  /** The factors of the non-empty segments, or the first unknown component's KeyError. */
  lemma {:induction false} SegmentFactorsResult(factors: Dict<real>, segments: seq<string>)
    ensures Known(factors, Components(NonEmpty(segments))) ==>
      SegmentsKnown(factors, NonEmpty(segments)) &&
      SegmentFactors(factors, segments) == Ok(SegmentValues(factors, NonEmpty(segments)))
    ensures !Known(factors, Components(NonEmpty(segments))) ==>
      SegmentFactors(factors, segments) == Err(KeyError(FirstUnknown(factors, Components(NonEmpty(segments))).value))
    decreases |segments|
  {
    KnownComponents(factors, NonEmpty(segments));
    if |segments| > 0 {
      var init := segments[..|segments| - 1];
      SegmentFactorsResult(factors, init);
      SegmentFactorsStep(factors, segments);
    } else {
      assert SegmentValues(factors, []) == [];
    }
  }

  /** One loop iteration of the segment loop keeps `SegmentFactorsAre`. */
  lemma SegmentFactorsStep(factors: Dict<real>, segments: seq<string>)
    requires |segments| > 0 && SegmentFactorsAre(factors, segments[..|segments| - 1])
    ensures SegmentFactorsAre(factors, segments)
  {
    var init := segments[..|segments| - 1];
    var last := segments[|segments| - 1];
    if last == "" {
      assert NonEmpty(segments) == NonEmpty(init);
    } else {
      assert segments == init + [last];
      SegmentFactorsAppend(factors, init, last);
    }
  }

  /** An iteration on a non-empty segment appends its product, or raises. */
  lemma SegmentFactorsAppend(factors: Dict<real>, init: seq<string>, last: string)
    requires last != "" && SegmentFactorsAre(factors, init)
    ensures SegmentFactorsAre(factors, init + [last])
  {
    var segments := init + [last];
    if Known(factors, Components(NonEmpty(segments))) {
      SegmentFactorsAppendKnown(factors, init, last);
    } else {
      SegmentFactorsAppendUnknown(factors, init, last);
    }
  }

  /** The shape of the components after a non-empty segment is appended. */
  lemma AppendedComponents(factors: Dict<real>, init: seq<string>, last: string)
    requires last != ""
    ensures (init + [last])[..|init + [last]| - 1] == init
    ensures NonEmpty(init + [last]) == NonEmpty(init) + [last]
    ensures Components(NonEmpty(init + [last])) == Components(NonEmpty(init)) + Split(last, '.')
    ensures Known(factors, Components(NonEmpty(init + [last]))) <==>
      Known(factors, Components(NonEmpty(init))) && Known(factors, Split(last, '.'))
  {
    var segments := init + [last];
    assert segments[..|segments| - 1] == init;
    assert NonEmpty(segments) == NonEmpty(init) + [last];
    ComponentsAppend(NonEmpty(init), [last]);
    assert Components([last]) == Split(last, '.') by {
      assert [last][1..] == [];
    }
    KnownAppend(factors, Components(NonEmpty(init)), Split(last, '.'));
  }

  /** With every component known, the segment's product is appended. */
  lemma SegmentFactorsAppendKnown(factors: Dict<real>, init: seq<string>, last: string)
    requires last != "" && SegmentFactorsAre(factors, init)
    requires Known(factors, Components(NonEmpty(init + [last])))
    ensures SegmentsKnown(factors, NonEmpty(init + [last]))
    ensures SegmentFactors(factors, init + [last]) == Ok(SegmentValues(factors, NonEmpty(init + [last])))
  {
    var segments := init + [last];
    AppendedComponents(factors, init, last);
    KnownComponents(factors, NonEmpty(segments));
    MultiplyFactorResult(factors, Split(last, '.'));
    assert SegmentFactor(factors, last) == Ok(SegmentValue(factors, last));
    assert SegmentValues(factors, NonEmpty(segments)) ==
      SegmentValues(factors, NonEmpty(init)) + [SegmentValue(factors, last)];
  }

  /** With some component unknown, the first of them is the KeyError. */
  lemma SegmentFactorsAppendUnknown(factors: Dict<real>, init: seq<string>, last: string)
    requires last != "" && SegmentFactorsAre(factors, init)
    requires !Known(factors, Components(NonEmpty(init + [last])))
    ensures SegmentFactors(factors, init + [last]) ==
      Err(KeyError(FirstUnknown(factors, Components(NonEmpty(init + [last]))).value))
  {
    AppendedComponents(factors, init, last);
    MultiplyFactorResult(factors, Split(last, '.'));
    FirstUnknownAppend(factors, Components(NonEmpty(init)), Split(last, '.'));
  }

  /** With positive factors, a segment's value is positive. */
  lemma SegmentValuePositive(factors: Dict<real>, segment: string)
    requires PositiveFactors(factors) && Known(factors, Split(segment, '.'))
    ensures SegmentValue(factors, segment) > 0.0
  {
  }

  /** `get_SI_factor` raises KeyError for the first component of a non-empty
      segment that is not a key. */
  lemma SIFactorUnknown(factors: Dict<real>, units: string)
    requires !Known(factors, Components(NonEmpty(Split(units, '/'))))
    ensures FactorOf(factors, units) ==
      Err(KeyError(FirstUnknown(factors, Components(NonEmpty(Split(units, '/')))).value))
  {
    SegmentFactorsResult(factors, Split(units, '/'));
  }

  /** `get_SI_factor` raises ValueError when every segment is empty. */
  lemma SIFactorNoSegment(factors: Dict<real>, units: string)
    requires NonEmpty(Split(units, '/')) == []
    ensures FactorOf(factors, units) == Err(ValueError("Invalid units"))
  {
    SegmentFactorsResult(factors, Split(units, '/'));
    assert Components([]) == [];
    assert SegmentValues(factors, []) == [];
  }

  /** Otherwise, with positive factors, `get_SI_factor` divides the first
      non-empty segment's value by the values of the later ones. */
  lemma SIFactorQuotient(factors: Dict<real>, units: string)
    requires PositiveFactors(factors)
    requires Known(factors, Components(NonEmpty(Split(units, '/')))) && NonEmpty(Split(units, '/')) != []
    ensures SegmentsKnown(factors, NonEmpty(Split(units, '/')))
    ensures FactorOf(factors, units) == Ok(Quotient(factors, NonEmpty(Split(units, '/'))))
  {
    var segs := NonEmpty(Split(units, '/'));
    SegmentFactorsResult(factors, Split(units, '/'));
    var vs := SegmentValues(factors, segs);
    SegmentValuesPositive(factors, segs);
    DivideLeftResult(vs[0], vs[1..]);
    assert vs[1..] == SegmentValues(factors, segs[1..]);
    if |vs| == 1 {
      assert vs[1..] == [];
    }
  }

  /** With positive factors, every segment's value is positive. */
  lemma SegmentValuesPositive(factors: Dict<real>, segments: seq<string>)
    requires PositiveFactors(factors) && SegmentsKnown(factors, segments)
    ensures forall i :: 0 <= i < |segments| ==> SegmentValues(factors, segments)[i] > 0.0
  {
    forall i | 0 <= i < |segments| {
      SegmentValuePositive(factors, segments[i]);
    }
  }

  /** The quotient of positive segment values is positive. */
  lemma QuotientPositive(factors: Dict<real>, segments: seq<string>)
    requires PositiveFactors(factors) && |segments| >= 1 && SegmentsKnown(factors, segments)
    ensures Quotient(factors, segments) > 0.0
  {
    var vs := SegmentValues(factors, segments[1..]);
    forall i | 0 <= i < |vs| {
      SegmentValuePositive(factors, segments[1..][i]);
    }
    SegmentValuePositive(factors, segments[0]);
  }

  /** With positive factors, `get_SI_factor` either succeeds with a positive
      factor or fails with KeyError or ValueError: it never divides by zero. */
  lemma SIFactorPositive(factors: Dict<real>, units: string)
    requires PositiveFactors(factors)
    ensures FactorOf(factors, units).Ok? ==> FactorOf(factors, units).value > 0.0
    ensures FactorOf(factors, units).Err? ==> FactorOf(factors, units).error != ZeroDivisionError
  {
    var segs := NonEmpty(Split(units, '/'));
    if !Known(factors, Components(segs)) {
      SIFactorUnknown(factors, units);
    } else if segs == [] {
      SIFactorNoSegment(factors, units);
    } else {
      SIFactorQuotient(factors, units);
      QuotientPositive(factors, segs);
    }
  }

  /** A single known symbol's segment value is its factor. */
  lemma SymbolSegment(factors: Dict<real>, symbol: string)
    requires PlainKeys(factors) && Get(factors, symbol).Some?
    ensures Split(symbol, '.') == [symbol]
    ensures Known(factors, Split(symbol, '.')) && SegmentValue(factors, symbol) == Get(factors, symbol).value
  {
    PlainLookup(factors, symbol);
    Unseparated(symbol, '.');
    var fs := TableFactors(factors, [symbol]);
    assert Known(factors, [symbol]);
    assert fs == [Get(factors, symbol).value] + TableFactors(factors, []);
    assert SegmentValue(factors, symbol) == Product(fs);
    assert Product(fs) == fs[0] * Product([]);
  }

  /** Non-empty segments are all kept. */
  lemma {:induction false} NonEmptyKeepsAll(segments: seq<string>)
    requires forall i :: 0 <= i < |segments| ==> segments[i] != ""
    ensures NonEmpty(segments) == segments
    decreases |segments|
  {
    if |segments| > 0 {
      NonEmptyKeepsAll(segments[..|segments| - 1]);
    }
  }

  /** Known symbols are their own components, each with its factor as value. */
  lemma {:induction false} SymbolComponents(factors: Dict<real>, symbols: seq<string>)
    requires PlainKeys(factors) && Known(factors, symbols)
    ensures Components(symbols) == symbols
    ensures SegmentsKnown(factors, symbols) && SegmentValues(factors, symbols) == TableFactors(factors, symbols)
    decreases |symbols|
  {
    forall i | 0 <= i < |symbols| {
      SymbolSegment(factors, symbols[i]);
    }
    if |symbols| > 0 {
      assert Known(factors, symbols[1..]) by {
        assert forall i :: 0 <= i < |symbols| - 1 ==> symbols[1..][i] == symbols[i + 1];
      }
      SymbolComponents(factors, symbols[1..]);
      assert symbols == [symbols[0]] + symbols[1..];
    }
  }

  /** A unit string without `/` is one segment, and its factor is that segment's value. */
  lemma SingleSegment(factors: Dict<real>, units: string)
    requires PositiveFactors(factors)
    requires '/' !in units && units != "" && Known(factors, Split(units, '.'))
    ensures FactorOf(factors, units) == Ok(SegmentValue(factors, units))
  {
    Unseparated(units, '/');
    NonEmptyKeepsAll([units]);
    assert Components([units]) == Split(units, '.') by {
      assert [units][1..] == [];
    }
    SIFactorQuotient(factors, units);
    assert [units][1..] == [];
    assert SegmentValues(factors, []) == [];
    assert Product([]) == 1.0;
  }

  /** Symbols joined by `.` multiply: the factor is the product of their factors. */
  lemma MultipliedSymbols(factors: Dict<real>, symbols: seq<string>)
    requires PositiveFactors(factors) && PlainKeys(factors)
    requires |symbols| >= 1 && Known(factors, symbols)
    ensures FactorOf(factors, Join(symbols, '.')) == Ok(Product(TableFactors(factors, symbols)))
  {
    forall i | 0 <= i < |symbols| {
      PlainLookup(factors, symbols[i]);
    }
    var units := Join(symbols, '.');
    SplitJoin(symbols, '.');
    JoinFree(symbols, '.', '/');
    JoinStartsWithFirst(symbols, '.');
    SingleSegment(factors, units);
  }

  /** The quotient of known symbols' segments is the first factor divided by
      the product of the later ones. */
  lemma SymbolQuotient(factors: Dict<real>, symbols: seq<string>)
    requires PositiveFactors(factors) && PlainKeys(factors)
    requires |symbols| >= 1 && Known(factors, symbols)
    ensures SegmentsKnown(factors, symbols)
    ensures Quotient(factors, symbols) ==
      TableFactors(factors, symbols)[0] / Product(TableFactors(factors, symbols)[1..])
  {
    SymbolComponents(factors, symbols);
    assert Known(factors, symbols[1..]) by {
      assert forall i :: 0 <= i < |symbols| - 1 ==> symbols[1..][i] == symbols[i + 1];
    }
    SymbolComponents(factors, symbols[1..]);
    var fs := TableFactors(factors, symbols);
    assert fs[1..] == TableFactors(factors, symbols[1..]);
  }

  /** Symbols joined by `/` divide left to right: the first symbol's factor
      divided by each later symbol's factor in turn. */
  lemma DividedSymbols(factors: Dict<real>, symbols: seq<string>)
    requires PositiveFactors(factors) && PlainKeys(factors)
    requires |symbols| >= 1 && Known(factors, symbols)
    ensures FactorOf(factors, Join(symbols, '/')) ==
      DivideLeft(TableFactors(factors, symbols)[0], TableFactors(factors, symbols)[1..])
  {
    forall i | 0 <= i < |symbols| {
      PlainLookup(factors, symbols[i]);
    }
    SplitJoin(symbols, '/');
    NonEmptyKeepsAll(symbols);
    SymbolComponents(factors, symbols);
    SymbolQuotient(factors, symbols);
    SIFactorQuotient(factors, Join(symbols, '/'));
    var fs := TableFactors(factors, symbols);
    DivideLeftResult(fs[0], fs[1..]);
  }

  /** The factor of `a/b` for two symbols of the table is the quotient of their factors. */
  lemma SymbolQuotientFactor(factors: Dict<real>, a: string, b: string)
    requires PositiveFactors(factors) && PlainKeys(factors)
    requires Get(factors, a).Some? && Get(factors, b).Some?
    ensures Get(factors, b).value > 0.0
    ensures FactorOf(factors, a + "/" + b) == Ok(Get(factors, a).value / Get(factors, b).value)
  {
    PositiveLookup(factors, b);
    assert Join([a, b], '/') == a + "/" + b by {
      assert [a, b][1..] == [b];
    }
    var fs := TableFactors(factors, [a, b]);
    DividedSymbols(factors, [a, b]);
    assert fs[1..] == [fs[1]];
    assert [fs[1]][1..] == [];
  }

  /** A leading `/` opens an empty segment, which is skipped: `/a` has the
      factor of `a` itself, not its reciprocal. */
  lemma LeadingSlashFactor(factors: Dict<real>, a: string)
    requires PositiveFactors(factors) && PlainKeys(factors) && Get(factors, a).Some?
    ensures FactorOf(factors, "/" + a) == Ok(Get(factors, a).value)
  {
    PlainLookup(factors, a);
    Unseparated(a, '/');
    Unseparated(a, '.');
    SplitCons('/', a, '/');
    assert Split("/" + a, '/') == ["", a];
    assert SegmentFactors(factors, [""]) == Ok([]) by {
      assert [""][..0] == [];
    }
    assert SegmentFactor(factors, a) == Ok(Get(factors, a).value);
    var segs := ["", a];
    assert |segs| - 1 == 1 && segs[1] == a && segs[..1] == [""];
    assert SegmentFactors(factors, segs) == Ok([] + [Get(factors, a).value]);
    assert [] + [Get(factors, a).value] == [Get(factors, a).value];
  }

  /** A unit string with no non-empty segment, such as `` or `/`, raises ValueError. */
  lemma NoSegmentFactor(factors: Dict<real>)
    ensures FactorOf(factors, "") == Err(ValueError("Invalid units"))
    ensures FactorOf(factors, "/") == Err(ValueError("Invalid units"))
  {
    assert Split("", '/') == [""];
    assert NonEmpty([""]) == [] by {
      assert [""][..0] == [];
    }
    SIFactorNoSegment(factors, "");
    assert "/"[1..] == "";
    assert Split("/", '/') == ["", ""];
    assert NonEmpty(["", ""]) == [] by {
      assert ["", ""][..1] == [""];
      assert [""][..0] == [];
    }
    SIFactorNoSegment(factors, "/");
  }
}
