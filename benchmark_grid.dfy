/**
 * The configuration grid of the benchmark sweep: the declared parameter sets, their
 * cartesian product, the override rules applied to each combination, the output
 * directory key derived from it and the argument list of the simulation it launches.
 */
module BenchmarkGrid {
  import opened Text

  /** An element of a combination as the untyped `List` of the cartesian product holds it. */
  datatype Value = IntV(i: int) | BoolV(b: bool) | RealV(r: real)

  /** The alpha values of the weight-factor loop: 100, 200, ..., 1900, then 1.0. */
  function WeightFactorValues(): (vs: seq<Value>)
    ensures |vs| == 20 && vs[19] == RealV(1.0)
    ensures forall k | 0 <= k < 19 :: vs[k].RealV? && vs[k].r == 100.0 * (k + 1) as real
  {
    seq(19, k requires 0 <= k < 19 => RealV((k + 1) as real * 100.0)) + [RealV(1.0)]
  }

  /** The lists each dimension's hash set is built from, in declaration order: fleet
      sizes, use Alonso-Mora, vulnerable probabilities, vulnerable interaction times,
      dispatch intervals, prebook vulnerable users, prebooking shares, minimize passenger
      delay, Alonso-Mora inclusive penalty, Alonso-Mora weight factor. */
  function DeclaredLists(): (d: seq<seq<Value>>)
    ensures |d| == 10
  {
    [ [IntV(100), IntV(150), IntV(200), IntV(250), IntV(300), IntV(350), IntV(400), IntV(450)],
      [BoolV(true)],
      [RealV(0.1), RealV(0.2), RealV(0.3), RealV(0.4), RealV(0.5), RealV(0.6), RealV(0.7), RealV(0.8), RealV(0.9)],
      [IntV(120), IntV(240)],
      [IntV(1)],
      [BoolV(false)],
      [RealV(0.0)],
      [BoolV(false), BoolV(true)],
      [BoolV(false), BoolV(true)],
      WeightFactorValues() ]
  }

  predicate Distinct(xs: seq<Value>) {
    forall i, j | 0 <= i < j < |xs| :: xs[i] != xs[j]
  }

  /** A hash set's iteration order: some arrangement of the declared values. */
  predicate IsIterationOrder(dims: seq<seq<Value>>) {
    |dims| == 10 && forall k | 0 <= k < 10 :: multiset(dims[k]) == multiset(DeclaredLists()[k])
  }

  /** Guava's `Sets.cartesianProduct`: every list taking one value per dimension,
      ordered lexicographically with the first dimension outermost. */
  function CartesianProduct(dims: seq<seq<Value>>): (r: seq<seq<Value>>)
    decreases |dims|
  {
    if |dims| == 0 then [[]]
    else PrependEach(dims[0], CartesianProduct(dims[1..]))
  }

  function PrependEach(firsts: seq<Value>, rests: seq<seq<Value>>): (r: seq<seq<Value>>)
    ensures |r| == |firsts| * |rests|
  {
    if |firsts| == 0 then []
    else seq(|rests|, j requires 0 <= j < |rests| => [firsts[0]] + rests[j]) + PrependEach(firsts[1..], rests)
  }

  function SizeProduct(dims: seq<seq<Value>>): nat {
    if |dims| == 0 then 1 else |dims[0]| * SizeProduct(dims[1..])
  }

  lemma {:induction false} ProductSize(dims: seq<seq<Value>>)
    ensures |CartesianProduct(dims)| == SizeProduct(dims)
    decreases |dims|
  {
    if |dims| > 0 {
      ProductSize(dims[1..]);
    }
  }

  lemma {:induction false} PrependEachMembers(firsts: seq<Value>, rests: seq<seq<Value>>, c: seq<Value>)
    ensures c in PrependEach(firsts, rests) <==> |c| > 0 && c[0] in firsts && c[1..] in rests
  {
    if |firsts| > 0 {
      PrependEachMembers(firsts[1..], rests, c);
      var head := seq(|rests|, j requires 0 <= j < |rests| => [firsts[0]] + rests[j]);
      if c in head {
        var j :| 0 <= j < |rests| && head[j] == c;
        assert c[1..] == rests[j];
      }
      if |c| > 0 && c[0] == firsts[0] && c[1..] in rests {
        var j :| 0 <= j < |rests| && rests[j] == c[1..];
        assert head[j] == c;
      }
    }
  }

  /** A list is in the product exactly when it has one entry per dimension, each taken
      from that dimension. */
  lemma {:induction false} ProductMembers(dims: seq<seq<Value>>, c: seq<Value>)
    ensures c in CartesianProduct(dims) <==> |c| == |dims| && forall k | 0 <= k < |dims| :: c[k] in dims[k]
    decreases |dims|
  {
    if |dims| > 0 {
      PrependEachMembers(dims[0], CartesianProduct(dims[1..]), c);
      if |c| > 0 {
        ProductMembers(dims[1..], c[1..]);
        if |c| == |dims| && forall k | 0 <= k < |dims| :: c[k] in dims[k] {
          assert forall k | 0 <= k < |dims[1..]| :: c[1..][k] in dims[1..][k] by {
            forall k | 0 <= k < |dims[1..]| ensures c[1..][k] in dims[1..][k] {
              assert c[1..][k] == c[k + 1];
            }
          }
        }
        if c[1..] in CartesianProduct(dims[1..]) && c[0] in dims[0] {
          forall k | 0 <= k < |dims| ensures c[k] in dims[k] {
            if k > 0 { assert c[k] == c[1..][k - 1]; }
          }
        }
      }
    }
  }

  /** Whatever order the hash sets iterate in, the sweep has 8 * 1 * 9 * 2 * 1 * 1 * 1 *
      2 * 2 * 20 = 11520 raw combinations. */
  lemma DeclaredGridSize(dims: seq<seq<Value>>)
    requires IsIterationOrder(dims)
    ensures |CartesianProduct(dims)| == 11520
  {
    ProductSize(dims);
    var d := DeclaredLists();
    forall k | 0 <= k < 10 ensures |dims[k]| == |d[k]| {
      assert |multiset(dims[k])| == |multiset(d[k])|;
    }
    SameSizesSameProduct(dims, d);
    DeclaredSizeProduct();
  }

  lemma {:induction false} SameSizesSameProduct(a: seq<seq<Value>>, b: seq<seq<Value>>)
    requires |a| == |b| && forall k | 0 <= k < |a| :: |a[k]| == |b[k]|
    ensures SizeProduct(a) == SizeProduct(b)
  {
    if |a| > 0 {
      SameSizesSameProduct(a[1..], b[1..]);
    }
  }

  lemma DeclaredSizeProduct()
    ensures SizeProduct(DeclaredLists()) == 11520
  {
    var d := DeclaredLists();
    assert SizeProduct(d[9..]) == 20;
    assert SizeProduct(d[8..]) == 40 by { assert d[8..][1..] == d[9..]; }
    assert SizeProduct(d[7..]) == 80 by { assert d[7..][1..] == d[8..]; }
    assert SizeProduct(d[6..]) == 80 by { assert d[6..][1..] == d[7..]; }
    assert SizeProduct(d[5..]) == 80 by { assert d[5..][1..] == d[6..]; }
    assert SizeProduct(d[4..]) == 80 by { assert d[4..][1..] == d[5..]; }
    assert SizeProduct(d[3..]) == 160 by { assert d[3..][1..] == d[4..]; }
    assert SizeProduct(d[2..]) == 1440 by { assert d[2..][1..] == d[3..]; }
    assert SizeProduct(d[1..]) == 1440 by { assert d[1..][1..] == d[2..]; }
    assert SizeProduct(d) == 11520 by { assert d[1..] == d[1..]; }
  }

  /** One combination after the casts at the head of the loop body. */
  datatype Combination = Combination(
    fleetSize: int,
    useAlonsoMora: bool,
    vulnerableProbability: real,
    vulnerableTime: int,
    dispatchInterval: int,
    prebookVulnerableUsers: bool,
    prebookingShare: real,
    minimizePassengerDelay: bool,
    inclusivePenalty: bool,
    weightFactor: real)

  /** Position `k` of a combination holds an int, a boolean or a double. */
  predicate OfKind(v: Value, k: nat) {
    if k == 0 || k == 3 || k == 4 then v.IntV?
    else if k == 1 || k == 5 || k == 7 || k == 8 then v.BoolV?
    else v.RealV?
  }

  /** The casts succeed: each position holds the type the loop casts it to. */
  predicate WellTyped(params: seq<Value>) {
    |params| == 10 && forall k | 0 <= k < 10 :: OfKind(params[k], k)
  }

  function Decode(params: seq<Value>): Combination
    requires WellTyped(params)
  {
    assert OfKind(params[0], 0) && OfKind(params[1], 1) && OfKind(params[2], 2) && OfKind(params[3], 3);
    assert OfKind(params[4], 4) && OfKind(params[5], 5) && OfKind(params[6], 6) && OfKind(params[7], 7);
    assert OfKind(params[8], 8) && OfKind(params[9], 9);
    Combination(params[0].i, params[1].b, params[2].r, params[3].i, params[4].i,
                params[5].b, params[6].r, params[7].b, params[8].b, params[9].r)
  }

  /** Every raw combination of the declared grid passes the casts. */
  lemma DeclaredGridWellTyped(dims: seq<seq<Value>>, params: seq<Value>)
    requires IsIterationOrder(dims)
    requires params in CartesianProduct(dims)
    ensures WellTyped(params)
  {
    ProductMembers(dims, params);
    DeclaredListsTyped();
    var d := DeclaredLists();
    forall k | 0 <= k < 10 ensures OfKind(params[k], k) {
      assert params[k] in multiset(dims[k]);
      assert params[k] in multiset(d[k]);
      var j :| 0 <= j < |d[k]| && d[k][j] == params[k];
    }
  }

  lemma DeclaredListsTyped()
    ensures forall k, j | 0 <= k < 10 && 0 <= j < |DeclaredLists()[k]| :: OfKind(DeclaredLists()[k][j], k)
  {
    var d: seq<seq<Value>> := DeclaredLists();
    var w: seq<Value> := d[9];
    assert forall j | 0 <= j < |w| :: w[j].RealV?;
  }

  /** The overrides applied while reading the combination (dispatch interval, minimize
      delay and inclusive penalty depend on the algorithm). */
  function EarlyOverrides(c: Combination): Combination {
    c.(dispatchInterval := if c.useAlonsoMora then 1 else c.dispatchInterval,
       minimizePassengerDelay := c.minimizePassengerDelay && !c.useAlonsoMora,
       inclusivePenalty := c.inclusivePenalty && c.useAlonsoMora)
  }

  /** All override rules: the early ones, then the prebooking rules applied after the
      key's prebooking part is written. */
  function Overrides(c: Combination): (e: Combination)
    ensures Normalised(e)
    ensures e.fleetSize == c.fleetSize && e.useAlonsoMora == c.useAlonsoMora
    ensures e.vulnerableProbability == c.vulnerableProbability && e.vulnerableTime == c.vulnerableTime
    ensures e.weightFactor == c.weightFactor
    ensures Normalised(c) ==> e == c
  {
    var early := EarlyOverrides(c);
    if early.vulnerableProbability > 0.0 then
      if early.prebookVulnerableUsers then early.(prebookingShare := 0.0) else early
    else
      early.(prebookVulnerableUsers := false)
  }

  /** The override rules hold. */
  predicate Normalised(e: Combination) {
    && (e.useAlonsoMora ==> e.dispatchInterval == 1 && !e.minimizePassengerDelay)
    && (!e.useAlonsoMora ==> !e.inclusivePenalty)
    && (e.vulnerableProbability > 0.0 && e.prebookVulnerableUsers ==> e.prebookingShare == 0.0)
    && (e.vulnerableProbability <= 0.0 ==> !e.prebookVulnerableUsers)
  }

  /** Applying the overrides a second time changes nothing. */
  lemma OverridesIdempotent(c: Combination)
    ensures Overrides(Overrides(c)) == Overrides(c)
  {
  }

  /** The raw values the overrides neutralise do not reach the effective combination. */
  lemma OverridesAbsorbNeutralisedValues(c: Combination, di: int, md: bool, pen: bool, pv: bool, ps: real)
    ensures c.useAlonsoMora ==> Overrides(c.(dispatchInterval := di)) == Overrides(c)
    ensures c.useAlonsoMora ==> Overrides(c.(minimizePassengerDelay := md)) == Overrides(c)
    ensures !c.useAlonsoMora ==> Overrides(c.(inclusivePenalty := pen)) == Overrides(c)
    ensures c.vulnerableProbability <= 0.0 ==> Overrides(c.(prebookVulnerableUsers := pv)) == Overrides(c)
    ensures c.vulnerableProbability > 0.0 && c.prebookVulnerableUsers ==>
      Overrides(c.(prebookingShare := ps)) == Overrides(c)
  {
  }

  /** The parts of the output directory name, in order. */
  function Segments(c: Combination, show: Show): seq<string> {
    [ "fs" + show.ofInt(c.fleetSize),
      "vs" + show.ofReal(c.vulnerableProbability),
      "vt" + (if c.vulnerableProbability > 0.0 then show.ofInt(c.vulnerableTime) else "x"),
      if c.useAlonsoMora then "am" else if c.minimizePassengerDelay then "drt2" else "drt",
      "di" + (if c.useAlonsoMora then "x" else show.ofInt(c.dispatchInterval)),
      if c.vulnerableProbability > 0.0 then "pv" + BoolStr(c.prebookVulnerableUsers) else "pvx",
      "ps" + (if c.vulnerableProbability > 0.0 && c.prebookVulnerableUsers then "x" else show.ofReal(c.prebookingShare)),
      if c.inclusivePenalty then "pwf" + show.ofReal(c.weightFactor) else "pwfx" ]
  }

  /** The output directory of a combination, which is also its registry key:
      `<base>/fs<fs>_vs<vs>_vt<vt|x>_<am|drt2|drt>_di<x|di>_<pv<pv>_ps<x|ps> | pvx_ps<ps>>_<pwf<alpha>|pwfx>`. */
  function OutputDirectory(base: string, c: Combination, show: Show): string {
    PathOf(base, Join(Segments(c, show)))
  }

  /** The source writes the name from the early-overridden values; the prebooking
      overrides that follow never change it. */
  lemma DirectoryWrittenBeforeLateOverrides(base: string, c: Combination, show: Show)
    ensures OutputDirectory(base, EarlyOverrides(c), show) == OutputDirectory(base, Overrides(c), show)
  {
    assert Segments(EarlyOverrides(c), show) == Segments(Overrides(c), show);
  }

  /** Two effective combinations name the same experiment: they agree on every field
      except the vulnerable time when nobody is vulnerable and alpha when the inclusive
      penalty is off. */
  predicate SameExperiment(e1: Combination, e2: Combination) {
    && e1.fleetSize == e2.fleetSize
    && e1.useAlonsoMora == e2.useAlonsoMora
    && e1.vulnerableProbability == e2.vulnerableProbability
    && (e1.vulnerableProbability > 0.0 ==> e1.vulnerableTime == e2.vulnerableTime)
    && e1.dispatchInterval == e2.dispatchInterval
    && e1.prebookVulnerableUsers == e2.prebookVulnerableUsers
    && e1.prebookingShare == e2.prebookingShare
    && e1.minimizePassengerDelay == e2.minimizePassengerDelay
    && e1.inclusivePenalty == e2.inclusivePenalty
    && (e1.inclusivePenalty ==> e1.weightFactor == e2.weightFactor)
  }

  lemma SegmentsHaveNoUnderscore(c: Combination, show: Show)
    requires PrintsNoUnderscore(show)
    ensures NoUnderscore(Segments(c, show))
  {
    var s := Segments(c, show);
    assert '_' !in show.ofInt(c.fleetSize) && '_' !in show.ofReal(c.vulnerableProbability);
    assert '_' !in show.ofInt(c.vulnerableTime) && '_' !in show.ofInt(c.dispatchInterval);
    assert '_' !in show.ofReal(c.prebookingShare) && '_' !in show.ofReal(c.weightFactor);
    assert '_' !in BoolStr(c.prebookVulnerableUsers);
  }

  /** The doubles a combination's directory name prints. */
  function RealsOf(c: Combination): set<real> {
    {c.vulnerableProbability, c.prebookingShare, c.weightFactor}
  }

  /** Every double the declared lists hold. */
  function DeclaredReals(): set<real> {
    set k, j | 0 <= k < 10 && 0 <= j < |DeclaredLists()[k]| && DeclaredLists()[k][j].RealV?
      :: DeclaredLists()[k][j].r
  }

  /** Every effective combination of the declared grid prints only declared doubles, so
      the injectivity the directory names need is asked of 30 values only. */
  lemma DeclaredGridReals(dims: seq<seq<Value>>, params: seq<Value>)
    requires IsIterationOrder(dims)
    requires params in CartesianProduct(dims)
    ensures WellTyped(params) && RealsOf(Overrides(Decode(params))) <= DeclaredReals()
  {
    DeclaredGridWellTyped(dims, params);
    assert OfKind(params[2], 2) && OfKind(params[6], 6) && OfKind(params[9], 9);
    DeclaredPosition(dims, params, 2);
    DeclaredPosition(dims, params, 6);
    DeclaredPosition(dims, params, 9);
    EffectiveRealsDeclared(params);
  }

  lemma EffectiveRealsDeclared(params: seq<Value>)
    requires WellTyped(params) && params[2].RealV? && params[6].RealV? && params[9].RealV?
    requires params[2].r in DeclaredReals() && params[6].r in DeclaredReals() && params[9].r in DeclaredReals()
    ensures RealsOf(Overrides(Decode(params))) <= DeclaredReals()
  {
    ZeroIsDeclared();
    EffectiveReals(params);
  }

  /** The doubles of an effective combination are its raw doubles, or the 0.0 the
      prebooking rule writes. */
  lemma EffectiveReals(params: seq<Value>)
    requires WellTyped(params)
    ensures params[2].RealV? && params[6].RealV? && params[9].RealV?
    ensures RealsOf(Overrides(Decode(params))) <= {params[2].r, params[6].r, params[9].r, 0.0}
  {
    assert OfKind(params[2], 2) && OfKind(params[6], 6) && OfKind(params[9], 9);
  }

  /** The double a grid combination takes from dimension `k` is a declared double. */
  lemma DeclaredPosition(dims: seq<seq<Value>>, params: seq<Value>, k: nat)
    requires IsIterationOrder(dims)
    requires params in CartesianProduct(dims)
    requires k < 10 && k < |params| && params[k].RealV?
    ensures params[k].r in DeclaredReals()
  {
    ProductMembers(dims, params);
    var d := DeclaredLists();
    assert params[k] in multiset(dims[k]);
    assert params[k] in multiset(d[k]);
    var j :| 0 <= j < |d[k]| && d[k][j] == params[k];
    DeclaredRealMember(k, j);
  }

  lemma ZeroIsDeclared()
    ensures 0.0 in DeclaredReals()
  {
    DeclaredRealMember(6, 0);
  }

  lemma DeclaredRealMember(k: nat, j: nat)
    requires k < 10 && j < |DeclaredLists()[k]| && DeclaredLists()[k][j].RealV?
    ensures DeclaredLists()[k][j].r in DeclaredReals()
  {
  }

  /** The collapse direction: two combinations naming the same experiment share an
      output directory, whatever the number formatting. */
  lemma SameExperimentSameDirectory(base: string, e1: Combination, e2: Combination, show: Show)
    requires SameExperiment(e1, e2)
    ensures OutputDirectory(base, e1, show) == OutputDirectory(base, e2, show)
  {
    assert Segments(e1, show) == Segments(e2, show);
  }

  /** Two effective combinations share an output directory exactly when they are the
      same experiment. The collapse direction is SameExperimentSameDirectory; the
      converse needs number formatting free of underscores, injective on integers and
      on the doubles the two names print. */
  lemma {:induction false} SameDirectoryIffSameExperiment(base: string, e1: Combination, e2: Combination,
                                                          show: Show, reals: set<real>)
    requires WellFormed(show, reals) && RealsOf(e1) + RealsOf(e2) <= reals
    requires Normalised(e1) && Normalised(e2)
    ensures OutputDirectory(base, e1, show) == OutputDirectory(base, e2, show) <==> SameExperiment(e1, e2)
  {
    var s1, s2 := Segments(e1, show), Segments(e2, show);
    if SameExperiment(e1, e2) {
      SameExperimentSameDirectory(base, e1, e2, show);
    }
    if OutputDirectory(base, e1, show) == OutputDirectory(base, e2, show) {
      SameSuffix(base + "/", Join(s1), Join(s2));
      SegmentsHaveNoUnderscore(e1, show);
      SegmentsHaveNoUnderscore(e2, show);
      JoinInjective(s1, s2);
      assert s1[0] == s2[0] && s1[1] == s2[1] && s1[2] == s2[2] && s1[3] == s2[3];
      assert s1[4] == s2[4] && s1[5] == s2[5] && s1[6] == s2[6] && s1[7] == s2[7];
      SameSuffix("fs", show.ofInt(e1.fleetSize), show.ofInt(e2.fleetSize));
      SameSuffix("vs", show.ofReal(e1.vulnerableProbability), show.ofReal(e2.vulnerableProbability));
      if e1.vulnerableProbability > 0.0 {
        SameSuffix("vt", show.ofInt(e1.vulnerableTime), show.ofInt(e2.vulnerableTime));
        assert e1.prebookVulnerableUsers == e2.prebookVulnerableUsers by {
          assert |s1[5]| == |s2[5]|;
        }
      }
      if !e1.useAlonsoMora {
        SameSuffix("di", show.ofInt(e1.dispatchInterval), show.ofInt(e2.dispatchInterval));
      }
      if !(e1.vulnerableProbability > 0.0 && e1.prebookVulnerableUsers) {
        SameSuffix("ps", show.ofReal(e1.prebookingShare), show.ofReal(e2.prebookingShare));
      }
      if e1.inclusivePenalty != e2.inclusivePenalty {
        if e1.inclusivePenalty {
          SameSuffix("pwf", show.ofReal(e1.weightFactor), "x");
        } else {
          SameSuffix("pwf", "x", show.ofReal(e2.weightFactor));
        }
      }
      if e1.inclusivePenalty {
        SameSuffix("pwf", show.ofReal(e1.weightFactor), show.ofReal(e2.weightFactor));
      }
    }
  }

  /** `String.valueOf` of each value, in the order of the argument array. */
  function SimArgs(configPath: string, e: Combination, outputDirectory: string, show: Show): (args: seq<string>)
    ensures |args| == 26
  {
    [ "--config-path", configPath,
      "--vulnerable-probability", show.ofReal(e.vulnerableProbability),
      "--vulnerable-time", show.ofInt(e.vulnerableTime),
      "--config:controler.outputDirectory", outputDirectory,
      "--config:controler.lastIteration", "0",
      "--fleet-size", show.ofInt(e.fleetSize),
      "--use-alonso-mora", BoolStr(e.useAlonsoMora),
      "--prebook-vulnerable", BoolStr(e.prebookVulnerableUsers),
      "--prebooking-probability", show.ofReal(e.prebookingShare),
      "--minimize-passenger-delays", BoolStr(e.minimizePassengerDelay),
      "--config:multiModeDrt.drt[mode=drt].dispatchInterval", show.ofInt(e.dispatchInterval),
      "--am-inclusive-penalty", BoolStr(e.inclusivePenalty),
      "--am-weight-alpha", show.ofReal(e.weightFactor) ]
  }

  /** Index of the `--vulnerable-time` value and of the `--am-weight-alpha` value. */
  const VULNERABLE_TIME_ARG: nat := 5
  const WEIGHT_ALPHA_ARG: nat := 25

  /** Colliding experiments launch the same arguments except, possibly, the vulnerable
      time and alpha, the two values the directory name leaves out. */
  lemma CollidingArgumentsDifferOnlyInDroppedValues(configPath: string, e1: Combination, e2: Combination,
                                                     dir: string, show: Show)
    requires SameExperiment(e1, e2)
    ensures var a1, a2 := SimArgs(configPath, e1, dir, show), SimArgs(configPath, e2, dir, show);
      forall k | 0 <= k < 26 && k != VULNERABLE_TIME_ARG && k != WEIGHT_ALPHA_ARG :: a1[k] == a2[k]
  {
  }

  /** Two raw combinations that differ only in alpha, with the inclusive penalty off,
      collapse onto one directory yet launch different `--am-weight-alpha` values. */
  lemma CollisionWithDifferentAlpha(base: string, configPath: string, show: Show)
    requires InjectiveOn(show, {100.0, 200.0})
    ensures var c1 := Combination(100, true, 0.1, 120, 1, false, 0.0, false, false, 100.0);
      var c2 := c1.(weightFactor := 200.0);
      var e1, e2 := Overrides(c1), Overrides(c2);
      && OutputDirectory(base, e1, show) == OutputDirectory(base, e2, show)
      && SimArgs(configPath, e1, OutputDirectory(base, e1, show), show)
         != SimArgs(configPath, e2, OutputDirectory(base, e2, show), show)
  {
    var c1 := Combination(100, true, 0.1, 120, 1, false, 0.0, false, false, 100.0);
    var c2 := c1.(weightFactor := 200.0);
    var e1, e2 := Overrides(c1), Overrides(c2);
    var dir := OutputDirectory(base, e1, show);
    assert Segments(e1, show) == Segments(e2, show);
    assert SimArgs(configPath, e1, dir, show)[WEIGHT_ALPHA_ARG] != SimArgs(configPath, e2, dir, show)[WEIGHT_ALPHA_ARG];
  }
}
