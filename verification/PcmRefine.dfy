/** Hardware-parameter refinement of the ALSA playback device
    (interval_limit, mask_limit and pcm_refine in src/driver/audio/alsa.c).

    A request gives a set of permitted values for every parameter; refinement
    intersects them with the device's limits and then propagates the frame, byte,
    time and period-count equations through the intervals for eight passes.

    A configuration is a period of P frames and a count of N periods: the period
    has 4P bytes and lasts 1000P/48 microseconds, the buffer has P*N frames. */
module PcmRefine {
  import opened Wrappers

  const UINT_MAX := 0xffff_ffff
  const EINVAL := 22
  const PCM_BYTES := 256 * 1024
  const COUNT := 12     // interval parameters 8..19
  const RULES := 11     // propagation rules in one pass
  const PASSES := 8

  /** Result of a 32-bit unsigned operation. */
  function U32(x: int): (r: nat)
    ensures 0 <= x <= UINT_MAX ==> r == x
  {
    x % 0x1_0000_0000
  }

  function Max(a: int, b: int): int { if a > b then a else b }
  function Min(a: int, b: int): int { if a < b then a else b }

  datatype Interval = Interval(min: nat, max: nat, openmin: bool, openmax: bool, integer: bool, empty: bool) {
    /** The exact value num/den lies in this interval. */
    predicate Has(num: int, den: int) {
      && !empty
      && (if openmin then min * den < num else min * den <= num)
      && (if openmax then num < max * den else num <= max * den)
    }

    /** As Has, with open ends moved inward to the next integer. */
    predicate HasInward(num: int, den: int) {
      && !empty
      && (min + if openmin then 1 else 0) * den <= num <= (max - if openmax then 1 else 0) * den
    }

    predicate Closed() { !openmin && !openmax && !empty && min <= max }
  }

  predicate Word(i: Interval) { i.min <= UINT_MAX && i.max <= UINT_MAX }

  /** For integer values, moving open ends inward loses nothing. */
  lemma InwardIsExactOnIntegers(i: Interval, x: int)
    ensures i.HasInward(x, 1) <==> i.Has(x, 1)
  {
  }

  // ----- interval_limit

  /** The integers of `i` that lie in [lo, hi]. */
  function Limit(i: Interval, lo: int, hi: int): (r: Option<Interval>)
    ensures r.None? ==> forall x: int :: !(i.HasInward(x, 1) && lo <= x <= hi)
    ensures r.Some? ==> r.value.Closed()
    ensures r.Some? && 0 <= hi <= UINT_MAX ==> Word(r.value)
  {
    var a := Max(i.min + (if i.openmin then 1 else 0), lo);
    var b := Min(i.max - (if i.openmax then 1 else 0), hi);
    if i.empty || a > b || b < 0 then None
    else Some(Interval(if a < 0 then 0 else a, b, false, false, true, false))
  }

  /** Success means exactly the intersection, for integers and for exact fractions. */
  lemma LimitIsIntersection(i: Interval, lo: int, hi: int, num: int, den: int)
    requires den > 0 && 0 <= num
    ensures Limit(i, lo, hi).Some? ==>
              (Limit(i, lo, hi).value.Has(num, den) <==> i.HasInward(num, den) && lo * den <= num <= hi * den)
  {
    var r := Limit(i, lo, hi);
    if r.Some? {
      var a, b := i.min + (if i.openmin then 1 else 0), i.max - (if i.openmax then 1 else 0);
      ScaledMax(a, lo, num, den);
      ScaledMin(b, hi, num, den);
    }
  }

  lemma ScaledMax(a: int, b: int, num: int, den: int)
    requires den > 0
    ensures Max(a, b) * den <= num <==> a * den <= num && b * den <= num
  {
    if a > b { MulOrder(b, a, den); } else { MulOrder(a, b, den); }
  }

  lemma ScaledMin(a: int, b: int, num: int, den: int)
    requires den > 0
    ensures num <= Min(a, b) * den <==> num <= a * den && num <= b * den
  {
    if a < b { MulOrder(a, b, den); } else { MulOrder(b, a, den); }
  }

  lemma MulOrder(a: int, b: int, d: int)
    requires a <= b && d >= 0
    ensures a * d <= b * d
  {
  }

  // ----- configurations

  /** Lower and upper limit of each interval parameter, in parameter order:
      sample bits, frame bits, channels, rate, period time, period frames, period bytes,
      periods, buffer time, buffer frames, buffer bytes, tick time. */
  function Low(i: nat): nat
    requires i < COUNT
  {
    [16, 32, 2, 48000, 1000, 48, 192, 2, 2000, 96, 384, 0][i]
  }

  function High(i: nat): nat
    requires i < COUNT
  {
    [16, 32, 2, 48000, 1_000_000, 48000, 192_000, 1024, 1_365_334, PCM_BYTES / 4, PCM_BYTES, 0][i]
  }

  type Params = seq<Interval>

  /** The value of each parameter in configuration (p, n), as a numerator over Den. */
  function Num(i: nat, p: nat, n: nat): nat
    requires i < COUNT
  {
    [16, 32, 2, 48000, 1000 * p, p, 4 * p, n, 1000 * (p * n), p * n, 4 * (p * n), 0][i]
  }

  function Den(i: nat): nat
    requires i < COUNT
  {
    if i == 4 || i == 8 then 48 else 1
  }

  predicate Within(v: Params, i: nat, p: nat, n: nat)
    requires |v| == COUNT && i < COUNT
  {
    v[i].Has(Num(i, p, n), Den(i))
  }

  /** Configuration (p, n) is permitted by every interval. */
  ghost predicate Solves(v: Params, p: nat, n: nat) {
    |v| == COUNT && forall i: nat :: i < COUNT ==> Within(v, i, p, n)
  }

  /** Configuration (p, n) is permitted by the request and by the device. */
  ghost predicate Permitted(v: Params, p: nat, n: nat) {
    && |v| == COUNT
    && forall i: nat :: i < COUNT ==>
         v[i].HasInward(Num(i, p, n), Den(i)) && Low(i) * Den(i) <= Num(i, p, n) <= High(i) * Den(i)
  }

  /** Closed, and inside the device's limits. */
  ghost predicate InLimits(v: Params) {
    |v| == COUNT && forall i: nat :: i < COUNT ==> v[i].Closed() && Low(i) <= v[i].min && v[i].max <= High(i)
  }

  ghost predicate Shrinks(v: Params, w: Params) {
    && |v| == |w| == COUNT
    && forall i: nat :: i < COUNT ==> v[i].min <= w[i].min && w[i].max <= v[i].max
  }

  function LimitAt(v: Params, i: nat, lo: int, hi: int): (r: Option<Params>)
    requires |v| == COUNT && i < COUNT
    ensures r.Some? ==> |r.value| == COUNT
  {
    match Limit(v[i], lo, hi)
    case None => None
    case Some(x) => Some(v[i := x])
  }

  // ----- the limits table

  function Tabled(v: Params, k: nat): (r: Option<Params>)
    requires |v| == COUNT && k <= COUNT
    ensures r.Some? ==> |r.value| == COUNT
  {
    if k == 0 then Some(v)
    else match Tabled(v, k - 1)
      case None => None
      case Some(w) => LimitAt(w, k - 1, Low(k - 1), High(k - 1))
  }

  lemma {:induction false} TabledAt(v: Params, k: nat)
    requires |v| == COUNT && k <= COUNT && Tabled(v, k).Some?
    ensures forall j: nat :: j < k ==> Limit(v[j], Low(j), High(j)) == Some(Tabled(v, k).value[j])
    ensures forall j: nat :: k <= j < COUNT ==> Tabled(v, k).value[j] == v[j]
  {
    if k > 0 { TabledAt(v, k - 1); }
  }

  lemma {:induction false} TabledFails(v: Params, k: nat) returns (j: nat)
    requires |v| == COUNT && k <= COUNT && Tabled(v, k).None?
    ensures j < k && Limit(v[j], Low(j), High(j)).None?
  {
    if Tabled(v, k - 1).None? {
      j := TabledFails(v, k - 1);
    } else {
      TabledAt(v, k - 1);
      j := k - 1;
    }
  }

  /** Applying the table keeps exactly the permitted configurations. */
  lemma TableKeepsSolutions(v: Params, p: nat, n: nat)
    requires |v| == COUNT
    ensures Tabled(v, COUNT).Some? ==> InLimits(Tabled(v, COUNT).value)
    ensures Tabled(v, COUNT).Some? ==> (Solves(Tabled(v, COUNT).value, p, n) <==> Permitted(v, p, n))
  {
    if Tabled(v, COUNT).Some? {
      TabledAt(v, COUNT);
      var w := Tabled(v, COUNT).value;
      forall i: nat | i < COUNT
        ensures Within(w, i, p, n) <==>
                v[i].HasInward(Num(i, p, n), Den(i)) && Low(i) * Den(i) <= Num(i, p, n) <= High(i) * Den(i)
      {
        LimitIsIntersection(v[i], Low(i), High(i), Num(i, p, n), Den(i));
      }
    }
  }

  /** A table failure rules every configuration out. */
  lemma TableFailureIsReal(v: Params, p: nat, n: nat)
    requires |v| == COUNT && Tabled(v, COUNT).None?
    ensures !Permitted(v, p, n)
  {
    var j := TabledFails(v, COUNT);
    if Permitted(v, p, n) {
      EmptyLimit(v[j], Low(j), High(j), Num(j, p, n), Den(j));
      assert false;
    }
  }

  lemma EmptyLimit(i: Interval, lo: nat, hi: nat, num: int, den: int)
    requires den > 0 && Limit(i, lo, hi).None?
    ensures !(i.HasInward(num, den) && lo * den <= num <= hi * den)
  {
    var a, b := i.min + (if i.openmin then 1 else 0), i.max - (if i.openmax then 1 else 0);
    if i.HasInward(num, den) && lo * den <= num <= hi * den {
      EmptyMeet(a, lo, b, hi, num, den);
      assert false;
    }
  }

  /** Two ranges with a common element meet. */
  lemma EmptyMeet(a: int, lo: int, b: int, hi: int, num: int, den: int)
    requires den > 0 && a * den <= num <= b * den && lo * den <= num <= hi * den
    ensures Max(a, lo) <= Min(b, hi)
  {
    ScaledOrder(a, b, num, den);
    ScaledOrder(a, hi, num, den);
    ScaledOrder(lo, b, num, den);
    ScaledOrder(lo, hi, num, den);
  }

  lemma ScaledOrder(a: int, b: int, num: int, den: int)
    requires den > 0 && a * den <= num <= b * den
    ensures a <= b
  {
    if b < a {
      MulOrder(b + 1, a, den);
      assert false;
    }
  }

  // ----- the propagation rules

  function Target(rule: nat): nat
    requires rule < RULES
  {
    [5, 5, 6, 4, 9, 9, 10, 8, 9, 7, 5][rule]
  }

  function RuleLo(v: Params, rule: nat): int
    requires |v| == COUNT && rule < RULES
  {
    match rule
    case 0 => (v[6].min + 3) / 4
    case 1 => (v[4].min * 48 + 999) / 1000
    case 2 => v[5].min * 4
    case 3 => v[5].min * 1000 / 48
    case 4 => (v[10].min + 3) / 4
    case 5 => (v[8].min * 48 + 999) / 1000
    case 6 => v[9].min * 4
    case 7 => v[9].min * 1000 / 48
    case 8 => v[5].min * v[7].min
    case 9 => if v[5].max == 0 then 0 else (v[9].min + v[5].max - 1) / v[5].max
    case _ => if v[7].max == 0 then 0 else (v[9].min + v[7].max - 1) / v[7].max
  }

  function RuleHi(v: Params, rule: nat): int
    requires |v| == COUNT && rule < RULES
  {
    match rule
    case 0 => v[6].max / 4
    case 1 => v[4].max * 48 / 1000
    case 2 => v[5].max * 4
    case 3 => (v[5].max * 1000 + 47) / 48
    case 4 => v[10].max / 4
    case 5 => v[8].max * 48 / 1000
    case 6 => v[9].max * 4
    case 7 => (v[9].max * 1000 + 47) / 48
    case 8 => Min(PCM_BYTES / 4, v[5].max * v[7].max)
    case 9 => if v[5].min == 0 then 0 else v[9].max / v[5].min
    case _ => if v[7].min == 0 then 0 else v[9].max / v[7].min
  }

  function Rule(v: Params, rule: nat): (r: Option<Params>)
    requires |v| == COUNT && rule < RULES
    ensures r.Some? ==> |r.value| == COUNT
  {
    LimitAt(v, Target(rule), RuleLo(v, rule), RuleHi(v, rule))
  }

  /** The first k rule applications of the propagation loop. */
  function Propagated(v: Params, k: nat): (r: Option<Params>)
    requires |v| == COUNT
    ensures r.Some? ==> |r.value| == COUNT
  {
    if k == 0 then Some(v)
    else match Propagated(v, k - 1)
      case None => None
      case Some(w) => Rule(w, (k - 1) % RULES)
  }

  // ----- each rule keeps every solution

  lemma FloorDiv(a: int, d: int, x: int)
    requires d > 0 && x * d <= a
    ensures x <= a / d
  {
    var q := a / d;
    assert (q + 1) * d == q * d + d;
    if q < x {
      MulOrder(q + 1, x, d);
      assert false;
    }
  }

  lemma CeilDiv(a: int, d: int, x: int)
    requires d > 0 && a <= x * d
    ensures (a + d - 1) / d <= x
  {
    var q := (a + d - 1) / d;
    assert (x + 1) * d == x * d + d;
    if x < q {
      MulOrder(x + 1, q, d);
      assert false;
    }
  }

  lemma Product(a: nat, x: nat, b: nat, y: nat)
    requires a <= x && b <= y
    ensures a * b <= x * y
  {
    MulOrder(a, x, b);
    assert x * b <= x * y by { MulOrder(b, y, x); }
  }

  /** Frames x, their bytes and their exact duration lie in three closed intervals. */
  ghost predicate Triple(time: Interval, frames: Interval, bytes: Interval, x: nat) {
    && time.min * 48 <= 1000 * x <= time.max * 48
    && frames.min <= x <= frames.max
    && bytes.min <= 4 * x <= bytes.max
  }

  lemma SolvesTriples(v: Params, p: nat, n: nat)
    requires InLimits(v) && Solves(v, p, n)
    ensures Triple(v[4], v[5], v[6], p) && Triple(v[8], v[9], v[10], p * n)
    ensures v[7].min <= n <= v[7].max
  {
    assert Within(v, 4, p, n) && Within(v, 5, p, n) && Within(v, 6, p, n) && Within(v, 7, p, n);
    assert Within(v, 8, p, n) && Within(v, 9, p, n) && Within(v, 10, p, n);
  }

  lemma TripleRules(time: Interval, frames: Interval, bytes: Interval, x: nat)
    requires Triple(time, frames, bytes, x)
    ensures (bytes.min + 3) / 4 <= x <= bytes.max / 4
    ensures (time.min * 48 + 999) / 1000 <= x <= time.max * 48 / 1000
    ensures frames.min * 4 <= 4 * x <= frames.max * 4
    ensures frames.min * 1000 / 48 * 48 <= 1000 * x <= (frames.max * 1000 + 47) / 48 * 48
  {
  }

  lemma PeriodRuleAdmits(v: Params, rule: nat, p: nat, n: nat)
    requires |v| == COUNT && Triple(v[4], v[5], v[6], p) && rule < 4
    ensures var i := Target(rule);
            RuleLo(v, rule) * Den(i) <= Num(i, p, n) <= RuleHi(v, rule) * Den(i)
  {
    hide Triple;
    TripleRules(v[4], v[5], v[6], p);
    if rule == 3 {
      assert Den(Target(rule)) == 48;
    } else {
      assert Den(Target(rule)) == 1;
    }
  }

  lemma BufferRuleAdmits(v: Params, rule: nat, p: nat, n: nat)
    requires |v| == COUNT && Triple(v[8], v[9], v[10], p * n) && 4 <= rule < 8
    ensures var i := Target(rule);
            RuleLo(v, rule) * Den(i) <= Num(i, p, n) <= RuleHi(v, rule) * Den(i)
  {
    hide Triple;
    TripleRules(v[8], v[9], v[10], p * n);
    if rule == 7 {
      assert Den(Target(rule)) == 48;
    } else {
      assert Den(Target(rule)) == 1;
    }
  }

  lemma ProductRuleAdmits(v: Params, p: nat, n: nat)
    requires |v| == COUNT && v[5].min <= p <= v[5].max && v[7].min <= n <= v[7].max && p * n <= PCM_BYTES / 4
    ensures RuleLo(v, 8) <= p * n <= RuleHi(v, 8)
  {
    Product(v[5].min, p, v[7].min, n);
    Product(p, v[5].max, n, v[7].max);
  }

  lemma QuotientRulesAdmit(v: Params, p: nat, n: nat)
    requires |v| == COUNT && 0 < v[5].min <= p <= v[5].max && 0 < v[7].min <= n <= v[7].max
    requires v[9].min <= p * n <= v[9].max
    ensures RuleLo(v, 9) <= n <= RuleHi(v, 9)
    ensures RuleLo(v, 10) <= p <= RuleHi(v, 10)
  {
    Quotient(v[5].min, p, v[5].max, n, v[9].min, v[9].max);
    Quotient(v[7].min, n, v[7].max, p, v[9].min, v[9].max);
  }

  lemma LimitsAt(v: Params)
    requires InLimits(v)
    ensures |v| == COUNT && v[5].min >= 48 && v[7].min >= 2 && v[9].max <= PCM_BYTES / 4
  {
    assert v[5].Closed() && Low(5) <= v[5].min;
    assert v[7].Closed() && Low(7) <= v[7].min;
    assert v[9].Closed() && v[9].max <= High(9);
  }

  /** The value a rule constrains lies between the rule's bounds in every solution. */
  lemma RuleAdmits(v: Params, rule: nat, p: nat, n: nat)
    requires InLimits(v) && Solves(v, p, n) && rule < RULES
    ensures var i := Target(rule);
            RuleLo(v, rule) * Den(i) <= Num(i, p, n) <= RuleHi(v, rule) * Den(i)
  {
    hide InLimits, Solves, RuleLo, RuleHi;
    SolvesTriples(v, p, n);
    LimitsAt(v);
    if rule < 4 {
      PeriodRuleAdmits(v, rule, p, n);
    } else if rule < 8 {
      BufferRuleAdmits(v, rule, p, n);
    } else if rule == 8 {
      ProductRuleAdmits(v, p, n);
    } else {
      QuotientRulesAdmit(v, p, n);
    }
  }

  lemma Quotient(lo: nat, y: nat, hi: nat, x: nat, a: nat, b: nat)
    requires 0 < lo <= y <= hi && a <= x * y <= b
    ensures (a + hi - 1) / hi <= x <= b / lo
  {
    assert a <= x * hi by { MulOrder(y, hi, x); }
    CeilDiv(a, hi, x);
    assert x * lo <= b by { MulOrder(lo, y, x); }
    FloorDiv(b, lo, x);
  }

  lemma RuleKeepsSolution(v: Params, rule: nat, p: nat, n: nat)
    requires InLimits(v) && Solves(v, p, n) && rule < RULES
    ensures Rule(v, rule).Some? && Solves(Rule(v, rule).value, p, n)
  {
    var i := Target(rule);
    var lo, hi := RuleLo(v, rule), RuleHi(v, rule);
    RuleAdmits(v, rule, p, n);
    assert Within(v, i, p, n);
    if Limit(v[i], lo, hi).None? {
      RuleNonNegative(v, rule);
      EmptyLimit(v[i], lo, hi, Num(i, p, n), Den(i));
      assert false;
    }
    LimitIsIntersection(v[i], lo, hi, Num(i, p, n), Den(i));
    var w := Rule(v, rule).value;
    forall j: nat | j < COUNT
      ensures Within(w, j, p, n)
    {
      assert Within(v, j, p, n);
    }
  }

  lemma RuleNonNegative(v: Params, rule: nat)
    requires |v| == COUNT && rule < RULES
    ensures RuleLo(v, rule) >= 0 && RuleHi(v, rule) >= 0
  {
  }

  lemma RuleShrinks(v: Params, rule: nat)
    requires InLimits(v) && rule < RULES && Rule(v, rule).Some?
    ensures InLimits(Rule(v, rule).value) && Shrinks(v, Rule(v, rule).value)
  {
    assert v[Target(rule)].Closed();
  }

  lemma {:induction false} PropagatedInLimits(v: Params, k: nat)
    requires InLimits(v) && Propagated(v, k).Some?
    ensures InLimits(Propagated(v, k).value)
    ensures k > 0 ==> Propagated(v, k - 1).Some? && Shrinks(Propagated(v, k - 1).value, Propagated(v, k).value)
  {
    hide Rule;
    if k > 0 {
      PropagatedInLimits(v, k - 1);
      RuleShrinks(Propagated(v, k - 1).value, (k - 1) % RULES);
    }
  }

  lemma {:induction false} PropagationShrinks(v: Params, j: nat, k: nat)
    requires InLimits(v) && j <= k && Propagated(v, k).Some?
    ensures Propagated(v, j).Some?
    ensures InLimits(Propagated(v, k).value)
    ensures Shrinks(Propagated(v, j).value, Propagated(v, k).value)
    decreases k
  {
    hide Rule;
    PropagatedInLimits(v, k);
    if j < k {
      PropagationShrinks(v, j, k - 1);
      ShrinksTransitive(Propagated(v, j).value, Propagated(v, k - 1).value, Propagated(v, k).value);
    }
  }

  lemma ShrinksTransitive(u: Params, v: Params, w: Params)
    requires Shrinks(u, v) && Shrinks(v, w)
    ensures Shrinks(u, w)
  {
  }

  lemma ShrinkingKeepsOut(v: Params, w: Params, p: nat, n: nat)
    requires InLimits(v) && InLimits(w) && Shrinks(v, w) && Solves(w, p, n)
    ensures Solves(v, p, n)
  {
    forall i: nat | i < COUNT
      ensures Within(v, i, p, n)
    {
      assert Within(w, i, p, n);
      MulOrder(v[i].min, w[i].min, Den(i));
      MulOrder(w[i].max, v[i].max, Den(i));
    }
  }

  lemma {:induction false} PropagationKeepsSolution(v: Params, k: nat, p: nat, n: nat)
    requires InLimits(v) && Solves(v, p, n)
    ensures Propagated(v, k).Some? && InLimits(Propagated(v, k).value) && Solves(Propagated(v, k).value, p, n)
  {
    hide Rule, Solves;
    if k > 0 {
      PropagationKeepsSolution(v, k - 1, p, n);
      RuleKeepsSolution(Propagated(v, k - 1).value, (k - 1) % RULES, p, n);
      RuleShrinks(Propagated(v, k - 1).value, (k - 1) % RULES);
    }
  }

  // ----- pcm_refine

  /** Masks of the access, format and subformat parameters, as sets of permitted codes. */
  function MaskAllowed(i: nat): set<nat>
    requires i < 3
  {
    if i == 0 then {0, 3} else if i == 1 then {2} else {0}
  }

  function RefineIntervals(v: Params): (r: Option<Params>)
    requires |v| == COUNT
    ensures r.Some? ==> |r.value| == COUNT
  {
    match Tabled(v, COUNT)
    case None => None
    case Some(w) => Propagated(w, PASSES * RULES)
  }

  /** Refinement keeps the set of configurations exactly: a configuration is in the
      returned intervals if and only if the request and the device permit it, and
      refinement is refused only when there is none. */
  lemma RefinePreservesConfigurations(v: Params, p: nat, n: nat)
    requires |v| == COUNT
    ensures (RefineIntervals(v).Some? && Solves(RefineIntervals(v).value, p, n)) <==> Permitted(v, p, n)
  {
    if Tabled(v, COUNT).None? {
      TableFailureIsReal(v, p, n);
    } else {
      var w := Tabled(v, COUNT).value;
      TableKeepsSolutions(v, p, n);
      if Permitted(v, p, n) {
        PropagationKeepsSolution(w, PASSES * RULES, p, n);
      }
      if RefineIntervals(v).Some? && Solves(RefineIntervals(v).value, p, n) {
        PropagationShrinks(w, 0, PASSES * RULES);
        ShrinkingKeepsOut(w, RefineIntervals(v).value, p, n);
      }
    }
  }

  /** Configuration (p, n) is in every requested interval and inside the device's limits. */
  ghost predicate Requested(v: Params, p: nat, n: nat) {
    && |v| == COUNT
    && forall i: nat :: i < COUNT ==>
         Within(v, i, p, n) && Low(i) * Den(i) <= Num(i, p, n) <= High(i) * Den(i)
  }

  /** A duration of num / 48 microseconds lies within one microsecond of an open end. */
  predicate InGap(i: Interval, num: int) {
    (i.openmin && num < (i.min + 1) * 48) || (i.openmax && num > (i.max - 1) * 48)
  }

  lemma InwardUnlessGap(i: Interval, num: int)
    requires i.Has(num, 48)
    ensures i.HasInward(num, 48) <==> !InGap(i, num)
  {
  }

  /** A requested configuration is kept exactly when neither its period nor its buffer
      duration is within a microsecond of an open end of the requested interval; with closed
      ends no requested configuration is ever lost. */
  lemma RefineKeepsRequestedIff(v: Params, p: nat, n: nat)
    requires Requested(v, p, n)
    ensures (RefineIntervals(v).Some? && Solves(RefineIntervals(v).value, p, n)) <==>
            !InGap(v[4], 1000 * p) && !InGap(v[8], 1000 * (p * n))
  {
    hide RefineIntervals, Solves, Low, High;
    RefinePreservesConfigurations(v, p, n);
    forall i: nat | i < COUNT
      ensures v[i].HasInward(Num(i, p, n), Den(i)) <==>
              (i == 4 ==> !InGap(v[4], 1000 * p)) && (i == 8 ==> !InGap(v[8], 1000 * (p * n)))
    {
      assert Within(v, i, p, n);
      if i == 4 || i == 8 {
        InwardUnlessGap(v[i], Num(i, p, n));
      } else {
        InwardIsExactOnIntegers(v[i], Num(i, p, n));
      }
    }
    assert v[4].HasInward(Num(4, p, n), Den(4)) <==> !InGap(v[4], 1000 * p);
    assert v[8].HasInward(Num(8, p, n), Den(8)) <==> !InGap(v[8], 1000 * (p * n));
  }

  /** The device's limits, and a period longer than 1020 microseconds. */
  function LongerThan1020(): Params {
    seq(COUNT, i requires 0 <= i < COUNT =>
      if i == 4 then Interval(1020, High(4), true, false, false, false)
      else Interval(Low(i), High(i), false, false, true, false))
  }

  /** Counterexample: a period of 49 frames lasts 1020.83 microseconds, so with any count it is
      what this request asks for, and refinement drops it. */
  lemma InwardLosesDurations(n: nat)
    requires 2 <= n <= 1024
    ensures var v := LongerThan1020();
            Requested(v, 49, n) && !(RefineIntervals(v).Some? && Solves(RefineIntervals(v).value, 49, n))
  {
    hide RefineIntervals, Solves;
    var v := LongerThan1020();
    forall i: nat | i < COUNT
      ensures Within(v, i, 49, n) && Low(i) * Den(i) <= Num(i, 49, n) <= High(i) * Den(i)
    {
    }
    RefineKeepsRequestedIff(v, 49, n);
  }

  /** Every returned interval lies inside the request and inside the device's limits. */
  lemma RefineShrinks(v: Params)
    requires |v| == COUNT && RefineIntervals(v).Some?
    ensures InLimits(RefineIntervals(v).value)
    ensures forall i: nat, x: int :: i < COUNT && RefineIntervals(v).value[i].Has(x, 1) ==> v[i].Has(x, 1)
  {
    var w, r := Tabled(v, COUNT).value, RefineIntervals(v).value;
    TabledAt(v, COUNT);
    TableKeepsSolutions(v, 0, 0);
    PropagationShrinks(w, 0, PASSES * RULES);
    forall i: nat, x: int | i < COUNT && r[i].Has(x, 1)
      ensures v[i].Has(x, 1)
    {
      assert Shrinks(w, r) && w[i].Has(x, 1);
      LimitIsIntersection(v[i], Low(i), High(i), x, 1);
      InwardIsExactOnIntegers(v[i], x);
    }
  }

  // ----- when acceptance promises a configuration

  /** Two consecutive states of the propagation are one rule apart. */
  lemma RuleAt(w: Params, j: nat, rule: nat, total: nat)
    requires InLimits(w) && j < total && Propagated(w, total).Some? && rule == j % RULES
    ensures Propagated(w, j).Some? && Propagated(w, j + 1).Some?
    ensures var a, b := Propagated(w, j).value, Propagated(w, j + 1).value;
            && Rule(a, rule) == Some(b)
            && InLimits(a) && InLimits(b) && Shrinks(w, a) && Shrinks(w, b)
            && RuleLo(a, rule) <= b[Target(rule)].min <= b[Target(rule)].max <= RuleHi(a, rule)
  {
    PropagationShrinks(w, j + 1, total);
    PropagatedInLimits(w, j + 1);
    PropagationShrinks(w, 0, j);
    PropagationShrinks(w, 0, j + 1);
    PropagatedInLimits(w, j);
    BoundsOfRule(Propagated(w, j).value, Propagated(w, j + 1).value, rule);
  }

  lemma BoundsOfRule(a: Params, b: Params, rule: nat)
    requires InLimits(a) && InLimits(b) && rule < RULES && Rule(a, rule) == Some(b)
    ensures RuleLo(a, rule) <= b[Target(rule)].min <= b[Target(rule)].max <= RuleHi(a, rule)
  {
    assert b[Target(rule)].Closed();
  }

  /** After the first two rules every period left has the bytes and the duration the
      request asks for. */
  lemma PeriodInside(w: Params, j: nat, x: nat)
    requires InLimits(w) && 2 <= j && Propagated(w, j).Some?
    requires Propagated(w, j).value[5].min <= x <= Propagated(w, j).value[5].max
    ensures w[5].Has(x, 1) && w[6].Has(4 * x, 1) && w[4].Has(1000 * x, 48)
  {
    hide Rule, Propagated;
    RuleAt(w, 0, 0, j);
    RuleAt(w, 1, 1, j);
    PropagationShrinks(w, 1, 2);
    PropagationShrinks(w, 2, j);
    assert w[4].Closed() && w[5].Closed() && w[6].Closed();
    var a, b := Propagated(w, 0).value, Propagated(w, 1).value;
    assert RuleLo(a, 0) <= x <= RuleHi(a, 0);
    assert RuleLo(b, 1) <= x <= RuleHi(b, 1);
    TripleConverse(b[4], a[6], x);
  }

  /** The same for the buffer, after rules 4 and 5. */
  lemma BufferInside(w: Params, j: nat, x: nat)
    requires InLimits(w) && 6 <= j && Propagated(w, j).Some?
    requires Propagated(w, j).value[9].min <= x <= Propagated(w, j).value[9].max
    ensures w[9].Has(x, 1) && w[10].Has(4 * x, 1) && w[8].Has(1000 * x, 48)
  {
    hide Rule, Propagated;
    RuleAt(w, 4, 4, j);
    RuleAt(w, 5, 5, j);
    PropagationShrinks(w, 5, 6);
    PropagationShrinks(w, 6, j);
    assert w[8].Closed() && w[9].Closed() && w[10].Closed();
    var a, b := Propagated(w, 4).value, Propagated(w, 5).value;
    assert RuleLo(a, 4) <= x <= RuleHi(a, 4);
    assert RuleLo(b, 5) <= x <= RuleHi(b, 5);
    TripleConverse(b[8], a[10], x);
  }

  lemma TripleConverse(time: Interval, bytes: Interval, x: nat)
    requires (bytes.min + 3) / 4 <= x <= bytes.max / 4
    requires (time.min * 48 + 999) / 1000 <= x <= time.max * 48 / 1000
    ensures bytes.min <= 4 * x <= bytes.max && time.min * 48 <= 1000 * x <= time.max * 48
  {
  }

  lemma QuotientConverse(lo: nat, d: nat, x: nat, hi: nat)
    requires d > 0 && (lo + d - 1) / d <= x <= hi / d
    ensures lo <= d * x <= hi
  {
    MulOrder(x, hi / d, d);
    var q := (lo + d - 1) / d;
    assert lo + d - 1 < (q + 1) * d by { assert (q + 1) * d == q * d + d; }
    assert q * d >= lo by { assert (q + 1) * d == q * d + d; }
    MulOrder(q, x, d);
  }

  /** Everything but the two unknowns is settled by the limits. */
  lemma SolvesFrom(w: Params, p: nat, n: nat)
    requires InLimits(w) && w[7].min <= n <= w[7].max
    requires w[5].Has(p, 1) && w[6].Has(4 * p, 1) && w[4].Has(1000 * p, 48)
    requires w[9].Has(p * n, 1) && w[10].Has(4 * (p * n), 1) && w[8].Has(1000 * (p * n), 48)
    ensures Solves(w, p, n)
  {
    forall i: nat | i < COUNT
      ensures Within(w, i, p, n)
    {
      assert w[i].Closed() && Low(i) <= w[i].min && w[i].max <= High(i);
    }
  }

  /** With one period left, rule 9 of the first pass finds a count that solves the request. */
  lemma PinnedPeriodSolves(w: Params, p: nat) returns (n: nat)
    requires InLimits(w) && Propagated(w, 10).Some? && w[5].min == w[5].max == p
    ensures Solves(w, p, n)
  {
    hide Rule, Propagated, InLimits, Solves;
    RuleAt(w, 9, 9, 10);
    var a, b := Propagated(w, 9).value, Propagated(w, 10).value;
    n := b[7].min;
    StillPinned(w, a, 5, p);
    LimitsAt(a);
    QuotientConverse(a[9].min, p, n, a[9].max);
    PeriodInside(w, 9, p);
    BufferInside(w, 9, p * n);
    StillInside(w, b, 7, n);
    SolvesFrom(w, p, n);
  }

  /** With one count left, rule 10 of the first pass finds a period. */
  lemma PinnedCountSolves(w: Params, n: nat) returns (p: nat)
    requires InLimits(w) && Propagated(w, 11).Some? && w[7].min == w[7].max == n
    ensures Solves(w, p, n)
  {
    hide Rule, Propagated, InLimits, Solves;
    RuleAt(w, 10, 10, 11);
    var a, b := Propagated(w, 10).value, Propagated(w, 11).value;
    p := b[5].min;
    StillPinned(w, a, 7, n);
    LimitsAt(a);
    QuotientConverse(a[9].min, n, p, a[9].max);
    ClosedAt(b, 5);
    PeriodInside(w, 11, p);
    BufferInside(w, 10, p * n);
    SolvesFrom(w, p, n);
  }

  lemma StillPinned(w: Params, a: Params, i: nat, x: nat)
    requires InLimits(a) && Shrinks(w, a) && i < COUNT && w[i].min == w[i].max == x
    ensures a[i].min == a[i].max == x
  {
    assert a[i].Closed();
  }

  lemma StillInside(w: Params, a: Params, i: nat, x: nat)
    requires InLimits(a) && Shrinks(w, a) && i < COUNT && x == a[i].min
    ensures w[i].min <= x <= w[i].max
  {
    assert a[i].Closed();
  }

  lemma ClosedAt(a: Params, i: nat)
    requires InLimits(a) && i < COUNT
    ensures a[i].min <= a[i].max
  {
    assert a[i].Closed();
  }

  /** The interval holds a single integer. */
  predicate Pins(i: Interval) {
    !i.empty && i.min + (if i.openmin then 1 else 0) == i.max - (if i.openmax then 1 else 0)
  }

  lemma PinsLimit(i: Interval, lo: nat, hi: nat)
    requires Pins(i) && Limit(i, lo, hi).Some?
    ensures Limit(i, lo, hi).value.min == Limit(i, lo, hi).value.max
  {
  }

  /** A request that pins the period or the count is accepted exactly when some configuration
      is permitted. */
  lemma RefineDecidesPinned(v: Params)
    requires |v| == COUNT && (Pins(v[5]) || Pins(v[7]))
    ensures RefineIntervals(v).Some? <==> exists p: nat, n: nat :: Permitted(v, p, n)
  {
    hide Propagated, Permitted, Solves, Tabled, Limit, InLimits;
    if p: nat, n: nat :| Permitted(v, p, n) {
      RefinePreservesConfigurations(v, p, n);
    }
    if RefineIntervals(v).Some? {
      var w := Tabled(v, COUNT).value;
      TableKeepsSolutions(v, 0, 0);
      TabledAt(v, COUNT);
      PropagationShrinks(w, 10, PASSES * RULES);
      PropagationShrinks(w, 11, PASSES * RULES);
      var p, n := 0, 0;
      if Pins(v[5]) {
        PinsLimit(v[5], Low(5), High(5));
        p := w[5].min;
        n := PinnedPeriodSolves(w, p);
      } else {
        PinsLimit(v[7], Low(7), High(7));
        n := w[7].min;
        p := PinnedCountSolves(w, n);
      }
      TableKeepsSolutions(v, p, n);
      assert Permitted(v, p, n);
    }
  }

  // ----- how many passes decide

  /** The two blocks have the same bounds. */
  ghost predicate SameBounds(v: Params, w: Params) {
    && |v| == |w| == COUNT
    && forall i: nat :: i < COUNT ==> v[i].min == w[i].min && v[i].max == w[i].max
  }

  lemma {:induction false} Squeezed(w: Params, lo: nat, j: nat, hi: nat)
    requires InLimits(w) && lo <= j <= hi && Propagated(w, hi).Some?
    requires Propagated(w, lo).Some? && SameBounds(Propagated(w, lo).value, Propagated(w, hi).value)
    ensures Propagated(w, j).Some? && SameBounds(Propagated(w, lo).value, Propagated(w, j).value)
  {
    hide Propagated;
    PropagationShrinks(w, j, hi);
    PropagationShrinks(w, lo, j);
  }

  /** When a pass changes nothing, the shortest period left with the largest count left is a
      configuration: rule 9 bounds their product from above, rule 10 from below. */
  lemma StableSolves(w: Params, j: nat)
    requires InLimits(w) && Propagated(w, RULES * j).Some? && Propagated(w, RULES * (j + 1)).Some?
    requires SameBounds(Propagated(w, RULES * j).value, Propagated(w, RULES * (j + 1)).value)
    ensures var a := Propagated(w, RULES * j).value; Solves(w, a[5].min, a[7].max)
  {
    hide Rule, Propagated, InLimits, Solves;
    LimitsAt(w);
    var lo, hi := RULES * j, RULES * (j + 1);
    var a := Propagated(w, lo).value;
    var p, n := a[5].min, a[7].max;
    Remainders(j);
    RuleAt(w, lo + 9, 9, hi);
    RuleAt(w, lo + 10, 10, hi);
    Squeezed(w, lo, lo + 9, hi);
    Squeezed(w, lo, lo + 10, hi);
    var x, y := Propagated(w, lo + 9).value, Propagated(w, lo + 10).value;
    LimitsAt(x);
    ClosedAt(x, 5);
    ClosedAt(x, 7);
    UpperProduct(x[9].max, p, n);
    LowerProduct(y[9].min, n, p);
    PeriodInside(w, lo + 9, p);
    BufferInside(w, lo + 9, p * n);
    InsideRequest(w, x, 7, n);
    SolvesFrom(w, p, n);
  }

  lemma Remainders(j: nat)
    ensures (RULES * j + 9) % RULES == 9 && (RULES * j + 10) % RULES == 10 && RULES * (j + 1) == RULES * j + RULES
  {
  }

  lemma UpperProduct(b: nat, p: nat, n: nat)
    requires p > 0 && n <= b / p
    ensures p * n <= b
  {
    MulOrder(n, b / p, p);
  }

  lemma LowerProduct(b: nat, n: nat, p: nat)
    requires n > 0 && (b + n - 1) / n <= p
    ensures b <= p * n
  {
    var q := (b + n - 1) / n;
    assert b + n - 1 < (q + 1) * n by { assert (q + 1) * n == q * n + n; }
    MulOrder(q, p, n);
  }

  lemma InsideRequest(w: Params, x: Params, i: nat, n: nat)
    requires InLimits(x) && Shrinks(w, x) && i < COUNT && n == x[i].max
    ensures w[i].min <= n <= w[i].max
  {
    assert x[i].Closed();
  }

  /** The sum of the widths of all intervals. */
  function Width(v: Params): int {
    if v == [] then 0 else Width(v[1..]) + v[0].max - v[0].min
  }

  lemma {:induction false} WidthShrinks(v: Params, w: Params)
    requires |v| == |w| && forall i :: 0 <= i < |v| ==> v[i].min <= w[i].min && w[i].max <= v[i].max
    ensures Width(w) <= Width(v)
    ensures Width(w) == Width(v) ==> forall i :: 0 <= i < |v| ==> v[i].min == w[i].min && w[i].max == v[i].max
  {
    if v != [] {
      WidthShrinks(v[1..], w[1..]);
      if Width(w) == Width(v) {
        forall i | 0 < i < |v|
          ensures v[i].min == w[i].min && w[i].max == v[i].max
        {
          assert v[i] == v[1..][i - 1] && w[i] == w[1..][i - 1];
        }
      }
    }
  }

  lemma {:induction false} WidthNatural(v: Params)
    requires forall i :: 0 <= i < |v| ==> v[i].min <= v[i].max
    ensures Width(v) >= 0
  {
    if v != [] { WidthNatural(v[1..]); }
  }

  lemma LimitsWidth(v: Params)
    requires InLimits(v)
    ensures Width(v) >= 0
  {
    forall i | 0 <= i < |v|
      ensures v[i].min <= v[i].max
    {
      assert v[i].Closed();
    }
    WidthNatural(v);
  }

  /** Every pass that changes something makes the block narrower, so among enough passes one
      changes nothing. */
  lemma {:induction false} FindStable(w: Params, j: nat, total: nat) returns (k: nat)
    requires InLimits(w) && Propagated(w, RULES * total).Some? && j < total && Propagated(w, RULES * j).Some?
    requires Width(Propagated(w, RULES * j).value) < total - j
    ensures k < total && Propagated(w, RULES * k).Some? && Propagated(w, RULES * (k + 1)).Some?
    ensures SameBounds(Propagated(w, RULES * k).value, Propagated(w, RULES * (k + 1)).value)
    decreases total - j
  {
    hide Propagated, InLimits, Width;
    LimitsAt(w);
    PropagationShrinks(w, RULES * (j + 1), RULES * total);
    PropagationShrinks(w, RULES * j, RULES * (j + 1));
    var a, b := Propagated(w, RULES * j).value, Propagated(w, RULES * (j + 1)).value;
    WidthShrinks(a, b);
    PropagatedInLimits(w, RULES * (j + 1));
    LimitsWidth(b);
    if Width(a) == Width(b) {
      k := j;
    } else {
      k := FindStable(w, j + 1, total);
    }
  }

  /** Rule applications that decide a block. */
  function Enough(w: Params): nat { if Width(w) < 0 then 0 else RULES * (Width(w) + 1) }

  /** A request has a configuration if and only if the limits leave one in each interval and
      one pass more than the sum of the widths does not empty any. */
  lemma SolvableIff(v: Params)
    requires |v| == COUNT
    ensures (exists p: nat, n: nat :: Permitted(v, p, n)) <==>
            Tabled(v, COUNT).Some? && Propagated(Tabled(v, COUNT).value, Enough(Tabled(v, COUNT).value)).Some?
  {
    hide Propagated, Permitted, Solves, Tabled, Limit, InLimits, Width;
    if p: nat, n: nat :| Permitted(v, p, n) {
      if Tabled(v, COUNT).None? {
        TableFailureIsReal(v, p, n);
        assert false;
      }
      TableKeepsSolutions(v, p, n);
      PropagationKeepsSolution(Tabled(v, COUNT).value, Enough(Tabled(v, COUNT).value), p, n);
    }
    if Tabled(v, COUNT).Some? && Propagated(Tabled(v, COUNT).value, Enough(Tabled(v, COUNT).value)).Some? {
      var w := Tabled(v, COUNT).value;
      TableKeepsSolutions(v, 0, 0);
      LimitsWidth(w);
      PropagationShrinks(w, 0, Enough(w));
      NothingPropagated(w);
      var k := FindStable(w, 0, Width(w) + 1);
      StableSolves(w, k);
      var a := Propagated(w, RULES * k).value;
      TableKeepsSolutions(v, a[5].min, a[7].max);
    }
  }

  lemma NothingPropagated(w: Params)
    requires |w| == COUNT
    ensures Propagated(w, 0) == Some(w)
  {
  }

  /** An accepted request is accepted in vain exactly when a later pass would refuse it. */
  lemma AcceptedInVainIff(v: Params)
    requires |v| == COUNT && RefineIntervals(v).Some?
    ensures (forall p: nat, n: nat :: !Permitted(v, p, n)) <==>
            exists k :: Propagated(Tabled(v, COUNT).value, k).None?
  {
    hide Propagated, Permitted, Solves, Tabled, InLimits, Width, Enough;
    SolvableIff(v);
    var w := Tabled(v, COUNT).value;
    if p: nat, n: nat :| Permitted(v, p, n) {
      TableKeepsSolutions(v, p, n);
      forall k: nat
        ensures Propagated(w, k).Some?
      {
        PropagationKeepsSolution(w, k, p, n);
      }
    }
  }

  /** What a caller can tell from the answer: when one more pass leaves the returned bounds as
      they are, the shortest period with the largest count is a configuration. */
  lemma StableAnswerSolves(v: Params)
    requires |v| == COUNT && RefineIntervals(v).Some?
    requires Propagated(RefineIntervals(v).value, RULES).Some?
    requires SameBounds(RefineIntervals(v).value, Propagated(RefineIntervals(v).value, RULES).value)
    ensures Permitted(v, RefineIntervals(v).value[5].min, RefineIntervals(v).value[7].max)
  {
    hide Propagated, Permitted, Solves, Tabled, InLimits;
    var w, r := Tabled(v, COUNT).value, RefineIntervals(v).value;
    TableKeepsSolutions(v, 0, 0);
    PassAfter(w, PASSES, r, RULES);
    StableSolves(w, PASSES);
    TableKeepsSolutions(v, r[5].min, r[7].max);
  }

  /** A pass that starts at the state after j passes. */
  lemma {:induction false} PassAfter(w: Params, j: nat, v: Params, k: nat)
    requires |w| == COUNT && |v| == COUNT && Propagated(w, RULES * j) == Some(v) && k <= RULES
    ensures Propagated(w, RULES * j + k) == Propagated(v, k)
    decreases k
  {
    hide Rule;
    if k > 0 {
      PassAfter(w, j, v, k - 1);
      Remainder(j, k - 1);
    }
  }

  lemma Remainder(j: nat, r: nat)
    requires r < RULES
    ensures (RULES * j + r) % RULES == r == r % RULES
  {
  }

  // ----- the parameter block as the driver updates it

  lemma {:induction false} FailureStays(v: Params, j: nat, k: nat)
    requires |v| == COUNT && j <= k && Propagated(v, j).None?
    ensures Propagated(v, k).None?
  {
    hide Rule;
    if j < k { FailureStays(v, j, k - 1); }
  }

  lemma {:induction false} TableFailureStays(v: Params, j: nat, k: nat)
    requires |v| == COUNT && j <= k <= COUNT && Tabled(v, j).None?
    ensures Tabled(v, k).None?
  {
    if j < k { TableFailureStays(v, j, k - 1); }
  }

  class HwParams {
    const intervals: array<Interval>
    const masks: array<set<nat>>
    var cmask: set<nat>
    var rmask: nat
    var msbits: nat
    var rateNum: nat
    var rateDen: nat

    ghost predicate Valid()
      reads this, intervals, masks
    {
      && intervals.Length == COUNT && masks.Length == 3
      && forall i: nat :: i < COUNT ==> Word(intervals[i])
    }

    constructor (v: Params, m: seq<set<nat>>)
      requires |v| == COUNT && |m| == 3 && forall i: nat :: i < COUNT ==> Word(v[i])
      ensures Valid() && intervals[..] == v && masks[..] == m
      ensures fresh(intervals) && fresh(masks)
    {
      intervals := new Interval[COUNT](i requires 0 <= i < |v| => v[i]);
      masks := new set<nat>[3](i requires 0 <= i < |m| => m[i]);
      cmask, rmask, msbits, rateNum, rateDen := {}, 0, 0, 0, 0;
    }

    /** interval_limit */
    method IntervalLimit(n: nat, lo: nat, hi: nat) returns (ret: int)
      requires Valid() && 8 <= n < 8 + COUNT && lo <= UINT_MAX && hi <= UINT_MAX
      modifies intervals, this`cmask
      ensures Valid()
      ensures ret == 0 || ret == -EINVAL
      ensures ret == 0 ==> LimitAt(old(intervals[..]), n - 8, lo, hi) == Some(intervals[..])
      ensures ret == 0 <==> LimitAt(old(intervals[..]), n - 8, lo, hi).Some?
      ensures cmask == if ret == 0 then old(cmask) + {n} else old(cmask)
      ensures forall j: nat :: j < COUNT && j != n - 8 ==> intervals[j] == old(intervals[j])
    {
      var i := n - 8;
      var x := intervals[i];
      var a, b := x.min, x.max;
      if x.empty || a > hi || b < lo {
        return -EINVAL;
      }
      if a < lo {
        a := lo;
        x := x.(openmin := false);
        intervals[i] := x;
      }
      if b > hi {
        b := hi;
        x := x.(openmax := false);
        intervals[i] := x;
      }
      if x.openmin {
        if a == UINT_MAX { return -EINVAL; }
        a := a + 1;
      }
      if x.openmax {
        if b == 0 { return -EINVAL; }
        b := b - 1;
      }
      if a > b {
        return -EINVAL;
      }
      intervals[i] := Interval(a, b, false, false, true, false);
      assert intervals[..] == old(intervals[..])[i := intervals[i]];
      cmask := cmask + {n};
      return 0;
    }

    /** mask_limit */
    method MaskLimit(n: nat, allowed: set<nat>) returns (ret: int)
      requires Valid() && n < 3
      modifies masks, this`cmask
      ensures Valid() && masks[..] == old(masks[..])[n := old(masks[n]) * allowed]
      ensures cmask == old(cmask) + {n}
      ensures ret == if old(masks[n]) * allowed == {} then -EINVAL else 0
    {
      var bits := masks[n] * allowed;
      masks[n] := bits;
      cmask := cmask + {n};
      return if bits != {} then 0 else -EINVAL;
    }

    /** One interval_limit call of the propagation loop. */
    method Propagate(rule: nat, ghost w: Params, ghost pass: nat) returns (ret: int)
      requires |w| == COUNT && InLimits(w) && rule < RULES && Passed(0, w, pass * RULES + rule)
      modifies intervals, this`cmask
      ensures Passed(ret, w, pass * RULES + rule + 1)
      ensures cmask == old(cmask)
    {
      hide U32, Lo32, Hi32, RuleLo, RuleHi, InLimits, Limit;
      ghost var k := pass * RULES + rule;
      assert k % RULES == rule;
      NoWrap(intervals[..], rule);
      ret := IntervalLimit(Target(rule) + 8, Lo32(intervals[..], rule), Hi32(intervals[..], rule));
      if ret == 0 {
        PropagatedInLimits(w, k + 1);
      }
    }

    /** The propagation has reached application k, or failed by then. */
    ghost predicate Passed(ret: int, w: Params, k: nat)
      requires |w| == COUNT
      reads this, intervals, masks
    {
      && Valid() && PROPAGATED <= cmask
      && (ret == 0 || ret == -EINVAL)
      && (ret == 0 <==> Propagated(w, k).Some?)
      && (ret == 0 ==> Propagated(w, k) == Some(intervals[..]) && InLimits(intervals[..]))
    }

    /** As Propagate, unless an earlier call of the chain has failed. */
    method Then(before: int, rule: nat, ghost w: Params, ghost pass: nat) returns (ret: int)
      requires |w| == COUNT && InLimits(w) && rule < RULES && Passed(before, w, pass * RULES + rule)
      modifies intervals, this`cmask
      ensures Passed(ret, w, pass * RULES + rule + 1)
      ensures cmask == old(cmask)
    {
      if before != 0 {
        FailureStays(w, pass * RULES + rule, pass * RULES + rule + 1);
        return before;
      }
      ret := Propagate(rule, w, pass);
    }

    /** The period rules, the buffer rules and the rules that join them. */
    method OnePass(ghost w: Params, ghost pass: nat) returns (ret: int)
      requires |w| == COUNT && InLimits(w) && Passed(0, w, pass * RULES)
      modifies intervals, this`cmask
      ensures Passed(ret, w, (pass + 1) * RULES) && cmask == old(cmask)
    {
      hide Rule, Propagated, InLimits, Passed, Valid;
      ret := Propagate(0, w, pass);
      ret := Then(ret, 1, w, pass);
      ret := Then(ret, 2, w, pass);
      ret := Then(ret, 3, w, pass);
      ret := BufferRules(ret, w, pass);
      ret := JoinRules(ret, w, pass);
    }

    method BufferRules(before: int, ghost w: Params, ghost pass: nat) returns (ret: int)
      requires |w| == COUNT && InLimits(w) && Passed(before, w, pass * RULES + 4)
      modifies intervals, this`cmask
      ensures Passed(ret, w, pass * RULES + 8) && cmask == old(cmask)
    {
      hide Rule, Propagated, InLimits, Passed, Valid;
      ret := Then(before, 4, w, pass);
      ret := Then(ret, 5, w, pass);
      ret := Then(ret, 6, w, pass);
      ret := Then(ret, 7, w, pass);
    }

    method JoinRules(before: int, ghost w: Params, ghost pass: nat) returns (ret: int)
      requires |w| == COUNT && InLimits(w) && Passed(before, w, pass * RULES + 8)
      modifies intervals, this`cmask
      ensures Passed(ret, w, (pass + 1) * RULES) && cmask == old(cmask)
    {
      hide Rule, Propagated, InLimits, Passed, Valid;
      ret := Then(before, 8, w, pass);
      ret := Then(ret, 9, w, pass);
      ret := Then(ret, 10, w, pass);
    }

    /** The loop over the limits table. */
    method ApplyTable() returns (ret: int)
      requires Valid()
      modifies intervals, this`cmask
      ensures Valid()
      ensures ret == 0 || ret == -EINVAL
      ensures ret == 0 <==> Tabled(old(intervals[..]), COUNT).Some?
      ensures ret == 0 ==> Tabled(old(intervals[..]), COUNT) == Some(intervals[..])
      ensures ret == 0 ==> forall n: nat :: n in cmask <==> n in old(cmask) || 8 <= n < 20
    {
      var i := 0;
      while i < COUNT
        invariant 0 <= i <= COUNT && Valid()
        invariant Tabled(old(intervals[..]), i) == Some(intervals[..])
        invariant forall n: nat :: n in cmask <==> n in old(cmask) || 8 <= n < 8 + i
      {
        ret := IntervalLimit(i + 8, Low(i), High(i));
        if ret != 0 {
          TableFailureStays(old(intervals[..]), i + 1, COUNT);
          return;
        }
        i := i + 1;
      }
      return 0;
    }

    /** The three mask_limit calls. */
    method ApplyMasks() returns (ret: int)
      requires Valid()
      modifies masks, this`cmask
      ensures Valid()
      ensures ret == 0 || ret == -EINVAL
      ensures ret == 0 <==> forall i: nat :: i < 3 ==> old(masks[i]) * MaskAllowed(i) != {}
      ensures ret == 0 ==> forall i: nat :: i < 3 ==> masks[i] == old(masks[i]) * MaskAllowed(i)
      ensures ret == 0 ==> cmask == old(cmask) + {0, 1, 2}
    {
      ret := MaskLimit(0, MaskAllowed(0));
      if ret != 0 { return; }
      ret := MaskLimit(1, MaskAllowed(1));
      if ret != 0 { return; }
      ret := MaskLimit(2, MaskAllowed(2));
    }

    /** The eight propagation passes. */
    method Passes() returns (ret: int)
      requires Valid() && InLimits(intervals[..]) && PROPAGATED <= cmask
      modifies intervals, this`cmask
      ensures Passed(ret, old(intervals[..]), PASSES * RULES) && cmask == old(cmask)
    {
      ret := 0;
      ghost var w := intervals[..];
      assert Propagated(w, 0) == Some(w);
      var pass := 0;
      while pass < PASSES
        invariant 0 <= pass <= PASSES && ret == 0
        invariant Passed(0, w, pass * RULES) && cmask == old(cmask)
      {
        assert |w| == COUNT;
        hide Rule, Propagated, InLimits, Passed;
        ret := OnePass(w, pass);
        if ret != 0 {
          PassFails(ret, w, pass + 1);
          return;
        }
        pass := pass + 1;
      }
    }

    lemma PassFails(ret: int, w: Params, pass: nat)
      requires |w| == COUNT && pass <= PASSES && ret != 0 && Passed(ret, w, pass * RULES)
      ensures Passed(ret, w, PASSES * RULES)
    {
      hide Rule;
      FailureStays(w, pass * RULES, PASSES * RULES);
    }

    /** pcm_refine */
    method Refine() returns (ret: int)
      requires Valid()
      modifies this, intervals, masks
      ensures Valid()
      ensures ret == 0 || ret == -EINVAL
      ensures ret == 0 <==>
                && RefineIntervals(old(intervals[..])).Some?
                && forall i: nat :: i < 3 ==> old(masks[i]) * MaskAllowed(i) != {}
      ensures ret == 0 ==> RefineIntervals(old(intervals[..])) == Some(intervals[..])
      ensures ret == 0 ==> forall i: nat :: i < 3 ==> masks[i] == old(masks[i]) * MaskAllowed(i)
      ensures ret == 0 ==> forall n: nat :: n in cmask <==> n < 3 || 8 <= n < 20
      ensures ret == 0 ==> rmask == 0 && msbits == 16 && rateNum == 48000 && rateDen == 1
    {
      hide Rule, Propagated, InLimits, Tabled;
      cmask := {};
      ret := ApplyMasks();
      if ret != 0 { return; }
      ret := ApplyTable();
      if ret != 0 { return; }
      TableKeepsSolutions(old(intervals[..]), 0, 0);
      ret := Passes();
      if ret != 0 { return; }
      rmask, msbits, rateNum, rateDen := 0, 16, 48000, 1;
    }
  }

  const PROPAGATED: set<nat> := {12, 13, 14, 15, 16, 17, 18}

  /** Bounds of a rule as the 32-bit code computes them; products and sums marked
      uint64_t in the code are exact until they are passed on. */
  function Lo32(v: Params, rule: nat): int
    requires |v| == COUNT && rule < RULES && v[5].max > 0 && v[7].max > 0
  {
    match rule
    case 0 => U32(v[6].min + 3) / 4
    case 1 => U32(U32(v[4].min * 48) + 999) / 1000
    case 2 => U32(v[5].min * 4)
    case 3 => U32(v[5].min * 1000 / 48)
    case 4 => U32(v[10].min + 3) / 4
    case 5 => U32(U32(v[8].min * 48) + 999) / 1000
    case 6 => U32(v[9].min * 4)
    case 7 => U32(v[9].min * 1000 / 48)
    case 8 => U32(v[5].min * v[7].min)
    case 9 => U32(v[9].min + v[5].max - 1) / v[5].max
    case _ => U32(v[9].min + v[7].max - 1) / v[7].max
  }

  function Hi32(v: Params, rule: nat): int
    requires |v| == COUNT && rule < RULES && v[5].min > 0 && v[7].min > 0
  {
    match rule
    case 0 => v[6].max / 4
    case 1 => U32(v[4].max * 48 / 1000)
    case 2 => U32(v[5].max * 4)
    case 3 => U32((v[5].max * 1000 + 47) / 48)
    case 4 => v[10].max / 4
    case 5 => U32(v[8].max * 48 / 1000)
    case 6 => U32(v[9].max * 4)
    case 7 => U32((v[9].max * 1000 + 47) / 48)
    case 8 => if v[5].max * v[7].max > PCM_BYTES / 4 then PCM_BYTES / 4 else U32(v[5].max * v[7].max)
    case 9 => v[9].max / v[5].min
    case _ => v[9].max / v[7].min
  }

  lemma Bounds(v: Params)
    requires InLimits(v)
    ensures v[4].min <= v[4].max <= 1_000_000 && 48 <= v[5].min <= v[5].max <= 48000
    ensures v[6].min <= v[6].max <= 192_000 && 2 <= v[7].min <= v[7].max <= 1024
    ensures v[8].min <= v[8].max <= 1_365_334 && v[9].min <= v[9].max <= 65536
    ensures v[10].min <= v[10].max <= 262_144
    ensures 0 <= v[5].min * v[7].min <= v[5].max * v[7].max <= 48000 * 1024
  {
    assert v[4].Closed() && v[5].Closed() && v[6].Closed() && v[7].Closed();
    assert v[8].Closed() && v[9].Closed() && v[10].Closed();
    Product(v[5].min, v[5].max, v[7].min, v[7].max);
    Product(v[5].max, 48000, v[7].max, 1024);
  }

  lemma QuotientBound(a: nat, d: nat)
    requires d > 0
    ensures 0 <= a / d <= a
  {
    var q := a / d;
    assert q * d <= a;
    MulOrder(1, d, q);
  }

  /** Inside the device limits no rule divides by zero and no 32-bit operation wraps. */
  lemma NoWrap(v: Params, rule: nat)
    requires InLimits(v) && rule < RULES
    ensures v[5].min > 0 && v[5].max > 0 && v[7].min > 0 && v[7].max > 0
    ensures 0 <= Lo32(v, rule) == RuleLo(v, rule) <= UINT_MAX
    ensures 0 <= Hi32(v, rule) == RuleHi(v, rule) <= UINT_MAX
  {
    Bounds(v);
    hide InLimits;
    match rule
    case 9 =>
      QuotientBound(v[9].min + v[5].max - 1, v[5].max);
      QuotientBound(v[9].max, v[5].min);
    case 10 =>
      QuotientBound(v[9].min + v[7].max - 1, v[7].max);
      QuotientBound(v[9].max, v[7].min);
    case _ =>
  }
}
