/** What HW_PARAMS in src/driver/audio/alsa.c makes of a refined request: it takes the shortest
    period and the shortest buffer left and reports their quotient as the number of periods. */
module PcmChoice {
  import Modular
  import opened PcmBox
  import opened PcmRefine
  import opened Wrappers

  const EBUSY := 16

  // ----- the choice

  /** The values HW_PARAMS reports for period p and buffer b. */
  function Reported(p: nat, b: nat): (r: seq<nat>)
    requires p > 0
    ensures |r| == COUNT
  {
    [16, 32, 2, 48000, p * 1000 / 48, p, p * 4, b / p, b * 1000 / 48, b, b * 4, 0]
  }

  /** All twelve parameters fixed to the reported values. */
  ghost predicate Settled(v: Params, p: nat, b: nat, upTo: nat)
    requires |v| == COUNT && p > 0 && upTo <= COUNT
  {
    forall i: nat :: i < upTo ==> v[i] == Fixed(Reported(p, b)[i])
  }

  /** The refined block is inside the limits; the parameters the device fixes have one value. */
  lemma RefinedLimits(v: Params)
    requires |v| == COUNT && RefineIntervals(v).Some?
    ensures var r := RefineIntervals(v).value;
            && InLimits(r) && 48 <= r[5].min <= 48000 && 96 <= r[9].min <= PCM_BYTES / 4
            && r[0].min == 16 && r[1].min == 32 && r[2].min == 2 && r[3].min == 48000 && r[11].min == 0
  {
    hide RefineIntervals;
    RefineShrinks(v);
    var r := RefineIntervals(v).value;
    forall i: nat | i < COUNT
      ensures Low(i) <= r[i].min <= High(i)
    {
      assert r[i].Closed();
    }
    assert Low(0) <= r[0].min <= High(0) && Low(1) <= r[1].min <= High(1) && Low(2) <= r[2].min <= High(2);
    assert Low(3) <= r[3].min <= High(3) && Low(5) <= r[5].min <= High(5) && Low(9) <= r[9].min <= High(9);
    assert Low(11) <= r[11].min <= High(11);
  }

  /** HW_PARAMS takes a permitted configuration exactly when the shortest period left divides
      the shortest buffer left and the quotient is a count left. */
  lemma ChoiceIsConfigurationIff(v: Params)
    requires |v| == COUNT && RefineIntervals(v).Some?
    ensures var r := RefineIntervals(v).value;
            var p, b := r[5].min, r[9].min;
            p > 0 &&
            ((exists n: nat :: p * n == b && Permitted(v, p, n)) <==> b % p == 0 && r[7].min <= b / p <= r[7].max)
  {
    hide Permitted, RefineIntervals;
    RefinedLimits(v);
    var r := RefineIntervals(v).value;
    var p, b := r[5].min, r[9].min;
    if n: nat :| p * n == b && Permitted(v, p, n) {
      Modular.Unique(b, p, n, 0);
      RefinePreservesConfigurations(v, p, n);
      CountLeft(r, p, n);
    }
    if b % p == 0 && r[7].min <= b / p <= r[7].max {
      assert p * (b / p) == b;
      ChoicePermitted(v, b / p);
    }
  }

  lemma CountLeft(r: Params, p: nat, n: nat)
    requires Solves(r, p, n) && InLimits(r)
    ensures r[7].min <= n <= r[7].max
  {
    assert Within(r, 7, p, n) && r[7].Closed();
  }

  lemma ChoicePermitted(v: Params, n: nat)
    requires |v| == COUNT && RefineIntervals(v).Some?
    requires var r := RefineIntervals(v).value; r[5].min * n == r[9].min && r[7].min <= n <= r[7].max
    ensures Permitted(v, RefineIntervals(v).value[5].min, n)
  {
    hide Propagated, Permitted, Solves, Tabled, InLimits;
    var w, r := Tabled(v, COUNT).value, RefineIntervals(v).value;
    RefinedLimits(v);
    ClosedAt(r, 5);
    ClosedAt(r, 9);
    TableKeepsSolutions(v, r[5].min, n);
    PropagationShrinks(w, 0, PASSES * RULES);
    NothingPropagated(w);
    PeriodInside(w, PASSES * RULES, r[5].min);
    BufferInside(w, PASSES * RULES, r[9].min);
    SolvesFrom(w, r[5].min, n);
  }

  // ----- the test on the choice

  lemma RuleExact(a: Params, b: Params, rule: nat)
    requires InLimits(a) && rule < RULES && Rule(a, rule) == Some(b)
    ensures b[Target(rule)].min == Max(a[Target(rule)].min, RuleLo(a, rule))
    ensures forall i: nat :: i < COUNT && i != Target(rule) ==> b[i] == a[i]
  {
    assert a[Target(rule)].Closed();
  }

  lemma GuardArith(p0: nat, n0: nat, n: nat, b: nat, p: nat)
    requires p0 * n0 <= b && n0 >= 2 && n >= 2 && b > 1 && p == Max(p0, (b + n - 1) / n)
    ensures b < 2 * p <==> n == 2 && b % 2 == 1
  {
    MulOrder(2, n0, p0);
    var q := (b + n - 1) / n;
    if n > 2 {
      assert (q - 1) * n <= b - 1;
      if q > 1 { MulOrder(3, n, q - 1); }
    }
  }

  /** The test HW_PARAMS makes on its choice, at least two periods, refuses a request that
      pcm_refine has accepted exactly when two periods are all that is left and the shortest
      buffer is odd. */
  lemma ChoiceRefusedIff(v: Params)
    requires |v| == COUNT && RefineIntervals(v).Some?
    ensures var r := RefineIntervals(v).value;
            r[9].min < 2 * r[5].min <==> r[7].max == 2 && r[9].min % 2 == 1
  {
    hide Propagated, Tabled, InLimits, Rule;
    var w := Tabled(v, COUNT).value;
    TableKeepsSolutions(v, 0, 0);
    LastRules(w);
  }

  lemma LastRules(w: Params)
    requires InLimits(w) && Propagated(w, PASSES * RULES).Some?
    ensures var r := Propagated(w, PASSES * RULES).value;
            r[9].min < 2 * r[5].min <==> r[7].max == 2 && r[9].min % 2 == 1
  {
    hide Propagated, InLimits, Rule;
    RuleAt(w, 85, 8, 88);
    RuleAt(w, 86, 9, 88);
    RuleAt(w, 87, 10, 88);
    var a, b, c, r := Propagated(w, 85).value, Propagated(w, 86).value, Propagated(w, 87).value, Propagated(w, 88).value;
    RuleExact(a, b, 8);
    RuleExact(b, c, 9);
    RuleExact(c, r, 10);
    LimitsAt(a);
    LimitsAt(c);
    ClosedAt(c, 7);
    BufferAtLeast(r);
    GuardArith(a[5].min, a[7].min, c[7].max, c[9].min, r[5].min);
  }

  lemma BufferAtLeast(r: Params)
    requires InLimits(r)
    ensures r[9].min >= 96
  {
    assert Low(9) <= r[9].min;
  }

  // ----- examples

  const SHORT := Span(997, 998)

  lemma ShortStart()
    ensures Reaches(Request(Span(2, 9), SHORT), 1, Lag(Span(48, 48000), Span(111, 499), Span(2, 9), SHORT))
  {
    hide Reaches, Lag, Request;
    FirstPass(Span(2, 9), SHORT, Span(111, 499), Span(2, 9));
  }

  lemma ShortPasses()
    ensures Reaches(Request(Span(2, 9), SHORT), 8, Lag(Span(333, 499), Span(499, 499), Span(2, 2), SHORT))
  {
    hide Reaches, Lag, Request, Counts, Periods;
    var s := Request(Span(2, 9), SHORT);
    ShortStart();
    Narrow(s, 1, Span(48, 48000), Span(111, 499), Span(2, 9), SHORT, Span(125, 499), Span(2, 8));
    Narrow(s, 2, Span(111, 499), Span(125, 499), Span(2, 8), SHORT, Span(143, 499), Span(2, 7));
    Narrow(s, 3, Span(125, 499), Span(143, 499), Span(2, 7), SHORT, Span(167, 499), Span(2, 6));
    Narrow(s, 4, Span(143, 499), Span(167, 499), Span(2, 6), SHORT, Span(200, 499), Span(2, 5));
    Narrow(s, 5, Span(167, 499), Span(200, 499), Span(2, 5), SHORT, Span(250, 499), Span(2, 4));
    Narrow(s, 6, Span(200, 499), Span(250, 499), Span(2, 4), SHORT, Span(333, 499), Span(2, 3));
    Narrow(s, 7, Span(250, 499), Span(333, 499), Span(2, 3), SHORT, Span(499, 499), Span(2, 2));
  }

  /** A configuration inside the limits whose count and buffer the request names. */
  lemma RequestPermits(n: Span, b: Span, p: nat, k: nat)
    requires Requestable(n, b) && 48 <= p <= 48000 && n.lo <= k <= n.hi && b.lo <= p * k <= b.hi
    ensures Request(n, b).Sound() && Permitted(Request(n, b).AsParams(), p, k)
  {
    RequestSound(n, b);
    var v := Request(n, b).AsParams();
    forall i: nat | i < COUNT
      ensures v[i].HasInward(Num(i, p, k), Den(i)) && Low(i) * Den(i) <= Num(i, p, k) <= High(i) * Den(i)
    {
    }
  }

  /** Counterexample: 2 to 9 periods and a buffer of 997 or 998 frames.  Two periods of 499
      are permitted, but after eight passes the shortest buffer is still 997, and HW_PARAMS
      refuses. */
  lemma RefusesPermitted()
    ensures Request(Span(2, 9), SHORT).Sound()
    ensures var v := Request(Span(2, 9), SHORT).AsParams();
            && RefineIntervals(v).Some? && Permitted(v, 499, 2)
            && RefineIntervals(v).value[9].min < 2 * RefineIntervals(v).value[5].min
  {
    hide Propagated, Request, RefineIntervals, Permitted;
    RequestPermits(Span(2, 9), SHORT, 499, 2);
    ShortPasses();
    Refined(Span(2, 9), SHORT, Lag(Span(333, 499), Span(499, 499), Span(2, 2), SHORT));
  }

  const HALVES := Span(48, 32768)

  /** From the second pass on nothing changes. */
  lemma {:induction false} AtLeastPasses(b: Span, j: nat)
    requires 96 <= b.lo <= 49152 && b.hi == PCM_BYTES / 4 && j >= 2
    ensures Reaches(Request(ALL_COUNTS, b), j, Lag(HALVES, HALVES, ALL_COUNTS, b))
  {
    hide Reaches, Lag, Request;
    var s := Request(ALL_COUNTS, b);
    if j == 2 {
      FirstPass(ALL_COUNTS, b, HALVES, ALL_COUNTS);
      Follow(s, 1, Span(48, 48000), HALVES, ALL_COUNTS, b, HALVES, ALL_COUNTS);
    } else {
      AtLeastPasses(b, j - 1);
      Follow(s, j - 1, HALVES, HALVES, ALL_COUNTS, b, HALVES, ALL_COUNTS);
    }
  }

  /** Asking for a buffer of at least m frames gets a period of 48 and a buffer of m frames.
      Two periods of half the length are permitted, but the choice is a configuration only
      when 48 divides m. */
  lemma AtLeastIff(m: nat)
    requires 96 <= m <= 49152
    ensures Request(ALL_COUNTS, Span(m, PCM_BYTES / 4)).Sound()
    ensures var v := Request(ALL_COUNTS, Span(m, PCM_BYTES / 4)).AsParams();
            && RefineIntervals(v).Some? && Permitted(v, (m + 1) / 2, 2)
            && RefineIntervals(v).value[5].min == 48 && RefineIntervals(v).value[9].min == m
            && ((exists n: nat :: 48 * n == m && Permitted(v, 48, n)) <==> m % 48 == 0)
  {
    hide Propagated, Request, RefineIntervals, Permitted;
    var b := Span(m, PCM_BYTES / 4);
    RequestPermits(ALL_COUNTS, b, (m + 1) / 2, 2);
    AtLeastPasses(b, PASSES);
    Refined(ALL_COUNTS, b, Lag(HALVES, HALVES, ALL_COUNTS, b));
    ChoiceIsConfigurationIff(Request(ALL_COUNTS, b).AsParams());
  }

  // ----- the code

  /** HW_PARAMS: the block is refined, the minima are taken and reported.  Of the two tests on
      them only the first can fail; the device keeps the period and the buffer it refused. */
  method Install(h: HwParams, busy: bool, period0: nat, frames0: nat, access0: nat)
      returns (ret: int, period: nat, frames: nat, access: nat)
    requires h.Valid()
    modifies h, h.intervals, h.masks
    ensures h.Valid()
    ensures busy ==> ret == -EBUSY && h.intervals[..] == old(h.intervals[..]) && h.masks[..] == old(h.masks[..])
    ensures !busy ==> ret == 0 || ret == -EINVAL
    ensures !busy ==>
              (ret == 0 <==>
                 && RefineIntervals(old(h.intervals[..])).Some?
                 && (forall i: nat :: i < 3 ==> old(h.masks[i]) * MaskAllowed(i) != {})
                 && var r := RefineIntervals(old(h.intervals[..])).value; 2 * r[5].min <= r[9].min)
    ensures if !busy && RefineIntervals(old(h.intervals[..])).Some?
                && forall i: nat :: i < 3 ==> old(h.masks[i]) * MaskAllowed(i) != {}
            then var r := RefineIntervals(old(h.intervals[..])).value; period == r[5].min > 0 && frames == r[9].min
            else period == period0 && frames == frames0
    ensures ret == 0 ==> period > 0 && Settled(h.intervals[..], period, frames, COUNT)
    ensures if ret == 0
            then h.masks[0] == {access} && access == if 0 in old(h.masks[0]) then 0 else 3
            else access == access0
    ensures ret == 0 ==> access in old(h.masks[0])
  {
    hide RefineIntervals, InLimits;
    period, frames, access := period0, frames0, access0;
    if busy {
      return -EBUSY, period, frames, access;
    }
    ret := h.Refine();
    if ret != 0 {
      return;
    }
    RefinedLimits(old(h.intervals[..]));
    period, frames := h.intervals[13 - 8].min, h.intervals[17 - 8].min;
    if frames < period * 2 || frames > PCM_BYTES / 4 {
      ret := -EINVAL;
      return;
    }
    access := if 0 in h.masks[0] then 0 else 3;
    assert h.masks[0] == old(h.masks[0]) * MaskAllowed(0);
    h.masks[0] := {access};
    ReportAll(h, period, frames);
  }

  /** The loop over the parameters. */
  method ReportAll(h: HwParams, period: nat, frames: nat)
    requires h.Valid() && 48 <= period <= 48000 && frames <= PCM_BYTES / 4
    requires h.intervals[0].min == 16 && h.intervals[1].min == 32 && h.intervals[2].min == 2
    requires h.intervals[3].min == 48000 && h.intervals[11].min == 0
    modifies h.intervals
    ensures h.Valid() && Settled(h.intervals[..], period, frames, COUNT)
  {
    var n := 8;
    while n <= 19
      invariant 8 <= n <= 20 && h.Valid() && Settled(h.intervals[..], period, frames, n - 8)
      invariant forall i :: n - 8 <= i < COUNT ==> h.intervals[i] == old(h.intervals[i])
    {
      var val := h.intervals[n - 8].min;
      match n {
        case 12 => val := period * 1000 / 48;
        case 13 => val := period;
        case 14 => val := period * 4;
        case 15 => val := frames / period;
        case 16 => val := frames * 1000 / 48;
        case 17 => val := frames;
        case 18 => val := frames * 4;
        case _ =>
      }
      assert val == Reported(period, frames)[n - 8];
      h.intervals[n - 8] := Fixed(val);
      n := n + 1;
    }
  }
}
