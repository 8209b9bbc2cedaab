/** A request that pcm_refine in src/driver/audio/alsa.c accepts though nothing satisfies it: a
    buffer of 1009 frames. */
module PcmPrime {
  import opened PcmBox
  import opened PcmRefine
  import opened Wrappers

  const PRIME := Span(1009, 1009)

  lemma StartPass()
    ensures Reaches(Request(ALL_COUNTS, PRIME), 1, Lag(Span(48, 48000), Span(49, 504), Span(2, 21), PRIME))
  {
    hide Reaches, Lag, Request;
    FirstPass(ALL_COUNTS, PRIME, Span(49, 504), Span(2, 21));
  }

  lemma TenPasses()
    ensures Reaches(Request(ALL_COUNTS, PRIME), 8, Lag(Span(68, 126), Span(73, 112), Span(9, 14), PRIME))
    ensures Reaches(Request(ALL_COUNTS, PRIME), 9, Lag(Span(73, 112), Span(78, 100), Span(10, 13), PRIME))
    ensures Reaches(Request(ALL_COUNTS, PRIME), 10, Lag(Span(78, 100), Span(85, 91), Span(11, 12), PRIME))
  {
    hide Reaches, Lag, Request, Counts, Periods;
    var s := Request(ALL_COUNTS, PRIME);
    StartPass();
    Narrow(s, 1, Span(48, 48000), Span(49, 504), Span(2, 21), PRIME, Span(51, 336), Span(3, 20));
    Narrow(s, 2, Span(49, 504), Span(51, 336), Span(3, 20), PRIME, Span(54, 252), Span(4, 19));
    Narrow(s, 3, Span(51, 336), Span(54, 252), Span(4, 19), PRIME, Span(57, 201), Span(5, 18));
    Narrow(s, 4, Span(54, 252), Span(57, 201), Span(5, 18), PRIME, Span(60, 168), Span(6, 17));
    Narrow(s, 5, Span(57, 201), Span(60, 168), Span(6, 17), PRIME, Span(64, 144), Span(7, 16));
    Narrow(s, 6, Span(60, 168), Span(64, 144), Span(7, 16), PRIME, Span(68, 126), Span(8, 15));
    Narrow(s, 7, Span(64, 144), Span(68, 126), Span(8, 15), PRIME, Span(73, 112), Span(9, 14));
    Narrow(s, 8, Span(68, 126), Span(73, 112), Span(9, 14), PRIME, Span(78, 100), Span(10, 13));
    Narrow(s, 9, Span(73, 112), Span(78, 100), Span(10, 13), PRIME, Span(85, 91), Span(11, 12));
  }

  lemma Eleventh()
    requires Reaches(Request(ALL_COUNTS, PRIME), 10, Lag(Span(78, 100), Span(85, 91), Span(11, 12), PRIME))
    ensures Propagated(Request(ALL_COUNTS, PRIME).AsParams(), 11 * RULES).None?
  {
    hide Box.AsParams, Propagated, Request, Lag, Box.Through;
    var a, p, n := Span(78, 100), Span(85, 91), Span(11, 12);
    LagRefused(a, p, n, PRIME);
    ThroughIsPropagated(Lag(a, p, n, PRIME), RULES);
    PassAfter(Request(ALL_COUNTS, PRIME).AsParams(), 10, Lag(a, p, n, PRIME).AsParams(), RULES);
  }

  lemma NoFactor(p: nat, n: nat)
    requires 2 <= n <= 21
    ensures p * n != 1009
  {
    match n
    case 2 => case 3 => case 4 => case 5 => case 6 => case 7 => case 8 => case 9 => case 10 => case 11 =>
    case 12 => case 13 => case 14 => case 15 => case 16 => case 17 => case 18 => case 19 => case 20 => case _ =>
  }

  /** 1009 is prime: no period of at least 48 frames, taken at least twice, makes it up. */
  lemma NoProduct(p: nat, n: nat)
    requires p >= 48 && n >= 2
    ensures p * n != 1009
  {
    if p * n == 1009 {
      MulOrder(48, p, n);
      NoFactor(p, n);
      assert false;
    }
  }

  lemma PrimeUnsolvable(p: nat, n: nat)
    ensures Request(ALL_COUNTS, PRIME).Sound() && !Permitted(Request(ALL_COUNTS, PRIME).AsParams(), p, n)
  {
    RequestSound(ALL_COUNTS, PRIME);
    var v := Request(ALL_COUNTS, PRIME).AsParams();
    if Permitted(v, p, n) {
      assert v[5].HasInward(Num(5, p, n), Den(5)) && v[7].HasInward(Num(7, p, n), Den(7));
      assert v[9].HasInward(Num(9, p, n), Den(9));
      NoProduct(p, n);
      assert false;
    }
  }

  /** Counterexample: with the limits everywhere and a buffer of 1009 frames, eight passes
      accept the request though no configuration exists.  They have not reached a fixed
      point: the ninth narrows further, and the eleventh would refuse. */
  lemma AcceptsWithoutConfiguration()
    ensures Request(ALL_COUNTS, PRIME).Sound()
    ensures var v := Request(ALL_COUNTS, PRIME).AsParams();
            && RefineIntervals(v).Some?
            && (forall p: nat, n: nat :: !Permitted(v, p, n))
            && Propagated(v, 9 * RULES).Some? && Propagated(v, 9 * RULES) != RefineIntervals(v)
            && Propagated(v, 11 * RULES).None?
  {
    hide Box.AsParams, Propagated, Request, RefineIntervals, Permitted;
    RequestSound(ALL_COUNTS, PRIME);
    var v := Request(ALL_COUNTS, PRIME).AsParams();
    TenPasses();
    forall p: nat, n: nat
      ensures !Permitted(v, p, n)
    {
      PrimeUnsolvable(p, n);
    }
    var x := Lag(Span(68, 126), Span(73, 112), Span(9, 14), PRIME);
    Refined(ALL_COUNTS, PRIME, x);
    BoxesDiffer(x, Lag(Span(73, 112), Span(78, 100), Span(10, 13), PRIME));
    Eleventh();
  }

  lemma BoxesDiffer(x: Box, y: Box)
    requires x.Sound() && y.Sound() && x.p != y.p
    ensures x.AsParams() != y.AsParams()
  {
    assert x.AsParams()[5] != y.AsParams()[5];
  }
}
