/** The propagation of pcm_refine in src/driver/audio/alsa.c followed on boxes of seven
    intervals, pass by pass, for requests that constrain only the count and the buffer. */
module PcmBox {
  import Modular
  import opened PcmRefine
  import opened Wrappers

  datatype Span = Span(lo: int, hi: int) {
    function Meet(a: int, b: int): Span { Span(Max(lo, a), Min(hi, b)) }
    predicate Sound() { 0 < lo <= hi }
    function AsInterval(): Interval
      requires Sound()
    {
      Interval(lo, hi, false, false, true, false)
    }
  }

  /** The seven intervals the rules work on: time, frames and bytes of the period, the
      count, and time, frames and bytes of the buffer. */
  datatype Box = Box(pt: Span, p: Span, pb: Span, n: Span, bt: Span, b: Span, bb: Span) {
    predicate Sound() {
      pt.Sound() && p.Sound() && pb.Sound() && n.Sound() && bt.Sound() && b.Sound() && bb.Sound()
    }

    function AsParams(): (v: Params)
      requires Sound()
      ensures |v| == COUNT
    {
      [Fixed(16), Fixed(32), Fixed(2), Fixed(48000), pt.AsInterval(), p.AsInterval(), pb.AsInterval(), n.AsInterval(),
       bt.AsInterval(), b.AsInterval(), bb.AsInterval(), Fixed(0)]
    }

    /** One rule on the box. */
    function Next(rule: nat): Box
      requires Sound()
    {
      match rule
      case 0 => this.(p := p.Meet((pb.lo + 3) / 4, pb.hi / 4))
      case 1 => this.(p := p.Meet((pt.lo * 48 + 999) / 1000, pt.hi * 48 / 1000))
      case 2 => this.(pb := pb.Meet(p.lo * 4, p.hi * 4))
      case 3 => this.(pt := pt.Meet(p.lo * 1000 / 48, (p.hi * 1000 + 47) / 48))
      case 4 => this.(b := b.Meet((bb.lo + 3) / 4, bb.hi / 4))
      case 5 => this.(b := b.Meet((bt.lo * 48 + 999) / 1000, bt.hi * 48 / 1000))
      case 6 => this.(bb := bb.Meet(b.lo * 4, b.hi * 4))
      case 7 => this.(bt := bt.Meet(b.lo * 1000 / 48, (b.hi * 1000 + 47) / 48))
      case 8 => this.(b := b.Meet(p.lo * n.lo, Min(PCM_BYTES / 4, p.hi * n.hi)))
      case 9 => this.(n := n.Meet((b.lo + p.hi - 1) / p.hi, b.hi / p.lo))
      case _ => this.(p := p.Meet((b.lo + n.hi - 1) / n.hi, b.hi / n.lo))
    }

    /** The first k rules of a pass; None once an interval is empty. */
    function Through(k: nat): (r: Option<Box>)
      requires Sound()
      ensures r.Some? ==> r.value.Sound()
    {
      if k == 0 then Some(this)
      else match Through(k - 1)
        case None => None
        case Some(x) => if x.Next(k - 1).Sound() then Some(x.Next(k - 1)) else None
    }
  }

  function Fixed(x: nat): Interval { Interval(x, x, false, false, true, false) }

  lemma MeetLimit(s: Span, lo: int, hi: int)
    requires s.Sound()
    ensures s.Meet(lo, hi).lo > 0
    ensures Limit(s.AsInterval(), lo, hi) ==
            if s.Meet(lo, hi).Sound() then Some(s.Meet(lo, hi).AsInterval()) else None
  {
  }

  /** A rule on a box is the rule on its parameters. */
  lemma NextIsRule(x: Box, rule: nat)
    requires x.Sound() && rule < RULES
    ensures Rule(x.AsParams(), rule) == if x.Next(rule).Sound() then Some(x.Next(rule).AsParams()) else None
  {
    hide Limit, Span.Meet;
    var v, y := x.AsParams(), x.Next(rule);
    var lo, hi := RuleLo(v, rule), RuleHi(v, rule);
    if rule == 0 || rule == 1 || rule == 10 {
      MeetLimit(x.p, lo, hi);
      assert y == x.(p := x.p.Meet(lo, hi));
      if y.Sound() { assert v[5 := y.p.AsInterval()] == y.AsParams(); }
    } else if rule == 2 {
      MeetLimit(x.pb, lo, hi);
      if y.Sound() { assert v[6 := y.pb.AsInterval()] == y.AsParams(); }
    } else if rule == 3 {
      MeetLimit(x.pt, lo, hi);
      if y.Sound() { assert v[4 := y.pt.AsInterval()] == y.AsParams(); }
    } else if rule == 4 || rule == 5 || rule == 8 {
      MeetLimit(x.b, lo, hi);
      assert y == x.(b := x.b.Meet(lo, hi));
      if y.Sound() { assert v[9 := y.b.AsInterval()] == y.AsParams(); }
    } else if rule == 6 {
      MeetLimit(x.bb, lo, hi);
      if y.Sound() { assert v[10 := y.bb.AsInterval()] == y.AsParams(); }
    } else if rule == 7 {
      MeetLimit(x.bt, lo, hi);
      if y.Sound() { assert v[8 := y.bt.AsInterval()] == y.AsParams(); }
    } else {
      MeetLimit(x.n, lo, hi);
      if y.Sound() { assert v[7 := y.n.AsInterval()] == y.AsParams(); }
    }
  }

  lemma {:induction false} ThroughIsPropagated(x: Box, k: nat)
    requires x.Sound() && k <= RULES
    ensures Propagated(x.AsParams(), k) == match x.Through(k) case None => None case Some(y) => Some(y.AsParams())
  {
    hide Rule, Box.Next;
    if k > 0 {
      ThroughIsPropagated(x, k - 1);
      if x.Through(k - 1).Some? { NextIsRule(x.Through(k - 1).value, k - 1); }
    }
  }

  /** Boxes that follow each other rule by rule. */
  lemma {:induction false} Follows(xs: seq<Box>, k: nat)
    requires k < |xs| && forall i :: 0 <= i < |xs| ==> xs[i].Sound()
    requires forall i :: 0 <= i < |xs| - 1 ==> xs[i].Next(i) == xs[i + 1]
    ensures xs[0].Through(k) == Some(xs[k])
  {
    hide Box.Next, Box.Sound;
    if k > 0 { Follows(xs, k - 1); }
  }

  // ----- one pass

  predicate Buffers(b: Span) { 96 <= b.lo <= b.hi <= PCM_BYTES / 4 }

  function TimesOf(s: Span): Span { Span(s.lo * 1000 / 48, (s.hi * 1000 + 47) / 48) }

  function BytesOf(s: Span): Span { Span(s.lo * 4, s.hi * 4) }

  /** Bytes and time of the buffer match its frames; bytes and time of the period are those
      of a, which lags behind its frames. */
  function Lag(a: Span, p: Span, n: Span, b: Span): Box {
    Box(TimesOf(a), p, BytesOf(a), n, TimesOf(b), b, BytesOf(b))
  }

  /** As Lag, with bytes and time of the buffer still open. */
  function Wide(a: Span, n: Span, bt: Span, bb: Span, b: Span): Box {
    Lag(a, a, n, b).(bt := bt, bb := bb)
  }

  /** Rules 0 to 7 change nothing but bytes and times, and rule 8 nothing. */
  predicate Steady(a: Span, p: Span, n: Span, b: Span) {
    && 48 <= a.lo <= p.lo <= p.hi <= a.hi && n.Sound() && Buffers(b)
    && p.lo * n.lo <= b.lo && b.hi <= p.hi * n.hi
  }

  /** What rule 9 leaves of the counts. */
  function Counts(p: Span, n: Span, b: Span): Span
    requires p.Sound()
  {
    n.Meet((b.lo + p.hi - 1) / p.hi, b.hi / p.lo)
  }

  /** What rule 10 leaves of the periods. */
  function Periods(p: Span, n: Span, b: Span): Span
    requires n.Sound()
  {
    p.Meet((b.lo + n.hi - 1) / n.hi, b.hi / n.lo)
  }

  /** Bounds converted to time and back do not cut the span. */
  lemma TimesCover(s: Span)
    requires s.Sound()
    ensures (TimesOf(s).lo * 48 + 999) / 1000 <= s.lo && s.hi <= TimesOf(s).hi * 48 / 1000
  {
  }

  lemma TimesOrder(a: Span, p: Span)
    requires a.lo <= p.lo && p.hi <= a.hi
    ensures TimesOf(a).lo <= TimesOf(p).lo && TimesOf(p).hi <= TimesOf(a).hi
  {
  }

  lemma MeetKeeps(s: Span, lo: int, hi: int)
    requires lo <= s.lo && s.hi <= hi
    ensures s.Meet(lo, hi) == s
  {
  }

  lemma MeetTakes(s: Span, t: Span)
    requires s.lo <= t.lo && t.hi <= s.hi
    ensures s.Meet(t.lo, t.hi) == t
  {
  }

  lemma LagSound(a: Span, p: Span, n: Span, b: Span)
    requires 48 <= a.lo <= a.hi && p.Sound() && n.Sound() && Buffers(b)
    ensures Lag(a, p, n, b).Sound()
  {
  }

  lemma PeriodCatchesUp(a: Span, p: Span, n: Span, b: Span)
    requires Steady(a, p, n, b)
    ensures Lag(a, p, n, b).Sound() && Lag(p, p, n, b).Sound()
    ensures var x := Lag(a, p, n, b);
            var y := x.(pb := BytesOf(p));
            && y.Sound() && x.Next(0) == x && x.Next(1) == x && x.Next(2) == y && y.Next(3) == Lag(p, p, n, b)
  {
    hide Span.Meet, TimesOf;
    LagSound(a, p, n, b);
    LagSound(p, p, n, b);
    TimesCover(a);
    TimesOrder(a, p);
    MeetKeeps(p, (a.lo * 4 + 3) / 4, a.hi * 4 / 4);
    MeetKeeps(p, (TimesOf(a).lo * 48 + 999) / 1000, TimesOf(a).hi * 48 / 1000);
    MeetTakes(BytesOf(a), BytesOf(p));
    PeriodTimes(a, p);
  }

  lemma PeriodTimes(a: Span, p: Span)
    requires a.lo <= p.lo && p.hi <= a.hi
    ensures TimesOf(a).Meet(p.lo * 1000 / 48, (p.hi * 1000 + 47) / 48) == TimesOf(p)
  {
    TimesOrder(a, p);
  }

  lemma BufferRests(p: Span, n: Span, b: Span)
    requires Steady(p, p, n, b)
    ensures var z := Lag(p, p, n, b);
            && z.Sound()
            && z.Next(4) == z && z.Next(5) == z && z.Next(6) == z && z.Next(7) == z && z.Next(8) == z
  {
    hide Span.Meet, TimesOf;
    LagSound(p, p, n, b);
    TimesCover(b);
    PeriodTimes(b, b);
    MeetKeeps(b, (b.lo * 4 + 3) / 4, b.hi * 4 / 4);
    MeetKeeps(b, (TimesOf(b).lo * 48 + 999) / 1000, TimesOf(b).hi * 48 / 1000);
    MeetTakes(BytesOf(b), BytesOf(b));
    MeetKeeps(b, p.lo * n.lo, Min(PCM_BYTES / 4, p.hi * n.hi));
  }

  /** A pass on a box whose period lags. */
  lemma LagPass(a: Span, p: Span, n: Span, b: Span)
    requires Steady(a, p, n, b) && Counts(p, n, b).Sound() && Periods(p, Counts(p, n, b), b).Sound()
    ensures Lag(a, p, n, b).Sound()
    ensures Lag(a, p, n, b).Through(RULES) == Some(Lag(p, Periods(p, Counts(p, n, b), b), Counts(p, n, b), b))
  {
    hide Box.Through, Box.Next, Box.Sound, Lag, BytesOf, Counts, Periods;
    var x, z := Lag(a, p, n, b), Lag(p, p, n, b);
    PeriodCatchesUp(a, p, n, b);
    BufferRests(p, n, b);
    JoinRules(p, n, b);
    var m := Counts(p, n, b);
    var xs := [x, x, x, x.(pb := BytesOf(p)), z, z, z, z, z, z, Lag(p, p, m, b), Lag(p, Periods(p, m, b), m, b)];
    Follows(xs, RULES);
  }

  lemma JoinRules(p: Span, n: Span, b: Span)
    requires Steady(p, p, n, b) && Counts(p, n, b).Sound() && Periods(p, Counts(p, n, b), b).Sound()
    ensures var m := Counts(p, n, b);
            var z, y, x := Lag(p, p, n, b), Lag(p, p, m, b), Lag(p, Periods(p, m, b), m, b);
            z.Sound() && y.Sound() && x.Sound() && z.Next(9) == y && y.Next(10) == x
  {
    hide Span.Meet, TimesOf, BytesOf;
    var m := Counts(p, n, b);
    LagSound(p, p, n, b);
    LagSound(p, p, m, b);
    LagSound(p, Periods(p, m, b), m, b);
  }

  /** A pass that finds no count. */
  lemma LagRefused(a: Span, p: Span, n: Span, b: Span)
    requires Steady(a, p, n, b) && !Counts(p, n, b).Sound()
    ensures Lag(a, p, n, b).Sound() && Lag(a, p, n, b).Through(RULES).None?
  {
    hide Box.Next, Box.Sound, Lag, BytesOf, Counts;
    var x, z := Lag(a, p, n, b), Lag(p, p, n, b);
    PeriodCatchesUp(a, p, n, b);
    BufferRests(p, n, b);
    var xs := [x, x, x, x.(pb := BytesOf(p)), z, z, z, z, z, z];
    Follows(xs, 9);
    NoCounts(p, n, b);
    assert x.Through(10).None?;
  }

  lemma NoCounts(p: Span, n: Span, b: Span)
    requires Steady(p, p, n, b) && !Counts(p, n, b).Sound()
    ensures Lag(p, p, n, b).Sound() && !Lag(p, p, n, b).Next(9).Sound()
  {
    hide Span.Meet, TimesOf, BytesOf;
    LagSound(p, p, n, b);
  }

  /** Bytes and time of the buffer, with room around its frames. */
  predicate Open(bt: Span, bb: Span, b: Span) {
    && 0 < bt.lo <= TimesOf(b).lo && TimesOf(b).hi <= bt.hi
    && 0 < bb.lo <= BytesOf(b).lo && BytesOf(b).hi <= bb.hi
  }

  lemma WideNarrows(a: Span, n: Span, bt: Span, bb: Span, b: Span)
    requires Steady(a, a, n, b) && Open(bt, bb, b)
    ensures Wide(a, n, bt, bb, b).Sound()
    ensures var x := Wide(a, n, bt, bb, b);
            var y := x.(bb := BytesOf(b));
            && x.Next(0) == x && x.Next(1) == x && x.Next(2) == x && x.Next(3) == x && x.Next(4) == x && x.Next(5) == x
            && y.Sound() && x.Next(6) == y && y.Next(7) == Lag(a, a, n, b)
  {
    hide Span.Meet, TimesOf;
    LagSound(a, a, n, b);
    PeriodCatchesUp(a, a, n, b);
    TimesCover(b);
    MeetKeeps(b, (bb.lo + 3) / 4, bb.hi / 4);
    MeetKeeps(b, (bt.lo * 48 + 999) / 1000, bt.hi * 48 / 1000);
    MeetTakes(bb, BytesOf(b));
    BufferTimes(bt, b);
  }

  lemma BufferTimes(bt: Span, b: Span)
    requires bt.lo <= TimesOf(b).lo && TimesOf(b).hi <= bt.hi
    ensures bt.Meet(b.lo * 1000 / 48, (b.hi * 1000 + 47) / 48) == TimesOf(b)
  {
  }

  /** The first pass. */
  lemma WidePass(a: Span, n: Span, bt: Span, bb: Span, b: Span)
    requires Steady(a, a, n, b) && Open(bt, bb, b)
    requires Counts(a, n, b).Sound() && Periods(a, Counts(a, n, b), b).Sound()
    ensures Wide(a, n, bt, bb, b).Sound()
    ensures Wide(a, n, bt, bb, b).Through(RULES) == Some(Lag(a, Periods(a, Counts(a, n, b), b), Counts(a, n, b), b))
  {
    hide Box.Through, Box.Next, Box.Sound, Lag, BytesOf, Counts, Periods, Wide;
    var x, z := Wide(a, n, bt, bb, b), Lag(a, a, n, b);
    WideNarrows(a, n, bt, bb, b);
    BufferRests(a, n, b);
    JoinRules(a, n, b);
    var m := Counts(a, n, b);
    var xs := [x, x, x, x, x, x, x, x.(bb := BytesOf(b)), z, z, Lag(a, a, m, b), Lag(a, Periods(a, m, b), m, b)];
    Follows(xs, RULES);
  }

  // ----- pass after pass

  const ALL_COUNTS := Span(2, 1024)

  /** The limits everywhere, except that the counts are n and the buffers b. */
  function Request(n: Span, b: Span): Box {
    Wide(Span(48, 48000), n, Span(2000, 1_365_334), Span(384, 262_144), b)
  }

  predicate Requestable(n: Span, b: Span) { 2 <= n.lo <= n.hi <= 1024 && Buffers(b) }

  lemma RequestSound(n: Span, b: Span)
    requires Requestable(n, b)
    ensures Request(n, b).Sound()
  {
  }

  /** The limits change nothing. */
  lemma RequestTabled(n: Span, b: Span)
    requires Requestable(n, b)
    ensures Request(n, b).Sound() && Tabled(Request(n, b).AsParams(), COUNT) == Some(Request(n, b).AsParams())
  {
    var v := Request(n, b).AsParams();
    forall j: nat | j < COUNT
      ensures Limit(v[j], Low(j), High(j)) == Some(v[j])
    {
    }
    TabledNothing(v, COUNT);
  }

  lemma {:induction false} TabledNothing(v: Params, k: nat)
    requires |v| == COUNT && k <= COUNT && forall j: nat :: j < COUNT ==> Limit(v[j], Low(j), High(j)) == Some(v[j])
    ensures Tabled(v, k) == Some(v)
  {
    hide Limit, Low, High;
    if k > 0 {
      TabledNothing(v, k - 1);
      assert v[k - 1 := v[k - 1]] == v;
    }
  }

  /** After j passes the box is x. */
  ghost predicate Reaches(start: Box, j: nat, x: Box) {
    start.Sound() && x.Sound() && Propagated(start.AsParams(), RULES * j) == Some(x.AsParams())
  }

  lemma FirstPass(n: Span, b: Span, p: Span, m: Span)
    requires Requestable(n, b) && Steady(Span(48, 48000), Span(48, 48000), n, b)
    requires m == Counts(Span(48, 48000), n, b) && m.Sound() && p == Periods(Span(48, 48000), m, b) && p.Sound()
    ensures Reaches(Request(n, b), 1, Lag(Span(48, 48000), p, m, b))
  {
    hide Box.AsParams, Box.Through, Propagated, Lag, Wide, Steady, Counts, Periods;
    RequestOpen(b);
    WidePass(Span(48, 48000), n, Span(2000, 1_365_334), Span(384, 262_144), b);
    ThroughIsPropagated(Request(n, b), RULES);
  }

  lemma RequestOpen(b: Span)
    requires Buffers(b)
    ensures Open(Span(2000, 1_365_334), Span(384, 262_144), b)
  {
  }

  lemma Follow(start: Box, j: nat, a: Span, p: Span, n: Span, b: Span, q: Span, m: Span)
    requires Reaches(start, j, Lag(a, p, n, b)) && Steady(a, p, n, b)
    requires m == Counts(p, n, b) && m.Sound() && q == Periods(p, m, b) && q.Sound()
    ensures Reaches(start, j + 1, Lag(p, q, m, b))
  {
    hide Box.AsParams, Box.Through, Propagated, Lag, Steady, Counts, Periods;
    var x := Lag(a, p, n, b);
    LagPass(a, p, n, b);
    ThroughIsPropagated(x, RULES);
    PassAfter(start.AsParams(), j, x.AsParams(), RULES);
  }

  /** m is what b leaves of the other factor: from b.lo / p.hi, rounded up, to b.hi / p.lo. */
  predicate Quotients(p: Span, b: Span, m: Span) {
    (m.lo - 1) * p.hi < b.lo <= m.lo * p.hi && m.hi * p.lo <= b.hi < (m.hi + 1) * p.lo
  }

  lemma QuotientsTaken(s: Span, p: Span, b: Span, m: Span)
    requires p.Sound() && Quotients(p, b, m) && s.lo <= m.lo && m.hi <= s.hi
    ensures s.Meet((b.lo + p.hi - 1) / p.hi, b.hi / p.lo) == m
  {
    hide Span.Meet;
    Modular.Unique(b.lo + p.hi - 1, p.hi, m.lo, b.lo + p.hi - 1 - m.lo * p.hi);
    Modular.Unique(b.hi, p.lo, m.hi, b.hi - m.hi * p.lo);
    MeetTakes(s, m);
  }

  /** As Follow, where the quotients are sharp. */
  lemma Narrow(start: Box, j: nat, a: Span, p: Span, n: Span, b: Span, q: Span, m: Span)
    requires Reaches(start, j, Lag(a, p, n, b)) && Steady(a, p, n, b)
    requires Quotients(p, b, m) && 0 < n.lo <= m.lo <= m.hi <= n.hi
    requires Quotients(m, b, q) && p.lo <= q.lo <= q.hi <= p.hi
    ensures Reaches(start, j + 1, Lag(p, q, m, b))
  {
    hide Reaches, Lag, Quotients, Span.Meet;
    QuotientsTaken(n, p, b, m);
    QuotientsTaken(p, m, b, q);
    Follow(start, j, a, p, n, b, q, m);
  }

  /** Eight passes are the refinement. */
  lemma Refined(n: Span, b: Span, x: Box)
    requires Requestable(n, b) && Reaches(Request(n, b), PASSES, x)
    ensures RefineIntervals(Request(n, b).AsParams()) == Some(x.AsParams())
  {
    hide Box.AsParams, Propagated, Request, Tabled;
    RequestTabled(n, b);
  }
}
