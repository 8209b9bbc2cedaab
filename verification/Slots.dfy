/** The two-level bitmap slot allocator (src/lib/slots.h). */
module Slots {
  import opened Bits
  import opened Wrappers

  const WORDS: nat := 64

  predicate IsWord(w: nat) { w < Pow2(64) }

  /** Bit r is the lowest one set. */
  ghost predicate Lowest(w: nat, r: nat) {
    Has(w, r) && forall j: nat :: j < r ==> !Has(w, j)
  }

  /** __builtin_ctz */
  function CountTrailing(w: nat): (r: nat)
    requires w > 0
    ensures Lowest(w, r)
  {
    if w % 2 == 1 then 0 else
      var k := CountTrailing(w / 2);
      LowestOfHalf(w, k);
      k + 1
  }

  lemma LowestOfHalf(w: nat, k: nat)
    requires w % 2 == 0 && Lowest(w / 2, k)
    ensures Lowest(w, k + 1)
  {
    forall j: nat | j < k + 1
      ensures !Has(w, j)
    {
      if j > 0 { assert !Has(w / 2, j - 1); }
    }
  }

  /** slot_ctz64: two 32-bit scans find the lowest set bit of a 64-bit word. */
  function LowestSet(value: nat): (r: nat)
    requires value > 0 && IsWord(value)
    ensures r < 64 && Lowest(value, r)
  {
    var low, high := Low(value, 32), Shr(value, 32);
    Halves(value, 32);
    if low != 0 then
      LowScan(value, CountTrailing(low));
      CountTrailing(low)
    else
      HighScan(value, CountTrailing(high));
      32 + CountTrailing(high)
  }

  lemma Halves(value: nat, n: nat)
    requires value > 0
    ensures Low(value, n) > 0 || Shr(value, n) > 0
  {
    LowShr(value, n);
  }

  lemma LowScan(value: nat, r: nat)
    requires Lowest(Low(value, 32), r)
    ensures r < 32 && Lowest(value, r)
  {
    LowHas(value, 32, r);
    forall j: nat | j < r
      ensures !Has(value, j)
    {
      LowHas(value, 32, j);
    }
  }

  lemma HighScan(value: nat, k: nat)
    requires IsWord(value) && Low(value, 32) == 0 && Lowest(Shr(value, 32), k)
    ensures 32 + k < 64 && Lowest(value, 32 + k)
  {
    hide Low, Shr, Pow2;
    ShrHas(value, 32, k);
    if 64 <= 32 + k { HighBitsClear(value, 64, 32 + k); }
    forall j: nat | j < 32 + k
      ensures !Has(value, j)
    {
      if j < 32 { LowHas(value, 32, j); ZeroHasNone(j); } else { ShrHas(value, 32, j - 32); }
    }
  }

  // ----- what the words say

  predicate IsFree(cap: nat, held: set<nat>, slot: nat) { slot < cap && slot !in held }

  /** Word w of the lower level: bit b is set exactly when slot 64 * w + b is free. */
  ghost predicate WordOk(word: nat, w: nat, cap: nat, held: set<nat>) {
    IsWord(word) && forall b: nat :: b < 64 ==> (Has(word, b) <==> IsFree(cap, held, 64 * w + b))
  }

  ghost predicate Lower(free: seq<nat>, cap: nat, held: set<nat>) {
    |free| == WORDS && forall w: nat :: w < WORDS ==> WordOk(free[w], w, cap, held)
  }

  /** The summary: bit w says that word w is not zero. */
  ghost predicate Summary(free: seq<nat>, available: nat) {
    |free| == WORDS && IsWord(available) && forall w: nat :: w < WORDS ==> (Has(available, w) <==> free[w] != 0)
  }

  lemma ZeroWord(w: nat, cap: nat, held: set<nat>, b: nat)
    requires WordOk(0, w, cap, held) && b < 64
    ensures !IsFree(cap, held, 64 * w + b)
  {
    ZeroHasNone(b);
  }

  /** No word, no free slot. */
  lemma NoneFree(free: seq<nat>, available: nat, cap: nat, held: set<nat>, slot: nat)
    requires Lower(free, cap, held) && Summary(free, available) && cap <= 4096 && available == 0
    ensures !IsFree(cap, held, slot)
  {
    if slot < cap {
      var w, b := slot / 64, slot % 64;
      ZeroHasNone(w);
      assert free[w] == 0 && WordOk(free[w], w, cap, held);
      ZeroWord(w, cap, held, b);
      assert slot == 64 * w + b;
    }
  }

  /** The two scans find the smallest free slot. */
  lemma ScanFindsSmallest(free: seq<nat>, available: nat, cap: nat, held: set<nat>)
    requires Lower(free, cap, held) && Summary(free, available) && available != 0
    ensures var w := LowestSet(available);
            w < WORDS && free[w] > 0 && IsWord(free[w])
            && var slot := w * 64 + LowestSet(free[w]);
               IsFree(cap, held, slot) && forall s: nat :: s < slot ==> !IsFree(cap, held, s)
  {
    hide LowestSet, Has, IsWord, IsFree;
    var w := LowestSet(available);
    assert WordOk(free[w], w, cap, held);
    var bit := LowestSet(free[w]);
    forall s: nat | s < w * 64 + bit
      ensures !IsFree(cap, held, s)
    {
      var v, b := s / 64, s % 64;
      assert s == 64 * v + b;
      assert WordOk(free[v], v, cap, held);
      if v < w {
        assert !Has(available, v);
        ZeroWord(v, cap, held, b);
      } else {
        assert !Has(free[w], b);
      }
    }
  }

  lemma SmallestAnswers(cap: nat, held: set<nat>, slot: nat)
    requires IsFree(cap, held, slot) && forall s: nat :: s < slot ==> !IsFree(cap, held, s)
    ensures Answers(Pool(cap, held), cap, Some(slot))
  {
    forall s: nat | s < slot
      ensures s in held
    {
      assert !IsFree(cap, held, s);
    }
  }

  /** Clearing the bit of a slot in its word, and leaving the other words. */
  lemma TakeBit(free: seq<nat>, cap: nat, held: set<nat>, w: nat, bit: nat)
    requires Lower(free, cap, held) && w < WORDS && bit < 64
    ensures Lower(free[w := AndNot(free[w], Pow2(bit))], cap, held + {w * 64 + bit})
  {
    var word := AndNot(free[w], Pow2(bit));
    var held' := held + {w * 64 + bit};
    assert WordOk(free[w], w, cap, held);
    AndNotBounded(free[w], Pow2(bit));
    forall b: nat | b < 64
      ensures Has(word, b) <==> IsFree(cap, held', 64 * w + b)
    {
      AndNotHas(free[w], Pow2(bit), b);
      Pow2Has(bit, b);
    }
    forall v: nat | v < WORDS && v != w
      ensures WordOk(free[v], v, cap, held')
    {
      assert WordOk(free[v], v, cap, held);
    }
  }

  lemma ReturnBit(free: seq<nat>, cap: nat, held: set<nat>, w: nat, bit: nat)
    requires Lower(free, cap, held) && w < WORDS && bit < 64 && 64 * w + bit < cap
    ensures Lower(free[w := Or(free[w], Pow2(bit))], cap, held - {64 * w + bit}) && Or(free[w], Pow2(bit)) != 0
  {
    var word := Or(free[w], Pow2(bit));
    var held' := held - {64 * w + bit};
    assert WordOk(free[w], w, cap, held);
    Pow2Monotone(bit, 64);
    OrBounded(free[w], Pow2(bit), 64);
    forall b: nat | b < 64
      ensures Has(word, b) <==> IsFree(cap, held', 64 * w + b)
    {
      OrHas(free[w], Pow2(bit), b);
      Pow2Has(bit, b);
    }
    OrHas(free[w], Pow2(bit), bit);
    Pow2Has(bit, bit);
    ZeroHasNone(bit);
    forall v: nat | v < WORDS && v != w
      ensures WordOk(free[v], v, cap, held')
    {
      assert WordOk(free[v], v, cap, held);
    }
  }

  /** Setting or clearing one summary bit to follow its word. */
  lemma SummaryFollows(free: seq<nat>, available: nat, w: nat, word: nat)
    requires Summary(free, available) && w < WORDS
    ensures word != 0 ==> Summary(free[w := word], Or(available, Pow2(w)))
    ensures word == 0 ==> Summary(free[w := word], AndNot(available, Pow2(w)))
    ensures Has(available, w) && word != 0 ==> Summary(free[w := word], available)
  {
    hide Has, Or, AndNot, Pow2;
    Pow2Monotone(w, 64);
    OrBounded(available, Pow2(w), 64);
    AndNotBounded(available, Pow2(w));
    forall v: nat | v < WORDS
      ensures Has(Or(available, Pow2(w)), v) <==> Has(available, v) || v == w
      ensures Has(AndNot(available, Pow2(w)), v) <==> Has(available, v) && v != w
    {
      OrHas(available, Pow2(w), v);
      AndNotHas(available, Pow2(w), v);
      Pow2Has(w, v);
    }
  }

  /** A pool whose slots are below cap is exhausted exactly when cap slots are held. */
  lemma {:induction false} ExhaustedIff(cap: nat, held: set<nat>)
    requires forall s :: s in held ==> s < cap
    ensures (forall s: nat :: s < cap ==> s in held) <==> |held| == cap
    ensures |held| <= cap
    decreases cap
  {
    if cap == 0 {
      assert held == {};
    } else {
      var last := cap - 1;
      var rest := held - {last};
      ExhaustedIff(last, rest);
      if last in held {
        assert |rest| == |held| - 1;
        assert forall s: nat :: s < last ==> (s in rest <==> s in held);
      } else {
        assert rest == held;
      }
    }
  }

  // ----- runs

  /** What a pool means: its capacity (0 until the first take) and the slots held. */
  datatype Pool = Pool(cap: nat, held: set<nat>)

  /** A take with its answer (None for -1), or the return of a slot. */
  datatype Step = Take(capacity: nat, answer: Option<nat>) | Return(slot: nat)

  /** The capacity a take works with: the first one passed. */
  function Settled(p: Pool, capacity: nat): nat { if p.cap == 0 then capacity else p.cap }

  /** The answer is the smallest free slot, or None when every slot is held. */
  ghost predicate Answers(p: Pool, capacity: nat, answer: Option<nat>) {
    match answer
    case None => forall s: nat :: s < Settled(p, capacity) ==> s in p.held
    case Some(slot) => IsFree(Settled(p, capacity), p.held, slot) && forall s: nat :: s < slot ==> s in p.held
  }

  /** A step the allocator and its callers can make; a return is of a held slot. */
  ghost predicate Enabled(p: Pool, step: Step) {
    match step
    case Take(capacity, answer) => Answers(p, capacity, answer)
    case Return(slot) => slot in p.held
  }

  function Apply(p: Pool, step: Step): Pool {
    match step
    case Take(capacity, answer) =>
      Pool(Settled(p, capacity), if answer.Some? then p.held + {answer.value} else p.held)
    case Return(slot) => p.(held := p.held - {slot})
  }

  ghost predicate Runs(p: Pool, steps: seq<Step>, q: Pool)
    decreases |steps|
  {
    if steps == [] then p == q
    else
      var init, last := steps[..|steps| - 1], steps[|steps| - 1];
      exists m :: Runs(p, init, m) && Enabled(m, last) && q == Apply(m, last)
  }

  predicate Takes(step: Step, slot: nat) { step.Take? && step.answer == Some(slot) }

  /** Position i of the run gave out the slot and no later one returned it. */
  ghost predicate OpenTake(steps: seq<Step>, i: int, slot: nat) {
    0 <= i < |steps| && Takes(steps[i], slot) && forall k :: i < k < |steps| ==> steps[k] != Return(slot)
  }

  /** A slot given out and not returned since is held. */
  lemma {:induction false} OpenTakeHeld(steps: seq<Step>, q: Pool, i: nat, slot: nat)
    requires Runs(Pool(0, {}), steps, q) && OpenTake(steps, i, slot)
    ensures slot in q.held
    decreases |steps|
  {
    var last := |steps| - 1;
    var m :| Runs(Pool(0, {}), steps[..last], m) && Enabled(m, steps[last]) && q == Apply(m, steps[last]);
    if i < last {
      assert OpenTake(steps[..last], i, slot);
      OpenTakeHeld(steps[..last], m, i, slot);
    }
  }

  /** No slot is given out twice without a return in between, in any run. */
  lemma GivenOutOnce(steps: seq<Step>, q: Pool, i: nat, j: nat, slot: nat)
    requires Runs(Pool(0, {}), steps, q) && i < j < |steps| && Takes(steps[i], slot) && Takes(steps[j], slot)
    ensures exists k :: i < k < j && steps[k] == Return(slot)
  {
    var m := Before(steps, q, j);
    if forall k :: i < k < j ==> steps[k] != Return(slot) {
      assert OpenTake(steps[..j], i, slot);
      OpenTakeHeld(steps[..j], m, i, slot);
      assert false;
    }
  }

  /** The state before step j of a run. */
  lemma {:induction false} Before(steps: seq<Step>, q: Pool, j: nat) returns (m: Pool)
    requires Runs(Pool(0, {}), steps, q) && j < |steps|
    ensures Runs(Pool(0, {}), steps[..j], m) && Enabled(m, steps[j])
    decreases |steps|
  {
    var last := |steps| - 1;
    m :| Runs(Pool(0, {}), steps[..last], m) && Enabled(m, steps[last]) && q == Apply(m, steps[last]);
    if j < last {
      m := Before(steps[..last], m, j);
      assert steps[..last][..j] == steps[..j];
    }
  }

  /** In any run the slots held lie below the capacity, so at most that many are held. */
  lemma {:induction false} HeldBelowCapacity(steps: seq<Step>, q: Pool)
    requires Runs(Pool(0, {}), steps, q)
    ensures (forall s :: s in q.held ==> s < q.cap) && |q.held| <= q.cap
    decreases |steps|
  {
    if steps != [] {
      var last := |steps| - 1;
      var m :| Runs(Pool(0, {}), steps[..last], m) && Enabled(m, steps[last]) && q == Apply(m, steps[last]);
      HeldBelowCapacity(steps[..last], m);
    }
    ExhaustedIff(q.cap, q.held);
  }

  lemma RunsExtend(steps: seq<Step>, q: Pool, step: Step)
    requires Runs(Pool(0, {}), steps, q) && Enabled(q, step)
    ensures Runs(Pool(0, {}), steps + [step], Apply(q, step))
  {
    assert (steps + [step])[..|steps|] == steps;
  }

  // ----- the pool

  /** Filling word i extends the free slots from 64 * i up to the next word or the capacity. */
  lemma FillWord(free: seq<nat>, cap: nat, i: nat)
    requires i < WORDS && 64 * i < cap && Lower(free, 64 * i, {})
    ensures var bits := cap - i * 64;
            var word := Pow2(if bits >= 64 then 64 else bits) - 1;
            word > 0 && Lower(free[i := word], Clamp(cap, 64 * (i + 1)), {})
  {
    hide Has, Pow2;
    var bits := cap - i * 64;
    var ones := if bits >= 64 then 64 else bits;
    var word := Pow2(ones) - 1;
    Pow2Monotone(0, ones);
    assert Pow2(0) == 1 by { PowZero(); }
    if ones < 64 { Pow2Monotone(ones, 64); }
    var cap' := Clamp(cap, 64 * (i + 1));
    forall b: nat | b < 64
      ensures Has(word, b) <==> IsFree(cap', {}, 64 * i + b)
    {
      OnesHas(ones, b);
    }
    forall v: nat | v < WORDS && v != i
      ensures WordOk(free[v], v, cap', {})
    {
      assert WordOk(free[v], v, 64 * i, {});
    }
  }

  lemma PowZero()
    ensures Pow2(0) == 1
  {
  }

  function Clamp(a: nat, limit: nat): nat { if a > limit then limit else a }

  lemma EmptyWord(w: nat)
    ensures WordOk(0, w, 0, {})
  {
    forall b: nat | b < 64
      ensures !Has(0, b)
    {
      ZeroHasNone(b);
    }
  }

  lemma EmptyRun()
    ensures Runs(Pool(0, {}), [], Pool(0, {}))
  {
  }

  lemma AnswersSettled(p: Pool, cap: nat, r: Option<nat>)
    requires Answers(Pool(Settled(p, cap), p.held), Settled(p, cap), r)
    ensures Answers(p, cap, r)
  {
  }

  class SlotPool {
    const free: array<nat>
    var available: nat
    var capacity: nat
    ghost var held: set<nat>
    ghost var trace: seq<Step>

    ghost function View(): Pool
      reads this
    {
      Pool(capacity, held)
    }

    ghost predicate Valid()
      reads this, free
    {
      && free.Length == WORDS && capacity <= 4096
      && Lower(free[..], capacity, held) && Summary(free[..], available)
      && Runs(Pool(0, {}), trace, View())
    }

    /** A zeroed pool. */
    constructor ()
      ensures Valid() && fresh(free) && View() == Pool(0, {})
    {
      free := new nat[WORDS](i => 0);
      available, capacity := 0, 0;
      held, trace := {}, [];
      new;
      hide Has, Runs;
      assert Runs(Pool(0, {}), [], Pool(0, {})) by { EmptyRun(); }
      forall w: nat | w < WORDS
        ensures WordOk(free[..][w], w, 0, {}) && !Has(0, w)
      {
        ZeroHasNone(w);
        EmptyWord(w);
      }
    }

    /** The lazy initialisation in slot_take. */
    method Fill(cap: nat)
      requires free.Length == WORDS && Lower(free[..], 0, {}) && Summary(free[..], available) && 0 < cap <= 4096
      modifies free, this`available, this`capacity
      ensures capacity == cap && Lower(free[..], cap, {}) && Summary(free[..], available)
    {
      hide Lower, Summary, Or, Pow2;
      capacity := cap;
      var i := 0;
      while i < (cap + 63) / 64
        invariant i <= (cap + 63) / 64 && capacity == cap
        invariant Lower(free[..], Clamp(cap, 64 * i), {}) && Summary(free[..], available)
      {
        var bits := cap - i * 64;
        ghost var before := free[..];
        FillWord(before, cap, i);
        free[i] := Pow2(if bits >= 64 then 64 else bits) - 1;
        SummaryFollows(before, available, i, free[i]);
        available := Or(available, Pow2(i));
        assert free[..] == before[i := free[i]];
        i := i + 1;
      }
      assert Clamp(cap, 64 * i) == cap;
    }

    /** The part of slot_take after the initialisation. */
    method TakeSmallest() returns (r: Option<nat>)
      requires free.Length == WORDS && capacity <= 4096
      requires Lower(free[..], capacity, held) && Summary(free[..], available)
      modifies free, this`available, this`held
      ensures Answers(Pool(capacity, old(held)), capacity, r)
      ensures held == if r.Some? then old(held) + {r.value} else old(held)
      ensures Lower(free[..], capacity, held) && Summary(free[..], available)
    {
      hide Lower, WordOk, AndNot, Pow2, Has, Lowest, LowestSet;
      ghost var before := free[..];
      assert IsWord(available);
      if available == 0 {
        r := None;
        forall s: nat | s < capacity
          ensures s in held
        {
          NoneFree(before, available, capacity, held, s);
        }
      } else {
        ScanFindsSmallest(before, available, capacity, held);
        var word := LowestSet(available);
        var bit := LowestSet(free[word]);
        r := Some(word * 64 + bit);
        SmallestAnswers(capacity, held, r.value);
        TakeBit(before, capacity, held, word, bit);
        SummaryFollows(before, available, word, AndNot(free[word], Pow2(bit)));
        free[word] := AndNot(free[word], Pow2(bit));
        assert free[..] == before[word := free[word]];
        if free[word] == 0 {
          available := AndNot(available, Pow2(word));
        }
        held := held + {r.value};
      }
    }

    /** slot_take; -1 as None.  The answer is the one the run machine allows: the smallest
        free slot, or none exactly when all are held. */
    method TakeSlot(cap: nat) returns (r: Option<nat>)
      requires Valid() && cap <= 4096
      modifies this, free
      ensures Valid() && Answers(old(View()), cap, r) && View() == Apply(old(View()), Take(cap, r))
      ensures trace == old(trace) + [Take(cap, r)]
    {
      hide Lower, Summary, Runs, Answers;
      ghost var p := View();
      HeldBelowCapacity(trace, p);
      if capacity == 0 && cap > 0 {
        assert held == {};
        Fill(cap);
      }
      assert capacity == Settled(p, cap);
      r := TakeSmallest();
      AnswersSettled(p, cap, r);
      RunsExtend(trace, p, Take(cap, r));
      trace := trace + [Take(cap, r)];
    }

    /** slot_return of a held slot */
    method ReturnSlot(slot: nat)
      requires Valid() && slot in held
      modifies this, free
      ensures Valid() && View() == Apply(old(View()), Return(slot)) && trace == old(trace) + [Return(slot)]
    {
      hide Lower, Summary, Or, Pow2, Has, Runs;
      ghost var p, before := View(), free[..];
      HeldBelowCapacity(trace, p);
      var w, bit := slot / 64, slot % 64;
      ReturnBit(before, capacity, held, w, bit);
      SummaryFollows(before, available, w, Or(free[w], Pow2(bit)));
      free[w] := Or(free[w], Pow2(bit));
      assert free[..] == before[w := free[w]];
      available := Or(available, Pow2(w));
      held := held - {slot};
      RunsExtend(trace, p, Return(slot));
      trace := trace + [Return(slot)];
    }
  }
}
