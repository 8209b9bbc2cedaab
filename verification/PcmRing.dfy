/** The playback ring of the ALSA device (src/driver/audio/alsa.c).

    The application appends frames to a ring of `frames` slots, a worker hands them
    to the audio backend, and the backend reports how much is still unplayed.  The
    application pointer and the hardware pointer are kept modulo a boundary, the
    ring offset is that pointer modulo `frames`.

    `Pcm` is one state of the stream with its history: `written` is every frame
    position the application has queued since PREPARE, `accepted` is what the
    backend took.  The claim is that the whole machinery is a plain FIFO. */
module PcmRing {
  import Modular

  const BURST := 1536              // frames in the transfer buffer
  const PACKET := 48               // frames in one USB packet
  const CAPACITY := 65536          // frames of ring memory

  type Frame = int

  datatype State = Open | Setup | Prepared | Running | Xrun | Draining | Disconnected

  /** What the backend answers to the delay query of pcm_update. */
  datatype Reading = Lost | Delay(bytes: int)

  /** What the backend answers to a write or a drain request. */
  datatype Reply = Took(frames: nat) | Again | NoDevice | Failed

  /** `word` is the range of unsigned long: 32 bits on i386, 64 on x64. */
  datatype Pcm = Pcm(
    word: nat, frames: nat, boundary: nat, startThreshold: nat, stopThreshold: nat,
    data: seq<Frame>, appl: nat, hw: nat, submitted: nat, completed: nat, state: State,
    written: seq<Frame>, accepted: seq<Frame>)

  datatype Step =
    | Update(reading: Reading)
    | Write(reading: Reading, rest: seq<Frame>)
    | Work(first: Reading, reply: Reply, last: Reading)
    | Rewind(n: nat)
    | Forward(n: nat)
    | Prepare
    | Enter(state: State)

  function Min(a: nat, b: nat): nat { if a < b then a else b }

  predicate IsWord(word: nat) { word == 0x1_0000_0000 || word == 0x1_0000_0000_0000_0000 }

  /** Result of an unsigned long operation. */
  function UL(word: nat, x: int): (r: nat)
    requires word > 0
    ensures 0 <= x < word ==> r == x
  {
    x % word
  }

  /** The ring configurations: any boundary that HW_PARAMS chooses or SW_PARAMS accepts. */
  predicate Configured(p: Pcm) {
    && IsWord(p.word) && 0 < p.frames <= |p.data| && p.frames <= CAPACITY
    && p.frames <= p.boundary < p.word && p.boundary % p.frames == 0
  }

  // ----- pointer arithmetic

  /** pcm_distance */
  function Distance(boundary: nat, a: nat, b: nat): int {
    if a >= b then a - b else boundary - b + a
  }

  /** pcm_advance */
  function Advance(word: nat, boundary: nat, ptr: nat, n: nat): nat
    requires word > 0 && boundary > 0
  {
    UL(word, ptr + n) % boundary
  }

  lemma DistanceExact(boundary: nat, w: nat, c: nat)
    requires boundary > 0 && c <= w < c + boundary
    ensures Distance(boundary, w % boundary, c % boundary) == w - c
  {
    var r := c % boundary + (w - c);
    Modular.AddInner(c, w - c, boundary);
    if r < boundary {
      Modular.Unique(r, boundary, 0, r);
    } else {
      Modular.Unique(r, boundary, 1, r - boundary);
    }
  }

  /** The pointers of a ring filled to level d above c give back d. */
  predicate Recovers(boundary: nat, c: nat, d: nat)
    requires boundary > 0
  {
    Distance(boundary, (c + d) % boundary, c % boundary) == d
  }

  /** The pointer distance recovers every fill level of the ring exactly when the boundary
      exceeds the ring.  SW_PARAMS also accepts boundary == frames; a full ring then
      reads as empty (see FullRingOverwritten). */
  lemma DistanceExactIff(boundary: nat, frames: nat)
    requires 0 < frames <= boundary
    ensures (forall c: nat, d: nat :: d <= frames ==> Recovers(boundary, c, d)) <==> frames < boundary
  {
    if frames < boundary {
      forall c: nat, d: nat | d <= frames
        ensures Recovers(boundary, c, d)
      {
        DistanceExact(boundary, c + d, c);
      }
    } else {
      Modular.Unique(boundary, boundary, 1, 0);
      Modular.Unique(0, boundary, 0, 0);
      assert !Recovers(boundary, 0, frames);
    }
  }

  /** The sum of pcm_advance does not leave the word, or leaving it does no harm. */
  predicate Fits(word: nat, boundary: nat, ptr: nat, n: nat)
    requires boundary > 0
  {
    ptr + n < word || word % boundary == 0
  }

  /** Advancing a pointer agrees with unbounded arithmetic exactly when the sum fits the
      word or the boundary divides the word's range. */
  lemma AdvanceExactIff(word: nat, boundary: nat, ptr: nat, n: nat)
    requires 0 < boundary < word && ptr < word && n < word
    ensures Advance(word, boundary, ptr, n) == (ptr + n) % boundary <==> Fits(word, boundary, ptr, n)
  {
    var x := ptr + n;
    if x >= word {
      var y := x - word;
      Modular.Unique(x, word, 1, y);
      var k := x / boundary - y / boundary;
      if y % boundary == x % boundary {
        assert word == k * boundary;
        Modular.Unique(word, boundary, k, 0);
      }
      if word % boundary == 0 {
        var m := word / boundary;
        assert x == y + m * boundary;
        Modular.AddMultiple(y, m, boundary);
      }
    }
  }

  /** The same for a pointer that stands for stream position w. */
  lemma AdvancePosition(word: nat, boundary: nat, w: nat, n: nat)
    requires 0 < boundary < word && n < word
    ensures Advance(word, boundary, w % boundary, n) == (w + n) % boundary <==> Fits(word, boundary, w % boundary, n)
  {
    hide Advance;
    AdvanceExactIff(word, boundary, w % boundary, n);
    Modular.AddInner(w, n, boundary);
  }

  /** Moving back by n is advancing by boundary - n, exactly when that sum fits. */
  lemma RetreatExactIff(word: nat, boundary: nat, w: nat, n: nat)
    requires 0 < boundary < word && n <= boundary && n <= w
    ensures Advance(word, boundary, w % boundary, boundary - n) == (w - n) % boundary <==>
            Fits(word, boundary, w % boundary, boundary - n)
  {
    hide Advance, Fits;
    AdvancePosition(word, boundary, w, boundary - n);
    Modular.AddMultiple(w - n, 1, boundary);
    assert w + (boundary - n) == w - n + 1 * boundary;
  }

  /** A write stops at the end of the ring, so its sum always fits: the boundary is a
      multiple of the ring. */
  lemma WithinRingFits(boundary: nat, frames: nat, ptr: nat, n: nat)
    requires 0 < frames && 0 < boundary && boundary % frames == 0 && ptr < boundary && n <= frames - ptr % frames
    ensures ptr + n <= boundary
  {
    var k, m := boundary / frames, ptr / frames;
    assert boundary == k * frames && ptr == m * frames + ptr % frames;
    if k <= m {
      Scaled(k, m, frames);
      assert false;
    }
    Scaled(m + 1, k, frames);
    assert (m + 1) * frames == m * frames + frames;
  }

  lemma Scaled(a: int, b: int, f: nat)
    requires a <= b
    ensures a * f <= b * f
  {
  }

  // ----- the steps

  /** pcm_available */
  function Available(p: Pcm): nat {
    var used := Distance(p.boundary, p.appl, p.hw);
    if 0 <= used <= p.frames then p.frames - used else 0
  }

  /** Whole frames in the backend's reported backlog. */
  function Pending(bytes: int): nat {
    if bytes > 0 then bytes / 4 else 0
  }

  function Done(p: Pcm, bytes: int): nat {
    if p.submitted >= Pending(bytes) then p.submitted - Pending(bytes) else 0
  }

  /** pcm_update */
  function Updated(p: Pcm, reading: Reading): Pcm
    requires p.boundary > 0
  {
    match reading
    case Lost => p.(state := Disconnected)
    case Delay(bytes) => p.(completed := Done(p, bytes), hw := Done(p, bytes) % p.boundary)
  }

  /** The backend never takes back a frame it has reported as played. */
  predicate Monotone(p: Pcm, reading: Reading) {
    reading.Delay? ==> p.completed <= Done(p, reading.bytes)
  }

  function WriteCount(p: Pcm, rest: seq<Frame>): nat
    requires p.frames > 0
  {
    Min(Min(Available(p), |rest|), p.frames - p.appl % p.frames)
  }

  /** Stores `chunk` in the ring from `offset` on. */
  function Stored(data: seq<Frame>, offset: nat, chunk: seq<Frame>): (r: seq<Frame>)
    requires offset + |chunk| <= |data|
    ensures |r| == |data|
  {
    data[..offset] + chunk + data[offset + |chunk|..]
  }

  /** n frames of the ring from `offset` on, wrapping at its end. */
  function Loaded(data: seq<Frame>, frames: nat, offset: nat, n: nat): (r: seq<Frame>)
    requires offset < frames <= |data| && n <= frames
    ensures |r| == n
  {
    var first := Min(n, frames - offset);
    data[offset..offset + first] + data[..n - first]
  }

  function Started(p: Pcm): Pcm {
    if p.state.Prepared? && Distance(p.boundary, p.appl, p.hw) >= p.startThreshold
    then p.(state := Running) else p
  }

  function Queued(p: Pcm): int
    requires p.boundary > 0
  {
    Distance(p.boundary, p.appl, p.submitted % p.boundary)
  }

  /** Frames the worker offers to the backend: whole packets unless draining. */
  function Offer(p: Pcm): nat
    requires p.boundary > 0
  {
    var q := Queued(p);
    if q < 0 || q > p.frames then 0
    else
      var n := Min(q, BURST);
      if p.state.Draining? then n else n - n % PACKET
  }

  /** The part of a worker iteration after the position update. */
  function Transferred(p: Pcm, reply: Reply, last: Reading): Pcm
    requires Configured(p)
  {
    var queued := Queued(p);
    if queued > p.frames then p.(state := Xrun)
    else if queued > 0 then
      if Offer(p) == 0 then p else Answered(p, reply)
    else if p.state.Draining? then
      Updated(p, last).(state := match reply case NoDevice => Disconnected case Failed => Xrun case _ => Setup)
    else if p.completed == p.submitted && p.stopThreshold <= p.frames then p.(state := Xrun)
    else p
  }

  /** The backend has been offered the next frames of the ring. */
  function Answered(p: Pcm, reply: Reply): Pcm
    requires Configured(p)
  {
    match reply
    case Took(k) =>
      if k <= Offer(p) <= p.frames then
        p.(submitted := UL(p.word, p.submitted + k),
           accepted := p.accepted + Loaded(p.data, p.frames, p.submitted % p.frames, Offer(p))[..k])
      else p
    case Again => p
    case NoDevice => p.(state := Disconnected)
    case Failed => p.(state := Xrun)
  }

  /** One iteration of pcm_worker. */
  function Worked(p: Pcm, first: Reading, reply: Reply, last: Reading): Pcm
    requires Configured(p)
  {
    var q := Started(Updated(p, first));
    if q.state.Running? || q.state.Draining? then Transferred(q, reply, last) else q
  }

  /** What the environment may do.  The backend's played count never falls and it takes
      no more than it is offered; the submitted counter does not wrap. */
  predicate Enabled(p: Pcm, step: Step)
    requires Configured(p)
  {
    match step
    case Update(reading) => Monotone(p, reading)
    case Write(reading, _) => (p.state.Prepared? || p.state.Running?) && Monotone(p, reading)
    case Work(first, reply, last) =>
      var q := Started(Updated(p, first));
      && Monotone(p, first) && Monotone(q, last)
      && (reply.Took? ==> reply.frames <= Offer(q) && p.submitted + reply.frames < p.word)
    case _ => true
  }

  function Apply(p: Pcm, step: Step): Pcm
    requires Configured(p)
  {
    match step
    case Update(reading) => Updated(p, reading)
    case Write(reading, rest) =>
      var q := Updated(p, reading);
      var chunk := rest[..WriteCount(q, rest)];
      q.(data := Stored(q.data, q.appl % q.frames, chunk),
         appl := Advance(q.word, q.boundary, q.appl, |chunk|), written := q.written + chunk)
    case Work(first, reply, last) => Worked(p, first, reply, last)
    case Rewind(want) =>
      var queued := Queued(p);
      if queued > p.frames || queued < 0 then p
      else
        var n := Min(want, queued);
        p.(appl := Advance(p.word, p.boundary, p.appl, p.boundary - n),
           written := if n <= |p.written| then p.written[..|p.written| - n] else [])
    case Forward(want) =>
      var n := Min(want, Available(p));
      p.(appl := Advance(p.word, p.boundary, p.appl, n),
         written := p.written + Loaded(p.data, p.frames, |p.written| % p.frames, n))
    case Prepare =>
      p.(appl := 0, hw := 0, submitted := 0, completed := 0, state := Prepared, written := [], accepted := [])
    case Enter(state) => p.(state := state)
  }

  ghost predicate Runs(p: Pcm, steps: seq<Step>, q: Pcm)
    decreases |steps|
  {
    if steps == [] then p == q
    else Configured(p) && Enabled(p, steps[0]) && Runs(Apply(p, steps[0]), steps[1..], q)
  }

  // ----- the invariant

  /** The ring holds the queued frames: frame k of the stream is in slot k % frames. */
  ghost predicate Holds(p: Pcm, k: nat)
    requires 0 < p.frames <= |p.data|
  {
    k < |p.written| && p.data[k % p.frames] == p.written[k]
  }

  ghost predicate Counters(p: Pcm)
    requires Configured(p)
  {
    && p.completed <= p.submitted <= |p.written| <= p.completed + p.frames
    && p.appl == |p.written| % p.boundary
    && p.hw == p.completed % p.boundary
  }

  ghost predicate Fifo(p: Pcm)
    requires Configured(p)
  {
    && p.submitted <= |p.written| && p.accepted == p.written[..p.submitted]
    && forall k: nat :: p.submitted <= k < |p.written| ==> Holds(p, k)
  }

  ghost predicate Inv(p: Pcm) {
    Configured(p) && p.frames < p.boundary && Counters(p) && Fifo(p)
  }

  lemma AvailableExact(p: Pcm)
    requires Configured(p) && p.frames < p.boundary && Counters(p)
    ensures Available(p) == p.completed + p.frames - |p.written|
    ensures Queued(p) == |p.written| - p.submitted
  {
    DistanceExact(p.boundary, |p.written|, p.completed);
    DistanceExact(p.boundary, |p.written|, p.submitted);
  }

  lemma UpdateKeeps(p: Pcm, reading: Reading)
    requires Inv(p) && Monotone(p, reading)
    ensures Inv(Updated(p, reading))
  {
    var q := Updated(p, reading);
    forall k: nat | q.submitted <= k < |q.written|
      ensures Holds(q, k)
    {
      assert Holds(p, k);
    }
  }

  /** The offset of the next frame in the ring. */
  lemma OffsetExact(p: Pcm, w: nat)
    requires Configured(p)
    ensures (w % p.boundary) % p.frames == w % p.frames
  {
    Modular.Nested(w, p.boundary, p.frames);
  }

  lemma StoredHolds(p: Pcm, q: Pcm, chunk: seq<Frame>, k: nat)
    requires Inv(p) && |p.written| % p.frames + |chunk| <= p.frames && |p.written| + |chunk| <= p.submitted + p.frames
    requires q.frames == p.frames && q.written == p.written + chunk
    requires q.data == Stored(p.data, |p.written| % p.frames, chunk)
    requires p.submitted <= k < |q.written|
    ensures Holds(q, k)
  {
    var w, f := |p.written|, p.frames;
    if k >= w {
      Modular.Within(w, k - w, f);
    } else {
      assert Holds(p, k);
      if w % f <= k % f < w % f + |chunk| {
        var j := w + (k % f - w % f);
        Modular.Within(w, j - w, f);
        Modular.Distinct(k, j, f);
        assert false;
      }
    }
  }

  lemma WriteKeeps(p: Pcm, reading: Reading, rest: seq<Frame>)
    requires Inv(p) && Monotone(p, reading)
    ensures Inv(Apply(p, Write(reading, rest)))
  {
    UpdateKeeps(p, reading);
    var u := Updated(p, reading);
    var q := Apply(p, Write(reading, rest));
    var chunk := rest[..WriteCount(u, rest)];
    AvailableExact(u);
    OffsetExact(u, |u.written|);
    WithinRingFits(u.boundary, u.frames, u.appl, |chunk|);
    AdvancePosition(u.word, u.boundary, |u.written|, |chunk|);
    forall k: nat | q.submitted <= k < |q.written|
      ensures Holds(q, k)
    {
      StoredHolds(u, q, chunk, k);
    }
  }

  /** Element i of a stretch that starts at stream position w is in slot (w + i) % frames. */
  lemma LoadedAt(data: seq<Frame>, f: nat, w: nat, n: nat, i: nat)
    requires 0 < f <= |data| && i < n <= f
    ensures Loaded(data, f, w % f, n)[i] == data[(w + i) % f]
  {
    if w % f + i < f {
      Modular.Within(w, i, f);
    } else {
      Modular.AddInner(w, i, f);
      Modular.Unique(w % f + i, f, 1, w % f + i - f);
    }
  }

  /** What the worker reads out of the ring is the next stretch of the stream. */
  lemma LoadedIsStream(p: Pcm, n: nat)
    requires Inv(p) && p.submitted + n <= |p.written|
    ensures n <= p.frames
    ensures Loaded(p.data, p.frames, p.submitted % p.frames, n) == p.written[p.submitted..p.submitted + n]
  {
    var chunk := Loaded(p.data, p.frames, p.submitted % p.frames, n);
    forall i: nat | i < n
      ensures chunk[i] == p.written[p.submitted + i]
    {
      assert Holds(p, p.submitted + i);
      LoadedAt(p.data, p.frames, p.submitted, n, i);
    }
  }

  lemma OfferBounded(p: Pcm)
    requires Inv(p)
    ensures Offer(p) <= |p.written| - p.submitted
  {
    AvailableExact(p);
  }

  lemma TakeKeeps(p: Pcm, k: nat)
    requires Inv(p) && k <= Offer(p) && p.submitted + k < p.word
    ensures Offer(p) <= p.frames
    ensures Inv(p.(submitted := UL(p.word, p.submitted + k),
                   accepted := p.accepted + Loaded(p.data, p.frames, p.submitted % p.frames, Offer(p))[..k]))
  {
    OfferBounded(p);
    LoadedIsStream(p, Offer(p));
    var q := p.(submitted := UL(p.word, p.submitted + k),
                accepted := p.accepted + Loaded(p.data, p.frames, p.submitted % p.frames, Offer(p))[..k]);
    forall j: nat | q.submitted <= j < |q.written|
      ensures Holds(q, j)
    {
      assert Holds(p, j);
    }
  }

  lemma StateKeeps(p: Pcm, state: State)
    requires Inv(p)
    ensures Inv(p.(state := state))
  {
    var q := p.(state := state);
    forall k: nat | q.submitted <= k < |q.written|
      ensures Holds(q, k)
    {
      assert Holds(p, k);
    }
  }

  lemma PrepareKeeps(p: Pcm)
    requires Inv(p)
    ensures Inv(Apply(p, Prepare))
  {
    Modular.Unique(0, p.boundary, 0, 0);
  }

  lemma WorkKeeps(p: Pcm, first: Reading, reply: Reply, last: Reading)
    requires Inv(p) && Enabled(p, Work(first, reply, last))
    ensures Inv(Worked(p, first, reply, last))
  {
    hide Offer, Loaded, Queued, Transferred;
    UpdateKeeps(p, first);
    StateKeeps(Updated(p, first), Running);
    var q := Started(Updated(p, first));
    TransferKeeps(q, reply, last);
  }

  lemma TransferKeeps(q: Pcm, reply: Reply, last: Reading)
    requires Inv(q) && Monotone(q, last)
    requires reply.Took? ==> reply.frames <= Offer(q) && q.submitted + reply.frames < q.word
    ensures Inv(Transferred(q, reply, last))
  {
    hide Offer, Loaded, Queued, Updated, Holds;
    StateKeeps(q, Xrun);
    StateKeeps(q, Disconnected);
    UpdateKeeps(q, last);
    StateKeeps(Updated(q, last), Setup);
    StateKeeps(Updated(q, last), Xrun);
    StateKeeps(Updated(q, last), Disconnected);
    if reply.Took? {
      TakeKeeps(q, reply.frames);
    }
  }

  /** REWIND and FORWARD move the pointer as intended.  The other steps always do. */
  predicate Exact(p: Pcm, step: Step)
    requires p.boundary > 0
  {
    match step
    case Rewind(want) =>
      var n := Min(want, if Queued(p) > 0 then Queued(p) else 0);
      Fits(p.word, p.boundary, p.appl, if n <= p.boundary then p.boundary - n else 0)
    case Forward(want) => Fits(p.word, p.boundary, p.appl, Min(want, Available(p)))
    case _ => true
  }

  /** A REWIND keeps the stream consistent exactly when its sum in pcm_advance fits. */
  lemma RewindKeepsIff(p: Pcm, want: nat)
    requires Inv(p)
    ensures Inv(Apply(p, Rewind(want))) <==> Exact(p, Rewind(want))
  {
    hide Advance, Fits, Available;
    AvailableExact(p);
    var n := Min(want, Queued(p));
    RetreatExactIff(p.word, p.boundary, |p.written|, n);
    var q := Apply(p, Rewind(want));
    forall k: nat | q.submitted <= k < |q.written|
      ensures Holds(q, k)
    {
      assert Holds(p, k);
    }
  }

  lemma ForwardKeepsIff(p: Pcm, want: nat)
    requires Inv(p)
    ensures Inv(Apply(p, Forward(want))) <==> Exact(p, Forward(want))
  {
    hide Advance, Fits, Loaded, Queued;
    AvailableExact(p);
    var n, w, f := Min(want, Available(p)), |p.written|, p.frames;
    AdvancePosition(p.word, p.boundary, w, n);
    var q := Apply(p, Forward(want));
    forall k: nat | q.submitted <= k < |q.written|
      ensures Holds(q, k)
    {
      if k < w {
        assert Holds(p, k);
      } else {
        LoadedAt(p.data, f, w, n, k - w);
      }
    }
  }

  /** Every step keeps the stream consistent, except a REWIND or FORWARD whose sum does
      not fit, which never does. */
  lemma StepKeepsIff(p: Pcm, step: Step)
    requires Inv(p) && Enabled(p, step)
    ensures Inv(Apply(p, step)) <==> Exact(p, step)
  {
    hide Inv;
    match step
    case Update(reading) => UpdateKeeps(p, reading);
    case Write(reading, rest) => WriteKeeps(p, reading, rest);
    case Work(first, reply, last) => WorkKeeps(p, first, reply, last);
    case Rewind(n) => RewindKeepsIff(p, n);
    case Forward(n) => ForwardKeepsIff(p, n);
    case Prepare => PrepareKeeps(p);
    case Enter(state) => StateKeeps(p, state);
  }

  /** The boundary leaves room for this kind of step. */
  predicate Suits(p: Pcm, step: Step) {
    && (step.Rewind? ==> 2 * p.boundary <= p.word)
    && (step.Forward? ==> p.boundary + p.frames <= p.word)
  }

  lemma SuitedIsExact(p: Pcm, step: Step)
    requires Inv(p) && Suits(p, step)
    ensures Exact(p, step)
  {
    hide Queued, Available;
    AvailableExact(p);
  }

  lemma SameConfiguration(p: Pcm, step: Step)
    requires Configured(p)
    ensures var q := Apply(p, step); q.word == p.word && q.boundary == p.boundary && q.frames == p.frames
  {
  }

  lemma {:induction false} RunKeeps(p: Pcm, steps: seq<Step>, q: Pcm)
    requires Inv(p) && Runs(p, steps, q) && forall k :: 0 <= k < |steps| ==> Suits(p, steps[k])
    ensures Inv(q)
    decreases |steps|
  {
    hide Inv, Apply, Exact;
    if steps != [] {
      SuitedIsExact(p, steps[0]);
      StepKeepsIff(p, steps[0]);
      SameConfiguration(p, steps[0]);
      RunKeeps(Apply(p, steps[0]), steps[1..], q);
    }
  }

  /** The stream right after PREPARE. */
  predicate Fresh(p: Pcm) {
    && Configured(p)
    && p.appl == p.hw == p.submitted == p.completed == 0
    && p.written == [] && p.accepted == []
  }

  /** played <= submitted <= written <= played + frames, the backend has received exactly a
      prefix of what the application wrote, and the pointers say where both are. */
  ghost predicate IsFifo(q: Pcm) {
    && q.completed <= q.submitted <= |q.written| <= q.completed + q.frames
    && q.accepted == q.written[..q.submitted]
    && q.boundary > 0 && q.appl == |q.written| % q.boundary && q.hw == q.completed % q.boundary
  }

  lemma FreshInv(p: Pcm)
    requires Fresh(p) && p.frames < p.boundary
    ensures Inv(p)
  {
    Modular.Unique(0, p.boundary, 0, 0);
  }

  /** In every run from PREPARE of writes, worker iterations, position updates, state changes
      and further PREPAREs, at every boundary that is a multiple of the ring and larger than
      it, the stream since the last PREPARE is a FIFO.  FORWARD steps may be added where boundary + frames fits the word,
      and REWIND steps where twice the boundary does. */
  lemma PlaybackIsFifo(p: Pcm, steps: seq<Step>, q: Pcm)
    requires Fresh(p) && p.frames < p.boundary && Runs(p, steps, q)
    requires forall k :: 0 <= k < |steps| ==> Suits(p, steps[k])
    ensures IsFifo(q)
  {
    FreshInv(p);
    RunKeeps(p, steps, q);
  }

  // ----- which boundaries are large enough

  predicate Plain(steps: seq<Step>) {
    forall k :: 0 <= k < |steps| ==> !steps[k].Rewind? && !steps[k].Forward?
  }

  lemma {:induction false} RunsExtend(p: Pcm, steps: seq<Step>, q: Pcm, step: Step)
    requires Runs(p, steps, q) && Configured(q) && Enabled(q, step)
    ensures Runs(p, steps + [step], Apply(q, step))
    decreases |steps|
  {
    hide Apply, Enabled, Configured;
    if steps == [] {
      assert (steps + [step])[1..] == [];
    } else {
      assert (steps + [step])[1..] == steps[1..] + [step];
      RunsExtend(Apply(p, steps[0]), steps[1..], q, step);
    }
  }

  /** A running stream with m frames written, of which all but `level` have been taken. */
  ghost predicate AtLevel(p: Pcm, q: Pcm, m: nat, level: nat) {
    && Inv(q) && q.word == p.word && q.boundary == p.boundary && q.frames == p.frames && q.state.Running?
    && |q.written| == m && q.submitted + level == m
  }

  /** One more frame is written; the backend has played all it took. */
  lemma WriteOne(p: Pcm, q: Pcm, m: nat, level: nat)
    requires AtLevel(p, q, m, level) && level < q.frames
    ensures Enabled(q, Write(Delay(0), [0])) && AtLevel(p, Apply(q, Write(Delay(0), [0])), m + 1, level + 1)
  {
    hide Inv, Stored, Advance;
    InvAvailable(q);
    WriteKeeps(q, Delay(0), [0]);
    UpdateKeeps(q, Delay(0));
    InvAvailable(Updated(q, Delay(0)));
  }

  lemma InvAvailable(p: Pcm)
    requires Inv(p)
    ensures Configured(p) && p.completed <= p.submitted <= |p.written| && p.appl == |p.written| % p.boundary
    ensures Available(p) == p.completed + p.frames - |p.written| && Queued(p) == |p.written| - p.submitted
  {
    AvailableExact(p);
  }

  /** With a whole packet queued the backend takes k frames of it. */
  lemma TakeSome(p: Pcm, q: Pcm, m: nat, k: nat)
    requires AtLevel(p, q, m, PACKET) && PACKET <= q.frames && k <= PACKET && m < q.word
    ensures var step := Work(Delay(0), Took(k), Delay(0));
            Configured(q) && Enabled(q, step) && AtLevel(p, Apply(q, step), m, PACKET - k)
  {
    hide Inv, Loaded;
    InvAvailable(q);
    UpdateKeeps(q, Delay(0));
    var u := Updated(q, Delay(0));
    InvAvailable(u);
    assert Started(u) == u && Offer(u) == PACKET;
    WorkKeeps(q, Delay(0), Took(k), Delay(0));
  }

  /** From PREPARE, by START, writes and worker iterations alone, any number of frames can be
      written with a packet less one still queued. */
  lemma {:induction false} ReachLevel(p: Pcm, m: nat) returns (steps: seq<Step>, q: Pcm)
    requires Fresh(p) && p.frames < p.boundary && p.state.Prepared? && PACKET <= p.frames && PACKET <= m + 1 && m < p.word
    ensures Runs(p, steps, q) && Plain(steps) && AtLevel(p, q, m, PACKET - 1)
    decreases m
  {
    hide Inv, Apply, Enabled, Configured;
    if m + 1 == PACKET {
      steps, q := ReachFirst(p, PACKET - 1);
    } else {
      steps, q := ReachLevel(p, m - 1);
      WriteOne(p, q, m - 1, PACKET - 1);
      InvAvailable(q);
      var write, work := Write(Delay(0), [0]), Work(Delay(0), Took(1), Delay(0));
      RunsExtend(p, steps, q, write);
      steps, q := steps + [write], Apply(q, write);
      TakeSome(p, q, m, 1);
      RunsExtend(p, steps, q, work);
      steps, q := steps + [work], Apply(q, work);
    }
  }

  /** The first frames, before the backend takes any. */
  lemma {:induction false} ReachFirst(p: Pcm, m: nat) returns (steps: seq<Step>, q: Pcm)
    requires Fresh(p) && p.frames < p.boundary && p.state.Prepared? && m <= p.frames
    ensures Runs(p, steps, q) && Plain(steps) && AtLevel(p, q, m, m)
    decreases m
  {
    hide Apply, Enabled, Configured, Inv;
    FreshInv(p);
    if m == 0 {
      steps, q := [Enter(Running)], p.(state := Running);
      StateKeeps(p, Running);
      StartRuns(p);
    } else {
      steps, q := ReachFirst(p, m - 1);
      WriteOne(p, q, m - 1, m - 1);
      InvAvailable(q);
      RunsExtend(p, steps, q, Write(Delay(0), [0]));
      steps, q := steps + [Write(Delay(0), [0])], Apply(q, Write(Delay(0), [0]));
    }
  }

  lemma StartRuns(p: Pcm)
    requires Fresh(p)
    ensures Runs(p, [Enter(Running)], p.(state := Running)) && |p.written| == 0 == p.submitted
  {
    assert [Enter(Running)][1..] == [];
  }

  /** The same with everything taken and played. */
  lemma ReachIdle(p: Pcm, m: nat) returns (steps: seq<Step>, q: Pcm)
    requires Fresh(p) && p.frames < p.boundary && p.state.Prepared? && PACKET <= p.frames && PACKET <= m < p.word
    ensures Runs(p, steps, q) && Plain(steps) && AtLevel(p, q, m, 0) && q.completed == m
  {
    hide Inv, Configured, Runs;
    steps, q := ReachLevel(p, m - 1);
    WriteOne(p, q, m - 1, PACKET - 1);
    InvAvailable(q);
    var write, work := Write(Delay(0), [0]), Work(Delay(0), Took(PACKET), Delay(0));
    RunsExtend(p, steps, q, write);
    steps, q := steps + [write], Apply(q, write);
    TakeSome(p, q, m, PACKET);
    RunsExtend(p, steps, q, work);
    steps, q := steps + [work], Apply(q, work);
    UpdateKeeps(q, Delay(0));
    InvAvailable(q);
    RunsExtend(p, steps, q, Update(Delay(0)));
    steps, q := steps + [Update(Delay(0))], Apply(q, Update(Delay(0)));
  }

  lemma NotFifo(q: Pcm)
    requires Configured(q) && q.appl != |q.written| % q.boundary
    ensures !IsFifo(q)
  {
  }

  /** A REWIND of nothing from m frames on goes wrong at a boundary above half the word. */
  lemma RewindBreaks(p: Pcm, q: Pcm, m: nat)
    requires AtLevel(p, q, m, 0) && m < p.boundary && p.word <= m + p.boundary
    ensures !IsFifo(Apply(q, Rewind(0)))
  {
    hide Inv, Advance, Available;
    InvAvailable(q);
    Modular.Unique(m, p.boundary, 0, m);
    RetreatExactIff(p.word, p.boundary, m, 0);
    NoDivisor(p.word, p.boundary);
    NotFifo(Apply(q, Rewind(0)));
  }

  lemma ForwardBreaks(p: Pcm, q: Pcm, m: nat)
    requires AtLevel(p, q, m, 0) && q.completed == m && m + 1 == p.boundary && p.word <= m + p.frames
    ensures !IsFifo(Apply(q, Forward(p.frames)))
  {
    hide Inv, Advance, Loaded, Queued;
    InvAvailable(q);
    Modular.Unique(m, p.boundary, 0, m);
    AdvancePosition(p.word, p.boundary, m, p.frames);
    NoDivisor(p.word, p.boundary);
    NotFifo(Apply(q, Forward(p.frames)));
  }

  /** A boundary above half the word does not divide it. */
  lemma NoDivisor(word: nat, boundary: nat)
    requires 0 < boundary < word < 2 * boundary
    ensures word % boundary != 0
  {
    Modular.Unique(word, boundary, 1, word - boundary);
  }

  lemma Halves(p: Pcm)
    requires Configured(p) && p.word < p.boundary + p.frames
    ensures p.word < 2 * p.boundary
  {
  }

  /** At a boundary equal to the ring, a full ring reads as empty. */
  lemma FillAll(p: Pcm, chunk: seq<Frame>)
    requires Fresh(p) && p.state.Prepared? && p.boundary == p.frames && |chunk| == p.frames
    ensures Enabled(p, Write(Delay(0), chunk))
    ensures Apply(p, Write(Delay(0), chunk)) == p.(data := Stored(p.data, 0, chunk), written := chunk)
  {
    hide Stored;
    Modular.Unique(0, p.frames, 0, 0);
    Modular.Unique(p.frames, p.frames, 1, 0);
    assert chunk[..|chunk|] == chunk;
  }

  /** One frame more then goes over the first. */
  lemma WriteOver(p: Pcm, q: Pcm, x: Frame)
    requires Fresh(p) && p.state.Prepared? && p.boundary == p.frames && |q.data| == |p.data|
    requires q == p.(data := q.data, written := q.written)
    ensures Configured(q) && Enabled(q, Write(Delay(0), [x]))
    ensures Apply(q, Write(Delay(0), [x])) ==
            q.(data := Stored(q.data, 0, [x]), appl := 1 % p.frames, written := q.written + [x])
  {
    hide Stored;
    Modular.Unique(0, p.frames, 0, 0);
    assert [x][..1] == [x];
  }

  /** A run of two writes at a boundary equal to the ring. */
  lemma OverfullRuns(p: Pcm, chunk: seq<Frame>, x: Frame) returns (q: Pcm)
    requires Fresh(p) && p.state.Prepared? && p.boundary == p.frames && |chunk| == p.frames
    ensures Runs(p, [Write(Delay(0), chunk), Write(Delay(0), [x])], q)
    ensures q == p.(data := Stored(Stored(p.data, 0, chunk), 0, [x]), appl := 1 % p.frames, written := chunk + [x])
  {
    hide Stored, Apply, Enabled;
    var steps := [Write(Delay(0), chunk), Write(Delay(0), [x])];
    assert steps[1..] == [Write(Delay(0), [x])] && steps[1..][1..] == [];
    FillAll(p, chunk);
    var a := Apply(p, steps[0]);
    WriteOver(p, a, x);
    q := Apply(a, steps[1]);
    assert Runs(a, steps[1..], q);
  }

  lemma Overfull(p: Pcm) returns (steps: seq<Step>, q: Pcm)
    requires Fresh(p) && p.state.Prepared? && p.boundary == p.frames
    ensures Runs(p, steps, q) && Plain(steps) && !IsFifo(q)
  {
    hide Runs;
    var chunk := seq(p.frames, i => 0);
    steps := [Write(Delay(0), chunk), Write(Delay(0), [0])];
    q := OverfullRuns(p, chunk, 0);
  }

  /** Counterexample: at a boundary equal to the ring, which SW_PARAMS accepts, a whole ring
      of frames and one more are written and drained.  The backend receives the last frame
      first, and the ring's frames are no longer queued. */
  lemma FullRingOverwritten(p: Pcm, chunk: seq<Frame>, x: Frame) returns (steps: seq<Step>, q: Pcm)
    requires Fresh(p) && p.state.Prepared? && p.boundary == p.frames > 1 && |chunk| == p.frames && chunk[0] != x
    ensures Runs(p, steps, q) && Plain(steps)
    ensures q.written == chunk + [x] && q.accepted == [x] && !(q.accepted <= q.written)
    ensures q.boundary > 0 && Queued(q) == 0
  {
    hide Runs;
    steps := [Write(Delay(0), chunk), Write(Delay(0), [x])];
    q := OverfullRuns(p, chunk, x);
    Modular.Unique(1, p.frames, 0, 1);
    Modular.Unique(0, p.frames, 0, 0);
    RunsExtend(p, steps, q, Enter(Draining));
    steps, q := steps + [Enter(Draining)], Apply(q, Enter(Draining));
    var work := Work(Delay(0), Took(1), Delay(0));
    assert Queued(q) == 1 && Offer(q) == 1;
    assert Loaded(q.data, q.frames, 0, 1) == [x];
    RunsExtend(p, steps, q, work);
    steps, q := steps + [work], Apply(q, work);
    assert q.accepted[0] != q.written[0];
  }

  /** Every run without REWIND and FORWARD is a FIFO exactly when the boundary exceeds the
      ring. */
  lemma PlainRunsFifoIff(p: Pcm)
    requires Fresh(p) && p.state.Prepared?
    ensures (forall steps, q :: Runs(p, steps, q) && Plain(steps) ==> IsFifo(q)) <==> p.frames < p.boundary
  {
    hide Runs, IsFifo, Inv;
    if p.frames < p.boundary {
      forall steps, q | Runs(p, steps, q) && Plain(steps)
        ensures IsFifo(q)
      {
        PlaybackIsFifo(p, steps, q);
      }
    } else {
      var steps, q := Overfull(p);
    }
  }

  /** Every run from PREPARE is a FIFO, REWIND included, exactly when the boundary exceeds the
      ring and twice the boundary fits the word. */
  lemma AllRunsFifoIff(p: Pcm)
    requires Fresh(p) && p.state.Prepared? && PACKET <= p.frames
    ensures (forall steps, q :: Runs(p, steps, q) ==> IsFifo(q)) <==> p.frames < p.boundary && 2 * p.boundary <= p.word
  {
    hide Inv, Apply, AtLevel, IsFifo, Configured;
    WordLarge(p);
    if p.frames == p.boundary {
      var steps, q := Overfull(p);
    } else if 2 * p.boundary <= p.word {
      forall steps, q | Runs(p, steps, q)
        ensures IsFifo(q)
      {
        AllSuit(p, steps);
        PlaybackIsFifo(p, steps, q);
      }
    } else {
      var m := if p.word - p.boundary < PACKET then PACKET else p.word - p.boundary;
      var steps, q := ReachIdle(p, m);
      LevelConfigured(p, q, m);
      RunsExtend(p, steps, q, Rewind(0));
      RewindBreaks(p, q, m);
    }
  }

  /** Every run without REWIND is a FIFO exactly when the boundary exceeds the ring and
      boundary + frames fits the word. */
  lemma RunsWithoutRewindFifoIff(p: Pcm)
    requires Fresh(p) && p.state.Prepared? && PACKET <= p.frames
    ensures (forall steps: seq<Step>, q: Pcm ::
               Runs(p, steps, q) && (forall k :: 0 <= k < |steps| ==> !steps[k].Rewind?) ==> IsFifo(q))
            <==> p.frames < p.boundary && p.boundary + p.frames <= p.word
  {
    hide Inv, Apply, AtLevel, IsFifo, Configured;
    WordLarge(p);
    if p.frames == p.boundary {
      var steps, q := Overfull(p);
    } else if p.boundary + p.frames <= p.word {
      forall steps: seq<Step>, q: Pcm | Runs(p, steps, q) && (forall k :: 0 <= k < |steps| ==> !steps[k].Rewind?)
        ensures IsFifo(q)
      {
        PlaybackIsFifo(p, steps, q);
      }
    } else {
      Halves(p);
      var m := p.boundary - 1;
      var steps, q := ReachIdle(p, m);
      LevelConfigured(p, q, m);
      RunsExtend(p, steps, q, Forward(p.frames));
      ForwardBreaks(p, q, m);
    }
  }

  lemma AllSuit(p: Pcm, steps: seq<Step>)
    requires Configured(p) && 2 * p.boundary <= p.word
    ensures forall k :: 0 <= k < |steps| ==> Suits(p, steps[k])
  {
  }

  lemma WordLarge(p: Pcm)
    requires Fresh(p)
    ensures Configured(p) && p.word >= 0x1_0000_0000 && 0 < p.frames <= p.boundary < p.word && p.frames <= CAPACITY
  {
  }

  lemma LevelConfigured(p: Pcm, q: Pcm, m: nat)
    requires AtLevel(p, q, m, 0)
    ensures Configured(q) && Enabled(q, Rewind(0)) && Enabled(q, Forward(p.frames))
  {
  }

  /** A run of two calls: 96 frames are written at a boundary that SW_PARAMS accepts, and a
      REWIND by 0 leaves 32 of them queued.  None was taken back and none was played. */
  lemma RewindLosesFrames(p: Pcm, chunk: seq<Frame>)
    requires Fresh(p) && p.state.Prepared? && p.word == 0x1_0000_0000 && p.frames == 96 && p.boundary == 4294967232
    requires |chunk| == 96
    ensures var a := Apply(p, Write(Delay(0), chunk));
            var b := Apply(a, Rewind(0));
            && Runs(p, [Write(Delay(0), chunk), Rewind(0)], b)
            && a.written == chunk && Queued(a) == 96
            && b.written == chunk && b.submitted == 0 && Queued(b) == 32
  {
    hide Stored, Advance, Configured;
    var steps := [Write(Delay(0), chunk), Rewind(0)];
    assert steps[1..] == [Rewind(0)] && steps[1..][1..] == [];
    FreshInv(p);
    WrittenAtOnce(p, chunk);
    var a := Apply(p, Write(Delay(0), chunk));
    Modular.Unique(96, p.boundary, 0, 96);
    Modular.Unique(0, p.boundary, 0, 0);
    RewindWraps();
    assert chunk[..96 - 0] == chunk;
    var b := Apply(a, Rewind(0));
    assert b.appl == 32 && b.written == chunk;
    assert Queued(b) == 32;
    assert Runs(a, [Rewind(0)], b);
  }

  lemma RewindWraps()
    ensures Advance(0x1_0000_0000, 4294967232, 96, 4294967232) == 32
  {
  }

  /** A chunk as long as the ring is written in one attempt right after PREPARE. */
  lemma WrittenAtOnce(p: Pcm, chunk: seq<Frame>)
    requires Fresh(p) && p.frames < p.boundary && p.state.Prepared? && |chunk| == p.frames
    ensures Configured(p) && Enabled(p, Write(Delay(0), chunk))
    ensures var a := Apply(p, Write(Delay(0), chunk));
            Inv(a) && Configured(a) && a.written == chunk && a.submitted == 0 && Queued(a) == p.frames
            && a.appl == p.frames % p.boundary && a.boundary == p.boundary && a.word == p.word && a.frames == p.frames
  {
    hide Stored, Advance, Inv;
    FreshInv(p);
    UpdateKeeps(p, Delay(0));
    InvAvailable(Updated(p, Delay(0)));
    Modular.Unique(0, p.frames, 0, 0);
    assert chunk[..|chunk|] == chunk;
    WriteKeeps(p, Delay(0), chunk);
    InvAvailable(Apply(p, Write(Delay(0), chunk)));
  }

  // ----- the driver as imperative code

  const EINTR := 4
  const EAGAIN := 11
  const EFAULT := 14
  const EINVAL := 22
  const EPIPE := 32
  const EBADFD := 77

  const INTERLEAVED := 3           // access by read and write, not by mapping

  /** Why WRITEI stops: everything written, no buffer, the wrong access mode, an underrun, a
      state that forbids writing, a full ring on a non-blocking file, a signal, or it is
      still asleep. */
  datatype Why = Finished | NoBuffer | Unsuited | Underrun | Unready | Full | Signalled | Asleep {
    function Error(): int {
      match this
      case NoBuffer => -EFAULT
      case Unsuited => -EBADFD
      case Underrun => -EPIPE
      case Unready => -EBADFD
      case Full => -EAGAIN
      case Signalled => -EINTR
      case _ => 0
    }
  }

  /** What happens while a blocking writer sleeps, and whether a signal wakes it. */
  datatype Nap = Nap(steps: seq<Step>, signal: bool)

  /** The reading, unless it would take back a played frame; then, no progress. */
  function Honest(p: Pcm, reading: Reading): (r: Reading)
    ensures p.completed <= p.submitted ==> Monotone(p, r)
  {
    if Monotone(p, reading) || p.completed > p.submitted then reading else Delay(4 * (p.submitted - p.completed))
  }

  /** Enabled does not depend on the histories. */
  lemma EnabledAnyHistory(p: Pcm, step: Step, written: seq<Frame>, accepted: seq<Frame>)
    requires Configured(p)
    ensures var q := p.(written := written, accepted := accepted);
            Configured(q) && Enabled(q, step) == Enabled(p, step)
  {
    hide Offer, Queued;
    var q := p.(written := written, accepted := accepted);
    if step.Work? {
      var a, b := Started(Updated(p, step.first)), Started(Updated(q, step.first));
      assert b == a.(written := written, accepted := accepted);
      OfferAnyHistory(a, written, accepted);
    }
  }

  lemma OfferAnyHistory(p: Pcm, written: seq<Frame>, accepted: seq<Frame>)
    requires p.boundary > 0
    ensures Offer(p.(written := written, accepted := accepted)) == Offer(p)
  {
  }

  /** The boundary HW_PARAMS chooses: the ring size doubled past a quarter of the word. */
  method Boundary(word: nat, frames: nat) returns (boundary: nat)
    requires IsWord(word) && 0 < frames <= CAPACITY
    ensures frames < boundary && boundary % frames == 0 && 2 * boundary <= word
    ensures word / 4 <= boundary
  {
    boundary := frames;
    Modular.Unique(frames, frames, 1, 0);
    while boundary <= word / 4 - 1
      invariant frames <= boundary <= word / 2 && boundary % frames == 0
      decreases word - boundary
    {
      Modular.Unique(2 * boundary, frames, 2 * (boundary / frames), 0);
      boundary := UL(word, boundary * 2);
    }
  }

  /** Steps of the worker, queries and changes of state leave the application's side alone. */
  predicate Quiet(step: Step) { step.Update? || step.Work? || step.Enter? }

  predicate AllQuiet(steps: seq<Step>) { forall k :: 0 <= k < |steps| ==> Quiet(steps[k]) }

  lemma QuietKeeps(p: Pcm, step: Step)
    requires Configured(p) && Enabled(p, step) && Quiet(step)
    ensures var q := Apply(p, step);
            q.written == p.written && q.data == p.data && p.completed <= q.completed && p.accepted <= q.accepted
  {
    hide Offer, Loaded, Queued;
  }

  lemma NothingRuns(p: Pcm)
    ensures Runs(p, [], p)
  {
  }

  class Stream {
    const word: nat
    const data: array<Frame>
    const access: nat
    var frames: nat
    var boundary: nat
    var startThreshold: nat
    var stopThreshold: nat
    var appl: nat
    var hw: nat
    var submitted: nat
    var completed: nat
    var state: State
    ghost var written: seq<Frame>
    ghost var accepted: seq<Frame>

    ghost function View(): Pcm
      reads this, data
    {
      Pcm(word, frames, boundary, startThreshold, stopThreshold, data[..], appl, hw, submitted, completed, state,
          written, accepted)
    }

    ghost predicate Valid()
      reads this, data
    {
      Configured(View()) && Inv(View())
    }

    constructor (word: nat, frames: nat, access: nat, start: nat, stop: nat)
      requires IsWord(word) && 0 < frames <= CAPACITY
      ensures Valid() && Fresh(View()) && fresh(data) && this.word == word && this.frames == frames
      ensures this.access == access
    {
      this.word, this.access := word, access;
      data := new Frame[CAPACITY](i => 0);
      this.frames := frames;
      var b := Boundary(word, frames);
      boundary := b;
      startThreshold, stopThreshold := start, stop;
      appl, hw, submitted, completed := 0, 0, 0, 0;
      state := Prepared;
      written, accepted := [], [];
      new;
      Modular.Unique(0, boundary, 0, 0);
    }

    /** PREPARE restarts the stream. */
    method Prepare()
      requires Valid()
      modifies this`appl, this`hw, this`submitted, this`completed, this`state, this`written, this`accepted
      ensures Valid() && Fresh(View()) && View() == Apply(old(View()), Step.Prepare)
    {
      submitted, completed, appl, hw := 0, 0, 0, 0;
      state := Prepared;
      written, accepted := [], [];
      Modular.Unique(0, boundary, 0, 0);
    }

    /** SW_PARAMS on a prepared stream, before any transfer: any multiple of the ring is taken
        as the boundary. */
    method SwParams(boundary: nat, availMin: nat, start: nat, stop: nat) returns (ret: int)
      requires Valid() && Fresh(View()) && boundary < word
      modifies this`boundary, this`startThreshold, this`stopThreshold
      ensures ret == if boundary < frames || boundary % frames != 0 || availMin == 0 || availMin > frames then -EINVAL else 0
      ensures ret != 0 ==> View() == old(View())
      ensures ret == 0 ==> this.boundary == boundary && Fresh(View()) && (Valid() <==> boundary > frames)
    {
      if boundary < frames || boundary % frames != 0 || availMin == 0 || availMin > frames {
        return -EINVAL;
      }
      this.boundary, startThreshold, stopThreshold := boundary, start, stop;
      if boundary > frames {
        FreshInv(View());
      }
      return 0;
    }

    /** pcm_update */
    method Update(reading: Reading)
      requires Valid() && Monotone(View(), reading)
      modifies this`completed, this`hw, this`state
      ensures Valid() && View() == Updated(old(View()), reading)
    {
      UpdateKeeps(View(), reading);
      match reading
      case Lost => state := Disconnected;
      case Delay(bytes) =>
        var pending := if bytes > 0 then bytes / 4 else 0;
        var done := if submitted >= pending then submitted - pending else 0;
        completed := done;
        hw := done % boundary;
    }

    method CopyIn(offset: nat, chunk: seq<Frame>)
      requires offset + |chunk| <= data.Length
      modifies data
      ensures data[..] == Stored(old(data[..]), offset, chunk)
    {
      forall i | 0 <= i < |chunk| {
        data[offset + i] := chunk[i];
      }
    }

    /** One attempt of the write loop: copies as much of `rest` as fits before the end of
        the ring. */
    method WriteSome(reading: Reading, rest: seq<Frame>) returns (n: nat)
      requires Valid() && Enabled(View(), Write(reading, rest))
      modifies this`completed, this`hw, this`state, this`appl, this`written, data
      ensures Valid() && View() == Apply(old(View()), Write(reading, rest))
      ensures n <= |rest| && written == old(written) + rest[..n]
      ensures n == 0 <==> rest == [] || |old(written)| == completed + frames
    {
      hide Inv, Stored, Advance, Updated, Available;
      WriteKeeps(View(), reading, rest);
      Update(reading);
      n := FreeFrames();
      var offset := appl % frames;
      if n > |rest| { n := |rest|; }
      if n > frames - offset { n := frames - offset; }
      CopyIn(offset, rest[..n]);
      appl := Advance(word, boundary, appl, n);
      written := written + rest[..n];
    }

    /** pcm_available */
    method FreeFrames() returns (n: nat)
      requires Valid()
      ensures n == Available(View()) == completed + frames - |written|
    {
      AvailableExact(View());
      var used := if appl >= hw then appl - hw else boundary - hw + appl;
      n := if used <= frames then frames - used else 0;
    }

    /** Copies n frames out of the ring, around its end. */
    method Load(offset: nat, n: nat) returns (transfer: seq<Frame>)
      requires offset < frames <= data.Length && n <= frames
      ensures transfer == Loaded(data[..], frames, offset, n)
    {
      var first := if n > frames - offset then frames - offset else n;
      transfer := data[offset..offset + first];
      if n > first {
        transfer := transfer + data[..n - first];
      }
    }

    /** The worker hands `n` frames, read around the end of the ring, to the backend. */
    method Submit(n: nat, reply: Reply)
      requires Valid() && 0 < n == Offer(View()) <= frames
      requires reply.Took? ==> reply.frames <= n && submitted + reply.frames < word
      modifies this`submitted, this`accepted, this`state
      ensures Valid() && View() == Answered(old(View()), reply)
    {
      hide Inv, Offer, Loaded;
      var transfer := Load(submitted % frames, n);
      match reply
      case Took(k) =>
        TakeKeeps(View(), k);
        submitted := UL(word, submitted + k);
        accepted := accepted + transfer[..k];
      case Again =>
      case NoDevice =>
        StateKeeps(View(), Disconnected);
        state := Disconnected;
      case Failed =>
        StateKeeps(View(), Xrun);
        state := Xrun;
    }

    method Transfer(reply: Reply, last: Reading)
      requires Valid() && (state == Running || state == Draining) && Monotone(View(), last)
      requires reply.Took? ==> reply.frames <= Offer(View()) && submitted + reply.frames < word
      modifies this`completed, this`hw, this`state, this`submitted, this`accepted
      ensures Valid() && View() == Transferred(old(View()), reply, last)
    {
      hide Inv, Answered, Holds, Updated, Monotone;
      QueueExact();
      var tail := submitted % boundary;
      var queued := if appl >= tail then appl - tail else boundary - tail + appl;
      if queued > 0 {
        var n := if queued > BURST then BURST else queued;
        if state != Draining {
          n := n - n % PACKET;
        }
        if n > 0 {
          Submit(n, reply);
        }
      } else if state == Draining {
        Update(last);
        SetState(match reply case NoDevice => Disconnected case Failed => Xrun case _ => Setup);
      } else if completed == submitted && stopThreshold <= frames {
        SetState(Xrun);
      }
    }

    lemma QueueExact()
      requires Valid()
      ensures 0 <= Queued(View()) == |written| - submitted <= frames
      ensures Offer(View()) <= frames
    {
      AvailableExact(View());
    }

    /** START, DRAIN, DROP and XRUN only change the state. */
    method SetState(s: State)
      requires Valid()
      modifies this`state
      ensures Valid() && View() == Apply(old(View()), Enter(s))
    {
      StateKeeps(View(), s);
      state := s;
    }

    /** One iteration of pcm_worker. */
    method Worker(first: Reading, reply: Reply, last: Reading)
      requires Valid() && Enabled(View(), Work(first, reply, last))
      modifies this`completed, this`hw, this`state, this`submitted, this`accepted
      ensures Valid() && View() == Worked(old(View()), first, reply, last)
    {
      hide Inv, Transferred, Offer;
      Update(first);
      if state == Prepared {
        var distance := if appl >= hw then appl - hw else boundary - hw + appl;
        if distance >= startThreshold {
          SetState(Running);
        }
      }
      if state == Running || state == Draining {
        Transfer(reply, last);
      }
    }

    /** The driver's own fields, without the histories. */
    function Snapshot(): Pcm
      reads this, data
    {
      Pcm(word, frames, boundary, startThreshold, stopThreshold, data[..], appl, hw, submitted, completed, state, [], [])
    }

    /** The boundary leaves room for the step. */
    predicate RoomFor(step: Step)
      reads this`boundary, this`frames
    {
      (step.Rewind? ==> 2 * boundary <= word) && (step.Forward? ==> boundary + frames <= word)
    }

    /** A step of the worker or of another task.  Answers that break the backend's promises,
        and writes in a state that forbids them, are passed over. */
    method Perform(step: Step)
      requires Valid() && RoomFor(step)
      modifies this`completed, this`hw, this`state, this`appl, this`submitted, this`written, this`accepted, data
      ensures Valid()
      ensures View() == if Enabled(old(View()), step) then Apply(old(View()), step) else old(View())
    {
      hide Inv, Enabled, Apply, Exact, Worked, Updated;
      EnabledAnyHistory(View(), step, [], []);
      if !Enabled(Snapshot(), step) {
        return;
      }
      SuitedIsExact(View(), step);
      StepKeepsIff(View(), step);
      Take(step);
    }

    method Take(step: Step)
      requires Valid() && Enabled(View(), step)
      modifies this`completed, this`hw, this`state, this`appl, this`submitted, this`written, this`accepted, data
      ensures View() == Apply(old(View()), step)
    {
      hide Inv, Worked, Updated, Stored, Loaded, Advance;
      match step
      case Update(reading) => Update(reading);
      case Write(reading, rest) => var n := WriteSome(reading, rest);
      case Work(first, reply, last) => Worker(first, reply, last);
      case Rewind(want) => var n := Rewind(want);
      case Forward(want) => var n := Forward(want);
      case Prepare => Prepare();
      case Enter(s) => SetState(s);
    }

    /** The lock is free for a while; `trace` is what happens. */
    method Sleep(steps: seq<Step>, ghost start: Pcm, ghost before: seq<Step>) returns (ghost trace: seq<Step>)
      requires Valid() && Runs(start, before, View()) && forall k :: 0 <= k < |steps| ==> RoomFor(steps[k])
      modifies this`completed, this`hw, this`state, this`appl, this`submitted, this`written, this`accepted, data
      ensures Valid() && Runs(start, before + trace, View())
      ensures AllQuiet(steps) ==> written == old(written) && old(accepted) <= accepted
    {
      hide Inv, Configured, Enabled, Apply, View, Runs;
      trace := [];
      assert before + trace == before;
      var i := 0;
      while i < |steps|
        invariant 0 <= i <= |steps| && Valid() && Runs(start, before + trace, View())
        invariant AllQuiet(steps) ==> written == old(written) && old(accepted) <= accepted
      {
        ghost var p := View();
        Histories();
        Perform(steps[i]);
        Histories();
        if Enabled(p, steps[i]) {
          RunsExtend(start, before + trace, p, steps[i]);
          assert before + (trace + [steps[i]]) == before + trace + [steps[i]];
          trace := trace + [steps[i]];
          if Quiet(steps[i]) { QuietKeeps(p, steps[i]); }
        }
        i := i + 1;
      }
    }

    lemma Histories()
      ensures View().written == written && View().accepted == accepted
      ensures Valid() ==> Configured(View())
    {
    }

    /** WRITEI.  `present` tells whether there is a buffer, `readings` gives the backend's
        answers to the position queries, `naps` what happens each time the writer sleeps.
        Together with what happens meanwhile the call is a run of the step machine. */
    method WriteFrames(present: bool, buf: seq<Frame>, nonblock: bool, readings: nat -> Reading, naps: seq<Nap>)
        returns (done: nat, ret: int, why: Why, ghost trace: seq<Step>)
      requires Valid() && forall i, k :: 0 <= i < |naps| && 0 <= k < |naps[i].steps| ==> RoomFor(naps[i].steps[k])
      modifies this`completed, this`hw, this`state, this`appl, this`submitted, this`written, this`accepted, data
      ensures Valid() && Runs(old(View()), trace, View()) && done <= |buf|
      ensures nonblock || (forall i :: 0 <= i < |naps| ==> AllQuiet(naps[i].steps)) ==>
                written == old(written) + buf[..done] && old(accepted) <= accepted
      ensures why.NoBuffer? <==> !present && buf != []
      ensures why.Unsuited? <==> (present || buf == []) && access != INTERLEAVED
      ensures why.Finished? <==> (present || buf == []) && access == INTERLEAVED && done == |buf|
      ensures why.NoBuffer? || why.Unsuited? ==> View() == old(View())
      ensures why.Underrun? ==> state == Xrun
      ensures why.Unready? ==> state != Xrun && state != Prepared && state != Running
      ensures why.Full? ==> nonblock && |written| == completed + frames
      ensures why.Signalled? ==> !nonblock && exists i :: 0 <= i < |naps| && naps[i].signal
      ensures why.Asleep? ==> !nonblock && forall i :: 0 <= i < |naps| ==> !naps[i].signal
      ensures ret == if done > 0 then 0 else why.Error()
      ensures nonblock ==> accepted == old(accepted)
      ensures nonblock && done == 0 && buf != [] && present && access == INTERLEAVED ==>
                why == if old(state) == Xrun then Underrun
                       else if old(state) != Prepared && old(state) != Running then Unready else Full
    {
      hide Inv, Apply, Configured, Enabled, Runs, AllQuiet, Stream.View, Why.Error;
      if !present && |buf| > 0 {
        NothingRuns(View());
        return 0, NoBuffer.Error(), NoBuffer, [];
      }
      if access != INTERLEAVED {
        NothingRuns(View());
        return 0, Unsuited.Error(), Unsuited, [];
      }
      done, why, trace := WriteLoop(buf, nonblock, readings, naps);
      ret := if done > 0 then 0 else why.Error();
    }

    /** The loop of WRITEI. */
    method WriteLoop(buf: seq<Frame>, nonblock: bool, readings: nat -> Reading, naps: seq<Nap>)
        returns (done: nat, why: Why, ghost trace: seq<Step>)
      requires Valid() && forall i, k :: 0 <= i < |naps| && 0 <= k < |naps[i].steps| ==> RoomFor(naps[i].steps[k])
      modifies this`completed, this`hw, this`state, this`appl, this`submitted, this`written, this`accepted, data
      ensures Valid() && Runs(old(View()), trace, View()) && done <= |buf| && !why.NoBuffer? && !why.Unsuited?
      ensures nonblock || (forall i :: 0 <= i < |naps| ==> AllQuiet(naps[i].steps)) ==>
                written == old(written) + buf[..done] && old(accepted) <= accepted
      ensures why.Finished? <==> done == |buf|
      ensures why.Underrun? ==> state == Xrun
      ensures why.Unready? ==> state != Xrun && state != Prepared && state != Running
      ensures why.Full? ==> nonblock && |written| == completed + frames
      ensures why.Signalled? ==> !nonblock && exists i :: 0 <= i < |naps| && naps[i].signal
      ensures why.Asleep? ==> !nonblock && forall i :: 0 <= i < |naps| ==> !naps[i].signal
      ensures nonblock ==> accepted == old(accepted)
      ensures nonblock && done == 0 && buf != [] ==>
                why == if old(state) == Xrun then Underrun
                       else if old(state) != Prepared && old(state) != Running then Unready else Full
    {
      hide Inv, Apply, Configured, Enabled, Runs, AllQuiet, Stream.View;
      done, why, trace := 0, Finished, [];
      NothingRuns(View());
      var query, nap := 0, 0;
      ghost var alone := nonblock || forall i :: 0 <= i < |naps| ==> AllQuiet(naps[i].steps);
      while done < |buf|
        invariant Valid() && done <= |buf| && why == Finished && Runs(old(View()), trace, View())
        invariant alone ==> written == old(written) + buf[..done] && old(accepted) <= accepted
        invariant nap <= |naps| && (forall i :: 0 <= i < nap ==> !naps[i].signal)
        invariant nonblock ==> nap == 0 && accepted == old(accepted)
        invariant nonblock && done == 0 ==> state == old(state)
        decreases |naps| - nap, |buf| - done
      {
        if state == Xrun {
          why := Underrun;
          break;
        }
        if state != Prepared && state != Running {
          why := Unready;
          break;
        }
        ghost var tried;
        var n;
        n, tried := Attempt(readings(query), buf[done..], old(View()), trace);
        trace := trace + tried;
        query := query + 1;
        assert buf[..done] + buf[done..][..n] == buf[..done + n];
        if n == 0 {
          if nonblock {
            why := Full;
            break;
          }
          if nap == |naps| {
            why := Asleep;
            break;
          }
          ghost var others := Sleep(naps[nap].steps, old(View()), trace);
          trace := trace + others;
          if naps[nap].signal {
            why := Signalled;
            break;
          }
          nap := nap + 1;
        }
        done := done + n;
      }
    }

    /** One attempt with an answer that keeps the backend's promise. */
    method Attempt(reading: Reading, rest: seq<Frame>, ghost start: Pcm, ghost before: seq<Step>)
        returns (n: nat, ghost trace: seq<Step>)
      requires Valid() && (state == Prepared || state == Running) && rest != [] && Runs(start, before, View())
      modifies this`completed, this`hw, this`state, this`appl, this`written, data
      ensures Valid() && n <= |rest| && written == old(written) + rest[..n]
      ensures n == 0 <==> |old(written)| == completed + frames
      ensures Runs(start, before + trace, View()) && exists answer :: trace == [Write(answer, rest)]
    {
      hide Inv, Apply;
      InvAvailable(View());
      var honest := Honest(Snapshot(), reading);
      assert Monotone(View(), honest);
      RunsExtend(start, before, View(), Write(honest, rest));
      trace := [Write(honest, rest)];
      n := WriteSome(honest, rest);
    }

    /** REWIND: takes frames back from the end of the stream.  The stream stays consistent
        exactly when the sum in pcm_advance fits the word. */
    method Rewind(want: nat) returns (n: nat)
      requires Valid()
      modifies this`appl, this`written
      ensures View() == Apply(old(View()), Step.Rewind(want))
      ensures n == Min(want, |old(written)| - submitted) && written == old(written)[..|old(written)| - n]
      ensures Valid() <==> Fits(word, boundary, old(appl), boundary - n)
    {
      hide Inv, Holds, Advance, Fits;
      RewindKeepsIff(View(), want);
      QueueExact();
      var tail := submitted % boundary;
      var queued := if appl >= tail then appl - tail else boundary - tail + appl;
      n := if want > queued then queued else want;
      appl := Advance(word, boundary, appl, boundary - n);
      written := written[..|written| - n];
    }

    /** FORWARD: the skipped slots are queued with whatever they hold. */
    method Forward(want: nat) returns (n: nat)
      requires Valid()
      modifies this`appl, this`written
      ensures View() == Apply(old(View()), Step.Forward(want))
      ensures n == Min(want, completed + frames - |old(written)|) == |written| - |old(written)|
      ensures old(written) <= written
      ensures Valid() <==> Fits(word, boundary, old(appl), n)
    {
      hide Inv, Advance, Loaded, Fits;
      ForwardKeepsIff(View(), want);
      var available := FreeFrames();
      n := if want > available then available else want;
      ghost var skipped := Loaded(data[..], frames, |written| % frames, n);
      appl := Advance(word, boundary, appl, n);
      written := written + skipped;
    }
  }
}
