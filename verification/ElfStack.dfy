/** The initial user stack of an ELF program (ELF_STACK in arch/abi/elf_stack.h, for both
    word sizes).

    Strings go to the top of the stack, from the last environment string down to the
    platform name and 16 random bytes; below them, 16-byte aligned, the vector of argc,
    argv, NULL, envp, NULL and the auxiliary pairs (section 3.4.1 of the System V ABI AMD64
    supplement).  Memory is a byte string indexed by address. */
module ElfStack {
  import opened Bytes

  datatype Width = W32 | W64 {
    function Size(): nat { if W32? then 4 else 8 }
    /** Bytes in n words. */
    function Span(n: nat): nat { if W32? then 4 * n else 8 * n }
    function Limit(): nat { Pow256(Size()) }
  }

  type CString = s: seq<byte> | forall k :: 0 <= k < |s| ==> s[k] != 0

  /** What exec knows about the image and the caller. */
  datatype Exec = Exec(phdr: nat, phent: nat, phnum: nat, interp: nat, entry: nat,
                       uid: nat, euid: nat, gid: nat, egid: nat, hwcap: nat, sysinfoKind: nat, sysinfo: nat)

  function Aux(e: Exec, plat: nat, random: nat, filename: nat): (r: seq<(nat, nat)>)
    ensures |r| == 19
  {
    [(3, e.phdr), (4, e.phent), (5, e.phnum), (6, 4096), (7, e.interp), (8, 0), (9, e.entry),
     (11, e.uid), (12, e.euid), (13, e.gid), (14, e.egid), (15, plat), (16, e.hwcap), (17, 100),
     (e.sysinfoKind, e.sysinfo), (25, random), (31, filename),
     (23, if e.uid != e.euid || e.gid != e.egid then 1 else 0), (0, 0)]
  }

  predicate ExecFits(e: Exec, w: Width) {
    && e.phdr < w.Limit() && e.phent < w.Limit() && e.phnum < w.Limit() && e.interp < w.Limit() && e.entry < w.Limit()
    && e.uid < w.Limit() && e.euid < w.Limit() && e.gid < w.Limit() && e.egid < w.Limit() && e.hwcap < w.Limit()
    && 0 < e.sysinfoKind < w.Limit() && e.sysinfo < w.Limit()
  }

  // ----- strings

  /** Strings one after the other, each with its terminator. */
  function Packed(ss: seq<CString>): (r: seq<byte>) {
    if ss == [] then [] else ss[0] + [0] + Packed(ss[1..])
  }

  /** Where string j of a list that ends at `top` begins. */
  function Address(ss: seq<CString>, j: nat, top: nat): nat
    requires j <= |ss|
  {
    if |Packed(ss[j..])| <= top then top - |Packed(ss[j..])| else 0
  }

  lemma PackedFrom(ss: seq<CString>, j: nat)
    requires j < |ss|
    ensures Packed(ss[j..]) == ss[j] + [0] + Packed(ss[j + 1..])
  {
    assert ss[j..][1..] == ss[j + 1..];
  }

  lemma {:induction false} PackedShrinks(ss: seq<CString>, j: nat)
    requires j <= |ss|
    ensures |Packed(ss[j..])| <= |Packed(ss)|
    ensures Packed(ss)[|Packed(ss)| - |Packed(ss[j..])|..] == Packed(ss[j..])
    decreases j
  {
    if j == 0 {
      assert ss[0..] == ss;
    } else {
      PackedShrinks(ss, j - 1);
      PackedFrom(ss, j - 1);
    }
  }

  /** The C string at address a. */
  function StringAt(m: seq<byte>, a: nat): seq<byte>
    decreases |m| - a
  {
    if a >= |m| || m[a] == 0 then [] else [m[a]] + StringAt(m, a + 1)
  }

  lemma {:induction false} StringThere(m: seq<byte>, a: nat, s: CString)
    requires a + |s| < |m| && m[a..a + |s| + 1] == s + [0]
    ensures StringAt(m, a) == s
    decreases |s|
  {
    assert m[a] == m[a..a + |s| + 1][0];
    if s != [] {
      var t: CString := s[1..];
      assert m[a + 1..a + 1 + |t| + 1] == m[a..a + |s| + 1][1..] == t + [0];
      StringThere(m, a + 1, t);
      assert s == [s[0]] + t;
    }
  }

  // ----- words

  function EncodeAll(ws: seq<nat>, w: Width): (r: seq<byte>)
    ensures |r| == w.Span(|ws|)
  {
    if ws == [] then [] else EncodeAll(ws[..|ws| - 1], w) + Encode(ws[|ws| - 1], w.Size())
  }

  function WordAt(m: seq<byte>, a: nat, w: Width): nat
    requires a + w.Size() <= |m|
  {
    Value(m[a..a + w.Size()])
  }

  lemma FirstPart<T>(a: seq<T>, b: seq<T>, from: nat, n: nat)
    requires from + n <= |a|
    ensures (a + b)[from..from + n] == a[from..from + n]
  {
  }

  lemma SecondPart<T>(a: seq<T>, b: seq<T>)
    ensures (a + b)[|a|..|a| + |b|] == b
  {
  }

  lemma {:induction false} EncodedWord(ws: seq<nat>, w: Width, i: nat)
    requires i < |ws| && ws[i] < w.Limit()
    ensures WordAt(EncodeAll(ws, w), w.Span(i), w) == ws[i]
    decreases |ws|
  {
    hide Encode, Value, Pow256;
    var front, last := ws[..|ws| - 1], ws[|ws| - 1];
    if i == |ws| - 1 {
      SecondPart(EncodeAll(front, w), Encode(last, w.Size()));
      RoundTrip(last, w.Size());
    } else {
      EncodedWord(front, w, i);
      FirstPart(EncodeAll(front, w), Encode(last, w.Size()), w.Span(i), w.Size());
    }
  }

  /** The vector ws is in memory at sp. */
  ghost predicate VectorAt(m: seq<byte>, sp: nat, ws: seq<nat>, w: Width) {
    && sp + w.Span(|ws|) <= |m|
    && forall i: nat :: i < |ws| ==> WordAt(m, sp + w.Span(i), w) == ws[i]
  }

  lemma SameWord(m: seq<byte>, a: nat, n: seq<byte>, b: nat, w: Width)
    requires a + w.Size() <= |m| && b + w.Size() <= |n|
    requires m[a..a + w.Size()] == n[b..b + w.Size()]
    ensures WordAt(m, a, w) == WordAt(n, b, w)
  {
  }

  lemma SplicedVector(m: seq<byte>, sp: nat, ws: seq<nat>, w: Width)
    requires sp + w.Span(|ws|) <= |m| && forall i :: 0 <= i < |ws| ==> ws[i] < w.Limit()
    ensures VectorAt(Splice(m, sp, EncodeAll(ws, w)), sp, ws, w)
  {
    hide EncodeAll, WordAt, Splice;
    forall i: nat | i < |ws|
      ensures WordAt(Splice(m, sp, EncodeAll(ws, w)), sp + w.Span(i), w) == ws[i]
    {
      SplicedWord(m, sp, ws, w, i);
    }
  }

  lemma SplicedWord(m: seq<byte>, sp: nat, ws: seq<nat>, w: Width, i: nat)
    requires sp + w.Span(|ws|) <= |m| && i < |ws| && ws[i] < w.Limit()
    ensures WordAt(Splice(m, sp, EncodeAll(ws, w)), sp + w.Span(i), w) == ws[i]
  {
    hide EncodeAll, WordAt, Splice;
    var e := EncodeAll(ws, w);
    EncodedWord(ws, w, i);
    SpliceSlice(m, sp, e, w.Span(i), w.Size());
    SameWord(Splice(m, sp, e), sp + w.Span(i), e, w.Span(i), w);
  }

  // ----- the reader

  /** Words from a on, up to the first zero. */
  function ListAt(m: seq<byte>, a: nat, w: Width): seq<nat>
    decreases |m| - a
  {
    if a + w.Size() > |m| || WordAt(m, a, w) == 0 then [] else [WordAt(m, a, w)] + ListAt(m, a + w.Size(), w)
  }

  /** n words from a on. */
  function WordsAt(m: seq<byte>, a: nat, n: nat, w: Width): seq<nat>
    decreases n
  {
    if n == 0 || a + w.Size() > |m| then [] else [WordAt(m, a, w)] + WordsAt(m, a + w.Size(), n - 1, w)
  }

  /** Pairs of words up to the first with a zero key. */
  function PairsAt(m: seq<byte>, a: nat, w: Width): seq<(nat, nat)>
    decreases |m| - a
  {
    if a + w.Span(2) > |m| || WordAt(m, a, w) == 0 then []
    else [(WordAt(m, a, w), WordAt(m, a + w.Size(), w))] + PairsAt(m, a + w.Span(2), w)
  }

  function StringsAt(m: seq<byte>, ptrs: seq<nat>): seq<seq<byte>> {
    if ptrs == [] then [] else [StringAt(m, ptrs[0])] + StringsAt(m, ptrs[1..])
  }

  datatype Args = Args(argc: nat, argv: seq<seq<byte>>, envp: seq<seq<byte>>, aux: seq<(nat, nat)>)

  /** A program's start-up code: argc, that many argument pointers, a zero, environment
      pointers up to a zero, auxiliary pairs up to a zero key. */
  function ReadStack(m: seq<byte>, sp: nat, w: Width): Args
    requires sp + w.Size() <= |m|
  {
    var argc := WordAt(m, sp, w);
    var envp := sp + w.Span(argc + 2);
    var env := ListAt(m, envp, w);
    Args(argc, StringsAt(m, WordsAt(m, sp + w.Size(), argc, w)), StringsAt(m, env),
         PairsAt(m, envp + w.Span(|env| + 1), w))
  }

  lemma SubVector(m: seq<byte>, sp: nat, ws: seq<nat>, w: Width, i: nat, n: nat)
    requires VectorAt(m, sp, ws, w) && i + n <= |ws|
    ensures VectorAt(m, sp + w.Span(i), ws[i..i + n], w)
  {
    hide WordAt;
    forall k: nat | k < n
      ensures WordAt(m, sp + w.Span(i) + w.Span(k), w) == ws[i..i + n][k]
    {
      assert WordAt(m, sp + w.Span(i + k), w) == ws[i + k];
    }
  }

  lemma {:induction false} WordsThere(m: seq<byte>, a: nat, xs: seq<nat>, w: Width)
    requires VectorAt(m, a, xs, w)
    ensures WordsAt(m, a, |xs|, w) == xs
    decreases |xs|
  {
    hide WordAt;
    if xs != [] {
      SubVector(m, a, xs, w, 1, |xs| - 1);
      assert WordAt(m, a + w.Span(0), w) == xs[0];
      assert xs[1..1 + (|xs| - 1)] == xs[1..];
      WordsThere(m, a + w.Size(), xs[1..], w);
    }
  }

  lemma {:induction false} ListThere(m: seq<byte>, a: nat, xs: seq<nat>, w: Width)
    requires VectorAt(m, a, xs + [0], w) && forall i :: 0 <= i < |xs| ==> xs[i] != 0
    ensures ListAt(m, a, w) == xs
    decreases |xs|
  {
    hide WordAt;
    assert WordAt(m, a + w.Span(0), w) == (xs + [0])[0];
    if xs != [] {
      SubVector(m, a, xs + [0], w, 1, |xs|);
      assert (xs + [0])[1..1 + |xs|] == xs[1..] + [0];
      ListThere(m, a + w.Size(), xs[1..], w);
    }
  }

  function Flat(ps: seq<(nat, nat)>): (r: seq<nat>)
    ensures |r| == 2 * |ps|
  {
    if ps == [] then [] else [ps[0].0, ps[0].1] + Flat(ps[1..])
  }

  lemma FlatStep(ps: seq<(nat, nat)>)
    requires ps != []
    ensures Flat(ps) == [ps[0].0, ps[0].1] + Flat(ps[1..])
  {
  }

  lemma VectorWord(m: seq<byte>, a: nat, ws: seq<nat>, w: Width, i: nat)
    requires VectorAt(m, a, ws, w) && i < |ws|
    ensures a + w.Span(i) + w.Size() <= |m| && WordAt(m, a + w.Span(i), w) == ws[i]
  {
  }

  lemma {:induction false} PairsThere(m: seq<byte>, a: nat, ps: seq<(nat, nat)>, w: Width)
    requires ps != [] && VectorAt(m, a, Flat(ps), w) && ps[|ps| - 1].0 == 0
    requires forall i :: 0 <= i < |ps| - 1 ==> ps[i].0 != 0
    ensures PairsAt(m, a, w) == ps[..|ps| - 1]
    decreases |ps|
  {
    hide WordAt, Flat, VectorAt;
    FlatStep(ps);
    var pair, rest := [ps[0].0, ps[0].1], Flat(ps[1..]);
    VectorWord(m, a, pair + rest, w, 0);
    VectorWord(m, a, pair + rest, w, 1);
    if |ps| > 1 {
      SubVector(m, a, pair + rest, w, |pair|, |rest|);
      SecondPart(pair, rest);
      PairsThere(m, a + w.Span(2), ps[1..], w);
      assert ps[..|ps| - 1] == [ps[0]] + ps[1..][..|ps| - 2];
    }
  }

  // ----- the layout

  datatype Input = Input(w: Width, top: nat, argv: seq<CString>, envp: seq<CString>, file: CString, platform: CString,
                         random: seq<byte>, exec: Exec) {
    /** All strings, from the lowest address up. */
    function Strings(): seq<CString> { [platform, file] + argv + envp }

    function Base(): int { top - |Packed(Strings())| - 16 }

    /** Addresses of n strings from string j on. */
    function Pointers(j: nat, n: nat): (r: seq<nat>)
      requires j + n <= |Strings()|
      ensures |r| == n
    {
      seq<nat>(n, i requires 0 <= i < n => Address(Strings(), j + i, top))
    }

    function Words(): nat { 1 + |argv| + 1 + |envp| + 1 + 38 }

    function Sp(): int { var low := Base() - w.Span(Words()); low - low % 16 }

    /** There is room for everything above address 0, and addresses fit a word. */
    predicate Room() { |random| == 16 && Sp() > 0 && top < w.Limit() && |argv| < w.Limit() && ExecFits(exec, w) }

    function AuxPairs(): seq<(nat, nat)>
      requires Room()
    {
      Aux(exec, Address(Strings(), 0, top), Base(), Address(Strings(), 1, top))
    }

    function Vector(): seq<nat>
      requires Room()
    {
      [|argv|] + Pointers(2, |argv|) + [0] + Pointers(2 + |argv|, |envp|) + [0] + Flat(AuxPairs())
    }
  }

  /** Every string lies between the random bytes and the top. */
  lemma Above(i: Input, j: nat)
    requires j <= |i.Strings()| && i.Base() >= 0
    ensures i.Base() + 16 <= Address(i.Strings(), j, i.top) == i.top - |Packed(i.Strings()[j..])|
  {
    PackedShrinks(i.Strings(), j);
  }

  /** Strings do not overlap: each begins after the end of the one before. */
  lemma StringsDisjoint(i: Input, j: nat, k: nat)
    requires j < k < |i.Strings()| && i.Base() >= 0
    ensures Address(i.Strings(), j, i.top) + |i.Strings()[j]| + 1 <= Address(i.Strings(), k, i.top)
    ensures Address(i.Strings(), k, i.top) + |i.Strings()[k]| + 1 <= i.top
  {
    var ss := i.Strings();
    Above(i, j);
    Above(i, k);
    PackedFrom(ss, j);
    PackedFrom(ss, k);
    PackedShrinks(ss[j + 1..], k - (j + 1));
    assert ss[j + 1..][k - (j + 1)..] == ss[k..];
  }

  /** The memory the function leaves behind. */
  function Built(m: seq<byte>, i: Input): (r: seq<byte>)
    requires i.Room() && i.top <= |m|
    ensures |r| == |m|
  {
    VectorLength(i);
    Splice(Splice(m, i.Base(), i.random + Packed(i.Strings())), i.Sp(), EncodeAll(i.Vector(), i.w))
  }

  lemma VectorLength(i: Input)
    requires i.Room()
    ensures |i.Vector()| == i.Words() && 0 < i.Sp() && i.Sp() + i.w.Span(i.Words()) <= i.Base()
  {
  }

  lemma PointersPositive(i: Input, j: nat, n: nat)
    requires i.Room() && j + n <= |i.Strings()|
    ensures forall k :: 0 <= k < n ==> 0 < i.Pointers(j, n)[k] < i.w.Limit()
  {
    forall k | 0 <= k < n
      ensures 0 < i.Pointers(j, n)[k] < i.w.Limit()
    {
      Above(i, j + k);
    }
  }

  // ----- what a reader finds

  lemma VectorFits(i: Input)
    requires i.Room()
    ensures forall k :: 0 <= k < |i.Vector()| ==> i.Vector()[k] < i.w.Limit()
  {
    hide Pow256, Packed;
    Pow256Values();
    PointersPositive(i, 2, |i.argv|);
    PointersPositive(i, 2 + |i.argv|, |i.envp|);
    AuxFits(i);
  }

  lemma AuxFits(i: Input)
    requires i.Room()
    ensures forall k :: 0 <= k < 38 ==> Flat(i.AuxPairs())[k] < i.w.Limit()
    ensures forall k :: 0 <= k < 18 ==> i.AuxPairs()[k].0 != 0
  {
    hide Pow256, Packed;
    Pow256Values();
    Above(i, 0);
    Above(i, 1);
    FlatAt(i.AuxPairs());
    forall k | 0 <= k < 19
      ensures i.AuxPairs()[k].0 < i.w.Limit() && i.AuxPairs()[k].1 < i.w.Limit()
    {
    }
  }

  lemma {:induction false} FlatAt(ps: seq<(nat, nat)>)
    ensures forall k :: 0 <= k < 2 * |ps| ==> Flat(ps)[k] == if k % 2 == 0 then ps[k / 2].0 else ps[k / 2].1
  {
    if ps != [] {
      FlatAt(ps[1..]);
      forall k | 0 <= k < 2 * |ps|
        ensures Flat(ps)[k] == if k % 2 == 0 then ps[k / 2].0 else ps[k / 2].1
      {
        if k >= 2 { assert Flat(ps)[k] == Flat(ps[1..])[k - 2]; }
      }
    }
  }

  /** Every string is where its address says. */
  lemma StringFound(m: seq<byte>, i: Input, j: nat)
    requires i.Room() && i.top <= |m| && j < |i.Strings()|
    ensures StringAt(Built(m, i), Address(i.Strings(), j, i.top)) == i.Strings()[j]
  {
    hide Splice, EncodeAll, Packed, Input.Vector;
    var ss := i.Strings();
    var a, s := Address(ss, j, i.top), ss[j];
    VectorLength(i);
    Above(i, j);
    StringInArea(ss, i.random, j);
    var area := i.random + Packed(ss);
    var from := |area| - |Packed(ss[j..])|;
    assert i.Base() + from == a;
    SpliceSlice(m, i.Base(), area, from, |s| + 1);
    SpliceAbove(Splice(m, i.Base(), area), i.Sp(), EncodeAll(i.Vector(), i.w), a, a + |s| + 1);
    StringThere(Built(m, i), a, s);
  }

  lemma StringInArea(ss: seq<CString>, random: seq<byte>, j: nat)
    requires j < |ss|
    ensures var area := random + Packed(ss);
            var from := |area| - |Packed(ss[j..])|;
            && 0 <= from && from + |ss[j]| + 1 <= |area|
            && area[from..from + |ss[j]| + 1] == ss[j] + [0]
  {
    hide Packed;
    PackedFrom(ss, j);
    PackedShrinks(ss, j);
    var area := random + Packed(ss);
    var from := |area| - |Packed(ss[j..])|;
    assert area[from..] == Packed(ss)[from - |random|..] == Packed(ss[j..]);
    assert area[from..from + |ss[j]| + 1] == area[from..][..|ss[j]| + 1];
  }

  lemma {:induction false} StringsFound(m: seq<byte>, i: Input, j: nat, n: nat)
    requires i.Room() && i.top <= |m| && j + n <= |i.Strings()|
    ensures StringsAt(Built(m, i), i.Pointers(j, n)) == i.Strings()[j..j + n]
    decreases n
  {
    hide Built, Packed, Input.Room;
    if n > 0 {
      StringFound(m, i, j);
      StringsFound(m, i, j + 1, n - 1);
      assert i.Pointers(j, n)[1..] == i.Pointers(j + 1, n - 1);
      assert i.Strings()[j..j + n] == [i.Strings()[j]] + i.Strings()[j + 1..j + n];
    }
  }

  /** The parts of the vector. */
  lemma VectorParts(i: Input)
    requires i.Room()
    ensures var v, a, e := i.Vector(), |i.argv|, |i.envp|;
            && |v| == i.Words() && v[0] == a && v[1..1 + a] == i.Pointers(2, a)
            && v[2 + a..2 + a + (e + 1)] == i.Pointers(2 + a, e) + [0]
            && v[3 + a + e..3 + a + e + 38] == Flat(i.AuxPairs())
  {
  }

  lemma VectorBuilt(m: seq<byte>, i: Input)
    requires i.Room() && i.top <= |m|
    ensures VectorAt(Built(m, i), i.Sp(), i.Vector(), i.w)
  {
    hide Splice, EncodeAll, Packed, VectorAt;
    VectorLength(i);
    VectorFits(i);
    SplicedVector(Splice(m, i.Base(), i.random + Packed(i.Strings())), i.Sp(), i.Vector(), i.w);
  }

  lemma FirstWord(m: seq<byte>, sp: nat, ws: seq<nat>, w: Width)
    requires VectorAt(m, sp, ws, w) && ws != []
    ensures sp + w.Size() <= |m| && WordAt(m, sp, w) == ws[0]
  {
    assert WordAt(m, sp + w.Span(0), w) == ws[0];
  }

  lemma ArgumentsRead(r: seq<byte>, i: Input)
    requires i.Room() && i.Sp() >= 0 && VectorAt(r, i.Sp(), i.Vector(), i.w)
    ensures i.Sp() + i.w.Size() <= |r| && WordAt(r, i.Sp(), i.w) == |i.argv|
    ensures WordsAt(r, i.Sp() + i.w.Size(), |i.argv|, i.w) == i.Pointers(2, |i.argv|)
  {
    hide Packed, Flat, WordAt, Aux, WordsAt, VectorAt, Input.Vector, Input.Sp, Input.Base, Input.Pointers, Address;
    VectorLength(i);
    VectorParts(i);
    PointersPositive(i, 2, |i.argv|);
    FirstWord(r, i.Sp(), i.Vector(), i.w);
    SubVector(r, i.Sp(), i.Vector(), i.w, 1, |i.argv|);
    WordsThere(r, i.Sp() + i.w.Size(), i.Pointers(2, |i.argv|), i.w);
  }

  lemma EnvironmentRead(r: seq<byte>, i: Input)
    requires i.Room() && i.Sp() >= 0 && VectorAt(r, i.Sp(), i.Vector(), i.w)
    ensures ListAt(r, i.Sp() + i.w.Span(|i.argv| + 2), i.w) == i.Pointers(2 + |i.argv|, |i.envp|)
  {
    hide Packed, Flat, WordAt, Aux, ListAt, VectorAt, Input.Vector, Input.Sp, Input.Base, Input.Pointers, Address;
    VectorLength(i);
    VectorParts(i);
    PointersPositive(i, 2 + |i.argv|, |i.envp|);
    SubVector(r, i.Sp(), i.Vector(), i.w, 2 + |i.argv|, |i.envp| + 1);
    ListThere(r, i.Sp() + i.w.Span(|i.argv| + 2), i.Pointers(2 + |i.argv|, |i.envp|), i.w);
  }

  lemma AuxiliaryRead(r: seq<byte>, i: Input)
    requires i.Room() && i.Sp() >= 0 && VectorAt(r, i.Sp(), i.Vector(), i.w)
    ensures |i.AuxPairs()| == 19
    ensures PairsAt(r, i.Sp() + i.w.Span(|i.argv| + 2) + i.w.Span(|i.envp| + 1), i.w) == i.AuxPairs()[..18]
  {
    hide Packed, Flat, WordAt, Aux, PairsAt, VectorAt, Input.Vector, Input.Sp, Input.Base, Input.Pointers, Address;
    VectorLength(i);
    VectorParts(i);
    SubVector(r, i.Sp(), i.Vector(), i.w, 3 + |i.argv| + |i.envp|, 38);
    AuxFits(i);
    AuxEnds(i);
    PairsThere(r, i.Sp() + i.w.Span(3 + |i.argv| + |i.envp|), i.AuxPairs(), i.w);
  }

  /** For every argument and environment list: a reader that walks argc, argv, NULL, envp,
      NULL and the auxiliary pairs gets back exactly the same strings and pairs. */
  lemma ReaderRecovers(m: seq<byte>, i: Input)
    requires i.Room() && i.top <= |m|
    ensures i.Sp() + i.w.Size() <= |m| && |i.AuxPairs()| == 19
    ensures ReadStack(Built(m, i), i.Sp(), i.w) == Args(|i.argv|, i.argv, i.envp, i.AuxPairs()[..18])
  {
    hide Built, Packed, WordAt, Aux, WordsAt, ListAt, PairsAt, StringsAt, VectorAt;
    var r := Built(m, i);
    VectorBuilt(m, i);
    ArgumentsRead(r, i);
    EnvironmentRead(r, i);
    AuxiliaryRead(r, i);
    StringsFound(m, i, 2, |i.argv|);
    StringsFound(m, i, 2 + |i.argv|, |i.envp|);
    assert i.Strings()[2..2 + |i.argv|] == i.argv;
    assert i.Strings()[2 + |i.argv|..2 + |i.argv| + |i.envp|] == i.envp;
  }

  /** The vector is 16-byte aligned and lies below the strings; nothing outside [sp, top) is
      written. */
  lemma BuiltInPlace(m: seq<byte>, i: Input)
    requires i.Room() && i.top <= |m|
    ensures i.Sp() % 16 == 0 && i.Sp() + i.w.Span(i.Words()) <= i.Base()
    ensures Built(m, i)[..i.Sp()] == m[..i.Sp()] && Built(m, i)[i.top..] == m[i.top..]
  {
    hide EncodeAll, Packed, Splice, Input.Vector, Input.Strings;
    VectorLength(i);
    var strings := i.random + Packed(i.Strings());
    var once := Splice(m, i.Base(), strings);
    SpliceOutside(m, i.Base(), strings, i.Sp(), i.top);
    SpliceOutside(once, i.Sp(), EncodeAll(i.Vector(), i.w), i.Sp(), i.top);
  }

  lemma AuxEnds(i: Input)
    requires i.Room()
    ensures |i.AuxPairs()| == 19 && i.AuxPairs()[18] == (0, 0)
  {
  }

  // ----- the code

  class AddressSpace {
    const mem: array<byte>

    constructor (contents: seq<byte>)
      ensures fresh(mem) && mem[..] == contents
    {
      mem := new byte[|contents|](i requires 0 <= i < |contents| => contents[i]);
    }

    /** memcpy or strcpy into user memory. */
    method Copy(at: nat, b: seq<byte>)
      requires at + |b| <= mem.Length
      modifies mem
      ensures mem[..] == Splice(old(mem[..]), at, b)
    {
      forall k | 0 <= k < |b| { mem[at + k] := b[k]; }
    }

    /** Copies the strings ss below `sp`, the last one highest; returns the new sp and the
        addresses. */
    method PushStrings(ss: seq<CString>, sp0: nat) returns (sp: nat, av: seq<nat>)
      requires |Packed(ss)| <= sp0 <= mem.Length
      modifies mem
      ensures sp == sp0 - |Packed(ss)| && |av| == |ss|
      ensures forall j :: 0 <= j < |ss| ==> av[j] == Address(ss, j, sp0)
      ensures mem[..] == Splice(old(mem[..]), sp, Packed(ss))
    {
      hide Packed, Splice;
      sp, av := sp0, [];
      ghost var m := mem[..];
      var i := |ss|;
      NothingPacked(ss);
      NothingSpliced(m, sp);
      while i > 0
        invariant 0 <= i <= |ss| && |av| == |ss| - i
        invariant |Packed(ss[i..])| <= sp0 && sp == sp0 - |Packed(ss[i..])|
        invariant forall j :: i <= j < |ss| ==> av[j - i] == Address(ss, j, sp0)
        invariant mem[..] == Splice(m, sp, Packed(ss[i..]))
      {
        i := i - 1;
        PackedFrom(ss, i);
        PackedShrinks(ss, i);
        sp := sp - (|ss[i]| + 1);
        Copy(sp, ss[i] + [0]);
        SplicePrepend(m, sp, ss[i] + [0], Packed(ss[i + 1..]));
        av := [sp] + av;
      }
      assert ss[0..] == ss;
    }

    /** PUSH_WORD for a run of words. */
    method PushWords(w: Width, cursor: nat, ws: seq<nat>, ghost m: seq<byte>, ghost sp: nat, ghost before: seq<nat>)
        returns (next: nat)
      requires |m| == mem.Length && cursor == sp + w.Span(|before|) && cursor + w.Span(|ws|) <= |m|
      requires mem[..] == Splice(m, sp, EncodeAll(before, w))
      modifies mem
      ensures next == sp + w.Span(|before + ws|)
      ensures mem[..] == Splice(m, sp, EncodeAll(before + ws, w))
    {
      hide EncodeAll, Splice;
      next := cursor;
      var i := 0;
      assert before + ws[..0] == before;
      while i < |ws|
        invariant 0 <= i <= |ws| && next == cursor + w.Span(i)
        invariant mem[..] == Splice(m, sp, EncodeAll(before + ws[..i], w))
      {
        Copy(next, Encode(ws[i], w.Size()));
        OneMore(before, ws, i, w);
        SpliceTwice(m, sp, EncodeAll(before + ws[..i], w), Encode(ws[i], w.Size()));
        next := next + w.Size();
        i := i + 1;
      }
      assert ws[..i] == ws;
    }

    /** The upper part: strings and random bytes. */
    method BuildStrings(i: Input) returns (sp: nat, av: seq<nat>)
      requires i.Room() && i.top <= mem.Length
      modifies mem
      ensures sp == i.Base() && |av| == |i.Strings()|
      ensures forall j :: 0 <= j < |av| ==> av[j] == Address(i.Strings(), j, i.top)
      ensures mem[..] == Splice(old(mem[..]), i.Base(), i.random + Packed(i.Strings()))
    {
      hide Packed, Splice;
      StringBytes(i);
      sp, av := PushStrings([i.platform, i.file] + i.argv + i.envp, i.top);
      sp := sp - 16;
      Copy(sp, i.random);
      SplicePrepend(old(mem[..]), sp, i.random, Packed(i.Strings()));
    }

    /** The vector, word by word from sp on. */
    method BuildVector(w: Width, sp: nat, argv: seq<nat>, envp: seq<nat>, aux: seq<(nat, nat)>)
      requires sp + w.Span(3 + |argv| + |envp| + 2 * |aux|) <= mem.Length
      modifies mem
      ensures mem[..] == Splice(old(mem[..]), sp, EncodeAll([|argv|] + argv + [0] + envp + [0] + Flat(aux), w))
    {
      hide Splice, EncodeAll, Flat;
      ghost var m := mem[..];
      NothingSpliced(m, sp);
      EncodeNothing(w);
      var cursor := PushWords(w, sp, [|argv|], m, sp, []);
      assert [] + [|argv|] == [|argv|];
      cursor := PushWords(w, cursor, argv, m, sp, [|argv|]);
      cursor := PushWords(w, cursor, [0], m, sp, [|argv|] + argv);
      cursor := PushWords(w, cursor, envp, m, sp, [|argv|] + argv + [0]);
      cursor := PushWords(w, cursor, [0], m, sp, [|argv|] + argv + [0] + envp);
      cursor := PushWords(w, cursor, Flat(aux), m, sp, [|argv|] + argv + [0] + envp + [0]);
    }

    /** ELF_STACK */
    method Build(i: Input) returns (sp: nat)
      requires i.Room() && i.top <= mem.Length
      modifies mem
      ensures sp == i.Sp() && mem[..] == Built(old(mem[..]), i)
    {
      hide Packed, Splice, EncodeAll, Aux, Flat, Address, Input.Strings;
      VectorLength(i);
      var av: seq<nat>;
      sp, av := BuildStrings(i);
      var a := |i.argv|;
      PointerSlices(i, av);
      var aux := Aux(i.exec, av[0], sp, av[1]);
      var low := sp - i.w.Span(i.Words());
      sp := low - low % 16;
      BuildVector(i.w, sp, av[2..2 + a], av[2 + a..], aux);
    }
  }

  /** The recorded addresses are the pointers of the two lists. */
  lemma PointerSlices(i: Input, av: seq<nat>)
    requires i.Base() >= 0 && |av| == |i.Strings()|
    requires forall j :: 0 <= j < |av| ==> av[j] == Address(i.Strings(), j, i.top)
    ensures |av| == 2 + |i.argv| + |i.envp|
    ensures av[0] == Address(i.Strings(), 0, i.top) && av[1] == Address(i.Strings(), 1, i.top)
    ensures av[2..2 + |i.argv|] == i.Pointers(2, |i.argv|)
    ensures av[2 + |i.argv|..] == i.Pointers(2 + |i.argv|, |i.envp|)
  {
  }

  lemma NothingPacked(ss: seq<CString>)
    ensures Packed(ss[|ss|..]) == []
  {
  }

  lemma NothingSpliced(m: seq<byte>, at: nat)
    requires at <= |m|
    ensures Splice(m, at, []) == m
  {
  }

  lemma EncodeNothing(w: Width)
    ensures EncodeAll([], w) == []
  {
  }

  lemma OneMore(before: seq<nat>, ws: seq<nat>, i: nat, w: Width)
    requires i < |ws|
    ensures EncodeAll(before + ws[..i + 1], w) == EncodeAll(before + ws[..i], w) + Encode(ws[i], w.Size())
  {
    var all := before + ws[..i + 1];
    assert all[..|all| - 1] == before + ws[..i] && all[|all| - 1] == ws[i];
  }

  lemma StringBytes(i: Input)
    requires i.Room()
    ensures |Packed(i.Strings())| + 16 <= i.top && i.Base() == i.top - |Packed(i.Strings())| - 16
  {
  }
}
