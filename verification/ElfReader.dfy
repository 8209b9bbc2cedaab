/** Reading program headers (read_phdrs in arch/abi/elf_reader.h).

    The headers are read from the file into the start of the output array in the file's
    own format and then widened to 64-bit headers in place, from the last to the first.
    An i386 header has 32 bytes and its flags near the end; the 64-bit one has 56. */
module ElfReader {
  import opened Bytes

  const PHDR := 56      // sizeof(Elf64_Phdr)
  const ENOEXEC := 8

  datatype Wire = Elf32 | Elf64

  function Size(w: Wire): nat {
    if w.Elf32? then 32 else PHDR
  }

  /** Where header i of the file's table begins. */
  function Off(w: Wire, i: nat): nat {
    if w.Elf32? then 32 * i else PHDR * i
  }

  datatype Phdr = Phdr(kind: nat, flags: nat, offset: nat, vaddr: nat, paddr: nat, filesz: nat, memsz: nat, align: nat)

  /** A header in the file's format. */
  function DecodeWire(w: Wire, b: seq<byte>): Phdr
    requires |b| == Size(w)
  {
    if w.Elf32? then
      Phdr(Value(b[0..4]), Value(b[24..28]), Value(b[4..8]), Value(b[8..12]), Value(b[12..16]), Value(b[16..20]),
           Value(b[20..24]), Value(b[28..32]))
    else Decode(b)
  }

  /** A 64-bit header in memory. */
  function Decode(b: seq<byte>): Phdr
    requires |b| == PHDR
  {
    Phdr(Value(b[0..4]), Value(b[4..8]), Value(b[8..16]), Value(b[16..24]), Value(b[24..32]), Value(b[32..40]),
         Value(b[40..48]), Value(b[48..56]))
  }

  function EncodePhdr(p: Phdr): (b: seq<byte>)
    ensures |b| == PHDR
  {
    Encode(p.kind, 4) + Encode(p.flags, 4) + Encode(p.offset, 8) + Encode(p.vaddr, 8) + Encode(p.paddr, 8)
    + Encode(p.filesz, 8) + Encode(p.memsz, 8) + Encode(p.align, 8)
  }

  predicate Fits(p: Phdr) {
    && p.kind < Pow256(4) && p.flags < Pow256(4) && p.offset < Pow256(8) && p.vaddr < Pow256(8)
    && p.paddr < Pow256(8) && p.filesz < Pow256(8) && p.memsz < Pow256(8) && p.align < Pow256(8)
  }

  /** The fields of a concatenation of two words and six double words. */
  lemma Fields(a: seq<byte>, b: seq<byte>, c: seq<byte>, d: seq<byte>,
               e: seq<byte>, f: seq<byte>, g: seq<byte>, h: seq<byte>)
    requires |a| == |b| == 4 && |c| == |d| == |e| == |f| == |g| == |h| == 8
    ensures var s := a + b + c + d + e + f + g + h;
            && s[0..4] == a && s[4..8] == b && s[8..16] == c && s[16..24] == d
            && s[24..32] == e && s[32..40] == f && s[40..48] == g && s[48..56] == h
  {
    var s4 := a + b + c + d;
    assert s4[0..4] == a && s4[4..8] == b && s4[8..16] == c && s4[16..24] == d;
    var s := s4 + e + f + g + h;
    assert s[..32] == s4 + e;
    assert s[24..32] == e;
    assert s[32..40] == f;
    assert s[40..48] == g;
    assert s[48..56] == h;
    assert s[0..4] == s4[0..4] && s[4..8] == s4[4..8] && s[8..16] == s4[8..16] && s[16..24] == s4[16..24];
  }

  lemma PhdrRoundTrip(p: Phdr)
    requires Fits(p)
    ensures Decode(EncodePhdr(p)) == p
  {
    hide Value, Encode;
    Fields(Encode(p.kind, 4), Encode(p.flags, 4), Encode(p.offset, 8), Encode(p.vaddr, 8), Encode(p.paddr, 8),
           Encode(p.filesz, 8), Encode(p.memsz, 8), Encode(p.align, 8));
    RoundTrip(p.kind, 4);
    RoundTrip(p.flags, 4);
    RoundTrip(p.offset, 8);
    RoundTrip(p.vaddr, 8);
    RoundTrip(p.paddr, 8);
    RoundTrip(p.filesz, 8);
    RoundTrip(p.memsz, 8);
    RoundTrip(p.align, 8);
  }

  lemma WireFits(w: Wire, b: seq<byte>)
    requires |b| == Size(w)
    ensures Fits(DecodeWire(w, b))
  {
    Pow256Values();
  }

  /** Header i of the file's table. */
  function WireAt(w: Wire, table: seq<byte>, i: nat): Phdr
    requires Off(w, i) + Size(w) <= |table|
  {
    DecodeWire(w, table[Off(w, i)..Off(w, i) + Size(w)])
  }

  /** Header i of the output array. */
  function HeaderAt(s: seq<byte>, i: nat): Phdr
    requires (i + 1) * PHDR <= |s|
  {
    Decode(s[i * PHDR..i * PHDR + PHDR])
  }

  /** Writing header i leaves the file's headers below i and the finished ones above it. */
  lemma WriteHeader(w: Wire, s: seq<byte>, i: nat, p: Phdr)
    requires (i + 1) * PHDR <= |s| && Fits(p)
    ensures var r := Splice(s, i * PHDR, EncodePhdr(p));
            && HeaderAt(r, i) == p
            && r[..Off(w, i)] == s[..Off(w, i)]
            && forall j: nat :: i < j && (j + 1) * PHDR <= |s| ==> HeaderAt(r, j) == HeaderAt(s, j)
  {
    hide Decode, EncodePhdr;
    var r := Splice(s, i * PHDR, EncodePhdr(p));
    assert r[i * PHDR..i * PHDR + PHDR] == EncodePhdr(p);
    PhdrRoundTrip(p);
    forall j: nat | i < j && (j + 1) * PHDR <= |s|
      ensures HeaderAt(r, j) == HeaderAt(s, j)
    {
      assert r[j * PHDR..j * PHDR + PHDR] == s[j * PHDR..j * PHDR + PHDR];
    }
  }

  method Store(a: array<byte>, at: nat, v: nat, n: nat)
    requires at + n <= a.Length
    modifies a
    ensures a[..] == Splice(old(a[..]), at, Encode(v, n))
  {
    var b := Encode(v, n);
    forall i | 0 <= i < n { a[at + i] := b[i]; }
  }

  /** The field-by-field copy into output[i]. */
  method StoreHeader(a: array<byte>, at: nat, p: Phdr)
    requires at + PHDR <= a.Length
    modifies a
    ensures a[..] == Splice(old(a[..]), at, EncodePhdr(p))
  {
    hide Encode;
    ghost var s := a[..];
    Store(a, at, p.kind, 4);
    ghost var e := Encode(p.kind, 4);
    Store(a, at + 4, p.flags, 4);
    SpliceTwice(s, at, e, Encode(p.flags, 4));
    e := e + Encode(p.flags, 4);
    Store(a, at + 8, p.offset, 8);
    SpliceTwice(s, at, e, Encode(p.offset, 8));
    e := e + Encode(p.offset, 8);
    Store(a, at + 16, p.vaddr, 8);
    SpliceTwice(s, at, e, Encode(p.vaddr, 8));
    e := e + Encode(p.vaddr, 8);
    Store(a, at + 24, p.paddr, 8);
    SpliceTwice(s, at, e, Encode(p.paddr, 8));
    e := e + Encode(p.paddr, 8);
    Store(a, at + 32, p.filesz, 8);
    SpliceTwice(s, at, e, Encode(p.filesz, 8));
    e := e + Encode(p.filesz, 8);
    Store(a, at + 40, p.memsz, 8);
    SpliceTwice(s, at, e, Encode(p.memsz, 8));
    e := e + Encode(p.memsz, 8);
    Store(a, at + 48, p.align, 8);
    SpliceTwice(s, at, e, Encode(p.align, 8));
  }

  /** The state of the loop: the first n headers still as in the file, the rest widened. */
  ghost predicate Partial(w: Wire, file: seq<byte>, s: seq<byte>, n: nat, count: nat) {
    && n <= count && count * PHDR <= |s| && Off(w, count) <= |file|
    && s[..Off(w, n)] == file[..Off(w, n)]
    && forall i: nat :: n <= i < count ==> HeaderAt(s, i) == WireAt(w, file, i)
  }

  /** The header to be widened next can still be read, and widening it makes progress. */
  lemma PartialStep(w: Wire, file: seq<byte>, s: seq<byte>, n: nat, count: nat)
    requires Partial(w, file, s, n + 1, count)
    ensures var input := s[Off(w, n)..Off(w, n) + Size(w)];
            && input == file[Off(w, n)..Off(w, n) + Size(w)]
            && Partial(w, file, Splice(s, n * PHDR, EncodePhdr(DecodeWire(w, input))), n, count)
  {
    hide Decode, DecodeWire, EncodePhdr, Fits;
    var o, z := Off(w, n), Size(w);
    var input := s[o..o + z];
    assert input == s[..o + z][o..] && file[o..o + z] == file[..o + z][o..];
    WireFits(w, input);
    WriteHeader(w, s, n, DecodeWire(w, input));
    assert s[..o] == s[..o + z][..o] && file[..o] == file[..o + z][..o];
  }

  /** read_phdrs: `file` is what the file holds from the table's offset on. */
  method ReadPhdrs(w: Wire, file: seq<byte>, count: nat, output: array<byte>) returns (ret: int)
    requires count <= 0xffff && output.Length >= count * PHDR
    modifies output
    ensures ret == if |file| < Off(w, count) then -ENOEXEC else 0
    ensures ret == 0 ==> forall i: nat :: i < count ==> HeaderAt(output[..], i) == WireAt(w, file, i)
    ensures forall k :: count * PHDR <= k < output.Length ==> output[k] == old(output[k])
  {
    hide Decode, DecodeWire, EncodePhdr, HeaderAt, WireAt;
    var size := Off(w, count);
    if |file| < size {
      return -ENOEXEC;
    }
    forall k | 0 <= k < size { output[k] := file[k]; }
    assert output[..][..size] == file[..size];
    var n := count;
    while n > 0
      invariant 0 <= n <= count
      invariant Partial(w, file, output[..], n, count)
      invariant forall k :: count * PHDR <= k < output.Length ==> output[k] == old(output[k])
    {
      n := n - 1;
      PartialStep(w, file, output[..], n, count);
      var input := output[Off(w, n)..Off(w, n) + Size(w)];
      StoreHeader(output, n * PHDR, DecodeWire(w, input));
    }
    return 0;
  }
}
