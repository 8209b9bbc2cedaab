/** SATA requests over AHCI (command, sata_rw and sata_discard in
    src/driver/storage/ahci.c).

    The host writes a register FIS into the command table; the disk decodes the same bytes.
    The medium, the DMA buffer and the caller's buffer are byte strings, so that a read or a
    write is followed from the caller's buffer through the FIS to the medium. */
module Ahci {
  import opened Bytes
  import Bits
  import Modular

  const DATA_BYTES: nat := 131072      // SATA_PAGES * PAGE_SIZE
  const TABLE_BYTES: nat := 256
  const READ_DMA := 0xc8
  const READ_DMA_EXT := 0x25
  const WRITE_DMA := 0xca
  const WRITE_DMA_EXT := 0x35
  const DATA_SET_MANAGEMENT := 0x06

  // ----- the command FIS

  /** (uint8_t)(v >> 8 * k) */
  function ByteAt(v: nat, k: nat): byte {
    if k == 0 then (v % 256) as byte else ByteAt(v / 256, k - 1)
  }

  lemma {:induction false} EncodeAt(v: nat, n: nat, k: nat)
    requires k < n
    ensures Encode(v, n)[k] == ByteAt(v, k)
  {
    if k > 0 { EncodeAt(v / 256, n - 1, k - 1); }
  }

  /** Sectors [lba, lba + count). */
  datatype Range = Range(lba: nat, count: nat)

  /** A request as the disk understands it. */
  datatype Request = Request(op: byte, range: Range)

  predicate Extended(op: int) { op == READ_DMA_EXT || op == WRITE_DMA_EXT || op == DATA_SET_MANAGEMENT }
  predicate Writes(op: int) { op == WRITE_DMA || op == WRITE_DMA_EXT }
  predicate Reads(op: int) { op == READ_DMA || op == READ_DMA_EXT }

  /** The disk's reading of a register FIS: 48-bit commands take the address from six bytes
      and the count from two, where 0 stands for 65536; 28-bit commands take the top four
      address bits from the device byte and the count from one, where 0 stands for 256. */
  function Decode(f: seq<byte>): Request
    requires |f| >= 16
  {
    if Extended(f[2] as int) then
      var c := Value([f[12], f[13]]);
      Request(f[2], Range(Value([f[4], f[5], f[6], f[8], f[9], f[10]]), if c == 0 then 65536 else c))
    else
      var c := f[12] as int;
      Request(f[2], Range(Value([f[4], f[5], f[6], (f[7] as int % 16) as byte]), if c == 0 then 256 else c))
  }

  /** The bytes the host writes for a 48-bit request are those of this record. */
  predicate IsExtendedFis(f: seq<byte>, op: byte, lba: nat, count: nat) {
    && |f| >= 16 && f[2] == op
    && f[4] == ByteAt(lba, 0) && f[5] == ByteAt(lba, 1) && f[6] == ByteAt(lba, 2)
    && f[8] == ByteAt(lba, 3) && f[9] == ByteAt(lba, 4) && f[10] == ByteAt(lba, 5)
    && f[12] == ByteAt(count, 0) && f[13] == ByteAt(count, 1)
  }

  predicate IsShortFis(f: seq<byte>, op: byte, lba: nat, count: nat) {
    && |f| >= 16 && f[2] == op
    && f[4] == ByteAt(lba, 0) && f[5] == ByteAt(lba, 1) && f[6] == ByteAt(lba, 2)
    && f[7] as int == 0x40 + ByteAt(lba, 3) as int % 16 && f[12] == ByteAt(count, 0)
  }

  lemma SixBytes(v: nat)
    ensures [ByteAt(v, 0), ByteAt(v, 1), ByteAt(v, 2), ByteAt(v, 3), ByteAt(v, 4), ByteAt(v, 5)] == Encode(v, 6)
  {
    forall k: nat | k < 6
      ensures Encode(v, 6)[k] == ByteAt(v, k)
    {
      EncodeAt(v, 6, k);
    }
  }

  lemma RoundTripIff(v: nat, n: nat)
    ensures Value(Encode(v, n)) == v <==> v < Pow256(n)
  {
    if v < Pow256(n) { RoundTrip(v, n); }
  }

  lemma Pow48()
    ensures Pow256(6) == 0x1_0000_0000_0000 && Pow256(2) == 0x1_0000
  {
    assert Pow256(6) == 256 * (256 * Pow256(4));
    Pow256Values();
  }

  lemma SplitWord(c: nat, a: nat)
    requires a == c / 256
    ensures c % 256 + 256 * (a % 256) == c % 0x1_0000
  {
    Modular.Unique(c, 0x1_0000, a / 256, c % 256 + 256 * (a % 256));
  }

  lemma TwoBytes(c: nat)
    ensures Value([ByteAt(c, 0), ByteAt(c, 1)]) == c % 0x1_0000
  {
    var lo, hi := ByteAt(c, 0), ByteAt(c, 1);
    assert [lo, hi][1..] == [hi] && [hi][1..] == [];
    assert Value([hi]) == hi as int + 256 * Value([]);
    ByteStep(c, 0);
    ByteStep(c / 256, 0);
    SplitWord(c, c / 256);
  }

  lemma FourBytes(a: byte, b: byte, c: byte, d: byte)
    ensures Value([a, b, c, d]) == a as int + 256 * (b as int + 256 * (c as int + 256 * d as int))
  {
    assert [a, b, c, d][1..] == [b, c, d] && [b, c, d][1..] == [c, d] && [c, d][1..] == [d] && [d][1..] == [];
    assert Value([d]) == d as int + 256 * Value([]);
    assert Value([c, d]) == c as int + 256 * Value([d]);
    assert Value([b, c, d]) == b as int + 256 * Value([c, d]);
  }

  /** A 48-bit request is read back exactly when its address and count fit the fields. */
  lemma ExtendedRoundTrip(f: seq<byte>, op: byte, lba: nat, count: nat)
    requires Extended(op as int) && IsExtendedFis(f, op, lba, count) && count > 0
    ensures Decode(f) == Request(op, Range(lba, count)) <==> lba < 0x1_0000_0000_0000 && count <= 65536
  {
    hide ByteAt, Encode, Value, Pow256;
    SixBytes(lba);
    RoundTripIff(lba, 6);
    Pow48();
    TwoBytes(count);
  }

  /** A 28-bit request likewise. */
  lemma ShortRoundTrip(f: seq<byte>, op: byte, lba: nat, count: nat)
    requires !Extended(op as int) && IsShortFis(f, op, lba, count) && count > 0
    ensures Decode(f) == Request(op, Range(lba, count)) <==> lba < 0x1000_0000 && count <= 256
  {
    hide Encode, Value, Pow256, ByteAt;
    FourBytes(f[4], f[5], f[6], (f[7] as int % 16) as byte);
    ShortAddress(lba);
    ByteStep(count, 0);
    InRange(lba, 0x1000_0000);
    CountField(count);
  }

  lemma InRange(x: nat, m: nat)
    requires m > 0
    ensures x % m == x <==> x < m
  {
    if x < m { Modular.Unique(x, m, 0, x); }
  }

  /** A count byte of 0 stands for 256. */
  lemma CountField(count: nat)
    requires count > 0
    ensures (if count % 256 == 0 then 256 else count % 256) == count <==> count <= 256
  {
  }

  lemma ByteStep(v: nat, k: nat)
    ensures ByteAt(v, k + 1) == ByteAt(v / 256, k) && ByteAt(v, 0) as int == v % 256
  {
  }

  lemma Digits(v: nat, r0: nat, r1: nat, r2: nat, c: nat)
    requires r0 < 256 && r1 < 256 && r2 < 256 && v == r0 + 256 * (r1 + 256 * (r2 + 256 * c))
    ensures r0 + 256 * (r1 + 256 * (r2 + 256 * (c % 16))) == v % 0x1000_0000
  {
    DigitsAt(v, r0, r1, r2, c / 16, c % 16);
  }

  lemma DigitsAt(v: nat, r0: nat, r1: nat, r2: nat, q: nat, n: nat)
    requires r0 < 256 && r1 < 256 && r2 < 256 && n < 16 && v == r0 + 256 * (r1 + 256 * (r2 + 256 * (16 * q + n)))
    ensures r0 + 256 * (r1 + 256 * (r2 + 256 * n)) == v % 0x1000_0000
  {
    var low := r0 + 256 * (r1 + 256 * (r2 + 256 * n));
    assert v == low + 0x1000_0000 * q && low < 0x1000_0000;
    Modular.Unique(v, 0x1000_0000, q, low);
  }

  lemma ShortAddress(lba: nat)
    ensures ByteAt(lba, 0) as int
            + 256 * (ByteAt(lba, 1) as int + 256 * (ByteAt(lba, 2) as int + 256 * (ByteAt(lba, 3) as int % 16)))
            == lba % 0x1000_0000
  {
    hide ByteAt;
    var a := lba / 256;
    var b := a / 256;
    var c := b / 256;
    ByteStep(lba, 0);
    ByteStep(lba, 1);
    ByteStep(lba, 2);
    ByteStep(a, 0);
    ByteStep(a, 1);
    ByteStep(b, 0);
    ByteStep(c, 0);
    LowNibble(c);
    Digits(lba, lba % 256, a % 256, b % 256, c);
  }

  lemma LowNibble(c: nat)
    ensures (c % 256) % 16 == c % 16
  {
  }

  // ----- splitting

  /** The ranges, in order, are non-empty, follow each other and make up [from, to). */
  predicate Tiled(ranges: seq<Range>, from: nat, to: nat) {
    if ranges == [] then from == to
    else
      var last := ranges[|ranges| - 1];
      last.count > 0 && last.lba + last.count == to && Tiled(ranges[..|ranges| - 1], from, last.lba)
  }

  predicate Covers(r: Range, s: int) { r.lba <= s < r.lba + r.count }

  /** Every sector of [from, to) is in exactly one of the ranges, and no other sector is in any. */
  lemma {:induction false} TiledCoversOnce(ranges: seq<Range>, from: nat, to: nat, s: int)
    requires Tiled(ranges, from, to)
    ensures from <= to
    ensures from <= s < to <==> exists i :: 0 <= i < |ranges| && Covers(ranges[i], s)
    ensures forall i, j :: 0 <= i < j < |ranges| ==> !(Covers(ranges[i], s) && Covers(ranges[j], s))
    decreases |ranges|
  {
    if ranges != [] {
      var n := |ranges| - 1;
      var init, last := ranges[..n], ranges[n];
      TiledCoversOnce(init, from, last.lba, s);
      if from <= s < to {
        if s < last.lba {
          var i :| 0 <= i < |init| && Covers(init[i], s);
          assert Covers(ranges[i], s);
        } else {
          assert Covers(ranges[n], s);
        }
      }
      forall i | 0 <= i < |ranges| && Covers(ranges[i], s)
        ensures from <= s < to
      {
        if i < n { assert Covers(init[i], s); }
      }
      forall i, j | 0 <= i < j < |ranges|
        ensures !(Covers(ranges[i], s) && Covers(ranges[j], s))
      {
        if j < n { assert init[i] == ranges[i] && init[j] == ranges[j]; } else { assert init[i] == ranges[i]; }
      }
    }
  }

  lemma TiledAppend(ranges: seq<Range>, from: nat, to: nat, r: Range)
    requires Tiled(ranges, from, to) && r.lba == to && r.count > 0
    ensures Tiled(ranges + [r], from, to + r.count)
  {
    assert (ranges + [r])[..|ranges|] == ranges;
  }

  // ----- TRIM entries

  /** Entry i of a TRIM block: 48 address bits below 16 count bits. */
  function Entry(b: seq<byte>, i: nat): Range
    requires 8 * i + 8 <= |b|
  {
    var v := Value(b[8 * i..8 * i + 8]);
    Range(v % 0x1_0000_0000_0000, v / 0x1_0000_0000_0000)
  }

  /** The ranges named by the first n entries; a count of zero names none. */
  function Live(b: seq<byte>, n: nat): seq<Range>
    requires 8 * n <= |b|
  {
    if n == 0 then []
    else Live(b, n - 1) + if Entry(b, n - 1).count == 0 then [] else [Entry(b, n - 1)]
  }

  /** What the host stores for a range: lba | n << 48. */
  function Packed(lba: nat, n: nat): nat { Bits.Or(lba, n * 0x1_0000_0000_0000) }

  lemma {:induction false} OrDisjoint(a: nat, m: nat, k: nat)
    requires a < Bits.Pow2(k)
    ensures Bits.Or(a, m * Bits.Pow2(k)) == a + m * Bits.Pow2(k)
  {
    if k == 0 {
      OrZero(m);
    } else {
      var p := Bits.Pow2(k - 1);
      OrDisjoint(a / 2, m, k - 1);
      assert m * Bits.Pow2(k) == 2 * (m * p) by { Bits.DoubleProduct(p, m); }
      EvenOr(a, m * p);
    }
  }

  lemma {:induction false} OrZero(m: nat)
    ensures Bits.Or(0, m) == m
  {
    if m > 0 { OrZero(m / 2); }
  }

  lemma EvenOr(a: nat, b: nat)
    ensures Bits.Or(a, 2 * b) == 2 * Bits.Or(a / 2, b) + a % 2
  {
  }

  lemma Shift48()
    ensures Bits.Pow2(48) == 0x1_0000_0000_0000
  {
    Bits.Pow2Values();
    Bits.Pow2Sum(32, 16);
  }

  /** An entry names the intended sectors exactly when the address fits 48 bits. */
  lemma EntryExactIff(b: seq<byte>, i: nat, lba: nat, n: nat)
    requires 8 * i + 8 <= |b| && 0 < n < 65536 && lba < 0x1_0000_0000_0000_0000
    requires b[8 * i..8 * i + 8] == Encode(Packed(lba, n), 8)
    ensures Entry(b, i) == Range(lba, n) <==> lba < 0x1_0000_0000_0000
  {
    hide Encode, Value, Bits.Or, Bits.Pow2, Pow256;
    if lba < 0x1_0000_0000_0000 {
      Shift48();
      OrDisjoint(lba, n, 48);
      Pow256Values();
      RoundTrip(Packed(lba, n), 8);
      Modular.Unique(Packed(lba, n), 0x1_0000_0000_0000, n, lba);
    }
  }

  /** Entries of a zeroed tail name nothing. */
  lemma {:induction false} ZeroTail(b: seq<byte>, k: nat, n: nat)
    requires k <= n && 8 * n <= |b| && forall i :: 8 * k <= i < 8 * n ==> b[i] == 0
    ensures Live(b, n) == Live(b, k)
    decreases n
  {
    if k < n {
      ZeroTail(b, k, n - 1);
      ZeroValue(b[8 * (n - 1)..8 * (n - 1) + 8]);
    }
  }

  lemma {:induction false} ZeroValue(b: seq<byte>)
    requires forall i :: 0 <= i < |b| ==> b[i] == 0
    ensures Value(b) == 0
  {
    if b != [] { ZeroValue(b[1..]); }
  }

  /** Entries below k are not affected by bytes from 8 * k up. */
  lemma {:induction false} LiveSame(b: seq<byte>, c: seq<byte>, k: nat)
    requires 8 * k <= |b| && 8 * k <= |c| && b[..8 * k] == c[..8 * k]
    ensures Live(b, k) == Live(c, k)
  {
    if k > 0 {
      var lo := 8 * (k - 1);
      assert b[..lo] == b[..8 * k][..lo] && c[..lo] == c[..8 * k][..lo];
      LiveSame(b, c, k - 1);
      assert b[lo..lo + 8] == b[..8 * k][lo..] && c[lo..lo + 8] == c[..8 * k][lo..];
    }
  }

  // ----- the port

  /** How a command ends: transferred in full; the port never became ready, so nothing was
      sent; or an error after it was sent, which stops the port when fatal.  A failed command
      may leave anything (`left`) at the start of what it was to overwrite: the sectors
      of a write, the data buffer of a read. */
  datatype Outcome = Done | NotReady | Failed(fatal: bool, left: seq<byte>)

  function Clip(left: seq<byte>, n: nat): (r: seq<byte>)
    ensures |r| <= n
  {
    if |left| > n then left[..n] else left
  }

  function Spans(reqs: seq<Request>): seq<Range> { seq(|reqs|, i requires 0 <= i < |reqs| => reqs[i].range) }

  lemma SpansAppend(reqs: seq<Request>, r: Request)
    ensures Spans(reqs + [r]) == Spans(reqs) + [r.range]
  {
  }

  /** Byte offset of a sector. */
  function At(lba: nat, size: nat): nat { lba * size }

  lemma AtAdd(a: nat, b: nat, size: nat)
    ensures At(a + b, size) == At(a, size) + At(b, size)
  {
  }

  lemma AtMonotone(a: nat, b: nat, size: nat)
    requires a <= b
    ensures At(a, size) <= At(b, size)
  {
  }

  /** The largest number of sectors a command takes. */
  function MaxSectors(size: nat, lba48: bool): nat
    requires size > 0
  {
    var m := DATA_BYTES / size;
    if !lba48 && m > 256 then 256 else m
  }

  lemma QuotientBounds(size: nat, m: nat, r: nat)
    requires 512 <= size <= 4096 && r < size && DATA_BYTES == m * size + r
    ensures 32 <= m <= 256
  {
    AtMonotoneSize(m, 512, size);
    AtMonotoneSize(m, size, 4096);
  }

  lemma AtMonotoneSize(m: nat, a: nat, b: nat)
    requires a <= b
    ensures m * a <= m * b
  {
  }

  lemma MaxFits(size: nat, lba48: bool, n: nat)
    requires 512 <= size <= 4096 && n <= MaxSectors(size, lba48)
    ensures MaxSectors(size, lba48) > 0 && n <= 256 && At(n, size) <= DATA_BYTES
  {
    var m := DATA_BYTES / size;
    QuotientBounds(size, m, DATA_BYTES % size);
    AtMonotone(n, m, size);
  }

  /** The fields of a command hold its address and count. */
  predicate FitsFields(op: int, lba: nat, count: nat) {
    && count > 0
    && if Extended(op) then lba < 0x1_0000_0000_0000 && count <= 65536 else lba < 0x1000_0000 && count <= 256
  }

  /** The disk after a write of b at offset `at` ended with o. */
  function Written(disk: seq<byte>, at: nat, b: seq<byte>, o: Outcome): (r: seq<byte>)
    ensures |r| == |disk|
  {
    if at + |b| > |disk| || o.NotReady? then disk
    else Splice(disk, at, if o.Done? then b else Clip(o.left, |b|))
  }

  /** The data buffer after a read of n bytes at offset `at` ended with o. */
  function Fetched(data: seq<byte>, disk: seq<byte>, at: nat, n: nat, o: Outcome): (r: seq<byte>)
    ensures |r| == |data|
  {
    if at + n > |disk| || n > |data| || o.NotReady? then data
    else Splice(data, 0, if o.Done? then disk[at..at + n] else Clip(o.left, n))
  }

  lemma NothingFetched(data: seq<byte>, disk: seq<byte>, at: nat, n: nat)
    ensures Fetched(data, disk, at, n, NotReady) == data
  {
  }

  /** The caller's buffer after n bytes of the medium, from offset `at`, are stored at `from`. */
  function Stored(buf: seq<byte>, from: nat, disk: seq<byte>, at: nat, n: nat): (r: seq<byte>)
    ensures |r| == |buf|
  {
    if at + n > |disk| || from + n > |buf| then buf else Splice(buf, from, disk[at..at + n])
  }

  /** What a read leaves in the data buffer, copied out. */
  lemma FetchedThenStored(data: seq<byte>, buf: seq<byte>, from: nat, disk: seq<byte>, at: nat, n: nat)
    requires at + n <= |disk| && from + n <= |buf| && n <= |data|
    ensures Splice(buf, from, Fetched(data, disk, at, n, Done)[..n]) == Stored(buf, from, disk, at, n)
  {
    assert Fetched(data, disk, at, n, Done)[..n] == disk[at..at + n];
  }

  /** Byte k of the medium belongs to one of the ranges. */
  predicate Names(ranges: seq<Range>, size: nat, k: int) {
    exists i :: 0 <= i < |ranges| && At(ranges[i].lba, size) <= k < At(ranges[i].lba + ranges[i].count, size)
  }

  /** The medium after a TRIM of the ranges, complete or not: nothing is promised of the
      sectors they name. */
  function Discarded(disk: seq<byte>, ranges: seq<Range>, size: nat, erased: seq<byte>): (r: seq<byte>)
    ensures |r| == |disk|
  {
    seq(|disk|, k requires 0 <= k < |disk| => if k < |erased| && Names(ranges, size, k) then erased[k] else disk[k])
  }

  ghost predicate SameOutside(a: seq<byte>, b: seq<byte>, from: nat, to: nat) {
    |a| == |b| && forall k :: 0 <= k < |a| && !(from <= k < to) ==> a[k] == b[k]
  }

  class Port {
    const lba48: bool
    const size: nat          // bytes in a sector
    const sectors: nat
    const table: array<byte>
    const data: array<byte>
    const erased: seq<byte>  // what the disk holds in place of discarded sectors
    var dead: bool
    var disk: seq<byte>
    ghost var issued: seq<Request>
    ghost var trimmed: seq<Range>

    /** What port_init accepts. */
    ghost predicate Valid()
      reads this
    {
      && table != data && table.Length == TABLE_BYTES && data.Length == DATA_BYTES
      && 512 <= size <= 4096 && size % 2 == 0
      && 0 < sectors <= (if lba48 then 0x1_0000_0000_0000 else 0x1000_0000)
      && |disk| == At(sectors, size)
    }

    constructor (lba48: bool, size: nat, sectors: nat, disk: seq<byte>, erased: seq<byte>)
      requires 512 <= size <= 4096 && size % 2 == 0 && |disk| == At(sectors, size)
      requires 0 < sectors <= (if lba48 then 0x1_0000_0000_0000 else 0x1000_0000)
      ensures Valid() && this.disk == disk && !dead && issued == [] && trimmed == [] && fresh(table) && fresh(data)
    {
      this.lba48, this.size, this.sectors, this.disk, this.erased := lba48, size, sectors, disk, erased;
      table, data := new byte[TABLE_BYTES](i => 0), new byte[DATA_BYTES](i => 0);
      dead, issued, trimmed := false, [], [];
    }

    /** The register FIS of command. */
    method WriteFis(op: byte, lba: nat, count: nat, extended: bool)
      requires Valid()
      modifies table
      ensures if extended then IsExtendedFis(table[..], op, lba, count) else IsShortFis(table[..], op, lba, count)
    {
      hide ByteAt, At;
      ClearTable();
      var f := table;
      f[0] := 0x27;
      f[1] := 0x80;
      f[2] := op;
      WriteAddress(lba, extended);
      if extended {
        f[13] := ByteAt(count, 1);
      }
      f[12] := ByteAt(count, 0);
      if op == DATA_SET_MANAGEMENT {
        f[3] := 1;
      }
    }

    method WriteAddress(lba: nat, extended: bool)
      requires table.Length == TABLE_BYTES
      modifies table
      ensures table[4] == ByteAt(lba, 0) && table[5] == ByteAt(lba, 1) && table[6] == ByteAt(lba, 2)
      ensures if extended then table[8] == ByteAt(lba, 3) && table[9] == ByteAt(lba, 4) && table[10] == ByteAt(lba, 5)
              else table[7] as int == 0x40 + ByteAt(lba, 3) as int % 16
      ensures table[2] == old(table[2])
    {
      hide ByteAt;
      var f := table;
      f[4] := ByteAt(lba, 0);
      f[5] := ByteAt(lba, 1);
      f[6] := ByteAt(lba, 2);
      f[7] := 0x40;
      if extended {
        f[8] := ByteAt(lba, 3);
        f[9] := ByteAt(lba, 4);
        f[10] := ByteAt(lba, 5);
      } else {
        f[7] := (0x40 + ByteAt(lba, 3) as int % 16) as byte;
      }
    }

    method ClearTable()
      requires table.Length == TABLE_BYTES
      modifies table
      ensures forall i :: 0 <= i < TABLE_BYTES ==> table[i] == 0
    {
      forall i | 0 <= i < TABLE_BYTES {
        table[i] := 0;
      }
    }

    /** The disk serving the FIS in the table: it decodes the request and moves `bytes` bytes
        between the data buffer and the medium. */
    method Serve(bytes: nat, o: Outcome) returns (ok: bool)
      requires Valid() && !o.NotReady? && bytes <= DATA_BYTES
      requires var r := Decode(table[..]);
               Reads(r.op as int) || Writes(r.op as int) ==>
                 r.range.lba + r.range.count <= sectors && bytes == At(r.range.count, size)
      modifies data, this`disk, this`issued, this`trimmed
      ensures Valid() && ok == o.Done? && issued == old(issued) + [Decode(table[..])]
      ensures var r := Decode(table[..]);
              var at := At(r.range.lba, size);
              && disk == (if Writes(r.op as int) then Written(old(disk), at, old(data[..bytes]), o)
                          else if r.op == DATA_SET_MANAGEMENT then Discarded(old(disk), Live(old(data[..512]), 64), size, erased)
                          else old(disk))
              && data[..] == (if Reads(r.op as int) then Fetched(old(data[..]), old(disk), at, bytes, o) else old(data[..]))
              && trimmed == old(trimmed) + (if ok && r.op == DATA_SET_MANAGEMENT then Live(old(data[..512]), 64) else [])
    {
      hide At, Decode, Live, Discarded, Splice, Written;
      var r := Decode(table[..]);
      ok := o.Done?;
      issued := issued + [r];
      AtAdd(r.range.lba, r.range.count, size);
      var at := At(r.range.lba, size);
      if Writes(r.op as int) {
        disk := Written(disk, at, data[..bytes], o);
      } else if Reads(r.op as int) {
        AtMonotone(r.range.lba + r.range.count, sectors, size);
        var got := if ok then disk[at..at + bytes] else Clip(o.left, bytes);
        Receive(got);
        assert table[..] == old(table[..]);
      } else if r.op == DATA_SET_MANAGEMENT {
        disk := Discarded(disk, Live(data[..512], 64), size, erased);
        if ok {
          trimmed := trimmed + Live(data[..512], 64);
        }
      }
    }

    /** The disk storing to the data buffer. */
    method Receive(got: seq<byte>)
      requires |got| <= data.Length
      modifies data
      ensures data[..] == Splice(old(data[..]), 0, got)
    {
      forall i | 0 <= i < |got| {
        data[i] := got[i];
      }
      assert data[..] == Splice(old(data[..]), 0, got);
    }

    /** command: refused by a dead port; otherwise the FIS is built and served. */
    method Command(op: byte, lba: nat, count: nat, bytes: nat, extended: bool, o: Outcome) returns (ok: bool)
      requires Valid() && extended == Extended(op as int) && FitsFields(op as int, lba, count) && bytes <= DATA_BYTES
      requires Reads(op as int) || Writes(op as int) ==> lba + count <= sectors && bytes == At(count, size)
      modifies table, data, this
      ensures Valid() && ok == (!old(dead) && o.Done?)
      ensures dead == (old(dead) || o.NotReady? || (o.Failed? && o.fatal))
      ensures var sent := !old(dead) && !o.NotReady?;
              && issued == old(issued) + (if sent then [Request(op, Range(lba, count))] else [])
              && disk == (if sent && Writes(op as int) then Written(old(disk), At(lba, size), old(data[..bytes]), o)
                          else if sent && op == DATA_SET_MANAGEMENT
                          then Discarded(old(disk), Live(old(data[..512]), 64), size, erased)
                          else old(disk))
      ensures data[..] == if !old(dead) && Reads(op as int) then Fetched(old(data[..]), old(disk), At(lba, size), bytes, o)
                          else old(data[..])
      ensures trimmed == old(trimmed) + if ok && op == DATA_SET_MANAGEMENT then Live(old(data[..512]), 64) else []
    {
      hide At, Decode, Live, IsExtendedFis, IsShortFis, Written, Fetched, Discarded;
      if dead {
        return false;
      }
      if o.NotReady? {
        NothingFetched(data[..], disk, At(lba, size), bytes);
        dead := true;
        return false;
      }
      WriteFis(op, lba, count, extended);
      if extended { ExtendedRoundTrip(table[..], op, lba, count); } else { ShortRoundTrip(table[..], op, lba, count); }
      ok := Serve(bytes, o);
      if o.Failed? && o.fatal {
        dead := true;
      }
    }

    /** One round of sata_rw: n sectors between buf[from..] and the medium. */
    method Transfer(buf: array<byte>, from: nat, lba: nat, n: nat, write: bool, o: Outcome) returns (ok: bool)
      requires Valid() && buf != data && buf != table
      requires 0 < n <= MaxSectors(size, lba48) && lba + n <= sectors && from + At(n, size) <= buf.Length
      modifies this, table, data, buf
      ensures Valid() && ok == (!old(dead) && o.Done?) && (ok ==> !dead) && trimmed == old(trimmed)
      ensures (!ok && issued == old(issued)) || issued == old(issued) + [Request(Opcode(write, lba48), Range(lba, n))]
      ensures write ==> buf[..] == old(buf[..])
                        && ((disk == old(disk) && !ok)
                            || disk == Written(old(disk), At(lba, size), buf[from..from + At(n, size)], o))
      ensures !write ==>
                && disk == old(disk)
                && buf[..] == if ok then Stored(old(buf[..]), from, disk, At(lba, size), At(n, size)) else old(buf[..])
    {
      hide At, Written, Fetched, Stored, MaxSectors, Live, Discarded;
      MaxFits(size, lba48, n);
      AtIs(n, size);
      AtAdd(lba, n, size);
      AtMonotone(lba + n, sectors, size);
      var bytes := n * size;
      if write {
        CopyIn(buf, from, bytes);
      }
      ok := Command(Opcode(write, lba48), lba, n, bytes, lba48, o);
      if ok && !write {
        CopyOut(buf, from, bytes);
        FetchedThenStored(old(data[..]), old(buf[..]), from, disk, At(lba, size), bytes);
      }
    }

    method CopyIn(buf: array<byte>, from: nat, n: nat)
      requires buf != data && from + n <= buf.Length && n <= data.Length
      modifies data
      ensures data[..n] == buf[from..from + n]
    {
      forall i | 0 <= i < n {
        data[i] := buf[from + i];
      }
    }

    method CopyOut(buf: array<byte>, from: nat, n: nat)
      requires buf != data && from + n <= buf.Length && n <= data.Length
      modifies buf
      ensures buf[..] == Splice(old(buf[..]), from, data[..n])
    {
      forall i | 0 <= i < n {
        buf[from + i] := data[i];
      }
      assert buf[..] == Splice(old(buf[..]), from, data[..n]);
    }

    /** A round, as part of the transfer of count0 sectors from lba0: d0 is the medium before
        the call. */
    method Round(buf: array<byte>, from: nat, lba: nat, n: nat, write: bool, o: Outcome,
                 ghost lba0: nat, ghost count0: nat, ghost d0: seq<byte>) returns (ok: bool)
      requires Valid() && buf != data && buf != table && buf.Length == At(count0, size)
      requires lba0 <= lba && 0 < n <= MaxSectors(size, lba48) && lba + n <= lba0 + count0 <= sectors
      requires from == At(lba - lba0, size) <= buf.Length && Holds(disk, At(lba0, size), buf[..from])
      requires SameOutside(d0, disk, At(lba0, size), At(lba0 + count0, size))
      modifies this, table, data, buf
      ensures Valid() && ok == (!old(dead) && o.Done?) && (ok ==> !dead) && trimmed == old(trimmed)
      ensures (!ok && issued == old(issued)) || issued == old(issued) + [Request(Opcode(write, lba48), Range(lba, n))]
      ensures At(lba + n - lba0, size) == from + At(n, size) <= buf.Length
      ensures ok ==> Holds(disk, At(lba0, size), buf[..from + At(n, size)])
      ensures SameOutside(d0, disk, At(lba0, size), At(lba0 + count0, size))
      ensures if write then buf[..] == old(buf[..]) else disk == old(disk)
    {
      hide At, Holds, SameOutside, Written, Stored, MaxSectors;
      ghost var d, b := disk, buf[..];
      OffsetsAdd(lba0, lba - lba0, n, count0, size);
      AtMonotone(lba0 + count0, sectors, size);
      ok := Transfer(buf, from, lba, n, write, o);
      if write {
        WriteKeeps(d0, d, disk, buf[..], At(lba0, size), from, At(n, size), At(lba0 + count0, size), ok, o);
      } else if ok {
        ReadKeeps(disk, b, buf[..], At(lba0, size), from, At(n, size));
      }
    }

    /** sata_rw.  Requests beyond the end are refused.  The commands sent cover the sectors
        in order without gap or overlap, up to the end when the call succeeds; then the
        caller's buffer and the medium agree there.  Nothing else on the medium changes. */
    method ReadWrite(buf: array<byte>, lba0: nat, count0: nat, write: bool, script: seq<Outcome>)
        returns (ok: bool, ghost sent: seq<Request>, ghost to: nat)
      requires Valid() && buf != data && buf != table && buf.Length == At(count0, size)
      modifies this, table, data, buf
      ensures Valid() && issued == old(issued) + sent && trimmed == old(trimmed)
      ensures lba0 + count0 > sectors ==> !ok && sent == [] && disk == old(disk) && buf[..] == old(buf[..])
      ensures to <= lba0 + count0 && Split(sent, lba0, to, write, lba48, size)
      ensures lba0 + count0 <= sectors && !old(dead) && (forall o :: o in script ==> o.Done?) ==> ok
      ensures ok ==> to == lba0 + count0 && Holds(disk, At(lba0, size), buf[..])
      ensures SameOutside(old(disk), disk, At(lba0, size), At(lba0 + count0, size))
      ensures if write then buf[..] == old(buf[..]) else disk == old(disk)
    {
      hide At, Split, Holds, SameOutside, Written, Stored, MaxSectors;
      sent, to, ok := [], lba0, true;
      SplitNothing(lba0, write, lba48, size);
      SameStart(disk, At(lba0, size), At(lba0 + count0, size));
      if lba0 > sectors || count0 > sectors - lba0 {
        return false, sent, to;
      }
      var lba, count, from, round := lba0, count0, 0, 0;
      AtAdd(lba0, count0, size);
      AtMonotone(lba0 + count0, sectors, size);
      HoldsNothing(disk, At(lba0, size), buf[..0]);
      AtIs(0, size);
      while count > 0 && ok
        invariant Valid() && issued == old(issued) + sent && trimmed == old(trimmed)
        invariant 0 <= count <= count0 && (ok ==> to == lba == lba0 + count0 - count)
        invariant lba0 <= to <= lba0 + count0 && Split(sent, lba0, to, write, lba48, size)
        invariant ok ==> from == At(count0 - count, size) <= buf.Length && Holds(disk, At(lba0, size), buf[..from])
        invariant SameOutside(old(disk), disk, At(lba0, size), At(lba0 + count0, size))
        invariant !old(dead) && (forall o :: o in script ==> o.Done?) ==> ok && !dead
        invariant if write then buf[..] == old(buf[..]) else disk == old(disk)
      {
        var max := MaxSectors(size, lba48);
        MaxFits(size, lba48, max);
        var n := if count > max then max else count;
        var o := if round < |script| then script[round] else Done;
        ghost var i0 := issued;
        ok := Round(buf, from, lba, n, write, o, lba0, count0, old(disk));
        ghost var r := Request(Opcode(write, lba48), Range(lba, n));
        if issued == i0 + [r] {
          SplitAppend(sent, lba0, to, write, lba48, size, n);
          sent, to := sent + [r], to + n;
        }
        AtIs(n, size);
        lba, count, from, round := lba + n, count - n, from + n * size, round + 1;
      }
      if ok { assert buf[..] == buf[..from]; }
    }

    /** Fills the data buffer with up to 64 ranges; the address is a 64-bit word.  Addresses of
        48 bits come out as intended. */
    method PackRanges(lba0: nat, count0: nat) returns (lba: nat, count: nat, ghost ranges: seq<Range>)
      requires Valid() && count0 > 0
      modifies data
      ensures count < count0
      ensures lba0 + count0 <= ADDRESSES ==>
                && lba + count == lba0 + count0 && Live(data[..512], 64) == ranges
                && Tiled(ranges, lba0, lba) && TrimSized(ranges)
    {
      hide Live, Tiled, At, Packed, Encode;
      ClearBlock();
      lba, count, ranges := lba0, count0, [];
      NothingPacked(data[..512], lba0);
      var i := 0;
      while i < 64 && count > 0
        invariant 0 <= i <= 64 && count <= count0 && (i > 0 ==> count < count0)
        invariant forall k :: 8 * i <= k < 512 ==> data[k] == 0
        invariant lba0 + count0 <= ADDRESSES ==>
                    && lba + count == lba0 + count0 && Live(data[..512], i) == ranges
                    && Tiled(ranges, lba0, lba) && TrimSized(ranges)
      {
        var n := if count > 65535 then 65535 else count;
        ghost var before := data[..512];
        StoreWord(8 * i, Packed(lba, n));
        if lba0 + count0 <= ADDRESSES {
          PackOne(before, data[..512], i, lba, n);
          TiledAppend(ranges, lba0, lba, Range(lba, n));
          ranges := ranges + [Range(lba, n)];
        }
        lba, count, i := (lba + n) % 0x1_0000_0000_0000_0000, count - n, i + 1;
      }
      ZeroTail(data[..512], i, 64);
    }

    method ClearBlock()
      requires Valid()
      modifies data
      ensures forall k :: 0 <= k < 512 ==> data[k] == 0
    {
      forall k | 0 <= k < 512 {
        data[k] := 0;
      }
    }

    /** A 64-bit little-endian store into the TRIM block. */
    method StoreWord(at: nat, v: nat)
      requires Valid() && at + 8 <= 512
      modifies data
      ensures data[at..at + 8] == Encode(v, 8)
      ensures forall k :: 0 <= k < data.Length && !(at <= k < at + 8) ==> data[k] == old(data[k])
    {
      hide Encode, At;
      var w := Encode(v, 8);
      forall k | 0 <= k < 8 {
        data[at + k] := w[k];
      }
      assert data[at..at + 8] == w;
    }

    /** sata_discard.  For addresses of 48 bits the TRIM entries the disk accepted follow each
        other and make up the sectors, all of them when the call succeeds, and nothing else
        on the medium changes. */
    method Discard(lba0: nat, count0: nat, script: seq<Outcome>) returns (ok: bool, ghost ranges: seq<Range>, ghost to: nat)
      requires Valid() && lba48
      modifies this, table, data
      ensures Valid() && (!old(dead) && (forall o :: o in script ==> o.Done?) ==> ok)
      ensures lba0 + count0 <= ADDRESSES ==>
                && trimmed == old(trimmed) + ranges && Tiled(ranges, lba0, to) && TrimSized(ranges)
                && to <= lba0 + count0 && (ok ==> to == lba0 + count0)
                && SameOutside(old(disk), disk, At(lba0, size), At(lba0 + count0, size))
    {
      hide Live, Tiled, At, Discarded, SameOutside;
      var lba: nat, count: nat, round: nat := lba0, count0, 0;
      ghost var fits := lba0 + count0 <= ADDRESSES;
      ranges, to, ok := [], lba0, true;
      NothingTiled(lba0);
      SameStart(disk, At(lba0, size), At(lba0 + count0, size));
      while count > 0
        invariant Valid() && count <= count0 && ok
        invariant fits ==> trimmed == old(trimmed) + ranges && Tiled(ranges, lba0, to) && TrimSized(ranges)
        invariant fits ==> lba0 <= to == lba && lba + count == lba0 + count0
        invariant fits ==> SameOutside(old(disk), disk, At(lba0, size), At(lba0 + count0, size))
        invariant !old(dead) && (forall o :: o in script ==> o.Done?) ==> !dead
        decreases count
      {
        ghost var block;
        ghost var d := disk;
        lba, count, block := PackRanges(lba, count);
        var o := if round < |script| then script[round] else Done;
        ok := Command(DATA_SET_MANAGEMENT, 0, 1, 512, true, o);
        if fits {
          DiscardKeeps(old(disk), d, block, to, lba, lba0, count0, size, erased);
        }
        if !ok {
          return;
        }
        if fits {
          TiledConcat(ranges, lba0, to, block, lba);
          ranges := ranges + block;
        }
        to, round := lba, round + 1;
      }
    }
  }

  const ADDRESSES := 0x1_0000_0000_0000

  /** Discarding a tiled stretch changes no byte outside it. */
  lemma DiscardKeeps(d0: seq<byte>, d: seq<byte>, block: seq<Range>, from: nat, to: nat, lba0: nat, count0: nat,
                     size: nat, erased: seq<byte>)
    requires Tiled(block, from, to) && lba0 <= from && to <= lba0 + count0
    requires SameOutside(d0, d, At(lba0, size), At(lba0 + count0, size))
    ensures SameOutside(d0, Discarded(d, block, size, erased), At(lba0, size), At(lba0 + count0, size))
  {
    hide At, Tiled;
    forall k | 0 <= k < |d| && Names(block, size, k)
      ensures At(lba0, size) <= k < At(lba0 + count0, size)
    {
      var i :| 0 <= i < |block| && At(block[i].lba, size) <= k < At(block[i].lba + block[i].count, size);
      TiledInside(block, from, to, i);
      AtMonotone(lba0, block[i].lba, size);
      AtMonotone(block[i].lba + block[i].count, lba0 + count0, size);
    }
  }

  lemma {:induction false} TiledInside(ranges: seq<Range>, from: nat, to: nat, i: nat)
    requires Tiled(ranges, from, to) && i < |ranges|
    ensures from <= ranges[i].lba && ranges[i].lba + ranges[i].count <= to
    decreases |ranges|
  {
    var n := |ranges| - 1;
    if i < n {
      TiledInside(ranges[..n], from, ranges[n].lba, i);
    } else {
      TiledOrder(ranges[..n], from, ranges[n].lba);
    }
  }

  lemma {:induction false} TiledOrder(ranges: seq<Range>, from: nat, to: nat)
    requires Tiled(ranges, from, to)
    ensures from <= to
    decreases |ranges|
  {
    if ranges != [] { TiledOrder(ranges[..|ranges| - 1], from, ranges[|ranges| - 1].lba); }
  }

  /** Every range is non-empty and its count fits 16 bits. */
  predicate TrimSized(ranges: seq<Range>) {
    forall i :: 0 <= i < |ranges| ==> 0 < ranges[i].count <= 65535
  }

  lemma NothingTiled(lba: nat)
    ensures Tiled([], lba, lba)
  {
  }

  lemma NothingPacked(b: seq<byte>, lba: nat)
    ensures Live(b, 0) == [] && Tiled([], lba, lba)
  {
  }

  /** Storing entry i adds its range to those of the entries before it. */
  lemma PackOne(b: seq<byte>, c: seq<byte>, i: nat, lba: nat, n: nat)
    requires |b| == |c| == 512 && i < 64 && 0 < n < 65536 && lba < 0x1_0000_0000_0000
    requires c[8 * i..8 * i + 8] == Encode(Packed(lba, n), 8)
    requires forall k :: 0 <= k < 8 * i ==> c[k] == b[k]
    ensures Live(c, i + 1) == Live(b, i) + [Range(lba, n)]
  {
    hide Encode, Packed, Entry;
    assert b[..8 * i] == c[..8 * i];
    LiveSame(b, c, i);
    EntryExactIff(c, i, lba, n);
  }

  lemma {:induction false} TiledConcat(a: seq<Range>, from: nat, mid: nat, b: seq<Range>, to: nat)
    requires Tiled(a, from, mid) && Tiled(b, mid, to)
    ensures Tiled(a + b, from, to)
    decreases |b|
  {
    if b == [] {
      assert a + b == a;
    } else {
      var n := |b| - 1;
      TiledConcat(a, from, mid, b[..n], b[n].lba);
      assert (a + b)[..|a + b| - 1] == a + b[..n];
    }
  }

  /** b lies on the medium at offset `at`. */
  ghost predicate Holds(disk: seq<byte>, at: nat, b: seq<byte>) {
    at + |b| <= |disk| && disk[at..at + |b|] == b
  }

  /** A command of sata_rw: the right opcode, a non-empty range that fits the fields and the
      data buffer. */
  predicate IsSplit(r: Request, write: bool, lba48: bool, size: nat) {
    && r.op == Opcode(write, lba48) && FitsFields(r.op as int, r.range.lba, r.range.count)
    && At(r.range.count, size) <= DATA_BYTES
  }

  /** The requests are commands of sata_rw that make up [lba0, to). */
  ghost predicate Split(sent: seq<Request>, lba0: nat, to: nat, write: bool, lba48: bool, size: nat) {
    Tiled(Spans(sent), lba0, to) && forall r :: r in sent ==> IsSplit(r, write, lba48, size)
  }

  lemma SplitNothing(lba0: nat, write: bool, lba48: bool, size: nat)
    ensures Split([], lba0, lba0, write, lba48, size)
  {
  }

  lemma SplitAppend(sent: seq<Request>, lba0: nat, to: nat, write: bool, lba48: bool, size: nat, n: nat)
    requires Split(sent, lba0, to, write, lba48, size) && 512 <= size <= 4096 && 0 < n <= MaxSectors(size, lba48)
    requires to < if lba48 then 0x1_0000_0000_0000 else 0x1000_0000
    ensures Split(sent + [Request(Opcode(write, lba48), Range(to, n))], lba0, to + n, write, lba48, size)
  {
    hide Tiled, At;
    var r := Request(Opcode(write, lba48), Range(to, n));
    MaxFits(size, lba48, n);
    SpansAppend(sent, r);
    TiledAppend(Spans(sent), lba0, to, r.range);
  }

  lemma SameStart(disk: seq<byte>, from: nat, to: nat)
    ensures SameOutside(disk, disk, from, to)
  {
  }

  lemma HoldsNothing(disk: seq<byte>, at: nat, b: seq<byte>)
    requires b == [] && at <= |disk|
    ensures Holds(disk, at, b)
  {
  }

  lemma OffsetsAdd(lba0: nat, done: nat, n: nat, count0: nat, size: nat)
    requires done + n <= count0
    ensures At(lba0 + done, size) == At(lba0, size) + At(done, size) && At(done + n, size) == At(done, size) + At(n, size)
    ensures At(done + n, size) <= At(count0, size) && At(lba0 + count0, size) == At(lba0, size) + At(count0, size)
  {
    AtAdd(lba0, done, size);
    AtAdd(done, n, size);
    AtMonotone(done + n, count0, size);
    AtAdd(lba0, count0, size);
  }

  /** A round of a write: d0 is the medium before the call, d and d' before and after the
      round, b the caller's buffer, which ends at offset `end` of the medium. */
  lemma WriteKeeps(d0: seq<byte>, d: seq<byte>, d': seq<byte>, b: seq<byte>,
                   at: nat, from: nat, n: nat, end: nat, ok: bool, o: Outcome)
    requires from + n <= |b| && at + |b| == end <= |d| && SameOutside(d0, d, at, end) && (ok ==> o.Done?)
    requires Holds(d, at, b[..from])
    requires (d' == d && !ok) || d' == Written(d, at + from, b[from..from + n], o)
    ensures SameOutside(d0, d', at, end)
    ensures ok ==> Holds(d', at, b[..from + n])
  {
    if ok { WriteHolds(d, b, at, from, n); }
  }

  lemma WriteHolds(d: seq<byte>, b: seq<byte>, at: nat, from: nat, n: nat)
    requires from + n <= |b| && at + from + n <= |d| && Holds(d, at, b[..from])
    ensures Holds(Splice(d, at + from, b[from..from + n]), at, b[..from + n])
  {
    var d' := Splice(d, at + from, b[from..from + n]);
    assert b[..from + n] == b[..from] + b[from..from + n];
    assert d'[at..at + from] == d[at..at + from];
    assert d'[at + from..at + from + n] == b[from..from + n];
    assert d'[at..at + from + n] == d'[at..at + from] + d'[at + from..at + from + n];
  }

  /** A round of a read: b and b' are the caller's buffer before and after it. */
  lemma ReadKeeps(d: seq<byte>, b: seq<byte>, b': seq<byte>, at: nat, from: nat, n: nat)
    requires from + n <= |b| && at + from + n <= |d| && Holds(d, at, b[..from]) && b' == Stored(b, from, d, at + from, n)
    ensures Holds(d, at, b'[..from + n])
  {
    assert b'[..from] == b[..from];
    assert b'[from..from + n] == d[at + from..at + from + n];
    assert b'[..from + n] == b'[..from] + b'[from..from + n];
    assert d[at..at + from + n] == d[at..at + from] + d[at + from..at + from + n];
  }

  function Opcode(write: bool, lba48: bool): byte {
    if lba48 then (if write then WRITE_DMA_EXT else READ_DMA_EXT) else if write then WRITE_DMA else READ_DMA
  }

  lemma AtIs(n: nat, size: nat)
    ensures At(n, size) == n * size
  {
  }
}
