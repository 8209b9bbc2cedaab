/** Little-endian words in byte strings. */
module Bytes {

  type byte = x: int | 0 <= x < 256

  function Pow256(n: nat): (r: nat)
    ensures r > 0
  {
    if n == 0 then 1 else 256 * Pow256(n - 1)
  }

  /** The number whose bytes, least significant first, are b. */
  function Value(b: seq<byte>): (r: nat)
    ensures r < Pow256(|b|)
  {
    if b == [] then 0 else b[0] as int + 256 * Value(b[1..])
  }

  /** The n low-order bytes of v, least significant first. */
  function Encode(v: nat, n: nat): (b: seq<byte>)
    ensures |b| == n
  {
    if n == 0 then [] else [(v % 256) as byte] + Encode(v / 256, n - 1)
  }

  lemma {:induction false} RoundTrip(v: nat, n: nat)
    requires v < Pow256(n)
    ensures Value(Encode(v, n)) == v
  {
    if n > 0 {
      assert Encode(v, n)[1..] == Encode(v / 256, n - 1);
      RoundTrip(v / 256, n - 1);
    }
  }

  lemma Pow256Values()
    ensures Pow256(4) == 0x1_0000_0000 && Pow256(8) == 0x1_0000_0000_0000_0000
  {
    assert Pow256(2) == 0x1_0000;
    assert Pow256(4) == 256 * (256 * Pow256(2));
    assert Pow256(6) == 256 * (256 * Pow256(4));
    assert Pow256(8) == 256 * (256 * Pow256(6));
  }

  /** s with b written over it at offset `at`. */
  function Splice(s: seq<byte>, at: nat, b: seq<byte>): (r: seq<byte>)
    requires at + |b| <= |s|
    ensures |r| == |s|
    ensures forall k :: 0 <= k < |s| ==> r[k] == if at <= k < at + |b| then b[k - at] else s[k]
  {
    s[..at] + b + s[at + |b|..]
  }

  /** Writing two adjacent strings writes their concatenation. */
  lemma SpliceTwice(s: seq<byte>, at: nat, a: seq<byte>, b: seq<byte>)
    requires at + |a| + |b| <= |s|
    ensures Splice(Splice(s, at, a), at + |a|, b) == Splice(s, at, a + b)
  {
  }

  /** What is read back from the middle of what was written. */
  lemma SpliceSlice(s: seq<byte>, at: nat, b: seq<byte>, from: nat, n: nat)
    requires at + |b| <= |s| && from + n <= |b|
    ensures Splice(s, at, b)[at + from..at + from + n] == b[from..from + n]
  {
  }

  /** What is read back from above what was written. */
  lemma SpliceAbove(s: seq<byte>, at: nat, b: seq<byte>, from: nat, to: nat)
    requires at + |b| <= from <= to <= |s|
    ensures Splice(s, at, b)[from..to] == s[from..to]
  {
  }

  /** Nothing is written outside. */
  lemma SpliceOutside(s: seq<byte>, at: nat, b: seq<byte>, from: nat, to: nat)
    requires from <= at && at + |b| <= to <= |s|
    ensures Splice(s, at, b)[..from] == s[..from] && Splice(s, at, b)[to..] == s[to..]
  {
  }

  /** Writing below what was just written. */
  lemma SplicePrepend(s: seq<byte>, at: nat, a: seq<byte>, b: seq<byte>)
    requires at + |a| + |b| <= |s|
    ensures Splice(Splice(s, at + |a|, b), at, a) == Splice(s, at, a + b)
  {
  }
}
