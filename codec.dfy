/**
 * Little-endian byte encoding of the fixed-width fields of the database file.
 * The file is written with raw host-order writes of `uint32_t` and `uint64_t`
 * values on a little-endian machine, so each field is its bytes, least
 * significant first.  A string is written as its `uint32_t` length followed by
 * that many bytes.
 *
 * A reader takes the bytes not yet consumed, like an input stream, and
 * returns the value read with the bytes that follow it, or `None` when the
 * stream ends too early.
 */
module Codec {
  import opened Common

  /** 256 to the power `n`: the number of values `n` bytes can hold. */
  function Pow256(n: nat): (p: nat)
    ensures p >= 1
  {
    if n == 0 then 1 else 0x100 * Pow256(n - 1)
  }

  /** The low `n` bytes of `x`, least significant first. */
  function LE(x: nat, n: nat): (b: Bytes)
    ensures |b| == n
    decreases n
  {
    if n == 0 then [] else [x % 0x100] + LE(x / 0x100, n - 1)
  }

  /** The number whose little-endian bytes are `b`. */
  function ValueLE(b: Bytes): (x: nat)
    ensures x < Pow256(|b|)
    decreases |b|
  {
    if b == [] then 0 else b[0] + 0x100 * ValueLE(b[1..])
  }

  /** Reading back `n` little-endian bytes gives the value they encode. */
  lemma {:induction false} LERoundTrip(x: nat, n: nat)
    requires x < Pow256(n)
    ensures ValueLE(LE(x, n)) == x
    decreases n
  {
    if n > 0 {
      assert LE(x, n)[1..] == LE(x / 0x100, n - 1);
      LERoundTrip(x / 0x100, n - 1);
    }
  }

  function U32(x: uint32): (b: Bytes)
    ensures |b| == 4
  {
    LE(x, 4)
  }

  function U64(x: uint64): (b: Bytes)
    ensures |b| == 8
  {
    LE(x, 8)
  }

  /** Reads a `uint32_t`. */
  function ReadU32(s: Bytes): (r: Option<(uint32, Bytes)>)
    ensures r.Some? <==> |s| >= 4
    ensures r.Some? ==> r.value.1 == s[4..]
  {
    if |s| >= 4 then Some((ValueLE(s[..4]), s[4..])) else None
  }

  /** Reads a `uint64_t`. */
  function ReadU64(s: Bytes): (r: Option<(uint64, Bytes)>)
    ensures r.Some? <==> |s| >= 8
    ensures r.Some? ==> r.value.1 == s[8..]
  {
    if |s| >= 8 then Some((ValueLE(s[..8]), s[8..])) else None
  }

  /**
   * A length-prefixed string.  The length is stored as a `uint32_t`, so a
   * string of 2^32 bytes or more has its length truncated and only that many
   * of its bytes are written.
   */
  function Str(s: Bytes): (b: Bytes)
    ensures |b| == 4 + |s| % TWO_TO_32
    ensures |s| < TWO_TO_32 ==> b == U32(|s|) + s
  {
    var n := |s| % TWO_TO_32;
    U32(n) + s[..n]
  }

  /** Reads a length-prefixed string. */
  function ReadStr(s: Bytes): (r: Option<(Bytes, Bytes)>)
    ensures r.Some? ==> |r.value.1| < |s|
  {
    var n := ReadU32(s);
    if n.None? then None else
    var rest := n.value.1;
    if n.value.0 <= |rest| then Some((rest[..n.value.0], rest[n.value.0..])) else None
  }

  lemma {:induction false} U32RoundTrip(x: uint32, rest: Bytes)
    ensures ReadU32(U32(x) + rest) == Some((x, rest))
  {
    assert (U32(x) + rest)[..4] == U32(x);
    assert (U32(x) + rest)[4..] == rest;
    LERoundTrip(x, 4);
  }

  lemma {:induction false} U64RoundTrip(x: uint64, rest: Bytes)
    ensures ReadU64(U64(x) + rest) == Some((x, rest))
  {
    assert (U64(x) + rest)[..8] == U64(x);
    assert (U64(x) + rest)[8..] == rest;
    LERoundTrip(x, 8);
  }

  lemma {:induction false} StrRoundTrip(s: Bytes, rest: Bytes)
    requires |s| < TWO_TO_32
    ensures ReadStr(Str(s) + rest) == Some((s, rest))
  {
    assert Str(s) + rest == U32(|s|) + (s + rest);
    U32RoundTrip(|s|, s + rest);
    assert (s + rest)[..|s|] == s;
    assert (s + rest)[|s|..] == rest;
  }
}
