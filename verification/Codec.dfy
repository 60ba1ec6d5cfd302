// How the kernel's structures look as raw bytes: a little-endian 32-bit host, structures
// copied to and from sectors by casting a pointer to char*.
module Codec {
  newtype byte = x: int | 0 <= x < 256

  const INT_MIN := -0x8000_0000
  const INT_MAX := 0x7fff_ffff

  type int32 = x: int | INT_MIN <= x <= INT_MAX

  // ---- fixed-width records laid end to end -------------------------------------------------

  predicate Widths<T>(chunks: seq<seq<T>>, w: nat) {
    forall i :: 0 <= i < |chunks| ==> |chunks[i]| == w
  }

  /** The records of `chunks`, each `w` wide, laid end to end. */
  function Flat<T>(chunks: seq<seq<T>>, w: nat): (s: seq<T>)
    requires w > 0 && Widths(chunks, w)
    ensures |s| == |chunks| * w
  {
    if chunks == [] then [] else chunks[0] + Flat(chunks[1..], w)
  }

  /** Position `k` of a flat layout is position `k % w` of record `k / w`. */
  lemma {:induction false} FlatAt<T>(chunks: seq<seq<T>>, w: nat, i: nat, r: nat)
    requires w > 0 && Widths(chunks, w) && i < |chunks| && r < w
    ensures 0 <= i * w + r < |chunks| * w
    ensures Flat(chunks, w)[i * w + r] == chunks[i][r]
  {
    if i == 0 {
      assert |chunks| * w >= w;
    } else {
      FlatAt(chunks[1..], w, i - 1, r);
      assert (i - 1) * w + r == i * w + r - w;
      assert (|chunks| - 1) * w == |chunks| * w - w;
    }
  }

  /** Record `i` of a layout, cut back out. */
  function Cut<T>(s: seq<T>, w: nat, i: nat): (c: seq<T>)
    requires (i + 1) * w <= |s|
    ensures |c| == w
  {
    assert i * w + w == (i + 1) * w;
    s[i * w .. i * w + w]
  }

  lemma CutFlat<T>(chunks: seq<seq<T>>, w: nat, i: nat)
    requires w > 0 && Widths(chunks, w) && i < |chunks|
    ensures (i + 1) * w <= |chunks| * w
    ensures Cut(Flat(chunks, w), w, i) == chunks[i]
  {
    assert (i + 1) * w <= |chunks| * w by { MulLe(i + 1, |chunks|, w); }
    forall r | 0 <= r < w ensures Cut(Flat(chunks, w), w, i)[r] == chunks[i][r] {
      FlatAt(chunks, w, i, r);
    }
  }

  lemma MulLe(a: nat, b: nat, w: nat)
    requires a <= b
    ensures a * w <= b * w
  {
  }

  // ---- 32-bit integers ----------------------------------------------------------------------

  function EncodeInt(x: int32): (b: seq<byte>)
    ensures |b| == 4
  {
    var u := if x < 0 then x + 0x1_0000_0000 else x;
    var b0, b1, b2, b3 := u % 256, u / 256 % 256, u / 65536 % 256, u / 16777216;
    [b0 as byte, b1 as byte, b2 as byte, b3 as byte]
  }

  function DecodeInt(b: seq<byte>): int32
    requires |b| == 4
  {
    var u := b[0] as int + 256 * (b[1] as int) + 65536 * (b[2] as int) + 16777216 * (b[3] as int);
    if u <= INT_MAX then u else u - 0x1_0000_0000
  }

  lemma BytesOfUnsigned(u: int)
    requires 0 <= u < 0x1_0000_0000
    ensures u % 256 + 256 * (u / 256 % 256) + 65536 * (u / 65536 % 256) + 16777216 * (u / 16777216) == u
    ensures 0 <= u / 16777216 < 256
  {
    assert u / 65536 == u / 256 / 256;
    assert u / 16777216 == u / 256 / 256 / 256;
  }

  lemma IntRoundTrip(x: int32)
    ensures DecodeInt(EncodeInt(x)) == x
  {
    var u := if x < 0 then x + 0x1_0000_0000 else x;
    BytesOfUnsigned(u);
  }

  /** The bits of an int, read as an unsigned int, and back. */
  function Unsigned(x: int32): (u: nat)
    ensures u < 0x1_0000_0000
  {
    if x < 0 then x + 0x1_0000_0000 else x
  }

  /** The word of four bytes at `p`, least significant first, as an unsigned number. */
  function WordAt(b: seq<byte>, p: nat): nat
    requires p + 4 <= |b|
  {
    b[p] as nat + 0x100 * b[p + 1] as nat + 0x10000 * b[p + 2] as nat + 0x1000000 * b[p + 3] as nat
  }

  lemma IntAt(b: seq<byte>, p: nat)
    requires p + 4 <= |b|
    ensures Unsigned(DecodeInt(b[p..p + 4])) == WordAt(b, p)
  {
  }

  function AsInt(u: nat): int32
    requires u < 0x1_0000_0000
  {
    if u <= INT_MAX then u else u - 0x1_0000_0000
  }

  // ---- 32-bit words of a bitmap ---------------------------------------------------------------

  function EncodeWord(w: bv32): (b: seq<byte>)
    ensures |b| == 4
  {
    [(w & 0xff) as byte, ((w >> 8) & 0xff) as byte, ((w >> 16) & 0xff) as byte, (w >> 24) as byte]
  }

  function DecodeWord(b: seq<byte>): bv32
    requires |b| == 4
  {
    (b[0] as bv32) | ((b[1] as bv32) << 8) | ((b[2] as bv32) << 16) | ((b[3] as bv32) << 24)
  }

  lemma SmallRoundTrip(w: bv32)
    requires w < 256
    ensures w as int < 256 && (w as int) as bv32 == w
  {
  }

  lemma WordRoundTrip(w: bv32)
    ensures DecodeWord(EncodeWord(w)) == w
  {
    SmallRoundTrip(w & 0xff);
    SmallRoundTrip((w >> 8) & 0xff);
    SmallRoundTrip((w >> 16) & 0xff);
    SmallRoundTrip(w >> 24);
  }
}
