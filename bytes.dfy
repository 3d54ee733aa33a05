/** Bytes, 32-bit words and the little-endian field layout of the container. */
module Bytes {

  /** One byte of a file (the source reads `char` and masks it with `0xFF`). */
  type byte = x: int | 0 <= x < 0x100

  /** The source's `u32`. */
  type u32 = x: int | 0 <= x < 0x1_0000_0000

  /** The 4-byte little-endian word at offset `at`: `b0 | b1 << 8 | b2 << 16 | b3 << 24`.
      The four shifted bytes occupy disjoint bits, so the bitwise OR is their sum. */
  function ReadU32(s: seq<byte>, at: nat): (r: u32)
    requires at + 4 <= |s|
  {
    s[at] as int + s[at + 1] as int * 0x100 + s[at + 2] as int * 0x1_0000 + s[at + 3] as int * 0x100_0000
  }

  /** The four bytes an encoder stores for `x`, least significant first. */
  function EncodeU32(x: u32): (r: seq<byte>)
    ensures |r| == 4
  {
    [x % 0x100, x / 0x100 % 0x100, x / 0x1_0000 % 0x100, x / 0x100_0000]
  }

  /** Dividing by 0x100 twice is dividing by 0x1_0000 once. */
  lemma DivDiv(x: nat, d: nat)
    requires d == 0x100 || d == 0x1_0000
    ensures x / d / 0x100 == x / (d * 0x100)
  {
    var q := x / d;
    var r := x % d;
    assert x == d * q + r && 0 <= r < d;
    var q' := q / 0x100;
    var r' := q % 0x100;
    assert q == 0x100 * q' + r' && 0 <= r' < 0x100;
    assert x == d * 0x100 * q' + (d * r' + r);
    assert 0 <= d * r' + r < d * 0x100;
  }

  /** Reading back an encoded word gives the word. */
  lemma ReadEncode(x: u32)
    ensures ReadU32(EncodeU32(x), 0) == x
  {
    var b := EncodeU32(x);
    DivDiv(x, 0x100);
    DivDiv(x, 0x1_0000);
    assert x == b[0] + 0x100 * (x / 0x100);
    assert x / 0x100 == b[1] + 0x100 * (x / 0x1_0000);
    assert x / 0x1_0000 == b[2] + 0x100 * (x / 0x100_0000);
  }

  /** Encoding a decoded word gives back the four bytes it was read from. */
  lemma EncodeRead(s: seq<byte>, at: nat)
    requires at + 4 <= |s|
    ensures EncodeU32(ReadU32(s, at)) == s[at..at + 4]
  {
    var x := ReadU32(s, at);
    var hi: int := s[at + 1] as int + s[at + 2] as int * 0x100 + s[at + 3] as int * 0x1_0000;
    assert x == s[at] as int + 0x100 * hi;
    assert x % 0x100 == s[at] && x / 0x100 == hi;
    var hi2: int := s[at + 2] as int + s[at + 3] as int * 0x100;
    assert hi == s[at + 1] as int + 0x100 * hi2;
    assert x / 0x1_0000 == hi / 0x100 == hi2;
    assert x / 0x100_0000 == hi2 / 0x100 == s[at + 3];
  }

  /** A word that a byte stream holds at `at` reads back as itself. */
  lemma ReadEncodedSlice(s: seq<byte>, at: nat, x: u32)
    requires at + 4 <= |s| && s[at..at + 4] == EncodeU32(x)
    ensures ReadU32(s, at) == x
  {
    ReadEncode(x);
    assert s[at..at + 4][0] == s[at] && s[at..at + 4][1] == s[at + 1];
    assert s[at..at + 4][2] == s[at + 2] && s[at..at + 4][3] == s[at + 3];
  }

  /** Splitting the tail of `s` from `at` into `x + y` places `x` at `at` and `y` after it. */
  lemma SplitTail(s: seq<byte>, at: nat, x: seq<byte>, y: seq<byte>)
    requires at <= |s| && s[at..] == x + y
    ensures at + |x| <= |s| && s[at..at + |x|] == x && s[at + |x|..] == y
  {
    assert s[at..][..|x|] == x;
    assert s[at..][|x|..] == y;
  }

  /** `n` zero bytes, the content of a freshly `memset` buffer. */
  function Zeros(n: nat): (r: seq<byte>)
    ensures |r| == n
    ensures forall i :: 0 <= i < n ==> r[i] == 0
  {
    seq(n, _ => 0)
  }

  /** `out` with `bytes` written over it from offset `at` on: what a `memcpy` or a
      decompressor writing at `out + at` leaves behind. */
  function Overwrite(out: seq<byte>, at: nat, bytes: seq<byte>): (r: seq<byte>)
    requires at + |bytes| <= |out|
    ensures |r| == |out|
    ensures forall j :: 0 <= j < |r| ==> r[j] == if at <= j < at + |bytes| then bytes[j - at] else out[j]
  {
    out[..at] + bytes + out[at + |bytes|..]
  }

  /** Two writes that follow each other equal one write of both. */
  lemma OverwriteConsecutive(out: seq<byte>, at: nat, a: seq<byte>, b: seq<byte>)
    requires at + |a| + |b| <= |out|
    ensures Overwrite(Overwrite(out, at, a), at + |a|, b) == Overwrite(out, at, a + b)
  {
    var lhs := Overwrite(Overwrite(out, at, a), at + |a|, b);
    var rhs := Overwrite(out, at, a + b);
    forall j | 0 <= j < |out| ensures lhs[j] == rhs[j] {
      if at <= j < at + |a| {
        assert (a + b)[j - at] == a[j - at];
      } else if at + |a| <= j < at + |a| + |b| {
        assert (a + b)[j - at] == b[j - at - |a|];
      }
    }
  }
}
