/** The encoder side of the container: how a file holding a sequence of compressed blocks
    is laid out, and what the decoder makes of such a file. */
module Packing {
  import opened Bytes
  import opened Format
  import opened Steps

  /** Fill bytes after an `n`-byte payload, up to the next 4-byte boundary. */
  function Padding(n: nat): (r: seq<byte>)
    ensures n + |r| == RoundUp4(n)
  {
    Zeros(RoundUp4(n) - n)
  }

  /** Compressed payloads the format can carry as compressed blocks: 1 to 0x7FFF bytes. */
  predicate Packable(bs: seq<seq<byte>>) {
    forall i :: 0 <= i < |bs| ==> 0 < |bs[i]| < RawBlockSize
  }

  /** The size word announcing the first of `bs`, or 0 when there is none. */
  function FirstSize(bs: seq<seq<byte>>): (r: u32)
    requires Packable(bs)
    ensures r < RawBlockSize && (r == 0 <==> bs == [])
  {
    if bs == [] then 0 else |bs[0]|
  }

  /** The payload after the header: each block, its padding, then the size of the next
      block (0 after the last one). */
  function Body(bs: seq<seq<byte>>): seq<byte>
    requires Packable(bs)
  {
    if bs == [] then []
    else bs[0] + Padding(|bs[0]|) + EncodeU32(FirstSize(bs[1..])) + Body(bs[1..])
  }

  /** A whole container: magic, declared output size, first block size, body. */
  function Pack(outSize: u32, bs: seq<seq<byte>>): (r: seq<byte>)
    requires Packable(bs)
    ensures |r| == HeaderSize + |Body(bs)| && r[HeaderSize..] == Body(bs)
  {
    EncodeU32(Magic) + EncodeU32(outSize) + EncodeU32(FirstSize(bs)) + Body(bs)
  }

  /** The decompressed bytes of `bs`, one block after the other. */
  function Produced(lzo: Lzo, bs: seq<seq<byte>>): seq<byte> {
    if bs == [] then [] else lzo(bs[0]).bytes + Produced(lzo, bs[1..])
  }

  /** The decompressor accepts every block of `bs`. */
  predicate AllOk(lzo: Lzo, bs: seq<seq<byte>>) {
    forall i :: 0 <= i < |bs| ==> lzo(bs[i]).status == LzoOk
  }

  /** From a cursor on a 4-byte boundary, a block and its padding end on the next one. */
  lemma PaddedEnd(k: nat, n: nat, pad: nat)
    requires k % 4 == 0 && n + pad == RoundUp4(n)
    ensures k + n + pad == RoundUp4(k + n)
  {
  }

  /** Dropping the first block keeps the decompressor accepting the rest. */
  lemma AllOkTail(lzo: Lzo, bs: seq<seq<byte>>)
    requires bs != [] && AllOk(lzo, bs)
    ensures lzo(bs[0]).status == LzoOk && AllOk(lzo, bs[1..])
  {
    forall i | 0 <= i < |bs| - 1 ensures lzo(bs[1..][i]).status == LzoOk {
      assert bs[1..][i] == bs[i + 1];
    }
  }

  /** Every block after the first is packable too. */
  lemma PackableTail(bs: seq<seq<byte>>)
    requires Packable(bs) && bs != []
    ensures Packable(bs[1..])
  {
    forall i | 0 <= i < |bs| - 1 ensures 0 < |bs[1..][i]| < RawBlockSize {
      assert bs[1..][i] == bs[i + 1];
    }
  }

  /** A block, its padding and a 4-byte word laid out from an aligned cursor `k`: the block
      sits at `k`, the word at the next 4-byte boundary after it, and the rest follows. */
  lemma ChunkLayout(input: seq<byte>, k: nat, b: seq<byte>, pad: seq<byte>, word: seq<byte>, tail: seq<byte>)
    requires k % 4 == 0 && |b| + |pad| == RoundUp4(|b|) && |word| == 4
    requires k <= |input| && input[k..] == b + pad + word + tail
    ensures k + |b| <= |input| && input[k..k + |b|] == b
    ensures
      var aligned := RoundUp4(k + |b|);
      && aligned + 4 <= |input|
      && input[aligned..aligned + 4] == word
      && input[aligned + 4..] == tail
  {
    assert b + pad + word + tail == b + (pad + (word + tail));
    SplitTail(input, k, b, pad + (word + tail));
    SplitTail(input, k + |b|, pad, word + tail);
    PaddedEnd(k, |b|, |pad|);
    SplitTail(input, k + |b| + |pad|, word, tail);
  }

  /** Where a packed body puts things, seen from an aligned cursor `k` at its start: the
      first block's bytes, then (after padding) the size of the next block, then the body
      of the remaining blocks. */
  lemma BodyLayout(input: seq<byte>, k: nat, bs: seq<seq<byte>>)
    requires Packable(bs) && bs != []
    requires k % 4 == 0 && k <= |input| && input[k..] == Body(bs)
    ensures Packable(bs[1..])
    ensures k + |bs[0]| <= |input| && input[k..k + |bs[0]|] == bs[0]
    ensures
      var aligned := RoundUp4(k + |bs[0]|);
      && aligned + 4 <= |input|
      && PrefixAt(input, aligned) == FirstSize(bs[1..])
      && input[aligned + 4..] == Body(bs[1..])
  {
    PackableTail(bs);
    var word := EncodeU32(FirstSize(bs[1..]));
    assert Body(bs) == bs[0] + Padding(|bs[0]|) + word + Body(bs[1..]);
    ChunkLayout(input, k, bs[0], Padding(|bs[0]|), word, Body(bs[1..]));
    ReadEncodedSlice(input, RoundUp4(k + |bs[0]|), FirstSize(bs[1..]));
  }

  /** The loop state after the first block of a packed body has been decompressed. */
  function AfterFirst(lzo: Lzo, bs: seq<seq<byte>>, s: State): State
    requires Packable(bs) && bs != []
    requires s.outShift + |lzo(bs[0]).bytes| <= |s.out|
  {
    PackableTail(bs);
    State(RoundUp4(s.blockInc + |bs[0]|) + 4, s.outShift + |lzo(bs[0]).bytes|, FirstSize(bs[1..]),
          Overwrite(s.out, s.outShift, lzo(bs[0]).bytes),
          s.blocks + [Decompressed(s.blockInc, |bs[0]|, s.outShift, |lzo(bs[0]).bytes|)])
  }

  /** One iteration over a packed body decompresses its first block, and leaves the cursor
      aligned at the body of the remaining blocks with their first size loaded. */
  lemma FirstBlockStep(input: seq<byte>, lzo: Lzo, bs: seq<seq<byte>>, s: State)
    requires Packable(bs) && bs != [] && lzo(bs[0]).status == LzoOk
    requires s.blockInc % 4 == 0 && s.blockInc <= |input| && input[s.blockInc..] == Body(bs)
    requires s.blockSize == FirstSize(bs)
    requires s.outShift + |lzo(bs[0]).bytes| <= |s.out|
    ensures Packable(bs[1..])
    ensures Step(input, lzo, s) == Next(AfterFirst(lzo, bs, s))
    ensures AfterFirst(lzo, bs, s).blockInc % 4 == 0 && AfterFirst(lzo, bs, s).blockInc <= |input|
    ensures input[AfterFirst(lzo, bs, s).blockInc..] == Body(bs[1..])
  {
    BodyLayout(input, s.blockInc, bs);
    CompressedStep(input, lzo, s);
  }

  /** The walk over a packed body, from any aligned cursor, writes the blocks' decompressed
      bytes one after the other from the output cursor on, and succeeds. */
  lemma {:induction false} WalkBody(input: seq<byte>, lzo: Lzo, bs: seq<seq<byte>>, s: State)
    requires Packable(bs) && AllOk(lzo, bs)
    requires s.blockInc % 4 == 0 && s.blockInc <= |input| && input[s.blockInc..] == Body(bs)
    requires s.blockSize == FirstSize(bs)
    requires s.outShift + |Produced(lzo, bs)| <= |s.out|
    ensures Walk(input, lzo, s).Wrote?
    ensures Walk(input, lzo, s).data == Overwrite(s.out, s.outShift, Produced(lzo, bs))
    decreases |bs|
  {
    if bs == [] {
      assert Overwrite(s.out, s.outShift, []) == s.out;
    } else {
      AllOkTail(lzo, bs);
      FirstBlockStep(input, lzo, bs, s);
      WalkNext(input, lzo, s, AfterFirst(lzo, bs, s));
      WalkBody(input, lzo, bs[1..], AfterFirst(lzo, bs, s));
      OverwriteConsecutive(s.out, s.outShift, lzo(bs[0]).bytes, Produced(lzo, bs[1..]));
    }
  }

  /** Three 4-byte words followed by a body, each at its place. */
  lemma WordsLayout(file: seq<byte>, w0: seq<byte>, w1: seq<byte>, w2: seq<byte>, body: seq<byte>)
    requires |w0| == 4 && |w1| == 4 && |w2| == 4 && file == w0 + w1 + w2 + body
    ensures |file| >= 12 && file[0..4] == w0 && file[4..8] == w1 && file[8..12] == w2 && file[12..] == body
  {
    assert file == w0 + (w1 + (w2 + body));
    SplitTail(file, 0, w0, w1 + (w2 + body));
    SplitTail(file, 4, w1, w2 + body);
    SplitTail(file, 8, w2, body);
  }

  /** The header of a packed container holds the magic, the declared output size and the
      size of the first block. */
  lemma PackHeader(outSize: u32, bs: seq<seq<byte>>)
    requires Packable(bs)
    ensures |Pack(outSize, bs)| >= HeaderSize
    ensures ReadU32(Pack(outSize, bs), 0) == Magic
    ensures ReadU32(Pack(outSize, bs), 4) == outSize
    ensures ReadU32(Pack(outSize, bs), 8) == FirstSize(bs)
  {
    WordsLayout(Pack(outSize, bs), EncodeU32(Magic), EncodeU32(outSize), EncodeU32(FirstSize(bs)), Body(bs));
    ReadEncodedSlice(Pack(outSize, bs), 0, Magic);
    ReadEncodedSlice(Pack(outSize, bs), 4, outSize);
    ReadEncodedSlice(Pack(outSize, bs), 8, FirstSize(bs));
  }

  /** Decoding a packed container gives back the blocks' decompressed bytes in order,
      followed by zeros up to the declared output size. */
  lemma RoundTrip(outSize: u32, bs: seq<seq<byte>>, lzo: Lzo)
    requires Packable(bs) && AllOk(lzo, bs) && |Produced(lzo, bs)| <= outSize
    ensures Decode(Pack(outSize, bs), lzo).Wrote?
    ensures Decode(Pack(outSize, bs), lzo).data == Produced(lzo, bs) + Zeros(outSize - |Produced(lzo, bs)|)
  {
    PackHeader(outSize, bs);
    WalkBody(Pack(outSize, bs)[HeaderSize..], lzo, bs, Start(Pack(outSize, bs)));
    assert Overwrite(Zeros(outSize), 0, Produced(lzo, bs)) == Produced(lzo, bs) + Zeros(outSize - |Produced(lzo, bs)|);
  }

  /** The decompressor test double that returns its input unchanged. */
  function Identity(compressed: seq<byte>): LzoReply {
    LzoReply(LzoOk, compressed)
  }

  /** A container with header {magic, 8, 8} and one 8-byte block, decoded with the
      identity decompressor, reproduces the block exactly. */
  lemma IdentityScenario(payload: seq<byte>)
    requires |payload| == 8
    ensures Decode(Pack(8, [payload]), Identity).Wrote?
    ensures Decode(Pack(8, [payload]), Identity).data == payload
  {
    assert Produced(Identity, [payload]) == payload;
    RoundTrip(8, [payload], Identity);
  }
}
