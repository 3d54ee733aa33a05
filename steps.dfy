/** What one iteration of the block walk does, branch by branch, and how an iteration
    relates to the rest of the walk. */
module Steps {
  import opened Bytes
  import opened Format

  /** A declared size of at least 0x8000 is a stored block of exactly 0x8000 bytes: they are
      copied from input offset `out_shift` to output offset `out_shift`, `out_shift` stays
      put, and the input cursor is to move on by 0x8000 whatever the declared size was. */
  lemma StoredBlock(input: seq<byte>, lzo: Lzo, s: State)
    requires s.blockSize >= RawBlockSize
    requires s.outShift + RawBlockSize <= |input| && s.outShift + RawBlockSize <= |s.out|
    ensures Dispatch(input, lzo, s) ==
      Moved(RawBlockSize, s.outShift,
            Overwrite(s.out, s.outShift, input[s.outShift..s.outShift + RawBlockSize]),
            s.blocks + [Copied(s.outShift)])
  {
  }

  /** Two stored-block sizes at or above 0x8000 make the same step. */
  lemma StoredSizeIrrelevant(input: seq<byte>, lzo: Lzo, s: State, size: u32)
    requires s.blockSize >= RawBlockSize && size >= RawBlockSize
    ensures Step(input, lzo, s) == Step(input, lzo, s.(blockSize := size))
  {
  }

  /** A size in [1, 0x7FFF] is a compressed block: the 16-bit mask leaves it unchanged, the
      decompressor is given `input[block_inc .. block_inc + size)`, its bytes land at
      `out_shift`, and `out_shift` grows by the count it reports. */
  lemma CompressedBlock(input: seq<byte>, lzo: Lzo, s: State)
    requires 0 < s.blockSize < RawBlockSize
    requires s.blockInc + s.blockSize <= |input|
    requires lzo(input[s.blockInc..s.blockInc + s.blockSize]).status == LzoOk
    requires s.outShift + |lzo(input[s.blockInc..s.blockInc + s.blockSize]).bytes| <= |s.out|
    ensures
      var bytes := lzo(input[s.blockInc..s.blockInc + s.blockSize]).bytes;
      Dispatch(input, lzo, s) ==
        Moved(s.blockSize, s.outShift + |bytes|, Overwrite(s.out, s.outShift, bytes),
              s.blocks + [Decompressed(s.blockInc, s.blockSize, s.outShift, |bytes|)])
  {
  }

  /** A whole iteration over a compressed block: the block is decompressed at `out_shift`,
      and the cursor moves to the aligned end of its payload, past the next size prefix. */
  lemma CompressedStep(input: seq<byte>, lzo: Lzo, s: State)
    requires 0 < s.blockSize < RawBlockSize
    requires s.blockInc + s.blockSize <= |input|
    requires lzo(input[s.blockInc..s.blockInc + s.blockSize]).status == LzoOk
    requires s.outShift + |lzo(input[s.blockInc..s.blockInc + s.blockSize]).bytes| <= |s.out|
    ensures
      var bytes := lzo(input[s.blockInc..s.blockInc + s.blockSize]).bytes;
      var aligned := RoundUp4(s.blockInc + s.blockSize);
      Step(input, lzo, s) ==
        Next(State(aligned + 4, s.outShift + |bytes|, PrefixAt(input, aligned), Overwrite(s.out, s.outShift, bytes),
                   s.blocks + [Decompressed(s.blockInc, s.blockSize, s.outShift, |bytes|)]))
  {
    CompressedBlock(input, lzo, s);
  }

  /** A decompressor error ends the whole decode with that status. */
  lemma DecoderErrorAborts(input: seq<byte>, lzo: Lzo, s: State)
    requires s.blockInc < |input|
    requires 0 < s.blockSize < RawBlockSize && s.blockInc + s.blockSize <= |input|
    requires lzo(input[s.blockInc..s.blockInc + s.blockSize]).status != LzoOk
    ensures Walk(input, lzo, s) == DecodeFailed(lzo(input[s.blockInc..s.blockInc + s.blockSize]).status)
  {
    var reply := lzo(input[s.blockInc..s.blockInc + s.blockSize]);
    assert Mask16(s.blockSize) == s.blockSize;
    assert Dispatch(input, lzo, s) == Stop(DecodeFailed(reply.status));
    WalkHalt(input, lzo, s, DecodeFailed(reply.status));
  }

  /** After a block, the input cursor is rounded up to a multiple of 4, the next size prefix
      is read there, and the cursor steps past it. */
  lemma StepAdvances(input: seq<byte>, lzo: Lzo, s: State, consumed: nat, outShift: nat, out: seq<byte>, blocks: seq<Block>)
    requires Dispatch(input, lzo, s) == Moved(consumed, outShift, out, blocks)
    ensures
      var aligned := RoundUp4(s.blockInc + consumed);
      Step(input, lzo, s) == Next(State(aligned + 4, outShift, PrefixAt(input, aligned), out, blocks))
  {
  }

  /** The alignment loop stops at `RoundUp4`: no other multiple of 4 lies between a
      cursor and its rounded-up value. */
  lemma AlignedIsRoundUp(n: nat, m: nat)
    requires m % 4 == 0 && n <= m <= RoundUp4(n)
    ensures m == RoundUp4(n)
  {
  }

  /** A size of 0 does not end the walk: nothing is written, and the next prefix is read
      right where this one's payload would have started. */
  lemma ZeroSizeStep(input: seq<byte>, lzo: Lzo, s: State)
    requires s.blockSize == 0 && s.blockInc % 4 == 0
    ensures Dispatch(input, lzo, s) == Moved(0, s.outShift, s.out, s.blocks)
    ensures Step(input, lzo, s) == Next(State(s.blockInc + 4, s.outShift, PrefixAt(input, s.blockInc), s.out, s.blocks))
  {
  }

  /** A 5-byte compressed block is followed by 3 bytes of padding: the next size prefix is
      read 8 bytes after the block's start, and the cursor ends 12 bytes after it. */
  lemma FiveByteBlock(input: seq<byte>, lzo: Lzo, s: State)
    requires s.blockSize == 5 && s.blockInc % 4 == 0 && s.blockInc + 5 <= |input|
    requires lzo(input[s.blockInc..s.blockInc + 5]).status == LzoOk
    requires s.outShift + |lzo(input[s.blockInc..s.blockInc + 5]).bytes| <= |s.out|
    ensures Step(input, lzo, s).Next?
    ensures Step(input, lzo, s).state.blockInc == s.blockInc + 12
    ensures Step(input, lzo, s).state.blockSize == PrefixAt(input, s.blockInc + 8)
  {
    CompressedStep(input, lzo, s);
    assert RoundUp4(s.blockInc + 5) == s.blockInc + 8;
  }

  /** When the next size prefix would not fit in the input, the source reads past its
      buffer, but the cursor then lies past the end, so the walk ends with success and the
      value read is never used. */
  lemma PrefixPastEndEndsWalk(input: seq<byte>, lzo: Lzo, s: State, consumed: nat, outShift: nat, out: seq<byte>, blocks: seq<Block>)
    requires s.blockInc < |input| && Dispatch(input, lzo, s) == Moved(consumed, outShift, out, blocks)
    requires RoundUp4(s.blockInc + consumed) + 4 > |input|
    ensures Walk(input, lzo, s) == Wrote(out, blocks)
  {
    StepAdvances(input, lzo, s, consumed, outShift, out, blocks);
    var aligned := RoundUp4(s.blockInc + consumed);
    var t := State(aligned + 4, outShift, PrefixAt(input, aligned), out, blocks);
    WalkNext(input, lzo, s, t);
    assert Walk(input, lzo, t) == Wrote(out, blocks);
  }

  /** After a stored block the next prefix is read at most 0x8003 bytes past the input:
      the cursor is 4-aligned and inside the input at the loop head, and the copy reads at
      `out_shift`, so nothing bounds the 0x8000 bytes the cursor skips. */
  lemma StoredPrefixOverRead(input: seq<byte>, lzo: Lzo, s: State)
    requires s.blockInc % 4 == 0 && s.blockInc < |input| && s.blockSize >= RawBlockSize
    requires Dispatch(input, lzo, s).Moved?
    ensures Step(input, lzo, s).Next?
    ensures Step(input, lzo, s).state.blockInc == s.blockInc + RawBlockSize + 4 <= |input| + 0x8003
  {
    assert RoundUp4(s.blockInc + RawBlockSize) == s.blockInc + RawBlockSize;
  }

  /** The 0x8003 bound is reached: a 0x8001-byte input with a stored block at 0x8000. */
  lemma StoredPrefixOverReadReached(input: seq<byte>, lzo: Lzo, s: State)
    requires |input| == 0x8001 && s.blockInc == 0x8000 && s.blockSize >= RawBlockSize
    requires s.outShift == 0 && RawBlockSize <= |s.out|
    ensures Step(input, lzo, s).Next?
    ensures Step(input, lzo, s).state.blockInc == |input| + 0x8003
  {
    StoredPrefixOverRead(input, lzo, s);
  }

  /** Up to `MaxPayload` bytes of payload, an iteration from a 4-aligned cursor inside the
      input leaves the cursor below 2^32, so the source's `u32` `block_inc` does not wrap. */
  lemma StepFitsU32(input: seq<byte>, lzo: Lzo, s: State)
    requires s.blockInc % 4 == 0 && s.blockInc < |input| <= MaxPayload
    ensures Step(input, lzo, s).Next? ==> Step(input, lzo, s).state.blockInc < 0x1_0000_0000
  {
    assert s.blockInc <= MaxPayload - 4;
  }

  /** One byte more payload and a stored block at the last aligned cursor takes the cursor
      to 2^32, where the source's `u32` `block_inc` wraps to 0. */
  lemma MaxPayloadTight(input: seq<byte>, lzo: Lzo, s: State)
    requires |input| == MaxPayload + 1 && s.blockInc == MaxPayload && s.blockSize >= RawBlockSize
    requires s.outShift == 0 && RawBlockSize <= |s.out|
    ensures Step(input, lzo, s).Next?
    ensures Step(input, lzo, s).state.blockInc == 0x1_0000_0000
  {
    StoredPrefixOverRead(input, lzo, s);
  }

  /** Unfolding the walk by one iteration. */
  lemma WalkNext(input: seq<byte>, lzo: Lzo, s: State, t: State)
    requires s.blockInc < |input| && Step(input, lzo, s) == Next(t)
    ensures Walk(input, lzo, s) == Walk(input, lzo, t)
  {
  }

  /** A failing iteration is the walk's outcome. */
  lemma WalkHalt(input: seq<byte>, lzo: Lzo, s: State, o: Outcome)
    requires s.blockInc < |input| && Step(input, lzo, s) == Halt(o)
    ensures Walk(input, lzo, s) == o
  {
  }
}
