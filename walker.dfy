/** `processFile` as the source runs it: a zero-filled output array, the `block_inc`,
    `out_shift` and `block_size` variables updated step by step, the stored-block copy and
    the decompressor writing into the array in place, and the alignment loop. */
module Walker {
  import opened Bytes
  import opened Format
  import opened Steps

  /** Writes `bytes` into `out` from offset `at` on: `lzo_memcpy` for a stored block, and
      the decompressor's own writes through its output pointer for a compressed one. */
  method WriteAt(out: array<byte>, at: nat, bytes: seq<byte>)
    requires at + |bytes| <= out.Length
    modifies out
    ensures out[..] == Overwrite(old(out[..]), at, bytes)
  {
    forall i | 0 <= i < |bytes| {
      out[at + i] := bytes[i];
    }
  }

  /** The body of the walk loop up to the cursor advance: a stored block is copied, a
      compressed block is decompressed into `out`, a zero size does nothing. On `stop` the
      decode ends with that outcome; otherwise `consumed` is the (clamped or masked)
      `block_size` the input cursor is to advance by, and `outShift'` and `blocks'` the new
      output cursor and log. */
  method DispatchBlock(input: seq<byte>, lzo: Lzo, out: array<byte>, blockInc: u32, outShift: u32,
                       blockSize: u32, blocks: seq<Block>, ghost s: State)
    returns (stop: bool, outcome: Outcome, consumed: u32, outShift': u32, blocks': seq<Block>)
    requires s == State(blockInc, outShift, blockSize, out[..], blocks)
    requires outShift <= out.Length < 0x1_0000_0000
    modifies out
    ensures stop ==> Dispatch(input, lzo, s) == Stop(outcome)
    ensures !stop ==> Dispatch(input, lzo, s) == Moved(consumed, outShift', out[..], blocks') && outShift' <= out.Length
  {
    stop, outcome, consumed, outShift', blocks' := false, Truncated, blockSize, outShift, blocks;
    if blockSize >= RawBlockSize {
      consumed := RawBlockSize;
      if outShift + RawBlockSize > |input| {
        return true, Truncated, consumed, outShift', blocks';
      }
      if outShift + RawBlockSize > out.Length {
        return true, Overflow, consumed, outShift', blocks';
      }
      StoredBlock(input, lzo, s);
      // the source copies from `in + out_shift`, not from `in + block_inc`
      WriteAt(out, outShift, input[outShift..outShift + RawBlockSize]);
      blocks' := blocks + [Copied(outShift)];
    } else if blockSize != 0 {
      consumed := Mask16(blockSize);
      if blockInc + consumed > |input| {
        return true, Truncated, consumed, outShift', blocks';
      }
      var reply := lzo(input[blockInc..blockInc + consumed]);
      if reply.status != LzoOk {
        return true, DecodeFailed(reply.status), consumed, outShift', blocks';
      }
      if outShift + |reply.bytes| > out.Length {
        return true, Overflow, consumed, outShift', blocks';
      }
      CompressedBlock(input, lzo, s);
      WriteAt(out, outShift, reply.bytes);
      blocks' := blocks + [Decompressed(blockInc, consumed, outShift, |reply.bytes|)];
      outShift' := outShift + |reply.bytes|;
    }
  }

  /** The alignment loop: steps the input cursor up to the next multiple of 4. */
  method AlignUp(n: u32) returns (m: u32)
    requires n + 3 < 0x1_0000_0000
    ensures m == RoundUp4(n)
  {
    m := n;
    while m % 4 != 0
      invariant n <= m <= RoundUp4(n)
      decreases RoundUp4(n) - m
    {
      m := m + 1;
    }
    AlignedIsRoundUp(n, m);
  }

  /** One iteration of the `while (block_inc < in_filesize)` loop: dispatch the block,
      advance `block_inc` by the block size, align it, read the next size prefix there and
      step past it. On `stop` the decode ends with `outcome`; otherwise the walk goes on
      from the new variables, with `block_inc` still 4-aligned and at least 4 further on. */
  method Iterate(input: seq<byte>, lzo: Lzo, out: array<byte>, blockInc: u32, outShift: u32,
                 blockSize: u32, blocks: seq<Block>, ghost st: State)
    returns (stop: bool, outcome: Outcome, blockInc': u32, outShift': u32, blockSize': u32, blocks': seq<Block>)
    requires st == State(blockInc, outShift, blockSize, out[..], blocks)
    requires blockInc % 4 == 0 && blockInc < |input| <= MaxPayload
    requires outShift <= out.Length < 0x1_0000_0000
    modifies out
    ensures stop ==> Step(input, lzo, st) == Halt(outcome)
    ensures !stop ==> Step(input, lzo, st) == Next(State(blockInc', outShift', blockSize', out[..], blocks'))
  {
    var consumed;
    stop, outcome, consumed, outShift', blocks' := DispatchBlock(input, lzo, out, blockInc, outShift, blockSize, blocks, st);
    blockInc', blockSize' := blockInc, consumed;
    if stop {
      return;
    }
    ghost var written := out[..];
    StepAdvances(input, lzo, st, consumed, outShift', written, blocks');
    blockInc' := AlignUp(blockInc + consumed);
    blockSize' := if blockInc' + 4 <= |input| then ReadU32(input, blockInc') else 0;
    assert blockSize' == PrefixAt(input, blockInc');
    blockInc' := blockInc' + 4;
    assert out[..] == written;
  }

  /** Decodes `file` (the whole container, header included) and returns exactly what
      `Decode` specifies. The requires keeps the payload small enough that the source's
      32-bit cursor `block_inc` cannot wrap. */
  method ProcessFile(file: seq<byte>, lzo: Lzo) returns (o: Outcome)
    requires |file| <= HeaderSize + MaxPayload
    ensures o == Decode(file, lzo)
  {
    if |file| < 4 {
      return Truncated;
    }
    var magic := ReadU32(file, 0);
    if magic != Magic {
      return BadMagic;
    }
    if |file| < HeaderSize {
      return Truncated;
    }
    var outFileSize := ReadU32(file, 4);
    var blockSize: u32 := ReadU32(file, 8);
    var input := file[HeaderSize..];

    var out := new byte[outFileSize](_ => 0);
    var blockInc: u32 := 0;
    var outShift: u32 := 0;
    var blocks: seq<Block> := [];
    assert out[..] == Zeros(outFileSize);
    ghost var goal := Walk(input, lzo, Start(file));

    while blockInc < |input|
      invariant out.Length == outFileSize && outShift <= outFileSize
      invariant blockInc % 4 == 0
      invariant Walk(input, lzo, State(blockInc, outShift, blockSize, out[..], blocks)) == goal
      decreases |input| - blockInc
    {
      ghost var st := State(blockInc, outShift, blockSize, out[..], blocks);
      var stop, outcome;
      stop, outcome, blockInc, outShift, blockSize, blocks := Iterate(input, lzo, out, blockInc, outShift, blockSize, blocks, st);
      if stop {
        WalkHalt(input, lzo, st, outcome);
        return outcome;
      }
      WalkNext(input, lzo, st, State(blockInc, outShift, blockSize, out[..], blocks));
    }
    return Wrote(out[..], blocks);
  }
}
