/** The container format and the meaning of one decode: the header, the block
    walk that `processFile` runs, and what the decode returns. Every function here
    is the specification the imperative decoder in module Walker is proved against. */
module Format {
  import opened Bytes

  /** Signature in the header's first word ("oZlB" on disk). */
  const Magic: u32 := 0x426C5A6F
  /** Magic, declared output size, first block size. */
  const HeaderSize: nat := 12
  /** Declared sizes at or above this denote a stored block of exactly this many bytes. */
  const RawBlockSize: u32 := 0x8000
  /** `LZO_E_OK`. */
  const LzoOk: int := 0
  /** Largest payload (file minus header) the source's `u32` input cursor walks without
      wrapping: a 4-aligned cursor below it is at most `MaxPayload - 4`, and one block
      moves it on by at most `RawBlockSize + 4` after alignment. */
  const MaxPayload: nat := 0xFFFF_7FFC

  /** miniLZO status codes: `LZO_E_OK` or a negative error. */
  type LzoStatus = s: int | s <= 0
  type LzoError = s: int | s < 0 witness -1

  /** What `lzo1x_decompress` reports for one compressed slice: its status and the bytes
      it wrote (their count is the `decomp_size` it hands back). */
  datatype LzoReply = LzoReply(status: LzoStatus, bytes: seq<byte>)

  /** The LZO1x decompressor, treated as a deterministic black box on the slice it is given. */
  type Lzo = seq<byte> -> LzoReply

  /** One block the walk has written, as the decoder's log reports it. */
  datatype Block =
    | Copied(at: nat)                                            // "Copied 0x8000 byte sector"
    | Decompressed(from: nat, size: nat, at: nat, produced: nat) // "Decompressed size byte sector into produced bytes"
  {
    /** One past the last output byte the block wrote. */
    function End(): nat {
      match this
      case Copied(at) => at + RawBlockSize
      case Decompressed(_, _, at, produced) => at + produced
    }
  }

  /** The result of decoding one file. `Truncated` and `Overflow` are not outcomes of the
      source, which reads or writes out of bounds or fails to allocate at those points; the
      model stops there. */
  datatype Outcome =
    | Wrote(data: seq<byte>, blocks: seq<Block>) // return 0; `data` is written to the output file
    | BadMagic                                   // return 2; nothing is written
    | DecodeFailed(status: LzoError)             // return the decoder's status; nothing is written
    | Truncated                                  // the header or a block read would pass the end of the input
    | Overflow                                   // a block write would pass the declared output size

  /** `processFile`'s return value for the outcomes the source itself produces. */
  function ReturnCode(o: Outcome): (code: int)
    requires !o.Truncated? && !o.Overflow?
    ensures code == 0 <==> o.Wrote?
    ensures code == 2 <==> o.BadMagic?
    ensures code < 0 <==> o.DecodeFailed?
    ensures o.DecodeFailed? ==> code == o.status
  {
    match o
    case Wrote(_, _) => 0
    case BadMagic => 2
    case DecodeFailed(status) => status
  }

  /** The variables of the block-walk loop at its head: `block_inc`, `out_shift`,
      `block_size`, the output buffer and the blocks logged so far. */
  datatype State = State(blockInc: nat, outShift: nat, blockSize: u32, out: seq<byte>, blocks: seq<Block>)

  /** `block_size & 0x0000FFFF` when `block_size > 0x10000`. */
  function Mask16(size: u32): (r: u32)
    ensures r <= 0x10000
    ensures size <= 0x10000 ==> r == size
  {
    if size > 0x10000 then size % 0x10000 else size
  }

  /** `block_inc` after the alignment loop: the least multiple of 4 not below `n`. */
  function RoundUp4(n: nat): (r: nat)
    ensures r % 4 == 0 && n <= r < n + 4
  {
    if n % 4 == 0 then n else n + (4 - n % 4)
  }

  /** The size prefix read at `at`. When the prefix does not fit in the input the source
      reads past its buffer, up to 0x8003 bytes past it after a stored block, which is
      undefined behaviour. The model yields 0 there: the value is never used, because the
      cursor then ends past the input and the loop stops. */
  function PrefixAt(input: seq<byte>, at: nat): u32 {
    if at + 4 <= |input| then ReadU32(input, at) else 0
  }

  /** The result of the block dispatch in one loop iteration. */
  datatype Dispatched =
    | Stop(outcome: Outcome)
    | Moved(consumed: nat, outShift: nat, out: seq<byte>, blocks: seq<Block>)

  /** The dispatch on `block_size`: a stored block, a compressed block, or nothing. */
  function Dispatch(input: seq<byte>, lzo: Lzo, s: State): (r: Dispatched)
    ensures r.Stop? ==> r.outcome.DecodeFailed? || r.outcome.Truncated? || r.outcome.Overflow?
    ensures r.Moved? ==> |r.out| == |s.out| && r.consumed <= RawBlockSize
    ensures r.Moved? && s.outShift <= |s.out| ==> r.outShift <= |r.out|
  {
    if s.blockSize >= RawBlockSize then
      // stored block: copied from the input at the OUTPUT offset; out_shift is unchanged
      if s.outShift + RawBlockSize > |input| then Stop(Truncated)
      else if s.outShift + RawBlockSize > |s.out| then Stop(Overflow)
      else
        Moved(RawBlockSize, s.outShift,
              Overwrite(s.out, s.outShift, input[s.outShift..s.outShift + RawBlockSize]),
              s.blocks + [Copied(s.outShift)])
    else if s.blockSize != 0 then
      var size := Mask16(s.blockSize);
      if s.blockInc + size > |input| then Stop(Truncated)
      else
        var reply := lzo(input[s.blockInc..s.blockInc + size]);
        if reply.status != LzoOk then Stop(DecodeFailed(reply.status))
        else if s.outShift + |reply.bytes| > |s.out| then Stop(Overflow)
        else
          Moved(size, s.outShift + |reply.bytes|,
                Overwrite(s.out, s.outShift, reply.bytes),
                s.blocks + [Decompressed(s.blockInc, size, s.outShift, |reply.bytes|)])
    else
      Moved(0, s.outShift, s.out, s.blocks)
  }

  datatype StepResult = Halt(outcome: Outcome) | Next(state: State)

  /** One iteration of the `while (block_inc < in_filesize)` loop: dispatch the block,
      advance and align the input cursor, read the next size prefix and step past it. */
  function Step(input: seq<byte>, lzo: Lzo, s: State): (r: StepResult)
    ensures r.Halt? ==> r.outcome.DecodeFailed? || r.outcome.Truncated? || r.outcome.Overflow?
    ensures r.Next? ==> r.state.blockInc % 4 == 0
    ensures r.Next? ==> s.blockInc + 4 <= r.state.blockInc < s.blockInc + RawBlockSize + 8
    ensures r.Next? ==> |r.state.out| == |s.out|
    ensures r.Next? && s.outShift <= |s.out| ==> r.state.outShift <= |s.out|
  {
    match Dispatch(input, lzo, s)
    case Stop(o) => Halt(o)
    case Moved(consumed, outShift, out, blocks) =>
      var aligned := RoundUp4(s.blockInc + consumed);
      Next(State(aligned + 4, outShift, PrefixAt(input, aligned), out, blocks))
  }

  /** The whole loop, from state `s` until the input cursor reaches the end of the input. */
  function Walk(input: seq<byte>, lzo: Lzo, s: State): (r: Outcome)
    ensures r.Wrote? ==> |r.data| == |s.out|
    ensures !r.BadMagic?
    decreases |input| - s.blockInc
  {
    if s.blockInc >= |input| then Wrote(s.out, s.blocks)
    else
      match Step(input, lzo, s)
      case Halt(o) => o
      case Next(t) => Walk(input, lzo, t)
  }

  /** The loop's first state: cursors at 0, the header's third word as the first block's
      size, and a zero-filled output of the declared size. */
  function Start(file: seq<byte>): State
    requires |file| >= HeaderSize
  {
    State(0, 0, ReadU32(file, 8), Zeros(ReadU32(file, 4)), [])
  }

  /** `processFile` on a whole file: header, magic check, then the block walk over the
      bytes after the header. */
  function Decode(file: seq<byte>, lzo: Lzo): (r: Outcome)
    ensures r.BadMagic? <==> |file| >= 4 && ReadU32(file, 0) != Magic
    ensures r.Wrote? ==> |file| >= HeaderSize && ReadU32(file, 0) == Magic && |r.data| == ReadU32(file, 4)
  {
    if |file| < 4 then Truncated
    else if ReadU32(file, 0) != Magic then BadMagic
    else if |file| < HeaderSize then Truncated
    else Walk(file[HeaderSize..], lzo, Start(file))
  }
}
