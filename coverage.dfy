/** What the output of a successful decode holds: every logged block lies inside the
    declared output size, and a byte that no block wrote keeps the 0 of the initial
    `lzo_memset`. */
module Coverage {
  import opened Bytes
  import opened Format
  import opened Steps

  /** Output offset `i` is one that block `b` wrote. */
  predicate Covers(b: Block, i: int) {
    b.at <= i < b.End()
  }

  /** The blocks in `blocks` account for `out`: each lies inside it, and each nonzero byte
      of it was written by one of them. */
  predicate Accounted(out: seq<byte>, blocks: seq<Block>) {
    && (forall k :: 0 <= k < |blocks| ==> blocks[k].End() <= |out|)
    && (forall i :: 0 <= i < |out| && out[i] != 0 ==> exists k :: 0 <= k < |blocks| && Covers(blocks[k], i))
  }

  /** Writing one more block keeps the output accounted for, with that block logged. */
  lemma OverwriteAccounted(out: seq<byte>, blocks: seq<Block>, b: Block, bytes: seq<byte>)
    requires Accounted(out, blocks)
    requires b.End() == b.at + |bytes| <= |out|
    ensures Accounted(Overwrite(out, b.at, bytes), blocks + [b])
  {
    var out' := Overwrite(out, b.at, bytes);
    var blocks' := blocks + [b];
    forall i | 0 <= i < |out'| && out'[i] != 0
      ensures exists k :: 0 <= k < |blocks'| && Covers(blocks'[k], i)
    {
      if Covers(b, i) {
        assert blocks'[|blocks|] == b;
      } else {
        var k :| 0 <= k < |blocks| && Covers(blocks[k], i);
        assert blocks'[k] == blocks[k];
      }
    }
  }

  /** One block dispatch keeps the output accounted for. */
  lemma DispatchAccounted(input: seq<byte>, lzo: Lzo, s: State)
    requires Accounted(s.out, s.blocks)
    requires Dispatch(input, lzo, s).Moved?
    ensures Accounted(Dispatch(input, lzo, s).out, Dispatch(input, lzo, s).blocks)
  {
    if s.blockSize >= RawBlockSize {
      OverwriteAccounted(s.out, s.blocks, Copied(s.outShift), input[s.outShift..s.outShift + RawBlockSize]);
    } else if s.blockSize != 0 {
      var reply := lzo(input[s.blockInc..s.blockInc + s.blockSize]);
      OverwriteAccounted(s.out, s.blocks, Decompressed(s.blockInc, s.blockSize, s.outShift, |reply.bytes|), reply.bytes);
    }
  }

  /** The whole walk keeps the output accounted for. */
  lemma {:induction false} WalkAccounted(input: seq<byte>, lzo: Lzo, s: State)
    requires Accounted(s.out, s.blocks)
    ensures Walk(input, lzo, s).Wrote? ==> Accounted(Walk(input, lzo, s).data, Walk(input, lzo, s).blocks)
    decreases |input| - s.blockInc
  {
    if s.blockInc < |input| && Dispatch(input, lzo, s).Moved? {
      DispatchAccounted(input, lzo, s);
      WalkAccounted(input, lzo, Step(input, lzo, s).state);
    }
  }

  /** On success the emitted bytes number exactly the declared output size, every logged
      block lies inside them, and any byte no block wrote is 0. */
  lemma DecodeAccounted(file: seq<byte>, lzo: Lzo)
    ensures var r := Decode(file, lzo);
      r.Wrote? ==> |r.data| == ReadU32(file, 4) && Accounted(r.data, r.blocks)
  {
    if |file| >= HeaderSize && ReadU32(file, 0) == Magic {
      WalkAccounted(file[HeaderSize..], lzo, Start(file));
    }
  }
}
