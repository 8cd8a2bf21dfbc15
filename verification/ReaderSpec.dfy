/**
 What one call of the read-ahead reader (installer/mappedfile_mt.c) does when no thread ever gets
 in its way: the block by block transfer loop over the bytes of the file. `B` is the block size.
 */
module ReaderSpec {
  import opened Bytes

  /** A client call: copy `len` bytes to n files, or read |dst| bytes into a buffer holding `dst`. */
  datatype Call = Copy(n: nat, len: nat) | Read(dst: seq<byte>)
  {
    function Len(): nat {
      if Copy? then len else |dst|
    }

    /** What the targets of the call hold before anything was transferred. */
    function Targets(): seq<seq<byte>> {
      if Copy? then Repeat(n, []) else [dst]
    }

    /** write() appends; memcpy always starts again at dst[0], because dst is never advanced. */
    function Deliver(had: seq<byte>, chunk: seq<byte>): seq<byte> {
      if Copy? then had + chunk else chunk + had[Min(|chunk|, |had|)..]
    }

    /** The targets once the first i of them have received the chunk. */
    function DeliverUpto(before: seq<seq<byte>>, chunk: seq<byte>, i: nat): (outs: seq<seq<byte>>)
      ensures |outs| == |before|
    {
      seq(|before|, j requires 0 <= j < |before| => if j < i then Deliver(before[j], chunk) else before[j])
    }
  }

  /** A call returns, or spins for ever copying zero bytes. */
  datatype Result = Returns(ok: bool, outs: seq<seq<byte>>, end: nat) | Spins

  /** Bytes moved by one round of the transfer loop. */
  function ToCopy(size: nat, B: nat, pos: nat, rem: nat): nat
    requires B > 0 && pos <= size
  {
    Min(rem, Min(size - pos, B - pos % B))
  }

  function Transfer(data: seq<byte>, B: nat, call: Call, pos: nat, rem: nat, outs: seq<seq<byte>>): Result
    requires B > 0 && pos <= |data|
    decreases rem
  {
    if rem == 0 then Returns(true, outs, pos)
    else if pos == |data| then
      if |data| % B == 0 then Returns(false, outs, pos) else Spins
    else
      var t := ToCopy(|data|, B, pos, rem);
      Transfer(data, B, call, pos + t, rem - t, call.DeliverUpto(outs, data[pos..pos + t], |outs|))
  }

  function CallResult(data: seq<byte>, B: nat, pos: nat, call: Call): Result
    requires B > 0
  {
    if pos >= |data| then Returns(false, call.Targets(), pos)
    else Transfer(data, B, call, pos, call.Len(), call.Targets())
  }

  /** File offset of block number k. */
  function Offset(B: nat, k: nat): nat {
    if k == 0 then 0 else Offset(B, k - 1) + B
  }

  lemma {:induction false} OffsetIsMultiple(B: nat, k: nat)
    ensures Offset(B, k) == k * B
  {
    if k > 0 {
      OffsetIsMultiple(B, k - 1);
    }
  }

  lemma MulMonotone(a: int, b: int, m: nat)
    requires a <= b
    ensures a * m <= b * m
  {
  }

  lemma ModOfMultiple(pos: nat, k: nat, B: nat)
    requires B > 0 && k * B <= pos < k * B + B
    ensures pos % B == pos - k * B
  {
    var q := pos / B;
    if q < k {
      MulMonotone(q + 1, k, B);
    } else if q > k {
      MulMonotone(k + 1, q, B);
    }
  }

  lemma ModOfOffset(pos: nat, k: nat, B: nat)
    requires B > 0 && Offset(B, k) <= pos < Offset(B, k) + B
    ensures pos % B == pos - Offset(B, k)
  {
    OffsetIsMultiple(B, k);
    ModOfMultiple(pos, k, B);
  }

  /** One round with nothing left in the file changes no target. */
  lemma DeliverNothing(call: Call, before: seq<seq<byte>>, i: nat)
    ensures call.DeliverUpto(before, [], i) == before
  {
    forall j | 0 <= j < |before|
      ensures call.Deliver(before[j], []) == before[j]
    {
    }
  }

  // ----- closed forms of a call

  /** An in-range copy appends exactly the requested bytes to every target. */
  lemma {:induction false} TransferCopy(data: seq<byte>, B: nat, call: Call, start: nat, pos: nat, rem: nat)
    requires B > 0 && call.Copy? && start <= pos && pos + rem <= |data|
    ensures Transfer(data, B, call, pos, rem, Repeat(call.n, data[start..pos]))
         == Returns(true, Repeat(call.n, data[start..pos + rem]), pos + rem)
    decreases rem
  {
    if rem > 0 {
      var t := ToCopy(|data|, B, pos, rem);
      assert data[start..pos] + data[pos..pos + t] == data[start..pos + t];
      assert call.DeliverUpto(Repeat(call.n, data[start..pos]), data[pos..pos + t], call.n)
          == Repeat(call.n, data[start..pos + t]);
      TransferCopy(data, B, call, start, pos + t, rem - t);
    }
  }

  lemma RoundBounds(size: nat, B: nat, pos: nat, rem: nat)
    requires B > 0 && pos < size
    ensures ToCopy(size, B, pos, rem) <= rem && pos + ToCopy(size, B, pos, rem) <= size
    ensures 0 < rem ==> 0 < ToCopy(size, B, pos, rem)
    ensures B < pos % B + rem ==> ToCopy(size, B, pos, rem) < rem
  {
  }

  lemma NothingToTransfer(data: seq<byte>, B: nat, call: Call, pos: nat, outs: seq<seq<byte>>)
    requires B > 0 && pos <= |data|
    ensures Transfer(data, B, call, pos, 0, outs) == Returns(true, outs, pos)
  {
  }

  /** A round shorter than the buffer leaves its last byte alone. */
  lemma DeliverKeepsLastByte(call: Call, dst: seq<byte>, chunk: seq<byte>)
    requires call.Read? && |chunk| < |dst|
    ensures |call.Deliver(dst, chunk)| == |dst| && call.Deliver(dst, chunk)[|dst| - 1] == dst[|dst| - 1]
  {
  }

  /** One round of the transfer into a single buffer. */
  lemma ReadRound(data: seq<byte>, B: nat, call: Call, pos: nat, rem: nat, dst: seq<byte>)
    requires B > 0 && call.Read? && pos < |data| && 0 < rem
    ensures var t := ToCopy(|data|, B, pos, rem);
      Transfer(data, B, call, pos, rem, [dst])
          == Transfer(data, B, call, pos + t, rem - t, [call.Deliver(dst, data[pos..pos + t])])
  {
    var t := ToCopy(|data|, B, pos, rem);
    assert call.DeliverUpto([dst], data[pos..pos + t], 1) == [call.Deliver(dst, data[pos..pos + t])];
  }

  /** The last byte of the buffer is out of reach of every round shorter than the buffer. */
  lemma {:induction false} TransferReadLastByte(data: seq<byte>, B: nat, call: Call, pos: nat, rem: nat, dst: seq<byte>)
    requires B > 0 && call.Read? && pos + rem <= |data|
    requires 0 < |dst| && rem < |dst|
    ensures var r := Transfer(data, B, call, pos, rem, [dst]);
      r.Returns? && |r.outs| == 1 && |r.outs[0]| == |dst| && r.outs[0][|dst| - 1] == dst[|dst| - 1]
    decreases rem
  {
    hide Transfer, ToCopy;
    if rem == 0 {
      NothingToTransfer(data, B, call, pos, [dst]);
    } else {
      var t := ToCopy(|data|, B, pos, rem);
      RoundBounds(|data|, B, pos, rem);
      DeliverKeepsLastByte(call, dst, data[pos..pos + t]);
      ReadRound(data, B, call, pos, rem, dst);
      TransferReadLastByte(data, B, call, pos + t, rem - t, call.Deliver(dst, data[pos..pos + t]));
    }
  }

  lemma CallIsTransfer(data: seq<byte>, B: nat, pos: nat, call: Call)
    requires B > 0 && pos < |data|
    ensures CallResult(data, B, pos, call) == Transfer(data, B, call, pos, call.Len(), call.Targets())
  {
  }

  /** A read that leaves its block ends with the last byte its buffer held before. */
  lemma StraddlingReadKeepsLastByte(data: seq<byte>, B: nat, pos: nat, dst: seq<byte>)
    requires B > 0 && pos + |dst| <= |data| && B < pos % B + |dst| && 0 < |dst|
    ensures var r := CallResult(data, B, pos, Read(dst));
      r.Returns? && |r.outs| == 1 && |r.outs[0]| == |dst| && r.outs[0][|dst| - 1] == dst[|dst| - 1]
  {
    hide Transfer, CallResult, ToCopy;
    var call := Read(dst);
    var t := ToCopy(|data|, B, pos, |dst|);
    RoundBounds(|data|, B, pos, |dst|);
    DeliverKeepsLastByte(call, dst, data[pos..pos + t]);
    CallIsTransfer(data, B, pos, call);
    ReadRound(data, B, call, pos, |dst|, dst);
    TransferReadLastByte(data, B, call, pos + t, |dst| - t, call.Deliver(dst, data[pos..pos + t]));
  }

  /** A read inside one block fills the buffer with the bytes of the file. */
  lemma ReadInOneBlock(data: seq<byte>, B: nat, pos: nat, dst: seq<byte>)
    requires B > 0 && pos < |data| && pos + |dst| <= |data| && pos % B + |dst| <= B
    ensures CallResult(data, B, pos, Read(dst)) == Returns(true, [data[pos..pos + |dst|]], pos + |dst|)
  {
    var call := Read(dst);
    if |dst| > 0 {
      var t := ToCopy(|data|, B, pos, |dst|);
      assert t == |dst|;
      assert call.Deliver(dst, data[pos..pos + t]) == data[pos..pos + t];
      var outs := call.DeliverUpto([dst], data[pos..pos + t], 1);
      assert outs == [data[pos..pos + t]];
      assert Transfer(data, B, call, pos + t, 0, outs) == Returns(true, outs, pos + t);
      assert Transfer(data, B, call, pos, |dst|, [dst]) == Transfer(data, B, call, pos + t, |dst| - t, outs);
    } else {
      assert data[pos..pos] == dst;
    }
  }

  /**
   mappedFile_read promises dst == file[pos..pos+len). The code keeps that promise, whatever the
   buffer held before, exactly when the read stays inside one block.
   */
  lemma ReadIsExactIffInOneBlock(data: seq<byte>, B: nat, pos: nat, len: nat)
    requires B > 0 && pos < |data| && pos + len <= |data|
    ensures (forall dst: seq<byte> :: |dst| == len ==>
               CallResult(data, B, pos, Read(dst)) == Returns(true, [data[pos..pos + len]], pos + len))
        <==> pos % B + len <= B
  {
    if pos % B + len <= B {
      forall dst: seq<byte> | |dst| == len
        ensures CallResult(data, B, pos, Read(dst)) == Returns(true, [data[pos..pos + len]], pos + len)
      {
        ReadInOneBlock(data, B, pos, dst);
      }
    } else {
      var wrong: byte := if data[pos + len - 1] == 0 then 1 else 0;
      var dst: seq<byte> := Repeat(len, wrong);
      StraddlingReadKeepsLastByte(data, B, pos, dst);
      assert CallResult(data, B, pos, Read(dst)).outs[0][len - 1] == wrong;
      assert data[pos..pos + len][len - 1] == data[pos + len - 1];
    }
  }

  /** An in-range call succeeds and ends behind its last byte. */
  lemma {:induction false} TransferInRange(data: seq<byte>, B: nat, call: Call, pos: nat, rem: nat,
      outs: seq<seq<byte>>)
    requires B > 0 && pos + rem <= |data|
    ensures Transfer(data, B, call, pos, rem, outs).Returns?
    ensures Transfer(data, B, call, pos, rem, outs).ok && Transfer(data, B, call, pos, rem, outs).end == pos + rem
    decreases rem
  {
    if rem > 0 {
      var t := ToCopy(|data|, B, pos, rem);
      TransferInRange(data, B, call, pos + t, rem - t, call.DeliverUpto(outs, data[pos..pos + t], |outs|));
    }
  }

  /** A call that asks for more than is left spins for ever, unless the file ends on a block boundary. */
  lemma {:induction false} TransferOutOfRange(data: seq<byte>, B: nat, call: Call, pos: nat, rem: nat,
      outs: seq<seq<byte>>)
    requires B > 0 && pos <= |data| < pos + rem
    ensures Transfer(data, B, call, pos, rem, outs).Spins? <==> |data| % B != 0
    ensures |data| % B == 0 ==>
      && !Transfer(data, B, call, pos, rem, outs).ok
      && Transfer(data, B, call, pos, rem, outs).end == |data|
    decreases rem
  {
    if pos < |data| {
      var t := ToCopy(|data|, B, pos, rem);
      TransferOutOfRange(data, B, call, pos + t, rem - t, call.DeliverUpto(outs, data[pos..pos + t], |outs|));
    }
  }
}
