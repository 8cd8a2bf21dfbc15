/** The single-threaded reader of installer/mappedfile.c: a position over the bytes of the file. */
module FlatReader {
  import opened Bytes
  import opened ReaderSpec

  /** What the flat reader answers. Copying beyond the end of the mapping is undefined there. */
  function FlatResult(data: seq<byte>, pos: nat, call: Call): Result
    requires call.Copy? ==> pos + call.len <= |data|
  {
    if call.Copy? then Returns(true, Repeat(call.n, data[pos..pos + call.len]), pos + call.len)
    else if pos + |call.dst| <= |data| then Returns(true, [data[pos..pos + |call.dst|]], pos + |call.dst|)
    else Returns(false, [call.dst], pos)
  }

  /** A request both readers serve alike: in range, not empty and, for a read, inside one block. */
  predicate Fits(size: nat, B: nat, pos: nat, call: Call)
    requires B > 0
  {
    0 < call.Len() && pos + call.Len() <= size && (call.Read? ==> pos % B + call.Len() <= B)
  }

  /** On requests that fit, block by block transfer and flat access agree in bytes, result and position. */
  lemma FitsAgree(data: seq<byte>, B: nat, pos: nat, call: Call)
    requires B > 0 && Fits(|data|, B, pos, call)
    ensures CallResult(data, B, pos, call) == FlatResult(data, pos, call)
  {
    if call.Copy? {
      assert data[pos..pos] == [];
      TransferCopy(data, B, call, pos, pos, call.len);
    } else {
      ReadInOneBlock(data, B, pos, call.dst);
    }
  }

  class MappedFile {
    const mem: seq<byte>
    var pos: nat

    ghost predicate Valid()
      reads this
    {
      pos <= |mem|
    }

    constructor (data: seq<byte>)
      ensures Valid() && mem == data && pos == 0
    {
      mem, pos := data, 0;
    }

    /** Appends the next len bytes to every output. */
    method CopyToFiles(outs: array<seq<byte>>, len: nat) returns (ok: bool)
      requires Valid() && pos + len <= |mem|
      modifies this`pos, outs
      ensures Valid()
      ensures forall i :: 0 <= i < outs.Length ==> outs[i] == old(outs[i]) + mem[old(pos)..old(pos) + len]
      ensures (forall i :: 0 <= i < outs.Length ==> old(outs[i]) == []) ==>
        Returns(ok, outs[..], pos) == FlatResult(mem, old(pos), Copy(outs.Length, len))
      ensures ok && pos == old(pos) + len
    {
      var i := 0;
      while i < outs.Length
        invariant i <= outs.Length && pos == old(pos)
        invariant forall j :: 0 <= j < i ==> outs[j] == old(outs[j]) + mem[pos..pos + len]
        invariant forall j :: i <= j < outs.Length ==> outs[j] == old(outs[j])
      {
        outs[i] := outs[i] + mem[pos..pos + len];
        i := i + 1;
      }
      if forall i :: 0 <= i < outs.Length ==> old(outs[i]) == [] {
        assert forall i :: 0 <= i < outs.Length ==> outs[i] == mem[pos..pos + len];
        assert outs[..] == Repeat(outs.Length, mem[pos..pos + len]);
      }
      pos := pos + len;
      ok := true;
    }

    /** Fills dst with the next bytes, or leaves everything alone when there are not enough. */
    method Read(dst: array<byte>) returns (ok: bool)
      requires Valid()
      modifies this`pos, dst
      ensures Valid()
      ensures Returns(ok, [dst[..]], pos) == FlatResult(mem, old(pos), ReaderSpec.Read(old(dst[..])))
    {
      if |mem| - pos >= dst.Length {
        forall i | 0 <= i < dst.Length {
          dst[i] := mem[pos + i];
        }
        assert dst[..] == mem[pos..pos + dst.Length];
        pos := pos + dst.Length;
        ok := true;
      } else {
        ok := false;
      }
    }
  }
}
