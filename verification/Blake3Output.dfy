/** The seekable extendable output of a root node, written block by block. */
module Blake3Output {
  import opened Bytes
  import opened Blake3Spec

  /** Whole output blocks with consecutive counters. */
  method XofMany(m: Mode, o: Output, counter: nat, out: array<Byte>, pos: nat, blocks: nat)
    requires pos + 64 * blocks <= out.Length
    modifies out
    ensures forall i | 0 <= i < pos :: out[i] == old(out[i])
    ensures forall i | pos <= i < pos + 64 * blocks ::
      out[i] == XofBlock(m, o, counter + (i - pos) / 64)[(i - pos) % 64]
  {
    hide XofBlock;
    for b := 0 to blocks
      invariant forall i | 0 <= i < pos :: out[i] == old(out[i])
      invariant forall i | pos <= i < pos + 64 * b ::
        out[i] == XofBlock(m, o, counter + (i - pos) / 64)[(i - pos) % 64]
    {
      var block := XofBlock(m, o, counter + b);
      CopyInto(block, 0, out, pos + 64 * b, 64);
    }
  }

  method CopyInto(block: Block, offset: nat, out: array<Byte>, pos: nat, n: nat)
    requires offset + n <= 64 && pos + n <= out.Length
    modifies out
    ensures forall i | 0 <= i < out.Length ::
      out[i] == if pos <= i < pos + n then block[offset + (i - pos)] else old(out[i])
  {
    forall i | 0 <= i < n { out[pos + i] := block[offset + i]; }
  }

  /** Fills out with the stream from seek on: a partial block, whole blocks, a partial block. */
  method OutputRootBytes(m: Mode, o: Output, seek: nat, out: array<Byte>)
    modifies out
    ensures out[..] == RootBytes(m, o, seek, out.Length)
  {
    hide XofBlock;
    var outLen, pos := out.Length, 0;
    if outLen == 0 {
      return;
    }
    var counter := seek / 64;
    var offset := seek % 64;
    if offset != 0 {
      var wide := XofBlock(m, o, counter);
      var available := 64 - offset;
      var bytes := if outLen > available then available else outLen;
      CopyInto(wide, offset, out, pos, bytes);
      pos := pos + bytes;
      outLen := outLen - bytes;
      counter := counter + 1;
    }
    assert forall i | 0 <= i < pos :: out[i] == StreamByte(m, o, seek, i);
    var blocks := outLen / 64;
    if blocks != 0 {
      XofMany(m, o, counter, out, pos, blocks);
    }
    forall i | pos <= i < pos + 64 * blocks
      ensures out[i] == StreamByte(m, o, seek, i)
    {
      assert seek + i == 64 * counter + (i - pos);
    }
    counter := counter + blocks;
    pos := pos + 64 * blocks;
    outLen := outLen - 64 * blocks;
    if outLen != 0 {
      var wide := XofBlock(m, o, counter);
      CopyInto(wide, 0, out, pos, outLen);
      forall i | pos <= i < out.Length
        ensures out[i] == StreamByte(m, o, seek, i)
      {
        assert seek + i == 64 * counter + (i - pos);
      }
    }
  }
}
