/** Filling block buffers in place. */
module Marshal {
  import opened Format
  import opened Crc
  import opened Blocks

  /** `s` with the bytes from `off` on replaced by `src`. */
  function Overwritten(s: Bytes, off: nat, src: Bytes): (t: Bytes)
    requires off + |src| <= |s|
    ensures |t| == |s|
  {
    s[..off] + src + s[off + |src|..]
  }

  /** `copy_from_slice` into part of a buffer. */
  method CopyInto(buf: array<Byte>, off: nat, src: Bytes)
    requires off + |src| <= buf.Length
    modifies buf
    ensures buf[..] == Overwritten(old(buf[..]), off, src)
  {
    forall k | 0 <= k < |src| { buf[off + k] := src[k]; }
    assert buf[..] == Overwritten(old(buf[..]), off, src);
  }

  lemma OverwriteOn(s: Bytes, front: Bytes, src: Bytes)
    requires |front| + |src| <= |s|
    ensures Overwritten(Overwritten(s, 0, front), |front|, src) == Overwritten(s, 0, front + src)
  {}

  /** `copy_from_slice` just behind the part of the buffer that is already filled. */
  method Append(buf: array<Byte>, ghost was: Bytes, ghost front: Bytes, off: nat, src: Bytes)
    requires |was| == buf.Length && off == |front| && off + |src| <= buf.Length
    requires buf[..] == Overwritten(was, 0, front)
    modifies buf
    ensures buf[..] == Overwritten(was, 0, front + src)
  {
    CopyInto(buf, off, src);
    OverwriteOn(was, front, src);
  }

  /** `marshal_descriptor_header`. */
  method MarshalDescriptor(h: DescHeader, keySize: nat, first: nat, buf: array<Byte>)
    requires buf.Length >= 32
    modifies buf
    ensures buf[..] == Overwritten(old(buf[..]), 0, DescBytes(h, keySize, first))
  {
    hide U16Bytes, U32Bytes, Overwritten;
    ghost var was := buf[..];
    CopyInto(buf, 0, [TYPE_DESCRIPTOR, 32]);
    ghost var s := [TYPE_DESCRIPTOR, 32];
    Append(buf, was, s, 2, U16Bytes(keySize));
    s := s + U16Bytes(keySize);
    Append(buf, was, s, 4, U32Bytes(h.generation));
    s := s + U32Bytes(h.generation);
    Append(buf, was, s, 8, U32Bytes(h.totalSize));
    s := s + U32Bytes(h.totalSize);
    Append(buf, was, s, 12, U32Bytes(first));
    s := s + U32Bytes(first);
    Append(buf, was, s, 16, U32Bytes(h.chunkCount));
    s := s + U32Bytes(h.chunkCount);
    Append(buf, was, s, 20, U32Bytes(h.next));
    s := s + U32Bytes(h.next);
    Append(buf, was, s, 24, U32Bytes(h.flags));
    s := s + U32Bytes(h.flags);
    Append(buf, was, s, 28, U32Bytes(h.userFlags));
  }

  /** `marshal_chunk_header`. */
  method MarshalChunk(h: ChunkHeader, size: nat, buf: array<Byte>)
    requires buf.Length >= 20
    modifies buf
    ensures buf[..] == Overwritten(old(buf[..]), 0, ChunkBytes(h, size))
  {
    hide U16Bytes, U32Bytes, Overwritten;
    ghost var was := buf[..];
    CopyInto(buf, 0, [TYPE_CHUNK, 20]);
    ghost var s := [TYPE_CHUNK, 20];
    Append(buf, was, s, 2, U16Bytes(h.flags));
    s := s + U16Bytes(h.flags);
    Append(buf, was, s, 4, U32Bytes(h.owner));
    s := s + U32Bytes(h.owner);
    Append(buf, was, s, 8, U32Bytes(h.index));
    s := s + U32Bytes(h.index);
    Append(buf, was, s, 12, U32Bytes(size));
    s := s + U32Bytes(size);
    Append(buf, was, s, 16, U32Bytes(h.next));
  }

  /** A descriptor block: header, key and first payload in a zeroed buffer, then the CRC. */
  method BuildDescriptor(blockSize: nat, h: DescHeader, raw: Bytes, payload: Bytes) returns (b: Bytes)
    requires |raw| + |payload| + 36 <= blockSize
    ensures b == EncodeDesc(blockSize, h, raw, payload)
  {
    hide DescBytes, Stamped, CrcOk;
    var buf := new Byte[blockSize](i => 0);
    ghost var was, head := buf[..], DescBytes(h, |raw|, |payload|);
    MarshalDescriptor(h, |raw|, |payload|, buf);
    Append(buf, was, head, 32, raw);
    Append(buf, was, head + raw, 32 + |raw|, payload);
    assert buf[..] == head + raw + payload + Fill(blockSize - 32 - |raw| - |payload|, 0);
    WriteBlockCrc(buf);
    b := buf[..];
  }

  /** A value chunk block. */
  method BuildChunk(blockSize: nat, h: ChunkHeader, payload: Bytes) returns (b: Bytes)
    requires |payload| + 24 <= blockSize
    ensures b == EncodeChunk(blockSize, h, payload)
  {
    hide ChunkBytes, Stamped, CrcOk;
    var buf := new Byte[blockSize](i => 0);
    ghost var was, head := buf[..], ChunkBytes(h, |payload|);
    MarshalChunk(h, |payload|, buf);
    Append(buf, was, head, 20, payload);
    assert buf[..] == head + payload + Fill(blockSize - 20 - |payload|, 0);
    WriteBlockCrc(buf);
    b := buf[..];
  }
}
