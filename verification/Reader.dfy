/** The record reader: a walk along a chain of blocks that may hold anything. */
module Reader {
  import opened Format
  import Crc
  import Utf8
  import opened Blocks
  import opened Records
  import Layout
  import Engine
  import Operations
  import Device

  /** `unmarshal_descriptor_header` and the checks on a descriptor block by itself. */
  method OpenDescriptor(buf: Bytes) returns (o: Option<Block>)
    requires |buf| >= 36
    ensures o == if View(buf).Desc? then Some(View(buf)) else None
  {
    hide Crc.CrcOk, Utf8.Lossy, U16At, U32At, ReadDesc;
    if buf[0] != TYPE_DESCRIPTOR { return None; }
    var ok := Crc.VerifyBlockCrc(buf);
    if !ok { return None; }
    var hdr, keySize, first := ReadDesc(buf), U16At(buf, 2), U32At(buf, 12);
    if buf[1] != 32 { return None; }
    if keySize > |buf| - 36 { return None; }
    if first > FirstCapacity(|buf|, keySize) { return None; }
    if hdr.chunkCount == 0 { return None; }
    var key := buf[32..32 + keySize];
    o := Some(Desc(hdr, Utf8.MakeKey(key), buf[32 + keySize..32 + keySize + first]));
  }

  /** `unmarshal_chunk_header` and the checks on a chunk block by itself. */
  method OpenChunk(buf: Bytes) returns (o: Option<Block>)
    requires |buf| >= 36
    ensures o == if View(buf).Chunk? then Some(View(buf)) else None
  {
    hide Crc.CrcOk, Utf8.Lossy, U16At, U32At, ReadChunk;
    if buf[0] != TYPE_CHUNK { return None; }
    var ok := Crc.VerifyBlockCrc(buf);
    if !ok { return None; }
    var size := U32At(buf, 12);
    if buf[1] != 20 { return None; }
    if size > ChunkCapacity(|buf|) { return None; }
    o := Some(Chunk(ReadChunk(buf), buf[20..20 + size]));
  }

  /** `chunks` is a sound piece of a chain owned by `d`, from the descriptor's link up to `next`. */
  ghost predicate Walked(disk: Disk, d: nat, start: nat, chunks: seq<nat>, next: nat) {
    && start == Link(chunks + [next], 0)
    && (forall k | 0 <= k < |chunks| ::
          && chunks[k] < |disk| && chunks[k] != NULL_BLOCK
          && disk[chunks[k]].Chunk?
          && disk[chunks[k]].chdr.owner == d
          && disk[chunks[k]].chdr.index == k + 1
          && disk[chunks[k]].chdr.next == Link(chunks + [next], k + 1))
  }

  lemma WalkedAt(disk: Disk, d: nat, start: nat, chunks: seq<nat>, next: nat, k: nat)
    requires Walked(disk, d, start, chunks, next) && k < |chunks|
    ensures chunks[k] != NULL_BLOCK && Link(chunks + [next], k) == chunks[k]
    ensures chunks[k] < |disk| && disk[chunks[k]].Chunk?
    ensures disk[chunks[k]].chdr.next == Link(chunks + [next], k + 1)
  {}

  lemma LinkedAt(disk: Disk, r: Record, k: nat)
    requires Complete(disk, r) && k < |r.chunks|
    ensures r.chunks[k] < |disk| && disk[r.chunks[k]].Chunk? && disk[r.chunks[k]].chdr.next == Link(r.chunks, k + 1)
  {
    hide Payloads;
    assert ChunkFits(disk, r.block, r.chunks, k);
  }

  /** The `k`-th link of a walk is that of the complete record. */
  lemma {:induction false} WalkedTo(disk: Disk, r: Record, chunks: seq<nat>, next: nat, k: nat)
    requires Complete(disk, r) && Walked(disk, r.block, r.hdr.next, chunks, next) && k <= |chunks|
    ensures Link(r.chunks, k) == Link(chunks + [next], k)
  {
    if k == 0 {
      hide Payloads;
    } else {
      hide Complete, Walked;
      WalkedTo(disk, r, chunks, next, k - 1);
      WalkedAt(disk, r.block, r.hdr.next, chunks, next, k - 1);
      LinkedAt(disk, r, k - 1);
    }
  }

  lemma WalkedPrefix(disk: Disk, r: Record, chunks: seq<nat>, next: nat)
    requires Complete(disk, r) && Walked(disk, r.block, r.hdr.next, chunks, next)
    ensures chunks <= r.chunks && Link(r.chunks, |chunks|) == next
  {
    hide Complete, Walked;
    forall k | 0 <= k < |chunks| ensures k < |r.chunks| && r.chunks[k] == chunks[k] {
      WalkedTo(disk, r, chunks, next, k);
      WalkedAt(disk, r.block, r.hdr.next, chunks, next, k);
    }
    WalkedTo(disk, r, chunks, next, |chunks|);
    var last := if chunks == [] then next else chunks[|chunks| - 1];
    assert |chunks| <= |r.chunks|;
  }

  /** The next chunk of a complete record is where the walk is about to look. */
  lemma WalkedNext(disk: Disk, r: Record, chunks: seq<nat>, next: nat)
    requires Complete(disk, r) && Walked(disk, r.block, r.hdr.next, chunks, next) && next != NULL_BLOCK
    ensures |chunks| < |r.chunks| && r.chunks[|chunks|] == next && ChunkFits(disk, r.block, r.chunks, |chunks|)
    ensures next != r.block && next !in chunks
  {
    hide Payloads;
    WalkedPrefix(disk, r, chunks, next);
    assert ChunkFits(disk, r.block, r.chunks, |chunks|);
    ChunksDistinct(disk, r);
    assert forall k | 0 <= k < |chunks| :: chunks[k] == r.chunks[k];
  }

  /** A walk that has reached the end is the whole chain. */
  lemma WalkedAll(disk: Disk, r: Record, chunks: seq<nat>)
    requires Complete(disk, r) && Walked(disk, r.block, r.hdr.next, chunks, NULL_BLOCK)
    ensures r.chunks == chunks
  {
    hide Payloads;
    WalkedPrefix(disk, r, chunks, NULL_BLOCK);
    assert |chunks| < |r.chunks| ==> ChunkFits(disk, r.block, r.chunks, |chunks|);
  }

  lemma WalkedStep(disk: Disk, d: nat, start: nat, chunks: seq<nat>, next: nat)
    requires Walked(disk, d, start, chunks, next) && next < |disk| && next != NULL_BLOCK
    requires disk[next].Chunk? && disk[next].chdr.owner == d && disk[next].chdr.index == |chunks| + 1
    ensures Walked(disk, d, start, chunks + [next], disk[next].chdr.next)
  {
    var next' := disk[next].chdr.next;
    assert forall k | 0 <= k <= |chunks| :: Link(chunks + [next] + [next'], k) == Link(chunks + [next], k);
  }

  lemma BoundedSize(s: set<nat>, n: nat)
    requires forall i | i in s :: i < n
    ensures |s| <= n
  {
    if n == 0 {
      assert s == {};
    } else {
      BoundedSize(s - {n - 1}, n - 1);
    }
  }

  /**
   * `verify_and_read_record`: terminates on any contents, and returns a record exactly when the
   * completeness criteria hold.
   */
  method VerifyAndReadRecord(dev: Device.MemDevice, d: nat) returns (err: bool, r: Option<Record>)
    requires dev.Valid() && dev.blockSize >= 36
    ensures err <==> d >= dev.blockCount
    ensures !err && r.Some? ==> Complete(dev.Disk(), r.value) && r.value.block == d
    ensures !err && r.None? ==> forall q: Record | q.block == d :: !Complete(dev.Disk(), q)
    ensures !err ==> r == Read(dev.Disk(), d)
  {
    hide View, Complete, Payloads;
    var o := dev.ReadBlock(d);
    if o.None? { return true, None; }
    ghost var disk := dev.Disk();
    var b := OpenDescriptor(o.value);
    if b.None? {
      NotDescriptor(disk, d);
      return false, None;
    }
    var hdr, key, payload := b.value.hdr, b.value.key, b.value.payload;
    if hdr.chunkCount == 1 {
      if hdr.totalSize == |payload| && hdr.next == NULL_BLOCK {
        r := Some(Record(d, hdr, key, [], payload));
      } else {
        r := None;
      }
      SingleBlock(disk, d, r);
      return false, r;
    }
    if hdr.next == NULL_BLOCK {
      SingleBlock(disk, d, None);
      return false, None;
    }
    r := WalkChain(dev, d, b.value);
    return false, r;
  }

  /** The loop of the reader, from a descriptor that links to a first chunk. */
  method WalkChain(dev: Device.MemDevice, d: nat, desc: Block) returns (r: Option<Record>)
    requires dev.Valid() && dev.blockSize >= 36 && d < dev.blockCount && dev.Disk()[d] == desc && desc.Desc?
    requires desc.hdr.next != NULL_BLOCK
    ensures r == Read(dev.Disk(), d)
  {
    hide View, Complete, Payloads, Walked, Read;
    ghost var disk := dev.Disk();
    var hdr, value := desc.hdr, desc.payload;
    var chunks: seq<nat>, next: nat, expected, visited := [], hdr.next, 1, {d};
    Starts(disk, d, hdr.next);
    while next != NULL_BLOCK
      invariant expected == |chunks| + 1 && (chunks == [] ==> next == hdr.next)
      invariant forall i :: i in visited <==> i == d || i in chunks
      invariant forall i | i in visited :: i < dev.blockCount
      invariant Walked(disk, d, hdr.next, chunks, next)
      invariant value == desc.payload + Payloads(disk, chunks)
      decreases dev.blockCount - |visited|
    {
      if next >= dev.blockCount || next in visited {
        Broken(disk, d, chunks, next);
        return None;
      }
      visited := visited + {next};
      BoundedSize(visited, dev.blockCount);
      var buf := dev.ReadBlock(next);
      var c := OpenChunk(buf.value);
      if c.None? || c.value.chdr.owner != d || c.value.chdr.index != expected {
        Broken(disk, d, chunks, next);
        return None;
      }
      WalkedStep(disk, d, hdr.next, chunks, next);
      Layout.PayloadsSnoc(disk, chunks, next);
      value := value + c.value.payload;
      chunks := chunks + [next];
      expected := expected + 1;
      next := c.value.chdr.next;
    }
    if expected != hdr.chunkCount || |value| % U32_LIMIT != hdr.totalSize {
      WrongTotals(disk, d, chunks, value);
      return None;
    }
    r := Some(Record(d, hdr, desc.key, chunks, value));
    Whole(disk, r.value);
  }

  lemma Starts(disk: Disk, d: nat, start: nat)
    ensures Payloads(disk, []) == [] && Walked(disk, d, start, [], start)
  {}

  // ---- the verdicts of the walk ----

  lemma NotDescriptor(disk: Disk, d: nat)
    requires d < |disk| && !disk[d].Desc?
    ensures Read(disk, d).None? && forall q: Record | q.block == d :: !Complete(disk, q)
  {}

  /** The descriptor says one block, or links to nothing. */
  lemma SingleBlock(disk: Disk, d: nat, r: Option<Record>)
    requires d < |disk| && disk[d].Desc?
    requires disk[d].hdr.chunkCount == 1 || disk[d].hdr.next == NULL_BLOCK
    requires r == if disk[d].hdr.chunkCount == 1 && disk[d].hdr.totalSize == |disk[d].payload|
                     && disk[d].hdr.next == NULL_BLOCK
                  then Some(Record(d, disk[d].hdr, disk[d].key, [], disk[d].payload)) else None
    ensures r == Read(disk, d)
  {
    forall q: Record | q.block == d && Complete(disk, q) ensures r == Some(q) {
      assert q.chunks != [] ==> ChunkFits(disk, d, q.chunks, 0);
      assert q.chunks == [] ==> q.value == disk[d].payload;
    }
    if r.Some? { assert Complete(disk, r.value); ReadIs(disk, r.value); }
  }

  /** The walk cannot go on at `next`, so there is no complete record. */
  lemma Broken(disk: Disk, d: nat, chunks: seq<nat>, next: nat)
    requires d < |disk| && disk[d].Desc? && Walked(disk, d, disk[d].hdr.next, chunks, next) && next != NULL_BLOCK
    requires || next >= |disk| || next == d || next in chunks || !disk[next].Chunk?
             || disk[next].chdr.owner != d || disk[next].chdr.index != |chunks| + 1
    ensures Read(disk, d).None? && forall q: Record | q.block == d :: !Complete(disk, q)
  {
    forall q: Record | q.block == d && Complete(disk, q) ensures false {
      WalkedNext(disk, q, chunks, next);
    }
  }

  lemma WrongTotals(disk: Disk, d: nat, chunks: seq<nat>, value: Bytes)
    requires d < |disk| && disk[d].Desc? && Walked(disk, d, disk[d].hdr.next, chunks, NULL_BLOCK)
    requires chunks != [] && value == disk[d].payload + Payloads(disk, chunks)
    requires |chunks| + 1 != disk[d].hdr.chunkCount || |value| % U32_LIMIT != disk[d].hdr.totalSize
    ensures Read(disk, d).None? && forall q: Record | q.block == d :: !Complete(disk, q)
  {
    forall q: Record | q.block == d && Complete(disk, q) ensures false {
      WalkedAll(disk, q, chunks);
    }
  }

  lemma Whole(disk: Disk, r: Record)
    requires r.block < |disk| && disk[r.block].Desc? && r.hdr == disk[r.block].hdr && r.key == disk[r.block].key
    requires r.chunks != [] && Walked(disk, r.block, r.hdr.next, r.chunks, NULL_BLOCK)
    requires r.value == disk[r.block].payload + Payloads(disk, r.chunks)
    requires |r.chunks| + 1 == r.hdr.chunkCount && |r.value| % U32_LIMIT == r.hdr.totalSize
    ensures Complete(disk, r) && Read(disk, r.block) == Some(r)
  {
    assert forall k | 0 <= k <= |r.chunks| :: Link(r.chunks + [NULL_BLOCK], k) == Link(r.chunks, k);
    assert Complete(disk, r);
    ReadIs(disk, r);
  }

  // ---- the size test ----

  /**
   * The reader compares the value length after a cast to u32. On a device of fewer than 2^32 bytes the
   * cast never matters: the payloads of every complete record add up to exactly the stored size.
   */
  lemma SizeTestExact(disk: Disk, blockSize: nat, r: Record)
    requires Layout.WithinCapacity(disk, blockSize) && blockSize * |disk| < U32_LIMIT && Complete(disk, r)
    ensures |r.value| == r.hdr.totalSize
  {
    hide Payloads;
    var n, cap := |r.chunks|, ChunkCapacity(blockSize);
    Layout.PayloadsBound(disk, blockSize, r.chunks);
    ChunksDistinct(disk, r);
    var s := set i | i in Engine.BlocksOf(r);
    Operations.DistinctCount(Engine.BlocksOf(r), s);
    forall i | i in s ensures i < |disk| { OccupiedReadable(disk, r, i); }
    BoundedSize(s, |disk|);
    Layout.TimesMonotone(n + 1, |disk|, blockSize);
    SizeArithmetic(n, cap, blockSize);
  }

  lemma SizeArithmetic(n: nat, cap: nat, blockSize: nat)
    requires cap <= blockSize
    ensures n * cap + blockSize <= (n + 1) * blockSize
  {
    assert (n + 1) * blockSize == n * blockSize + blockSize;
    assert n * cap <= n * blockSize;
  }
}
