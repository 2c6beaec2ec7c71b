/** The on-disk format in literal offsets and constants, and that the codec and the reader follow it. */
module OnDisk {
  import opened Format
  import opened Crc
  import opened Utf8
  import opened Blocks
  import opened Records
  import opened Layout
  import Engine
  import opened Device
  import Raw

  // ---- single blocks ----

  /** A descriptor block, byte by byte. */
  predicate DescLayout(b: Bytes, h: DescHeader, raw: Bytes, payload: Bytes) {
    && 36 + |raw| + |payload| <= |b|
    && b[0] == 0x02 && b[1] == 0x20 && Le16(b, 2) == |raw|
    && Le32(b, 4) == h.generation && Le32(b, 8) == h.totalSize && Le32(b, 12) == |payload|
    && Le32(b, 16) == h.chunkCount && Le32(b, 20) == h.next && Le32(b, 24) == h.flags && Le32(b, 28) == h.userFlags
    && b[32..32 + |raw|] == raw && b[32 + |raw|..32 + |raw| + |payload|] == payload
  }

  /** A value chunk block, byte by byte. */
  predicate ChunkLayout(b: Bytes, h: ChunkHeader, payload: Bytes) {
    && 24 + |payload| <= |b|
    && b[0] == 0x03 && b[1] == 0x14 && Le16(b, 2) == h.flags
    && Le32(b, 4) == h.owner && Le32(b, 8) == h.index && Le32(b, 12) == |payload| && Le32(b, 16) == h.next
    && b[20..20 + |payload|] == payload
  }

  /** A block reads as a descriptor if and only if it lies on the disk like that under a good checksum. */
  lemma DescIff(b: Bytes, h: DescHeader, raw: Bytes, payload: Bytes)
    requires |b| >= 36
    ensures View(b) == Desc(h, MakeKey(raw), payload) <==>
            CrcOk(b) && h.chunkCount != 0 && DescLayout(b, h, raw, payload)
  {
    hide CrcOk, Lossy, U16At, U32At, Le16, Le32;
    FieldsAre(b, 2);
    FieldsAre(b, 4);
    FieldsAre(b, 8);
    FieldsAre(b, 12);
    FieldsAre(b, 16);
    FieldsAre(b, 20);
    FieldsAre(b, 24);
    FieldsAre(b, 28);
  }

  /** A block reads as a value chunk if and only if it lies on the disk like that under a good checksum. */
  lemma ChunkIff(b: Bytes, h: ChunkHeader, payload: Bytes)
    requires |b| >= 36
    ensures View(b) == Chunk(h, payload) <==> CrcOk(b) && ChunkLayout(b, h, payload)
  {
    hide CrcOk, Lossy, U16At, U32At, Le16, Le32;
    FieldsAre(b, 2);
    FieldsAre(b, 4);
    FieldsAre(b, 8);
    FieldsAre(b, 12);
    FieldsAre(b, 16);
  }

  /** The 32 bytes of a marshalled descriptor header. */
  lemma MarshalledDescriptor(h: DescHeader, keySize: nat, first: nat)
    requires h.generation < 0x1_0000_0000 && h.totalSize < 0x1_0000_0000 && h.chunkCount < 0x1_0000_0000
    requires h.next < 0x1_0000_0000 && h.flags < 0x1_0000_0000 && h.userFlags < 0x1_0000_0000
    requires first < 0x1_0000_0000
    ensures var b := DescBytes(h, keySize, first);
            && |b| == 32 && b[0] == 0x02 && b[1] == 0x20 && Le16(b, 2) == keySize % 0x1_0000
            && Le32(b, 4) == h.generation && Le32(b, 8) == h.totalSize && Le32(b, 12) == first
            && Le32(b, 16) == h.chunkCount && Le32(b, 20) == h.next && Le32(b, 24) == h.flags
            && Le32(b, 28) == h.userFlags
  {
    hide U16At, U32At, Le16, Le32, DescBytes;
    var b := DescBytes(h, keySize, first);
    DescRoundTrip(b, h, keySize, first);
    FieldsAre(b, 2);
    FieldsAre(b, 4);
    FieldsAre(b, 8);
    FieldsAre(b, 12);
    FieldsAre(b, 16);
    FieldsAre(b, 20);
    FieldsAre(b, 24);
    FieldsAre(b, 28);
  }

  /** The 20 bytes of a marshalled chunk header. */
  lemma MarshalledChunk(h: ChunkHeader, size: nat)
    requires h.flags < 0x1_0000 && h.owner < 0x1_0000_0000 && h.index < 0x1_0000_0000 && h.next < 0x1_0000_0000
    requires size < 0x1_0000_0000
    ensures var b := ChunkBytes(h, size);
            && |b| == 20 && b[0] == 0x03 && b[1] == 0x14 && Le16(b, 2) == h.flags
            && Le32(b, 4) == h.owner && Le32(b, 8) == h.index && Le32(b, 12) == size && Le32(b, 16) == h.next
  {
    hide U16At, U32At, Le16, Le32, ChunkBytes;
    var b := ChunkBytes(h, size);
    ChunkRoundTrip(b, h, size);
    FieldsAre(b, 2);
    FieldsAre(b, 4);
    FieldsAre(b, 8);
    FieldsAre(b, 12);
    FieldsAre(b, 16);
  }

  /** The other readings of a block: free by its first byte alone, a storage header under a good checksum. */
  lemma OthersIff(b: Bytes)
    requires |b| >= 1
    ensures View(b) == Free <==> b[0] == 0x00 || b[0] == 0xFF
    ensures View(b) == Head <==> b[0] == 0x01 && CrcOk(b)
  {
    hide CrcOk, Lossy;
  }

  /** The three classes of a block of any size, by its type byte, the size of its header and its checksum. */
  lemma ClassifyIff(b: Bytes)
    ensures Classify(b) == IsFree <==> b == [] || b[0] == 0x00 || b[0] == 0xFF
    ensures Classify(b) == IsValid <==>
            && b != [] && CrcOk(b)
            && ((b[0] == 0x01 && |b| >= 32) || (b[0] == 0x02 && |b| >= 36) || (b[0] == 0x03 && |b| >= 24))
  {
    hide CrcOk;
  }

  // ---- whole records ----

  /** Block `b` is the chunk number `index` of the record headed by block `owner`. */
  predicate ChunkInBytes(b: Bytes, owner: nat, index: nat, next: nat) {
    && |b| >= 36 && CrcOk(b) && b[0] == 0x03 && b[1] == 0x14
    && Le32(b, 4) == owner && Le32(b, 8) == index && 24 + Le32(b, 12) <= |b| && Le32(b, 16) == next
  }

  /** The bytes a chunk block contributes to the value. */
  function Part(b: Bytes): Bytes {
    if |b| >= 36 && 24 + Le32(b, 12) <= |b| then b[20..20 + Le32(b, 12)] else []
  }

  function Parts(blocks: seq<Bytes>, chunks: seq<nat>): Bytes
    requires forall k | 0 <= k < |chunks| :: chunks[k] < |blocks|
  {
    if chunks == [] then []
    else
      var n := |chunks| - 1;
      Parts(blocks, chunks[..n]) + Part(blocks[chunks[n]])
  }

  /** Block `b` is a descriptor with this header and key. */
  predicate HeadInBytes(b: Bytes, h: DescHeader, key: Key) {
    && |b| >= 36 && CrcOk(b) && b[0] == 0x02 && b[1] == 0x20
    && 36 + Le16(b, 2) + Le32(b, 12) <= |b|
    && key == MakeKey(b[32..32 + Le16(b, 2)])
    && h == DescHeader(Le32(b, 4), Le32(b, 8), Le32(b, 16), Le32(b, 20), Le32(b, 24), Le32(b, 28))
  }

  /** The bytes a descriptor block contributes to the value. */
  function FirstPart(b: Bytes): Bytes {
    if |b| >= 36 && 36 + Le16(b, 2) + Le32(b, 12) <= |b|
    then b[32 + Le16(b, 2)..32 + Le16(b, 2) + Le32(b, 12)] else []
  }

  /** The completeness criteria of the format, spelled out on the bytes of the device. */
  predicate RecordInBytes(blocks: seq<Bytes>, r: Record) {
    && r.block < |blocks| && HeadInBytes(blocks[r.block], r.hdr, r.key)
    && r.hdr.chunkCount == 1 + |r.chunks|
    && r.hdr.next == (if r.chunks == [] then 0xFFFF_FFFF else r.chunks[0])
    && (forall k | 0 <= k < |r.chunks| ::
          r.chunks[k] < |blocks| && ChunkInBytes(blocks[r.chunks[k]], r.block, k + 1, NextOf(r.chunks, k)))
    && r.value == FirstPart(blocks[r.block]) + Parts(blocks, r.chunks)
    && r.hdr.totalSize == if r.chunks == [] then |r.value| else |r.value| % 0x1_0000_0000
  }

  function NextOf(chunks: seq<nat>, k: nat): nat {
    if k + 1 < |chunks| then chunks[k + 1] else 0xFFFF_FFFF
  }

  lemma HeadReads(b: Bytes, h: DescHeader, key: Key)
    requires |b| >= 36 && h.chunkCount != 0
    ensures HeadInBytes(b, h, key) <==> View(b).Desc? && View(b).hdr == h && View(b).key == key
    ensures View(b).Desc? ==> FirstPart(b) == View(b).payload
  {
    hide CrcOk, Lossy, U16At, U32At, Le16, Le32;
    FieldsAre(b, 2);
    FieldsAre(b, 4);
    FieldsAre(b, 8);
    FieldsAre(b, 12);
    FieldsAre(b, 16);
    FieldsAre(b, 20);
    FieldsAre(b, 24);
    FieldsAre(b, 28);
  }

  lemma ChunkReads(b: Bytes, owner: nat, index: nat, next: nat)
    requires |b| >= 36
    ensures ChunkInBytes(b, owner, index, next) <==>
            View(b).Chunk? && View(b).chdr.owner == owner && View(b).chdr.index == index && View(b).chdr.next == next
    ensures View(b).Chunk? ==> Part(b) == View(b).payload
  {
    hide CrcOk, Lossy, U16At, U32At, Le16, Le32;
    FieldsAre(b, 4);
    FieldsAre(b, 8);
    FieldsAre(b, 12);
    FieldsAre(b, 16);
  }

  lemma {:induction false} PartsAre(blocks: seq<Bytes>, chunks: seq<nat>)
    requires forall i | 0 <= i < |blocks| :: |blocks[i]| >= 36
    requires forall k | 0 <= k < |chunks| :: chunks[k] < |blocks| && View(blocks[chunks[k]]).Chunk?
    ensures Parts(blocks, chunks) == Payloads(Views(blocks), chunks)
  {
    hide View, Part;
    if chunks != [] {
      var n := |chunks| - 1;
      PartsAre(blocks, chunks[..n]);
      ChunkReads(blocks[chunks[n]], 0, 0, 0);
    }
  }

  lemma CompleteInBytes(blocks: seq<Bytes>, r: Record)
    requires |blocks| <= 0xFFFF_FFFF && forall i | 0 <= i < |blocks| :: |blocks[i]| >= 36
    requires Complete(Views(blocks), r)
    ensures RecordInBytes(blocks, r)
  {
    hide View, HeadInBytes, ChunkInBytes, FirstPart, Parts, Payloads;
    var disk := Views(blocks);
    forall k | 0 <= k < |r.chunks|
      ensures r.chunks[k] < |blocks| && View(blocks[r.chunks[k]]).Chunk?
      ensures ChunkInBytes(blocks[r.chunks[k]], r.block, k + 1, NextOf(r.chunks, k))
    {
      assert ChunkFits(disk, r.block, r.chunks, k);
      ChunkReads(blocks[r.chunks[k]], r.block, k + 1, NextOf(r.chunks, k));
    }
    PartsAre(blocks, r.chunks);
    HeadReads(blocks[r.block], r.hdr, r.key);
  }

  lemma BytesComplete(blocks: seq<Bytes>, r: Record)
    requires |blocks| <= 0xFFFF_FFFF && forall i | 0 <= i < |blocks| :: |blocks[i]| >= 36
    requires RecordInBytes(blocks, r)
    ensures Complete(Views(blocks), r)
  {
    hide View, HeadInBytes, ChunkInBytes, FirstPart, Parts, Payloads;
    var disk := Views(blocks);
    forall k | 0 <= k < |r.chunks|
      ensures ChunkFits(disk, r.block, r.chunks, k) && View(blocks[r.chunks[k]]).Chunk?
    {
      ChunkReads(blocks[r.chunks[k]], r.block, k + 1, NextOf(r.chunks, k));
    }
    PartsAre(blocks, r.chunks);
    HeadReads(blocks[r.block], r.hdr, r.key);
  }

  /** A record is complete on the decoded disk if and only if the criteria hold of the bytes. */
  lemma RecordIff(blocks: seq<Bytes>, r: Record)
    requires |blocks| <= 0xFFFF_FFFF && forall i | 0 <= i < |blocks| :: |blocks[i]| >= 36
    ensures Complete(Views(blocks), r) <==> RecordInBytes(blocks, r)
  {
    hide Complete, RecordInBytes;
    if Complete(Views(blocks), r) { CompleteInBytes(blocks, r); }
    if RecordInBytes(blocks, r) { BytesComplete(blocks, r); }
  }

  /** What the reader returns for a block: the record that its bytes spell out, if they spell out one. */
  lemma ReadIff(blocks: seq<Bytes>, d: nat, r: Record)
    requires |blocks| <= 0xFFFF_FFFF && forall i | 0 <= i < |blocks| :: |blocks[i]| >= 36
    ensures Read(Views(blocks), d) == Some(r) <==> r.block == d && RecordInBytes(blocks, r)
  {
    hide Complete, RecordInBytes, View;
    RecordIff(blocks, r);
    if Complete(Views(blocks), r) { ReadIs(Views(blocks), r); }
  }

  // ---- what a put writes ----

  function Min(a: nat, b: nat): nat { if a <= b then a else b }

  /** The first and the following cut points of a value: full blocks, the last one as far as it goes. */
  function CutPoint(d: Draft, k: nat): nat
    requires d.Fits()
  {
    Min(|d.value|, d.blockSize - 36 - |d.key.raw| + k * (d.blockSize - 24))
  }

  lemma CutIs(d: Draft, k: nat)
    requires d.Fits()
    ensures Cut(d, k) == CutPoint(d, k) && First(d) == CutPoint(d, 0)
  {
    hide First, Cut, Min;
    var t := k * (d.blockSize - 24);
    CapacitiesAre(d);
    TimesMonotone(0, k, d.blockSize - 24);
    CutFormula(d, k, t);
    CutFormula(d, 0, 0);
    MinSum(|d.value|, d.blockSize - 36 - |d.key.raw|, t);
    MinSum(|d.value|, d.blockSize - 36 - |d.key.raw|, 0);
    CutSteps(d, 0);
  }

  lemma CapacitiesAre(d: Draft)
    requires d.Fits()
    ensures FirstCapacity(d.blockSize, |d.key.raw|) == d.blockSize - 36 - |d.key.raw|
    ensures ChunkCapacity(d.blockSize) == d.blockSize - 24
  {}

  lemma CutFormula(d: Draft, k: nat, t: nat)
    requires d.Fits() && t == k * ChunkCapacity(d.blockSize)
    ensures Cut(d, k) == Min(|d.value|, Min(|d.value|, FirstCapacity(d.blockSize, |d.key.raw|)) + t)
  {
    hide FirstCapacity, ChunkCapacity;
  }

  lemma MinSum(v: nat, f: nat, t: nat)
    ensures Min(v, Min(v, f) + t) == Min(v, f + t)
  {}

  /** A put needs the fewest blocks that hold the value: a descriptor block, and chunk blocks for the rest. */
  lemma NeededIs(d: Draft, n: nat)
    requires d.Fits() && n >= 1
    ensures Needed(d) <= n <==> |d.value| <= d.blockSize - 36 - |d.key.raw| + (n - 1) * (d.blockSize - 24)
  {
    NeededExhausts(d);
    CutIs(d, Needed(d) - 1);
    var cap := d.blockSize - 24;
    if Needed(d) <= n {
      TimesMonotone(Needed(d) - 1, n - 1, cap);
    } else {
      CutIs(d, Needed(d) - 2);
      TimesMonotone(n - 1, Needed(d) - 2, cap);
    }
  }

  /** The bytes from `from` to the checksum are zero. */
  predicate Padded(b: Bytes, from: nat) { forall i | from <= i < |b| - 4 :: b[i] == 0 }

  /** The descriptor block of a put, byte by byte. */
  lemma DescriptorBytes(d: Draft, blocks: seq<nat>, pattern: Byte)
    requires Raw.Encodable(d) && 1 <= |blocks| <= 0xFFFF_FFFF && forall j | 0 <= j < |blocks| :: blocks[j] < 0xFFFF_FFFF
    ensures var b, first := Raw.Encode(d.blockSize, pattern, NewBlock(d, blocks, 0)), CutPoint(d, 0);
            && |b| == d.blockSize && CrcOk(b)
            && DescLayout(b, DescHeader(d.generation, |d.value|, |blocks|, NextOf(blocks, 0), 0, d.userFlags),
                          d.key.raw, d.value[..first])
            && Padded(b, 32 + |d.key.raw| + first)
  {
    hide View, CrcOk, Lossy, DescLayout, Stamped;
    var x := NewBlock(d, blocks, 0);
    var b := Raw.Encode(d.blockSize, pattern, x);
    CutIs(d, 0);
    Raw.NewBlockSize(d, blocks, 0);
    Raw.NewBlockEncodes(d, blocks, 0, pattern);
    DescIff(b, x.hdr, d.key.raw, x.payload);
    DescPadded(d.blockSize, x.hdr, d.key.raw, x.payload);
  }

  lemma DescPadded(blockSize: nat, h: DescHeader, raw: Bytes, payload: Bytes)
    requires |raw| + |payload| + 36 <= blockSize
    ensures Padded(EncodeDesc(blockSize, h, raw, payload), 32 + |raw| + |payload|)
  {
    hide CrcBytes, BlockCrc, DescBytes;
    var plain := DescBytes(h, |raw|, |payload|) + raw + payload + Fill(blockSize - 32 - |raw| - |payload|, 0);
    StampedPrefix(plain, plain[..blockSize - 4]);
  }

  /** A chunk block of a put, byte by byte. */
  lemma ChunkBytesAre(d: Draft, blocks: seq<nat>, k: nat, pattern: Byte)
    requires Raw.Encodable(d) && 1 <= k < |blocks| <= 0xFFFF_FFFF
    requires forall j | 0 <= j < |blocks| :: blocks[j] < 0xFFFF_FFFF
    ensures var b := Raw.Encode(d.blockSize, pattern, NewBlock(d, blocks, k));
            var from, to := CutPoint(d, k - 1), CutPoint(d, k);
            && |b| == d.blockSize && CrcOk(b) && from <= to
            && ChunkLayout(b, ChunkHeader(0, blocks[0], k, NextOf(blocks, k)), d.value[from..to])
            && Padded(b, 20 + to - from)
  {
    hide View, CrcOk, Lossy, ChunkLayout, Stamped;
    var x := NewBlock(d, blocks, k);
    var b := Raw.Encode(d.blockSize, pattern, x);
    CutIs(d, k - 1);
    CutIs(d, k);
    CutSteps(d, k - 1);
    Raw.NewBlockSize(d, blocks, k);
    Raw.NewBlockEncodes(d, blocks, k, pattern);
    ChunkIff(b, x.chdr, x.payload);
    ChunkPadded(d.blockSize, x.chdr, x.payload);
  }

  lemma ChunkPadded(blockSize: nat, h: ChunkHeader, payload: Bytes)
    requires |payload| + 24 <= blockSize
    ensures Padded(EncodeChunk(blockSize, h, payload), 20 + |payload|)
  {
    hide CrcBytes, BlockCrc, ChunkBytes;
    var plain := ChunkBytes(h, |payload|) + payload + Fill(blockSize - 20 - |payload|, 0);
    StampedPrefix(plain, plain[..blockSize - 4]);
  }

  /** An erased block holds nothing but the pattern. */
  lemma ErasedBytes(blockSize: nat, pattern: Byte)
    ensures var b := Raw.Encode(blockSize, pattern, Free);
            |b| == blockSize && forall i | 0 <= i < |b| :: b[i] == pattern
  {}

  /** A put takes the lowest free data blocks. */
  lemma LowestTaken(disk: Disk, d: Draft, i: nat, k: nat)
    requires d.Fits() && Engine.Room(disk, d) && 1 <= i < |disk| && disk[i].Free?
    requires k < |Engine.Allocated(disk, d)|
    ensures i in Engine.Allocated(disk, d) || Engine.Allocated(disk, d)[k] < i
  {
    hide Needed;
    var list, n := Engine.FreeList(disk), Needed(d);
    assert i in list;
    var m :| 0 <= m < |list| && list[m] == i;
    if m < n { assert Engine.Allocated(disk, d)[m] == i; }
  }
}
