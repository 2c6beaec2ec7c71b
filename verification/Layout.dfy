/** How a record is cut into blocks, and that reading the blocks back gives the record. */
module Layout {
  import opened Format
  import opened Records

  /** A record about to be written. */
  datatype Draft = Draft(blockSize: nat, key: Key, generation: nat, value: Bytes, userFlags: nat) {
    /** The key passes the length test of `put_flagged`, and the value length fits a u32. */
    predicate Fits() {
      |key.raw| + 36 <= blockSize && |value| < U32_LIMIT
    }
  }

  /** `needed_blocks`: one descriptor, and a ceiling division for the rest of the value. */
  function Needed(d: Draft): (n: nat)
    requires d.Fits()
    ensures n >= 1
  {
    var first := FirstCapacity(d.blockSize, |d.key.raw|);
    var cap := ChunkCapacity(d.blockSize);
    if |d.value| <= first then 1 else 1 + (|d.value| - first + cap - 1) / cap
  }

  /** Value bytes stored in the descriptor block. */
  function First(d: Draft): (n: nat)
    requires d.Fits()
    ensures n <= |d.value|
  {
    var first := FirstCapacity(d.blockSize, |d.key.raw|);
    if |d.value| <= first then |d.value| else first
  }

  /** Value bytes stored by the descriptor and the first `k` chunks. */
  function Cut(d: Draft, k: nat): (n: nat)
    requires d.Fits()
    ensures First(d) <= n <= |d.value|
  {
    var n := First(d) + k * ChunkCapacity(d.blockSize);
    if n <= |d.value| then n else |d.value|
  }

  lemma CutSteps(d: Draft, k: nat)
    requires d.Fits()
    ensures Cut(d, 0) == First(d)
    ensures Cut(d, k) <= Cut(d, k + 1)
    ensures Cut(d, k + 1) - Cut(d, k) <= ChunkCapacity(d.blockSize)
    ensures Cut(d, k + 1) == if |d.value| - Cut(d, k) <= ChunkCapacity(d.blockSize) then |d.value|
                             else Cut(d, k) + ChunkCapacity(d.blockSize)
  {
    var cap := ChunkCapacity(d.blockSize);
    assert (k + 1) * cap == k * cap + cap;
  }

  function NewHeader(d: Draft, blocks: seq<nat>): DescHeader {
    DescHeader(d.generation, |d.value|, |blocks|, Link(blocks, 1), 0, d.userFlags)
  }

  /** The record that writing `d` to `blocks` creates. */
  function NewRecord(d: Draft, blocks: seq<nat>): Record
    requires |blocks| >= 1
  {
    Record(blocks[0], NewHeader(d, blocks), d.key, blocks[1..], d.value)
  }

  /** The block written at position `k` of the chain. */
  function NewBlock(d: Draft, blocks: seq<nat>, k: nat): Block
    requires d.Fits() && k < |blocks|
  {
    if k == 0 then Desc(NewHeader(d, blocks), d.key, d.value[..First(d)])
    else
      CutSteps(d, k - 1);
      Chunk(ChunkHeader(0, blocks[0], k, Link(blocks, k + 1)), d.value[Cut(d, k - 1)..Cut(d, k)])
  }

  /** A usable allocation: as many distinct data blocks as the draft needs. */
  predicate Allocation(d: Draft, blocks: seq<nat>, count: nat)
    requires d.Fits()
  {
    && |blocks| == Needed(d)
    && count <= NULL_BLOCK
    && (forall k | 0 <= k < |blocks| :: 1 <= blocks[k] < count)
    && (forall j, k | 0 <= j < k < |blocks| :: blocks[j] != blocks[k])
  }

  /** All blocks of the draft are on the disk. */
  predicate Written(disk: Disk, d: Draft, blocks: seq<nat>)
    requires d.Fits()
  {
    forall k | 0 <= k < |blocks| :: blocks[k] < |disk| && disk[blocks[k]] == NewBlock(d, blocks, k)
  }

  lemma CeilingDivision(n: nat, cap: nat)
    requires cap > 0
    ensures n <= (n + cap - 1) / cap * cap
    ensures n > 0 ==> ((n + cap - 1) / cap - 1) * cap < n
  {
    var q, m := (n + cap - 1) / cap, (n + cap - 1) % cap;
    assert n + cap - 1 == q * cap + m && 0 <= m < cap;
    assert (q - 1) * cap == q * cap - cap;
  }

  /** The needed blocks exhaust the value exactly, and no chunk is empty. */
  lemma NeededExhausts(d: Draft)
    requires d.Fits()
    ensures Cut(d, Needed(d) - 1) == |d.value|
    ensures Needed(d) >= 2 ==> Cut(d, Needed(d) - 2) < |d.value|
  {
    var first := FirstCapacity(d.blockSize, |d.key.raw|);
    if |d.value| > first {
      var rest, cap := |d.value| - first, ChunkCapacity(d.blockSize);
      CeilingDivision(rest, cap);
      assert Needed(d) - 1 == (rest + cap - 1) / cap;
      if Needed(d) >= 2 {
        assert Needed(d) - 2 == (rest + cap - 1) / cap - 1;
      }
    }
  }

  lemma SliceJoin(v: Bytes, a: nat, b: nat, c: nat)
    requires a <= b <= c <= |v|
    ensures v[a..b] + v[b..c] == v[a..c]
  {}

  lemma PayloadsSnoc(disk: Disk, chunks: seq<nat>, i: nat)
    ensures Payloads(disk, chunks + [i]) == Payloads(disk, chunks) + PayloadAt(disk, i)
  {
    assert (chunks + [i])[..|chunks|] == chunks;
  }

  lemma {:induction false} WrittenPayloads(disk: Disk, d: Draft, blocks: seq<nat>, k: nat)
    requires d.Fits() && Written(disk, d, blocks) && k < |blocks|
    ensures Payloads(disk, blocks[1..k + 1]) == d.value[First(d)..Cut(d, k)]
  {
    hide Cut, First, Needed, Written, NewHeader, Payloads, PayloadAt;
    CutSteps(d, k);
    if k == 0 {
      assert blocks[1..1] == [];
      NoPayloads(disk);
      assert d.value[First(d)..Cut(d, 0)] == [];
    } else {
      WrittenPayloads(disk, d, blocks, k - 1);
      WrittenChunk(disk, d, blocks, k);
      PayloadsSnoc(disk, blocks[1..k], blocks[k]);
      assert blocks[1..k] + [blocks[k]] == blocks[1..k + 1];
      SliceJoin(d.value, First(d), Cut(d, k - 1), Cut(d, k));
    }
  }

  lemma NoPayloads(disk: Disk)
    ensures Payloads(disk, []) == []
  {}

  lemma WrittenChunk(disk: Disk, d: Draft, blocks: seq<nat>, k: nat)
    requires d.Fits() && Written(disk, d, blocks) && 1 <= k < |blocks|
    ensures Cut(d, k - 1) <= Cut(d, k)
    ensures PayloadAt(disk, blocks[k]) == d.value[Cut(d, k - 1)..Cut(d, k)]
  {
    hide Cut, First, Needed, NewHeader, Link;
    CutSteps(d, k - 1);
    assert disk[blocks[k]] == NewBlock(d, blocks, k);
    assert NewBlock(d, blocks, k).payload == d.value[Cut(d, k - 1)..Cut(d, k)];
  }

  /** Write/read round trip: the written blocks are a complete record with the draft's contents. */
  lemma RoundTrip(disk: Disk, d: Draft, blocks: seq<nat>)
    requires d.Fits() && Allocation(d, blocks, |disk|) && Written(disk, d, blocks)
    ensures Complete(disk, NewRecord(d, blocks))
  {
    hide Cut, First, Needed, Payloads;
    var r := NewRecord(d, blocks);
    NeededExhausts(d);
    WrittenPayloads(disk, d, blocks, |blocks| - 1);
    assert blocks[1..|blocks|] == blocks[1..];
    assert disk[blocks[0]] == NewBlock(d, blocks, 0);
    assert r.value == disk[r.block].payload + Payloads(disk, r.chunks);
    forall k | 0 <= k < |r.chunks|
      ensures ChunkFits(disk, r.block, r.chunks, k)
    {
      assert disk[blocks[k + 1]] == NewBlock(d, blocks, k + 1);
      assert Link(blocks, k + 2) == Link(r.chunks, k + 1);
    }
  }

  // ---- no layout uses fewer blocks ----

  /** Every decoded block respects the capacities of the format. */
  predicate WithinCapacity(disk: Disk, blockSize: nat) {
    && blockSize >= 36
    && (forall i | 0 <= i < |disk| && disk[i].Desc? :: |disk[i].key.raw| + |disk[i].payload| + 36 <= blockSize)
    && (forall i | 0 <= i < |disk| && disk[i].Chunk? :: |disk[i].payload| <= ChunkCapacity(blockSize))
  }

  lemma {:induction false} PayloadsBound(disk: Disk, blockSize: nat, chunks: seq<nat>)
    requires WithinCapacity(disk, blockSize)
    ensures |Payloads(disk, chunks)| <= |chunks| * ChunkCapacity(blockSize)
  {
    if chunks != [] {
      var n := |chunks|;
      PayloadsBound(disk, blockSize, chunks[..n - 1]);
      assert (n - 1) * ChunkCapacity(blockSize) + ChunkCapacity(blockSize) == n * ChunkCapacity(blockSize);
    }
  }

  lemma TimesMonotone(a: nat, b: nat, c: nat)
    requires a <= b
    ensures a * c <= b * c
  {}

  lemma CeilingIsLeast(n: nat, cap: nat, k: nat)
    requires cap > 0 && n <= k * cap
    ensures (n + cap - 1) / cap <= k
  {
    CeilingDivision(n, cap);
    var q := (n + cap - 1) / cap;
    if q > k { TimesMonotone(k, q - 1, cap); }
  }

  /** Any complete record for the same key bytes and value occupies at least `Needed` blocks. */
  lemma NeededIsMinimal(disk: Disk, d: Draft, r: Record)
    requires d.Fits() && WithinCapacity(disk, d.blockSize)
    requires Complete(disk, r) && |r.key.raw| == |d.key.raw| && |r.value| == |d.value|
    ensures Needed(d) <= 1 + |r.chunks|
  {
    hide Payloads;
    var first, cap := FirstCapacity(d.blockSize, |d.key.raw|), ChunkCapacity(d.blockSize);
    PayloadsBound(disk, d.blockSize, r.chunks);
    if |d.value| > first {
      CeilingIsLeast(|d.value| - first, cap, |r.chunks|);
    }
  }
}
