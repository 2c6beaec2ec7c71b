/** Complete records on an arbitrary, possibly corrupt disk. */
module Records {
  import opened Format

  /** The link that points at chunk `k` of a chain. */
  function Link(chunks: seq<nat>, k: nat): nat {
    if k < |chunks| then chunks[k] else NULL_BLOCK
  }

  /** Block `chunks[k]` is the chunk of position `k + 1` in the chain owned by `owner`. */
  predicate ChunkFits(disk: Disk, owner: nat, chunks: seq<nat>, k: nat)
    requires k < |chunks|
  {
    && chunks[k] < |disk| && chunks[k] != NULL_BLOCK
    && disk[chunks[k]].Chunk?
    && disk[chunks[k]].chdr.owner == owner
    && disk[chunks[k]].chdr.index == k + 1
    && disk[chunks[k]].chdr.next == Link(chunks, k + 1)
  }

  function PayloadAt(disk: Disk, i: nat): Bytes {
    if i < |disk| && disk[i].Chunk? then disk[i].payload else []
  }

  /** The payloads of a list of chunk blocks, concatenated. */
  function Payloads(disk: Disk, chunks: seq<nat>): Bytes {
    if chunks == [] then []
    else Payloads(disk, chunks[..|chunks| - 1]) + PayloadAt(disk, chunks[|chunks| - 1])
  }

  /** The reader's size test: the length of a multi-block value is compared after a cast to u32. */
  predicate SizeMatches(r: Record) {
    if r.chunks == [] then |r.value| == r.hdr.totalSize else |r.value| % U32_LIMIT == r.hdr.totalSize
  }

  /** The completeness criteria: `r` is a whole record of the disk. */
  predicate Complete(disk: Disk, r: Record) {
    && r.block < |disk|
    && disk[r.block].Desc?
    && disk[r.block].hdr == r.hdr
    && disk[r.block].key == r.key
    && r.hdr.chunkCount == |r.chunks| + 1
    && r.hdr.next == Link(r.chunks, 0)
    && (forall k | 0 <= k < |r.chunks| :: ChunkFits(disk, r.block, r.chunks, k))
    && r.value == disk[r.block].payload + Payloads(disk, r.chunks)
    && SizeMatches(r)
  }

  /** The blocks a record occupies. */
  predicate Occupies(r: Record, i: nat) {
    i == r.block || i in r.chunks
  }

  lemma {:induction false} PayloadsFrame(disk: Disk, disk': Disk, chunks: seq<nat>)
    requires forall i | i in chunks :: PayloadAt(disk, i) == PayloadAt(disk', i)
    ensures Payloads(disk, chunks) == Payloads(disk', chunks)
  {
    if chunks != [] {
      PayloadsFrame(disk, disk', chunks[..|chunks| - 1]);
    }
  }

  /** Completeness depends on nothing but the record's own blocks. */
  lemma CompleteFrame(disk: Disk, disk': Disk, r: Record)
    requires Complete(disk, r)
    requires |disk'| == |disk|
    requires forall i | 0 <= i < |disk| && Occupies(r, i) :: disk'[i] == disk[i]
    ensures Complete(disk', r)
  {
    forall k | 0 <= k < |r.chunks|
      ensures ChunkFits(disk', r.block, r.chunks, k)
    {
      assert ChunkFits(disk, r.block, r.chunks, k);
    }
    PayloadsFrame(disk, disk', r.chunks);
  }

  /** Every block of a complete record is a descriptor or a chunk. */
  lemma OccupiedReadable(disk: Disk, r: Record, i: nat)
    requires Complete(disk, r) && Occupies(r, i)
    ensures i < |disk|
    ensures if i == r.block then disk[i].Desc? else disk[i].Chunk? && disk[i].chdr.owner == r.block
  {
    if i != r.block {
      var k :| 0 <= k < |r.chunks| && r.chunks[k] == i;
      assert ChunkFits(disk, r.block, r.chunks, k);
    }
  }

  /** A chain never visits a block twice. */
  lemma ChunksDistinct(disk: Disk, r: Record)
    requires Complete(disk, r)
    ensures forall j, k | 0 <= j < k < |r.chunks| :: r.chunks[j] != r.chunks[k]
    ensures r.block !in r.chunks
  {
    forall j, k | 0 <= j < k < |r.chunks|
      ensures r.chunks[j] != r.chunks[k]
    {
      assert ChunkFits(disk, r.block, r.chunks, j) && ChunkFits(disk, r.block, r.chunks, k);
    }
    forall k | 0 <= k < |r.chunks|
      ensures r.chunks[k] != r.block
    {
      assert ChunkFits(disk, r.block, r.chunks, k);
    }
  }

  lemma {:induction false} ChainsAgree(disk: Disk, r: Record, q: Record, k: nat)
    requires Complete(disk, r) && Complete(disk, q) && r.block == q.block
    requires k < |r.chunks|
    ensures |r.chunks| == |q.chunks| && r.chunks[k] == q.chunks[k]
  {
    if k > 0 {
      ChainsAgree(disk, r, q, k - 1);
      assert ChunkFits(disk, r.block, r.chunks, k - 1) && ChunkFits(disk, q.block, q.chunks, k - 1);
    }
  }

  /** A descriptor block heads at most one record. */
  lemma RecordUnique(disk: Disk, r: Record, q: Record)
    requires Complete(disk, r) && Complete(disk, q) && r.block == q.block
    ensures r == q
  {
    forall k | 0 <= k < |r.chunks|
      ensures r.chunks[k] == q.chunks[k]
    {
      ChainsAgree(disk, r, q, k);
    }
    assert r.chunks == q.chunks;
  }

  /** On any disk, complete records with different descriptors share no block, and none holds a free block. */
  lemma RecordsDisjoint(disk: Disk, r: Record, q: Record)
    requires Complete(disk, r) && Complete(disk, q) && r.block != q.block
    ensures forall i: nat :: !(Occupies(r, i) && Occupies(q, i))
    ensures forall i: nat | Occupies(r, i) :: i < |disk| && disk[i].Readable()
  {
    forall i: nat | Occupies(r, i)
      ensures !Occupies(q, i) && i < |disk| && disk[i].Readable()
    {
      OccupiedReadable(disk, r, i);
      if Occupies(q, i) { OccupiedReadable(disk, q, i); }
    }
  }

  /** The record headed by block `d`, if there is one. */
  ghost function Read(disk: Disk, d: nat): (o: Option<Record>)
    ensures o.Some? ==> Complete(disk, o.value) && o.value.block == d
    ensures o.None? ==> forall r: Record | r.block == d :: !Complete(disk, r)
  {
    if exists r: Record :: r.block == d && Complete(disk, r) then
      var r: Record :| r.block == d && Complete(disk, r); Some(r)
    else None
  }

  lemma ReadIs(disk: Disk, r: Record)
    requires Complete(disk, r)
    ensures Read(disk, r.block) == Some(r)
  {
    RecordUnique(disk, r, Read(disk, r.block).value);
  }

  // ---- the meaning of a disk: the best record of every key ----

  /** `r` is preferred to `q`: higher generation, or lower block on a tie. */
  predicate Beats(r: Record, q: Record) {
    q.hdr.generation < r.hdr.generation || (q.hdr.generation == r.hdr.generation && r.block <= q.block)
  }

  /** A record of the data area (block 0 is the storage header). */
  predicate Stored(disk: Disk, r: Record) {
    r.block >= 1 && Complete(disk, r)
  }

  /** `m` holds, for each key, the best record whose descriptor lies below block `n`. */
  ghost predicate IsBest(disk: Disk, n: nat, m: map<Bytes, Record>) {
    && (forall r: Record | Stored(disk, r) && r.block < n :: r.key.id in m && Beats(m[r.key.id], r))
    && (forall id | id in m :: Stored(disk, m[id]) && m[id].block < n && m[id].key.id == id)
  }

  ghost function Best(disk: Disk, n: nat): (m: map<Bytes, Record>)
    ensures IsBest(disk, n, m)
  {
    if n <= 1 then map[]
    else
      var m := Best(disk, n - 1);
      BestStep(disk, n - 1, m);
      match Read(disk, n - 1)
      case None => m
      case Some(r) => if Improves(m, r) then m[r.key.id := r] else m
  }

  /** The scan replaces an entry only by a strictly higher generation. */
  predicate Improves(m: map<Bytes, Record>, r: Record) {
    r.key.id !in m || r.hdr.generation > m[r.key.id].hdr.generation
  }

  /** One step of the ascending scan shared by `build_index` and `recover`. */
  lemma BestStep(disk: Disk, i: nat, m: map<Bytes, Record>)
    requires i >= 1 && IsBest(disk, i, m)
    ensures Read(disk, i).None? ==> IsBest(disk, i + 1, m)
    ensures Read(disk, i).Some? ==>
              var r := Read(disk, i).value;
              IsBest(disk, i + 1, if Improves(m, r) then m[r.key.id := r] else m)
  {
    forall q: Record | Stored(disk, q) && q.block == i ensures Read(disk, i) == Some(q) { ReadIs(disk, q); }
  }

  /** What the disk stores: the best complete record of each key. */
  ghost function Meaning(disk: Disk): (m: map<Bytes, Record>)
    ensures IsBest(disk, |disk|, m)
  {
    Best(disk, |disk|)
  }

  lemma BestUnique(disk: Disk, n: nat, m: map<Bytes, Record>, m': map<Bytes, Record>)
    requires IsBest(disk, n, m) && IsBest(disk, n, m')
    ensures m == m'
  {
    forall id | id in m ensures id in m' && m[id] == m'[id] {
      RecordsByBlock(disk, m[id], m'[id]);
    }
  }

  lemma RecordsByBlock(disk: Disk, r: Record, q: Record)
    requires Complete(disk, r) && Complete(disk, q)
    ensures r.block == q.block ==> r == q
  {
    if r.block == q.block { RecordUnique(disk, r, q); }
  }

  /** A disk that keeps every best record of another and adds none means the same. */
  lemma MeaningSandwich(disk: Disk, disk': Disk)
    requires |disk| == |disk'|
    requires forall id | id in Meaning(disk) :: Complete(disk', Meaning(disk)[id])
    requires forall r: Record | Stored(disk', r) :: Complete(disk, r)
    ensures Meaning(disk') == Meaning(disk)
  {
    hide Complete;
    assert IsBest(disk', |disk'|, Meaning(disk));
    BestUnique(disk', |disk'|, Meaning(disk), Meaning(disk'));
  }
}
