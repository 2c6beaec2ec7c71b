/** The operations on a replica's bytes, whatever they decode to: the model of the code off the beaten path. */
module Raw {
  import opened Format
  import opened Crc
  import opened Utf8
  import opened Blocks
  import opened Records
  import opened Layout
  import opened Engine
  import Operations
  import opened Crash
  import opened Cluster
  import opened Device
  import Reader

  // ---- device calls on bytes ----

  /** Every block has the block size, and block indexes fit their fields. */
  predicate SizedTo(blocks: seq<Bytes>, blockSize: nat) {
    blockSize >= 36 && |blocks| <= NULL_BLOCK && forall i | 0 <= i < |blocks| :: |blocks[i]| == blockSize
  }

  /** The bytes that are written for a block; a free block is filled with the pattern. */
  function Encode(blockSize: nat, pattern: Byte, b: Block): (s: Bytes)
    ensures |s| == blockSize
  {
    if b.Desc? && |b.key.raw| + |b.payload| + 36 <= blockSize then EncodeDesc(blockSize, b.hdr, b.key.raw, b.payload)
    else if b.Chunk? && |b.payload| + 24 <= blockSize then EncodeChunk(blockSize, b.chdr, b.payload)
    else Fill(blockSize, pattern)
  }

  function RewriteOne(blocks: seq<Bytes>, s: Step, blockSize: nat, pattern: Byte): (blocks': seq<Bytes>)
    ensures |blocks'| == |blocks|
  {
    if s.Write? && s.at < |blocks| then blocks[s.at := Encode(blockSize, pattern, s.block)] else blocks
  }

  /** The bytes after `steps`. */
  function Rewrite(blocks: seq<Bytes>, steps: seq<Step>, blockSize: nat, pattern: Byte): (blocks': seq<Bytes>)
    ensures |blocks'| == |blocks|
    ensures SizedTo(blocks, blockSize) ==> SizedTo(blocks', blockSize)
  {
    if steps == [] then blocks
    else
      var n := |steps| - 1;
      RewriteOne(Rewrite(blocks, steps[..n], blockSize, pattern), steps[n], blockSize, pattern)
  }

  /** What is written reads back. */
  predicate Faithful(steps: seq<Step>, blockSize: nat, pattern: Byte)
    requires blockSize >= 36
  {
    forall k | 0 <= k < |steps| && steps[k].Write? ::
      View(Encode(blockSize, pattern, steps[k].block)) == steps[k].block
  }

  /** The bytes after faithful calls decode to what the calls do to the decoded disk. */
  lemma {:induction false} RewriteViews(blocks: seq<Bytes>, steps: seq<Step>, blockSize: nat, pattern: Byte)
    requires SizedTo(blocks, blockSize) && Faithful(steps, blockSize, pattern)
    ensures Views(Rewrite(blocks, steps, blockSize, pattern)) == Apply(Views(blocks), steps)
  {
    hide View, Encode;
    if steps != [] {
      var n := |steps| - 1;
      RewriteViews(blocks, steps[..n], blockSize, pattern);
    }
  }

  lemma {:induction false} RewriteConcat(blocks: seq<Bytes>, a: seq<Step>, b: seq<Step>, blockSize: nat, pattern: Byte)
    ensures Rewrite(blocks, a + b, blockSize, pattern)
         == Rewrite(Rewrite(blocks, a, blockSize, pattern), b, blockSize, pattern)
  {
    hide Encode;
    if b == [] {
      assert a + b == a;
    } else {
      var n := |b| - 1;
      RewriteConcat(blocks, a, b[..n], blockSize, pattern);
      assert (a + b)[..|a + b| - 1] == a + b[..n];
    }
  }

  lemma RewriteFlush(blocks: seq<Bytes>, a: seq<Step>, blockSize: nat, pattern: Byte)
    ensures Rewrite(blocks, a + [Flush], blockSize, pattern) == Rewrite(blocks, a, blockSize, pattern)
  {
    assert (a + [Flush])[..|a|] == a;
  }

  /** A draft whose fields fit, so that its blocks read back. */
  predicate Encodable(d: Draft) {
    && d.Fits() && |d.key.raw| < U16_LIMIT && d.key == MakeKey(d.key.raw)
    && d.generation < U32_LIMIT && d.userFlags < U32_LIMIT
  }

  lemma NewBlockEncodes(d: Draft, blocks: seq<nat>, k: nat, pattern: Byte)
    requires Encodable(d) && k < |blocks| <= NULL_BLOCK && forall j | 0 <= j < |blocks| :: blocks[j] < NULL_BLOCK
    ensures View(Encode(d.blockSize, pattern, NewBlock(d, blocks, k))) == NewBlock(d, blocks, k)
  {
    hide View, Lossy, EncodeDesc, EncodeChunk, Cut, First;
    var b := NewBlock(d, blocks, k);
    NewBlockSize(d, blocks, k);
    if k == 0 {
      ViewOfDesc(d.blockSize, b.hdr, d.key.raw, b.payload);
    } else {
      ViewOfChunk(d.blockSize, b.chdr, b.payload);
    }
  }

  lemma NewBlockSize(d: Draft, blocks: seq<nat>, k: nat)
    requires d.Fits() && k < |blocks|
    ensures var b := NewBlock(d, blocks, k);
            if k == 0 then b.Desc? && |b.key.raw| + |b.payload| + 36 <= d.blockSize && |b.payload| < U32_LIMIT
            else b.Chunk? && |b.payload| + 24 <= d.blockSize && |b.payload| < U32_LIMIT
  {
    if k > 0 { CutSteps(d, k - 1); }
  }

  lemma WritesFaithful(d: Draft, blocks: seq<nat>, pattern: Byte)
    requires Encodable(d) && |blocks| <= NULL_BLOCK && forall j | 0 <= j < |blocks| :: blocks[j] < NULL_BLOCK
    ensures Faithful(WriteSteps(d, blocks), d.blockSize, pattern)
  {
    hide View, Encode, NewBlock, Lossy;
    forall k | 0 <= k < |blocks|
      ensures View(Encode(d.blockSize, pattern, NewBlock(d, blocks, k))) == NewBlock(d, blocks, k)
    {
      NewBlockEncodes(d, blocks, k, pattern);
    }
  }

  lemma ErasesFaithful(list: seq<nat>, blockSize: nat, pattern: Byte)
    requires blockSize >= 36 && (pattern == 0x00 || pattern == 0xFF)
    ensures Faithful(EraseBlocks(list), blockSize, pattern)
  {
    hide View;
    ViewOfFree(blockSize, pattern);
  }

  // ---- the eraser ----

  /** The fields that `free_record` reads without looking at the block type. */
  lemma LooseFields(b: Bytes)
    requires |b| >= 36
    ensures View(b).Desc? ==> CrcOk(b) && U32At(b, 20) == View(b).hdr.next
    ensures View(b).Chunk? ==> CrcOk(b) && U32At(b, 16) == View(b).chdr.next
  {
    hide CrcOk, Lossy, U32At;
  }

  /** The blocks `free_record` erases from `next` on: it follows any block with a good CRC, whatever its type. */
  function LooseChain(blocks: seq<Bytes>, next: nat, visited: set<nat>): (list: seq<nat>)
    requires forall i | 0 <= i < |blocks| :: |blocks[i]| >= 36
    requires forall i | i in visited :: i < |blocks|
    ensures forall i | i in list :: i < |blocks|
    decreases |blocks| - |visited|
  {
    if next == NULL_BLOCK || next >= |blocks| || next in visited || !CrcOk(blocks[next]) then []
    else
      Reader.BoundedSize(visited + {next}, |blocks|);
      [next] + LooseChain(blocks, U32At(blocks[next], 16), visited + {next})
  }

  /** All blocks that `free_record` erases, the descriptor first; it is already free when the walk starts. */
  function LooseErase(blocks: seq<Bytes>, d: nat, pattern: Byte): (list: seq<nat>)
    requires d < |blocks| && forall i | 0 <= i < |blocks| :: |blocks[i]| >= 36
    ensures forall i | i in list :: i < |blocks|
  {
    [d] + LooseChain(blocks[d := Fill(|blocks[d]|, pattern)], U32At(blocks[d], 20), {})
  }

  /** From the `k`-th chunk of a complete record the eraser meets exactly the remaining chunks. */
  lemma {:induction false} LooseFrom(blocks: seq<Bytes>, blocks': seq<Bytes>, r: Record, k: nat, visited: set<nat>)
    requires forall i | 0 <= i < |blocks| :: |blocks[i]| >= 36
    requires Complete(Views(blocks), r) && k <= |r.chunks| && |blocks'| == |blocks| <= NULL_BLOCK
    requires blocks' == blocks[r.block := blocks'[r.block]] && |blocks'[r.block]| >= 36
    requires forall i :: i in visited <==> i in r.chunks[..k]
    requires forall i | i in visited :: i < |blocks|
    ensures LooseChain(blocks', Link(r.chunks, k), visited) == r.chunks[k..]
    decreases |r.chunks| - k
  {
    hide View, CrcOk, U32At, Payloads;
    var disk := Views(blocks);
    ChunksDistinct(disk, r);
    if k < |r.chunks| {
      var next := r.chunks[k];
      assert ChunkFits(disk, r.block, r.chunks, k);
      LooseFields(blocks[next]);
      assert blocks'[next] == blocks[next];
      assert r.chunks[..k + 1] == r.chunks[..k] + [next];
      LooseFrom(blocks, blocks', r, k + 1, visited + {next});
      assert r.chunks[k..] == [next] + r.chunks[k + 1..];
    }
  }

  /** On a complete record the eraser passes its CRC test and erases exactly the record's blocks. */
  lemma LooseOnComplete(blocks: seq<Bytes>, r: Record, pattern: Byte)
    requires |blocks| <= NULL_BLOCK && forall i | 0 <= i < |blocks| :: |blocks[i]| >= 36
    requires Complete(Views(blocks), r)
    ensures r.block < |blocks| && CrcOk(blocks[r.block])
    ensures LooseErase(blocks, r.block, pattern) == BlocksOf(r)
  {
    hide View, CrcOk, U32At, Payloads, LooseChain;
    LooseFields(blocks[r.block]);
    LooseFrom(blocks, blocks[r.block := Fill(|blocks[r.block]|, pattern)], r, 0, {});
  }

  // ---- one replica ----

  /** A replica's bytes and index. */
  datatype RawRep = RawRep(blocks: seq<Bytes>, index: Index)

  /** The replica's state as far as it decodes. */
  ghost function Look(raw: RawRep): Rep
    requires forall i | 0 <= i < |raw.blocks| :: |raw.blocks[i]| >= 36
  {
    Rep(Views(raw.blocks), raw.index)
  }

  predicate InOrder(raw: RawRep, blockSize: nat) {
    SizedTo(raw.blocks, blockSize) && forall id | id in raw.index :: 1 <= raw.index[id].block < |raw.blocks|
  }

  /** What one replica is told to do. */
  datatype Job = Insert(d: Draft) | Erase(id: Bytes) | Sweep

  /** The device calls a replica makes, what it reports, and the index it is left with. */
  datatype Effect = Effect(steps: seq<Step>, outcome: Outcome, index: Index)

  predicate Doable(job: Job, blockSize: nat) {
    job.Insert? ==> Encodable(job.d) && job.d.blockSize == blockSize
  }

  ghost function InsertEffect(raw: RawRep, d: Draft, pattern: Byte): (e: Effect)
    requires InOrder(raw, d.blockSize) && d.Fits()
    ensures e.outcome == Ok || e.outcome == StorageFull || e.outcome == CrcMismatch
    ensures forall id | id in e.index :: 1 <= e.index[id].block < |raw.blocks|
  {
    var disk, id := Views(raw.blocks), d.key.id;
    if !Room(disk, d) then Effect([], StorageFull, raw.index)
    else
      var blocks := Allocated(disk, d);
      var index := raw.index[id := EntryOf(NewRecord(d, blocks))];
      if id !in raw.index then Effect(PutCalls(d, blocks, None), Ok, index)
      else
        var written := Rewrite(raw.blocks, WriteSteps(d, blocks), d.blockSize, pattern);
        var replaced := raw.index[id].block;
        if CrcOk(written[replaced])
        then Effect(PutCalls(d, blocks, Some(LooseErase(written, replaced, pattern))), Ok, index)
        else Effect(PutCalls(d, blocks, None), CrcMismatch, index)
  }

  ghost function EraseEffect(raw: RawRep, id: Bytes, blockSize: nat, pattern: Byte): (e: Effect)
    requires InOrder(raw, blockSize)
    ensures e.outcome == Ok || e.outcome == KeyNotFound || e.outcome == CrcMismatch
    ensures forall id | id in e.index :: 1 <= e.index[id].block < |raw.blocks|
  {
    if id !in raw.index then Effect([], KeyNotFound, raw.index)
    else if CrcOk(raw.blocks[raw.index[id].block])
    then Effect(EraseBlocks(LooseErase(raw.blocks, raw.index[id].block, pattern)) + [Flush], Ok, raw.index - {id})
    else Effect([], CrcMismatch, raw.index)
  }

  ghost function EffectOf(raw: RawRep, job: Job, blockSize: nat, pattern: Byte): Effect
    requires InOrder(raw, blockSize) && Doable(job, blockSize)
  {
    match job
    case Insert(d) => InsertEffect(raw, d, pattern)
    case Erase(id) => EraseEffect(raw, id, blockSize, pattern)
    case Sweep => Effect(RecoverSteps(Views(raw.blocks)), Ok, raw.index)
  }

  /** The replica after the job. */
  ghost function Worked(raw: RawRep, e: Effect, blockSize: nat, pattern: Byte): RawRep {
    RawRep(Rewrite(raw.blocks, e.steps, blockSize, pattern), e.index)
  }

  // ---- no zombies, on any bytes and any index ----

  /** A crash in a `put` completes no record but the new one. */
  lemma InsertNoZombie(raw: RawRep, d: Draft, pattern: Byte, k: nat, image: Disk, r: Record)
    requires InOrder(raw, d.blockSize) && d.Fits()
    requires CrashAt(Views(raw.blocks), InsertEffect(raw, d, pattern).steps, k, image) && Complete(image, r)
    ensures Complete(Views(raw.blocks), r)
         || (Room(Views(raw.blocks), d) && r == NewRecord(d, Allocated(Views(raw.blocks), d)))
  {
    hide View, Complete, CrashAt, PutCalls, Allocated, CrcOk, LooseErase, Room;
    var disk := Views(raw.blocks);
    if !Room(disk, d) {
      CrashInRange(disk, [], k, image);
      AtRest(disk, image);
    } else {
      var erased :| InsertEffect(raw, d, pattern).steps == PutCalls(d, Allocated(disk, d), erased);
      NoZombieFromPut(disk, d, erased, k, image, r);
    }
  }

  /** A crash in a `delete` completes no record. */
  lemma EraseNoZombie(raw: RawRep, id: Bytes, blockSize: nat, pattern: Byte, k: nat, image: Disk, r: Record)
    requires InOrder(raw, blockSize)
    requires CrashAt(Views(raw.blocks), EraseEffect(raw, id, blockSize, pattern).steps, k, image) && Complete(image, r)
    ensures Complete(Views(raw.blocks), r)
  {
    hide View, Complete, CrashAt, CrcOk, LooseErase, EraseBlocks;
    var disk := Views(raw.blocks);
    if EraseEffect(raw, id, blockSize, pattern).steps == [] {
      CrashInRange(disk, [], k, image);
      AtRest(disk, image);
    } else {
      NoZombieFromDelete(disk, LooseErase(raw.blocks, raw.index[id].block, pattern), k, image, r);
    }
  }

  // ---- on an anchored replica the bytes follow the decoded model ----

  lemma InsertAnchored(raw: RawRep, d: Draft, pattern: Byte)
    requires InOrder(raw, d.blockSize) && Encodable(d) && (pattern == 0x00 || pattern == 0xFF) && Anchored(Look(raw))
    ensures var e, rep := InsertEffect(raw, d, pattern), Look(raw);
            if Room(rep.disk, d)
            then e.outcome == Ok && e.steps == PutSteps(rep, d)
                 && Look(Worked(raw, e, d.blockSize, pattern)) == AfterPut(rep, d)
            else e == Effect([], StorageFull, raw.index) && Worked(raw, e, d.blockSize, pattern) == raw
  {
    hide View, Complete, Named, Apply, Needed, Allocated, Lossy, CrcOk, LooseErase, Rewrite, Room;
    hide Faithful, NewBlock;
    var rep := Look(raw);
    if Room(rep.disk, d) {
      var blocks := Allocated(rep.disk, d);
      var writes := WriteSteps(d, blocks);
      Operations.AllocationOk(rep.disk, d);
      WritesFaithful(d, blocks, pattern);
      RewriteViews(raw.blocks, writes, d.blockSize, pattern);
      var written := Rewrite(raw.blocks, writes, d.blockSize, pattern);
      if d.key.id in raw.index {
        var r := Named(rep, d.key.id);
        Operations.ReplacedRecord(rep, d);
        WithRecordIs(rep.disk, d);
        ReadIs(Views(written), r);
        LooseOnComplete(written, r, pattern);
      }
      var e := InsertEffect(raw, d, pattern);
      var erased := if d.key.id in raw.index
                    then Some(LooseErase(written, raw.index[d.key.id].block, pattern)) else None;
      PutFaithful(d, blocks, erased, pattern);
      RewriteViews(raw.blocks, e.steps, d.blockSize, pattern);
    } else {
      RewriteNothing(raw.blocks, d.blockSize, pattern);
    }
  }

  lemma RewriteNothing(blocks: seq<Bytes>, blockSize: nat, pattern: Byte)
    ensures Rewrite(blocks, [], blockSize, pattern) == blocks
  {}

  lemma PutFaithful(d: Draft, blocks: seq<nat>, erased: Option<seq<nat>>, pattern: Byte)
    requires Encodable(d) && |blocks| <= NULL_BLOCK && forall j | 0 <= j < |blocks| :: blocks[j] < NULL_BLOCK
    requires pattern == 0x00 || pattern == 0xFF
    ensures Faithful(PutCalls(d, blocks, erased), d.blockSize, pattern)
  {
    hide View, Encode, Lossy, NewBlock;
    WritesFaithful(d, blocks, pattern);
    if erased.Some? { ErasesFaithful(erased.value, d.blockSize, pattern); }
  }

  lemma EraseAnchored(raw: RawRep, id: Bytes, blockSize: nat, pattern: Byte)
    requires InOrder(raw, blockSize) && (pattern == 0x00 || pattern == 0xFF) && Anchored(Look(raw))
    ensures var e, rep := EraseEffect(raw, id, blockSize, pattern), Look(raw);
            && e.outcome == (if id in rep.index then Ok else KeyNotFound)
            && e.steps == DeleteSteps(rep, id)
            && Look(Worked(raw, e, blockSize, pattern)) == AfterDelete(rep, id)
  {
    hide View, Complete, Named, Apply, CrcOk, LooseErase, Rewrite, Faithful;
    var rep := Look(raw);
    if id in raw.index {
      var r := Named(rep, id);
      ReadIs(rep.disk, r);
      LooseOnComplete(raw.blocks, r, pattern);
      EraseFaithful(BlocksOf(r), blockSize, pattern);
    } else {
      assert rep.index - {id} == rep.index;
      NothingFaithful(blockSize, pattern);
    }
    RewriteViews(raw.blocks, EraseEffect(raw, id, blockSize, pattern).steps, blockSize, pattern);
  }

  lemma EraseFaithful(list: seq<nat>, blockSize: nat, pattern: Byte)
    requires blockSize >= 36 && (pattern == 0x00 || pattern == 0xFF)
    ensures Faithful(EraseBlocks(list) + [Flush], blockSize, pattern)
  {
    hide View, Encode;
    ErasesFaithful(list, blockSize, pattern);
  }

  lemma NothingFaithful(blockSize: nat, pattern: Byte)
    requires blockSize >= 36
    ensures Faithful([], blockSize, pattern)
  {}
}
