/** What `put` and `delete` on a ready replica do to its meaning, its index and its space. */
module Operations {
  import opened Format
  import opened Records
  import opened Layout
  import opened Changes
  import opened Recovery
  import opened Engine

  lemma {:induction false} ApplyConcat(disk: Disk, a: seq<Step>, b: seq<Step>)
    ensures Apply(disk, a + b) == Apply(Apply(disk, a), b)
  {
    if b == [] {
      assert a + b == a;
    } else {
      var n := |b| - 1;
      ApplyConcat(disk, a, b[..n]);
      assert (a + b)[..|a + b| - 1] == a + b[..n];
    }
  }

  lemma ApplyFlush(disk: Disk, a: seq<Step>)
    ensures Apply(disk, a + [Flush]) == Apply(disk, a)
  {
    assert (a + [Flush])[..|a|] == a;
  }

  /** All the draft's blocks written. */
  ghost function WithRecord(disk: Disk, d: Draft): (disk': Disk)
    requires d.Fits() && Room(disk, d)
    ensures |disk'| == |disk|
  {
    Apply(disk, WriteSteps(d, Allocated(disk, d)))
  }

  lemma AllocationOk(disk: Disk, d: Draft)
    requires d.Fits() && Room(disk, d) && |disk| <= NULL_BLOCK
    ensures Allocation(d, Allocated(disk, d), |disk|)
  {
    hide Needed, Allocated;
  }

  lemma WritesApplied(disk: Disk, d: Draft)
    requires d.Fits() && Room(disk, d) && |disk| <= NULL_BLOCK
    ensures PartlyWritten(disk, WithRecord(disk, d), d, Allocated(disk, d))
    ensures Written(WithRecord(disk, d), d, Allocated(disk, d))
  {
    hide Needed, NewBlock, Allocated, Apply;
    var blocks := Allocated(disk, d);
    AllocationOk(disk, d);
    ApplyDistinct(disk, WriteSteps(d, blocks));
    var disk' := WithRecord(disk, d);
    forall k | 0 <= k < |blocks| ensures disk'[blocks[k]] == NewBlock(d, blocks, k) {
      assert WriteSteps(d, blocks)[k].at == blocks[k];
    }
  }

  /** Write/read round trip on any list of distinct blocks, whatever they held before. */
  lemma WriteThenRead(disk: Disk, d: Draft, blocks: seq<nat>)
    requires d.Fits() && Allocation(d, blocks, |disk|)
    ensures Read(Apply(disk, WriteSteps(d, blocks)), blocks[0]) == Some(NewRecord(d, blocks))
  {
    hide Needed, NewBlock, Apply, Complete;
    var steps := WriteSteps(d, blocks);
    var disk' := Apply(disk, steps);
    ApplyDistinct(disk, steps);
    forall k | 0 <= k < |blocks| ensures blocks[k] < |disk'| && disk'[blocks[k]] == NewBlock(d, blocks, k) {
      assert steps[k].at == blocks[k];
    }
    RoundTrip(disk', d, blocks);
    ReadIs(disk', NewRecord(d, blocks));
  }

  lemma EraseApplied(disk: Disk, r: Record)
    requires Complete(disk, r)
    ensures EraseSteps(disk, r.block) == EraseBlocks(BlocksOf(r))
    ensures Erased(disk, Apply(disk, EraseSteps(disk, r.block)), r)
  {
    hide Complete, Apply;
    ReadIs(disk, r);
    ChunksDistinct(disk, r);
    var steps, blocks := EraseBlocks(BlocksOf(r)), BlocksOf(r);
    ApplyDistinct(disk, steps);
    var disk' := Apply(disk, steps);
    forall i | 0 <= i < |disk|
      ensures disk'[i] == if Occupies(r, i) then Free else disk[i]
    {
      if Occupies(r, i) {
        assert i in blocks;
        var k :| 0 <= k < |blocks| && blocks[k] == i;
        assert steps[k].at == i;
      }
    }
  }

  /** An index that equals a rescan names the best records. */
  lemma IndexedAnchored(rep: Rep)
    requires Indexed(rep)
    ensures Anchored(rep) && rep.index.Keys == Meaning(rep.disk).Keys
    ensures forall id | id in rep.index :: Named(rep, id) == Meaning(rep.disk)[id]
  {
    hide Complete, Meaning;
    forall id | id in rep.index ensures Anchors(rep.disk, id, rep.index[id])
      ensures Read(rep.disk, rep.index[id].block).value == Meaning(rep.disk)[id]
    {
      ReadIs(rep.disk, Meaning(rep.disk)[id]);
    }
  }

  /** The replaced record is found, still complete, after the new one is written. */
  lemma ReplacedRecord(rep: Rep, d: Draft)
    requires d.Fits() && Room(rep.disk, d) && Anchored(rep) && d.key.id in rep.index
    ensures Named(rep, d.key.id).block == rep.index[d.key.id].block
    ensures Complete(WithRecord(rep.disk, d), Named(rep, d.key.id))
  {
    hide Complete, Apply, Needed, NewBlock;
    WritesApplied(rep.disk, d);
    WritingKeeps(rep.disk, WithRecord(rep.disk, d), d, Allocated(rep.disk, d), Named(rep, d.key.id));
  }

  /** Losing blocks of the replaced record leaves the new meaning in place. */
  lemma ReplacedIsNotBest(disk: Disk, d: Draft, disk': Disk)
    requires d.Fits() && Room(disk, d) && Opened(disk) && Newer(disk, d) && d.key.id in Meaning(disk)
    requires LossesWithin(WithRecord(disk, d), disk', Meaning(disk)[d.key.id])
    ensures Meaning(WithRecord(disk, d)) == Meaning(disk)[d.key.id := NewRecord(d, Allocated(disk, d))]
    ensures Meaning(disk') == Meaning(WithRecord(disk, d))
  {
    hide Complete, Meaning, Apply, Needed, NewBlock;
    var old', disk1, blocks := Meaning(disk)[d.key.id], WithRecord(disk, d), Allocated(disk, d);
    WritesApplied(disk, d);
    WritingIsAtomic(disk, disk1, d, blocks);
    RoundTripPartly(disk, disk1, d, blocks);
    forall id, i: nat | id in Meaning(disk1) && i < |disk1| && Occupies(Meaning(disk1)[id], i)
      ensures disk'[i] == disk1[i]
    {
      WritingKeeps(disk, disk1, d, blocks, old');
      OccupiedReadable(disk, old', old'.block);
      assert disk[blocks[0]].Free?;
      RecordsByBlock(disk1, Meaning(disk1)[id], old');
      RecordsDisjoint(disk1, Meaning(disk1)[id], old');
    }
    LossesOutsideBest(disk1, disk');
  }

  /** `put` on a ready replica: exactly its key changes, and the replica is ready again. */
  lemma PutCorrect(rep: Rep, d: Draft)
    requires d.Fits() && Room(rep.disk, d) && Ready(rep) && Newer(rep.disk, d)
    ensures Ready(AfterPut(rep, d))
    ensures Meaning(AfterPut(rep, d).disk) == Meaning(rep.disk)[d.key.id := NewRecord(d, Allocated(rep.disk, d))]
  {
    hide Complete, Meaning, Needed, AfterPut, Clean, Allocated, Indexed;
    PutIndexed(rep, d);
    PutClean(rep, d);
  }

  /** `put` keeps the index equal to a rescan, also on a disk that was never recovered. */
  lemma PutIndexed(rep: Rep, d: Draft)
    requires d.Fits() && Room(rep.disk, d) && Indexed(rep) && Newer(rep.disk, d)
    ensures Indexed(AfterPut(rep, d))
    ensures Meaning(AfterPut(rep, d).disk) == Meaning(rep.disk)[d.key.id := NewRecord(d, Allocated(rep.disk, d))]
  {
    hide Complete, Meaning, Needed, AfterPut, Allocated, Named, Anchored;
    IndexedAnchored(rep);
    PutMeaning(rep, d);
    PutIndex(rep, d);
    PutHeader(rep, d);
    var r := NewRecord(d, Allocated(rep.disk, d));
    assert rep.index[d.key.id := EntryOf(r)] == IndexOf(Meaning(rep.disk)[d.key.id := r]);
  }

  /** `put` leaves the header block alone. */
  lemma PutHeader(rep: Rep, d: Draft)
    requires d.Fits() && Room(rep.disk, d) && Anchored(rep)
    ensures Opened(AfterPut(rep, d).disk)
  {
    hide Complete, Needed, AfterPut, Allocated, Named;
    PutBlocks(rep, d, 0);
    if Replaces(rep, d, 0) { OccupiedReadable(rep.disk, Named(rep, d.key.id), 0); }
  }

  lemma PutMeaning(rep: Rep, d: Draft)
    requires d.Fits() && Room(rep.disk, d) && Indexed(rep) && Newer(rep.disk, d)
    ensures Meaning(AfterPut(rep, d).disk) == Meaning(rep.disk)[d.key.id := NewRecord(d, Allocated(rep.disk, d))]
  {
    hide Complete, Meaning, Apply, Needed, NewBlock, PartlyWritten, AfterPut, Anchored, Named;
    var disk, disk' := rep.disk, AfterPut(rep, d).disk;
    IndexedAnchored(rep);
    PutDisk(rep, d);
    WritesApplied(disk, d);
    WritingIsAtomic(disk, WithRecord(disk, d), d, Allocated(disk, d));
    if d.key.id in rep.index {
      ReplacedIsNotBest(disk, d, disk');
    }
  }

  /** The disk after `put`: the new record is written and the replaced one erased. */
  lemma PutDisk(rep: Rep, d: Draft)
    requires d.Fits() && Room(rep.disk, d) && Anchored(rep)
    ensures d.key.id !in rep.index ==> AfterPut(rep, d).disk == WithRecord(rep.disk, d)
    ensures d.key.id in rep.index ==>
              && Erased(WithRecord(rep.disk, d), AfterPut(rep, d).disk, Named(rep, d.key.id))
              && LossesWithin(WithRecord(rep.disk, d), AfterPut(rep, d).disk, Named(rep, d.key.id))
  {
    hide Complete, Apply, Needed, NewBlock, Named;
    var writes, disk1 := WriteSteps(d, Allocated(rep.disk, d)), WithRecord(rep.disk, d);
    ApplyFlush(rep.disk, writes);
    if d.key.id in rep.index {
      var r := Named(rep, d.key.id);
      ReplacedRecord(rep, d);
      EraseApplied(disk1, r);
      var erases := EraseSteps(disk1, r.block);
      ApplyConcat(rep.disk, writes + [Flush], erases + [Flush]);
      ApplyFlush(disk1, erases);
    } else {
      assert PutSteps(rep, d) == writes + [Flush];
    }
  }

  lemma PutIndex(rep: Rep, d: Draft)
    requires d.Fits() && Room(rep.disk, d)
    ensures AfterPut(rep, d).index == rep.index[d.key.id := EntryOf(NewRecord(d, Allocated(rep.disk, d)))]
  {}

  /** Block `i` belongs to the record that the draft replaces. */
  ghost predicate Replaces(rep: Rep, d: Draft, i: nat)
    requires Anchored(rep)
  {
    d.key.id in rep.index && Occupies(Named(rep, d.key.id), i)
  }

  /** The disk after `put`, block by block. */
  lemma PutBlocks(rep: Rep, d: Draft, i: nat)
    requires d.Fits() && Room(rep.disk, d) && Anchored(rep) && i < |rep.disk|
    ensures |AfterPut(rep, d).disk| == |rep.disk|
    ensures i in Allocated(rep.disk, d) ==> rep.disk[i].Free? && !AfterPut(rep, d).disk[i].Free?
    ensures i !in Allocated(rep.disk, d) ==>
              AfterPut(rep, d).disk[i] == if Replaces(rep, d, i) then Free else rep.disk[i]
  {
    hide Complete, Apply, Needed, NewBlock, AfterPut, Named;
    var blocks := Allocated(rep.disk, d);
    WritesApplied(rep.disk, d);
    NewBlocksNotFree(d, blocks);
    PutDisk(rep, d);
    if Replaces(rep, d, i) { OccupiedReadable(rep.disk, Named(rep, d.key.id), i); }
  }

  /** `put` keeps every index entry on a complete record of its key. */
  lemma PutAnchored(rep: Rep, d: Draft)
    requires d.Fits() && Room(rep.disk, d) && Anchored(rep)
    ensures Anchored(AfterPut(rep, d))
    ensures AfterPut(rep, d).index == rep.index[d.key.id := EntryOf(NewRecord(d, Allocated(rep.disk, d)))]
    ensures forall id | id in AfterPut(rep, d).index ::
              Named(AfterPut(rep, d), id) ==
              if id == d.key.id then NewRecord(d, Allocated(rep.disk, d)) else Named(rep, id)
  {
    hide Complete, Needed, AfterPut, Allocated, Named;
    var rep' := AfterPut(rep, d);
    PutIndex(rep, d);
    PutHeader(rep, d);
    forall id | id in rep'.index
      ensures var r := if id == d.key.id then NewRecord(d, Allocated(rep.disk, d)) else Named(rep, id);
              Anchors(rep'.disk, id, rep'.index[id]) && Read(rep'.disk, rep'.index[id].block) == Some(r)
    {
      var r := if id == d.key.id then NewRecord(d, Allocated(rep.disk, d)) else Named(rep, id);
      PutKeepsNamed(rep, d, id);
      ReadIs(rep'.disk, r);
    }
    forall id | id in rep'.index
      ensures Named(rep', id) == if id == d.key.id then NewRecord(d, Allocated(rep.disk, d)) else Named(rep, id)
    {
      NamedIs(rep', id);
    }
  }

  lemma NamedIs(rep: Rep, id: Bytes)
    requires Anchored(rep) && id in rep.index
    ensures Read(rep.disk, rep.index[id].block) == Some(Named(rep, id))
  {}

  /** The records that the index names after a `put` are complete. */
  lemma PutKeepsNamed(rep: Rep, d: Draft, id: Bytes)
    requires d.Fits() && Room(rep.disk, d) && Anchored(rep) && (id == d.key.id || id in rep.index)
    ensures Complete(AfterPut(rep, d).disk,
                     if id == d.key.id then NewRecord(d, Allocated(rep.disk, d)) else Named(rep, id))
  {
    hide Complete, Needed, NewBlock, AfterPut, Apply, Named;
    var disk, disk', blocks := rep.disk, AfterPut(rep, d).disk, Allocated(rep.disk, d);
    var disk1 := WithRecord(disk, d);
    var r := if id == d.key.id then NewRecord(d, blocks) else Named(rep, id);
    WritesApplied(disk, d);
    RoundTripPartly(disk, disk1, d, blocks);
    if id != d.key.id { WritingKeeps(disk, disk1, d, blocks, r); }
    PutDisk(rep, d);
    if d.key.id in rep.index {
      var q := Named(rep, d.key.id);
      ReplacedRecord(rep, d);
      OccupiedReadable(disk, q, q.block);
      if id != d.key.id { RecordsByBlock(disk, r, q); }
      RecordsDisjoint(disk1, r, q);
      SurvivesLosses(disk1, disk', r);
    }
  }

  lemma PutClean(rep: Rep, d: Draft)
    requires d.Fits() && Room(rep.disk, d) && Ready(rep)
    requires Meaning(AfterPut(rep, d).disk) == Meaning(rep.disk)[d.key.id := NewRecord(d, Allocated(rep.disk, d))]
    ensures Clean(AfterPut(rep, d).disk)
  {
    hide Complete, Meaning, Needed, AfterPut, Garbage, Anchored, Named, Indexed;
    var disk, disk' := rep.disk, AfterPut(rep, d).disk;
    IndexedAnchored(rep);
    PutHeader(rep, d);
    PutBlocks(rep, d, 0);
    forall i | 0 <= i < |disk'| ensures !Garbage(disk', i) { PutNoGarbage(rep, d, i); }
  }

  lemma PutNoGarbage(rep: Rep, d: Draft, i: nat)
    requires d.Fits() && Room(rep.disk, d) && Ready(rep) && i < |AfterPut(rep, d).disk| == |rep.disk|
    requires Meaning(AfterPut(rep, d).disk) == Meaning(rep.disk)[d.key.id := NewRecord(d, Allocated(rep.disk, d))]
    ensures !Garbage(AfterPut(rep, d).disk, i)
  {
    hide Complete, Meaning, Needed, AfterPut, Allocated, Anchored, Named;
    var disk, disk', blocks := rep.disk, AfterPut(rep, d).disk, Allocated(rep.disk, d);
    IndexedAnchored(rep);
    PutBlocks(rep, d, i);
    if i in blocks {
      assert Occupies(Meaning(disk')[d.key.id], i);
    } else if i >= 1 && !disk'[i].Free? {
      assert !Garbage(disk, i);
      var id :| id in Meaning(disk) && Occupies(Meaning(disk)[id], i);
      assert Occupies(Meaning(disk')[id], i);
    }
  }

  /** `delete` erases exactly the record that the index names. */
  lemma DeleteDisk(rep: Rep, id: Bytes)
    requires Anchored(rep)
    ensures id in rep.index ==> Erased(rep.disk, AfterDelete(rep, id).disk, Named(rep, id))
    ensures id !in rep.index ==> AfterDelete(rep, id).disk == rep.disk
  {
    hide Complete, Apply, Named;
    var disk := rep.disk;
    if id in rep.index {
      var r := Named(rep, id);
      EraseApplied(disk, r);
      ApplyFlush(disk, EraseSteps(disk, r.block));
    } else {
      ApplyNothing(disk);
    }
  }

  /** `delete` keeps every other index entry on its record. */
  lemma DeleteAnchored(rep: Rep, id: Bytes)
    requires Anchored(rep)
    ensures Anchored(AfterDelete(rep, id)) && AfterDelete(rep, id).index == rep.index - {id}
    ensures forall k | k in AfterDelete(rep, id).index :: Named(AfterDelete(rep, id), k) == Named(rep, k)
  {
    hide Complete, Apply, Named, EraseSteps;
    var rep' := AfterDelete(rep, id);
    DeleteDisk(rep, id);
    if id in rep.index && Occupies(Named(rep, id), 0) { OccupiedReadable(rep.disk, Named(rep, id), 0); }
    forall k | k in rep'.index
      ensures Anchors(rep'.disk, k, rep'.index[k]) && Read(rep'.disk, rep'.index[k].block) == Some(Named(rep, k))
    {
      DeleteKeepsNamed(rep, id, k);
      ReadIs(rep'.disk, Named(rep, k));
    }
    forall k | k in rep'.index ensures Named(rep', k) == Named(rep, k) { NamedIs(rep', k); }
  }

  lemma DeleteKeepsNamed(rep: Rep, id: Bytes, k: Bytes)
    requires Anchored(rep) && k in rep.index && k != id
    ensures Complete(AfterDelete(rep, id).disk, Named(rep, k))
  {
    hide Complete, AfterDelete, Named;
    var disk, disk', r := rep.disk, AfterDelete(rep, id).disk, Named(rep, k);
    DeleteDisk(rep, id);
    if id in rep.index {
      var q := Named(rep, id);
      RecordsByBlock(disk, r, q);
      RecordsDisjoint(disk, r, q);
      SurvivesLosses(disk, disk', r);
    }
  }

  /** `delete` on a ready replica removes exactly its key, and the replica is ready again. */
  lemma DeleteCorrect(rep: Rep, id: Bytes)
    requires Ready(rep)
    ensures Ready(AfterDelete(rep, id))
    ensures Meaning(AfterDelete(rep, id).disk) == Meaning(rep.disk) - {id}
    ensures id in rep.index ==> Erased(rep.disk, AfterDelete(rep, id).disk, Meaning(rep.disk)[id])
  {
    hide Complete, Meaning, Apply, Garbage, EraseSteps, Anchored, Named;
    var disk := rep.disk;
    IndexedAnchored(rep);
    DeleteDisk(rep, id);
    if id in rep.index {
      var r := Meaning(disk)[id];
      var disk' := AfterDelete(rep, id).disk;
      assert LossesWithin(disk, disk', r);
      ErasingIsAtomic(disk, disk', r);
    }
    assert AfterDelete(rep, id).index == IndexOf(Meaning(disk) - {id});
  }

  lemma ApplyNothing(disk: Disk)
    ensures Apply(disk, []) == disk
  {}

  // ---- space ----

  function FreeSet(disk: Disk): set<nat> {
    set i: nat | 1 <= i < |disk| && disk[i].Free?
  }

  function BlockSet(r: Record): set<nat> { set i | i in BlocksOf(r) }

  lemma {:induction false} DistinctCount(s: seq<nat>, t: set<nat>)
    requires forall j, k | 0 <= j < k < |s| :: s[j] != s[k]
    requires forall i :: i in t <==> i in s
    ensures |t| == |s|
  {
    if s == [] {
      assert t == {};
    } else {
      var n := |s| - 1;
      DistinctCount(s[..n], t - {s[n]});
    }
  }

  lemma BlockCount(disk: Disk, r: Record)
    requires Complete(disk, r)
    ensures |BlockSet(r)| == 1 + |r.chunks|
  {
    ChunksDistinct(disk, r);
    DistinctCount(BlocksOf(r), BlockSet(r));
  }

  lemma FreeCount(disk: Disk)
    ensures |FreeSet(disk)| == |FreeList(disk)|
  {
    DistinctCount(FreeList(disk), FreeSet(disk));
  }

  /** Every data block of a ready replica is free or belongs to exactly one indexed record. */
  lemma SpacePartition(rep: Rep, i: nat)
    requires Ready(rep) && 1 <= i < |rep.disk|
    ensures rep.index.Keys == Meaning(rep.disk).Keys
    ensures rep.disk[i].Free? <==> forall id | id in rep.index :: !Occupies(Meaning(rep.disk)[id], i)
    ensures forall id, id' | id in rep.index && id' in rep.index && id != id' ::
              !(Occupies(Meaning(rep.disk)[id], i) && Occupies(Meaning(rep.disk)[id'], i))
  {
    hide Complete, Meaning;
    var m := Meaning(rep.disk);
    assert !Garbage(rep.disk, i);
    forall id | id in m && Occupies(m[id], i) ensures !rep.disk[i].Free? {
      OccupiedReadable(rep.disk, m[id], i);
    }
    forall id, id' | id in m && id' in m && id != id'
      ensures !(Occupies(m[id], i) && Occupies(m[id'], i))
    {
      KeysDisjoint(rep.disk, m[id], m[id']);
    }
  }

  /** A successful `put` takes the needed blocks and gives back those of the record it replaces. */
  lemma PutSpace(rep: Rep, d: Draft)
    requires d.Fits() && Room(rep.disk, d) && Anchored(rep)
    ensures |FreeList(AfterPut(rep, d).disk)| ==
            |FreeList(rep.disk)| - Needed(d)
            + if d.key.id in rep.index then 1 + |Named(rep, d.key.id).chunks| else 0
  {
    hide Complete, Needed, AfterPut, FreeList, Allocated, Anchored, Named;
    var disk, disk', blocks := rep.disk, AfterPut(rep, d).disk, Allocated(rep.disk, d);
    FreeCount(disk);
    FreeCount(disk');
    var taken := set i | i in blocks;
    DistinctCount(blocks, taken);
    forall i: nat | i < |disk|
      ensures |disk'| == |disk|
      ensures i in taken ==> i in FreeSet(disk) && i !in FreeSet(disk')
      ensures i !in taken ==> (i in FreeSet(disk') <==> i in FreeSet(disk) || (i >= 1 && Replaces(rep, d, i)))
    {
      PutBlocks(rep, d, i);
    }
    if d.key.id in rep.index {
      var r := Named(rep, d.key.id);
      BlockCount(disk, r);
      RecordNotFree(disk, r);
      AnchoredOpened(rep);
      FreedBy(disk, r);
      assert FreeSet(disk') == FreeSet(disk) - taken + BlockSet(r);
    } else {
      assert FreeSet(disk') == FreeSet(disk) - taken;
    }
  }

  lemma AnchoredOpened(rep: Rep)
    requires Anchored(rep)
    ensures Opened(rep.disk)
  {}

  lemma FreedBy(disk: Disk, r: Record)
    requires Opened(disk) && Complete(disk, r)
    ensures forall i: nat :: i in BlockSet(r) <==> Occupies(r, i)
    ensures forall i: nat | Occupies(r, i) :: 1 <= i < |disk|
  {
    forall i: nat | Occupies(r, i) ensures 1 <= i < |disk| { OccupiedReadable(disk, r, i); }
  }

  lemma NewBlocksNotFree(d: Draft, blocks: seq<nat>)
    requires d.Fits()
    ensures forall k | 0 <= k < |blocks| :: !NewBlock(d, blocks, k).Free?
  {}

  lemma RecordNotFree(disk: Disk, r: Record)
    requires Complete(disk, r)
    ensures FreeSet(disk) !! BlockSet(r)
  {
    forall i | i in BlockSet(r) ensures i !in FreeSet(disk) { OccupiedReadable(disk, r, i); }
  }

  /** `delete` gives back exactly the blocks of the record it removes. */
  lemma DeleteSpace(rep: Rep, id: Bytes)
    requires Anchored(rep) && id in rep.index
    ensures |FreeList(AfterDelete(rep, id).disk)| == |FreeList(rep.disk)| + 1 + |Named(rep, id).chunks|
  {
    hide Complete, Apply, FreeList, AfterDelete, Anchored, Named;
    var disk, disk', r := rep.disk, AfterDelete(rep, id).disk, Named(rep, id);
    FreeCount(disk);
    FreeCount(disk');
    DeleteDisk(rep, id);
    BlockCount(disk, r);
    AnchoredOpened(rep);
    FreedBy(disk, r);
    RecordNotFree(disk, r);
    assert FreeSet(disk') == FreeSet(disk) + BlockSet(r);
  }
}
