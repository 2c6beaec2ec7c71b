/** What partial writes and partial erasures do to the set of complete records, on any disk. */
module Changes {
  import opened Format
  import opened Records
  import opened Layout

  // ---- blocks lost: erased, torn, or damaged ----

  /** Every block is unchanged or unreadable. */
  predicate OnlyLosses(disk: Disk, disk': Disk) {
    |disk'| == |disk| && forall i | 0 <= i < |disk| :: disk'[i] == disk[i] || !disk'[i].Readable()
  }

  /** Losing blocks never completes a record. */
  lemma LossesAddNothing(disk: Disk, disk': Disk, r: Record)
    requires OnlyLosses(disk, disk') && Complete(disk', r)
    ensures Complete(disk, r)
  {
    forall i: nat | i < |disk| && Occupies(r, i)
      ensures disk[i] == disk'[i]
    {
      OccupiedReadable(disk', r, i);
    }
    CompleteFrame(disk', disk, r);
  }

  /** A complete record survives losses exactly when none of its blocks changed. */
  lemma SurvivesLosses(disk: Disk, disk': Disk, r: Record)
    requires OnlyLosses(disk, disk') && Complete(disk, r)
    ensures Complete(disk', r) <==> forall i: nat | i < |disk| && Occupies(r, i) :: disk'[i] == disk[i]
  {
    if Complete(disk', r) {
      forall i: nat | i < |disk| && Occupies(r, i)
        ensures disk'[i] == disk[i]
      {
        OccupiedReadable(disk', r, i);
      }
    } else if forall i: nat | i < |disk| && Occupies(r, i) :: disk'[i] == disk[i] {
      CompleteFrame(disk, disk', r);
    }
  }

  /** Losing only blocks outside every best record leaves the meaning alone. */
  lemma LossesOutsideBest(disk: Disk, disk': Disk)
    requires OnlyLosses(disk, disk')
    requires forall id, i: nat | id in Meaning(disk) && i < |disk| && Occupies(Meaning(disk)[id], i) ::
               disk'[i] == disk[i]
    ensures Meaning(disk') == Meaning(disk)
  {
    hide Complete, Meaning;
    forall id | id in Meaning(disk) ensures Complete(disk', Meaning(disk)[id]) {
      SurvivesLosses(disk, disk', Meaning(disk)[id]);
    }
    forall r: Record | Stored(disk', r) ensures Complete(disk, r) {
      LossesAddNothing(disk, disk', r);
    }
    MeaningSandwich(disk, disk');
  }

  // ---- blocks written: a new record appears wholly or not at all ----

  /** `disk'` is `disk` after some of the draft's blocks were written to free blocks, perhaps torn. */
  predicate PartlyWritten(disk: Disk, disk': Disk, d: Draft, blocks: seq<nat>)
    requires d.Fits()
  {
    && |disk'| == |disk|
    && Allocation(d, blocks, |disk|)
    && (forall k | 0 <= k < |blocks| :: disk[blocks[k]].Free?)
    && (forall k | 0 <= k < |blocks| :: disk'[blocks[k]] == NewBlock(d, blocks, k) || !disk'[blocks[k]].Readable())
    && (forall i | 0 <= i < |disk| && i !in blocks :: disk'[i] == disk[i])
  }

  /** Every record already complete stays complete. */
  lemma WritingKeeps(disk: Disk, disk': Disk, d: Draft, blocks: seq<nat>, r: Record)
    requires d.Fits() && PartlyWritten(disk, disk', d, blocks)
    requires Complete(disk, r)
    ensures Complete(disk', r)
  {
    hide NewBlock;
    forall i: nat | i < |disk| && Occupies(r, i)
      ensures disk'[i] == disk[i]
    {
      OccupiedReadable(disk, r, i);
    }
    CompleteFrame(disk, disk', r);
  }

  /** The links of the written blocks follow the allocation. */
  lemma NewLinks(d: Draft, blocks: seq<nat>, k: nat)
    requires d.Fits() && k < |blocks|
    ensures k == 0 ==> NewBlock(d, blocks, k).Desc? && NewBlock(d, blocks, k).hdr == NewHeader(d, blocks)
    ensures k > 0 ==>
              && NewBlock(d, blocks, k).Chunk?
              && NewBlock(d, blocks, k).chdr == ChunkHeader(0, blocks[0], k, Link(blocks, k + 1))
  {
    hide Cut, First;
  }

  /** A readable block of the allocation was written. */
  lemma ReadableIsNew(disk: Disk, disk': Disk, d: Draft, blocks: seq<nat>, k: nat)
    requires d.Fits() && PartlyWritten(disk, disk', d, blocks) && k < |blocks|
    ensures blocks[k] < |disk'|
    ensures disk'[blocks[k]].Readable() ==> disk'[blocks[k]] == NewBlock(d, blocks, k)
    ensures disk'[blocks[k]].Desc? ==> k == 0
    ensures disk'[blocks[k]].Chunk? ==> disk'[blocks[k]].chdr.owner == blocks[0]
  {
    hide NewBlock, Needed;
    NewLinks(d, blocks, k);
  }

  /** A record headed by the new descriptor walks the whole allocation. */
  lemma {:induction false} NewChain(disk: Disk, disk': Disk, d: Draft, blocks: seq<nat>, r: Record, k: nat)
    requires d.Fits() && PartlyWritten(disk, disk', d, blocks) && k < |blocks|
    requires Complete(disk', r) && r.block == blocks[0]
    ensures |r.chunks| + 1 == |blocks|
    ensures k > 0 ==> r.chunks[k - 1] == blocks[k]
    ensures blocks[k] < |disk'| && disk'[blocks[k]] == NewBlock(d, blocks, k)
  {
    hide NewBlock, Payloads, PartlyWritten;
    ReadableIsNew(disk, disk', d, blocks, 0);
    NewLinks(d, blocks, 0);
    if k > 0 {
      NewChain(disk, disk', d, blocks, r, k - 1);
      NewLinks(d, blocks, k - 1);
      if k > 1 { assert ChunkFits(disk', r.block, r.chunks, k - 2); }
      assert ChunkFits(disk', r.block, r.chunks, k - 1);
      ReadableIsNew(disk, disk', d, blocks, k);
    }
  }

  /** No zombie: the only record that writing can complete is the new one, and only once it is all there. */
  lemma WritingAdds(disk: Disk, disk': Disk, d: Draft, blocks: seq<nat>, r: Record)
    requires d.Fits() && PartlyWritten(disk, disk', d, blocks)
    requires Complete(disk', r) && !Complete(disk, r)
    ensures r == NewRecord(d, blocks) && Written(disk', d, blocks)
  {
    hide NewBlock, Needed;
    if r.block == blocks[0] {
      forall k | 0 <= k < |blocks|
        ensures disk'[blocks[k]] == NewBlock(d, blocks, k)
      {
        NewChain(disk, disk', d, blocks, r, k);
      }
      RoundTrip(disk', d, blocks);
      RecordUnique(disk', r, NewRecord(d, blocks));
    } else {
      forall i: nat | i < |disk| && Occupies(r, i)
        ensures disk[i] == disk'[i]
      {
        OccupiedReadable(disk', r, i);
        if i in blocks {
          var k :| 0 <= k < |blocks| && blocks[k] == i;
          ReadableIsNew(disk, disk', d, blocks, k);
        }
      }
      CompleteFrame(disk', disk, r);
    }
  }

  /** The draft is newer than every stored record of its key. */
  ghost predicate Newer(disk: Disk, d: Draft) {
    d.key.id in Meaning(disk) ==> Meaning(disk)[d.key.id].hdr.generation < d.generation
  }

  /** Writing is atomic in meaning: nothing, or the new record. */
  lemma WritingIsAtomic(disk: Disk, disk': Disk, d: Draft, blocks: seq<nat>)
    requires d.Fits() && PartlyWritten(disk, disk', d, blocks) && Newer(disk, d)
    ensures Meaning(disk') == if Written(disk', d, blocks) then Meaning(disk)[d.key.id := NewRecord(d, blocks)]
                              else Meaning(disk)
  {
    hide Complete, Meaning, NewBlock, Needed, PartlyWritten;
    var added := NewRecordOf(disk, disk', d, blocks);
    forall r: Record | Stored(disk, r) ensures Complete(disk', r) {
      WritingKeeps(disk, disk', d, blocks, r);
    }
    forall r: Record | Stored(disk', r) && !Complete(disk, r)
      ensures r == added && Written(disk', d, blocks)
    {
      WritingAdds(disk, disk', d, blocks, r);
    }
    if Written(disk', d, blocks) {
      RoundTripPartly(disk, disk', d, blocks);
      assert IsBest(disk', |disk'|, Meaning(disk)[d.key.id := added]);
      BestUnique(disk', |disk'|, Meaning(disk'), Meaning(disk)[d.key.id := added]);
    } else {
      MeaningSandwich(disk, disk');
    }
  }

  ghost function NewRecordOf(disk: Disk, disk': Disk, d: Draft, blocks: seq<nat>): (r: Record)
    requires d.Fits() && PartlyWritten(disk, disk', d, blocks)
    ensures |disk| == |disk'| && |blocks| >= 1 && r == NewRecord(d, blocks)
    ensures 1 <= r.block < |disk|
  {
    NewRecord(d, blocks)
  }

  lemma RoundTripPartly(disk: Disk, disk': Disk, d: Draft, blocks: seq<nat>)
    requires d.Fits() && PartlyWritten(disk, disk', d, blocks) && Written(disk', d, blocks)
    ensures |blocks| >= 1 && Complete(disk', NewRecord(d, blocks))
  {
    hide NewBlock, Needed;
    RoundTrip(disk', d, blocks);
  }
}
