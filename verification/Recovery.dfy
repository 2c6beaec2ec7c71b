/** The recovery pass: which blocks it erases, and what it leaves. */
module Recovery {
  import opened Format
  import opened Records
  import opened Changes

  /** An opened store: block 0 is the storage header. */
  predicate Opened(disk: Disk) {
    1 <= |disk| <= NULL_BLOCK && disk[0].Head?
  }

  /** Block `i` belongs to the best record of some key. */
  ghost predicate InBest(disk: Disk, i: nat) {
    exists id :: id in Meaning(disk) && Occupies(Meaning(disk)[id], i)
  }

  /** A block that recovery erases. */
  ghost predicate Garbage(disk: Disk, i: nat)
    requires i < |disk|
  {
    i >= 1 && !InBest(disk, i) && !disk[i].Free?
  }

  /** No garbage at all: every data block is free or part of a best record. */
  ghost predicate Clean(disk: Disk) {
    Opened(disk) && forall i | 0 <= i < |disk| :: !Garbage(disk, i)
  }

  /** The disk after `recover`. */
  ghost function Recovered(disk: Disk): (disk': Disk)
    ensures |disk'| == |disk|
    ensures forall i | 0 <= i < |disk| :: disk'[i] == if Garbage(disk, i) then Free else disk[i]
  {
    seq(|disk|, i requires 0 <= i < |disk| => if Garbage(disk, i) then Free else disk[i])
  }

  /** Some of the erasures of `recover` happened, perhaps torn. */
  ghost predicate PartlyRecovered(disk: Disk, disk': Disk) {
    && |disk'| == |disk|
    && (forall i | 0 <= i < |disk| :: disk'[i] == disk[i] || (Garbage(disk, i) && !disk'[i].Readable()))
  }

  /** No part of a recovery, whichever erasures persist or tear, changes what the disk means. */
  lemma PartialRecoveryKeepsMeaning(disk: Disk, disk': Disk)
    requires PartlyRecovered(disk, disk')
    ensures Meaning(disk') == Meaning(disk)
  {
    hide Meaning, Complete;
    forall id, i: nat | id in Meaning(disk) && i < |disk| && Occupies(Meaning(disk)[id], i)
      ensures disk'[i] == disk[i]
    {
      assert InBest(disk, i);
    }
    LossesOutsideBest(disk, disk');
  }

  /** On a clean disk every complete record is the best of its key. */
  lemma CleanRecords(disk: Disk, r: Record)
    requires Clean(disk) && Complete(disk, r)
    ensures r.key.id in Meaning(disk) && Meaning(disk)[r.key.id] == r
    ensures r.block >= 1 && forall i: nat | Occupies(r, i) :: 1 <= i < |disk|
  {
    hide Meaning;
    assert !Garbage(disk, r.block);
    var id :| id in Meaning(disk) && Occupies(Meaning(disk)[id], r.block);
    var q := Meaning(disk)[id];
    OccupiedReadable(disk, q, r.block);
    RecordUnique(disk, q, r);
    forall i: nat | Occupies(r, i) ensures 1 <= i < |disk| { OccupiedReadable(disk, r, i); }
  }

  /**
   * Recovery preserves meaning on arbitrary contents. The best records are untouched, nothing else
   * remains, and a second pass finds no garbage.
   */
  lemma RecoveryCorrect(disk: Disk)
    requires Opened(disk)
    ensures Meaning(Recovered(disk)) == Meaning(disk)
    ensures Clean(Recovered(disk)) && Recovered(Recovered(disk)) == Recovered(disk)
    ensures forall i: nat | i < |disk| && InBest(disk, i) :: Recovered(disk)[i] == disk[i]
    ensures forall i: nat | 1 <= i < |disk| && !InBest(disk, i) :: Recovered(disk)[i].Free?
    ensures forall r: Record ::
              Complete(Recovered(disk), r) <==> r.key.id in Meaning(disk) && Meaning(disk)[r.key.id] == r
  {
    hide Meaning, Complete;
    var disk' := Recovered(disk);
    PartialRecoveryKeepsMeaning(disk, disk');
    forall i | 0 <= i < |disk'| ensures !Garbage(disk', i) {
      assert InBest(disk', i) <==> InBest(disk, i);
      assert disk'[i] == if Garbage(disk, i) then Free else disk[i];
    }
    forall r: Record | Complete(disk', r)
      ensures r.key.id in Meaning(disk) && Meaning(disk)[r.key.id] == r
    {
      CleanRecords(disk', r);
    }
    assert Recovered(disk') == disk';
  }

  // ---- interrupted recoveries ----

  /** Recoveries starting from `disk`, each cut off by a crash that leaves the next of `images`. */
  ghost predicate CrashedRecoveries(disk: Disk, images: seq<Disk>)
    decreases |images|
  {
    images == [] || (PartlyRecovered(disk, images[0]) && CrashedRecoveries(images[0], images[1..]))
  }

  function LastImage(disk: Disk, images: seq<Disk>): Disk {
    if images == [] then disk else images[|images| - 1]
  }

  /** However often recovery is interrupted, it converges to the same key map. */
  lemma {:induction false} RecoveriesConverge(disk: Disk, images: seq<Disk>)
    requires Opened(disk) && CrashedRecoveries(disk, images)
    ensures |LastImage(disk, images)| == |disk| && Opened(LastImage(disk, images))
    ensures Meaning(LastImage(disk, images)) == Meaning(disk)
    ensures Meaning(Recovered(LastImage(disk, images))) == Meaning(disk)
    decreases |images|
  {
    hide Meaning, InBest, Recovered;
    if images == [] {
      RecoveryCorrect(disk);
    } else {
      PartialRecoveryKeepsMeaning(disk, images[0]);
      RecoveriesConverge(images[0], images[1..]);
      assert LastImage(disk, images) == LastImage(images[0], images[1..]);
    }
  }

  // ---- erasing the one record of a key ----

  /** Losses confined to the blocks of `r`. */
  predicate LossesWithin(disk: Disk, disk': Disk, r: Record) {
    && |disk'| == |disk|
    && (forall i | 0 <= i < |disk| :: disk'[i] == disk[i] || (Occupies(r, i) && !disk'[i].Readable()))
  }

  /** Every block of `r` is free and nothing else changed. */
  predicate Erased(disk: Disk, disk': Disk, r: Record) {
    && |disk'| == |disk|
    && (forall i | 0 <= i < |disk| :: disk'[i] == if Occupies(r, i) then Free else disk[i])
  }

  /** Erasing part of a clean disk's record removes its key or changes nothing. */
  lemma ErasingIsAtomic(disk: Disk, disk': Disk, r: Record)
    requires Clean(disk) && Complete(disk, r) && LossesWithin(disk, disk', r)
    ensures disk' == disk || Meaning(disk') == Meaning(disk) - {r.key.id}
    ensures Erased(disk, disk', r) ==> disk' != disk && Clean(disk')
  {
    hide Meaning, Complete;
    if disk' != disk {
      SurvivesLosses(disk, disk', r);
      assert !Complete(disk', r);
      CleanRecords(disk, r);
      var m := Meaning(disk) - {r.key.id};
      forall q: Record | Stored(disk', q) ensures q.key.id in m && m[q.key.id] == q {
        LossesAddNothing(disk, disk', q);
        CleanRecords(disk, q);
      }
      forall id | id in m ensures Stored(disk', m[id]) {
        KeysDisjoint(disk, r, m[id]);
        SurvivesLosses(disk, disk', m[id]);
      }
      BestUnique(disk', |disk'|, Meaning(disk'), m);
      if Erased(disk, disk', r) {
        ErasedClean(disk, disk', r);
      }
    } else if Erased(disk, disk', r) {
      OccupiedReadable(disk, r, r.block);
    }
  }

  lemma KeysDisjoint(disk: Disk, r: Record, q: Record)
    requires Complete(disk, r) && Complete(disk, q) && r.key.id != q.key.id
    ensures forall i: nat :: !(Occupies(r, i) && Occupies(q, i))
  {
    RecordsDisjoint(disk, r, q);
  }

  lemma ErasedClean(disk: Disk, disk': Disk, r: Record)
    requires Clean(disk) && Complete(disk, r) && Erased(disk, disk', r)
    requires Meaning(disk') == Meaning(disk) - {r.key.id}
    ensures Clean(disk')
  {
    hide Meaning, Complete;
    CleanRecords(disk, r);
    forall i | 0 <= i < |disk'| ensures !Garbage(disk', i) {
      if i >= 1 && !disk'[i].Free? {
        assert !Garbage(disk, i);
        var id :| id in Meaning(disk) && Occupies(Meaning(disk)[id], i);
        assert id in Meaning(disk');
      }
    }
  }

  /**
   * On any disk, erasing a key's best record removes the key exactly when no other complete record of the
   * key is left; otherwise an older value comes back.
   */
  lemma EraseRemovesKeyIff(disk: Disk, disk': Disk, id: Bytes)
    requires id in Meaning(disk) && Erased(disk, disk', Meaning(disk)[id])
    ensures id !in Meaning(disk') <==>
            !exists q: Record :: Stored(disk, q) && q.key.id == id && q != Meaning(disk)[id]
  {
    hide Meaning, Complete;
    var r := Meaning(disk)[id];
    assert OnlyLosses(disk, disk');
    if id in Meaning(disk') {
      var q := Meaning(disk')[id];
      LossesAddNothing(disk, disk', q);
      OccupiedReadable(disk', q, q.block);
    }
    forall q: Record | Stored(disk, q) && q.key.id == id && q != r ensures id in Meaning(disk') {
      RecordsByBlock(disk, q, r);
      RecordsDisjoint(disk, q, r);
      SurvivesLosses(disk, disk', q);
      assert q.block < |disk| by { OccupiedReadable(disk, q, q.block); }
      assert Stored(disk', q);
    }
  }
}
