/** Laws that only several replicas have: when a delete is atomic, lockstep, and surviving damage. */
module Replicas {
  import opened Format
  import opened Records
  import opened Layout
  import Changes
  import opened Recovery
  import opened Engine
  import Operations
  import opened Crash
  import opened Cluster
  import opened Runs
  import opened Refinement

  // ---- exactly when a delete survives a power loss as a whole ----

  /** A power loss during the delete leaves the key removed, or `get` answering as before. */
  ghost predicate DeleteAtomic(blockSize: nat, reps: Reps, key: Key) {
    forall e: Event, reps': Reps | e.Crashed? && e.op == Op.Delete(key) && Next(blockSize, reps, e, reps') ::
      Get(reps', key.id) == None || Get(reps', key.id) == Get(reps, key.id)
  }

  /** The disk of replica `i` when the power fails between the replicas before `t` and the others. */
  ghost function CutDisk(blockSize: nat, reps: Reps, op: Op, t: nat, i: nat): Disk
    requires Admissible(blockSize, reps, op) && i < |reps|
  {
    if i < t then AfterOn(blockSize, reps, op, i).disk else reps[i].disk
  }

  /** The power fails when the operation has finished with the replicas before `t`. */
  ghost function CutBefore(blockSize: nat, reps: Reps, op: Op, t: nat): (e: Event)
    requires Admissible(blockSize, reps, op)
    ensures e.Crashed? && e.op == op
  {
    var images := seq(|reps|, i requires 0 <= i < |reps| => CutDisk(blockSize, reps, op, t, i));
    Crashed(op, t, 0, images, seq(|reps|, i => []))
  }

  ghost function AfterCut(blockSize: nat, reps: Reps, op: Op, t: nat): (reps': Reps)
    requires Admissible(blockSize, reps, op)
    ensures |reps'| == |reps|
    ensures forall i | 0 <= i < |reps| :: reps'[i] == Rebuilt(CutDisk(blockSize, reps, op, t, i))
  {
    seq(|reps|, i requires 0 <= i < |reps| => Rebuilt(CutDisk(blockSize, reps, op, t, i)))
  }

  lemma ExactCrash(disk: Disk, steps: seq<Step>)
    requires steps != [] ==> steps[|steps| - 1] == Flush
    ensures CrashAt(disk, steps, 0, disk)
    ensures CrashAt(disk, steps, |steps|, Apply(disk, steps))
  {
    var n := |steps|;
    assert steps[..0] == [] && steps[..n] == steps;
    ExecView(Device(disk, []), steps);
    if n > 0 {
      assert steps[..n - 1] + [Flush] == steps;
      ExecConcat(Device(disk, []), steps[..n - 1], [Flush]);
    }
  }

  lemma CutHappens(blockSize: nat, reps: Reps, op: Op, t: nat)
    requires Admissible(blockSize, reps, op)
    ensures Next(blockSize, reps, CutBefore(blockSize, reps, op, t), AfterCut(blockSize, reps, op, t))
  {
    hide CrashAt, Apply, Rebuilt, StepsOn, AfterOn;
    var e := CutBefore(blockSize, reps, op, t);
    forall i | 0 <= i < |reps|
      ensures CrashAt(reps[i].disk, StepsOn(blockSize, reps, op, i),
                      StepsSeen(blockSize, reps, op, t, 0, i), e.images[i])
    {
      StepsEndInFlush(blockSize, reps, op, i);
      ExactCrash(reps[i].disk, StepsOn(blockSize, reps, op, i));
    }
  }

  /** What the replicas find after the cut: the outcome before `t`, what they found from `t` on. */
  lemma CutAnswers(blockSize: nat, reps: Reps, op: Op, t: nat, i: nat)
    requires Admissible(blockSize, reps, op) && i < |reps| && AllReady(reps)
    ensures var found := Found(AfterCut(blockSize, reps, op, t)[i], op.key.id);
            if i >= t || i >= Reached(blockSize, reps, op) then found == Found(reps[i], op.key.id)
            else found == if op.Delete? then None else Some(Hit(DraftOf(blockSize, reps, op).generation, op.value))
  {
    hide Meaning, Clean, Found, Rebuilt, Reboots, AfterOn, AfterCut, Reached;
    var disk := CutDisk(blockSize, reps, op, t, i);
    assert Ready(reps[i]);
    AfterReady(blockSize, reps, op, i);
    CleanOpened(disk);
    NoReboot(disk);
    RebuiltReady(disk, []);
    if i >= t || i >= Reached(blockSize, reps, op) {
      if i < t { Unreached(blockSize, reps, op, i); }
      FoundSame(reps[i], Rebuilt(disk), op.key.id);
    } else {
      FoundMoved(blockSize, reps, op, i, Rebuilt(disk), op.key.id);
    }
  }

  lemma Unreached(blockSize: nat, reps: Reps, op: Op, i: nat)
    requires Admissible(blockSize, reps, op) && Reached(blockSize, reps, op) <= i < |reps|
    ensures AfterOn(blockSize, reps, op, i) == reps[i]
  {}

  lemma CleanOpened(disk: Disk)
    requires Clean(disk)
    ensures Opened(disk)
  {}

  lemma NoReboot(disk: Disk)
    ensures Reboots(disk, []) && LastImage(disk, []) == disk
  {}

  /**
   * Over several replicas a delete is crash-atomic exactly when every replica whose generation no later
   * replica exceeds holds the value that `get` returns.
   */
  lemma DeleteAtomicIff(blockSize: nat, reps: Reps, key: Key)
    requires blockSize >= 36 && AllReady(reps)
    ensures DeleteAtomic(blockSize, reps, key) <==> DeleteSafe(reps, key.id)
  {
    hide Meaning, Ready, Found, Next, AfterCut, CutBefore, Get, GetAmong, Rebuilt, CutDisk;
    if DeleteSafe(reps, key.id) {
      forall e: Event, reps': Reps | e.Crashed? && e.op == Op.Delete(key) && Next(blockSize, reps, e, reps')
        ensures Get(reps', key.id) == None || Get(reps', key.id) == Get(reps, key.id)
      {
        DeleteSettles(blockSize, reps, e, reps');
      }
    } else {
      var t :| 0 <= t < |reps| && LastWord(reps, key.id, t) &&
               Get(reps, key.id) != Some(Found(reps[t], key.id).value.value);
      CutHappens(blockSize, reps, Op.Delete(key), t);
      CutShowsLastWord(blockSize, reps, key, t);
    }
  }

  /** Cutting a delete just before a replica that has the last word leaves that replica's value. */
  lemma CutShowsLastWord(blockSize: nat, reps: Reps, key: Key, t: nat)
    requires blockSize >= 36 && AllReady(reps) && t < |reps| && LastWord(reps, key.id, t)
    ensures Get(AfterCut(blockSize, reps, Op.Delete(key), t), key.id) == Some(Found(reps[t], key.id).value.value)
  {
    hide Meaning, Ready, Found, AfterCut, GetAmong, Get, Rebuilt, CutDisk;
    var op := Op.Delete(key);
    var reps' := AfterCut(blockSize, reps, op, t);
    forall i | 0 <= i < |reps|
      ensures Found(reps'[i], key.id) == if i < t then None else Found(reps[i], key.id)
    {
      CutAnswers(blockSize, reps, op, t, i);
    }
    SuffixGet(reps, reps', key.id, t);
  }

  lemma SuffixGet(reps: Reps, reps': Reps, id: Bytes, t: nat)
    requires |reps'| == |reps| && t < |reps| && LastWord(reps, id, t)
    requires forall i | 0 <= i < |reps| :: Found(reps'[i], id) == if i < t then None else Found(reps[i], id)
    ensures Get(reps', id) == Some(Found(reps[t], id).value.value)
  {
    hide Found, GetAmong;
    GetIsHighest(reps', id, |reps'|);
    assert Answers(reps', id, |reps'|, t);
  }

  /** Replicas that hold the same value, whatever their generations, delete atomically. */
  lemma AgreeingDeleteSafe(reps: Reps, id: Bytes, value: Bytes)
    requires forall i | 0 <= i < |reps| && Found(reps[i], id).Some? :: Found(reps[i], id).value.value == value
    ensures DeleteSafe(reps, id)
  {
    hide Found;
    GetIsHighest(reps, id, |reps|);
  }

  /**
   * The condition can fail: from any identical replicas, cutting the power when a `put` of a different
   * value has finished its first replica leaves replicas on which a delete is not crash-atomic.
   */
  lemma InterruptedPutUnsafe(blockSize: nat, reps: Reps, op: Op)
    requires |reps| >= 2 && AllReady(reps) && Identical(reps)
    requires op.Put? && Admissible(blockSize, reps, op) && Result(blockSize, reps, op) == Ok
    requires Get(reps, op.key.id).Some? && Get(reps, op.key.id) != Some(op.value)
    ensures var e, reps' := CutBefore(blockSize, reps, op, 1), AfterCut(blockSize, reps, op, 1);
            && Next(blockSize, reps, e, reps') && AllReady(reps')
            && Get(reps', op.key.id) == Some(op.value)
            && !DeleteAtomic(blockSize, reps', op.key)
  {
    hide Meaning, Ready, Found, Next, AfterCut, CutBefore, DeleteAtomic, DeleteSafe, Result;
    var e, reps', id := CutBefore(blockSize, reps, op, 1), AfterCut(blockSize, reps, op, 1), op.key.id;
    CutHappens(blockSize, reps, op, 1);
    ReadyAlways(blockSize, reps, e, reps');
    DeleteAtomicIff(blockSize, reps', op.key);
    var h, g := Found(reps[0], id), DraftOf(blockSize, reps, op).generation;
    OkReachesAll(blockSize, reps, op);
    FoundIndexed(reps, 0, id);
    AgreeingGet(reps, id, h);
    CutAnswers(blockSize, reps, op, 1, 0);
    forall i | 1 <= i < |reps| ensures Found(reps'[i], id) == h {
      CutAnswers(blockSize, reps, op, 1, i);
      assert reps[i] == reps[0];
    }
    TwoVersionsUnsafe(reps', id, Hit(g, op.value), h.value);
  }

  lemma OkReachesAll(blockSize: nat, reps: Reps, op: Op)
    requires Admissible(blockSize, reps, op) && op.Put? && Result(blockSize, reps, op) == Ok
    ensures Reached(blockSize, reps, op) == |reps|
  {}

  lemma AgreeingGet(reps: Reps, id: Bytes, h: Option<Hit>)
    requires |reps| >= 1 && forall i | 0 <= i < |reps| :: Found(reps[i], id) == h
    ensures Get(reps, id) == if h.None? then None else Some(h.value.value)
  {
    hide Found;
    GetIsHighest(reps, id, |reps|);
    if h.Some? { assert Answers(reps, id, |reps|, 0); }
  }

  lemma TwoVersionsUnsafe(reps: Reps, id: Bytes, h: Hit, h': Hit)
    requires |reps| >= 2 && Found(reps[0], id) == Some(h) && h.generation > h'.generation && h.value != h'.value
    requires forall i | 1 <= i < |reps| :: Found(reps[i], id) == Some(h')
    ensures Get(reps, id) == Some(h.value)
    ensures !DeleteSafe(reps, id)
  {
    hide Found, Get, GetAmong;
    NewestWins(reps, id, h, 0);
    assert Found(reps[1], id) == Some(h');
    assert LastWord(reps, id, 1);
  }

  // ---- lockstep ----

  ghost predicate Identical(reps: Reps) {
    forall i, j | 0 <= i < j < |reps| :: reps[i] == reps[j]
  }

  /** Identical replicas stay identical, and an operation that fails has changed none of them. */
  lemma Lockstep(blockSize: nat, reps: Reps, op: Op)
    requires Admissible(blockSize, reps, op) && Identical(reps)
    ensures Identical(After(blockSize, reps, op))
    ensures Reached(blockSize, reps, op) == 0 || Reached(blockSize, reps, op) == |reps|
    ensures Result(blockSize, reps, op) == StorageFull || Result(blockSize, reps, op) == KeyTooLong ==>
              After(blockSize, reps, op) == reps
  {
    hide AfterPut, AfterDelete, Room;
  }

  /** Identical replicas stay identical through every sequence of operations, whichever of them fail. */
  lemma {:induction false} LockstepAlways(blockSize: nat, reps: Reps, ops: seq<Op>)
    requires AllAdmissible(blockSize, reps, ops) && Identical(reps)
    ensures Identical(AfterAll(blockSize, reps, ops))
    decreases |ops|
  {
    hide After, Admissible;
    if ops != [] {
      Lockstep(blockSize, reps, ops[0]);
      LockstepAlways(blockSize, After(blockSize, reps, ops[0]), ops[1..]);
    }
  }

  // ---- damage ----

  /** Blocks became unreadable behind the replica's back; its index is as before. */
  predicate Damaged(rep: Rep, rep': Rep) {
    rep'.index == rep.index && Changes.OnlyLosses(rep.disk, rep'.disk)
  }

  /** Damage makes a replica find what it found before, or nothing; never anything else. */
  lemma DamageHidesOrKeeps(rep: Rep, rep': Rep, id: Bytes)
    requires Damaged(rep, rep')
    ensures Found(rep', id).Some? ==> Found(rep', id) == Found(rep, id)
  {
    hide Complete;
    if Found(rep', id).Some? {
      var r := Read(rep'.disk, rep'.index[id].block).value;
      Changes.LossesAddNothing(rep.disk, rep'.disk, r);
      ReadIs(rep.disk, r);
    }
  }

  /** With replicas that agree, any damage that spares one of them is invisible to `get`. */
  lemma GetSurvivesDamage(reps: Reps, reps': Reps, id: Bytes, j: nat)
    requires |reps'| == |reps| && j < |reps| && reps'[j] == reps[j]
    requires forall i | 0 <= i < |reps| :: Damaged(reps[i], reps'[i]) && Found(reps[i], id) == Found(reps[j], id)
    ensures Get(reps', id) == Get(reps, id)
  {
    hide Found, Damaged;
    forall i | 0 <= i < |reps| ensures Found(reps'[i], id).Some? ==> Found(reps'[i], id) == Found(reps[j], id) {
      DamageHidesOrKeeps(reps[i], reps'[i], id);
    }
    GetIsHighest(reps, id, |reps|);
    GetIsHighest(reps', id, |reps'|);
  }

  // ---- a put that fails part of the way ----

  /**
   * A `put` that reports `StorageFull` has left the store as it was if and only if the first replica was full;
   * otherwise `get` returns the value that was refused.
   */
  lemma FailedPut(blockSize: nat, reps: Reps, op: Op)
    requires AllReady(reps) && op.Put? && Admissible(blockSize, reps, op) && Result(blockSize, reps, op) == StorageFull
    ensures var d := DraftOf(blockSize, reps, op);
            && (After(blockSize, reps, op) == reps <==> !Room(reps[0].disk, d))
            && Get(After(blockSize, reps, op), op.key.id) ==
               if Room(reps[0].disk, d) then Some(op.value) else Get(reps, op.key.id)
  {
    hide Meaning, Ready, Get, AfterOn, Room;
    var d, reps' := DraftOf(blockSize, reps, op), After(blockSize, reps, op);
    if !Room(reps[0].disk, d) {
      forall i | 0 <= i < |reps| ensures reps'[i] == reps[i] { Unreached(blockSize, reps, op, i); }
    } else {
      PutSettles(blockSize, reps, Done(op), reps');
      EventOldOrNew(blockSize, reps, Done(op), reps', 0);
      WrittenDiffers(blockSize, reps, op, 0);
    }
  }

  /** A replica that was written holds a higher generation in its index. */
  lemma WrittenDiffers(blockSize: nat, reps: Reps, op: Op, i: nat)
    requires op.Put? && Admissible(blockSize, reps, op) && i < Reached(blockSize, reps, op)
    ensures After(blockSize, reps, op)[i] != reps[i]
  {
    hide AfterPut, Room;
    Operations.PutIndex(reps[i], DraftOf(blockSize, reps, op));
  }

  // ---- the smallest stores ----

  /** A disk with one single-block record. */
  function TinyDisk(key: Key, generation: nat, value: Bytes): Disk {
    [Head, Desc(DescHeader(generation, |value|, 1, NULL_BLOCK, 0, 0), key, value)]
  }

  function TinyRecord(key: Key, generation: nat, value: Bytes): Record {
    Record(1, DescHeader(generation, |value|, 1, NULL_BLOCK, 0, 0), key, [], value)
  }

  function TinyRep(key: Key, generation: nat, value: Bytes): Rep {
    Rep(TinyDisk(key, generation, value), map[key.id := Entry(generation, 1, |value|)])
  }

  lemma TinyFits(key: Key, generation: nat, value: Bytes, blockSize: nat)
    requires |key.raw| + |value| + 36 <= blockSize
    ensures WithinCapacity(TinyRep(key, generation, value).disk, blockSize)
  {}

  lemma TinyReady(key: Key, generation: nat, value: Bytes)
    ensures Meaning(TinyDisk(key, generation, value)) == map[key.id := TinyRecord(key, generation, value)]
    ensures Ready(TinyRep(key, generation, value))
    ensures Found(TinyRep(key, generation, value), key.id) == Some(Hit(generation, value))
  {
    var disk, r := TinyDisk(key, generation, value), TinyRecord(key, generation, value);
    assert Payloads(disk, []) == [];
    assert Complete(disk, r);
    forall q: Record | Complete(disk, q) ensures q == r { RecordUnique(disk, q, r); }
    BestUnique(disk, 2, Meaning(disk), map[key.id := r]);
    hide Meaning, Complete, Best;
    forall i | 0 <= i < |disk| ensures !Garbage(disk, i) {
      assert Occupies(Meaning(disk)[key.id], 1);
    }
    FoundReady(TinyRep(key, generation, value), key.id);
  }

  /** Two replicas, generations 2 and 1: a delete cut off between them brings the older value back. */
  lemma DeleteNotAtomicExample()
    ensures var key := Key([0x6B], [0x6B]);
            var reps := [TinyRep(key, 2, [0x62]), TinyRep(key, 1, [0x61])];
            && WithinCapacity(reps[0].disk, 38) && WithinCapacity(reps[1].disk, 38)
            && AllReady(reps) && Get(reps, key.id) == Some([0x62]) && !DeleteAtomic(38, reps, key)
  {
    hide Meaning, Ready, Found, DeleteAtomic, TinyRep;
    var key := Key([0x6B], [0x6B]);
    var reps := [TinyRep(key, 2, [0x62]), TinyRep(key, 1, [0x61])];
    TinyReady(key, 2, [0x62]);
    TinyReady(key, 1, [0x61]);
    TwoVersionsUnsafe(reps, key.id, Hit(2, [0x62]), Hit(1, [0x61]));
    DeleteAtomicIff(38, reps, key);
    TinyFits(key, 2, [0x62], 38);
    TinyFits(key, 1, [0x61], 38);
  }

  /** Two replicas, the second one full: the put reports `StorageFull`, and `get` returns its value. */
  lemma FailedPutExample()
    ensures var op := Op.Put(Key([0x6B], [0x6B]), [], 0);
            var reps := [Rep([Head, Free], map[]), TinyRep(Key([0x6A], [0x6A]), 1, [])];
            && WithinCapacity(reps[0].disk, 37) && WithinCapacity(reps[1].disk, 37)
            && AllReady(reps) && Admissible(37, reps, op)
            && Result(37, reps, op) == StorageFull
            && Get(reps, op.key.id) == None && Get(After(37, reps, op), op.key.id) == Some([])
  {
    hide Meaning, Ready, Found, After, Get, Reached, Result, Admissible;
    var op := Op.Put(Key([0x6B], [0x6B]), [], 0);
    var reps := [Rep([Head, Free], map[]), TinyRep(Key([0x6A], [0x6A]), 1, [])];
    FreshReplica([Head, Free]);
    TinyFits(Key([0x6A], [0x6A]), 1, [], 37);
    TinyReady(Key([0x6A], [0x6A]), 1, []);
    SecondFull(reps, op);
    NothingThere(reps, op.key.id);
    FailedPut(37, reps, op);
  }

  lemma SecondFull(reps: Reps, op: Op)
    requires |reps| == 2 && reps[0].disk == [Head, Free] && |reps[1].disk| == 2 && !reps[1].disk[1].Free?
    requires op.Put? && |op.key.raw| == 1 && op.value == [] && op.userFlags == 0
    requires op.key.id !in reps[0].index && op.key.id !in reps[1].index
    ensures Admissible(37, reps, op) && Reached(37, reps, op) == 1 && Result(37, reps, op) == StorageFull
  {
    assert MaxGeneration(reps, op.key.id, 0) == 0 && MaxGeneration(reps, op.key.id, 1) == 0;
    var d := DraftOf(37, reps, op);
    assert Needed(d) == 1;
    assert FreeBelow(reps[0].disk, 1) == [] && FreeBelow(reps[1].disk, 1) == [];
    assert FirstFull(reps, d, 1) == 1;
  }

  lemma NothingThere(reps: Reps, id: Bytes)
    requires forall i | 0 <= i < |reps| :: id !in reps[i].index
    ensures Get(reps, id) == None
  {
    hide GetAmong;
    GetIsHighest(reps, id, |reps|);
  }

  /** A disk with an old and a new version of one key: erasing the new one brings the old one back. */
  lemma StaleVersionExample()
    ensures var key := Key([0x6B], [0x6B]);
            var disk := TinyDisk(key, 1, [0x61]) + [Desc(DescHeader(2, 1, 1, NULL_BLOCK, 0, 0), key, [0x62])];
            var disk' := disk[2 := Free];
            && WithinCapacity(disk, 38)
            && key.id in Meaning(disk) && Meaning(disk)[key.id].value == [0x62]
            && Erased(disk, disk', Meaning(disk)[key.id])
            && key.id in Meaning(disk') && Meaning(disk')[key.id].value == [0x61]
  {
    hide Best;
    var key := Key([0x6B], [0x6B]);
    var disk := TinyDisk(key, 1, [0x61]) + [Desc(DescHeader(2, 1, 1, NULL_BLOCK, 0, 0), key, [0x62])];
    var older, newer := TinyRecord(key, 1, [0x61]), TinyRecord(key, 2, [0x62]).(block := 2);
    assert Payloads(disk, []) == [];
    assert Stored(disk, older) && Stored(disk, newer);
    forall r: Record | Complete(disk, r) ensures r == older || r == newer {
      RecordsByBlock(disk, r, older);
      RecordsByBlock(disk, r, newer);
    }
    assert Meaning(disk)[key.id] == newer;
    var disk' := disk[2 := Free];
    Changes.SurvivesLosses(disk, disk', older);
    forall r: Record | Complete(disk', r) ensures r == older {
      Changes.LossesAddNothing(disk, disk', r);
    }
    assert Meaning(disk')[key.id] == older;
  }
}
