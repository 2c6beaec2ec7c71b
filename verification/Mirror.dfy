/** Replicas with the same data blocks: they stay the same byte for byte, while block 0 names each replica. */
module Mirror {
  import opened Format
  import Blocks
  import Records
  import Recovery
  import opened Engine
  import opened Cluster
  import Runs
  import opened Device
  import opened Raw
  import opened Fanout

  /** The same index, and the same bytes in every block but the header. */
  predicate SameData(a: RawRep, b: RawRep) {
    && a.index == b.index
    && |a.blocks| == |b.blocks|
    && (forall i | 1 <= i < |a.blocks| :: a.blocks[i] == b.blocks[i])
  }

  ghost predicate Mirrored(raws: seq<RawRep>) {
    forall i, j | 0 <= i < |raws| && 0 <= j < |raws| :: SameData(raws[i], raws[j])
  }

  /** Mirrored replicas decode to the same disk: block 0 is a header on each. */
  lemma SameLook(a: RawRep, b: RawRep, blockSize: nat)
    requires InOrder(a, blockSize) && InOrder(b, blockSize) && SameData(a, b)
    requires Recovery.Opened(Look(a).disk) && Recovery.Opened(Look(b).disk)
    ensures Look(a) == Look(b)
  {
    hide Blocks.View;
    var p, q := Views(a.blocks), Views(b.blocks);
    assert p[0] == q[0];
    assert forall i | 1 <= i < |p| :: p[i] == q[i];
  }

  lemma {:induction false} RewriteSame(a: seq<Bytes>, b: seq<Bytes>, steps: seq<Step>, blockSize: nat, pattern: Byte)
    requires |a| == |b| && forall i | 1 <= i < |a| :: a[i] == b[i]
    ensures forall i | 1 <= i < |a| ::
              Rewrite(a, steps, blockSize, pattern)[i] == Rewrite(b, steps, blockSize, pattern)[i]
  {
    hide Encode;
    if steps != [] { RewriteSame(a, b, steps[..|steps| - 1], blockSize, pattern); }
  }

  /** A job has the same effect on two mirrored anchored replicas, and leaves them mirrored. */
  lemma SameEffect(a: RawRep, b: RawRep, job: Job, blockSize: nat, pattern: Byte)
    requires InOrder(a, blockSize) && InOrder(b, blockSize) && SameData(a, b) && Doable(job, blockSize)
    requires (pattern == 0x00 || pattern == 0xFF) && Anchored(Look(a)) && Anchored(Look(b))
    ensures EffectOf(a, job, blockSize, pattern) == EffectOf(b, job, blockSize, pattern)
    ensures var e := EffectOf(a, job, blockSize, pattern);
            SameData(Worked(a, e, blockSize, pattern), Worked(b, e, blockSize, pattern))
  {
    hide Views, Encodable, Rewrite, InsertEffect, EraseEffect, Room, AfterPut, PutSteps, DeleteSteps, AfterDelete;
    hide Records.Meaning;
    SameLook(a, b, blockSize);
    match job {
      case Insert(d) =>
        InsertAnchored(a, d, pattern);
        InsertAnchored(b, d, pattern);
      case Erase(id) =>
        EraseAnchored(a, id, blockSize, pattern);
        EraseAnchored(b, id, blockSize, pattern);
      case Sweep =>
    }
    RewriteSame(a.blocks, b.blocks, EffectOf(a, job, blockSize, pattern).steps, blockSize, pattern);
  }

  /** The replicas after the operation, in bytes. */
  ghost function RawAfter(raws: seq<RawRep>, op: Op, blockSize: nat, pattern: Byte): (raws': seq<RawRep>)
    requires AllInOrder(raws, blockSize) && OpFits(raws, op, blockSize)
    ensures |raws'| == |raws|
  {
    if op.Put? && |op.key.raw| > blockSize - 36 then raws
    else
      var job := JobOf(blockSize, LookAll(raws, blockSize), op);
      seq(|raws|, i requires 0 <= i < |raws| =>
        Worked(raws[i], EffectOn(raws, job, blockSize, pattern, i), blockSize, pattern))
  }

  /** The operation is admissible, and its key is one that a caller can give. */
  ghost predicate OpFits(raws: seq<RawRep>, op: Op, blockSize: nat)
    requires AllInOrder(raws, blockSize)
  {
    var reps := LookAll(raws, blockSize);
    && Admissible(blockSize, reps, op)
    && (op.Put? && |op.key.raw| + 36 <= blockSize ==> Doable(JobOf(blockSize, reps, op), blockSize))
  }

  /** What `Fanned` says of the bytes. */
  lemma FannedIs(s: Snapshot, s': Snapshot, op: Op, blockSize: nat, pattern: Byte)
    requires AllInOrder(s.raws, blockSize) && OpFits(s.raws, op, blockSize)
    requires op.Put? ==> |op.key.raw| + 36 <= blockSize
    requires Fanned(s, s', JobOf(blockSize, LookAll(s.raws, blockSize), op), blockSize, pattern)
    ensures s'.raws == RawAfter(s.raws, op, blockSize, pattern)
  {
    hide InOrder, Admissible, EffectOn, Rewrite, JobOf, Doable;
  }

  /** A job leaves the replica in order. */
  lemma WorkedInOrder(raw: RawRep, job: Job, blockSize: nat, pattern: Byte)
    requires InOrder(raw, blockSize) && Doable(job, blockSize)
    ensures InOrder(Worked(raw, EffectOf(raw, job, blockSize, pattern), blockSize, pattern), blockSize)
  {
    hide Views, Rewrite, InsertEffect, EraseEffect, Encodable;
  }

  /** On anchored replicas the bytes after the operation decode to the decoded model's next state. */
  lemma RawAfterLooks(raws: seq<RawRep>, op: Op, blockSize: nat, pattern: Byte)
    requires AllInOrder(raws, blockSize) && OpFits(raws, op, blockSize) && AllAnchored(LookAll(raws, blockSize))
    requires pattern == 0x00 || pattern == 0xFF
    ensures AllInOrder(RawAfter(raws, op, blockSize, pattern), blockSize)
    ensures LookAll(RawAfter(raws, op, blockSize, pattern), blockSize)
         == After(blockSize, LookAll(raws, blockSize), op)
  {
    hide AllAnchored, RawAfter, OpFits, Views, AfterOn, Admissible;
    var reps, raws' := LookAll(raws, blockSize), RawAfter(raws, op, blockSize, pattern);
    forall i | 0 <= i < |raws|
      ensures Admissible(blockSize, reps, op)
      ensures InOrder(raws'[i], blockSize) && Look(raws'[i]) == AfterOn(blockSize, reps, op, i)
    {
      RawAfterAt(raws, reps, op, blockSize, pattern, i);
    }
    OpFitsIs(raws, op, blockSize);
  }

  lemma OpFitsIs(raws: seq<RawRep>, op: Op, blockSize: nat)
    requires AllInOrder(raws, blockSize) && OpFits(raws, op, blockSize)
    ensures Admissible(blockSize, LookAll(raws, blockSize), op)
    ensures (op.Put? ==> |op.key.raw| + 36 <= blockSize) ==>
              Doable(JobOf(blockSize, LookAll(raws, blockSize), op), blockSize)
  {
    hide InOrder, Admissible, Encodable, Views;
  }

  lemma RawAfterAt(raws: seq<RawRep>, reps: Reps, op: Op, blockSize: nat, pattern: Byte, i: nat)
    requires AllInOrder(raws, blockSize) && OpFits(raws, op, blockSize) && reps == LookAll(raws, blockSize)
    requires AllAnchored(reps) && (pattern == 0x00 || pattern == 0xFF) && i < |raws|
    ensures Admissible(blockSize, reps, op)
    ensures InOrder(RawAfter(raws, op, blockSize, pattern)[i], blockSize)
    ensures Look(RawAfter(raws, op, blockSize, pattern)[i]) == AfterOn(blockSize, reps, op, i)
  {
    hide InOrder, AllAnchored, OpFits, Views, AfterOn, Admissible, JobOf, EffectOn, Worked, Doable, Follows, LookAll;
    OpFitsIs(raws, op, blockSize);
    if op.Put? && |op.key.raw| > blockSize - 36 {
      TooLongKeeps(blockSize, reps, op, i);
    } else {
      PartInOrder(raws, JobOf(blockSize, reps, op), blockSize, pattern, i);
      match op {
        case Put(_, _, _) => PutFollows(raws, reps, op, blockSize, pattern);
        case Delete(_) => DeleteFollows(raws, reps, op, blockSize, pattern);
      }
      FollowsIs(raws, reps, op, blockSize, pattern, i);
    }
  }

  lemma PartInOrder(raws: seq<RawRep>, job: Job, blockSize: nat, pattern: Byte, i: nat)
    requires AllInOrder(raws, blockSize) && Doable(job, blockSize) && i < |raws|
    ensures InOrder(Worked(raws[i], EffectOn(raws, job, blockSize, pattern, i), blockSize, pattern), blockSize)
  {
    hide InOrder, Doable, Rewrite, EffectOf, Reaches;
    WorkedInOrder(raws[i], job, blockSize, pattern);
    IdleLooks(raws[i], Effect([], Ok, raws[i].index), blockSize, pattern);
  }

  lemma FollowsIs(raws: seq<RawRep>, reps: Reps, op: Op, blockSize: nat, pattern: Byte, i: nat)
    requires AllInOrder(raws, blockSize) && i < |raws| == |reps| && Admissible(blockSize, reps, op)
    requires Doable(JobOf(blockSize, reps, op), blockSize) && Follows(raws, reps, op, blockSize, pattern, i)
    ensures var e := EffectOn(raws, JobOf(blockSize, reps, op), blockSize, pattern, i);
            Look(Worked(raws[i], e, blockSize, pattern)) == AfterOn(blockSize, reps, op, i)
  {
    hide InOrder, Doable, Rewrite, EffectOn, Runs.StepsOn, AfterOn, Views, Admissible, JobOf;
  }

  lemma TooLongKeeps(blockSize: nat, reps: Reps, op: Op, i: nat)
    requires op.Put? && Admissible(blockSize, reps, op) && |op.key.raw| > blockSize - 36 && i < |reps|
    ensures AfterOn(blockSize, reps, op, i) == reps[i]
  {}

  /** One operation keeps the replicas mirrored, also when it fails. */
  lemma MirroredStep(raws: seq<RawRep>, op: Op, blockSize: nat, pattern: Byte)
    requires AllInOrder(raws, blockSize) && OpFits(raws, op, blockSize) && AllAnchored(LookAll(raws, blockSize))
    requires (pattern == 0x00 || pattern == 0xFF) && Mirrored(raws)
    ensures Mirrored(RawAfter(raws, op, blockSize, pattern))
  {
    hide InOrder, Anchored, Admissible, Views, Rewrite, EffectOf, SameData, Encodable, EffectOn;
    var reps, raws' := LookAll(raws, blockSize), RawAfter(raws, op, blockSize, pattern);
    if !(op.Put? && |op.key.raw| > blockSize - 36) {
      var job := JobOf(blockSize, reps, op);
      forall i, j | 0 <= i < |raws| && 0 <= j < |raws| ensures SameData(raws'[i], raws'[j]) {
        SameEffect(raws[i], raws[j], job, blockSize, pattern);
        SameEffect(raws[0], raws[i], job, blockSize, pattern);
        SameEffect(raws[0], raws[j], job, blockSize, pattern);
        AllOrNone(raws, job, blockSize, pattern, i);
        AllOrNone(raws, job, blockSize, pattern, j);
      }
    }
  }

  /** On mirrored replicas either all replicas do the job, or the first fails and none has changed. */
  lemma AllOrNone(raws: seq<RawRep>, job: Job, blockSize: nat, pattern: Byte, i: nat)
    requires AllInOrder(raws, blockSize) && Doable(job, blockSize) && i < |raws|
    requires (pattern == 0x00 || pattern == 0xFF) && Mirrored(raws)
    requires forall k | 0 <= k < |raws| :: Anchored(Look(raws[k]))
    ensures var e := EffectOf(raws[0], job, blockSize, pattern);
            if Stops(e) then Worked(raws[i], EffectOn(raws, job, blockSize, pattern, i), blockSize, pattern) == raws[i]
            else EffectOn(raws, job, blockSize, pattern, i) == EffectOf(raws[i], job, blockSize, pattern)
  {
    hide InOrder, Anchored, Views, Rewrite, InsertEffect, EraseEffect, SameData, Encodable;
    forall k | 0 <= k < |raws|
      ensures EffectOf(raws[k], job, blockSize, pattern) == EffectOf(raws[0], job, blockSize, pattern)
    {
      SameEffect(raws[k], raws[0], job, blockSize, pattern);
    }
    IdleLooks(raws[i], Effect([], Ok, raws[i].index), blockSize, pattern);
    if Stops(EffectOf(raws[0], job, blockSize, pattern)) { StoppedIdle(raws[i], job, blockSize, pattern); }
  }

  /** A job that an anchored replica refuses has made no call. */
  lemma StoppedIdle(raw: RawRep, job: Job, blockSize: nat, pattern: Byte)
    requires InOrder(raw, blockSize) && Doable(job, blockSize) && (pattern == 0x00 || pattern == 0xFF)
    requires Anchored(Look(raw)) && Stops(EffectOf(raw, job, blockSize, pattern))
    ensures Worked(raw, EffectOf(raw, job, blockSize, pattern), blockSize, pattern) == raw
  {
    hide Anchored, Views, Rewrite, InsertEffect, EraseEffect, Encodable, PutSteps, AfterPut, DeleteSteps, AfterDelete;
    match job
    case Insert(d) => InsertAnchored(raw, d, pattern);
    case Erase(id) => EraseAnchored(raw, id, blockSize, pattern);
    case Sweep =>
  }

  /** What the contracts of `put_flagged` and `delete` promise keeps the replicas of a store mirrored. */
  lemma MirroredStore(s: Snapshot, s': Snapshot, op: Op, blockSize: nat, pattern: Byte)
    requires AllInOrder(s.raws, blockSize) && OpFits(s.raws, op, blockSize) && AllAnchored(LookAll(s.raws, blockSize))
    requires (pattern == 0x00 || pattern == 0xFF) && (op.Put? ==> |op.key.raw| + 36 <= blockSize) && Mirrored(s.raws)
    requires Fanned(s, s', JobOf(blockSize, LookAll(s.raws, blockSize), op), blockSize, pattern)
    ensures Mirrored(s'.raws)
  {
    hide InOrder, Anchored, OpFits, RawAfter, SameData, Fanned, JobOf, Doable;
    FannedIs(s, s', op, blockSize, pattern);
    MirroredStep(s.raws, op, blockSize, pattern);
  }

  // ---- whole runs ----

  ghost predicate AllFit(raws: seq<RawRep>, ops: seq<Op>, blockSize: nat, pattern: Byte)
    requires AllInOrder(raws, blockSize)
    decreases |ops|
  {
    ops == [] || (OpFits(raws, ops[0], blockSize)
                  && AllInOrder(RawAfter(raws, ops[0], blockSize, pattern), blockSize)
                  && AllFit(RawAfter(raws, ops[0], blockSize, pattern), ops[1..], blockSize, pattern))
  }

  ghost function RawAfterAll(raws: seq<RawRep>, ops: seq<Op>, blockSize: nat, pattern: Byte): seq<RawRep>
    requires AllInOrder(raws, blockSize) && AllFit(raws, ops, blockSize, pattern)
    decreases |ops|
  {
    if ops == [] then raws
    else RawAfterAll(RawAfter(raws, ops[0], blockSize, pattern), ops[1..], blockSize, pattern)
  }

  /** Replicas that start with identical data blocks keep them identical through every sequence of operations. */
  lemma {:induction false} MirroredAlways(raws: seq<RawRep>, ops: seq<Op>, blockSize: nat, pattern: Byte)
    requires AllInOrder(raws, blockSize) && AllFit(raws, ops, blockSize, pattern)
    requires AllAnchored(LookAll(raws, blockSize)) && (pattern == 0x00 || pattern == 0xFF) && Mirrored(raws)
    ensures Mirrored(RawAfterAll(raws, ops, blockSize, pattern))
    decreases |ops|
  {
    hide InOrder, OpFits, RawAfter, SameData, Anchored, After, Admissible;
    if ops != [] {
      MirroredStep(raws, ops[0], blockSize, pattern);
      RawAfterLooks(raws, ops[0], blockSize, pattern);
      StillAnchored(raws, ops[0], blockSize);
      MirroredAlways(RawAfter(raws, ops[0], blockSize, pattern), ops[1..], blockSize, pattern);
    }
  }

  lemma StillAnchored(raws: seq<RawRep>, op: Op, blockSize: nat)
    requires AllInOrder(raws, blockSize) && OpFits(raws, op, blockSize) && AllAnchored(LookAll(raws, blockSize))
    ensures Admissible(blockSize, LookAll(raws, blockSize), op)
    ensures AllAnchored(After(blockSize, LookAll(raws, blockSize), op))
  {
    hide InOrder, Anchored, Admissible, Doable, AfterOn, Views;
    var reps := LookAll(raws, blockSize);
    forall i | 0 <= i < |reps| ensures Anchored(After(blockSize, reps, op)[i]) {
      Runs.AfterAnchored(blockSize, reps, op, i, op.key.id);
    }
  }
}
