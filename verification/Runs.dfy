/** Whole runs of a store: finished operations, and power losses at any step followed by recovery. */
module Runs {
  import opened Format
  import opened Records
  import Changes
  import opened Recovery
  import opened Engine
  import Operations
  import opened Crash
  import opened Cluster

  // ---- a power loss during an operation ----

  /** The device calls of the operation on replica `i`; the replicas are served in order. */
  ghost function StepsOn(blockSize: nat, reps: Reps, op: Op, i: nat): seq<Step>
    requires Admissible(blockSize, reps, op) && i < |reps|
  {
    if i >= Reached(blockSize, reps, op) then []
    else
      match op
      case Put(_, _, _) => PutSteps(reps[i], DraftOf(blockSize, reps, op))
      case Delete(key) => DeleteSteps(reps[i], key.id)
  }

  /** How many calls replica `i` has seen when the power fails after `k` calls on replica `j`. */
  ghost function StepsSeen(blockSize: nat, reps: Reps, op: Op, j: nat, k: nat, i: nat): nat
    requires Admissible(blockSize, reps, op) && i < |reps|
  {
    if i < j then |StepsOn(blockSize, reps, op, i)| else if i == j then k else 0
  }

  ghost predicate CrashedImages(blockSize: nat, reps: Reps, op: Op, j: nat, k: nat, images: seq<Disk>)
    requires Admissible(blockSize, reps, op)
  {
    && |images| == |reps|
    && (forall i | 0 <= i < |reps| ::
          CrashAt(reps[i].disk, StepsOn(blockSize, reps, op, i), StepsSeen(blockSize, reps, op, j, k, i), images[i]))
  }

  /** Recoveries from `disk`, each cut off after some of its device calls and leaving the next of `images`. */
  ghost predicate Reboots(disk: Disk, images: seq<Disk>)
    decreases |images|
  {
    images == [] || ((exists k :: CrashAt(disk, RecoverSteps(disk), k, images[0])) && Reboots(images[0], images[1..]))
  }

  lemma {:induction false} RebootsAreRecoveries(disk: Disk, images: seq<Disk>)
    requires Reboots(disk, images)
    ensures CrashedRecoveries(disk, images)
    decreases |images|
  {
    hide CrashAt, RecoverSteps, PartlyRecovered;
    if images != [] {
      var k: nat :| CrashAt(disk, RecoverSteps(disk), k, images[0]);
      RecoverCrash(disk, k, images[0]);
      RebootsAreRecoveries(images[0], images[1..]);
    }
  }

  /** A replica after an undisturbed `recover` and `build_index`. */
  ghost function Rebuilt(disk: Disk): Rep {
    Rep(Apply(disk, RecoverSteps(disk)), IndexOf(Meaning(Apply(disk, RecoverSteps(disk)))))
  }

  /** Rebuilding, however often interrupted, gives a ready replica that means what the crash left. */
  lemma RebuiltReady(disk: Disk, images: seq<Disk>)
    requires Opened(disk) && Reboots(disk, images)
    ensures Ready(Rebuilt(LastImage(disk, images)))
    ensures Meaning(Rebuilt(LastImage(disk, images)).disk) == Meaning(disk)
  {
    hide Meaning, RecoverSteps, Apply, Recovered, Clean;
    RebootsAreRecoveries(disk, images);
    RecoveriesConverge(disk, images);
    RecoverApplied(LastImage(disk, images));
    RecoveryCorrect(LastImage(disk, images));
  }

  // ---- events ----

  datatype Event =
    | Done(op: Op)
    | Crashed(op: Op, j: nat, k: nat, images: seq<Disk>, reboots: seq<seq<Disk>>)

  /** One event of a run. After a crash every replica is recovered and indexed anew. */
  ghost predicate Next(blockSize: nat, reps: Reps, e: Event, reps': Reps) {
    && Admissible(blockSize, reps, e.op)
    && |reps'| == |reps|
    && match e
       case Done(op) => reps' == After(blockSize, reps, op)
       case Crashed(op, j, k, images, reboots) =>
         && CrashedImages(blockSize, reps, op, j, k, images)
         && |reboots| == |reps|
         && (forall i | 0 <= i < |reps| ::
               Reboots(images[i], reboots[i]) && reps'[i] == Rebuilt(LastImage(images[i], reboots[i])))
  }

  // ---- one replica through one event ----

  lemma {:induction false} ExecView(dev: Device, steps: seq<Step>)
    ensures var dev' := ExecAll(dev, steps);
            Apply(dev'.durable, dev'.pending) == Apply(Apply(dev.durable, dev.pending), steps)
    decreases |steps|
  {
    if steps != [] {
      var dev1, n := Exec(dev, steps[0]), |dev.pending|;
      ExecView(dev1, steps[1..]);
      assert [steps[0]] + steps[1..] == steps;
      Operations.ApplyConcat(Apply(dev.durable, dev.pending), [steps[0]], steps[1..]);
      assert [steps[0]][..0] == [];
      assert (dev.pending + [steps[0]])[..n] == dev.pending;
    }
  }

  /** Once the last flush of a replica's calls is done, a crash leaves exactly their effect. */
  lemma CrashAfterLastFlush(disk: Disk, steps: seq<Step>, image: Disk)
    requires CrashAt(disk, steps, |steps|, image)
    requires steps != [] ==> steps[|steps| - 1] == Flush
    ensures image == Apply(disk, steps)
  {
    var n := |steps|;
    assert steps[..n] == steps;
    ExecView(Device(disk, []), steps);
    if n > 0 {
      assert steps[..n - 1] + [Flush] == steps;
      ExecConcat(Device(disk, []), steps[..n - 1], [Flush]);
    }
  }

  lemma StepsEndInFlush(blockSize: nat, reps: Reps, op: Op, i: nat)
    requires Admissible(blockSize, reps, op) && i < |reps|
    ensures var s := StepsOn(blockSize, reps, op, i); s != [] ==> s[|s| - 1] == Flush
    ensures AfterOn(blockSize, reps, op, i).disk == Apply(reps[i].disk, StepsOn(blockSize, reps, op, i))
  {}

  lemma DraftNewer(blockSize: nat, reps: Reps, op: Op, i: nat)
    requires op.Put? && i < |reps| && Ready(reps[i])
    ensures Changes.Newer(reps[i].disk, DraftOf(blockSize, reps, op))
  {
    hide Meaning, Clean;
    var id := op.key.id;
    if id in Meaning(reps[i].disk) { assert reps[i].index[id] == EntryOf(Meaning(reps[i].disk)[id]); }
  }

  /** A finished operation keeps the index entries on complete records, and moves the answer for its key alone. */
  lemma AfterAnchored(blockSize: nat, reps: Reps, op: Op, i: nat, id: Bytes)
    requires Admissible(blockSize, reps, op) && i < |reps| && Anchored(reps[i])
    ensures Anchored(AfterOn(blockSize, reps, op, i))
    ensures Found(AfterOn(blockSize, reps, op, i), id) ==
            if i >= Reached(blockSize, reps, op) || id != op.key.id then Found(reps[i], id)
            else if op.Put? then Some(Hit(DraftOf(blockSize, reps, op).generation, op.value))
            else None
  {
    hide Found, AfterPut, AfterDelete, Named, Anchored, Allocated;
    FoundAnchored(reps[i], id);
    if i < Reached(blockSize, reps, op) {
      match op {
        case Put(_, _, _) => Operations.PutAnchored(reps[i], DraftOf(blockSize, reps, op));
        case Delete(key) => Operations.DeleteAnchored(reps[i], key.id);
      }
      FoundAnchored(AfterOn(blockSize, reps, op, i), id);
    }
  }

  /** Every finished operation leaves the replica ready. */
  lemma AfterReady(blockSize: nat, reps: Reps, op: Op, i: nat)
    requires Admissible(blockSize, reps, op) && i < |reps| && Ready(reps[i])
    ensures Ready(AfterOn(blockSize, reps, op, i))
  {
    hide Meaning, Clean, AfterPut, AfterDelete;
    if i < Reached(blockSize, reps, op) {
      match op
      case Put(_, _, _) =>
        DraftNewer(blockSize, reps, op, i);
        Operations.PutCorrect(reps[i], DraftOf(blockSize, reps, op));
      case Delete(key) => Operations.DeleteCorrect(reps[i], key.id);
    }
  }

  /** A crash leaves each replica meaning what it meant before the operation, or what it would mean after it. */
  lemma ReplicaCrash(blockSize: nat, reps: Reps, op: Op, i: nat, k: nat, image: Disk)
    requires Admissible(blockSize, reps, op) && i < |reps| && Ready(reps[i])
    requires CrashAt(reps[i].disk, StepsOn(blockSize, reps, op, i), k, image)
    ensures Opened(image)
    ensures Meaning(image) == Meaning(reps[i].disk) || Meaning(image) == Meaning(AfterOn(blockSize, reps, op, i).disk)
    ensures k == 0 ==> image == reps[i].disk
    ensures k == |StepsOn(blockSize, reps, op, i)| ==> image == AfterOn(blockSize, reps, op, i).disk
  {
    hide Meaning, Garbage, AfterPut, AfterDelete, PutSteps, DeleteSteps, Apply, CrashAt;
    var rep := reps[i];
    if i < Reached(blockSize, reps, op) {
      match op
      case Put(_, _, _) =>
        DraftNewer(blockSize, reps, op, i);
        PutCrash(rep, DraftOf(blockSize, reps, op), k, image);
        Operations.PutCorrect(rep, DraftOf(blockSize, reps, op));
      case Delete(key) =>
        DeleteCrash(rep, key.id, k, image);
        Operations.DeleteCorrect(rep, key.id);
    } else {
      CrashInRange(rep.disk, [], k, image);
      AtRest(rep.disk, image);
    }
    if k == 0 { CrashAtStart(rep.disk, StepsOn(blockSize, reps, op, i), image); }
    if k == |StepsOn(blockSize, reps, op, i)| {
      StepsEndInFlush(blockSize, reps, op, i);
      CrashAfterLastFlush(rep.disk, StepsOn(blockSize, reps, op, i), image);
    }
  }

  lemma CrashAtStart(disk: Disk, steps: seq<Step>, image: Disk)
    requires CrashAt(disk, steps, 0, image)
    ensures image == disk
  {
    assert steps[..0] == [];
  }
}
