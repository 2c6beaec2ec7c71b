/** Power loss in bytes: what a cut-off operation may leave on the device, and what that decodes to. */
module PowerLoss {
  import opened Format
  import Crc
  import Utf8
  import opened Blocks
  import opened Records
  import Layout
  import Changes
  import Recovery
  import opened Engine
  import opened Crash
  import opened Cluster
  import Operations
  import Runs
  import opened Device
  import opened Raw
  import opened Fanout

  // ---- a device that loses power ----

  /** A block whose write was cut short: it fails its CRC, or starts with a free byte. */
  predicate Torn(b: Bytes) {
    b != [] && (!Crc.CrcOk(b) || b[0] == 0x00 || b[0] == 0xFF)
  }

  /** Durable bytes, and the writes since the last flush. */
  datatype RawDevice = RawDevice(durable: seq<Bytes>, pending: seq<Step>)

  function RawExec(dev: RawDevice, s: Step, blockSize: nat, pattern: Byte): RawDevice {
    match s
    case Write(_, _) => RawDevice(dev.durable, dev.pending + [s])
    case Flush => RawDevice(Rewrite(dev.durable, dev.pending, blockSize, pattern), [])
  }

  function RawExecAll(dev: RawDevice, steps: seq<Step>, blockSize: nat, pattern: Byte): RawDevice
    decreases |steps|
  {
    if steps == [] then dev
    else RawExecAll(RawExec(dev, steps[0], blockSize, pattern), steps[1..], blockSize, pattern)
  }

  /** Some unflushed write to block `i` left `b`, whole or torn. */
  predicate RawLeaves(pending: seq<Step>, i: nat, b: Bytes, blockSize: nat, pattern: Byte) {
    exists k :: 0 <= k < |pending| && pending[k].Write? && pending[k].at == i
                && (b == Encode(blockSize, pattern, pending[k].block) || Torn(b))
  }

  /** The bytes a power loss may leave: each block old or, if written since the last flush, new or torn. */
  predicate RawImage(dev: RawDevice, image: seq<Bytes>, blockSize: nat, pattern: Byte) {
    && |image| == |dev.durable|
    && (forall i | 0 <= i < |image| ::
          && |image[i]| == blockSize
          && (image[i] == dev.durable[i] || RawLeaves(dev.pending, i, image[i], blockSize, pattern)))
  }

  /** `image` is what a power loss may leave after the first `k` of `steps`, from a device at rest. */
  predicate RawCrashAt(blocks: seq<Bytes>, steps: seq<Step>, k: nat, image: seq<Bytes>, blockSize: nat, pattern: Byte) {
    && k <= |steps|
    && RawImage(RawExecAll(RawDevice(blocks, []), steps[..k], blockSize, pattern), image, blockSize, pattern)
  }

  // ---- it decodes to the decoded device ----

  /** The decoded device. */
  ghost function Decode(dev: RawDevice, blockSize: nat): Crash.Device
    requires SizedTo(dev.durable, blockSize)
  {
    Crash.Device(Views(dev.durable), dev.pending)
  }

  lemma {:induction false} ExecDecodes(dev: RawDevice, steps: seq<Step>, blockSize: nat, pattern: Byte)
    requires SizedTo(dev.durable, blockSize) && Faithful(dev.pending, blockSize, pattern)
    requires Faithful(steps, blockSize, pattern)
    ensures var dev' := RawExecAll(dev, steps, blockSize, pattern);
            && SizedTo(dev'.durable, blockSize) && Faithful(dev'.pending, blockSize, pattern)
            && Decode(dev', blockSize) == ExecAll(Decode(dev, blockSize), steps)
    decreases |steps|
  {
    hide Views, Encode, Rewrite, Apply;
    if steps != [] {
      RewriteViews(dev.durable, dev.pending, blockSize, pattern);
      ExecDecodes(RawExec(dev, steps[0], blockSize, pattern), steps[1..], blockSize, pattern);
    }
  }

  lemma BlockDecodes(pending: seq<Step>, i: nat, b: Bytes, blockSize: nat, pattern: Byte)
    requires blockSize >= 36 && Faithful(pending, blockSize, pattern) && |b| == blockSize
    requires RawLeaves(pending, i, b, blockSize, pattern)
    ensures Leaves(pending, i, View(b))
  {
    hide View, Encode, Crc.CrcOk;
    if Torn(b) { TornUnreadable(b); }
  }

  /** Every image in bytes decodes to an image of the decoded device. */
  lemma CrashDecodes(blocks: seq<Bytes>, steps: seq<Step>, k: nat, image: seq<Bytes>, blockSize: nat, pattern: Byte)
    requires SizedTo(blocks, blockSize) && Faithful(steps, blockSize, pattern)
    requires RawCrashAt(blocks, steps, k, image, blockSize, pattern)
    ensures SizedTo(image, blockSize) && CrashAt(Views(blocks), steps, k, Views(image))
  {
    hide View, Encode, RawExecAll, ExecAll, RawLeaves, Leaves;
    var dev := RawDevice(blocks, []);
    ExecDecodes(dev, steps[..k], blockSize, pattern);
    var dev' := RawExecAll(dev, steps[..k], blockSize, pattern);
    forall i | 0 <= i < |image|
      ensures Views(image)[i] == Views(dev'.durable)[i] || Leaves(dev'.pending, i, Views(image)[i])
    {
      if image[i] != dev'.durable[i] { BlockDecodes(dev'.pending, i, image[i], blockSize, pattern); }
    }
  }

  /** The calls of every job write blocks that read back. */
  lemma EffectFaithful(raw: RawRep, job: Job, blockSize: nat, pattern: Byte)
    requires InOrder(raw, blockSize) && Doable(job, blockSize) && (pattern == 0x00 || pattern == 0xFF)
    ensures Faithful(EffectOf(raw, job, blockSize, pattern).steps, blockSize, pattern)
  {
    hide Views, Utf8.Lossy, Faithful, LooseErase, PutCalls, EraseBlocks, Room, GarbageSet, Ascending, Allocated;
    hide Crc.CrcOk;
    NothingFaithful(blockSize, pattern);
    match job {
      case Insert(d) =>
        if Room(Views(raw.blocks), d) {
          var blocks := Allocated(Views(raw.blocks), d);
          AllBelowNull(Views(raw.blocks), d);
          forall erased ensures Faithful(PutCalls(d, blocks, erased), blockSize, pattern) {
            PutFaithful(d, blocks, erased, pattern);
          }
        }
      case Erase(id) =>
        forall list ensures Faithful(EraseBlocks(list) + [Flush], blockSize, pattern) {
          EraseFaithful(list, blockSize, pattern);
        }
      case Sweep =>
        forall list ensures Faithful(EraseBlocks(list) + [Flush], blockSize, pattern) {
          EraseFaithful(list, blockSize, pattern);
        }
    }
  }

  lemma AllBelowNull(disk: Disk, d: Layout.Draft)
    requires d.Fits() && Room(disk, d) && |disk| <= NULL_BLOCK
    ensures var blocks := Allocated(disk, d);
            |blocks| <= NULL_BLOCK && forall j | 0 <= j < |blocks| :: blocks[j] < NULL_BLOCK
  {
    hide Room, Allocated;
  }

  // ---- finished jobs are durable ----

  lemma {:induction false} RawExecView(dev: RawDevice, steps: seq<Step>, blockSize: nat, pattern: Byte)
    ensures var dev' := RawExecAll(dev, steps, blockSize, pattern);
            Rewrite(dev'.durable, dev'.pending, blockSize, pattern) ==
            Rewrite(Rewrite(dev.durable, dev.pending, blockSize, pattern), steps, blockSize, pattern)
    decreases |steps|
  {
    hide Encode, Rewrite;
    if steps == [] {
      RewriteNothing(Rewrite(dev.durable, dev.pending, blockSize, pattern), blockSize, pattern);
    } else {
      var s, rest := steps[0], steps[1..];
      var dev1, now := RawExec(dev, s, blockSize, pattern), Rewrite(dev.durable, dev.pending, blockSize, pattern);
      RawExecView(dev1, rest, blockSize, pattern);
      assert [s] + rest == steps;
      RewriteConcat(now, [s], rest, blockSize, pattern);
      RewriteConcat(dev.durable, dev.pending, [s], blockSize, pattern);
      RewriteNothing(now, blockSize, pattern);
      FlushKeeps(now, blockSize, pattern);
    }
  }

  lemma FlushKeeps(blocks: seq<Bytes>, blockSize: nat, pattern: Byte)
    ensures Rewrite(blocks, [Flush], blockSize, pattern) == blocks
  {
    assert [] + [Flush] == [Flush];
    RewriteFlush(blocks, [], blockSize, pattern);
  }

  lemma {:induction false} RawExecConcat(dev: RawDevice, a: seq<Step>, b: seq<Step>, blockSize: nat, pattern: Byte)
    ensures RawExecAll(dev, a + b, blockSize, pattern)
         == RawExecAll(RawExecAll(dev, a, blockSize, pattern), b, blockSize, pattern)
    decreases |a|
  {
    hide Rewrite;
    if a == [] {
      assert a + b == b;
    } else {
      RawExecConcat(RawExec(dev, a[0], blockSize, pattern), a[1..], b, blockSize, pattern);
      assert (a + b)[1..] == a[1..] + b;
    }
  }

  /** Calls that end in a flush leave nothing pending. */
  lemma NothingPending(blocks: seq<Bytes>, steps: seq<Step>, blockSize: nat, pattern: Byte)
    requires steps == [] || steps[|steps| - 1] == Flush
    ensures RawExecAll(RawDevice(blocks, []), steps, blockSize, pattern)
         == RawDevice(Rewrite(blocks, steps, blockSize, pattern), [])
  {
    hide Rewrite;
    var dev := RawDevice(blocks, []);
    RawExecView(dev, steps, blockSize, pattern);
    RewriteNothing(blocks, blockSize, pattern);
    var dev' := RawExecAll(dev, steps, blockSize, pattern);
    if steps != [] {
      var front := steps[..|steps| - 1];
      assert front + [Flush] == steps;
      RawExecConcat(dev, front, [Flush], blockSize, pattern);
      assert [Flush][1..] == [];
    }
    RewriteNothing(dev'.durable, blockSize, pattern);
  }

  lemma EndsInFlush(raw: RawRep, job: Job, blockSize: nat, pattern: Byte)
    requires InOrder(raw, blockSize) && Doable(job, blockSize)
    ensures var steps := EffectOf(raw, job, blockSize, pattern).steps; steps == [] || steps[|steps| - 1] == Flush
  {
    hide Views, Utf8.Lossy, LooseErase, EraseBlocks, WriteSteps, Room, GarbageSet, Ascending, Allocated, Rewrite;
    hide Crc.CrcOk;
  }

  /** A power loss after a job's last call, whatever the job reports, leaves exactly the bytes that it wrote. */
  lemma JobDurable(raw: RawRep, job: Job, blockSize: nat, pattern: Byte, image: seq<Bytes>)
    requires InOrder(raw, blockSize) && Doable(job, blockSize)
    requires var steps := EffectOf(raw, job, blockSize, pattern).steps;
             RawCrashAt(raw.blocks, steps, |steps|, image, blockSize, pattern)
    ensures image == Worked(raw, EffectOf(raw, job, blockSize, pattern), blockSize, pattern).blocks
  {
    hide EffectOf, Rewrite, Doable;
    var steps := EffectOf(raw, job, blockSize, pattern).steps;
    EndsInFlush(raw, job, blockSize, pattern);
    assert steps[..|steps|] == steps;
    NothingPending(raw.blocks, steps, blockSize, pattern);
  }

  // ---- the operations ----

  /** A power loss in a `put` leaves bytes with the old meaning or the new one. */
  lemma InsertCrash(raw: RawRep, d: Layout.Draft, pattern: Byte, k: nat, image: seq<Bytes>)
    requires InOrder(raw, d.blockSize) && Encodable(d) && (pattern == 0x00 || pattern == 0xFF)
    requires Indexed(Look(raw)) && Changes.Newer(Views(raw.blocks), d)
    requires RawCrashAt(raw.blocks, InsertEffect(raw, d, pattern).steps, k, image, d.blockSize, pattern)
    ensures SizedTo(image, d.blockSize) && Recovery.Opened(Views(image))
    ensures var disk := Views(raw.blocks);
            || Meaning(Views(image)) == Meaning(disk)
            || (&& Room(disk, d)
                && Meaning(Views(image)) == Meaning(disk)[d.key.id := Layout.NewRecord(d, Allocated(disk, d))])
  {
    hide View, Meaning, Utf8.Lossy, InsertEffect, RawCrashAt, CrashAt, Room, Allocated, PutSteps, AfterPut;
    hide Rewrite, Anchored, Faithful, Changes.Newer;
    var rep := Look(raw);
    EffectFaithful(raw, Insert(d), d.blockSize, pattern);
    CrashDecodes(raw.blocks, InsertEffect(raw, d, pattern).steps, k, image, d.blockSize, pattern);
    Operations.IndexedAnchored(rep);
    InsertAnchored(raw, d, pattern);
    if Room(rep.disk, d) {
      PutCrash(rep, d, k, Views(image));
    } else {
      CrashInRange(rep.disk, [], k, Views(image));
      AtRest(rep.disk, Views(image));
    }
  }

  /** A power loss in a `delete` leaves bytes with the old meaning, or without the key. */
  lemma EraseCrash(raw: RawRep, id: Bytes, blockSize: nat, pattern: Byte, k: nat, image: seq<Bytes>)
    requires InOrder(raw, blockSize) && (pattern == 0x00 || pattern == 0xFF) && Ready(Look(raw))
    requires RawCrashAt(raw.blocks, EraseEffect(raw, id, blockSize, pattern).steps, k, image, blockSize, pattern)
    ensures SizedTo(image, blockSize) && Recovery.Opened(Views(image))
    ensures var disk := Views(raw.blocks);
            Meaning(Views(image)) == Meaning(disk) || Meaning(Views(image)) == Meaning(disk) - {id}
  {
    hide View, Meaning, EraseEffect, RawCrashAt, CrashAt, DeleteSteps, AfterDelete, Rewrite, Anchored, Faithful;
    hide Recovery.Clean;
    var rep := Look(raw);
    EffectFaithful(raw, Erase(id), blockSize, pattern);
    CrashDecodes(raw.blocks, EraseEffect(raw, id, blockSize, pattern).steps, k, image, blockSize, pattern);
    Operations.IndexedAnchored(rep);
    EraseAnchored(raw, id, blockSize, pattern);
    DeleteCrash(rep, id, k, Views(image));
  }

  /** A power loss in a `recover`, on any bytes, leaves bytes with the same meaning. */
  lemma SweepCrash(raw: RawRep, blockSize: nat, pattern: Byte, k: nat, image: seq<Bytes>)
    requires InOrder(raw, blockSize) && (pattern == 0x00 || pattern == 0xFF)
    requires RawCrashAt(raw.blocks, RecoverSteps(Views(raw.blocks)), k, image, blockSize, pattern)
    ensures SizedTo(image, blockSize) && Meaning(Views(image)) == Meaning(Views(raw.blocks))
  {
    hide View, Meaning, RecoverSteps, RawCrashAt, CrashAt, Faithful, Recovery.PartlyRecovered;
    EffectFaithful(raw, Sweep, blockSize, pattern);
    CrashDecodes(raw.blocks, RecoverSteps(Views(raw.blocks)), k, image, blockSize, pattern);
    RecoverCrash(Views(raw.blocks), k, Views(image));
    Recovery.PartialRecoveryKeepsMeaning(Views(raw.blocks), Views(image));
  }

  // ---- the whole store ----

  /** Bytes that a power loss may leave after `k` calls on device `j`, the devices before it being done. */
  ghost predicate StoreImages(raws: seq<RawRep>, op: Op, blockSize: nat, pattern: Byte, j: nat, k: nat,
                              images: seq<seq<Bytes>>)
    requires AllInOrder(raws, blockSize) && Doable(JobOf(blockSize, LookAll(raws, blockSize), op), blockSize)
  {
    && |images| == |raws|
    && (forall i | 0 <= i < |raws| ::
          var job := JobOf(blockSize, LookAll(raws, blockSize), op);
          var steps := EffectOn(raws, job, blockSize, pattern, i).steps;
          var seen := if i < j then |steps| else if i == j then k else 0;
          RawCrashAt(raws[i].blocks, steps, seen, images[i], blockSize, pattern))
  }

  /** They decode to the images from which the runs of the decoded model go on. */
  lemma StoreCrashDecodes(raws: seq<RawRep>, op: Op, blockSize: nat, pattern: Byte, j: nat, k: nat,
                          images: seq<seq<Bytes>>, disks: seq<Disk>)
    requires AllInOrder(raws, blockSize) && AllAnchored(LookAll(raws, blockSize))
    requires pattern == 0x00 || pattern == 0xFF
    requires Admissible(blockSize, LookAll(raws, blockSize), op) && (op.Put? ==> |op.key.raw| + 36 <= blockSize)
    requires Doable(JobOf(blockSize, LookAll(raws, blockSize), op), blockSize)
    requires StoreImages(raws, op, blockSize, pattern, j, k, images) && |disks| == |images|
    requires forall i | 0 <= i < |disks| :: SizedTo(images[i], blockSize) ==> disks[i] == Views(images[i])
    ensures Runs.CrashedImages(blockSize, LookAll(raws, blockSize), op, j, k, disks)
  {
    hide Anchored, InOrder, Views, Encodable, Admissible, RawCrashAt, CrashAt, EffectOf, EffectOn, Reaches;
    hide Runs.StepsOn, AfterOn, JobOf, Faithful, Doable;
    var reps := LookAll(raws, blockSize);
    var job := JobOf(blockSize, reps, op);
    match op {
      case Put(_, _, _) => PutFollows(raws, reps, op, blockSize, pattern);
      case Delete(_) => DeleteFollows(raws, reps, op, blockSize, pattern);
    }
    forall i | 0 <= i < |raws|
      ensures CrashAt(reps[i].disk, Runs.StepsOn(blockSize, reps, op, i),
                      Runs.StepsSeen(blockSize, reps, op, j, k, i), disks[i])
    {
      assert Follows(raws, reps, op, blockSize, pattern, i);
      PartFaithful(raws, job, blockSize, pattern, i);
      var steps := EffectOn(raws, job, blockSize, pattern, i).steps;
      var seen := if i < j then |steps| else if i == j then k else 0;
      CrashDecodes(raws[i].blocks, steps, seen, images[i], blockSize, pattern);
    }
  }

  lemma PartFaithful(raws: seq<RawRep>, job: Job, blockSize: nat, pattern: Byte, i: nat)
    requires AllInOrder(raws, blockSize) && Doable(job, blockSize) && (pattern == 0x00 || pattern == 0xFF) && i < |raws|
    ensures SizedTo(raws[i].blocks, blockSize)
    ensures Faithful(EffectOn(raws, job, blockSize, pattern, i).steps, blockSize, pattern)
  {
    hide EffectOf, Faithful, Reaches, Doable;
    EffectFaithful(raws[i], job, blockSize, pattern);
    NothingFaithful(blockSize, pattern);
  }

  // ---- whole runs of one replica, recovered or not ----

  /** A job is finished or cut off anywhere; afterwards the index may be any, kept or built anew. */
  ghost predicate Moves(raw: RawRep, job: Job, raw': RawRep, blockSize: nat, pattern: Byte) {
    && InOrder(raw, blockSize) && Doable(job, blockSize) && InOrder(raw', blockSize)
    && var steps := EffectOf(raw, job, blockSize, pattern).steps;
       || raw'.blocks == Rewrite(raw.blocks, steps, blockSize, pattern)
       || exists k :: RawCrashAt(raw.blocks, steps, k, raw'.blocks, blockSize, pattern)
  }

  /** The record that a job writes. */
  ghost predicate WrittenBy(raw: RawRep, job: Job, r: Record)
    requires forall i | 0 <= i < |raw.blocks| :: |raw.blocks[i]| >= 36
  {
    && job.Insert? && job.d.Fits()
    && var disk := Views(raw.blocks);
       Room(disk, job.d) && r == Layout.NewRecord(job.d, Allocated(disk, job.d))
  }

  /** The last state that the calls reach is one of the images that a power loss may leave. */
  lemma AppliedIsImage(disk: Disk, steps: seq<Step>)
    ensures CrashAt(disk, steps, |steps|, Apply(disk, steps))
  {
    hide Apply, ExecAll, Leaves;
    var dev := Crash.Device(disk, []);
    assert steps[..|steps|] == steps;
    Runs.ExecView(dev, steps);
    Operations.ApplyNothing(disk);
    PendingLeaves(ExecAll(dev, steps).durable, ExecAll(dev, steps).pending);
  }

  lemma {:induction false} PendingLeaves(disk: Disk, pending: seq<Step>)
    ensures var disk' := Apply(disk, pending);
            forall i | 0 <= i < |disk| :: disk'[i] == disk[i] || Leaves(pending, i, disk'[i])
  {
    if pending != [] {
      var n, disk' := |pending| - 1, Apply(disk, pending);
      PendingLeaves(disk, pending[..n]);
      forall i | 0 <= i < |disk| && disk'[i] != disk[i] ensures Leaves(pending, i, disk'[i]) {
        if pending[n].Write? && pending[n].at == i {
          assert pending[n].block == disk'[i];
        } else {
          LeavesMore(pending, n, i, disk'[i]);
        }
      }
    }
  }

  /** One move completes no record but the one it writes. */
  lemma MoveNoZombie(raw: RawRep, job: Job, raw': RawRep, blockSize: nat, pattern: Byte, r: Record)
    requires Moves(raw, job, raw', blockSize, pattern) && (pattern == 0x00 || pattern == 0xFF)
    requires Complete(Views(raw'.blocks), r)
    ensures Complete(Views(raw.blocks), r) || WrittenBy(raw, job, r)
  {
    hide View, Complete, Utf8.Lossy, InsertEffect, EraseEffect, RawCrashAt, CrashAt, Faithful, Rewrite, RecoverSteps;
    hide Room, Allocated, Apply;
    var disk, steps := Views(raw.blocks), EffectOf(raw, job, blockSize, pattern).steps;
    EffectFaithful(raw, job, blockSize, pattern);
    var k: nat := MoveDecodes(raw.blocks, steps, raw'.blocks, blockSize, pattern);
    match job
    case Insert(d) => InsertNoZombie(raw, d, pattern, k, Views(raw'.blocks), r);
    case Erase(id) => EraseNoZombie(raw, id, blockSize, pattern, k, Views(raw'.blocks), r);
    case Sweep => NoZombieFromRecover(disk, k, Views(raw'.blocks), r);
  }

  lemma MoveDecodes(blocks: seq<Bytes>, steps: seq<Step>, blocks': seq<Bytes>, blockSize: nat, pattern: Byte)
      returns (k: nat)
    requires SizedTo(blocks, blockSize) && SizedTo(blocks', blockSize) && Faithful(steps, blockSize, pattern)
    requires || blocks' == Rewrite(blocks, steps, blockSize, pattern)
             || exists k :: RawCrashAt(blocks, steps, k, blocks', blockSize, pattern)
    ensures CrashAt(Views(blocks), steps, k, Views(blocks'))
  {
    hide View, RawCrashAt, CrashAt, Faithful, Rewrite, Apply;
    if blocks' == Rewrite(blocks, steps, blockSize, pattern) {
      k := |steps|;
      RewriteViews(blocks, steps, blockSize, pattern);
      AppliedIsImage(Views(blocks), steps);
    } else {
      k :| RawCrashAt(blocks, steps, k, blocks', blockSize, pattern);
      CrashDecodes(blocks, steps, k, blocks', blockSize, pattern);
    }
  }

  /** A run: `raws` lists the states, from the start on. */
  ghost predicate Wanders(raws: seq<RawRep>, jobs: seq<Job>, blockSize: nat, pattern: Byte) {
    && |raws| == |jobs| + 1
    && (forall j | 0 <= j < |raws| :: InOrder(raws[j], blockSize))
    && (forall j | 0 <= j < |jobs| :: Moves(raws[j], jobs[j], raws[j + 1], blockSize, pattern))
  }

  /**
   * No zombies over whole runs, whether or not anyone recovers in between, on any bytes and with any indexes: every
   * record that is complete at the end was complete at the start or was written by a `put` of the run.
   */
  lemma {:induction false} RunNoZombie(raws: seq<RawRep>, jobs: seq<Job>, blockSize: nat, pattern: Byte,
                                       n: nat, r: Record)
    requires Wanders(raws, jobs, blockSize, pattern) && (pattern == 0x00 || pattern == 0xFF) && n < |raws|
    requires Complete(Views(raws[n].blocks), r)
    ensures Complete(Views(raws[0].blocks), r) || exists j :: 0 <= j < n && WrittenBy(raws[j], jobs[j], r)
    decreases n
  {
    hide Complete, Moves, WrittenBy, Views;
    if n > 0 {
      assert Moves(raws[n - 1], jobs[n - 1], raws[n - 1 + 1], blockSize, pattern);
      MoveNoZombie(raws[n - 1], jobs[n - 1], raws[n], blockSize, pattern, r);
      if Complete(Views(raws[n - 1].blocks), r) { RunNoZombie(raws, jobs, blockSize, pattern, n - 1, r); }
    }
  }
}
