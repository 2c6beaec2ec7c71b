/** Power loss: a device that holds unflushed writes, cut off at any step of an operation. */
module Crash {
  import opened Format
  import opened Records
  import opened Layout
  import opened Changes
  import opened Recovery
  import opened Engine
  import opened Operations

  /** A durable image, and the writes since the last flush. */
  datatype Device = Device(durable: Disk, pending: seq<Step>)

  function Exec(dev: Device, s: Step): Device {
    match s
    case Write(_, _) => Device(dev.durable, dev.pending + [s])
    case Flush => Device(Apply(dev.durable, dev.pending), [])
  }

  function ExecAll(dev: Device, steps: seq<Step>): Device
    decreases |steps|
  {
    if steps == [] then dev else ExecAll(Exec(dev, steps[0]), steps[1..])
  }

  /** Some unflushed write to block `i` left `block`, whole or torn. */
  predicate Leaves(pending: seq<Step>, i: nat, block: Block) {
    exists k :: 0 <= k < |pending| && pending[k].Write? && pending[k].at == i
                && (block == pending[k].block || !block.Readable())
  }

  /**
   * The images a power loss may leave: each block is as it was at the last flush or, if written
   * since, new or torn. A torn block fails its CRC or starts with a free byte, so it is unreadable.
   */
  predicate CrashImage(dev: Device, image: Disk) {
    && |image| == |dev.durable|
    && (forall i | 0 <= i < |image| :: image[i] == dev.durable[i] || Leaves(dev.pending, i, image[i]))
  }

  /** `image` is what a crash may leave after the first `k` of `steps`, from a device at rest. */
  predicate CrashAt(disk: Disk, steps: seq<Step>, k: nat, image: Disk) {
    k <= |steps| && CrashImage(ExecAll(Device(disk, []), steps[..k]), image)
  }

  lemma {:induction false} ExecConcat(dev: Device, a: seq<Step>, b: seq<Step>)
    ensures ExecAll(dev, a + b) == ExecAll(ExecAll(dev, a), b)
    decreases |a|
  {
    if a == [] {
      assert a + b == b;
    } else {
      ExecConcat(Exec(dev, a[0]), a[1..], b);
      assert (a + b)[1..] == a[1..] + b;
    }
  }

  lemma {:induction false} ExecBurst(dev: Device, a: seq<Step>)
    requires NoFlush(a)
    ensures ExecAll(dev, a) == Device(dev.durable, dev.pending + a)
    decreases |a|
  {
    if a == [] {
      assert dev.pending + a == dev.pending;
    } else {
      ExecBurst(Exec(dev, a[0]), a[1..]);
      assert dev.pending + [a[0]] + a[1..] == dev.pending + a;
    }
  }

  /** A crash hits the first burst of writes, or it hits what follows the flush. */
  lemma CrashSplit(disk: Disk, a: seq<Step>, rest: seq<Step>, k: nat, image: Disk)
    requires NoFlush(a) && CrashAt(disk, a + [Flush] + rest, k, image)
    ensures CrashImage(Device(disk, a), image) || (k > |a| && CrashAt(Apply(disk, a), rest, k - |a| - 1, image))
  {
    hide Leaves, Apply, ExecAll;
    var steps, dev := a + [Flush] + rest, Device(disk, []);
    if k <= |a| {
      assert steps[..k] == a[..k];
      ExecBurst(dev, a[..k]);
      assert dev.pending + a[..k] == a[..k];
      forall i | 0 <= i < |image| && Leaves(a[..k], i, image[i]) ensures Leaves(a, i, image[i]) {
        LeavesMore(a, k, i, image[i]);
      }
    } else {
      ExecFlushed(disk, a, rest[..k - |a| - 1]);
      assert steps[..k] == a + [Flush] + rest[..k - |a| - 1];
    }
  }

  /** After the flush the device starts afresh from the written disk. */
  lemma ExecFlushed(disk: Disk, a: seq<Step>, rest: seq<Step>)
    requires NoFlush(a)
    ensures ExecAll(Device(disk, []), a + [Flush] + rest) == ExecAll(Device(Apply(disk, a), []), rest)
  {
    hide Apply;
    var dev := Device(disk, []);
    assert a + [Flush] + rest == a + ([Flush] + rest);
    ExecConcat(dev, a, [Flush] + rest);
    ExecBurst(dev, a);
    assert dev.pending + a == a;
    assert ([Flush] + rest)[1..] == rest;
  }

  lemma LeavesMore(a: seq<Step>, k: nat, i: nat, block: Block)
    requires k <= |a| && Leaves(a[..k], i, block)
    ensures Leaves(a, i, block)
  {
    var j :| 0 <= j < k && a[..k][j].Write? && a[..k][j].at == i && (block == a[..k][j].block || !block.Readable());
    assert a[j] == a[..k][j];
  }

  /** Nothing is pending once an operation's last flush is done. */
  lemma AtRest(disk: Disk, image: Disk)
    requires CrashAt(disk, [], 0, image)
    ensures image == disk
  {}

  lemma CrashInRange(disk: Disk, steps: seq<Step>, k: nat, image: Disk)
    requires CrashAt(disk, steps, k, image)
    ensures k <= |steps|
  {}

  /** A crash in one burst of writes and its flush: some of the writes are pending, or all are done. */
  lemma CrashBurst(disk: Disk, a: seq<Step>, k: nat, image: Disk)
    requires NoFlush(a) && CrashAt(disk, a + [Flush], k, image)
    ensures CrashImage(Device(disk, a), image) || image == Apply(disk, a)
  {
    hide CrashAt, CrashImage, Apply;
    assert a + [Flush] == a + [Flush] + [];
    CrashSplit(disk, a, [], k, image);
    if !CrashImage(Device(disk, a), image) {
      CrashInRange(Apply(disk, a), [], k - |a| - 1, image);
      AtRest(Apply(disk, a), image);
    }
  }

  // ---- the crash lemmas of the three operations ----

  /** A crash anywhere in a `put` leaves the old meaning or the new one. */
  lemma PutCrash(rep: Rep, d: Draft, k: nat, image: Disk)
    requires d.Fits() && Room(rep.disk, d) && Indexed(rep) && Newer(rep.disk, d)
    requires CrashAt(rep.disk, PutSteps(rep, d), k, image)
    ensures Opened(image) && |image| == |rep.disk|
    ensures Meaning(image) == Meaning(rep.disk)
         || Meaning(image) == Meaning(rep.disk)[d.key.id := NewRecord(d, Allocated(rep.disk, d))]
  {
    hide Complete, Meaning, Apply, Needed, CrashAt, Garbage, CrashImage, WithRecord, Allocated;
    var disk, blocks := rep.disk, Allocated(rep.disk, d);
    var writes, disk1 := WriteSteps(d, blocks), WithRecord(disk, d);
    var rest := PutRest(rep, d);
    CrashSplit(disk, writes, rest, k, image);
    if CrashImage(Device(disk, writes), image) {
      AllocationOk(disk, d);
      TouchedByWrites(disk, d, blocks, image);
      WritingIsAtomic(disk, image, d, blocks);
    } else {
      PutCrashLate(rep, d, k - |writes| - 1, image);
    }
  }

  /** The device calls of a `put` after its first flush. */
  ghost function PutRest(rep: Rep, d: Draft): (rest: seq<Step>)
    requires d.Fits() && Room(rep.disk, d)
    ensures PutSteps(rep, d) == WriteSteps(d, Allocated(rep.disk, d)) + [Flush] + rest
    ensures WithRecord(rep.disk, d) == Apply(rep.disk, WriteSteps(d, Allocated(rep.disk, d)))
  {
    if d.key.id in rep.index then EraseSteps(WithRecord(rep.disk, d), rep.index[d.key.id].block) + [Flush] else []
  }

  /** After the first flush the new record is durable, whatever happens to the old one. */
  lemma PutCrashLate(rep: Rep, d: Draft, k: nat, image: Disk)
    requires d.Fits() && Room(rep.disk, d) && Indexed(rep) && Newer(rep.disk, d)
    requires CrashAt(WithRecord(rep.disk, d), PutRest(rep, d), k, image)
    ensures Opened(image) && |image| == |rep.disk|
    ensures Meaning(image) == Meaning(rep.disk)[d.key.id := NewRecord(d, Allocated(rep.disk, d))]
  {
    hide Complete, Meaning, Apply, Needed, NewBlock, CrashAt, Garbage;
    var disk, disk1 := rep.disk, WithRecord(rep.disk, d);
    WritesApplied(disk, d);
    IndexedAnchored(rep);
    if d.key.id in rep.index {
      var r := Meaning(disk)[d.key.id];
      ReplacedRecord(rep, d);
      if Occupies(r, 0) { OccupiedReadable(disk, r, 0); }
      EraseCrash(disk1, r, k, image);
      ReplacedIsNotBest(disk, d, image);
    } else {
      CrashInRange(disk1, [], k, image);
      AtRest(disk1, image);
      WritingIsAtomic(disk, disk1, d, Allocated(disk, d));
    }
  }

  lemma TouchedByWrites(disk: Disk, d: Draft, blocks: seq<nat>, image: Disk)
    requires d.Fits() && Allocation(d, blocks, |disk|) && (forall k | 0 <= k < |blocks| :: disk[blocks[k]].Free?)
    requires CrashImage(Device(disk, WriteSteps(d, blocks)), image)
    ensures PartlyWritten(disk, image, d, blocks)
  {
    hide Needed, NewBlock;
  }

  /** A crash while erasing a record loses blocks of that record only. */
  lemma EraseCrash(disk: Disk, r: Record, k: nat, image: Disk)
    requires Complete(disk, r) && CrashAt(disk, EraseSteps(disk, r.block) + [Flush], k, image)
    ensures LossesWithin(disk, image, r)
  {
    hide Complete, Apply, CrashAt, CrashImage, EraseSteps;
    var erases := EraseBlocks(BlocksOf(r));
    EraseApplied(disk, r);
    CrashBurst(disk, erases, k, image);
    if image != Apply(disk, erases) { TouchedByErases(disk, BlocksOf(r), image); }
  }

  lemma TouchedByErases(disk: Disk, blocks: seq<nat>, image: Disk)
    requires CrashImage(Device(disk, EraseBlocks(blocks)), image)
    ensures |image| == |disk|
    ensures forall i | 0 <= i < |disk| :: image[i] == disk[i] || (i in blocks && !image[i].Readable())
  {}

  /** A crash anywhere in a `delete` leaves the old meaning or removes exactly the key. */
  lemma DeleteCrash(rep: Rep, id: Bytes, k: nat, image: Disk)
    requires Ready(rep) && CrashAt(rep.disk, DeleteSteps(rep, id), k, image)
    ensures Opened(image) && |image| == |rep.disk|
    ensures Meaning(image) == Meaning(rep.disk) || Meaning(image) == Meaning(rep.disk) - {id}
  {
    hide Complete, Meaning, Apply, CrashAt, Garbage;
    if id in rep.index {
      var r := Meaning(rep.disk)[id];
      EraseCrash(rep.disk, r, k, image);
      CleanRecords(rep.disk, r);
      ErasingIsAtomic(rep.disk, image, r);
    } else {
      CrashInRange(rep.disk, [], k, image);
      AtRest(rep.disk, image);
    }
  }

  // ---- recovery as device calls ----

  ghost function GarbageSet(disk: Disk): set<nat> {
    set i: nat | i < |disk| && Garbage(disk, i)
  }

  /** The members of `s` below `n`, ascending. */
  function Ascending(s: set<nat>, n: nat): (l: seq<nat>)
    ensures forall k | 0 <= k < |l| :: l[k] < n && l[k] in s
    ensures forall i | i in s && i < n :: i in l
    ensures forall j, k | 0 <= j < k < |l| :: l[j] < l[k]
  {
    if n == 0 then [] else Ascending(s, n - 1) + if n - 1 in s then [n - 1] else []
  }

  /** The device calls of `recover`: the garbage is erased in ascending order, then flushed if there was any. */
  ghost function RecoverSteps(disk: Disk): seq<Step> {
    var garbage := Ascending(GarbageSet(disk), |disk|);
    if garbage == [] then [] else EraseBlocks(garbage) + [Flush]
  }

  lemma RecoverApplied(disk: Disk)
    ensures Apply(disk, RecoverSteps(disk)) == Recovered(disk)
    ensures RecoverSteps(disk) == [] <==> Recovered(disk) == disk
  {
    hide Garbage, Apply;
    var garbage := Ascending(GarbageSet(disk), |disk|);
    var erases := EraseBlocks(garbage);
    ApplyDistinct(disk, erases);
    ApplyNothing(disk);
    ApplyFlush(disk, erases);
    var disk' := Apply(disk, erases);
    forall i: nat | i < |disk| ensures disk'[i] == Recovered(disk)[i] {
      if i in garbage {
        var k :| 0 <= k < |garbage| && garbage[k] == i;
        assert erases[k].at == i;
      }
    }
    assert disk' == Recovered(disk);
    if garbage != [] {
      assert garbage[0] in garbage;
      GarbageNotFree(disk, garbage[0]);
    }
  }

  lemma GarbageNotFree(disk: Disk, i: nat)
    requires i < |disk|
    ensures Garbage(disk, i) ==> !disk[i].Free?
  {}

  /** While the erasures are pending, a crash leaves some of them done. */
  lemma GarbageErased(disk: Disk, garbage: seq<nat>, image: Disk)
    requires forall i | i in garbage :: i < |disk| && Garbage(disk, i)
    requires CrashImage(Device(disk, EraseBlocks(garbage)), image)
    ensures PartlyRecovered(disk, image)
  {
    hide Garbage, CrashImage;
    TouchedByErases(disk, garbage, image);
  }

  lemma RecoveredIsPartly(disk: Disk)
    ensures PartlyRecovered(disk, disk) && PartlyRecovered(disk, Recovered(disk))
  {
    hide Garbage;
  }

  /** A crash anywhere in a recovery leaves a partly recovered disk. */
  lemma RecoverCrash(disk: Disk, k: nat, image: Disk)
    requires CrashAt(disk, RecoverSteps(disk), k, image)
    ensures PartlyRecovered(disk, image)
  {
    hide Apply, CrashAt, CrashImage, Garbage, Recovered, PartlyRecovered, Ascending;
    var garbage := Ascending(GarbageSet(disk), |disk|);
    var erases := EraseBlocks(garbage);
    RecoverApplied(disk);
    RecoveredIsPartly(disk);
    if garbage == [] {
      CrashInRange(disk, [], k, image);
      AtRest(disk, image);
    } else {
      ApplyFlush(disk, erases);
      CrashBurst(disk, erases, k, image);
      if image != Apply(disk, erases) { GarbageErased(disk, garbage, image); }
    }
  }

  /** A second recovery makes no device call at all. */
  lemma SecondRecoveryIdle(disk: Disk)
    requires Opened(disk)
    ensures RecoverSteps(Recovered(disk)) == []
  {
    hide Meaning, InBest, RecoverSteps, Recovered;
    RecoveryCorrect(disk);
    RecoverApplied(Recovered(disk));
  }

  // ---- no zombies: on any disk, clean or not, with any index ----

  /**
   * A crash in a `put` completes no record but the new one, whatever else lies on the disk and whichever
   * blocks the eraser walks over.
   */
  lemma NoZombieFromPut(disk: Disk, d: Draft, erased: Option<seq<nat>>, k: nat, image: Disk, r: Record)
    requires d.Fits() && Room(disk, d) && |disk| <= NULL_BLOCK
    requires CrashAt(disk, PutCalls(d, Allocated(disk, d), erased), k, image) && Complete(image, r)
    ensures Complete(disk, r) || r == NewRecord(d, Allocated(disk, d))
  {
    hide Complete, Apply, Needed, NewBlock, CrashAt, CrashImage, WithRecord, Allocated;
    var blocks := Allocated(disk, d);
    var writes, disk1 := WriteSteps(d, blocks), WithRecord(disk, d);
    var rest := if erased.Some? then EraseBlocks(erased.value) + [Flush] else [];
    WithRecordIs(disk, d);
    CrashSplit(disk, writes, rest, k, image);
    AllocationOk(disk, d);
    if CrashImage(Device(disk, writes), image) {
      TouchedByWrites(disk, d, blocks, image);
      if !Complete(disk, r) { WritingAdds(disk, image, d, blocks, r); }
    } else {
      ErasingAddsNothing(disk1, erased, k - |writes| - 1, image, r);
      WritesApplied(disk, d);
      if !Complete(disk, r) { WritingAdds(disk, disk1, d, blocks, r); }
    }
  }

  lemma WithRecordIs(disk: Disk, d: Draft)
    requires d.Fits() && Room(disk, d)
    ensures WithRecord(disk, d) == Apply(disk, WriteSteps(d, Allocated(disk, d)))
  {}

  /** A crash in a `delete` completes no record, whichever blocks the eraser walks over. */
  lemma NoZombieFromDelete(disk: Disk, erased: seq<nat>, k: nat, image: Disk, r: Record)
    requires CrashAt(disk, EraseBlocks(erased) + [Flush], k, image) && Complete(image, r)
    ensures Complete(disk, r)
  {
    hide Complete, CrashAt;
    ErasingAddsNothing(disk, Some(erased), k, image, r);
  }

  lemma ErasingAddsNothing(disk: Disk, erased: Option<seq<nat>>, k: nat, image: Disk, r: Record)
    requires CrashAt(disk, if erased.Some? then EraseBlocks(erased.value) + [Flush] else [], k, image)
    requires Complete(image, r)
    ensures Complete(disk, r)
  {
    hide Complete, CrashAt, CrashImage, Apply;
    if erased.None? {
      CrashInRange(disk, [], k, image);
      AtRest(disk, image);
    } else {
      CrashBurst(disk, EraseBlocks(erased.value), k, image);
      if image == Apply(disk, EraseBlocks(erased.value)) {
        ErasedOnlyLoses(disk, erased.value);
      } else {
        TouchedByErases(disk, erased.value, image);
      }
      LossesAddNothing(disk, image, r);
    }
  }

  /** Erasing any list of blocks, repeated or out of range, frees some blocks and changes nothing else. */
  lemma {:induction false} ErasedOnlyLoses(disk: Disk, blocks: seq<nat>)
    ensures OnlyLosses(disk, Apply(disk, EraseBlocks(blocks)))
  {
    if blocks != [] {
      var n := |blocks| - 1;
      ErasedOnlyLoses(disk, blocks[..n]);
      assert EraseBlocks(blocks)[..n] == EraseBlocks(blocks[..n]);
    }
  }

  /** Neither does a crash in a recovery. */
  lemma NoZombieFromRecover(disk: Disk, k: nat, image: Disk, r: Record)
    requires CrashAt(disk, RecoverSteps(disk), k, image) && Complete(image, r)
    ensures Complete(disk, r)
  {
    hide Complete, CrashAt, RecoverSteps, Garbage;
    RecoverCrash(disk, k, image);
    LossesAddNothing(disk, image, r);
  }
}
