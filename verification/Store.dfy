/** The store as the Rust code has it: operations that fan out over its replicas. */
module KvStore {
  import opened Format
  import opened Utf8
  import opened Records
  import Layout
  import opened Recovery
  import opened Engine
  import Crash
  import opened Cluster
  import Runs
  import opened Device
  import Formatting
  import opened Raw
  import opened Fanout
  import ReplicaEngine

  class Store {
    const replicas: seq<ReplicaEngine.Replica>
    const pattern: Byte
    const blockSize: nat
    /** The bytes and indexes of the replicas, and all calls on their devices. */
    ghost var now: Snapshot
    /** What the replicas hold, decoded. */
    ghost var reps: Reps
    ghost const journal: Journal
    /** The objects the store is made of, besides itself. */
    ghost const Repr: set<object>

    ghost predicate Valid()
      reads this, Repr
    {
      && |replicas| >= 1 && |reps| == |now.raws| == |now.logs| == |replicas|
      && (pattern == 0x00 || pattern == 0xFF)
      && this !in Repr && journal in Repr && journal.served == now.served
      && (forall i, j | 0 <= i < j < |replicas| :: Apart(replicas[i], replicas[j]))
      && (forall i | 0 <= i < |replicas| :: Owned(i) && Shows(i))
    }

    ghost predicate Owned(i: nat)
      requires i < |replicas|
    {
      && replicas[i] in Repr && replicas[i].dev in Repr && replicas[i].dev.data in Repr
      && replicas[i].dev.id == i && replicas[i].dev.journal == journal
    }

    ghost predicate Apart(a: ReplicaEngine.Replica, b: ReplicaEngine.Replica) {
      a != b && a.dev != b.dev && a.dev.data != b.dev.data
    }

    /** Replica `i` is in order, and the ghost fields show it as it is. */
    ghost predicate Shows(i: nat)
      requires i < |replicas| == |reps| == |now.raws| == |now.logs|
      reads this, replicas[i], replicas[i].dev, replicas[i].dev.data
    {
      Showing(replicas[i], now.raws[i], reps[i], now.logs[i])
    }

    ghost predicate Showing(a: ReplicaEngine.Replica, raw: RawRep, rep: Rep, log: seq<Step>)
      reads a, a.dev, a.dev.data
    {
      a.Attached() && a.dev.blockSize == blockSize && a.Bytewise() == raw && a.State() == rep && a.dev.log == log
    }

    /** A store over replicas that share no device, only the journal of their calls. */
    constructor (replicas: seq<ReplicaEngine.Replica>, pattern: Byte, blockSize: nat,
                 ghost now: Snapshot, ghost reps: Reps, ghost journal: Journal, ghost repr: set<object>)
      requires |replicas| >= 1 && |reps| == |now.raws| == |now.logs| == |replicas|
      requires pattern == 0x00 || pattern == 0xFF
      requires journal in repr && journal.served == now.served
      requires forall i | 0 <= i < |replicas| ::
                 && replicas[i] in repr && replicas[i].dev in repr && replicas[i].dev.data in repr
                 && replicas[i].dev.id == i && replicas[i].dev.journal == journal
      requires forall i | 0 <= i < |replicas| ::
                 && replicas[i].Attached() && replicas[i].dev.blockSize == blockSize
                 && replicas[i].Bytewise() == now.raws[i] && replicas[i].State() == reps[i]
                 && replicas[i].dev.log == now.logs[i]
      requires forall i, j | 0 <= i < j < |replicas| ::
                 && replicas[i] != replicas[j]
                 && replicas[i].dev != replicas[j].dev
                 && replicas[i].dev.data != replicas[j].dev.data
      ensures Valid() && this.replicas == replicas && this.blockSize == blockSize && this.pattern == pattern
      ensures this.now == now && this.reps == reps && Repr == repr
    {
      this.replicas, this.pattern, this.blockSize := replicas, pattern, blockSize;
      this.now, this.reps, this.journal := now, reps, journal;
      Repr := repr;
    }

    /** The bytes are in order, and decode to `reps`. */
    lemma Decoded()
      requires Valid() && blockSize >= 36
      ensures AllInOrder(now.raws, blockSize) && reps == LookAll(now.raws, blockSize)
    {
      hide MemDevice.Holds, Views;
      forall i | 0 <= i < |now.raws| ensures InOrder(now.raws[i], blockSize) && reps[i] == Look(now.raws[i]) {
        assert Shows(i);
      }
    }

    /** `get`: the value of the highest generation that verifies, the first replica winning ties. */
    method Get(key: Bytes) returns (value: Option<Bytes>)
      requires Valid() && blockSize >= 36
      ensures value == Cluster.Get(reps, MakeKey(key).id)
    {
      hide Lossy, Found, MemDevice.Valid, MemDevice.Disk, Read;
      ghost var id := MakeKey(key).id;
      var best: Option<Hit> := None;
      for i := 0 to |replicas|
        invariant best == GetAmong(reps, id, i)
      {
        assert Shows(i);
        var _, hit := replicas[i].GetWithGeneration(key);
        if hit.Some? && (best.None? || hit.value.generation > best.value.generation) {
          best := hit;
        }
      }
      value := if best.None? then None else Some(best.value.value);
    }

    /** The generation scan of `put_flagged`. */
    method HighestGeneration(id: Bytes) returns (g: nat)
      requires Valid()
      ensures g == MaxGeneration(reps, id, |reps|)
    {
      hide MemDevice.Valid, MemDevice.Disk, Store.Apart, MaxGeneration;
      g := 0;
      NoGeneration(reps, id);
      for i := 0 to |replicas|
        invariant g == MaxGeneration(reps, id, i)
      {
        assert Shows(i);
        NextGeneration(reps, id, i);
        if id in replicas[i].index && replicas[i].index[id].generation > g {
          g := replicas[i].index[id].generation;
        }
      }
    }

    /** `put` on replica `i`; the others are left alone. */
    method PutOn(i: nat, key: Bytes, value: Bytes, generation: nat, userFlags: nat) returns (r: Outcome)
      requires Valid() && i < |replicas|
      requires |key| + 36 <= blockSize && |key| < U16_LIMIT && |value| < U32_LIMIT
      requires generation < U32_LIMIT && userFlags < U32_LIMIT && InOrder(now.raws[i], blockSize)
      modifies this`now, this`reps, Repr
      ensures Valid()
      ensures var d := Layout.Draft(blockSize, MakeKey(key), generation, value, userFlags);
              var e := InsertEffect(old(now.raws)[i], d, pattern);
              r == e.outcome && WorkedOn(old(now), now, i, e, blockSize, pattern)
    {
      hide Lossy, MemDevice.Holds, Anchored, AfterPut, Room, PutSteps, InsertEffect, Rewrite, Views;
      assert Shows(i);
      r := replicas[i].Put(key, value, generation, userFlags, pattern);
      Note(i);
      StillShown(i);
    }

    /** Brings the ghost fields up to date after work on replica `i`. */
    ghost method Note(i: nat)
      requires i < |replicas| == |reps| == |now.raws| == |now.logs| && replicas[i].dev.Sized()
      modifies this`now, this`reps
      ensures reps == old(reps)[i := replicas[i].State()]
      ensures now == Snapshot(old(now.raws)[i := replicas[i].Bytewise()], old(now.logs)[i := replicas[i].dev.log],
                              journal.served)
    {
      reps := reps[i := replicas[i].State()];
      now := Snapshot(now.raws[i := replicas[i].Bytewise()], now.logs[i := replicas[i].dev.log], journal.served);
    }

    /** Work on replica `i` does not touch the others. */
    twostate lemma StillShown(i: nat)
      requires old(Valid()) && i < |replicas| && |reps| == |now.raws| == |now.logs| == |replicas|
      requires journal.served == now.served && Shows(i)
      requires forall k | 0 <= k < |reps| && k != i ::
                 && reps[k] == old(reps[k]) && now.raws[k] == old(now.raws[k]) && now.logs[k] == old(now.logs[k])
                 && unchanged(replicas[k], replicas[k].dev, replicas[k].dev.data)
      ensures Valid()
    {
      hide MemDevice.Valid, MemDevice.Disk;
      forall k | 0 <= k < |replicas| ensures Owned(k) && Shows(k) {
        assert old(Shows(k));
      }
    }

    /**
     * `put_flagged`: the same generation, one above the highest, goes to every replica in turn. The second
     * clause holds on any bytes and any indexes; the third says what it amounts to on anchored replicas.
     */
    method PutFlagged(key: Bytes, value: Bytes, userFlags: nat) returns (r: Outcome)
      requires Valid() && blockSize >= 36 && Admissible(blockSize, reps, Op.Put(MakeKey(key), value, userFlags))
      modifies this`now, this`reps, Repr
      ensures Valid() && AllInOrder(old(now.raws), blockSize)
      ensures var job := JobOf(blockSize, old(reps), Op.Put(MakeKey(key), value, userFlags));
              if |key| > blockSize - 36 then r == KeyTooLong && now == old(now) && reps == old(reps)
              else && Doable(job, blockSize)
                   && Fanned(old(now), now, job, blockSize, pattern)
                   && r == Report(old(now.raws), job, blockSize, pattern)
                   && exists n: nat :: PutStops(old(now), now, job.d, pattern, r, n)
      ensures AllAnchored(old(reps)) ==>
                var op := Op.Put(MakeKey(key), value, userFlags);
                && r == Result(blockSize, old(reps), op)
                && reps == After(blockSize, old(reps), op)
                && Performed(old(now), now, blockSize, old(reps), op)
    {
      hide Lossy, Store.Shows, Store.Apart, InOrder, EffectOf, Fanned, Progress, WorkedOn, Report, Admissible;
      hide After, Result, Performed, Reaches, Doable, AllAnchored, PutStops;
      ghost var op, start, before := Op.Put(MakeKey(key), value, userFlags), now, reps;
      Decoded();
      if |key| > blockSize - 36 {
        TooLong(blockSize, reps, op, now);
        return KeyTooLong;
      }
      var g := HighestGeneration(MakeKey(key).id);
      ghost var job := JobOf(blockSize, reps, op);
      InsertDoable(blockSize, reps, key, value, userFlags);
      r := PutAll(key, value, g + 1, userFlags);
      EncodableJob(job, blockSize);
      Decoded();
      if AllAnchored(before) { PutIs(start, now, before, reps, op, blockSize, pattern); }
    }

    /** The loop of `put_flagged` over the replicas. */
    method PutAll(key: Bytes, value: Bytes, generation: nat, userFlags: nat) returns (r: Outcome)
      requires Valid() && blockSize >= 36 && AllInOrder(now.raws, blockSize)
      requires |key| + 36 <= blockSize && |key| < U16_LIMIT && |value| < U32_LIMIT
      requires generation < U32_LIMIT && userFlags < U32_LIMIT
      requires Doable(Insert(Layout.Draft(blockSize, MakeKey(key), generation, value, userFlags)), blockSize)
      modifies this`now, this`reps, Repr
      ensures Valid()
      ensures var job := Insert(Layout.Draft(blockSize, MakeKey(key), generation, value, userFlags));
              && Fanned(old(now), now, job, blockSize, pattern)
              && r == Report(old(now.raws), job, blockSize, pattern)
              && exists n: nat :: PutStops(old(now), now, job.d, pattern, r, n)
    {
      hide Lossy, Store.Shows, Store.Apart, InOrder, EffectOf, Fanned, Progress, WorkedOn, Report, Reaches;
      hide InsertEffect, Doable, PutStops;
      ghost var start, job := now, Insert(Layout.Draft(blockSize, MakeKey(key), generation, value, userFlags));
      EncodableJob(job, blockSize);
      ProgressStarts(now, job, blockSize, pattern);
      for i := 0 to |replicas|
        invariant Valid() && Progress(start, now, job, blockSize, pattern, i)
        invariant Reaches(start.raws, job, blockSize, pattern, i)
      {
        Untouched(start, now, job, blockSize, pattern, i);
        ghost var s := now;
        r := PutOn(i, key, value, generation, userFlags);
        ProgressStep(start, s, now, job, blockSize, pattern, i);
        if r != Ok {
          StopsAt(start, now, job, blockSize, pattern, i);
          PutMeans(start, now, job.d, pattern);
          return r;
        }
        ReachesNext(start.raws, job, blockSize, pattern, i);
      }
      EndsWell(start, now, job, blockSize, pattern);
      PutMeans(start, now, job.d, pattern);
      return Ok;
    }

    /** `delete` on replica `i`; the others are left alone. */
    method RemoveOn(i: nat, id: Bytes) returns (r: Outcome)
      requires Valid() && blockSize >= 36 && i < |replicas| && InOrder(now.raws[i], blockSize)
      modifies this`now, this`reps, Repr
      ensures Valid()
      ensures var e := EraseEffect(old(now.raws)[i], id, blockSize, pattern);
              r == e.outcome && WorkedOn(old(now), now, i, e, blockSize, pattern)
    {
      hide MemDevice.Holds, Anchored, AfterDelete, DeleteSteps, EraseEffect, Rewrite, Views;
      assert Shows(i);
      r := replicas[i].Remove(id, pattern);
      Note(i);
      StillShown(i);
    }

    /** `delete`: every replica that has the key erases it; the error is for a key that none has. */
    method Delete(key: Bytes) returns (r: Outcome)
      requires Valid() && blockSize >= 36
      modifies this`now, this`reps, Repr
      ensures Valid() && AllInOrder(old(now.raws), blockSize)
      ensures var job := Erase(MakeKey(key).id);
              Fanned(old(now), now, job, blockSize, pattern) && r == Report(old(now.raws), job, blockSize, pattern)
      ensures exists n: nat :: DeleteStops(old(now), now, MakeKey(key).id, blockSize, r, n)
      ensures AllAnchored(old(reps)) ==>
                var op := Op.Delete(MakeKey(key));
                && r == Result(blockSize, old(reps), op)
                && reps == After(blockSize, old(reps), op)
                && Performed(old(now), now, blockSize, old(reps), op)
    {
      hide Lossy, Store.Shows, Store.Apart, InOrder, EffectOf, Fanned, Progress, WorkedOn, Report;
      hide After, Result, Performed, Reaches, EraseEffect, DeleteStops;
      var id := MakeKey(key).id;
      ghost var op, start, before, job := Op.Delete(MakeKey(key)), now, reps, Erase(id);
      Decoded();
      ProgressStarts(now, job, blockSize, pattern);
      var any := false;
      for i := 0 to |replicas|
        invariant Valid() && Progress(start, now, job, blockSize, pattern, i)
        invariant Reaches(start.raws, job, blockSize, pattern, i)
        invariant !any <==> forall k | 0 <= k < i ::
                              EffectOf(start.raws[k], job, blockSize, pattern).outcome == KeyNotFound
      {
        Untouched(start, now, job, blockSize, pattern, i);
        ghost var s := now;
        r := RemoveOn(i, id);
        ProgressStep(start, s, now, job, blockSize, pattern, i);
        if r == CrcMismatch {
          StopsAt(start, now, job, blockSize, pattern, i);
          DeleteMeans(start, now, id, blockSize, pattern);
          Decoded();
          if AllAnchored(before) { DeleteIs(start, now, before, reps, op, blockSize, pattern); }
          return;
        }
        ReachesNext(start.raws, job, blockSize, pattern, i);
        any := any || r == Ok;
      }
      EndsWell(start, now, job, blockSize, pattern);
      DeleteMeans(start, now, id, blockSize, pattern);
      Decoded();
      if AllAnchored(before) { DeleteIs(start, now, before, reps, op, blockSize, pattern); }
      return if any then Ok else KeyNotFound;
    }

    method RecoverOn(i: nat)
      requires Valid() && blockSize >= 36 && i < |replicas| && InOrder(now.raws[i], blockSize)
      modifies this`now, this`reps, Repr
      ensures Valid() && |reps| == |old(reps)| && forall k | 0 <= k < |reps| && k != i :: reps[k] == old(reps)[k]
      ensures reps[i] == Rep(Recovered(old(reps)[i].disk), old(reps)[i].index)
      ensures WorkedOn(old(now), now, i, EffectOf(old(now.raws)[i], Sweep, blockSize, pattern), blockSize, pattern)
    {
      hide MemDevice.Holds, InBest, Recovered, Crash.RecoverSteps, Rewrite, Views;
      assert Shows(i);
      replicas[i].Recover(pattern);
      Note(i);
      StillShown(i);
    }

    method BuildIndexOn(i: nat)
      requires Valid() && blockSize >= 36 && i < |replicas|
      modifies this`now, this`reps, Repr
      ensures Valid() && |reps| == |old(reps)| && forall k | 0 <= k < |reps| && k != i :: reps[k] == old(reps)[k]
      ensures reps[i] == Rep(old(reps)[i].disk, IndexOf(Meaning(old(reps)[i].disk)))
      ensures now == old(now).(raws := old(now.raws)[i := RawRep(old(now.raws)[i].blocks, reps[i].index)])
    {
      hide MemDevice.Holds, Meaning, IndexOf;
      assert Shows(i);
      replicas[i].BuildIndex();
      Note(i);
      StillShown(i);
      assert now.logs == old(now.logs);
    }

    /** `recover`: every replica by itself, in turn; the indexes are left as they are. */
    method Recover()
      requires Valid() && blockSize >= 36
      modifies this`now, this`reps, Repr
      ensures Valid() && |reps| == |old(reps)| && AllInOrder(old(now.raws), blockSize)
      ensures forall k | 0 <= k < |reps| :: reps[k] == Rep(Recovered(old(reps)[k].disk), old(reps)[k].index)
      ensures Fanned(old(now), now, Sweep, blockSize, pattern)
    {
      hide Store.Shows, Store.Apart, Recovered, InOrder, EffectOf, Fanned, Progress, WorkedOn, Reaches;
      ghost var start := now;
      Decoded();
      ProgressStarts(now, Sweep, blockSize, pattern);
      for i := 0 to |replicas|
        invariant Valid() && |reps| == |old(reps)|
        invariant forall k | i <= k < |reps| :: reps[k] == old(reps)[k]
        invariant forall k | 0 <= k < i :: reps[k] == Rep(Recovered(old(reps)[k].disk), old(reps)[k].index)
        invariant Progress(start, now, Sweep, blockSize, pattern, i)
        invariant Reaches(start.raws, Sweep, blockSize, pattern, i)
      {
        Untouched(start, now, Sweep, blockSize, pattern, i);
        ghost var s := now;
        RecoverOn(i);
        ProgressStep(start, s, now, Sweep, blockSize, pattern, i);
        SweepGoesOn(start.raws, blockSize, pattern, i);
      }
      EndsWell(start, now, Sweep, blockSize, pattern);
    }

    /** `build_index`: every replica's index becomes what its disk means; no device is written. */
    method BuildIndex()
      requires Valid() && blockSize >= 36
      modifies this`now, this`reps, Repr
      ensures Valid() && |reps| == |old(reps)|
      ensures forall k | 0 <= k < |reps| :: reps[k] == Rep(old(reps)[k].disk, IndexOf(Meaning(old(reps)[k].disk)))
      ensures now.logs == old(now.logs) && now.served == old(now.served)
      ensures forall k | 0 <= k < |reps| :: now.raws[k].blocks == old(now.raws)[k].blocks
    {
      hide Store.Shows, Store.Apart, Meaning, IndexOf;
      for i := 0 to |replicas|
        invariant Valid() && |reps| == |old(reps)|
        invariant forall k | i <= k < |reps| :: reps[k] == old(reps)[k]
        invariant forall k | 0 <= k < i :: reps[k] == Rep(old(reps)[k].disk, IndexOf(Meaning(old(reps)[k].disk)))
        invariant now.logs == old(now.logs) && now.served == old(now.served)
        invariant forall k | 0 <= k < |reps| :: now.raws[k].blocks == old(now.raws)[k].blocks
      {
        BuildIndexOn(i);
      }
    }

    /** The documented start after an unclean shutdown: the store is ready and means what it meant. */
    method Reopen()
      requires Valid() && blockSize >= 36 && forall k | 0 <= k < |reps| :: Opened(reps[k].disk)
      modifies this`now, this`reps, Repr
      ensures Valid() && |reps| == |old(reps)| && AllReady(reps)
      ensures forall k | 0 <= k < |reps| :: Meaning(reps[k].disk) == Meaning(old(reps)[k].disk)
      ensures forall k | 0 <= k < |reps| :: reps[k] == Runs.Rebuilt(old(reps)[k].disk)
    {
      hide Store.Shows, Store.Apart, Meaning, IndexOf, Recovered, Opened, Garbage, InBest, Apply, Crash.RecoverSteps;
      ghost var before := reps;
      Recover();
      BuildIndex();
      forall k | 0 <= k < |reps|
        ensures Ready(reps[k]) && Meaning(reps[k].disk) == Meaning(before[k].disk)
        ensures reps[k] == Runs.Rebuilt(before[k].disk)
      {
        RecoveryCorrect(before[k].disk);
        Crash.RecoverApplied(before[k].disk);
      }
    }
  }

  // ---- open ----

  /** Device `i` has a sound header and the geometry of the first device. */
  ghost predicate OpensAt(devs: seq<MemDevice>, i: nat)
    requires i < |devs|
    reads devs
  {
    && Formatting.SoundHeader(devs[i].blockSize, devs[i].blocks)
    && devs[i].blockSize == devs[0].blockSize && devs[i].blockCount == devs[0].blockCount
  }

  /** Device `i` is the first that `open` does not take: its header is not sound, or its geometry is another. */
  ghost predicate RefusedAt(devs: seq<MemDevice>, i: nat)
    reads devs
  {
    && i < |devs| && (forall k | 0 <= k < i :: OpensAt(devs, k))
    && (|| !Formatting.SoundHeader(devs[i].blockSize, devs[i].blocks)
        || devs[i].blockSize != devs[0].blockSize || devs[i].blockCount != devs[0].blockCount)
  }

  /** The error for a device that is not taken: that of its header, or of its geometry if the header is sound. */
  ghost predicate RefusedWith(dev: MemDevice, e: Formatting.Error)
    reads dev
  {
    && dev.Sized()
    && if Formatting.SoundHeader(dev.blockSize, dev.blocks) then e == Formatting.ReplicaMismatch
       else Formatting.HeaderOf(dev.blockSize, dev.blocks) == Formatting.Refused(e)
  }

  /** Fresh replicas with empty indexes over the first devices. */
  ghost predicate Fresh(devs: seq<MemDevice>, replicas: seq<ReplicaEngine.Replica>, made: set<object>)
    reads replicas
  {
    && |replicas| <= |devs|
    && (forall i | 0 <= i < |replicas| ::
          replicas[i].dev == devs[i] && replicas[i].index == map[] && replicas[i] in made)
    && (forall i, j | 0 <= i < j < |replicas| :: replicas[i] != replicas[j])
  }

  /** The checks of `open` on device `i`. */
  method CheckDevice(devs: seq<MemDevice>, i: nat) returns (e: Option<Formatting.Error>)
    requires i < |devs| && devs[i].Valid()
    ensures e.None? <==> OpensAt(devs, i)
    ensures e.Some? ==> RefusedWith(devs[i], e.value)
    ensures e.None? ==> Opened(devs[i].Disk())
  {
    hide MemDevice.Holds, Formatting.HeaderOf, Formatting.SoundHeader;
    var o := Formatting.OpenHeader(devs[i]);
    if o.Refused? { return Some(o.error); }
    if devs[i].blockSize != devs[0].blockSize || devs[i].blockCount != devs[0].blockCount {
      return Some(Formatting.ReplicaMismatch);
    }
    return None;
  }

  /** `open`: a store with empty indexes over devices of one geometry whose headers are sound, or the first error. */
  method Open(devs: seq<MemDevice>, pattern: Byte, ghost journal: Journal, ghost repr: set<object>)
    returns (e: Option<Formatting.Error>, store: Store?)
    requires Formatting.Separate(devs, repr) && journal in repr && (pattern == 0x00 || pattern == 0xFF)
    requires forall i | 0 <= i < |devs| :: devs[i].Valid() && devs[i].id == i && devs[i].journal == journal
    ensures forall i | 0 <= i < |devs| :: devs[i].Valid() && devs[i].Sized()
    ensures devs == [] ==> e == Some(Formatting.NoReplicas)
    ensures devs != [] && e.None? ==>
              forall i | 0 <= i < |devs| ::
                && Formatting.SoundHeader(devs[i].blockSize, devs[i].blocks)
                && devs[i].blockSize == devs[0].blockSize && devs[i].blockCount == devs[0].blockCount
    ensures devs != [] && e.Some? ==>
              exists i: nat :: RefusedAt(devs, i) && RefusedWith(devs[i], e.value)
    ensures e.None? <==> store != null
    ensures store != null ==>
              && fresh(store) && store.Valid() && fresh(store.Repr - repr)
              && store.pattern == pattern && store.blockSize == devs[0].blockSize
              && |store.replicas| == |store.reps| == |devs|
              && forall i | 0 <= i < |devs| ::
                   && store.replicas[i].dev == devs[i]
                   && store.reps[i] == Rep(devs[i].Disk(), map[]) && Opened(store.reps[i].disk)
  {
    hide MemDevice.Holds, Formatting.HeaderOf, Formatting.Separate, Formatting.SoundHeader, Views, Opened, Store.Valid;
    if devs == [] { return Some(Formatting.NoReplicas), null; }
    var replicas: seq<ReplicaEngine.Replica> := [];
    ghost var made: set<object> := {};
    for i := 0 to |devs|
      invariant |replicas| == i && Fresh(devs, replicas, made) && fresh(made)
      invariant forall k | 0 <= k < i :: OpensAt(devs, k) && Opened(devs[k].Disk())
    {
      e := CheckDevice(devs, i);
      if e.Some? {
        assert RefusedAt(devs, i);
        return e, null;
      }
      var a := new ReplicaEngine.Replica(devs[i]);
      replicas := replicas + [a];
      made := made + {a};
    }
    store := Assemble(devs, replicas, pattern, journal, repr, made);
    return None, store;
  }

  /** The store over freshly made replicas. */
  method Assemble(devs: seq<MemDevice>, replicas: seq<ReplicaEngine.Replica>, pattern: Byte,
                  ghost journal: Journal, ghost repr: set<object>, ghost made: set<object>)
    returns (store: Store)
    requires |devs| >= 1 && |replicas| == |devs| && Fresh(devs, replicas, made) && (pattern == 0x00 || pattern == 0xFF)
    requires Formatting.Separate(devs, repr) && journal in repr
    requires forall i | 0 <= i < |devs| ::
               && devs[i].Valid() && devs[i].id == i && devs[i].journal == journal
               && devs[i].blockSize == devs[0].blockSize
    ensures forall i | 0 <= i < |devs| :: devs[i].Valid() && devs[i].Sized()
    ensures fresh(store) && store.Valid() && store.Repr == repr + made
    ensures store.pattern == pattern && store.blockSize == devs[0].blockSize && store.replicas == replicas
    ensures |store.reps| == |devs| && forall i | 0 <= i < |devs| :: store.reps[i] == Rep(devs[i].Disk(), map[])
  {
    hide MemDevice.Holds, Views;
    ghost var reps: Reps :=
      seq(|devs|, i requires 0 <= i < |devs| && devs[i].Sized() reads devs => Rep(devs[i].Disk(), map[]));
    ghost var raws := seq(|devs|, i requires 0 <= i < |devs| reads devs => RawRep(devs[i].blocks, map[]));
    ghost var logs := seq(|devs|, i requires 0 <= i < |devs| reads devs => devs[i].log);
    store := new Store(replicas, pattern, devs[0].blockSize, Snapshot(raws, logs, journal.served), reps, journal,
                       repr + made);
  }

  // ---- what the contracts say ----

  /** Every device has made the calls of the decoded model, one device after the other. */
  ghost predicate Performed(s: Snapshot, s': Snapshot, blockSize: nat, reps: Reps, op: Op)
    requires Admissible(blockSize, reps, op) && |s.logs| == |reps|
  {
    && |s'.logs| == |reps|
    && (forall i | 0 <= i < |reps| :: s'.logs[i] == s.logs[i] + Runs.StepsOn(blockSize, reps, op, i))
    && Ascends(s.served, s'.served)
  }

  lemma TooLong(blockSize: nat, reps: Reps, op: Op, s: Snapshot)
    requires op.Put? && Admissible(blockSize, reps, op) && |op.key.raw| > blockSize - 36 && |s.logs| == |reps|
    ensures Result(blockSize, reps, op) == KeyTooLong && After(blockSize, reps, op) == reps
    ensures Performed(s, s, blockSize, reps, op)
  {}

  lemma InsertDoable(blockSize: nat, reps: Reps, key: Bytes, value: Bytes, userFlags: nat)
    requires Admissible(blockSize, reps, Op.Put(MakeKey(key), value, userFlags)) && |key| + 36 <= blockSize
    ensures var op := Op.Put(MakeKey(key), value, userFlags);
            && Doable(JobOf(blockSize, reps, op), blockSize)
            && JobOf(blockSize, reps, op)
               == Insert(Layout.Draft(blockSize, MakeKey(key), MaxGeneration(reps, MakeKey(key).id, |reps|) + 1,
                                      value, userFlags))
    ensures |key| < U16_LIMIT && |value| < U32_LIMIT && userFlags < U32_LIMIT
    ensures MaxGeneration(reps, MakeKey(key).id, |reps|) + 1 < U32_LIMIT
  {
    hide Lossy;
  }

  lemma EncodableJob(job: Job, blockSize: nat)
    requires job.Insert? && Doable(job, blockSize)
    ensures Encodable(job.d) && job.d.Fits() && job.d.blockSize == blockSize
  {
    hide Lossy;
  }

  /** The replica whose turn it is has not been touched. */
  lemma Untouched(s: Snapshot, s': Snapshot, job: Job, blockSize: nat, pattern: Byte, i: nat)
    requires AllInOrder(s.raws, blockSize) && Doable(job, blockSize) && i < |s.raws|
    requires Progress(s, s', job, blockSize, pattern, i)
    ensures i < |s'.raws| && s'.raws[i] == s.raws[i] && InOrder(s.raws[i], blockSize)
    ensures EffectOf(s.raws[i], job, blockSize, pattern) ==
            match job
            case Insert(d) => InsertEffect(s.raws[i], d, pattern)
            case Erase(id) => EraseEffect(s.raws[i], id, blockSize, pattern)
            case Sweep => Effect(Crash.RecoverSteps(Views(s.raws[i].blocks)), Ok, s.raws[i].index)
  {
    hide InOrder, InsertEffect, EraseEffect, Rewrite;
  }

  lemma ReachesNext(raws: seq<RawRep>, job: Job, blockSize: nat, pattern: Byte, i: nat)
    requires AllInOrder(raws, blockSize) && Doable(job, blockSize) && i < |raws|
    requires Reaches(raws, job, blockSize, pattern, i) && !Stops(EffectOf(raws[i], job, blockSize, pattern))
    ensures Reaches(raws, job, blockSize, pattern, i + 1)
  {
    hide InOrder, EffectOf;
  }

  lemma SweepGoesOn(raws: seq<RawRep>, blockSize: nat, pattern: Byte, i: nat)
    requires AllInOrder(raws, blockSize) && i < |raws| && Reaches(raws, Sweep, blockSize, pattern, i)
    ensures Reaches(raws, Sweep, blockSize, pattern, i + 1)
  {
    hide InOrder;
  }

  /** The loop over the replicas is left at replica `i`, which fails. */
  lemma StopsAt(s: Snapshot, s': Snapshot, job: Job, blockSize: nat, pattern: Byte, i: nat)
    requires AllInOrder(s.raws, blockSize) && Doable(job, blockSize) && i < |s.raws|
    requires Progress(s, s', job, blockSize, pattern, i + 1) && Reaches(s.raws, job, blockSize, pattern, i)
    requires Stops(EffectOf(s.raws[i], job, blockSize, pattern))
    ensures Fanned(s, s', job, blockSize, pattern)
    ensures Report(s.raws, job, blockSize, pattern) == EffectOf(s.raws[i], job, blockSize, pattern).outcome
  {
    hide InOrder, EffectOf, Progress, Fanned, Report, Reaches;
    FanoutEnds(s, s', job, blockSize, pattern, i + 1);
  }

  /** No replica fails. */
  lemma EndsWell(s: Snapshot, s': Snapshot, job: Job, blockSize: nat, pattern: Byte)
    requires AllInOrder(s.raws, blockSize) && Doable(job, blockSize)
    requires Progress(s, s', job, blockSize, pattern, |s.raws|) && Reaches(s.raws, job, blockSize, pattern, |s.raws|)
    ensures Fanned(s, s', job, blockSize, pattern)
    ensures Report(s.raws, job, blockSize, pattern) ==
            if job.Erase? && forall k | 0 <= k < |s.raws| ::
                               EffectOf(s.raws[k], job, blockSize, pattern).outcome == KeyNotFound
            then KeyNotFound else Ok
  {
    hide InOrder, EffectOf, Progress, Fanned;
    FanoutEnds(s, s', job, blockSize, pattern, |s.raws|);
  }

  /** On anchored replicas, what the fan-out leaves is what the decoded model says. */
  lemma PutIs(s: Snapshot, s': Snapshot, before: Reps, after: Reps, op: Op, blockSize: nat, pattern: Byte)
    requires op.Put? && |op.key.raw| + 36 <= blockSize && (pattern == 0x00 || pattern == 0xFF)
    requires AllInOrder(s.raws, blockSize) && before == LookAll(s.raws, blockSize) && AllAnchored(before)
    requires AllInOrder(s'.raws, blockSize) && after == LookAll(s'.raws, blockSize)
    requires Admissible(blockSize, before, op) && Doable(JobOf(blockSize, before, op), blockSize)
    requires Fanned(s, s', JobOf(blockSize, before, op), blockSize, pattern)
    ensures Report(s.raws, JobOf(blockSize, before, op), blockSize, pattern) == Result(blockSize, before, op)
    ensures after == After(blockSize, before, op) && Performed(s, s', blockSize, before, op)
  {
    hide InOrder, Anchored, Admissible, Doable, EffectOn, Runs.StepsOn, AfterOn, Report, Result, Views, Rewrite, JobOf;
    var job := JobOf(blockSize, before, op);
    PutFollows(s.raws, before, op, blockSize, pattern);
    forall i | 0 <= i < |before|
      ensures after[i] == AfterOn(blockSize, before, op, i)
      ensures s'.logs[i] == s.logs[i] + Runs.StepsOn(blockSize, before, op, i)
    {
      assert Follows(s.raws, before, op, blockSize, pattern, i);
      assert s'.raws[i] == Worked(s.raws[i], EffectOn(s.raws, job, blockSize, pattern, i), blockSize, pattern);
    }
  }

  lemma DeleteIs(s: Snapshot, s': Snapshot, before: Reps, after: Reps, op: Op, blockSize: nat, pattern: Byte)
    requires op.Delete? && (pattern == 0x00 || pattern == 0xFF)
    requires AllInOrder(s.raws, blockSize) && before == LookAll(s.raws, blockSize) && AllAnchored(before)
    requires AllInOrder(s'.raws, blockSize) && after == LookAll(s'.raws, blockSize)
    requires Admissible(blockSize, before, op) && Fanned(s, s', JobOf(blockSize, before, op), blockSize, pattern)
    ensures Report(s.raws, JobOf(blockSize, before, op), blockSize, pattern) == Result(blockSize, before, op)
    ensures after == After(blockSize, before, op) && Performed(s, s', blockSize, before, op)
  {
    hide InOrder, Anchored, Admissible, EffectOn, Runs.StepsOn, AfterOn, Report, Result, Views, Rewrite;
    var job := JobOf(blockSize, before, op);
    DeleteFollows(s.raws, before, op, blockSize, pattern);
    forall i | 0 <= i < |before|
      ensures after[i] == AfterOn(blockSize, before, op, i)
      ensures s'.logs[i] == s.logs[i] + Runs.StepsOn(blockSize, before, op, i)
    {
      assert Follows(s.raws, before, op, blockSize, pattern, i);
      assert s'.raws[i] == Worked(s.raws[i], EffectOn(s.raws, job, blockSize, pattern, i), blockSize, pattern);
    }
  }

  lemma NoGeneration(reps: Reps, id: Bytes)
    ensures MaxGeneration(reps, id, 0) == 0
  {}

  lemma NextGeneration(reps: Reps, id: Bytes, i: nat)
    requires i < |reps|
    ensures var g := MaxGeneration(reps, id, i);
            MaxGeneration(reps, id, i + 1) ==
            if id in reps[i].index && reps[i].index[id].generation > g then reps[i].index[id].generation else g
  {}
}
