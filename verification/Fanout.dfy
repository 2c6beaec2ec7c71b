/** How an operation of the store goes over its replicas: in order, up to the first that fails. */
module Fanout {
  import opened Format
  import opened Engine
  import opened Cluster
  import Runs
  import Device
  import opened Raw
  import opened AnyBytes
  import Crc
  import Utf8
  import opened Layout

  /** What a store is made of: the bytes and indexes, the calls on each device, and the order of all calls. */
  datatype Snapshot = Snapshot(raws: seq<RawRep>, logs: seq<seq<Step>>, served: seq<nat>)

  ghost predicate AllInOrder(raws: seq<RawRep>, blockSize: nat) {
    forall i | 0 <= i < |raws| :: InOrder(raws[i], blockSize)
  }

  /** The state of the replicas as far as it decodes. */
  ghost function LookAll(raws: seq<RawRep>, blockSize: nat): (reps: Reps)
    requires AllInOrder(raws, blockSize)
    ensures |reps| == |raws| && forall i | 0 <= i < |raws| :: reps[i] == Look(raws[i])
  {
    seq(|raws|, i requires 0 <= i < |raws| => Look(raws[i]))
  }

  /** The error that ends a fan-out early. */
  predicate Stops(e: Effect) { e.outcome == StorageFull || e.outcome == CrcMismatch }

  /** No replica before `i` fails. */
  ghost predicate Reaches(raws: seq<RawRep>, job: Job, blockSize: nat, pattern: Byte, i: nat)
    requires AllInOrder(raws, blockSize) && Doable(job, blockSize) && i <= |raws|
  {
    forall k | 0 <= k < i :: !Stops(EffectOf(raws[k], job, blockSize, pattern))
  }

  /** What the job does on replica `i`: nothing if the fan-out does not get that far. */
  ghost function EffectOn(raws: seq<RawRep>, job: Job, blockSize: nat, pattern: Byte, i: nat): Effect
    requires AllInOrder(raws, blockSize) && Doable(job, blockSize) && i < |raws|
  {
    if Reaches(raws, job, blockSize, pattern, i) then EffectOf(raws[i], job, blockSize, pattern)
    else Effect([], Ok, raws[i].index)
  }

  /** The first replica that fails, or the number of replicas. */
  ghost function FirstStop(raws: seq<RawRep>, job: Job, blockSize: nat, pattern: Byte, i: nat): (j: nat)
    requires AllInOrder(raws, blockSize) && Doable(job, blockSize) && i <= |raws|
    requires Reaches(raws, job, blockSize, pattern, i)
    ensures i <= j <= |raws| && Reaches(raws, job, blockSize, pattern, j)
    ensures j < |raws| ==> Stops(EffectOf(raws[j], job, blockSize, pattern))
    decreases |raws| - i
  {
    if i < |raws| && !Stops(EffectOf(raws[i], job, blockSize, pattern))
    then FirstStop(raws, job, blockSize, pattern, i + 1) else i
  }

  /** What the store reports: the first failure, and otherwise an error only for a key that no replica had. */
  ghost function Report(raws: seq<RawRep>, job: Job, blockSize: nat, pattern: Byte): Outcome
    requires AllInOrder(raws, blockSize) && Doable(job, blockSize)
  {
    var j := FirstStop(raws, job, blockSize, pattern, 0);
    if j < |raws| then EffectOf(raws[j], job, blockSize, pattern).outcome
    else if job.Erase? && forall i | 0 <= i < |raws| ::
                            EffectOf(raws[i], job, blockSize, pattern).outcome == KeyNotFound
    then KeyNotFound
    else Ok
  }

  /** The calls of `after` beyond those of `before` serve the devices in ascending order. */
  predicate Ascends(before: seq<nat>, after: seq<nat>) {
    && before <= after
    && (forall j, k | |before| <= j < k < |after| :: after[j] <= after[k])
  }

  /** Every replica has done its part of the job, in order. */
  ghost predicate Fanned(s: Snapshot, s': Snapshot, job: Job, blockSize: nat, pattern: Byte)
    requires AllInOrder(s.raws, blockSize) && Doable(job, blockSize)
  {
    && |s'.raws| == |s.raws| == |s.logs| == |s'.logs|
    && (forall i | 0 <= i < |s.raws| ::
          var e := EffectOn(s.raws, job, blockSize, pattern, i);
          s'.raws[i] == Worked(s.raws[i], e, blockSize, pattern) && s'.logs[i] == s.logs[i] + e.steps)
    && Ascends(s.served, s'.served)
  }

  // ---- step by step ----

  /** Replica `i` alone was at work. */
  predicate WorkedOn(s: Snapshot, s': Snapshot, i: nat, e: Effect, blockSize: nat, pattern: Byte) {
    && i < |s.raws| == |s.logs|
    && s'.raws == s.raws[i := RawRep(Rewrite(s.raws[i].blocks, e.steps, blockSize, pattern), e.index)]
    && s'.logs == s.logs[i := s.logs[i] + e.steps]
    && s'.served == s.served + seq(|e.steps|, k => i)
  }

  /** The replicas before `n` have done the whole job, and the others nothing. */
  ghost predicate Progress(s: Snapshot, s': Snapshot, job: Job, blockSize: nat, pattern: Byte, n: nat)
    requires AllInOrder(s.raws, blockSize) && Doable(job, blockSize) && n <= |s.raws|
  {
    && |s'.raws| == |s.raws| == |s.logs| == |s'.logs|
    && (forall i | 0 <= i < n ::
          var e := EffectOf(s.raws[i], job, blockSize, pattern);
          s'.raws[i] == Worked(s.raws[i], e, blockSize, pattern) && s'.logs[i] == s.logs[i] + e.steps)
    && (forall i | n <= i < |s.raws| :: s'.raws[i] == s.raws[i] && s'.logs[i] == s.logs[i])
    && Ascends(s.served, s'.served)
    && (forall j | |s.served| <= j < |s'.served| :: s'.served[j] < n)
  }

  lemma ProgressStarts(s: Snapshot, job: Job, blockSize: nat, pattern: Byte)
    requires AllInOrder(s.raws, blockSize) && Doable(job, blockSize) && |s.logs| == |s.raws|
    ensures Progress(s, s, job, blockSize, pattern, 0) && Reaches(s.raws, job, blockSize, pattern, 0)
  {
    hide InOrder, Doable;
  }

  lemma ProgressStep(s: Snapshot, s1: Snapshot, s2: Snapshot, job: Job, blockSize: nat, pattern: Byte, i: nat)
    requires AllInOrder(s.raws, blockSize) && Doable(job, blockSize) && i < |s.raws|
    requires Progress(s, s1, job, blockSize, pattern, i)
    requires WorkedOn(s1, s2, i, EffectOf(s.raws[i], job, blockSize, pattern), blockSize, pattern)
    ensures Progress(s, s2, job, blockSize, pattern, i + 1)
  {
    hide InOrder, Doable, EffectOf, Rewrite;
  }

  /** The loop over the replicas is left after the first failure, or at the end. */
  lemma FanoutEnds(s: Snapshot, s': Snapshot, job: Job, blockSize: nat, pattern: Byte, n: nat)
    requires AllInOrder(s.raws, blockSize) && Doable(job, blockSize) && n <= |s.raws|
    requires Progress(s, s', job, blockSize, pattern, n)
    requires n > 0 ==> Reaches(s.raws, job, blockSize, pattern, n - 1)
    requires n < |s.raws| ==> n > 0 && Stops(EffectOf(s.raws[n - 1], job, blockSize, pattern))
    ensures Fanned(s, s', job, blockSize, pattern)
    ensures n > 0 && Stops(EffectOf(s.raws[n - 1], job, blockSize, pattern)) ==>
              Report(s.raws, job, blockSize, pattern) == EffectOf(s.raws[n - 1], job, blockSize, pattern).outcome
  {
    hide InOrder, Doable, EffectOf, Rewrite;
    forall i | 0 <= i < |s.raws|
      ensures var e := EffectOn(s.raws, job, blockSize, pattern, i);
              s'.raws[i] == Worked(s.raws[i], e, blockSize, pattern) && s'.logs[i] == s.logs[i] + e.steps
    {
      RewriteNothing(s.raws[i].blocks, blockSize, pattern);
    }
  }

  // ---- on any bytes, without the definitions above ----

  /** The index names a block for the key whose checksum fails. */
  predicate Broken(raw: RawRep, id: Bytes, blockSize: nat)
    requires InOrder(raw, blockSize)
  {
    id in raw.index && !Crc.CrcOk(raw.blocks[raw.index[id].block])
  }

  /** Replica `i` has neither worked nor changed. */
  predicate LeftAlone(s: Snapshot, s': Snapshot, i: nat) {
    && i < |s.raws| == |s'.raws| == |s.logs| == |s'.logs|
    && s'.raws[i] == s.raws[i] && s'.logs[i] == s.logs[i]
  }

  /**
   * `delete` stops at replica `n`, the first whose record of the key is broken, or goes through all of them. The
   * broken replica and the later ones keep everything; those before it have lost the key.
   */
  ghost predicate DeleteStops(s: Snapshot, s': Snapshot, id: Bytes, blockSize: nat, r: Outcome, n: nat)
    requires AllInOrder(s.raws, blockSize)
  {
    && n <= |s.raws| == |s'.raws|
    && (forall k | 0 <= k < n :: !Broken(s.raws[k], id, blockSize) && id !in s'.raws[k].index)
    && (forall k | n <= k < |s.raws| :: LeftAlone(s, s', k))
    && if n < |s.raws| then Broken(s.raws[n], id, blockSize) && r == CrcMismatch
       else r == if exists k :: 0 <= k < |s.raws| && id in s.raws[k].index then Ok else KeyNotFound
  }

  lemma EraseMeans(raw: RawRep, id: Bytes, blockSize: nat, pattern: Byte)
    requires InOrder(raw, blockSize)
    ensures var e := EraseEffect(raw, id, blockSize, pattern);
            && e.outcome == (if Broken(raw, id, blockSize) then CrcMismatch
                             else if id in raw.index then Ok else KeyNotFound)
            && (Broken(raw, id, blockSize) ==> Worked(raw, e, blockSize, pattern) == raw && e.steps == [])
            && (!Broken(raw, id, blockSize) ==> id !in Worked(raw, e, blockSize, pattern).index)
  {
    hide Crc.CrcOk, LooseErase;
    RewriteNothing(raw.blocks, blockSize, pattern);
  }

  lemma DeletePart(s: Snapshot, s': Snapshot, id: Bytes, blockSize: nat, pattern: Byte, n: nat, k: nat)
    requires AllInOrder(s.raws, blockSize) && Fanned(s, s', Erase(id), blockSize, pattern) && k < |s.raws|
    requires n == FirstStop(s.raws, Erase(id), blockSize, pattern, 0)
    ensures if k < n then !Broken(s.raws[k], id, blockSize) && id !in s'.raws[k].index else LeftAlone(s, s', k)
    ensures k == n ==> Broken(s.raws[k], id, blockSize)
  {
    hide InOrder, Broken, EraseEffect, Worked;
    var job := Erase(id);
    assert k > n ==> Stops(EffectOf(s.raws[n], job, blockSize, pattern));
    assert Reaches(s.raws, job, blockSize, pattern, k) <==> k <= n;
    IdleLooks(s.raws[k], Effect([], Ok, s.raws[k].index), blockSize, pattern);
    EraseMeans(s.raws[k], id, blockSize, pattern);
    assert s.logs[k] + [] == s.logs[k];
  }

  lemma DeleteMeans(s: Snapshot, s': Snapshot, id: Bytes, blockSize: nat, pattern: Byte)
    requires AllInOrder(s.raws, blockSize) && Fanned(s, s', Erase(id), blockSize, pattern)
    ensures exists n: nat :: DeleteStops(s, s', id, blockSize, Report(s.raws, Erase(id), blockSize, pattern), n)
  {
    hide InOrder, Broken, EraseEffect, LeftAlone;
    var job := Erase(id);
    var n := FirstStop(s.raws, job, blockSize, pattern, 0);
    forall k | 0 <= k < |s.raws|
      ensures if k < n then !Broken(s.raws[k], id, blockSize) && id !in s'.raws[k].index else LeftAlone(s, s', k)
      ensures k == n ==> Broken(s.raws[k], id, blockSize)
      ensures var e := EffectOf(s.raws[k], job, blockSize, pattern);
              e.outcome == (if Broken(s.raws[k], id, blockSize) then CrcMismatch
                            else if id in s.raws[k].index then Ok else KeyNotFound)
    {
      DeletePart(s, s', id, blockSize, pattern, n, k);
      EraseMeans(s.raws[k], id, blockSize, pattern);
    }
    assert DeleteStops(s, s', id, blockSize, Report(s.raws, job, blockSize, pattern), n);
  }

  /** A replica that refuses the put: no room, or a broken old record. */
  ghost predicate Refuses(raw: RawRep, d: Draft, pattern: Byte)
    requires InOrder(raw, d.blockSize) && d.Fits()
  {
    Room(Device.Views(raw.blocks), d) ==> PutBroken(raw, d, pattern)
  }

  /** The part of replica `k` when the fan-out stops at `n`. */
  ghost predicate PartDone(s: Snapshot, s': Snapshot, d: Draft, pattern: Byte, n: nat, k: nat)
    requires AllInOrder(s.raws, d.blockSize) && d.Fits() && k < |s.raws| == |s'.raws|
  {
    if k > n then LeftAlone(s, s', k)
    else if k < n then !Refuses(s.raws[k], d, pattern) && Lands(s.raws[k], d, pattern, s'.raws[k])
    else && Refuses(s.raws[n], d, pattern)
         && if Room(Device.Views(s.raws[n].blocks), d) then Lands(s.raws[n], d, pattern, s'.raws[n])
            else LeftAlone(s, s', n)
  }

  /**
   * `put` stops at replica `n`, the first that refuses it, or goes through all of them; the later ones are left
   * alone. Every replica before it, and the refusing one unless it had no room, has the new record in its index.
   */
  ghost predicate PutStops(s: Snapshot, s': Snapshot, d: Draft, pattern: Byte, r: Outcome, n: nat)
    requires AllInOrder(s.raws, d.blockSize) && d.Fits()
  {
    && n <= |s.raws| == |s'.raws|
    && (forall k | 0 <= k < |s.raws| :: PartDone(s, s', d, pattern, n, k))
    && r == if n == |s.raws| then Ok
            else if Room(Device.Views(s.raws[n].blocks), d) then CrcMismatch else StorageFull
  }

  lemma PutOneMeans(raw: RawRep, d: Draft, pattern: Byte)
    requires InOrder(raw, d.blockSize) && Encodable(d) && (pattern == 0x00 || pattern == 0xFF)
    ensures var e := InsertEffect(raw, d, pattern);
            && (Stops(e) <==> Refuses(raw, d, pattern))
            && (if Room(Device.Views(raw.blocks), d)
                then && e.outcome == (if PutBroken(raw, d, pattern) then CrcMismatch else Ok)
                     && Lands(raw, d, pattern, Worked(raw, e, d.blockSize, pattern))
                else && e.outcome == StorageFull && e.steps == []
                     && Worked(raw, e, d.blockSize, pattern) == raw)
  {
    hide Room, PutBroken, Lands, Rewrite, Utf8.Lossy, Device.Views, InsertEffect;
    InsertMeans(raw, d, pattern);
    RewriteNothing(raw.blocks, d.blockSize, pattern);
  }

  /** The fan-out stops at the first replica that refuses, with its error. */
  lemma FirstRefuses(raws: seq<RawRep>, d: Draft, pattern: Byte, n: nat)
    requires AllInOrder(raws, d.blockSize) && Encodable(d) && (pattern == 0x00 || pattern == 0xFF)
    requires n == FirstStop(raws, Insert(d), d.blockSize, pattern, 0)
    ensures forall k | 0 <= k < n :: !Refuses(raws[k], d, pattern)
    ensures n < |raws| ==> Refuses(raws[n], d, pattern)
    ensures Report(raws, Insert(d), d.blockSize, pattern) ==
            if n == |raws| then Ok
            else if Room(Device.Views(raws[n].blocks), d) then CrcMismatch else StorageFull
  {
    hide InOrder, Room, Refuses, PutBroken, Lands, InsertEffect, Worked, Utf8.Lossy, Device.Views;
    forall k | 0 <= k < |raws|
      ensures Stops(EffectOf(raws[k], Insert(d), d.blockSize, pattern)) <==> Refuses(raws[k], d, pattern)
    {
      PutOneMeans(raws[k], d, pattern);
    }
    if n < |raws| { PutOneMeans(raws[n], d, pattern); }
  }

  /** What the fan-out does on one replica. */
  lemma PutPart(s: Snapshot, s': Snapshot, d: Draft, pattern: Byte, n: nat, k: nat)
    requires AllInOrder(s.raws, d.blockSize) && Encodable(d) && (pattern == 0x00 || pattern == 0xFF)
    requires Fanned(s, s', Insert(d), d.blockSize, pattern) && k < |s.raws|
    requires n == FirstStop(s.raws, Insert(d), d.blockSize, pattern, 0)
    ensures |s'.raws| == |s.raws| && PartDone(s, s', d, pattern, n, k)
  {
    hide InOrder, Room, Refuses, PutBroken, Lands, InsertEffect, Worked, Utf8.Lossy, Device.Views;
    var job := Insert(d);
    assert k > n ==> Stops(EffectOf(s.raws[n], job, d.blockSize, pattern));
    assert Reaches(s.raws, job, d.blockSize, pattern, k) <==> k <= n;
    IdleLooks(s.raws[k], Effect([], Ok, s.raws[k].index), d.blockSize, pattern);
    PutOneMeans(s.raws[k], d, pattern);
    FullRefuses(s.raws[k], d, pattern);
    assert s.logs[k] + [] == s.logs[k];
  }

  lemma FullRefuses(raw: RawRep, d: Draft, pattern: Byte)
    requires InOrder(raw, d.blockSize) && d.Fits()
    ensures !Room(Device.Views(raw.blocks), d) ==> Refuses(raw, d, pattern)
  {
    hide Room, PutBroken, Device.Views;
  }

  lemma PutMeans(s: Snapshot, s': Snapshot, d: Draft, pattern: Byte)
    requires AllInOrder(s.raws, d.blockSize) && Encodable(d) && (pattern == 0x00 || pattern == 0xFF)
    requires Fanned(s, s', Insert(d), d.blockSize, pattern)
    ensures exists n: nat :: PutStops(s, s', d, pattern, Report(s.raws, Insert(d), d.blockSize, pattern), n)
  {
    hide InOrder, FirstStop, Report, Utf8.Lossy, Fanned, PartDone, Room, Device.Views;
    var n := FirstStop(s.raws, Insert(d), d.blockSize, pattern, 0);
    FirstRefuses(s.raws, d, pattern, n);
    FannedSize(s, s', Insert(d), d.blockSize, pattern);
    forall k | 0 <= k < |s.raws| ensures PartDone(s, s', d, pattern, n, k) {
      PutPart(s, s', d, pattern, n, k);
    }
    assert PutStops(s, s', d, pattern, Report(s.raws, Insert(d), d.blockSize, pattern), n);
  }

  lemma FannedSize(s: Snapshot, s': Snapshot, job: Job, blockSize: nat, pattern: Byte)
    requires AllInOrder(s.raws, blockSize) && Doable(job, blockSize) && Fanned(s, s', job, blockSize, pattern)
    ensures |s'.raws| == |s.raws|
  {
    hide InOrder, EffectOn, Doable;
  }

  // ---- on anchored replicas ----

  function JobOf(blockSize: nat, reps: Reps, op: Op): Job {
    match op
    case Put(_, _, _) => Insert(DraftOf(blockSize, reps, op))
    case Delete(key) => Erase(key.id)
  }

  /** Replica `i` of an anchored store reports, calls and is left with what the decoded model says. */
  ghost predicate Follows(raws: seq<RawRep>, reps: Reps, op: Op, blockSize: nat, pattern: Byte, i: nat)
    requires AllInOrder(raws, blockSize) && i < |raws| == |reps| && Admissible(blockSize, reps, op)
    requires Doable(JobOf(blockSize, reps, op), blockSize)
  {
    var e := EffectOn(raws, JobOf(blockSize, reps, op), blockSize, pattern, i);
    && e.steps == Runs.StepsOn(blockSize, reps, op, i)
    && Look(Worked(raws[i], e, blockSize, pattern)) == AfterOn(blockSize, reps, op, i)
  }

  lemma IdleLooks(raw: RawRep, e: Effect, blockSize: nat, pattern: Byte)
    requires InOrder(raw, blockSize) && e.steps == [] && e.index == raw.index
    ensures Worked(raw, e, blockSize, pattern) == raw
  {}

  /** On anchored replicas the fan-out over bytes is the operation of the decoded model, call for call. */
  lemma PutFollows(raws: seq<RawRep>, reps: Reps, op: Op, blockSize: nat, pattern: Byte)
    requires op.Put? && |op.key.raw| + 36 <= blockSize && (pattern == 0x00 || pattern == 0xFF)
    requires AllInOrder(raws, blockSize) && reps == LookAll(raws, blockSize) && AllAnchored(reps)
    requires Admissible(blockSize, reps, op) && Doable(JobOf(blockSize, reps, op), blockSize)
    ensures Report(raws, JobOf(blockSize, reps, op), blockSize, pattern) == Result(blockSize, reps, op)
    ensures forall i | 0 <= i < |raws| :: Follows(raws, reps, op, blockSize, pattern, i)
  {
    hide InOrder, Encodable, Anchored, Rewrite, Device.Views, InsertEffect, PutSteps, AfterPut, Room;
    var d := DraftOf(blockSize, reps, op);
    var job := Insert(d);
    forall i | 0 <= i < |raws|
      ensures EffectOf(raws[i], job, blockSize, pattern).outcome == if Room(reps[i].disk, d) then Ok else StorageFull
    {
      InsertAnchored(raws[i], d, pattern);
    }
    var n := FirstStop(raws, job, blockSize, pattern, 0);
    assert n == Reached(blockSize, reps, op);
    forall i | 0 <= i < |raws| ensures Follows(raws, reps, op, blockSize, pattern, i) {
      InsertAnchored(raws[i], d, pattern);
      assert Reaches(raws, job, blockSize, pattern, i) <==> i <= n;
      if i >= n { IdleLooks(raws[i], EffectOn(raws, job, blockSize, pattern, i), blockSize, pattern); }
    }
  }

  lemma DeleteFollows(raws: seq<RawRep>, reps: Reps, op: Op, blockSize: nat, pattern: Byte)
    requires op.Delete? && (pattern == 0x00 || pattern == 0xFF)
    requires AllInOrder(raws, blockSize) && reps == LookAll(raws, blockSize) && AllAnchored(reps)
    requires Admissible(blockSize, reps, op)
    ensures Report(raws, JobOf(blockSize, reps, op), blockSize, pattern) == Result(blockSize, reps, op)
    ensures forall i | 0 <= i < |raws| :: Follows(raws, reps, op, blockSize, pattern, i)
  {
    hide InOrder, Anchored, Rewrite, Device.Views, EraseEffect, DeleteSteps, AfterDelete;
    var job := Erase(op.key.id);
    forall i | 0 <= i < |raws|
      ensures EffectOf(raws[i], job, blockSize, pattern).outcome ==
              if op.key.id in reps[i].index then Ok else KeyNotFound
    {
      EraseAnchored(raws[i], op.key.id, blockSize, pattern);
    }
    assert FirstStop(raws, job, blockSize, pattern, 0) == |raws|;
    forall i | 0 <= i < |raws| ensures Follows(raws, reps, op, blockSize, pattern, i) {
      EraseAnchored(raws[i], op.key.id, blockSize, pattern);
    }
  }
}
