/** The store refines a finite map, over every run of operations and power losses. */
module Refinement {
  import opened Format
  import opened Records
  import Layout
  import opened Recovery
  import opened Engine
  import Operations
  import Crash
  import opened Cluster
  import opened Runs

  /** `get` answers from the map `m`. */
  ghost predicate Represents(reps: Reps, m: map<Bytes, Bytes>) {
    forall id :: Get(reps, id) == if id in m then Some(m[id]) else None
  }

  ghost function Ids(reps: Reps): set<Bytes> {
    set i, id | 0 <= i < |reps| && id in reps[i].index :: id
  }

  /** The map a store holds. */
  ghost function Contents(reps: Reps): map<Bytes, Bytes> {
    map id | id in Ids(reps) && Get(reps, id).Some? :: Get(reps, id).value
  }

  /** Every store answers from a finite map. */
  lemma ContentsRepresented(reps: Reps)
    ensures Represents(reps, Contents(reps))
  {
    hide GetAmong;
    forall id | Get(reps, id).Some? ensures id in Ids(reps) {
      GetIsHighest(reps, id, |reps|);
      var j :| 0 <= j < |reps| && Answers(reps, id, |reps|, j);
      assert id in reps[j].index;
    }
  }

  /** A freshly formatted store: on every replica nothing but free blocks behind the header, and no index yet. */
  lemma FreshReady(reps: Reps)
    requires forall k | 0 <= k < |reps| ::
               && Opened(reps[k].disk) && reps[k].index == map[]
               && (forall i | 1 <= i < |reps[k].disk| :: reps[k].disk[i].Free?)
    ensures AllReady(reps) && Represents(reps, map[])
  {
    hide Ready, Represents;
    forall k | 0 <= k < |reps| ensures Ready(reps[k]) { FreshReplica(reps[k].disk); }
    ContentsRepresented(reps);
    assert Contents(reps) == map[];
  }

  lemma FreshReplica(disk: Disk)
    requires Opened(disk) && forall i | 1 <= i < |disk| :: disk[i].Free?
    ensures Ready(Rep(disk, map[]))
  {
    hide Best;
    forall r: Record ensures !Complete(disk, r) {
      if Complete(disk, r) { OccupiedReadable(disk, r, r.block); }
    }
    assert Meaning(disk) == map[];
  }

  function Applied(m: map<Bytes, Bytes>, op: Op): map<Bytes, Bytes> {
    match op
    case Put(key, value, _) => m[key.id := value]
    case Delete(key) => m - {key.id}
  }

  // ---- what each replica finds after an event ----

  lemma FoundSame(rep: Rep, rep': Rep, id: Bytes)
    requires Ready(rep) && Ready(rep') && Meaning(rep'.disk) == Meaning(rep.disk)
    ensures Found(rep', id) == Found(rep, id)
  {
    hide Meaning, Clean, Found;
    FoundReady(rep, id);
    FoundReady(rep', id);
  }

  lemma FoundMoved(blockSize: nat, reps: Reps, op: Op, i: nat, rep': Rep, id: Bytes)
    requires Admissible(blockSize, reps, op) && i < Reached(blockSize, reps, op)
    requires Ready(reps[i]) && Ready(rep') && Meaning(rep'.disk) == Meaning(AfterOn(blockSize, reps, op, i).disk)
    ensures id != op.key.id ==> Found(rep', id) == Found(reps[i], id)
    ensures id == op.key.id && op.Put? ==>
              Found(rep', id) == Some(Hit(DraftOf(blockSize, reps, op).generation, op.value))
    ensures id == op.key.id && op.Delete? ==> Found(rep', id) == None
  {
    hide Meaning, Clean, Found, AfterPut, AfterDelete, Allocated, Layout.Needed;
    FoundReady(reps[i], id);
    FoundReady(rep', id);
    match op
    case Put(_, _, _) =>
      DraftNewer(blockSize, reps, op, i);
      Operations.PutCorrect(reps[i], DraftOf(blockSize, reps, op));
    case Delete(key) => Operations.DeleteCorrect(reps[i], key.id);
  }

  /** Replica `i` of `reps'` is ready and means what it meant before, or what the operation makes it mean. */
  ghost predicate OldOrNew(blockSize: nat, reps: Reps, op: Op, reps': Reps, i: nat)
    requires Admissible(blockSize, reps, op) && i < |reps| == |reps'|
  {
    && Ready(reps'[i])
    && (Meaning(reps'[i].disk) == Meaning(reps[i].disk) || IsNew(blockSize, reps, op, reps', i))
  }

  ghost predicate IsNew(blockSize: nat, reps: Reps, op: Op, reps': Reps, i: nat)
    requires Admissible(blockSize, reps, op) && i < |reps| == |reps'|
  {
    i < Reached(blockSize, reps, op) && Meaning(reps'[i].disk) == Meaning(AfterOn(blockSize, reps, op, i).disk)
  }

  lemma EventOldOrNew(blockSize: nat, reps: Reps, e: Event, reps': Reps, i: nat)
    requires AllReady(reps) && Next(blockSize, reps, e, reps') && i < |reps|
    ensures OldOrNew(blockSize, reps, e.op, reps', i)
    ensures e.Done? && i < Reached(blockSize, reps, e.op) ==> IsNew(blockSize, reps, e.op, reps', i)
    ensures e.Crashed? && i < e.j && i < Reached(blockSize, reps, e.op) ==> IsNew(blockSize, reps, e.op, reps', i)
    ensures e.Crashed? && i > e.j ==> Meaning(reps'[i].disk) == Meaning(reps[i].disk)
  {
    hide Meaning, Clean, Crash.CrashAt, Reboots, Rebuilt, StepsOn;
    assert Ready(reps[i]);
    match e
    case Done(op) => AfterReady(blockSize, reps, op, i);
    case Crashed(op, j, k, images, reboots) =>
      var seen := StepsSeen(blockSize, reps, op, j, k, i);
      assert Crash.CrashAt(reps[i].disk, StepsOn(blockSize, reps, op, i), seen, images[i]);
      ReplicaCrash(blockSize, reps, op, i, seen, images[i]);
      RebuiltReady(images[i], reboots[i]);
  }

  /** Between events every replica is ready: no garbage, and the index equals a rescan. */
  lemma ReadyAlways(blockSize: nat, reps: Reps, e: Event, reps': Reps)
    requires AllReady(reps) && Next(blockSize, reps, e, reps')
    ensures AllReady(reps')
  {
    hide Next, Ready;
    forall i | 0 <= i < |reps'| ensures Ready(reps'[i]) { EventReady(blockSize, reps, e, reps', i); }
  }

  lemma EventReady(blockSize: nat, reps: Reps, e: Event, reps': Reps, i: nat)
    requires AllReady(reps) && Next(blockSize, reps, e, reps') && i < |reps'|
    ensures Ready(reps'[i])
  {
    hide Meaning, Clean;
    EventOldOrNew(blockSize, reps, e, reps', i);
  }

  // ---- one event on the whole store ----

  /** No operation, finished or cut off, disturbs another key. */
  lemma OtherKeysUndisturbed(blockSize: nat, reps: Reps, e: Event, reps': Reps, id: Bytes)
    requires AllReady(reps) && Next(blockSize, reps, e, reps') && id != e.op.key.id
    ensures Get(reps', id) == Get(reps, id)
  {
    hide Meaning, Ready, Found, AfterOn, After;
    forall i | 0 <= i < |reps| ensures Found(reps'[i], id) == Found(reps[i], id) {
      OneAnswer(blockSize, reps, e, reps', i, id);
    }
    SameGet(reps, reps', id, |reps|);
  }

  /** What replica `i` may answer for `id` after an event. */
  lemma OneAnswer(blockSize: nat, reps: Reps, e: Event, reps': Reps, i: nat, id: Bytes)
    requires AllReady(reps) && Next(blockSize, reps, e, reps') && i < |reps|
    ensures id != e.op.key.id ==> Found(reps'[i], id) == Found(reps[i], id)
    ensures id == e.op.key.id && e.op.Put? ==>
              var hit := Some(Hit(DraftOf(blockSize, reps, e.op).generation, e.op.value));
              Found(reps'[i], id) == if IsNew(blockSize, reps, e.op, reps', i) then hit else Found(reps[i], id)
    ensures id == e.op.key.id && e.op.Delete? ==>
              Found(reps'[i], id) == if IsNew(blockSize, reps, e.op, reps', i) then None else Found(reps[i], id)
    ensures e.Crashed? && i > e.j ==> Found(reps'[i], id) == Found(reps[i], id)
    ensures Found(reps[i], id).Some? ==>
              Found(reps[i], id).value.generation <= MaxGeneration(reps, id, |reps|)
  {
    hide Meaning, Clean, AfterOn, After, CrashedImages, Reboots, Rebuilt;
    assert Ready(reps[i]);
    EventOldOrNew(blockSize, reps, e, reps', i);
    FoundIndexed(reps, i, id);
    hide Found;
    if Meaning(reps'[i].disk) == Meaning(reps[i].disk) { FoundSame(reps[i], reps'[i], id); }
    if IsNew(blockSize, reps, e.op, reps', i) { FoundMoved(blockSize, reps, e.op, i, reps'[i], id); }
  }

  lemma FoundIndexed(reps: Reps, i: nat, id: Bytes)
    requires i < |reps|
    ensures Found(reps[i], id).Some? ==> Found(reps[i], id).value.generation <= MaxGeneration(reps, id, |reps|)
  {}

  /** A `put` takes effect on the store as soon as one replica holds the new record, and otherwise not at all. */
  lemma PutSettles(blockSize: nat, reps: Reps, e: Event, reps': Reps)
    requires AllReady(reps) && Next(blockSize, reps, e, reps') && e.op.Put?
    ensures var id := e.op.key.id;
            if exists i :: 0 <= i < |reps| && IsNew(blockSize, reps, e.op, reps', i)
            then Get(reps', id) == Some(e.op.value)
            else Get(reps', id) == Get(reps, id)
  {
    hide Meaning, Ready, Found, IsNew, Next, Get;
    var id, h := e.op.key.id, Hit(DraftOf(blockSize, reps, e.op).generation, e.op.value);
    NextSize(blockSize, reps, e, reps');
    forall i | 0 <= i < |reps|
      ensures Found(reps'[i], id) == if IsNew(blockSize, reps, e.op, reps', i) then Some(h) else Found(reps[i], id)
      ensures Found(reps[i], id).Some? ==> Found(reps[i], id).value.generation < h.generation
    {
      OneAnswer(blockSize, reps, e, reps', i, id);
    }
    if i :| 0 <= i < |reps| && IsNew(blockSize, reps, e.op, reps', i) {
      NewestWins(reps', id, h, i);
    } else {
      SameAnswersGet(reps, reps', id);
    }
  }

  lemma NextSize(blockSize: nat, reps: Reps, e: Event, reps': Reps)
    requires Next(blockSize, reps, e, reps')
    ensures |reps'| == |reps| && Admissible(blockSize, reps, e.op)
  {}

  lemma SameAnswersGet(reps: Reps, reps': Reps, id: Bytes)
    requires SameAnswers(reps, reps', id)
    ensures Get(reps', id) == Get(reps, id)
  {
    SameGet(reps, reps', id, |reps|);
  }

  /**
   * What the outcomes mean. `delete` succeeds exactly when `get` would; `put` is refused exactly when the key
   * is too long or some replica lacks the free blocks, and after a success every replica holds the new value
   * under the same generation.
   */
  lemma OutcomesMean(blockSize: nat, reps: Reps, op: Op)
    requires AllAnchored(reps) && Admissible(blockSize, reps, op)
    ensures op.Delete? ==> Result(blockSize, reps, op) == if Get(reps, op.key.id).Some? then Ok else KeyNotFound
    ensures op.Put? ==> (Result(blockSize, reps, op) == KeyTooLong <==> |op.key.raw| + 36 > blockSize)
    ensures op.Put? && |op.key.raw| + 36 <= blockSize ==>
              Result(blockSize, reps, op) ==
              if forall i | 0 <= i < |reps| :: |FreeList(reps[i].disk)| >= Layout.Needed(DraftOf(blockSize, reps, op))
              then Ok else StorageFull
    ensures op.Put? && Result(blockSize, reps, op) == Ok ==>
              var hit := Hit(DraftOf(blockSize, reps, op).generation, op.value);
              forall i | 0 <= i < |reps| :: Found(After(blockSize, reps, op)[i], op.key.id) == Some(hit)
  {
    hide Anchored, AfterOn, FreeList, Layout.Needed, GetAmong, Named;
    match op
    case Delete(key) =>
      GetIsHighest(reps, key.id, |reps|);
      forall i | 0 <= i < |reps| ensures key.id in reps[i].index <==> Found(reps[i], key.id).Some? {
        FoundAnchored(reps[i], key.id);
      }
    case Put(key, _, _) =>
      if Result(blockSize, reps, op) == Ok {
        var hit := Hit(DraftOf(blockSize, reps, op).generation, op.value);
        forall i | 0 <= i < |reps| ensures Found(After(blockSize, reps, op)[i], key.id) == Some(hit) {
          AfterAnchored(blockSize, reps, op, i, key.id);
        }
      }
  }

  // ---- delete over several replicas ----

  /** Replica `t` holds `id` with a generation no later replica exceeds. */
  ghost predicate LastWord(reps: Reps, id: Bytes, t: nat)
    requires t < |reps|
  {
    && Found(reps[t], id).Some?
    && (forall i | t < i < |reps| && Found(reps[i], id).Some? ::
          Found(reps[i], id).value.generation <= Found(reps[t], id).value.generation)
  }

  /** Every replica whose generation no later one exceeds holds the value that `get` returns. */
  ghost predicate DeleteSafe(reps: Reps, id: Bytes) {
    forall t | 0 <= t < |reps| && LastWord(reps, id, t) :: Get(reps, id) == Some(Found(reps[t], id).value.value)
  }

  /** With one replica, delete is always safe. */
  lemma OneReplicaDeleteSafe(reps: Reps, id: Bytes)
    requires |reps| == 1
    ensures DeleteSafe(reps, id)
  {
    hide Found;
    assert GetAmong(reps, id, 0) == None;
  }

  /** `delete` removes the key or leaves the answer as it was. */
  lemma DeleteSettles(blockSize: nat, reps: Reps, e: Event, reps': Reps)
    requires AllReady(reps) && Next(blockSize, reps, e, reps') && e.op.Delete?
    requires e.Crashed? ==> DeleteSafe(reps, e.op.key.id)
    ensures Get(reps', e.op.key.id) == None || (e.Crashed? && Get(reps', e.op.key.id) == Get(reps, e.op.key.id))
  {
    hide Meaning, Ready, Found, Next, AfterOn, After;
    var id := e.op.key.id;
    NextSize(blockSize, reps, e, reps');
    GetIsHighest(reps', id, |reps'|);
    if Get(reps', id).Some? {
      var t :| 0 <= t < |reps'| && Answers(reps', id, |reps'|, t);
      StillThere(blockSize, reps, e, reps', t, id);
      forall i | t < i < |reps| ensures Found(reps'[i], id) == Found(reps[i], id) {
        OneAnswer(blockSize, reps, e, reps', i, id);
      }
      OneAnswer(blockSize, reps, e, reps', t, id);
      assert LastWord(reps, id, t);
    }
  }

  /** A replica that still finds a deleted key had not been passed when the power failed. */
  lemma StillThere(blockSize: nat, reps: Reps, e: Event, reps': Reps, t: nat, id: Bytes)
    requires AllReady(reps) && Next(blockSize, reps, e, reps') && e.op.Delete? && id == e.op.key.id
    requires t < |reps| && Found(reps'[t], id).Some?
    ensures e.Crashed? && t >= e.j
  {
    hide Meaning, Ready, Found, AfterOn, After, CrashedImages, Reboots, Rebuilt;
    EventOldOrNew(blockSize, reps, e, reps', t);
    OneAnswer(blockSize, reps, e, reps', t, id);
  }

  // ---- whole runs ----

  /** A run from `reps`: `trace` lists the state after each event. */
  ghost predicate Run(blockSize: nat, reps: Reps, events: seq<Event>, trace: seq<Reps>)
    decreases |events|
  {
    && |trace| == |events|
    && (events != [] ==>
          Next(blockSize, reps, events[0], trace[0]) && Run(blockSize, trace[0], events[1..], trace[1..]))
  }

  /** No `delete` is cut off while the replicas disagree about its key. */
  ghost predicate SafeDeletes(reps: Reps, events: seq<Event>, trace: seq<Reps>)
    requires |trace| == |events|
    decreases |events|
  {
    events != [] ==>
      && (events[0].Crashed? && events[0].op.Delete? ==> DeleteSafe(reps, events[0].op.key.id))
      && SafeDeletes(trace[0], events[1..], trace[1..])
  }

  function Final(reps: Reps, trace: seq<Reps>): Reps {
    if trace == [] then reps else trace[|trace| - 1]
  }

  /** A finished operation takes effect unless its first replica refuses it. */
  ghost predicate Takes(blockSize: nat, reps: Reps, op: Op)
    requires Admissible(blockSize, reps, op)
  {
    op.Delete? || Reached(blockSize, reps, op) > 0
  }

  /** `took` says which events took effect; only for a power loss is there a choice. */
  ghost predicate Explains(blockSize: nat, reps: Reps, events: seq<Event>, trace: seq<Reps>, took: seq<bool>)
    requires Run(blockSize, reps, events, trace)
    decreases |events|
  {
    && |took| == |events|
    && (events != [] ==>
          && (events[0].Done? ==> took[0] == Takes(blockSize, reps, events[0].op))
          && Explains(blockSize, trace[0], events[1..], trace[1..], took[1..]))
  }

  /** The map after the events that took effect. */
  function Expected(m: map<Bytes, Bytes>, events: seq<Event>, took: seq<bool>): map<Bytes, Bytes>
    requires |took| == |events|
    decreases |events|
  {
    if events == [] then m
    else Expected(if took[0] then Applied(m, events[0].op) else m, events[1..], took[1..])
  }

  /** One event: the map moves by the whole operation or not at all. */
  lemma EventRefines(blockSize: nat, reps: Reps, e: Event, reps': Reps, m: map<Bytes, Bytes>) returns (took: bool)
    requires |reps| >= 1 && AllReady(reps) && Next(blockSize, reps, e, reps') && Represents(reps, m)
    requires e.Crashed? && e.op.Delete? ==> DeleteSafe(reps, e.op.key.id)
    ensures Represents(reps', if took then Applied(m, e.op) else m)
    ensures e.Done? ==> took == Takes(blockSize, reps, e.op)
  {
    hide Get, Ready, Next, IsNew, DeleteSafe;
    var id := e.op.key.id;
    forall id' | id' != id ensures Get(reps', id') == Get(reps, id') {
      OtherKeysUndisturbed(blockSize, reps, e, reps', id');
    }
    NextSize(blockSize, reps, e, reps');
    match e.op
    case Put(_, _, _) =>
      PutSettles(blockSize, reps, e, reps');
      took := exists i :: 0 <= i < |reps| && IsNew(blockSize, reps, e.op, reps', i);
      if e.Done? { DonePut(blockSize, reps, e, reps'); }
    case Delete(_) =>
      DeleteSettles(blockSize, reps, e, reps');
      took := e.Done? || Get(reps', id) != Get(reps, id);
  }

  lemma DonePut(blockSize: nat, reps: Reps, e: Event, reps': Reps)
    requires |reps| >= 1 && AllReady(reps) && Next(blockSize, reps, e, reps') && e.Done? && e.op.Put?
    ensures Reached(blockSize, reps, e.op) > 0 <==>
            exists i :: 0 <= i < |reps| && IsNew(blockSize, reps, e.op, reps', i)
  {
    hide Meaning, Ready;
    if Reached(blockSize, reps, e.op) > 0 {
      EventOldOrNew(blockSize, reps, e, reps', 0);
    }
  }

  /**
   * Crash safety over whole runs. From ready replicas, after any events, every replica is ready again and
   * `get` answers from the map obtained by applying each finished operation and, for each power loss,
   * the operation it interrupted wholly or not at all.
   */
  lemma {:induction false} RunRefinesMap(blockSize: nat, reps: Reps, events: seq<Event>, trace: seq<Reps>,
                                         m: map<Bytes, Bytes>)
      returns (took: seq<bool>)
    requires |reps| >= 1 && AllReady(reps) && Represents(reps, m)
    requires Run(blockSize, reps, events, trace) && SafeDeletes(reps, events, trace)
    ensures AllReady(Final(reps, trace))
    ensures Explains(blockSize, reps, events, trace, took)
    ensures Represents(Final(reps, trace), Expected(m, events, took))
    decreases |events|
  {
    hide Represents, Ready, Next, Takes, DeleteSafe;
    if events == [] {
      took := [];
    } else {
      var first := EventRefines(blockSize, reps, events[0], trace[0], m);
      ReadyAlways(blockSize, reps, events[0], trace[0]);
      NextSize(blockSize, reps, events[0], trace[0]);
      var m' := if first then Applied(m, events[0].op) else m;
      var rest := RunRefinesMap(blockSize, trace[0], events[1..], trace[1..], m');
      took := [first] + rest;
      assert took[1..] == rest;
      assert Final(reps, trace) == Final(trace[0], trace[1..]);
    }
  }

  /** One replica needs no condition on deletes. */
  lemma {:induction false} OneReplicaRuns(blockSize: nat, reps: Reps, events: seq<Event>, trace: seq<Reps>)
    requires |reps| == 1 && Run(blockSize, reps, events, trace)
    ensures SafeDeletes(reps, events, trace)
    decreases |events|
  {
    hide Next, DeleteSafe;
    if events != [] {
      OneReplicaDeleteSafe(reps, events[0].op.key.id);
      NextSize(blockSize, reps, events[0], trace[0]);
      OneReplicaRuns(blockSize, trace[0], events[1..], trace[1..]);
    }
  }

  /** Single-replica crash safety: no condition beyond a ready start. */
  lemma OneReplicaRefinesMap(blockSize: nat, rep: Rep, events: seq<Event>, trace: seq<Reps>, m: map<Bytes, Bytes>)
      returns (took: seq<bool>)
    requires Ready(rep) && Represents([rep], m) && Run(blockSize, [rep], events, trace)
    ensures AllReady(Final([rep], trace))
    ensures Explains(blockSize, [rep], events, trace, took)
    ensures Represents(Final([rep], trace), Expected(m, events, took))
  {
    OneReplicaRuns(blockSize, [rep], events, trace);
    took := RunRefinesMap(blockSize, [rep], events, trace, m);
  }

  // ---- without a recovery ----

  /** Without power losses an operation moves the map by itself, or not at all if its first replica refuses it. */
  lemma DoneRefines(blockSize: nat, reps: Reps, op: Op, m: map<Bytes, Bytes>)
    requires |reps| >= 1 && AllAnchored(reps) && Admissible(blockSize, reps, op) && Represents(reps, m)
    ensures AllAnchored(After(blockSize, reps, op))
    ensures Represents(After(blockSize, reps, op), if Takes(blockSize, reps, op) then Applied(m, op) else m)
  {
    hide Anchored, Found, AfterOn, Get, Admissible, Reached;
    var reps' := After(blockSize, reps, op);
    forall i | 0 <= i < |reps| ensures Anchored(reps'[i]) { AfterAnchored(blockSize, reps, op, i, op.key.id); }
    forall id ensures Get(reps', id) == if id == op.key.id && Takes(blockSize, reps, op)
                                        then (if op.Put? then Some(op.value) else None) else Get(reps, id)
    {
      DoneAnswer(blockSize, reps, op, id);
    }
  }

  lemma DoneAnswer(blockSize: nat, reps: Reps, op: Op, id: Bytes)
    requires |reps| >= 1 && AllAnchored(reps) && Admissible(blockSize, reps, op)
    ensures Get(After(blockSize, reps, op), id) ==
            if id == op.key.id && Takes(blockSize, reps, op) then (if op.Put? then Some(op.value) else None)
            else Get(reps, id)
  {
    hide Anchored, Found, AfterOn, Get, Admissible, Reached;
    var reps', n := After(blockSize, reps, op), Reached(blockSize, reps, op);
    forall i | 0 <= i < |reps|
      ensures Found(reps'[i], id) ==
              if i >= n || id != op.key.id then Found(reps[i], id)
              else if op.Put? then Some(Hit(DraftOf(blockSize, reps, op).generation, op.value)) else None
      ensures Found(reps[i], id).Some? ==> Found(reps[i], id).value.generation <= MaxGeneration(reps, id, |reps|)
    {
      AfterAnchored(blockSize, reps, op, i, id);
      FoundIndexed(reps, i, id);
    }
    if id != op.key.id || !Takes(blockSize, reps, op) {
      SameAnswersGet(reps, reps', id);
    } else if op.Put? {
      NewestWins(reps', id, Hit(DraftOf(blockSize, reps, op).generation, op.value), 0);
    } else {
      DeleteReaches(blockSize, reps, op);
      NoAnswer(reps', id);
    }
  }

  lemma DeleteReaches(blockSize: nat, reps: Reps, op: Op)
    requires Admissible(blockSize, reps, op) && op.Delete?
    ensures Reached(blockSize, reps, op) == |reps|
  {}

  lemma NoAnswer(reps: Reps, id: Bytes)
    requires forall i | 0 <= i < |reps| :: Found(reps[i], id) == None
    ensures Get(reps, id) == None
  {
    hide Found;
    GetIsHighest(reps, id, |reps|);
  }

  /** The store after a sequence of operations, each of them admissible. */
  ghost function AfterAll(blockSize: nat, reps: Reps, ops: seq<Op>): Reps
    requires AllAdmissible(blockSize, reps, ops)
    decreases |ops|
  {
    if ops == [] then reps else AfterAll(blockSize, After(blockSize, reps, ops[0]), ops[1..])
  }

  ghost predicate AllAdmissible(blockSize: nat, reps: Reps, ops: seq<Op>)
    decreases |ops|
  {
    ops == [] || (Admissible(blockSize, reps, ops[0])
                  && AllAdmissible(blockSize, After(blockSize, reps, ops[0]), ops[1..]))
  }

  /** The map after the operations: each is applied unless its first replica refuses it. */
  ghost function AppliedAll(blockSize: nat, reps: Reps, ops: seq<Op>, m: map<Bytes, Bytes>): map<Bytes, Bytes>
    requires AllAdmissible(blockSize, reps, ops)
    decreases |ops|
  {
    if ops == [] then m
    else AppliedAll(blockSize, After(blockSize, reps, ops[0]), ops[1..],
                    if Takes(blockSize, reps, ops[0]) then Applied(m, ops[0]) else m)
  }

  /**
   * A store that was indexed and never recovered, whatever garbage and old versions its disks hold: through any
   * operations without a power loss `get` answers from the map to which they are applied.
   */
  lemma {:induction false} UnrecoveredRefinesMap(blockSize: nat, reps: Reps, ops: seq<Op>, m: map<Bytes, Bytes>)
    requires |reps| >= 1 && AllAnchored(reps) && AllAdmissible(blockSize, reps, ops) && Represents(reps, m)
    ensures AllAnchored(AfterAll(blockSize, reps, ops))
    ensures Represents(AfterAll(blockSize, reps, ops), AppliedAll(blockSize, reps, ops, m))
    decreases |ops|
  {
    hide Anchored, Represents, Takes, Admissible;
    if ops != [] {
      DoneRefines(blockSize, reps, ops[0], m);
      var m' := if Takes(blockSize, reps, ops[0]) then Applied(m, ops[0]) else m;
      UnrecoveredRefinesMap(blockSize, After(blockSize, reps, ops[0]), ops[1..], m');
    }
  }

  /** Such a store is what `build_index` gives on any disks with a header. */
  lemma IndexedStart(disks: seq<Disk>, reps: Reps)
    requires |reps| == |disks| && forall k | 0 <= k < |disks| ::
               Opened(disks[k]) && reps[k] == Rep(disks[k], IndexOf(Meaning(disks[k])))
    ensures AllAnchored(reps) && Represents(reps, Contents(reps))
  {
    hide Meaning, Anchored, Represents, Contents;
    forall k | 0 <= k < |reps| ensures Anchored(reps[k]) { Operations.IndexedAnchored(reps[k]); }
    ContentsRepresented(reps);
  }
}
