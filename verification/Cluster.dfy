/** The store over several replicas: `get`, `put_flagged` and `delete` as functions of the replicas' states. */
module Cluster {
  import opened Format
  import opened Records
  import Layout
  import Recovery
  import opened Engine

  type Reps = seq<Rep>

  datatype Hit = Hit(generation: nat, value: Bytes)

  // ---- get ----

  /** `get_with_generation`: the index says where to look, and the record there must verify. */
  ghost function Found(rep: Rep, id: Bytes): Option<Hit> {
    if id !in rep.index then None
    else
      match Read(rep.disk, rep.index[id].block)
      case None => None
      case Some(r) => Some(Hit(rep.index[id].generation, r.value))
  }

  /** The loop of `get` over the first `n` replicas: a strictly higher generation replaces the best so far. */
  ghost function GetAmong(reps: Reps, id: Bytes, n: nat): Option<Hit>
    requires n <= |reps|
  {
    if n == 0 then None
    else
      var best := GetAmong(reps, id, n - 1);
      match Found(reps[n - 1], id)
      case None => best
      case Some(h) => if best.None? || h.generation > best.value.generation then Some(h) else best
  }

  ghost function Get(reps: Reps, id: Bytes): Option<Bytes> {
    match GetAmong(reps, id, |reps|)
    case None => None
    case Some(h) => Some(h.value)
  }

  /** Replica `j` answers: it finds the key, with the highest generation, and is first among equals. */
  ghost predicate Answers(reps: Reps, id: Bytes, n: nat, j: nat)
    requires n <= |reps|
  {
    && j < n
    && Found(reps[j], id).Some?
    && (forall i | 0 <= i < n && Found(reps[i], id).Some? ::
          && Found(reps[i], id).value.generation <= Found(reps[j], id).value.generation
          && (i < j ==> Found(reps[i], id).value.generation < Found(reps[j], id).value.generation))
  }

  /** `get` returns the first highest-generation value that verifies, and fails exactly when there is none. */
  lemma GetIsHighest(reps: Reps, id: Bytes, n: nat)
    requires n <= |reps|
    ensures GetAmong(reps, id, n).None? <==> forall i | 0 <= i < n :: Found(reps[i], id).None?
    ensures forall j | 0 <= j < n && Answers(reps, id, n, j) :: GetAmong(reps, id, n) == Found(reps[j], id)
    ensures GetAmong(reps, id, n).Some? ==> exists j :: 0 <= j < n && Answers(reps, id, n, j)
  {
    hide Found, GetAmong;
    if j :| 0 <= j < n && Found(reps[j], id).Some? {
      var k := Highest(reps, id, n, j);
      forall j | 0 <= j < n && Answers(reps, id, n, j) ensures j == k { OneAnswers(reps, id, n, j, k); }
    } else {
      NoneFound(reps, id, n);
    }
  }

  lemma {:induction false} NoneFound(reps: Reps, id: Bytes, n: nat)
    requires n <= |reps| && forall i | 0 <= i < n :: Found(reps[i], id).None?
    ensures GetAmong(reps, id, n).None?
  {
    hide Found;
    if n > 0 { NoneFound(reps, id, n - 1); }
  }

  lemma OneAnswers(reps: Reps, id: Bytes, n: nat, j: nat, k: nat)
    requires n <= |reps| && Answers(reps, id, n, j) && Answers(reps, id, n, k)
    ensures j == k
  {
    hide Found;
  }

  /** The loop's result comes from the replica that answers. */
  lemma {:induction false} Highest(reps: Reps, id: Bytes, n: nat, j: nat) returns (k: nat)
    requires j < n <= |reps| && Found(reps[j], id).Some?
    ensures k < n && Answers(reps, id, n, k) && GetAmong(reps, id, n) == Found(reps[k], id)
    decreases n
  {
    hide Found;
    var h := Found(reps[n - 1], id);
    if i :| 0 <= i < n - 1 && Found(reps[i], id).Some? {
      var k' := Highest(reps, id, n - 1, i);
      k := if h.Some? && h.value.generation > Found(reps[k'], id).value.generation then n - 1 else k';
    } else {
      NoneFound(reps, id, n - 1);
      k := n - 1;
    }
  }

  /** What a ready replica finds is its best record. */
  lemma FoundReady(rep: Rep, id: Bytes)
    requires Ready(rep)
    ensures Found(rep, id) == if id in Meaning(rep.disk)
                              then Some(Hit(Meaning(rep.disk)[id].hdr.generation, Meaning(rep.disk)[id].value))
                              else None
  {
    hide Meaning, Complete, Recovery.Clean;
    if id in rep.index { ReadIs(rep.disk, Meaning(rep.disk)[id]); }
  }

  /** What an anchored replica finds is the record that its index names. */
  lemma FoundAnchored(rep: Rep, id: Bytes)
    requires Anchored(rep)
    ensures Found(rep, id) ==
            if id in rep.index then Some(Hit(rep.index[id].generation, Named(rep, id).value)) else None
  {
    hide Complete;
  }

  // ---- put and delete ----

  /** The highest generation any of the first `n` indexes holds for the key, or 0. */
  function MaxGeneration(reps: Reps, id: Bytes, n: nat): (g: nat)
    requires n <= |reps|
    ensures forall i | 0 <= i < n && id in reps[i].index :: reps[i].index[id].generation <= g
    ensures g > 0 ==> exists i :: 0 <= i < n && id in reps[i].index && reps[i].index[id].generation == g
  {
    if n == 0 then 0
    else
      var g := MaxGeneration(reps, id, n - 1);
      if id in reps[n - 1].index && reps[n - 1].index[id].generation > g then reps[n - 1].index[id].generation else g
  }

  datatype Op = Put(key: Key, value: Bytes, userFlags: nat) | Delete(key: Key)

  datatype Outcome = Ok | KeyTooLong | StorageFull | KeyNotFound | CrcMismatch

  /** The draft `put_flagged` writes to every replica. */
  function DraftOf(blockSize: nat, reps: Reps, op: Op): Layout.Draft
    requires op.Put?
  {
    Layout.Draft(blockSize, op.key, MaxGeneration(reps, op.key.id, |reps|) + 1, op.value, op.userFlags)
  }

  /** The first of the replicas from `i` on that has no room, or the number of replicas. */
  function FirstFull(reps: Reps, d: Layout.Draft, i: nat): (j: nat)
    requires d.Fits() && i <= |reps|
    ensures i <= j <= |reps|
    ensures forall k | i <= k < j :: Room(reps[k].disk, d)
    ensures j < |reps| ==> !Room(reps[j].disk, d)
    decreases |reps| - i
  {
    if i < |reps| && Room(reps[i].disk, d) then FirstFull(reps, d, i + 1) else i
  }

  /** What the Rust code takes for granted about a call: lengths and generations fit their fields. */
  predicate Admissible(blockSize: nat, reps: Reps, op: Op) {
    && blockSize >= 36
    && (op.Put? ==>
          && |op.value| < U32_LIMIT && op.userFlags < U32_LIMIT
          && (|op.key.raw| + 36 <= blockSize ==> |op.key.raw| < U16_LIMIT)
          && MaxGeneration(reps, op.key.id, |reps|) + 1 < U32_LIMIT)
  }

  /** The number of replicas, from the first on, whose device the operation writes. */
  function Reached(blockSize: nat, reps: Reps, op: Op): (n: nat)
    requires Admissible(blockSize, reps, op)
    ensures n <= |reps|
  {
    match op
    case Put(key, _, _) =>
      if |key.raw| > blockSize - 36 then 0 else FirstFull(reps, DraftOf(blockSize, reps, op), 0)
    case Delete(_) => |reps|
  }

  function Result(blockSize: nat, reps: Reps, op: Op): Outcome
    requires Admissible(blockSize, reps, op)
  {
    match op
    case Put(key, _, _) =>
      if |key.raw| > blockSize - 36 then KeyTooLong
      else if Reached(blockSize, reps, op) < |reps| then StorageFull
      else Ok
    case Delete(key) => if exists i :: 0 <= i < |reps| && key.id in reps[i].index then Ok else KeyNotFound
  }

  /** Replica `i` after the operation. */
  ghost function AfterOn(blockSize: nat, reps: Reps, op: Op, i: nat): Rep
    requires Admissible(blockSize, reps, op) && i < |reps|
  {
    if i >= Reached(blockSize, reps, op) then reps[i]
    else
      match op
      case Put(_, _, _) => AfterPut(reps[i], DraftOf(blockSize, reps, op))
      case Delete(key) => AfterDelete(reps[i], key.id)
  }

  ghost function After(blockSize: nat, reps: Reps, op: Op): (reps': Reps)
    requires Admissible(blockSize, reps, op)
    ensures |reps'| == |reps|
  {
    seq(|reps|, i requires 0 <= i < |reps| => AfterOn(blockSize, reps, op, i))
  }

  ghost predicate AllReady(reps: Reps) {
    forall i | 0 <= i < |reps| :: Ready(reps[i])
  }

  ghost predicate AllAnchored(reps: Reps) {
    forall i | 0 <= i < |reps| :: Anchored(reps[i])
  }

  // ---- how one key's answers move ----

  /** Every replica finds for `id` what it found before. */
  ghost predicate SameAnswers(reps: Reps, reps': Reps, id: Bytes) {
    |reps'| == |reps| && forall i | 0 <= i < |reps| :: Found(reps'[i], id) == Found(reps[i], id)
  }

  lemma {:induction false} SameGet(reps: Reps, reps': Reps, id: Bytes, n: nat)
    requires SameAnswers(reps, reps', id) && n <= |reps|
    ensures GetAmong(reps', id, n) == GetAmong(reps, id, n)
  {
    hide Found;
    if n > 0 { SameGet(reps, reps', id, n - 1); }
  }

  /** One replica at least finds the new value, and the others find it or an older one. */
  lemma NewestWins(reps: Reps, id: Bytes, h: Hit, j: nat)
    requires j < |reps| && Found(reps[j], id) == Some(h)
    requires forall i | 0 <= i < |reps| && Found(reps[i], id).Some? ::
               Found(reps[i], id) == Some(h) || Found(reps[i], id).value.generation < h.generation
    ensures Get(reps, id) == Some(h.value)
  {
    hide Found;
    GetIsHighest(reps, id, |reps|);
    var k :| 0 <= k < |reps| && Answers(reps, id, |reps|, k);
  }
}
