/** One replica: the device calls of each operation, and the state each operation leaves. */
module Engine {
  import opened Format
  import opened Records
  import opened Layout
  import Recovery

  /** A call on the block device. */
  datatype Step = Write(at: nat, block: Block) | Flush

  // ---- writes without a barrier ----

  predicate NoFlush(steps: seq<Step>) {
    forall k | 0 <= k < |steps| :: steps[k].Write?
  }

  function ApplyOne(disk: Disk, s: Step): (disk': Disk)
    ensures |disk'| == |disk|
  {
    if s.Write? && s.at < |disk| then disk[s.at := s.block] else disk
  }

  /** The contents a reader sees after `steps`. */
  function Apply(disk: Disk, steps: seq<Step>): (disk': Disk)
    ensures |disk'| == |disk|
  {
    if steps == [] then disk else ApplyOne(Apply(disk, steps[..|steps| - 1]), steps[|steps| - 1])
  }

  /** No two writes go to the same block. */
  predicate DistinctTargets(steps: seq<Step>) {
    && NoFlush(steps)
    && (forall j, k | 0 <= j < k < |steps| :: steps[j].at != steps[k].at)
  }

  lemma {:induction false} ApplyDistinct(disk: Disk, steps: seq<Step>)
    requires DistinctTargets(steps)
    ensures forall k | 0 <= k < |steps| && steps[k].at < |disk| :: Apply(disk, steps)[steps[k].at] == steps[k].block
    ensures forall i | 0 <= i < |disk| && (forall k | 0 <= k < |steps| :: steps[k].at != i) ::
              Apply(disk, steps)[i] == disk[i]
  {
    if steps != [] {
      ApplyDistinct(disk, steps[..|steps| - 1]);
    }
  }

  // ---- allocation ----

  /** The free data blocks below `n`, in the order the allocation scan meets them. */
  function FreeBelow(disk: Disk, n: nat): (s: seq<nat>)
    requires n <= |disk|
    ensures |s| <= n
    ensures forall k | 0 <= k < |s| :: 1 <= s[k] < n && disk[s[k]].Free?
    ensures forall j, k | 0 <= j < k < |s| :: s[j] < s[k]
    ensures forall i | 1 <= i < n && disk[i].Free? :: i in s
  {
    if n <= 1 then []
    else FreeBelow(disk, n - 1) + if disk[n - 1].Free? then [n - 1] else []
  }

  function FreeList(disk: Disk): seq<nat> { FreeBelow(disk, |disk|) }

  lemma {:induction false} FreeBelowPrefix(disk: Disk, n: nat, n': nat)
    requires n <= n' <= |disk|
    ensures FreeBelow(disk, n) <= FreeBelow(disk, n')
  {
    if n < n' { FreeBelowPrefix(disk, n, n' - 1); }
  }

  // ---- operations ----

  datatype Rep = Rep(disk: Disk, index: Index)

  function IndexOf(m: map<Bytes, Record>): Index {
    map id | id in m :: EntryOf(m[id])
  }

  /** The index entry `e` is that of a complete record of the key. */
  ghost predicate Anchors(disk: Disk, id: Bytes, e: Entry) {
    var o := Read(disk, e.block);
    o.Some? && o.value.key.id == id && EntryOf(o.value) == e
  }

  /** Every index entry leads to a complete record of its own key, though perhaps not to the best one. */
  ghost predicate Anchored(rep: Rep) {
    Recovery.Opened(rep.disk) && forall id | id in rep.index :: Anchors(rep.disk, id, rep.index[id])
  }

  /** The record that the index names. */
  ghost function Named(rep: Rep, id: Bytes): (r: Record)
    requires Anchored(rep) && id in rep.index
    ensures Complete(rep.disk, r) && r.key.id == id && EntryOf(r) == rep.index[id]
  {
    Read(rep.disk, rep.index[id].block).value
  }

  /** A replica as `build_index` leaves it: the index is the one a rescan would give. */
  ghost predicate Indexed(rep: Rep) {
    Recovery.Opened(rep.disk) && rep.index == IndexOf(Meaning(rep.disk))
  }

  /** A replica as `recover` and `build_index` leave it: indexed, and without garbage. */
  ghost predicate Ready(rep: Rep) {
    Indexed(rep) && Recovery.Clean(rep.disk)
  }

  /** Enough free blocks for the draft. */
  predicate Room(disk: Disk, d: Draft)
    requires d.Fits()
  {
    |FreeList(disk)| >= Needed(d)
  }

  function Allocated(disk: Disk, d: Draft): (blocks: seq<nat>)
    requires d.Fits() && Room(disk, d)
    ensures |blocks| == Needed(d) <= |disk|
    ensures forall k | 0 <= k < |blocks| :: 1 <= blocks[k] < |disk| && disk[blocks[k]].Free?
    ensures forall j, k | 0 <= j < k < |blocks| :: blocks[j] < blocks[k]
  {
    FreeList(disk)[..Needed(d)]
  }

  /** `write_record`: the descriptor, then the chunks in order. */
  function WriteSteps(d: Draft, blocks: seq<nat>): (s: seq<Step>)
    requires d.Fits()
    ensures |s| == |blocks| && forall k | 0 <= k < |s| :: s[k] == Write(blocks[k], NewBlock(d, blocks, k))
  {
    seq(|blocks|, k requires 0 <= k < |blocks| => Write(blocks[k], NewBlock(d, blocks, k)))
  }

  /** The blocks of a record in erasing order. */
  function BlocksOf(r: Record): seq<nat> { [r.block] + r.chunks }

  function EraseBlocks(blocks: seq<nat>): (s: seq<Step>)
    ensures |s| == |blocks| && forall k | 0 <= k < |s| :: s[k] == Write(blocks[k], Free)
  {
    seq(|blocks|, k requires 0 <= k < |blocks| => Write(blocks[k], Free))
  }

  /** The blocks of the record headed by `block`, if it is complete. */
  ghost function EraseList(disk: Disk, block: nat): seq<nat> {
    match Read(disk, block)
    case Some(r) => BlocksOf(r)
    case None => []
  }

  /** `free_record` on the record headed by `block`. */
  ghost function EraseSteps(disk: Disk, block: nat): seq<Step> {
    EraseBlocks(EraseList(disk, block))
  }

  /** The device calls of a `put` that writes to `blocks` and then erases the blocks `erased`, if any were replaced. */
  function PutCalls(d: Draft, blocks: seq<nat>, erased: Option<seq<nat>>): seq<Step>
    requires d.Fits()
  {
    WriteSteps(d, blocks) + [Flush] + if erased.Some? then EraseBlocks(erased.value) + [Flush] else []
  }

  /** The device calls of a replica's `put` once it has found room. */
  ghost function PutSteps(rep: Rep, d: Draft): seq<Step>
    requires d.Fits() && Room(rep.disk, d)
  {
    var blocks := Allocated(rep.disk, d);
    PutCalls(d, blocks,
             if d.key.id in rep.index
             then Some(EraseList(Apply(rep.disk, WriteSteps(d, blocks)), rep.index[d.key.id].block))
             else None)
  }

  ghost function AfterPut(rep: Rep, d: Draft): Rep
    requires d.Fits() && Room(rep.disk, d)
  {
    Rep(Apply(rep.disk, PutSteps(rep, d)),
        rep.index[d.key.id := EntryOf(NewRecord(d, Allocated(rep.disk, d)))])
  }

  /** The device calls of `delete` on a replica. */
  ghost function DeleteSteps(rep: Rep, id: Bytes): seq<Step> {
    if id in rep.index then EraseSteps(rep.disk, rep.index[id].block) + [Flush] else []
  }

  ghost function AfterDelete(rep: Rep, id: Bytes): Rep {
    Rep(Apply(rep.disk, DeleteSteps(rep, id)), rep.index - {id})
  }
}
