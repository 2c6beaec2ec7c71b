/** What the operations do on any bytes and any index, damaged ones included, stated without their definitions. */
module AnyBytes {
  import opened Format
  import opened Crc
  import opened Blocks
  import Utf8
  import Reader
  import opened Records
  import opened Layout
  import Changes
  import opened Engine
  import opened Operations
  import opened Cluster
  import opened Device
  import opened Raw

  // ---- which blocks the eraser meets ----

  /** The link that leads to place `k` of a walk: the start, or the chunk link of the block before. */
  function LinkTo(blocks: seq<Bytes>, start: nat, l: seq<nat>, k: nat): nat
    requires k <= |l| && forall j | 0 <= j < |l| :: l[j] < |blocks| && |blocks[l[j]]| >= 36
  {
    if k == 0 then start else Le32(blocks[l[k - 1]], 16)
  }

  /** The block at place `k` of the walk is in range, under a good checksum, new, and where the link before leads. */
  predicate Placed(blocks: seq<Bytes>, start: nat, l: seq<nat>, visited: set<nat>, k: nat)
    requires k < |l| && forall j | 0 <= j < |l| :: l[j] < |blocks| && |blocks[l[j]]| >= 36
  {
    && CrcOk(blocks[l[k]]) && l[k] !in visited && l[k] !in l[..k]
    && l[k] == LinkTo(blocks, start, l, k)
  }

  /**
   * `l` is the longest walk from `start` along the chunk links, whatever the type of the blocks: every block is in
   * range, has a good checksum and is met once, and the walk ends where the next one would not be such a block.
   */
  predicate LoosePath(blocks: seq<Bytes>, start: nat, l: seq<nat>, visited: set<nat>) {
    && (forall k | 0 <= k < |l| :: l[k] < |blocks| && |blocks[l[k]]| >= 36)
    && (forall k | 0 <= k < |l| :: Placed(blocks, start, l, visited, k))
    && var next := LinkTo(blocks, start, l, |l|);
       next >= |blocks| || next in l || next in visited || !CrcOk(blocks[next])
  }

  lemma {:induction false} ChainIsPath(blocks: seq<Bytes>, next: nat, visited: set<nat>)
    requires |blocks| <= 0xFFFF_FFFF && forall i | 0 <= i < |blocks| :: |blocks[i]| >= 36
    requires forall i | i in visited :: i < |blocks|
    ensures LoosePath(blocks, next, LooseChain(blocks, next, visited), visited)
    decreases |blocks| - |visited|
  {
    hide CrcOk, U32At, Le32;
    var l := LooseChain(blocks, next, visited);
    if l != [] {
      Reader.BoundedSize(visited + {next}, |blocks|);
      FieldsAre(blocks[next], 16);
      var following := Le32(blocks[next], 16);
      var rest := LooseChain(blocks, following, visited + {next});
      ChainIsPath(blocks, following, visited + {next});
      assert l == [next] + rest;
      forall k | 0 <= k < |l| ensures Placed(blocks, next, l, visited, k) {
        if k > 0 { PlacedLater(blocks, next, rest, visited, k - 1); }
      }
    }
  }

  lemma PlacedLater(blocks: seq<Bytes>, next: nat, rest: seq<nat>, visited: set<nat>, k: nat)
    requires next < |blocks| && |blocks[next]| >= 36 && k < |rest|
    requires forall j | 0 <= j < |rest| :: rest[j] < |blocks| && |blocks[rest[j]]| >= 36
    requires Placed(blocks, Le32(blocks[next], 16), rest, visited + {next}, k)
    ensures Placed(blocks, next, [next] + rest, visited, k + 1)
  {
    hide CrcOk, Le32;
    var l := [next] + rest;
    assert l[..k + 1] == [next] + rest[..k];
    assert l[k] == if k == 0 then next else rest[k - 1];
  }

  /** A walk cannot go on where another one from the same start has ended. */
  lemma {:induction false} PathsAgree(blocks: seq<Bytes>, start: nat, l: seq<nat>, m: seq<nat>, k: nat)
    requires LoosePath(blocks, start, l, {}) && LoosePath(blocks, start, m, {}) && k <= |l|
    ensures k <= |m| && l[..k] == m[..k]
  {
    hide CrcOk, Le32;
    if k > 0 {
      PathsAgree(blocks, start, l, m, k - 1);
      assert Placed(blocks, start, l, {}, k - 1);
      assert k > 1 ==> l[k - 2] == l[..k - 1][k - 2] == m[..k - 1][k - 2] == m[k - 2];
      assert LinkTo(blocks, start, l, k - 1) == LinkTo(blocks, start, m, k - 1);
      assert m[..|m|] == m;
      assert k - 1 < |m| ==> Placed(blocks, start, m, {}, k - 1);
    }
  }

  lemma PathUnique(blocks: seq<Bytes>, start: nat, l: seq<nat>, m: seq<nat>)
    requires LoosePath(blocks, start, l, {}) && LoosePath(blocks, start, m, {})
    ensures l == m
  {
    hide LoosePath;
    PathsAgree(blocks, start, l, m, |l|);
    PathsAgree(blocks, start, m, l, |m|);
    assert l[..|l|] == l && m[..|m|] == m;
  }

  /** `free_record` erases the descriptor and then the blocks of that walk, taken after the descriptor is gone. */
  lemma LooseEraseIff(blocks: seq<Bytes>, d: nat, pattern: Byte, l: seq<nat>)
    requires |blocks| <= 0xFFFF_FFFF && d < |blocks| && forall i | 0 <= i < |blocks| :: |blocks[i]| >= 36
    ensures LooseErase(blocks, d, pattern) == [d] + l <==>
            LoosePath(blocks[d := Fill(|blocks[d]|, pattern)], Le32(blocks[d], 20), l, {})
  {
    hide CrcOk, U32At, Le32, LooseChain;
    var gone, start := blocks[d := Fill(|blocks[d]|, pattern)], Le32(blocks[d], 20);
    FieldsAre(blocks[d], 20);
    var m := LooseChain(gone, start, {});
    ChainIsPath(gone, start, {});
    if LoosePath(gone, start, l, {}) { PathUnique(gone, start, l, m); }
    assert LooseErase(blocks, d, pattern)[1..] == m && ([d] + l)[1..] == l;
  }

  // ---- what becomes of a put ----

  lemma {:induction false} ErasedDisk(disk: Disk, list: seq<nat>, i: nat)
    requires i < |disk|
    ensures Apply(disk, EraseBlocks(list))[i] == if i in list then Free else disk[i]
  {
    if list != [] {
      var n := |list| - 1;
      ErasedDisk(disk, list[..n], i);
      assert EraseBlocks(list)[..n] == EraseBlocks(list[..n]);
      assert list == list[..n] + [list[n]];
    }
  }

  /** A record read on `disk` is still read after erasing `list` if and only if none of its blocks is in the list. */
  lemma ReadAfterErase(disk: Disk, r: Record, list: seq<nat>)
    requires Complete(disk, r)
    ensures Read(Apply(disk, EraseBlocks(list)), r.block) ==
            if exists i :: i in list && Occupies(r, i) then None else Some(r)
  {
    hide Complete, Apply, EraseBlocks;
    var disk' := Apply(disk, EraseBlocks(list));
    forall i: nat | i < |disk| ensures disk'[i] == if i in list then Free else disk[i] { ErasedDisk(disk, list, i); }
    Changes.SurvivesLosses(disk, disk', r);
    forall i: nat | Occupies(r, i) ensures i < |disk| && !disk[i].Free? { OccupiedReadable(disk, r, i); }
    if i :| i in list && Occupies(r, i) {
      assert disk'[i] != disk[i];
      if Read(disk', r.block).Some? {
        var q := Read(disk', r.block).value;
        Changes.LossesAddNothing(disk, disk', q);
        RecordsByBlock(disk, q, r);
      }
    } else {
      ReadIs(disk', r);
    }
  }

  /** The bytes once a put has written its record, before it erases anything. */
  ghost function Written(raw: RawRep, d: Draft, pattern: Byte): (blocks: seq<Bytes>)
    requires InOrder(raw, d.blockSize) && d.Fits() && Room(Views(raw.blocks), d)
    ensures SizedTo(blocks, d.blockSize) && |blocks| == |raw.blocks|
  {
    Rewrite(raw.blocks, WriteSteps(d, Allocated(Views(raw.blocks), d)), d.blockSize, pattern)
  }

  /** The index names a block for the key whose checksum fails once the new record is written. */
  ghost predicate PutBroken(raw: RawRep, d: Draft, pattern: Byte)
    requires InOrder(raw, d.blockSize) && d.Fits() && Room(Views(raw.blocks), d)
  {
    d.key.id in raw.index && !CrcOk(Written(raw, d, pattern)[raw.index[d.key.id].block])
  }

  /** The blocks a put erases after its first flush. */
  ghost function PutErases(raw: RawRep, d: Draft, pattern: Byte): seq<nat>
    requires InOrder(raw, d.blockSize) && d.Fits() && Room(Views(raw.blocks), d)
  {
    if d.key.id in raw.index && !PutBroken(raw, d, pattern)
    then LooseErase(Written(raw, d, pattern), raw.index[d.key.id].block, pattern) else []
  }

  /** What becomes of a replica that has room: the record is indexed, and found unless its blocks were erased again. */
  ghost predicate Lands(raw: RawRep, d: Draft, pattern: Byte, raw': RawRep)
    requires InOrder(raw, d.blockSize) && d.Fits() && Room(Views(raw.blocks), d)
  {
    var taken := Allocated(Views(raw.blocks), d);
    && InOrder(raw', d.blockSize)
    && raw'.index == raw.index[d.key.id := Entry(d.generation, taken[0], |d.value|)]
    && Found(Look(raw'), d.key.id) ==
       if exists i :: i in taken && i in PutErases(raw, d, pattern) then None else Some(Hit(d.generation, d.value))
  }

  /**
   * A put on any bytes: it fails exactly for want of room or on a broken old descriptor, indexes the new record
   * even in the second case, and the replica then finds the new value if and only if no block of the new record
   * is among those that were erased for the old one.
   */
  lemma InsertMeans(raw: RawRep, d: Draft, pattern: Byte)
    requires InOrder(raw, d.blockSize) && Encodable(d) && (pattern == 0x00 || pattern == 0xFF)
    ensures var e, disk := InsertEffect(raw, d, pattern), Views(raw.blocks);
            if !Room(disk, d) then e == Effect([], StorageFull, raw.index)
            else && e.outcome == (if PutBroken(raw, d, pattern) then CrcMismatch else Ok)
                 && Lands(raw, d, pattern, Worked(raw, e, d.blockSize, pattern))
  {
    hide View, Complete, Apply, Needed, Allocated, Utf8.Lossy, CrcOk, LooseErase, Rewrite, Room, Faithful, NewBlock;
    var disk := Views(raw.blocks);
    if Room(disk, d) {
      var blocks := Allocated(disk, d);
      var writes, r := WriteSteps(d, blocks), NewRecord(d, blocks);
      AllocationOk(disk, d);
      WritesFaithful(d, blocks, pattern);
      RewriteViews(raw.blocks, writes, d.blockSize, pattern);
      WriteThenRead(disk, d, blocks);
      var written, disk1 := Written(raw, d, pattern), Apply(disk, writes);
      assert Complete(disk1, r);
      var list := PutErases(raw, d, pattern);
      ReadAfterErase(disk1, r, list);
      AfterInsert(raw, d, pattern, list);
      forall i: nat ensures Occupies(r, i) <==> i in blocks { OccupiesIs(d, blocks, i); }
    }
  }

  lemma OccupiesIs(d: Draft, blocks: seq<nat>, i: nat)
    requires |blocks| >= 1
    ensures Occupies(NewRecord(d, blocks), i) <==> i in blocks
  {
    assert blocks == [blocks[0]] + blocks[1..];
  }

  /** The bytes after a put decode to the written disk with the erased blocks free. */
  lemma AfterInsert(raw: RawRep, d: Draft, pattern: Byte, list: seq<nat>)
    requires InOrder(raw, d.blockSize) && Encodable(d) && (pattern == 0x00 || pattern == 0xFF)
    requires Room(Views(raw.blocks), d) && list == PutErases(raw, d, pattern)
    ensures var disk := Views(raw.blocks);
            Views(Worked(raw, InsertEffect(raw, d, pattern), d.blockSize, pattern).blocks)
            == Apply(Apply(disk, WriteSteps(d, Allocated(disk, d))), EraseBlocks(list))
  {
    hide View, Apply, Needed, Allocated, Utf8.Lossy, CrcOk, LooseErase, Rewrite, Room, Faithful, NewBlock, Written;
    hide EraseBlocks, WriteSteps;
    var disk := Views(raw.blocks);
    var blocks := Allocated(disk, d);
    var writes := WriteSteps(d, blocks);
    var erased := if d.key.id in raw.index && !PutBroken(raw, d, pattern) then Some(list) else None;
    BelowNull(disk, d);
    PutFaithful(d, blocks, erased, pattern);
    EffectCalls(raw, d, pattern, erased);
    RewriteViews(raw.blocks, PutCalls(d, blocks, erased), d.blockSize, pattern);
    CallsApplied(disk, d, blocks, erased);
  }

  lemma BelowNull(disk: Disk, d: Draft)
    requires d.Fits() && Room(disk, d) && |disk| <= NULL_BLOCK
    ensures var blocks := Allocated(disk, d);
            |blocks| <= NULL_BLOCK && forall j | 0 <= j < |blocks| :: blocks[j] < NULL_BLOCK
  {
    hide Room, Allocated;
  }

  lemma EffectCalls(raw: RawRep, d: Draft, pattern: Byte, erased: Option<seq<nat>>)
    requires InOrder(raw, d.blockSize) && Encodable(d) && Room(Views(raw.blocks), d)
    requires erased == if d.key.id in raw.index && !PutBroken(raw, d, pattern)
                       then Some(PutErases(raw, d, pattern)) else None
    ensures InsertEffect(raw, d, pattern).steps == PutCalls(d, Allocated(Views(raw.blocks), d), erased)
  {
    hide View, CrcOk, LooseErase, Rewrite, Room, Allocated, PutCalls, Utf8.Lossy;
  }

  lemma CallsApplied(disk: Disk, d: Draft, blocks: seq<nat>, erased: Option<seq<nat>>)
    requires d.Fits()
    ensures var list := if erased.Some? then erased.value else [];
            Apply(disk, PutCalls(d, blocks, erased)) == Apply(Apply(disk, WriteSteps(d, blocks)), EraseBlocks(list))
  {
    hide Apply, WriteSteps;
    var writes, disk1 := WriteSteps(d, blocks), Apply(disk, WriteSteps(d, blocks));
    ApplyFlush(disk, writes);
    if erased.Some? {
      ApplyConcat(disk, writes + [Flush], EraseBlocks(erased.value) + [Flush]);
      ApplyFlush(disk1, EraseBlocks(erased.value));
    } else {
      assert PutCalls(d, blocks, erased) == writes + [Flush];
      assert EraseBlocks([]) == [];
      ApplyNothing(disk1);
    }
  }

  /**
   * A put whose old descriptor block has come to look free may take that very block for the new record. It then
   * erases it again as the old one, and reports success.
   */
  lemma LostPut(raw: RawRep, d: Draft, pattern: Byte)
    requires InOrder(raw, d.blockSize) && Encodable(d) && (pattern == 0x00 || pattern == 0xFF)
    requires Room(Views(raw.blocks), d) && d.key.id in raw.index
    requires raw.index[d.key.id].block in Allocated(Views(raw.blocks), d)
    ensures InsertEffect(raw, d, pattern).outcome == Ok
    ensures Found(Look(Worked(raw, InsertEffect(raw, d, pattern), d.blockSize, pattern)), d.key.id) == None
  {
    hide View, CrcOk, LooseErase, Rewrite, Room, Allocated, Utf8.Lossy, InsertEffect, Found;
    var block := raw.index[d.key.id].block;
    InsertMeans(raw, d, pattern);
    WrittenSound(raw, d, pattern, block);
    LooseFirst(Written(raw, d, pattern), block, pattern);
  }

  lemma LooseFirst(blocks: seq<Bytes>, d: nat, pattern: Byte)
    requires d < |blocks| && forall i | 0 <= i < |blocks| :: |blocks[i]| >= 36
    ensures d in LooseErase(blocks, d, pattern)
  {
    hide LooseChain;
  }

  /** The blocks of the new record have a good checksum. */
  lemma WrittenSound(raw: RawRep, d: Draft, pattern: Byte, i: nat)
    requires InOrder(raw, d.blockSize) && Encodable(d) && Room(Views(raw.blocks), d)
    requires i in Allocated(Views(raw.blocks), d)
    ensures i < |raw.blocks| && CrcOk(Written(raw, d, pattern)[i])
  {
    hide View, CrcOk, Rewrite, Room, Allocated, Utf8.Lossy, Apply, NewBlock, Faithful, Needed;
    var disk := Views(raw.blocks);
    var blocks := Allocated(disk, d);
    var writes, written := WriteSteps(d, blocks), Written(raw, d, pattern);
    var k :| 0 <= k < |blocks| && blocks[k] == i;
    BelowNull(disk, d);
    WritesFaithful(d, blocks, pattern);
    RewriteViews(raw.blocks, writes, d.blockSize, pattern);
    AllocationOk(disk, d);
    ApplyDistinct(disk, writes);
    assert writes[k].at == i;
    NewBlockSize(d, blocks, k);
    assert View(written[i]) == Views(written)[i] == NewBlock(d, blocks, k);
    if !CrcOk(written[i]) { TornUnreadable(written[i]); }
  }

  /** The smallest such store: one data block, indexed for a key, that has been zeroed behind the store's back. */
  lemma LostPutExample(header: Bytes)
    requires |header| == 37
    ensures var d := Draft(37, Utf8.MakeKey([0x6B]), 2, [], 0);
            var raw := RawRep([header, Fill(37, 0)], map[d.key.id := Entry(1, 1, 0)]);
            && InOrder(raw, 37) && Encodable(d) && Room(Views(raw.blocks), d)
            && InsertEffect(raw, d, 0).outcome == Ok
            && Found(Look(Worked(raw, InsertEffect(raw, d, 0), 37, 0)), d.key.id) == None
  {
    hide View, Utf8.Lossy, InsertEffect, Found, Worked;
    var d := Draft(37, Utf8.MakeKey([0x6B]), 2, [], 0);
    var raw := RawRep([header, Fill(37, 0)], map[d.key.id := Entry(1, 1, 0)]);
    ViewOfFree(37, 0);
    var disk := Views(raw.blocks);
    OneFree(disk, d);
    LostPut(raw, d, 0);
  }

  lemma OneFree(disk: Disk, d: Draft)
    requires |disk| == 2 && disk[1].Free? && d.Fits() && d.value == []
    ensures Room(disk, d) && 1 in Allocated(disk, d)
  {
    assert FreeBelow(disk, 1) == [];
    assert FreeList(disk) == [1];
    assert Needed(d) == 1;
  }
}
