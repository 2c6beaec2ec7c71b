/** One replica as the Rust code has it: methods that change a device and an index in place. */
module ReplicaEngine {
  import opened Format
  import opened Crc
  import opened Utf8
  import opened Blocks
  import opened Records
  import opened Layout
  import opened Recovery
  import opened Engine
  import Operations
  import opened Crash
  import opened Cluster
  import opened Device
  import opened Reader
  import Marshal
  import opened Raw

  // ---- what raw blocks say, next to what they decode to ----

  lemma TypeByte(b: Bytes)
    requires |b| >= 36
    ensures View(b).Desc? ==> b[0] == TYPE_DESCRIPTOR
    ensures View(b).Free? <==> b[0] == 0x00 || b[0] == 0xFF
  {
    hide CrcOk, Lossy;
  }

  lemma FirstByte(blocks: seq<Bytes>, i: nat)
    requires i < |blocks| && forall k | 0 <= k < |blocks| :: |blocks[k]| >= 36
    ensures Views(blocks)[i].Free? <==> blocks[i][0] == 0x00 || blocks[i][0] == 0xFF
  {
    hide View;
    TypeByte(blocks[i]);
  }

  lemma ScanStart(disk: Disk)
    ensures IsBest(disk, 1, map[])
  {}

  lemma ScanEnd(disk: Disk, n: nat, m: map<Bytes, Record>)
    requires IsBest(disk, n, m) && (n >= |disk| && n >= 1)
    ensures m == Meaning(disk)
  {
    hide Payloads;
    BestUnique(disk, |disk|, m, Meaning(disk));
  }

  class Replica {
    const dev: MemDevice
    var index: Index

    /** In order, and with blocks that hold a descriptor header: `open` accepts blocks a little smaller. */
    ghost predicate Valid()
      reads this, dev, dev.data
    {
      Attached() && dev.blockSize >= 36
    }

    /** As `open` leaves a replica. */
    ghost predicate Attached()
      reads this, dev, dev.data
    {
      dev.Valid() && forall id | id in index :: 1 <= index[id].block < dev.blockCount
    }

    ghost function State(): Rep
      requires dev.Sized()
      reads this, dev
    {
      Rep(dev.Disk(), index)
    }

    /** The same state in bytes. */
    ghost function Bytewise(): RawRep
      reads this, dev
    {
      RawRep(dev.blocks, index)
    }

    constructor (dev: MemDevice)
      requires dev.Valid()
      ensures Attached() && this.dev == dev && index == map[]
    {
      this.dev := dev;
      index := map[];
    }

    /** `build_index`: an ascending scan that keeps the highest generation of each key. */
    method BuildIndex()
      requires Valid()
      modifies this`index
      ensures Valid() && index == IndexOf(Meaning(dev.Disk()))
    {
      hide View, Complete, Meaning, Improves, IsBest, IndexOf, Read;
      index := map[];
      EmptyIndex();
      ghost var disk, m: map<Bytes, Record> := dev.Disk(), map[];
      ScanStart(disk);
      var i := 1;
      while i < dev.blockCount
        invariant 1 <= i && Valid() && dev.Disk() == disk
        invariant IsBest(disk, i, m) && index == IndexOf(m)
      {
        var buf := dev.ReadBlock(i);
        BestStep(disk, i, m);
        TypeByte(buf.value);
        if buf.value[0] != TYPE_DESCRIPTOR {
          NotDescriptor(disk, i);
        } else {
          var _, o := VerifyAndReadRecord(dev, i);
          if o.Some? {
            var r := o.value;
            var id := r.key.id;
            ImprovesIndex(m, index, r);
            if id !in index || r.hdr.generation > index[id].generation {
              index := index[id := EntryOf(r)];
              m := m[id := r];
            }
          }
        }
        i := i + 1;
      }
      ScanEnd(disk, i, m);
    }

    /** The first half of `recover`: the best complete record of each key. */
    method CollectBest() returns (best: map<Bytes, Record>)
      requires Valid()
      ensures best == Meaning(dev.Disk())
    {
      hide View, Complete, Meaning, IsBest, Read;
      best := map[];
      ghost var disk := dev.Disk();
      ScanStart(disk);
      var i := 1;
      while i < dev.blockCount
        invariant 1 <= i && IsBest(disk, i, best)
      {
        var buf := dev.ReadBlock(i);
        BestStep(disk, i, best);
        TypeByte(buf.value);
        if buf.value[0] != TYPE_DESCRIPTOR {
          NotDescriptor(disk, i);
        } else {
          var _, o := VerifyAndReadRecord(dev, i);
          if o.Some? && (o.value.key.id !in best || o.value.hdr.generation > best[o.value.key.id].hdr.generation) {
            best := best[o.value.key.id := o.value];
          }
        }
        i := i + 1;
      }
      ScanEnd(disk, i, best);
    }

    /** Erases one more block, with a buffer of the free pattern. */
    method EraseOne(i: nat, free: Bytes, ghost pattern: Byte,
                    ghost raw: seq<Bytes>, ghost tape: Tape, ghost list: seq<nat>)
      requires Valid() && i < dev.blockCount == |raw| && (pattern == 0x00 || pattern == 0xFF)
      requires free == Fill(dev.blockSize, pattern)
      requires ErasedSoFar(raw, tape, list, dev.blocks, dev.Calls(), dev.id, dev.blockSize, pattern)
      modifies dev, dev.data, dev.journal
      ensures Valid() && dev.blocks == old(dev.blocks)[i := free]
      ensures ErasedSoFar(raw, tape, list + [i], dev.blocks, dev.Calls(), dev.id, dev.blockSize, pattern)
    {
      hide View, Fill, MemDevice.Holds, Rewrite, EraseBlocks, Recorded;
      ViewOfFree(dev.blockSize, pattern);
      ghost var before := dev.Calls();
      var _ := dev.WriteBlock(i, free);
      EraseOneMore(raw, list, i, dev.blockSize, pattern);
      RecordedThen(tape, before, dev.Calls(), dev.id, EraseBlocks(list), [Write(i, Free)]);
    }

    /** The second half of `recover`: erase every occupied data block outside `valid`. */
    method EraseOthers(valid: set<nat>, pattern: Byte, ghost garbage: set<nat>) returns (found: bool)
      requires Valid() && (pattern == 0x00 || pattern == 0xFF)
      requires forall i: nat :: i in garbage <==> 1 <= i < dev.blockCount && i !in valid && !dev.Disk()[i].Free?
      modifies dev, dev.data, dev.journal
      ensures Valid()
      ensures var list := Ascending(garbage, dev.blockCount);
              && ErasedSoFar(old(dev.blocks), old(dev.Calls()), list, dev.blocks, dev.Calls(), dev.id,
                             dev.blockSize, pattern)
              && (found <==> list != [])
      ensures forall k: nat | k < dev.blockCount && k !in garbage :: dev.blocks[k] == old(dev.blocks[k])
    {
      hide View, Views, Fill, MemDevice.Holds, Ascending, ErasedSoFar;
      found := false;
      ghost var raw, tape := dev.blocks, dev.Calls();
      EraseStart(raw, tape, dev.id, dev.blockSize, pattern);
      AscendingStart(garbage);
      if dev.blockCount == 0 { return; }
      var free := Fill(dev.blockSize, pattern);
      for i := 1 to dev.blockCount
        invariant Valid()
        invariant ErasedSoFar(raw, tape, Ascending(garbage, i), dev.blocks, dev.Calls(), dev.id, dev.blockSize, pattern)
        invariant found <==> Ascending(garbage, i) != []
        invariant forall k: nat | k < dev.blockCount && (k >= i || k !in garbage) :: dev.blocks[k] == raw[k]
      {
        AscendingStep(garbage, i);
        if i !in valid {
          var buf := dev.ReadBlock(i);
          FirstByte(raw, i);
          if buf.value[0] != 0x00 && buf.value[0] != 0xFF {
            EraseOne(i, free, pattern, raw, tape, Ascending(garbage, i));
            found := true;
          }
        }
      }
    }

    /** `recover`: keep the best records, erase every other occupied data block, flush if anything was erased. */
    method Recover(pattern: Byte)
      requires Valid() && (pattern == 0x00 || pattern == 0xFF)
      modifies dev, dev.data, dev.journal
      ensures Valid() && dev.Disk() == Recovered(old(dev.Disk()))
      ensures dev.blocks == Rewrite(old(dev.blocks), RecoverSteps(old(dev.Disk())), dev.blockSize, pattern)
      ensures Recorded(old(dev.Calls()), dev.Calls(), dev.id, RecoverSteps(old(dev.Disk())))
      ensures forall i: nat | i < dev.blockCount && InBest(old(dev.Disk()), i) :: dev.blocks[i] == old(dev.blocks[i])
    {
      hide View, Complete, Meaning, Garbage, InBest, GarbageSet, Ascending, EraseBlocks;
      hide RecoverSteps, Rewrite, Recovered, Recorded, ErasedSoFar, MemDevice.Holds;
      ghost var disk, raw, tape := dev.Disk(), dev.blocks, dev.Calls();
      var best := CollectBest();
      var valid := {0} + set id, b | id in best && b in BlocksOf(best[id]) :: b;
      ValidIsBest(disk, valid);
      GarbageIs(disk);
      var found := EraseOthers(valid, pattern, GarbageSet(disk));
      SoFar(raw, tape, Ascending(GarbageSet(disk), |disk|), dev.blocks, dev.Calls(), dev.id, dev.blockSize, pattern);
      RecoverOutcome(raw, dev.blockSize, pattern);
      if found {
        ghost var before := dev.Calls();
        dev.Flush();
        RecordedThen(tape, before, dev.Calls(), dev.id, EraseBlocks(Ascending(GarbageSet(disk), |disk|)), [Flush]);
      }
    }

    /** `find_free_blocks`: the first `n` free data blocks, or nothing when there are fewer. */
    method FindFreeBlocks(n: nat) returns (o: Option<seq<nat>>)
      requires Valid()
      ensures o == if |FreeList(dev.Disk())| >= n then Some(FreeList(dev.Disk())[..n]) else None
    {
      hide View, MemDevice.Holds, FreeBelow, FreeList, Classify, CrcOk;
      ghost var disk := dev.Disk();
      var result: seq<nat> := [];
      var i := 1;
      FreeStart(disk);
      while i < dev.blockCount && |result| < n
        invariant 1 <= i && (i <= dev.blockCount || i == 1) && |result| <= n
        invariant result == if i <= dev.blockCount then FreeBelow(disk, i) else []
      {
        var buf := dev.ReadBlock(i);
        ClassifyAgrees(buf.value);
        FreeNext(disk, i);
        if Classify(buf.value) == IsFree {
          result := result + [i];
        }
        i := i + 1;
      }
      FreeFound(disk, i, result, n);
      if |result| < n { return None; }
      return Some(result);
    }

    /** `write_record`: the descriptor and then the chunks, each built in a fresh buffer. */
    method WriteRecord(blocks: seq<nat>, key: Bytes, generation: nat, value: Bytes, userFlags: nat, ghost pattern: Byte)
      requires Valid() && |key| + 36 <= dev.blockSize && |key| < U16_LIMIT && |value| < U32_LIMIT
      requires generation < U32_LIMIT && userFlags < U32_LIMIT
      requires 1 <= |blocks| <= NULL_BLOCK && forall k | 0 <= k < |blocks| :: blocks[k] < dev.blockCount
      modifies dev, dev.data, dev.journal
      ensures Valid()
      ensures var steps := WriteSteps(Draft(dev.blockSize, MakeKey(key), generation, value, userFlags), blocks);
              && dev.blocks == Rewrite(old(dev.blocks), steps, dev.blockSize, pattern)
              && Recorded(old(dev.Calls()), dev.Calls(), dev.id, steps)
    {
      hide View, MemDevice.Holds, WriteSteps, First, NewBlock, Encode, EncodeDesc, Rewrite, Recorded, Lossy;
      ghost var d := Draft(dev.blockSize, MakeKey(key), generation, value, userFlags);
      ghost var raw, tape, steps := dev.blocks, dev.Calls(), WriteSteps(d, blocks);
      var firstCap := FirstCapacity(dev.blockSize, |key|);
      var first := if |value| <= firstCap then |value| else firstCap;
      FirstIs(d, first);
      var next := if |blocks| == 1 then NULL_BLOCK else blocks[1];
      var hdr := DescHeader(generation, |value|, |blocks|, next, 0, userFlags);
      var buf := Marshal.BuildDescriptor(dev.blockSize, hdr, key, value[..first]);
      FirstBlockIs(d, blocks, pattern);
      NewBlockEncodes(d, blocks, 0, pattern);
      OneStep(raw, steps, 0, dev.blockSize, pattern);
      var _ := dev.WriteBlock(blocks[0], buf);
      ghost var before := dev.Calls();
      WriteChunks(blocks, value[first..], d, raw, pattern);
      HeadAndTail(steps);
      RecordedThen(tape, before, dev.Calls(), dev.id, [steps[0]], steps[1..]);
    }

    /** The loop of `write_record` over the chunk blocks. */
    method WriteChunks(blocks: seq<nat>, rest: Bytes, ghost d: Draft, ghost raw: seq<Bytes>, ghost pattern: Byte)
      requires Valid() && Encodable(d) && d.blockSize == dev.blockSize
      requires 1 <= |blocks| <= NULL_BLOCK && forall k | 0 <= k < |blocks| :: blocks[k] < dev.blockCount
      requires |raw| == dev.blockCount
      requires dev.blocks == Rewrite(raw, WriteSteps(d, blocks)[..1], dev.blockSize, pattern)
      requires rest == d.value[First(d)..]
      modifies dev, dev.data, dev.journal
      ensures Valid() && dev.blocks == Rewrite(raw, WriteSteps(d, blocks), dev.blockSize, pattern)
      ensures Recorded(old(dev.Calls()), dev.Calls(), dev.id, WriteSteps(d, blocks)[1..])
    {
      hide View, MemDevice.Holds, Cut, First, Needed, NewBlock, Rewrite, RewriteOne, Recorded, Lossy;
      ghost var steps, tape := WriteSteps(d, blocks), dev.Calls();
      var remaining := rest;
      CutSteps(d, 0);
      RecordedNone(tape, dev.id);
      assert steps[1..1] == [];
      for ci := 1 to |blocks|
        invariant Valid() && dev.blocks == Rewrite(raw, steps[..ci], dev.blockSize, pattern)
        invariant Recorded(tape, dev.Calls(), dev.id, steps[1..ci])
        invariant remaining == d.value[Cut(d, ci - 1)..]
      {
        OneStep(raw, steps, ci, dev.blockSize, pattern);
        ghost var before := dev.Calls();
        remaining := WriteChunk(blocks, ci, remaining, d, pattern);
        RecordedThen(tape, before, dev.Calls(), dev.id, steps[1..ci], [steps[ci]]);
        assert steps[1..ci] + [steps[ci]] == steps[1..ci + 1];
      }
      assert steps[..|blocks|] == steps;
    }

    /** One turn of that loop: the next piece of the value goes to block `ci` of the chain. */
    method WriteChunk(blocks: seq<nat>, ci: nat, remaining: Bytes, ghost d: Draft, ghost pattern: Byte)
      returns (rest: Bytes)
      requires Valid() && Encodable(d) && d.blockSize == dev.blockSize && 1 <= ci < |blocks| <= NULL_BLOCK
      requires forall k | 0 <= k < |blocks| :: blocks[k] < dev.blockCount
      requires remaining == d.value[Cut(d, ci - 1)..]
      modifies dev, dev.data, dev.journal
      ensures Valid() && rest == d.value[Cut(d, ci)..]
      ensures dev.blocks == RewriteOne(old(dev.blocks), WriteSteps(d, blocks)[ci], dev.blockSize, pattern)
      ensures Recorded(old(dev.Calls()), dev.Calls(), dev.id, [WriteSteps(d, blocks)[ci]])
    {
      hide View, MemDevice.Holds, Cut, First, Needed, NewBlock, Encode, EncodeChunk, Recorded, Lossy;
      var cap := ChunkCapacity(dev.blockSize);
      var size := if |remaining| <= cap then |remaining| else cap;
      var nextIdx := if ci + 1 < |blocks| then blocks[ci + 1] else NULL_BLOCK;
      var ch := ChunkHeader(0, blocks[0], ci, nextIdx);
      var buf := Marshal.BuildChunk(dev.blockSize, ch, remaining[..size]);
      ChunkBlockIs(d, blocks, ci, remaining[..size], pattern);
      NewBlockEncodes(d, blocks, ci, pattern);
      var _ := dev.WriteBlock(blocks[ci], buf);
      rest := remaining[size..];
    }

    /**
     * `free_record`: the walk trusts any block with a good CRC, whatever its type. On a complete record these
     * are exactly the record's blocks.
     */
    method FreeRecord(d: nat, pattern: Byte) returns (ok: bool)
      requires Valid() && d < dev.blockCount && (pattern == 0x00 || pattern == 0xFF)
      modifies dev, dev.data, dev.journal
      ensures Valid()
      ensures ok == CrcOk(old(dev.blocks[d]))
      ensures !ok ==> dev.blocks == old(dev.blocks) && dev.Calls() == old(dev.Calls())
      ensures ok ==>
                var steps := EraseBlocks(LooseErase(old(dev.blocks), d, pattern));
                && dev.blocks == Rewrite(old(dev.blocks), steps, dev.blockSize, pattern)
                && Recorded(old(dev.Calls()), dev.Calls(), dev.id, steps)
      ensures Read(old(dev.Disk()), d).Some? ==>
                ok && LooseErase(old(dev.blocks), d, pattern) == BlocksOf(Read(old(dev.Disk()), d).value)
    {
      hide View, Fill, MemDevice.Holds, CrcOk, U32At, Complete, Read, ErasedSoFar, LooseErase, LooseChain;
      ghost var raw, tape := dev.blocks, dev.Calls();
      if Read(dev.Disk(), d).Some? { LooseOnComplete(raw, Read(dev.Disk(), d).value, pattern); }
      var buf := dev.ReadBlock(d);
      var sound := VerifyBlockCrc(buf.value);
      if !sound { return false; }
      var free := Fill(dev.blockSize, pattern);
      var next: nat := U32At(buf.value, 20);
      EraseStart(raw, tape, dev.id, dev.blockSize, pattern);
      EraseOne(d, free, pattern, raw, tape, []);
      LooseStart(raw, d, pattern);
      WalkAndErase(next, free, pattern, raw, tape, [d], raw[d := free]);
      SoFar(raw, tape, LooseErase(raw, d, pattern), dev.blocks, dev.Calls(), dev.id, dev.blockSize, pattern);
      return true;
    }

    /** The loop of `free_record`. */
    method WalkAndErase(first: nat, free: Bytes, ghost pattern: Byte,
                        ghost raw: seq<Bytes>, ghost tape: Tape, ghost before: seq<nat>, ghost start: seq<Bytes>)
      requires Valid() && dev.blockCount == |raw| && (pattern == 0x00 || pattern == 0xFF)
      requires free == Fill(dev.blockSize, pattern) && dev.blocks == start
      requires ErasedSoFar(raw, tape, before, dev.blocks, dev.Calls(), dev.id, dev.blockSize, pattern)
      modifies dev, dev.data, dev.journal
      ensures Valid()
      ensures ErasedSoFar(raw, tape, before + LooseChain(start, first, {}), dev.blocks, dev.Calls(), dev.id,
                          dev.blockSize, pattern)
    {
      hide View, Fill, MemDevice.Holds, CrcOk, U32At, ErasedSoFar, LooseChain;
      var next: nat := first;
      var visited: set<nat> := {};
      ghost var done: seq<nat> := before;
      while next != NULL_BLOCK && next < dev.blockCount && next !in visited
        invariant Valid()
        invariant forall i | i in visited :: i < dev.blockCount
        invariant forall i | 0 <= i < dev.blockCount && i !in visited :: dev.blocks[i] == start[i]
        invariant before + LooseChain(start, first, {}) == done + LooseChain(start, next, visited)
        invariant ErasedSoFar(raw, tape, done, dev.blocks, dev.Calls(), dev.id, dev.blockSize, pattern)
        decreases dev.blockCount - |visited|
      {
        LooseNext(start, next, visited, done);
        var cbuf := dev.ReadBlock(next);
        var sound := VerifyBlockCrc(cbuf.value);
        if !sound { return; }
        BoundedSize(visited + {next}, dev.blockCount);
        visited := visited + {next};
        var following := U32At(cbuf.value, 16);
        EraseOne(next, free, pattern, raw, tape, done);
        done := done + [next];
        next := following;
      }
      LooseStops(start, next, visited, done);
    }

    /** `get_with_generation`: absent, unreadable, or the indexed generation with the value read. */
    method GetWithGeneration(key: Bytes) returns (present: bool, hit: Option<Hit>)
      requires Valid()
      ensures present <==> MakeKey(key).id in index
      ensures hit == Found(State(), MakeKey(key).id)
      ensures hit.Some? <==> present && Read(dev.Disk(), index[MakeKey(key).id].block).Some?
      ensures hit.Some? ==>
                && hit.value.generation == index[MakeKey(key).id].generation
                && hit.value.value == Read(dev.Disk(), index[MakeKey(key).id].block).value.value
    {
      hide View, Complete, Read, Lossy, MemDevice.Holds;
      var id := MakeKey(key).id;
      if id !in index { return false, None; }
      var entry := index[id];
      var _, o := VerifyAndReadRecord(dev, entry.block);
      match o
      case None => return true, None;
      case Some(r) => return true, Some(Hit(entry.generation, r.value));
    }

    /**
     * `put`: write the new record, flush, index it, then erase the record it replaces and flush again. The
     * first clause holds on any bytes and any index; the second says what it amounts to on an anchored replica.
     */
    method Put(key: Bytes, value: Bytes, generation: nat, userFlags: nat, pattern: Byte) returns (r: Outcome)
      requires Valid() && (pattern == 0x00 || pattern == 0xFF)
      requires |key| + 36 <= dev.blockSize && |key| < U16_LIMIT && |value| < U32_LIMIT
      requires generation < U32_LIMIT && userFlags < U32_LIMIT
      modifies this`index, dev, dev.data, dev.journal
      ensures Valid()
      ensures var d := Draft(dev.blockSize, MakeKey(key), generation, value, userFlags);
              var e := InsertEffect(old(Bytewise()), d, pattern);
              && r == e.outcome
              && Bytewise() == Worked(old(Bytewise()), e, dev.blockSize, pattern)
              && Recorded(old(dev.Calls()), dev.Calls(), dev.id, e.steps)
      ensures var d := Draft(dev.blockSize, MakeKey(key), generation, value, userFlags);
              Anchored(old(State())) ==>
                if Room(old(State()).disk, d)
                then && r == Ok
                     && State() == AfterPut(old(State()), d)
                     && Recorded(old(dev.Calls()), dev.Calls(), dev.id, PutSteps(old(State()), d))
                else r == StorageFull && State() == old(State()) && dev.Calls() == old(dev.Calls())
    {
      hide View, Lossy, CrcOk, MemDevice.Holds, Anchored, Room, Recorded, Rewrite, PutCalls, PutSteps, AfterPut;
      hide WriteSteps, EraseBlocks, Allocated, LooseErase, InsertEffect, Worked;
      ghost var d := Draft(dev.blockSize, MakeKey(key), generation, value, userFlags);
      ghost var raw, tape := Bytewise(), dev.Calls();
      if Anchored(Look(raw)) { InsertAnchored(raw, d, pattern); }
      var id := MakeKey(key).id;
      var o := WriteNew(key, value, generation, userFlags, pattern);
      if o.None? {
        InsertRefused(raw, d, pattern, tape, dev.id);
        return StorageFull;
      }
      ghost var flushed, written := dev.Calls(), dev.blocks;
      var replaced := if id in index then Some(index[id].block) else None;
      index := index[id := Entry(generation, o.value, |value|)];
      var ok := true;
      if replaced.Some? {
        ok := FreeAndFlush(replaced.value, pattern);
      }
      InsertDone(raw, d, pattern, ok, dev.blocks, tape, flushed, dev.Calls(), dev.id);
      return if ok then Ok else CrcMismatch;
    }

    /** `free_record` followed, when it succeeds, by a flush. */
    method FreeAndFlush(d: nat, pattern: Byte) returns (ok: bool)
      requires Valid() && d < dev.blockCount && (pattern == 0x00 || pattern == 0xFF)
      modifies dev, dev.data, dev.journal
      ensures Valid() && ok == CrcOk(old(dev.blocks[d]))
      ensures !ok ==> dev.blocks == old(dev.blocks) && dev.Calls() == old(dev.Calls())
      ensures ok ==>
                var steps := EraseBlocks(LooseErase(old(dev.blocks), d, pattern)) + [Flush];
                && dev.blocks == Rewrite(old(dev.blocks), steps, dev.blockSize, pattern)
                && Recorded(old(dev.Calls()), dev.Calls(), dev.id, steps)
    {
      hide View, Complete, Read, MemDevice.Holds, Rewrite, EraseBlocks, CrcOk, LooseErase, Recorded;
      ghost var raw, tape := dev.blocks, dev.Calls();
      ok := FreeRecord(d, pattern);
      if ok {
        ghost var before, steps := dev.Calls(), EraseBlocks(LooseErase(raw, d, pattern));
        dev.Flush();
        RecordedThen(tape, before, dev.Calls(), dev.id, steps, [Flush]);
        RewriteFlush(raw, steps, dev.blockSize, pattern);
      }
    }

    /** The first half of `put`: allocate, write and flush the new record; the result is its descriptor block. */
    method WriteNew(key: Bytes, value: Bytes, generation: nat, userFlags: nat, ghost pattern: Byte)
      returns (o: Option<nat>)
      requires Valid() && |key| + 36 <= dev.blockSize && |key| < U16_LIMIT && |value| < U32_LIMIT
      requires generation < U32_LIMIT && userFlags < U32_LIMIT
      modifies dev, dev.data, dev.journal
      ensures Valid()
      ensures var d := Draft(dev.blockSize, MakeKey(key), generation, value, userFlags);
              if Room(old(dev.Disk()), d) then
                var blocks := Allocated(old(dev.Disk()), d);
                && o == Some(blocks[0])
                && dev.blocks == Rewrite(old(dev.blocks), WriteSteps(d, blocks), dev.blockSize, pattern)
                && Recorded(old(dev.Calls()), dev.Calls(), dev.id, WriteSteps(d, blocks) + [Flush])
              else o.None? && dev.blocks == old(dev.blocks) && dev.Calls() == old(dev.Calls())
    {
      hide View, Lossy, MemDevice.Holds, Rewrite, WriteSteps, FreeList, Needed, Recorded;
      var d := Draft(dev.blockSize, MakeKey(key), generation, value, userFlags);
      ghost var disk, tape := dev.Disk(), dev.Calls();
      var blocks := FindFreeBlocks(Needed(d));
      if blocks.None? { return None; }
      AllocationFits(disk, d);
      WriteRecord(blocks.value, key, generation, value, userFlags, pattern);
      ghost var before := dev.Calls();
      dev.Flush();
      RecordedThen(tape, before, dev.Calls(), dev.id, WriteSteps(d, blocks.value), [Flush]);
      return Some(blocks.value[0]);
    }

    /** The body of `delete`'s loop: erase the indexed record, flush, forget the key. */
    method Remove(id: Bytes, pattern: Byte) returns (r: Outcome)
      requires Valid() && (pattern == 0x00 || pattern == 0xFF)
      modifies this`index, dev, dev.data, dev.journal
      ensures Valid()
      ensures var e := EraseEffect(old(Bytewise()), id, dev.blockSize, pattern);
              && r == e.outcome
              && Bytewise() == Worked(old(Bytewise()), e, dev.blockSize, pattern)
              && Recorded(old(dev.Calls()), dev.Calls(), dev.id, e.steps)
      ensures Anchored(old(State())) ==>
                && r == (if id in old(index) then Ok else KeyNotFound)
                && State() == AfterDelete(old(State()), id)
                && Recorded(old(dev.Calls()), dev.Calls(), dev.id, DeleteSteps(old(State()), id))
    {
      hide View, CrcOk, MemDevice.Holds, Anchored, Recorded, Rewrite, LooseErase, DeleteSteps, AfterDelete;
      ghost var raw := Bytewise();
      if Anchored(Look(raw)) { EraseAnchored(raw, id, dev.blockSize, pattern); }
      RecordedNone(dev.Calls(), dev.id);
      RewriteNothing(raw.blocks, dev.blockSize, pattern);
      if id !in index { return KeyNotFound; }
      var ok := FreeAndFlush(index[id].block, pattern);
      if !ok { return CrcMismatch; }
      index := index - {id};
      return Ok;
    }
  }

  lemma ImprovesIndex(m: map<Bytes, Record>, index: Index, r: Record)
    requires index == IndexOf(m)
    ensures Improves(m, r) <==> r.key.id !in index || r.hdr.generation > index[r.key.id].generation
    ensures IndexOf(m[r.key.id := r]) == index[r.key.id := EntryOf(r)]
  {}

  lemma EmptyIndex()
    ensures IndexOf(map[]) == map[]
  {}

  lemma ValidIsBest(disk: Disk, valid: set<nat>)
    requires valid == {0} + set id, b | id in Meaning(disk) && b in BlocksOf(Meaning(disk)[id]) :: b
    ensures forall i: nat :: i in valid <==> i == 0 || InBest(disk, i)
  {
    hide Meaning;
    forall i: nat ensures i in valid <==> i == 0 || InBest(disk, i) {
      if InBest(disk, i) {
        var id :| id in Meaning(disk) && Occupies(Meaning(disk)[id], i);
        assert i in BlocksOf(Meaning(disk)[id]);
      }
    }
  }

  lemma GarbageIs(disk: Disk)
    ensures forall i: nat :: i in GarbageSet(disk) <==> 1 <= i < |disk| && !InBest(disk, i) && !disk[i].Free?
  {
    hide InBest;
  }

  lemma EraseOneMore(blocks: seq<Bytes>, list: seq<nat>, i: nat, blockSize: nat, pattern: Byte)
    requires i < |blocks|
    ensures EraseBlocks(list + [i]) == EraseBlocks(list) + [Write(i, Free)]
    ensures Rewrite(blocks, EraseBlocks(list + [i]), blockSize, pattern)
         == Rewrite(blocks, EraseBlocks(list), blockSize, pattern)[i := Fill(blockSize, pattern)]
  {
    var steps := EraseBlocks(list + [i]);
    assert steps[..|list|] == EraseBlocks(list);
  }

  /** The bytes and the calls after erasing the blocks of `list`, in order. */
  predicate ErasedSoFar(raw: seq<Bytes>, tape: Tape, list: seq<nat>, blocks: seq<Bytes>, now: Tape, id: nat,
                        blockSize: nat, pattern: Byte)
  {
    && blocks == Rewrite(raw, EraseBlocks(list), blockSize, pattern)
    && Recorded(tape, now, id, EraseBlocks(list))
  }

  lemma SoFar(raw: seq<Bytes>, tape: Tape, list: seq<nat>, blocks: seq<Bytes>, now: Tape, id: nat,
              blockSize: nat, pattern: Byte)
    requires ErasedSoFar(raw, tape, list, blocks, now, id, blockSize, pattern)
    ensures blocks == Rewrite(raw, EraseBlocks(list), blockSize, pattern) && Recorded(tape, now, id, EraseBlocks(list))
  {}

  lemma EraseStart(blocks: seq<Bytes>, tape: Tape, id: nat, blockSize: nat, pattern: Byte)
    ensures ErasedSoFar(blocks, tape, [], blocks, tape, id, blockSize, pattern)
  {
    RecordedNone(tape, id);
  }

  lemma LooseStart(blocks: seq<Bytes>, d: nat, pattern: Byte)
    requires d < |blocks| && forall i | 0 <= i < |blocks| :: |blocks[i]| >= 36
    ensures LooseErase(blocks, d, pattern)
         == [d] + LooseChain(blocks[d := Fill(|blocks[d]|, pattern)], U32At(blocks[d], 20), {})
    ensures [] + [d] == [d]
  {
    hide LooseChain, U32At;
  }

  lemma LooseNext(blocks: seq<Bytes>, next: nat, visited: set<nat>, done: seq<nat>)
    requires forall i | 0 <= i < |blocks| :: |blocks[i]| >= 36
    requires forall i | i in visited :: i < |blocks|
    requires next != NULL_BLOCK && next < |blocks| && next !in visited
    ensures done + LooseChain(blocks, next, visited) ==
            if CrcOk(blocks[next])
            then done + [next] + LooseChain(blocks, U32At(blocks[next], 16), visited + {next})
            else done
  {
    hide CrcOk, U32At;
    var rest := LooseChain(blocks, U32At(blocks[next], 16), visited + {next});
    assert done + ([next] + rest) == done + [next] + rest;
  }

  lemma LooseStops(blocks: seq<Bytes>, next: nat, visited: set<nat>, done: seq<nat>)
    requires forall i | 0 <= i < |blocks| :: |blocks[i]| >= 36
    requires forall i | i in visited :: i < |blocks|
    requires next == NULL_BLOCK || next >= |blocks| || next in visited
    ensures done + LooseChain(blocks, next, visited) == done
  {}

  lemma AscendingStart(garbage: set<nat>)
    requires 0 !in garbage
    ensures Ascending(garbage, 0) == [] && Ascending(garbage, 1) == []
  {}

  lemma AscendingStep(garbage: set<nat>, i: nat)
    ensures Ascending(garbage, i + 1) == if i in garbage then Ascending(garbage, i) + [i] else Ascending(garbage, i)
  {}

  /** What the erasures and the flush of `recover` leave. */
  lemma RecoverOutcome(blocks: seq<Bytes>, blockSize: nat, pattern: Byte)
    requires SizedTo(blocks, blockSize) && (pattern == 0x00 || pattern == 0xFF)
    ensures var disk := Views(blocks);
            var erases := EraseBlocks(Ascending(GarbageSet(disk), |disk|));
            && RecoverSteps(disk) == (if Ascending(GarbageSet(disk), |disk|) == [] then [] else erases + [Flush])
            && EraseBlocks([]) == []
            && Rewrite(blocks, RecoverSteps(disk), blockSize, pattern) == Rewrite(blocks, erases, blockSize, pattern)
            && Views(Rewrite(blocks, erases, blockSize, pattern)) == Recovered(disk)
  {
    hide View, Garbage, Ascending, Rewrite, Apply, Recovered;
    var disk := Views(blocks);
    var garbage := Ascending(GarbageSet(disk), |disk|);
    RecoverApplied(disk);
    ErasesFaithful(garbage, blockSize, pattern);
    RewriteViews(blocks, EraseBlocks(garbage), blockSize, pattern);
    RewriteFlush(blocks, EraseBlocks(garbage), blockSize, pattern);
    Operations.ApplyFlush(disk, EraseBlocks(garbage));
  }

  // ---- writing ----

  lemma FirstIs(d: Draft, first: nat)
    requires d.Fits()
    requires var cap := FirstCapacity(d.blockSize, |d.key.raw|); first == if |d.value| <= cap then |d.value| else cap
    ensures first == First(d)
  {}

  lemma FirstBlockIs(d: Draft, blocks: seq<nat>, pattern: Byte)
    requires d.Fits() && |blocks| >= 1
    ensures |d.key.raw| + First(d) + 36 <= d.blockSize
    ensures Encode(d.blockSize, pattern, NewBlock(d, blocks, 0)) ==
            EncodeDesc(d.blockSize,
                       DescHeader(d.generation, |d.value|, |blocks|,
                                  if |blocks| == 1 then NULL_BLOCK else blocks[1], 0, d.userFlags),
                       d.key.raw, d.value[..First(d)])
  {
    hide Cut, First, EncodeDesc;
    NewBlockSize(d, blocks, 0);
  }

  lemma ChunkBlockIs(d: Draft, blocks: seq<nat>, k: nat, payload: Bytes, pattern: Byte)
    requires d.Fits() && 1 <= k < |blocks|
    requires var rest := d.value[Cut(d, k - 1)..];
             payload == rest[..if |rest| <= ChunkCapacity(d.blockSize) then |rest| else ChunkCapacity(d.blockSize)]
    ensures |payload| + 24 <= d.blockSize
    ensures Encode(d.blockSize, pattern, NewBlock(d, blocks, k)) ==
            EncodeChunk(d.blockSize,
                        ChunkHeader(0, blocks[0], k, if k + 1 < |blocks| then blocks[k + 1] else NULL_BLOCK), payload)
    ensures d.value[Cut(d, k - 1)..][|payload|..] == d.value[Cut(d, k)..]
  {
    hide Cut, First, EncodeChunk;
    CutSteps(d, k - 1);
    assert payload == d.value[Cut(d, k - 1)..Cut(d, k)];
  }

  lemma HeadAndTail(steps: seq<Step>)
    requires steps != []
    ensures [steps[0]] + steps[1..] == steps
  {}

  lemma OneStep(blocks: seq<Bytes>, steps: seq<Step>, k: nat, blockSize: nat, pattern: Byte)
    requires k < |steps|
    ensures Rewrite(blocks, steps[..0], blockSize, pattern) == blocks
    ensures Rewrite(blocks, steps[..k + 1], blockSize, pattern)
         == RewriteOne(Rewrite(blocks, steps[..k], blockSize, pattern), steps[k], blockSize, pattern)
  {
    hide Encode;
    assert steps[..k + 1][..k] == steps[..k];
  }

  // ---- allocating ----

  lemma FreeStart(disk: Disk)
    ensures |disk| >= 1 ==> FreeBelow(disk, 1) == []
  {}

  lemma FreeNext(disk: Disk, i: nat)
    requires 1 <= i < |disk|
    ensures FreeBelow(disk, i + 1) == FreeBelow(disk, i) + if disk[i].Free? then [i] else []
  {}

  lemma FreeFound(disk: Disk, i: nat, result: seq<nat>, n: nat)
    requires 1 <= i && (i <= |disk| || i == 1) && |result| <= n && (|result| < n ==> i >= |disk|)
    requires result == if i <= |disk| then FreeBelow(disk, i) else []
    ensures if |FreeList(disk)| >= n then result == FreeList(disk)[..n] else |result| < n
  {
    hide FreeBelow;
    if i <= |disk| { FreeBelowPrefix(disk, i, |disk|); }
  }

  // ---- put ----

  lemma AllocationFits(disk: Disk, d: Draft)
    requires d.Fits() && Room(disk, d) && |disk| <= NULL_BLOCK
    ensures Allocated(disk, d) == FreeList(disk)[..Needed(d)]
    ensures 1 <= |Allocated(disk, d)| <= NULL_BLOCK
  {
    hide Needed;
  }

  /** A `put` that finds no room. */
  lemma InsertRefused(raw: RawRep, d: Draft, pattern: Byte, t: Tape, id: nat)
    requires InOrder(raw, d.blockSize) && d.Fits() && !Room(Views(raw.blocks), d)
    ensures var e := InsertEffect(raw, d, pattern);
            e.outcome == StorageFull && Worked(raw, e, d.blockSize, pattern) == raw && Recorded(t, t, id, e.steps)
  {
    hide View, Room;
    RecordedNone(t, id);
  }

  /** The two halves of a `put`, put together. */
  lemma InsertDone(raw: RawRep, d: Draft, pattern: Byte, ok: bool, blocks: seq<Bytes>,
                   t0: Tape, t1: Tape, t2: Tape, id: nat)
    requires InOrder(raw, d.blockSize) && d.Fits() && Room(Views(raw.blocks), d)
    requires var taken := Allocated(Views(raw.blocks), d);
             var written := Rewrite(raw.blocks, WriteSteps(d, taken), d.blockSize, pattern);
             && Recorded(t0, t1, id, WriteSteps(d, taken) + [Flush])
             && if d.key.id !in raw.index then ok && t2 == t1 && blocks == written
                else
                  var replaced := raw.index[d.key.id].block;
                  && ok == CrcOk(written[replaced])
                  && if !ok then t2 == t1 && blocks == written
                     else
                       var steps := EraseBlocks(LooseErase(written, replaced, pattern)) + [Flush];
                       Recorded(t1, t2, id, steps) && blocks == Rewrite(written, steps, d.blockSize, pattern)
    ensures var e := InsertEffect(raw, d, pattern);
            var r := NewRecord(d, Allocated(Views(raw.blocks), d));
            && e.outcome == (if ok then Ok else CrcMismatch)
            && Worked(raw, e, d.blockSize, pattern) == RawRep(blocks, raw.index[d.key.id := EntryOf(r)])
            && Recorded(t0, t2, id, e.steps)
  {
    hide View, Room, CrcOk, LooseErase, Rewrite, PutCalls, WriteSteps, EraseBlocks, Allocated, Recorded;
    var taken := Allocated(Views(raw.blocks), d);
    var written := Rewrite(raw.blocks, WriteSteps(d, taken), d.blockSize, pattern);
    var erased := if d.key.id in raw.index && ok
                  then Some(LooseErase(written, raw.index[d.key.id].block, pattern)) else None;
    PutJoins(raw.blocks, t0, t1, t2, id, d, taken, erased, pattern);
  }

  lemma PutJoins(raw: seq<Bytes>, t0: Tape, t1: Tape, t2: Tape, id: nat,
                 d: Draft, blocks: seq<nat>, erased: Option<seq<nat>>, pattern: Byte)
    requires d.Fits() && Recorded(t0, t1, id, WriteSteps(d, blocks) + [Flush])
    requires if erased.Some? then Recorded(t1, t2, id, EraseBlocks(erased.value) + [Flush]) else t2 == t1
    ensures Recorded(t0, t2, id, PutCalls(d, blocks, erased))
    ensures var written := Rewrite(raw, WriteSteps(d, blocks), d.blockSize, pattern);
            Rewrite(raw, PutCalls(d, blocks, erased), d.blockSize, pattern) ==
            if erased.Some? then Rewrite(written, EraseBlocks(erased.value) + [Flush], d.blockSize, pattern)
            else written
  {
    hide Rewrite, WriteSteps, EraseBlocks, Recorded;
    var writes := WriteSteps(d, blocks);
    RewriteFlush(raw, writes, d.blockSize, pattern);
    if erased.Some? {
      var erases := EraseBlocks(erased.value) + [Flush];
      RecordedThen(t0, t1, t2, id, writes + [Flush], erases);
      RewriteConcat(raw, writes + [Flush], erases, d.blockSize, pattern);
    } else {
      assert PutCalls(d, blocks, erased) == writes + [Flush];
    }
  }
}
