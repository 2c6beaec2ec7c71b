/** The in-memory block device: a flat byte array, and a log of the calls that a crash could cut short. */
module Device {
  import opened Format
  import opened Blocks
  import opened Engine
  import Layout

  /** The decoded contents of a list of blocks. */
  ghost function Views(blocks: seq<Bytes>): (disk: Disk)
    requires forall i | 0 <= i < |blocks| :: |blocks[i]| >= 1
    ensures |disk| == |blocks| && forall i | 0 <= i < |blocks| :: disk[i] == View(blocks[i])
  {
    seq(|blocks|, i requires 0 <= i < |blocks| => View(blocks[i]))
  }

  /** The capacities of the format hold on every device. */
  lemma ViewsCapacity(blocks: seq<Bytes>, blockSize: nat)
    requires blockSize >= 36 && forall i | 0 <= i < |blocks| :: |blocks[i]| == blockSize
    ensures Layout.WithinCapacity(Views(blocks), blockSize)
  {
    hide View;
    forall i | 0 <= i < |blocks|
      ensures View(blocks[i]).Desc? ==> |View(blocks[i]).key.raw| + |View(blocks[i]).payload| + 36 <= blockSize
      ensures View(blocks[i]).Chunk? ==> |View(blocks[i]).payload| <= ChunkCapacity(blockSize)
    {
      ViewCapacity(blocks[i]);
    }
  }

  lemma NextBlock(i: nat, size: nat)
    ensures (i + 1) * size == i * size + size
  {}

  lemma BlockRange(i: nat, count: nat, size: nat)
    requires i < count
    ensures 0 <= i * size <= (i + 1) * size <= count * size
    ensures (i + 1) * size == i * size + size
  {
    NextBlock(i, size);
    Layout.TimesMonotone(i + 1, count, size);
  }

  lemma BlocksApart(i: nat, j: nat, size: nat)
    requires i != j
    ensures (i + 1) * size <= j * size || (j + 1) * size <= i * size
  {
    if i < j { Layout.TimesMonotone(i + 1, j, size); } else { Layout.TimesMonotone(j + 1, i, size); }
  }

  // ---- the record of device calls ----

  /** The calls on one device, and the devices in the order in which all calls of the store served them. */
  datatype Tape = Tape(log: seq<Step>, served: seq<nat>)

  /** Between the two tapes device `id` made exactly the calls `steps`, and no other device made any. */
  predicate Recorded(before: Tape, after: Tape, id: nat, steps: seq<Step>) {
    && after.log == before.log + steps
    && after.served == before.served + seq(|steps|, k => id)
  }

  lemma RecordedNone(t: Tape, id: nat)
    ensures Recorded(t, t, id, [])
  {}

  lemma RecordedThen(t0: Tape, t1: Tape, t2: Tape, id: nat, a: seq<Step>, b: seq<Step>)
    requires Recorded(t0, t1, id, a) && Recorded(t1, t2, id, b)
    ensures Recorded(t0, t2, id, a + b)
  {
    assert t2.served == t0.served + seq(|a + b|, k => id);
  }

  /** Shared by the devices of a store: which of them was called, call by call. */
  class Journal {
    ghost var served: seq<nat>

    constructor ()
      ensures served == []
    {
      served := [];
    }
  }

  /** The bytes of block `i` after `buf` has been copied to block `index`. */
  lemma SliceAfter(was: Bytes, bytes: Bytes, index: nat, buf: Bytes, i: nat, count: nat, size: nat)
    requires index < count && i < count && |buf| == size && |was| == |bytes| == size * count
    requires 0 <= index * size <= index * size + size <= |was|
    requires forall k | 0 <= k < |was| ::
               bytes[k] == if index * size <= k < index * size + size then buf[k - index * size] else was[k]
    ensures 0 <= i * size <= (i + 1) * size <= |was|
    ensures bytes[i * size..(i + 1) * size] == if i == index then buf else was[i * size..(i + 1) * size]
  {
    BlockRange(i, count, size);
    NextBlock(index, size);
    var from, to, off := i * size, (i + 1) * size, index * size;
    if i == index {
      assert bytes[off..off + size] == buf;
    } else {
      BlocksApart(i, index, size);
      assert to <= off || off + size <= from;
    }
  }

  /** The bytes of block `i` of a device that holds `b` everywhere. */
  lemma EvenSlice(data: Bytes, b: Byte, i: nat, count: nat, size: nat)
    requires i < count && |data| == size * count && forall k | 0 <= k < |data| :: data[k] == b
    ensures 0 <= i * size <= (i + 1) * size <= |data|
    ensures data[i * size..(i + 1) * size] == Fill(size, b)
  {
    BlockRange(i, count, size);
  }

  class MemDevice {
    const blockSize: nat
    const blockCount: nat
    const data: array<Byte>
    /** The contents, block by block. */
    ghost var blocks: seq<Bytes>
    /** Every write and flush so far. */
    ghost var log: seq<Step>
    /** The device's place among the devices of its store. */
    ghost const id: nat
    ghost const journal: Journal

    ghost predicate Valid()
      reads this`blocks, data
    {
      && blockSize >= 1 && blockCount <= NULL_BLOCK
      && data.Length == blockSize * blockCount
      && Sized()
      && (forall i | 0 <= i < blockCount :: Holds(i))
    }

    ghost predicate Sized()
      reads this`blocks
    {
      blockSize >= 1 && |blocks| == blockCount && forall i | 0 <= i < |blocks| :: |blocks[i]| == blockSize
    }

    /** The bytes of block `i` are where they belong. */
    ghost predicate Holds(i: nat)
      requires i < |blocks|
      reads this`blocks, data
    {
      && i * blockSize <= (i + 1) * blockSize <= data.Length
      && data[i * blockSize..(i + 1) * blockSize] == blocks[i]
    }

    ghost function Disk(): (disk: Disk)
      requires Sized()
      reads this`blocks
      ensures |disk| == blockCount
    {
      Views(blocks)
    }

    ghost function Calls(): Tape
      reads this`log, journal`served
    {
      Tape(log, journal.served)
    }

    /** A zeroed device. */
    constructor (blockSize: nat, blockCount: nat, ghost id: nat, ghost journal: Journal)
      requires blockSize >= 1 && blockCount <= NULL_BLOCK
      ensures Valid() && fresh(data) && log == []
      ensures this.blockSize == blockSize && this.blockCount == blockCount && this.id == id && this.journal == journal
      ensures forall i | 0 <= i < blockCount :: Disk()[i].Free?
    {
      this.blockSize, this.blockCount := blockSize, blockCount;
      this.id, this.journal := id, journal;
      data := new Byte[blockSize * blockCount](i => 0);
      blocks := seq(blockCount, i => Fill(blockSize, 0));
      log := [];
      new;
      hide View, Fill;
      ViewOfFree(blockSize, 0);
      ghost var bytes := data[..];
      forall i | 0 <= i < blockCount ensures Holds(i) {
        EvenSlice(bytes, 0, i, blockCount, blockSize);
        assert data[i * blockSize..(i + 1) * blockSize] == bytes[i * blockSize..(i + 1) * blockSize];
      }
    }

    /** Fails exactly on an index out of range. */
    method ReadBlock(index: nat) returns (r: Option<Bytes>)
      requires Valid()
      ensures r == if index < blockCount then Some(blocks[index]) else None
    {
      if index >= blockCount { return None; }
      BlockRange(index, blockCount, blockSize);
      var off := index * blockSize;
      assert Holds(index);
      r := Some(data[off..off + blockSize]);
    }

    method WriteBlock(index: nat, buf: Bytes) returns (ok: bool)
      requires Valid() && |buf| == blockSize
      modifies this, data, journal
      ensures Valid()
      ensures ok == (index < blockCount)
      ensures ok ==> blocks == old(blocks)[index := buf] && Disk() == old(Disk())[index := View(buf)]
      ensures ok ==> Recorded(old(Calls()), Calls(), id, [Write(index, View(buf))])
      ensures !ok ==> blocks == old(blocks) && Calls() == old(Calls())
    {
      hide View;
      if index >= blockCount { return false; }
      BlockRange(index, blockCount, blockSize);
      var off := index * blockSize;
      ghost var was := data[..];
      forall k | 0 <= k < blockSize { data[off + k] := buf[k]; }
      ghost var bytes := data[..];
      blocks := blocks[index := buf];
      log, journal.served := log + [Write(index, View(buf))], journal.served + [id];
      forall i | 0 <= i < blockCount ensures Holds(i) {
        assert old(Holds(i));
        SliceAfter(was, bytes, index, buf, i, blockCount, blockSize);
        assert data[i * blockSize..(i + 1) * blockSize] == bytes[i * blockSize..(i + 1) * blockSize];
        assert old(data[i * blockSize..(i + 1) * blockSize]) == was[i * blockSize..(i + 1) * blockSize];
      }
      return true;
    }

    method Flush()
      requires Valid()
      modifies this`log, journal
      ensures Valid() && Recorded(old(Calls()), Calls(), id, [Step.Flush])
    {
      log, journal.served := log + [Step.Flush], journal.served + [id];
    }
  }
}
