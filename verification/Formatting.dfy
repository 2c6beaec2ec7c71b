/** The storage header in block 0: how `format` writes it and how `open` checks it. */
module Formatting {
  import opened Format
  import opened Crc
  import opened Blocks
  import opened Engine
  import opened Device
  import opened Marshal

  datatype StorageHeader = StorageHeader(magic: Bytes, major: nat, minor: nat, blockSize: nat, blockCount: nat,
                                         replicaId: nat, formatSeq: nat, flags: nat)

  const MAGIC: Bytes := [0x45, 0x4B, 0x56]
  const VERSION_MAJOR: nat := 1
  const VERSION_MINOR: nat := 0

  predicate HeaderFits(h: StorageHeader) {
    && |h.magic| == 3 && h.major < U16_LIMIT && h.minor < U16_LIMIT && h.blockSize < U32_LIMIT
    && h.blockCount < U32_LIMIT && h.replicaId < U32_LIMIT && h.formatSeq < U32_LIMIT && h.flags < U32_LIMIT
  }

  /** The 28 bytes of a storage header. */
  function HeaderBytes(h: StorageHeader): (s: Bytes)
    requires |h.magic| == 3
    ensures |s| == 28
  {
    [TYPE_HEADER] + h.magic + U16Bytes(h.major) + U16Bytes(h.minor) + U32Bytes(h.blockSize) + U32Bytes(h.blockCount)
    + U32Bytes(h.replicaId) + U32Bytes(h.formatSeq) + U32Bytes(h.flags)
  }

  function ReadHeader(b: Bytes): StorageHeader
    requires |b| >= 28
  {
    StorageHeader(b[1..4], U16At(b, 4), U16At(b, 6), U32At(b, 8), U32At(b, 12),
                  U32At(b, 16), U32At(b, 20), U32At(b, 24))
  }

  lemma ShortField(b: Bytes, front: Bytes, n: nat)
    requires n < U16_LIMIT && front + U16Bytes(n) <= b
    ensures U16At(b, |front|) == n && front <= b
  {
    hide Digit, U16;
    var s, i := front + U16Bytes(n), |front|;
    assert b[i] == s[i] && b[i + 1] == s[i + 1];
    U16Digits(n);
  }

  /** Reading undoes marshalling. */
  lemma HeaderRoundTrip(b: Bytes, h: StorageHeader)
    requires HeaderFits(h) && HeaderBytes(h) <= b
    ensures b[0] == TYPE_HEADER && ReadHeader(b) == h
  {
    hide U16Bytes, U32Bytes, U16At, U32At;
    var s4 := [TYPE_HEADER] + h.magic;
    var s6 := s4 + U16Bytes(h.major);
    var s8 := s6 + U16Bytes(h.minor);
    var s12 := s8 + U32Bytes(h.blockSize);
    var s16 := s12 + U32Bytes(h.blockCount);
    var s20 := s16 + U32Bytes(h.replicaId);
    var s24 := s20 + U32Bytes(h.formatSeq);
    LastField(b, s24, h.flags);
    LastField(b, s20, h.formatSeq);
    LastField(b, s16, h.replicaId);
    LastField(b, s12, h.blockCount);
    LastField(b, s8, h.blockSize);
    ShortField(b, s6, h.minor);
    ShortField(b, s4, h.major);
    assert b[..4] == s4;
    assert b[1..4] == b[..4][1..] && b[0] == s4[0];
  }

  /** Block 0 as `format` writes it. */
  function EncodeHeader(blockSize: nat, h: StorageHeader): (s: Bytes)
    requires blockSize >= 32 && |h.magic| == 3
    ensures |s| == blockSize
  {
    Stamped(HeaderBytes(h) + Fill(blockSize - 28, 0))
  }

  datatype Error = NoReplicas | InvalidBlockSize | InvalidBlock | InvalidHeader | CrcMismatch | ReplicaMismatch

  datatype Opening = Accepted(header: StorageHeader) | Refused(error: Error)

  /** The checks of `open_replica_header` on the bytes of block 0. */
  function CheckHeader(b: Bytes, blockCount: nat): Opening
    requires |b| >= 32
  {
    var h := ReadHeader(b);
    if b[0] != TYPE_HEADER then Refused(InvalidHeader)
    else if !CrcOk(b) then Refused(CrcMismatch)
    else if h.magic != MAGIC || h.blockSize != |b| || h.blockCount != blockCount || h.blockCount < 1
    then Refused(InvalidHeader)
    else Accepted(h)
  }

  /** `open_replica_header` on a whole device, one without blocks or with blocks too small included. */
  function HeaderOf(blockSize: nat, blocks: seq<Bytes>): Opening
    requires forall i | 0 <= i < |blocks| :: |blocks[i]| == blockSize
  {
    if blockSize < 32 then Refused(InvalidBlockSize)
    else if blocks == [] then Refused(InvalidBlock)
    else CheckHeader(blocks[0], |blocks|)
  }

  /** The header that `format` gives to a device. */
  function FreshHeader(blockSize: nat, blockCount: nat, replicaId: nat, formatSeq: nat): StorageHeader {
    StorageHeader(MAGIC, VERSION_MAJOR, VERSION_MINOR, blockSize, blockCount, replicaId, formatSeq, 0)
  }

  // ---- the same in literal offsets ----

  /** Block 0 of a freshly formatted device, byte by byte. */
  predicate StorageLayout(b: Bytes, blockCount: nat, replicaId: nat, formatSeq: nat) {
    && |b| >= 32 && CrcOk(b)
    && b[0] == 0x01 && b[1] == 0x45 && b[2] == 0x4B && b[3] == 0x56
    && Le16(b, 4) == 1 && Le16(b, 6) == 0
    && Le32(b, 8) == |b| && Le32(b, 12) == blockCount
    && Le32(b, 16) == replicaId && Le32(b, 20) == formatSeq && Le32(b, 24) == 0
    && (forall i | 28 <= i < |b| - 4 :: b[i] == 0)
  }

  /** The header of a device that `open` accepts. */
  predicate SoundHeader(blockSize: nat, blocks: seq<Bytes>) {
    && blockSize >= 32 && |blocks| >= 1 && |blocks[0]| == blockSize
    && var b := blocks[0];
       && b[0] == 0x01 && CrcOk(b) && b[1] == 0x45 && b[2] == 0x4B && b[3] == 0x56
       && Le32(b, 8) == blockSize && Le32(b, 12) == |blocks|
  }

  /** When `open_replica_header` accepts a device, and which error it gives otherwise. */
  lemma HeaderOfIs(blockSize: nat, blocks: seq<Bytes>)
    requires forall i | 0 <= i < |blocks| :: |blocks[i]| == blockSize
    ensures var o := HeaderOf(blockSize, blocks);
            if blockSize < 32 then o == Refused(InvalidBlockSize)
            else if blocks == [] then o == Refused(InvalidBlock)
            else if blocks[0][0] == 0x01 && !CrcOk(blocks[0]) then o == Refused(CrcMismatch)
            else if SoundHeader(blockSize, blocks) then o.Accepted?
            else o == Refused(InvalidHeader)
  {
    hide CrcOk, U16At, U32At, Le32;
    if blockSize >= 32 && blocks != [] {
      var b := blocks[0];
      FieldsAre(b, 8);
      FieldsAre(b, 12);
      MagicIs(b[1..4]);
    }
  }

  lemma SoundIs(blockSize: nat, blocks: seq<Bytes>)
    ensures SoundHeader(blockSize, blocks) ==> blockSize >= 32 && blocks != [] && CrcOk(blocks[0])
  {
    hide CrcOk;
  }

  lemma MagicIs(s: Bytes)
    requires |s| == 3
    ensures s == MAGIC <==> s[0] == 0x45 && s[1] == 0x4B && s[2] == 0x56
  {}

  /** The bytes that `format` writes. */
  lemma FreshBytes(blockSize: nat, blockCount: nat, replicaId: nat, formatSeq: nat)
    requires 32 <= blockSize < 0x1_0000_0000 && blockCount < 0x1_0000_0000
    requires replicaId < 0x1_0000_0000 && formatSeq < 0x1_0000_0000
    ensures StorageLayout(EncodeHeader(blockSize, FreshHeader(blockSize, blockCount, replicaId, formatSeq)),
                          blockCount, replicaId, formatSeq)
  {
    hide HeaderBytes, CrcOk, CrcBytes, BlockCrc, U16At, U32At, Le16, Le32;
    var h := FreshHeader(blockSize, blockCount, replicaId, formatSeq);
    var plain := HeaderBytes(h) + Fill(blockSize - 28, 0);
    var b := EncodeHeader(blockSize, h);
    StampedOk(plain);
    StampedPrefix(plain, HeaderBytes(h));
    StampedPrefix(plain, plain[..blockSize - 4]);
    HeaderRoundTrip(b, h);
    MagicIs(b[1..4]);
    FieldsAre(b, 4);
    FieldsAre(b, 6);
    FieldsAre(b, 8);
    FieldsAre(b, 12);
    FieldsAre(b, 16);
    FieldsAre(b, 20);
    FieldsAre(b, 24);
  }

  // ---- reading undoes writing ----

  /** A device that `open` accepts is an opened disk. */
  lemma AcceptedIsHead(b: Bytes, blockCount: nat)
    requires |b| >= 32 && CheckHeader(b, blockCount).Accepted?
    ensures View(b) == Head && blockCount >= 1
  {
    hide CrcOk, ReadHeader;
  }

  /** What `format` writes is accepted, with the same header, exactly if the geometry is the device's own. */
  lemma FormatThenOpen(h: StorageHeader, blockSize: nat, blockCount: nat)
    requires HeaderFits(h) && h.magic == MAGIC && blockSize >= 32
    ensures View(EncodeHeader(blockSize, h)) == Head
    ensures CheckHeader(EncodeHeader(blockSize, h), blockCount) == Accepted(h)
       <==> h.blockSize == blockSize && h.blockCount == blockCount >= 1
  {
    hide HeaderBytes, ReadHeader, Stamped, CrcOk;
    var plain := HeaderBytes(h) + Fill(blockSize - 28, 0);
    StampedOk(plain);
    StampedPrefix(plain, HeaderBytes(h));
    HeaderRoundTrip(EncodeHeader(blockSize, h), h);
  }

  /** `marshal_storage_header`. */
  method MarshalHeader(h: StorageHeader, buf: array<Byte>)
    requires |h.magic| == 3 && buf.Length >= 28
    modifies buf
    ensures buf[..] == Overwritten(old(buf[..]), 0, HeaderBytes(h))
  {
    hide U16Bytes, U32Bytes, Overwritten;
    ghost var was := buf[..];
    CopyInto(buf, 0, [TYPE_HEADER] + h.magic);
    ghost var s := [TYPE_HEADER] + h.magic;
    Append(buf, was, s, 4, U16Bytes(h.major));
    s := s + U16Bytes(h.major);
    Append(buf, was, s, 6, U16Bytes(h.minor));
    s := s + U16Bytes(h.minor);
    Append(buf, was, s, 8, U32Bytes(h.blockSize));
    s := s + U32Bytes(h.blockSize);
    Append(buf, was, s, 12, U32Bytes(h.blockCount));
    s := s + U32Bytes(h.blockCount);
    Append(buf, was, s, 16, U32Bytes(h.replicaId));
    s := s + U32Bytes(h.replicaId);
    Append(buf, was, s, 20, U32Bytes(h.formatSeq));
    s := s + U32Bytes(h.formatSeq);
    Append(buf, was, s, 24, U32Bytes(h.flags));
  }

  /** The body of `format`'s loop: the header goes to block 0 and is flushed, or nothing at all happens. */
  method FormatDevice(dev: MemDevice, replicaId: nat, formatSeq: nat) returns (e: Option<Error>)
    requires dev.Valid() && dev.blockSize < U32_LIMIT && replicaId < U32_LIMIT && formatSeq < U32_LIMIT
    modifies dev, dev.data, dev.journal
    ensures dev.Valid()
    ensures e == if dev.blockSize < 32 then Some(InvalidBlockSize)
                 else if dev.blockCount == 0 then Some(InvalidBlock) else None
    ensures e.Some? ==> dev.blocks == old(dev.blocks) && dev.Calls() == old(dev.Calls())
    ensures e.None? ==> StorageLayout(dev.blocks[0], dev.blockCount, replicaId, formatSeq)
    ensures e.None? ==>
              var h := FreshHeader(dev.blockSize, dev.blockCount, replicaId, formatSeq);
              && dev.blocks == old(dev.blocks)[0 := EncodeHeader(dev.blockSize, h)]
              && dev.Disk() == old(dev.Disk())[0 := Head]
              && HeaderOf(dev.blockSize, dev.blocks) == Accepted(h)
              && Recorded(old(dev.Calls()), dev.Calls(), dev.id, [Write(0, Head), Flush])
  {
    hide View, HeaderBytes, ReadHeader, Stamped, CrcOk, Recorded, MemDevice.Holds, StorageLayout;
    if dev.blockSize < 32 { return Some(InvalidBlockSize); }
    var h := FreshHeader(dev.blockSize, dev.blockCount, replicaId, formatSeq);
    var buf := new Byte[dev.blockSize](i => 0);
    MarshalHeader(h, buf);
    assert buf[..] == HeaderBytes(h) + Fill(dev.blockSize - 28, 0);
    WriteBlockCrc(buf);
    FormatThenOpen(h, dev.blockSize, dev.blockCount);
    FreshBytes(dev.blockSize, dev.blockCount, replicaId, formatSeq);
    ghost var tape := dev.Calls();
    var ok := dev.WriteBlock(0, buf[..]);
    if !ok { return Some(InvalidBlock); }
    ghost var before := dev.Calls();
    dev.Flush();
    RecordedThen(tape, before, dev.Calls(), dev.id, [Write(0, Head)], [Flush]);
    assert [Write(0, Head)] + [Flush] == [Write(0, Head), Flush];
    return None;
  }

  /** No device is another one, and all that a call on them may change is in `repr`. */
  ghost predicate Separate(devs: seq<MemDevice>, repr: set<object>) {
    && (forall i, j | 0 <= i < j < |devs| :: devs[i] != devs[j] && devs[i].data != devs[j].data)
    && (forall i | 0 <= i < |devs| :: devs[i] in repr && devs[i].data in repr && devs[i].journal in repr)
  }

  /** `format` reaches device `i` and does not give up on it. */
  predicate Formats(devs: seq<MemDevice>, i: nat)
    requires i < |devs|
  {
    forall k | 0 <= k <= i :: devs[k].blockSize >= 32 && devs[k].blockCount >= 1
  }

  /** Device `i` is the first that cannot be formatted. */
  predicate GivesUpAt(devs: seq<MemDevice>, i: nat) {
    i < |devs| && !Formats(devs, i) && (i > 0 ==> Formats(devs, i - 1))
  }

  /** The device holds its header in block 0, and otherwise what it held. */
  ghost predicate FormattedAs(dev: MemDevice, blocks: seq<Bytes>, log: seq<Step>, replicaId: nat, formatSeq: nat)
    reads dev
  {
    && dev.Sized() && |blocks| == dev.blockCount >= 1 && dev.blockSize >= 32
    && var h := FreshHeader(dev.blockSize, dev.blockCount, replicaId, formatSeq);
       && dev.blocks == blocks[0 := EncodeHeader(dev.blockSize, h)]
       && StorageLayout(dev.blocks[0], dev.blockCount, replicaId, formatSeq)
       && HeaderOf(dev.blockSize, dev.blocks) == Accepted(h)
       && dev.log == log + [Write(0, Head), Flush]
  }

  /** One turn of `format`'s loop; the other devices are left alone. */
  method FormatOne(devs: seq<MemDevice>, i: nat, replicaId: nat, formatSeq: nat, ghost repr: set<object>)
    returns (e: Option<Error>)
    requires Separate(devs, repr) && i < |devs| && devs[i].Valid()
    requires devs[i].blockSize < U32_LIMIT && replicaId < U32_LIMIT && formatSeq < U32_LIMIT
    modifies repr
    ensures devs[i].Valid()
    ensures e == if devs[i].blockSize < 32 then Some(InvalidBlockSize)
                 else if devs[i].blockCount == 0 then Some(InvalidBlock) else None
    ensures if e.None? then FormattedAs(devs[i], old(devs[i].blocks), old(devs[i].log), replicaId, formatSeq)
            else devs[i].blocks == old(devs[i].blocks) && devs[i].log == old(devs[i].log)
    ensures forall k | 0 <= k < |devs| && k != i :: unchanged(devs[k], devs[k].data)
  {
    hide MemDevice.Holds, EncodeHeader, CheckHeader, FreshHeader, StorageLayout;
    e := FormatDevice(devs[i], replicaId, formatSeq);
  }

  /**
   * `format`: the devices in turn, device `i` under the identifier `replicaId + i`, up to the first error. Every
   * device that is reached holds a header that `open` accepts, and no other block of any device changes.
   */
  method FormatAll(devs: seq<MemDevice>, replicaId: nat, formatSeq: nat, ghost repr: set<object>)
    returns (e: Option<Error>)
    requires Separate(devs, repr) && replicaId + |devs| <= U32_LIMIT && formatSeq < U32_LIMIT
    requires forall i | 0 <= i < |devs| :: devs[i].Valid() && devs[i].blockSize < U32_LIMIT
    modifies repr
    ensures devs == [] ==> e == Some(NoReplicas)
    ensures devs != [] ==> (e.None? <==> Formats(devs, |devs| - 1))
    ensures devs != [] && e.Some? ==>
              exists i: nat :: GivesUpAt(devs, i)
                          && e == Some(if devs[i].blockSize < 32 then InvalidBlockSize else InvalidBlock)
    ensures forall i | 0 <= i < |devs| ::
              && devs[i].Valid()
              && if Formats(devs, i)
                 then FormattedAs(devs[i], old(devs[i].blocks), old(devs[i].log), replicaId + i, formatSeq)
                 else devs[i].blocks == old(devs[i].blocks) && devs[i].log == old(devs[i].log)
  {
    hide MemDevice.Valid, FormattedAs;
    if devs == [] { return Some(NoReplicas); }
    for i := 0 to |devs|
      invariant i > 0 ==> Formats(devs, i - 1)
      invariant forall k | 0 <= k < |devs| :: devs[k].Valid()
      invariant forall k | i <= k < |devs| ::
                  devs[k].blocks == old(devs[k].blocks) && devs[k].log == old(devs[k].log)
      invariant forall k | 0 <= k < i ::
                  FormattedAs(devs[k], old(devs[k].blocks), old(devs[k].log), replicaId + k, formatSeq)
    {
      e := FormatOne(devs, i, replicaId + i, formatSeq, repr);
      if e.Some? {
        assert GivesUpAt(devs, i);
        return;
      }
    }
    return None;
  }

  /** `open_replica_header`. */
  method OpenHeader(dev: MemDevice) returns (r: Opening)
    requires dev.Valid()
    ensures r == HeaderOf(dev.blockSize, dev.blocks)
    ensures r.Accepted? <==> SoundHeader(dev.blockSize, dev.blocks)
    ensures r.Accepted? ==> dev.blockCount >= 1 && dev.Disk()[0] == Head
  {
    hide View, ReadHeader, CrcOk, MemDevice.Holds, SoundHeader;
    HeaderOfIs(dev.blockSize, dev.blocks);
    SoundIs(dev.blockSize, dev.blocks);
    if dev.blockSize < 32 { return Refused(InvalidBlockSize); }
    var buf := dev.ReadBlock(0);
    if buf.None? { return Refused(InvalidBlock); }
    var b := buf.value;
    if b[0] != TYPE_HEADER { return Refused(InvalidHeader); }
    var sound := VerifyBlockCrc(b);
    if !sound { return Refused(CrcMismatch); }
    var h := ReadHeader(b);
    if h.magic != MAGIC { return Refused(InvalidHeader); }
    if h.blockSize != dev.blockSize { return Refused(InvalidHeader); }
    if h.blockCount != dev.blockCount { return Refused(InvalidHeader); }
    if h.blockCount < 1 { return Refused(InvalidHeader); }
    AcceptedIsHead(b, dev.blockCount);
    return Accepted(h);
  }
}
