/** Blocks as bytes: little-endian fields, marshalling, and what a block says once decoded. */
module Blocks {
  import opened Format
  import opened Crc
  import opened Utf8

  // ---- little-endian fields ----

  function Val(b: Byte): (n: nat)
    ensures n < 256
  {
    b as int
  }

  /** The byte with value `n`. */
  function ByteOf(n: nat): (b: Byte)
    requires n < 256
    ensures Val(b) == n
  {
    if n == 0 then 0 else ByteOf(n - 1) + 1
  }

  /** Byte `k` of the little-endian form of `n`; higher bytes are dropped, as a cast does. */
  function Digit(n: nat, k: nat): Byte
    requires k < 4
  {
    ByteOf(match k
           case 0 => n % 256
           case 1 => n / 256 % 256
           case 2 => n / 256 / 256 % 256
           case _ => n / 256 / 256 / 256 % 256)
  }

  function U16(b0: Byte, b1: Byte): (n: nat)
    ensures n < U16_LIMIT
  {
    Val(b0) + 256 * Val(b1)
  }

  function U32(b0: Byte, b1: Byte, b2: Byte, b3: Byte): (n: nat)
    ensures n < U32_LIMIT
  {
    Val(b0) + 256 * (Val(b1) + 256 * (Val(b2) + 256 * Val(b3)))
  }

  function U16At(b: Bytes, i: nat): nat
    requires i + 2 <= |b|
  {
    U16(b[i], b[i + 1])
  }

  function U32At(b: Bytes, i: nat): nat
    requires i + 4 <= |b|
  {
    U32(b[i], b[i + 1], b[i + 2], b[i + 3])
  }

  /** The little-endian 16-bit field at offset `i`. */
  function Le16(b: Bytes, i: nat): nat
    requires i + 2 <= |b|
  {
    Val(b[i]) + 0x100 * Val(b[i + 1])
  }

  /** The little-endian 32-bit field at offset `i`. */
  function Le32(b: Bytes, i: nat): nat
    requires i + 4 <= |b|
  {
    Val(b[i]) + 0x100 * Val(b[i + 1]) + 0x1_0000 * Val(b[i + 2]) + 0x100_0000 * Val(b[i + 3])
  }

  lemma FieldsAre(b: Bytes, i: nat)
    ensures i + 2 <= |b| ==> Le16(b, i) == U16At(b, i)
    ensures i + 4 <= |b| ==> Le32(b, i) == U32At(b, i)
  {
    hide Val;
  }

  lemma DigitValues(n: nat)
    ensures Val(Digit(n, 0)) == n % 256 && Val(Digit(n, 1)) == n / 256 % 256
    ensures Val(Digit(n, 2)) == n / 256 / 256 % 256 && Val(Digit(n, 3)) == n / 256 / 256 / 256 % 256
  {
    hide Val, ByteOf;
  }

  lemma TwoDigits(n: nat)
    ensures n % 256 + 256 * (n / 256 % 256) == n % U16_LIMIT
  {}

  lemma FourDigits(n: nat)
    requires n < U32_LIMIT
    ensures n % 256 + 256 * (n / 256 % 256 + 256 * (n / 256 / 256 % 256 + 256 * (n / 256 / 256 / 256 % 256))) == n
  {
    var a := n / 256;
    var b := a / 256;
    assert b / 256 < 256;
  }

  lemma U16Digits(n: nat)
    ensures U16(Digit(n, 0), Digit(n, 1)) == n % U16_LIMIT
  {
    hide Digit, Val;
    DigitValues(n);
    TwoDigits(n);
  }

  lemma U32Digits(n: nat)
    requires n < U32_LIMIT
    ensures U32(Digit(n, 0), Digit(n, 1), Digit(n, 2), Digit(n, 3)) == n
  {
    hide Digit, Val;
    DigitValues(n);
    FourDigits(n);
  }

  // ---- headers ----

  function U16Bytes(n: nat): (s: Bytes)
    ensures |s| == 2
  {
    [Digit(n, 0), Digit(n, 1)]
  }

  function U32Bytes(n: nat): (s: Bytes)
    ensures |s| == 4
  {
    [Digit(n, 0), Digit(n, 1), Digit(n, 2), Digit(n, 3)]
  }

  /** The 32 bytes of a descriptor header. The key size is cast to u16. */
  function DescBytes(h: DescHeader, keySize: nat, first: nat): (s: Bytes)
    ensures |s| == 32
  {
    [TYPE_DESCRIPTOR, 32] + U16Bytes(keySize) + U32Bytes(h.generation) + U32Bytes(h.totalSize) + U32Bytes(first)
    + U32Bytes(h.chunkCount) + U32Bytes(h.next) + U32Bytes(h.flags) + U32Bytes(h.userFlags)
  }

  /** The 20 bytes of a chunk header. */
  function ChunkBytes(h: ChunkHeader, size: nat): (s: Bytes)
    ensures |s| == 20
  {
    [TYPE_CHUNK, 20] + U16Bytes(h.flags) + U32Bytes(h.owner) + U32Bytes(h.index) + U32Bytes(size) + U32Bytes(h.next)
  }

  function ReadDesc(b: Bytes): DescHeader
    requires |b| >= 32
  {
    DescHeader(U32At(b, 4), U32At(b, 8), U32At(b, 16), U32At(b, 20), U32At(b, 24), U32At(b, 28))
  }

  function ReadChunk(b: Bytes): ChunkHeader
    requires |b| >= 20
  {
    ChunkHeader(U16At(b, 2), U32At(b, 4), U32At(b, 8), U32At(b, 16))
  }

  predicate DescFits(h: DescHeader) {
    && h.generation < U32_LIMIT && h.totalSize < U32_LIMIT && h.chunkCount < U32_LIMIT
    && h.next < U32_LIMIT && h.flags < U32_LIMIT && h.userFlags < U32_LIMIT
  }

  predicate ChunkHeaderFits(h: ChunkHeader) {
    h.flags < U16_LIMIT && h.owner < U32_LIMIT && h.index < U32_LIMIT && h.next < U32_LIMIT
  }

  /** The field that ends a prefix of the block. */
  lemma LastField(b: Bytes, front: Bytes, n: nat)
    requires n < U32_LIMIT && front + U32Bytes(n) <= b
    ensures U32At(b, |front|) == n && front <= b
  {
    hide Digit, U32;
    var s, i := front + U32Bytes(n), |front|;
    assert b[i] == s[i] && b[i + 1] == s[i + 1] && b[i + 2] == s[i + 2] && b[i + 3] == s[i + 3];
    U32Digits(n);
  }

  lemma FirstFields(b: Bytes, ty: Byte, size: Byte, n: nat)
    requires [ty, size] + U16Bytes(n) <= b
    ensures b[0] == ty && b[1] == size && U16At(b, 2) == n % U16_LIMIT
  {
    hide Digit, U16;
    var s := [ty, size] + U16Bytes(n);
    assert b[0] == s[0] && b[1] == s[1] && b[2] == s[2] && b[3] == s[3];
    U16Digits(n);
  }

  lemma DescRoundTrip(b: Bytes, h: DescHeader, keySize: nat, first: nat)
    requires DescFits(h) && first < U32_LIMIT && DescBytes(h, keySize, first) <= b
    ensures ReadDesc(b) == h && b[0] == TYPE_DESCRIPTOR && b[1] == 32
    ensures U16At(b, 2) == keySize % U16_LIMIT && U32At(b, 12) == first
  {
    hide U16Bytes, U32Bytes, U16At, U32At;
    var s4 := [TYPE_DESCRIPTOR, 32] + U16Bytes(keySize);
    var s8 := s4 + U32Bytes(h.generation);
    var s12 := s8 + U32Bytes(h.totalSize);
    var s16 := s12 + U32Bytes(first);
    var s20 := s16 + U32Bytes(h.chunkCount);
    var s24 := s20 + U32Bytes(h.next);
    var s28 := s24 + U32Bytes(h.flags);
    LastField(b, s28, h.userFlags);
    LastField(b, s24, h.flags);
    LastField(b, s20, h.next);
    LastField(b, s16, h.chunkCount);
    LastField(b, s12, first);
    LastField(b, s8, h.totalSize);
    LastField(b, s4, h.generation);
    FirstFields(b, TYPE_DESCRIPTOR, 32, keySize);
  }

  lemma ChunkRoundTrip(b: Bytes, h: ChunkHeader, size: nat)
    requires ChunkHeaderFits(h) && size < U32_LIMIT && ChunkBytes(h, size) <= b
    ensures ReadChunk(b) == h && b[0] == TYPE_CHUNK && b[1] == 20 && U32At(b, 12) == size
  {
    hide U16Bytes, U32Bytes, U16At, U32At;
    var s4 := [TYPE_CHUNK, 20] + U16Bytes(h.flags);
    var s8 := s4 + U32Bytes(h.owner);
    var s12 := s8 + U32Bytes(h.index);
    var s16 := s12 + U32Bytes(size);
    LastField(b, s16, h.next);
    LastField(b, s12, size);
    LastField(b, s8, h.index);
    LastField(b, s4, h.owner);
    FirstFields(b, TYPE_CHUNK, 20, h.flags);
  }

  // ---- decoding ----

  /** A descriptor block that passes the checks a single block can pass or fail. */
  function DecodeDesc(b: Bytes): Block
    requires |b| >= 36
  {
    var keySize, first, h := U16At(b, 2), U32At(b, 12), ReadDesc(b);
    if b[1] == 32 && keySize <= |b| - 36 && first <= FirstCapacity(|b|, keySize) && h.chunkCount != 0
    then Desc(h, MakeKey(b[32..32 + keySize]), b[32 + keySize..32 + keySize + first])
    else Bad
  }

  function DecodeChunk(b: Bytes): Block
    requires |b| >= 36
  {
    var size := U32At(b, 12);
    if b[1] == 20 && size <= ChunkCapacity(|b|) then Chunk(ReadChunk(b), b[20..20 + size]) else Bad
  }

  /** What a block says to the reader, the allocator and the recovery pass. */
  function View(b: Bytes): Block
    requires |b| >= 1
  {
    if b[0] == 0x00 || b[0] == 0xFF then Free
    else if !CrcOk(b) then Bad
    else if b[0] == TYPE_HEADER then Head
    else if b[0] == TYPE_DESCRIPTOR && |b| >= 36 then DecodeDesc(b)
    else if b[0] == TYPE_CHUNK && |b| >= 36 then DecodeChunk(b)
    else Bad
  }

  datatype Class = IsFree | IsValid | IsGarbage

  /** `classify_block`. */
  function Classify(b: Bytes): Class {
    if b == [] then IsFree
    else if b[0] == TYPE_HEADER && |b| >= 32 && CrcOk(b) then IsValid
    else if b[0] == TYPE_DESCRIPTOR && |b| >= 36 && CrcOk(b) then IsValid
    else if b[0] == TYPE_CHUNK && |b| >= 24 && CrcOk(b) then IsValid
    else if b[0] == 0x00 || b[0] == 0xFF then IsFree
    else IsGarbage
  }

  /** The allocator takes exactly the free blocks, and no readable block is classified otherwise than valid. */
  lemma ClassifyAgrees(b: Bytes)
    requires |b| >= 36
    ensures Classify(b) == IsFree <==> View(b).Free?
    ensures View(b).Readable() ==> Classify(b) == IsValid
    ensures Classify(b) == IsGarbage ==> View(b).Bad?
  {
    hide CrcOk;
  }

  /** Decoded blocks respect the capacities of the format, and a stored key has fewer than 2^16 bytes. */
  lemma ViewCapacity(b: Bytes)
    requires |b| >= 36
    ensures View(b).Desc? ==> |View(b).key.raw| + |View(b).payload| + 36 <= |b| && |View(b).key.raw| < U16_LIMIT
    ensures View(b).Chunk? ==> |View(b).payload| <= ChunkCapacity(|b|)
  {
    hide CrcOk, Lossy;
  }

  /** A block that fails its CRC or starts with a free byte is no part of any record. */
  lemma TornUnreadable(b: Bytes)
    requires |b| >= 1 && (!CrcOk(b) || b[0] == 0x00 || b[0] == 0xFF)
    ensures !View(b).Readable()
  {
    hide CrcOk;
  }

  // ---- encoding ----

  function Fill(n: nat, b: Byte): (s: Bytes)
    ensures |s| == n && forall i | 0 <= i < n :: s[i] == b
  {
    seq(n, i => b)
  }

  function EncodeDesc(blockSize: nat, h: DescHeader, raw: Bytes, payload: Bytes): (s: Bytes)
    requires |raw| + |payload| + 36 <= blockSize
    ensures |s| == blockSize
  {
    Stamped(DescBytes(h, |raw|, |payload|) + raw + payload + Fill(blockSize - 32 - |raw| - |payload|, 0))
  }

  function EncodeChunk(blockSize: nat, h: ChunkHeader, payload: Bytes): (s: Bytes)
    requires |payload| + 24 <= blockSize
    ensures |s| == blockSize
  {
    Stamped(ChunkBytes(h, |payload|) + payload + Fill(blockSize - 20 - |payload|, 0))
  }

  lemma StampedPrefix(plain: Bytes, front: Bytes)
    requires front <= plain && |front| + 4 <= |plain|
    ensures front <= Stamped(plain)
  {
    hide CrcBytes, BlockCrc;
  }

  lemma Pieces(b: Bytes, head: Bytes, raw: Bytes, payload: Bytes)
    requires head + raw + payload <= b
    ensures head <= b && b[|head|..|head| + |raw|] == raw
    ensures b[|head| + |raw|..|head| + |raw| + |payload|] == payload
  {
    var s := head + raw + payload;
    assert forall i | 0 <= i < |s| :: b[i] == s[i];
  }

  /** The same bytes cut elsewhere. */
  lemma CutElsewhere(head: Bytes, raw: Bytes, payload: Bytes, pad: Bytes, n: nat)
    requires n <= |raw|
    ensures var all := raw + payload;
            head + all[..n] + all[n..n + |payload|] <= head + raw + payload + pad
  {
    var all := raw + payload;
    assert all[..n] + all[n..n + |payload|] == all[..n + |payload|];
    assert head + raw + payload + pad == head + all + pad;
  }

  /** What is left of a key length in its 16-bit field. */
  function KeySizeField(n: nat): (m: nat)
    ensures m <= n && (n < U16_LIMIT ==> m == n)
  {
    n % U16_LIMIT
  }

  /** The key and the payload that a descriptor block gives back, for a key of any length. */
  function ReadBack(h: DescHeader, raw: Bytes, payload: Bytes): Block {
    var n, all := KeySizeField(|raw|), raw + payload;
    Desc(h, MakeKey(all[..n]), all[n..n + |payload|])
  }

  /**
   * What an encoded descriptor decodes to, for a key of any length: the key size field keeps the length modulo
   * 2^16, so the key is cut there and the payload is taken from the bytes that follow.
   */
  lemma DescDecodes(blockSize: nat, h: DescHeader, raw: Bytes, payload: Bytes)
    requires |raw| + |payload| + 36 <= blockSize && |payload| < U32_LIMIT && DescFits(h) && h.chunkCount != 0
    ensures View(EncodeDesc(blockSize, h, raw, payload)) == ReadBack(h, raw, payload)
  {
    hide View, Lossy, DescBytes, ReadDesc, U16At, U32At, Stamped, CrcOk;
    var n, all := KeySizeField(|raw|), raw + payload;
    var head, pad := DescBytes(h, |raw|, |payload|), Fill(blockSize - 32 - |raw| - |payload|, 0);
    CutElsewhere(head, raw, payload, pad, n);
    StampedOk(head + raw + payload + pad);
    StampedPrefix(head + raw + payload + pad, head + all[..n] + all[n..n + |payload|]);
    Pieces(EncodeDesc(blockSize, h, raw, payload), head, all[..n], all[n..n + |payload|]);
    DescRoundTrip(EncodeDesc(blockSize, h, raw, payload), h, |raw|, |payload|);
    Decoding(EncodeDesc(blockSize, h, raw, payload), h, n, |payload|);
  }

  /** A block that passes every check of the reader decodes to its fields. */
  lemma Decoding(b: Bytes, h: DescHeader, n: nat, first: nat)
    requires |b| >= 36 && CrcOk(b) && b[0] == TYPE_DESCRIPTOR && b[1] == 32 && ReadDesc(b) == h && h.chunkCount != 0
    requires U16At(b, 2) == n && U32At(b, 12) == first && n + first + 36 <= |b|
    ensures View(b) == Desc(h, MakeKey(b[32..32 + n]), b[32 + n..32 + n + first])
  {
    hide CrcOk, ReadDesc, U16At, U32At, Lossy;
  }

  /** Decoding undoes encoding of a descriptor whose key length fits its field. */
  lemma ViewOfDesc(blockSize: nat, h: DescHeader, raw: Bytes, payload: Bytes)
    requires |raw| + |payload| + 36 <= blockSize && |raw| < U16_LIMIT && |payload| < U32_LIMIT
    requires DescFits(h) && h.chunkCount != 0
    ensures View(EncodeDesc(blockSize, h, raw, payload)) == Desc(h, MakeKey(raw), payload)
  {
    hide View, Lossy, EncodeDesc, KeySizeField;
    DescDecodes(blockSize, h, raw, payload);
    assert (raw + payload)[..|raw|] == raw;
    assert (raw + payload)[|raw|..|raw| + |payload|] == payload;
  }

  lemma ViewOfChunk(blockSize: nat, h: ChunkHeader, payload: Bytes)
    requires blockSize >= 36 && |payload| + 24 <= blockSize && |payload| < U32_LIMIT && ChunkHeaderFits(h)
    ensures View(EncodeChunk(blockSize, h, payload)) == Chunk(h, payload)
  {
    hide Lossy, ChunkBytes, ReadChunk, U32At, Stamped, CrcOk;
    var head := ChunkBytes(h, |payload|);
    var b := EncodeChunk(blockSize, h, payload);
    var plain := head + payload + Fill(blockSize - 20 - |payload|, 0);
    StampedOk(plain);
    StampedPrefix(plain, head + payload);
    assert head + payload == head + payload + [];
    Pieces(b, head, payload, []);
    ChunkRoundTrip(b, h, |payload|);
  }

  lemma ViewOfFree(blockSize: nat, pattern: Byte)
    requires blockSize >= 1 && (pattern == 0x00 || pattern == 0xFF)
    ensures View(Fill(blockSize, pattern)) == Free
  {}

  /** A descriptor reads back with its key exactly when the key length fits 16 bits. */
  lemma KeyReadsBackIff(blockSize: nat, h: DescHeader, raw: Bytes, payload: Bytes)
    requires |raw| + |payload| + 36 <= blockSize && |payload| < U32_LIMIT && DescFits(h) && h.chunkCount != 0
    ensures View(EncodeDesc(blockSize, h, raw, payload)) == Desc(h, MakeKey(raw), payload) <==> |raw| < U16_LIMIT
  {
    hide View, Lossy, EncodeDesc;
    if |raw| < U16_LIMIT {
      ViewOfDesc(blockSize, h, raw, payload);
    } else {
      ViewCapacity(EncodeDesc(blockSize, h, raw, payload));
    }
  }
}
