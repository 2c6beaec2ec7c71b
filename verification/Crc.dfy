/** The block checksum: table-driven CRC-32 against bit-by-bit division, and what it detects. */
module Crc {
  import opened Format

  /** The IEEE polynomial, reflected. */
  const POLY: bv32 := 0xEDB8_8320

  /** One division step: shift out a bit and subtract the polynomial if it was set. */
  function BitStep(c: bv32): bv32 {
    if c & 1 != 0 then (c >> 1) ^ POLY else c >> 1
  }

  function BitSteps(c: bv32, n: nat): bv32
    decreases n
  {
    if n == 0 then c else BitSteps(BitStep(c), n - 1)
  }

  /** The reference: `n` message bits, lowest first, enter the division one at a time. */
  function FeedBits(c: bv32, bits: bv32, n: nat): bv32
    decreases n
  {
    if n == 0 then c else FeedBits(BitStep(Xor(c, bits & 1)), bits >> 1, n - 1)
  }

  function Xor(x: bv32, y: bv32): bv32 { x ^ y }

  /** Bit-by-bit CRC of a byte string from starting state `c`. */
  function Divide(c: bv32, data: Bytes): bv32 {
    if data == [] then c else FeedBits(Divide(c, data[..|data| - 1]), data[|data| - 1] as bv32, 8)
  }

  /** Splitting the input across update calls does not change the result. */
  lemma {:induction false} DivideConcat(c: bv32, a: Bytes, b: Bytes)
    ensures Divide(c, a + b) == Divide(Divide(c, a), b)
  {
    hide FeedBits;
    if b == [] {
      assert a + b == a;
    } else {
      DivideConcat(c, a, b[..|b| - 1]);
      assert (a + b)[..|a + b| - 1] == a + b[..|b| - 1];
    }
  }

  // ---- the step is linear and injective ----

  lemma LinearEvenEven(x: bv32, y: bv32)
    requires x & 1 == 0 && y & 1 == 0
    ensures BitStep(Xor(x, y)) == Xor(BitStep(x), BitStep(y))
  {}

  lemma LinearEvenOdd(x: bv32, y: bv32)
    requires x & 1 == 0 && y & 1 == 1
    ensures BitStep(Xor(x, y)) == Xor(BitStep(x), BitStep(y))
  {}

  lemma LinearOddOdd(x: bv32, y: bv32)
    requires x & 1 == 1 && y & 1 == 1
    ensures BitStep(Xor(x, y)) == Xor(BitStep(x), BitStep(y))
  {}

  lemma LowBit(x: bv32)
    ensures x & 1 == 0 || x & 1 == 1
  {}

  lemma XorCommutes(x: bv32, y: bv32)
    ensures Xor(x, y) == Xor(y, x)
  {}

  lemma BitStepLinear(x: bv32, y: bv32)
    ensures BitStep(Xor(x, y)) == Xor(BitStep(x), BitStep(y))
  {
    hide BitStep, Xor;
    LowBit(x);
    LowBit(y);
    if x & 1 == 0 && y & 1 == 0 {
      LinearEvenEven(x, y);
    } else if x & 1 == 0 {
      LinearEvenOdd(x, y);
    } else if y & 1 == 0 {
      LinearEvenOdd(y, x);
      XorCommutes(x, y);
      XorCommutes(BitStep(x), BitStep(y));
    } else {
      LinearOddOdd(x, y);
    }
  }

  lemma BitStepInjective(x: bv32, y: bv32)
    requires BitStep(x) == BitStep(y)
    ensures x == y
  {}

  lemma {:induction false} BitStepsLinear(x: bv32, y: bv32, n: nat)
    ensures BitSteps(Xor(x, y), n) == Xor(BitSteps(x, n), BitSteps(y, n))
    decreases n
  {
    hide BitStep, Xor;
    if n > 0 {
      BitStepLinear(x, y);
      BitStepsLinear(BitStep(x), BitStep(y), n - 1);
    }
  }

  lemma {:induction false} BitStepsInjective(x: bv32, y: bv32, n: nat)
    requires BitSteps(x, n) == BitSteps(y, n)
    ensures x == y
    decreases n
  {
    if n > 0 {
      BitStepsInjective(BitStep(x), BitStep(y), n - 1);
      BitStepInjective(x, y);
    }
  }

  lemma {:induction false} BitStepsAdd(x: bv32, m: nat, n: nat)
    ensures BitSteps(x, m + n) == BitSteps(BitSteps(x, m), n)
    decreases m
  {
    if m > 0 { BitStepsAdd(BitStep(x), m - 1, n); }
  }

  // ---- the table ----

  /** One bit entering is one step on the whole remaining word. */
  lemma OneBit(c: bv32, bits: bv32)
    ensures Xor(BitStep(Xor(c, bits & 1)), bits >> 1) == BitStep(Xor(c, bits))
  {
    hide BitStep, Xor;
    var low, high := bits & 1, (bits >> 1) << 1;
    assert Xor(c, bits) == Xor(Xor(c, low), high) by { SplitLow(c, bits); }
    BitStepLinear(Xor(c, low), high);
    assert BitStep(high) == bits >> 1 by { EvenStep(bits); }
  }

  lemma SplitLow(c: bv32, bits: bv32)
    ensures Xor(c, bits) == Xor(Xor(c, bits & 1), (bits >> 1) << 1)
  {}

  lemma EvenStep(bits: bv32)
    ensures BitStep((bits >> 1) << 1) == bits >> 1
  {}

  function ShiftRight(x: bv32, n: nat): bv32
    decreases n
  {
    if n == 0 then x else ShiftRight(x >> 1, n - 1)
  }

  lemma {:induction false} FeedBitsIsSteps(c: bv32, bits: bv32, n: nat)
    ensures Xor(FeedBits(c, bits, n), ShiftRight(bits, n)) == BitSteps(Xor(c, bits), n)
    decreases n
  {
    hide BitStep, Xor;
    if n > 0 {
      OneBit(c, bits);
      FeedBitsIsSteps(BitStep(Xor(c, bits & 1)), bits >> 1, n - 1);
    }
  }

  lemma ByteShiftsOut(b: Byte)
    ensures ShiftRight(b as bv32, 8) == 0
  {
    var x := b as bv32;
    assert ShiftRight(x, 8) == ShiftRight(x >> 1 >> 1 >> 1 >> 1, 4);
    assert ShiftRight(x >> 1 >> 1 >> 1 >> 1, 4) == x >> 1 >> 1 >> 1 >> 1 >> 1 >> 1 >> 1 >> 1;
  }

  /** A byte may be added whole and then divided out in eight steps. */
  lemma FeedByte(c: bv32, b: Byte)
    ensures FeedBits(c, b as bv32, 8) == BitSteps(Xor(c, b as bv32), 8)
  {
    hide FeedBits, BitSteps, ShiftRight;
    FeedBitsIsSteps(c, b as bv32, 8);
    ByteShiftsOut(b);
  }

  /** Bits that are zero shift out without touching the polynomial. */
  lemma ShiftOut(x: bv32)
    requires x & 0xFF == 0
    ensures BitSteps(x, 8) == x >> 8
  {
    assert BitStep(x) == x >> 1;
    assert BitStep(x >> 1) == x >> 2;
    assert BitStep(x >> 2) == x >> 3;
    assert BitStep(x >> 3) == x >> 4;
    assert BitStep(x >> 4) == x >> 5;
    assert BitStep(x >> 5) == x >> 6;
    assert BitStep(x >> 6) == x >> 7;
    assert BitStep(x >> 7) == x >> 8;
  }

  /** An entry of the lookup table: eight division steps on a byte. */
  function TableEntry(i: bv32): bv32 { BitSteps(i, 8) }

  function Low(x: bv32): bv32 { x & 0xFF }

  function High(x: bv32): bv32 { x & 0xFFFF_FF00 }

  /** The table-driven update of the state by one byte. */
  function TableUpdate(c: bv32, b: Byte): bv32 {
    Xor(c >> 8, TableEntry(Low(Xor(c, b as bv32))))
  }

  lemma LowHigh(x: bv32)
    ensures Xor(High(x), Low(x)) == x
  {}

  lemma HighShift(c: bv32, b: Byte)
    ensures High(Xor(c, b as bv32)) & 0xFF == 0
    ensures High(Xor(c, b as bv32)) >> 8 == c >> 8
  {}

  lemma TableParts(c: bv32, b: Byte)
    ensures var x := Xor(c, b as bv32); TableUpdate(c, b) == Xor(BitSteps(High(x), 8), BitSteps(Low(x), 8))
  {
    hide BitSteps, High, Low, Xor;
    HighShift(c, b);
    ShiftOut(High(Xor(c, b as bv32)));
  }

  /** The table method is the bit-by-bit method, one byte at a time. */
  lemma TableStep(c: bv32, b: Byte)
    ensures TableUpdate(c, b) == FeedBits(c, b as bv32, 8)
  {
    hide BitSteps, FeedBits, Xor, High, Low, TableUpdate;
    var x := Xor(c, b as bv32);
    TableParts(c, b);
    BitStepsLinear(High(x), Low(x), 8);
    LowHigh(x);
    FeedByte(c, b);
  }

  // ---- injectivity ----

  lemma XorInjective(x: bv32, y: bv32, z: bv32)
    requires Xor(x, z) == Xor(y, z)
    ensures x == y
  {}

  /** Different states stay different under the same input. */
  lemma {:induction false} DivideInjective(c: bv32, c': bv32, data: Bytes)
    requires Divide(c, data) == Divide(c', data)
    ensures c == c'
  {
    hide FeedBits, BitSteps, Xor;
    if data != [] {
      var n := |data| - 1;
      var b := data[n] as bv32;
      FeedByte(Divide(c, data[..n]), data[n]);
      FeedByte(Divide(c', data[..n]), data[n]);
      BitStepsInjective(Xor(Divide(c, data[..n]), b), Xor(Divide(c', data[..n]), b), 8);
      XorInjective(Divide(c, data[..n]), Divide(c', data[..n]), b);
      DivideInjective(c, c', data[..n]);
    }
  }

  /** Four bytes as a little-endian word. */
  function Word(b0: Byte, b1: Byte, b2: Byte, b3: Byte): bv32 {
    Xor(Xor(Xor(b0 as bv32, (b1 as bv32) << 8), (b2 as bv32) << 16), (b3 as bv32) << 24)
  }

  lemma Shift8(b: bv32)
    requires b & 0xFFFF_FF00 == 0
    ensures BitSteps(b << 8, 8) == b
  {
    hide BitSteps;
    ShiftOut(b << 8);
  }

  lemma Shift16(b: bv32)
    requires b & 0xFFFF_FF00 == 0
    ensures BitSteps(b << 16, 16) == b
  {
    hide BitSteps;
    Shift8(b);
    assert (b << 16) >> 8 == b << 8;
    ShiftOut(b << 16);
    BitStepsAdd(b << 16, 8, 8);
  }

  lemma Shift24(b: bv32)
    requires b & 0xFFFF_FF00 == 0
    ensures BitSteps(b << 24, 24) == b
  {
    hide BitSteps;
    Shift16(b);
    assert (b << 24) >> 8 == b << 16;
    ShiftOut(b << 24);
    BitStepsAdd(b << 24, 8, 16);
  }

  /** A byte that enters after `n` steps might as well have entered shifted, at the start. */
  lemma EnterEarly(y: bv32, b: bv32, early: bv32, n: nat)
    requires BitSteps(early, n) == b
    ensures BitSteps(Xor(BitSteps(y, n), b), 8) == BitSteps(Xor(y, early), n + 8)
  {
    hide BitSteps, Xor;
    BitStepsLinear(y, early, n);
    BitStepsAdd(Xor(y, early), n, 8);
  }

  lemma ByteIsLow(b: Byte)
    ensures (b as bv32) & 0xFFFF_FF00 == 0
  {}

  lemma FourBytes(c: bv32, d: Bytes)
    requires |d| == 4
    ensures var w := Xor(Xor(Xor(c, d[0] as bv32), (d[1] as bv32) << 8), (d[2] as bv32) << 16);
            Divide(c, d) == BitSteps(Xor(w, (d[3] as bv32) << 24), 32)
  {
    hide BitSteps, Xor, FeedBits;
    var w0 := Xor(c, d[0] as bv32);
    var w1 := Xor(w0, (d[1] as bv32) << 8);
    var w2 := Xor(w1, (d[2] as bv32) << 16);
    DivideOne(c, d, 0);
    ByteIsLow(d[1]);
    Shift8(d[1] as bv32);
    EnterShifted(c, d, 1, w0, (d[1] as bv32) << 8);
    ByteIsLow(d[2]);
    Shift16(d[2] as bv32);
    EnterShifted(c, d, 2, w1, (d[2] as bv32) << 16);
    ByteIsLow(d[3]);
    Shift24(d[3] as bv32);
    EnterShifted(c, d, 3, w2, (d[3] as bv32) << 24);
    assert d[..4] == d;
  }

  lemma DivideOne(c: bv32, d: Bytes, k: nat)
    requires k < |d|
    ensures Divide(c, d[..k + 1]) == BitSteps(Xor(Divide(c, d[..k]), d[k] as bv32), 8)
    ensures Divide(c, d[..0]) == c
  {
    hide BitSteps, Xor, FeedBits;
    assert d[..k + 1][..k] == d[..k];
    FeedByte(Divide(c, d[..k]), d[k]);
  }

  /** Byte `k` enters at its place in the word. */
  lemma EnterShifted(c: bv32, d: Bytes, k: nat, w: bv32, early: bv32)
    requires 1 <= k < |d| && Divide(c, d[..k]) == BitSteps(w, 8 * k)
    requires BitSteps(early, 8 * k) == d[k] as bv32
    ensures Divide(c, d[..k + 1]) == BitSteps(Xor(w, early), 8 * k + 8)
  {
    hide BitSteps, Xor, Divide;
    DivideOne(c, d, k);
    EnterEarly(w, d[k] as bv32, early, 8 * k);
  }

  lemma WordInjective(a0: Byte, a1: Byte, a2: Byte, a3: Byte, b0: Byte, b1: Byte, b2: Byte, b3: Byte)
    requires Word(a0, a1, a2, a3) == Word(b0, b1, b2, b3)
    ensures a0 == b0 && a1 == b1 && a2 == b2 && a3 == b3
  {}

  lemma XorAssociates(x: bv32, y: bv32, z: bv32)
    ensures Xor(Xor(x, y), z) == Xor(x, Xor(y, z))
  {}

  /** Dividing four bytes is 32 steps on the state plus their word. */
  lemma FourBytesWord(c: bv32, d: Bytes)
    requires |d| == 4
    ensures Divide(c, d) == BitSteps(Xor(Word(d[0], d[1], d[2], d[3]), c), 32)
  {
    hide BitSteps, Xor, Divide;
    var b0, b1, b2, b3 := d[0] as bv32, (d[1] as bv32) << 8, (d[2] as bv32) << 16, (d[3] as bv32) << 24;
    FourBytes(c, d);
    XorAssociates(c, b0, b1);
    XorAssociates(c, Xor(b0, b1), b2);
    XorAssociates(c, Xor(Xor(b0, b1), b2), b3);
    XorCommutes(c, Word(d[0], d[1], d[2], d[3]));
  }

  /** From one state, different groups of four bytes lead to different states. */
  lemma FourBytesInjective(c: bv32, d: Bytes, d': Bytes)
    requires |d| == 4 && |d'| == 4 && Divide(c, d) == Divide(c, d')
    ensures d == d'
  {
    hide BitSteps, Xor, Divide, Word;
    FourBytesWord(c, d);
    FourBytesWord(c, d');
    var w, w' := Word(d[0], d[1], d[2], d[3]), Word(d'[0], d'[1], d'[2], d'[3]);
    BitStepsInjective(Xor(w, c), Xor(w', c), 32);
    XorInjective(w, w', c);
    WordInjective(d[0], d[1], d[2], d[3], d'[0], d'[1], d'[2], d'[3]);
  }

  // ---- blocks ----

  const ZEROS: Bytes := [0, 0, 0, 0]

  /** The CRC of a block whose four bytes at `off` are read as zero. */
  function BlockCrc(buf: Bytes, off: nat): bv32
    requires off + 4 <= |buf|
  {
    Xor(Divide(0xFFFF_FFFF, buf[..off] + ZEROS + buf[off + 4..]), 0xFFFF_FFFF)
  }

  /** The stored trailing CRC. */
  function StoredCrc(buf: Bytes): bv32
    requires |buf| >= 4
  {
    var off := |buf| - 4;
    Word(buf[off], buf[off + 1], buf[off + 2], buf[off + 3])
  }

  /** The block is intact as far as its trailing CRC can tell. */
  predicate CrcOk(buf: Bytes) {
    |buf| >= 4 && BlockCrc(buf, |buf| - 4) == StoredCrc(buf)
  }

  function CrcBytes(c: bv32): (s: Bytes)
    ensures |s| == 4
  {
    [(c & 0xFF) as bv8, ((c >> 8) & 0xFF) as bv8, ((c >> 16) & 0xFF) as bv8, ((c >> 24) & 0xFF) as bv8]
  }

  lemma CrcBytesWord(c: bv32)
    ensures var s := CrcBytes(c); Word(s[0], s[1], s[2], s[3]) == c
  {}

  /** The block with its CRC filled in. */
  function Stamped(buf: Bytes): (s: Bytes)
    requires |buf| >= 4
    ensures |s| == |buf|
  {
    buf[..|buf| - 4] + CrcBytes(BlockCrc(buf, |buf| - 4))
  }

  /** A stamped block always verifies. */
  lemma StampedOk(buf: Bytes)
    requires |buf| >= 4
    ensures CrcOk(Stamped(buf))
  {
    hide Divide, CrcBytes, Word, Xor;
    var off, s := |buf| - 4, Stamped(buf);
    assert s[..off] + ZEROS + s[off + 4..] == buf[..off] + ZEROS + buf[off + 4..];
    CrcBytesWord(BlockCrc(buf, off));
  }

  /** The two blocks are the same outside the four bytes from `p`. */
  predicate SameOutside(buf: Bytes, buf': Bytes, p: nat) {
    |buf| == |buf'| && p + 4 <= |buf| && buf[..p] == buf'[..p] && buf[p + 4..] == buf'[p + 4..]
  }

  lemma {:induction false} DivideDiffers(c: bv32, a: Bytes, d: Bytes, d': Bytes, b: Bytes)
    requires |d| == 4 && |d'| == 4 && d != d'
    ensures Divide(c, a + d + b) != Divide(c, a + d' + b)
  {
    hide Divide;
    DivideConcat(c, a + d, b);
    DivideConcat(c, a + d', b);
    DivideConcat(c, a, d);
    DivideConcat(c, a, d');
    if Divide(c, a + d + b) == Divide(c, a + d' + b) {
      DivideInjective(Divide(c, a + d), Divide(c, a + d'), b);
      FourBytesInjective(Divide(c, a), d, d');
    }
  }

  /** Any change confined to four consecutive bytes before the CRC field is detected. */
  lemma BurstDetected(buf: Bytes, buf': Bytes, p: nat)
    requires CrcOk(buf) && SameOutside(buf, buf', p) && p + 4 <= |buf| - 4
    requires buf != buf'
    ensures !CrcOk(buf')
  {
    hide Divide, Xor, StoredCrc, BlockCrc;
    var a, d, d', b := buf[..p], buf[p..p + 4], buf'[p..p + 4], buf[p + 4..|buf| - 4] + ZEROS;
    BurstSides(buf, buf', p);
    BurstCrc(buf, p);
    BurstCrc(buf', p);
    DivideDiffers(0xFFFF_FFFF, a, d, d', b);
    if CrcOk(buf') {
      XorInjective(Divide(0xFFFF_FFFF, a + d + b), Divide(0xFFFF_FFFF, a + d' + b), 0xFFFF_FFFF);
    }
  }

  /** Outside the burst the two blocks agree, the stored CRC included; inside they differ. */
  lemma BurstSides(buf: Bytes, buf': Bytes, p: nat)
    requires SameOutside(buf, buf', p) && p + 4 <= |buf| - 4 && buf != buf'
    ensures buf'[p + 4..|buf| - 4] == buf[p + 4..|buf| - 4] && buf[p..p + 4] != buf'[p..p + 4]
    ensures StoredCrc(buf') == StoredCrc(buf)
  {
    hide StoredCrc;
    var off := |buf| - 4;
    var tail := buf[p + 4..];
    assert buf == buf[..p] + buf[p..p + 4] + tail && buf' == buf[..p] + buf'[p..p + 4] + tail;
    assert buf[p + 4..off] == tail[..off - p - 4] && buf'[p + 4..off] == tail[..off - p - 4];
    assert buf[off..] == tail[off - p - 4..] && buf'[off..] == tail[off - p - 4..];
    Trailing(buf, buf');
  }

  /** The CRC of a block, with four of its bytes set apart. */
  lemma BurstCrc(buf: Bytes, p: nat)
    requires p + 8 <= |buf|
    ensures BlockCrc(buf, |buf| - 4)
         == Xor(Divide(0xFFFF_FFFF, buf[..p] + buf[p..p + 4] + (buf[p + 4..|buf| - 4] + ZEROS)), 0xFFFF_FFFF)
  {
    hide Divide, Xor;
    var off := |buf| - 4;
    assert buf[..off] + ZEROS + buf[off + 4..] == buf[..p] + buf[p..p + 4] + (buf[p + 4..off] + ZEROS);
  }

  lemma Trailing(buf: Bytes, buf': Bytes)
    requires 4 <= |buf| == |buf'| && buf[|buf| - 4..] == buf'[|buf| - 4..]
    ensures StoredCrc(buf) == StoredCrc(buf')
  {
    var off := |buf| - 4;
    assert buf[off..] == [buf[off], buf[off + 1], buf[off + 2], buf[off + 3]];
    assert buf'[off..] == [buf'[off], buf'[off + 1], buf'[off + 2], buf'[off + 3]];
  }

  // ---- the routines ----

  /** What the lookup table should hold at index `k`. */
  function EntryAt(k: nat): bv32
    requires k < 256
  {
    TableEntry(k as bv32)
  }

  lemma EntryAtByte(x: bv32)
    requires x < 256
    ensures x as int < 256 && EntryAt(x as int) == TableEntry(x)
  {
    hide TableEntry;
    SmallIndex(x);
  }

  /** The inner loop of the table's initialisation. */
  method EightSteps(start: bv32) returns (crc: bv32)
    ensures crc == TableEntry(start)
  {
    crc := start;
    for j := 0 to 8
      invariant BitSteps(crc, 8 - j) == TableEntry(start)
    {
      if crc & 1 != 0 {
        crc := (crc >> 1) ^ POLY;
      } else {
        crc := crc >> 1;
      }
    }
  }

  method CrcTable() returns (table: array<bv32>)
    ensures fresh(table) && table.Length == 256
    ensures forall i | 0 <= i < 256 :: table[i] == EntryAt(i)
  {
    hide TableEntry;
    table := new bv32[256];
    for i := 0 to 256
      invariant forall k | 0 <= k < i :: table[k] == EntryAt(k)
    {
      var crc := EightSteps(i as bv32);
      table[i] := crc;
    }
  }

  method Crc32Update(start: bv32, data: Bytes) returns (crc: bv32)
    ensures crc == Divide(start, data)
  {
    hide FeedBits, TableEntry, Xor, Low, Divide, EntryAt;
    crc := start;
    DivideNothing(start, data);
    var table := CrcTable();
    for i := 0 to |data|
      invariant crc == Divide(start, data[..i])
      invariant forall k | 0 <= k < 256 :: table[k] == EntryAt(k)
    {
      var b := data[i];
      var low := Low(Xor(crc, b as bv32));
      TableStep(crc, b);
      LowIsByte(Xor(crc, b as bv32));
      EntryAtByte(low);
      crc := Xor(crc >> 8, table[low as int]);
      DivideSnoc(start, data, i);
    }
    assert data[..|data|] == data;
  }

  lemma DivideSnoc(c: bv32, data: Bytes, i: nat)
    requires i < |data|
    ensures Divide(c, data[..i + 1]) == FeedBits(Divide(c, data[..i]), data[i] as bv32, 8)
  {
    hide FeedBits;
    assert data[..i + 1][..i] == data[..i];
  }

  lemma DivideNothing(c: bv32, data: Bytes)
    ensures Divide(c, data[..0]) == c
  {}

  lemma LowIsByte(x: bv32)
    ensures Low(x) < 256
  {}

  lemma SmallIndex(x: bv32)
    requires x < 256
    ensures 0 <= x as int < 256 && (x as int) as bv32 == x
  {}

  method ComputeBlockCrc32(buf: Bytes, off: nat) returns (crc: bv32)
    requires off + 4 <= |buf|
    ensures crc == BlockCrc(buf, off)
  {
    crc := 0xFFFF_FFFF;
    crc := Crc32Update(crc, buf[..off]);
    crc := Crc32Update(crc, ZEROS);
    crc := Crc32Update(crc, buf[off + 4..]);
    DivideConcat(0xFFFF_FFFF, buf[..off], ZEROS);
    DivideConcat(0xFFFF_FFFF, buf[..off] + ZEROS, buf[off + 4..]);
    crc := crc ^ 0xFFFF_FFFF;
  }

  method WriteBlockCrc(buf: array<Byte>)
    requires buf.Length >= 4
    modifies buf
    ensures buf[..] == Stamped(old(buf[..]))
    ensures CrcOk(buf[..])
  {
    hide Divide, Xor, CrcBytes, BlockCrc, CrcOk;
    var off := buf.Length - 4;
    var crc := ComputeBlockCrc32(buf[..], off);
    var bytes := CrcBytes(crc);
    buf[off], buf[off + 1], buf[off + 2], buf[off + 3] := bytes[0], bytes[1], bytes[2], bytes[3];
    assert buf[..] == Stamped(old(buf[..]));
    StampedOk(old(buf[..]));
  }

  method VerifyBlockCrc(buf: Bytes) returns (ok: bool)
    requires |buf| >= 4
    ensures ok == CrcOk(buf)
  {
    var off := |buf| - 4;
    var stored := Word(buf[off], buf[off + 1], buf[off + 2], buf[off + 3]);
    var crc := ComputeBlockCrc32(buf, off);
    ok := crc == stored;
  }
}
