/** The single bits of a 32-bit word. */
module Words {
  import opened Format
  import opened Crc

  function Half(x: bv32): bv32 { x >> 1 }

  predicate Odd(x: bv32) { x & 1 == 1 }

  /** Bit `j` of the word, counted from the lowest. */
  predicate Bit(x: bv32, j: nat) { if j == 0 then Odd(x) else Bit(Half(x), j - 1) }

  function Wide(b: Byte): bv32 { b as bv32 }

  predicate ByteBit(b: Byte, j: nat) { Bit(Wide(b), j) }

  /** A single bit as a word. */
  function BitWord(b: bool): bv32 { if b then 1 else 0 }

  // ---- sums ----

  lemma PlainHalf(x: bv32, y: bv32)
    ensures (x ^ y) >> 1 == (x >> 1) ^ (y >> 1)
  {}

  lemma XorIs(x: bv32, y: bv32)
    ensures Xor(x, y) == x ^ y
  {}

  lemma HalfIs(x: bv32)
    ensures Half(x) == x >> 1
  {}

  lemma HalfXor(x: bv32, y: bv32)
    ensures Half(Xor(x, y)) == Xor(Half(x), Half(y))
  {
    hide Xor, Half;
    PlainHalf(x, y);
    XorIs(x, y);
    XorIs(x >> 1, y >> 1);
    HalfIs(Xor(x, y));
    HalfIs(x);
    HalfIs(y);
  }

  lemma PlainOdd(x: bv32, y: bv32)
    ensures ((x ^ y) & 1 == 1) == ((x & 1 == 1) != (y & 1 == 1))
  {}

  lemma OddXor(x: bv32, y: bv32)
    ensures Odd(Xor(x, y)) == (Odd(x) != Odd(y))
  {
    hide Xor;
    PlainOdd(x, y);
    XorIs(x, y);
  }

  lemma {:induction false} BitXor(x: bv32, y: bv32, j: nat)
    ensures Bit(Xor(x, y), j) == (Bit(x, j) != Bit(y, j))
    decreases j
  {
    hide Xor, Half, Odd;
    if j == 0 {
      OddXor(x, y);
    } else {
      HalfXor(x, y);
      BitXor(Half(x), Half(y), j - 1);
    }
  }

  // ---- four bits at a time ----

  function Quarter(x: bv32): bv32 { x >> 4 }

  lemma FourHalves(x: bv32)
    ensures Half(Half(Half(Half(x)))) == Quarter(x)
  {}

  lemma BitBeyond(x: bv32, j: nat)
    ensures Bit(x, j + 4) == Bit(Quarter(x), j)
  {
    hide Half, Odd, Quarter;
    FourHalves(x);
    assert Bit(x, j + 4) == Bit(Half(x), j + 3);
    assert Bit(Half(x), j + 3) == Bit(Half(Half(x)), j + 2);
    assert Bit(Half(Half(x)), j + 2) == Bit(Half(Half(Half(x))), j + 1);
  }

  lemma Nibble(x: bv32)
    ensures Bit(x, 0) == (x & 1 == 1) && Bit(x, 1) == (x & 2 == 2)
    ensures Bit(x, 2) == (x & 4 == 4) && Bit(x, 3) == (x & 8 == 8)
  {
    assert Bit(x, 1) == Odd(Half(x));
    assert Bit(x, 2) == Odd(Half(Half(x)));
    assert Bit(x, 3) == Odd(Half(Half(Half(x))));
  }

  lemma AllOut(x: bv32)
    ensures Quarter(Quarter(Quarter(Quarter(Quarter(Quarter(Quarter(Quarter(x)))))))) == 0
  {}

  lemma NoBit32(x: bv32)
    ensures !Bit(x, 32)
  {
    hide Quarter, Bit;
    var a := Quarter(x);
    var b := Quarter(a);
    var c := Quarter(b);
    var d := Quarter(c);
    var e := Quarter(d);
    var f := Quarter(e);
    var g := Quarter(f);
    BitBeyond(x, 28);
    BitBeyond(a, 24);
    BitBeyond(b, 20);
    BitBeyond(c, 16);
    BitBeyond(d, 12);
    BitBeyond(e, 8);
    BitBeyond(f, 4);
    BitBeyond(g, 0);
    AllOut(x);
    NoBits(0);
  }

  lemma HalfZero()
    ensures Half(0) == 0 && !Odd(0) && Half(1) == 0 && Odd(1)
  {}

  lemma {:induction false} NoBits(j: nat)
    ensures !Bit(0, j)
  {
    hide Half, Odd;
    HalfZero();
    if j > 0 { NoBits(j - 1); }
  }

  lemma BitOfBitWord(b: bool, j: nat)
    ensures Bit(BitWord(b), j) == (b && j == 0)
  {
    hide Half, Odd;
    HalfZero();
    NoBits(j);
    if j > 0 { NoBits(j - 1); }
  }

  lemma OddWord(w: bv32)
    ensures BitWord(Odd(w)) == w & 1
  {
    LowBit(w);
  }

  /** A word is determined by its bits. */
  lemma {:induction false} SameBits(x: bv32, y: bv32, n: nat)
    requires forall j: nat | j < n :: Bit(x, j) == Bit(y, j)
    requires Remaining(x, n) == Remaining(y, n)
    ensures x == y
    decreases n
  {
    hide Half, Odd;
    if n > 0 {
      assert Bit(x, 0) == Bit(y, 0);
      forall j: nat | j < n - 1 ensures Bit(Half(x), j) == Bit(Half(y), j) { assert Bit(x, j + 1) == Bit(y, j + 1); }
      SameBits(Half(x), Half(y), n - 1);
      HalfAndOdd(x, y);
    }
  }

  lemma NothingRemains(x: bv32)
    ensures Remaining(x, 32) == 0
  {
    hide Half, Quarter, Remaining;
    var a := Quarter(x);
    var b := Quarter(a);
    var c := Quarter(b);
    var d := Quarter(c);
    var e := Quarter(d);
    var f := Quarter(e);
    var g := Quarter(f);
    RemainingBeyond(x, 28);
    RemainingBeyond(a, 24);
    RemainingBeyond(b, 20);
    RemainingBeyond(c, 16);
    RemainingBeyond(d, 12);
    RemainingBeyond(e, 8);
    RemainingBeyond(f, 4);
    RemainingBeyond(g, 0);
    AllOut(x);
    RemainingNone(0);
  }

  lemma RemainingNone(x: bv32)
    ensures Remaining(x, 0) == x
  {}

  lemma RemainingBeyond(x: bv32, n: nat)
    ensures Remaining(x, n + 4) == Remaining(Quarter(x), n)
  {
    hide Half, Quarter;
    FourHalves(x);
    assert Remaining(x, n + 4) == Remaining(Half(x), n + 3);
    assert Remaining(Half(x), n + 3) == Remaining(Half(Half(x)), n + 2);
    assert Remaining(Half(Half(x)), n + 2) == Remaining(Half(Half(Half(x))), n + 1);
  }

  /** What is left of a word after its lowest `n` bits. */
  function Remaining(x: bv32, n: nat): bv32
    decreases n
  {
    if n == 0 then x else Remaining(Half(x), n - 1)
  }

  lemma HalfAndOdd(x: bv32, y: bv32)
    requires Half(x) == Half(y) && Odd(x) == Odd(y)
    ensures x == y
  {}

  // ---- bytes in a word ----

  /** The word moved up by one byte. */
  function Up(x: bv32): bv32 { x << 8 }

  /** The top byte is empty. */
  predicate Roomy(x: bv32) { x & 0xFF00_0000 == 0 }

  lemma UpParts(x: bv32)
    requires Roomy(x)
    ensures Quarter(Quarter(Up(x))) == x
    ensures Up(x) & 1 == 0 && Up(x) & 2 == 0 && Up(x) & 4 == 0 && Up(x) & 8 == 0
    ensures var y := Quarter(Up(x)); y & 1 == 0 && y & 2 == 0 && y & 4 == 0 && y & 8 == 0
  {}

  lemma UpBits(x: bv32, j: nat)
    requires Roomy(x)
    ensures Bit(Up(x), j) == (j >= 8 && Bit(x, j - 8))
  {
    hide Bit, Up, Quarter, Roomy;
    UpParts(x);
    Nibble(Up(x));
    Nibble(Quarter(Up(x)));
    if j >= 4 { BitBeyond(Up(x), j - 4); }
    if j >= 8 { BitBeyond(Quarter(Up(x)), j - 8); }
  }

  lemma ByteParts(b: Byte)
    ensures Quarter(Quarter(Wide(b))) == 0 && Roomy(Wide(b)) && Roomy(Up(Wide(b))) && Roomy(Up(Up(Wide(b))))
  {}

  lemma ByteEnds(b: Byte, j: nat)
    requires j >= 8
    ensures !ByteBit(b, j)
  {
    hide Bit, Quarter, Wide, Roomy, Up;
    ByteParts(b);
    BitBeyond(Wide(b), j - 4);
    BitBeyond(Quarter(Wide(b)), j - 8);
    NoBits(j - 8);
  }

  lemma PlainWord(b0: Byte, b1: Byte, b2: Byte, b3: Byte)
    ensures Up(Wide(b1)) == (b1 as bv32) << 8 && Up(Up(Wide(b2))) == (b2 as bv32) << 16
    ensures Up(Up(Up(Wide(b3)))) == (b3 as bv32) << 24 && Wide(b0) == b0 as bv32
  {}

  lemma WordIs(b0: Byte, b1: Byte, b2: Byte, b3: Byte)
    ensures Word(b0, b1, b2, b3) ==
            Xor(Xor(Xor(Wide(b0), Up(Wide(b1))), Up(Up(Wide(b2)))), Up(Up(Up(Wide(b3)))))
  {
    hide Xor, Up, Wide;
    PlainWord(b0, b1, b2, b3);
  }

  lemma SecondByte(b: Byte, j: nat)
    ensures Bit(Up(Wide(b)), j) == (8 <= j < 16 && ByteBit(b, j - 8))
  {
    hide Bit, Up, Wide, Roomy;
    ByteParts(b);
    UpBits(Wide(b), j);
    if j >= 16 { ByteEnds(b, j - 8); }
  }

  lemma ThirdByte(b: Byte, j: nat)
    ensures Bit(Up(Up(Wide(b))), j) == (16 <= j < 24 && ByteBit(b, j - 16))
  {
    hide Bit, Up, Wide, Roomy;
    ByteParts(b);
    UpBits(Up(Wide(b)), j);
    if j >= 8 { SecondByte(b, j - 8); }
  }

  lemma FourthByte(b: Byte, j: nat)
    ensures Bit(Up(Up(Up(Wide(b)))), j) == (24 <= j < 32 && ByteBit(b, j - 24))
  {
    hide Bit, Up, Wide, Roomy;
    ByteParts(b);
    UpBits(Up(Up(Wide(b))), j);
    if j >= 8 { ThirdByte(b, j - 8); }
  }

  lemma WordBit(b0: Byte, b1: Byte, b2: Byte, b3: Byte, j: nat)
    requires j < 32
    ensures Bit(Word(b0, b1, b2, b3), j) ==
            if j < 8 then ByteBit(b0, j) else if j < 16 then ByteBit(b1, j - 8)
            else if j < 24 then ByteBit(b2, j - 16) else ByteBit(b3, j - 24)
  {
    hide Bit, Xor, Up, Wide, Word;
    var a, b, c, d := Wide(b0), Up(Wide(b1)), Up(Up(Wide(b2))), Up(Up(Up(Wide(b3))));
    WordIs(b0, b1, b2, b3);
    BitXor(Xor(Xor(a, b), c), d, j);
    BitXor(Xor(a, b), c, j);
    BitXor(a, b, j);
    if j >= 8 { ByteEnds(b0, j); }
    SecondByte(b1, j);
    ThirdByte(b2, j);
    FourthByte(b3, j);
  }

  /** The bits of a little-endian word are the bits of its bytes. */
  lemma WordBits(s: Bytes, j: nat)
    requires |s| == 4 && j < 32
    ensures Bit(Word(s[0], s[1], s[2], s[3]), j) == ByteBit(s[j / 8], j % 8)
  {
    hide Bit, ByteBit, Word;
    WordBit(s[0], s[1], s[2], s[3], j);
  }

  /** All ones, one bit at a time. */
  lemma OnesBits(j: nat)
    requires j < 32
    ensures Bit(0xFFFF_FFFF, j)
  {
    hide Bit;
    var ones: Byte := 0xFF;
    WordBits([ones, ones, ones, ones], j);
    OnesWord();
    OnesByte(j % 8);
  }

  lemma OnesWord()
    ensures Word(0xFF, 0xFF, 0xFF, 0xFF) == 0xFFFF_FFFF
  {}

  lemma OnesByte(j: nat)
    requires j < 8
    ensures ByteBit(0xFF, j)
  {
    hide Bit;
    assert Wide(0xFF) == 0xFF && Quarter(0xFF) == 0x0F;
    Nibble(0xFF);
    Nibble(0x0F);
    if j >= 4 { BitBeyond(0xFF, j - 4); }
  }
}
