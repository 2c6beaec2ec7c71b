/** The checksum as algebra: the remainder of polynomial division over the two-element field. */
module Polynomial {
  import opened Format
  import opened Crc
  import opened Words

  // ---- polynomials ----

  /** A polynomial over the two-element field: the exponents whose coefficient is 1. */
  type Poly = set<nat>

  function Add(p: Poly, q: Poly): Poly { (p - q) + (q - p) }

  /** The polynomial times x. */
  function Raise(p: Poly): (s: Poly)
    ensures forall k: nat :: k in s <==> k >= 1 && k - 1 in p
  {
    var s: Poly := set k | k in p :: k + 1;
    assert forall k: nat | k >= 1 && k - 1 in p :: k in s by {
      forall k: nat | k >= 1 && k - 1 in p ensures k in s { assert (k - 1) + 1 == k; }
    }
    s
  }

  /** The polynomial times x to the power `n`. */
  function RaiseBy(p: Poly, n: nat): Poly {
    if n == 0 then p else Raise(RaiseBy(p, n - 1))
  }

  /** The product of the polynomial with coefficients `q`, highest first, and `g`, by Horner's rule. */
  function Times(q: seq<bool>, g: Poly): Poly {
    if q == [] then {}
    else
      var n := |q| - 1;
      Add(Raise(Times(q[..n], g)), if q[n] then g else {})
  }

  /** The generator of CRC-32 as the IEEE 802.3 standard writes it. */
  const GENERATOR: Poly := {32, 26, 23, 22, 16, 12, 11, 10, 8, 7, 5, 4, 2, 1, 0}

  // ---- words as polynomials ----

  /** The polynomial of a division state: bit 31 of the word is the coefficient of 1, bit 0 that of x^31. */
  function StatePoly(c: bv32): (p: Poly)
    ensures forall k: nat :: k in p <==> Coefficient(c, k)
  {
    set k: nat | k < 32 && Coefficient(c, k)
  }

  predicate Coefficient(c: bv32, k: nat) { k < 32 && Bit(c, 31 - k) }

  /** The coefficients of a message, highest first: the bits of each byte enter lowest first. */
  function Bits(data: Bytes): (s: seq<bool>)
    ensures |s| == 8 * |data|
    ensures forall i | 0 <= i < |s| :: s[i] == ByteBit(data[i / 8], i % 8)
  {
    seq(8 * |data|, i requires 0 <= i < 8 * |data| => ByteBit(data[i / 8], i % 8))
  }

  // ---- the generator ----

  lemma PolyQuarters()
    ensures Quarter(POLY) == 0x0EDB_8832 && Quarter(0x0EDB_8832) == 0x00ED_B883
    ensures Quarter(0x00ED_B883) == 0x000E_DB88 && Quarter(0x000E_DB88) == 0x0000_EDB8
    ensures Quarter(0x0000_EDB8) == 0x0000_0EDB && Quarter(0x0000_0EDB) == 0x0000_00ED
    ensures Quarter(0x0000_00ED) == 0x0000_000E
  {}

  /** The reflected constant of the code holds the coefficients of the generator below x^32. */
  lemma PolyIsGenerator(k: nat)
    requires k < 32
    ensures Bit(POLY, 31 - k) <==> k in GENERATOR
  {
    hide Bit, Quarter;
    PolyQuarters();
    var j := 31 - k;
    if j >= 4 { BitBeyond(POLY, j - 4); }
    if j >= 8 { BitBeyond(0x0EDB_8832, j - 8); }
    if j >= 12 { BitBeyond(0x00ED_B883, j - 12); }
    if j >= 16 { BitBeyond(0x000E_DB88, j - 16); }
    if j >= 20 { BitBeyond(0x0000_EDB8, j - 20); }
    if j >= 24 { BitBeyond(0x0000_0EDB, j - 24); }
    if j >= 28 { BitBeyond(0x0000_00ED, j - 28); }
    Nibble(POLY);
    Nibble(0x0EDB_8832);
    Nibble(0x00ED_B883);
    Nibble(0x000E_DB88);
    Nibble(0x0000_EDB8);
    Nibble(0x0000_0EDB);
    Nibble(0x0000_00ED);
    Nibble(0x0000_000E);
  }

  // ---- one step ----

  /** The bits of the next state. */
  lemma StepBits(c: bv32, j: nat)
    ensures Bit(BitStep(c), j) == (Bit(c, j + 1) != (Bit(c, 0) && Bit(POLY, j)))
  {
    hide Xor, Half, Odd, BitStep;
    StepIs(c);
    if Odd(c) { BitXor(Half(c), POLY, j); }
  }

  lemma StepIs(c: bv32)
    ensures BitStep(c) == if Odd(c) then Xor(Half(c), POLY) else Half(c)
  {
    LowBit(c);
  }

  /** One message bit entering the division: times x, plus the bit, minus the generator if x^32 appears. */
  lemma StepPoly(c: bv32, b: bool)
    ensures var c1 := Xor(c, BitWord(b));
            Add(Raise(StatePoly(c)), if b then {32} else {}) ==
            Add(if Bit(c1, 0) then GENERATOR else {}, StatePoly(BitStep(c1)))
  {
    hide Bit, BitStep, Xor, BitWord;
    var c1 := Xor(c, BitWord(b));
    var left := Add(Raise(StatePoly(c)), if b then {32} else {});
    var right := Add(if Bit(c1, 0) then GENERATOR else {}, StatePoly(BitStep(c1)));
    forall k: nat ensures k in left <==> k in right {
      if k <= 32 { StepPolyAt(c, b, k); }
    }
  }

  lemma StepPolyAt(c: bv32, b: bool, k: nat)
    requires k <= 32
    ensures var c1 := Xor(c, BitWord(b));
            ((k >= 1 && Bit(c, 32 - k)) != (b && k == 32)) ==
            ((Bit(c1, 0) && k in GENERATOR) != (k < 32 && Bit(BitStep(c1), 31 - k)))
  {
    hide Bit, BitStep, Xor, BitWord;
    var c1 := Xor(c, BitWord(b));
    BitXor(c, BitWord(b), 0);
    BitOfBitWord(b, 0);
    if k < 32 {
      StepBits(c1, 31 - k);
      PolyIsGenerator(k);
      BitXor(c, BitWord(b), 32 - k);
      BitOfBitWord(b, 32 - k);
      NoBit32(c1);
    }
  }

  // ---- whole messages ----

  /** The division fed bit by bit. */
  function Feed(c: bv32, bits: seq<bool>): bv32 {
    if bits == [] then c
    else
      var n := |bits| - 1;
      BitStep(Xor(Feed(c, bits[..n]), BitWord(bits[n])))
  }

  /** The quotient that the division produces on the way. */
  function Quotient(c: bv32, bits: seq<bool>): (q: seq<bool>)
    ensures |q| == |bits|
  {
    if bits == [] then []
    else
      var n := |bits| - 1;
      Quotient(c, bits[..n]) + [Bit(Xor(Feed(c, bits[..n]), BitWord(bits[n])), 0)]
  }

  lemma AddSwap(a: Poly, b: Poly, c: Poly, d: Poly)
    ensures Add(Add(a, b), Add(c, d)) == Add(Add(a, c), Add(b, d))
  {}

  lemma RaiseAdd(a: Poly, b: Poly)
    ensures Raise(Add(a, b)) == Add(Raise(a), Raise(b))
  {}

  /** One more bit on both sides of the division. */
  lemma DivisionStep(m: Poly, s: Poly, q: Poly, p: Poly, e: Poly, t: Poly, p': Poly)
    requires Add(m, s) == Add(q, p) && Add(Raise(p), e) == Add(t, p')
    ensures Add(Add(Raise(m), e), Raise(s)) == Add(Add(Raise(q), t), p')
  {
    hide Add, Raise;
    RaiseAdd(m, s);
    RaiseAdd(q, p);
    AddRight(Raise(m), e, Raise(s));
    Regroup(Raise(q), Raise(p), e, t, p');
  }

  lemma AddRight(a: Poly, e: Poly, b: Poly)
    ensures Add(Add(a, e), b) == Add(Add(a, b), e)
  {}

  lemma Regroup(a: Poly, b: Poly, e: Poly, t: Poly, s: Poly)
    requires Add(b, e) == Add(t, s)
    ensures Add(Add(a, b), e) == Add(Add(a, t), s)
  {
    assert Add(Add(a, b), e) == Add(a, Add(b, e));
    assert Add(Add(a, t), s) == Add(a, Add(t, s));
  }

  /** Message times x^32, plus the starting state, is quotient times generator plus the final state. */
  lemma {:induction false} FeedDivides(c: bv32, bits: seq<bool>)
    ensures Add(Times(bits, {32}), RaiseBy(StatePoly(c), |bits|)) ==
            Add(Times(Quotient(c, bits), GENERATOR), StatePoly(Feed(c, bits)))
  {
    hide StatePoly, BitStep, Xor, BitWord, Bit, Raise, Add, GENERATOR;
    if bits == [] {
      assert Times(bits, {32}) == {} && Times(Quotient(c, bits), GENERATOR) == {};
    } else {
      var n := |bits| - 1;
      var front, c0 := bits[..n], Feed(c, bits[..n]);
      FeedDivides(c, front);
      assert Quotient(c, bits)[..n] == Quotient(c, front);
      StepPoly(c0, bits[n]);
      DivisionStep(Times(front, {32}), RaiseBy(StatePoly(c), n), Times(Quotient(c, front), GENERATOR), StatePoly(c0),
                   if bits[n] then {32} else {}, if Bit(Xor(c0, BitWord(bits[n])), 0) then GENERATOR else {},
                   StatePoly(Feed(c, bits)));
    }
  }

  lemma {:induction false} FeedConcat(c: bv32, a: seq<bool>, b: seq<bool>)
    ensures Feed(c, a + b) == Feed(Feed(c, a), b)
  {
    hide BitStep, Xor, BitWord;
    if b == [] {
      assert a + b == a;
    } else {
      var n := |b| - 1;
      FeedConcat(c, a, b[..n]);
      assert (a + b)[..|a + b| - 1] == a + b[..n];
    }
  }

  /** The lowest `n` bits of a word, lowest first. */
  function LowBits(w: bv32, n: nat): (s: seq<bool>)
    ensures |s| == n && forall i | 0 <= i < n :: s[i] == Bit(w, i)
  {
    seq(n, i requires 0 <= i < n => Bit(w, i))
  }

  lemma FeedBitsStep(c: bv32, w: bv32, n: nat)
    requires n > 0
    ensures FeedBits(c, w, n) == FeedBits(BitStep(Xor(c, BitWord(Odd(w)))), Half(w), n - 1)
  {
    hide BitStep, Xor, BitWord;
    OddWord(w);
  }

  lemma LowBitsStep(w: bv32, n: nat)
    requires n > 0
    ensures LowBits(w, n) == [Odd(w)] + LowBits(Half(w), n - 1)
  {
    hide Half, Odd;
  }

  lemma FeedOne(c: bv32, b: bool)
    ensures Feed(c, [b]) == BitStep(Xor(c, BitWord(b)))
  {
    hide BitStep, Xor, BitWord;
    assert [b][..0] == [];
  }

  lemma {:induction false} FeedBitsIs(c: bv32, w: bv32, n: nat)
    ensures FeedBits(c, w, n) == Feed(c, LowBits(w, n))
    decreases n
  {
    hide BitStep, Xor, Half, Odd, BitWord, LowBits, FeedBits, Feed;
    if n == 0 {
      FeedBitsNone(c, w);
    } else {
      var c1 := BitStep(Xor(c, BitWord(Odd(w))));
      FeedBitsStep(c, w, n);
      FeedBitsIs(c1, Half(w), n - 1);
      LowBitsStep(w, n);
      FeedConcat(c, [Odd(w)], LowBits(Half(w), n - 1));
      FeedOne(c, Odd(w));
    }
  }

  lemma FeedBitsNone(c: bv32, w: bv32)
    ensures FeedBits(c, w, 0) == c && Feed(c, LowBits(w, 0)) == c
  {}

  lemma {:induction false} DivideIsFeed(c: bv32, data: Bytes)
    ensures Divide(c, data) == Feed(c, Bits(data))
  {
    hide FeedBits, Feed, Bit, LowBits, Bits;
    if data == [] {
      FeedNothing(c);
    } else {
      var n := |data| - 1;
      DivideIsFeed(c, data[..n]);
      WideIs(data[n]);
      FeedBitsIs(Divide(c, data[..n]), Wide(data[n]), 8);
      FeedConcat(c, Bits(data[..n]), LowBits(Wide(data[n]), 8));
      BitsSnoc(data, n);
    }
  }

  lemma FeedNothing(c: bv32)
    ensures Bits([]) == [] && Feed(c, Bits([])) == c
  {}

  lemma WideIs(b: Byte)
    ensures Wide(b) == b as bv32
  {}

  lemma BitsSnoc(data: Bytes, n: nat)
    requires |data| == n + 1
    ensures Bits(data) == Bits(data[..n]) + LowBits(Wide(data[n]), 8)
  {
    hide Bit, Wide;
    var a, b := Bits(data), Bits(data[..n]) + LowBits(Wide(data[n]), 8);
    forall i | 0 <= i < |a| ensures a[i] == b[i] {
      if i < 8 * n {
        assert i / 8 < n;
      } else {
        assert i / 8 == n && i % 8 == i - 8 * n;
      }
    }
  }

  /** The remainder relation, in the terms of algebra alone. */
  ghost predicate Remainder(start: Poly, bits: seq<bool>, rest: Poly) {
    exists q: seq<bool> :: |q| == |bits| &&
      Add(Times(bits, {32}), RaiseBy(start, |bits|)) == Add(Times(q, GENERATOR), rest)
  }

  /** The state after a message is the remainder of polynomial division by the generator. */
  lemma DivideIsRemainder(c: bv32, data: Bytes)
    ensures Remainder(StatePoly(c), Bits(data), StatePoly(Divide(c, data)))
  {
    hide StatePoly, Times, RaiseBy, Bits, Divide, Feed;
    FeedDivides(c, Bits(data));
    DivideIsFeed(c, data);
    assert |Quotient(c, Bits(data))| == |Bits(data)|;
  }

  // ---- there is one remainder ----

  function Both(q: seq<bool>, q': seq<bool>): (s: seq<bool>)
    requires |q| == |q'|
    ensures |s| == |q| && forall i | 0 <= i < |q| :: s[i] == (q[i] != q'[i])
  {
    seq(|q|, i requires 0 <= i < |q| => q[i] != q'[i])
  }

  lemma {:induction false} TimesLinear(q: seq<bool>, q': seq<bool>, g: Poly)
    requires |q| == |q'|
    ensures Times(Both(q, q'), g) == Add(Times(q, g), Times(q', g))
  {
    if q != [] {
      var n := |q| - 1;
      TimesLinear(q[..n], q'[..n], g);
      assert Both(q, q')[..n] == Both(q[..n], q'[..n]);
      var a, b := Times(q[..n], g), Times(q'[..n], g);
      var e: Poly, e': Poly := if q[n] then g else {}, if q'[n] then g else {};
      RaiseAdd(a, b);
      AddSwap(Raise(a), e, Raise(b), e');
      assert Add(e, e') == if q[n] != q'[n] then g else {};
    }
  }

  /** A multiple of a polynomial of degree 32 is zero or has degree 32 at least. */
  lemma {:induction false} TimesHigh(q: seq<bool>, g: Poly)
    requires 32 in g && forall k | k in g :: k <= 32
    ensures Times(q, g) == {} || exists m :: m in Times(q, g) && m >= 32
  {
    if q != [] {
      var n := |q| - 1;
      TimesHigh(q[..n], g);
      var a := Times(q[..n], g);
      if m :| m in a && m >= 32 {
        assert m + 1 in Raise(a) && m + 1 !in g;
        assert m + 1 in Times(q, g);
      } else {
        assert Raise(a) == {};
        assert q[n] ==> 32 in Times(q, g);
      }
    }
  }

  lemma GeneratorDegree()
    ensures 32 in GENERATOR && forall k | k in GENERATOR :: k <= 32
  {}

  lemma RemainderUnique(start: Poly, bits: seq<bool>, r: Poly, r': Poly)
    requires Remainder(start, bits, r) && Remainder(start, bits, r')
    requires (forall k | k in r :: k < 32) && (forall k | k in r' :: k < 32)
    ensures r == r'
  {
    hide Times, RaiseBy, GENERATOR;
    var whole := Add(Times(bits, {32}), RaiseBy(start, |bits|));
    var q :| |q| == |bits| && whole == Add(Times(q, GENERATOR), r);
    var q' :| |q'| == |bits| && whole == Add(Times(q', GENERATOR), r');
    TimesLinear(q, q', GENERATOR);
    GeneratorDegree();
    TimesHigh(Both(q, q'), GENERATOR);
    var p := Times(Both(q, q'), GENERATOR);
    assert p == Add(r, r');
    assert forall m | m in p :: m < 32;
    assert p == {};
    assert forall k :: k in r <==> k in r';
  }

  // ---- the checksum of a block ----

  /** The coefficients of a state of all ones. */
  const ONES: Poly := set k: nat | k < 32

  /** The complement of the trailing four bytes, read as a state. */
  function Trailer(buf: Bytes): (p: Poly)
    requires |buf| >= 4
    ensures forall k: nat :: k in p <==> TrailerBit(buf, k)
  {
    set k: nat | k < 32 && TrailerBit(buf, k)
  }

  predicate TrailerBit(buf: Bytes, k: nat)
    requires |buf| >= 4
  {
    k < 32 && !ByteBit(buf[|buf| - 4 + (31 - k) / 8], (31 - k) % 8)
  }

  lemma StateOnes()
    ensures StatePoly(0xFFFF_FFFF) == ONES
  {
    hide Bit;
    forall k: nat | k < 32 ensures Coefficient(0xFFFF_FFFF, k) { OnesBits(31 - k); }
  }

  lemma StateInjective(x: bv32, y: bv32)
    requires StatePoly(x) == StatePoly(y)
    ensures x == y
  {
    hide Bit, Remaining;
    forall j: nat | j < 32 ensures Bit(x, j) == Bit(y, j) {
      assert Coefficient(x, 31 - j) <==> 31 - j in StatePoly(x);
      assert Coefficient(y, 31 - j) <==> 31 - j in StatePoly(y);
    }
    NothingRemains(x);
    NothingRemains(y);
    SameBits(x, y, 32);
  }

  lemma StateTrailer(buf: Bytes)
    requires |buf| >= 4
    ensures StatePoly(Xor(StoredCrc(buf), 0xFFFF_FFFF)) == Trailer(buf)
  {
    hide Bit, Word, Xor;
    var w, s := StoredCrc(buf), buf[|buf| - 4..];
    forall k: nat ensures Coefficient(Xor(w, 0xFFFF_FFFF), k) <==> TrailerBit(buf, k) {
      if k < 32 {
        BitXor(w, 0xFFFF_FFFF, 31 - k);
        OnesBits(31 - k);
        WordBits(s, 31 - k);
      }
    }
  }

  lemma Twice(x: bv32)
    ensures Xor(Xor(x, 0xFFFF_FFFF), 0xFFFF_FFFF) == x
  {}

  lemma XorBack(x: bv32, y: bv32)
    ensures Xor(x, 0xFFFF_FFFF) == y <==> x == Xor(y, 0xFFFF_FFFF)
  {
    hide Xor;
    Twice(x);
    Twice(y);
  }

  /**
   * A block passes its check if and only if the complement of its trailing four bytes, lowest byte and lowest bit
   * first, is the remainder of the block, with those bytes read as zero, by the generator from a state of all ones.
   */
  lemma CrcOkIff(buf: Bytes)
    requires |buf| >= 4
    ensures CrcOk(buf) <==> Remainder(ONES, Bits(buf[..|buf| - 4] + [0, 0, 0, 0]), Trailer(buf))
  {
    hide Divide, Xor, StatePoly, Trailer, Bits, StoredCrc, ONES, Remainder;
    var off := |buf| - 4;
    var data: Bytes := buf[..off] + [0, 0, 0, 0];
    var c, w := Divide(0xFFFF_FFFF, data), StoredCrc(buf);
    assert buf[..off] + ZEROS + buf[off + 4..] == data;
    XorBack(c, w);
    DivideIsRemainder(0xFFFF_FFFF, data);
    StateOnes();
    StateTrailer(buf);
    if Remainder(ONES, Bits(data), Trailer(buf)) {
      StateBelow(c);
      StateBelow(Xor(w, 0xFFFF_FFFF));
      RemainderUnique(ONES, Bits(data), StatePoly(c), Trailer(buf));
      StateInjective(c, Xor(w, 0xFFFF_FFFF));
    }
  }

  /** The checksum with the four bytes at any offset read as zero: the complement of the remainder. */
  lemma BlockCrcIsRemainder(buf: Bytes, off: nat)
    requires off + 4 <= |buf|
    ensures Remainder(ONES, Bits(buf[..off] + [0, 0, 0, 0] + buf[off + 4..]),
                      StatePoly(Xor(BlockCrc(buf, off), 0xFFFF_FFFF)))
  {
    hide Divide, Xor, StatePoly, Bits, ONES, Remainder;
    var data: Bytes := buf[..off] + [0, 0, 0, 0] + buf[off + 4..];
    assert buf[..off] + ZEROS + buf[off + 4..] == data;
    DivideIsRemainder(0xFFFF_FFFF, data);
    StateOnes();
    Twice(Divide(0xFFFF_FFFF, data));
  }

  lemma StateBelow(c: bv32)
    ensures forall k | k in StatePoly(c) :: k < 32
  {}

  /** A message followed by its complemented state, lowest byte first, always ends in the same state. */
  lemma Residue(c: bv32, data: Bytes)
    ensures Divide(c, data + CrcBytes(Xor(Divide(c, data), 0xFFFF_FFFF))) == 0xDEBB_20E3
  {
    hide Divide, Xor, CrcBytes, BitSteps, Word;
    var s := Divide(c, data);
    var t := CrcBytes(Xor(s, 0xFFFF_FFFF));
    DivideConcat(c, data, t);
    FourBytesWord(s, t);
    CrcBytesWord(Xor(s, 0xFFFF_FFFF));
    Cancels(s);
    OnesDivided();
  }

  lemma Cancels(s: bv32)
    ensures Xor(Xor(s, 0xFFFF_FFFF), s) == 0xFFFF_FFFF
  {}

  lemma OnesDivided()
    ensures BitSteps(0xFFFF_FFFF, 32) == 0xDEBB_20E3
  {
    hide BitSteps;
    FourSteps(0xFFFF_FFFF, 0xB242_0DE3, 28);
    FourSteps(0xB242_0DE3, 0x2DFD_1072, 24);
    FourSteps(0x2DFD_1072, 0x39B1_F1CF, 20);
    FourSteps(0x39B1_F1CF, 0xBE26_ED00, 16);
    FourSteps(0xBE26_ED00, 0x0BE2_6ED0, 12);
    FourSteps(0x0BE2_6ED0, 0x00BE_26ED, 8);
    FourSteps(0x00BE_26ED, 0x86D8_30BA, 4);
    FourSteps(0x86D8_30BA, 0xDEBB_20E3, 0);
    NoSteps(0xDEBB_20E3);
  }

  lemma NoSteps(x: bv32)
    ensures BitSteps(x, 0) == x
  {}

  lemma FourSteps(x: bv32, y: bv32, n: nat)
    requires BitStep(BitStep(BitStep(BitStep(x)))) == y
    ensures BitSteps(x, n + 4) == BitSteps(y, n)
  {
    hide BitStep;
    assert BitSteps(x, n + 4) == BitSteps(BitStep(x), n + 3);
    assert BitSteps(BitStep(x), n + 3) == BitSteps(BitStep(BitStep(x)), n + 2);
    assert BitSteps(BitStep(BitStep(x)), n + 2) == BitSteps(BitStep(BitStep(BitStep(x))), n + 1);
  }
}
