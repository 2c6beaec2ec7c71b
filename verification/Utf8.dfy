/** The string by which the index knows a key: UTF-8 with every ill-formed piece replaced by U+FFFD. */
module Utf8 {
  import opened Format

  /** Byte `i`, or 0 past the end. */
  function At(b: Bytes, i: nat): Byte { if i < |b| then b[i] else 0 }

  predicate Continuation(b: Byte) { 0x80 <= b <= 0xBF }

  /** The second byte of a three-byte sequence that starts with `a`. */
  predicate Second3(a: Byte, b: Byte) {
    Continuation(b) && (a == 0xE0 ==> b >= 0xA0) && (a == 0xED ==> b <= 0x9F)
  }

  /** The second byte of a four-byte sequence that starts with `a`. */
  predicate Second4(a: Byte, b: Byte) {
    Continuation(b) && (a == 0xF0 ==> b >= 0x90) && (a == 0xF4 ==> b <= 0x8F)
  }

  /** The length of the well-formed sequence at the front of `b`, or 0 if there is none. */
  function Width(b: Bytes): (n: nat)
    requires b != []
    ensures n <= |b|
  {
    var a := b[0];
    if a < 0x80 then 1
    else if 0xC2 <= a <= 0xDF then if Continuation(At(b, 1)) then 2 else 0
    else if 0xE0 <= a <= 0xEF then if Second3(a, At(b, 1)) && Continuation(At(b, 2)) then 3 else 0
    else if 0xF0 <= a <= 0xF4 then
      if Second4(a, At(b, 1)) && Continuation(At(b, 2)) && Continuation(At(b, 3)) then 4 else 0
    else 0
  }

  /** How many bytes of an ill-formed front are replaced together. */
  function BadWidth(b: Bytes): (n: nat)
    requires b != [] && Width(b) == 0
    ensures 1 <= n <= |b|
  {
    var a := b[0];
    if 0xE0 <= a <= 0xEF && Second3(a, At(b, 1)) then 2
    else if 0xF0 <= a <= 0xF4 && Second4(a, At(b, 1)) then if Continuation(At(b, 2)) then 3 else 2
    else 1
  }

  const REPLACEMENT: Bytes := [0xEF, 0xBF, 0xBD]

  /** `String::from_utf8_lossy`, as UTF-8 bytes. */
  function Lossy(b: Bytes): Bytes {
    if b == [] then []
    else if Width(b) > 0 then b[..Width(b)] + Lossy(b[Width(b)..])
    else REPLACEMENT + Lossy(b[BadWidth(b)..])
  }

  predicate WellFormed(b: Bytes) {
    b == [] || (Width(b) > 0 && WellFormed(b[Width(b)..]))
  }

  lemma WidthOfPrefix(b: Bytes, t: Bytes)
    requires b != [] && Width(b) == |b|
    ensures Width(b + t) == |b|
  {
    assert forall i: nat | i < |b| :: At(b + t, i) == At(b, i);
  }

  lemma WidthOfTaken(b: Bytes)
    requires b != [] && Width(b) > 0
    ensures Width(b[..Width(b)]) == Width(b)
  {
    assert forall i: nat | i < Width(b) :: At(b[..Width(b)], i) == At(b, i);
  }

  lemma {:induction false} LossyWellFormed(b: Bytes)
    ensures WellFormed(Lossy(b))
  {
    hide Width, BadWidth;
    if b != [] {
      var w := Width(b);
      var front := if w > 0 then b[..w] else REPLACEMENT;
      var t := Lossy(if w > 0 then b[w..] else b[BadWidth(b)..]);
      if w > 0 {
        WidthOfTaken(b);
        LossyWellFormed(b[w..]);
      } else {
        ReplacementWidth();
        LossyWellFormed(b[BadWidth(b)..]);
      }
      WidthOfPrefix(front, t);
      assert (front + t)[|front|..] == t;
    }
  }

  lemma ReplacementWidth()
    ensures Width(REPLACEMENT) == 3
  {}

  lemma {:induction false} WellFormedFixed(b: Bytes)
    requires WellFormed(b)
    ensures Lossy(b) == b
  {
    hide Width;
    if b != [] { WellFormedFixed(b[Width(b)..]); }
  }

  /** The index keeps a key byte for byte exactly when the key is well-formed UTF-8. */
  lemma {:induction false} LossyIdentityIff(b: Bytes)
    ensures Lossy(b) == b <==> WellFormed(b)
  {
    LossyWellFormed(b);
    if WellFormed(b) { WellFormedFixed(b); }
  }

  function MakeKey(raw: Bytes): Key { Key(raw, Lossy(raw)) }

  /** Well-formed keys never share an index entry. */
  lemma WellFormedKeysDistinct(a: Bytes, b: Bytes)
    requires WellFormed(a) && WellFormed(b)
    ensures MakeKey(a).id == MakeKey(b).id <==> a == b
  {
    WellFormedFixed(a);
    WellFormedFixed(b);
  }

  /**
   * A key has an index entry that it shares with no other well-formed key exactly when it is well-formed itself:
   * every ill-formed key shares the entry of its own lossy form.
   */
  lemma OwnEntryIff(b: Bytes)
    ensures WellFormed(b) <==> forall a | WellFormed(a) && MakeKey(a).id == MakeKey(b).id :: a == b
  {
    hide Lossy, WellFormed;
    LossyIdentityIff(b);
    LossyWellFormed(b);
    WellFormedFixed(Lossy(b));
    if WellFormed(b) {
      forall a | WellFormed(a) && MakeKey(a).id == MakeKey(b).id ensures a == b { WellFormedKeysDistinct(a, b); }
    } else {
      assert MakeKey(Lossy(b)).id == MakeKey(b).id;
    }
  }

  /** Two ill-formed keys the store cannot tell apart. */
  lemma IllFormedKeysCollide()
    ensures MakeKey([0xFE]).id == MakeKey([0xFF]).id == REPLACEMENT
  {
    assert Lossy([]) == [];
    assert [0xFE as bv8][1..] == [] && [0xFF as bv8][1..] == [];
  }
}
