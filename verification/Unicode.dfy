/** UTF-8 as the Unicode standard defines it, and the lossy string of a key in those terms. */
module Unicode {
  import opened Format
  import opened Utf8

  /** A Unicode scalar value: a code point that is no surrogate. */
  predicate Scalar(c: bv32) { c <= 0x10_FFFF && !(0xD800 <= c <= 0xDFFF) }

  function Low8(x: bv32): Byte
    requires x <= 0xFF
  {
    x as bv8
  }

  /** The six bits of the code point from bit `n` on, as a continuation byte. */
  function Tail(c: bv32): Byte { Low8(0x80 | (c & 0x3F)) }

  /** The UTF-8 encoding of a scalar value, by the bit distribution of the standard. */
  function Encoding(c: bv32): (s: Bytes)
    requires Scalar(c)
    ensures 1 <= |s| <= 4
  {
    if c < 0x80 then [Low8(c)]
    else if c < 0x800 then [Low8(0xC0 | (c >> 6)), Tail(c)]
    else if c < 0x1_0000 then [Low8(0xE0 | (c >> 12)), Tail(c >> 6), Tail(c)]
    else [Low8(0xF0 | (c >> 18)), Tail(c >> 12), Tail(c >> 6), Tail(c)]
  }

  function W(b: Byte): bv32 { b as bv32 }

  // ---- every encoding is accepted ----

  lemma Encoded1(c: bv32)
    requires c < 0x80
    ensures Low8(c) < 0x80
  {}

  lemma Encoded2(c: bv32)
    requires 0x80 <= c < 0x800
    ensures 0xC2 <= Low8(0xC0 | (c >> 6)) <= 0xDF && Continuation(Tail(c))
  {}

  lemma Encoded3(c: bv32)
    requires 0x800 <= c < 0x1_0000 && Scalar(c)
    ensures var a := Low8(0xE0 | (c >> 12));
            0xE0 <= a <= 0xEF && Second3(a, Tail(c >> 6)) && Continuation(Tail(c))
  {}

  lemma Encoded4(c: bv32)
    requires 0x1_0000 <= c && Scalar(c)
    ensures var a := Low8(0xF0 | (c >> 18));
            0xF0 <= a <= 0xF4 && Second4(a, Tail(c >> 12)) && Continuation(Tail(c >> 6)) && Continuation(Tail(c))
  {}

  // ---- everything accepted is an encoding ----

  function Point2(a: Byte, b: Byte): bv32 { ((W(a) & 0x1F) << 6) | (W(b) & 0x3F) }

  function Point3(a: Byte, b: Byte, d: Byte): bv32 {
    ((W(a) & 0x0F) << 12) | ((W(b) & 0x3F) << 6) | (W(d) & 0x3F)
  }

  function Point4(a: Byte, b: Byte, d: Byte, e: Byte): bv32 {
    ((W(a) & 0x07) << 18) | ((W(b) & 0x3F) << 12) | ((W(d) & 0x3F) << 6) | (W(e) & 0x3F)
  }

  lemma Decoded1(a: Byte)
    requires a < 0x80
    ensures W(a) < 0x80 && Low8(W(a)) == a && Scalar(W(a))
  {}

  lemma Decoded2(a: Byte, b: Byte)
    requires 0xC2 <= a <= 0xDF && Continuation(b)
    ensures var c := Point2(a, b);
            0x80 <= c < 0x800 && Scalar(c) && Low8(0xC0 | (c >> 6)) == a && Tail(c) == b
  {}

  lemma Decoded3(a: Byte, b: Byte, d: Byte)
    requires 0xE0 <= a <= 0xEF && Second3(a, b) && Continuation(d)
    ensures var c := Point3(a, b, d);
            0x800 <= c < 0x1_0000 && Scalar(c) && Low8(0xE0 | (c >> 12)) == a && Tail(c >> 6) == b && Tail(c) == d
  {}

  lemma Decoded4(a: Byte, b: Byte, d: Byte, e: Byte)
    requires 0xF0 <= a <= 0xF4 && Second4(a, b) && Continuation(d) && Continuation(e)
    ensures var c := Point4(a, b, d, e);
            0x1_0000 <= c && Scalar(c) && Low8(0xF0 | (c >> 18)) == a
            && Tail(c >> 12) == b && Tail(c >> 6) == d && Tail(c) == e
  {}

  lemma Whole1(a: Byte)
    requires a < 0x80
    ensures Scalar(W(a)) && Encoding(W(a)) == [a]
  {
    hide Low8, Tail, W, Scalar;
    Decoded1(a);
  }

  lemma Whole2(a: Byte, b: Byte)
    requires 0xC2 <= a <= 0xDF && Continuation(b)
    ensures Scalar(Point2(a, b)) && Encoding(Point2(a, b)) == [a, b]
  {
    hide Low8, Tail, Point2, Continuation, Scalar;
    Decoded2(a, b);
  }

  lemma Whole3(a: Byte, b: Byte, d: Byte)
    requires 0xE0 <= a <= 0xEF && Second3(a, b) && Continuation(d)
    ensures Scalar(Point3(a, b, d)) && Encoding(Point3(a, b, d)) == [a, b, d]
  {
    hide Low8, Tail, Point3, Continuation, Second3, Scalar;
    Decoded3(a, b, d);
  }

  lemma Whole4(a: Byte, b: Byte, d: Byte, e: Byte)
    requires 0xF0 <= a <= 0xF4 && Second4(a, b) && Continuation(d) && Continuation(e)
    ensures Scalar(Point4(a, b, d, e)) && Encoding(Point4(a, b, d, e)) == [a, b, d, e]
  {
    hide Low8, Tail, Point4, Continuation, Second4, Scalar;
    Decoded4(a, b, d, e);
  }

  /** The encoding, byte by byte, in the terms of the byte tests. */
  lemma Shape(c: bv32)
    requires Scalar(c)
    ensures var s := Encoding(c);
            match |s|
            case 1 => s[0] < 0x80
            case 2 => 0xC2 <= s[0] <= 0xDF && Continuation(s[1])
            case 3 => 0xE0 <= s[0] <= 0xEF && Second3(s[0], s[1]) && Continuation(s[2])
            case _ => 0xF0 <= s[0] <= 0xF4 && Second4(s[0], s[1]) && Continuation(s[2]) && Continuation(s[3])
  {
    hide Low8, Tail, Continuation, Second3, Second4;
    if c < 0x80 {
      Encoded1(c);
    } else if c < 0x800 {
      Encoded2(c);
    } else if c < 0x1_0000 {
      Encoded3(c);
    } else {
      Encoded4(c);
    }
  }

  /** Bytes of that shape are an encoding. */
  lemma Unshape(s: Bytes) returns (c: bv32)
    requires 1 <= |s| <= 4
    requires match |s|
             case 1 => s[0] < 0x80
             case 2 => 0xC2 <= s[0] <= 0xDF && Continuation(s[1])
             case 3 => 0xE0 <= s[0] <= 0xEF && Second3(s[0], s[1]) && Continuation(s[2])
             case _ => 0xF0 <= s[0] <= 0xF4 && Second4(s[0], s[1]) && Continuation(s[2]) && Continuation(s[3])
    ensures Scalar(c) && Encoding(c) == s
  {
    hide Encoding, Scalar, Continuation, Second3, Second4, W, Point2, Point3, Point4;
    if |s| == 1 {
      c := W(s[0]);
      Whole1(s[0]);
    } else if |s| == 2 {
      c := Point2(s[0], s[1]);
      Whole2(s[0], s[1]);
    } else if |s| == 3 {
      c := Point3(s[0], s[1], s[2]);
      Whole3(s[0], s[1], s[2]);
    } else {
      c := Point4(s[0], s[1], s[2], s[3]);
      Whole4(s[0], s[1], s[2], s[3]);
    }
  }

  // ---- well-formed strings ----

  /** The scalar value `c` stands at the front of `b`. */
  predicate Starts(b: Bytes, c: bv32) { Scalar(c) && Encoding(c) <= b }

  /** The front of a string is accepted exactly when it is the encoding of a scalar value, with its length. */
  lemma WidthIff(b: Bytes)
    requires b != []
    ensures Width(b) > 0 <==> exists c :: Starts(b, c)
    ensures forall c | Starts(b, c) :: Width(b) == |Encoding(c)|
  {
    hide Encoding, Scalar, Continuation, Second3, Second4;
    if Width(b) > 0 {
      var c := Unshape(b[..Width(b)]);
      assert Starts(b, c);
    }
    forall c | Starts(b, c) ensures Width(b) == |Encoding(c)| {
      Shape(c);
      assert forall i: nat | i < |Encoding(c)| :: At(b, i) == Encoding(c)[i];
    }
  }

  predicate AllScalar(cs: seq<bv32>) { forall i | 0 <= i < |cs| :: Scalar(cs[i]) }

  /** The encoding of a string of scalar values. */
  function EncodeAll(cs: seq<bv32>): Bytes
    requires AllScalar(cs)
  {
    if cs == [] then [] else Encoding(cs[0]) + EncodeAll(cs[1..])
  }

  /** A key is well-formed if and only if it is a concatenation of encodings of scalar values. */
  lemma WellFormedIff(b: Bytes)
    ensures WellFormed(b) <==> exists cs :: AllScalar(cs) && EncodeAll(cs) == b
  {
    hide Scalar, WellFormed;
    if WellFormed(b) {
      var cs := Decode(b);
      assert AllScalar(cs) && EncodeAll(cs) == b;
    }
    if cs :| AllScalar(cs) && EncodeAll(cs) == b { EncodedWellFormed(cs); }
  }

  lemma {:induction false} Decode(b: Bytes) returns (cs: seq<bv32>)
    requires WellFormed(b)
    ensures AllScalar(cs) && EncodeAll(cs) == b
    decreases |b|
  {
    hide Scalar, Width, Encoding;
    if b == [] {
      cs := [];
    } else {
      WidthIff(b);
      var c :| Starts(b, c);
      var rest := Decode(b[Width(b)..]);
      cs := [c] + rest;
      assert b == Encoding(c) + b[|Encoding(c)|..];
      assert cs[1..] == rest;
    }
  }

  lemma {:induction false} EncodedWellFormed(cs: seq<bv32>)
    requires AllScalar(cs)
    ensures WellFormed(EncodeAll(cs))
  {
    hide Scalar, Width, Encoding;
    if cs != [] {
      var b, rest := EncodeAll(cs), EncodeAll(cs[1..]);
      EncodedWellFormed(cs[1..]);
      assert Starts(b, cs[0]);
      WidthIff(b);
      assert b[|Encoding(cs[0])|..] == rest;
    }
  }

  // ---- ill-formed pieces ----

  /** `s` is the encoding of some scalar value, cut short. */
  ghost predicate Truncated(s: Bytes) { exists c :: Cuts(s, c) }

  predicate Cuts(s: Bytes, c: bv32) { Scalar(c) && |s| < |Encoding(c)| && s <= Encoding(c) }

  /** The `n` bytes in front of `b` are replaced together: the longest truncated encoding there, or one byte. */
  ghost predicate MaximalPiece(b: Bytes, n: nat) {
    && 1 <= n <= |b|
    && (n == 1 || Truncated(b[..n]))
    && (forall m | n < m <= |b| :: !Truncated(b[..m]))
  }

  lemma BadWidthIs(b: Bytes)
    requires b != [] && Width(b) == 0
    ensures MaximalPiece(b, BadWidth(b))
  {
    hide Encoding, Scalar, Continuation;
    var n := BadWidth(b);
    if n > 1 { PieceTruncated(b); }
    forall m | n < m <= |b| ensures !Truncated(b[..m]) {
      if c :| Cuts(b[..m], c) { NoLongerPiece(b, m, c); }
    }
  }

  lemma PieceTruncated(b: Bytes)
    requires b != [] && Width(b) == 0 && BadWidth(b) > 1
    ensures Truncated(b[..BadWidth(b)])
  {
    hide Encoding, Scalar;
    var n, z: Byte := BadWidth(b), 0x80;
    var s := if 0xE0 <= b[0] <= 0xEF then b[..2] + [z] else if n == 2 then b[..2] + [z, z] else b[..3] + [z];
    var c := Unshape(s);
    assert Cuts(b[..n], c);
  }

  lemma NoLongerPiece(b: Bytes, m: nat, c: bv32)
    requires b != [] && Width(b) == 0 && m <= |b| && Cuts(b[..m], c)
    ensures m <= BadWidth(b)
  {
    hide Encoding, Scalar, Continuation, Second3, Second4;
    Shape(c);
    assert forall i: nat | i < m :: At(b, i) == Encoding(c)[i];
  }

  lemma MaximalUnique(b: Bytes, m: nat, n: nat)
    requires MaximalPiece(b, m) && MaximalPiece(b, n)
    ensures m == n
  {}

  /**
   * The lossy string of a key, in terms of encodings alone: a scalar value in front is kept, and otherwise the
   * maximal ill-formed piece there becomes U+FFFD.
   */
  lemma LossyIs(b: Bytes, c: bv32, n: nat)
    requires b != []
    requires !Starts(b, c) ==> (forall c' :: !Starts(b, c')) && MaximalPiece(b, n)
    ensures Lossy(b) == if Starts(b, c) then Encoding(c) + Lossy(b[|Encoding(c)|..])
                        else Encoding(0xFFFD) + Lossy(b[n..])
  {
    hide Encoding, Scalar, Width, BadWidth, MaximalPiece;
    WidthIff(b);
    ReplacementIs();
    if !Starts(b, c) {
      BadWidthIs(b);
      MaximalUnique(b, n, BadWidth(b));
    }
  }

  lemma ReplacementIs()
    ensures Scalar(0xFFFD) && Encoding(0xFFFD) == REPLACEMENT == [0xEF, 0xBF, 0xBD]
  {}
}
