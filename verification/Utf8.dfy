/** googletest's UTF-8 encoder (utils/googletest/src/gtest.cc) and validator
    (utils/googletest/src/gtest-printers.cc), against each other. */
module Utf8 {

  type byte = bv8

  // ----- the encoder -----

  const MAX_CODE_POINT_1: bv32 := (1 << 7) - 1
  const MAX_CODE_POINT_2: bv32 := (1 << 11) - 1
  const MAX_CODE_POINT_3: bv32 := (1 << 16) - 1
  const MAX_CODE_POINT_4: bv32 := (1 << 21) - 1

  /** Unicode scalar values: the code points that UTF-8 is for (section 3 of RFC 3629). */
  predicate Scalar(cp: bv32) {
    cp <= 0x10FFFF && !(0xD800 <= cp <= 0xDFFF)
  }

  /** The trail byte for the six lowest bits. */
  function Trail(bits: bv32): byte {
    (0x80 | (bits & 0x3F)) as byte
  }

  /** The lead bytes of two, three and four. */
  function Lead2(cp: bv32): byte
    requires cp <= MAX_CODE_POINT_2
  {
    (0xC0 | (cp >> 6)) as byte
  }

  function Lead3(cp: bv32): byte
    requires cp <= MAX_CODE_POINT_3
  {
    (0xE0 | (cp >> 12)) as byte
  }

  function Lead4(cp: bv32): byte
    requires cp <= MAX_CODE_POINT_4
  {
    (0xF0 | (cp >> 18)) as byte
  }

  /** The table of section 3 of RFC 3629, and what it would be up to 21 bits. */
  function Encode(cp: bv32): seq<byte>
    requires cp <= MAX_CODE_POINT_4
  {
    if cp <= MAX_CODE_POINT_1 then [cp as byte]
    else if cp <= MAX_CODE_POINT_2 then [Lead2(cp), Trail(cp)]
    else if cp <= MAX_CODE_POINT_3 then [Lead3(cp), Trail(cp >> 6), Trail(cp)]
    else [Lead4(cp), Trail(cp >> 12), Trail(cp >> 6), Trail(cp)]
  }

  lemma SixBitsAreKept(bits: bv32)
    ensures ((bits >> 6) << 6) | (bits & 0x3F) == bits
  {
  }

  /** The lowest `n` bits, and what is left when they have been shifted out; for the six bits of a
      trail byte, together they are the original bits again. */
  method ChopLowBits(bits: bv32, n: bv6) returns (low: bv32, rest: bv32)
    requires n < 32
    ensures low == bits & ((1 << n) - 1) && rest == bits >> n
    ensures n == 6 ==> (rest << 6) | low == bits
  {
    low := bits & ((1 << n) - 1);
    rest := bits >> n;
    SixBitsAreKept(bits);
  }

  datatype Encoded = Bytes(bytes: seq<byte>) | InvalidUnicode(codePoint: bv32)

  /** The bytes of a C string end before its first zero. */
  function AsCString(s: seq<byte>): seq<byte> {
    if s == [] || s[0] == 0 then [] else [s[0]] + AsCString(s[1..])
  }

  lemma {:induction false} CStringEnds(s: seq<byte>, n: nat)
    requires n < |s| && s[n] == 0 && forall i :: 0 <= i < n ==> s[i] != 0
    ensures AsCString(s) == s[..n]
  {
    if n > 0 {
      CStringEnds(s[1..], n - 1);
      assert s[..n] == [s[0]] + s[1..][..n - 1];
    }
  }

  lemma Chopped(cp: bv32)
    ensures (cp >> 6) >> 6 == cp >> 12 && (cp >> 12) >> 6 == cp >> 18
  {
  }

  lemma NotZero(cp: bv32)
    ensures Trail(cp) != 0
    ensures cp <= MAX_CODE_POINT_2 ==> Lead2(cp) != 0
    ensures cp <= MAX_CODE_POINT_3 ==> Lead3(cp) != 0
    ensures cp <= MAX_CODE_POINT_4 ==> Lead4(cp) != 0
    ensures 0 < cp <= MAX_CODE_POINT_1 ==> cp as byte != 0
  {
  }

  lemma NoZeros(cp: bv32)
    requires 0 < cp <= MAX_CODE_POINT_4
    ensures forall i :: 0 <= i < |Encode(cp)| ==> Encode(cp)[i] != 0
  {
    NotZero(cp);
    NotZero(cp >> 6);
    NotZero(cp >> 12);
    hide Trail, Lead2, Lead3, Lead4;
  }

  method CodePointToUtf8(codePoint: bv32) returns (r: Encoded)
    ensures codePoint > MAX_CODE_POINT_4 ==> r == InvalidUnicode(codePoint)
    ensures 0 < codePoint <= MAX_CODE_POINT_4 ==> r == Bytes(Encode(codePoint))
    ensures codePoint == 0 ==> r == Bytes([])
  {
    if codePoint > MAX_CODE_POINT_4 {
      return InvalidUnicode(codePoint);
    }
    var str := new byte[5];
    WriteCodePoint(codePoint, str);
    ghost var bytes := Encode(codePoint);
    assert str[..][..|bytes|] == bytes;
    if codePoint == 0 {
      CStringEnds(str[..], 0);
    } else {
      NoZeros(codePoint);
      assert forall i :: 0 <= i < |bytes| ==> str[..][i] == bytes[i];
      CStringEnds(str[..], |bytes|);
    }
    r := Bytes(AsCString(str[..]));
  }

  lemma LeadsAre(cp: bv32)
    ensures cp <= MAX_CODE_POINT_2 ==> Lead2(cp) == (0xC0 | (cp >> 6)) as byte
    ensures cp <= MAX_CODE_POINT_3 ==> Lead3(cp) == (0xE0 | (cp >> 12)) as byte
    ensures cp <= MAX_CODE_POINT_4 ==> Lead4(cp) == (0xF0 | (cp >> 18)) as byte
  {
  }

  /** The terminator, then the bytes from the last to the first. */
  method WriteCodePoint(codePoint: bv32, str: array<byte>)
    requires codePoint <= MAX_CODE_POINT_4 && str.Length == 5
    modifies str
    ensures var n := |Encode(codePoint)|; n < 5 && str[n] == 0 && str[..n] == Encode(codePoint)
  {
    if codePoint <= MAX_CODE_POINT_1 {
      str[1] := 0;
      str[0] := codePoint as byte;
    } else if codePoint <= MAX_CODE_POINT_2 {
      WriteTwo(codePoint, str);
    } else if codePoint <= MAX_CODE_POINT_3 {
      WriteThree(codePoint, str);
    } else {
      WriteFour(codePoint, str);
    }
    hide Trail, Lead2, Lead3, Lead4;
  }

  method WriteTwo(codePoint: bv32, str: array<byte>)
    requires codePoint <= MAX_CODE_POINT_2 && str.Length == 5
    modifies str
    ensures str[2] == 0 && str[..2] == [Lead2(codePoint), Trail(codePoint)]
  {
    LeadsAre(codePoint);
    hide Trail, Lead2;
    var trail, bits := ChopTrail(codePoint);
    str[2] := 0;
    str[1] := trail;
    str[0] := (0xC0 | bits) as byte;
  }

  method WriteThree(codePoint: bv32, str: array<byte>)
    requires codePoint <= MAX_CODE_POINT_3 && str.Length == 5
    modifies str
    ensures str[3] == 0 && str[..3] == [Lead3(codePoint), Trail(codePoint >> 6), Trail(codePoint)]
  {
    LeadsAre(codePoint);
    Chopped(codePoint);
    hide Trail, Lead3;
    var trail, bits := ChopTrail(codePoint);
    str[3] := 0;
    str[2] := trail;
    trail, bits := ChopTrail(bits);
    str[1] := trail;
    str[0] := (0xE0 | bits) as byte;
  }

  method WriteFour(codePoint: bv32, str: array<byte>)
    requires codePoint <= MAX_CODE_POINT_4 && str.Length == 5
    modifies str
    ensures str[4] == 0
    ensures str[..4] == [Lead4(codePoint), Trail(codePoint >> 12), Trail(codePoint >> 6), Trail(codePoint)]
  {
    LeadsAre(codePoint);
    Chopped(codePoint);
    hide Trail, Lead4;
    var trail, bits := ChopTrail(codePoint);
    str[4] := 0;
    str[3] := trail;
    trail, bits := ChopTrail(bits);
    str[2] := trail;
    trail, bits := ChopTrail(bits);
    str[1] := trail;
    str[0] := (0xF0 | bits) as byte;
  }

  method ChopTrail(bits: bv32) returns (trail: byte, rest: bv32)
    ensures trail == Trail(bits) && rest == bits >> 6
  {
    var low: bv32;
    low, rest := ChopLowBits(bits, 6);
    assert low == bits & 0x3F;
    trail := (0x80 | low) as byte;
  }

  // ----- the validator -----

  predicate IsTrail(t: byte) {
    0x80 <= t <= 0xBF
  }

  predicate TwoBytes(s: seq<byte>) {
    |s| >= 2 && 0xC2 <= s[0] <= 0xDF && IsTrail(s[1])
  }

  predicate ThreeBytes(s: seq<byte>) {
    && |s| >= 3 && 0xE0 <= s[0] <= 0xEF && IsTrail(s[1]) && IsTrail(s[2])
    && (s[0] != 0xE0 || s[1] >= 0xA0)
    && (s[0] != 0xED || s[1] < 0xA0)
  }

  predicate FourBytes(s: seq<byte>) {
    && |s| >= 4 && 0xF0 <= s[0] <= 0xF4 && IsTrail(s[1]) && IsTrail(s[2]) && IsTrail(s[3])
    && (s[0] != 0xF0 || s[1] >= 0x90)
    && (s[0] != 0xF4 || s[1] < 0x90)
  }

  /** How many bytes the character at the head takes; 0 if there is none. */
  function HeadLength(s: seq<byte>): (n: nat)
    ensures n <= |s|
  {
    if s == [] then 0
    else if s[0] <= 0x7F then 1
    else if TwoBytes(s) then 2
    else if ThreeBytes(s) then 3
    else if FourBytes(s) then 4
    else 0
  }

  predicate Accepted(s: seq<byte>)
    decreases |s|
  {
    s == [] || (HeadLength(s) > 0 && Accepted(s[HeadLength(s)..]))
  }

  /** One pass over the bytes. */
  method IsValidUTF8(s: seq<byte>) returns (r: bool)
    ensures r <==> Accepted(s)
  {
    var length := |s|;
    var i := 0;
    while i < length
      invariant i <= length
      invariant Accepted(s) <==> Accepted(s[i..])
    {
      var lead := s[i];
      i := i + 1;
      if lead <= 0x7F {
        continue;
      }
      if lead < 0xC2 {
        return false;
      } else if lead <= 0xDF && i + 1 <= length && IsTrail(s[i]) {
        i := i + 1;
      } else if 0xE0 <= lead && lead <= 0xEF && i + 2 <= length && IsTrail(s[i]) && IsTrail(s[i + 1])
          && (lead != 0xE0 || s[i] >= 0xA0) && (lead != 0xED || s[i] < 0xA0) {
        i := i + 2;
      } else if 0xF0 <= lead && lead <= 0xF4 && i + 3 <= length && IsTrail(s[i]) && IsTrail(s[i + 1]) && IsTrail(s[i + 2])
          && (lead != 0xF0 || s[i] >= 0x90) && (lead != 0xF4 || s[i] < 0x90) {
        i := i + 3;
      } else {
        return false;
      }
    }
    return true;
  }

  // ----- one character -----

  function From2(b0: byte, b1: byte): bv32 {
    ((b0 & 0x1F) as bv32 << 6) | (b1 & 0x3F) as bv32
  }

  function From3(b0: byte, b1: byte, b2: byte): bv32 {
    ((b0 & 0xF) as bv32 << 12) | ((b1 & 0x3F) as bv32 << 6) | (b2 & 0x3F) as bv32
  }

  function From4(b0: byte, b1: byte, b2: byte, b3: byte): bv32 {
    ((b0 & 0x7) as bv32 << 18) | ((b1 & 0x3F) as bv32 << 12) | ((b2 & 0x3F) as bv32 << 6) | (b3 & 0x3F) as bv32
  }

  /** The code point whose bytes are at the head. */
  function Decode(s: seq<byte>): bv32
    requires HeadLength(s) > 0
  {
    var n := HeadLength(s);
    if n == 1 then s[0] as bv32
    else if n == 2 then From2(s[0], s[1])
    else if n == 3 then From3(s[0], s[1], s[2])
    else From4(s[0], s[1], s[2], s[3])
  }

  lemma Decoded1(b0: byte)
    requires b0 <= 0x7F
    ensures b0 as bv32 <= 0x7F && (b0 as bv32) as byte == b0
  {
  }

  lemma Decoded2(b0: byte, b1: byte)
    requires 0xC2 <= b0 <= 0xDF && IsTrail(b1)
    ensures var cp := From2(b0, b1);
      0x80 <= cp <= 0x7FF && Lead2(cp) == b0 && Trail(cp) == b1
  {
  }

  lemma Decoded3(b0: byte, b1: byte, b2: byte)
    requires 0xE0 <= b0 <= 0xEF && IsTrail(b1) && IsTrail(b2)
    requires (b0 != 0xE0 || b1 >= 0xA0) && (b0 != 0xED || b1 < 0xA0)
    ensures var cp := From3(b0, b1, b2);
      && 0x800 <= cp <= 0xFFFF && !(0xD800 <= cp <= 0xDFFF)
      && Lead3(cp) == b0 && Trail(cp >> 6) == b1 && Trail(cp) == b2
  {
  }

  lemma Decoded4(b0: byte, b1: byte, b2: byte, b3: byte)
    requires 0xF0 <= b0 <= 0xF4 && IsTrail(b1) && IsTrail(b2) && IsTrail(b3)
    requires (b0 != 0xF0 || b1 >= 0x90) && (b0 != 0xF4 || b1 < 0x90)
    ensures var cp := From4(b0, b1, b2, b3);
      && 0x10000 <= cp <= 0x10FFFF
      && Lead4(cp) == b0 && Trail(cp >> 12) == b1 && Trail(cp >> 6) == b2 && Trail(cp) == b3
  {
  }

  lemma Head2IsEncoded(s: seq<byte>)
    requires TwoBytes(s)
    ensures Scalar(From2(s[0], s[1])) && Encode(From2(s[0], s[1])) == s[..2]
  {
    Decoded2(s[0], s[1]);
    hide Trail, Lead2, From2;
  }

  lemma Head3IsEncoded(s: seq<byte>)
    requires ThreeBytes(s)
    ensures Scalar(From3(s[0], s[1], s[2])) && Encode(From3(s[0], s[1], s[2])) == s[..3]
  {
    Decoded3(s[0], s[1], s[2]);
    hide Trail, Lead3, From3;
  }

  lemma Head4IsEncoded(s: seq<byte>)
    requires FourBytes(s)
    ensures Scalar(From4(s[0], s[1], s[2], s[3])) && Encode(From4(s[0], s[1], s[2], s[3])) == s[..4]
  {
    FourAreEncoded(s[0], s[1], s[2], s[3]);
    hide Scalar, Encode, From4;
    assert s[..4] == [s[0], s[1], s[2], s[3]];
  }

  lemma FourAreEncoded(b0: byte, b1: byte, b2: byte, b3: byte)
    requires FourBytes([b0, b1, b2, b3])
    ensures Scalar(From4(b0, b1, b2, b3)) && Encode(From4(b0, b1, b2, b3)) == [b0, b1, b2, b3]
  {
    Decoded4(b0, b1, b2, b3);
    hide Trail, Lead4, From4;
  }

  /** What the validator accepts as one character is the encoding of one scalar value. */
  lemma HeadIsEncoded(s: seq<byte>)
    requires HeadLength(s) > 0
    ensures Scalar(Decode(s)) && Encode(Decode(s)) == s[..HeadLength(s)]
  {
    var n := HeadLength(s);
    if n == 1 {
      Decoded1(s[0]);
    } else if n == 2 {
      Head2IsEncoded(s);
    } else if n == 3 {
      Head3IsEncoded(s);
    } else {
      Head4IsEncoded(s);
    }
    hide Encode, From2, From3, From4, IsTrail;
  }

  lemma Encoded1(cp: bv32)
    requires cp <= MAX_CODE_POINT_1
    ensures cp as byte <= 0x7F && (cp as byte) as bv32 == cp
  {
  }

  lemma Encoded2(cp: bv32)
    requires MAX_CODE_POINT_1 < cp <= MAX_CODE_POINT_2
    ensures 0xC2 <= Lead2(cp) <= 0xDF && From2(Lead2(cp), Trail(cp)) == cp
  {
  }

  lemma TrailIsTrail(bits: bv32)
    ensures IsTrail(Trail(bits))
  {
  }

  lemma Encoded3(cp: bv32)
    requires MAX_CODE_POINT_2 < cp <= MAX_CODE_POINT_3
    ensures var b0, b1 := Lead3(cp), Trail(cp >> 6);
      0xE0 <= b0 <= 0xEF && (b0 != 0xE0 || b1 >= 0xA0) && (b0 != 0xED || b1 < 0xA0 <==> Scalar(cp))
  {
  }

  lemma Decoded3Back(cp: bv32)
    requires MAX_CODE_POINT_2 < cp <= MAX_CODE_POINT_3
    ensures From3(Lead3(cp), Trail(cp >> 6), Trail(cp)) == cp
  {
  }

  lemma Encoded4(cp: bv32)
    requires MAX_CODE_POINT_3 < cp <= MAX_CODE_POINT_4
    ensures var b0, b1 := Lead4(cp), Trail(cp >> 12);
      && 0xF0 <= b0 <= 0xF7 && (b0 != 0xF0 || b1 >= 0x90)
      && (b0 < 0xF4 || (b0 == 0xF4 && b1 < 0x90) <==> Scalar(cp))
  {
  }

  lemma Decoded4Back(cp: bv32)
    requires MAX_CODE_POINT_3 < cp <= MAX_CODE_POINT_4
    ensures From4(Lead4(cp), Trail(cp >> 12), Trail(cp >> 6), Trail(cp)) == cp
  {
  }

  lemma Encoded2Head(cp: bv32, rest: seq<byte>)
    requires MAX_CODE_POINT_1 < cp <= MAX_CODE_POINT_2
    ensures var s := Encode(cp) + rest; HeadLength(s) == 2 && Decode(s) == cp
  {
    Encoded2(cp);
    TrailIsTrail(cp);
    hide Trail, Lead2, From2, IsTrail;
  }

  lemma Encoded3Head(cp: bv32, rest: seq<byte>)
    requires MAX_CODE_POINT_2 < cp <= MAX_CODE_POINT_3
    ensures var s := Encode(cp) + rest;
      if Scalar(cp) then HeadLength(s) == 3 && Decode(s) == cp else HeadLength(s) == 0
  {
    Encoded3(cp);
    Decoded3Back(cp);
    TrailIsTrail(cp);
    TrailIsTrail(cp >> 6);
    hide Trail, Lead3, From3, IsTrail;
  }

  lemma Encoded4Head(cp: bv32, rest: seq<byte>)
    requires MAX_CODE_POINT_3 < cp <= MAX_CODE_POINT_4
    ensures var s := Encode(cp) + rest;
      if Scalar(cp) then HeadLength(s) == 4 && Decode(s) == cp else HeadLength(s) == 0
  {
    Encoded4(cp);
    Decoded4Back(cp);
    TrailIsTrail(cp);
    TrailIsTrail(cp >> 6);
    TrailIsTrail(cp >> 12);
    hide Trail, Lead4, From4, IsTrail;
  }

  lemma ShortIsScalar(cp: bv32)
    requires cp <= MAX_CODE_POINT_2
    ensures Scalar(cp)
  {
  }

  /** The encoding of a code point is accepted as one character, and read as that code point, iff it
      is a scalar value; otherwise nothing that begins with it is accepted. */
  lemma EncodedHead(cp: bv32, rest: seq<byte>)
    requires cp <= MAX_CODE_POINT_4
    ensures var s := Encode(cp) + rest;
      if Scalar(cp) then HeadLength(s) == |Encode(cp)| && Decode(s) == cp else HeadLength(s) == 0
  {
    if cp <= MAX_CODE_POINT_1 {
      Encoded1(cp);
      ShortIsScalar(cp);
    } else if cp <= MAX_CODE_POINT_2 {
      Encoded2Head(cp, rest);
      ShortIsScalar(cp);
    } else if cp <= MAX_CODE_POINT_3 {
      Encoded3Head(cp, rest);
    } else {
      Encoded4Head(cp, rest);
    }
    hide Scalar, Trail, Lead2, Lead3, Lead4, TwoBytes, ThreeBytes, FourBytes;
  }

  // ----- whole texts -----

  predicate Encodable(cps: seq<bv32>) {
    forall i :: 0 <= i < |cps| ==> cps[i] <= MAX_CODE_POINT_4
  }

  predicate Scalars(cps: seq<bv32>) {
    forall i :: 0 <= i < |cps| ==> Scalar(cps[i])
  }

  function EncodeAll(cps: seq<bv32>): seq<byte>
    requires Encodable(cps)
  {
    if cps == [] then [] else Encode(cps[0]) + EncodeAll(cps[1..])
  }

  /** What the encoder makes of a text is accepted iff the text consists of scalar values. */
  lemma {:induction false} EncodedIsAcceptedIff(cps: seq<bv32>)
    requires Encodable(cps)
    ensures Accepted(EncodeAll(cps)) <==> Scalars(cps)
  {
    if cps != [] {
      hide Encode, HeadLength, Scalar, Decode;
      var rest := EncodeAll(cps[1..]);
      var s := Encode(cps[0]) + rest;
      EncodedHead(cps[0], rest);
      EncodedIsAcceptedIff(cps[1..]);
      assert s[|Encode(cps[0])|..] == rest;
      EncodeIsLonger(cps[0]);
      assert Scalars(cps) <==> Scalar(cps[0]) && Scalars(cps[1..]);
    }
  }

  lemma EncodeIsLonger(cp: bv32)
    requires cp <= MAX_CODE_POINT_4
    ensures Encode(cp) != []
  {
  }

  lemma OneMoreEncoded(cp: bv32, cps: seq<bv32>)
    requires cp <= MAX_CODE_POINT_4 && Encodable(cps)
    ensures Encodable([cp] + cps) && EncodeAll([cp] + cps) == Encode(cp) + EncodeAll(cps)
    ensures Scalars([cp] + cps) <==> Scalar(cp) && Scalars(cps)
  {
    hide Scalar, Encode;
    assert ([cp] + cps)[1..] == cps;
    if Scalars([cp] + cps) {
      assert Scalar(([cp] + cps)[0]);
      assert forall i :: 0 <= i < |cps| ==> cps[i] == ([cp] + cps)[i + 1];
    }
  }

  lemma ScalarIsEncodable(cp: bv32)
    requires Scalar(cp)
    ensures cp <= MAX_CODE_POINT_4
  {
  }

  lemma HeadAndRest(s: seq<byte>)
    requires Accepted(s) && s != []
    ensures HeadLength(s) > 0 && Accepted(s[HeadLength(s)..])
    ensures Scalar(Decode(s)) && Decode(s) <= MAX_CODE_POINT_4 && s == Encode(Decode(s)) + s[HeadLength(s)..]
  {
    hide Encode, Decode, HeadLength, Scalar;
    HeadIsEncoded(s);
    ScalarIsEncodable(Decode(s));
  }

  /** Reading accepted bytes as code points. */
  lemma {:induction false} AcceptedIsEncoded(s: seq<byte>) returns (cps: seq<bv32>)
    requires Accepted(s)
    ensures Scalars(cps) && Encodable(cps) && EncodeAll(cps) == s
    decreases |s|
  {
    if s == [] {
      cps := [];
    } else {
      hide Encode, Scalar, Decode, HeadLength, Scalars, Encodable, EncodeAll, Accepted;
      HeadAndRest(s);
      var rest := AcceptedIsEncoded(s[HeadLength(s)..]);
      OneMoreEncoded(Decode(s), rest);
      cps := [Decode(s)] + rest;
    }
  }

  /** The validator accepts exactly the encodings of texts of scalar values. */
  lemma AcceptedIffEncoded(s: seq<byte>)
    ensures Accepted(s) <==> exists cps: seq<bv32> :: Scalars(cps) && Encodable(cps) && EncodeAll(cps) == s
  {
    hide Scalars, EncodeAll, Accepted;
    if Accepted(s) {
      var cps := AcceptedIsEncoded(s);
    }
    forall cps: seq<bv32> | Scalars(cps) && Encodable(cps) && EncodeAll(cps) == s ensures Accepted(s) {
      EncodedIsAcceptedIff(cps);
    }
  }

  /** Each text has its own encoding. */
  lemma {:induction false} EncodingIsUnique(a: seq<bv32>, b: seq<bv32>)
    requires Encodable(a) && Encodable(b) && Scalars(a) && Scalars(b)
    requires EncodeAll(a) == EncodeAll(b)
    ensures a == b
  {
    hide Encode, HeadLength, Scalar, Decode;
    if a != [] {
      EncodeIsLonger(a[0]);
      EncodedHead(a[0], EncodeAll(a[1..]));
    }
    if b != [] {
      EncodeIsLonger(b[0]);
      EncodedHead(b[0], EncodeAll(b[1..]));
    }
    if a != [] && b != [] {
      assert EncodeAll(a)[|Encode(a[0])|..] == EncodeAll(a[1..]);
      assert EncodeAll(b)[|Encode(b[0])|..] == EncodeAll(b[1..]);
      EncodingIsUnique(a[1..], b[1..]);
      assert a == [a[0]] + a[1..] && b == [b[0]] + b[1..];
    }
  }

  // ----- texts without zeros -----

  predicate NoZeroIn(s: seq<byte>) {
    forall i :: 0 <= i < |s| ==> s[i] != 0
  }

  predicate NoZeroAmong(cps: seq<bv32>) {
    forall i :: 0 <= i < |cps| ==> cps[i] != 0
  }

  lemma ZeroByte(cp: bv32)
    requires cp <= MAX_CODE_POINT_4
    ensures NoZeroIn(Encode(cp)) <==> cp != 0
  {
    if cp == 0 {
      assert Encode(cp)[0] == 0;
    } else {
      NoZeros(cp);
    }
  }

  lemma {:induction false} ZeroIsZero(cps: seq<bv32>)
    requires Encodable(cps)
    ensures NoZeroIn(EncodeAll(cps)) <==> NoZeroAmong(cps)
  {
    if cps != [] {
      hide Encode;
      ZeroByte(cps[0]);
      ZeroIsZero(cps[1..]);
      NoZeroInBoth(Encode(cps[0]), EncodeAll(cps[1..]));
      assert NoZeroAmong(cps) <==> cps[0] != 0 && NoZeroAmong(cps[1..]);
    }
  }

  lemma NoZeroInBoth(a: seq<byte>, b: seq<byte>)
    ensures NoZeroIn(a + b) <==> NoZeroIn(a) && NoZeroIn(b)
  {
    if NoZeroIn(a + b) {
      assert forall i :: 0 <= i < |a| ==> a[i] == (a + b)[i];
      assert forall i :: 0 <= i < |b| ==> b[i] == (a + b)[i + |a|];
    }
  }

  /** Bytes without a zero, as a C string has them, are accepted iff they are what CodePointToUtf8
      makes of scalar values other than zero, one after the other. */
  lemma NulFreeAcceptedIff(s: seq<byte>)
    requires NoZeroIn(s)
    ensures Accepted(s)
       <==> exists cps: seq<bv32> :: Scalars(cps) && NoZeroAmong(cps) && Encodable(cps) && EncodeAll(cps) == s
  {
    hide Scalars, EncodeAll, Accepted, NoZeroIn, NoZeroAmong;
    if Accepted(s) {
      var cps := AcceptedIsEncoded(s);
      ZeroIsZero(cps);
    }
    forall cps: seq<bv32> | Scalars(cps) && NoZeroAmong(cps) && Encodable(cps) && EncodeAll(cps) == s ensures Accepted(s) {
      EncodedIsAcceptedIff(cps);
    }
  }

  // ----- wide strings -----

  /** The units of UTF-16 and UTF-32 wide characters. */
  predicate Fits(units: seq<bv32>, wcharSize: nat) {
    wcharSize == 2 ==> forall i :: 0 <= i < |units| ==> units[i] <= 0xFFFF
  }

  predicate IsUtf16SurrogatePair(first: bv32, second: bv32, wcharSize: nat) {
    wcharSize == 2 && first & 0xFC00 == 0xD800 && second & 0xFC00 == 0xDC00
  }

  function FromSurrogatePair(first: bv32, second: bv32): bv32 {
    (((first & 0x3FF) << 10) | (second & 0x3FF)) + 0x10000
  }

  /** The code points of a wide string; a surrogate without its partner stands for itself. */
  function CodePoints(units: seq<bv32>, wcharSize: nat): seq<bv32> {
    if units == [] then []
    else if |units| > 1 && IsUtf16SurrogatePair(units[0], units[1], wcharSize) then
      [FromSurrogatePair(units[0], units[1])] + CodePoints(units[2..], wcharSize)
    else [units[0]] + CodePoints(units[1..], wcharSize)
  }

  /** Wide characters of 32 bits are code points already: surrogates do not pair up in them. */
  lemma {:induction false} Utf32IsRead(units: seq<bv32>)
    ensures CodePoints(units, 4) == units
  {
    hide FromSurrogatePair;
    if units != [] {
      Utf32IsRead(units[1..]);
    }
  }

  function Piece(cp: bv32): Encoded {
    if cp > MAX_CODE_POINT_4 then InvalidUnicode(cp) else Bytes(Encode(cp))
  }

  function Pieces(cps: seq<bv32>): seq<Encoded> {
    if cps == [] then [] else [Piece(cps[0])] + Pieces(cps[1..])
  }

  /** `str` is what comes before the terminator; a limit of -1 means all of it. */
  method WideStringToUtf8(str: seq<bv32>, numChars: int, wcharSize: nat) returns (r: seq<Encoded>)
    requires NoZeroAmong(str) && Fits(str, wcharSize) && numChars >= -1
    ensures r == Pieces(CodePoints(str[..if 0 <= numChars < |str| then numChars else |str|], wcharSize))
    ensures wcharSize == 4 ==> r == Pieces(str[..if 0 <= numChars < |str| then numChars else |str|])
  {
    hide Encode, FromSurrogatePair, IsUtf16SurrogatePair, CodePoints, Pieces;
    Utf32IsRead(str[..if 0 <= numChars < |str| then numChars else |str|]);
    var num := if numChars == -1 then |str| else numChars;
    ghost var text := str[..if 0 <= numChars < |str| then numChars else |str|];
    r := [];
    var i := 0;
    assert text[0..] == text;
    while i < num && i != |str|
      invariant i <= |text|
      invariant r + Pieces(CodePoints(text[i..], wcharSize)) == Pieces(CodePoints(text, wcharSize))
    {
      NextCodePoint(text, i, wcharSize);
      ghost var before := r;
      var codePoint: bv32;
      if i + 1 < num && i + 1 < |str| && IsUtf16SurrogatePair(str[i], str[i + 1], wcharSize) {
        codePoint := FromSurrogatePair(str[i], str[i + 1]);
        PairIsNotZero(str[i], str[i + 1]);
        i := i + 1;
      } else {
        codePoint := str[i];
      }
      i := i + 1;
      var piece := CodePointToUtf8(codePoint);
      r := r + [piece];
      OneMorePiece(before, codePoint, CodePoints(text[i..], wcharSize));
    }
    NothingMore(wcharSize);
    assert text[i..] == [];
  }

  lemma NothingMore(wcharSize: nat)
    ensures Pieces(CodePoints([], wcharSize)) == []
  {
  }

  lemma NextCodePoint(units: seq<bv32>, i: nat, wcharSize: nat)
    requires i < |units|
    ensures CodePoints(units[i..], wcharSize) ==
      if i + 1 < |units| && IsUtf16SurrogatePair(units[i], units[i + 1], wcharSize)
      then [FromSurrogatePair(units[i], units[i + 1])] + CodePoints(units[i + 2..], wcharSize)
      else [units[i]] + CodePoints(units[i + 1..], wcharSize)
  {
    hide FromSurrogatePair, IsUtf16SurrogatePair;
    var rest := units[i..];
    assert rest[1..] == units[i + 1..];
    assert |rest| > 1 ==> rest[2..] == units[i + 2..];
  }

  lemma OneMorePiece(before: seq<Encoded>, cp: bv32, cps: seq<bv32>)
    ensures before + Pieces([cp] + cps) == before + [Piece(cp)] + Pieces(cps)
  {
    hide Piece;
    assert ([cp] + cps)[1..] == cps;
  }

  lemma PairIsNotZero(first: bv32, second: bv32)
    ensures FromSurrogatePair(first, second) != 0
  {
  }

  /** The two units of a code point beyond 0xFFFF (section 2.1 of RFC 2781). */
  function HighSurrogate(cp: bv32): bv32
    requires cp >= 0x10000
  {
    0xD800 | ((cp - 0x10000) >> 10)
  }

  function LowSurrogate(cp: bv32): bv32
    requires cp >= 0x10000
  {
    0xDC00 | ((cp - 0x10000) & 0x3FF)
  }

  function Utf16(cps: seq<bv32>): seq<bv32> {
    if cps == [] then []
    else (if cps[0] < 0x10000 then [cps[0]] else [HighSurrogate(cps[0]), LowSurrogate(cps[0])]) + Utf16(cps[1..])
  }

  lemma PairOfScalar(cp: bv32)
    requires 0x10000 <= cp <= 0x10FFFF
    ensures IsUtf16SurrogatePair(HighSurrogate(cp), LowSurrogate(cp), 2)
    ensures FromSurrogatePair(HighSurrogate(cp), LowSurrogate(cp)) == cp
  {
    PairMarks(cp - 0x10000);
    PairBits(cp - 0x10000);
  }

  lemma PairMarks(x: bv32)
    requires x <= 0xFFFFF
    ensures (0xD800 | (x >> 10)) & 0xFC00 == 0xD800 && (0xDC00 | (x & 0x3FF)) & 0xFC00 == 0xDC00
  {
  }

  lemma PairBits(x: bv32)
    requires x <= 0xFFFFF
    ensures (((0xD800 | (x >> 10)) & 0x3FF) << 10) | ((0xDC00 | (x & 0x3FF)) & 0x3FF) == x
  {
  }

  lemma ScalarOfPair(first: bv32, second: bv32)
    requires IsUtf16SurrogatePair(first, second, 2) && first <= 0xFFFF && second <= 0xFFFF
    ensures var cp := FromSurrogatePair(first, second);
      0x10000 <= cp <= 0x10FFFF && HighSurrogate(cp) == first && LowSurrogate(cp) == second && !Scalar(first)
  {
  }

  /** Writing the code points out again gives the units back. */
  lemma {:induction false} UnitsAreKept(units: seq<bv32>)
    requires Fits(units, 2)
    ensures Utf16(CodePoints(units, 2)) == units && Encodable(CodePoints(units, 2))
    decreases |units|
  {
    if units != [] {
      hide IsUtf16SurrogatePair, FromSurrogatePair, HighSurrogate, LowSurrogate;
      var cps := CodePoints(units, 2);
      if |units| > 1 && IsUtf16SurrogatePair(units[0], units[1], 2) {
        ScalarOfPair(units[0], units[1]);
        UnitsAreKept(units[2..]);
        assert cps[1..] == CodePoints(units[2..], 2);
      } else {
        UnitsAreKept(units[1..]);
        assert cps[1..] == CodePoints(units[1..], 2);
      }
    }
  }

  /** No unit of UTF-16 is mistaken for another's partner. */
  lemma {:induction false} Utf16IsRead(cps: seq<bv32>)
    requires Scalars(cps)
    ensures CodePoints(Utf16(cps), 2) == cps && Fits(Utf16(cps), 2)
  {
    if cps != [] {
      hide IsUtf16SurrogatePair, FromSurrogatePair, HighSurrogate, LowSurrogate, Scalar;
      Utf16IsRead(cps[1..]);
      var rest := Utf16(cps[1..]);
      var units := Utf16(cps);
      assert Scalar(cps[0]);
      if cps[0] < 0x10000 {
        assert units[1..] == rest;
        if |units| > 1 {
          ScalarStandsAlone(cps[0], units[1]);
        }
      } else {
        ScalarsEnd(cps[0]);
        PairOfScalar(cps[0]);
        SurrogatesFit(cps[0]);
        assert units[2..] == rest;
      }
      assert cps == [cps[0]] + cps[1..];
    }
  }

  lemma ScalarStandsAlone(cp: bv32, next: bv32)
    requires Scalar(cp) && cp < 0x10000
    ensures !IsUtf16SurrogatePair(cp, next, 2)
  {
  }

  lemma ScalarsEnd(cp: bv32)
    requires Scalar(cp)
    ensures cp <= 0x10FFFF
  {
  }

  lemma SurrogatesFit(cp: bv32)
    requires 0x10000 <= cp <= 0x10FFFF
    ensures HighSurrogate(cp) <= 0xFFFF && LowSurrogate(cp) <= 0xFFFF
  {
  }

  /** The UTF-8 made of a 16-bit wide string is accepted iff the string is UTF-16 (section 2 of
      RFC 2781), that is, has no surrogate without its partner. */
  lemma WideIsAcceptedIff(units: seq<bv32>)
    requires Fits(units, 2)
    ensures Encodable(CodePoints(units, 2))
    ensures Accepted(EncodeAll(CodePoints(units, 2))) <==> exists cps: seq<bv32> :: Scalars(cps) && Utf16(cps) == units
  {
    hide Scalars, EncodeAll, Accepted, Utf16, CodePoints;
    UnitsAreKept(units);
    EncodedIsAcceptedIff(CodePoints(units, 2));
    forall cps: seq<bv32> | Scalars(cps) && Utf16(cps) == units ensures CodePoints(units, 2) == cps {
      Utf16IsRead(cps);
    }
  }
}
