/** The UTF-8 and UTF-16 arithmetic of the configuration codec (src/supervisor/api_server.cc). */
module Utf8 {
  import opened Basics

  // ---- Section 4 of RFC 3629: the multi-byte forms ----

  predicate Tail(b: byte) {
    0x80 <= b <= 0xBF
  }

  predicate TwoBytes(s: Bytes) {
    |s| == 2 && 0xC2 <= s[0] <= 0xDF && Tail(s[1])
  }

  predicate ThreeBytes(s: Bytes) {
    && |s| == 3
    && Tail(s[2])
    && (|| (s[0] == 0xE0 && 0xA0 <= s[1] <= 0xBF)
        || (0xE1 <= s[0] <= 0xEC && Tail(s[1]))
        || (s[0] == 0xED && 0x80 <= s[1] <= 0x9F)
        || (0xEE <= s[0] <= 0xEF && Tail(s[1])))
  }

  predicate FourBytes(s: Bytes) {
    && |s| == 4
    && Tail(s[2])
    && Tail(s[3])
    && (|| (s[0] == 0xF0 && 0x90 <= s[1] <= 0xBF)
        || (0xF1 <= s[0] <= 0xF3 && Tail(s[1]))
        || (s[0] == 0xF4 && 0x80 <= s[1] <= 0x8F))
  }

  predicate MultiByte(s: Bytes) {
    TwoBytes(s) || ThreeBytes(s) || FourBytes(s)
  }

  /** Length of the multi-byte form standing at `p`, 0 when there is none. */
  function SequenceLength(t: Bytes, p: nat): (n: nat)
    requires p < |t|
    ensures n > 0 <==> exists m :: p <= m <= |t| && MultiByte(t[p..m])
    ensures n > 0 ==> p + n <= |t| && MultiByte(t[p..p + n])
    ensures n > 0 ==> t[p] >= 0x80
  {
    if p + 2 <= |t| && MultiByte(t[p..p + 2]) then 2
    else if p + 3 <= |t| && MultiByte(t[p..p + 3]) then 3
    else if p + 4 <= |t| && MultiByte(t[p..p + 4]) then 4
    else 0
  }

  /** The form that stands at a position is unique. */
  lemma SequenceLengthIs(t: Bytes, p: nat, s: Bytes)
    requires At(t, p, s) && MultiByte(s)
    ensures SequenceLength(t, p) == |s|
  {
    var n := SequenceLength(t, p);
    assert MultiByte(t[p..p + |s|]);
    assert t[p..p + n][0] == t[p] == s[0];
  }

  /** The payload bits of a leading byte. */
  function LeadBits(b: byte): nat {
    if b < 0x80 then b else if b < 0xE0 then b % 0x20 else if b < 0xF0 then b % 0x10 else b % 0x08
  }

  function Decode(s: Bytes): nat
    requires 1 <= |s| <= 4
  {
    if |s| == 1 then LeadBits(s[0])
    else Decode(s[..|s| - 1]) * 64 + s[|s| - 1] % 64
  }

  predicate Scalar(codePoint: int) {
    0 <= codePoint < 0xD800 || 0xE000 <= codePoint <= 0x10FFFF
  }

  /** `AppendCodePoint`: the bytes it pushes. */
  function Encode(codePoint: nat): Bytes
    requires codePoint <= 0x10FFFF
  {
    if codePoint <= 0x7F then [codePoint]
    else if codePoint <= 0x7FF then [0xC0 + codePoint / 64, 0x80 + codePoint % 64]
    else if codePoint <= 0xFFFF then
      [0xE0 + codePoint / 4096, 0x80 + codePoint / 64 % 64, 0x80 + codePoint % 64]
    else
      [0xF0 + codePoint / 262144, 0x80 + codePoint / 4096 % 64, 0x80 + codePoint / 64 % 64,
       0x80 + codePoint % 64]
  }

  /** One whole character: an ASCII byte or a multi-byte form. */
  predicate GoodUnit(u: Bytes) {
    (|u| == 1 && u[0] < 0x80) || MultiByte(u)
  }

  lemma LastDigit(rest: nat, digit: nat)
    requires digit < 64
    ensures (rest * 64 + digit) / 64 == rest && (rest * 64 + digit) % 64 == digit
  {
  }

  lemma DivideTwice(n: nat)
    ensures n / 4096 == n / 64 / 64 && n / 262144 == n / 64 / 64 / 64
  {
  }

  /** Base-64 digits of a code point, most significant first. */
  lemma Digits(a: nat, b: nat, c: nat, d: nat)
    requires b < 64 && c < 64 && d < 64
    ensures ((a * 64 + b) * 64 + c) * 64 + d == a * 262144 + b * 4096 + c * 64 + d
    ensures (a * 262144 + b * 4096 + c * 64 + d) / 262144 == a
    ensures (a * 262144 + b * 4096 + c * 64 + d) / 4096 % 64 == b
    ensures (a * 262144 + b * 4096 + c * 64 + d) / 64 % 64 == c
    ensures (a * 262144 + b * 4096 + c * 64 + d) % 64 == d
  {
    LastDigit(a, b);
    LastDigit(a * 64 + b, c);
    LastDigit((a * 64 + b) * 64 + c, d);
    DivideTwice(((a * 64 + b) * 64 + c) * 64 + d);
  }

  /** `Decode` spelled out on each length. */
  lemma DecodeDigits(s: Bytes)
    requires 1 <= |s| <= 4
    ensures |s| == 1 ==> Decode(s) == LeadBits(s[0])
    ensures |s| == 2 ==> Decode(s) == LeadBits(s[0]) * 64 + s[1] % 64
    ensures |s| == 3 ==> Decode(s) == (LeadBits(s[0]) * 64 + s[1] % 64) * 64 + s[2] % 64
    ensures |s| == 4 ==> Decode(s) == ((LeadBits(s[0]) * 64 + s[1] % 64) * 64 + s[2] % 64) * 64 + s[3] % 64
  {
    if |s| > 1 {
      DecodeDigits(s[..|s| - 1]);
    }
  }

  lemma EncodeThenDecode(codePoint: nat)
    requires Scalar(codePoint)
    ensures GoodUnit(Encode(codePoint)) && Decode(Encode(codePoint)) == codePoint
    ensures codePoint >= 0x80 ==> MultiByte(Encode(codePoint))
  {
    hide Encode, Decode;
    if codePoint >= 0x10000 {
      EncodeFour(codePoint);
    } else if codePoint >= 0x800 {
      EncodeThree(codePoint);
    } else {
      EncodeShort(codePoint);
    }
  }

  lemma EncodeShort(codePoint: nat)
    requires codePoint < 0x800
    ensures if codePoint < 0x80 then |Encode(codePoint)| == 1 && Encode(codePoint)[0] < 0x80
            else TwoBytes(Encode(codePoint))
    ensures Decode(Encode(codePoint)) == codePoint
  {
    hide Decode;
    DecodeDigits(Encode(codePoint));
  }

  lemma EncodeThree(codePoint: nat)
    requires 0x800 <= codePoint <= 0xFFFF && Scalar(codePoint)
    ensures ThreeBytes(Encode(codePoint)) && Decode(Encode(codePoint)) == codePoint
  {
    var a, b, c := codePoint / 4096, codePoint / 64 % 64, codePoint % 64;
    assert codePoint / 64 == a * 64 + b;
    var s := Encode(codePoint);
    assert s == [0xE0 + a, 0x80 + b, 0x80 + c];
    DecodeDigits(s);
    PayloadBits(s[0]);
    PayloadBits(s[1]);
    PayloadBits(s[2]);
  }

  lemma EncodeFour(codePoint: nat)
    requires 0x10000 <= codePoint <= 0x10FFFF
    ensures FourBytes(Encode(codePoint)) && Decode(Encode(codePoint)) == codePoint
  {
    var a, b, c, d :=
      codePoint / 262144, codePoint / 4096 % 64, codePoint / 64 % 64, codePoint % 64;
    assert codePoint / 4096 == a * 64 + b;
    assert codePoint / 64 == (a * 64 + b) * 64 + c;
    var s := Encode(codePoint);
    assert s == [0xF0 + a, 0x80 + b, 0x80 + c, 0x80 + d];
    DecodeDigits(s);
    PayloadBits(s[0]);
    PayloadBits(s[1]);
    PayloadBits(s[2]);
    PayloadBits(s[3]);
  }

  lemma DecodeThenEncode(u: Bytes)
    requires GoodUnit(u)
    ensures Scalar(Decode(u)) && Encode(Decode(u)) == u
  {
    if |u| == 1 {
    } else if |u| == 2 {
      RangeTest(u, 0x80);
      TwoBytesBack(u);
    } else if |u| == 3 {
      RangeTest(u, 0x800);
      ThreeBytesBack(u);
    } else {
      RangeTest(u, 0x10000);
      FourBytesBack(u);
    }
  }

  lemma TwoBytesBack(u: Bytes)
    requires TwoBytes(u)
    ensures Decode(u) <= 0x10FFFF && Encode(Decode(u)) == u
  {
    DecodeDigits(u);
    PayloadBits(u[0]);
    PayloadBits(u[1]);
    Digits(0, 0, u[0] - 0xC0, u[1] - 0x80);
  }

  lemma ThreeBytesBack(u: Bytes)
    requires ThreeBytes(u)
    ensures Decode(u) <= 0x10FFFF && Encode(Decode(u)) == u
  {
    var a: nat, b: nat, c: nat := u[0] - 0xE0, u[1] - 0x80, u[2] - 0x80;
    DecodeDigits(u);
    PayloadBits(u[0]);
    PayloadBits(u[1]);
    PayloadBits(u[2]);
    Digits(0, a, b, c);
    assert Decode(u) == a * 4096 + b * 64 + c;
    assert Decode(u) / 4096 == a;
  }

  lemma FourBytesBack(u: Bytes)
    requires FourBytes(u)
    ensures Decode(u) <= 0x10FFFF && Encode(Decode(u)) == u
  {
    var a: nat, b: nat, c: nat, d: nat := u[0] - 0xF0, u[1] - 0x80, u[2] - 0x80, u[3] - 0x80;
    hide LeadBits, Encode, Decode;
    DecodeDigits(u);
    PayloadBits(u[0]);
    PayloadBits(u[1]);
    PayloadBits(u[2]);
    PayloadBits(u[3]);
    Digits(a, b, c, d);
    FourDigits(Decode(u), a, b, c, d);
    assert u == [0xF0 + a, 0x80 + b, 0x80 + c, 0x80 + d];
  }

  lemma FourDigits(codePoint: nat, a: nat, b: nat, c: nat, d: nat)
    requires a <= 4 && b < 64 && c < 64 && d < 64 && 0x10000 <= codePoint <= 0x10FFFF
    requires codePoint == a * 262144 + b * 4096 + c * 64 + d
    ensures Encode(codePoint) == [0xF0 + a, 0x80 + b, 0x80 + c, 0x80 + d]
  {
    Digits(a, b, c, d);
  }

  /** Leading and trailing bytes, as plain offsets. */
  lemma PayloadBits(b: byte)
    ensures 0xC0 <= b < 0xE0 ==> LeadBits(b) == b - 0xC0
    ensures 0xE0 <= b < 0xF0 ==> LeadBits(b) == b - 0xE0
    ensures 0xF0 <= b < 0xF8 ==> LeadBits(b) == b - 0xF0
    ensures Tail(b) <==> b / 64 == 2
    ensures Tail(b) ==> b % 64 == b - 0x80
  {
  }

  /** The code point range tests of the scan select exactly the forms of the grammar. */
  lemma RangeTest(s: Bytes, minimum: nat)
    requires 2 <= |s| <= 4 && forall k :: 1 <= k < |s| ==> Tail(s[k])
    requires |s| == 2 ==> 0xC2 <= s[0] <= 0xDF && minimum == 0x80
    requires |s| == 3 ==> 0xE0 <= s[0] <= 0xEF && minimum == 0x800
    requires |s| == 4 ==> 0xF0 <= s[0] <= 0xF4 && minimum == 0x10000
    ensures MultiByte(s) <==> minimum <= Decode(s) && Scalar(Decode(s))
  {
    DecodeDigits(s);
    PayloadBits(s[0]);
    PayloadBits(s[1]);
    if |s| > 2 {
      PayloadBits(s[2]);
    }
    if |s| > 3 {
      PayloadBits(s[3]);
    }
  }

  /** The leading byte decides which form can stand at a position. */
  lemma LeadDecides(t: Bytes, p: nat, length: nat)
    requires p < |t| && 2 <= length <= 4
    requires 0xC2 <= t[p] <= 0xF4 && length == if t[p] < 0xE0 then 2 else if t[p] < 0xF0 then 3 else 4
    ensures SequenceLength(t, p) == if p + length <= |t| && MultiByte(t[p..p + length]) then length else 0
  {
  }

  lemma NotTail(t: Bytes, p: nat, length: nat, offset: nat)
    requires 1 <= offset < length <= 4 && p + length <= |t| && !Tail(t[p + offset])
    ensures !MultiByte(t[p..p + length])
  {
  }

  lemma DecodeNext(t: Bytes, p: nat, offset: nat)
    requires 1 <= offset < 4 && p + offset < |t|
    ensures Decode(t[p..p + offset + 1]) == Decode(t[p..p + offset]) * 64 + t[p + offset] % 64
  {
    assert t[p..p + offset + 1][..offset] == t[p..p + offset];
  }

  lemma NoLead(t: Bytes, p: nat)
    requires p < |t| && !(0xC2 <= t[p] <= 0xF4)
    ensures SequenceLength(t, p) == 0
  {
  }

  /** The scan with the accumulating code point, against the grammar of RFC 3629. */
  method ValidUtf8SequenceLength(input: Bytes, position: nat) returns (length: nat)
    requires position < |input|
    ensures length == SequenceLength(input, position)
  {
    hide SequenceLength, MultiByte, LeadBits, Decode;
    var first := input[position];
    var codePoint: nat;
    var minimum: nat;
    if 0xC2 <= first <= 0xDF {
      length, codePoint, minimum := 2, first % 0x20, 0x80;
    } else if 0xE0 <= first <= 0xEF {
      length, codePoint, minimum := 3, first % 0x10, 0x800;
    } else if 0xF0 <= first <= 0xF4 {
      length, codePoint, minimum := 4, first % 0x08, 0x10000;
    } else {
      NoLead(input, position);
      return 0;
    }
    LeadDecides(input, position, length);
    PayloadBits(first);
    if position + length > |input| {
      return 0;
    }
    var offset := 1;
    assert input[position..position + 1] == [first];
    DecodeDigits([first]);
    while offset < length
      invariant 1 <= offset <= length
      invariant forall k :: position < k < position + offset ==> Tail(input[k])
      invariant codePoint == Decode(input[position..position + offset])
    {
      var next := input[position + offset];
      PayloadBits(next);
      if next / 64 != 2 {
        NotTail(input, position, length, offset);
        return 0;
      }
      DecodeNext(input, position, offset);
      codePoint := codePoint * 64 + next % 64;
      offset := offset + 1;
    }
    ghost var s := input[position..position + length];
    RangeTest(s, minimum);
    if codePoint < minimum || codePoint > 0x10FFFF || 0xD800 <= codePoint <= 0xDFFF {
      return 0;
    }
  }

  // ---- Section 2.2 of RFC 2781: surrogate pairs ----

  predicate High(unit: int) {
    0xD800 <= unit <= 0xDBFF
  }

  predicate Low(unit: int) {
    0xDC00 <= unit <= 0xDFFF
  }

  function Combine(high: int, low: int): int {
    0x10000 + (high - 0xD800) * 1024 + (low - 0xDC00)
  }

  /** Every supplementary code point has exactly one surrogate pair. */
  lemma SurrogatesAreBijective(codePoint: int, high: int, low: int)
    ensures High(high) && Low(low) ==> 0x10000 <= Combine(high, low) <= 0x10FFFF
    ensures 0x10000 <= codePoint <= 0x10FFFF ==>
              (High(high) && Low(low) && Combine(high, low) == codePoint
               <==> high == 0xD800 + (codePoint - 0x10000) / 1024
                    && low == 0xDC00 + (codePoint - 0x10000) % 1024)
  {
  }

  // ---- Whole strings ----

  /** How many bytes the escaper consumes at the front of `v`. */
  function UnitLength(v: Bytes): (n: nat)
    requires v != []
    ensures 1 <= n <= |v|
  {
    var n := SequenceLength(v, 0);
    if n == 0 then 1 else n
  }

  predicate WellFormed(v: Bytes)
    decreases |v|
  {
    v == [] || (GoodUnit(v[..UnitLength(v)]) && WellFormed(v[UnitLength(v)..]))
  }

  const REPLACEMENT: Bytes := [0xEF, 0xBF, 0xBD]

  function RepairUnit(u: Bytes): Bytes {
    if GoodUnit(u) then u else REPLACEMENT
  }

  /** Every byte that starts no character becomes U+FFFD. */
  function Repair(v: Bytes): Bytes
    decreases |v|
  {
    if v == [] then []
    else RepairUnit(v[..UnitLength(v)]) + Repair(v[UnitLength(v)..])
  }

  lemma UnitFront(u: Bytes, rest: Bytes)
    requires GoodUnit(u)
    ensures UnitLength(u + rest) == |u| && (u + rest)[..|u|] == u && (u + rest)[|u|..] == rest
  {
    if MultiByte(u) {
      SequenceLengthIs(u + rest, 0, u);
    }
  }

  /** The front unit of any string is a character or one stray byte. */
  lemma FrontUnit(v: Bytes)
    requires v != []
    ensures var u := v[..UnitLength(v)];
            GoodUnit(u) || (|u| == 1 && u[0] >= 0x80)
  {
    var n := SequenceLength(v, 0);
  }

  lemma WellFormedCons(u: Bytes, rest: Bytes)
    requires GoodUnit(u)
    ensures WellFormed(u + rest) <==> WellFormed(rest)
  {
    UnitFront(u, rest);
  }

  lemma {:induction false} RepairIsWellFormed(v: Bytes)
    ensures WellFormed(Repair(v))
    decreases |v|
  {
    if v == [] {
    } else {
      RepairIsWellFormed(v[UnitLength(v)..]);
      FrontUnit(v);
      WellFormedCons(RepairUnit(v[..UnitLength(v)]), Repair(v[UnitLength(v)..]));
    }
  }

  lemma {:induction false} WellFormedIsFixed(v: Bytes)
    requires WellFormed(v)
    ensures Repair(v) == v
    decreases |v|
  {
    if v == [] {
    } else {
      WellFormedIsFixed(v[UnitLength(v)..]);
    }
  }

  /** Repair leaves exactly the well-formed strings alone; repairing twice is repairing once. */
  lemma RepairIsIdempotent(v: Bytes)
    ensures Repair(v) == v <==> WellFormed(v)
    ensures Repair(Repair(v)) == Repair(v)
  {
    RepairIsWellFormed(v);
    WellFormedIsFixed(Repair(v));
    if WellFormed(v) {
      WellFormedIsFixed(v);
    }
  }

  lemma {:induction false} RepairKeepsNul(v: Bytes)
    ensures 0 in Repair(v) <==> 0 in v
    decreases |v|
  {
    if v == [] {
    } else {
      var n := UnitLength(v);
      RepairKeepsNul(v[n..]);
      FrontUnit(v);
      assert v == v[..n] + v[n..];
    }
  }
}
