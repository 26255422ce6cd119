/** The JSON texts of a configuration (RFC 8259, sections 2, 4, 6 and 7), as derivations that know
    their text and their meaning. This is the reference the parser and the printer are proved against. */
module JsonGrammar {
  import opened Basics
  import opened Utf8
  import opened Decimal
  import opened ServerConfig

  // ---- Section 7: the characters of a string ----

  /** `HexDigit`: the value of a hexadecimal digit, -1 for any other byte. */
  function HexDigit(b: byte): (d: int)
    ensures -1 <= d < 16
  {
    if 0x30 <= b <= 0x39 then (b - 0x30) as int
    else if 0x61 <= b <= 0x66 then b as int - 0x61 + 10
    else if 0x41 <= b <= 0x46 then b as int - 0x41 + 10
    else -1
  }

  predicate FourHexDigits(h: Bytes) {
    |h| == 4 && forall i :: 0 <= i < 4 ==> HexDigit(h[i]) >= 0
  }

  function HexValue(h: Bytes): nat
    requires FourHexDigits(h)
  {
    ((HexDigit(h[0]) * 16 + HexDigit(h[1])) * 16 + HexDigit(h[2])) * 16 + HexDigit(h[3])
  }

  const LOWER_HEX: Bytes := Ascii("0123456789abcdef")
  const UPPER_HEX: Bytes := Ascii("0123456789ABCDEF")

  lemma HexTables(d: nat)
    requires d < 16
    ensures LOWER_HEX[d] == if d < 10 then 0x30 + d else 0x61 + d - 10
    ensures UPPER_HEX[d] == if d < 10 then 0x30 + d else 0x41 + d - 10
  {
    hide HexDigit;
    if d < 8 {
      assert d in {0, 1, 2, 3, 4, 5, 6, 7};
    } else {
      assert d in {8, 9, 10, 11, 12, 13, 14, 15};
    }
  }

  /** Exactly the sixteen digits, in either case, have their position as value. */
  lemma HexDigitIsPosition(b: byte, d: nat)
    requires d < 16
    ensures HexDigit(b) == d <==> b == LOWER_HEX[d] || b == UPPER_HEX[d]
  {
    hide Ascii;
    HexTables(d);
  }

  datatype Item =
    | Raw(unit: Bytes)               // an unescaped character
    | Short(letter: byte)            // a two-character escape
    | Hex(digits: Bytes)             // \uXXXX
    | Pair(high: Bytes, low: Bytes)  // \uXXXX\uXXXX, a surrogate pair

  /** What the letter of a two-character escape stands for. */
  function ShortMeaning(letter: byte): Option<byte> {
    if letter == QUOTE || letter == BACKSLASH || letter == 0x2F then Some(letter)
    else if letter == 0x62 then Some(0x08)
    else if letter == 0x66 then Some(0x0C)
    else if letter == 0x6E then Some(0x0A)
    else if letter == 0x72 then Some(0x0D)
    else if letter == 0x74 then Some(0x09)
    else None
  }

  /** Section 7 of RFC 8259: the two-character escapes. */
  const SHORT_ESCAPES: map<char, byte> :=
    map['"' := 0x22, '\\' := 0x5C, '/' := 0x2F, 'b' := 0x08, 'f' := 0x0C, 'n' := 0x0A, 'r' := 0x0D, 't' := 0x09]

  lemma ShortEscapesAreListed(letter: byte, meaning: byte)
    ensures ShortMeaning(letter) == Some(meaning) <==>
            (letter as char) in SHORT_ESCAPES && SHORT_ESCAPES[letter as char] == meaning
  {
  }

  predicate WfItem(i: Item) {
    match i
    case Raw(u) => GoodUnit(u) && (|u| == 1 ==> u[0] >= 0x20 && u[0] != QUOTE && u[0] != BACKSLASH)
    case Short(l) => ShortMeaning(l).Some?
    case Hex(h) => FourHexDigits(h) && !High(HexValue(h)) && !Low(HexValue(h))
    case Pair(h, l) => FourHexDigits(h) && FourHexDigits(l) && High(HexValue(h)) && Low(HexValue(l))
  }

  const ESCAPE_U: Bytes := [BACKSLASH, LETTER_U]

  function ItemText(i: Item): Bytes {
    match i
    case Raw(u) => u
    case Short(l) => [BACKSLASH, l]
    case Hex(h) => ESCAPE_U + h
    case Pair(h, l) => (ESCAPE_U + h) + (ESCAPE_U + l)
  }

  function ItemMeaning(i: Item): Bytes
    requires WfItem(i)
  {
    match i
    case Raw(u) => u
    case Short(l) => [ShortMeaning(l).value]
    case Hex(h) => Encode(HexValue(h))
    case Pair(h, l) => Encode(Combine(HexValue(h), HexValue(l)))
  }

  predicate WfItems(items: seq<Item>) {
    forall i :: 0 <= i < |items| ==> WfItem(items[i])
  }

  function ItemsText(items: seq<Item>): Bytes {
    if items == [] then [] else ItemText(items[0]) + ItemsText(items[1..])
  }

  function ItemsMeaning(items: seq<Item>): Bytes
    requires WfItems(items)
  {
    if items == [] then [] else ItemMeaning(items[0]) + ItemsMeaning(items[1..])
  }

  // ---- Section 6 and the values of a configuration object ----

  datatype Literal = Str(items: seq<Item>) | Num(text: Bytes)

  /** An integer without fraction, exponent or leading zero. */
  predicate WfLiteral(v: Literal) {
    match v
    case Str(items) => WfItems(items)
    case Num(text) => Canonical(DigitsPart(text))
  }

  function LiteralText(v: Literal): Bytes {
    match v
    case Str(items) => [QUOTE] + ItemsText(items) + [QUOTE]
    case Num(text) => text
  }

  /** NUL and integers that do not fit an `int` have no meaning here. */
  function LiteralMeaning(v: Literal): Option<FieldValue>
    requires WfLiteral(v)
  {
    match v
    case Str(items) => if 0 in ItemsMeaning(items) then None else Some(String(ItemsMeaning(items)))
    case Num(text) =>
      var n := FromChars(text);
      if n.None? then None else Some(Integer(n.value))
  }

  /** A numeral of the grammar means `n` exactly when it is the literal of `n`, or minus zero; one that does not
      fit an `int` means nothing. */
  lemma NumberMeans(text: Bytes, n: int32)
    requires WfLiteral(Num(text))
    ensures LiteralMeaning(Num(text)) == Some(Integer(n)) <==> IsLiteral(text, n)
  {
    hide FromChars, IntText, Stripped;
    CanonicalIsStripped(text);
    FromCharsExact(text, n);
  }

  // ---- Sections 2 and 4: the object ----

  predicate Whitespace(b: byte) {
    b == 0x20 || b == 0x09 || b == 0x0A || b == 0x0D
  }

  predicate Blank(s: Bytes) {
    forall i :: 0 <= i < |s| ==> Whitespace(s[i])
  }

  datatype Member = Member(
    beforeKey: Bytes, key: seq<Item>, beforeColon: Bytes, beforeValue: Bytes, value: Literal,
    afterValue: Bytes)

  predicate WfMember(m: Member) {
    && Blank(m.beforeKey) && Blank(m.beforeColon) && Blank(m.beforeValue) && Blank(m.afterValue)
    && WfItems(m.key) && WfLiteral(m.value)
  }

  predicate WfMembers(ms: seq<Member>) {
    forall i :: 0 <= i < |ms| ==> WfMember(ms[i])
  }

  function MemberText(m: Member): Bytes {
    m.beforeKey + (LiteralText(Str(m.key)) + (m.beforeColon + ([COLON]
      + (m.beforeValue + (LiteralText(m.value) + m.afterValue)))))
  }

  /** The members, each followed by its comma or, the last one, by the closing brace. */
  function MembersText(ms: seq<Member>): Bytes {
    if ms == [] then []
    else MemberText(ms[0]) + ([if |ms| == 1 then RBRACE else COMMA] + MembersText(ms[1..]))
  }

  datatype Document = Document(before: Bytes, members: seq<Member>, after: Bytes)

  predicate WfDocument(d: Document) {
    Blank(d.before) && Blank(d.after) && d.members != [] && WfMembers(d.members)
  }

  function DocumentText(d: Document): Bytes {
    d.before + ([LBRACE] + (MembersText(d.members) + d.after))
  }

  /** Member `m` gives field `f` the value it has in `c`. */
  predicate Gives(m: Member, f: Field, c: ServerConfig)
    requires WfMember(m)
  {
    ItemsMeaning(m.key) == Name(f) && LiteralMeaning(m.value) == Some(Get(c, f))
  }

  ghost predicate HoldsField(ms: seq<Member>, f: Field, c: ServerConfig)
    requires WfMembers(ms)
  {
    exists i :: 0 <= i < |ms| && Gives(ms[i], f, c)
  }

  /** The document holds each of the thirteen fields once, with the value it has in `c`. */
  ghost predicate Holds(d: Document, c: ServerConfig)
    requires WfDocument(d)
  {
    |d.members| == 13 && forall f: Field :: HoldsField(d.members, f, c)
  }

  // ---- Every meaning is whole characters ----

  lemma ItemMeaningIsUnit(i: Item)
    requires WfItem(i)
    ensures GoodUnit(ItemMeaning(i))
    ensures 0 in ItemMeaning(i) <==> i.Hex? && HexValue(i.digits) == 0
  {
    match i
    case Raw(u) =>
    case Short(l) =>
    case Hex(h) => EncodeThenDecode(HexValue(h));
    case Pair(h, l) =>
      SurrogatesAreBijective(0, HexValue(h), HexValue(l));
      EncodeThenDecode(Combine(HexValue(h), HexValue(l)));
  }

  /** Whatever escapes a string uses, it means well-formed UTF-8. */
  lemma {:induction false} MeaningIsWellFormed(items: seq<Item>)
    requires WfItems(items)
    ensures WellFormed(ItemsMeaning(items))
  {
    if items == [] {
    } else {
      MeaningIsWellFormed(items[1..]);
      ItemMeaningIsUnit(items[0]);
      WellFormedCons(ItemMeaning(items[0]), ItemsMeaning(items[1..]));
    }
  }
}
