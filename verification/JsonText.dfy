/** The canonical printer (`EscapeJsonString`, `ConfigToJson` of src/supervisor/api_server.cc). */
module JsonText {
  import opened Basics
  import opened Utf8
  import opened Decimal
  import opened ServerConfig
  import opened JsonGrammar

  function HexLetter(d: nat): byte
    requires d < 16
  {
    if d < 10 then 0x30 + d else 0x61 + d - 10
  }

  /** The escape of one byte, or of a stray byte of 0x80 and above. */
  function EscapeByte(b: byte): Bytes {
    if b == QUOTE then [BACKSLASH, QUOTE]
    else if b == BACKSLASH then [BACKSLASH, BACKSLASH]
    else if b == 0x08 then [BACKSLASH, 0x62]
    else if b == 0x0C then [BACKSLASH, 0x66]
    else if b == 0x0A then [BACKSLASH, 0x6E]
    else if b == 0x0D then [BACKSLASH, 0x72]
    else if b == 0x09 then [BACKSLASH, 0x74]
    else if b < 0x20 then ESCAPE_U + [0x30, 0x30, HexLetter(b / 16), HexLetter(b % 16)]
    else if b < 0x80 then [b]
    else ESCAPE_U + [0x66, 0x66, 0x66, 0x64]
  }

  function EscapeUnit(u: Bytes): Bytes {
    if |u| == 1 then EscapeByte(u[0]) else u
  }

  function Escape(v: Bytes): Bytes
    decreases |v|
  {
    if v == [] then [] else EscapeUnit(v[..UnitLength(v)]) + Escape(v[UnitLength(v)..])
  }

  method EscapeJsonString(value: Bytes) returns (escaped: Bytes)
    ensures escaped == Escape(value)
  {
    hide Escape, EscapeByte, SequenceLength, MultiByte;
    escaped := [];
    var position := 0;
    while position < |value|
      invariant 0 <= position <= |value|
      invariant escaped + Escape(value[position..]) == Escape(value)
    {
      var ch := value[position];
      var text, length := EscapeByte(ch), 0;
      if ch >= 0x80 {
        length := ValidUtf8SequenceLength(value, position);
        if length > 0 {
          text := value[position..position + length];
        }
      }
      EscapeFront(value, position, length, escaped, text);
      escaped := escaped + text;
      position := position + if length == 0 then 1 else length;
    }
    EscapeNothing(value[|value|..]);
  }

  lemma EscapeNothing(v: Bytes)
    requires v == []
    ensures Escape(v) == []
  {
  }

  /** What the loop appends is the escape of the unit at the front of what is left. */
  lemma EscapeFront(v: Bytes, p: nat, length: nat, done: Bytes, text: Bytes)
    requires p < |v| && length == SequenceLength(v, p)
    requires text == if length == 0 then EscapeByte(v[p]) else v[p..p + length]
    ensures done + Escape(v[p..]) == done + text + Escape(v[p + if length == 0 then 1 else length..])
  {
    hide SequenceLength, MultiByte, EscapeByte, Escape;
    var n := if length == 0 then 1 else length;
    SequenceLengthOfSuffix(v, p);
    SuffixParts(v, p, n);
    EscapeOne(v[p..], n, text);
    Regroup(done, text, Escape(v[p + n..]));
  }

  lemma SuffixParts(v: Bytes, p: nat, n: nat)
    requires p < |v| && p + n <= |v|
    ensures v[p..][0] == v[p] && v[p..][..n] == v[p..p + n] && v[p..][n..] == v[p + n..]
  {
  }

  lemma Regroup(a: Bytes, b: Bytes, c: Bytes)
    ensures a + (b + c) == a + b + c
  {
  }

  lemma EscapeOne(v: Bytes, n: nat, text: Bytes)
    requires v != [] && n == UnitLength(v)
    requires text == if SequenceLength(v, 0) == 0 then EscapeByte(v[0]) else v[..n]
    ensures Escape(v) == text + Escape(v[n..])
  {
    hide EscapeByte;
  }

  lemma SequenceLengthOfSuffix(v: Bytes, p: nat)
    requires p < |v|
    ensures SequenceLength(v[p..], 0) == SequenceLength(v, p)
  {
    hide MultiByte;
    SuffixSlice(v, p, 2);
    SuffixSlice(v, p, 3);
    SuffixSlice(v, p, 4);
  }

  lemma SuffixSlice(v: Bytes, p: nat, n: nat)
    requires p <= |v|
    ensures p + n <= |v| ==> v[p..][0..n] == v[p..p + n]
  {
  }

  lemma EscapeCons(u: Bytes, rest: Bytes)
    requires GoodUnit(u)
    ensures Escape(u + rest) == EscapeUnit(u) + Escape(rest)
  {
    UnitFront(u, rest);
  }

  // ---- Escaping is total and safe ----

  /** The derivation that the escape of one unit has. */
  function UnitItem(u: Bytes): Item
    requires GoodUnit(u) || (|u| == 1 && u[0] >= 0x80)
  {
    if |u| > 1 then Raw(u)
    else if u[0] >= 0x80 then Hex([0x66, 0x66, 0x66, 0x64])
    else if u[0] in {QUOTE, BACKSLASH} then Short(u[0])
    else if u[0] == 0x08 then Short(0x62)
    else if u[0] == 0x0C then Short(0x66)
    else if u[0] == 0x0A then Short(0x6E)
    else if u[0] == 0x0D then Short(0x72)
    else if u[0] == 0x09 then Short(0x74)
    else if u[0] < 0x20 then Hex([0x30, 0x30, HexLetter(u[0] / 16), HexLetter(u[0] % 16)])
    else Raw(u)
  }

  lemma UnitItemIsEscape(u: Bytes)
    requires GoodUnit(u) || (|u| == 1 && u[0] >= 0x80)
    ensures WfItem(UnitItem(u))
    ensures ItemText(UnitItem(u)) == EscapeUnit(u)
    ensures ItemMeaning(UnitItem(u)) == RepairUnit(u)
  {
    if |u| == 1 && u[0] < 0x20 {
      assert UnitItem(u).Hex? ==> HexValue(UnitItem(u).digits) == u[0];
    }
  }

  function EscapeItems(v: Bytes): seq<Item>
    decreases |v|
  {
    if v == [] then []
    else
      FrontUnit(v);
      [UnitItem(v[..UnitLength(v)])] + EscapeItems(v[UnitLength(v)..])
  }

  /** For every byte string the escape is the body of an RFC 8259 string, and it means the repaired
      string: no bare quote, no control byte, no ill-formed UTF-8 survives. */
  lemma {:induction false} EscapeIsTotalAndSafe(v: Bytes)
    ensures WfItems(EscapeItems(v))
    ensures ItemsText(EscapeItems(v)) == Escape(v)
    ensures ItemsMeaning(EscapeItems(v)) == Repair(v)
    decreases |v|
  {
    if v == [] {
    } else {
      FrontUnit(v);
      UnitItemIsEscape(v[..UnitLength(v)]);
      EscapeIsTotalAndSafe(v[UnitLength(v)..]);
      var items := EscapeItems(v);
      assert items[1..] == EscapeItems(v[UnitLength(v)..]);
    }
  }

  lemma {:induction false} PlainIsUnescaped(v: Bytes)
    requires forall i :: 0 <= i < |v| ==> Plain(v[i])
    ensures Escape(v) == v && Repair(v) == v
    decreases |v|
  {
    if v == [] {
    } else {
      EscapeCons(v[..1], v[1..]);
      UnitFront(v[..1], v[1..]);
      assert v == v[..1] + v[1..];
      PlainIsUnescaped(v[1..]);
    }
  }

  // ---- No spelling of a string is shorter than its escape ----

  lemma EscapeUnitIsShortest(i: Item)
    requires WfItem(i)
    ensures |EscapeUnit(ItemMeaning(i))| <= |ItemText(i)|
  {
    ItemMeaningIsUnit(i);
    if i.Pair? {
      SurrogatesAreBijective(0, HexValue(i.high), HexValue(i.low));
    }
  }

  lemma {:induction false} EscapeIsShortest(items: seq<Item>)
    requires WfItems(items)
    ensures |Escape(ItemsMeaning(items))| <= |ItemsText(items)|
  {
    if items == [] {
    } else {
      EscapeUnitIsShortest(items[0]);
      EscapeIsShortest(items[1..]);
      ItemMeaningIsUnit(items[0]);
      EscapeCons(ItemMeaning(items[0]), ItemsMeaning(items[1..]));
    }
  }

  // ---- ConfigToJson ----

  function ValueText(v: FieldValue): Bytes {
    match v
    case String(s) => [QUOTE] + Escape(s) + [QUOTE]
    case Integer(n) => IntText(n)
  }

  function FieldText(c: ServerConfig, f: Field): Bytes {
    [QUOTE] + Name(f) + [QUOTE] + [COLON] + ValueText(Get(c, f))
  }

  function FieldsText(c: ServerConfig, fields: seq<Field>): Bytes {
    if fields == [] then []
    else FieldText(c, fields[0]) + ([if |fields| == 1 then RBRACE else COMMA] + FieldsText(c, fields[1..]))
  }

  function ConfigToJson(c: ServerConfig): Bytes {
    [LBRACE] + FieldsText(c, FIELDS)
  }

  function StringMember(name: string, s: Bytes): Bytes {
    [QUOTE] + Ascii(name) + [QUOTE] + [COLON] + ([QUOTE] + Escape(s) + [QUOTE])
  }

  function IntegerMember(name: string, n: int32): Bytes {
    [QUOTE] + Ascii(name) + [QUOTE] + [COLON] + IntText(n)
  }

  /** Members with a comma after each but the last, and the closing brace. */
  function Joined(members: seq<Bytes>): Bytes {
    if members == [] then []
    else members[0] + ([if |members| == 1 then RBRACE else COMMA] + Joined(members[1..]))
  }

  lemma {:induction false} FieldsAreJoined(c: ServerConfig, fields: seq<Field>, members: seq<Bytes>)
    requires |members| == |fields| && forall i :: 0 <= i < |fields| ==> members[i] == FieldText(c, fields[i])
    ensures FieldsText(c, fields) == Joined(members)
  {
    hide FieldText;
    if fields == [] {
    } else {
      FieldsAreJoined(c, fields[1..], members[1..]);
    }
  }

  /** The print, member by member as the source lists them. */
  lemma PrintIs(c: ServerConfig)
    ensures ConfigToJson(c) ==
            [LBRACE] + Joined([
              StringMember("server_application_name", c.serverApplicationName),
              StringMember("server_product_uri", c.serverProductUri),
              StringMember("server_bind_address", c.serverBindAddress),
              IntegerMember("server_port", c.serverPort),
              StringMember("server_endpoint_path", c.serverEndpointPath),
              StringMember("security_mode", c.securityMode),
              StringMember("security_policy", c.securityPolicy),
              IntegerMember("max_sessions", c.maxSessions),
              IntegerMember("max_subscriptions", c.maxSubscriptions),
              StringMember("logging_level", c.loggingLevel),
              StringMember("logging_target", c.loggingTarget),
              StringMember("address_space_mode", c.addressSpaceMode),
              StringMember("address_space_path", c.addressSpacePath)])
  {
    hide Ascii, IntText, Escape, Joined, FieldsText;
    FieldsAreJoined(c, FIELDS, [
      StringMember("server_application_name", c.serverApplicationName),
      StringMember("server_product_uri", c.serverProductUri),
      StringMember("server_bind_address", c.serverBindAddress),
      IntegerMember("server_port", c.serverPort),
      StringMember("server_endpoint_path", c.serverEndpointPath),
      StringMember("security_mode", c.securityMode),
      StringMember("security_policy", c.securityPolicy),
      IntegerMember("max_sessions", c.maxSessions),
      IntegerMember("max_subscriptions", c.maxSubscriptions),
      StringMember("logging_level", c.loggingLevel),
      StringMember("logging_target", c.loggingTarget),
      StringMember("address_space_mode", c.addressSpaceMode),
      StringMember("address_space_path", c.addressSpacePath)]);
  }

  /** The spelling of each escape: lower-case hex digits for control bytes, the escape of U+FFFD for stray bytes. */
  lemma EscapesAre(b: byte)
    ensures var letter := if b == 0x08 then 'b' else if b == 0x0C then 'f' else if b == 0x0A then 'n'
                          else if b == 0x0D then 'r' else 't';
            b in {0x08, 0x0C, 0x0A, 0x0D, 0x09} ==> Escape([b]) == [BACKSLASH, letter as byte]
    ensures b < 0x20 && b !in {0x08, 0x0C, 0x0A, 0x0D, 0x09} ==>
              Escape([b]) == Ascii("\\u00") + [LOWER_HEX[b / 16], LOWER_HEX[b % 16]]
    ensures b in {QUOTE, BACKSLASH} ==> Escape([b]) == [BACKSLASH, b]
    ensures 0x20 <= b < 0x80 && b !in {QUOTE, BACKSLASH} ==> Escape([b]) == [b]
    ensures b >= 0x80 ==> Escape([b]) == Ascii("\\ufffd")
  {
    hide Escape, Ascii;
    EscapeAlone(b);
    if b < 0x20 {
      ControlEscape(b);
    }
    StrayEscape();
  }

  lemma ControlEscape(b: byte)
    requires b < 0x20
    ensures ESCAPE_U + [0x30, 0x30, HexLetter(b / 16), HexLetter(b % 16)]
            == Ascii("\\u00") + [LOWER_HEX[b / 16], LOWER_HEX[b % 16]]
  {
    HexTables(b / 16);
    HexTables(b % 16);
    var text := Ascii("\\u00");
    assert text == [BACKSLASH, LETTER_U, 0x30, 0x30];
  }

  lemma StrayEscape()
    ensures ESCAPE_U + [0x66, 0x66, 0x66, 0x64] == Ascii("\\ufffd")
  {
  }

  lemma EscapeAlone(b: byte)
    ensures Escape([b]) == EscapeByte(b)
  {
    hide EscapeByte;
    assert [b][..1] == [b] && [b][1..] == [];
    EscapeNothing([]);
  }
}
