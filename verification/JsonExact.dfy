/** The parser accepts exactly the configuration documents of the grammar, with their meaning. */
module JsonExact {
  import opened Basics
  import opened Utf8
  import opened Decimal
  import opened ServerConfig
  import opened JsonGrammar
  import opened JsonParser

  // ---- From a derivation to the parser's answer ----

  lemma {:induction false} BlankExact(t: Bytes, p: nat, blank: Bytes)
    requires At(t, p, blank) && Blank(blank)
    requires p + |blank| < |t| ==> !Whitespace(t[p + |blank|])
    ensures SkipBlank(t, p) == p + |blank|
    decreases |blank|
  {
    if blank == [] {
    } else {
      AtHead(t, p, blank);
      BlankExact(t, p + 1, blank[1..]);
    }
  }

  lemma HexExact(t: Bytes, p: nat, h: Bytes)
    requires At(t, p, h) && FourHexDigits(h)
    ensures HexAt(t, p) == Done(HexValue(h), p + 4)
  {
  }

  lemma PairExact(t: Bytes, p: nat, high: Bytes, low: Bytes)
    requires WfItem(Pair(high, low)) && At(t, p, high + (ESCAPE_U + low))
    ensures UnicodeEscapeAt(t, p) == Done(ItemMeaning(Pair(high, low)), p + 10)
  {
    AtConcat(t, p, high, ESCAPE_U + low);
    AtConcat(t, p + 4, ESCAPE_U, low);
    HexExact(t, p, high);
    HexExact(t, p + 6, low);
  }

  lemma RawExact(t: Bytes, p: nat, u: Bytes)
    requires WfItem(Raw(u)) && At(t, p, u)
    ensures u != [] && p < |t|
    ensures t[p] != QUOTE && CharacterAt(t, p) == Done(u, p + |u|)
  {
    AtHead(t, p, u);
    AtIsSlice(t, p, u);
    if |u| > 1 {
      SequenceLengthIs(t, p, u);
    } else {
      assert u == [t[p]];
    }
  }

  lemma EscapeExact(t: Bytes, p: nat, letter: byte, rest: Bytes)
    requires At(t, p, [BACKSLASH, letter] + rest)
    ensures p + 1 < |t| && t[p] == BACKSLASH && t[p + 1] == letter && At(t, p + 2, rest)
  {
    var text := [BACKSLASH, letter] + rest;
    AtHead(t, p, text);
    AtHead(t, p + 1, text[1..]);
    assert text[1..][1..] == rest;
  }

  lemma ShortExact(t: Bytes, p: nat, letter: byte)
    requires ShortMeaning(letter).Some? && At(t, p, [BACKSLASH, letter])
    ensures p < |t| && t[p] == BACKSLASH
    ensures CharacterAt(t, p) == Done([ShortMeaning(letter).value], p + 2)
  {
    hide At, UnicodeEscapeAt, SequenceLength;
    assert [BACKSLASH, letter] + [] == [BACKSLASH, letter];
    EscapeExact(t, p, letter, []);
  }

  lemma UnitExact(t: Bytes, p: nat, digits: Bytes)
    requires WfItem(Hex(digits)) && At(t, p, ESCAPE_U + digits)
    ensures p < |t| && t[p] == BACKSLASH
    ensures CharacterAt(t, p) ==
            if HexValue(digits) == 0 then Fail else Done(Encode(HexValue(digits)), p + |ItemText(Hex(digits))|)
  {
    hide At, HexValue, Encode, HexAt, SequenceLength;
    EscapeExact(t, p, LETTER_U, digits);
    HexExact(t, p + 2, digits);
  }

  lemma SurrogatesExact(t: Bytes, p: nat, high: Bytes, low: Bytes)
    requires WfItem(Pair(high, low)) && At(t, p, (ESCAPE_U + high) + (ESCAPE_U + low))
    ensures p < |t| && t[p] == BACKSLASH
    ensures CharacterAt(t, p) == Done(ItemMeaning(Pair(high, low)), p + |ItemText(Pair(high, low))|)
  {
    hide At, HexValue, Encode, UnicodeEscapeAt, ItemMeaning, SequenceLength;
    assert (ESCAPE_U + high) + (ESCAPE_U + low) == ESCAPE_U + (high + (ESCAPE_U + low));
    EscapeExact(t, p, LETTER_U, high + (ESCAPE_U + low));
    PairExact(t, p + 2, high, low);
  }

  /** A backslash and any letter but `u`: the table of section 7, and nothing else. */
  lemma ShortEscapeIsRead(t: Bytes, p: nat)
    requires p + 1 < |t| && t[p] == BACKSLASH && t[p + 1] != LETTER_U
    ensures var letter := t[p + 1] as char;
            CharacterAt(t, p) == if letter in SHORT_ESCAPES then Done([SHORT_ESCAPES[letter]], p + 2) else Fail
  {
    hide UnicodeEscapeAt, SequenceLength;
  }

  /** Byte `b` is the digit `d` in either case. */
  predicate Spells(b: byte, d: nat) {
    d < 16 && (b == LOWER_HEX[d] || b == UPPER_HEX[d])
  }

  lemma FourDigits(h: Bytes, a: nat, b: nat, c: nat, d: nat)
    requires |h| == 4 && Spells(h[0], a) && Spells(h[1], b) && Spells(h[2], c) && Spells(h[3], d)
    ensures FourHexDigits(h) && HexValue(h) == a * 4096 + b * 256 + c * 16 + d
  {
    hide HexDigit, Ascii;
    HexDigitIsPosition(h[0], a);
    HexDigitIsPosition(h[1], b);
    HexDigitIsPosition(h[2], c);
    HexDigitIsPosition(h[3], d);
  }

  /** Four hex digits of either case, by their positions. */
  lemma HexEscapeIsRead(t: Bytes, p: nat, a: nat, b: nat, c: nat, d: nat)
    requires p + 4 <= |t|
    requires Spells(t[p], a) && Spells(t[p + 1], b) && Spells(t[p + 2], c) && Spells(t[p + 3], d)
    ensures HexAt(t, p) == Done(a * 4096 + b * 256 + c * 16 + d, p + 4)
  {
    hide Spells, FourHexDigits, HexValue;
    FourDigits(t[p..p + 4], a, b, c, d);
  }

  lemma CharacterExact(t: Bytes, p: nat, i: Item)
    requires WfItem(i) && At(t, p, ItemText(i))
    ensures ItemText(i) != [] && p < |t| && t[p] != QUOTE
    ensures CharacterAt(t, p) ==
            if 0 in ItemMeaning(i) then Fail else Done(ItemMeaning(i), p + |ItemText(i)|)
  {
    hide At, MultiByte, HexValue, Encode, CharacterAt, FourHexDigits, ShortMeaning, Combine;
    ItemMeaningIsUnit(i);
    match i
    case Raw(u) => RawExact(t, p, u);
    case Short(l) => ShortExact(t, p, l);
    case Hex(h) => UnitExact(t, p, h);
    case Pair(h, l) => SurrogatesExact(t, p, h, l);
  }

  lemma {:induction false} BodyExact(t: Bytes, p: nat, items: seq<Item>)
    requires WfItems(items) && At(t, p, ItemsText(items) + [QUOTE])
    ensures BodyAt(t, p) ==
            if 0 in ItemsMeaning(items) then Fail
            else Done(ItemsMeaning(items), p + |ItemsText(items)| + 1)
    decreases |items|
  {
    hide At, CharacterAt, ItemText, ItemMeaning;
    AtConcat(t, p, ItemsText(items), [QUOTE]);
    if items == [] {
      AtHead(t, p, [QUOTE]);
    } else {
      var first, rest := ItemText(items[0]), ItemsText(items[1..]);
      AtConcat(t, p, first, rest);
      AtConcat(t, p + |first|, rest, [QUOTE]);
      CharacterExact(t, p, items[0]);
      BodyExact(t, p + |first|, items[1..]);
    }
  }

  lemma StringExact(t: Bytes, p: nat, items: seq<Item>)
    requires WfItems(items) && At(t, p, LiteralText(Str(items)))
    ensures t[p] == QUOTE
    ensures BodyAt(t, p + 1) ==
            if 0 in ItemsMeaning(items) then Fail
            else Done(ItemsMeaning(items), p + |LiteralText(Str(items))|)
  {
    assert LiteralText(Str(items)) == [QUOTE] + (ItemsText(items) + [QUOTE]);
    AtHead(t, p, LiteralText(Str(items)));
    BodyExact(t, p + 1, items);
  }

  lemma {:induction false} DigitsExact(t: Bytes, p: nat, digits: Bytes)
    requires At(t, p, digits) && AllDigits(digits)
    requires p + |digits| < |t| ==> !Digit(t[p + |digits|])
    ensures SkipDigits(t, p) == p + |digits|
    decreases |digits|
  {
    if digits == [] {
    } else {
      AtHead(t, p, digits);
      DigitsExact(t, p + 1, digits[1..]);
    }
  }

  /** The digits of an integer, which no digit follows. */
  lemma NumeralExact(t: Bytes, p: nat, digits: Bytes)
    requires At(t, p, digits) && Canonical(digits)
    requires p + |digits| < |t| ==> !Digit(t[p + |digits|])
    ensures p < |t| && Digit(t[p])
    ensures if t[p] == 0x30 then |digits| == 1 else SkipDigits(t, p + 1) == p + |digits|
  {
    AtHead(t, p, digits);
    DigitsExact(t, p + 1, digits[1..]);
  }

  lemma IntegerExact(t: Bytes, p: nat, text: Bytes)
    requires At(t, p, text) && Canonical(DigitsPart(text))
    requires p + |text| < |t| ==> !Digit(t[p + |text|])
    ensures IntegerEnd(t, p) == Some(p + |text|)
    ensures p < |t| && (t[p] == MINUS || Digit(t[p]))
  {
    hide At, SkipDigits, Canonical;
    NumeralIsNotEmpty(text);
    AtHead(t, p, text);
    if text[0] == MINUS {
      NumeralExact(t, p + 1, DigitsPart(text));
    } else {
      NumeralExact(t, p, text);
    }
  }

  lemma NumeralIsNotEmpty(text: Bytes)
    requires Canonical(DigitsPart(text))
    ensures text != []
  {
  }

  lemma ConsumeExact(t: Bytes, p: nat, blank: Bytes, found: byte, ch: byte)
    requires Blank(blank) && At(t, p, blank) && p + |blank| < |t| && t[p + |blank|] == found
    requires !Whitespace(found)
    ensures ConsumeAt(t, p, ch) == if ch == found then Some(p + |blank| + 1) else None
  {
    BlankExact(t, p, blank);
  }

  lemma KeyExact(t: Bytes, p: nat, blank: Bytes, items: seq<Item>)
    requires Blank(blank) && WfItems(items)
    requires At(t, p, blank) && At(t, p + |blank|, LiteralText(Str(items)))
    ensures StringAt(t, p) ==
            if 0 in ItemsMeaning(items) then Fail
            else Done(ItemsMeaning(items), p + |blank| + |LiteralText(Str(items))|)
    ensures SkipBlank(t, p) == p + |blank| && t[p + |blank|] == QUOTE
  {
    hide At, ItemsText, ItemsMeaning;
    StringExact(t, p + |blank|, items);
    BlankExact(t, p, blank);
  }

  lemma NumberExact(t: Bytes, p: nat, blank: Bytes, text: Bytes)
    requires Blank(blank) && WfLiteral(Num(text)) && At(t, p, blank) && At(t, p + |blank|, text)
    requires var q := p + |blank| + |text|; q < |t| && !Digit(t[q])
    ensures ValueAt(t, p) ==
            var n := FromChars(text);
            if n.None? then Fail else Done(Integer(n.value), p + |blank| + |text|)
  {
    hide At, FromChars, IntegerEnd, BodyAt, Canonical;
    IntegerExact(t, p + |blank|, text);
    NumberStart(t, p, blank);
    AtIsSlice(t, p + |blank|, text);
  }

  lemma NumberStart(t: Bytes, p: nat, blank: Bytes)
    requires Blank(blank) && At(t, p, blank) && p + |blank| < |t|
    requires t[p + |blank|] == MINUS || Digit(t[p + |blank|])
    ensures SkipBlank(t, p) == p + |blank| && t[p + |blank|] != QUOTE
  {
    BlankExact(t, p, blank);
  }

  /** The value of a member, which whitespace, a comma or a brace follows. */
  lemma ValueExact(t: Bytes, p: nat, blank: Bytes, v: Literal)
    requires Blank(blank) && WfLiteral(v) && At(t, p, blank) && At(t, p + |blank|, LiteralText(v))
    requires var q := p + |blank| + |LiteralText(v)|; q < |t| && !Digit(t[q])
    ensures ValueAt(t, p) ==
            var meaning := LiteralMeaning(v);
            if meaning.None? then Fail else Done(meaning.value, p + |blank| + |LiteralText(v)|)
  {
    hide At, ItemsText, ItemsMeaning, FromChars, BodyAt, IntegerEnd, Canonical, SkipBlank, SkipDigits;
    match v
    case Str(items) =>
      KeyExact(t, p, blank, items);
    case Num(text) =>
      NumberExact(t, p, blank, text);
  }

  /** Where the pieces of a member stand, up to the comma or brace after it. */
  ghost predicate Stands(t: Bytes, p: nat, m: Member, last: byte) {
    && At(t, p, m.beforeKey)
    && var p1 := p + |m.beforeKey|;
    At(t, p1, LiteralText(Str(m.key)))
    && var p2 := p1 + |LiteralText(Str(m.key))|;
    At(t, p2, m.beforeColon)
    && var p3 := p2 + |m.beforeColon|;
    p3 < |t| && t[p3] == COLON && At(t, p3 + 1, m.beforeValue)
    && var p5 := p3 + 1 + |m.beforeValue|;
    At(t, p5, LiteralText(m.value))
    && var p6 := p5 + |LiteralText(m.value)|;
    At(t, p6, m.afterValue)
    && p6 + |m.afterValue| < |t| && t[p6 + |m.afterValue|] == last
  }

  lemma MemberStands(t: Bytes, p: nat, m: Member, last: byte)
    requires At(t, p, MemberText(m) + [last])
    ensures Stands(t, p, m, last)
  {
    hide At, ItemsText, ItemsMeaning;
    var key, value := LiteralText(Str(m.key)), LiteralText(m.value);
    var r5 := value + m.afterValue;
    var r4 := m.beforeValue + r5;
    var r3 := [COLON] + r4;
    var r2 := m.beforeColon + r3;
    var r1 := key + r2;
    var p1 := p + |m.beforeKey|;
    var p2 := p1 + |key|;
    var p3 := p2 + |m.beforeColon|;
    AtConcat(t, p, MemberText(m), [last]);
    AtConcat(t, p, m.beforeKey, r1);
    AtConcat(t, p1, key, r2);
    AtConcat(t, p2, m.beforeColon, r3);
    AtHead(t, p3, r3);
    AtConcat(t, p3 + 1, m.beforeValue, r5);
    AtConcat(t, p3 + 1 + |m.beforeValue|, value, m.afterValue);
    AtHead(t, p + |MemberText(m)|, [last]);
  }

  /** End of the value of a member that starts at `p`. */
  function ValueEnd(p: nat, m: Member): nat {
    p + |m.beforeKey| + |LiteralText(Str(m.key))| + |m.beforeColon| + 1 + |m.beforeValue|
    + |LiteralText(m.value)|
  }

  lemma MemberExact(t: Bytes, p: nat, m: Member, last: byte)
    requires WfMember(m) && Stands(t, p, m, last) && last in {COMMA, RBRACE}
    ensures MemberAt(t, p) ==
            var value := LiteralMeaning(m.value);
            if !IsKnownField(ItemsMeaning(m.key)) || value.None? then Fail
            else Done((ItemsMeaning(m.key), value.value), ValueEnd(p, m))
  {
    hide At, ItemsText, ItemsMeaning, LiteralMeaning, StringAt, ValueAt, ConsumeAt, LiteralText, IsKnownField;
    hide Blank, WfItems, WfLiteral, SkipBlank;
    var p2 := p + |m.beforeKey| + |LiteralText(Str(m.key))|;
    var p4 := p2 + |m.beforeColon| + 1;
    KeyExact(t, p, m.beforeKey, m.key);
    if 0 in ItemsMeaning(m.key) && IsKnownField(ItemsMeaning(m.key)) {
      KnownHasNoNul(ItemsMeaning(m.key));
    }
    ConsumeExact(t, p2, m.beforeColon, COLON, COLON);
    AfterValueNoDigit(t, ValueEnd(p, m), m.afterValue, last);
    ValueExact(t, p4, m.beforeValue, m.value);
  }

  lemma AfterValueNoDigit(t: Bytes, q: nat, blank: Bytes, last: byte)
    requires Blank(blank) && At(t, q, blank) && q + |blank| < |t| && t[q + |blank|] == last && last in {COMMA, RBRACE}
    ensures !Digit(t[q])
  {
    if blank != [] {
      AtHead(t, q, blank);
    }
  }

  lemma KnownHasNoNul(name: Bytes)
    requires IsKnownField(name)
    ensures 0 !in name
  {
    var f: Field :| Name(f) == name;
    NamesArePlain(f);
  }

  /** What the members add up to, unless one of them spoils the document. */
  function Collect(ms: seq<Member>, fields: JsonObject): Option<JsonObject>
    requires WfMembers(ms)
    decreases |ms|
  {
    if ms == [] then Some(fields)
    else
      var key, value := ItemsMeaning(ms[0].key), LiteralMeaning(ms[0].value);
      if !IsKnownField(key) || value.None? || key in fields then None
      else Collect(ms[1..], fields[key := value.value])
  }

  lemma MemberLength(p: nat, m: Member)
    ensures p + |MemberText(m)| == ValueEnd(p, m) + |m.afterValue|
  {
    hide LiteralText;
  }

  lemma MembersPieces(t: Bytes, p: nat, ms: seq<Member>)
    requires ms != [] && At(t, p, MembersText(ms))
    ensures Stands(t, p, ms[0], if |ms| == 1 then RBRACE else COMMA)
    ensures var q := ValueEnd(p, ms[0]) + |ms[0].afterValue| + 1;
            && At(t, q, MembersText(ms[1..]))
            && q + |MembersText(ms[1..])| == p + |MembersText(ms)|
            && (|ms| == 1 ==> q == p + |MembersText(ms)|)
  {
    hide At, Stands, MemberText, ValueEnd;
    var last: byte := if |ms| == 1 then RBRACE else COMMA;
    var first, rest := MemberText(ms[0]), MembersText(ms[1..]);
    assert MembersText(ms) == (first + [last]) + rest;
    AtConcat(t, p, first + [last], rest);
    MemberStands(t, p, ms[0], last);
    MemberLength(p, ms[0]);
  }

  lemma {:induction false} MembersExact(t: Bytes, p: nat, ms: seq<Member>, fields: JsonObject)
    requires ms != [] && WfMembers(ms) && At(t, p, MembersText(ms))
    ensures MembersAt(t, p, fields) ==
            var all := Collect(ms, fields);
            if all.None? then Fail else Done(all.value, p + |MembersText(ms)|)
    decreases |ms|
  {
    hide At, ItemsText, ItemsMeaning, MemberAt, ConsumeAt, MembersText, LiteralText, LiteralMeaning;
    hide IsKnownField, WfLiteral;
    var m := ms[0];
    var last: byte := if |ms| == 1 then RBRACE else COMMA;
    var q := ValueEnd(p, m);
    MembersPieces(t, p, ms);
    MemberExact(t, p, m, last);
    ConsumeExact(t, q, m.afterValue, last, RBRACE);
    ConsumeExact(t, q, m.afterValue, last, COMMA);
    var key, value := ItemsMeaning(m.key), LiteralMeaning(m.value);
    if |ms| > 1 && value.Some? {
      MembersExact(t, q + |m.afterValue| + 1, ms[1..], fields[key := value.value]);
    }
  }

  lemma MembersStart(t: Bytes, p: nat, ms: seq<Member>)
    requires ms != [] && WfMembers(ms) && At(t, p, MembersText(ms))
    ensures ConsumeAt(t, p, RBRACE).None?
  {
    hide At, ItemsText, ItemsMeaning, MembersText, StringAt, LiteralText, LiteralMeaning, ConsumeAt;
    MembersPieces(t, p, ms);
    KeyExact(t, p, ms[0].beforeKey, ms[0].key);
    ConsumeExact(t, p, ms[0].beforeKey, QUOTE, RBRACE);
  }

  lemma DocumentPieces(d: Document)
    ensures var t, p := DocumentText(d), |d.before|;
            At(t, 0, d.before) && p < |t| && t[p] == LBRACE && At(t, p + 1, MembersText(d.members))
            && At(t, p + 1 + |MembersText(d.members)|, d.after)
            && p + 1 + |MembersText(d.members)| + |d.after| == |t|
  {
    hide At, MembersText;
    var t, p := DocumentText(d), |d.before|;
    var rest := MembersText(d.members) + d.after;
    AtWhole(t);
    AtConcat(t, 0, d.before, [LBRACE] + rest);
    AtHead(t, p, [LBRACE] + rest);
    assert ([LBRACE] + rest)[1..] == rest;
    AtConcat(t, p + 1, MembersText(d.members), d.after);
  }

  lemma AtWhole(t: Bytes)
    ensures At(t, 0, t)
  {
    assert t[0..|t|] == t;
  }

  /** The parser's answer on the text of any document of the grammar. */
  lemma ParseDocument(d: Document)
    requires WfDocument(d)
    ensures Parse(DocumentText(d)) ==
            var all := Collect(d.members, map[]);
            if |DocumentText(d)| > MAX_CONFIG_JSON_BYTES || all.None? then None else BuildConfig(all.value)
  {
    hide At, ItemsText, ItemsMeaning, MembersText, MembersAt, DocumentText, Collect, BuildConfig, ConsumeAt;
    var t, p := DocumentText(d), |d.before|;
    DocumentPieces(d);
    ConsumeExact(t, 0, d.before, LBRACE, LBRACE);
    BlankExact(t, p + 1 + |MembersText(d.members)|, d.after);
    MembersStart(t, p + 1, d.members);
    MembersExact(t, p + 1, d.members, map[]);
  }
}
