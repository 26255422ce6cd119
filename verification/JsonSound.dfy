/** Everything the parser accepts is the text of a document of the grammar; with the converse of
    `JsonExact` this makes acceptance an equivalence. */
module JsonSound {
  import opened Basics
  import opened Utf8
  import opened Decimal
  import opened ServerConfig
  import opened JsonGrammar
  import opened JsonParser
  import opened JsonExact

  // ---- From the parser's answer to a derivation ----

  lemma {:induction false} BlankSound(t: Bytes, p: nat)
    requires p <= |t|
    ensures Blank(t[p..SkipBlank(t, p)])
    decreases |t| - p
  {
    if p == |t| || !Whitespace(t[p]) {
    } else {
      BlankSound(t, p + 1);
      SliceHead(t, p, SkipBlank(t, p));
    }
  }

  lemma EscapeText(t: Bytes, p: nat, digits: Bytes)
    requires 2 <= p <= |t| && t[p - 2] == BACKSLASH && t[p - 1] == LETTER_U && At(t, p, digits)
    ensures At(t, p - 2, ESCAPE_U + digits)
  {
    hide At;
    SliceTwo(t, p - 2);
    AtSlice(t, p - 2, p);
    AtConcat(t, p - 2, ESCAPE_U, digits);
  }

  lemma HexSound(t: Bytes, p: nat)
    requires HexAt(t, p).Done?
    ensures var h := t[p..p + 4];
            At(t, p, h) && FourHexDigits(h) && HexAt(t, p) == Done(HexValue(h), p + 4)
  {
    hide HexValue, FourHexDigits;
  }

  lemma PairSound(t: Bytes, p: nat) returns (i: Item)
    requires UnicodeEscapeAt(t, p).Done? && p >= 2 && t[p - 2] == BACKSLASH && t[p - 1] == LETTER_U
    requires High(HexAt(t, p).value)
    ensures WfItem(i) && At(t, p - 2, ItemText(i))
    ensures UnicodeEscapeAt(t, p).next == p - 2 + |ItemText(i)|
  {
    hide HexValue, FourHexDigits, HexAt, Encode, Combine;
    HexSound(t, p);
    HexSound(t, p + 6);
    var high, low := t[p..p + 4], t[p + 6..p + 10];
    i := Pair(high, low);
    AtHead(t, p + 4, ESCAPE_U);
    AtHead(t, p + 5, ESCAPE_U[1..]);
    hide At;
    EscapeText(t, p, high);
    EscapeText(t, p + 6, low);
    AtConcat(t, p - 2, ESCAPE_U + high, ESCAPE_U + low);
  }

  lemma UnicodeEscapeSound(t: Bytes, p: nat) returns (i: Item)
    requires UnicodeEscapeAt(t, p).Done? && p >= 2 && t[p - 2] == BACKSLASH && t[p - 1] == LETTER_U
    ensures WfItem(i) && At(t, p - 2, ItemText(i))
    ensures UnicodeEscapeAt(t, p).next == p - 2 + |ItemText(i)|
  {
    hide HexValue, FourHexDigits, HexAt, Encode, Combine, At;
    if High(HexAt(t, p).value) {
      i := PairSound(t, p);
    } else {
      HexSound(t, p);
      i := Hex(t[p..p + 4]);
      EscapeText(t, p, t[p..p + 4]);
    }
  }

  lemma CharacterSound(t: Bytes, p: nat) returns (i: Item)
    requires p < |t| && t[p] != QUOTE && CharacterAt(t, p).Done?
    ensures WfItem(i) && At(t, p, ItemText(i))
    ensures CharacterAt(t, p).next == p + |ItemText(i)|
  {
    hide UnicodeEscapeAt, ItemMeaning, MultiByte, At, SequenceLength;
    if t[p] != BACKSLASH {
      i := RawSound(t, p);
    } else if t[p + 1] == LETTER_U {
      i := UnicodeEscapeSound(t, p + 2);
    } else {
      i := Short(t[p + 1]);
      SliceTwo(t, p);
      AtSlice(t, p, p + 2);
    }
  }

  lemma RawSound(t: Bytes, p: nat) returns (i: Item)
    requires p < |t| && t[p] != QUOTE && t[p] != BACKSLASH && CharacterAt(t, p).Done?
    ensures WfItem(i) && At(t, p, ItemText(i))
    ensures CharacterAt(t, p).next == p + |ItemText(i)|
  {
    hide MultiByte, At;
    var q := CharacterAt(t, p).next;
    i := Raw(t[p..q]);
    AtSlice(t, p, q);
    SliceHead(t, p, q);
  }

  lemma {:induction false} BodySound(t: Bytes, p: nat) returns (items: seq<Item>)
    requires p <= |t| && BodyAt(t, p).Done?
    ensures WfItems(items) && At(t, p, ItemsText(items) + [QUOTE])
    ensures BodyAt(t, p).next == p + |ItemsText(items)| + 1
    decreases |t| - p
  {
    hide At, CharacterAt, ItemText;
    if t[p] == QUOTE {
      items := [];
      AtOne(t, p);
      assert [t[p]] == ItemsText(items) + [QUOTE];
    } else {
      var first := CharacterSound(t, p);
      var rest := BodySound(t, CharacterAt(t, p).next);
      items := [first] + rest;
      assert items[1..] == rest;
      AtConcat(t, p, ItemText(first), ItemsText(rest) + [QUOTE]);
      assert ItemText(first) + (ItemsText(rest) + [QUOTE]) == ItemsText(items) + [QUOTE];
    }
  }

  lemma Quoted(t: Bytes, p: nat, body: Bytes)
    requires p < |t| && t[p] == QUOTE && At(t, p + 1, body)
    ensures At(t, p, [QUOTE] + body)
  {
    assert t[p..p + 1 + |body|] == [t[p]] + t[p + 1..p + 1 + |body|];
  }

  /** A string whose opening quote is at `p`. */
  lemma StringSound(t: Bytes, p: nat) returns (items: seq<Item>)
    requires p < |t| && t[p] == QUOTE && BodyAt(t, p + 1).Done?
    ensures WfItems(items) && At(t, p, LiteralText(Str(items)))
    ensures BodyAt(t, p + 1).next == p + |LiteralText(Str(items))|
  {
    hide BodyAt, ItemsText, At, WfItem, WfItems;
    items := BodySound(t, p + 1);
    Quoted(t, p, ItemsText(items) + [QUOTE]);
    assert LiteralText(Str(items)) == [QUOTE] + (ItemsText(items) + [QUOTE]);
  }

  lemma IntegerSound(t: Bytes, begin: nat)
    requires begin <= |t| && IntegerEnd(t, begin).Some?
    ensures Canonical(DigitsPart(t[begin..IntegerEnd(t, begin).value]))
  {
    var end := IntegerEnd(t, begin).value;
    SliceHead(t, begin, end);
    if t[begin] == MINUS {
      SliceHead(t, begin + 1, end);
      DigitsAre(t, begin + 1, end);
    } else {
      DigitsAre(t, begin, end);
    }
  }

  /** An integer is read as `n` exactly when the numeral at the cursor is the literal of `n`, or minus zero; one
      that does not fit an `int` is not read. */
  lemma IntegerIsRead(t: Bytes, p: nat, n: int32, q: nat)
    requires p <= |t|
    ensures IntegerAt(t, p) == Done(n, q) <==>
            var begin := SkipBlank(t, p);
            IntegerEnd(t, begin) == Some(q) && IsLiteral(t[begin..q], n)
  {
    hide FromChars, IntegerEnd, Stripped, IntText, SkipBlank;
    var begin := SkipBlank(t, p);
    if IntegerEnd(t, begin).Some? {
      var text := t[begin..IntegerEnd(t, begin).value];
      IntegerSound(t, begin);
      CanonicalIsStripped(text);
      FromCharsExact(text, n);
    }
  }

  /** A first digit, and a run of digits unless the first is a zero. */
  lemma DigitsAre(t: Bytes, p: nat, end: nat)
    requires p < end <= |t| && Digit(t[p]) && AllDigits(t[p + 1..end]) && (t[p] == 0x30 ==> end == p + 1)
    ensures Canonical(t[p..end])
  {
    SliceHead(t, p, end);
  }

  /** A value that starts right at `p`. */
  lemma ValueSound(t: Bytes, p: nat) returns (v: Literal)
    requires p <= |t| && SkipBlank(t, p) == p && ValueAt(t, p).Done?
    ensures WfLiteral(v) && At(t, p, LiteralText(v)) && ValueAt(t, p).next == p + |LiteralText(v)|
  {
    hide BodyAt, IntegerEnd, FromChars;
    if p < |t| && t[p] == QUOTE {
      var items := StringSound(t, p);
      v := Str(items);
    } else {
      IntegerSound(t, p);
      v := Num(t[p..ValueAt(t, p).next]);
      AtSlice(t, p, ValueAt(t, p).next);
    }
  }

  lemma ValueAfterBlank(t: Bytes, p: nat)
    requires p <= |t|
    ensures ValueAt(t, SkipBlank(t, p)) == ValueAt(t, p)
  {
    hide BodyAt, IntegerEnd, FromChars;
    SkipBlankTwice(t, p);
  }

  lemma MemberSound(t: Bytes, p: nat) returns (m: Member)
    requires p <= |t| && MemberAt(t, p).Done?
    ensures WfMember(m) && m.afterValue == []
    ensures At(t, p, MemberText(m)) && MemberAt(t, p).next == p + |MemberText(m)|
  {
    hide BodyAt, ItemsText, ItemsMeaning, ValueAt, LiteralText, WfItems, WfLiteral, At, IsKnownField;
    var p1 := SkipBlank(t, p);
    var p2 := StringAt(t, p).next;
    var p3 := SkipBlank(t, p2);
    var p5 := SkipBlank(t, p3 + 1);
    BlankSound(t, p);
    BlankSound(t, p2);
    BlankSound(t, p3 + 1);
    ValueAfterBlank(t, p3 + 1);
    SkipBlankTwice(t, p3 + 1);
    var key := StringSound(t, p1);
    var value := ValueSound(t, p5);
    m := Member(t[p..p1], key, t[p2..p3], t[p3 + 1..p5], value, []);
    AtSlice(t, p, p1);
    AtSlice(t, p2, p3);
    AtOne(t, p3);
    AtSlice(t, p3 + 1, p5);
    JoinMember(t, p, m, p1, p2, p3, p5);
  }

  lemma JoinMember(t: Bytes, p: nat, m: Member, p1: nat, p2: nat, p3: nat, p5: nat)
    requires m.afterValue == []
    requires At(t, p, m.beforeKey) && p1 == p + |m.beforeKey|
    requires At(t, p1, LiteralText(Str(m.key))) && p2 == p1 + |LiteralText(Str(m.key))|
    requires At(t, p2, m.beforeColon) && p3 == p2 + |m.beforeColon|
    requires At(t, p3, [COLON])
    requires At(t, p3 + 1, m.beforeValue) && p5 == p3 + 1 + |m.beforeValue|
    requires At(t, p5, LiteralText(m.value))
    ensures At(t, p, MemberText(m)) && |MemberText(m)| == p5 - p + |LiteralText(m.value)|
  {
    hide LiteralText, At;
    var key, value := LiteralText(Str(m.key)), LiteralText(m.value);
    assert value + m.afterValue == value;
    var r4 := m.beforeValue + value;
    var r3 := [COLON] + r4;
    var r2 := m.beforeColon + r3;
    AtConcat(t, p3 + 1, m.beforeValue, value);
    AtConcat(t, p3, [COLON], r4);
    AtConcat(t, p2, m.beforeColon, r3);
    AtConcat(t, p1, key, r2);
    AtConcat(t, p, m.beforeKey, key + r2);
  }

  /** The member again, with the whitespace that follows its value. */
  lemma WithBlank(m: Member, blank: Bytes)
    requires m.afterValue == []
    ensures MemberText(m.(afterValue := blank)) == MemberText(m) + blank
  {
    hide LiteralText;
    var key, value := LiteralText(Str(m.key)), LiteralText(m.value);
    assert value + [] == value;
    assert m.beforeKey + (key + (m.beforeColon + ([COLON] + (m.beforeValue + (value + blank)))))
        == m.beforeKey + (key + (m.beforeColon + ([COLON] + (m.beforeValue + value)))) + blank;
  }

  lemma {:induction false} MembersSound(t: Bytes, p: nat, fields: JsonObject) returns (ms: seq<Member>)
    requires p <= |t| && MembersAt(t, p, fields).Done?
    ensures ms != [] && WfMembers(ms) && At(t, p, MembersText(ms))
    ensures MembersAt(t, p, fields).next == p + |MembersText(ms)|
    decreases |t| - p
  {
    hide At, MemberAt, MemberText, WfMember, MembersText;
    var member := MemberAt(t, p);
    var q := SkipBlank(t, member.next);
    var bare := MemberSound(t, p);
    var blank := t[member.next..q];
    var m := bare.(afterValue := blank);
    BlankSound(t, member.next);
    WithBlank(bare, blank);
    AddBlank(bare, blank);
    AtSlice(t, member.next, q);
    AtConcat(t, p, MemberText(bare), blank);
    AtOne(t, q);
    AtConcat(t, p, MemberText(m), [t[q]]);
    if t[q] == RBRACE {
      ms := [m];
      LastMember(m);
    } else {
      var rest := MembersSound(t, q + 1, fields[member.value.0 := member.value.1]);
      ms := [m] + rest;
      FirstMember(m, rest);
      AtConcat(t, p, MemberText(m) + [COMMA], MembersText(rest));
    }
  }

  lemma LastMember(m: Member)
    ensures MembersText([m]) == MemberText(m) + [RBRACE]
  {
    hide MemberText;
    assert [m][1..] == [] && [RBRACE] + MembersText([]) == [RBRACE];
  }

  lemma FirstMember(m: Member, rest: seq<Member>)
    requires rest != []
    ensures MembersText([m] + rest) == MemberText(m) + [COMMA] + MembersText(rest)
  {
    hide MemberText;
    assert ([m] + rest)[1..] == rest;
    assert MemberText(m) + ([COMMA] + MembersText(rest)) == MemberText(m) + [COMMA] + MembersText(rest);
  }

  lemma AddBlank(m: Member, blank: Bytes)
    requires WfMember(m) && Blank(blank)
    ensures WfMember(m.(afterValue := blank))
  {
  }

  /** Whitespace, an opening brace, members, whitespace. */
  predicate Shape(t: Bytes) {
    var p := SkipBlank(t, 0);
    && p < |t| && t[p] == LBRACE
    && MembersAt(t, p + 1, map[]).Done?
    && SkipBlank(t, MembersAt(t, p + 1, map[]).next) == |t|
  }

  lemma AcceptedShape(t: Bytes)
    requires Parse(t).Some?
    ensures Shape(t)
  {
    hide MembersAt;
    assert BuildConfig(map[]).None?;
  }

  /** An accepted text is the text of some document. */
  lemma DocumentOf(t: Bytes) returns (d: Document)
    requires Parse(t).Some?
    ensures WfDocument(d) && DocumentText(d) == t
  {
    hide At, Parse, MembersAt, MembersText, WfMembers, DocumentText, SkipBlank, Blank;
    AcceptedShape(t);
    var p := SkipBlank(t, 0);
    var next := MembersAt(t, p + 1, map[]).next;
    BlankSound(t, 0);
    BlankSound(t, next);
    var ms := MembersSound(t, p + 1, map[]);
    d := Document(t[0..p], ms, t[next..|t|]);
    JoinDocument(t, d, p, next);
  }

  lemma JoinDocument(t: Bytes, d: Document, p: nat, next: nat)
    requires p < next <= |t| && d.before == t[0..p] && t[p] == LBRACE && d.after == t[next..|t|]
    requires At(t, p + 1, MembersText(d.members)) && p + 1 + |MembersText(d.members)| == next
    ensures DocumentText(d) == t
  {
    hide MembersText, At;
    var text := MembersText(d.members);
    AtOne(t, p);
    AtSlice(t, 0, p);
    AtSlice(t, next, |t|);
    AtConcat(t, p + 1, text, d.after);
    AtConcat(t, p, [LBRACE], text + d.after);
    AtConcat(t, 0, d.before, [LBRACE] + (text + d.after));
    AtIsSlice(t, 0, DocumentText(d));
    assert t[0..|t|] == t;
  }

  // ---- What the members add up to ----

  /** Member `m` added its field to `fields` on the way to `all`. */
  predicate Collected(m: Member, fields: JsonObject, all: JsonObject)
    requires WfMember(m)
  {
    var k := ItemsMeaning(m.key);
    k in all && k !in fields && LiteralMeaning(m.value) == Some(all[k])
  }

  lemma {:induction false} CollectFacts(ms: seq<Member>, fields: JsonObject)
    requires WfMembers(ms) && Collect(ms, fields).Some?
    ensures var all := Collect(ms, fields).value;
            && |all| == |fields| + |ms|
            && (forall k :: k in fields ==> k in all && all[k] == fields[k])
            && (forall i :: 0 <= i < |ms| ==> Collected(ms[i], fields, all))
    decreases |ms|
  {
    hide ItemsMeaning, LiteralMeaning, IsKnownField;
    if ms == [] {
    } else {
      var key, value := ItemsMeaning(ms[0].key), LiteralMeaning(ms[0].value).value;
      var extended := fields[key := value];
      CollectFacts(ms[1..], extended);
      var all := Collect(ms, fields).value;
      assert key in extended;
      forall i | 0 <= i < |ms|
        ensures Collected(ms[i], fields, all)
      {
        if i > 0 {
          assert ms[i] == ms[1..][i - 1];
          assert Collected(ms[1..][i - 1], extended, all);
        }
      }
    }
  }

  lemma {:induction false} CollectKeys(ms: seq<Member>, fields: JsonObject, k: Bytes) returns (i: nat)
    requires WfMembers(ms) && Collect(ms, fields).Some?
    requires k in Collect(ms, fields).value && k !in fields
    ensures i < |ms| && ItemsMeaning(ms[i].key) == k
    decreases |ms|
  {
    hide ItemsMeaning, LiteralMeaning, IsKnownField;
    var key := ItemsMeaning(ms[0].key);
    if k == key {
      i := 0;
    } else {
      var j := CollectKeys(ms[1..], fields[key := LiteralMeaning(ms[0].value).value], k);
      i := j + 1;
    }
  }

  lemma {:induction false} CollectAll(ms: seq<Member>, fields: JsonObject)
    requires WfMembers(ms)
    requires forall i :: 0 <= i < |ms| ==>
               IsKnownField(ItemsMeaning(ms[i].key)) && LiteralMeaning(ms[i].value).Some?
    requires forall i :: 0 <= i < |ms| ==> ItemsMeaning(ms[i].key) !in fields
    requires forall i, j :: 0 <= i < j < |ms| ==> ItemsMeaning(ms[i].key) != ItemsMeaning(ms[j].key)
    ensures Collect(ms, fields).Some?
    decreases |ms|
  {
    hide ItemsMeaning, LiteralMeaning, IsKnownField;
    if ms == [] {
    } else {
      var rest := ms[1..];
      var extended := fields[ItemsMeaning(ms[0].key) := LiteralMeaning(ms[0].value).value];
      forall i | 0 <= i < |rest| ensures ItemsMeaning(rest[i].key) !in extended {
        assert rest[i] == ms[i + 1];
      }
      CollectAll(rest, extended);
    }
  }

  /** Thirteen fields on thirteen places, no two fields on one place: every place has a field. */
  lemma Pigeonhole(place: Field -> nat, i: nat)
    requires forall f: Field :: place(f) < 13
    requires forall f: Field, g: Field :: place(f) == place(g) ==> f == g
    requires i < 13
    ensures exists f: Field :: place(f) == i
  {
    hide Upto;
    AllFieldsListed(ApplicationName);
    var taken, all := Places(place, 13), Upto(13);
    PlacesCount(place, 13);
    assert taken <= all;
    assert |all - taken| == |all| - |taken|;
    assert i in all && i !in all - taken;
    assert i in taken;
  }

  ghost function Upto(n: nat): (s: set<nat>)
    ensures |s| == n
    ensures forall i :: i in s <==> 0 <= i < n
  {
    if n == 0 then {} else Upto(n - 1) + {n - 1}
  }

  /** The places of the first `n` fields. */
  ghost function Places(place: Field -> nat, n: nat): set<nat>
    requires n <= |FIELDS|
  {
    set j | 0 <= j < n :: place(FIELDS[j])
  }

  lemma {:induction false} PlacesCount(place: Field -> nat, n: nat)
    requires n <= |FIELDS|
    requires forall f: Field, g: Field :: place(f) == place(g) ==> f == g
    ensures |Places(place, n)| == n
  {
    if n == 0 {
    } else {
      PlacesCount(place, n - 1);
      NewPlace(place, n - 1);
    }
  }

  lemma NewPlace(place: Field -> nat, n: nat)
    requires n < |FIELDS|
    requires forall f: Field, g: Field :: place(f) == place(g) ==> f == g
    ensures Places(place, n + 1) == Places(place, n) + {place(FIELDS[n])}
    ensures place(FIELDS[n]) !in Places(place, n)
  {
    AllFieldsListed(ApplicationName);
  }
}
