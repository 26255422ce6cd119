/** The printed configuration is the shortest text with its meaning, and parses back. */
module Canonical {
  import opened Basics
  import opened Utf8
  import opened Decimal
  import opened ServerConfig
  import opened JsonGrammar
  import opened JsonText
  import opened JsonParser
  import opened JsonExact
  import opened ParseExact

  // ---- The document that ConfigToJson prints ----

  function PrintedValue(v: FieldValue): Literal {
    match v
    case String(s) => Str(EscapeItems(s))
    case Integer(n) => Num(IntText(n))
  }

  function PrintedMember(c: ServerConfig, f: Field): Member {
    Member([], EscapeItems(Name(f)), [], [], PrintedValue(Get(c, f)), [])
  }

  function PrintedMembers(c: ServerConfig, fields: seq<Field>): (ms: seq<Member>)
    ensures |ms| == |fields|
    ensures forall i :: 0 <= i < |fields| ==> ms[i] == PrintedMember(c, fields[i])
  {
    seq(|fields|, i requires 0 <= i < |fields| => PrintedMember(c, fields[i]))
  }

  function PrintedDocument(c: ServerConfig): Document {
    Document([], PrintedMembers(c, FIELDS), [])
  }

  function RepairValue(v: FieldValue): FieldValue {
    match v
    case String(s) => String(Repair(s))
    case Integer(n) => v
  }

  lemma PrintedMemberIsField(c: ServerConfig, f: Field)
    ensures var m := PrintedMember(c, f);
            && WfMember(m)
            && MemberText(m) == FieldText(c, f)
            && ItemsMeaning(m.key) == Name(f)
            && LiteralMeaning(m.value) ==
               (if HasNul(Get(c, f)) then None else Some(RepairValue(Get(c, f))))
  {
    hide Name, Escape, Repair, EscapeItems, WfItems, ItemsText, ItemsMeaning, WellFormed;
    var m := PrintedMember(c, f);
    EscapeIsTotalAndSafe(Name(f));
    NamesArePlain(f);
    PlainIsUnescaped(Name(f));
    PrintedValueMeans(Get(c, f));
    assert m.value == PrintedValue(Get(c, f));
    Flat(LiteralText(Str(m.key)), LiteralText(m.value));
    assert LiteralText(Str(m.key)) == [QUOTE] + Name(f) + [QUOTE];
  }

  lemma Flat(key: Bytes, value: Bytes)
    ensures [] + (key + ([] + ([COLON] + ([] + (value + []))))) == key + [COLON] + value
  {
  }

  lemma PrintedValueMeans(v: FieldValue)
    ensures WfLiteral(PrintedValue(v))
    ensures LiteralText(PrintedValue(v)) == ValueText(v)
    ensures LiteralMeaning(PrintedValue(v)) == (if HasNul(v) then None else Some(RepairValue(v)))
  {
    hide Escape, Repair, EscapeItems, WfItems, ItemsText, ItemsMeaning, IntText, FromChars, Canonical;
    match v
    case String(s) =>
      EscapeIsTotalAndSafe(s);
      RepairKeepsNul(s);
    case Integer(n) =>
      FromCharsInvertsIntText(n);
  }

  lemma {:induction false} PrintedMembersText(c: ServerConfig, fields: seq<Field>)
    ensures WfMembers(PrintedMembers(c, fields))
    ensures MembersText(PrintedMembers(c, fields)) == FieldsText(c, fields)
  {
    hide MemberText, FieldText, PrintedMember, WfMember;
    if fields == [] {
    } else {
      PrintedMembersText(c, fields[1..]);
      PrintedMemberIsField(c, fields[0]);
      var ms := PrintedMembers(c, fields);
      assert ms[1..] == PrintedMembers(c, fields[1..]);
    }
  }

  lemma PrintedText(c: ServerConfig)
    ensures WfDocument(PrintedDocument(c)) && DocumentText(PrintedDocument(c)) == ConfigToJson(c)
    ensures |PrintedDocument(c).members| == 13
  {
    hide FieldsText, MembersText, PrintedMembers;
    PrintedMembersText(c, FIELDS);
    AllFieldsListed(ApplicationName);
    var text := MembersText(PrintedMembers(c, FIELDS));
    assert [] + ([LBRACE] + (text + [])) == [LBRACE] + text;
  }

  // ---- Printing, then parsing ----

  /** Strings with U+FFFD for every byte that starts no character. */
  function Repaired(c: ServerConfig): ServerConfig {
    c.(serverApplicationName := Repair(c.serverApplicationName),
       serverProductUri := Repair(c.serverProductUri),
       serverBindAddress := Repair(c.serverBindAddress),
       serverEndpointPath := Repair(c.serverEndpointPath),
       securityMode := Repair(c.securityMode),
       securityPolicy := Repair(c.securityPolicy),
       loggingLevel := Repair(c.loggingLevel),
       loggingTarget := Repair(c.loggingTarget),
       addressSpaceMode := Repair(c.addressSpaceMode),
       addressSpacePath := Repair(c.addressSpacePath))
  }

  lemma RepairedField(c: ServerConfig, f: Field)
    ensures Get(Repaired(c), f) == RepairValue(Get(c, f))
  {
    hide Repair;
  }

  lemma PrintedGives(c: ServerConfig, i: nat, f: Field, d: ServerConfig)
    requires i < 13
    requires WfMembers(PrintedMembers(c, FIELDS))
    ensures Gives(PrintedMembers(c, FIELDS)[i], f, d) <==>
            f == FIELDS[i] && !HasNul(Get(c, f)) && Get(d, f) == RepairValue(Get(c, f))
  {
    hide Name, ItemsMeaning, LiteralMeaning, PrintedMembers, WfMember, PrintedMember, HasNul, RepairValue, Get;
    PrintedMemberIsField(c, FIELDS[i]);
    if Name(f) == Name(FIELDS[i]) {
      NamesDiffer(f, FIELDS[i]);
    }
  }

  lemma PrintedHolds(c: ServerConfig, d: ServerConfig)
    requires WfDocument(PrintedDocument(c))
    ensures Holds(PrintedDocument(c), d) <==> NulFree(c) && d == Repaired(c)
  {
    hide PrintedMembers, Gives, HasNul, Get, RepairValue, WfMember, Repaired;
    PrintedText(c);
    var ms := PrintedMembers(c, FIELDS);
    forall f: Field
      ensures HoldsField(ms, f, d) <==> !HasNul(Get(c, f)) && Get(d, f) == RepairValue(Get(c, f))
    {
      AllFieldsListed(f);
      var i :| 0 <= i < 13 && FIELDS[i] == f;
      PrintedGives(c, i, f, d);
      if HoldsField(ms, f, d) {
        var j :| 0 <= j < |ms| && Gives(ms[j], f, d);
        PrintedGives(c, j, f, d);
      }
    }
    if d == Repaired(c) {
      forall f: Field ensures Get(d, f) == RepairValue(Get(c, f)) {
        RepairedField(c, f);
      }
    }
    if forall f: Field :: Get(d, f) == RepairValue(Get(c, f)) {
      forall f: Field ensures Get(d, f) == Get(Repaired(c), f) {
        assert Get(d, f) == RepairValue(Get(c, f));
        RepairedField(c, f);
      }
      FieldsDetermineConfig(d, Repaired(c));
    }
  }

  /** Printing then parsing: rejected when the print is too long or a string has a NUL, otherwise
      the configuration itself up to the repair of ill-formed UTF-8. */
  lemma PrintThenParse(c: ServerConfig)
    ensures Parse(ConfigToJson(c)) ==
            if |ConfigToJson(c)| <= 65536 && NulFree(c) then Some(Repaired(c)) else None
  {
    hide Parse, ConfigToJson, Holds, PrintedDocument, WfDocument, DocumentText, NulFree, Repaired;
    var d := PrintedDocument(c);
    PrintedText(c);
    PrintedHolds(c, Repaired(c));
    DocumentIsParsed(d, Repaired(c));
    var parsed := Parse(ConfigToJson(c));
    if parsed.Some? {
      PrintedHolds(c, parsed.value);
      DocumentIsParsed(d, parsed.value);
    }
  }

  lemma CleanIsFixed(c: ServerConfig)
    ensures NulFree(c) && Repaired(c) == c <==> CleanStrings(c)
    ensures Repaired(Repaired(c)) == Repaired(c)
  {
    hide Repair, WellFormed;
    forall f: Field
      ensures RepairValue(Get(c, f)) == Get(c, f) <==> (Get(c, f).String? ==> WellFormed(Get(c, f).text))
      ensures RepairValue(RepairValue(Get(c, f))) == RepairValue(Get(c, f))
    {
      if Get(c, f).String? {
        RepairIsIdempotent(Get(c, f).text);
      }
    }
    var r := Repaired(c);
    forall f: Field ensures Get(Repaired(r), f) == Get(r, f) {
      RepairedField(r, f);
      RepairedField(c, f);
    }
    FieldsDetermineConfig(Repaired(r), r);
    if CleanStrings(c) {
      forall f: Field ensures Get(r, f) == Get(c, f) {
        RepairedField(c, f);
      }
      FieldsDetermineConfig(r, c);
    } else if NulFree(c) && r == c {
      forall f: Field | Get(c, f).String? ensures WellFormed(Get(c, f).text) {
        RepairedField(c, f);
      }
    }
  }

  /** The identity holds exactly for clean configurations whose print fits. */
  lemma RoundTrip(c: ServerConfig)
    ensures Parse(ConfigToJson(c)) == Some(c) <==>
            CleanStrings(c) && |ConfigToJson(c)| <= 65536
  {
    hide Parse, ConfigToJson, CleanStrings, Repaired, NulFree;
    PrintThenParse(c);
    CleanIsFixed(c);
  }

  // ---- The canonical print is shortest ----

  function Weight(c: ServerConfig, f: Field): nat {
    |FieldText(c, f)| + 1
  }

  function WeightIn(c: ServerConfig, f: Field, s: set<Field>): nat {
    if f in s then Weight(c, f) else 0
  }

  /** Room that the fields of `s` take in the print, each with its comma or brace. */
  function Total(c: ServerConfig, s: set<Field>): nat {
    WeightIn(c, ApplicationName, s) + WeightIn(c, ProductUri, s) + WeightIn(c, BindAddress, s)
    + WeightIn(c, Port, s) + WeightIn(c, EndpointPath, s) + WeightIn(c, SecurityMode, s)
    + WeightIn(c, SecurityPolicy, s) + WeightIn(c, MaxSessions, s) + WeightIn(c, MaxSubscriptions, s)
    + WeightIn(c, LoggingLevel, s) + WeightIn(c, LoggingTarget, s) + WeightIn(c, AddressSpaceMode, s)
    + WeightIn(c, AddressSpacePath, s)
  }

  lemma AddOne(c: ServerConfig, g: Field, f: Field, s: set<Field>)
    requires f !in s
    ensures WeightIn(c, g, {f} + s) == WeightIn(c, g, s) + if g == f then Weight(c, f) else 0
  {
    hide Weight;
  }

  lemma AddField(c: ServerConfig, f: Field, s: set<Field>)
    requires f !in s
    ensures Total(c, {f} + s) == Weight(c, f) + Total(c, s)
  {
    hide Weight, WeightIn;
    AddOne(c, ApplicationName, f, s);
    AddOne(c, ProductUri, f, s);
    AddOne(c, BindAddress, f, s);
    AddOne(c, Port, f, s);
    AddOne(c, EndpointPath, f, s);
    AddOne(c, SecurityMode, f, s);
    AddOne(c, SecurityPolicy, f, s);
    AddOne(c, MaxSessions, f, s);
    AddOne(c, MaxSubscriptions, f, s);
    AddOne(c, LoggingLevel, f, s);
    AddOne(c, LoggingTarget, f, s);
    AddOne(c, AddressSpaceMode, f, s);
    AddOne(c, AddressSpacePath, f, s);
  }

  predicate Distinct(fields: seq<Field>) {
    forall i, j :: 0 <= i < j < |fields| ==> fields[i] != fields[j]
  }

  function Elements(fields: seq<Field>): set<Field> {
    set i | 0 <= i < |fields| :: fields[i]
  }

  lemma ElementsCons(fields: seq<Field>)
    requires fields != [] && Distinct(fields)
    ensures Elements(fields) == {fields[0]} + Elements(fields[1..])
    ensures fields[0] !in Elements(fields[1..]) && Distinct(fields[1..])
  {
    forall f | f in Elements(fields) ensures f in {fields[0]} + Elements(fields[1..]) {
      var i :| 0 <= i < |fields| && fields[i] == f;
      if i > 0 {
        assert fields[1..][i - 1] == f;
      }
    }
    forall f | f in Elements(fields[1..]) ensures f in Elements(fields) && f != fields[0] {
      var i :| 0 <= i < |fields[1..]| && fields[1..][i] == f;
      assert fields[i + 1] == f;
    }
  }

  lemma {:induction false} PrintedLength(c: ServerConfig, fields: seq<Field>)
    requires Distinct(fields)
    ensures |FieldsText(c, fields)| == Total(c, Elements(fields))
  {
    hide FieldText, Elements, Total;
    if fields == [] {
      NoWeight(c);
    } else {
      ElementsCons(fields);
      PrintedLength(c, fields[1..]);
      AddField(c, fields[0], Elements(fields[1..]));
    }
  }

  lemma NoWeight(c: ServerConfig)
    ensures Total(c, Elements([])) == 0
  {
  }

  lemma ValueIsShortest(v: Literal)
    requires WfLiteral(v) && LiteralMeaning(v).Some?
    ensures |ValueText(LiteralMeaning(v).value)| <= |LiteralText(v)|
  {
    hide Escape, ItemsText, ItemsMeaning, IntText, FromChars;
    match v
    case Str(items) => EscapeIsShortest(items);
    case Num(text) => IntTextIsShortest(text);
  }

  lemma MemberIsShortest(m: Member, f: Field, c: ServerConfig)
    requires WfMember(m) && Gives(m, f, c)
    ensures Weight(c, f) <= |MemberText(m)| + 1
  {
    hide Name, Escape, ItemsText, ItemsMeaning, MemberText, LiteralMeaning, ValueText;
    MemberLength(0, m);
    NamesArePlain(f);
    PlainIsUnescaped(Name(f));
    EscapeIsShortest(m.key);
    ValueIsShortest(m.value);
  }

  lemma {:induction false} MembersAreShortest(ms: seq<Member>, fields: seq<Field>, c: ServerConfig)
    requires WfMembers(ms) && |fields| == |ms| && Distinct(fields)
    requires forall i :: 0 <= i < |ms| ==> Gives(ms[i], fields[i], c)
    ensures Total(c, Elements(fields)) <= |MembersText(ms)|
  {
    hide MemberText, Gives, Weight, Total, Elements, WfMember;
    if ms == [] {
      NoWeight(c);
    } else {
      ElementsCons(fields);
      MembersAreShortest(ms[1..], fields[1..], c);
      AddField(c, fields[0], Elements(fields[1..]));
      MemberIsShortest(ms[0], fields[0], c);
    }
  }

  lemma {:induction false} FieldsOf(ms: seq<Member>, c: ServerConfig, n: nat) returns (fields: seq<Field>)
    requires WfMembers(ms) && |ms| == 13 && n <= 13
    requires forall f: Field :: HoldsField(ms, f, c)
    ensures |fields| == n && forall i :: 0 <= i < n ==> Gives(ms[i], fields[i], c) && Place(ms, c, fields[i]) == i
  {
    hide Gives;
    if n == 0 {
      fields := [];
    } else {
      var front := FieldsOf(ms, c, n - 1);
      var last := OneFieldEach(ms, c, n - 1);
      fields := front + [last];
    }
  }

  lemma EveryField(fields: seq<Field>)
    requires Distinct(fields) && |fields| == 13
    ensures Elements(fields) == Elements(FIELDS)
  {
    forall f: Field ensures f in Elements(FIELDS) {
      AllFieldsListed(f);
    }
    DistinctCount(fields);
    AllFieldsListed(ApplicationName);
    DistinctCount(FIELDS);
    assert |Elements(FIELDS) - Elements(fields)| == |Elements(FIELDS)| - |Elements(fields)|;
    assert Elements(FIELDS) - Elements(fields) == {};
  }

  lemma {:induction false} DistinctCount(fields: seq<Field>)
    requires Distinct(fields)
    ensures |Elements(fields)| == |fields|
  {
    if fields == [] {
    } else {
      ElementsCons(fields);
      DistinctCount(fields[1..]);
    }
  }

  lemma PrintedConfigLength(c: ServerConfig)
    ensures |ConfigToJson(c)| == 1 + Total(c, Elements(FIELDS))
  {
    hide Total, Elements, FieldsText;
    AllFieldsListed(ApplicationName);
    PrintedLength(c, FIELDS);
  }

  lemma PrintIsShortestFor(d: Document, c: ServerConfig)
    requires WfDocument(d) && Holds(d, c)
    ensures |ConfigToJson(c)| <= |DocumentText(d)|
  {
    hide Total, Elements, ConfigToJson, MembersText, Gives, HoldsField, WfMembers;
    var fields := FieldsOf(d.members, c, 13);
    EveryField(fields);
    MembersAreShortest(d.members, fields, c);
    PrintedConfigLength(c);
  }

  /** No text the parser accepts is shorter than the canonical print of its result, so that print is
      itself accepted, with the same result and no condition on its length. */
  lemma PrintIsShortest(t: Bytes, c: ServerConfig)
    requires Parse(t) == Some(c)
    ensures |ConfigToJson(c)| <= |t|
    ensures Parse(ConfigToJson(c)) == Some(c)
  {
    hide Parse, ConfigToJson, CleanStrings, WfDocument, Holds, DocumentText;
    ParseIsExact(t, c);
    var d :| WfDocument(d) && DocumentText(d) == t && Holds(d, c);
    PrintIsShortestFor(d, c);
    ParsedStringsAreClean(t, c);
    RoundTrip(c);
  }
}
