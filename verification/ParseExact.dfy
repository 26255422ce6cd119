/** Acceptance is an equivalence, and the result depends only on what the document says. */
module ParseExact {
  import opened Basics
  import opened Utf8
  import opened ServerConfig
  import opened JsonGrammar
  import opened JsonParser
  import opened JsonExact
  import opened JsonSound

  lemma BuildConfigExact(fields: JsonObject, c: ServerConfig)
    ensures BuildConfig(fields) == Some(c) <==>
            |fields| == 13 && forall f: Field :: Name(f) in fields && fields[Name(f)] == Get(c, f)
  {
    hide Name;
    if |fields| == 13 && HasAllFields(fields) {
      var built := BuildConfig(fields).value;
      forall f: Field ensures fields[Name(f)] == Get(built, f) {
        BuiltField(fields, f);
      }
      if forall f: Field :: fields[Name(f)] == Get(c, f) {
        FieldsDetermineConfig(built, c);
      }
    }
  }

  lemma BuiltField(fields: JsonObject, f: Field)
    requires |fields| == 13 && HasAllFields(fields)
    ensures Get(BuildConfig(fields).value, f) == fields[Name(f)]
  {
    hide Name;
  }

  /** The place of a field in a document that holds it. */
  ghost function Place(ms: seq<Member>, c: ServerConfig, f: Field): (i: nat)
    requires WfMembers(ms) && HoldsField(ms, f, c)
    ensures i < |ms| && Gives(ms[i], f, c)
  {
    var i :| 0 <= i < |ms| && Gives(ms[i], f, c);
    i
  }

  lemma OneFieldEach(ms: seq<Member>, c: ServerConfig, i: nat) returns (f: Field)
    requires WfMembers(ms) && |ms| == 13 && i < 13
    requires forall g: Field :: HoldsField(ms, g, c)
    ensures Gives(ms[i], f, c)
    ensures Place(ms, c, f) == i
  {
    hide Gives, Name;
    var place: Field -> nat := g => if HoldsField(ms, g, c) then Place(ms, c, g) else 0;
    forall g: Field ensures place(g) < 13 {
      assert HoldsField(ms, g, c);
    }
    forall g: Field, h: Field | place(g) == place(h) ensures g == h {
      SameMember(ms[place(g)], g, h, c);
    }
    Pigeonhole(place, i);
    f :| place(f) == i;
  }

  lemma SameMember(m: Member, g: Field, h: Field, c: ServerConfig)
    requires WfMember(m) && Gives(m, g, c) && Gives(m, h, c)
    ensures g == h
  {
    hide Name;
    NamesDiffer(g, h);
  }

  lemma HeldDocumentCollects(ms: seq<Member>, c: ServerConfig)
    requires WfMembers(ms) && |ms| == 13
    requires forall f: Field :: HoldsField(ms, f, c)
    ensures Collect(ms, map[]).Some? && BuildConfig(Collect(ms, map[]).value) == Some(c)
  {
    hide Name, ItemsMeaning, LiteralMeaning, BuildConfig;
    forall i | 0 <= i < 13
      ensures IsKnownField(ItemsMeaning(ms[i].key)) && LiteralMeaning(ms[i].value).Some?
    {
      var f := OneFieldEach(ms, c, i);
    }
    forall i, j | 0 <= i < j < 13 ensures ItemsMeaning(ms[i].key) != ItemsMeaning(ms[j].key) {
      var f := OneFieldEach(ms, c, i);
      var g := OneFieldEach(ms, c, j);
      if Name(f) == Name(g) {
        NamesDiffer(f, g);
      }
    }
    CollectAll(ms, map[]);
    CollectFacts(ms, map[]);
    var all := Collect(ms, map[]).value;
    forall f: Field ensures Name(f) in all && all[Name(f)] == Get(c, f) {
      var i := Place(ms, c, f);
      assert ItemsMeaning(ms[i].key) == Name(f);
    }
    BuildConfigExact(all, c);
  }

  lemma CollectedDocumentHolds(ms: seq<Member>, c: ServerConfig)
    requires WfMembers(ms)
    requires Collect(ms, map[]).Some? && BuildConfig(Collect(ms, map[]).value) == Some(c)
    ensures |ms| == 13 && forall f: Field :: HoldsField(ms, f, c)
  {
    hide Name, ItemsMeaning, LiteralMeaning, BuildConfig;
    var all := Collect(ms, map[]).value;
    CollectFacts(ms, map[]);
    BuildConfigExact(all, c);
    forall f: Field ensures HoldsField(ms, f, c) {
      assert Name(f) in all;
      var i := CollectKeys(ms, map[], Name(f));
      assert Gives(ms[i], f, c);
    }
  }

  /** On the text of a document the parser answers `c` exactly when the document holds `c`. */
  lemma DocumentIsParsed(d: Document, c: ServerConfig)
    requires WfDocument(d)
    ensures Parse(DocumentText(d)) == Some(c) <==> |DocumentText(d)| <= 65536 && Holds(d, c)
  {
    hide BuildConfig, Collect, DocumentText, Parse, HoldsField;
    ParseDocument(d);
    var all := Collect(d.members, map[]);
    if Holds(d, c) {
      HeldDocumentCollects(d.members, c);
    } else if all.Some? && BuildConfig(all.value) == Some(c) {
      CollectedDocumentHolds(d.members, c);
    }
  }

  /** The parser accepts a text with result `c` if and only if the text is at most 65536 bytes long
      and is a document of the grammar that holds each field of `c` once. */
  lemma ParseIsExact(t: Bytes, c: ServerConfig)
    ensures Parse(t) == Some(c) <==>
            && |t| <= 65536
            && exists d :: WfDocument(d) && DocumentText(d) == t && Holds(d, c)
  {
    hide Parse, DocumentText, Holds, WfDocument;
    if Parse(t) == Some(c) {
      var d := DocumentOf(t);
      DocumentIsParsed(d, c);
    }
    if d :| WfDocument(d) && DocumentText(d) == t && Holds(d, c) {
      DocumentIsParsed(d, c);
    }
  }

  /** Field order, whitespace and the choice of escapes do not matter. */
  lemma ResultDependsOnMeaning(d: Document, e: Document, c: ServerConfig)
    requires WfDocument(d) && WfDocument(e) && Holds(d, c) && Holds(e, c)
    requires |DocumentText(d)| <= MAX_CONFIG_JSON_BYTES && |DocumentText(e)| <= MAX_CONFIG_JSON_BYTES
    ensures Parse(DocumentText(d)) == Parse(DocumentText(e)) == Some(c)
  {
    hide Parse, DocumentText, Holds, WfDocument;
    DocumentIsParsed(d, c);
    DocumentIsParsed(e, c);
  }

  /** No string of `c` has a NUL, and each is well-formed UTF-8. */
  ghost predicate CleanStrings(c: ServerConfig) {
    NulFree(c) && forall f: Field :: Get(c, f).String? ==> WellFormed(Get(c, f).text)
  }

  lemma ParsedStringsAreClean(t: Bytes, c: ServerConfig)
    requires Parse(t) == Some(c)
    ensures CleanStrings(c)
  {
    hide Parse, DocumentText, ItemsMeaning, Name;
    ParseIsExact(t, c);
    var d :| WfDocument(d) && DocumentText(d) == t && Holds(d, c);
    forall f: Field | Get(c, f).String?
      ensures !HasNul(Get(c, f)) && WellFormed(Get(c, f).text)
    {
      assert HoldsField(d.members, f, c);
      var i :| 0 <= i < 13 && Gives(d.members[i], f, c);
      MeaningIsWellFormed(d.members[i].value.items);
    }
  }
}
