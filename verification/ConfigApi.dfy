/** GET and PUT of the configuration (src/supervisor/api_server.cc): codec and store together. */
module ConfigApi {
  import opened Basics
  import opened ServerConfig
  import opened JsonGrammar
  import opened JsonText
  import opened JsonParser
  import opened ParseExact
  import opened Canonical
  import opened ConfigStore
  import opened StoreProtocol

  datatype Response = Response(status: int, body: Bytes)

  const OK_BODY: Bytes := Ascii("{\"status\":\"ok\"}")

  /** `SetError` with the given message. */
  function ErrorBody(message: Bytes): Bytes {
    [LBRACE] + ([QUOTE] + Ascii("error") + [QUOTE] + [COLON] + ([QUOTE] + Escape(message) + [QUOTE]) + [RBRACE])
  }

  /** Whatever the message, an error body is a JSON object with that message, repaired. */
  lemma ErrorBodyIsJson(message: Bytes)
    ensures exists m: Member ::
              && WfMember(m) && WfDocument(Document([], [m], []))
              && DocumentText(Document([], [m], [])) == ErrorBody(message)
              && ItemsMeaning(m.key) == Ascii("error")
              && m.value.Str? && ItemsMeaning(m.value.items) == Utf8.Repair(message)
  {
    hide Escape, Utf8.Repair, ItemsText, ItemsMeaning, WfItems, EscapeItems;
    var key := Ascii("error");
    var m := Member([], EscapeItems(key), [], [], Str(EscapeItems(message)), []);
    EscapeIsTotalAndSafe(message);
    EscapeIsTotalAndSafe(key);
    PlainLiteral("error");
    PlainIsUnescaped(key);
    Flat(LiteralText(Str(m.key)), LiteralText(m.value));
    var text := MemberText(m);
    assert [m][1..] == [] && MembersText([m]) == text + ([RBRACE] + []);
    assert [] + ([LBRACE] + ((text + ([RBRACE] + [])) + [])) == [LBRACE] + (text + [RBRACE]);
    assert WfMember(m) && WfDocument(Document([], [m], []));
  }

  /** One member of a printed object. */
  function Printed(name: string, v: FieldValue): Bytes {
    [QUOTE] + Ascii(name) + [QUOTE] + [COLON] + ValueText(v)
  }

  function PrintedAs(name: string, v: FieldValue): Member {
    Member([], EscapeItems(Ascii(name)), [], [], PrintedValue(v), [])
  }

  lemma PrintedIsMember(name: string, v: FieldValue)
    requires forall c :: c in name ==> 'a' <= c <= 'z' || c == '_'
    ensures WfMember(PrintedAs(name, v)) && MemberText(PrintedAs(name, v)) == Printed(name, v)
    ensures ItemsMeaning(PrintedAs(name, v).key) == Ascii(name)
    ensures PrintedAs(name, v).value == PrintedValue(v) && Means(PrintedAs(name, v).value, v)
  {
    hide Escape, Utf8.Repair, ItemsText, ItemsMeaning, WfItems, EscapeItems;
    var key := Ascii(name);
    var m := PrintedAs(name, v);
    EscapeIsTotalAndSafe(key);
    PlainLiteral(name);
    PlainIsUnescaped(key);
    PrintedValueMeans(v);
    Flat(LiteralText(Str(m.key)), LiteralText(m.value));
  }

  /** Literal `v` means the repaired `value`, unless that has a NUL. */
  predicate Means(v: Literal, value: FieldValue)
    requires WfLiteral(v)
  {
    LiteralMeaning(v) == if HasNul(value) then None else Some(RepairValue(value))
  }

  /** `HandleStatus`, given the name of the state. */
  function StatusBody(state: Bytes, exitCode: int32, diagnostic: Bytes): Bytes {
    [LBRACE] + Printed("state", String(state)) + [COMMA] + Printed("exit_code", Integer(exitCode)) + [COMMA]
      + Printed("diagnostic", String(diagnostic)) + [RBRACE]
  }

  function StatusMembers(state: Bytes, exitCode: int32, diagnostic: Bytes): seq<Member> {
    [PrintedAs("state", String(state)), PrintedAs("exit_code", Integer(exitCode)),
     PrintedAs("diagnostic", String(diagnostic))]
  }

  /** Whatever the diagnostic, a status body is a JSON object; its members are the state, the exit code and the
      repaired diagnostic, under these names. */
  lemma StatusBodyIsJson(state: Bytes, exitCode: int32, diagnostic: Bytes)
    ensures var d := Document([], StatusMembers(state, exitCode, diagnostic), []);
            WfDocument(d) && DocumentText(d) == StatusBody(state, exitCode, diagnostic)
    ensures var ms := StatusMembers(state, exitCode, diagnostic);
            && |ms| == 3 && WfMembers(ms)
            && ItemsMeaning(ms[0].key) == Ascii("state") && Means(ms[0].value, String(state))
            && ItemsMeaning(ms[1].key) == Ascii("exit_code") && Means(ms[1].value, Integer(exitCode))
            && ItemsMeaning(ms[2].key) == Ascii("diagnostic") && Means(ms[2].value, String(diagnostic))
  {
    hide Printed, PrintedAs, MemberText, WfMember, Ascii, ItemsMeaning, Means;
    PrintedIsMember("state", String(state));
    PrintedIsMember("exit_code", Integer(exitCode));
    PrintedIsMember("diagnostic", String(diagnostic));
    var ms := StatusMembers(state, exitCode, diagnostic);
    var a, b, c := MemberText(ms[0]), MemberText(ms[1]), MemberText(ms[2]);
    assert ms[1..] == [ms[1], ms[2]] && ms[1..][1..] == [ms[2]];
    assert MembersText([ms[2]]) == c + ([RBRACE] + []);
    assert MembersText(ms[1..]) == b + ([COMMA] + (c + ([RBRACE] + [])));
    ThreeMembers(a, b, c);
  }

  lemma ThreeMembers(a: Bytes, b: Bytes, c: Bytes)
    ensures [] + ([LBRACE] + ((a + ([COMMA] + (b + ([COMMA] + (c + ([RBRACE] + [])))))) + []))
         == [LBRACE] + a + [COMMA] + b + [COMMA] + c + [RBRACE]
  {
  }

  /** What the handler of PUT did on connection `i`: nothing and 400, or a save and 200 or 500. */
  ghost predicate PutTrace(own: seq<Action>, i: nat, body: Bytes, response: Response) {
    var config := Parse(body);
    if config.None? || !Valid(config.value) then own == [] && response.status == 400
    else response.status in {200, 500} && SaveTrace(own, i, config.value, response.status == 200)
  }

  /** A 200 of GET carries the print of what the table says. */
  predicate GetAnswers(table: Option<Table>, response: Response) {
    response.status == 200 ==>
      && table.Some?
      && LoadTable(table.value).Some?
      && response.body == ConfigToJson(LoadTable(table.value).value)
  }

  class ConfigHandlers {
    const repository: ConfigRepository

    constructor (repository: ConfigRepository)
      ensures this.repository == repository
    {
      this.repository := repository;
    }

    method HandlePutConfig(body: Bytes, message: Bytes) returns (response: Response, ghost trace: seq<Action>)
      requires repository.db.transaction.None?
      modifies repository.db
      ensures repository.db.transaction.None?
      ensures repository.db.log == old(repository.db.log) + trace
      ensures PutTrace(trace, repository.db.id, body, response)
      ensures response.status == 400 <==> Parse(body).None? || !Valid(Parse(body).value)
      ensures response.status == 500 ==>
                old(repository.db.table).None? || repository.db.faults > old(repository.db.faults)
      ensures response.status == 200 ==>
                SaveEffect(old(repository.db.table), Parse(body).value, true, repository.db.table)
      ensures response.status != 200 ==> repository.db.table == old(repository.db.table)
      ensures response.body == if response.status == 200 then OK_BODY else ErrorBody(message)
    {
      hide Parse, EntriesFrom, WriteAll, ErrorBody, Valid, SaveTrace;
      trace := [];
      var parser := new ConfigJsonParser(body);
      var config := parser.ParseConfig();
      if config.None? || !Valid(config.value) {
        return Response(400, ErrorBody(message)), trace;
      }
      var saved;
      saved, trace := repository.Save(config.value);
      if !saved {
        return Response(500, ErrorBody(message)), trace;
      }
      return Response(200, OK_BODY), trace;
    }

    method HandleGetConfig(message: Bytes) returns (response: Response)
      requires repository.db.transaction.None?
      modifies repository.db`faults
      ensures response.status in {200, 500} && GetAnswers(repository.db.table, response)
      ensures response.status == 500 ==>
                && response.body == ErrorBody(message)
                && (repository.db.table.None? || LoadTable(repository.db.table.value).None?
                    || repository.db.faults > old(repository.db.faults))
    {
      var config := repository.Load();
      if config.None? {
        return Response(500, ErrorBody(message));
      }
      return Response(200, ConfigToJson(config.value));
    }
  }

  // ---- The PUT/GET contract ----

  lemma ParsedIsNulFree(body: Bytes, c: ServerConfig)
    requires Parse(body) == Some(c)
    ensures NulFree(c)
  {
    hide Parse;
    ParsedStringsAreClean(body, c);
  }

  lemma SavedIsStored(t: Table, c: ServerConfig)
    ensures Stores(WriteAll(Overwrite, t, EntriesFrom(c)), c)
  {
    hide TableOf, WriteAll, EntriesFrom;
    SavedTable(t, c);
  }

  /** Whatever table a PUT of `body` is answered on with 200, it leaves one that says exactly what `body` said. */
  lemma PutIsRead(table: Table, body: Bytes, c: ServerConfig)
    requires Parse(body) == Some(c) && Valid(c)
    ensures LoadTable(WriteAll(Overwrite, table, EntriesFrom(c))) == Some(c)
  {
    hide Parse, LoadTable, WriteAll, EntriesFrom, Valid, NulFree, Stores;
    ParsedIsNulFree(body, c);
    SavedIsStored(table, c);
    StoreRoundTrip(WriteAll(Overwrite, table, EntriesFrom(c)), c);
  }

  /** Connection `i` serves a PUT of `body` during `actions`, which begin with its BEGIN and end with its
      COMMIT or ROLLBACK; between them other connections may do anything. A BEGIN IMMEDIATE that succeeds
      means that nobody else is writing, and an upsert that succeeds means that there is a table. */
  ghost predicate PutServed(s: Store, actions: seq<Action>, i: nat, body: Bytes, response: Response) {
    && PutTrace(Own(actions, i), i, body, response)
    && Doing(s, i).Idle?
    && (Own(actions, i) != [] ==>
          actions[0].i == i && actions[|actions| - 1].i == i && s.writer.None? && s.table.Some?)
  }

  /** Read together with `SaveIsAtomic`: the effect of a PUT does not depend on what runs beside it. */
  lemma PutCommits(s: Store, actions: seq<Action>, i: nat, body: Bytes, response: Response)
    requires PutServed(s, actions, i, body, response) && response.status == 200
    ensures Parse(body).Some? && Valid(Parse(body).value)
    ensures var r := ApplyAll(s, actions);
            SaveEffect(s.table, Parse(body).value, true, r.table) && r.saved == Parse(body)
  {
    hide Parse, Valid, WriteAll, EntriesFrom, ApplyAll;
    SaveIsAtomic(s, actions, i, Parse(body).value, true);
  }

  /** The PUT/GET contract, on a database with any table `start` and after any history. If a PUT of `body`
      is answered with 200, then whatever connections do short of another commit, the table says what `body`
      said, and every 200 of GET carries exactly its canonical print. */
  lemma PutThenGet(start: Option<Table>, before: seq<Action>, put: seq<Action>, between: seq<Action>, i: nat,
                   body: Bytes, p: Response, g: Response)
    requires PutServed(StoreProtocol.Run(start, before), put, i, body, p) && p.status == 200
    requires forall k :: 0 <= k < |between| ==> !between[k].CommitSave?
    requires GetAnswers(StoreProtocol.Run(start, before + put + between).table, g)
    ensures Parse(body).Some?
    ensures var table := StoreProtocol.Run(start, before + put + between).table;
            table.Some? && Stores(table.value, Parse(body).value) && LoadTable(table.value) == Parse(body)
    ensures g.status == 200 ==> g.body == ConfigToJson(Parse(body).value)
  {
    hide Parse, ConfigToJson, ApplyAll, Own, LoadTable, Valid, NulFree, Stores, PutServed, WriteAll, EntriesFrom;
    var s := StoreProtocol.Run(start, before);
    PutCommits(s, put, i, body, p);
    ParsedIsNulFree(body, Parse(body).value);
    ApplyBoth(Initial(start), before, put);
    ApplyBoth(Initial(start), before + put, between);
    OnlyCommitsSave(StoreProtocol.Run(start, before + put), between);
    CommittedIsLoaded(start, before + put + between, Parse(body).value);
  }

  lemma SaveAgain(t: Table, c: ServerConfig)
    requires Stores(t, c)
    ensures WriteAll(Overwrite, t, EntriesFrom(c)) == t
  {
    hide TableOf, WriteAll, EntriesFrom;
    SavedTable(t, c);
  }

  /** PUTting back what GET answered is accepted, since the print is no longer than `body` and means the same,
      and leaves the table as it is. */
  lemma PutBack(s: Store, again: seq<Action>, j: nat, body: Bytes, g: Response, q: Response)
    requires Parse(body).Some? && g.body == ConfigToJson(Parse(body).value) && Valid(Parse(body).value)
    requires s.table.Some? && Stores(s.table.value, Parse(body).value)
    requires PutServed(s, again, j, g.body, q)
    ensures |g.body| <= |body| && Parse(g.body) == Parse(body) && q.status in {200, 500}
    ensures q.status == 200 ==> ApplyAll(s, again).table == s.table
  {
    hide Parse, ConfigToJson, ApplyAll, Own, Valid, Stores, WriteAll, EntriesFrom, SaveTrace;
    PrintIsShortest(body, Parse(body).value);
    if q.status == 200 {
      PutCommits(s, again, j, g.body, q);
      SaveAgain(s.table.value, Parse(body).value);
    }
  }
}
