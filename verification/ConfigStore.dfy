/** The configuration store of src/config/config_repository.cc over a table of text rows. SQLite is the
    table, its transaction and an adversary that may fail any statement; a rollback takes effect. */
module ConfigStore {
  import opened Basics
  import opened Decimal
  import opened ServerConfig

  type Table = map<Bytes, Bytes>

  datatype Entry = Entry(key: Bytes, value: Bytes)

  /** What a C-string binding keeps of a `std::string`: everything before the first NUL. */
  function CStr(v: Bytes): Bytes {
    if v == [] || v[0] == 0 then [] else [v[0]] + CStr(v[1..])
  }

  lemma {:induction false} CStrKeepsNulFree(v: Bytes)
    ensures CStr(v) == v <==> 0 !in v
  {
    if v == [] {
    } else {
      CStrKeepsNulFree(v[1..]);
      assert v == [v[0]] + v[1..];
    }
  }

  /** What is kept ends right before the first NUL. */
  lemma {:induction false} CStrIsPrefix(v: Bytes)
    ensures CStr(v) <= v && 0 !in CStr(v)
    ensures |CStr(v)| < |v| ==> v[|CStr(v)|] == 0
  {
    if v == [] || v[0] == 0 {
    } else {
      CStrIsPrefix(v[1..]);
    }
  }

  lemma {:induction false} CStrTwice(v: Bytes)
    ensures CStr(CStr(v)) == CStr(v)
  {
    if v == [] || v[0] == 0 {
    } else {
      CStrTwice(v[1..]);
    }
  }

  // ---- Rows ----

  function ValueString(v: FieldValue): Bytes {
    match v
    case String(s) => s
    case Integer(n) => IntText(n)
  }

  /** `ConfigEntriesFrom`, for the fields of `fields`. */
  function EntriesOf(c: ServerConfig, fields: seq<Field>): (es: seq<Entry>)
    ensures |es| == |fields|
    ensures forall i :: 0 <= i < |es| ==> es[i] == Entry(Key(fields[i]), ValueString(Get(c, fields[i])))
  {
    seq(|fields|, i requires 0 <= i < |fields| => Entry(Key(fields[i]), ValueString(Get(c, fields[i]))))
  }

  function EntriesFrom(c: ServerConfig): (es: seq<Entry>)
    ensures |es| == |FIELDS|
  {
    EntriesOf(c, FIELDS)
  }

  /** INSERT OR IGNORE, or INSERT ... ON CONFLICT DO UPDATE. */
  datatype Mode = KeepExisting | Overwrite

  function Write(mode: Mode, t: Table, e: Entry): Table {
    if mode == KeepExisting && e.key in t then t else t[e.key := CStr(e.value)]
  }

  function WriteAll(mode: Mode, t: Table, es: seq<Entry>): Table
    decreases |es|
  {
    if es == [] then t else WriteAll(mode, Write(mode, t, es[0]), es[1..])
  }

  lemma {:induction false} WriteAllSnoc(mode: Mode, t: Table, es: seq<Entry>, e: Entry)
    ensures WriteAll(mode, t, es + [e]) == Write(mode, WriteAll(mode, t, es), e)
    decreases |es|
  {
    if es == [] {
      assert es + [e] == [e];
    } else {
      assert (es + [e])[1..] == es[1..] + [e];
      WriteAllSnoc(mode, Write(mode, t, es[0]), es[1..], e);
    }
  }

  // ---- Reading a configuration back ----

  /** What `Load` reads of the rows: their values as C strings. */
  function Texts(t: Table): Table {
    map k | k in t :: CStr(t[k])
  }

  /** `ReadString` or `ReadInt` of a field, from the texts that were read. */
  function FieldOf(values: Table, f: Field): Option<FieldValue> {
    if Key(f) !in values then None
    else if IsInteger(f) then
      var n := FromChars(values[Key(f)]);
      if n.None? then None else Some(Integer(n.value))
    else Some(String(values[Key(f)]))
  }

  function PopulateConfig(values: Table): Option<ServerConfig> {
    if exists f: Field :: FieldOf(values, f).None? then None
    else Some(FromFields(f => var v := FieldOf(values, f); if v.Some? then v.value else String([])))
  }

  /** The configuration that `Load` finds in a table; rows of other keys do not matter. */
  function LoadTable(t: Table): Option<ServerConfig> {
    var c := PopulateConfig(Texts(t));
    if c.None? || !Valid(c.value) then None else c
  }

  // ---- Statements, effects ----

  /** A statement that succeeded on connection `i`, or the end of what it was doing. */
  datatype Action =
    | CreateTable(i: nat)
    | InsertRow(i: nat)                       // one autocommitted INSERT OR IGNORE
    | BeginSave(i: nat, config: ServerConfig) // BEGIN IMMEDIATE
    | UpsertRow(i: nat)
    | CommitSave(i: nat)
    | Abandon(i: nat)                         // a failure or crash at any point; rolls back

  function Repeat(a: Action, n: nat): seq<Action> {
    seq(n, _ => a)
  }

  /** The statements of a save that wrote `n` rows before it committed or rolled back. */
  function SaveActions(i: nat, config: ServerConfig, n: nat, ok: bool): seq<Action> {
    [BeginSave(i, config)] + Repeat(UpsertRow(i), n) + [if ok then CommitSave(i) else Abandon(i)]
  }

  ghost predicate SaveTrace(trace: seq<Action>, i: nat, config: ServerConfig, ok: bool) {
    if ok then trace == SaveActions(i, config, |FIELDS|, true)
    else trace == [] || exists n: nat :: n <= |FIELDS| && trace == SaveActions(i, config, n, false)
  }

  /** All thirteen rows or none. */
  predicate SaveEffect(before: Option<Table>, config: ServerConfig, ok: bool, after: Option<Table>) {
    if ok then before.Some? && after == Some(WriteAll(Overwrite, before.value, EntriesFrom(config)))
    else after == before
  }

  function InitializeActions(i: nat, n: nat): seq<Action> {
    [CreateTable(i)] + Repeat(InsertRow(i), n)
  }

  function Rows(table: Option<Table>): Table {
    if table.Some? then table.value else map[]
  }

  /** The first `n` defaults are in, where there was no row; what was there is kept. */
  predicate InitializeEffect(before: Option<Table>, n: nat, after: Option<Table>)
    requires n <= |FIELDS|
  {
    after == Some(WriteAll(KeepExisting, Rows(before), EntriesFrom(Default())[..n]))
  }

  /** The thirteen rows as the source lists them. */
  lemma EntriesAre(c: ServerConfig)
    ensures EntriesFrom(c) ==
            [Entry(Ascii("server.application_name"), c.serverApplicationName),
             Entry(Ascii("server.product_uri"), c.serverProductUri),
             Entry(Ascii("server.bind_address"), c.serverBindAddress),
             Entry(Ascii("server.port"), IntText(c.serverPort)),
             Entry(Ascii("server.endpoint_path"), c.serverEndpointPath),
             Entry(Ascii("security.mode"), c.securityMode),
             Entry(Ascii("security.policy"), c.securityPolicy),
             Entry(Ascii("limits.max_sessions"), IntText(c.maxSessions)),
             Entry(Ascii("limits.max_subscriptions"), IntText(c.maxSubscriptions)),
             Entry(Ascii("logging.level"), c.loggingLevel),
             Entry(Ascii("logging.target"), c.loggingTarget),
             Entry(Ascii("address_space.mode"), c.addressSpaceMode),
             Entry(Ascii("address_space.path"), c.addressSpacePath)]
  {
    hide Ascii, IntText;
  }

  /** The rows that an initialised empty database has. */
  lemma DefaultRowsAre()
    ensures EntriesFrom(Default()) ==
            [Entry(Ascii("server.application_name"), Ascii("Open62541 C++ Server")),
             Entry(Ascii("server.product_uri"), Ascii("urn:rakctite:opcua-server-opensource")),
             Entry(Ascii("server.bind_address"), Ascii("0.0.0.0")),
             Entry(Ascii("server.port"), Ascii("4840")),
             Entry(Ascii("server.endpoint_path"), Ascii("/")),
             Entry(Ascii("security.mode"), Ascii("none")),
             Entry(Ascii("security.policy"), Ascii("none")),
             Entry(Ascii("limits.max_sessions"), Ascii("100")),
             Entry(Ascii("limits.max_subscriptions"), Ascii("100")),
             Entry(Ascii("logging.level"), Ascii("info")),
             Entry(Ascii("logging.target"), Ascii("stdout")),
             Entry(Ascii("address_space.mode"), Ascii("builtin")),
             Entry(Ascii("address_space.path"), [])]
  {
    hide Ascii, IntText, EntriesFrom;
    EntriesAre(Default());
    DefaultNumbers();
  }

  lemma DefaultNumbers()
    ensures IntText(4840) == Ascii("4840") && IntText(100) == Ascii("100")
  {
    hide DigitsOf;
    TwoMoreDigits(48, 4, 0);
    TwoMoreDigits(1, 0, 0);
    TwoDigits(4, 8);
    OneDigit(1);
  }

  lemma OneDigit(n: nat)
    requires n < 10
    ensures DigitsOf(n) == [0x30 + n]
  {
  }

  lemma TwoDigits(n: nat, d: nat)
    requires 0 < n < 10 && d < 10
    ensures DigitsOf(n * 10 + d) == [0x30 + n, 0x30 + d]
  {
    OneDigit(n);
  }

  lemma TwoMoreDigits(n: nat, d: nat, e: nat)
    requires 0 < n && d < 10 && e < 10
    ensures DigitsOf(n * 100 + d * 10 + e) == DigitsOf(n) + [0x30 + d, 0x30 + e]
  {
    var m := n * 10 + d;
    assert (m * 10 + e) / 10 == m && (m * 10 + e) % 10 == e && m / 10 == n && m % 10 == d;
    assert DigitsOf(m) == DigitsOf(n) + [0x30 + d];
    assert DigitsOf(m * 10 + e) == DigitsOf(m) + [0x30 + e];
  }

  // ---- The connection and the repository ----

  class Database {
    const id: nat
    var table: Option<Table>        // what is committed; None before CREATE TABLE
    var transaction: Option<Table>  // the working copy of an open transaction
    var faults: nat                 // how often the adversary struck
    ghost var log: seq<Action>      // the statements that succeeded

    constructor (id: nat, table: Option<Table>)
      ensures this.id == id && this.table == table && transaction == None && faults == 0 && log == []
    {
      this.id, this.table, transaction, faults, log := id, table, None, 0, [];
    }

    ghost function Current(): Option<Table>
      reads this
    {
      if transaction.Some? then transaction else table
    }

    /** The action of a written row. */
    ghost function RowAction(): Action
      reads this
    {
      if transaction.Some? then UpsertRow(id) else InsertRow(id)
    }

    method MayFail() returns (fails: bool)
      modifies this`faults
      ensures faults == old(faults) + if fails then 1 else 0
    {
      fails := *;
      if fails {
        faults := faults + 1;
      }
    }

    method CreateIfMissing() returns (ok: bool)
      requires transaction.None?
      modifies this
      ensures transaction == old(transaction)
      ensures table == if ok && old(table).None? then Some(map[]) else old(table)
      ensures faults == old(faults) + if ok then 0 else 1
      ensures log == old(log) + if ok then [CreateTable(id)] else []
    {
      var fails := MayFail();
      if !fails {
        table := Some(if table.Some? then table.value else map[]);
        log := log + [CreateTable(id)];
      }
      return !fails;
    }

    /** The configuration about to be saved only marks the log. */
    method Begin(ghost config: ServerConfig) returns (ok: bool)
      requires transaction.None?
      modifies this
      ensures table == old(table)
      ensures transaction == if ok then Some(if table.Some? then table.value else map[]) else None
      ensures faults == old(faults) + if ok then 0 else 1
      ensures log == old(log) + if ok then [BeginSave(id, config)] else []
    {
      var fails := MayFail();
      if !fails {
        transaction := Some(if table.Some? then table.value else map[]);
        log := log + [BeginSave(id, config)];
      }
      return !fails;
    }

    method Commit() returns (ok: bool)
      requires table.Some? && transaction.Some?
      modifies this
      ensures if ok then table == old(transaction) && transaction == None
              else table == old(table) && transaction == old(transaction)
      ensures faults == old(faults) + if ok then 0 else 1
      ensures log == old(log) + if ok then [CommitSave(id)] else []
    {
      var fails := MayFail();
      if !fails {
        table := transaction;
        transaction := None;
        log := log + [CommitSave(id)];
      }
      return !fails;
    }

    method Rollback()
      modifies this
      ensures transaction == None && table == old(table) && faults == old(faults)
      ensures log == old(log) + [Abandon(id)]
    {
      transaction := None;
      log := log + [Abandon(id)];
    }

    method Prepare() returns (ok: bool)
      modifies this`faults
      ensures ok ==> table.Some? && faults == old(faults)
      ensures !ok ==> table.None? || faults > old(faults)
      ensures faults >= old(faults)
    {
      var fails := MayFail();
      return !fails && table.Some?;
    }

    /** Bind and step one row. */
    method StepRow(mode: Mode, e: Entry) returns (ok: bool)
      requires table.Some?
      modifies this
      ensures table.Some? && (transaction.Some? <==> old(transaction).Some?)
      ensures transaction.Some? ==> table == old(table)
      ensures Current() == if ok then Some(Write(mode, old(Current()).value, e)) else old(Current())
      ensures faults == old(faults) + if ok then 0 else 1
      ensures log == old(log) + if ok then [old(RowAction())] else []
    {
      var fails := MayFail();
      if !fails {
        log := log + [RowAction()];
        if transaction.Some? {
          transaction := Some(Write(mode, transaction.value, e));
        } else {
          table := Some(Write(mode, table.value, e));
        }
      }
      return !fails;
    }
  }

  class ConfigRepository {
    const db: Database

    constructor (db: Database)
      ensures this.db == db
    {
      this.db := db;
    }

    /** Writes rows one by one until the end or a failure; `written` of them are in. */
    method WriteEntries(entries: seq<Entry>, mode: Mode) returns (ok: bool, ghost written: nat)
      modifies db
      ensures written <= |entries| && (ok ==> written == |entries| && db.faults == old(db.faults))
      ensures !ok ==> old(db.table).None? || db.faults > old(db.faults)
      ensures db.transaction.Some? <==> old(db.transaction).Some?
      ensures db.transaction.Some? ==> db.table == old(db.table)
      ensures old(db.table).None? ==> !ok && written == 0 && db.Current() == old(db.Current())
      ensures old(db.table).Some? ==>
                db.table.Some?
                && db.Current() == Some(WriteAll(mode, old(db.Current()).value, entries[..written]))
      ensures db.log == old(db.log) + Repeat(old(db.RowAction()), written)
    {
      hide Write;
      written := 0;
      ok := db.Prepare();
      if !ok {
        return;
      }
      for i := 0 to |entries|
        invariant written == i && db.table.Some? && db.faults == old(db.faults)
        invariant db.transaction.Some? <==> old(db.transaction).Some?
        invariant db.transaction.Some? ==> db.table == old(db.table)
        invariant db.Current() == Some(WriteAll(mode, old(db.Current()).value, entries[..i]))
        invariant db.log == old(db.log) + Repeat(old(db.RowAction()), i)
      {
        ok := db.StepRow(mode, entries[i]);
        if !ok {
          return;
        }
        WriteAllSnoc(mode, old(db.Current()).value, entries[..i], entries[i]);
        assert entries[..i + 1] == entries[..i] + [entries[i]];
        assert Repeat(old(db.RowAction()), i + 1) == Repeat(old(db.RowAction()), i) + [old(db.RowAction())];
        written := i + 1;
      }
      assert entries[..|entries|] == entries;
    }

    /** Every row written by a failed run is kept: the inserts autocommit. */
    method Initialize() returns (ok: bool, ghost written: nat, ghost trace: seq<Action>)
      requires db.transaction.None?
      modifies db
      ensures db.transaction.None? && written <= |FIELDS|
      ensures ok ==> written == |FIELDS| && trace != []
      ensures !ok ==> db.faults > old(db.faults)
      ensures db.log == old(db.log) + trace
      ensures if trace == [] then db.table == old(db.table)
              else trace == InitializeActions(db.id, written) && InitializeEffect(old(db.table), written, db.table)
    {
      hide WriteAll, EntriesFrom, Default;
      written, trace := 0, [];
      ok := db.CreateIfMissing();
      if ok {
        ok, written := WriteEntries(EntriesFrom(Default()), KeepExisting);
        trace := InitializeActions(db.id, written);
      }
    }

    method Save(config: ServerConfig) returns (ok: bool, ghost trace: seq<Action>)
      requires db.transaction.None?
      modifies db
      ensures db.transaction.None?
      ensures ok ==> Valid(config)
      ensures !ok ==> !Valid(config) || old(db.table).None? || db.faults > old(db.faults)
      ensures SaveEffect(old(db.table), config, ok, db.table)
      ensures db.log == old(db.log) + trace && SaveTrace(trace, db.id, config, ok)
    {
      hide WriteAll, Valid;
      trace := [];
      if !Valid(config) {
        return false, trace;
      }
      ok := db.Begin(config);
      if !ok {
        return;
      }
      var entries := EntriesFrom(config);
      ghost var written;
      ok, written := WriteEntries(entries, Overwrite);
      if !ok {
        db.Rollback();
        trace := SaveActions(db.id, config, written, false);
        return;
      }
      assert entries[..written] == entries;
      ok := db.Commit();
      if !ok {
        db.Rollback();
      }
      trace := SaveActions(db.id, config, written, ok);
    }

    /** The rows come in any order, and reading any of them may fail. */
    method Load() returns (config: Option<ServerConfig>)
      requires db.transaction.None?
      modifies db`faults
      ensures config.Some? ==> db.table.Some? && config == LoadTable(db.table.value)
      ensures config.None? ==>
                db.table.None? || LoadTable(db.table.value).None? || db.faults > old(db.faults)
    {
      hide PopulateConfig, Valid, CStr;
      var prepared := db.Prepare();
      if !prepared {
        return None;
      }
      var rows := db.table.value;
      var left := rows.Keys;
      var values: Table := map[];
      while left != {}
        invariant left <= rows.Keys && values.Keys == rows.Keys - left && db.faults == old(db.faults)
        invariant forall k :: k in values ==> values[k] == CStr(rows[k])
        decreases |left|
      {
        var fails := db.MayFail();
        if fails {
          return None;
        }
        var key :| key in left;
        values := values[key := CStr(rows[key])];
        left := left - {key};
      }
      assert values == Texts(rows);
      config := PopulateConfig(values);
      if config.Some? && !Valid(config.value) {
        config := None;
      }
    }
  }

  // ---- What the table of a saved configuration is ----

  predicate IsKey(k: Bytes) {
    exists f: Field :: Key(f) == k
  }

  function FieldWithKey(k: Bytes): (f: Field)
    requires IsKey(k)
    ensures Key(f) == k
  {
    KeysAreInjective();
    var f: Field :| Key(f) == k;
    f
  }

  const KEYS: set<Bytes> := set f: Field {:trigger Key(f)} | true :: Key(f)

  /** One row for every field. */
  function TableOf(c: ServerConfig): Table {
    map k | k in KEYS && IsKey(k) :: CStr(ValueString(Get(c, FieldWithKey(k))))
  }

  lemma KeysAreInjective()
    ensures forall f: Field, g: Field :: Key(f) == Key(g) ==> f == g
  {
    hide Key;
    forall f: Field, g: Field | Key(f) == Key(g) ensures f == g {
      KeysDiffer(f, g);
    }
  }

  lemma TableRow(c: ServerConfig, f: Field)
    ensures Key(f) in TableOf(c) && TableOf(c)[Key(f)] == CStr(ValueString(Get(c, f)))
  {
    hide Key, CStr, ValueString, Get;
    assert IsKey(Key(f));
    KeysAreInjective();
  }

  lemma OnlyFieldRows(c: ServerConfig, k: Bytes)
    requires k in TableOf(c)
    ensures IsKey(k)
  {
    hide Key;
  }

  /** The rows of `es`, the last of each key. */
  function LastRows(es: seq<Entry>): Table {
    if es == [] then map[] else map[es[0].key := CStr(es[0].value)] + LastRows(es[1..])
  }

  /** The upsert is a merge in which the written rows win. */
  lemma {:induction false} UpsertRows(t: Table, es: seq<Entry>)
    ensures WriteAll(Overwrite, t, es) == t + LastRows(es)
    decreases |es|
  {
    hide CStr;
    if es == [] {
      assert t + map[] == t;
    } else {
      var first := map[es[0].key := CStr(es[0].value)];
      assert Write(Overwrite, t, es[0]) == t + first;
      assert t + (first + LastRows(es[1..])) == (t + first) + LastRows(es[1..]);
      UpsertRows(Write(Overwrite, t, es[0]), es[1..]);
    }
  }

  lemma {:induction false} LastRowsOf(c: ServerConfig, fields: seq<Field>, k: Bytes)
    ensures k in LastRows(EntriesOf(c, fields)) <==> exists f: Field :: f in fields && Key(f) == k
    ensures k in LastRows(EntriesOf(c, fields)) ==>
              k in TableOf(c) && LastRows(EntriesOf(c, fields))[k] == TableOf(c)[k]
    decreases |fields|
  {
    hide Key, TableOf, CStr, ValueString;
    if fields == [] {
    } else {
      LastRowsOf(c, fields[1..], k);
      TableRow(c, fields[0]);
      assert EntriesOf(c, fields)[1..] == EntriesOf(c, fields[1..]);
      forall f | f in fields ensures f == fields[0] || f in fields[1..] {
      }
    }
  }

  lemma EveryFieldHasARow(c: ServerConfig, k: Bytes)
    ensures k in TableOf(c) <==> exists f: Field :: f in FIELDS && Key(f) == k
  {
    hide Key, CStr, ValueString;
    if k in TableOf(c) {
      OnlyFieldRows(c, k);
      AllFieldsListed(FieldWithKey(k));
    }
    if f: Field :| f in FIELDS && Key(f) == k {
      TableRow(c, f);
    }
  }

  /** On any table a save sets exactly the thirteen rows of its configuration and touches no other. */
  lemma SavedTable(t: Table, c: ServerConfig)
    ensures WriteAll(Overwrite, t, EntriesFrom(c)) == t + TableOf(c)
  {
    hide Key, CStr, WriteAll, TableOf, LastRows;
    var last := LastRows(EntriesFrom(c));
    UpsertRows(t, EntriesFrom(c));
    forall k ensures k in last <==> k in TableOf(c)
             ensures k in last ==> last[k] == TableOf(c)[k] {
      LastRowsOf(c, FIELDS, k);
      EveryFieldHasARow(c, k);
    }
    assert last == TableOf(c);
  }

  /** The table has the rows of `c`, and any others. */
  predicate Stores(t: Table, c: ServerConfig) {
    forall k :: k in TableOf(c) ==> k in t && t[k] == TableOf(c)[k]
  }

  /** The configuration whose strings stop at their first NUL. */
  function Truncated(c: ServerConfig): ServerConfig {
    c.(serverApplicationName := CStr(c.serverApplicationName),
       serverProductUri := CStr(c.serverProductUri),
       serverBindAddress := CStr(c.serverBindAddress),
       serverEndpointPath := CStr(c.serverEndpointPath),
       securityMode := CStr(c.securityMode),
       securityPolicy := CStr(c.securityPolicy),
       loggingLevel := CStr(c.loggingLevel),
       loggingTarget := CStr(c.loggingTarget),
       addressSpaceMode := CStr(c.addressSpaceMode),
       addressSpacePath := CStr(c.addressSpacePath))
  }

  lemma TruncatedField(c: ServerConfig, f: Field)
    ensures Get(Truncated(c), f) == match Get(c, f)
                                    case String(s) => String(CStr(s))
                                    case Integer(n) => Integer(n)
  {
    hide CStr;
  }

  lemma TruncatedIsSame(c: ServerConfig)
    ensures Truncated(c) == c <==> NulFree(c)
  {
    hide CStr, Truncated;
    forall f: Field ensures Get(Truncated(c), f) == Get(c, f) <==> !HasNul(Get(c, f)) {
      TruncatedField(c, f);
      if Get(c, f).String? {
        CStrKeepsNulFree(Get(c, f).text);
      }
    }
    if NulFree(c) {
      FieldsDetermineConfig(Truncated(c), c);
    }
  }

  lemma {:induction false} IntTextIsNulFree(n: int32)
    ensures CStr(IntText(n)) == IntText(n)
  {
    hide CStr, IntText;
    FromCharsInvertsIntText(n);
    CStrKeepsNulFree(IntText(n));
    forall i | 0 <= i < |IntText(n)| ensures IntText(n)[i] != 0 {
      var digits := DigitsPart(IntText(n));
      if IntText(n)[0] != MINUS {
        assert Digit(digits[i]);
      } else if i > 0 {
        assert Digit(digits[i - 1]);
      }
    }
  }

  lemma RowReadsBack(t: Table, c: ServerConfig, f: Field)
    requires Stores(t, c)
    ensures FieldOf(Texts(t), f) == Some(Get(Truncated(c), f))
  {
    hide Key, TableOf, CStr, IntText, FromChars, Truncated;
    TableRow(c, f);
    TruncatedField(c, f);
    CStrTwice(ValueString(Get(c, f)));
    if Get(c, f).Integer? {
      IntTextIsNulFree(Get(c, f).number);
      FromCharsInvertsIntText(Get(c, f).number);
    }
  }

  lemma PopulatedField(values: Table, f: Field)
    requires PopulateConfig(values).Some?
    ensures FieldOf(values, f) == Some(Get(PopulateConfig(values).value, f))
  {
    hide Key, FromChars;
  }

  /** The row of `f` is there and reads as the value it has in `c`. */
  predicate RowSays(t: Table, f: Field, c: ServerConfig) {
    && Key(f) in t
    && var text := CStr(t[Key(f)]);
       match Get(c, f)
       case String(s) => text == s
       case Integer(n) => IsLiteral(Stripped(text), n)
  }

  lemma FieldSays(t: Table, f: Field, c: ServerConfig)
    ensures FieldOf(Texts(t), f) == Some(Get(c, f)) <==> RowSays(t, f, c)
  {
    hide Key, CStr, FromChars, Stripped, IntText;
    if Key(f) in t && IsInteger(f) {
      FromCharsExact(CStr(t[Key(f)]), Get(c, f).number);
    }
  }

  /** A table is loaded as `c` if and only if `c` is valid and each of the thirteen rows is there and reads as the
      value it has in `c`. A missing row, or one that is to be an integer and is not the text of an `int`, fails
      the load. */
  lemma LoadTableExact(t: Table, c: ServerConfig)
    ensures LoadTable(t) == Some(c) <==> Valid(c) && forall f: Field :: RowSays(t, f, c)
  {
    hide Key, FieldOf, Valid, Texts, RowSays, Get;
    forall f: Field ensures FieldOf(Texts(t), f) == Some(Get(c, f)) <==> RowSays(t, f, c) {
      FieldSays(t, f, c);
    }
    var p := PopulateConfig(Texts(t));
    if p.Some? {
      forall f: Field ensures FieldOf(Texts(t), f) == Some(Get(p.value, f)) {
        PopulatedField(Texts(t), f);
      }
      if forall f: Field :: RowSays(t, f, c) {
        forall f: Field ensures Get(p.value, f) == Get(c, f) {
          assert RowSays(t, f, c);
        }
        FieldsDetermineConfig(p.value, c);
      }
    } else {
      var f: Field :| FieldOf(Texts(t), f).None?;
      assert !RowSays(t, f, c);
    }
  }

  /** What a table says depends only on the rows of the thirteen fields. */
  lemma FieldsDecide(t: Table, u: Table)
    requires forall f: Field :: FieldOf(Texts(t), f) == FieldOf(Texts(u), f)
    ensures LoadTable(t) == LoadTable(u)
  {
    hide FieldOf, Valid, Texts;
    var p, q := PopulateConfig(Texts(t)), PopulateConfig(Texts(u));
    if p.Some? && q.Some? {
      forall f: Field ensures Get(p.value, f) == Get(q.value, f) {
        PopulatedField(Texts(t), f);
        PopulatedField(Texts(u), f);
      }
      FieldsDetermineConfig(p.value, q.value);
    } else {
      assert forall f: Field :: FieldOf(Texts(t), f).None? <==> FieldOf(Texts(u), f).None?;
    }
  }

  /** Loading what was saved, among any other rows, gives the saved configuration, cut at NULs, if that is
      still valid. */
  lemma LoadAfterSave(t: Table, c: ServerConfig)
    requires Stores(t, c)
    ensures LoadTable(t) == if Valid(Truncated(c)) then Some(Truncated(c)) else None
  {
    hide Stores, FieldOf, Truncated, Valid, Texts;
    forall f: Field ensures FieldOf(Texts(t), f) == Some(Get(Truncated(c), f)) {
      RowReadsBack(t, c, f);
    }
    var p := PopulateConfig(Texts(t));
    if p.Some? {
      forall f: Field ensures Get(p.value, f) == Get(Truncated(c), f) {
        PopulatedField(Texts(t), f);
      }
      FieldsDetermineConfig(p.value, Truncated(c));
    }
  }

  /** Among any other rows, exactly the NUL-free valid configurations survive the store unchanged. */
  lemma StoreRoundTrip(t: Table, c: ServerConfig)
    requires Stores(t, c) && Valid(c)
    ensures LoadTable(t) == Some(c) <==> NulFree(c)
  {
    hide Stores, LoadTable, Truncated, Valid, NulFree;
    LoadAfterSave(t, c);
    TruncatedIsSame(c);
  }

  // ---- Initialize heals itself ----

  /** The rows of `es`, the first of each key. */
  function FirstRows(es: seq<Entry>): Table {
    if es == [] then map[] else FirstRows(es[1..])[es[0].key := CStr(es[0].value)]
  }

  lemma {:induction false} KeepExistingMerges(t: Table, es: seq<Entry>)
    ensures WriteAll(KeepExisting, t, es) == FirstRows(es) + t
    decreases |es|
  {
    hide CStr;
    if es == [] {
    } else {
      KeepExistingMerges(Write(KeepExisting, t, es[0]), es[1..]);
    }
  }

  lemma {:induction false} PrefixRows(es: seq<Entry>, n: nat)
    requires n <= |es|
    ensures FirstRows(es) + FirstRows(es[..n]) == FirstRows(es)
    decreases |es|
  {
    hide CStr;
    if n == 0 {
    } else {
      PrefixRows(es[1..], n - 1);
      assert es[..n][1..] == es[1..][..n - 1];
      var rest, part := FirstRows(es[1..]), FirstRows(es[1..][..n - 1]);
      forall k | k in part ensures k in rest && rest[k] == part[k] {
        assert (rest + part)[k] == part[k];
      }
    }
  }

  /** Runs of `Initialize` that stopped after the given numbers of rows. */
  function PartialRuns(t: Table, es: seq<Entry>, stops: seq<nat>): Table
    requires forall i :: 0 <= i < |stops| ==> stops[i] <= |es|
    decreases |stops|
  {
    if stops == [] then t
    else PartialRuns(WriteAll(KeepExisting, t, es[..stops[0]]), es, stops[1..])
  }

  lemma {:induction false} SelfHealing(t: Table, es: seq<Entry>, stops: seq<nat>)
    requires forall i :: 0 <= i < |stops| ==> stops[i] <= |es|
    ensures WriteAll(KeepExisting, PartialRuns(t, es, stops), es) == WriteAll(KeepExisting, t, es)
    decreases |stops|
  {
    hide WriteAll, FirstRows;
    if stops == [] {
    } else {
      var part := es[..stops[0]];
      var next := WriteAll(KeepExisting, t, part);
      SelfHealing(next, es, stops[1..]);
      KeepExistingMerges(t, part);
      KeepExistingMerges(next, es);
      KeepExistingMerges(t, es);
      PrefixRows(es, stops[0]);
      assert FirstRows(es) + (FirstRows(part) + t) == (FirstRows(es) + FirstRows(part)) + t;
    }
  }

  lemma {:induction false} FirstRowsOf(c: ServerConfig, fields: seq<Field>, k: Bytes)
    ensures k in FirstRows(EntriesOf(c, fields)) <==> exists f: Field :: f in fields && Key(f) == k
    ensures k in FirstRows(EntriesOf(c, fields)) ==>
              k in TableOf(c) && FirstRows(EntriesOf(c, fields))[k] == TableOf(c)[k]
    decreases |fields|
  {
    hide Key, TableOf, CStr, ValueString;
    if fields == [] {
    } else {
      FirstRowsOf(c, fields[1..], k);
      TableRow(c, fields[0]);
      assert EntriesOf(c, fields)[1..] == EntriesOf(c, fields[1..]);
      forall f | f in fields ensures f == fields[0] || f in fields[1..] {
      }
    }
  }

  /** A completed `Initialize` fills in the missing defaults and changes no row that was there. */
  lemma InitializeFillsIn(t: Table)
    ensures var r := WriteAll(KeepExisting, t, EntriesFrom(Default()));
            && r == TableOf(Default()) + t
            && (forall f: Field :: Key(f) in r)
            && (forall k :: k in t ==> r[k] == t[k])
  {
    hide Key, CStr, FirstRows, WriteAll, TableOf;
    var d := Default();
    var es := EntriesFrom(d);
    KeepExistingMerges(t, es);
    forall k ensures k in FirstRows(es) <==> k in TableOf(d)
             ensures k in FirstRows(es) ==> FirstRows(es)[k] == TableOf(d)[k] {
      FirstRowsOf(d, FIELDS, k);
      EveryFieldHasARow(d, k);
    }
    assert FirstRows(es) == TableOf(d);
    forall f: Field ensures Key(f) in TableOf(d) {
      TableRow(d, f);
    }
  }
}
