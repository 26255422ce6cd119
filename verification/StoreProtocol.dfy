/** Several connections (the supervisor and daemons) on one configuration database: every interleaving
    of autocommitted default inserts, transactional saves, failures, and loads, from any table. */
module StoreProtocol {
  import opened Basics
  import opened ServerConfig
  import opened ConfigStore

  /** What a connection is in the middle of. */
  datatype Activity =
    | Idle
    | Inserting(left: seq<Entry>)
    | Saving(config: ServerConfig, left: seq<Entry>, work: Table)

  /** `saved` remembers the configuration of the last COMMIT. */
  datatype Store = Store(
    table: Option<Table>, activity: map<nat, Activity>, writer: Option<nat>, saved: Option<ServerConfig>)

  function Initial(start: Option<Table>): Store {
    Store(start, map[], None, None)
  }

  function Doing(s: Store, i: nat): Activity {
    if i in s.activity then s.activity[i] else Idle
  }

  function Put(s: Store, i: nat, doing: Activity): (r: Store)
    ensures forall j: nat :: Doing(r, j) == if j == i then doing else Doing(s, j)
  {
    s.(activity := s.activity[i := doing])
  }

  /** One action; an action that is not possible changes nothing. */
  function Apply(s: Store, a: Action): Store {
    var doing := Doing(s, a.i);
    match a
    case CreateTable(i) =>
      if doing.Idle? && s.writer.None? then
        Put(s, i, Inserting(EntriesFrom(Default()))).(table := Some(Rows(s.table)))
      else s
    case InsertRow(i) =>
      if doing.Inserting? && doing.left != [] && s.writer.None? && s.table.Some? then
        Put(s, i, if |doing.left| == 1 then Idle else Inserting(doing.left[1..]))
        .(table := Some(Write(KeepExisting, s.table.value, doing.left[0])))
      else s
    case BeginSave(i, config) =>
      if doing.Idle? && s.writer.None? && s.table.Some? && Valid(config) then
        Put(s, i, Saving(config, EntriesFrom(config), s.table.value)).(writer := Some(i))
      else s
    case UpsertRow(i) =>
      if doing.Saving? && s.writer == Some(i) && doing.left != [] then
        Put(s, i, Saving(doing.config, doing.left[1..], Write(Overwrite, doing.work, doing.left[0])))
      else s
    case CommitSave(i) =>
      if doing.Saving? && s.writer == Some(i) && doing.left == [] then
        Put(s, i, Idle).(table := Some(doing.work), writer := None, saved := Some(doing.config))
      else s
    case Abandon(i) =>
      Put(s, i, Idle).(writer := if s.writer == Some(i) then None else s.writer)
  }

  function ApplyAll(s: Store, actions: seq<Action>): Store {
    if actions == [] then s
    else Apply(ApplyAll(s, actions[..|actions| - 1]), actions[|actions| - 1])
  }

  function Run(start: Option<Table>, actions: seq<Action>): Store {
    ApplyAll(Initial(start), actions)
  }

  lemma ApplyLast(s: Store, actions: seq<Action>, a: Action)
    ensures ApplyAll(s, actions + [a]) == Apply(ApplyAll(s, actions), a)
  {
    hide Apply;
    assert (actions + [a])[..|actions|] == actions;
  }

  lemma {:induction false} ApplyBoth(s: Store, first: seq<Action>, second: seq<Action>)
    ensures ApplyAll(s, first + second) == ApplyAll(ApplyAll(s, first), second)
    decreases |second|
  {
    hide Apply;
    if second == [] {
      assert first + second == first;
    } else {
      var n := |second| - 1;
      ApplyBoth(s, first, second[..n]);
      assert second == second[..n] + [second[n]];
      assert first + second == first + second[..n] + [second[n]];
      ApplyLast(s, first + second[..n], second[n]);
    }
  }

  // ---- A save is atomic, whatever other connections do meanwhile ----

  /** The actions of connection `i` among those of all connections. */
  function Own(actions: seq<Action>, i: nat): seq<Action> {
    if actions == [] then []
    else
      var n := |actions| - 1;
      Own(actions[..n], i) + if actions[n].i == i then [actions[n]] else []
  }

  lemma {:induction false} OwnFirst(actions: seq<Action>)
    requires actions != []
    ensures Own(actions, actions[0].i) != [] && Own(actions, actions[0].i)[0] == actions[0]
  {
    if |actions| == 1 {
      assert actions[..0] == [];
    } else {
      OwnFirst(actions[..|actions| - 1]);
    }
  }

  /** While connection `i` is writing, no other connection changes the table or the transaction. */
  lemma WriterExcludes(s: Store, i: nat, a: Action)
    requires s.writer == Some(i) && a.i != i
    ensures var r := Apply(s, a);
            r.table == s.table && r.saved == s.saved && r.writer == s.writer && Doing(r, i) == Doing(s, i)
  {
    hide EntriesFrom, Write, Valid, Default;
  }

  /** The transaction of `config` has written `n` rows over the committed table of `s`. */
  predicate Underway(s: Store, i: nat, config: ServerConfig, n: nat, r: Store)
    requires s.table.Some? && n <= |FIELDS|
  {
    && r.table == s.table && r.saved == s.saved && r.writer == Some(i)
    && var es := EntriesFrom(config);
       Doing(r, i) == Saving(config, es[n..], WriteAll(Overwrite, s.table.value, es[..n]))
  }

  lemma UpsertUnderway(s: Store, i: nat, config: ServerConfig, n: nat, r: Store)
    requires s.table.Some? && n < |FIELDS| && Underway(s, i, config, n, r)
    ensures Underway(s, i, config, n + 1, Apply(r, UpsertRow(i)))
  {
    hide EntriesFrom, Write, WriteAll;
    var es := EntriesFrom(config);
    assert es[n..][0] == es[n] && es[n..][1..] == es[n + 1..];
    assert es[..n + 1] == es[..n] + [es[n]];
    WriteAllSnoc(Overwrite, s.table.value, es[..n], es[n]);
  }

  lemma BeginUnderway(s: Store, i: nat, config: ServerConfig)
    requires Doing(s, i).Idle? && s.writer.None? && s.table.Some? && Valid(config)
    ensures Underway(s, i, config, 0, Apply(s, BeginSave(i, config)))
  {
    hide EntriesFrom, Write, Valid;
    var es := EntriesFrom(config);
    assert es[0..] == es && es[..0] == [];
  }

  lemma {:induction false} SaveUnderway(s: Store, actions: seq<Action>, i: nat, config: ServerConfig, n: nat)
    requires Doing(s, i).Idle? && s.writer.None? && s.table.Some? && Valid(config) && n <= |FIELDS|
    requires actions != [] && actions[0].i == i
    requires Own(actions, i) == [BeginSave(i, config)] + Repeat(UpsertRow(i), n)
    ensures Underway(s, i, config, n, ApplyAll(s, actions))
    decreases |actions|
  {
    hide Apply, Underway, Valid;
    var last := |actions| - 1;
    var front := actions[..last];
    var before := ApplyAll(s, front);
    OwnFirst(actions);
    if last == 0 {
      assert front == [] && before == s;
      assert |Own(actions, i)| == 1;
      BeginUnderway(s, i, config);
    } else {
      OwnFirst(front);
      if actions[last].i == i {
        assert Own(front, i) == Own(actions, i)[..n];
        assert Own(front, i) == [BeginSave(i, config)] + Repeat(UpsertRow(i), n - 1);
        SaveUnderway(s, front, i, config, n - 1);
        assert actions[last] == Own(actions, i)[n] == UpsertRow(i);
        UpsertUnderway(s, i, config, n - 1, before);
      } else {
        SaveUnderway(s, front, i, config, n);
        OthersLeaveUnderway(s, i, config, n, before, actions[last]);
      }
    }
  }

  lemma OthersLeaveUnderway(s: Store, i: nat, config: ServerConfig, n: nat, r: Store, a: Action)
    requires s.table.Some? && n <= |FIELDS| && Underway(s, i, config, n, r) && a.i != i
    ensures Underway(s, i, config, n, Apply(r, a))
  {
    hide Apply, EntriesFrom, WriteAll;
    WriterExcludes(r, i, a);
  }

  /** From its BEGIN to its COMMIT or ROLLBACK, a save among the actions of any other connections has the
      effect that `ConfigRepository.Save` promises on its own. */
  lemma SaveIsAtomic(s: Store, actions: seq<Action>, i: nat, config: ServerConfig, ok: bool)
    requires Doing(s, i).Idle? && s.writer.None? && s.table.Some? && Valid(config)
    requires actions != [] && actions[0].i == i && actions[|actions| - 1].i == i
    requires Own(actions, i) != [] && SaveTrace(Own(actions, i), i, config, ok)
    ensures var r := ApplyAll(s, actions);
            && SaveEffect(s.table, config, ok, r.table)
            && r.saved == (if ok then Some(config) else s.saved)
            && r.writer.None? && Doing(r, i).Idle?
  {
    hide Apply, Underway, Valid, WriteAll, EntriesFrom;
    var n: nat := |Own(actions, i)| - 2;
    assert Own(actions, i) == SaveActions(i, config, n, ok);
    var last := |actions| - 1;
    var front := actions[..last];
    assert Own(front, i) == Own(actions, i)[..n + 1];
    assert Own(front, i) == [BeginSave(i, config)] + Repeat(UpsertRow(i), n);
    assert front != [] by {
      assert Own(front, i)[0] == BeginSave(i, config);
    }
    SaveUnderway(s, front, i, config, n);
    assert actions[last] == Own(actions, i)[n + 1];
    EndsSave(s, i, config, n, ApplyAll(s, front), ok);
  }

  lemma EndsSave(s: Store, i: nat, config: ServerConfig, n: nat, r: Store, ok: bool)
    requires s.table.Some? && n <= |FIELDS| && (ok ==> n == |FIELDS|) && Underway(s, i, config, n, r)
    ensures var d := Apply(r, if ok then CommitSave(i) else Abandon(i));
            && SaveEffect(s.table, config, ok, d.table)
            && d.saved == (if ok then Some(config) else s.saved)
            && d.writer.None? && Doing(d, i).Idle?
  {
    hide EntriesFrom, WriteAll;
    var es := EntriesFrom(config);
    assert ok ==> es[..n] == es && es[n..] == [];
  }

  lemma {:induction false} OwnOfOne(actions: seq<Action>, i: nat)
    requires forall k :: 0 <= k < |actions| ==> actions[k].i == i
    ensures Own(actions, i) == actions
  {
    if actions == [] {
    } else {
      var n := |actions| - 1;
      OwnOfOne(actions[..n], i);
      assert actions == actions[..n] + [actions[n]];
    }
  }

  /** The statements that `ConfigRepository.Save` executes are a run of the protocol with the same effect. */
  lemma SaveIsRun(s: Store, i: nat, config: ServerConfig, ok: bool, trace: seq<Action>)
    requires Doing(s, i).Idle? && s.writer.None? && (ok ==> s.table.Some? && Valid(config))
    requires SaveTrace(trace, i, config, ok) && (trace != [] ==> Valid(config))
    ensures var r := ApplyAll(s, trace);
            && SaveEffect(s.table, config, ok, r.table)
            && r.saved == (if ok then Some(config) else s.saved)
  {
    hide Apply, Valid, WriteAll, EntriesFrom;
    if trace == [] {
    } else {
      var n: nat := |trace| - 2;
      assert trace == SaveActions(i, config, n, ok);
      if s.table.Some? {
        OwnOfOne(trace, i);
        SaveIsAtomic(s, trace, i, config, ok);
      } else {
        var begin := [BeginSave(i, config)] + Repeat(UpsertRow(i), n);
        NoTableNoSave(s, i, config, n);
        ApplyLast(s, begin, Abandon(i));
        AbandonKeepsTable(s, i);
      }
    }
  }

  lemma AbandonKeepsTable(s: Store, i: nat)
    ensures Apply(s, Abandon(i)).table == s.table && Apply(s, Abandon(i)).saved == s.saved
  {
  }

  lemma {:induction false} NoTableNoSave(s: Store, i: nat, config: ServerConfig, n: nat)
    requires Doing(s, i).Idle? && s.table.None?
    ensures ApplyAll(s, [BeginSave(i, config)] + Repeat(UpsertRow(i), n)) == s
  {
    hide Apply, ApplyAll;
    NoTableNoStep(s, i, config);
    if n == 0 {
      assert [BeginSave(i, config)] + Repeat(UpsertRow(i), 0) == [] + [BeginSave(i, config)];
      ApplyLast(s, [], BeginSave(i, config));
      ApplyNone(s);
    } else {
      NoTableNoSave(s, i, config, n - 1);
      var front := [BeginSave(i, config)] + Repeat(UpsertRow(i), n - 1);
      assert [BeginSave(i, config)] + Repeat(UpsertRow(i), n) == front + [UpsertRow(i)];
      ApplyLast(s, front, UpsertRow(i));
    }
  }

  lemma NoTableNoStep(s: Store, i: nat, config: ServerConfig)
    requires Doing(s, i).Idle? && s.table.None?
    ensures Apply(s, BeginSave(i, config)) == s && Apply(s, UpsertRow(i)) == s
  {
  }

  lemma ApplyNone(s: Store)
    ensures ApplyAll(s, []) == s
  {
  }

  /** So are those of `ConfigRepository.Initialize`. */
  lemma {:induction false} InitializeIsRun(s: Store, i: nat, n: nat)
    requires Doing(s, i).Idle? && s.writer.None? && n <= |FIELDS|
    ensures var r := ApplyAll(s, InitializeActions(i, n));
            && InitializeEffect(s.table, n, r.table)
            && r.saved == s.saved && r.writer.None?
            && Doing(r, i) == if n == |FIELDS| then Idle else Inserting(EntriesFrom(Default())[n..])
  {
    hide Write, WriteAll, EntriesFrom, Default;
    var es := EntriesFrom(Default());
    if n == 0 {
      assert InitializeActions(i, 0) == [] + [CreateTable(i)];
      ApplyLast(s, [], CreateTable(i));
      assert es[..0] == [] && es[0..] == es;
      WriteNothing(Rows(s.table));
    } else {
      InitializeIsRun(s, i, n - 1);
      assert InitializeActions(i, n) == InitializeActions(i, n - 1) + [InsertRow(i)];
      ApplyLast(s, InitializeActions(i, n - 1), InsertRow(i));
      assert es[n - 1..][0] == es[n - 1] && es[n - 1..][1..] == es[n..];
      assert es[..n] == es[..n - 1] + [es[n - 1]];
      WriteAllSnoc(KeepExisting, Rows(s.table), es[..n - 1], es[n - 1]);
    }
  }

  lemma WriteNothing(t: Table)
    ensures WriteAll(KeepExisting, t, []) == t
  {
  }

  // ---- The invariant ----

  /** The rows of `base` and some of the default rows for keys that had none. */
  predicate Grown(base: Table, t: Table) {
    && (forall k :: k in base ==> k in t && t[k] == base[k])
    && (forall k :: k in t && k !in base ==> k in TableOf(Default()) && t[k] == TableOf(Default())[k])
  }

  predicate DefaultRow(e: Entry) {
    e.key in TableOf(Default()) && TableOf(Default())[e.key] == CStr(e.value)
  }

  /** The transaction has written the rows that are no longer left, over the committed table. */
  predicate SaveInProgress(t: Table, config: ServerConfig, left: seq<Entry>, work: Table) {
    var es := EntriesFrom(config);
    && |left| <= |es|
    && left == es[|es| - |left|..]
    && work == WriteAll(Overwrite, t, es[..|es| - |left|])
  }

  ghost predicate ActivityInv(s: Store, i: nat) {
    match Doing(s, i)
    case Idle => true
    case Inserting(left) => s.table.Some? && forall k :: 0 <= k < |left| ==> DefaultRow(left[k])
    case Saving(config, left, work) =>
      Valid(config) && s.writer == Some(i) && s.table.Some? && SaveInProgress(s.table.value, config, left, work)
  }

  ghost predicate TableInv(start: Option<Table>, s: Store) {
    && (s.table.None? ==> start.None? && s.saved.None?)
    && (s.saved.None? && s.table.Some? ==> Grown(Rows(start), s.table.value))
    && (s.saved.Some? ==> Valid(s.saved.value) && s.table.Some? && Stores(s.table.value, s.saved.value))
  }

  ghost predicate Inv(start: Option<Table>, s: Store) {
    && TableInv(start, s)
    && (forall i: nat :: ActivityInv(s, i))
    && (s.writer.Some? ==> Doing(s, s.writer.value).Saving?)
  }

  lemma DefaultEntries()
    ensures forall k :: 0 <= k < |EntriesFrom(Default())| ==> DefaultRow(EntriesFrom(Default())[k])
  {
    hide TableOf, Key, CStr, ValueString;
    var es := EntriesFrom(Default());
    forall k | 0 <= k < |es| ensures DefaultRow(es[k]) {
      TableRow(Default(), FIELDS[k]);
    }
  }

  /** An autocommitted default insert keeps the table what it was, or adds one of the defaults. */
  lemma InsertKeeps(start: Option<Table>, s: Store, e: Entry)
    requires TableInv(start, s) && s.table.Some? && DefaultRow(e)
    ensures TableInv(start, s.(table := Some(Write(KeepExisting, s.table.value, e))))
  {
    hide TableOf, CStr, Key;
    OnlyFieldRows(Default(), e.key);
    if s.saved.Some? {
      TableRow(s.saved.value, FieldWithKey(e.key));
    }
  }

  lemma UpsertKeeps(t: Table, config: ServerConfig, left: seq<Entry>, work: Table)
    requires SaveInProgress(t, config, left, work) && left != []
    ensures SaveInProgress(t, config, left[1..], Write(Overwrite, work, left[0]))
  {
    hide CStr, WriteAll, Write, EntriesFrom;
    var es := EntriesFrom(config);
    var n := |es| - |left|;
    assert es[..n + 1] == es[..n] + [es[n]];
    WriteAllSnoc(Overwrite, t, es[..n], es[n]);
  }

  /** What a transaction commits has the rows of its configuration. */
  lemma CommitKeeps(start: Option<Table>, s: Store, i: nat)
    requires Inv(start, s) && Doing(s, i).Saving? && Doing(s, i).left == []
    ensures s.table.Some? && Doing(s, i).work == s.table.value + TableOf(Doing(s, i).config)
    ensures Stores(Doing(s, i).work, Doing(s, i).config)
  {
    hide TableOf, WriteAll, EntriesFrom;
    assert ActivityInv(s, i);
    var es := EntriesFrom(Doing(s, i).config);
    assert es[..|es|] == es;
    SavedTable(s.table.value, Doing(s, i).config);
  }

  lemma StepKeepsInv(start: Option<Table>, s: Store, a: Action)
    requires Inv(start, s)
    ensures Inv(start, Apply(s, a))
  {
    hide TableOf, WriteAll, Write, SaveInProgress, DefaultRow, Grown, Stores, Default, EntriesFrom, Valid;
    var doing := Doing(s, a.i);
    var r := Apply(s, a);
    assert ActivityInv(s, a.i);
    match a {
      case CreateTable(i) =>
        DefaultEntries();
        NothingGrown(Rows(start));
      case InsertRow(i) =>
        if r != s {
          InsertKeeps(start, s, doing.left[0]);
        }
      case BeginSave(i, config) =>
        if r != s {
          BeginKeeps(s.table.value, config);
        }
      case UpsertRow(i) =>
        if r != s {
          UpsertKeeps(s.table.value, doing.config, doing.left, doing.work);
        }
      case CommitSave(i) =>
        if r != s {
          CommitKeeps(start, s, i);
        }
      case Abandon(i) =>
    }
    forall j: nat ensures ActivityInv(r, j) {
      assert ActivityInv(s, j);
    }
  }

  lemma NothingGrown(base: Table)
    ensures Grown(base, base)
  {
  }

  lemma BeginKeeps(t: Table, config: ServerConfig)
    ensures SaveInProgress(t, config, EntriesFrom(config), t)
  {
    var es := EntriesFrom(config);
    assert es[..0] == [];
  }

  lemma {:induction false} RunKeepsInv(start: Option<Table>, actions: seq<Action>)
    ensures Inv(start, Run(start, actions))
  {
    hide Inv, Apply;
    if actions == [] {
      InitialInv(start);
    } else {
      var n := |actions| - 1;
      RunKeepsInv(start, actions[..n]);
      StepKeepsInv(start, Run(start, actions[..n]), actions[n]);
    }
  }

  lemma InitialInv(start: Option<Table>)
    ensures Inv(start, Initial(start))
  {
    hide TableOf;
  }

  // ---- No mixture ----

  lemma DefaultIsNulFree()
    ensures NulFree(Default())
  {
    DefaultNameIsNulFree();
    DefaultUriIsNulFree();
    forall f: Field | f !in {ApplicationName, ProductUri} ensures !HasNul(Get(Default(), f)) {
      ShortDefaultIsNulFree(f);
    }
  }

  lemma ShortDefaultIsNulFree(f: Field)
    requires f !in {ApplicationName, ProductUri}
    ensures !HasNul(Get(Default(), f))
  {
  }

  lemma DefaultNameIsNulFree()
    ensures !HasNul(Get(Default(), ApplicationName))
  {
    AsciiIsNulFree("Open62541 C++ Server");
  }

  lemma DefaultUriIsNulFree()
    ensures !HasNul(Get(Default(), ProductUri))
  {
    AsciiIsNulFree("urn:rakctite:opcua-server-opensource");
  }

  lemma AsciiIsNulFree(s: string)
    requires forall c :: c in s ==> 0 < c as int < 256
    ensures 0 !in Ascii(s)
  {
    forall i | 0 <= i < |s| ensures Ascii(s)[i] != 0 {
      assert s[i] in s;
    }
  }

  /** The database that started empty and was initialised has the default configuration. */
  lemma DefaultsAreLoaded()
    ensures LoadTable(TableOf(Default())) == Some(Default())
  {
    hide TableOf, NulFree, Valid, Default, LoadTable;
    DefaultIsValid();
    DefaultIsNulFree();
    StoreRoundTrip(TableOf(Default()), Default());
  }

  lemma LoadedFieldIsThere(t: Table, f: Field)
    requires LoadTable(t).Some?
    ensures Key(f) in t
  {
    hide Key, Valid, CStr;
    assert FieldOf(Texts(t), f).Some?;
  }

  /** Before any commit, a table that can be loaded says what it says once all defaults are in. */
  lemma GrownLoadsAsInitialized(base: Table, t: Table)
    requires Grown(base, t) && LoadTable(t).Some?
    ensures LoadTable(t) == LoadTable(TableOf(Default()) + base)
  {
    hide TableOf, Key, CStr, Valid, Default, LoadTable;
    forall f: Field
      ensures FieldOf(Texts(t), f) == FieldOf(Texts(TableOf(Default()) + base), f)
    {
      LoadedFieldIsThere(t, f);
    }
    FieldsDecide(t, TableOf(Default()) + base);
  }

  /** At every moment of every run, on whatever table it began, a load that succeeds returns exactly what a
      complete Initialize of that table would give (on an empty database: the default configuration), or
      exactly the last committed configuration (up to its first NULs), never a mixture. */
  lemma NeverMixed(start: Option<Table>, actions: seq<Action>)
    ensures var s := Run(start, actions);
            s.table.Some? && LoadTable(s.table.value).Some? ==>
              LoadTable(s.table.value) ==
              if s.saved.Some? then Some(Truncated(s.saved.value))
              else LoadTable(WriteAll(KeepExisting, Rows(start), EntriesFrom(Default())))
    ensures var s := Run(start, actions);
            s.table.Some? && LoadTable(s.table.value).Some? && s.saved.None? && Rows(start) == map[] ==>
              LoadTable(s.table.value) == Some(Default())
  {
    hide ApplyAll, TableOf, LoadTable, Default, Truncated, Valid, WriteAll, EntriesFrom, Grown, Stores, Key;
    RunKeepsInv(start, actions);
    var s := Run(start, actions);
    if s.table.Some? && LoadTable(s.table.value).Some? {
      if s.saved.None? {
        GrownLoadsAsInitialized(Rows(start), s.table.value);
        InitializeFillsIn(Rows(start));
        DefaultsAreLoaded();
        assert TableOf(Default()) + map[] == TableOf(Default());
      } else {
        LoadAfterSave(s.table.value, s.saved.value);
      }
    }
  }

  /** Once a NUL-free configuration is committed, loads see it and nothing else until the next commit. */
  lemma CommittedIsLoaded(start: Option<Table>, actions: seq<Action>, c: ServerConfig)
    requires Run(start, actions).saved == Some(c) && NulFree(c)
    ensures var s := Run(start, actions);
            s.table.Some? && Stores(s.table.value, c) && LoadTable(s.table.value) == Some(c) && Valid(c)
  {
    hide ApplyAll, TableOf, LoadTable, Valid, NulFree, Stores;
    RunKeepsInv(start, actions);
    StoreRoundTrip(Run(start, actions).table.value, c);
  }

  /** Only a commit changes what the last committed configuration is. */
  lemma {:induction false} OnlyCommitsSave(s: Store, more: seq<Action>)
    requires forall k :: 0 <= k < |more| ==> !more[k].CommitSave?
    ensures ApplyAll(s, more).saved == s.saved
    decreases |more|
  {
    hide EntriesFrom, Write, Valid, Default;
    if more == [] {
    } else {
      OnlyCommitsSave(s, more[..|more| - 1]);
    }
  }
}
