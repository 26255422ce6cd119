/** The Windows argument quoter of src/supervisor/process_controller.cc against the rules by which a
    C program splits its command line (Microsoft, "Parsing C command-line arguments"). */
module CommandLine {
  type Wide = c: int | 0 < c < 0x1_0000
    witness 0x20
  type Text = seq<Wide>

  const SPACE: Wide := 0x20
  const TAB: Wide := 0x09
  const QUOTE: Wide := 0x22
  const BACKSLASH: Wide := 0x5C

  // ---- The reader ----

  predicate Separator(c: Wide) {
    c == SPACE || c == TAB
  }

  function Backslashes(n: nat): (s: Text)
    ensures |s| == n && forall i :: 0 <= i < n ==> s[i] == BACKSLASH
  {
    seq(n, _ => BACKSLASH)
  }

  /** Length of the run of backslashes that `s` starts with. */
  function RunLength(s: Text): (n: nat)
    ensures n <= |s| && forall i :: 0 <= i < n ==> s[i] == BACKSLASH
    ensures n < |s| ==> s[n] != BACKSLASH
  {
    if s != [] && s[0] == BACKSLASH then 1 + RunLength(s[1..]) else 0
  }

  /** One argument and what is left. Before a quote, 2n backslashes are n and the quote toggles quoting;
      2n+1 are n and the quote is literal. With `doubled`, two quotes inside quotes are a literal one. */
  function ReadArgument(s: Text, quoted: bool, doubled: bool): (r: (Text, Text))
    ensures |r.1| <= |s|
    ensures s != [] && (quoted || !Separator(s[0])) ==> |r.1| < |s|
    decreases |s|
  {
    var n := RunLength(s);
    if n < |s| && s[n] == QUOTE then
      var prefix := Backslashes(n / 2);
      if n % 2 == 1 then
        var r := ReadArgument(s[n + 1..], quoted, doubled);
        (prefix + [QUOTE] + r.0, r.1)
      else if quoted && doubled && n + 1 < |s| && s[n + 1] == QUOTE then
        var r := ReadArgument(s[n + 2..], true, doubled);
        (prefix + [QUOTE] + r.0, r.1)
      else
        var r := ReadArgument(s[n + 1..], !quoted, doubled);
        (prefix + r.0, r.1)
    else if n > 0 then
      var r := ReadArgument(s[n..], quoted, doubled);
      (Backslashes(n) + r.0, r.1)
    else if s == [] || (!quoted && Separator(s[0])) then ([], s)
    else
      var r := ReadArgument(s[1..], quoted, doubled);
      ([s[0]] + r.0, r.1)
  }

  function ReadArguments(s: Text, doubled: bool): seq<Text>
    decreases |s|
  {
    if s == [] then []
    else if Separator(s[0]) then ReadArguments(s[1..], doubled)
    else
      var r := ReadArgument(s, false, doubled);
      [r.0] + ReadArguments(r.1, doubled)
  }

  /** The program name: quotes only delimit, backslashes are ordinary. */
  function ReadProgram(s: Text, quoted: bool): (r: (Text, Text))
    ensures |r.1| <= |s|
  {
    if s == [] || (!quoted && Separator(s[0])) then ([], s)
    else if s[0] == QUOTE then ReadProgram(s[1..], !quoted)
    else
      var r := ReadProgram(s[1..], quoted);
      ([s[0]] + r.0, r.1)
  }

  // ---- The quoter ----

  predicate NeedsQuotes(argument: Text) {
    exists i :: 0 <= i < |argument| && argument[i] in {SPACE, TAB, 0x0A, 0x0B, QUOTE}
  }

  /** The loop of the quoter with `backslashes` pending, and the closing quote. */
  function QuotedTail(argument: Text, backslashes: nat): Text {
    if argument == [] then Backslashes(backslashes * 2) + [QUOTE]
    else if argument[0] == BACKSLASH then QuotedTail(argument[1..], backslashes + 1)
    else if argument[0] == QUOTE then
      Backslashes(backslashes * 2 + 1) + [QUOTE] + QuotedTail(argument[1..], 0)
    else Backslashes(backslashes) + [argument[0]] + QuotedTail(argument[1..], 0)
  }

  function Quoted(argument: Text): Text {
    if argument == [] then [QUOTE, QUOTE]
    else if !NeedsQuotes(argument) then argument
    else [QUOTE] + QuotedTail(argument, 0)
  }

  method QuoteWindowsArgument(argument: Text) returns (quoted: Text)
    ensures quoted == Quoted(argument)
  {
    if argument == [] {
      return [QUOTE, QUOTE];
    }
    if !NeedsQuotes(argument) {
      return argument;
    }
    quoted := [QUOTE];
    var backslashes := 0;
    for i := 0 to |argument|
      invariant backslashes >= 0
      invariant quoted + QuotedTail(argument[i..], backslashes) == [QUOTE] + QuotedTail(argument, 0)
    {
      var ch := argument[i];
      assert argument[i..][1..] == argument[i + 1..];
      if ch == BACKSLASH {
        backslashes := backslashes + 1;
      } else if ch == QUOTE {
        Append(quoted, Backslashes(backslashes * 2 + 1), QUOTE, QuotedTail(argument[i + 1..], 0));
        quoted := quoted + Backslashes(backslashes * 2 + 1);
        quoted := quoted + [ch];
        backslashes := 0;
      } else {
        Append(quoted, Backslashes(backslashes), ch, QuotedTail(argument[i + 1..], 0));
        quoted := quoted + Backslashes(backslashes);
        quoted := quoted + [ch];
        backslashes := 0;
      }
    }
    assert argument[|argument|..] == [];
    quoted := quoted + Backslashes(backslashes * 2);
    quoted := quoted + [QUOTE];
  }

  lemma Append(front: Text, run: Text, ch: Wide, rest: Text)
    ensures front + (run + [ch] + rest) == front + run + [ch] + rest
  {
  }

  lemma {:induction false} TailIsLonger(argument: Text, n: nat)
    ensures |QuotedTail(argument, n)| > |argument| + n
    decreases |argument|
  {
    if argument == [] {
    } else {
      TailIsLonger(argument[1..], if argument[0] == BACKSLASH then n + 1 else 0);
    }
  }

  /** An argument is passed as it is exactly when it is not empty and has no blank and no quote. */
  lemma BareExactly(argument: Text)
    ensures Quoted(argument) == argument <==>
            argument != [] && forall i :: 0 <= i < |argument| ==> argument[i] !in {0x20, 0x09, 0x0A, 0x0B, 0x22}
    ensures Quoted(argument) != argument ==> Quoted(argument)[0] == QUOTE
  {
    hide QuotedTail;
    TailIsLonger(argument, 0);
  }

  function QuotedArguments(args: seq<Text>): Text {
    if args == [] then [] else [SPACE] + Quoted(args[0]) + QuotedArguments(args[1..])
  }

  function CommandLine(exe: Text, args: seq<Text>): Text {
    Quoted(exe) + QuotedArguments(args)
  }

  method BuildCommandLine(exe: Text, args: seq<Text>) returns (commandLine: Text)
    ensures commandLine == CommandLine(exe, args)
  {
    hide Quoted;
    commandLine := QuoteWindowsArgument(exe);
    for i := 0 to |args|
      invariant commandLine + QuotedArguments(args[i..]) == CommandLine(exe, args)
    {
      assert args[i..][1..] == args[i + 1..];
      var quoted := QuoteWindowsArgument(args[i]);
      AppendArgument(commandLine, quoted, QuotedArguments(args[i + 1..]));
      commandLine := commandLine + [SPACE];
      commandLine := commandLine + quoted;
    }
    assert args[|args|..] == [];
  }

  lemma AppendArgument(front: Text, quoted: Text, rest: Text)
    ensures front + ([SPACE] + quoted + rest) == front + [SPACE] + quoted + rest
  {
  }

  // ---- Reading back ----

  /** What may stand after an argument: nothing, or a separator. */
  predicate Ends(rest: Text) {
    rest == [] || Separator(rest[0])
  }

  lemma {:induction false} RunOf(n: nat, rest: Text)
    requires rest != [] ==> rest[0] != BACKSLASH
    ensures RunLength(Backslashes(n) + rest) == n
  {
    var s := Backslashes(n) + rest;
    if n == 0 {
    } else {
      assert s[1..] == Backslashes(n - 1) + rest;
      RunOf(n - 1, rest);
    }
  }

  lemma ReadsNothing(rest: Text, doubled: bool)
    requires Ends(rest)
    ensures ReadArgument(rest, false, doubled) == ([], rest)
  {
    assert RunLength(rest) == 0;
  }

  lemma PlainCharacter(ch: Wide, rest: Text, quoted: bool, doubled: bool)
    requires ch != BACKSLASH && ch != QUOTE && (quoted || !Separator(ch))
    ensures ReadArgument([ch] + rest, quoted, doubled) ==
            var r := ReadArgument(rest, quoted, doubled);
            ([ch] + r.0, r.1)
  {
    assert RunLength([ch] + rest) == 0;
    assert ([ch] + rest)[1..] == rest;
  }

  /** A run of backslashes before an ordinary character is literal. */
  lemma OrdinaryCharacter(n: nat, ch: Wide, rest: Text, quoted: bool, doubled: bool)
    requires ch != BACKSLASH && ch != QUOTE && (quoted || !Separator(ch))
    ensures ReadArgument(Backslashes(n) + [ch] + rest, quoted, doubled) ==
            var r := ReadArgument(rest, quoted, doubled);
            (Backslashes(n) + [ch] + r.0, r.1)
  {
    hide ReadArgument, RunLength;
    var s, more := Backslashes(n) + [ch] + rest, [ch] + rest;
    var r := ReadArgument(rest, quoted, doubled);
    PlainCharacter(ch, rest, quoted, doubled);
    assert s == Backslashes(n) + more;
    if n == 0 {
      assert s == more && Backslashes(0) + [ch] + r.0 == [ch] + r.0;
    } else {
      LongRun(n, more, quoted, doubled);
      assert Backslashes(n) + ([ch] + r.0) == Backslashes(n) + [ch] + r.0;
    }
  }

  lemma LongRun(n: nat, rest: Text, quoted: bool, doubled: bool)
    requires n > 0 && rest != [] && rest[0] != BACKSLASH && rest[0] != QUOTE
    ensures ReadArgument(Backslashes(n) + rest, quoted, doubled) ==
            var r := ReadArgument(rest, quoted, doubled);
            (Backslashes(n) + r.0, r.1)
  {
    RunOf(n, rest);
    assert (Backslashes(n) + rest)[n..] == rest;
  }

  /** A run of backslashes at the end of an unquoted argument is literal. */
  lemma FinalRun(n: nat, rest: Text, doubled: bool)
    requires Ends(rest)
    ensures ReadArgument(Backslashes(n) + rest, false, doubled) == (Backslashes(n), rest)
  {
    var s := Backslashes(n) + rest;
    RunOf(n, rest);
    ReadsNothing(rest, doubled);
    assert s[n..] == rest;
    assert Backslashes(n) + [] == Backslashes(n);
    if n == 0 {
      assert s == rest;
    }
  }

  /** A quote after a run of backslashes: odd runs escape it, even runs let it toggle quoting. */
  lemma QuoteAfterRun(run: nat, rest: Text, quoted: bool, doubled: bool)
    ensures ReadArgument(Backslashes(run) + [QUOTE] + rest, quoted, doubled) ==
            if run % 2 == 1 then
              var r := ReadArgument(rest, quoted, doubled);
              (Backslashes(run / 2) + [QUOTE] + r.0, r.1)
            else if quoted && doubled && rest != [] && rest[0] == QUOTE then
              var r := ReadArgument(rest[1..], true, doubled);
              (Backslashes(run / 2) + [QUOTE] + r.0, r.1)
            else
              var r := ReadArgument(rest, !quoted, doubled);
              (Backslashes(run / 2) + r.0, r.1)
  {
    hide RunLength;
    var s := Backslashes(run) + [QUOTE] + rest;
    assert s == Backslashes(run) + ([QUOTE] + rest);
    RunOf(run, [QUOTE] + rest);
    assert s[run] == QUOTE && s[run + 1..] == rest;
    if rest != [] {
      assert s[run + 1] == rest[0] && s[run + 2..] == rest[1..];
    }
  }

  /** Backslashes doubled before an escaped quote. */
  lemma EscapedQuote(n: nat, rest: Text, quoted: bool, doubled: bool)
    ensures ReadArgument(Backslashes(n * 2 + 1) + [QUOTE] + rest, quoted, doubled) ==
            var r := ReadArgument(rest, quoted, doubled);
            (Backslashes(n) + [QUOTE] + r.0, r.1)
  {
    hide ReadArgument, Backslashes;
    QuoteAfterRun(n * 2 + 1, rest, quoted, doubled);
  }

  /** Backslashes doubled before the closing quote, after which the argument ends. */
  lemma ClosingQuote(n: nat, rest: Text, doubled: bool)
    requires Ends(rest)
    ensures ReadArgument(Backslashes(n * 2) + [QUOTE] + rest, true, doubled) == (Backslashes(n), rest)
  {
    hide ReadArgument, Backslashes;
    QuoteAfterRun(n * 2, rest, true, doubled);
    ReadsNothing(rest, doubled);
    assert Backslashes(n) + [] == Backslashes(n);
  }

  lemma OpeningQuote(rest: Text, doubled: bool)
    ensures ReadArgument([QUOTE] + rest, false, doubled) == ReadArgument(rest, true, doubled)
  {
    hide ReadArgument;
    QuoteAfterRun(0, rest, false, doubled);
    assert Backslashes(0) + [QUOTE] + rest == [QUOTE] + rest;
    var r := ReadArgument(rest, true, doubled);
    assert Backslashes(0) + r.0 == r.0;
  }

  lemma Regroup(run: Text, ch: Wide, tail: Text, rest: Text)
    ensures (run + [ch] + tail) + rest == run + [ch] + (tail + rest) == run + ([ch] + (tail + rest))
  {
  }

  lemma {:induction false} ReadsQuotedTail(argument: Text, n: nat, rest: Text, doubled: bool)
    requires Ends(rest)
    ensures ReadArgument(QuotedTail(argument, n) + rest, true, doubled) == (Backslashes(n) + argument, rest)
    decreases |argument|
  {
    hide ReadArgument, RunLength, NeedsQuotes;
    if argument == [] {
      ClosingQuote(n, rest, doubled);
      assert Backslashes(n) + argument == Backslashes(n);
    } else {
      var ch, tail := argument[0], argument[1..];
      assert argument == [ch] + tail;
      if ch == BACKSLASH {
        ReadsQuotedTail(tail, n + 1, rest, doubled);
        assert Backslashes(n + 1) + tail == Backslashes(n) + argument;
      } else {
        var more := QuotedTail(tail, 0) + rest;
        ReadsQuotedTail(tail, 0, rest, doubled);
        assert Backslashes(0) + tail == tail;
        assert Backslashes(n) + [ch] + tail == Backslashes(n) + argument;
        if ch == QUOTE {
          Regroup(Backslashes(n * 2 + 1), ch, QuotedTail(tail, 0), rest);
          EscapedQuote(n, more, true, doubled);
        } else {
          Regroup(Backslashes(n), ch, QuotedTail(tail, 0), rest);
          OrdinaryCharacter(n, ch, more, true, doubled);
        }
      }
    }
  }

  /** An argument printed without quotes is read literally. */
  lemma {:induction false} ReadsBare(argument: Text, rest: Text, doubled: bool)
    requires !NeedsQuotes(argument) && Ends(rest)
    ensures ReadArgument(argument + rest, false, doubled) == (argument, rest)
    decreases |argument|
  {
    hide ReadArgument;
    var n := RunLength(argument);
    if n == |argument| {
      assert argument == Backslashes(n);
      FinalRun(n, rest, doubled);
    } else {
      var ch, tail := argument[n], argument[n + 1..];
      assert argument == Backslashes(n) + [ch] + tail;
      assert argument + rest == Backslashes(n) + [ch] + (tail + rest);
      assert !NeedsQuotes(tail) by {
        assert forall i :: 0 <= i < |tail| ==> tail[i] == argument[n + 1 + i];
      }
      ReadsBare(tail, rest, doubled);
      OrdinaryCharacter(n, ch, tail + rest, false, doubled);
    }
  }

  /** Whatever the argument, the reader gets it back, with either reading of doubled quotes. */
  lemma ReadsQuoted(argument: Text, rest: Text, doubled: bool)
    requires Ends(rest)
    ensures ReadArgument(Quoted(argument) + rest, false, doubled) == (argument, rest)
    ensures Quoted(argument) != [] && !Separator(Quoted(argument)[0])
  {
    hide ReadArgument, RunLength;
    if argument == [] || NeedsQuotes(argument) {
      if argument == [] {
        assert QuotedTail([], 0) == [QUOTE];
      }
      var tail := QuotedTail(argument, 0) + rest;
      assert Quoted(argument) + rest == [QUOTE] + tail;
      OpeningQuote(tail, doubled);
      ReadsQuotedTail(argument, 0, rest, doubled);
      assert Backslashes(0) + argument == argument;
    } else {
      ReadsBare(argument, rest, doubled);
    }
  }

  lemma {:induction false} ReadsArguments(args: seq<Text>, doubled: bool)
    ensures Ends(QuotedArguments(args))
    ensures ReadArguments(QuotedArguments(args), doubled) == args
  {
    hide ReadArgument, Quoted;
    if args == [] {
    } else {
      var rest := QuotedArguments(args[1..]);
      var s := Quoted(args[0]) + rest;
      ReadsArguments(args[1..], doubled);
      assert QuotedArguments(args)[1..] == s;
      ReadsQuoted(args[0], rest, doubled);
    }
  }

  // ---- The program name ----

  predicate EndsInBackslash(s: Text) {
    s != [] && s[|s| - 1] == BACKSLASH
  }

  /** How many backslashes end `n` backslashes followed by `s`. */
  function TrailingRun(s: Text, n: nat): nat {
    if s == [] then n
    else if s[0] == BACKSLASH then TrailingRun(s[1..], n + 1)
    else TrailingRun(s[1..], 0)
  }

  lemma {:induction false} TrailingRunPositive(s: Text, n: nat)
    ensures TrailingRun(s, n) > 0 <==> if s == [] then n > 0 else EndsInBackslash(s)
  {
    if s == [] {
    } else {
      TrailingRunPositive(s[1..], if s[0] == BACKSLASH then n + 1 else 0);
    }
  }

  lemma ProgramCharacter(ch: Wide, rest: Text, quoted: bool)
    requires ch != QUOTE && (quoted || !Separator(ch))
    ensures ReadProgram([ch] + rest, quoted) ==
            var r := ReadProgram(rest, quoted);
            ([ch] + r.0, r.1)
  {
    assert ([ch] + rest)[1..] == rest;
  }

  lemma {:induction false} ProgramRun(n: nat, rest: Text, quoted: bool)
    ensures ReadProgram(Backslashes(n) + rest, quoted) ==
            var r := ReadProgram(rest, quoted);
            (Backslashes(n) + r.0, r.1)
  {
    hide ReadProgram;
    var r := ReadProgram(rest, quoted);
    if n == 0 {
      assert Backslashes(0) + rest == rest && Backslashes(0) + r.0 == r.0;
    } else {
      ProgramRun(n - 1, rest, quoted);
      assert Backslashes(n) + rest == [BACKSLASH] + (Backslashes(n - 1) + rest);
      ProgramCharacter(BACKSLASH, Backslashes(n - 1) + rest, quoted);
      assert [BACKSLASH] + (Backslashes(n - 1) + r.0) == Backslashes(n) + r.0;
    }
  }

  lemma ProgramQuote(rest: Text, quoted: bool)
    ensures ReadProgram([QUOTE] + rest, quoted) == ReadProgram(rest, !quoted)
  {
    assert ([QUOTE] + rest)[1..] == rest;
  }

  /** Without a quote in it, a quoted program name comes back with its trailing run doubled. */
  lemma {:induction false} ReadsQuotedProgram(exe: Text, n: nat, rest: Text)
    requires QUOTE !in exe && Ends(rest)
    ensures ReadProgram(QuotedTail(exe, n) + rest, true) ==
            (Backslashes(n) + exe + Backslashes(TrailingRun(exe, n)), rest)
    decreases |exe|
  {
    hide ReadProgram;
    if exe == [] {
      var close := [QUOTE] + rest;
      assert QuotedTail(exe, n) + rest == Backslashes(n * 2) + close;
      ProgramRun(n * 2, close, true);
      ProgramQuote(rest, true);
      ProgramEnd(rest);
      assert Backslashes(n * 2) + [] == Backslashes(n) + exe + Backslashes(n);
    } else {
      var ch, tail := exe[0], exe[1..];
      assert exe == [ch] + tail;
      if ch == BACKSLASH {
        ReadsQuotedProgram(tail, n + 1, rest);
        assert Backslashes(n + 1) + tail == Backslashes(n) + exe;
      } else {
        assert ch in exe;
        var more := QuotedTail(tail, 0) + rest;
        var end := Backslashes(TrailingRun(tail, 0));
        ReadsQuotedProgram(tail, 0, rest);
        assert QuotedTail(exe, n) + rest == Backslashes(n) + ([ch] + more);
        ProgramRun(n, [ch] + more, true);
        ProgramCharacter(ch, more, true);
        assert Backslashes(n) + ([ch] + (Backslashes(0) + tail + end)) == Backslashes(n) + exe + end;
      }
    }
  }

  lemma ProgramEnd(rest: Text)
    requires Ends(rest)
    ensures ReadProgram(rest, false) == ([], rest)
  {
  }

  lemma {:induction false} ReadsBareProgram(exe: Text, rest: Text)
    requires !NeedsQuotes(exe) && Ends(rest)
    ensures ReadProgram(exe + rest, false) == (exe, rest)
  {
    if exe == [] {
      assert exe + rest == rest;
    } else {
      assert exe[0] !in {SPACE, TAB, QUOTE};
      assert exe == [exe[0]] + exe[1..];
      assert exe + rest == [exe[0]] + (exe[1..] + rest);
      assert !NeedsQuotes(exe[1..]) by {
        assert forall i :: 0 <= i < |exe[1..]| ==> exe[1..][i] == exe[i + 1];
      }
      ReadsBareProgram(exe[1..], rest);
      ProgramCharacter(exe[0], exe[1..] + rest, false);
    }
  }

  lemma {:induction false} ProgramHasNoQuote(s: Text, quoted: bool)
    ensures QUOTE !in ReadProgram(s, quoted).0
  {
    if s == [] || (!quoted && Separator(s[0])) {
    } else {
      ProgramHasNoQuote(s[1..], if s[0] == QUOTE then !quoted else quoted);
    }
  }

  /** The program name as read back. */
  function ProgramRead(exe: Text): Text {
    if NeedsQuotes(exe) then exe + Backslashes(TrailingRun(exe, 0)) else exe
  }

  lemma ReadsProgram(exe: Text, rest: Text)
    requires QUOTE !in exe && Ends(rest)
    ensures ReadProgram(Quoted(exe) + rest, false) == (ProgramRead(exe), rest)
  {
    hide ReadProgram;
    if exe == [] || NeedsQuotes(exe) {
      if exe == [] {
        assert QuotedTail([], 0) == [QUOTE];
        assert Backslashes(0) + exe + Backslashes(TrailingRun(exe, 0)) == exe;
      }
      var tail := QuotedTail(exe, 0) + rest;
      assert Quoted(exe) + rest == [QUOTE] + tail;
      ProgramQuote(tail, false);
      ReadsQuotedProgram(exe, 0, rest);
      assert Backslashes(0) + exe == exe;
    } else {
      ReadsBareProgram(exe, rest);
    }
  }

  /** Splitting the command line gives back every argument, and the program name exactly when it has
      no quote and does not need quotes while ending in a backslash. */
  lemma CommandLineRoundTrip(exe: Text, args: seq<Text>, doubled: bool)
    ensures QUOTE !in exe ==>
              ReadArguments(ReadProgram(CommandLine(exe, args), false).1, doubled) == args
    ensures ReadProgram(CommandLine(exe, args), false).0 == exe <==>
            QUOTE !in exe && !(NeedsQuotes(exe) && EndsInBackslash(exe))
  {
    hide ReadProgram, Quoted;
    ReadsArguments(args, doubled);
    if QUOTE in exe {
      ProgramHasNoQuote(CommandLine(exe, args), false);
    } else {
      ReadsProgram(exe, QuotedArguments(args));
      TrailingRunPositive(exe, 0);
      if NeedsQuotes(exe) && EndsInBackslash(exe) {
        assert |ProgramRead(exe)| > |exe|;
      } else if NeedsQuotes(exe) {
        assert ProgramRead(exe) == exe;
      }
    }
  }

  // ---- Program names with quotes ----

  /** How the quotes of a program name leave the reader: it met a separator outside quotes, or it is
      inside or outside quotes at the end. */
  datatype Scanned = StopsEarly | Inside | Outside

  function Scan(exe: Text, quoted: bool): Scanned {
    if exe == [] then if quoted then Inside else Outside
    else if exe[0] == QUOTE then Scan(exe[1..], !quoted)
    else if !quoted && Separator(exe[0]) then StopsEarly
    else Scan(exe[1..], quoted)
  }

  /** The quotes in the name pair up, and no space or tab stands where they have been closed. */
  predicate Balanced(exe: Text) {
    Scan(exe, true).Inside?
  }

  lemma {:induction false} QuoteFreeIsBalanced(exe: Text)
    requires QUOTE !in exe
    ensures Balanced(exe)
  {
    if exe == [] {
    } else {
      assert exe[0] in exe;
      QuoteFreeIsBalanced(exe[1..]);
    }
  }

  /** What is left of the command line after its program name. */
  predicate Leaves(scanned: Scanned, left: Text, rest: Text) {
    match scanned
    case StopsEarly => |left| > |rest|
    case Inside => left == ReadProgram(rest, false).1
    case Outside => left == ReadProgram(rest, true).1
  }

  lemma {:induction false} ScannedTail(exe: Text, n: nat, rest: Text, quoted: bool)
    ensures Leaves(Scan(exe, quoted), ReadProgram(QuotedTail(exe, n) + rest, quoted).1, rest)
    decreases |exe|
  {
    hide ReadProgram;
    if exe == [] {
      assert QuotedTail(exe, n) + rest == Backslashes(n * 2) + ([QUOTE] + rest);
      ProgramRun(n * 2, [QUOTE] + rest, quoted);
      ProgramQuote(rest, quoted);
    } else {
      var ch, tail := exe[0], exe[1..];
      var more := QuotedTail(tail, 0) + rest;
      if ch == BACKSLASH {
        ScannedTail(tail, n + 1, rest, quoted);
      } else if ch == QUOTE {
        Regroup(Backslashes(n * 2 + 1), ch, QuotedTail(tail, 0), rest);
        ProgramRun(n * 2 + 1, [QUOTE] + more, quoted);
        ProgramQuote(more, quoted);
        ScannedTail(tail, 0, rest, !quoted);
      } else {
        Regroup(Backslashes(n), ch, QuotedTail(tail, 0), rest);
        ProgramRun(n, [ch] + more, quoted);
        if !quoted && Separator(ch) {
          StopsAtSeparator([ch] + more);
        } else {
          ProgramCharacter(ch, more, quoted);
          ScannedTail(tail, 0, rest, quoted);
        }
      }
    }
  }

  lemma StopsAtSeparator(s: Text)
    requires s != [] && Separator(s[0])
    ensures ReadProgram(s, false).1 == s
  {
  }

  lemma BareIsQuoteFree(exe: Text)
    requires !NeedsQuotes(exe)
    ensures QUOTE !in exe
  {
    assert forall i :: 0 <= i < |exe| ==> exe[i] != QUOTE;
  }

  lemma ScannedProgram(exe: Text, rest: Text)
    requires Ends(rest)
    ensures Leaves(Scan(exe, true), ReadProgram(Quoted(exe) + rest, false).1, rest)
  {
    hide ReadProgram, Scan, NeedsQuotes;
    if exe == [] || NeedsQuotes(exe) {
      if exe == [] {
        assert QuotedTail([], 0) == [QUOTE];
      }
      var tail := QuotedTail(exe, 0) + rest;
      assert Quoted(exe) + rest == [QUOTE] + tail;
      ProgramQuote(tail, false);
      ScannedTail(exe, 0, rest, true);
    } else {
      ReadsBareProgram(exe, rest);
      ProgramEnd(rest);
      BareIsQuoteFree(exe);
      QuoteFreeIsBalanced(exe);
    }
  }

  lemma {:induction false} ProgramLeavesSuffix(s: Text, quoted: bool)
    ensures var left := ReadProgram(s, quoted).1;
            |left| <= |s| && left == s[|s| - |left|..]
  {
    if s == [] || (!quoted && Separator(s[0])) {
    } else {
      ProgramLeavesSuffix(s[1..], if s[0] == QUOTE then !quoted else quoted);
    }
  }

  lemma {:induction false} NoArgumentsMeansBlank(s: Text, doubled: bool)
    requires ReadArguments(s, doubled) == [] && s != []
    ensures Separator(s[|s| - 1])
    decreases |s|
  {
    if |s| <= 1 {
    } else {
      NoArgumentsMeansBlank(s[1..], doubled);
    }
  }

  lemma {:induction false} QuotedEndsInQuote(exe: Text, n: nat)
    ensures var s := QuotedTail(exe, n); s != [] && s[|s| - 1] == QUOTE
    decreases |exe|
  {
    if exe == [] {
    } else {
      QuotedEndsInQuote(exe[1..], if exe[0] == BACKSLASH then n + 1 else 0);
    }
  }

  /** A program name that is not balanced swallows or splits some argument list. */
  lemma UnbalancedFails(exe: Text) returns (args: seq<Text>)
    requires !Balanced(exe)
    ensures ReadArguments(ReadProgram(CommandLine(exe, args), false).1, false) != args
  {
    hide ReadProgram, ReadArguments;
    if QUOTE !in exe {
      QuoteFreeIsBalanced(exe);
    }
    var at :| 0 <= at < |exe| && exe[at] == QUOTE;
    assert NeedsQuotes(exe);
    args := if Scan(exe, true).StopsEarly? then [] else [[0x61]];
    ScannedProgram(exe, QuotedArguments(args));
    if Scan(exe, true).StopsEarly? {
      var left := ReadProgram(Quoted(exe) + [], false).1;
      assert Quoted(exe) + [] == Quoted(exe);
      ProgramLeavesSuffix(Quoted(exe), false);
      QuotedEndsInQuote(exe, 0);
      assert left[|left| - 1] == QUOTE;
      if ReadArguments(left, false) == [] {
        NoArgumentsMeansBlank(left, false);
      }
    } else {
      SwallowsOne();
    }
  }

  lemma SwallowsOne()
    ensures QuotedArguments([[0x61]]) == [SPACE, 0x61]
    ensures ReadArguments(ReadProgram([SPACE, 0x61], true).1, false) == []
  {
    var args: seq<Text> := [[0x61]];
    assert args[1..] == [];
    assert Quoted([0x61]) == [0x61];
    assert QuotedArguments(args) == [SPACE] + [0x61] + [];
    assert [SPACE] + ([0x61] + []) == [SPACE, 0x61];
    ProgramCharacter(SPACE, [0x61] + [], true);
    ProgramCharacter(0x61, [], true);
  }

  /** Every argument list comes back exactly, with either reading of doubled quotes, if and only if the
      program name is balanced; a name without quotes is. */
  lemma ArgumentsSurvive(exe: Text)
    ensures Balanced(exe) <==>
              forall args: seq<Text>, doubled: bool ::
                ReadArguments(ReadProgram(CommandLine(exe, args), false).1, doubled) == args
    ensures QUOTE !in exe ==> Balanced(exe)
  {
    hide ReadProgram, ReadArguments, Quoted, Scan;
    if QUOTE !in exe {
      QuoteFreeIsBalanced(exe);
    }
    if Balanced(exe) {
      forall args: seq<Text>, doubled: bool
        ensures ReadArguments(ReadProgram(CommandLine(exe, args), false).1, doubled) == args
      {
        ReadsArguments(args, doubled);
        ScannedProgram(exe, QuotedArguments(args));
        ProgramEnd(QuotedArguments(args));
      }
    } else {
      var args := UnbalancedFails(exe);
    }
  }
}
