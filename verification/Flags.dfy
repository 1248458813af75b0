/** What each flag of the command line promises: one law a group of flags, over every state and everything behind it. */
module Flags {
  import opened Bytes
  import opened Args

  // ----- One flag at the head of the input -----

  function Long(name: string): Token { Token("--" + name, true) }

  function Short(letter: char): Token { Token(['-', letter], true) }

  lemma LongStep(st: State, parse: Parser, name: string, rest: seq<Token>)
    requires !st.endOfOptions && name != "" && LongAction(name).Some?
    ensures Step(st, parse, Long(name), rest) ==
            Perform(LongAction(name).value, st.(sawRunOption := true), parse, rest)
  {
    hide Perform, Otherwise, LongAction;
    var t := Long(name);
    assert t.text[0] == '-' && t.text[1] == '-' && t.text[2..] == name;
    assert t.text[..2][1] == '-';
  }

  /** A long flag at the head of the input. */
  lemma RunLong(st: State, parse: Parser, name: string, rest: seq<Token>)
    requires !st.endOfOptions && name != "" && LongAction(name).Some?
    ensures Run(st, parse, [Long(name)] + rest) ==
            match Perform(LongAction(name).value, Seen(st), parse, rest)
            case Stop(outcome) => outcome
            case Go(next, more) => Run(next, parse, more)
  {
    hide Run, Step, Perform, LongAction;
    RunUnfold(st, parse, Long(name), rest);
    LongStep(st, parse, name, rest);
  }

  /** A run option has been seen. */
  function Seen(st: State): State { st.(sawRunOption := true) }

  // ----- Two spellings -----

  /** The short flags and their long names. */
  const SPELLINGS: seq<(char, string)> := [
    ('n', "null-input"), ('R', "raw-input"), ('s', "slurp"), ('r', "raw-output"), ('e', "exit-status"), ('b', "binary"),
    ('S', "sort-keys"), ('j', "join-output"), ('a', "ascii-output"), ('M', "monochrome-output"), ('C', "color-output"),
    ('c', "compact-output"), ('f', "from-file"), ('L', "library-path"), ('o', "output-format"), ('V', "version")]

  /** A short flag and its long name do the same, whatever follows. */
  lemma ShortIsLong(st: State, parse: Parser, k: nat, rest: seq<Token>)
    requires !st.endOfOptions && k < |SPELLINGS|
    ensures Run(st, parse, [Short(SPELLINGS[k].0)] + rest) == Run(st, parse, [Long(SPELLINGS[k].1)] + rest)
  {
    hide Run, Step, Perform;
    var (letter, name) := SPELLINGS[k];
    SameAction(k);
    RunUnfold(st, parse, Short(letter), rest);
    RunUnfold(st, parse, Long(name), rest);
    ShortStep(st, parse, letter, rest);
    LongStep(st, parse, name, rest);
  }

  lemma SameAction(k: nat)
    requires k < |SPELLINGS|
    ensures var (letter, name) := SPELLINGS[k];
            letter != '-' && name != "" && ShortAction(letter).Some? && LongAction(name) == ShortAction(letter)
  {
    hide LongAction, ShortAction;
    if k < 5 {
      InputSpellings(k);
    } else if k < 11 {
      OutputSpellings(k);
    } else {
      OtherSpellings(k);
    }
  }

  lemma InputSpellings(k: nat)
    requires k < 5
    ensures var (letter, name) := SPELLINGS[k];
            letter != '-' && name != "" && ShortAction(letter).Some? && LongAction(name) == ShortAction(letter)
  {
  }

  lemma OutputSpellings(k: nat)
    requires 5 <= k < 11
    ensures var (letter, name) := SPELLINGS[k];
            letter != '-' && name != "" && ShortAction(letter).Some? && LongAction(name) == ShortAction(letter)
  {
  }

  lemma OtherSpellings(k: nat)
    requires 11 <= k < |SPELLINGS|
    ensures var (letter, name) := SPELLINGS[k];
            letter != '-' && name != "" && ShortAction(letter).Some? && LongAction(name) == ShortAction(letter)
  {
  }

  // ----- Switches -----

  predicate IsSwitch(name: string)
  {
    name in ["null-input", "raw-input", "slurp", "raw-output", "exit-status", "sort-keys", "join-output", "raw-output0",
             "ascii-output", "monochrome-output", "color-output", "unbuffered", "stream", "seq", "follow", "edit",
             "edit-expand-alias", "check", "in-place", "no-atomic", "no-config", "show-config", "diagnostics",
             "explain", "json-facts", "no-json-facts", "types-as-strings"]
  }

  /** Switches turn on what they are called, and may be given again. */
  lemma SwitchOn(st: State, parse: Parser, name: string, rest: seq<Token>)
    requires !st.endOfOptions
    requires IsSwitch(name)
    ensures Run(st, parse, [Long(name)] + rest) == Run(Seen(st).(switches := st.switches + {name}), parse, rest)
  {
    hide Run;
    SwitchAction(name);
    hide LongAction;
    RunLong(st, parse, name, rest);
  }

  lemma SwitchAction(name: string)
    requires IsSwitch(name)
    ensures name != "" && LongAction(name) == Some(Switch({name}))
  {
  }

  /** `--stream-errors` turns on streaming as well, and `--binary` nothing; two switches may be given only once. */
  lemma OtherSwitches(st: State, parse: Parser, name: string, rest: seq<Token>)
    requires !st.endOfOptions && name in ["header", "with-source"]
    ensures Run(st, parse, [Long("stream-errors")] + rest) ==
            Run(Seen(st).(switches := st.switches + {"stream", "stream-errors"}), parse, rest)
    ensures Run(st, parse, [Long("binary")] + rest) == Run(Seen(st), parse, rest)
    ensures Run(st, parse, [Long(name)] + rest) ==
            if name in st.switches then Failed(OnlyOnce(name))
            else Run(Seen(st).(switches := st.switches + {name}), parse, rest)
  {
    hide Run;
    StreamActions();
    OnceActions();
    hide LongAction;
    RunLong(st, parse, "stream-errors", rest);
    RunLong(st, parse, "binary", rest);
    RunLong(st, parse, name, rest);
  }

  lemma StreamActions()
    ensures LongAction("stream-errors") == Some(Switch({"stream", "stream-errors"}))
    ensures LongAction("binary") == Some(Ignore)
  {
  }

  lemma OnceActions()
    ensures LongAction("header") == Some(OnceSwitch("header"))
    ensures LongAction("with-source") == Some(OnceSwitch("with-source"))
  {
  }

  lemma ParallelActions()
    ensures LongAction("parallel") == Some(Parallel(true)) && LongAction("no-parallel") == Some(Parallel(false))
  {
  }

  /** The two parallelism switches may repeat and exclude each other. */
  lemma ParallelExclusive(st: State, parse: Parser, rest: seq<Token>)
    requires !st.endOfOptions
    ensures Run(st, parse, [Long("parallel")] + rest) ==
            if "parallel" in st.slots && st.slots["parallel"] != Token("true", true) then Failed(Exclusive)
            else Run(Seen(st).(slots := st.slots["parallel" := Token("true", true)]), parse, rest)
    ensures Run(st, parse, [Long("no-parallel")] + rest) ==
            if "parallel" in st.slots && st.slots["parallel"] != Token("false", true) then Failed(Exclusive)
            else Run(Seen(st).(slots := st.slots["parallel" := Token("false", true)]), parse, rest)
  {
    hide Run;
    ParallelActions();
    hide LongAction;
    RunLong(st, parse, "parallel", rest);
    RunLong(st, parse, "no-parallel", rest);
  }

  // ----- Values -----

  /** A flag that takes a UTF-8 value once: a repetition, a missing value, a value in another encoding and a value its
      parser rejects end the run, in this order; a cleared value leaves the flag as if it had not been given. */
  function ValueOnce(st: State, parse: Parser, name: string, others: set<string>, rest: seq<Token>): Outcome
  {
    if exists slot :: slot in {name} + others && slot in st.slots then Failed(OnlyOnce(name))
    else if rest == [] then Failed(RequiresValue(name))
    else if !rest[0].utf8 then Failed(ValueNotUtf8(name))
    else
      match parse(name, rest[0].text)
      case Reject => Failed(BadValue(name))
      case Keep => Run(Seen(st).(slots := st.slots[name := rest[0]]), parse, rest[1..])
      case Clear => Run(Seen(st), parse, rest[1..])
  }

  /** The same for a path, which may be in any encoding and is taken as it is. */
  function PathOnce(st: State, parse: Parser, slot: string, others: set<string>, rest: seq<Token>): Outcome
  {
    if exists other :: other in {slot} + others && other in st.slots then Failed(OnlyOnce(slot))
    else if rest == [] then Failed(RequiresValue(slot))
    else Run(Seen(st).(slots := st.slots[slot := rest[0]]), parse, rest[1..])
  }

  predicate IsValueFlag(name: string)
  {
    name in ["seed", "max-memory-bytes", "max-rss", "max-spill-bytes", "max-spill-disk-bytes", "max-iterations",
             "input-format", "input-dialect", "old-format", "new-format", "csv-delimiter", "output-format",
             "output-dialect", "render-header", "render-width", "render-shape", "render-max-width", "ndjson-terminator",
             "workers", "mismatch-policy", "strictness"]
  }

  lemma ValueFlag(st: State, parse: Parser, name: string, rest: seq<Token>)
    requires !st.endOfOptions
    requires IsValueFlag(name)
    ensures Run(st, parse, [Long(name)] + rest) == ValueOnce(st, parse, name, {}, rest)
  {
    hide Run;
    ValueAction(name);
    hide LongAction;
    ValueStep(st, parse, name, name, {}, rest);
  }

  lemma ValueAction(name: string)
    requires IsValueFlag(name)
    ensures name != "" && LongAction(name) == Some(OnceValue(name, {}))
  {
    hide LongAction;
    if name in ["seed", "max-memory-bytes", "max-rss", "max-spill-bytes", "max-spill-disk-bytes"] {
      LimitAction(name);
    } else if name in ["max-iterations", "input-format", "input-dialect", "old-format", "new-format"] {
      FormatAction(name);
    } else if name in ["csv-delimiter", "output-format", "output-dialect", "render-header", "render-width"] {
      DialectAction(name);
    } else {
      PolicyAction(name);
    }
  }

  lemma LimitAction(name: string)
    requires name in ["seed", "max-memory-bytes", "max-rss", "max-spill-bytes", "max-spill-disk-bytes"]
    ensures name != "" && LongAction(name) == Some(OnceValue(name, {}))
  {
  }

  lemma FormatAction(name: string)
    requires name in ["max-iterations", "input-format", "input-dialect", "old-format", "new-format"]
    ensures name != "" && LongAction(name) == Some(OnceValue(name, {}))
  {
  }

  lemma DialectAction(name: string)
    requires name in ["csv-delimiter", "output-format", "output-dialect", "render-header", "render-width"]
    ensures name != "" && LongAction(name) == Some(OnceValue(name, {}))
  {
  }

  lemma PolicyAction(name: string)
    requires name in ["render-shape", "render-max-width", "ndjson-terminator", "workers", "mismatch-policy",
                      "strictness"]
    ensures name != "" && LongAction(name) == Some(OnceValue(name, {}))
  {
  }

  lemma ValueStep(st: State, parse: Parser, flag: string, name: string, others: set<string>, rest: seq<Token>)
    requires !st.endOfOptions && flag != "" && LongAction(flag) == Some(OnceValue(name, others))
    ensures Run(st, parse, [Long(flag)] + rest) == ValueOnce(st, parse, name, others, rest)
  {
    hide Run, LongAction;
    RunLong(st, parse, flag, rest);
    var names := {name} + others;
    if slot :| slot in names && slot in st.slots {
      assert slot in names * st.slots.Keys;
    }
    assert name !in st.slots ==> st.slots - {name} == st.slots;
  }

  lemma PathStep(st: State, parse: Parser, flag: string, slot: string, others: set<string>, rest: seq<Token>)
    requires !st.endOfOptions && flag != "" && LongAction(flag) == Some(OncePath(slot, others))
    ensures Run(st, parse, [Long(flag)] + rest) == PathOnce(st, parse, slot, others, rest)
  {
    hide Run, LongAction;
    RunLong(st, parse, flag, rest);
    var names := {slot} + others;
    if other :| other in names && other in st.slots {
      assert other in names * st.slots.Keys;
    }
  }

  lemma PathFlag(st: State, parse: Parser, name: string, rest: seq<Token>)
    requires !st.endOfOptions && name in ["config", "schema", "plan-out", "plan-file", "output"]
    ensures Run(st, parse, [Long(name)] + rest) == PathOnce(st, parse, name, {}, rest)
    ensures Run(st, parse, [Long("from-file")] + rest) == PathOnce(st, parse, "program-file", {}, rest)
  {
    hide Run;
    PathAction(name);
    ProgramFileAction();
    hide LongAction;
    PathStep(st, parse, name, name, {}, rest);
    PathStep(st, parse, "from-file", "program-file", {}, rest);
  }

  lemma PathAction(name: string)
    requires name in ["config", "schema", "plan-out", "plan-file", "output"]
    ensures name != "" && LongAction(name) == Some(OncePath(name, {}))
  {
  }

  lemma ProgramFileAction()
    ensures LongAction("from-file") == Some(OncePath("program-file", {}))
  {
  }

  /** The two ways to name a split expression exclude each other and themselves. */
  lemma SplitExclusive(st: State, parse: Parser, rest: seq<Token>)
    requires !st.endOfOptions
    ensures Run(st, parse, [Long("split-exp")] + rest) == ValueOnce(st, parse, "split-exp", {"split-exp-file"}, rest)
    ensures Run(st, parse, [Long("split-exp-file")] + rest) ==
            PathOnce(st, parse, "split-exp-file", {"split-exp"}, rest)
  {
    hide Run;
    SplitActions();
    hide LongAction;
    ValueStep(st, parse, "split-exp", "split-exp", {"split-exp-file"}, rest);
    PathStep(st, parse, "split-exp-file", "split-exp-file", {"split-exp"}, rest);
  }

  lemma SplitActions()
    ensures LongAction("split-exp") == Some(OnceValue("split-exp", {"split-exp-file"}))
    ensures LongAction("split-exp-file") == Some(OncePath("split-exp-file", {"split-exp"}))
  {
  }

  /** The three indentation flags may repeat in any mix; the last one stands. */
  lemma LastIndent(st: State, parse: Parser, width: Token, rest: seq<Token>)
    requires !st.endOfOptions
    ensures Run(st, parse, [Long("compact-output")] + rest) ==
            Run(Seen(st).(slots := st.slots["indent" := Token("compact", true)]), parse, rest)
    ensures Run(st, parse, [Long("tab")] + rest) ==
            Run(Seen(st).(slots := st.slots["indent" := Token("tab", true)]), parse, rest)
    ensures width.utf8 && parse("indent", width.text) == Keep ==>
              Run(st, parse, [Long("indent"), width] + rest) ==
              Run(Seen(st).(slots := st.slots["indent" := width]), parse, rest)
    ensures Run(st, parse, [Long("indent")]) == Failed(RequiresValue("indent"))
    ensures !width.utf8 ==> Run(st, parse, [Long("indent"), width] + rest) == Failed(ValueNotUtf8("indent"))
    ensures width.utf8 && parse("indent", width.text) == Reject ==>
              Run(st, parse, [Long("indent"), width] + rest) == Failed(BadValue("indent"))
  {
    hide Run;
    IndentActions();
    hide LongAction;
    RunLong(st, parse, "compact-output", rest);
    RunLong(st, parse, "tab", rest);
    var more := [width] + rest;
    assert [Long("indent"), width] + rest == [Long("indent")] + more && more[1..] == rest;
    RunLong(st, parse, "indent", more);
    RunLong(st, parse, "indent", []);
    assert [Long("indent")] + [] == [Long("indent")];
  }

  lemma IndentActions()
    ensures LongAction("compact-output") == Some(SetSlot("indent", "compact"))
    ensures LongAction("tab") == Some(SetSlot("indent", "tab")) && LongAction("indent") == Some(LastValue("indent"))
  {
    hide LongAction;
    TabAction();
    WidthAction();
    CompactAction();
  }

  lemma CompactAction()
    ensures LongAction("compact-output") == Some(SetSlot("indent", "compact"))
  {
  }

  lemma TabAction()
    ensures LongAction("tab") == Some(SetSlot("indent", "tab"))
  {
  }

  lemma WidthAction()
    ensures LongAction("indent") == Some(LastValue("indent"))
  {
  }

  /** A binding takes its name first and its value second; the value of a file binding is a path in any encoding. */
  lemma NameThenValue(st: State, parse: Parser, name: Token, value: Token, rest: seq<Token>)
    requires !st.endOfOptions && name.utf8
    ensures value.utf8 ==>
              Run(st, parse, [Long("arg"), name, value] + rest) == Run(Bound(st, Arg, name, value), parse, rest) &&
              Run(st, parse, [Long("argjson"), name, value] + rest) == Run(Bound(st, ArgJson, name, value), parse, rest)
    ensures Run(st, parse, [Long("slurpfile"), name, value] + rest) ==
            Run(Bound(st, SlurpFile, name, value), parse, rest)
    ensures Run(st, parse, [Long("rawfile"), name, value] + rest) ==
            Run(Bound(st, RawFile, name, value), parse, rest)
  {
    hide Run, LongAction;
    BindActions();
    if value.utf8 {
      BindStep(st, parse, "arg", Arg, name, value, rest);
      BindStep(st, parse, "argjson", ArgJson, name, value, rest);
    }
    BindStep(st, parse, "slurpfile", SlurpFile, name, value, rest);
    BindStep(st, parse, "rawfile", RawFile, name, value, rest);
  }

  lemma BindActions()
    ensures LongAction("arg") == Some(Bind(Arg)) && LongAction("argjson") == Some(Bind(ArgJson))
    ensures LongAction("slurpfile") == Some(Bind(SlurpFile)) && LongAction("rawfile") == Some(Bind(RawFile))
  {
    hide LongAction;
    TextBindActions();
    FileBindActions();
  }

  lemma TextBindActions()
    ensures LongAction("arg") == Some(Bind(Arg)) && LongAction("argjson") == Some(Bind(ArgJson))
  {
  }

  lemma FileBindActions()
    ensures LongAction("slurpfile") == Some(Bind(SlurpFile)) && LongAction("rawfile") == Some(Bind(RawFile))
  {
  }

  lemma ModeActions()
    ensures LongAction("args") == Some(SetMode(StringArgs)) && LongAction("jsonargs") == Some(SetMode(JsonArgs))
  {
  }

  lemma DiffAction()
    ensures LongAction("diff") == Some(PairOnce("diff"))
  {
  }

  function Bound(st: State, kind: BindingKind, name: Token, value: Token): State
  {
    Seen(st).(bindings := st.bindings + [Binding(kind, name.text, value)])
  }

  lemma BindStep(st: State, parse: Parser, flag: string, kind: BindingKind, name: Token, value: Token, rest: seq<Token>)
    requires !st.endOfOptions && name.utf8 && flag != "" && LongAction(flag) == Some(Bind(kind))
    requires value.utf8 || kind == SlurpFile || kind == RawFile
    ensures Run(st, parse, [Long(flag), name, value] + rest) == Run(Bound(st, kind, name, value), parse, rest)
  {
    hide Run, Step, LongAction;
    var more := [name, value] + rest;
    assert [Long(flag), name, value] + rest == [Long(flag)] + more;
    RunUnfold(st, parse, Long(flag), more);
    LongStep(st, parse, flag, more);
    assert more[1..] == [value] + rest && more[1..][1..] == rest;
  }

  /** The mode of later positional values. */
  lemma Modes(st: State, parse: Parser, rest: seq<Token>)
    requires !st.endOfOptions
    ensures Run(st, parse, [Long("args")] + rest) ==
            Run(Seen(st).(mode := Some(StringArgs)), parse, rest)
    ensures Run(st, parse, [Long("jsonargs")] + rest) ==
            Run(Seen(st).(mode := Some(JsonArgs)), parse, rest)
  {
    hide Run, LongAction;
    ModeActions();
    RunUnfold(st, parse, Long("args"), rest);
    RunUnfold(st, parse, Long("jsonargs"), rest);
    LongStep(st, parse, "args", rest);
    LongStep(st, parse, "jsonargs", rest);
    hide Step;
  }

  /** `--diff` takes the old document first; a second one is refused. */
  lemma OldThenNew(st: State, parse: Parser, before: Token, after: Token, rest: seq<Token>)
    requires !st.endOfOptions
    ensures Run(st, parse, [Long("diff"), before, after] + rest) ==
            if "diff" in st.slots then Failed(OnlyOnce("diff"))
            else Run(Seen(st).(slots := st.slots["diff" := before]["diff-new" := after]), parse, rest)
  {
    hide Run, LongAction;
    DiffAction();
    var more := [before, after] + rest;
    assert [Long("diff"), before, after] + rest == [Long("diff")] + more;
    RunUnfold(st, parse, Long("diff"), more);
    LongStep(st, parse, "diff", more);
    hide Step;
    assert more[1..] == [after] + rest && more[1..][1..] == rest;
    assert "diff" + "-new" == "diff-new";
  }

  /** The directory may be attached to `-L` or follow it. */
  lemma AttachedLibrary(st: State, parse: Parser, dir: string, utf8: bool, rest: seq<Token>)
    requires !st.endOfOptions && dir != ""
    ensures Run(st, parse, [Token("-L" + dir, utf8)] + rest) == Run(st, parse, [Short('L'), Token(dir, utf8)] + rest)
    ensures Run(st, parse, [Short('L'), Token(dir, utf8)] + rest) ==
            Run(Seen(st).(libraryPaths := st.libraryPaths + [Token(dir, utf8)]), parse, rest)
  {
    hide Run, LongAction, Otherwise;
    var t, more := Token("-L" + dir, utf8), [Token(dir, utf8)] + rest;
    assert [Short('L'), Token(dir, utf8)] + rest == [Short('L')] + more;
    RunUnfold(st, parse, t, rest);
    RunUnfold(st, parse, Short('L'), more);
    ShortStep(st, parse, 'L', more);
    assert t.text[..2] == "-L" && t.text[2..] == dir && t.text != "--" && t.text != "-" by { assert t.text[1] == 'L'; }
    assert more[0] == Token(dir, utf8) && more[1..] == rest;
    hide Step;
  }

  // ----- Commands -----

  /** Commands end the parse at once, whatever stands before and behind them. */
  lemma CommandFlag(st: State, parse: Parser, name: string, rest: seq<Token>)
    requires !st.endOfOptions
    requires name in ["version", "list-builtins", "list-formats", "build-configuration"]
    ensures Run(st, parse, [Long(name)] + rest) == Command(name, None)
    ensures Run(st, parse, [Short('h')] + rest) == Command("short-help", None)
    ensures Run(st, parse, [Long("help")] + rest) ==
            if rest == [] then Command("help", None)
            else if rest[0].utf8 && parse("help", rest[0].text) != Reject then Command("help", Some(rest[0]))
            else Failed(BadValue("help"))
  {
    hide Run;
    CommandAction(name);
    HelpActions();
    hide LongAction, ShortAction;
    RunLong(st, parse, name, rest);
    RunLong(st, parse, "help", rest);
    RunUnfold(st, parse, Short('h'), rest);
    ShortStep(st, parse, 'h', rest);
    hide Step;
  }

  lemma CommandAction(name: string)
    requires name in ["version", "list-builtins", "list-formats", "build-configuration"]
    ensures name != "" && LongAction(name) == Some(Command0(name))
  {
  }

  lemma HelpActions()
    ensures LongAction("help") == Some(Help) && ShortAction('h') == Some(Command0("short-help"))
  {
  }

  /** Two commands need a value. */
  lemma CommandWithValue(st: State, parse: Parser, name: string, rest: seq<Token>)
    requires !st.endOfOptions && name in ["help-format", "explain-code"]
    ensures Run(st, parse, [Long(name)] + rest) ==
            if rest == [] then Failed(RequiresValue(name))
            else if !rest[0].utf8 then Failed(ValueNotUtf8(name))
            else if parse(name, rest[0].text) == Reject then Failed(BadValue(name))
            else Command(name, Some(rest[0]))
  {
    hide Run;
    ValueCommands();
    hide LongAction;
    RunLong(st, parse, name, rest);
  }

  lemma ValueCommands()
    ensures LongAction("help-format") == Some(CommandValue("help-format"))
    ensures LongAction("explain-code") == Some(CommandValue("explain-code"))
  {
  }

  /** The reserved keyword in the program's place is the subcommand, unless a run option stands before it; behind a
      program or under `--follow` it is ordinary text. */
  lemma ServeKeyword(st: State, parse: Parser, rest: seq<Token>)
    requires !st.endOfOptions
    ensures var t := Token("serve", true);
            if st.program.Some? || "program-file" in st.slots || "follow" in st.switches
            then Step(st, parse, t, rest) == Positional(st, t, rest)
            else Run(st, parse, [t] + rest) == if st.sawRunOption then Failed(OptionsBeforeKeyword) else Serve(rest)
  {
    hide Run, Perform, LongAction, ShortAction;
    RunUnfold(st, parse, Token("serve", true), rest);
    assert "serve"[0] == 's' && "serve"[..2][0] == 's';
  }

  // ----- Combined short flags -----

  /** The letters that combine. */
  predicate Combine(letters: string) { forall k :: 0 <= k < |letters| ==> letters[k] in "nrRscfheSjaMCLb" }

  /** Two or more of the fifteen letters behind one dash are those flags one by one, in the order written; one other
      character among them, behind a letter, makes the whole an unknown option. */
  lemma Combined(st: State, parse: Parser, letters: string, rest: seq<Token>)
    requires !st.endOfOptions && |letters| >= 2 && letters[0] != '-' && letters[0] != 'L'
    ensures var single := seq(|letters|, k requires 0 <= k < |letters| => Token(['-', letters[k]], true));
            var joined := Run(st, parse, [Token("-" + letters, true)] + rest);
            if Combine(letters) then joined == Run(st, parse, single + rest)
            else IsAsciiLetter(letters[0]) ==> joined == Failed(UnknownOption("-" + letters))
  {
    hide Run, Step, Combine, IsCluster, IsAsciiLetter;
    var t := Token("-" + letters, true);
    assert t.text[1..] == letters && t.text[0] == '-' && t.text[1] == letters[0];
    SeparateIs(letters);
    CombineIsCluster(letters);
    if Combine(letters) {
      ClusterIsSeparate(st, parse, t, rest);
    } else {
      UnknownClusterRejected(st, parse, t, rest);
    }
  }

  lemma CombineIsCluster(letters: string)
    requires |letters| >= 2 && letters[0] != '-'
    ensures IsCluster(Token("-" + letters, true)) <==> Combine(letters)
  {
    hide Combine;
    var text := "-" + letters;
    ClusterLetters();
    hide CLUSTER_LETTERS;
    assert forall k :: 0 <= k < |letters| ==> text[k + 1] == letters[k];
    assert forall k :: 1 <= k < |text| ==> text[k] == letters[k - 1];
    assert Combine(letters) <==> forall k :: 0 <= k < |letters| ==> letters[k] in CLUSTER_LETTERS by {
      hide *;
      CombineIs(letters);
    }
  }

  lemma CombineIs(letters: string)
    ensures Combine(letters) <==> forall k :: 0 <= k < |letters| ==> letters[k] in CLUSTER_LETTERS
  {
    hide CLUSTER_LETTERS;
    ClusterLetters();
  }

  lemma ClusterLetters()
    ensures forall c: char :: c in CLUSTER_LETTERS <==> c in "nrRscfheSjaMCLb"
  {
  }

  lemma {:induction false} SeparateIs(letters: string)
    ensures Separate(letters) == seq(|letters|, k requires 0 <= k < |letters| => Token(['-', letters[k]], true))
  {
    if letters != "" {
      SeparateIs(letters[1..]);
    }
  }

  // ----- Everything else -----

  /** A long spelling that no law above speaks of is an unknown option. */
  lemma UnknownLong(st: State, parse: Parser, name: string, rest: seq<Token>)
    requires !st.endOfOptions && name != ""
    requires !IsSwitch(name) && !IsValueFlag(name)
    requires name !in ["stream-errors", "binary", "header", "with-source", "parallel", "no-parallel", "config",
                       "schema", "plan-out", "plan-file", "output", "from-file", "split-exp", "split-exp-file",
                       "compact-output", "tab", "indent", "library-path", "arg", "argjson", "slurpfile", "rawfile",
                       "args", "jsonargs", "diff", "version", "list-builtins", "list-formats", "build-configuration",
                       "help", "help-format", "explain-code"]
    ensures Run(st, parse, [Long(name)] + rest) == Failed(UnknownOption("--" + name))
  {
    hide Run, Perform;
    var t := Long(name);
    assert LongAction(name) == None;
    hide LongAction;
    RunUnfold(st, parse, t, rest);
    assert t.text[0] == '-' && t.text[1] == '-' && t.text[2..] == name && t.text[..2][1] == '-';
  }

  /** A single dash before an ASCII letter is an option, known or not; before anything else it is ordinary text. */
  lemma OtherShort(st: State, parse: Parser, letter: char, rest: seq<Token>)
    requires !st.endOfOptions && letter != '-' && letter !in "LhVfnRsrebSjaMCco"
    ensures 'a' <= letter <= 'z' || 'A' <= letter <= 'Z' ==>
              Run(st, parse, [Short(letter)] + rest) == Failed(UnknownOption(['-', letter]))
    ensures !('a' <= letter <= 'z' || 'A' <= letter <= 'Z') ==>
              Step(st, parse, Short(letter), rest) == Positional(Seen(st), Short(letter), rest)
  {
    hide Run, Perform, LongAction;
    var t := Short(letter);
    assert ShortAction(letter) == None;
    hide ShortAction;
    RunUnfold(st, parse, t, rest);
    assert t.text[0] == '-' && t.text[1] == letter && t.text != "--" && t.text != "serve";
  }

  /** A token in another encoding is the same usage error when it is spelled like an option, and ordinary text else; no
      table speaks of it. */
  lemma OtherEncoding(st: State, parse: Parser, t: Token, rest: seq<Token>)
    requires !st.endOfOptions && !t.utf8 && !(|t.text| > 2 && t.text[..2] == "-L")
    ensures var second := if |t.text| >= 2 && t.text[0] == '-' then t.text[1] else ' ';
            if second == '-' || 'a' <= second <= 'z' || 'A' <= second <= 'Z'
            then Run(st, parse, [t] + rest) == Failed(UnknownOption(t.text))
            else Step(st, parse, t, rest) == Positional(if t.text != "" && t.text[0] == '-' && t.text != "-"
                                                        then Seen(st) else st, t, rest)
  {
    hide Run, Perform, LongAction, ShortAction;
    RunUnfold(st, parse, t, rest);
  }
}
