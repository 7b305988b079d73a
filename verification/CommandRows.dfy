/** Four rows of the grammar table, what the constraint pass comes to on them,
    and the checks that the commands' own handlers repeat on what they get. */
module CommandRows {
  import opened Basics
  import opened Decimal
  import opened Integers
  import opened Grammar
  import opened Constraints
  import opened Tokens
  import opened Pipeline

  function Plain(key: string): Arg {
    Arg(key, false, false, [], [], None)
  }

  function Required(key: string): Arg {
    Arg(key, true, false, [], [], None)
  }

  function Linked(key: string, needs: seq<string>, conflicts: seq<string>): Arg {
    Arg(key, false, false, needs, conflicts, None)
  }

  const PULL := Syntax(
    [Plain("remote"), Plain("line"), Linked("merge", ["restore"], []), Plain("restore"),
     Linked("force", ["restore"], ["merge"]), Plain("json")],
    [Group("@PullArgs", ["remote", "line", "merge", "restore", "force", "json"], false)])

  const BLAME := Syntax(
    [Required("#0"), Linked("line", [], ["start", "end"]), Linked("start", ["end"], ["line"]),
     Linked("end", ["start"], ["line"]), Linked("snapshot", [], ["patchset", "plan-id", "plan-ref"]),
     Linked("via-parent", ["snapshot"], []), Linked("patchset", [], ["snapshot", "plan-id", "plan-ref"]),
     Linked("remote", ["patchset"], []), Linked("plan-id", [], ["plan-ref", "snapshot", "patchset"]),
     Linked("plan-ref", [], ["plan-id", "snapshot", "patchset"]), Plain("json")],
    [Group("@BlameArgs", ["#0", "line", "start", "end", "snapshot", "via-parent", "patchset", "remote",
                          "plan-id", "plan-ref", "json"], false)])

  const EXTERNAL_UPDATE := Syntax(
    [Linked("#0", ["@target_selection"], ["locked"]), Linked("to", ["#0"], ["latest", "locked"]),
     Linked("latest", ["#0"], ["to", "locked"]), Linked("locked", [], ["#0", "to", "latest"]),
     Plain("validate"), Plain("no-recursive"), Plain("json")],
    [Group("@ExternalUpdateArgs", ["#0", "to", "latest", "locked", "validate", "no-recursive", "json"], false),
     Group("@target_selection", ["to", "latest"], false)])

  const TASK_START := Syntax(
    [Arg("title", false, false, [], ["from"], Some(["from"])), Required("intent"), Linked("from", [], ["title"]),
     Plain("edit-root"), Linked("local", [], ["remote"]), Linked("remote", [], ["local"]), Plain("json"),
     Linked("full", ["json"], [])],
    [Group("@TaskStartArgs", ["title", "intent", "from", "edit-root", "local", "remote", "json", "full"], false)])

  // ----- what a row asks for, on the keys that were given

  predicate PullRule(given: set<string>) {
    && ("merge" in given ==> "restore" in given)
    && ("force" in given ==> "restore" in given && "merge" !in given)
  }

  predicate BlameRule(given: set<string>) {
    && "#0" in given
    && !("line" in given && ("start" in given || "end" in given))
    && ("start" in given <==> "end" in given)
    && |given * {"snapshot", "patchset", "plan-id", "plan-ref"}| <= 1
    && ("via-parent" in given ==> "snapshot" in given)
    && ("remote" in given ==> "patchset" in given)
  }

  predicate ExternalUpdateRule(given: set<string>) {
    && !("to" in given && "latest" in given)
    && ("#0" in given <==> "to" in given || "latest" in given)
    && ("locked" in given ==> "#0" !in given && "to" !in given && "latest" !in given)
  }

  predicate TaskStartRule(given: set<string>) {
    && "intent" in given
    && ("title" in given <==> "from" !in given)
    && !("local" in given && "remote" in given)
    && ("full" in given ==> "json" in given)
  }

  // ----- the one-step rule, argument by argument

  /** All keys that count as satisfied. */
  ghost function SatisfiedKeys(syntax: Syntax, present: set<string>): (keys: set<string>)
    ensures forall key :: key in keys <==> Satisfied(syntax, present, key)
  {
    present + set key | key in GroupsByKey(syntax.groups) && Satisfied(syntax, present, key)
  }

  /** One argument's part of the rule. */
  ghost predicate ArgumentFits(a: Arg, present: set<string>, satisfied: set<string>) {
    && (a.key in present ==>
          && (forall other :: other in a.conflicts ==> other !in present)
          && (forall d :: d in a.needs ==> d in satisfied))
    && (a.required ==> a.key in satisfied)
    && (a.unless.Some? ==> a.key in satisfied || exists u :: u in a.unless.value && u in satisfied)
  }

  ghost predicate FitBelow(args: seq<Arg>, present: set<string>, satisfied: set<string>, n: nat)
    requires n <= |args|
    decreases n
  {
    n == 0 || (FitBelow(args, present, satisfied, n - 1) && ArgumentFits(args[n - 1], present, satisfied))
  }

  lemma {:induction false} FitBelowIsForAll(args: seq<Arg>, present: set<string>, satisfied: set<string>, n: nat)
    requires n <= |args|
    ensures FitBelow(args, present, satisfied, n) <==>
            forall i :: 0 <= i < n ==> ArgumentFits(args[i], present, satisfied)
  {
    if n > 0 { FitBelowIsForAll(args, present, satisfied, n - 1); }
  }

  lemma OneStepByArgument(syntax: Syntax, present: set<string>)
    requires forall g :: g in syntax.groups ==> !g.required
    ensures OneStep(syntax, present) <==>
            FitBelow(syntax.args, present, SatisfiedKeys(syntax, present), |syntax.args|)
  {
    var satisfied := SatisfiedKeys(syntax, present);
    FitBelowIsForAll(syntax.args, present, satisfied, |syntax.args|);
    if OneStep(syntax, present) {
      forall i | 0 <= i < |syntax.args| ensures ArgumentFits(syntax.args[i], present, satisfied) {
        assert syntax.args[i] in syntax.args;
      }
    }
    if forall i :: 0 <= i < |syntax.args| ==> ArgumentFits(syntax.args[i], present, satisfied) {
      assert forall a :: a in syntax.args ==> ArgumentFits(a, present, satisfied);
    }
  }

  lemma ArgumentSatisfied(syntax: Syntax, present: set<string>, i: nat)
    requires WellFormed(syntax) && i < |syntax.args|
    ensures syntax.args[i].key in SatisfiedKeys(syntax, present) <==> syntax.args[i].key in present
  {
    assert syntax.args[i] in syntax.args && syntax.args[i].key !in GroupsByKey(syntax.groups);
  }

  /** Keys that differ in their length, or in their first or second letter. */
  predicate Unlike(a: string, b: string) {
    |a| != |b| || (|a| > 0 && a[0] != b[0]) || (|a| > 1 && a[1] != b[1])
  }

  predicate BeginsWith(key: string, letter: char) {
    |key| > 0 && key[0] == letter
  }

  predicate UnlikeBelow(key: string, args: seq<Arg>, n: nat)
    requires n <= |args|
    decreases n
  {
    n == 0 || (UnlikeBelow(key, args, n - 1) && Unlike(key, args[n - 1].key))
  }

  /** Argument keys are unlike each other, and none begins like a group key. */
  predicate KeysBelow(args: seq<Arg>, n: nat)
    requires n <= |args|
    decreases n
  {
    || n == 0
    || (KeysBelow(args, n - 1) && UnlikeBelow(args[n - 1].key, args, n - 1)
        && !BeginsWith(args[n - 1].key, '@'))
  }

  lemma {:induction false} UnlikeIsDifferent(key: string, args: seq<Arg>, n: nat)
    requires n <= |args| && UnlikeBelow(key, args, n)
    ensures forall i :: 0 <= i < n ==> args[i].key != key
  {
    if n > 0 { UnlikeIsDifferent(key, args, n - 1); }
  }

  lemma {:induction false} KeysAreDistinct(args: seq<Arg>, n: nat)
    requires n <= |args| && KeysBelow(args, n)
    ensures forall i, j :: 0 <= i < j < n ==> args[i].key != args[j].key
    ensures forall i :: 0 <= i < n ==> !BeginsWith(args[i].key, '@')
  {
    if n > 0 {
      KeysAreDistinct(args, n - 1);
      UnlikeIsDifferent(args[n - 1].key, args, n - 1);
    }
  }

  lemma RowIsWellFormed(syntax: Syntax)
    requires KeysBelow(syntax.args, |syntax.args|)
    requires forall i :: 0 <= i < |syntax.groups| ==> BeginsWith(syntax.groups[i].key, '@')
    ensures WellFormed(syntax)
  {
    KeysAreDistinct(syntax.args, |syntax.args|);
  }

  // ----- pull

  lemma PullRow()
    ensures WellFormed(PULL)
  {
    assert KeysBelow(PULL.args, 6);
    RowIsWellFormed(PULL);
  }

  lemma PullArguments(present: set<string>, satisfied: set<string>)
    requires "restore" in satisfied <==> "restore" in present
    ensures FitBelow(PULL.args, present, satisfied, 6) <==> PullRule(present)
  {
  }

  /** On pull the grammar accepts exactly by the rule. */
  lemma PullDecision(present: set<string>)
    ensures OneStep(PULL, present) <==> PullRule(present)
  {
    PullRow();
    OneStepByArgument(PULL, present);
    ArgumentSatisfied(PULL, present, 3);
    PullArguments(present, SatisfiedKeys(PULL, present));
  }

  // ----- blame

  lemma BlameRow()
    ensures WellFormed(BLAME)
  {
    assert KeysBelow(BLAME.args, 11);
    RowIsWellFormed(BLAME);
  }

  lemma AtMostOneOfFour(given: set<string>, a: string, b: string, c: string, d: string)
    requires a != b && a != c && a != d && b != c && b != d && c != d
    ensures |given * {a, b, c, d}| <= 1 <==>
            && !(a in given && (b in given || c in given || d in given))
            && !(b in given && (c in given || d in given))
            && !(c in given && d in given)
  {
    var four := given * {a, b, c, d};
    assert (a in four <==> a in given) && (b in four <==> b in given) && (c in four <==> c in given) && (d in four <==> d in given);
    forall x, y | x in four && y in four && x != y ensures |four| > 1 {
      assert |four - {x}| == |four| - 1;
      assert y in four - {x};
    }
    if |four| > 1 {
      var x :| x in four;
      assert |four - {x}| == |four| - 1;
      var y :| y in four - {x};
    }
  }

  lemma BlameRange(present: set<string>, satisfied: set<string>)
    requires "#0" in satisfied <==> "#0" in present
    requires "start" in satisfied <==> "start" in present
    requires "end" in satisfied <==> "end" in present
    ensures FitBelow(BLAME.args, present, satisfied, 4) <==>
            && "#0" in present && !("line" in present && ("start" in present || "end" in present))
            && ("start" in present <==> "end" in present)
  {
  }

  lemma BlameVersions(present: set<string>, satisfied: set<string>)
    requires "snapshot" in satisfied <==> "snapshot" in present
    requires "patchset" in satisfied <==> "patchset" in present
    ensures FitBelow(BLAME.args, present, satisfied, 8) <==>
            && FitBelow(BLAME.args, present, satisfied, 4)
            && !("snapshot" in present && ("patchset" in present || "plan-id" in present || "plan-ref" in present))
            && !("patchset" in present && ("snapshot" in present || "plan-id" in present || "plan-ref" in present))
            && ("via-parent" in present ==> "snapshot" in present)
            && ("remote" in present ==> "patchset" in present)
  {
  }

  lemma BlamePlans(present: set<string>, satisfied: set<string>)
    ensures FitBelow(BLAME.args, present, satisfied, 11) <==>
            && FitBelow(BLAME.args, present, satisfied, 8)
            && !("plan-id" in present && ("plan-ref" in present || "snapshot" in present || "patchset" in present))
            && !("plan-ref" in present && ("plan-id" in present || "snapshot" in present || "patchset" in present))
  {
  }

  lemma BlameArguments(present: set<string>, satisfied: set<string>)
    requires "#0" in satisfied <==> "#0" in present
    requires "start" in satisfied <==> "start" in present
    requires "end" in satisfied <==> "end" in present
    requires "snapshot" in satisfied <==> "snapshot" in present
    requires "patchset" in satisfied <==> "patchset" in present
    ensures FitBelow(BLAME.args, present, satisfied, 11) <==> BlameRule(present)
  {
    BlameRange(present, satisfied);
    BlameVersions(present, satisfied);
    BlamePlans(present, satisfied);
    AtMostOneOfFour(present, "snapshot", "patchset", "plan-id", "plan-ref");
  }

  lemma BlameSatisfied(present: set<string>)
    requires WellFormed(BLAME)
    ensures var satisfied := SatisfiedKeys(BLAME, present);
            && ("#0" in satisfied <==> "#0" in present)
            && ("start" in satisfied <==> "start" in present) && ("end" in satisfied <==> "end" in present)
            && ("snapshot" in satisfied <==> "snapshot" in present)
            && ("patchset" in satisfied <==> "patchset" in present)
  {
    ArgumentSatisfied(BLAME, present, 0);
    ArgumentSatisfied(BLAME, present, 2);
    ArgumentSatisfied(BLAME, present, 3);
    ArgumentSatisfied(BLAME, present, 4);
    ArgumentSatisfied(BLAME, present, 6);
  }

  /** On blame, with its cycle of --start and --end, the grammar accepts exactly
      by the rule. */
  lemma BlameDecision(present: set<string>)
    ensures OneStep(BLAME, present) <==> BlameRule(present)
  {
    BlameRow();
    OneStepByArgument(BLAME, present);
    BlameSatisfied(present);
    BlameArguments(present, SatisfiedKeys(BLAME, present));
  }

  // ----- external update

  lemma ExternalUpdateRow()
    ensures WellFormed(EXTERNAL_UPDATE)
  {
    assert KeysBelow(EXTERNAL_UPDATE.args, 7);
    RowIsWellFormed(EXTERNAL_UPDATE);
  }

  lemma TargetSelection(present: set<string>)
    requires "@target_selection" !in present
    ensures Satisfied(EXTERNAL_UPDATE, present, "@target_selection") <==> "to" in present || "latest" in present
  {
    var groups := EXTERNAL_UPDATE.groups;
    assert groups[1] in groups;
    assert GroupsByKey(groups)["@target_selection"] == groups[1];
  }

  lemma ExternalUpdateTargets(present: set<string>, satisfied: set<string>)
    requires "#0" in satisfied <==> "#0" in present
    requires "@target_selection" in satisfied <==> "to" in present || "latest" in present
    ensures FitBelow(EXTERNAL_UPDATE.args, present, satisfied, 2) <==>
            && ("#0" in present ==> ("to" in present || "latest" in present) && "locked" !in present)
            && ("to" in present ==> "#0" in present && "latest" !in present && "locked" !in present)
  {
  }

  lemma ExternalUpdateArguments(present: set<string>, satisfied: set<string>)
    requires "#0" in satisfied <==> "#0" in present
    requires "@target_selection" in satisfied <==> "to" in present || "latest" in present
    ensures FitBelow(EXTERNAL_UPDATE.args, present, satisfied, 7) <==> ExternalUpdateRule(present)
  {
    ExternalUpdateTargets(present, satisfied);
  }

  /** On external update the grammar, through its group, accepts exactly by the
      rule. A group key is never supplied: no option has one. */
  lemma ExternalUpdateDecision(present: set<string>)
    requires "@target_selection" !in present
    ensures OneStep(EXTERNAL_UPDATE, present) <==> ExternalUpdateRule(present)
  {
    ExternalUpdateRow();
    OneStepByArgument(EXTERNAL_UPDATE, present);
    ArgumentSatisfied(EXTERNAL_UPDATE, present, 0);
    TargetSelection(present);
    ExternalUpdateArguments(present, SatisfiedKeys(EXTERNAL_UPDATE, present));
  }

  // ----- task start

  lemma TaskStartRow()
    ensures WellFormed(TASK_START)
  {
    assert KeysBelow(TASK_START.args, 8);
    RowIsWellFormed(TASK_START);
  }

  lemma TaskStartArguments(present: set<string>, satisfied: set<string>)
    requires forall key :: key in {"title", "intent", "from", "json"} ==> (key in satisfied <==> key in present)
    ensures FitBelow(TASK_START.args, present, satisfied, 8) <==> TaskStartRule(present)
  {
    assert TASK_START.args[0].unless.value == ["from"];
  }

  /** On task start, through "required unless", the grammar accepts exactly by
      the rule. */
  lemma TaskStartDecision(present: set<string>)
    ensures OneStep(TASK_START, present) <==> TaskStartRule(present)
  {
    TaskStartRow();
    OneStepByArgument(TASK_START, present);
    ArgumentSatisfied(TASK_START, present, 0);
    ArgumentSatisfied(TASK_START, present, 1);
    ArgumentSatisfied(TASK_START, present, 2);
    ArgumentSatisfied(TASK_START, present, 6);
    TaskStartArguments(present, SatisfiedKeys(TASK_START, present));
  }

  // ----- the rows as commands

  function TextOption(name: string): OptionSpec {
    OptionSpec(name, true, None, false)
  }

  function Switch(name: string): OptionSpec {
    OptionSpec(name, false, None, false)
  }

  function Pull(native: (string, string) -> NativeResult): Command {
    Command([TextOption("remote"), TextOption("line"), Switch("merge"), Switch("restore"), Switch("force")],
            0, 0, false, PULL, map[], native)
  }

  function Blame(native: (string, string) -> NativeResult): Command {
    Command([TextOption("line"), TextOption("start"), TextOption("end"), TextOption("snapshot"),
             TextOption("via-parent"), TextOption("patchset"), TextOption("remote"), TextOption("plan-id"),
             TextOption("plan-ref")],
            1, 0, false, BLAME,
            map["line" := Integer(Line), "start" := Integer(Line), "end" := Integer(Line),
                "patchset" := Native("patchset")], native)
  }

  function ExternalUpdate(native: (string, string) -> NativeResult): Command {
    Command([TextOption("to"), Switch("latest"), Switch("locked"), Switch("validate"), Switch("no-recursive")],
            1, 1, false, EXTERNAL_UPDATE, map[], native)
  }

  function TaskStart(native: (string, string) -> NativeResult): Command {
    Command([Switch("local"), TextOption("remote"), TextOption("title"), TextOption("intent"), TextOption("edit-root"),
             Switch("full"), TextOption("from")],
            0, 0, false, TASK_START, map["edit-root" := PathText], native)
  }

  /** No name begins like a positional's key, and unless it is allowed none is
      "full". */
  predicate ClearBelow(options: seq<OptionSpec>, full: bool, n: nat)
    requires n <= |options|
    decreases n
  {
    || n == 0
    || (ClearBelow(options, full, n - 1) && !BeginsWith(options[n - 1].name, '#')
        && (full || Unlike(options[n - 1].name, "full")))
  }

  lemma {:induction false} ClearNames(options: seq<OptionSpec>, full: bool, n: nat)
    requires n <= |options| && ClearBelow(options, full, n)
    ensures forall i :: 0 <= i < n ==> !BeginsWith(options[i].name, '#') && (full || options[i].name != "full")
  {
    if n > 0 { ClearNames(options, full, n - 1); }
  }

  lemma TablesFitByName(command: Command, full: bool)
    requires WellFormed(command.syntax)
    requires forall i: nat :: i < command.positional - command.optionalPositionals ==> IsMarked(command.syntax, i)
    requires ClearBelow(command.options, full, |command.options|)
    requires full ==> DeclaresJson(command.syntax)
                      && exists a :: a in command.syntax.args && a.key == "full" && "json" in a.needs
    ensures TablesFit(command)
  {
    ClearNames(command.options, full, |command.options|);
    forall o | o in command.options ensures !IsPositionalKey(o.name) && (full || o.name != "full") {
      var k :| 0 <= k < |command.options| && command.options[k] == o;
      assert "#"[0] == '#' && !BeginsWith(command.options[k].name, '#');
    }
    if !full {
      assert FindOption(command.options, "full").None?;
    }
  }

  lemma PullTables(native: (string, string) -> NativeResult)
    ensures TablesFit(Pull(native))
  {
    PullRow();
    assert ClearBelow(Pull(native).options, false, 5);
    TablesFitByName(Pull(native), false);
  }

  lemma BlameOptions(native: (string, string) -> NativeResult)
    ensures ClearBelow(Blame(native).options, false, |Blame(native).options|)
  {
    assert ClearBelow(Blame(native).options, false, 9);
  }

  lemma FirstPositionalKey()
    ensures PositionalKey(0) == "#0"
  {
  }

  lemma FirstIsMarked(command: Command)
    requires command.positional - command.optionalPositionals == 1 && |command.syntax.args| > 0
    requires command.syntax.args[0].required && command.syntax.args[0].key == PositionalKey(0)
    ensures forall i: nat :: i < command.positional - command.optionalPositionals ==> IsMarked(command.syntax, i)
  {
    assert command.syntax.args[0] in command.syntax.args && IsMarked(command.syntax, 0);
  }

  /** The one positional of blame is required, and marked so. */
  lemma BlameTables(native: (string, string) -> NativeResult)
    ensures TablesFit(Blame(native))
  {
    BlameRow();
    BlameOptions(native);
    FirstPositionalKey();
    FirstIsMarked(Blame(native));
    TablesFitByName(Blame(native), false);
  }

  lemma ExternalUpdateTables(native: (string, string) -> NativeResult)
    ensures TablesFit(ExternalUpdate(native))
  {
    ExternalUpdateRow();
    assert ClearBelow(ExternalUpdate(native).options, false, 5);
    TablesFitByName(ExternalUpdate(native), false);
  }

  lemma TaskStartTables(native: (string, string) -> NativeResult)
    ensures TablesFit(TaskStart(native))
  {
    TaskStartRow();
    var args := TASK_START.args;
    assert args[6] in args && args[7] in args && "json" in args[7].needs;
    assert ClearBelow(TaskStart(native).options, true, 7);
    TablesFitByName(TaskStart(native), true);
  }

  // ----- the checks in the handlers, on the stored values and the positionals

  predicate PullHandlerAccepts(values: map<string, Value>) {
    && !(Truthy(values, "merge") && !Truthy(values, "restore"))
    && !(Truthy(values, "force") && !Truthy(values, "restore"))
    && !(Truthy(values, "force") && Truthy(values, "merge"))
  }

  predicate BlameHandlerAccepts(values: map<string, Value>) {
    && !("line" in values && ("start" in values || "end" in values))
    && !(("start" !in values) != ("end" !in values))
    && !(|values.Keys * {"snapshot", "patchset", "plan-id", "plan-ref"}| > 1)
    && !("via-parent" in values && "snapshot" !in values)
    && !("remote" in values && "patchset" !in values)
  }

  predicate ExternalUpdateHandlerAccepts(values: map<string, Value>, positionals: seq<string>) {
    && !("to" in values && Truthy(values, "latest"))
    && !(Truthy(values, "locked") && (positionals != [] || "to" in values || Truthy(values, "latest")))
    && !(positionals != [] && "to" !in values && !Truthy(values, "latest"))
    && !(positionals == [] && ("to" in values || Truthy(values, "latest")))
  }

  predicate TaskStartHandlerAccepts(values: map<string, Value>) {
    && "intent" in values
    && !("title" in values && "from" in values)
    && !("title" !in values && "from" !in values)
    && !(Truthy(values, "local") && "remote" in values)
  }

  /** What the token pass leaves behind for the rest of the run. */
  ghost predicate Handed(command: Command, tokens: seq<Token>, values: map<string, Value>, positionals: seq<string>) {
    && Admissible(command, tokens)
    && values == HandlerValues(command, tokens)
    && ParsedUpTo(command, PositionalTexts(tokens), positionals, PositionalCount(tokens))
  }

  /** The option keys that are given are those that have a stored value. */
  ghost predicate SameOptions(present: set<string>, stored: set<string>) {
    forall key :: !BeginsWith(key, '#') ==> (key in present <==> key in stored)
  }

  lemma OptionsAreStored(command: Command, tokens: seq<Token>)
    ensures SameOptions(Present(tokens), HandlerValues(command, tokens).Keys)
  {
    forall key | !BeginsWith(key, '#') ensures key in Present(tokens) <==> key in HandlerValues(command, tokens).Keys {
      assert !IsPositionalKey(key) by {
        assert "#"[0] == '#';
      }
      PresentFlag(command, tokens, key);
      ValueIsGiven(command, tokens, key);
    }
  }

  lemma SwitchStored(command: Command, tokens: seq<Token>, key: string)
    requires Admissible(command, tokens) && !BeginsWith(key, '#')
    requires Declared(command, key).Some? ==> !Declared(command, key).value.isString
    ensures key in Present(tokens) <==> Truthy(HandlerValues(command, tokens), key)
  {
    assert "#"[0] == '#' && !IsPositionalKey(key);
    PresentFlag(command, tokens, key);
    BooleanIsGiven(command, tokens, key);
  }

  lemma FirstPositionalGiven(command: Command, tokens: seq<Token>)
    requires TablesFit(command) && Admissible(command, tokens)
    ensures "#0" in Present(tokens) <==> PositionalCount(tokens) > 0
  {
    FirstPositionalKey();
    OptionsAreNotPositionals(command, tokens, "#0");
  }

  lemma UndeclaredIsNotGiven(command: Command, tokens: seq<Token>, key: string)
    requires Admissible(command, tokens) && !BeginsWith(key, '#') && Declared(command, key).None?
    ensures key !in Present(tokens)
  {
    AdmissibleFlags(command, tokens);
    PresentKeys(tokens, key);
    forall t | t in tokens && t.Flag? ensures t.name != key {
      assert FlagAdmissible(command, t);
    }
    forall i: nat ensures key != PositionalKey(i) {
      assert PositionalKey(i)[0] == '#';
    }
  }

  lemma PullSwitches(native: (string, string) -> NativeResult, key: string)
    requires key in {"merge", "restore", "force"}
    ensures !BeginsWith(key, '#')
    ensures Declared(Pull(native), key).Some? ==> !Declared(Pull(native), key).value.isString
  {
    var options := Pull(native).options;
    assert options[0] == TextOption("remote") && options[1] == TextOption("line");
    assert "merge"[0] == 'm' && "restore"[0] == 'r' && "force"[0] == 'f';
    assert |"remote"| == 6 && |"restore"| == 7 && |"line"| == 4;
    forall o | o in options && o.name == key ensures !o.isString {
    }
  }

  /** After the token pass, the handler of pull accepts what it finds in the
      stored values exactly when the grammar accepts. */
  lemma PullHandlerAgrees(native: (string, string) -> NativeResult, tokens: seq<Token>,
                          values: map<string, Value>, positionals: seq<string>)
    requires Handed(Pull(native), tokens, values, positionals)
    ensures OneStep(PULL, Present(tokens)) <==> PullHandlerAccepts(values)
  {
    PullDecision(Present(tokens));
    forall key | key in {"merge", "restore", "force"} ensures key in Present(tokens) <==> Truthy(values, key) {
      PullSwitches(native, key);
      SwitchStored(Pull(native), tokens, key);
    }
  }

  lemma SameVersions(present: set<string>, stored: set<string>)
    requires SameOptions(present, stored)
    ensures var versions := {"snapshot", "patchset", "plan-id", "plan-ref"};
            present * versions == stored * versions
  {
    var versions := {"snapshot", "patchset", "plan-id", "plan-ref"};
    assert forall key :: key in versions ==> !BeginsWith(key, '#');
  }

  lemma SameRange(present: set<string>, stored: set<string>)
    requires SameOptions(present, stored)
    ensures "line" in present <==> "line" in stored
    ensures "start" in present <==> "start" in stored
    ensures "end" in present <==> "end" in stored
  {
  }

  lemma BlameRuleOnValues(present: set<string>, values: map<string, Value>)
    requires SameOptions(present, values.Keys)
    ensures BlameRule(present) <==> "#0" in present && BlameHandlerAccepts(values)
  {
    SameRange(present, values.Keys);
    SameVersions(present, values.Keys);
  }

  /** The same for blame, once the path is there. */
  lemma BlameHandlerAgrees(native: (string, string) -> NativeResult, tokens: seq<Token>,
                           values: map<string, Value>, positionals: seq<string>)
    requires Handed(Blame(native), tokens, values, positionals)
    ensures OneStep(BLAME, Present(tokens)) <==> positionals != [] && BlameHandlerAccepts(values)
  {
    BlameDecision(Present(tokens));
    BlameTables(native);
    FirstPositionalGiven(Blame(native), tokens);
    OptionsAreStored(Blame(native), tokens);
    BlameRuleOnValues(Present(tokens), values);
  }

  lemma ExternalUpdateNames(native: (string, string) -> NativeResult)
    ensures Declared(ExternalUpdate(native), "@target_selection").None?
    ensures Declared(ExternalUpdate(native), "latest") == Some(Switch("latest"))
    ensures Declared(ExternalUpdate(native), "locked") == Some(Switch("locked"))
  {
  }

  /** The same for external update, where the handler also looks at the name. */
  lemma ExternalUpdateHandlerAgrees(native: (string, string) -> NativeResult, tokens: seq<Token>,
                                    values: map<string, Value>, positionals: seq<string>)
    requires Handed(ExternalUpdate(native), tokens, values, positionals)
    ensures OneStep(EXTERNAL_UPDATE, Present(tokens)) <==> ExternalUpdateHandlerAccepts(values, positionals)
  {
    var command := ExternalUpdate(native);
    ExternalUpdateNames(native);
    UndeclaredIsNotGiven(command, tokens, "@target_selection");
    ExternalUpdateDecision(Present(tokens));
    ExternalUpdateTables(native);
    FirstPositionalGiven(command, tokens);
    SwitchStored(command, tokens, "latest");
    SwitchStored(command, tokens, "locked");
    OptionsAreStored(command, tokens);
    assert "to" in Present(tokens) <==> "to" in values;
  }

  lemma LocalIsASwitch(native: (string, string) -> NativeResult)
    ensures Declared(TaskStart(native), "local") == Some(Switch("local"))
  {
    assert TaskStart(native).options[0].name == "local";
  }

  /** The same for task start; the grammar also lets --full only come with
      --json, which the runner checks itself. */
  lemma TaskStartHandlerAgrees(native: (string, string) -> NativeResult, tokens: seq<Token>,
                               values: map<string, Value>, positionals: seq<string>)
    requires Handed(TaskStart(native), tokens, values, positionals)
    ensures OneStep(TASK_START, Present(tokens)) <==>
            TaskStartHandlerAccepts(values) && ("full" in values ==> "json" in values)
  {
    TaskStartDecision(Present(tokens));
    OptionsAreStored(TaskStart(native), tokens);
    LocalIsASwitch(native);
    SwitchStored(TaskStart(native), tokens, "local");
  }
}
