/** From the command line to a command: the walk down the help paths. */
module Descent {
  import opened Basics

  datatype Outcome =
    | Version
    | HelpText(path: string, long: bool)
    | HelpAsError(path: string)
    | FlagTakesNoValue(path: string, flag: string)
    | UnknownHelpPart(path: string, part: string)
    | RemoveTerminator(path: string, word: string)
    | Unrecognized(path: string, word: string)
    | Selected(name: string, offset: nat)

  /** The help paths and the commands of the program. */
  datatype Tables = Tables(helpPaths: set<string>, commands: set<string>)

  function Below(path: string): string {
    if path == "" then "" else path + " "
  }

  /** Help exists for every listed path, and for the word "help" below every
      listed path that has listed paths below it. */
  predicate HasHelp(tables: Tables, name: string) {
    || name in tables.helpPaths
    || ((name == "help" || EndsWith(name, " help"))
        && var parent := if name == "help" then "" else name[..|name| - 5];
           && parent in tables.helpPaths
           && exists path :: path in tables.helpPaths && StartsWith(path, Below(parent)) && path != parent)
  }

  /** The name one word further down. */
  function Down(name: string, word: string): string {
    if name == "" then word else name + " " + word
  }

  /** The words that name a child of a path, with the aliases. */
  predicate IsChild(tables: Tables, name: string, word: string) {
    || (name == "current-source-cache" && word == "run-cli")
    || word == "help"
    || exists path :: path in tables.helpPaths && StartsWith(path, Below(name)) && path != name
         && var child := path[|Below(name)|..];
            ' ' !in child && (child == word || (name == "" && child == "line" && word == "branch")
                              || (name == "worktree" && child == "path" && word == "open"))
  }

  /** A word is listed right below a name. */
  predicate IsListedChild(tables: Tables, name: string, word: string) {
    ' ' !in word && if name == "" then word != "" && word in tables.helpPaths else name + " " + word in tables.helpPaths
  }

  /** A listed path lies right below a name, by this word. */
  predicate LiesBelow(name: string, path: string, child: string) {
    StartsWith(path, Below(name)) && path != name && path[|Below(name)|..] == child && ' ' !in child
  }

  lemma ListedChild(tables: Tables, name: string, child: string)
    ensures IsListedChild(tables, name, child) <==> exists path :: path in tables.helpPaths && LiesBelow(name, path, child)
  {
    var path := Below(name) + child;
    assert path[|Below(name)|..] == child;
    if IsListedChild(tables, name, child) {
      assert path == (if name == "" then child else name + " " + child) && LiesBelow(name, path, child);
    }
    forall other | other in tables.helpPaths && LiesBelow(name, other, child) ensures other == path {
      assert other == Below(name) + other[|Below(name)|..];
    }
  }

  /** The children of a name: "help", the words listed right below it, one hidden
      command, and the alternative spellings of two listed words. */
  lemma ChildrenExactly(tables: Tables, name: string, word: string)
    ensures IsChild(tables, name, word) <==>
            || word == "help" || (name == "current-source-cache" && word == "run-cli")
            || IsListedChild(tables, name, word)
            || (name == "" && word == "branch" && IsListedChild(tables, name, "line"))
            || (name == "worktree" && word == "open" && IsListedChild(tables, name, "path"))
  {
    ListedChild(tables, name, word);
    ListedChild(tables, name, "line");
    ListedChild(tables, name, "path");
    if path :| path in tables.helpPaths && StartsWith(path, Below(name)) && path != name
               && var child := path[|Below(name)|..];
                  ' ' !in child && (child == word || (name == "" && child == "line" && word == "branch")
                                    || (name == "worktree" && child == "path" && word == "open")) {
      assert LiesBelow(name, path, path[|Below(name)|..]);
    }
  }

  /** Help for the word "help" itself exists below a listed name that has listed
      names below it; for other words help has to be listed. */
  lemma HelpExactly(tables: Tables, name: string)
    ensures HasHelp(tables, "help") <==>
            "help" in tables.helpPaths || ("" in tables.helpPaths && exists path :: path in tables.helpPaths && path != "")
    ensures name != "" ==>
              (HasHelp(tables, name + " help") <==>
                 || name + " help" in tables.helpPaths
                 || (name in tables.helpPaths && exists rest :: name + " " + rest in tables.helpPaths))
    ensures name != "help" && (forall front :: name != front + " help") ==>
              (HasHelp(tables, name) <==> name in tables.helpPaths)
  {
    var below := name + " help";
    assert below[..|below| - 5] == name && below[|below| - 5..] == " help";
    assert below != "help";
    if EndsWith(name, " help") {
      assert name == name[..|name| - 5] + " help";
    }
    if path :| path in tables.helpPaths && StartsWith(path, Below(name)) && path != name {
      assert path == Below(name) + path[|Below(name)|..];
    }
    if rest :| name + " " + rest in tables.helpPaths {
      assert StartsWith(name + " " + rest, name + " ") && name + " " + rest != name;
    }
  }

  /** The path asked for behind the word "help". */
  function HelpFor(tables: Tables, path: string, parts: seq<string>): (outcome: Outcome)
    ensures !outcome.Selected?
    decreases |parts|
  {
    if parts == [] then HelpText(path, true)
    else
      var part := parts[0];
      var child := if path == "" && part == "branch" then "line"
                   else if path == "worktree" && part == "open" then "path" else part;
      if HasHelp(tables, Down(path, child)) then HelpFor(tables, Down(path, child), parts[1..])
      else UnknownHelpPart(path, part)
  }

  /** The rewritten argument list: two alternative spellings of commands. */
  function WithoutAliases(args: seq<string>): (r: seq<string>)
    ensures |r| == |args|
  {
    var first := if |args| > 0 && args[0] == "branch" then ["line"] + args[1..] else args;
    if |first| > 1 && first[0] == "worktree" && first[1] == "open" then ["worktree", "path"] + first[2..] else first
  }

  /** Whether the walk ends at a word, and how; it goes on at a plain word with
      help below the present name. */
  function EndsAt(tables: Tables, args: seq<string>, name: string, offset: nat): (end: Option<Outcome>)
    requires offset <= |args|
    ensures end.Some? ==> !end.value.Selected?
  {
    if offset == |args| then Some(HelpAsError(name))
    else
      var token, rest := args[offset], args[offset + 1..];
      if token == "--help" || token == "-h" then Some(HelpText(name, token == "--help"))
      else if StartsWith(token, "--help=") || (name == "" && StartsWith(token, "--version=")) then
        Some(FlagTakesNoValue(name, UpTo(token, '=')))
      else if StartsWith(token, "-") && !StartsWith(token, "--") && |token| > 2 then
        Some(if token[1] == 'h' then HelpText(name, false)
             else if token[1] == 'V' && name == "" then Version
             else Unrecognized(name, token[..2]))
      else if token == "help" then Some(HelpFor(tables, name, rest))
      else if token == "--" then
        Some(if rest == [] then HelpAsError(name)
             else if IsChild(tables, name, rest[0]) then RemoveTerminator(name, rest[0])
             else Unrecognized(name, rest[0]))
      else if !HasHelp(tables, Down(name, token)) then Some(Unrecognized(name, token))
      else None
  }

  // ----- what the walk makes of a word, said by its letters

  /** Two spellings are rewritten in place, and nothing else. */
  lemma AliasesExactly(args: seq<string>)
    ensures var r := WithoutAliases(args);
            && |r| == |args|
            && (|args| > 0 ==> r[0] == if args[0] == "branch" then "line" else args[0])
            && (|args| > 1 ==> r[1] == if args[0] == "worktree" && args[1] == "open" then "path" else args[1])
            && (forall k :: 2 <= k < |args| ==> r[k] == args[k])
  {
    assert "branch"[0] == 'b' && "worktree"[0] == 'w' && "line"[0] == 'l';
  }

  /** Where the walk has no more words, or meets a help flag. */
  lemma EndsForHelp(tables: Tables, args: seq<string>, name: string, offset: nat)
    requires offset <= |args|
    ensures offset == |args| ==> EndsAt(tables, args, name, offset) == Some(HelpAsError(name))
    ensures offset < |args| && args[offset] == "--help" ==>
              EndsAt(tables, args, name, offset) == Some(HelpText(name, true))
    ensures offset < |args| && args[offset] == "-h" ==>
              EndsAt(tables, args, name, offset) == Some(HelpText(name, false))
  {
    assert "-h"[1] != "--help"[1];
  }

  /** A help flag with a value, and at the root a version flag with one. */
  lemma EndsForValue(tables: Tables, args: seq<string>, name: string, offset: nat, value: string)
    requires offset < |args|
    ensures args[offset] == "--help=" + value ==>
              EndsAt(tables, args, name, offset) == Some(FlagTakesNoValue(name, "--help"))
    ensures args[offset] == "--version=" + value && name == "" ==>
              EndsAt(tables, args, name, offset) == Some(FlagTakesNoValue("", "--version"))
  {
    var token := args[offset];
    if token == "--help=" + value {
      assert token == "--help" + ("=" + value) && token[6] == '=';
      UpToStops("--help", "=" + value, '=');
    }
    if token == "--version=" + value {
      assert token == "--version" + ("=" + value) && token[2] == 'v' && token[9] == '=';
      UpToStops("--version", "=" + value, '=');
      assert "--help="[2] == 'h' && "-h"[1] == 'h';
    }
  }

  /** A cluster of letters behind one dash is read by its first letter. */
  lemma EndsForCluster(tables: Tables, args: seq<string>, name: string, offset: nat, letter: char, more: string)
    requires offset < |args| && args[offset] == ['-', letter] + more && letter != '-' && more != ""
    ensures EndsAt(tables, args, name, offset) ==
            Some(if letter == 'h' then HelpText(name, false)
                 else if letter == 'V' && name == "" then Version
                 else Unrecognized(name, ['-', letter]))
  {
    var token := args[offset];
    assert token[0] == '-' && token[1] == letter && token[..2] == ['-', letter] && |token| > 2;
    assert "--help"[1] == '-' && "--help="[1] == '-' && "--version="[1] == '-';
    assert !StartsWith(token, "--") && !StartsWith(token, "--help=") && !StartsWith(token, "--version=");
  }

  /** The terminator shows the help of the name as an error when nothing is behind
      it, and otherwise blames the word behind it. */
  lemma EndsForTerminator(tables: Tables, args: seq<string>, name: string, offset: nat)
    requires offset < |args| && args[offset] == "--"
    ensures EndsAt(tables, args, name, offset) ==
            Some(if offset + 1 == |args| then HelpAsError(name)
                 else if IsChild(tables, name, args[offset + 1]) then RemoveTerminator(name, args[offset + 1])
                 else Unrecognized(name, args[offset + 1]))
  {
    assert |"--help="| == 7 && |"--version="| == 10 && "-h"[1] != "--"[1];
  }

  /** Any other word leads on exactly when there is help below the name. */
  predicate IsPlainWord(name: string, token: string) {
    && token !in {"--help", "-h", "help", "--"}
    && !("--help=" <= token) && !(name == "" && "--version=" <= token)
    && !(|token| > 2 && token[0] == '-' && token[1] != '-')
  }

  lemma ClusterByLetter(token: string)
    ensures StartsWith(token, "-") && !StartsWith(token, "--") && |token| > 2 <==>
            |token| > 2 && token[0] == '-' && token[1] != '-'
  {
  }

  lemma EndsForPlainWord(tables: Tables, args: seq<string>, name: string, offset: nat)
    requires offset < |args| && IsPlainWord(name, args[offset])
    ensures EndsAt(tables, args, name, offset) ==
            if HasHelp(tables, Down(name, args[offset])) then None else Some(Unrecognized(name, args[offset]))
  {
    ClusterByLetter(args[offset]);
  }

  /** The path behind the word "help" after its first n parts; below two names an
      alternative spelling is understood. */
  function PartsDown(path: string, parts: seq<string>, n: nat): string
    requires n <= |parts|
  {
    if n == 0 then path
    else
      var before, part := PartsDown(path, parts, n - 1), parts[n - 1];
      Down(before, if before == "" && part == "branch" then "line"
                   else if before == "worktree" && part == "open" then "path" else part)
  }

  /** The first n parts lead to paths with help. */
  ghost predicate HelpDown(tables: Tables, path: string, parts: seq<string>, n: nat)
    requires n <= |parts|
  {
    forall k :: 0 < k <= n ==> HasHelp(tables, PartsDown(path, parts, k))
  }

  lemma {:induction false} PartsBehindFirst(path: string, parts: seq<string>, n: nat)
    requires n < |parts|
    ensures PartsDown(path, parts, n + 1) == PartsDown(PartsDown(path, parts, 1), parts[1..], n)
  {
    if n > 0 {
      PartsBehindFirst(path, parts, n - 1);
      assert parts[1..][n - 1] == parts[n];
    }
  }

  /** The word "help" shows the help of the whole path behind it, or blames the
      first part that leads nowhere. */
  lemma {:induction false} HelpForExactly(tables: Tables, path: string, parts: seq<string>, n: nat)
    requires n <= |parts| && HelpDown(tables, path, parts, n)
    requires n < |parts| ==> !HasHelp(tables, PartsDown(path, parts, n + 1))
    ensures HelpFor(tables, path, parts) ==
            if n == |parts| then HelpText(PartsDown(path, parts, n), true)
            else UnknownHelpPart(PartsDown(path, parts, n), parts[n])
    decreases n
  {
    if n > 0 {
      var child, rest := PartsDown(path, parts, 1), parts[1..];
      assert child == Down(PartsDown(path, parts, 0), if path == "" && parts[0] == "branch" then "line"
                           else if path == "worktree" && parts[0] == "open" then "path" else parts[0]);
      forall k: nat | k < |parts| ensures PartsDown(path, parts, k + 1) == PartsDown(child, rest, k) {
        PartsBehindFirst(path, parts, k);
      }
      forall k: nat | 0 < k <= n - 1 ensures HasHelp(tables, PartsDown(child, rest, k)) {
        assert HasHelp(tables, PartsDown(path, parts, k + 1));
      }
      HelpForExactly(tables, child, rest, n - 1);
    }
  }

  lemma EndsForHelpWord(tables: Tables, args: seq<string>, name: string, offset: nat)
    requires offset < |args| && args[offset] == "help"
    ensures EndsAt(tables, args, name, offset) == Some(HelpFor(tables, name, args[offset + 1..]))
  {
    assert "help"[0] == 'h' && "-h"[0] == '-' && "--help"[0] == '-';
  }

  /** The name reached after the first n words. */
  function NameAfter(args: seq<string>, n: nat): string
    requires n <= |args|
  {
    if n == 0 then "" else Down(NameAfter(args, n - 1), args[n - 1])
  }

  /** The walk passes the word at position k. */
  predicate Passes(tables: Tables, args: seq<string>, k: nat)
    requires k < |args|
  {
    NameAfter(args, k) !in tables.commands && EndsAt(tables, args, NameAfter(args, k), k).None?
  }

  /** The walk passes the first n words. */
  ghost predicate PassesAll(tables: Tables, args: seq<string>, n: nat) {
    n <= |args| && forall k :: 0 <= k < n ==> Passes(tables, args, k)
  }

  /** The walk selects a command after the first n words. */
  ghost predicate SelectsAt(tables: Tables, args: seq<string>, n: nat) {
    PassesAll(tables, args, n) && NameAfter(args, n) in tables.commands
  }

  /** The walk ends without a command after the first n words. */
  ghost predicate GivesUpAt(tables: Tables, args: seq<string>, n: nat, outcome: Outcome) {
    && PassesAll(tables, args, n) && NameAfter(args, n) !in tables.commands
    && EndsAt(tables, args, NameAfter(args, n), n) == Some(outcome)
  }

  /** The walk of the runner, behind its two checks of the first word. The
      iterations of its loop are counted. */
  method Descend(tables: Tables, args: seq<string>) returns (outcome: Outcome, ghost iterations: nat)
    ensures iterations <= |args| + 1
    ensures outcome.Selected? ==>
              && SelectsAt(tables, args, outcome.offset) && outcome.name == NameAfter(args, outcome.offset)
              && iterations == outcome.offset
    ensures !outcome.Selected? ==> exists n :: GivesUpAt(tables, args, n, outcome)
  {
    var name, offset := "", 0;
    iterations := 0;
    while name !in tables.commands
      invariant iterations == offset && PassesAll(tables, args, offset) && name == NameAfter(args, offset)
      decreases |args| - offset
    {
      iterations := iterations + 1;
      var end := EndsAt(tables, args, name, offset);
      if end.Some? {
        outcome := end.value;
        assert GivesUpAt(tables, args, offset, outcome);
        return;
      }
      assert Passes(tables, args, offset);
      name := Down(name, args[offset]);
      offset := offset + 1;
    }
    outcome := Selected(name, offset);
  }

  /** Where a walk stops it has passed every word before and does not pass the
      next one. */
  lemma StopIsNotPassed(tables: Tables, args: seq<string>, n: nat)
    requires SelectsAt(tables, args, n) || exists outcome :: GivesUpAt(tables, args, n, outcome)
    ensures PassesAll(tables, args, n) && (n < |args| ==> !Passes(tables, args, n))
  {
  }

  lemma StopsAtOnePlace(tables: Tables, args: seq<string>, n: nat, m: nat)
    requires SelectsAt(tables, args, n) || exists outcome :: GivesUpAt(tables, args, n, outcome)
    requires SelectsAt(tables, args, m) || exists outcome :: GivesUpAt(tables, args, m, outcome)
    ensures n == m
  {
    StopIsNotPassed(tables, args, n);
    StopIsNotPassed(tables, args, m);
  }

  /** A walk has one outcome: two selections agree on the place and so on the
      name, two failures agree on place and outcome, and the two exclude each
      other. */
  lemma WalkHasOneOutcome(tables: Tables, args: seq<string>, n: nat, m: nat)
    ensures SelectsAt(tables, args, n) && SelectsAt(tables, args, m) ==> n == m
    ensures forall a, b :: GivesUpAt(tables, args, n, a) && GivesUpAt(tables, args, m, b) ==> n == m && a == b
    ensures forall a :: GivesUpAt(tables, args, n, a) ==> !SelectsAt(tables, args, m)
  {
    if (SelectsAt(tables, args, n) || exists a :: GivesUpAt(tables, args, n, a))
       && (SelectsAt(tables, args, m) || exists b :: GivesUpAt(tables, args, m, b)) {
      StopsAtOnePlace(tables, args, n, m);
    }
  }

  // ----- what a selected name is

  function Words(args: seq<string>): seq<string> {
    Filter(args, (word: string) => word != "")
  }

  function Join(words: seq<string>): string {
    if words == [] then "" else if |words| == 1 then words[0]
    else Join(words[..|words| - 1]) + " " + words[|words| - 1]
  }

  /** No help path ends with a space. */
  ghost predicate PathsAreTrimmed(tables: Tables) {
    forall path :: path in tables.helpPaths ==> !EndsWith(path, " ")
  }

  lemma {:induction false} JoinIsEmpty(words: seq<string>)
    requires forall word :: word in words ==> word != ""
    ensures Join(words) == "" <==> words == []
  {
    if |words| == 1 {
      assert words[0] in words;
    } else if |words| > 1 {
      assert |Join(words)| > 0;
    }
  }

  lemma WordsOneMore(args: seq<string>, n: nat)
    requires 0 < n <= |args|
    ensures Words(args[..n]) == Words(args[..n - 1]) + if args[n - 1] == "" then [] else [args[n - 1]]
  {
    assert args[..n][..n - 1] == args[..n - 1];
  }

  /** A name with an empty last word has no help. */
  lemma NoHelpBehindSpace(tables: Tables, name: string)
    requires PathsAreTrimmed(tables) && name != ""
    ensures !HasHelp(tables, Down(name, ""))
  {
    var longer := Down(name, "");
    assert EndsWith(longer, " ") && longer[|longer| - 1] == ' ';
    assert |longer| >= 5 ==> longer[|longer| - 5..][4] == ' ';
    assert " help"[4] == 'p' && "help"[3] == 'p';
  }

  lemma JoinOneMore(words: seq<string>, word: string)
    requires (forall w :: w in words ==> w != "") && word != ""
    ensures Join(words + [word]) == Down(Join(words), word)
  {
    JoinIsEmpty(words);
    assert (words + [word])[..|words|] == words;
  }

  /** A passed word names something with help; the name before it is no command,
      and is still empty if the word is empty. */
  ghost predicate OnTheWay(tables: Tables, args: seq<string>, k: nat)
    requires k < |args|
  {
    && NameAfter(args, k) !in tables.commands
    && HasHelp(tables, NameAfter(args, k + 1))
    && (args[k] == "" ==> NameAfter(args, k) == "")
  }

  lemma PassedIsOnTheWay(tables: Tables, args: seq<string>, k: nat)
    requires k < |args| && Passes(tables, args, k) && PathsAreTrimmed(tables)
    ensures OnTheWay(tables, args, k)
  {
    if NameAfter(args, k) != "" {
      NoHelpBehindSpace(tables, NameAfter(args, k));
    }
  }

  lemma JoinGrows(args: seq<string>, n: nat)
    requires n < |args| && NameAfter(args, n) == Join(Words(args[..n]))
    requires args[n] == "" ==> NameAfter(args, n) == ""
    ensures NameAfter(args, n + 1) == Join(Words(args[..n + 1]))
  {
    var before := Words(args[..n]);
    WordsOneMore(args, n + 1);
    if args[n] != "" {
      JoinOneMore(before, args[n]);
    } else {
      JoinIsEmpty(before);
    }
  }

  /** While the walk goes on, its name is the words so far, joined by spaces. */
  lemma {:induction false} NameIsJoin(tables: Tables, args: seq<string>, n: nat)
    requires PassesAll(tables, args, n) && PathsAreTrimmed(tables)
    ensures NameAfter(args, n) == Join(Words(args[..n]))
  {
    if n > 0 {
      NameIsJoin(tables, args, n - 1);
      PassedIsOnTheWay(tables, args, n - 1);
      JoinGrows(args, n - 1);
    }
  }

  /** When a command is selected, its name is the space-join of the non-empty
      consumed words; every name on the way has help and is no command, and
      empty words are consumed only while the name is still empty. */
  lemma SelectedNameIsConsumedWords(tables: Tables, args: seq<string>, n: nat)
    requires SelectsAt(tables, args, n) && PathsAreTrimmed(tables)
    ensures NameAfter(args, n) == Join(Words(args[..n])) && NameAfter(args, n) in tables.commands
    ensures forall k :: 0 <= k < n ==> OnTheWay(tables, args, k)
  {
    NameIsJoin(tables, args, n);
    forall k | 0 <= k < n ensures OnTheWay(tables, args, k) {
      PassedIsOnTheWay(tables, args, k);
    }
  }

  /** The runner's beginning: the version flags, no arguments, the aliases. */
  method FindCommand(tables: Tables, args: seq<string>) returns (outcome: Outcome)
    ensures |args| > 0 && (args[0] == "--version" || args[0] == "-V") ==> outcome == Version
    ensures |args| == 0 ==> outcome == HelpText("", true)
    ensures outcome.Selected? ==>
              && SelectsAt(tables, WithoutAliases(args), outcome.offset)
              && outcome.name == NameAfter(WithoutAliases(args), outcome.offset)
    ensures !outcome.Selected? && |args| > 0 && args[0] != "--version" && args[0] != "-V" ==>
              exists n :: GivesUpAt(tables, WithoutAliases(args), n, outcome)
  {
    if |args| > 0 && (args[0] == "--version" || args[0] == "-V") {
      return Version;
    }
    if |args| == 0 {
      return HelpText("", true);
    }
    var found, _ := Descend(tables, WithoutAliases(args));
    return found;
  }
}
