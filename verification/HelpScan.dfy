/** Cutting the command's arguments off at the first active help flag. */
module HelpScan {
  import opened Basics
  import opened Tokens

  /** What one scanned argument does: end the scan, ask for help (and where the
      argument is cut), or let the scan go on one or two arguments further. */
  datatype Step = Stop | Help(cut: string) | Advance(width: nat)

  function FindShort(options: seq<OptionSpec>, letter: char): Option<OptionSpec> {
    if options == [] then None
    else if options[0].short == Some(letter) then Some(options[0])
    else FindShort(options[1..], letter)
  }

  predicate TakesValue(option: Option<OptionSpec>) {
    option.Some? && option.value.isString
  }

  /** A cluster of short options, read from a letter on. */
  function ClusterStep(options: seq<OptionSpec>, arg: string, letter: nat): (step: Step)
    ensures step.Help? ==> letter < |step.cut| <= |arg| && step.cut <= arg && step.cut[|step.cut| - 1] == 'h'
    ensures step.Advance? ==> 1 <= step.width <= 2
    decreases |arg| - letter
  {
    if letter >= |arg| then Advance(1)
    else if arg[letter] == 'h' then Help(arg[..letter + 1])
    else if TakesValue(FindShort(options, arg[letter])) then Advance(if letter == |arg| - 1 then 2 else 1)
    else ClusterStep(options, arg, letter + 1)
  }

  function StepOf(options: seq<OptionSpec>, arg: string): (step: Step)
    ensures step.Help? ==> |step.cut| >= 2 && step.cut <= arg
    ensures step.Advance? ==> 1 <= step.width <= 2
  {
    if arg == "--" then Stop
    else if arg == "--help" then Help(arg)
    else if StartsWith(arg, "--") then
      Advance(if '=' !in arg && TakesValue(FindOption(options, UpTo(arg[2..], '='))) then 2 else 1)
    else if StartsWith(arg, "-") then ClusterStep(options, arg, 1)
    else Advance(1)
  }

  // ----- what one argument does, said by its letters

  /** The option that has a letter (the first, if several do) takes a value. */
  ghost predicate LetterTakesValue(options: seq<OptionSpec>, letter: char) {
    exists i :: 0 <= i < |options| && options[i].short == Some(letter) && options[i].isString
                && forall k :: 0 <= k < i ==> options[k].short != Some(letter)
  }

  ghost predicate NameTakesValue(options: seq<OptionSpec>, name: string) {
    exists i: nat :: FirstNamed(options, name, i) && options[i].isString
  }

  /** One dash and then something else than a second one. */
  predicate IsCluster(arg: string) {
    |arg| >= 2 && arg[0] == '-' && arg[1] != '-'
  }

  /** The letters from one on and before another are no h and take no value. */
  ghost predicate PlainLetters(options: seq<OptionSpec>, arg: string, start: nat, end: nat)
    requires end <= |arg|
  {
    forall k :: start <= k < end ==> arg[k] != 'h' && !LetterTakesValue(options, arg[k])
  }

  lemma {:induction false} LetterFound(options: seq<OptionSpec>, letter: char)
    ensures TakesValue(FindShort(options, letter)) <==> LetterTakesValue(options, letter)
  {
    if options != [] && options[0].short != Some(letter) {
      var rest := options[1..];
      assert options == [options[0]] + rest;
      LetterFound(rest, letter);
      if i :| 0 <= i < |rest| && rest[i].short == Some(letter) && rest[i].isString
              && forall k :: 0 <= k < i ==> rest[k].short != Some(letter) {
        assert options[i + 1] == rest[i];
      }
      if i :| 0 <= i < |options| && options[i].short == Some(letter) && options[i].isString
              && forall k :: 0 <= k < i ==> options[k].short != Some(letter) {
        assert rest[i - 1] == options[i];
      }
    }
  }

  lemma NameFound(options: seq<OptionSpec>, name: string)
    ensures TakesValue(FindOption(options, name)) <==> NameTakesValue(options, name)
  {
    if FindOption(options, name).Some? {
      var first := FirstOfName(options, name);
    }
    forall i: nat | FirstNamed(options, name, i) ensures FindOption(options, name) == Some(options[i]) {
      FindsFirstNamed(options, name, i);
    }
  }

  /** The first h of a cluster, with only plain letters before it. */
  ghost predicate HelpLetter(options: seq<OptionSpec>, arg: string, start: nat, n: nat) {
    start <= n < |arg| && arg[n] == 'h' && PlainLetters(options, arg, start, n)
  }

  /** The first letter of a cluster that takes a value, with no h before it. */
  ghost predicate ValueLetter(options: seq<OptionSpec>, arg: string, start: nat, n: nat) {
    start <= n < |arg| && arg[n] != 'h' && LetterTakesValue(options, arg[n]) && PlainLetters(options, arg, start, n)
  }

  /** A cluster, read from a letter on, is cut behind such an h. */
  ghost predicate CutBehindHelp(options: seq<OptionSpec>, arg: string, start: nat, cut: string) {
    exists n: nat :: HelpLetter(options, arg, start, n) && cut == arg[..n + 1]
  }

  lemma LetterFromNext(options: seq<OptionSpec>, arg: string, letter: nat, n: nat)
    requires letter < |arg| && arg[letter] != 'h' && !LetterTakesValue(options, arg[letter])
    ensures HelpLetter(options, arg, letter, n) <==> HelpLetter(options, arg, letter + 1, n)
    ensures ValueLetter(options, arg, letter, n) <==> ValueLetter(options, arg, letter + 1, n)
  {
  }

  lemma CutFromNext(options: seq<OptionSpec>, arg: string, letter: nat, cut: string)
    requires letter < |arg| && arg[letter] != 'h' && !LetterTakesValue(options, arg[letter])
    ensures CutBehindHelp(options, arg, letter, cut) <==> CutBehindHelp(options, arg, letter + 1, cut)
  {
    if n: nat :| HelpLetter(options, arg, letter, n) && cut == arg[..n + 1] {
      LetterFromNext(options, arg, letter, n);
    }
    var next := letter + 1;
    if n: nat :| HelpLetter(options, arg, next, n) && cut == arg[..n + 1] {
      LetterFromNext(options, arg, letter, n);
    }
  }

  lemma {:induction false} ClusterExactly(options: seq<OptionSpec>, arg: string, letter: nat)
    ensures var step := ClusterStep(options, arg, letter);
            && !step.Stop?
            && (forall cut :: step == Help(cut) <==> CutBehindHelp(options, arg, letter, cut))
            && (step == Advance(2) <==> |arg| > 0 && ValueLetter(options, arg, letter, |arg| - 1))
    decreases |arg| - letter
  {
    if letter < |arg| {
      LetterFound(options, arg[letter]);
      if arg[letter] == 'h' {
        assert HelpLetter(options, arg, letter, letter);
      } else if !LetterTakesValue(options, arg[letter]) {
        ClusterExactly(options, arg, letter + 1);
        LetterFromNext(options, arg, letter, |arg| - 1);
        forall cut { CutFromNext(options, arg, letter, cut); }
      }
    }
  }

  /** The meaning of each step: only the terminator stops; two words are consumed
      for a long option without "=" whose name takes a value, or for a cluster
      whose last letter is its first one that takes a value; help is asked by the
      long flag, or by the first h of a cluster before any such letter. */
  lemma StepExactly(options: seq<OptionSpec>, arg: string, cut: string)
    ensures StepOf(options, arg) == Stop <==> arg == ['-', '-']
    ensures StepOf(options, arg) == Advance(2) <==>
            || (|arg| > 2 && arg[..2] == "--" && arg != "--help" && '=' !in arg && NameTakesValue(options, arg[2..]))
            || (IsCluster(arg) && ValueLetter(options, arg, 1, |arg| - 1))
    ensures StepOf(options, arg) == Help(cut) <==>
            || (arg == "--help" && cut == "--help")
            || (IsCluster(arg) && CutBehindHelp(options, arg, 1, cut))
  {
    if IsCluster(arg) {
      ClusterExactly(options, arg, 1);
    } else if |arg| > 2 && arg[..2] == "--" && '=' !in arg {
      UpToStops(arg[2..], "", '=');
      assert arg[2..] + "" == arg[2..];
      NameFound(options, arg[2..]);
    }
  }

  /** The first active help flag from an index on, and how it is cut. */
  function FirstHelp(options: seq<OptionSpec>, args: seq<string>, index: nat): Option<(nat, string)>
    decreases |args| - index
  {
    if index >= |args| then None
    else
      match StepOf(options, args[index])
      case Stop => None
      case Help(cut) => Some((index, cut))
      case Advance(width) => FirstHelp(options, args, index + width)
  }

  function ThroughHelp(options: seq<OptionSpec>, args: seq<string>): seq<string> {
    match FirstHelp(options, args, 0)
    case None => args
    case Some((index, cut)) => if index <= |args| then args[..index] + [cut] else args
  }

  method ArgumentsThroughHelp(args: seq<string>, options: seq<OptionSpec>) returns (through: seq<string>)
    ensures through == ThroughHelp(options, args)
  {
    var index := 0;
    while index < |args|
      invariant FirstHelp(options, args, index) == FirstHelp(options, args, 0)
    {
      var arg := args[index];
      if arg == "--" { break; }
      if arg == "--help" { return args[..index + 1]; }
      if StartsWith(arg, "--") {
        if '=' !in arg && TakesValue(FindOption(options, UpTo(arg[2..], '='))) { index := index + 1; }
      } else if StartsWith(arg, "-") {
        var letter, reading := 1, true;
        var start := index;
        while letter < |arg| && reading
          invariant 1 <= letter && start < |args| && args[start] == arg
          invariant reading ==> index == start && ClusterStep(options, arg, letter) == ClusterStep(options, arg, 1)
          invariant !reading ==> start <= index <= start + 1 && ClusterStep(options, arg, 1) == Advance(index - start + 1)
          decreases |arg| - letter, reading
        {
          if arg[letter] == 'h' { return args[..index] + [arg[..letter + 1]]; }
          if TakesValue(FindShort(options, arg[letter])) {
            if letter == |arg| - 1 { index := index + 1; }
            reading := false;
          } else {
            letter := letter + 1;
          }
        }
      }
      index := index + 1;
    }
    through := args;
  }

  // ----- which arguments are read at all

  /** The scan comes to look at position k. */
  predicate Reached(options: seq<OptionSpec>, args: seq<string>, k: nat)
    requires k <= |args|
  {
    || k == 0
    || (k >= 1 && Reached(options, args, k - 1) && StepOf(options, args[k - 1]) == Advance(1))
    || (k >= 2 && Reached(options, args, k - 2) && StepOf(options, args[k - 2]) == Advance(2))
  }

  /** Of two positions the scan looks at, the earlier one let it go on and did
      not consume the later one. */
  lemma {:induction false} ReachedApart(options: seq<OptionSpec>, args: seq<string>, k: nat, j: nat)
    requires k < j <= |args| && Reached(options, args, k) && Reached(options, args, j)
    ensures StepOf(options, args[k]).Advance? && j >= k + StepOf(options, args[k]).width
    decreases j
  {
    if Reached(options, args, j - 1) && StepOf(options, args[j - 1]) == Advance(1) {
      if j - 1 > k { ReachedApart(options, args, k, j - 1); }
    } else if j - 2 == k - 1 {
      ReachedApart(options, args, k - 1, k);
    } else if j - 2 > k {
      ReachedApart(options, args, k, j - 2);
    }
  }

  lemma {:induction false} FirstHelpIsReached(options: seq<OptionSpec>, args: seq<string>, index: nat)
    requires index <= |args| ==> Reached(options, args, index)
    ensures var found := FirstHelp(options, args, index);
            found.Some? ==> index <= found.value.0 < |args| && Reached(options, args, found.value.0)
                            && StepOf(options, args[found.value.0]) == Help(found.value.1)
    decreases |args| - index
  {
    if index < |args| && StepOf(options, args[index]).Advance? {
      FirstHelpIsReached(options, args, index + StepOf(options, args[index]).width);
    }
  }

  lemma {:induction false} ReachedHelpIsFirst(options: seq<OptionSpec>, args: seq<string>, index: nat, k: nat)
    requires index <= k < |args| && Reached(options, args, index) && Reached(options, args, k)
    requires StepOf(options, args[k]).Help?
    ensures FirstHelp(options, args, index) == Some((k, StepOf(options, args[k]).cut))
    decreases k - index
  {
    if index < k {
      ReachedApart(options, args, index, k);
      ReachedHelpIsFirst(options, args, index + StepOf(options, args[index]).width, k);
    }
  }

  /** The cut is made exactly at the help flag that the scan comes to look at. */
  lemma CutExactlyAtReachedHelp(options: seq<OptionSpec>, args: seq<string>, k: nat, cut: string)
    requires k < |args|
    ensures FirstHelp(options, args, 0) == Some((k, cut)) <==>
            Reached(options, args, k) && StepOf(options, args[k]) == Help(cut)
  {
    FirstHelpIsReached(options, args, 0);
    if Reached(options, args, k) && StepOf(options, args[k]) == Help(cut) {
      ReachedHelpIsFirst(options, args, 0, k);
    }
  }

  /** A word consumed as the value of an option, or standing behind the scanned
      "--", is never taken as a help flag. */
  lemma ValuesAreNotHelp(options: seq<OptionSpec>, args: seq<string>, k: nat, at: nat)
    requires k < at < |args| && Reached(options, args, k)
    requires StepOf(options, args[k]) == Stop || (StepOf(options, args[k]) == Advance(2) && at == k + 1)
    ensures !Reached(options, args, at)
    ensures forall cut :: FirstHelp(options, args, 0) != Some((at, cut))
  {
    if Reached(options, args, at) {
      ReachedApart(options, args, k, at);
    }
    FirstHelpIsReached(options, args, 0);
  }

  /** The result is the argument list itself, or a prefix of it whose last word
      is a help flag or a short cluster cut behind its h. */
  lemma ResultIsAPrefix(options: seq<OptionSpec>, args: seq<string>)
    ensures var through := ThroughHelp(options, args);
            || (through == args && FirstHelp(options, args, 0).None?)
            || (exists k: nat :: k < |args| && |through| == k + 1 && through[..k] == args[..k]
                 && through[k] <= args[k] && FirstHelp(options, args, 0) == Some((k, through[k]))
                 && (through[k] == "--help" || EndsWith(through[k], "h")))
  {
    FirstHelpIsReached(options, args, 0);
    var found := FirstHelp(options, args, 0);
    if found.Some? {
      var k, through := found.value.0, ThroughHelp(options, args);
      assert through[..k] == args[..k] && through[k] == found.value.1;
    }
  }

  // ----- what stands behind the flag does not matter

  lemma {:induction false} ClusterOfExtension(options: seq<OptionSpec>, arg: string, other: string, letter: nat)
    requires ClusterStep(options, arg, letter).Help?
    requires ClusterStep(options, arg, letter).cut <= other
    ensures ClusterStep(options, other, letter) == ClusterStep(options, arg, letter)
    decreases |arg| - letter
  {
    var cut := ClusterStep(options, arg, letter).cut;
    assert other[letter] == cut[letter] == arg[letter];
    if arg[letter] != 'h' {
      ClusterOfExtension(options, arg, other, letter + 1);
    } else {
      assert other[..letter + 1] == cut;
    }
  }

  /** A word that begins with the cut of a help word asks for help as well; for
      the long flag it has to be the flag itself. */
  lemma StepOfExtension(options: seq<OptionSpec>, arg: string, other: string)
    requires StepOf(options, arg).Help? && StepOf(options, arg).cut <= other
    requires StepOf(options, arg).cut == "--help" ==> other == "--help"
    ensures StepOf(options, other) == StepOf(options, arg)
  {
    if arg != "--help" {
      var cut := StepOf(options, arg).cut;
      assert other[0] == cut[0] == arg[0] && other[1] == cut[1] == arg[1];
      ClusterOfExtension(options, arg, other, 1);
    }
  }

  lemma {:induction false} FirstHelpOfSimilar(options: seq<OptionSpec>, args: seq<string>, other: seq<string>, index: nat, k: nat)
    requires index <= k < |args| && k < |other| && args[..k] == other[..k]
    requires FirstHelp(options, args, index).Some? && FirstHelp(options, args, index).value.0 == k
    requires StepOf(options, other[k]) == StepOf(options, args[k]) && StepOf(options, args[k]).Help?
    ensures FirstHelp(options, other, index) == FirstHelp(options, args, index)
    decreases k - index
  {
    if index < k {
      assert args[index] == args[..k][index] == other[..k][index] == other[index];
      var next := index + StepOf(options, args[index]).width;
      HelpIsNotBehind(options, args, next);
      FirstHelpOfSimilar(options, args, other, next, k);
    }
  }

  lemma {:induction false} HelpIsNotBehind(options: seq<OptionSpec>, args: seq<string>, index: nat)
    ensures FirstHelp(options, args, index).Some? ==> index <= FirstHelp(options, args, index).value.0 < |args|
    decreases |args| - index
  {
    if index < |args| && StepOf(options, args[index]).Advance? {
      HelpIsNotBehind(options, args, index + StepOf(options, args[index]).width);
    }
  }

  /** Whatever follows the help flag, in the same cluster or in later words, is
      without effect. */
  lemma RestIsIrrelevant(options: seq<OptionSpec>, args: seq<string>, other: seq<string>)
    requires FirstHelp(options, args, 0).Some?
    requires var (k, cut) := FirstHelp(options, args, 0).value;
             k <= |args| && k < |other| && other[..k] == args[..k] && cut <= other[k] && (cut == "--help" ==> other[k] == cut)
    ensures ThroughHelp(options, other) == ThroughHelp(options, args)
  {
    var (k, cut) := FirstHelp(options, args, 0).value;
    FirstHelpIsReached(options, args, 0);
    StepOfExtension(options, args[k], other[k]);
    FirstHelpOfSimilar(options, args, other, 0, k);
  }

  /** Cutting a second time changes nothing. */
  lemma CuttingIsIdempotent(options: seq<OptionSpec>, args: seq<string>)
    ensures ThroughHelp(options, ThroughHelp(options, args)) == ThroughHelp(options, args)
  {
    FirstHelpIsReached(options, args, 0);
    var found := FirstHelp(options, args, 0);
    if found.Some? {
      var through := ThroughHelp(options, args);
      assert through[..found.value.0] == args[..found.value.0] && through[found.value.0] == found.value.1;
      RestIsIrrelevant(options, args, through);
    }
  }
}
