/** From the token list to the command handler: both passes, the late checks
    behind them, and what the accepted values are worth to the handler. */
module Pipeline {
  import opened Basics
  import opened Decimal
  import opened Integers
  import opened Grammar
  import opened Constraints
  import opened Tokens

  // ----- the outcome depends only on what is supplied

  function Flags(tokens: seq<Token>): seq<Token> {
    if tokens == [] then []
    else
      var init, last := Flags(tokens[..|tokens| - 1]), tokens[|tokens| - 1];
      if last.Flag? then init + [last] else init
  }

  lemma {:induction false} FlagsAreTheFlags(tokens: seq<Token>)
    ensures forall t :: t in Flags(tokens) <==> t in tokens && t.Flag?
  {
    if tokens != [] {
      FlagsAreTheFlags(tokens[..|tokens| - 1]);
      assert tokens == tokens[..|tokens| - 1] + [tokens[|tokens| - 1]];
    }
  }

  /** Only repeatable options occur twice. */
  ghost predicate RepeatFree(command: Command, tokens: seq<Token>) {
    forall i, j :: 0 <= i < j < |tokens| && tokens[i].Flag? && tokens[j].Flag? && tokens[i].name == tokens[j].name ==>
      MayRepeat(command, tokens[i].name)
  }

  /** The token pass, said without positions in the token list: every option is
      fine by itself, every positional is fine in its place, and only repeatable
      options occur twice. */
  ghost predicate AdmissibleSupply(command: Command, tokens: seq<Token>) {
    && (forall t :: t in tokens && t.Flag? ==> FlagAdmissible(command, t))
    && PositionalsFit(command, PositionalTexts(tokens))
    && RepeatFree(command, Flags(tokens))
  }

  lemma AdmissibleByLast(command: Command, init: seq<Token>, last: Token)
    ensures Admissible(command, init + [last]) <==>
            Admissible(command, init) && TokenAdmissible(command, init + [last], |init|)
  {
    var tokens := init + [last];
    forall i | 0 <= i < |init| ensures TokenAdmissible(command, tokens, i) <==> TokenAdmissible(command, init, i) {
      assert tokens[..i] == init[..i];
    }
  }

  lemma RepeatFreeByLast(command: Command, init: seq<Token>, last: Token)
    requires last.Flag? && forall t :: t in init ==> t.Flag?
    ensures RepeatFree(command, init + [last]) <==>
            RepeatFree(command, init) && (MayRepeat(command, last.name) || NotNamed(init, last.name))
  {
    var tokens := init + [last];
    if RepeatFree(command, tokens) {
      forall i, j | 0 <= i < j < |init| && init[i].Flag? && init[j].Flag? && init[i].name == init[j].name
        ensures MayRepeat(command, init[i].name)
      {
        assert tokens[i] == init[i] && tokens[j] == init[j];
      }
      forall i | 0 <= i < |init| && init[i].name == last.name ensures MayRepeat(command, last.name) {
        assert tokens[i] == init[i] && tokens[|init|] == last;
      }
    }
  }

  lemma NotNamedInFlags(tokens: seq<Token>, name: string)
    ensures NotNamed(tokens, name) <==> NotNamed(Flags(tokens), name)
  {
    FlagsAreTheFlags(tokens);
    if !NotNamed(tokens, name) {
      var k :| 0 <= k < |tokens| && tokens[k].Flag? && tokens[k].name == name;
      assert tokens[k] in Flags(tokens);
    }
    if !NotNamed(Flags(tokens), name) {
      var k :| 0 <= k < |Flags(tokens)| && Flags(tokens)[k].Flag? && Flags(tokens)[k].name == name;
      assert Flags(tokens)[k] in tokens;
    }
  }

  ghost predicate PositionalsFit(command: Command, texts: seq<string>) {
    forall i :: 0 <= i < |texts| ==> PositionalAdmissible(command, i, texts[i])
  }

  lemma PositionalsFitByLast(command: Command, init: seq<string>, last: string)
    ensures PositionalsFit(command, init + [last]) <==>
            PositionalsFit(command, init) && PositionalAdmissible(command, |init|, last)
  {
    var texts := init + [last];
    assert forall i :: 0 <= i < |init| ==> texts[i] == init[i];
    assert texts[|init|] == last;
    if PositionalsFit(command, texts) {
      forall i | 0 <= i < |init| ensures PositionalAdmissible(command, i, init[i]) {
        assert PositionalAdmissible(command, i, texts[i]);
      }
    }
  }

  /** The left-to-right pass decides by what is supplied. */
  lemma {:induction false} AdmissibleIsSupply(command: Command, tokens: seq<Token>)
    ensures Admissible(command, tokens) <==> AdmissibleSupply(command, tokens)
  {
    if tokens != [] {
      var init, last := tokens[..|tokens| - 1], tokens[|tokens| - 1];
      assert tokens == init + [last];
      AdmissibleIsSupply(command, init);
      AdmissibleByLast(command, init, last);
      FlagsAreTheFlags(init);
      if last.Flag? {
        RepeatFreeByLast(command, Flags(init), last);
        NotNamedInFlags(init, last.name);
      } else if last.Positional? {
        PositionalsFitByLast(command, PositionalTexts(init), last.text);
      }
    }
  }

  /** Two token lists supply the same: the same option tokens in any order, and
      the same positionals in the same order. */
  ghost predicate SameSupply(a: seq<Token>, b: seq<Token>) {
    multiset(Flags(a)) == multiset(Flags(b)) && PositionalTexts(a) == PositionalTexts(b)
  }

  lemma {:induction false} TwiceInMultiset(s: seq<Token>, x: Token)
    ensures multiset(s)[x] >= 2 <==> exists i, j :: 0 <= i < j < |s| && s[i] == x && s[j] == x
  {
    if s != [] {
      var init, last := s[..|s| - 1], s[|s| - 1];
      assert s == init + [last];
      TwiceInMultiset(init, x);
      if i, j :| 0 <= i < j < |init| && init[i] == x && init[j] == x {
        assert s[i] == x && s[j] == x;
      }
      if last == x && x in multiset(init) {
        var i :| 0 <= i < |init| && init[i] == x;
        assert s[i] == x && s[|s| - 1] == x;
      }
    }
  }

  ghost predicate RepeatFreeBag(command: Command, bag: multiset<Token>) {
    forall x, y :: x in bag && y in bag && x.Flag? && y.Flag? && x.name == y.name && !MayRepeat(command, x.name) ==>
      x == y && bag[x] < 2
  }

  lemma RepeatFreeIsAboutTheBag(command: Command, s: seq<Token>)
    ensures RepeatFree(command, s) <==> RepeatFreeBag(command, multiset(s))
  {
    if RepeatFree(command, s) {
      forall x, y | x in multiset(s) && y in multiset(s) && x.Flag? && y.Flag? && x.name == y.name && !MayRepeat(command, x.name)
        ensures x == y && multiset(s)[x] < 2
      {
        var i :| 0 <= i < |s| && s[i] == x;
        var j :| 0 <= j < |s| && s[j] == y;
        TwiceInMultiset(s, x);
      }
    }
    if RepeatFreeBag(command, multiset(s)) {
      forall i, j | 0 <= i < j < |s| && s[i].Flag? && s[j].Flag? && s[i].name == s[j].name
        ensures MayRepeat(command, s[i].name)
      {
        assert s[i] in multiset(s) && s[j] in multiset(s);
        TwiceInMultiset(s, s[i]);
      }
    }
  }

  /** Options may be given in any order and between any positionals: neither the
      token pass nor the set of present keys changes. */
  lemma OrderOfOptionsIsFree(command: Command, a: seq<Token>, b: seq<Token>)
    requires SameSupply(a, b)
    ensures Admissible(command, a) <==> Admissible(command, b)
    ensures Present(a) == Present(b)
  {
    AdmissibleIsSupply(command, a);
    AdmissibleIsSupply(command, b);
    FlagsAreTheFlags(a);
    FlagsAreTheFlags(b);
    assert forall t :: t in Flags(a) <==> t in multiset(Flags(a));
    assert forall t :: t in Flags(b) <==> t in multiset(Flags(b));
    assert forall t :: t in a && t.Flag? <==> t in b && t.Flag?;
    RepeatFreeIsAboutTheBag(command, Flags(a));
    RepeatFreeIsAboutTheBag(command, Flags(b));
    forall key ensures key in Present(a) <==> key in Present(b) {
      PresentKeys(a, key);
      PresentKeys(b, key);
    }
  }

  // ----- the stored values

  /** What JavaScript takes as true. */
  predicate Truthy(values: map<string, Value>, key: string) {
    key in values && values[key] != Text("")
  }

  ghost predicate SameAt(a: map<string, Value>, b: map<string, Value>, key: string) {
    (key in a <==> key in b) && (key in a ==> a[key] == b[key])
  }

  lemma {:induction false} RawKeys(command: Command, tokens: seq<Token>, key: string)
    ensures key in RawValues(command, tokens) <==> !NotNamed(tokens, key)
  {
    if tokens != [] {
      var n := |tokens| - 1;
      RawKeys(command, tokens[..n], key);
      NamedOneMore(tokens, n, key);
      assert tokens[..n + 1] == tokens;
    }
  }

  lemma {:induction false} RawIsTruthy(command: Command, tokens: seq<Token>, key: string)
    requires forall t :: t in tokens && t.Flag? && t.name == key ==> t.value.None?
    ensures key in RawValues(command, tokens) ==> Truthy(RawValues(command, tokens), key)
  {
    if tokens != [] {
      assert tokens == tokens[..|tokens| - 1] + [tokens[|tokens| - 1]];
      RawIsTruthy(command, tokens[..|tokens| - 1], key);
    }
  }

  /** An option token whose stored value the pass replaces: it has a declared
      kind, or leaves a "=" in front of a value in a short cluster. */
  predicate Rewrites(command: Command, token: Token)
    requires token.Flag?
  {
    token.value.Some? && (token.name in command.scalars
                          || (token.inlineValue && !StartsWith(token.rawName, "--") && StartsWith(token.value.value, "=")))
  }

  lemma {:induction false} StoreKeeps(command: Command, values: map<string, Value>, tokens: seq<Token>, key: string)
    requires forall t :: t in tokens && t.Flag? && t.name == key ==> !Rewrites(command, t)
    ensures SameAt(StoreFlags(command, values, tokens), values, key)
  {
    if tokens != [] {
      assert tokens == tokens[..|tokens| - 1] + [tokens[|tokens| - 1]];
      StoreKeeps(command, values, tokens[..|tokens| - 1], key);
    }
  }

  /** The values a handler finds after the token pass. */
  function HandlerValues(command: Command, tokens: seq<Token>): map<string, Value> {
    StoreFlags(command, RawValues(command, tokens), tokens)
  }

  lemma {:induction false} StoresNamedOnly(command: Command, values: map<string, Value>, tokens: seq<Token>, key: string)
    ensures key in values ==> key in StoreFlags(command, values, tokens)
    ensures key in StoreFlags(command, values, tokens) ==> key in values || !NotNamed(tokens, key)
  {
    if tokens != [] {
      var n := |tokens| - 1;
      StoresNamedOnly(command, values, tokens[..n], key);
      NamedOneMore(tokens, n, key);
      assert tokens[..n + 1] == tokens;
    }
  }

  /** A handler finds a value under a name exactly when that option was given. */
  lemma ValueIsGiven(command: Command, tokens: seq<Token>, key: string)
    ensures key in HandlerValues(command, tokens) <==> !NotNamed(tokens, key)
  {
    RawKeys(command, tokens, key);
    StoresNamedOnly(command, RawValues(command, tokens), tokens, key);
  }

  /** A boolean option is on exactly when it was given. */
  lemma BooleanIsGiven(command: Command, tokens: seq<Token>, key: string)
    requires Admissible(command, tokens)
    requires Declared(command, key).Some? ==> !Declared(command, key).value.isString
    ensures Truthy(HandlerValues(command, tokens), key) <==> !NotNamed(tokens, key)
  {
    AdmissibleFlags(command, tokens);
    RawKeys(command, tokens, key);
    RawIsTruthy(command, tokens, key);
    StoreKeeps(command, RawValues(command, tokens), tokens, key);
  }

  ghost predicate OnlyOneNamed(tokens: seq<Token>, i: nat) {
    && i < |tokens| && tokens[i].Flag?
    && forall k :: 0 <= k < |tokens| && k != i ==> !(tokens[k].Flag? && tokens[k].name == tokens[i].name)
  }

  lemma {:induction false} RawOfOne(command: Command, tokens: seq<Token>, i: nat)
    requires OnlyOneNamed(tokens, i) && tokens[i].value.Some? && !MayRepeat(command, tokens[i].name)
    ensures tokens[i].name in RawValues(command, tokens)
    ensures RawValues(command, tokens)[tokens[i].name] == Text(tokens[i].value.value)
  {
    var init := tokens[..|tokens| - 1];
    if i < |init| {
      RawOfOne(command, init, i);
      assert !(tokens[|init|].Flag? && tokens[|init|].name == tokens[i].name);
    }
  }

  lemma {:induction false} StoreOfOne(command: Command, values: map<string, Value>, tokens: seq<Token>, i: nat)
    requires OnlyOneNamed(tokens, i) && FlagAdmissible(command, tokens[i]) && tokens[i].value.Some?
    requires tokens[i].name in values && values[tokens[i].name] == Text(tokens[i].value.value)
    ensures var name := tokens[i].name;
            var value := GivenValue(Declared(command, name).value, tokens[i]);
            var stored := StoreFlags(command, values, tokens);
            name in stored && stored[name] == Text(ScalarCheck(command, name, value.value).value)
  {
    var init := tokens[..|tokens| - 1];
    if i < |init| {
      StoreOfOne(command, values, init, i);
      assert !(tokens[|init|].Flag? && tokens[|init|].name == tokens[i].name);
    } else {
      StoreKeeps(command, values, init, tokens[i].name);
    }
  }

  lemma NoSecondName(command: Command, tokens: seq<Token>, i: nat)
    requires Admissible(command, tokens) && i < |tokens| && tokens[i].Flag? && !MayRepeat(command, tokens[i].name)
    ensures OnlyOneNamed(tokens, i)
  {
    forall k | 0 <= k < |tokens| && k != i ensures !(tokens[k].Flag? && tokens[k].name == tokens[i].name) {
      assert TokenAdmissible(command, tokens, i) && TokenAdmissible(command, tokens, k);
      assert k < i ==> tokens[..i][k] == tokens[k];
      assert i < k ==> tokens[..k][i] == tokens[i];
    }
  }

  /** What a handler finds under an option that takes a value: what the option's
      kind promises about the given text, or the text itself. */
  lemma StoredValueIsOfItsKind(command: Command, tokens: seq<Token>, i: nat)
    requires Admissible(command, tokens) && i < |tokens| && tokens[i].Flag?
    requires !MayRepeat(command, tokens[i].name) && tokens[i].value.Some?
    ensures var values, name := HandlerValues(command, tokens), tokens[i].name;
            && name in values && values[name].Text?
            && Declared(command, name).Some? && GivenValue(Declared(command, name).value, tokens[i]).Some?
            && var given := GivenValue(Declared(command, name).value, tokens[i]).value;
               if name in command.scalars then IsValueOf(command.scalars[name], given, values[name].text, command.native)
               else values[name].text == given
  {
    AdmissibleFlags(command, tokens);
    NoSecondName(command, tokens, i);
    RawOfOne(command, tokens, i);
    StoreOfOne(command, RawValues(command, tokens), tokens, i);
    var name := tokens[i].name;
    if name in command.scalars {
      ValuesExactly(command.scalars[name], GivenValue(Declared(command, name).value, tokens[i]).value,
                    HandlerValues(command, tokens)[name].text, command.native);
    }
  }

  // ----- repeatable options

  /** Where an option of this name is given. */
  function GivenAt(tokens: seq<Token>, key: string): set<nat> {
    set i: nat | i < |tokens| && tokens[i].Flag? && tokens[i].name == key
  }

  lemma GivenOneMore(tokens: seq<Token>, key: string)
    requires tokens != []
    ensures var n := |tokens| - 1;
            GivenAt(tokens, key) ==
            GivenAt(tokens[..n], key) + if tokens[n].Flag? && tokens[n].name == key then {n} else {}
  {
  }

  /** The texts are the values given at these positions, in order. */
  ghost predicate AreValuesAt(texts: seq<string>, tokens: seq<Token>, at: seq<nat>) {
    |texts| == |at| && forall k :: 0 <= k < |at| ==>
      at[k] < |tokens| && tokens[at[k]].Flag? && tokens[at[k]].value == Some(texts[k])
  }

  lemma OneMoreValue(texts: seq<string>, tokens: seq<Token>, at: seq<nat>, n: nat, text: string)
    requires n < |tokens| && AreValuesAt(texts, tokens[..n], at)
    requires tokens[n].Flag? && tokens[n].value == Some(text)
    ensures AreValuesAt(texts + [text], tokens, at + [n])
  {
  }

  lemma {:induction false} RawRepeated(command: Command, tokens: seq<Token>, key: string) returns (at: seq<nat>)
    requires MayRepeat(command, key)
    requires forall t :: t in tokens && t.Flag? && t.name == key ==> t.value.Some?
    ensures ListsPositions(at, GivenAt(tokens, key))
    ensures at == [] ==> key !in RawValues(command, tokens)
    ensures at != [] ==>
              && key in RawValues(command, tokens) && RawValues(command, tokens)[key].Texts?
              && AreValuesAt(RawValues(command, tokens)[key].texts, tokens, at)
  {
    if tokens == [] {
      at := [];
    } else {
      var n := |tokens| - 1;
      assert tokens == tokens[..n] + [tokens[n]];
      GivenOneMore(tokens, key);
      at := RawRepeated(command, tokens[..n], key);
      if tokens[n].Flag? && tokens[n].name == key {
        IncreasingLonger(at, n);
        var before := RawValues(command, tokens[..n]);
        OneMoreValue(if at == [] then [] else before[key].texts, tokens, at, n, tokens[n].value.value);
        at := at + [n];
      }
    }
  }

  lemma {:induction false} StoreReplaces(command: Command, values: map<string, Value>, tokens: seq<Token>, key: string)
    requires forall t :: t in tokens && t.Flag? ==> FlagAdmissible(command, t)
    requires exists t :: t in tokens && t.Flag? && t.name == key && Rewrites(command, t)
    ensures key in StoreFlags(command, values, tokens) && StoreFlags(command, values, tokens)[key].Text?
  {
    var n := |tokens| - 1;
    var init, last := tokens[..n], tokens[n];
    assert tokens == init + [last];
    if !(last.Flag? && last.name == key && Rewrites(command, last)) {
      StoreReplaces(command, values, init, key);
    }
  }

  /** A repeatable option reaches the handler as the list of all its values in
      order, exactly when the pass replaces none of them; otherwise only one text
      is left. */
  lemma RepeatableKeepsAll(command: Command, tokens: seq<Token>, key: string, at: seq<nat>)
    requires Admissible(command, tokens) && MayRepeat(command, key) && Declared(command, key).value.isString
    requires ListsPositions(at, GivenAt(tokens, key)) && at != []
    ensures var values := HandlerValues(command, tokens);
            && key in values
            && (values[key].Texts? <==> forall t :: t in tokens && t.Flag? && t.name == key ==> !Rewrites(command, t))
            && (values[key].Texts? ==> AreValuesAt(values[key].texts, tokens, at))
            && (!values[key].Texts? ==> values[key].Text?)
  {
    AdmissibleFlags(command, tokens);
    var listed := RawRepeated(command, tokens, key);
    ListIsUnique(listed, at, GivenAt(tokens, key));
    if exists t :: t in tokens && t.Flag? && t.name == key && Rewrites(command, t) {
      StoreReplaces(command, RawValues(command, tokens), tokens, key);
    } else {
      StoreKeeps(command, RawValues(command, tokens), tokens, key);
    }
  }

  /** A handler that converts an integer option again gets, from the stored text,
      the integer that the text writes, within the range of its kind. */
  lemma HandlerConversionSucceeds(command: Command, tokens: seq<Token>, i: nat, kind: IntegerKind)
    requires Admissible(command, tokens) && i < |tokens| && tokens[i].Flag?
    requires !MayRepeat(command, tokens[i].name) && tokens[i].value.Some?
    requires tokens[i].name in command.scalars && command.scalars[tokens[i].name] == Integer(kind)
    ensures var values, name := HandlerValues(command, tokens), tokens[i].name;
            && name in values && values[name].Text?
            && Declared(command, name).Some? && GivenValue(Declared(command, name).value, tokens[i]).Some?
            && var given := GivenValue(Declared(command, name).value, tokens[i]).value;
               var converted := Convert(kind, values[name].text);
               && values[name].text == given && converted.Ok?
               && Writes(kind, given, converted.value.value)
               && Lowest(kind) <= converted.value.value <= Highest(kind)
  {
    AdmissibleFlags(command, tokens);
    NoSecondName(command, tokens, i);
    RawOfOne(command, tokens, i);
    StoreOfOne(command, RawValues(command, tokens), tokens, i);
    SecondConversionSucceeds(kind, GivenValue(Declared(command, tokens[i].name).value, tokens[i]).value);
  }

  // ----- the checks behind the two passes

  ghost predicate IsMarked(syntax: Syntax, index: nat) {
    exists a :: a in syntax.args && a.key == PositionalKey(index) && a.required
  }

  /** How the grammar table and the option table of a command belong together:
      required positionals are marked, no option has a positional's key, and an
      option "full" needs "json", which is declared. */
  ghost predicate TablesFit(command: Command) {
    && WellFormed(command.syntax)
    && (forall i: nat :: i < command.positional - command.optionalPositionals ==> IsMarked(command.syntax, i))
    && (forall o :: o in command.options ==> !IsPositionalKey(o.name))
    && (FindOption(command.options, "full").Some? ==>
          && DeclaresJson(command.syntax)
          && exists a :: a in command.syntax.args && a.key == "full" && "json" in a.needs)
  }

  lemma NoSurplusPositionals(command: Command, tokens: seq<Token>)
    requires Admissible(command, tokens) && !command.variadic
    ensures PositionalCount(tokens) <= command.positional
  {
    AdmissibleIsSupply(command, tokens);
    var texts := PositionalTexts(tokens);
    if texts != [] {
      assert PositionalAdmissible(command, |texts| - 1, texts[|texts| - 1]);
    }
  }

  /** An argument that is satisfied was supplied: its key is no group's. */
  lemma SatisfiedArgumentIsPresent(syntax: Syntax, present: set<string>, a: Arg)
    requires WellFormed(syntax) && a in syntax.args && Satisfied(syntax, present, a.key)
    ensures a.key in present
  {
    assert a.key !in GroupsByKey(syntax.groups);
  }

  lemma BuiltInNames()
    ensures !IsPositionalKey("help") && !IsPositionalKey("json") && !IsPositionalKey("full")
    ensures "full" != "help" && "full" != "json"
  {
    assert "help"[0] == 'h' && "json"[0] == 'j' && "full"[0] == 'f' && "#"[0] == '#';
  }

  lemma OptionsAreNotPositionals(command: Command, tokens: seq<Token>, key: string)
    requires TablesFit(command) && Admissible(command, tokens) && IsPositionalKey(key)
    ensures key in Present(tokens) <==> exists i: nat :: i < PositionalCount(tokens) && key == PositionalKey(i)
  {
    BuiltInNames();
    AdmissibleFlags(command, tokens);
    PresentKeys(tokens, key);
    forall t | t in tokens && t.Flag? ensures t.name != key {
      assert FlagAdmissible(command, t);
    }
  }

  lemma EnoughPositionals(command: Command, tokens: seq<Token>)
    requires TablesFit(command) && Admissible(command, tokens) && OneStep(command.syntax, Present(tokens))
    ensures PositionalCount(tokens) >= command.positional - command.optionalPositionals
  {
    if command.positional - command.optionalPositionals > 0 {
      var last := command.positional - command.optionalPositionals - 1;
      assert IsMarked(command.syntax, last);
      var a :| a in command.syntax.args && a.key == PositionalKey(last) && a.required;
      SatisfiedArgumentIsPresent(command.syntax, Present(tokens), a);
      OptionsAreNotPositionals(command, tokens, a.key);
      var i: nat :| i < PositionalCount(tokens) && PositionalKey(last) == PositionalKey(i);
      assert PositionalKey(last)[1..] == NatText(last) && PositionalKey(i)[1..] == NatText(i);
      TextIsInjective(last, i);
    }
  }

  lemma PresentFlag(command: Command, tokens: seq<Token>, key: string)
    requires !IsPositionalKey(key)
    ensures key in Present(tokens) <==> !NotNamed(tokens, key)
  {
    PresentKeys(tokens, key);
    if t :| t in tokens && t.Flag? && t.name == key {
      var i :| 0 <= i < |tokens| && tokens[i] == t;
    }
  }

  lemma FullComesWithJson(command: Command, tokens: seq<Token>)
    requires TablesFit(command) && Admissible(command, tokens) && OneStep(command.syntax, Present(tokens))
    ensures Truthy(HandlerValues(command, tokens), "full") ==> Truthy(HandlerValues(command, tokens), "json")
  {
    if !NotNamed(tokens, "full") {
      BuiltInNames();
      AdmissibleFlags(command, tokens);
      PresentFlag(command, tokens, "full");
      var k :| 0 <= k < |tokens| && tokens[k].Flag? && tokens[k].name == "full";
      assert FlagAdmissible(command, tokens[k]);
      assert Declared(command, "full") == FindOption(command.options, "full");
      assert DeclaresJson(command.syntax);
      var full :| full in command.syntax.args && full.key == "full" && "json" in full.needs;
      var json :| json in command.syntax.args && json.key == "json";
      assert Satisfied(command.syntax, Present(tokens), "json");
      SatisfiedArgumentIsPresent(command.syntax, Present(tokens), json);
      PresentFlag(command, tokens, "json");
      BooleanIsGiven(command, tokens, "json");
    } else {
      RawKeys(command, tokens, "full");
      assert forall t :: t in tokens && t.Flag? ==> t.name != "full" by {
        forall t | t in tokens && t.Flag? ensures t.name != "full" {
          var k :| 0 <= k < |tokens| && tokens[k] == t;
        }
      }
      StoreKeeps(command, RawValues(command, tokens), tokens, "full");
    }
  }

  /** A token list that reaches the command's handler. */
  ghost predicate Reaches(command: Command, tokens: seq<Token>) {
    Admissible(command, tokens) && "help" !in Present(tokens) && OneStep(command.syntax, Present(tokens))
  }

  datatype Verdict =
    | TokenFailure(error: TokenError)
    | ShowHelp
    | ConstraintFailure(outcome: Outcome)
    | WrongPositionalCount
    | FullNeedsJson
    | Invoke(values: map<string, Value>, positionals: seq<string>)

  /** A rejection by the constraint pass says what it has to: the first conflict
      with all its opponents, or all missing keys in their order. */
  ghost predicate Explains(syntax: Syntax, tokens: seq<Token>, outcome: Outcome) {
    match outcome
    case Accepted => false
    case Conflicting(key, others, _) =>
      && (exists i :: FirstConflict(syntax, Present(tokens), OrderedKeys(tokens), i) && key == OrderedKeys(tokens)[i])
      && ConflictIsExact(syntax, Present(tokens), key, others)
    case Missing(keys, _) =>
      && ConflictFree(syntax, Present(tokens))
      && keys != []
      && exists closure, required :: IsRequired(syntax, Present(tokens), closure, ToSet(required)) && NoRepeats(required)
                                     && RequiredInOrder(syntax, OrderedKeys(tokens), required)
                                     && keys == Report(syntax, Present(tokens), required)
  }

  /** The checks of the runner, in its order, up to the command's own. */
  method CheckCommandLine(name: string, command: Command, tokens: seq<Token>) returns (verdict: Verdict)
    requires TablesFit(command)
    ensures verdict.TokenFailure? <==> !Admissible(command, tokens)
    ensures verdict.ShowHelp? <==> Admissible(command, tokens) && "help" in Present(tokens)
    ensures verdict.Invoke? <==> Reaches(command, tokens)
    ensures verdict.Invoke? ==>
              && verdict.values == HandlerValues(command, tokens)
              && ParsedUpTo(command, PositionalTexts(tokens), verdict.positionals, PositionalCount(tokens))
    ensures verdict.TokenFailure? ==> exists i :: FirstError(command, tokens, i, verdict.error)
    ensures verdict.ConstraintFailure? ==> Explains(command.syntax, tokens, verdict.outcome)
    ensures !verdict.WrongPositionalCount? && !verdict.FullNeedsJson?
  {
    var parsed := new ParsedArguments(command, tokens);
    var error := parsed.ValidateTokens(command, tokens);
    if error.Some? {
      return TokenFailure(error.value);
    }
    var values, positionals := parsed.values, parsed.positionals;
    BuiltInNames();
    PresentFlag(command, tokens, "help");
    BooleanIsGiven(command, tokens, "help");
    if Truthy(values, "help") {
      return ShowHelp;
    }
    var outcome, closure, required, _ := ValidateConstraints(name, command.syntax, tokens);
    if !outcome.Accepted? {
      EmptyReport(command.syntax, Present(tokens), required);
      return ConstraintFailure(outcome);
    }
    if !command.variadic { NoSurplusPositionals(command, tokens); }
    EnoughPositionals(command, tokens);
    if (!command.variadic && |positionals| > command.positional)
       || |positionals| < command.positional - command.optionalPositionals {
      return WrongPositionalCount;
    }
    FullComesWithJson(command, tokens);
    if Truthy(values, "full") && !Truthy(values, "json") {
      return FullNeedsJson;
    }
    return Invoke(values, positionals);
  }

  /** The whole decision is free in the order of options. */
  lemma DecisionIgnoresOptionOrder(command: Command, a: seq<Token>, b: seq<Token>)
    requires SameSupply(a, b)
    ensures Reaches(command, a) <==> Reaches(command, b)
  {
    OrderOfOptionsIsFree(command, a, b);
  }
}
