/** The left-to-right pass over the token list: arity, repetition and values. */
module Tokens {
  import opened Basics
  import opened Decimal
  import opened Grammar
  import opened Integers

  // ----- scalar values

  /** What a value must be. Native kinds are checked by the native service. */
  datatype ScalarKind =
    | Integer(kind: IntegerKind)
    | Choice(choices: seq<string>)
    | PathText
    | Work
    | Native(validator: string)

  datatype NativeResult = Parsed(text: string) | Rejected | BridgeFailure

  datatype ScalarError = InvalidValue | Foreign

  /** The Unicode White_Space property. */
  predicate IsWhiteSpace(c: char) {
    || '\U{0009}' <= c <= '\U{000d}' || c == ' ' || c == '\U{0085}' || c == '\U{00a0}' || c == '\U{1680}'
    || '\U{2000}' <= c <= '\U{200a}' || c == '\U{2028}' || c == '\U{2029}' || c == '\U{202f}' || c == '\U{205f}' || c == '\U{3000}'
  }

  /** The property has twenty-five members. */
  lemma WhiteSpaceExactly(c: char)
    ensures IsWhiteSpace(c) <==> c as int in {
              9, 10, 11, 12, 13, 32, 133, 160, 5760,
              8192, 8193, 8194, 8195, 8196, 8197, 8198, 8199, 8200, 8201, 8202, 8232, 8233, 8239, 8287, 12288}
  {
  }

  function TrimStart(s: string): (r: string)
    ensures r == "" || !IsWhiteSpace(r[0])
  {
    if s != "" && IsWhiteSpace(s[0]) then TrimStart(s[1..]) else s
  }

  function TrimEnd(s: string): (r: string)
    ensures r <= s && (r == "" || !IsWhiteSpace(r[|r| - 1]))
  {
    if s != "" && IsWhiteSpace(s[|s| - 1]) then TrimEnd(s[..|s| - 1]) else s
  }

  function TrimReference(s: string): string {
    TrimEnd(TrimStart(s))
  }

  function ParseWorkReference(value: string): Result<string, ScalarError> {
    var reference := TrimReference(value);
    if reference == "" || Digits(reference) then Err(InvalidValue) else Ok(reference)
  }

  function ParseScalar(kind: ScalarKind, value: string, native: (string, string) -> NativeResult): Result<string, ScalarError> {
    match kind
    case Integer(k) => if ParseInteger(k, value).Ok? then Ok(value) else Err(InvalidValue)
    case Choice(choices) => if value in choices then Ok(value) else Err(InvalidValue)
    case PathText => if value == "" then Err(InvalidValue) else Ok(value)
    case Work => ParseWorkReference(value)
    case Native(validator) =>
      match native(validator, value)
      case Parsed(text) => Ok(text)
      case Rejected => Err(InvalidValue)
      case BridgeFailure => Err(Foreign)
  }

  // ----- what a parsed value is

  ghost predicate AllWhiteSpace(s: string) {
    forall i :: 0 <= i < |s| ==> IsWhiteSpace(s[i])
  }

  /** A text that white space around it is not part of. */
  ghost predicate IsTrimmed(s: string) {
    s != "" ==> !IsWhiteSpace(s[0]) && !IsWhiteSpace(s[|s| - 1])
  }

  ghost predicate Surrounds(before: string, core: string, after: string, s: string) {
    s == before + core + after && AllWhiteSpace(before) && AllWhiteSpace(after)
  }

  /** What the kind of a value promises about it. */
  ghost predicate IsValueOf(kind: ScalarKind, given: string, parsed: string, native: (string, string) -> NativeResult) {
    match kind
    case Integer(k) => parsed == given && exists n: int :: Writes(k, given, n) && Lowest(k) <= n <= Highest(k)
    case Choice(choices) => parsed == given && given in choices
    case PathText => parsed == given && given != ""
    case Work =>
      && parsed != "" && !Digits(parsed) && IsTrimmed(parsed)
      && exists before, after :: Surrounds(before, parsed, after, given)
    case Native(validator) => native(validator, given) == Parsed(parsed)
  }

  lemma {:induction false} TrimStartSplits(s: string) returns (before: string)
    ensures s == before + TrimStart(s) && AllWhiteSpace(before)
  {
    before := "";
    if s != "" && IsWhiteSpace(s[0]) {
      var rest := TrimStartSplits(s[1..]);
      before := [s[0]] + rest;
      assert s == [s[0]] + s[1..];
    }
  }

  lemma {:induction false} TrimEndSplits(s: string)
    ensures AllWhiteSpace(s[|TrimEnd(s)|..])
  {
    if s != "" && IsWhiteSpace(s[|s| - 1]) {
      var init := s[..|s| - 1];
      TrimEndSplits(init);
      assert s[|TrimEnd(s)|..] == init[|TrimEnd(s)|..] + [s[|s| - 1]];
    }
  }

  lemma {:induction false} TrimStartDrops(before: string, rest: string)
    requires AllWhiteSpace(before) && rest != "" && !IsWhiteSpace(rest[0])
    ensures TrimStart(before + rest) == rest
  {
    if before == "" {
      assert before + rest == rest;
    } else {
      assert (before + rest)[1..] == before[1..] + rest;
      TrimStartDrops(before[1..], rest);
    }
  }

  lemma {:induction false} TrimEndDrops(core: string, after: string)
    requires AllWhiteSpace(after) && core != "" && !IsWhiteSpace(core[|core| - 1])
    ensures TrimEnd(core + after) == core
  {
    if after == "" {
      assert core + after == core;
    } else {
      assert (core + after)[..|core + after| - 1] == core + after[..|after| - 1];
      TrimEndDrops(core, after[..|after| - 1]);
    }
  }

  lemma SurroundedCore(s: string, before: string, rest: string, core: string)
    requires s == before + rest && core <= rest
    requires AllWhiteSpace(before) && AllWhiteSpace(rest[|core|..])
    ensures Surrounds(before, core, rest[|core|..], s)
  {
    assert rest == core + rest[|core|..];
  }

  lemma TrimIsSurrounded(s: string)
    requires TrimReference(s) != ""
    ensures IsTrimmed(TrimReference(s))
    ensures exists before, after :: Surrounds(before, TrimReference(s), after, s)
  {
    var before := TrimStartSplits(s);
    TrimEndSplits(TrimStart(s));
    SurroundedCore(s, before, TrimStart(s), TrimReference(s));
  }

  lemma SurroundedIsTrimmed(s: string, before: string, core: string, after: string)
    requires core != "" && IsTrimmed(core) && Surrounds(before, core, after, s)
    ensures TrimReference(s) == core
  {
    assert s == before + (core + after) && (core + after)[0] == core[0];
    TrimStartDrops(before, core + after);
    TrimEndDrops(core, after);
  }

  /** Trimming finds the one trimmed core of a text that is not all white space. */
  lemma TrimIsTheCore(s: string, core: string)
    requires core != ""
    ensures TrimReference(s) == core <==>
            IsTrimmed(core) && exists before, after :: Surrounds(before, core, after, s)
  {
    if TrimReference(s) == core {
      TrimIsSurrounded(s);
    }
    if IsTrimmed(core) && exists before, after :: Surrounds(before, core, after, s) {
      var before, after :| Surrounds(before, core, after, s);
      SurroundedIsTrimmed(s, before, core, after);
    }
  }

  /** A value parses exactly to what its kind promises. */
  lemma ValuesExactly(kind: ScalarKind, given: string, parsed: string, native: (string, string) -> NativeResult)
    ensures ParseScalar(kind, given, native) == Ok(parsed) <==> IsValueOf(kind, given, parsed, native)
  {
    match kind
    case Integer(k) =>
      if ParseInteger(k, given).Ok? {
        SecondConversionSucceeds(k, given);
      } else if n: int :| Writes(k, given, n) && Lowest(k) <= n <= Highest(k) {
        AcceptedExactly(k, given, n);
      }
    case Work =>
      if parsed != "" { TrimIsTheCore(given, parsed); }
    case _ =>
  }

  /** Except for native kinds, a parsed value is its own parse. */
  lemma ParsedValuesStay(kind: ScalarKind, given: string, parsed: string, native: (string, string) -> NativeResult)
    requires ParseScalar(kind, given, native) == Ok(parsed) && !kind.Native?
    ensures ParseScalar(kind, parsed, native) == Ok(parsed)
  {
    ValuesExactly(kind, given, parsed, native);
    if kind.Work? {
      assert Surrounds("", parsed, "", parsed);
      TrimIsTheCore(parsed, parsed);
    }
  }

  // ----- one command

  datatype OptionSpec = OptionSpec(name: string, isString: bool, short: Option<char>, multiple: bool)

  /** A command: its options, its number of positionals, how many of them may be
      left out, whether the last may be repeated, its grammar and value kinds. */
  datatype Command = Command(options: seq<OptionSpec>, positional: nat, optionalPositionals: nat, variadic: bool,
                             syntax: Syntax, scalars: map<string, ScalarKind>,
                             native: (string, string) -> NativeResult)

  function FindOption(options: seq<OptionSpec>, name: string): (r: Option<OptionSpec>)
    ensures r.None? <==> forall o :: o in options ==> o.name != name
    ensures r.Some? ==> r.value in options && r.value.name == name
  {
    if options == [] then None
    else if options[0].name == name then Some(options[0])
    else FindOption(options[1..], name)
  }

  /** An option is the first one of its name. */
  ghost predicate FirstNamed(options: seq<OptionSpec>, name: string, i: nat) {
    i < |options| && options[i].name == name && forall k :: 0 <= k < i ==> options[k].name != name
  }

  lemma {:induction false} FindsFirstNamed(options: seq<OptionSpec>, name: string, i: nat)
    requires FirstNamed(options, name, i)
    ensures FindOption(options, name) == Some(options[i])
  {
    if i > 0 {
      assert options[0].name != name;
      FindsFirstNamed(options[1..], name, i - 1);
    }
  }

  lemma {:induction false} FirstOfName(options: seq<OptionSpec>, name: string) returns (i: nat)
    requires FindOption(options, name).Some?
    ensures FirstNamed(options, name, i) && FindOption(options, name) == Some(options[i])
  {
    if options[0].name == name {
      i := 0;
    } else {
      i := FirstOfName(options[1..], name);
      i := i + 1;
    }
  }

  predicate DeclaresJson(syntax: Syntax) {
    exists a :: a in syntax.args && a.key == "json"
  }

  /** Help is understood everywhere, json where the grammar declares it. */
  function Declared(command: Command, key: string): Option<OptionSpec> {
    if key == "help" || (key == "json" && DeclaresJson(command.syntax)) then Some(OptionSpec(key, false, None, false))
    else FindOption(command.options, key)
  }

  /** The value a string option is given: in a short cluster a leading "=" is
      dropped from an attached value. */
  function GivenValue(option: OptionSpec, token: Token): Option<string>
    requires token.Flag?
  {
    if option.isString && token.inlineValue && token.value.Some?
       && !StartsWith(token.rawName, "--") && StartsWith(token.value.value, "=")
    then Some(token.value.value[1..])
    else token.value
  }

  /** A detached value that looks like an option is not taken as a value. */
  predicate LooksLikeOption(token: Token, value: string)
    requires token.Flag?
  {
    !token.inlineValue && |value| > 1 && StartsWith(value, "-")
  }

  datatype TokenError =
    | UnexpectedArgument(raw: string)
    | ValueMissing(key: string)
    | UnexpectedValue(key: string)
    | Repeated(key: string)
    | Surplus(index: nat)
    | InvalidScalar(key: string)
    | ForeignFailure(key: string)

  /** Whether the word after a value-less option is itself an unknown option. */
  predicate UnknownNext(command: Command, next: string) {
    && next != "" && next != "--" && !StartsWith(next, "-h")
    && if StartsWith(next, "--") then
         var key := UpTo(next[2..], '=');
         key !in {"help", "json"} && FindOption(command.options, key).None?
       else |next| > 1 ==> forall o :: o in command.options ==> o.short != Some(next[1])
  }

  function ValueError(command: Command, key: string, value: Option<string>): TokenError {
    match value
    case Some(next) =>
      if UnknownNext(command, next) then
        UnexpectedArgument(if StartsWith(next, "--") then UpTo(next, '=') else if |next| >= 2 then next[..2] else next)
      else ValueMissing(key)
    case None => ValueMissing(key)
  }

  /** The checks on one option token before its value is parsed. */
  function FlagError(command: Command, token: Token, repeated: bool): Option<TokenError>
    requires token.Flag?
  {
    match Declared(command, token.name)
    case None => Some(UnexpectedArgument(token.rawName))
    case Some(option) =>
      var value := GivenValue(option, token);
      if option.isString && (value.None? || LooksLikeOption(token, value.value)) then
        Some(ValueError(command, token.name, value))
      else if !option.isString && value.Some? then Some(UnexpectedValue(token.name))
      else if repeated && !option.multiple then Some(Repeated(token.name))
      else None
  }

  /** The check of a value against the kind declared for its key. */
  function ScalarCheck(command: Command, key: string, value: string): Result<string, TokenError> {
    if key !in command.scalars then Ok(value)
    else
      match ParseScalar(command.scalars[key], value, command.native)
      case Ok(text) => Ok(text)
      case Err(InvalidValue) => Err(InvalidScalar(key))
      case Err(Foreign) => Err(ForeignFailure(key))
  }

  // ----- which token lists are admissible

  /** An option token is fine by itself: declared, with a value exactly when it
      takes one, and with a value of the declared kind. */
  predicate FlagAdmissible(command: Command, token: Token)
    requires token.Flag?
  {
    var declared := Declared(command, token.name);
    && declared.Some?
    && var option := declared.value;
       var value := GivenValue(option, token);
       && (option.isString <==> value.Some?)
       && (value.Some? ==> !LooksLikeOption(token, value.value) && ScalarCheck(command, token.name, value.value).Ok?)
  }

  predicate PositionalAdmissible(command: Command, index: nat, text: string) {
    && (index < command.positional || command.variadic)
    && ScalarCheck(command, PositionalKey(index), text).Ok?
  }

  /** No option named like this occurs in a token list. */
  predicate NotNamed(tokens: seq<Token>, name: string) {
    forall k :: 0 <= k < |tokens| ==> !(tokens[k].Flag? && tokens[k].name == name)
  }

  predicate MayRepeat(command: Command, name: string) {
    var declared := Declared(command, name);
    declared.Some? && declared.value.multiple
  }

  predicate TokenAdmissible(command: Command, tokens: seq<Token>, i: nat)
    requires i < |tokens|
  {
    match tokens[i]
    case Terminator => true
    case Positional(text) => PositionalAdmissible(command, PositionalCount(tokens[..i]), text)
    case Flag(name, _, _, _) =>
      FlagAdmissible(command, tokens[i]) && (MayRepeat(command, name) || NotNamed(tokens[..i], name))
  }

  ghost predicate Admissible(command: Command, tokens: seq<Token>) {
    forall i :: 0 <= i < |tokens| ==> TokenAdmissible(command, tokens, i)
  }

  /** All checks on one option token. */
  function FlagCheck(command: Command, token: Token, repeated: bool): (error: Option<TokenError>)
    requires token.Flag?
    ensures error.None? <==> FlagAdmissible(command, token) && (repeated ==> MayRepeat(command, token.name))
  {
    var error := FlagError(command, token, repeated);
    if error.Some? then error
    else
      var value := GivenValue(Declared(command, token.name).value, token);
      if value.None? then None
      else
        var parsed := ScalarCheck(command, token.name, value.value);
        if parsed.Err? then Some(parsed.error) else None
  }

  /** All checks on one positional, and its parsed text. */
  function PositionalCheck(command: Command, index: nat, text: string): (parsed: Result<string, TokenError>)
    ensures parsed.Ok? <==> PositionalAdmissible(command, index, text)
  {
    if index >= command.positional && !command.variadic then Err(Surplus(index))
    else ScalarCheck(command, PositionalKey(index), text)
  }

  /** A positional passes exactly when there is room for it and its text is, or
      trims to, a value of its kind. */
  lemma PositionalPassesExactly(command: Command, index: nat, given: string, parsed: string)
    ensures PositionalCheck(command, index, given) == Ok(parsed) <==>
            && (index < command.positional || command.variadic)
            && var key := PositionalKey(index);
               if key in command.scalars then IsValueOf(command.scalars[key], given, parsed, command.native)
               else parsed == given
  {
    var key := PositionalKey(index);
    if key in command.scalars {
      ValuesExactly(command.scalars[key], given, parsed, command.native);
    }
  }

  /** What the pass reports about one token, if anything. */
  function ErrorAt(command: Command, tokens: seq<Token>, i: nat): (error: Option<TokenError>)
    requires i < |tokens|
    ensures error.None? <==> TokenAdmissible(command, tokens, i)
  {
    match tokens[i]
    case Terminator => None
    case Positional(text) =>
      var parsed := PositionalCheck(command, PositionalCount(tokens[..i]), text);
      if parsed.Err? then Some(parsed.error) else None
    case Flag(name, _, _, _) => FlagCheck(command, tokens[i], !NotNamed(tokens[..i], name))
  }

  /** The first inadmissible token, and its error. */
  ghost predicate FirstError(command: Command, tokens: seq<Token>, i: int, error: TokenError) {
    && 0 <= i < |tokens| && ErrorAt(command, tokens, i) == Some(error)
    && forall k :: 0 <= k < i ==> TokenAdmissible(command, tokens, k)
  }

  // ----- the checks, said by the fields of a token

  /** The option that a name stands for: help everywhere, json where the grammar
      has it, and otherwise the first option of that name. */
  ghost predicate IsDeclared(command: Command, name: string, option: OptionSpec) {
    if name == "help" || (name == "json" && exists a :: a in command.syntax.args && a.key == "json") then
      !option.isString && !option.multiple
    else
      exists i: nat :: FirstNamed(command.options, name, i) && option == command.options[i]
  }

  /** A token's value, without the "=" that a short cluster leaves in front of
      it; behind a long name the "=" is part of the value. */
  ghost predicate Carries(token: Token, v: string)
    requires token.Flag?
  {
    var attached := token.inlineValue && !StartsWith(token.rawName, "--");
    && token.value.Some?
    && ((token.value.value == v && !(attached && StartsWith(v, "="))) || (attached && token.value.value == "=" + v))
  }

  /** A value that counts as one: attached, or not led by a dash. */
  ghost predicate CarriesValue(token: Token, v: string)
    requires token.Flag?
  {
    Carries(token, v) && (token.inlineValue || |v| <= 1 || v[0] != '-')
  }

  /** A value of the kind that is declared for the option, if any is. */
  ghost predicate OfItsKind(command: Command, name: string, v: string) {
    name in command.scalars ==> exists parsed :: IsValueOf(command.scalars[name], v, parsed, command.native)
  }

  /** The native service breaks down over a value. */
  predicate BreaksNative(command: Command, name: string, v: string) {
    && name in command.scalars && command.scalars[name].Native?
    && command.native(command.scalars[name].validator, v) == BridgeFailure
  }

  lemma DeclaredExactly(command: Command, name: string)
    ensures Declared(command, name).Some? ==> IsDeclared(command, name, Declared(command, name).value)
    ensures forall option :: IsDeclared(command, name, option) ==>
              var declared := Declared(command, name);
              declared.Some? && declared.value.isString == option.isString && declared.value.multiple == option.multiple
  {
    if FindOption(command.options, name).Some? {
      var first := FirstOfName(command.options, name);
    }
    forall i: nat | FirstNamed(command.options, name, i)
      ensures FindOption(command.options, name) == Some(command.options[i])
    {
      FindsFirstNamed(command.options, name, i);
    }
  }

  lemma GivenExactly(option: OptionSpec, token: Token, v: string)
    requires token.Flag? && option.isString
    ensures GivenValue(option, token) == Some(v) <==> Carries(token, v)
  {
    if token.value.Some? && StartsWith(token.value.value, "=") {
      assert token.value.value == "=" + token.value.value[1..];
    }
  }

  lemma ScalarExactly(command: Command, key: string, v: string)
    ensures ScalarCheck(command, key, v).Ok? <==> OfItsKind(command, key, v)
    ensures ScalarCheck(command, key, v) == Err(ForeignFailure(key)) <==> BreaksNative(command, key, v)
    ensures ScalarCheck(command, key, v) == Err(InvalidScalar(key)) <==>
            !OfItsKind(command, key, v) && !BreaksNative(command, key, v)
  {
    if key in command.scalars {
      var kind := command.scalars[key];
      forall parsed
        ensures ParseScalar(kind, v, command.native) == Ok(parsed) <==> IsValueOf(kind, v, parsed, command.native)
      {
        ValuesExactly(kind, v, parsed, command.native);
      }
      if ParseScalar(kind, v, command.native).Ok? {
        assert IsValueOf(kind, v, ParseScalar(kind, v, command.native).value, command.native);
      }
    }
  }

  /** An option token passes exactly when it is declared, may occur again if it
      does, has no value if it takes none, and otherwise a value of its kind that
      is attached or not led by a dash. */
  lemma FlagPassesExactly(command: Command, token: Token, repeated: bool, option: OptionSpec)
    requires token.Flag? && IsDeclared(command, token.name, option)
    ensures FlagCheck(command, token, repeated).None? <==>
            && (repeated ==> option.multiple)
            && if option.isString then exists v :: CarriesValue(token, v) && OfItsKind(command, token.name, v)
               else token.value.None?
  {
    DeclaredExactly(command, token.name);
    if option.isString && token.value.Some? {
      var v := GivenValue(option, token).value;
      GivenExactly(option, token, v);
      ScalarExactly(command, token.name, v);
      forall w | Carries(token, w) ensures w == v {
        GivenExactly(option, token, w);
      }
      assert CarriesValue(token, v) <==> !LooksLikeOption(token, v);
    }
  }

  /** Which error a token gets that does not pass: the first of the source's
      checks that fails. */
  lemma FlagErrorsExactly(command: Command, token: Token, repeated: bool, option: OptionSpec)
    requires token.Flag? && IsDeclared(command, token.name, option)
    ensures var error := FlagCheck(command, token, repeated);
            var hasValue := exists v :: CarriesValue(token, v);
            && (error == Some(UnexpectedValue(token.name)) <==> !option.isString && token.value.Some?)
            && (error == Some(Repeated(token.name)) <==>
                  repeated && !option.multiple && if option.isString then hasValue else token.value.None?)
            && (error == Some(InvalidScalar(token.name)) <==>
                  option.isString && (repeated ==> option.multiple)
                  && exists v :: CarriesValue(token, v) && !OfItsKind(command, token.name, v)
                                 && !BreaksNative(command, token.name, v))
            && (error == Some(ForeignFailure(token.name)) <==>
                  option.isString && (repeated ==> option.multiple)
                  && exists v :: CarriesValue(token, v) && BreaksNative(command, token.name, v))
            && (error.Some? && (error.value.ValueMissing? || error.value.UnexpectedArgument?) <==>
                  option.isString && !hasValue)
  {
    DeclaredExactly(command, token.name);
    if option.isString && token.value.Some? {
      var v := GivenValue(option, token).value;
      GivenExactly(option, token, v);
      ScalarExactly(command, token.name, v);
      forall w | Carries(token, w) ensures w == v {
        GivenExactly(option, token, w);
      }
      assert CarriesValue(token, v) <==> !LooksLikeOption(token, v);
    }
  }

  lemma UndeclaredFails(command: Command, token: Token, repeated: bool)
    requires token.Flag? && forall option :: !IsDeclared(command, token.name, option)
    ensures FlagCheck(command, token, repeated) == Some(UnexpectedArgument(token.rawName))
  {
    DeclaredExactly(command, token.name);
  }

  lemma MissingIsValueError(command: Command, token: Token, repeated: bool, option: OptionSpec)
    requires token.Flag? && IsDeclared(command, token.name, option) && option.isString
    requires token.value.None? || (!token.inlineValue && |token.value.value| > 1 && token.value.value[0] == '-')
    ensures FlagCheck(command, token, repeated) == Some(ValueError(command, token.name, token.value))
  {
    DeclaredExactly(command, token.name);
  }

  /** Without a word behind it, or with "--", an option misses its value. */
  lemma NoWordMeansMissing(command: Command, token: Token, repeated: bool, option: OptionSpec)
    requires token.Flag? && IsDeclared(command, token.name, option) && option.isString
    requires token.value.None? || (!token.inlineValue && token.value.value == "--")
    ensures FlagCheck(command, token, repeated) == Some(ValueMissing(token.name))
  {
    MissingIsValueError(command, token, repeated, option);
  }

  /** With a long option behind it, that option is blamed if there is none of its
      name, without what follows its "=". */
  lemma LongWordBehind(command: Command, token: Token, repeated: bool, option: OptionSpec, key: string, rest: string)
    requires token.Flag? && IsDeclared(command, token.name, option) && option.isString
    requires !token.inlineValue && token.value == Some("--" + key + rest)
    requires '=' !in key && (rest != "" ==> rest[0] == '=') && key + rest != ""
    ensures FlagCheck(command, token, repeated) ==
            if key == "help" || key == "json" || exists o :: o in command.options && o.name == key
            then Some(ValueMissing(token.name)) else Some(UnexpectedArgument("--" + key))
  {
    var next := token.value.value;
    assert next == "--" + (key + rest);
    assert next[..2] == "--" && next[2..] == key + rest;
    MissingIsValueError(command, token, repeated, option);
    UpToStops(key, rest, '=');
    UpToStops("--" + key, rest, '=');
    assert next != "--" && !StartsWith(next, "-h");
  }

  /** With a short cluster behind it, the cluster's first letter is blamed if no
      option has it. */
  lemma ClusterBehind(command: Command, token: Token, repeated: bool, option: OptionSpec, letter: char, rest: string)
    requires token.Flag? && IsDeclared(command, token.name, option) && option.isString
    requires !token.inlineValue && token.value == Some(['-', letter] + rest) && letter != '-'
    ensures FlagCheck(command, token, repeated) ==
            if letter == 'h' || exists o :: o in command.options && o.short == Some(letter)
            then Some(ValueMissing(token.name)) else Some(UnexpectedArgument(['-', letter]))
  {
    var next := token.value.value;
    MissingIsValueError(command, token, repeated, option);
    assert next[0] == '-' && next[1] == letter && next[..2] == ['-', letter];
    assert StartsWith(next, "-h") <==> letter == 'h';
  }

  /** A positional without room, or of the wrong kind. */
  lemma PositionalErrorsExactly(command: Command, index: nat, given: string)
    ensures var room := index < command.positional || command.variadic;
            var key := PositionalKey(index);
            var checked := PositionalCheck(command, index, given);
            && (checked == Err(Surplus(index)) <==> !room)
            && (checked == Err(ForeignFailure(key)) <==> room && BreaksNative(command, key, given))
            && (checked == Err(InvalidScalar(key)) <==>
                  room && !OfItsKind(command, key, given) && !BreaksNative(command, key, given))
  {
    ScalarExactly(command, PositionalKey(index), given);
  }

  // ----- what is handed on

  /** A stored option value: set, one text, or the texts of a repeatable option. */
  datatype Value = On | Text(text: string) | Texts(texts: seq<string>)

  function PositionalTexts(tokens: seq<Token>): (texts: seq<string>)
    ensures |texts| == PositionalCount(tokens)
  {
    if tokens == [] then []
    else
      var init, last := PositionalTexts(tokens[..|tokens| - 1]), tokens[|tokens| - 1];
      if last.Positional? then init + [last.text] else init
  }

  /** The option values as the argument parser stores them. */
  function RawValues(command: Command, tokens: seq<Token>): map<string, Value> {
    if tokens == [] then map[]
    else
      var values, last := RawValues(command, tokens[..|tokens| - 1]), tokens[|tokens| - 1];
      if !last.Flag? then values
      else if MayRepeat(command, last.name) then
        var before := if last.name in values && values[last.name].Texts? then values[last.name].texts else [];
        values[last.name := Texts(before + [last.value.GetOr("")])]
      else values[last.name := if last.value.Some? then Text(last.value.value) else On]
  }

  /** One option token's effect on the stored values. */
  function StoreFlag(command: Command, values: map<string, Value>, token: Token): map<string, Value>
    requires token.Flag?
  {
    if !FlagAdmissible(command, token) then values
    else
      var value := GivenValue(Declared(command, token.name).value, token);
      if value.Some? && (token.name in command.scalars || value != token.value) then
        values[token.name := Text(ScalarCheck(command, token.name, value.value).value)]
      else values
  }

  function StoreFlags(command: Command, values: map<string, Value>, tokens: seq<Token>): map<string, Value> {
    if tokens == [] then values
    else
      var before, last := StoreFlags(command, values, tokens[..|tokens| - 1]), tokens[|tokens| - 1];
      if last.Flag? then StoreFlag(command, before, last) else before
  }

  /** The first n texts are the parsed forms of the given positionals; the rest
      are still as given. */
  ghost predicate ParsedUpTo(command: Command, given: seq<string>, texts: seq<string>, n: nat) {
    && |texts| == |given| && n <= |given|
    && (forall k :: 0 <= k < n ==> PositionalCheck(command, k, given[k]) == Ok(texts[k]))
    && (forall k :: n <= k < |given| ==> texts[k] == given[k])
  }

  lemma AdmissibleFlags(command: Command, tokens: seq<Token>)
    requires Admissible(command, tokens)
    ensures forall t :: t in tokens && t.Flag? ==> FlagAdmissible(command, t)
  {
    forall t | t in tokens && t.Flag? ensures FlagAdmissible(command, t) {
      var i :| 0 <= i < |tokens| && tokens[i] == t;
      assert TokenAdmissible(command, tokens, i);
    }
  }

  /** Where the pass stands before token i. */
  datatype Progress = Progress(positionalIndex: nat, seen: set<string>, values: map<string, Value>, positionals: seq<string>)

  ghost predicate AdmissibleBefore(command: Command, tokens: seq<Token>, i: nat)
    requires i <= |tokens|
  {
    forall k :: 0 <= k < i ==> TokenAdmissible(command, tokens, k)
  }

  ghost predicate NamesBefore(tokens: seq<Token>, i: nat, seen: set<string>)
    requires i <= |tokens|
  {
    forall name :: name in seen <==> !NotNamed(tokens[..i], name)
  }

  /** All tokens before i are admissible, and their effects are recorded. */
  ghost predicate PassedUpTo(command: Command, tokens: seq<Token>, start: Progress, i: nat, now: Progress) {
    && i <= |tokens|
    && now.positionalIndex == PositionalCount(tokens[..i])
    && NamesBefore(tokens, i, now.seen)
    && AdmissibleBefore(command, tokens, i)
    && now.values == StoreFlags(command, start.values, tokens[..i])
    && ParsedUpTo(command, start.positionals, now.positionals, now.positionalIndex)
  }

  lemma PassTerminator(command: Command, tokens: seq<Token>, start: Progress, i: nat, now: Progress)
    requires PassedUpTo(command, tokens, start, i, now) && i < |tokens| && tokens[i].Terminator?
    ensures PassedUpTo(command, tokens, start, i + 1, now)
  {
    assert tokens[..i + 1][..i] == tokens[..i];
    NamesOneMore(tokens, i, now.seen);
  }

  lemma ParsedOneMore(command: Command, given: seq<string>, texts: seq<string>, n: nat, parsed: string)
    requires ParsedUpTo(command, given, texts, n) && n < |given|
    requires PositionalCheck(command, n, given[n]) == Ok(parsed)
    ensures ParsedUpTo(command, given, texts[n := parsed], n + 1)
  {
  }

  lemma BehindPositional(command: Command, tokens: seq<Token>, values: map<string, Value>, i: nat)
    requires i < |tokens| && tokens[i].Positional?
    ensures PositionalCount(tokens[..i + 1]) == PositionalCount(tokens[..i]) + 1
    ensures StoreFlags(command, values, tokens[..i + 1]) == StoreFlags(command, values, tokens[..i])
  {
    assert tokens[..i + 1][..i] == tokens[..i];
  }

  lemma PassPositional(command: Command, tokens: seq<Token>, start: Progress, i: nat, now: Progress, parsed: string)
    requires start.positionals == PositionalTexts(tokens)
    requires PassedUpTo(command, tokens, start, i, now) && i < |tokens| && tokens[i].Positional?
    requires PositionalCheck(command, now.positionalIndex, tokens[i].text) == Ok(parsed)
    ensures now.positionalIndex < |now.positionals|
    ensures PassedUpTo(command, tokens, start, i + 1,
                       Progress(now.positionalIndex + 1, now.seen, now.values,
                                now.positionals[now.positionalIndex := parsed]))
  {
    PositionalAt(tokens, i);
    BehindPositional(command, tokens, start.values, i);
    ParsedOneMore(command, start.positionals, now.positionals, now.positionalIndex, parsed);
    NamesOneMore(tokens, i, now.seen);
    assert TokenAdmissible(command, tokens, i);
  }

  lemma PassFlag(command: Command, tokens: seq<Token>, start: Progress, i: nat, now: Progress)
    requires PassedUpTo(command, tokens, start, i, now) && i < |tokens| && tokens[i].Flag?
    requires FlagCheck(command, tokens[i], tokens[i].name in now.seen).None?
    ensures var next := now.(seen := now.seen + {tokens[i].name}, values := StoreFlag(command, now.values, tokens[i]));
            PassedUpTo(command, tokens, start, i + 1, next)
  {
    assert tokens[..i + 1][..i] == tokens[..i];
    NamesOneMore(tokens, i, now.seen);
    assert TokenAdmissible(command, tokens, i);
  }

  lemma PassFails(command: Command, tokens: seq<Token>, start: Progress, i: nat, now: Progress, error: TokenError)
    requires PassedUpTo(command, tokens, start, i, now) && i < |tokens|
    requires match tokens[i]
             case Terminator => false
             case Positional(text) => PositionalCheck(command, now.positionalIndex, text) == Err(error)
             case Flag(name, _, _, _) => FlagCheck(command, tokens[i], name in now.seen) == Some(error)
    ensures FirstError(command, tokens, i, error) && !Admissible(command, tokens)
  {
  }

  /** The parser's result, whose parts the pass overwrites in place. */
  class ParsedArguments {
    var values: map<string, Value>
    var positionals: seq<string>

    constructor (command: Command, tokens: seq<Token>)
      ensures values == RawValues(command, tokens) && positionals == PositionalTexts(tokens)
    {
      values := RawValues(command, tokens);
      positionals := PositionalTexts(tokens);
    }

    /** The pass accepts exactly the admissible token lists, reports the first
        other token, and replaces every checked value by its parsed text. */
    method ValidateTokens(command: Command, tokens: seq<Token>) returns (error: Option<TokenError>)
      requires positionals == PositionalTexts(tokens)
      modifies this
      ensures error.None? <==> Admissible(command, tokens)
      ensures error.Some? ==> exists i :: FirstError(command, tokens, i, error.value)
      ensures error.None? ==>
                && values == StoreFlags(command, old(values), tokens)
                && ParsedUpTo(command, old(positionals), positionals, |positionals|)
    {
      var positionalIndex := 0;
      var seen: set<string> := {};
      ghost var start := Progress(0, {}, values, positionals);
      for i := 0 to |tokens|
        invariant PassedUpTo(command, tokens, start, i, Progress(positionalIndex, seen, values, positionals))
      {
        var token := tokens[i];
        ghost var now := Progress(positionalIndex, seen, values, positionals);
        match token {
          case Terminator =>
            PassTerminator(command, tokens, start, i, now);
          case Positional(text) =>
            var parsed := PositionalCheck(command, positionalIndex, text);
            if parsed.Err? {
              PassFails(command, tokens, start, i, now, parsed.error);
              return Some(parsed.error);
            }
            PassPositional(command, tokens, start, i, now, parsed.value);
            positionals := positionals[positionalIndex := parsed.value];
            positionalIndex := positionalIndex + 1;
          case Flag(name, _, _, _) =>
            error := FlagCheck(command, token, name in seen);
            if error.Some? {
              PassFails(command, tokens, start, i, now, error.value);
              return;
            }
            PassFlag(command, tokens, start, i, now);
            values := StoreFlag(command, values, token);
            seen := seen + {name};
        }
      }
      assert tokens[..|tokens|] == tokens;
      error := None;
    }
  }

  lemma {:induction false} PositionalAt(tokens: seq<Token>, i: nat)
    requires i < |tokens| && tokens[i].Positional?
    ensures PositionalCount(tokens[..i]) < |PositionalTexts(tokens)|
    ensures PositionalTexts(tokens)[PositionalCount(tokens[..i])] == tokens[i].text
  {
    var init := tokens[..|tokens| - 1];
    if i < |init| {
      PositionalAt(init, i);
      assert init[..i] == tokens[..i];
    }
  }

  lemma NamedOneMore(tokens: seq<Token>, i: nat, name: string)
    requires i < |tokens|
    ensures NotNamed(tokens[..i + 1], name) <==>
            NotNamed(tokens[..i], name) && !(tokens[i].Flag? && name == tokens[i].name)
  {
    var longer := tokens[..i + 1];
    assert longer[i] == tokens[i];
    forall k | 0 <= k < i ensures tokens[..i][k] == longer[k] {
    }
    if NotNamed(longer, name) {
      forall k | 0 <= k < i ensures !(tokens[..i][k].Flag? && tokens[..i][k].name == name) {
        assert longer[k] == tokens[..i][k];
      }
    }
  }

  lemma NamesOneMore(tokens: seq<Token>, i: nat, seen: set<string>)
    requires i < |tokens| && NamesBefore(tokens, i, seen)
    ensures NamesBefore(tokens, i + 1, if tokens[i].Flag? then seen + {tokens[i].name} else seen)
  {
    forall name ensures NotNamed(tokens[..i + 1], name) <==>
                        NotNamed(tokens[..i], name) && !(tokens[i].Flag? && name == tokens[i].name)
    {
      NamedOneMore(tokens, i, name);
    }
  }
}
