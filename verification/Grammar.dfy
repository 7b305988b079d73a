/** The command-line grammar of one command, and what a token list supplies. */
module Grammar {
  import opened Basics
  import opened Decimal

  /** A declared argument. Its key is the option name, or "#" and a number for a
      positional. Keys in needs, conflicts and unless name arguments or groups. */
  datatype Arg = Arg(key: string, required: bool, hidden: bool,
                     needs: seq<string>, conflicts: seq<string>, unless: Option<seq<string>>)

  datatype Group = Group(key: string, members: seq<string>, required: bool)

  datatype Syntax = Syntax(args: seq<Arg>, groups: seq<Group>)

  /** What the token list of the argument parser holds. */
  datatype Token =
    | Terminator
    | Positional(text: string)
    | Flag(name: string, rawName: string, value: Option<string>, inlineValue: bool)

  function PositionalKey(index: nat): string {
    "#" + NatText(index)
  }

  predicate IsPositionalKey(key: string) {
    StartsWith(key, "#")
  }

  // ----- lookups

  /** A map built from a list of entries keeps the last entry of a key. */
  function ByKey(args: seq<Arg>): (m: map<string, Arg>)
    ensures forall k :: k in m ==> m[k] in args && m[k].key == k
    ensures forall a :: a in args ==> a.key in m
  {
    if args == [] then map[]
    else
      assert args == args[..|args| - 1] + [args[|args| - 1]];
      ByKey(args[..|args| - 1])[args[|args| - 1].key := args[|args| - 1]]
  }

  /** Searching the list finds the first entry of a key. */
  function FirstByKey(args: seq<Arg>): (m: map<string, Arg>)
    ensures forall k :: k in m ==> m[k] in args && m[k].key == k
    ensures forall a :: a in args ==> a.key in m
  {
    if args == [] then map[]
    else
      assert args == [args[0]] + args[1..];
      FirstByKey(args[1..])[args[0].key := args[0]]
  }

  function GroupsByKey(groups: seq<Group>): (m: map<string, Group>)
    ensures forall k :: k in m ==> m[k] in groups && m[k].key == k
    ensures forall g :: g in groups ==> g.key in m
  {
    if groups == [] then map[]
    else
      assert groups == groups[..|groups| - 1] + [groups[|groups| - 1]];
      GroupsByKey(groups[..|groups| - 1])[groups[|groups| - 1].key := groups[|groups| - 1]]
  }

  ghost predicate DistinctArgs(args: seq<Arg>) {
    forall i, j :: 0 <= i < j < |args| ==> args[i].key != args[j].key
  }

  /** Argument keys are distinct, and no key names both an argument and a group. */
  ghost predicate WellFormed(syntax: Syntax) {
    && DistinctArgs(syntax.args)
    && forall a, g :: a in syntax.args && g in syntax.groups ==> a.key != g.key
  }

  /** A lookup of the arguments by their keys. */
  ghost predicate IsLookup(args: seq<Arg>, m: map<string, Arg>) {
    && (forall k :: k in m ==> m[k] in args && m[k].key == k)
    && (forall a :: a in args ==> a.key in m)
  }

  lemma LookupsAgreeAt(args: seq<Arg>, m: map<string, Arg>, n: map<string, Arg>, k: string)
    requires DistinctArgs(args) && IsLookup(args, m) && IsLookup(args, n) && k in m
    ensures k in n && m[k] == n[k]
  {
    var i :| 0 <= i < |args| && args[i] == m[k];
    var j :| 0 <= j < |args| && args[j] == n[k];
  }

  lemma LookupsAgree(args: seq<Arg>)
    requires DistinctArgs(args)
    ensures ByKey(args) == FirstByKey(args)
  {
    var last, first := ByKey(args), FirstByKey(args);
    assert IsLookup(args, last) && IsLookup(args, first);
    forall k | k in last ensures k in first && last[k] == first[k] {
      LookupsAgreeAt(args, last, first, k);
    }
    forall k | k in first ensures k in last {
      LookupsAgreeAt(args, first, last, k);
    }
  }

  // ----- what the tokens supply

  function PositionalCount(tokens: seq<Token>): nat {
    if tokens == [] then 0
    else PositionalCount(tokens[..|tokens| - 1]) + if tokens[|tokens| - 1].Positional? then 1 else 0
  }

  /** The keys of the tokens in order: options by name, positionals by number. */
  function OrderedKeys(tokens: seq<Token>): seq<string> {
    if tokens == [] then []
    else
      var init, last := tokens[..|tokens| - 1], tokens[|tokens| - 1];
      match last
      case Terminator => OrderedKeys(init)
      case Positional(_) => OrderedKeys(init) + [PositionalKey(PositionalCount(init))]
      case Flag(name, _, _, _) => OrderedKeys(init) + [name]
  }

  /** The positionals among the first n tokens. */
  function PositionalsBefore(tokens: seq<Token>, n: nat): set<nat>
    requires n <= |tokens|
  {
    set i: nat | i < n && tokens[i].Positional?
  }

  lemma {:induction false} PositionalCountExactly(tokens: seq<Token>, n: nat)
    requires n <= |tokens|
    ensures PositionalCount(tokens[..n]) == |PositionalsBefore(tokens, n)|
  {
    if n == 0 {
      assert PositionalsBefore(tokens, 0) == {};
    } else {
      PositionalCountExactly(tokens, n - 1);
      assert tokens[..n][..n - 1] == tokens[..n - 1];
      assert PositionalsBefore(tokens, n) ==
             PositionalsBefore(tokens, n - 1) + if tokens[n - 1].Positional? then {n - 1} else {};
    }
  }

  /** The key of the token at a position: its name, or "#" and the number of
      positionals before it. */
  function KeyAt(tokens: seq<Token>, i: nat): string
    requires i < |tokens|
  {
    match tokens[i]
    case Terminator => ""
    case Positional(_) => "#" + NatText(|PositionalsBefore(tokens, i)|)
    case Flag(name, _, _, _) => name
  }

  ghost predicate AreKeysOfTokens(keys: seq<string>, tokens: seq<Token>, at: seq<nat>) {
    |keys| == |at| && forall k :: 0 <= k < |at| ==> at[k] < |tokens| && keys[k] == KeyAt(tokens, at[k])
  }

  lemma OneMoreKey(keys: seq<string>, tokens: seq<Token>, at: seq<nat>, i: nat)
    requires AreKeysOfTokens(keys, tokens, at) && i < |tokens|
    ensures AreKeysOfTokens(keys + [KeyAt(tokens, i)], tokens, at + [i])
  {
  }

  lemma OrderedOneMore(tokens: seq<Token>, n: nat)
    requires n < |tokens|
    ensures OrderedKeys(tokens[..n + 1]) ==
            OrderedKeys(tokens[..n]) + if tokens[n].Terminator? then [] else [KeyAt(tokens, n)]
  {
    assert tokens[..n + 1][..n] == tokens[..n];
    PositionalCountExactly(tokens, n);
  }

  /** The ordered keys are those of all tokens but the terminators, in order. */
  lemma {:induction false} OrderedKeysExactly(tokens: seq<Token>, n: nat) returns (at: seq<nat>)
    requires n <= |tokens|
    ensures Increasing(at) && AreKeysOfTokens(OrderedKeys(tokens[..n]), tokens, at)
    ensures forall i :: i in at <==> 0 <= i < n && !tokens[i].Terminator?
  {
    at := [];
    if n > 0 {
      at := OrderedKeysExactly(tokens, n - 1);
      OrderedOneMore(tokens, n - 1);
      if !tokens[n - 1].Terminator? {
        IncreasingLonger(at, n - 1);
        OneMoreKey(OrderedKeys(tokens[..n - 1]), tokens, at, n - 1);
        at := at + [n - 1];
      }
    }
  }

  /** The keys that the tokens supply. */
  function Present(tokens: seq<Token>): set<string> {
    ToSet(OrderedKeys(tokens))
  }

  lemma {:induction false} PresentKeys(tokens: seq<Token>, key: string)
    ensures key in Present(tokens) <==>
            || (exists t :: t in tokens && t.Flag? && t.name == key)
            || (exists i: nat :: i < PositionalCount(tokens) && key == PositionalKey(i))
  {
    if tokens != [] {
      var init, last := tokens[..|tokens| - 1], tokens[|tokens| - 1];
      assert tokens == init + [last];
      PresentKeys(init, key);
      assert key in Present(tokens) <==> key in OrderedKeys(tokens);
      assert key in Present(init) <==> key in OrderedKeys(init);
      if exists i: nat :: i < PositionalCount(init) && key == PositionalKey(i) {
        var i: nat :| i < PositionalCount(init) && key == PositionalKey(i);
        assert i < PositionalCount(tokens);
      }
    }
  }

  /** A key is satisfied if it is supplied, or is a group with a supplied member. */
  predicate Satisfied(syntax: Syntax, present: set<string>, key: string) {
    || key in present
    || (var groups := GroupsByKey(syntax.groups);
        key in groups && exists member :: member in groups[key].members && member in present)
  }

  /** With distinct group keys: a key is satisfied if it is supplied, or if its
      group has a supplied member. */
  lemma SatisfiedExactly(syntax: Syntax, present: set<string>, key: string)
    requires forall g, h :: g in syntax.groups && h in syntax.groups && g.key == h.key ==> g == h
    ensures Satisfied(syntax, present, key) <==>
            || key in present
            || exists g, member :: g in syntax.groups && g.key == key && member in g.members && member in present
  {
    var groups := GroupsByKey(syntax.groups);
    if g, member :| g in syntax.groups && g.key == key && member in g.members && member in present {
      assert groups[g.key] == g;
    }
  }
}
