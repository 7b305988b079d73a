/** The usage line shown with a rejected command line. */
module Usage {
  import opened Basics
  import opened Grammar
  import opened Worklist

  /** A positional, and whether it is shown as given. */
  datatype Shown = Shown(key: string, given: bool)

  datatype UsageLine = Verbatim | Line(flags: seq<string>, positionals: seq<Shown>)

  /** Commands whose help text is quoted unchanged. */
  const VERBATIM: set<string> := {"external update", "task start", "task quick", "snapshot restore-lines"}

  function KeysOf(args: seq<Arg>): (keys: seq<string>)
    ensures |keys| == |args| && forall i :: 0 <= i < |args| ==> keys[i] == args[i].key
  {
    seq(|args|, i requires 0 <= i < |args| => args[i].key)
  }

  function RequiredArgs(syntax: Syntax): seq<string> {
    KeysOf(Filter(syntax.args, (a: Arg) => a.required))
  }

  function FlagArgs(syntax: Syntax): seq<Arg> {
    Filter(syntax.args, (a: Arg) => !IsPositionalKey(a.key) && !a.hidden)
  }

  function RequiredFlags(syntax: Syntax, required: set<string>): seq<string> {
    KeysOf(Filter(FlagArgs(syntax), (a: Arg) => a.key in required))
  }

  function OtherFlags(syntax: Syntax, keys: seq<string>, required: set<string>): seq<string> {
    KeysOf(Filter(FlagArgs(syntax), (a: Arg) => a.key !in required && a.key in keys))
  }

  function ShownPositionals(syntax: Syntax, keys: seq<string>): seq<Shown> {
    var args := Filter(syntax.args, (a: Arg) => IsPositionalKey(a.key));
    seq(|args|, i requires 0 <= i < |args| => Shown(args[i].key, args[i].key in keys))
  }

  /** The line for the given keys when the given set of keys counts as required. */
  function LineFor(syntax: Syntax, keys: seq<string>, required: set<string>): UsageLine {
    var flags := RequiredFlags(syntax, required) + OtherFlags(syntax, keys, required);
    Line(if "help" in keys then flags + ["help"] else flags, ShownPositionals(syntax, keys))
  }

  /** Whether a set is what the usage line treats as required. */
  ghost predicate TreatedAsRequired(syntax: Syntax, keys: seq<string>, requiredKeys: seq<string>,
                                    includeDependencies: bool, required: set<string>) {
    var base := ToSet(RequiredArgs(syntax)) + ToSet(requiredKeys);
    if includeDependencies then IsLeastClosed(FirstByKey(syntax.args), ToSet(keys), base, required)
    else required == base
  }

  method SelectedUsage(name: string, syntax: Syntax, keys: seq<string>, requiredKeys: seq<string>,
                       includeDependencies: bool) returns (usage: UsageLine, ghost required: set<string>)
    ensures TreatedAsRequired(syntax, keys, requiredKeys, includeDependencies, required)
    ensures usage == if name in VERBATIM then Verbatim else LineFor(syntax, keys, required)
    ensures usage.Verbatim? <==> name in VERBATIM
    ensures usage.Line? ==> usage.positionals == ShownPositionals(syntax, keys) && ("help" in keys ==> "help" in usage.flags)
  {
    var requiredFlags := AddAll(AddAll([], RequiredArgs(syntax)), requiredKeys);
    assert ToSet(requiredFlags) == ToSet(RequiredArgs(syntax)) + ToSet(requiredKeys);
    if includeDependencies {
      requiredFlags := Chase(FirstByKey(syntax.args), keys, requiredFlags);
    }
    required := ToSet(requiredFlags);
    usage := if name in VERBATIM then Verbatim else LineFor(syntax, keys, ToSet(requiredFlags));
  }

  lemma {:induction false} FilterKeepsDistinct(args: seq<Arg>, keep: Arg -> bool)
    requires DistinctArgs(args)
    ensures DistinctArgs(Filter(args, keep))
  {
    if args != [] {
      var init, last := args[..|args| - 1], args[|args| - 1];
      FilterKeepsDistinct(init, keep);
      var kept := Filter(init, keep);
      forall i | 0 <= i < |kept| ensures kept[i].key != last.key {
        assert kept[i] in kept;
      }
    }
  }

  lemma KeyListed(args: seq<Arg>, key: string)
    ensures key in KeysOf(args) <==> exists a :: a in args && a.key == key
  {
    if a :| a in args && a.key == key {
      var i :| 0 <= i < |args| && args[i] == a;
      assert KeysOf(args)[i] == key;
    }
    if key in KeysOf(args) {
      var i :| 0 <= i < |args| && KeysOf(args)[i] == key;
      assert args[i] in args;
    }
  }

  /** Every visible flag that is required or asked for is listed exactly once,
      and nothing else; the required ones come first. */
  lemma FlagsAreListedOnce(syntax: Syntax, keys: seq<string>, required: set<string>)
    requires DistinctArgs(syntax.args)
    ensures var must, other := RequiredFlags(syntax, required), OtherFlags(syntax, keys, required);
            && NoRepeats(must + other)
            && (forall k :: k in must <==> k in required && exists a :: a in FlagArgs(syntax) && a.key == k)
            && (forall k :: k in other <==>
                  k !in required && k in keys && exists a :: a in FlagArgs(syntax) && a.key == k)
  {
    var isMust, isOther := (a: Arg) => a.key in required, (a: Arg) => a.key !in required && a.key in keys;
    FilterKeepsDistinct(syntax.args, (a: Arg) => !IsPositionalKey(a.key) && !a.hidden);
    FilterKeepsDistinct(FlagArgs(syntax), isMust);
    FilterKeepsDistinct(FlagArgs(syntax), isOther);
    var must, other := RequiredFlags(syntax, required), OtherFlags(syntax, keys, required);
    forall k
      ensures k in must <==> k in required && exists a :: a in FlagArgs(syntax) && a.key == k
      ensures k in other <==> k !in required && k in keys && exists a :: a in FlagArgs(syntax) && a.key == k
    {
      KeyListed(Filter(FlagArgs(syntax), isMust), k);
      KeyListed(Filter(FlagArgs(syntax), isOther), k);
    }
    forall i, j | 0 <= i < |must| && 0 <= j < |other| ensures must[i] != other[j] {
      assert must[i] in must && other[j] in other;
    }
  }

  // ----- the line, said by the rows of the table

  ghost predicate IsVisibleFlag(a: Arg) {
    !a.hidden && (a.key == "" || a.key[0] != '#')
  }

  /** The keys of the arguments at the given positions. */
  ghost predicate AreKeysAt(keys: seq<string>, args: seq<Arg>, at: seq<nat>) {
    |keys| == |at| && forall k :: 0 <= k < |at| ==> at[k] < |args| && keys[k] == args[at[k]].key
  }

  lemma KeysTaken(part: seq<Arg>, args: seq<Arg>, at: seq<nat>)
    requires TakenAt(part, args, at)
    ensures AreKeysAt(KeysOf(part), args, at)
  {
  }

  lemma PositionalByLetter(key: string)
    ensures IsPositionalKey(key) <==> key != "" && key[0] == '#'
  {
    assert "#"[0] == '#';
  }

  /** The positions of the visible flags that are required. */
  ghost predicate ListsRequired(at: seq<nat>, args: seq<Arg>, required: set<string>) {
    && Increasing(at)
    && forall i :: i in at <==> 0 <= i < |args| && IsVisibleFlag(args[i]) && args[i].key in required
  }

  /** The positions of the other visible flags that are asked for. */
  ghost predicate ListsOther(at: seq<nat>, args: seq<Arg>, keys: seq<string>, required: set<string>) {
    && Increasing(at)
    && forall i :: i in at <==>
         0 <= i < |args| && IsVisibleFlag(args[i]) && args[i].key !in required && args[i].key in keys
  }

  lemma RequiredFlagsExactly(syntax: Syntax, required: set<string>) returns (at: seq<nat>)
    ensures ListsRequired(at, syntax.args, required) && AreKeysAt(RequiredFlags(syntax, required), syntax.args, at)
  {
    at := FilterTwiceExactly(syntax.args, (a: Arg) => !IsPositionalKey(a.key) && !a.hidden, (a: Arg) => a.key in required);
    KeysTaken(Filter(FlagArgs(syntax), (a: Arg) => a.key in required), syntax.args, at);
    forall a: Arg { PositionalByLetter(a.key); }
  }

  lemma OtherFlagsExactly(syntax: Syntax, keys: seq<string>, required: set<string>) returns (at: seq<nat>)
    ensures ListsOther(at, syntax.args, keys, required) && AreKeysAt(OtherFlags(syntax, keys, required), syntax.args, at)
  {
    at := FilterTwiceExactly(syntax.args, (a: Arg) => !IsPositionalKey(a.key) && !a.hidden,
                             (a: Arg) => a.key !in required && a.key in keys);
    KeysTaken(Filter(FlagArgs(syntax), (a: Arg) => a.key !in required && a.key in keys), syntax.args, at);
    forall a: Arg { PositionalByLetter(a.key); }
  }

  /** The positionals of the table in its order, and which of them are given. */
  lemma PositionalsExactly(syntax: Syntax, keys: seq<string>) returns (at: seq<nat>)
    ensures var shown := ShownPositionals(syntax, keys);
            && Increasing(at) && |shown| == |at|
            && forall k :: 0 <= k < |at| ==>
                 at[k] < |syntax.args| && shown[k].key == syntax.args[at[k]].key && (shown[k].given <==> shown[k].key in keys)
    ensures forall i :: i in at <==> 0 <= i < |syntax.args| && syntax.args[i].key != "" && syntax.args[i].key[0] == '#'
  {
    at := FilterExactly(syntax.args, (a: Arg) => IsPositionalKey(a.key));
    forall a: Arg { PositionalByLetter(a.key); }
  }

  /** The line lists the required visible flags in table order, then the other
      visible ones that are asked for in table order, then help if it is. */
  lemma LineExactly(syntax: Syntax, keys: seq<string>, required: set<string>)
    returns (must: seq<nat>, other: seq<nat>, first: seq<string>, second: seq<string>)
    ensures ListsRequired(must, syntax.args, required) && AreKeysAt(first, syntax.args, must)
    ensures ListsOther(other, syntax.args, keys, required) && AreKeysAt(second, syntax.args, other)
    ensures LineFor(syntax, keys, required) ==
            Line(if "help" in keys then first + second + ["help"] else first + second, ShownPositionals(syntax, keys))
  {
    must := RequiredFlagsExactly(syntax, required);
    other := OtherFlagsExactly(syntax, keys, required);
    first, second := RequiredFlags(syntax, required), OtherFlags(syntax, keys, required);
  }
}
