/** The constraint pass: conflicts, requirements, groups and "required unless". */
module Constraints {
  import opened Basics
  import opened Grammar
  import opened Worklist
  import opened Usage

  datatype Outcome =
    | Accepted
    | Conflicting(key: string, others: seq<string>, usage: UsageLine)
    | Missing(keys: seq<string>, usage: UsageLine)

  /** The supplied keys that a supplied key declares a conflict with. */
  function ConflictsOf(syntax: Syntax, present: set<string>, key: string): seq<string> {
    var byKey := ByKey(syntax.args);
    if key in byKey then Filter(byKey[key].conflicts, (other: string) => other in present) else []
  }

  function RequiredGroups(syntax: Syntax): seq<string> {
    var groups := Filter(syntax.groups, (g: Group) => g.required);
    seq(|groups|, i requires 0 <= i < |groups| => groups[i].key)
  }

  /** Arguments and groups that are required whatever is supplied. */
  function BaseRequired(syntax: Syntax): (keys: seq<string>)
    ensures NoRepeats(keys)
  {
    AddAll(AddAll([], RequiredArgs(syntax)), RequiredGroups(syntax))
  }

  /** Arguments that are required because nothing excuses them. */
  function NotExcused(syntax: Syntax, present: set<string>): seq<string> {
    KeysOf(Filter(syntax.args, (a: Arg) =>
      a.unless.Some? && forall key :: key in a.unless.value ==> !Satisfied(syntax, present, key)))
  }

  /** A set is what the pass requires: the least set closed under requirements,
      and the arguments that are not excused. */
  ghost predicate IsRequired(syntax: Syntax, present: set<string>, closure: set<string>, required: set<string>) {
    && IsLeastClosed(ByKey(syntax.args), present, ToSet(BaseRequired(syntax)), closure)
    && required == closure + ToSet(NotExcused(syntax, present))
  }

  function Unsatisfied(syntax: Syntax, present: set<string>, required: seq<string>): (keys: seq<string>)
    ensures forall key :: key in keys <==> key in required && !Satisfied(syntax, present, key)
  {
    Filter(required, (key: string) => !Satisfied(syntax, present, key))
  }

  function OptionKeys(keys: seq<string>): (options: seq<string>)
    ensures forall key :: key in options <==> key in keys && !IsPositionalKey(key)
  {
    Filter(keys, (key: string) => !IsPositionalKey(key))
  }

  function PositionalKeys(keys: seq<string>): (positionals: seq<string>)
    ensures forall key :: key in positionals <==> key in keys && IsPositionalKey(key)
  {
    Filter(keys, (key: string) => IsPositionalKey(key))
  }

  /** The order in which keys become required: the base in table order, what is
      found from it and the supplied keys breadth first, and then the arguments
      that nothing excuses, in table order. */
  ghost predicate RequiredInOrder(syntax: Syntax, ordered: seq<string>, required: seq<string>) {
    exists chased, n :: FoundInOrder(ByKey(syntax.args), ordered, BaseRequired(syntax), chased, n)
                        && required == AddAll(chased, NotExcused(syntax, ToSet(ordered)))
  }

  /** What is reported as missing: options first, otherwise in order. */
  function Report(syntax: Syntax, present: set<string>, required: seq<string>): seq<string> {
    var missing := Unsatisfied(syntax, present, required);
    OptionKeys(missing) + PositionalKeys(missing)
  }

  ghost predicate FirstConflict(syntax: Syntax, present: set<string>, ordered: seq<string>, i: int) {
    && 0 <= i < |ordered| && ConflictsOf(syntax, present, ordered[i]) != []
    && forall k :: 0 <= k < i ==> ConflictsOf(syntax, present, ordered[k]) == []
  }

  ghost predicate ConflictFree(syntax: Syntax, present: set<string>) {
    forall key :: key in present ==> ConflictsOf(syntax, present, key) == []
  }

  method Order(tokens: seq<Token>) returns (ordered: seq<string>)
    ensures ordered == OrderedKeys(tokens)
  {
    var positional := 0;
    ordered := [];
    for i := 0 to |tokens|
      invariant positional == PositionalCount(tokens[..i])
      invariant ordered == OrderedKeys(tokens[..i])
    {
      assert tokens[..i + 1][..i] == tokens[..i];
      match tokens[i] {
        case Terminator =>
        case Positional(_) =>
          ordered := ordered + [PositionalKey(positional)];
          positional := positional + 1;
        case Flag(name, _, _, _) =>
          ordered := ordered + [name];
      }
    }
    assert tokens[..|tokens|] == tokens;
  }

  // ----- one step is enough

  ghost predicate NoDeclaredConflict(syntax: Syntax, present: set<string>) {
    forall a, other :: a in syntax.args && a.key in present && other in a.conflicts ==> other !in present
  }

  ghost predicate RequirementsMet(syntax: Syntax, present: set<string>) {
    && (forall a :: a in syntax.args && a.required ==> Satisfied(syntax, present, a.key))
    && (forall g :: g in syntax.groups && g.required ==> Satisfied(syntax, present, g.key))
    && (forall a, d :: a in syntax.args && a.key in present && d in a.needs ==> Satisfied(syntax, present, d))
    && (forall a :: a in syntax.args && a.unless.Some? ==>
          Satisfied(syntax, present, a.key) || exists u :: u in a.unless.value && Satisfied(syntax, present, u))
  }

  /** The rule a reader of the grammar would write: look only at what is
      supplied and at its direct declarations. */
  ghost predicate OneStep(syntax: Syntax, present: set<string>) {
    NoDeclaredConflict(syntax, present) && RequirementsMet(syntax, present)
  }

  lemma ConflictFreeMeaning(syntax: Syntax, present: set<string>)
    requires WellFormed(syntax)
    ensures ConflictFree(syntax, present) <==> NoDeclaredConflict(syntax, present)
  {
    var byKey := ByKey(syntax.args);
    forall a | a in syntax.args ensures a.key in byKey && byKey[a.key] == a {
    }
    if !ConflictFree(syntax, present) {
      var key :| key in present && ConflictsOf(syntax, present, key) != [];
      assert ConflictsOf(syntax, present, key)[0] in byKey[key].conflicts;
    }
  }

  /** What is left of a list of keys when only the supplied ones are kept: each
      entry in its order, and as often as it stands there. */
  ghost predicate SuppliedPart(part: seq<string>, whole: seq<string>, present: set<string>) {
    exists at :: Increasing(at) && TakenAt(part, whole, at)
                 && forall i :: i in at <==> 0 <= i < |whole| && whole[i] in present
  }

  lemma ConflictsExactly(syntax: Syntax, present: set<string>, a: Arg)
    requires WellFormed(syntax) && a in syntax.args
    ensures SuppliedPart(ConflictsOf(syntax, present, a.key), a.conflicts, present)
  {
    var at := FilterExactly(a.conflicts, (other: string) => other in present);
    assert ByKey(syntax.args)[a.key] == a;
  }

  /** The argument of a conflicting key, and which of its conflicts are named. */
  ghost predicate ConflictIsExact(syntax: Syntax, present: set<string>, key: string, others: seq<string>) {
    others != [] && exists a :: a in syntax.args && a.key == key && SuppliedPart(others, a.conflicts, present)
  }

  lemma ConflictIsDeclared(syntax: Syntax, present: set<string>, key: string)
    requires WellFormed(syntax) && ConflictsOf(syntax, present, key) != []
    ensures ConflictIsExact(syntax, present, key, ConflictsOf(syntax, present, key))
  {
    ConflictsExactly(syntax, present, ByKey(syntax.args)[key]);
  }

  lemma GroupListed(syntax: Syntax, key: string)
    ensures key in RequiredGroups(syntax) <==> exists g :: g in syntax.groups && g.required && g.key == key
  {
    var groups := Filter(syntax.groups, (g: Group) => g.required);
    if g :| g in syntax.groups && g.required && g.key == key {
      var i :| 0 <= i < |groups| && groups[i] == g;
      assert RequiredGroups(syntax)[i] == key;
    }
    if key in RequiredGroups(syntax) {
      var i :| 0 <= i < |groups| && RequiredGroups(syntax)[i] == key;
      assert groups[i] in groups;
    }
  }

  /** The base lists the required arguments and then the required groups, both in
      table order and each key once. */
  lemma BaseExactly(syntax: Syntax) returns (at: seq<nat>, groupsAt: seq<nat>, args: seq<string>, groups: seq<string>)
    ensures Increasing(at) && AreKeysAt(args, syntax.args, at)
    ensures forall i :: i in at <==> 0 <= i < |syntax.args| && syntax.args[i].required
    ensures Increasing(groupsAt) && |groups| == |groupsAt|
    ensures forall k :: 0 <= k < |groupsAt| ==>
              groupsAt[k] < |syntax.groups| && groups[k] == syntax.groups[groupsAt[k]].key
    ensures forall i :: i in groupsAt <==> 0 <= i < |syntax.groups| && syntax.groups[i].required
    ensures BaseRequired(syntax) == AddAll([], args + groups)
  {
    at := FilterExactly(syntax.args, (a: Arg) => a.required);
    groupsAt := FilterExactly(syntax.groups, (g: Group) => g.required);
    args, groups := RequiredArgs(syntax), RequiredGroups(syntax);
    AddAllTwice([], args, groups);
  }

  /** The arguments that nothing excuses, in table order. */
  lemma NotExcusedExactly(syntax: Syntax, present: set<string>) returns (at: seq<nat>)
    ensures Increasing(at) && AreKeysAt(NotExcused(syntax, present), syntax.args, at)
    ensures forall i :: i in at <==>
              && 0 <= i < |syntax.args| && syntax.args[i].unless.Some?
              && forall u :: u in syntax.args[i].unless.value ==> !Satisfied(syntax, present, u)
  {
    at := FilterExactly(syntax.args, (a: Arg) =>
      a.unless.Some? && forall u :: u in a.unless.value ==> !Satisfied(syntax, present, u));
  }

  lemma BaseMeaning(syntax: Syntax, key: string)
    ensures key in BaseRequired(syntax) <==>
            || (exists a :: a in syntax.args && a.required && a.key == key)
            || (exists g :: g in syntax.groups && g.required && g.key == key)
  {
    KeyListed(Filter(syntax.args, (a: Arg) => a.required), key);
    GroupListed(syntax, key);
  }

  lemma NotExcusedMeaning(syntax: Syntax, present: set<string>, key: string)
    ensures key in NotExcused(syntax, present) <==>
            exists a :: a in syntax.args && a.key == key && a.unless.Some? &&
                        forall u :: u in a.unless.value ==> !Satisfied(syntax, present, u)
  {
    KeyListed(Filter(syntax.args, (a: Arg) =>
      a.unless.Some? && forall u :: u in a.unless.value ==> !Satisfied(syntax, present, u)), key);
  }

  /** If all direct requirements are satisfied, so are all transitive ones: a
      satisfied argument is supplied, so its own requirements were looked at. */
  lemma DirectNeedsCoverTheClosure(syntax: Syntax, present: set<string>, base: set<string>, closure: set<string>)
    requires WellFormed(syntax)
    requires IsLeastClosed(ByKey(syntax.args), present, base, closure)
    requires forall key :: key in base ==> Satisfied(syntax, present, key)
    requires forall a, d :: a in syntax.args && a.key in present && d in a.needs ==> Satisfied(syntax, present, d)
    ensures forall key :: key in closure ==> Satisfied(syntax, present, key)
  {
    var byKey := ByKey(syntax.args);
    var satisfied := set key | key in closure && Satisfied(syntax, present, key);
    forall k, d | (k in present || k in satisfied) && d in NeedsOf(byKey, k) ensures d in satisfied {
      assert byKey[k] in syntax.args && k !in GroupsByKey(syntax.groups);
    }
    assert IsClosed(byKey, present, base, satisfied);
  }

  lemma BaseIsRequired(syntax: Syntax, present: set<string>, closure: set<string>, required: set<string>)
    requires IsRequired(syntax, present, closure, required)
    ensures forall a :: a in syntax.args && a.required ==> a.key in required
    ensures forall g :: g in syntax.groups && g.required ==> g.key in required
  {
    forall a | a in syntax.args && a.required ensures a.key in required {
      BaseMeaning(syntax, a.key);
    }
    forall g | g in syntax.groups && g.required ensures g.key in required {
      BaseMeaning(syntax, g.key);
    }
  }

  lemma NeedsAreRequired(syntax: Syntax, present: set<string>, closure: set<string>, required: set<string>, a: Arg, d: string)
    requires IsRequired(syntax, present, closure, required) && WellFormed(syntax)
    requires a in syntax.args && a.key in present && d in a.needs
    ensures d in required
  {
    assert d in NeedsOf(ByKey(syntax.args), a.key);
  }

  lemma SatisfiedRequirementsAreOneStep(syntax: Syntax, present: set<string>, closure: set<string>, required: set<string>)
    requires IsRequired(syntax, present, closure, required) && WellFormed(syntax)
    requires ConflictFree(syntax, present) && forall key :: key in required ==> Satisfied(syntax, present, key)
    ensures OneStep(syntax, present)
  {
    ConflictFreeMeaning(syntax, present);
    BaseIsRequired(syntax, present, closure, required);
    forall a, d | a in syntax.args && a.key in present && d in a.needs ensures d in required {
      NeedsAreRequired(syntax, present, closure, required, a, d);
    }
    forall a | a in syntax.args && a.unless.Some? &&
               (forall u :: u in a.unless.value ==> !Satisfied(syntax, present, u))
      ensures a.key in required
    {
      NotExcusedMeaning(syntax, present, a.key);
    }
  }

  /** The transitive pass and the one-step rule decide alike. */
  lemma OneStepIsEnough(syntax: Syntax, present: set<string>, closure: set<string>, required: set<string>)
    requires WellFormed(syntax)
    requires IsRequired(syntax, present, closure, required)
    ensures ConflictFree(syntax, present) && (forall key :: key in required ==> Satisfied(syntax, present, key))
            <==> OneStep(syntax, present)
  {
    if OneStep(syntax, present) {
      ConflictFreeMeaning(syntax, present);
      forall key { BaseMeaning(syntax, key); }
      forall key { NotExcusedMeaning(syntax, present, key); }
      DirectNeedsCoverTheClosure(syntax, present, ToSet(BaseRequired(syntax)), closure);
    }
    if ConflictFree(syntax, present) && forall key :: key in required ==> Satisfied(syntax, present, key) {
      SatisfiedRequirementsAreOneStep(syntax, present, closure, required);
    }
  }

  // ----- why keys must not be shared

  /** A grammar where one key is a required argument that needs another, and
      also a group with a member. */
  function Shared(key: string, member: string, needed: string): Syntax {
    Syntax([Arg(key, true, false, [needed], [], None), Arg(member, false, false, [], [], None),
            Arg(needed, false, false, [], [], None)],
           [Group(key, [member], false)])
  }

  lemma SharedSatisfied(key: string, member: string, needed: string, any: string)
    ensures Satisfied(Shared(key, member, needed), {member}, any) <==> any == key || any == member
  {
    var groups := Shared(key, member, needed).groups;
    assert groups[0] in groups && GroupsByKey(groups)[key] == groups[0];
  }

  lemma SharedOneStep(key: string, member: string, needed: string)
    requires key != member && key != needed && member != needed
    ensures OneStep(Shared(key, member, needed), {member})
  {
    var syntax := Shared(key, member, needed);
    SharedSatisfied(key, member, needed, key);
    forall a | a in syntax.args && a.key in {member} ensures a.needs == [] && a.conflicts == [] {
    }
  }

  lemma SharedLookup(key: string, member: string, needed: string)
    requires key != member && key != needed && member != needed
    ensures NeedsOf(ByKey(Shared(key, member, needed).args), key) == [needed]
  {
    var args := Shared(key, member, needed).args;
    assert args[0] in args;
    var i :| 0 <= i < |args| && args[i] == ByKey(args)[key];
  }

  /** If a key names both an argument and a group the two rules can part: with
      only the group's member given, the key is satisfied as a group, yet its
      needs as an argument are chased. */
  lemma SharedKeysBreakOneStep(key: string, member: string, needed: string, closure: set<string>, required: set<string>)
    requires key != member && key != needed && member != needed
    requires IsRequired(Shared(key, member, needed), {member}, closure, required)
    ensures OneStep(Shared(key, member, needed), {member})
    ensures needed in required && !Satisfied(Shared(key, member, needed), {member}, needed)
  {
    var syntax := Shared(key, member, needed);
    SharedOneStep(key, member, needed);
    SharedSatisfied(key, member, needed, needed);
    SharedLookup(key, member, needed);
    assert syntax.args[0] in syntax.args;
    BaseMeaning(syntax, key);
    assert needed in NeedsOf(ByKey(syntax.args), key);
  }

  // ----- the pass

  /** A usage line was built for these keys, treating the shown set as required. */
  ghost predicate UsageFits(name: string, syntax: Syntax, keys: seq<string>, requiredKeys: seq<string>,
                            shown: set<string>, usage: UsageLine) {
    && TreatedAsRequired(syntax, keys, requiredKeys, true, shown)
    && usage == if name in VERBATIM then Verbatim else LineFor(syntax, keys, shown)
  }

  /** The first conflicting key in token order stops the pass. */
  method FindConflict(name: string, syntax: Syntax, ordered: seq<string>)
    returns (outcome: Option<Outcome>, ghost shown: set<string>)
    ensures outcome.None? <==> ConflictFree(syntax, ToSet(ordered))
    ensures outcome.Some? ==>
              && outcome.value.Conflicting?
              && (exists i :: FirstConflict(syntax, ToSet(ordered), ordered, i) && outcome.value.key == ordered[i])
              && outcome.value.others == ConflictsOf(syntax, ToSet(ordered), outcome.value.key)
              && UsageFits(name, syntax, Filter(ordered, (other: string) => other !in outcome.value.others), [],
                           shown, outcome.value.usage)
  {
    shown := {};
    var present := ToSet(ordered);
    for i := 0 to |ordered|
      invariant forall k :: 0 <= k < i ==> ConflictsOf(syntax, present, ordered[k]) == []
    {
      var conflicts := ConflictsOf(syntax, present, ordered[i]);
      if conflicts != [] {
        var usage, treated := SelectedUsage(name, syntax, Filter(ordered, (other: string) => other !in conflicts), [], true);
        shown := treated;
        assert FirstConflict(syntax, present, ordered, i);
        return Some(Conflicting(ordered[i], conflicts, usage)), shown;
      }
    }
    return None, shown;
  }

  /** Everything the pass requires, in the order it was worked out. */
  method CollectRequired(syntax: Syntax, ordered: seq<string>)
    returns (required: seq<string>, ghost closure: set<string>)
    ensures NoRepeats(required) && BaseRequired(syntax) <= required
    ensures IsRequired(syntax, ToSet(ordered), closure, ToSet(required))
    ensures RequiredInOrder(syntax, ordered, required)
  {
    required := Chase(ByKey(syntax.args), ordered, BaseRequired(syntax));
    closure := ToSet(required);
    required := AddAll(required, NotExcused(syntax, ToSet(ordered)));
  }

  lemma EmptyReport(syntax: Syntax, present: set<string>, required: seq<string>)
    ensures Report(syntax, present, required) == [] <==>
            forall key :: key in required ==> Satisfied(syntax, present, key)
  {
    var missing := Unsatisfied(syntax, present, required);
    var report := Report(syntax, present, required);
    assert forall key :: key in report <==> key in missing;
    if report != [] { assert report[0] in missing; }
  }

  /** The whole pass. The ghost results name the sets it worked with. */
  method ValidateConstraints(name: string, syntax: Syntax, tokens: seq<Token>)
    returns (outcome: Outcome, ghost closure: set<string>, ghost required: seq<string>, ghost shown: set<string>)
    ensures WellFormed(syntax) ==> (outcome.Accepted? <==> OneStep(syntax, Present(tokens)))
    ensures outcome.Conflicting? <==> !ConflictFree(syntax, Present(tokens))
    ensures outcome.Conflicting? ==>
              && (exists i :: FirstConflict(syntax, Present(tokens), OrderedKeys(tokens), i) &&
                              outcome.key == OrderedKeys(tokens)[i])
              && outcome.others == ConflictsOf(syntax, Present(tokens), outcome.key)
              && UsageFits(name, syntax, Filter(OrderedKeys(tokens), (other: string) => other !in outcome.others), [],
                           shown, outcome.usage)
    ensures WellFormed(syntax) && outcome.Conflicting? ==>
              ConflictIsExact(syntax, Present(tokens), outcome.key, outcome.others)
    ensures !outcome.Conflicting? ==>
              && NoRepeats(required) && BaseRequired(syntax) <= required
              && IsRequired(syntax, Present(tokens), closure, ToSet(required))
              && RequiredInOrder(syntax, OrderedKeys(tokens), required)
              && (outcome.Accepted? <==> forall key :: key in required ==> Satisfied(syntax, Present(tokens), key))
    ensures outcome.Missing? ==>
              && outcome.keys == Report(syntax, Present(tokens), required)
              && UsageFits(name, syntax, OrderedKeys(tokens) + required, required, shown, outcome.usage)
              && (WellFormed(syntax) ==> (shown == ToSet(required) <==> UnlessNeedsNothingNew(syntax, Present(tokens), ToSet(required))))
  {
    closure, required, shown := {}, [], {};
    var ordered := Order(tokens);
    var conflict, treated := FindConflict(name, syntax, ordered);
    shown := treated;
    if conflict.Some? {
      if WellFormed(syntax) {
        ConflictFreeMeaning(syntax, ToSet(ordered));
        ConflictIsDeclared(syntax, ToSet(ordered), conflict.value.key);
      }
      return conflict.value, closure, required, shown;
    }
    var needed, closed := CollectRequired(syntax, ordered);
    closure, required := closed, needed;
    if WellFormed(syntax) { OneStepIsEnough(syntax, ToSet(ordered), closure, ToSet(required)); }
    EmptyReport(syntax, ToSet(ordered), needed);
    var missing := Report(syntax, ToSet(ordered), needed);
    if missing == [] {
      outcome := Accepted;
    } else {
      var usage, toShow := SelectedUsage(name, syntax, ordered + needed, needed, true);
      shown := toShow;
      if WellFormed(syntax) { UsageAddsNothing(syntax, ordered, closure, required, shown); }
      outcome := Missing(missing, usage);
    }
  }

  // ----- consequences

  /** Every argument also declares the conflicts declared against it. */
  function Symmetric(syntax: Syntax): Syntax {
    syntax.(args := seq(|syntax.args|, i requires 0 <= i < |syntax.args| =>
      syntax.args[i].(conflicts := syntax.args[i].conflicts + Opponents(syntax.args, syntax.args[i].key))))
  }

  /** The arguments that declare a conflict with a key. */
  function Opponents(args: seq<Arg>, key: string): seq<string> {
    KeysOf(Filter(args, (a: Arg) => key in a.conflicts))
  }

  /** Each argument of the symmetric grammar differs from its original only in
      the added conflicts, and the other way round. */
  lemma Counterpart(syntax: Syntax, i: nat)
    requires i < |syntax.args|
    ensures var a, b := syntax.args[i], Symmetric(syntax).args[i];
            && a in syntax.args && b in Symmetric(syntax).args
            && b == a.(conflicts := a.conflicts + Opponents(syntax.args, a.key))
  {
  }

  lemma RequirementsIgnoreConflicts(syntax: Syntax, other: Syntax, present: set<string>)
    requires |other.args| == |syntax.args| && other.groups == syntax.groups
    requires forall i :: 0 <= i < |syntax.args| ==>
               other.args[i].(conflicts := syntax.args[i].conflicts) == syntax.args[i]
    requires RequirementsMet(syntax, present)
    ensures RequirementsMet(other, present)
  {
    forall b | b in other.args
      ensures b.required ==> Satisfied(syntax, present, b.key)
      ensures b.key in present ==> forall d :: d in b.needs ==> Satisfied(syntax, present, d)
      ensures b.unless.Some? ==>
          Satisfied(syntax, present, b.key) || exists u :: u in b.unless.value && Satisfied(syntax, present, u)
    {
      var i :| 0 <= i < |other.args| && other.args[i] == b;
      assert syntax.args[i] in syntax.args;
    }
  }

  lemma OneSidedConflictsFree(syntax: Syntax, present: set<string>)
    ensures NoDeclaredConflict(Symmetric(syntax), present) <==> NoDeclaredConflict(syntax, present)
  {
    var both := Symmetric(syntax);
    if NoDeclaredConflict(both, present) {
      forall a, other | a in syntax.args && a.key in present && other in a.conflicts ensures other !in present {
        var i :| 0 <= i < |syntax.args| && syntax.args[i] == a;
        Counterpart(syntax, i);
        assert other in both.args[i].conflicts;
      }
    }
    if NoDeclaredConflict(syntax, present) {
      forall b, other | b in both.args && b.key in present && other in b.conflicts ensures other !in present {
        var i :| 0 <= i < |both.args| && both.args[i] == b;
        Counterpart(syntax, i);
        KeyListed(Filter(syntax.args, (o: Arg) => b.key in o.conflicts), other);
      }
    }
  }

  lemma SymmetricIsWellFormed(syntax: Syntax)
    requires WellFormed(syntax)
    ensures WellFormed(Symmetric(syntax))
  {
    var both := Symmetric(syntax);
    forall i | 0 <= i < |both.args| ensures both.args[i].key == syntax.args[i].key && syntax.args[i] in syntax.args {
      Counterpart(syntax, i);
    }
  }

  /** Declaring a conflict on one side only makes no difference, neither to the
      one-step rule nor to the pass, which decides by it on both grammars. */
  lemma OneSidedConflictsSuffice(syntax: Syntax, present: set<string>)
    ensures OneStep(Symmetric(syntax), present) <==> OneStep(syntax, present)
    ensures WellFormed(syntax) ==> WellFormed(Symmetric(syntax))
  {
    if WellFormed(syntax) { SymmetricIsWellFormed(syntax); }
    OneSidedConflictsFree(syntax, present);
    if RequirementsMet(syntax, present) {
      RequirementsIgnoreConflicts(syntax, Symmetric(syntax), present);
    }
    if RequirementsMet(Symmetric(syntax), present) {
      RequirementsIgnoreConflicts(Symmetric(syntax), syntax, present);
    }
  }

  /** One key stands somewhere before another. */
  ghost predicate InOrder(s: seq<string>, x: string, y: string) {
    exists a, b :: 0 <= a < b < |s| && s[a] == x && s[b] == y
  }

  lemma {:induction false} FilterKeepsOrder(s: seq<string>, keep: string -> bool, i: nat, j: nat)
    requires i < j < |Filter(s, keep)|
    ensures InOrder(s, Filter(s, keep)[i], Filter(s, keep)[j])
  {
    var init, last := s[..|s| - 1], s[|s| - 1];
    var kept := Filter(init, keep);
    if j < |kept| {
      FilterKeepsOrder(init, keep, i, j);
      var a, b :| 0 <= a < b < |init| && init[a] == kept[i] && init[b] == kept[j];
      assert s[a] == init[a] && s[b] == init[b];
    } else {
      assert kept[i] in kept;
      var a :| 0 <= a < |init| && init[a] == kept[i];
      assert s[a] == init[a];
    }
  }

  /** The report names every required but unsatisfied key exactly once and no
      other, options before positionals. */
  lemma ReportIsExact(syntax: Syntax, present: set<string>, required: seq<string>)
    requires NoRepeats(required)
    ensures var report := Report(syntax, present, required);
            && NoRepeats(report)
            && (forall key :: key in report <==> key in required && !Satisfied(syntax, present, key))
            && (forall i, j :: 0 <= i < j < |report| && IsPositionalKey(report[i]) ==> IsPositionalKey(report[j]))
  {
    var missing := Unsatisfied(syntax, present, required);
    var options, positionals := OptionKeys(missing), PositionalKeys(missing);
    assert NoRepeats(missing) && NoRepeats(options) && NoRepeats(positionals);
    assert forall i :: 0 <= i < |options| ==> options[i] in options;
    assert forall i :: 0 <= i < |positionals| ==> positionals[i] in positionals;
  }

  lemma PartsKeepOrder(keys: seq<string>, i: nat, j: nat)
    requires i < j
    ensures j < |OptionKeys(keys)| ==> InOrder(keys, OptionKeys(keys)[i], OptionKeys(keys)[j])
    ensures j < |PositionalKeys(keys)| ==> InOrder(keys, PositionalKeys(keys)[i], PositionalKeys(keys)[j])
  {
    if j < |OptionKeys(keys)| { FilterKeepsOrder(keys, (key: string) => !IsPositionalKey(key), i, j); }
    if j < |PositionalKeys(keys)| { FilterKeepsOrder(keys, (key: string) => IsPositionalKey(key), i, j); }
  }

  lemma UnsatisfiedKeepsOrder(syntax: Syntax, present: set<string>, required: seq<string>, x: string, y: string)
    requires InOrder(Unsatisfied(syntax, present, required), x, y)
    ensures InOrder(required, x, y)
  {
    var missing := Unsatisfied(syntax, present, required);
    var a, b :| 0 <= a < b < |missing| && missing[a] == x && missing[b] == y;
    FilterKeepsOrder(required, (key: string) => !Satisfied(syntax, present, key), a, b);
  }

  lemma SameSide(front: seq<string>, back: seq<string>, i: nat, j: nat)
    requires forall x :: x in front ==> !IsPositionalKey(x)
    requires forall x :: x in back ==> IsPositionalKey(x)
    requires i < j < |front + back| && IsPositionalKey((front + back)[i]) == IsPositionalKey((front + back)[j])
    ensures j < |front| || |front| <= i
  {
    assert i < |front| ==> (front + back)[i] in front;
    assert |front| <= j ==> (front + back)[j] in back;
  }

  /** Within options, and within positionals, the report keeps the order in
      which the keys became required. */
  lemma ReportKeepsOrder(syntax: Syntax, present: set<string>, required: seq<string>, i: nat, j: nat)
    requires var report := Report(syntax, present, required);
             i < j < |report| && IsPositionalKey(report[i]) == IsPositionalKey(report[j])
    ensures InOrder(required, Report(syntax, present, required)[i], Report(syntax, present, required)[j])
  {
    var missing := Unsatisfied(syntax, present, required);
    var report, split := Report(syntax, present, required), |OptionKeys(missing)|;
    SameSide(OptionKeys(missing), PositionalKeys(missing), i, j);
    if j < split {
      PartsKeepOrder(missing, i, j);
    } else {
      PartsKeepOrder(missing, i - split, j - split);
    }
    UnsatisfiedKeepsOrder(syntax, present, required, report[i], report[j]);
  }

  /** The arguments added by "unless" need nothing beyond what is required. */
  ghost predicate UnlessNeedsNothingNew(syntax: Syntax, present: set<string>, required: set<string>) {
    forall u, d :: u in ToSet(NotExcused(syntax, present)) && d in NeedsOf(ByKey(syntax.args), u) ==> d in required
  }

  lemma UsageBase(syntax: Syntax, present: set<string>, closure: set<string>, required: set<string>)
    requires IsRequired(syntax, present, closure, required)
    ensures ToSet(RequiredArgs(syntax)) + required == required
  {
    forall key | key in RequiredArgs(syntax) ensures key in required {
      assert key in ToSet(BaseRequired(syntax));
    }
  }

  lemma UsageChase(syntax: Syntax, ordered: seq<string>, required: seq<string>, shown: set<string>)
    requires DistinctArgs(syntax.args)
    requires ToSet(RequiredArgs(syntax)) + ToSet(required) == ToSet(required)
    requires TreatedAsRequired(syntax, ordered + required, required, true, shown)
    ensures IsLeastClosed(ByKey(syntax.args), ToSet(ordered) + ToSet(required), ToSet(required), shown)
  {
    LookupsAgree(syntax.args);
    assert ToSet(ordered + required) == ToSet(ordered) + ToSet(required);
  }

  /** On the missing-argument path the usage line chases requirements a second
      time. It finds nothing new exactly when the arguments added by "unless"
      need nothing beyond what is already required. */
  lemma UsageAddsNothing(syntax: Syntax, ordered: seq<string>, closure: set<string>, required: seq<string>, shown: set<string>)
    requires DistinctArgs(syntax.args)
    requires IsRequired(syntax, ToSet(ordered), closure, ToSet(required))
    requires TreatedAsRequired(syntax, ordered + required, required, true, shown)
    ensures shown == ToSet(required) <==> UnlessNeedsNothingNew(syntax, ToSet(ordered), ToSet(required))
  {
    UsageBase(syntax, ToSet(ordered), closure, ToSet(required));
    UsageChase(syntax, ordered, required, shown);
    SecondChase(ByKey(syntax.args), ToSet(ordered), ToSet(BaseRequired(syntax)), closure,
                ToSet(NotExcused(syntax, ToSet(ordered))), ToSet(required), shown);
  }
}
