/** The registry of environment variables and its one family of names. */
module EnvironmentNames {
  import opened Basics

  datatype Scope = ChildProcess | RuntimeCredential

  datatype Entry = Entry(name: string, scope: Scope, secret: bool, family: bool)

  const PREFIX: string := "AIT_EXTERNAL_"
  const SUFFIX: string := "_REPO_ROOT"

  const REGISTRY: seq<Entry> := [
    Entry("AIT_EXTERNAL_<NAME>_REPO_ROOT", ChildProcess, false, true),
    Entry("AIT_RUNNER_ATTEMPT_ROOT", ChildProcess, false, false),
    Entry("AIT_RUNNER_WORKSPACE", ChildProcess, false, false),
    Entry("AIT_SERVER_TOKEN", RuntimeCredential, true, false)]

  predicate IsNameByte(c: char) {
    'A' <= c <= 'Z' || '0' <= c <= '9' || c == '_'
  }

  /** The name of an external repository, as it stands in a variable name. */
  predicate IsExternalName(name: string) {
    && name != ""
    && (forall i :: 0 <= i < |name| ==> IsNameByte(name[i]))
    && (exists i :: 0 <= i < |name| && name[i] != '_')
  }

  /** An external name consists of these letters, and of not only underscores. */
  lemma ExternalNamesExactly(name: string)
    ensures IsExternalName(name) <==>
            && (forall c :: c in name ==> c == '_' || c in "0123456789" || c in "ABCDEFGHIJKLMNOPQRSTUVWXYZ")
            && exists c :: c in name && c != '_'
  {
    forall c: char ensures IsNameByte(c) <==> c == '_' || c in "0123456789" || c in "ABCDEFGHIJKLMNOPQRSTUVWXYZ" {
      DigitsExactly(c);
      LettersExactly(c);
    }
    if c :| c in name && c != '_' {
      var i :| 0 <= i < |name| && name[i] == c;
    }
    if IsExternalName(name) {
      var i :| 0 <= i < |name| && name[i] != '_';
      assert name[i] in name;
    }
    forall i | 0 <= i < |name| ensures name[i] in name {
    }
  }

  lemma DigitsExactly(c: char)
    ensures '0' <= c <= '9' <==> c in "0123456789"
  {
  }

  lemma LettersExactly(c: char)
    ensures 'A' <= c <= 'Z' <==> c in "ABCDEFGHIJKLMNOPQRSTUVWXYZ"
  {
  }

  function StripPrefix(s: string, prefix: string): Option<string> {
    if StartsWith(s, prefix) then Some(s[|prefix|..]) else None
  }

  function StripSuffix(s: string, suffix: string): Option<string> {
    if EndsWith(s, suffix) then Some(s[..|s| - |suffix|]) else None
  }

  /** The external name in a candidate, once prefix and suffix are stripped. */
  function ExternalName(candidate: string): Option<string> {
    var rest := StripPrefix(candidate, PREFIX);
    if rest.None? then None else StripSuffix(rest.value, SUFFIX)
  }

  predicate Matches(entry: Entry, candidate: string) {
    if !entry.family then candidate == entry.name
    else ExternalName(candidate).Some? && IsExternalName(ExternalName(candidate).value)
  }

  lemma NameIsRecovered(candidate: string, name: string)
    ensures ExternalName(candidate) == Some(name) <==> candidate == PREFIX + name + SUFFIX
  {
    if candidate == PREFIX + name + SUFFIX {
      assert candidate[|PREFIX|..] == name + SUFFIX;
      assert (name + SUFFIX)[|name|..] == SUFFIX;
    }
    if ExternalName(candidate) == Some(name) {
      var rest := candidate[|PREFIX|..];
      assert candidate == PREFIX + rest && rest == name + SUFFIX;
    }
  }

  /** A variable name is built around an external name. */
  predicate IsBuiltAround(candidate: string, name: string) {
    IsExternalName(name) && candidate == PREFIX + name + SUFFIX
  }

  /** The family holds exactly the names that are built around an external name,
      and around only one. */
  lemma FamilyIsBuiltNames(candidate: string)
    ensures Matches(REGISTRY[0], candidate) <==> exists name :: IsBuiltAround(candidate, name)
    ensures forall a, b :: IsBuiltAround(candidate, a) && IsBuiltAround(candidate, b) ==> a == b
  {
    forall name ensures ExternalName(candidate) == Some(name) <==> candidate == PREFIX + name + SUFFIX {
      NameIsRecovered(candidate, name);
    }
    if Matches(REGISTRY[0], candidate) {
      assert IsBuiltAround(candidate, ExternalName(candidate).value);
    }
    forall a, b | IsBuiltAround(candidate, a) && IsBuiltAround(candidate, b) ensures a == b {
      NameIsRecovered(candidate, a);
      NameIsRecovered(candidate, b);
    }
  }

  /** No variable name belongs to two entries of the registry. */
  lemma AtMostOneEntry(candidate: string, i: nat, j: nat)
    requires i < j < |REGISTRY| && Matches(REGISTRY[i], candidate)
    ensures !Matches(REGISTRY[j], candidate)
  {
    assert PREFIX[4] == 'E';
    assert REGISTRY[1].name[4] == 'R' && REGISTRY[2].name[4] == 'R' && REGISTRY[3].name[4] == 'S';
    assert |REGISTRY[1].name| == 23 && |REGISTRY[2].name| == 20;
    assert i == 0 ==> candidate[..|PREFIX|] == PREFIX && candidate[4] == 'E';
  }
}
