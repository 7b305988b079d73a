/** Validating the addon contract and choosing the row for a platform. */
module AddonContract {
  import opened Basics

  datatype Platform = Platform(os: string, cpu: string, libc: Option<string>)

  datatype Payload = Payload(target: string, platform: Platform, package: string, component: string,
                             bindingRepository: string, bindingSnapshot: string, license: string,
                             version: string, addon: string)

  datatype Contract = Contract(schema: string, topLevelPackage: string, familyVersion: string, payloads: seq<Payload>)

  datatype LoadError = IdentityInvalid | InvalidAuthority(index: nat) | DuplicateRow(index: nat)

  const GLIBC: Option<string> := Some("glibc")

  /** The supported targets and their platforms. */
  const TARGETS: map<string, Platform> := map[
    "aarch64-apple-darwin" := Platform("darwin", "arm64", None),
    "x86_64-apple-darwin" := Platform("darwin", "x64", None),
    "aarch64-unknown-linux-gnu" := Platform("linux", "arm64", GLIBC),
    "x86_64-unknown-linux-gnu" := Platform("linux", "x64", GLIBC),
    "aarch64-pc-windows-msvc" := Platform("win32", "arm64", None),
    "x86_64-pc-windows-msvc" := Platform("win32", "x64", None)]

  predicate IdentityValid(contract: Contract) {
    && contract.schema == "ait.node.napi-platform-packages/v2"
    && contract.topLevelPackage == "@wa120/ait-native"
    && contract.familyVersion == "1.2.1"
    && |contract.payloads| == 6
  }

  function PackageOf(platform: Platform): string {
    "@wa120/ait-native-" + platform.os + "-" + platform.cpu
  }

  /** A row agrees with the table of targets, and names the fixed authority. */
  predicate RowValid(familyVersion: string, row: Payload) {
    && row.target in TARGETS
    && row.platform == TARGETS[row.target]
    && row.package == PackageOf(row.platform)
    && row.component == "ait-node"
    && row.bindingRepository == "ait-core"
    && row.bindingSnapshot == "SNP-F6544D8EFE10"
    && row.license == "Apache-2.0"
    && row.version == familyVersion
    && row.addon == "native/ait_napi.node"
  }

  function Target(row: Payload): string { row.target }

  function Package(row: Payload): string { row.package }

  /** The first n rows are valid and name no target and no package twice. */
  ghost predicate GoodRows(contract: Contract, n: nat)
    requires n <= |contract.payloads|
  {
    && (forall i :: 0 <= i < n ==> RowValid(contract.familyVersion, contract.payloads[i]))
    && (forall i, j :: 0 <= i < j < n ==>
          Target(contract.payloads[i]) != Target(contract.payloads[j]) &&
          Package(contract.payloads[i]) != Package(contract.payloads[j]))
  }

  ghost predicate Acceptable(contract: Contract) {
    IdentityValid(contract) && GoodRows(contract, 6)
  }

  function PackagesBefore(contract: Contract, n: nat): set<string>
    requires n <= |contract.payloads|
  {
    set i | 0 <= i < n :: Package(contract.payloads[i])
  }

  function TargetsBefore(contract: Contract, n: nat): set<string>
    requires n <= |contract.payloads|
  {
    set i | 0 <= i < n :: Target(contract.payloads[i])
  }

  lemma OneMoreRow(contract: Contract, n: nat)
    requires n < |contract.payloads| && GoodRows(contract, n)
    requires var row := contract.payloads[n];
             && RowValid(contract.familyVersion, row)
             && Package(row) !in PackagesBefore(contract, n) && Target(row) !in TargetsBefore(contract, n)
    ensures GoodRows(contract, n + 1)
    ensures PackagesBefore(contract, n + 1) == PackagesBefore(contract, n) + {Package(contract.payloads[n])}
    ensures TargetsBefore(contract, n + 1) == TargetsBefore(contract, n) + {Target(contract.payloads[n])}
  {
  }

  lemma RowRepeats(contract: Contract, n: nat)
    requires n < |contract.payloads|
    requires Package(contract.payloads[n]) in PackagesBefore(contract, n) || Target(contract.payloads[n]) in TargetsBefore(contract, n)
    ensures forall m :: n < m <= |contract.payloads| ==> !GoodRows(contract, m)
  {
    var i :| 0 <= i < n && (Package(contract.payloads[i]) == Package(contract.payloads[n])
                            || Target(contract.payloads[i]) == Target(contract.payloads[n]));
  }

  /** The rows are read in order; the first bad one stops the check. */
  method Validate(contract: Contract) returns (error: Option<LoadError>)
    ensures error.None? <==> Acceptable(contract)
    ensures error == Some(IdentityInvalid) <==> !IdentityValid(contract)
    ensures forall i: nat :: error == Some(InvalidAuthority(i)) ==>
              i < 6 && GoodRows(contract, i) && !RowValid(contract.familyVersion, contract.payloads[i])
    ensures forall i: nat :: error == Some(DuplicateRow(i)) ==>
              i < 6 && GoodRows(contract, i) && RowValid(contract.familyVersion, contract.payloads[i])
              && !GoodRows(contract, i + 1)
  {
    if !IdentityValid(contract) {
      return Some(IdentityInvalid);
    }
    var packages: set<string>, targets: set<string> := {}, {};
    for index := 0 to 6
      invariant GoodRows(contract, index)
      invariant packages == PackagesBefore(contract, index) && targets == TargetsBefore(contract, index)
    {
      var row := contract.payloads[index];
      if !RowValid(contract.familyVersion, row) {
        return Some(InvalidAuthority(index));
      }
      if Package(row) in packages || Target(row) in targets {
        RowRepeats(contract, index);
        return Some(DuplicateRow(index));
      }
      OneMoreRow(contract, index);
      packages, targets := packages + {Package(row)}, targets + {Target(row)};
    }
    error := None;
  }

  /** The module state: the contract is validated once and then kept. */
  class Loader {
    var validated: Option<Contract>

    constructor ()
      ensures validated == None && Valid()
    {
      validated := None;
    }

    ghost predicate Valid()
      reads this
    {
      validated.Some? ==> Acceptable(validated.value)
    }

    method Load(file: Contract) returns (loaded: Result<Contract, LoadError>)
      requires Valid()
      modifies this
      ensures Valid()
      ensures old(validated).Some? ==> loaded == Ok(old(validated).value) && validated == old(validated)
      ensures old(validated).None? && Acceptable(file) ==> loaded == Ok(file) && validated == Some(file)
      ensures old(validated).None? && !Acceptable(file) ==> loaded.Err? && validated == None
      ensures loaded.Ok? ==> Acceptable(loaded.value)
    {
      if validated.Some? {
        return Ok(validated.value);
      }
      var error := Validate(file);
      if error.Some? {
        return Err(error.value);
      }
      validated := Some(file);
      return Ok(file);
    }
  }

  /** The row of a platform, if exactly one row is for it. */
  function SelectPlatformPayload(rows: seq<Payload>, platform: Platform): Option<Payload> {
    var matches := RowsFor(rows, platform);
    if |matches| != 1 then None else Some(matches[0])
  }

  // ----- pigeonhole

  lemma {:induction false} DistinctCount(s: seq<string>)
    requires NoRepeats(s)
    ensures |ToSet(s)| == |s|
  {
    if s != [] {
      var init, last := s[..|s| - 1], s[|s| - 1];
      DistinctCount(init);
      assert ToSet(s) == ToSet(init) + {last};
    }
  }

  lemma SubsetOfSameSize(a: set<string>, b: set<string>)
    requires a <= b && |a| == |b|
    ensures a == b
  {
    assert |b - a| == |b| - |a|;
  }

  /** As many distinct known targets as there are: every one of them occurs. */
  lemma EveryTargetOccurs(rows: seq<Payload>, table: map<string, Platform>)
    requires |rows| == |table| && forall i :: 0 <= i < |rows| ==> rows[i].target in table
    requires forall i, j :: 0 <= i < j < |rows| ==> Target(rows[i]) != Target(rows[j])
    ensures forall target :: target in table ==> exists i :: 0 <= i < |rows| && rows[i].target == target
  {
    var targets := seq(|rows|, i requires 0 <= i < |rows| => Target(rows[i]));
    DistinctCount(targets);
    assert |table.Keys| == |table|;
    SubsetOfSameSize(ToSet(targets), table.Keys);
    forall target | target in table ensures exists i :: 0 <= i < |rows| && rows[i].target == target {
      assert target in ToSet(targets);
      var i :| 0 <= i < |targets| && targets[i] == target;
      assert rows[i].target == target;
    }
  }

  ghost predicate InjectiveTable(table: map<string, Platform>) {
    forall s, t :: s in table && t in table && table[s] == table[t] ==> s == t
  }

  lemma TwoDiffer(s: seq<Payload>)
    requires NoRepeats(s) && |s| >= 2
    ensures exists x, y :: x in s && y in s && x != y
  {
    assert s[0] in s && s[1] in s && s[0] != s[1];
  }

  lemma AllTheSameOnce(s: seq<Payload>)
    requires NoRepeats(s) && forall x, y :: x in s && y in s ==> x == y
    ensures |s| <= 1
  {
    if |s| >= 2 {
      TwoDiffer(s);
    }
  }

  /** The rows for one platform. */
  function RowsFor(rows: seq<Payload>, platform: Platform): seq<Payload> {
    Filter(rows, (row: Payload) => row.platform == platform)
  }

  lemma OneRowAtMost(rows: seq<Payload>, table: map<string, Platform>, platform: Platform)
    requires InjectiveTable(table)
    requires forall i :: 0 <= i < |rows| ==> rows[i].target in table && rows[i].platform == table[rows[i].target]
    requires forall i, j :: 0 <= i < j < |rows| ==> Target(rows[i]) != Target(rows[j])
    ensures |RowsFor(rows, platform)| <= 1
  {
    var matches := RowsFor(rows, platform);
    assert NoRepeats(rows);
    forall x, y | x in matches && y in matches ensures x == y {
      var i :| 0 <= i < |rows| && rows[i] == x;
      var j :| 0 <= j < |rows| && rows[j] == y;
    }
    AllTheSameOnce(matches);
  }

  lemma OneRowAtLeast(rows: seq<Payload>, table: map<string, Platform>, platform: Platform)
    requires |rows| == |table| && platform in table.Values
    requires forall i :: 0 <= i < |rows| ==> rows[i].target in table && rows[i].platform == table[rows[i].target]
    requires forall i, j :: 0 <= i < j < |rows| ==> Target(rows[i]) != Target(rows[j])
    ensures RowsFor(rows, platform) != []
  {
    EveryTargetOccurs(rows, table);
    var target :| target in table && table[target] == platform;
    var i :| 0 <= i < |rows| && rows[i].target == target;
    assert rows[i] in RowsFor(rows, platform);
  }

  /** For rows that list every target of an injective table once, selection
      finds the row of every platform of the table and no other. */
  lemma SelectionByPigeonhole(rows: seq<Payload>, table: map<string, Platform>, platform: Platform)
    requires InjectiveTable(table) && |rows| == |table|
    requires forall i :: 0 <= i < |rows| ==> rows[i].target in table && rows[i].platform == table[rows[i].target]
    requires forall i, j :: 0 <= i < j < |rows| ==> Target(rows[i]) != Target(rows[j])
    ensures var selected := SelectPlatformPayload(rows, platform);
            && (selected.Some? <==> platform in table.Values)
            && (selected.Some? ==> selected.value in rows && selected.value.platform == platform)
  {
    OneRowAtMost(rows, table, platform);
    var matches := RowsFor(rows, platform);
    if platform in table.Values {
      OneRowAtLeast(rows, table, platform);
    }
    assert matches != [] ==> matches[0] in matches;
  }

  lemma SixTargets()
    ensures |TARGETS| == 6
  {
    var names := ["aarch64-apple-darwin", "x86_64-apple-darwin", "aarch64-unknown-linux-gnu",
                  "x86_64-unknown-linux-gnu", "aarch64-pc-windows-msvc", "x86_64-pc-windows-msvc"];
    assert |names[0]| == 20 && |names[1]| == 19 && |names[2]| == 25 && |names[3]| == 24 && |names[4]| == 23 && |names[5]| == 22;
    DistinctCount(names);
    assert TARGETS.Keys == ToSet(names) by {
      forall i | 0 <= i < 6 ensures names[i] in TARGETS.Keys {
      }
    }
    assert |TARGETS.Keys| == |TARGETS|;
  }

  lemma TargetsAreInjective()
    ensures InjectiveTable(TARGETS)
  {
    assert "darwin"[0] == 'd' && "linux"[0] == 'l' && "win32"[0] == 'w';
    assert |"arm64"| == 5 && |"x64"| == 3;
  }

  /** For every contract that loads, each supported combination of os, cpu and
      libc has exactly one row, and no other combination has any. */
  lemma SupportedPlatformsHaveOneRow(contract: Contract, platform: Platform)
    requires Acceptable(contract)
    ensures var selected := SelectPlatformPayload(contract.payloads, platform);
            && (selected.Some? <==> platform in TARGETS.Values)
            && (selected.Some? ==> selected.value in contract.payloads && selected.value.platform == platform
                                   && selected.value.package == PackageOf(platform))
    ensures |RowsFor(contract.payloads, platform)| <= 1
  {
    SixTargets();
    TargetsAreInjective();
    SelectionByPigeonhole(contract.payloads, TARGETS, platform);
    OneRowAtMost(contract.payloads, TARGETS, platform);
  }

  // ----- the one table that is accepted

  function Row(target: string, os: string, cpu: string, libc: Option<string>, package: string): Payload {
    Payload(target, Platform(os, cpu, libc), package, "ait-node", "ait-core", "SNP-F6544D8EFE10", "Apache-2.0", "1.2.1",
            "native/ait_napi.node")
  }

  const ROWS: seq<Payload> := [
    Row("aarch64-apple-darwin", "darwin", "arm64", None, "@wa120/ait-native-darwin-arm64"),
    Row("x86_64-apple-darwin", "darwin", "x64", None, "@wa120/ait-native-darwin-x64"),
    Row("aarch64-unknown-linux-gnu", "linux", "arm64", Some("glibc"), "@wa120/ait-native-linux-arm64"),
    Row("x86_64-unknown-linux-gnu", "linux", "x64", Some("glibc"), "@wa120/ait-native-linux-x64"),
    Row("aarch64-pc-windows-msvc", "win32", "arm64", None, "@wa120/ait-native-win32-arm64"),
    Row("x86_64-pc-windows-msvc", "win32", "x64", None, "@wa120/ait-native-win32-x64")]

  lemma PackageTextsBelow()
    ensures forall i :: 0 <= i < 3 ==> ROWS[i].package == PackageOf(ROWS[i].platform)
  {
  }

  lemma PackageTexts()
    ensures forall i :: 0 <= i < 6 ==> ROWS[i].package == PackageOf(ROWS[i].platform)
  {
    PackageTextsBelow();
  }

  lemma RowsAreTargets()
    ensures forall i :: 0 <= i < 6 ==> ROWS[i].target in TARGETS && ROWS[i].platform == TARGETS[ROWS[i].target]
  {
  }

  lemma RowsAgree()
    ensures forall i :: 0 <= i < 6 ==>
              var r := ROWS[i];
              r == Payload(r.target, r.platform, r.package, "ait-node", "ait-core", "SNP-F6544D8EFE10", "Apache-2.0",
                           "1.2.1", "native/ait_napi.node")
  {
  }

  lemma TargetsAreRows(target: string)
    requires target in TARGETS
    ensures exists i :: 0 <= i < 6 && ROWS[i].target == target
  {
    assert ROWS[0].target == "aarch64-apple-darwin" && ROWS[1].target == "x86_64-apple-darwin";
    assert ROWS[2].target == "aarch64-unknown-linux-gnu" && ROWS[3].target == "x86_64-unknown-linux-gnu";
    assert ROWS[4].target == "aarch64-pc-windows-msvc" && ROWS[5].target == "x86_64-pc-windows-msvc";
  }

  lemma TargetsApart()
    ensures forall i, j :: 0 <= i < j < 6 ==> ROWS[i].target != ROWS[j].target
  {
    assert |ROWS[0].target| == 20 && |ROWS[1].target| == 19 && |ROWS[2].target| == 25;
    assert |ROWS[3].target| == 24 && |ROWS[4].target| == 23 && |ROWS[5].target| == 22;
  }

  lemma PackagesApart()
    ensures forall i, j :: 0 <= i < j < 6 ==> ROWS[i].package != ROWS[j].package
  {
    assert |ROWS[0].package| == 30 && |ROWS[1].package| == 28 && |ROWS[2].package| == 29;
    assert |ROWS[3].package| == 27 && |ROWS[4].package| == 29 && |ROWS[5].package| == 27;
    assert ROWS[2].package[18] == 'l' && ROWS[3].package[18] == 'l';
    assert ROWS[4].package[18] == 'w' && ROWS[5].package[18] == 'w';
  }

  lemma RowValidExactly(row: Payload)
    ensures RowValid("1.2.1", row) <==> row in ROWS
  {
    RowsAgree();
    RowsAreTargets();
    PackageTexts();
    if RowValid("1.2.1", row) {
      TargetsAreRows(row.target);
      var i :| 0 <= i < 6 && ROWS[i].target == row.target;
      assert row == ROWS[i];
    }
    if row in ROWS {
      var i :| 0 <= i < 6 && ROWS[i] == row;
    }
  }

  lemma {:induction false} PayloadCount(s: seq<Payload>)
    ensures |ToSet(s)| <= |s|
    ensures |ToSet(s)| == |s| ==> NoRepeats(s)
  {
    if s != [] {
      var init, last := s[..|s| - 1], s[|s| - 1];
      PayloadCount(init);
      assert ToSet(s) == ToSet(init) + {last};
      if |ToSet(s)| == |s| {
        assert last !in ToSet(init);
      }
    } else {
      assert ToSet(s) == {};
    }
  }

  lemma {:induction false} DistinctPayloads(s: seq<Payload>)
    requires NoRepeats(s)
    ensures |ToSet(s)| == |s|
  {
    if s != [] {
      var init, last := s[..|s| - 1], s[|s| - 1];
      DistinctPayloads(init);
      assert ToSet(s) == ToSet(init) + {last};
    } else {
      assert ToSet(s) == {};
    }
  }

  lemma RowsNameEachOther(rows: seq<Payload>)
    requires |rows| == 6 && NoRepeats(rows) && forall row :: row in rows ==> row in ROWS
    ensures forall i, j :: 0 <= i < j < 6 ==> Target(rows[i]) != Target(rows[j]) && Package(rows[i]) != Package(rows[j])
  {
    TargetsApart();
    PackagesApart();
    forall i, j | 0 <= i < j < 6 ensures Target(rows[i]) != Target(rows[j]) && Package(rows[i]) != Package(rows[j]) {
      assert rows[i] in ROWS && rows[j] in ROWS;
      var k :| 0 <= k < 6 && ROWS[k] == rows[i];
      var l :| 0 <= l < 6 && ROWS[l] == rows[j];
      assert k != l;
    }
  }

  lemma SixRows(rows: seq<Payload>)
    requires |rows| == 6 && forall row :: row in ROWS ==> row in rows
    ensures NoRepeats(rows) && forall row :: row in rows ==> row in ROWS
  {
    TargetsApart();
    DistinctPayloads(ROWS);
    PayloadCount(rows);
    assert ToSet(ROWS) <= ToSet(rows);
    assert |ToSet(rows) - ToSet(ROWS)| == |ToSet(rows)| - 6;
    forall row | row in rows ensures row in ROWS {
      assert row in ToSet(rows) && row !in ToSet(rows) - ToSet(ROWS);
    }
  }

  lemma EveryRowOccurs(rows: seq<Payload>, row: Payload)
    requires |rows| == 6 && row in ROWS && forall i :: 0 <= i < 6 ==> rows[i] in ROWS
    requires forall i, j :: 0 <= i < j < 6 ==> Target(rows[i]) != Target(rows[j])
    ensures row in rows
  {
    RowsAreTargets();
    TargetsApart();
    SixTargets();
    forall i | 0 <= i < 6 ensures rows[i].target in TARGETS {
      var k :| 0 <= k < 6 && ROWS[k] == rows[i];
    }
    EveryTargetOccurs(rows, TARGETS);
    var i :| 0 <= i < 6 && rows[i].target == row.target;
    var k :| 0 <= k < 6 && ROWS[k] == rows[i];
    var l :| 0 <= l < 6 && ROWS[l] == row;
    assert k == l;
  }

  /** A contract is accepted exactly when its head is the fixed one and its rows
      are these six, in any order. */
  lemma AcceptedContracts(contract: Contract)
    ensures Acceptable(contract) <==>
            && contract.schema == "ait.node.napi-platform-packages/v2"
            && contract.topLevelPackage == "@wa120/ait-native" && contract.familyVersion == "1.2.1"
            && |contract.payloads| == 6 && forall row :: row in contract.payloads <==> row in ROWS
  {
    var rows := contract.payloads;
    forall row { RowValidExactly(row); }
    if Acceptable(contract) {
      forall row | row in ROWS ensures row in rows {
        EveryRowOccurs(rows, row);
      }
    }
    if |rows| == 6 && forall row :: row in rows <==> row in ROWS {
      SixRows(rows);
      RowsNameEachOther(rows);
    }
  }
}
