/**
 * Instance selection from the command line: `node emulator.js <config> [--instance a,b,...]
 * [--process-type t1,t2,...]`. The two filters exclude each other; a process type selects the
 * instances of every stakeholder whose stream path has that type as its second segment; with
 * neither filter every stakeholder's instance is selected; duplicates are dropped, keeping the
 * first occurrence.
 */
module Selection {
  import opened Wrappers
  import opened JsStrings
  import opened Config

  /** The two ways the command line makes the emulator exit. */
  datatype UsageError = MissingConfigFile | ConflictingFilters

  /** `selectedInstances` and `targetProcessTypes` while the arguments are scanned. */
  datatype Filters = Filters(instances: seq<string>, types: seq<string>)

  const InstanceFlag := "--instance"
  const TypeFlag := "--process-type"

  /** The argument after position `i` is a value: present, non-empty and not another flag. */
  predicate Captures(argv: seq<string>, i: nat)
  {
    i + 1 < |argv| && argv[i + 1] != "" && !StartsWith(argv[i + 1], "--")
  }

  /** The argument loop from position `i` on: a captured value is skipped over. */
  function ScanFlags(argv: seq<string>, i: nat, f: Filters): Result<Filters, UsageError>
    decreases |argv| - i
  {
    if i >= |argv| then Success(f)
    else if argv[i] == TypeFlag then
      if |f.instances| > 0 then Failure(ConflictingFilters)
      else if Captures(argv, i) then ScanFlags(argv, i + 2, f.(types := Split(argv[i + 1], ',')))
      else ScanFlags(argv, i + 1, f)
    else if argv[i] == InstanceFlag then
      if |f.types| > 0 then Failure(ConflictingFilters)
      else if Captures(argv, i) then ScanFlags(argv, i + 2, f.(instances := Split(argv[i + 1], ',')))
      else ScanFlags(argv, i + 1, f)
    else ScanFlags(argv, i + 1, f)
  }

  /** The second `/`-segment of a stream path, when it has one. */
  function ProcessType(path: string): Option<string>
  {
    var parts := Split(path, '/');
    if |parts| >= 2 then Some(parts[1]) else None
  }

  predicate OfTypes(s: StakeholderDecl, types: seq<string>)
  {
    ProcessType(s.streamFilePath).Some? && ProcessType(s.streamFilePath).value in types
  }

  /** The instances the process-type loop pushes, in stakeholder order. */
  function TypeInstances(stakeholders: seq<StakeholderDecl>, types: seq<string>): seq<string>
  {
    if |stakeholders| == 0 then []
    else
      var last := stakeholders[|stakeholders| - 1];
      TypeInstances(stakeholders[..|stakeholders| - 1], types)
      + if OfTypes(last, types) then [last.processInstance] else []
  }

  /** Every stakeholder's instance, in order. */
  function AllInstances(stakeholders: seq<StakeholderDecl>): seq<string>
  {
    seq(|stakeholders|, k requires 0 <= k < |stakeholders| => stakeholders[k].processInstance)
  }

  /** `[...new Set(xs)]`: the distinct elements in order of first occurrence. */
  function Dedup<T(==,!new)>(xs: seq<T>): (r: seq<T>)
    ensures forall i, j :: 0 <= i < j < |r| ==> r[i] != r[j]
    ensures forall x :: x in r <==> x in xs
  {
    if |xs| == 0 then []
    else
      var d := Dedup(xs[..|xs| - 1]);
      if xs[|xs| - 1] in d then d else d + [xs[|xs| - 1]]
  }

  /** The position of the first occurrence of `x`, or `|xs|`. */
  function FirstIndex<T(==)>(xs: seq<T>, x: T): (i: nat)
    ensures i <= |xs|
    ensures i < |xs| ==> xs[i] == x
    ensures forall j :: 0 <= j < i ==> xs[j] != x
  {
    if |xs| == 0 then 0
    else if xs[0] == x then 0
    else 1 + FirstIndex(xs[1..], x)
  }

  /** The filters after the scan, expanded as main.js:55-82 do. */
  function Expand(f: Filters, stakeholders: seq<StakeholderDecl>): seq<string>
  {
    var typed := if |f.types| > 0 then f.instances + TypeInstances(stakeholders, f.types) else f.instances;
    if |typed| == 0 && |f.types| == 0 then AllInstances(stakeholders) else typed
  }

  /** The selected instances, or the error the emulator exits with; `initial` is `selectedInstances` beforehand. */
  function Selection(argv: seq<string>, stakeholders: seq<StakeholderDecl>, initial: seq<string>)
    : Result<seq<string>, UsageError>
  {
    if |argv| < 3 then Failure(MissingConfigFile)
    else match ScanFlags(argv, 3, Filters(initial, []))
      case Failure(e) => Failure(e)
      case Success(f) => Success(Dedup(Expand(f, stakeholders)))
  }

  predicate IsFlag(a: string)
  {
    a == InstanceFlag || a == TypeFlag
  }

  predicate Occurs(argv: seq<string>, i: nat, flag: string)
  {
    exists j :: i <= j < |argv| && argv[j] == flag
  }

  /** A `flag` at or after `i` captures a value and an `other` flag follows it. */
  predicate CapturedBefore(argv: seq<string>, i: nat, flag: string, other: string)
  {
    exists a, b :: i <= a < b < |argv| && argv[a] == flag && Captures(argv, a) && argv[b] == other
  }

  /** The scan only ever fails for conflicting filters. */
  lemma {:induction false} ScanNeverMissing(argv: seq<string>, i: nat, f: Filters)
    ensures ScanFlags(argv, i, f) != Failure(MissingConfigFile)
    decreases |argv| - i
  {
    if i < |argv| {
      if argv[i] == TypeFlag && Captures(argv, i) {
        ScanNeverMissing(argv, i + 2, f.(types := Split(argv[i + 1], ',')));
      } else if argv[i] == InstanceFlag && Captures(argv, i) {
        ScanNeverMissing(argv, i + 2, f.(instances := Split(argv[i + 1], ',')));
      } else {
        ScanNeverMissing(argv, i + 1, f);
      }
    }
  }

  /** The configuration file argument is missing exactly when there are fewer than three arguments. */
  lemma MissingConfigIff(argv: seq<string>, stakeholders: seq<StakeholderDecl>, initial: seq<string>)
    ensures Selection(argv, stakeholders, initial) == Failure(MissingConfigFile) <==> |argv| < 3
  {
    ScanNeverMissing(argv, 3, Filters(initial, []));
  }

  /** Without a flag the scan leaves the filters as they are. */
  lemma {:induction false} ScanWithoutFlags(argv: seq<string>, i: nat, f: Filters)
    requires forall j :: i <= j < |argv| ==> !IsFlag(argv[j])
    ensures ScanFlags(argv, i, f) == Success(f)
    decreases |argv| - i
  {
    if i < |argv| {
      assert !IsFlag(argv[i]);
      ScanWithoutFlags(argv, i + 1, f);
    }
  }

  /** With no flag every stakeholder's instance is selected, once each, in first-occurrence order. */
  lemma NoFlagsSelectsAll(argv: seq<string>, stakeholders: seq<StakeholderDecl>)
    requires |argv| >= 3
    requires forall j :: 3 <= j < |argv| ==> !IsFlag(argv[j])
    ensures Selection(argv, stakeholders, []) == Success(Dedup(AllInstances(stakeholders)))
    ensures forall x :: x in Selection(argv, stakeholders, []).value
              <==> exists k :: 0 <= k < |stakeholders| && stakeholders[k].processInstance == x
  {
    ScanWithoutFlags(argv, 3, Filters([], []));
    var all := AllInstances(stakeholders);
    forall x ensures x in all <==> exists k :: 0 <= k < |stakeholders| && stakeholders[k].processInstance == x {
      if x in all {
        var k :| 0 <= k < |all| && all[k] == x;
        assert stakeholders[k].processInstance == x;
      }
      if exists k :: 0 <= k < |stakeholders| && stakeholders[k].processInstance == x {
        var k :| 0 <= k < |stakeholders| && stakeholders[k].processInstance == x;
        assert all[k] == x;
      }
    }
  }

  /** A scan that ends with process types never changed the instance list. */
  lemma {:induction false} TypesKeepInstances(argv: seq<string>, i: nat, f: Filters)
    requires ScanFlags(argv, i, f).Success? && |ScanFlags(argv, i, f).value.types| > 0
    ensures ScanFlags(argv, i, f).value.instances == f.instances
    decreases |argv| - i
  {
    if i < |argv| {
      if argv[i] == TypeFlag && Captures(argv, i) {
        TypesKeepInstances(argv, i + 2, f.(types := Split(argv[i + 1], ',')));
      } else if argv[i] == InstanceFlag && Captures(argv, i) {
        var g := f.(instances := Split(argv[i + 1], ','));
        assert |f.types| == 0;
        TypesExcludeCapture(argv, i + 2, g);
      } else {
        TypesKeepInstances(argv, i + 1, f);
      }
    }
  }

  /** Once instances are captured, a scan that succeeds ends without process types. */
  lemma {:induction false} TypesExcludeCapture(argv: seq<string>, i: nat, f: Filters)
    requires |f.instances| > 0 && |f.types| == 0
    requires ScanFlags(argv, i, f).Success?
    ensures ScanFlags(argv, i, f).value.types == []
    decreases |argv| - i
  {
    if i < |argv| {
      if argv[i] == InstanceFlag && Captures(argv, i) {
        TypesExcludeCapture(argv, i + 2, f.(instances := Split(argv[i + 1], ',')));
      } else {
        TypesExcludeCapture(argv, i + 1, f);
      }
    }
  }

  /** Membership in the process-type expansion. */
  lemma {:induction false} TypeInstancesMembers(stakeholders: seq<StakeholderDecl>, types: seq<string>, x: string)
    ensures x in TypeInstances(stakeholders, types)
        <==> exists k :: 0 <= k < |stakeholders| && stakeholders[k].processInstance == x && OfTypes(stakeholders[k], types)
    decreases |stakeholders|
  {
    if |stakeholders| > 0 {
      var n := |stakeholders| - 1;
      var front := stakeholders[..n];
      TypeInstancesMembers(front, types, x);
      if exists k :: 0 <= k < |stakeholders| && stakeholders[k].processInstance == x && OfTypes(stakeholders[k], types) {
        var k :| 0 <= k < |stakeholders| && stakeholders[k].processInstance == x && OfTypes(stakeholders[k], types);
        if k < n {
          assert front[k] == stakeholders[k];
        }
      }
      if x in TypeInstances(front, types) {
        var k :| 0 <= k < |front| && front[k].processInstance == x && OfTypes(front[k], types);
        assert stakeholders[k] == front[k];
      }
    }
  }

  /**
   * With process types, the selection is the instances of the stakeholders whose stream path has
   * at least two segments and one of those types as its second, de-duplicated.
   */
  lemma TypeSelection(argv: seq<string>, stakeholders: seq<StakeholderDecl>)
    requires |argv| >= 3
    requires ScanFlags(argv, 3, Filters([], [])).Success?
    requires |ScanFlags(argv, 3, Filters([], [])).value.types| > 0
    ensures var types := ScanFlags(argv, 3, Filters([], [])).value.types;
      && Selection(argv, stakeholders, []) == Success(Dedup(TypeInstances(stakeholders, types)))
      && forall x :: x in Selection(argv, stakeholders, []).value
           <==> exists k :: 0 <= k < |stakeholders| && stakeholders[k].processInstance == x
                  && |Split(stakeholders[k].streamFilePath, '/')| >= 2
                  && Split(stakeholders[k].streamFilePath, '/')[1] in types
  {
    var f := ScanFlags(argv, 3, Filters([], [])).value;
    TypesKeepInstances(argv, 3, Filters([], []));
    assert [] + TypeInstances(stakeholders, f.types) == TypeInstances(stakeholders, f.types);
    forall x {
      TypeInstancesMembers(stakeholders, f.types, x);
    }
  }

  /** A flag captured at `i` makes a later flag of the other kind fatal. */
  lemma {:induction false} LaterConflict(argv: seq<string>, i: nat, f: Filters)
    requires (|f.instances| > 0 && Occurs(argv, i, TypeFlag)) || (|f.types| > 0 && Occurs(argv, i, InstanceFlag))
    ensures ScanFlags(argv, i, f) == Failure(ConflictingFilters)
    decreases |argv| - i
  {
    var j :| i <= j < |argv| && ((|f.instances| > 0 && argv[j] == TypeFlag) || (|f.types| > 0 && argv[j] == InstanceFlag));
    if j == i {
    } else if argv[i] == TypeFlag && |f.instances| == 0 && Captures(argv, i) {
      assert j != i + 1 by { assert StartsWith(argv[j], "--"); }
      LaterConflict(argv, i + 2, f.(types := Split(argv[i + 1], ',')));
    } else if argv[i] == InstanceFlag && |f.types| == 0 && Captures(argv, i) {
      assert j != i + 1 by { assert StartsWith(argv[j], "--"); }
      LaterConflict(argv, i + 2, f.(instances := Split(argv[i + 1], ',')));
    } else if !IsFlag(argv[i]) || !Captures(argv, i) {
      LaterConflict(argv, i + 1, f);
    }
  }

  /** A successful scan means no flag met a non-empty list of the other kind. */
  lemma {:induction false} SuccessNoConflict(argv: seq<string>, i: nat, f: Filters)
    requires ScanFlags(argv, i, f).Success?
    ensures !(|f.instances| > 0 && Occurs(argv, i, TypeFlag))
    ensures !(|f.types| > 0 && Occurs(argv, i, InstanceFlag))
    ensures !CapturedBefore(argv, i, InstanceFlag, TypeFlag)
    ensures !CapturedBefore(argv, i, TypeFlag, InstanceFlag)
    decreases |argv| - i
  {
    if (|f.instances| > 0 && Occurs(argv, i, TypeFlag)) || (|f.types| > 0 && Occurs(argv, i, InstanceFlag)) {
      LaterConflict(argv, i, f);
    }
    if i < |argv| {
      if IsFlag(argv[i]) && Captures(argv, i) {
        var g := if argv[i] == TypeFlag then f.(types := Split(argv[i + 1], ','))
                 else f.(instances := Split(argv[i + 1], ','));
        SuccessNoConflict(argv, i + 2, g);
        assert StartsWith(InstanceFlag, "--") && StartsWith(TypeFlag, "--");
        assert !IsFlag(argv[i + 1]);
      } else {
        SuccessNoConflict(argv, i + 1, f);
      }
    }
  }

  /**
   * The scan fails exactly when a flag meets a non-empty list of the other kind: one it started
   * with, or one an earlier flag captured. Since no value may start with `--`, every flag in the
   * arguments is scanned as a flag.
   */
  lemma ConflictIff(argv: seq<string>, i: nat, f: Filters)
    ensures ScanFlags(argv, i, f).Failure?
        <==> (|| (|f.instances| > 0 && Occurs(argv, i, TypeFlag))
              || (|f.types| > 0 && Occurs(argv, i, InstanceFlag))
              || CapturedBefore(argv, i, InstanceFlag, TypeFlag)
              || CapturedBefore(argv, i, TypeFlag, InstanceFlag))
  {
    if ScanFlags(argv, i, f).Success? {
      SuccessNoConflict(argv, i, f);
    } else {
      FailureHasConflict(argv, i, f);
    }
  }

  lemma {:induction false} FailureHasConflict(argv: seq<string>, i: nat, f: Filters)
    requires ScanFlags(argv, i, f).Failure?
    ensures || (|f.instances| > 0 && Occurs(argv, i, TypeFlag))
            || (|f.types| > 0 && Occurs(argv, i, InstanceFlag))
            || CapturedBefore(argv, i, InstanceFlag, TypeFlag)
            || CapturedBefore(argv, i, TypeFlag, InstanceFlag)
    decreases |argv| - i
  {
    if (argv[i] == TypeFlag && |f.instances| > 0) || (argv[i] == InstanceFlag && |f.types| > 0) {
    } else if IsFlag(argv[i]) && Captures(argv, i) {
      var g := if argv[i] == TypeFlag then f.(types := Split(argv[i + 1], ','))
               else f.(instances := Split(argv[i + 1], ','));
      FailureHasConflict(argv, i + 2, g);
      if Occurs(argv, i + 2, TypeFlag) {
        var b :| i + 2 <= b < |argv| && argv[b] == TypeFlag;
        assert Occurs(argv, i, TypeFlag);
      }
      if Occurs(argv, i + 2, InstanceFlag) {
        var b :| i + 2 <= b < |argv| && argv[b] == InstanceFlag;
        assert Occurs(argv, i, InstanceFlag);
      }
      if CapturedBefore(argv, i + 2, InstanceFlag, TypeFlag) {
        var a, b :| i + 2 <= a < b < |argv| && argv[a] == InstanceFlag && Captures(argv, a) && argv[b] == TypeFlag;
        assert CapturedBefore(argv, i, InstanceFlag, TypeFlag);
      }
      if CapturedBefore(argv, i + 2, TypeFlag, InstanceFlag) {
        var a, b :| i + 2 <= a < b < |argv| && argv[a] == TypeFlag && Captures(argv, a) && argv[b] == InstanceFlag;
        assert CapturedBefore(argv, i, TypeFlag, InstanceFlag);
      }
    } else {
      FailureHasConflict(argv, i + 1, f);
      if Occurs(argv, i + 1, TypeFlag) {
        var b :| i + 1 <= b < |argv| && argv[b] == TypeFlag;
        assert Occurs(argv, i, TypeFlag);
      }
      if Occurs(argv, i + 1, InstanceFlag) {
        var b :| i + 1 <= b < |argv| && argv[b] == InstanceFlag;
        assert Occurs(argv, i, InstanceFlag);
      }
      if CapturedBefore(argv, i + 1, InstanceFlag, TypeFlag) {
        var a, b :| i + 1 <= a < b < |argv| && argv[a] == InstanceFlag && Captures(argv, a) && argv[b] == TypeFlag;
        assert CapturedBefore(argv, i, InstanceFlag, TypeFlag);
      }
      if CapturedBefore(argv, i + 1, TypeFlag, InstanceFlag) {
        var a, b :| i + 1 <= a < b < |argv| && argv[a] == TypeFlag && Captures(argv, a) && argv[b] == InstanceFlag;
        assert CapturedBefore(argv, i, TypeFlag, InstanceFlag);
      }
    }
  }

  /** A repeated flag replaces the list the earlier one captured. */
  lemma RepeatedFlagReplaces(argv: seq<string>, i: nat, f: Filters, flag: string)
    requires IsFlag(flag)
    requires i + 3 < |argv| && argv[i] == flag && argv[i + 2] == flag
    requires Captures(argv, i) && Captures(argv, i + 2)
    requires flag == InstanceFlag ==> |f.types| == 0
    requires flag == TypeFlag ==> |f.instances| == 0
    ensures ScanFlags(argv, i, f) == ScanFlags(argv, i + 2, f)
  {
  }

  /** A flag with nothing to capture is passed over. */
  lemma FlagWithoutValue(argv: seq<string>, i: nat, f: Filters)
    requires i < |argv| && IsFlag(argv[i]) && !Captures(argv, i)
    requires argv[i] == InstanceFlag ==> |f.types| == 0
    requires argv[i] == TypeFlag ==> |f.instances| == 0
    ensures ScanFlags(argv, i, f) == ScanFlags(argv, i + 1, f)
  {
  }

  /** The first occurrence of an element of a prefix is found in that prefix. */
  lemma FirstIndexPrefix<T>(xs: seq<T>, n: nat, y: T)
    requires n <= |xs| && y in xs[..n]
    ensures FirstIndex(xs, y) == FirstIndex(xs[..n], y)
  {
    var i := FirstIndex(xs[..n], y);
    assert xs[i] == y;
    assert forall j :: 0 <= j < i ==> xs[j] != y by {
      assert forall j :: 0 <= j < i ==> xs[j] == xs[..n][j];
    }
    assert FirstIndex(xs, y) <= i;
  }

  /** De-duplication keeps the order of first occurrences. */
  lemma {:induction false} DedupOrder<T(!new)>(xs: seq<T>)
    ensures forall i, j :: 0 <= i < j < |Dedup(xs)| ==> FirstIndex(xs, Dedup(xs)[i]) < FirstIndex(xs, Dedup(xs)[j])
    decreases |xs|
  {
    if |xs| > 0 {
      var n := |xs| - 1;
      var front := xs[..n];
      var d := Dedup(front);
      DedupOrder(front);
      forall y | y in d ensures FirstIndex(xs, y) == FirstIndex(front, y) && FirstIndex(front, y) < n {
        FirstIndexPrefix(xs, n, y);
      }
      if xs[n] !in d {
        var r := d + [xs[n]];
        assert FirstIndex(xs, xs[n]) == n by {
          assert xs[n] !in front;
        }
        forall i, j | 0 <= i < j < |r| ensures FirstIndex(xs, r[i]) < FirstIndex(xs, r[j]) {
          assert r[i] in d;
          if j < |d| {
            assert r[j] in d;
          }
        }
      }
    }
  }
}
