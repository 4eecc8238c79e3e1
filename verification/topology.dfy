/**
 * The entities the emulator plays: one per selected stakeholder, keyed `name/instance`, and one
 * per artifact whose stream path starts with the file-name prefix of a selected stakeholder,
 * keyed `name/id`. Each entity gets an empty event list under the same key. Stakeholders are
 * visited first, recording each instance's prefix in an insertion-ordered map; an artifact takes
 * the first instance, in that order, whose prefix its path starts with.
 */
module Topology {
  import opened Wrappers
  import opened JsStrings
  import opened OrderedMaps
  import opened Config
  import opened StreamParser
  import opened FilePattern
  import opened Selection

  datatype Entity =
    | Stakeholder(name: string, processInstance: string, host: string, port: string, file: string)
    | Artifact(name: string, id: string, host: string, port: string, file: string, processInstance: string)

  function StakeholderKey(s: StakeholderDecl): string
  {
    s.name + "/" + s.processInstance
  }

  function ArtifactKey(a: ArtifactDecl): string
  {
    a.name + "/" + a.id
  }

  function StakeholderEntity(s: StakeholderDecl): Entity
  {
    Stakeholder(s.name, s.processInstance, s.host, s.port, s.streamFilePath)
  }

  function ArtifactEntity(a: ArtifactDecl, instance: string): Entity
  {
    Artifact(a.name, a.id, a.host, a.port, a.streamFilePath, instance)
  }

  /** `entities`, `events` and the local `instancePrefixMap` while the entities are set up. */
  datatype SetupState = SetupState(
    entities: OMap<string, Entity>, events: OMap<string, seq<Event>>, prefixes: OMap<string, string>)
  {
    /** The three maps are well formed, and `entities` and `events` list the same keys in the same order. */
    ghost predicate Valid()
    {
      entities.Valid() && events.Valid() && prefixes.Valid() && entities.keys == events.keys
    }
  }

  /** The loop body for one stakeholder (main.js:118-154). */
  function AddStakeholder(st: SetupState, s: StakeholderDecl, selected: seq<string>): (r: SetupState)
    requires st.Valid()
    ensures r.Valid()
    ensures s.processInstance !in selected ==> r == st
    ensures s.processInstance in selected ==>
      && r.entities.vals == st.entities.vals[StakeholderKey(s) := StakeholderEntity(s)]
      && r.events.vals == st.events.vals[StakeholderKey(s) := []]
      && st.entities.keys <= r.entities.keys
  {
    if s.processInstance !in selected then st
    else
      var key := StakeholderKey(s);
      SetupState(Put(st.entities, key, StakeholderEntity(s)), Put(st.events, key, []),
                 RecordPrefix(st.prefixes, s))
  }

  /** `instancePrefixMap.set(processInstance, prefix)` when the stakeholder's path yields a prefix. */
  function RecordPrefix(prefixes: OMap<string, string>, s: StakeholderDecl): (r: OMap<string, string>)
    requires prefixes.Valid()
    ensures r.Valid()
  {
    match InstancePrefix(s.streamFilePath)
      case None => prefixes
      case Some(prefix) => Put(prefixes, s.processInstance, prefix)
  }

  /** The stakeholder loop over `stakeholders`, in order. */
  function AddStakeholders(st: SetupState, stakeholders: seq<StakeholderDecl>, selected: seq<string>): (r: SetupState)
    requires st.Valid()
    ensures r.Valid()
    ensures st.entities.keys <= r.entities.keys
  {
    if |stakeholders| == 0 then st
    else
      AddStakeholder(AddStakeholders(st, stakeholders[..|stakeholders| - 1], selected),
                     stakeholders[|stakeholders| - 1], selected)
  }

  /** Position of the first key, in insertion order, whose prefix `path` starts with; `|keys|` if none. */
  function FirstPrefixIndex(prefixes: OMap<string, string>, path: string, from: nat): (i: nat)
    requires prefixes.Valid() && from <= |prefixes.keys|
    ensures from <= i <= |prefixes.keys|
    ensures i < |prefixes.keys| ==> StartsWith(path, prefixes.vals[prefixes.keys[i]])
    ensures forall j :: from <= j < i ==> !StartsWith(path, prefixes.vals[prefixes.keys[j]])
    decreases |prefixes.keys| - from
  {
    if from == |prefixes.keys| then from
    else if StartsWith(path, prefixes.vals[prefixes.keys[from]]) then from
    else FirstPrefixIndex(prefixes, path, from + 1)
  }

  /** The instance the `for ... of instancePrefixMap.entries()` loop matches a path to. */
  function MatchedInstance(prefixes: OMap<string, string>, path: string): Option<string>
    requires prefixes.Valid()
  {
    var i := FirstPrefixIndex(prefixes, path, 0);
    if i < |prefixes.keys| then Some(prefixes.keys[i]) else None
  }

  /** The instance an artifact is attached to, if any: `!matchedInstance` also holds for `""`. */
  function Attached(prefixes: OMap<string, string>, a: ArtifactDecl, selected: seq<string>): Option<string>
    requires prefixes.Valid()
  {
    match MatchedInstance(prefixes, a.streamFilePath)
      case None => None
      case Some(instance) => if instance == "" || instance !in selected then None else Some(instance)
  }

  /** The loop body for one artifact (main.js:162-194). */
  function AddArtifact(st: SetupState, a: ArtifactDecl, selected: seq<string>): (r: SetupState)
    requires st.Valid()
    ensures r.Valid()
    ensures Attached(st.prefixes, a, selected).None? ==> r == st
    ensures Attached(st.prefixes, a, selected).Some? ==>
      && r.entities.vals == st.entities.vals[ArtifactKey(a) := ArtifactEntity(a, Attached(st.prefixes, a, selected).value)]
      && r.events.vals == st.events.vals[ArtifactKey(a) := []]
      && r.prefixes == st.prefixes
      && st.entities.keys <= r.entities.keys
  {
    match Attached(st.prefixes, a, selected)
      case None => st
      case Some(instance) =>
        var key := ArtifactKey(a);
        st.(entities := Put(st.entities, key, ArtifactEntity(a, instance)),
            events := Put(st.events, key, []))
  }

  /** The artifact loop over `artifacts`, in order. */
  function AddArtifacts(st: SetupState, artifacts: seq<ArtifactDecl>, selected: seq<string>): (r: SetupState)
    requires st.Valid()
    ensures r.Valid()
    ensures st.entities.keys <= r.entities.keys
  {
    if |artifacts| == 0 then st
    else
      AddArtifact(AddArtifacts(st, artifacts[..|artifacts| - 1], selected),
                  artifacts[|artifacts| - 1], selected)
  }

  /** `setupEntities()`, from the entity and event maps it starts with and an empty prefix map. */
  function Setup(entities: OMap<string, Entity>, events: OMap<string, seq<Event>>,
                 config: Configuration, selected: seq<string>): (r: SetupState)
    requires entities.Valid() && events.Valid() && entities.keys == events.keys
    ensures r.Valid()
    ensures entities.keys <= r.entities.keys
  {
    AddArtifacts(AddStakeholders(SetupState(entities, events, Empty()), config.stakeholders, selected),
                 config.artifacts, selected)
  }

  /** Every event list is empty or the one the map started with. */
  ghost predicate ListsFresh(st: SetupState, init: OMap<string, seq<Event>>)
  {
    forall k :: k in st.events.vals ==> st.events.vals[k] == [] || (k in init.vals && st.events.vals[k] == init.vals[k])
  }

  /** Setting up entities only ever registers empty event lists. */
  lemma {:induction false} StakeholderListsFresh(st: SetupState, stakeholders: seq<StakeholderDecl>, selected: seq<string>)
    requires st.Valid()
    ensures ListsFresh(AddStakeholders(st, stakeholders, selected), st.events)
    decreases |stakeholders|
  {
    if |stakeholders| > 0 {
      StakeholderListsFresh(st, stakeholders[..|stakeholders| - 1], selected);
    }
  }

  lemma {:induction false} ArtifactListsFresh(st: SetupState, artifacts: seq<ArtifactDecl>, selected: seq<string>)
    requires st.Valid()
    ensures ListsFresh(AddArtifacts(st, artifacts, selected), st.events)
    decreases |artifacts|
  {
    if |artifacts| > 0 {
      ArtifactListsFresh(st, artifacts[..|artifacts| - 1], selected);
    }
  }

  /** After setup from empty maps, every entity has an event list and every list is empty. */
  lemma SetupListsEmpty(config: Configuration, selected: seq<string>)
    ensures var r := Setup(Empty(), Empty(), config, selected);
      && r.entities.keys == r.events.keys
      && forall k :: k in r.events.vals ==> r.events.vals[k] == []
  {
    var st0 := SetupState(Empty(), Empty(), Empty());
    var st1 := AddStakeholders(st0, config.stakeholders, selected);
    StakeholderListsFresh(st0, config.stakeholders, selected);
    ArtifactListsFresh(st1, config.artifacts, selected);
  }

  /** The stakeholder loop records prefixes of selected instances only. */
  lemma {:induction false} PrefixesSelected(st: SetupState, stakeholders: seq<StakeholderDecl>, selected: seq<string>)
    requires st.Valid()
    requires forall k :: k in st.prefixes.vals ==> k in selected
    ensures forall k :: k in AddStakeholders(st, stakeholders, selected).prefixes.vals ==> k in selected
    decreases |stakeholders|
  {
    if |stakeholders| > 0 {
      PrefixesSelected(st, stakeholders[..|stakeholders| - 1], selected);
    }
  }

  /**
   * So the `selectedInstances.includes(matchedInstance)` test on an artifact never fails: an
   * artifact is attached exactly when its path matches a prefix of a non-empty instance.
   */
  lemma SelectedTestRedundant(st: SetupState, stakeholders: seq<StakeholderDecl>, selected: seq<string>, a: ArtifactDecl)
    requires st.Valid() && st.prefixes == Empty()
    ensures var prefixes := AddStakeholders(st, stakeholders, selected).prefixes;
      Attached(prefixes, a, selected)
        == match MatchedInstance(prefixes, a.streamFilePath)
             case None => None
             case Some(instance) => if instance == "" then None else Some(instance)
  {
    PrefixesSelected(st, stakeholders, selected);
  }

  /** The artifact loop leaves the prefix map alone. */
  lemma {:induction false} ArtifactsKeepPrefixes(st: SetupState, artifacts: seq<ArtifactDecl>, selected: seq<string>)
    requires st.Valid()
    ensures AddArtifacts(st, artifacts, selected).prefixes == st.prefixes
    decreases |artifacts|
  {
    if |artifacts| > 0 {
      ArtifactsKeepPrefixes(st, artifacts[..|artifacts| - 1], selected);
    }
  }

  /** The instance matched is the first, in insertion order, whose prefix the path starts with. */
  lemma MatchedInstanceFirst(prefixes: OMap<string, string>, path: string)
    requires prefixes.Valid()
    ensures MatchedInstance(prefixes, path).Some? ==>
      exists i :: 0 <= i < |prefixes.keys| && prefixes.keys[i] == MatchedInstance(prefixes, path).value
        && StartsWith(path, prefixes.vals[prefixes.keys[i]])
        && forall j :: 0 <= j < i ==> !StartsWith(path, prefixes.vals[prefixes.keys[j]])
    ensures MatchedInstance(prefixes, path).None? ==>
      forall k :: k in prefixes.vals ==> !StartsWith(path, prefixes.vals[k])
  {
    var i := FirstPrefixIndex(prefixes, path, 0);
    if i == |prefixes.keys| {
      forall k | k in prefixes.vals ensures !StartsWith(path, prefixes.vals[k]) {
        var j :| 0 <= j < |prefixes.keys| && prefixes.keys[j] == k;
      }
    }
  }

  /**
   * The instances the stakeholder loop records a prefix for, in visiting order and with
   * repeats: those of selected stakeholders whose stream path yields a prefix.
   */
  function PrefixedInstances(stakeholders: seq<StakeholderDecl>, selected: seq<string>): seq<string>
  {
    if |stakeholders| == 0 then []
    else
      var s := stakeholders[|stakeholders| - 1];
      PrefixedInstances(stakeholders[..|stakeholders| - 1], selected)
        + (if s.processInstance in selected && InstancePrefix(s.streamFilePath).Some? then [s.processInstance] else [])
  }

  /**
   * Starting from an empty prefix map, the map lists each prefixed instance once, in the order
   * its first prefix was recorded; instances whose paths never yield a prefix are absent.
   */
  lemma {:induction false} PrefixKeysOrder(st: SetupState, stakeholders: seq<StakeholderDecl>, selected: seq<string>)
    requires st.Valid() && st.prefixes == Empty()
    ensures AddStakeholders(st, stakeholders, selected).prefixes.keys == Dedup(PrefixedInstances(stakeholders, selected))
    decreases |stakeholders|
  {
    if |stakeholders| > 0 {
      var n := |stakeholders| - 1;
      var s := stakeholders[n];
      var front := AddStakeholders(st, stakeholders[..n], selected);
      var before := PrefixedInstances(stakeholders[..n], selected);
      var after := before + if s.processInstance in selected && InstancePrefix(s.streamFilePath).Some?
                            then [s.processInstance] else [];
      assert front.prefixes.keys == Dedup(before) by {
        PrefixKeysOrder(st, stakeholders[..n], selected);
      }
      assert AddStakeholder(front, s, selected).prefixes.keys == Dedup(after) by {
        PrefixKeysStep(front, before, s, selected);
      }
      assert AddStakeholders(st, stakeholders, selected) == AddStakeholder(front, s, selected);
      assert PrefixedInstances(stakeholders, selected) == after;
    }
  }

  /** One stakeholder extends the prefix map's keys as it extends the recorded instances. */
  lemma PrefixKeysStep(front: SetupState, before: seq<string>, s: StakeholderDecl, selected: seq<string>)
    requires front.Valid() && front.prefixes.keys == Dedup(before)
    ensures AddStakeholder(front, s, selected).prefixes.keys
         == Dedup(before + if s.processInstance in selected && InstancePrefix(s.streamFilePath).Some?
                           then [s.processInstance] else [])
  {
    if s.processInstance in selected && InstancePrefix(s.streamFilePath).Some? {
      DedupSnoc(before, s.processInstance);
    } else {
      assert before + [] == before;
    }
  }

  /** Deduplicating one more element adds it at the end unless it was already there. */
  lemma DedupSnoc<T(!new)>(xs: seq<T>, x: T)
    ensures Dedup(xs + [x]) == if x in xs then Dedup(xs) else Dedup(xs) + [x]
  {
    assert (xs + [x])[..|xs|] == xs;
  }

  /**
   * The prefix recorded for an instance is the one from the last selected stakeholder of that
   * instance whose path yields a prefix: a later one overwrites an earlier one without error.
   */
  lemma {:induction false} PrefixLastWriteWins(st: SetupState, stakeholders: seq<StakeholderDecl>, selected: seq<string>, i: nat)
    requires st.Valid()
    requires i < |stakeholders| && stakeholders[i].processInstance in selected
    requires InstancePrefix(stakeholders[i].streamFilePath).Some?
    requires forall j :: i < j < |stakeholders| && stakeholders[j].processInstance == stakeholders[i].processInstance
               ==> InstancePrefix(stakeholders[j].streamFilePath).None?
    ensures var r := AddStakeholders(st, stakeholders, selected).prefixes;
      && stakeholders[i].processInstance in r.vals
      && r.vals[stakeholders[i].processInstance] == InstancePrefix(stakeholders[i].streamFilePath).value
    decreases |stakeholders|
  {
    var n := |stakeholders| - 1;
    if i < n {
      forall j | i < j < n && stakeholders[..n][j].processInstance == stakeholders[..n][i].processInstance
        ensures InstancePrefix(stakeholders[..n][j].streamFilePath).None?
      {
        assert stakeholders[..n][j] == stakeholders[j];
      }
      assert stakeholders[..n][i] == stakeholders[i];
      PrefixLastWriteWins(st, stakeholders[..n], selected, i);
    }
  }

  /** The directory of the example route, and of the reverse route. */
  const ExampleDir := ["shipment-1-data", "AMS-CDG"]
  const ReverseDir := ["shipment-1-data", "CDG-AMS"]

  /** The prefix the example stakeholder records: `shipment-1-data/AMS-CDG/06-AMS-CDG-`. */
  function ExampleInstancePrefix(): string
  {
    Join(ExampleDir, '/') + "/" + "06-AMS-CDG-"
  }

  /** A file of the same route starts with the example prefix; one of the reverse route does not. */
  lemma ExampleRoutes(a: string, b: string)
    requires a == Join(ExampleDir + ["06-AMS-CDG-truckA.csv"], '/')
    requires b == Join(ReverseDir + ["06-CDG-AMS-truckA.csv"], '/')
    ensures StartsWith(a, ExampleInstancePrefix())
    ensures !StartsWith(b, ExampleInstancePrefix())
  {
    JoinSnoc(ExampleDir, "06-AMS-CDG-truckA.csv", '/');
    assert StartsWith("06-AMS-CDG-truckA.csv", "06-AMS-CDG-");
    StartsWithAfter(Join(ExampleDir, '/') + "/", "06-AMS-CDG-truckA.csv", "06-AMS-CDG-");
    JoinSnoc(ReverseDir, "06-CDG-AMS-truckA.csv", '/');
    assert ReverseDir[1..] == ["CDG-AMS"] && ExampleDir[1..] == ["AMS-CDG"];
    assert b[16] == 'C' && ExampleInstancePrefix()[16] == 'A';
  }

  /**
   * A stakeholder of instance `I1` streaming `shipment-1-data/AMS-CDG/06-AMS-CDG-stakeholder.csv`
   * records the prefix `shipment-1-data/AMS-CDG/06-AMS-CDG-`; an artifact streaming
   * `shipment-1-data/AMS-CDG/06-AMS-CDG-truckA.csv` is attached to `I1`, and one streaming
   * `shipment-1-data/CDG-AMS/06-CDG-AMS-truckA.csv`, of the reverse route, is not.
   */
  lemma ExampleAttachment(st: SetupState, s: StakeholderDecl, a: ArtifactDecl, b: ArtifactDecl)
    requires st.Valid() && st.prefixes == Empty()
    requires s.processInstance == "I1"
    requires s.streamFilePath == Join(ExampleDir + ["06-AMS-CDG-stakeholder.csv"], '/')
    requires a.streamFilePath == Join(ExampleDir + ["06-AMS-CDG-truckA.csv"], '/')
    requires b.streamFilePath == Join(ReverseDir + ["06-CDG-AMS-truckA.csv"], '/')
    ensures var prefixes := AddStakeholders(st, [s], ["I1"]).prefixes;
      && prefixes.keys == ["I1"]
      && prefixes.vals["I1"] == ExampleInstancePrefix()
      && Attached(prefixes, a, ["I1"]) == Some("I1")
      && Attached(prefixes, b, ["I1"]).None?
  {
    assert ExampleDir + ["06-AMS-CDG-stakeholder.csv"] == ["shipment-1-data", "AMS-CDG", "06-AMS-CDG-stakeholder.csv"];
    ExamplePrefix(s.streamFilePath);
    ExampleRoutes(a.streamFilePath, b.streamFilePath);
    assert InstancePrefix(s.streamFilePath) == Some(ExampleInstancePrefix());
    assert AddStakeholders(st, [s], ["I1"]) == AddStakeholder(st, s, ["I1"]) by {
      assert [s][..0] == [];
    }
    var prefixes := AddStakeholders(st, [s], ["I1"]).prefixes;
    assert prefixes == Put(Empty(), "I1", ExampleInstancePrefix());
    assert FirstPrefixIndex(prefixes, a.streamFilePath, 0) == 0;
    assert FirstPrefixIndex(prefixes, b.streamFilePath, 0) == 1;
  }

  /** Some selected stakeholder has key `k`. */
  ghost predicate StakeholderKeyed(stakeholders: seq<StakeholderDecl>, selected: seq<string>, k: string)
  {
    exists i :: 0 <= i < |stakeholders| && stakeholders[i].processInstance in selected && StakeholderKey(stakeholders[i]) == k
  }

  /** Some attached artifact has key `k`. */
  ghost predicate ArtifactKeyed(prefixes: OMap<string, string>, artifacts: seq<ArtifactDecl>, selected: seq<string>, k: string)
    requires prefixes.Valid()
  {
    exists i :: 0 <= i < |artifacts| && Attached(prefixes, artifacts[i], selected).Some? && ArtifactKey(artifacts[i]) == k
  }

  lemma StakeholderKeyedSnoc(stakeholders: seq<StakeholderDecl>, selected: seq<string>, k: string)
    requires |stakeholders| > 0
    ensures var n := |stakeholders| - 1;
      (StakeholderKeyed(stakeholders, selected, k)
       <==> (|| StakeholderKeyed(stakeholders[..n], selected, k)
             || (stakeholders[n].processInstance in selected && StakeholderKey(stakeholders[n]) == k)))
  {
    var n := |stakeholders| - 1;
    if StakeholderKeyed(stakeholders[..n], selected, k) {
      var i :| 0 <= i < n && stakeholders[..n][i].processInstance in selected && StakeholderKey(stakeholders[..n][i]) == k;
      assert stakeholders[i] == stakeholders[..n][i];
    }
    if StakeholderKeyed(stakeholders, selected, k) {
      var i :| 0 <= i < |stakeholders| && stakeholders[i].processInstance in selected && StakeholderKey(stakeholders[i]) == k;
      if i < n {
        assert stakeholders[..n][i] == stakeholders[i];
      }
    }
  }

  lemma ArtifactKeyedSnoc(prefixes: OMap<string, string>, artifacts: seq<ArtifactDecl>, selected: seq<string>, k: string)
    requires prefixes.Valid() && |artifacts| > 0
    ensures var n := |artifacts| - 1;
      (ArtifactKeyed(prefixes, artifacts, selected, k)
       <==> (|| ArtifactKeyed(prefixes, artifacts[..n], selected, k)
             || (Attached(prefixes, artifacts[n], selected).Some? && ArtifactKey(artifacts[n]) == k)))
  {
    ArtifactKeyedGrow(prefixes, artifacts, selected, k);
    ArtifactKeyedShrink(prefixes, artifacts, selected, k);
  }

  lemma ArtifactKeyedGrow(prefixes: OMap<string, string>, artifacts: seq<ArtifactDecl>, selected: seq<string>, k: string)
    requires prefixes.Valid() && |artifacts| > 0
    ensures var n := |artifacts| - 1;
      (|| ArtifactKeyed(prefixes, artifacts[..n], selected, k)
       || (Attached(prefixes, artifacts[n], selected).Some? && ArtifactKey(artifacts[n]) == k))
      ==> ArtifactKeyed(prefixes, artifacts, selected, k)
  {
    var n := |artifacts| - 1;
    if ArtifactKeyed(prefixes, artifacts[..n], selected, k) {
      var i :| 0 <= i < n && Attached(prefixes, artifacts[..n][i], selected).Some? && ArtifactKey(artifacts[..n][i]) == k;
      assert artifacts[i] == artifacts[..n][i];
    }
  }

  lemma ArtifactKeyedShrink(prefixes: OMap<string, string>, artifacts: seq<ArtifactDecl>, selected: seq<string>, k: string)
    requires prefixes.Valid() && |artifacts| > 0
    ensures var n := |artifacts| - 1;
      ArtifactKeyed(prefixes, artifacts, selected, k)
      ==> (|| ArtifactKeyed(prefixes, artifacts[..n], selected, k)
           || (Attached(prefixes, artifacts[n], selected).Some? && ArtifactKey(artifacts[n]) == k))
  {
    var n := |artifacts| - 1;
    if ArtifactKeyed(prefixes, artifacts, selected, k) {
      var i :| 0 <= i < |artifacts| && Attached(prefixes, artifacts[i], selected).Some? && ArtifactKey(artifacts[i]) == k;
      if i < n {
        assert artifacts[..n][i] == artifacts[i];
        assert ArtifactKeyed(prefixes, artifacts[..n], selected, k);
      }
    }
  }

  /** The stakeholder loop creates exactly the keys of the selected stakeholders. */
  lemma {:induction false} StakeholderKeys(st: SetupState, stakeholders: seq<StakeholderDecl>, selected: seq<string>, k: string)
    requires st.Valid()
    ensures k in AddStakeholders(st, stakeholders, selected).entities.vals
        <==> (k in st.entities.vals || StakeholderKeyed(stakeholders, selected, k))
    decreases |stakeholders|
  {
    if |stakeholders| > 0 {
      StakeholderKeys(st, stakeholders[..|stakeholders| - 1], selected, k);
      StakeholderKeyedSnoc(stakeholders, selected, k);
    }
  }

  /** The artifact loop creates exactly the keys of the attached artifacts. */
  lemma {:induction false} ArtifactKeys(st: SetupState, artifacts: seq<ArtifactDecl>, selected: seq<string>, k: string)
    requires st.Valid()
    ensures k in AddArtifacts(st, artifacts, selected).entities.vals
        <==> (k in st.entities.vals || ArtifactKeyed(st.prefixes, artifacts, selected, k))
    decreases |artifacts|
  {
    if |artifacts| > 0 {
      var n := |artifacts| - 1;
      ArtifactKeys(st, artifacts[..n], selected, k);
      ArtifactsKeepPrefixes(st, artifacts[..n], selected);
      ArtifactKeyedSnoc(st.prefixes, artifacts, selected, k);
    }
  }

  /**
   * A repeated key is overwritten without error: the entity under a stakeholder key is the one
   * from the last selected stakeholder with that key, and its event list is reset to empty.
   */
  lemma {:induction false} StakeholderLastWriteWins(st: SetupState, stakeholders: seq<StakeholderDecl>, selected: seq<string>, i: nat)
    requires st.Valid()
    requires i < |stakeholders| && stakeholders[i].processInstance in selected
    requires forall j :: i < j < |stakeholders| && stakeholders[j].processInstance in selected
               ==> StakeholderKey(stakeholders[j]) != StakeholderKey(stakeholders[i])
    ensures var r := AddStakeholders(st, stakeholders, selected);
      && StakeholderKey(stakeholders[i]) in r.entities.vals
      && r.entities.vals[StakeholderKey(stakeholders[i])] == StakeholderEntity(stakeholders[i])
      && r.events.vals[StakeholderKey(stakeholders[i])] == []
    decreases |stakeholders|
  {
    var n := |stakeholders| - 1;
    var front := AddStakeholders(st, stakeholders[..n], selected);
    var key := StakeholderKey(stakeholders[i]);
    assert AddStakeholders(st, stakeholders, selected) == AddStakeholder(front, stakeholders[n], selected);
    if i < n {
      assert key in front.entities.vals && front.entities.vals[key] == StakeholderEntity(stakeholders[i])
             && front.events.vals[key] == [] by {
        forall j | i < j < n && stakeholders[..n][j].processInstance in selected
          ensures StakeholderKey(stakeholders[..n][j]) != StakeholderKey(stakeholders[..n][i])
        {
          assert stakeholders[..n][j] == stakeholders[j];
        }
        StakeholderLastWriteWins(st, stakeholders[..n], selected, i);
        assert stakeholders[..n][i] == stakeholders[i];
      }
      assert stakeholders[n].processInstance in selected ==> StakeholderKey(stakeholders[n]) != key;
    }
  }

  /** The same for artifacts: the last attached artifact with a key wins, with an empty list. */
  lemma {:induction false} ArtifactLastWriteWins(st: SetupState, artifacts: seq<ArtifactDecl>, selected: seq<string>, i: nat)
    requires st.Valid()
    requires i < |artifacts| && Attached(st.prefixes, artifacts[i], selected).Some?
    requires forall j :: i < j < |artifacts| && Attached(st.prefixes, artifacts[j], selected).Some?
               ==> ArtifactKey(artifacts[j]) != ArtifactKey(artifacts[i])
    ensures var r := AddArtifacts(st, artifacts, selected);
      && ArtifactKey(artifacts[i]) in r.entities.vals
      && r.entities.vals[ArtifactKey(artifacts[i])]
           == ArtifactEntity(artifacts[i], Attached(st.prefixes, artifacts[i], selected).value)
      && r.events.vals[ArtifactKey(artifacts[i])] == []
    decreases |artifacts|
  {
    var n := |artifacts| - 1;
    var front := AddArtifacts(st, artifacts[..n], selected);
    ArtifactsKeepPrefixes(st, artifacts[..n], selected);
    if i < n {
      forall j | i < j < n && Attached(st.prefixes, artifacts[..n][j], selected).Some?
        ensures ArtifactKey(artifacts[..n][j]) != ArtifactKey(artifacts[..n][i])
      {
        assert artifacts[..n][j] == artifacts[j];
      }
      ArtifactLastWriteWins(st, artifacts[..n], selected, i);
      assert artifacts[..n][i] == artifacts[i];
      AddArtifactElsewhere(front, artifacts[n], selected, ArtifactKey(artifacts[i]));
    } else {
      AddArtifactHere(front, artifacts[n], selected);
    }
  }

  /** An artifact attached under another key leaves the entry at `key` as it was. */
  lemma AddArtifactElsewhere(st: SetupState, a: ArtifactDecl, selected: seq<string>, key: string)
    requires st.Valid() && key in st.entities.vals
    requires Attached(st.prefixes, a, selected).Some? ==> ArtifactKey(a) != key
    ensures var r := AddArtifact(st, a, selected);
      key in r.entities.vals && r.entities.vals[key] == st.entities.vals[key] && r.events.vals[key] == st.events.vals[key]
  {
  }

  /** An attached artifact is entered under its key with an empty event list. */
  lemma AddArtifactHere(st: SetupState, a: ArtifactDecl, selected: seq<string>)
    requires st.Valid() && Attached(st.prefixes, a, selected).Some?
    ensures var r := AddArtifact(st, a, selected);
      && ArtifactKey(a) in r.entities.vals
      && r.entities.vals[ArtifactKey(a)] == ArtifactEntity(a, Attached(st.prefixes, a, selected).value)
      && r.events.vals[ArtifactKey(a)] == []
  {
  }

  /** The stakeholder loop leaves the entry at a key no selected stakeholder has as it was. */
  lemma {:induction false} StakeholdersElsewhere(st: SetupState, stakeholders: seq<StakeholderDecl>, selected: seq<string>, k: string)
    requires st.Valid() && k in st.entities.vals
    requires !StakeholderKeyed(stakeholders, selected, k)
    ensures var r := AddStakeholders(st, stakeholders, selected);
      k in r.entities.vals && r.entities.vals[k] == st.entities.vals[k] && r.events.vals[k] == st.events.vals[k]
    decreases |stakeholders|
  {
    if |stakeholders| > 0 {
      var n := |stakeholders| - 1;
      StakeholderKeyedSnoc(stakeholders, selected, k);
      StakeholdersElsewhere(st, stakeholders[..n], selected, k);
    }
  }

  /** The artifact loop leaves the entry at a key no attached artifact has as it was. */
  lemma {:induction false} ArtifactsElsewhere(st: SetupState, artifacts: seq<ArtifactDecl>, selected: seq<string>, k: string)
    requires st.Valid() && k in st.entities.vals
    requires !ArtifactKeyed(st.prefixes, artifacts, selected, k)
    ensures var r := AddArtifacts(st, artifacts, selected);
      k in r.entities.vals && r.entities.vals[k] == st.entities.vals[k] && r.events.vals[k] == st.events.vals[k]
    decreases |artifacts|
  {
    if |artifacts| > 0 {
      var n := |artifacts| - 1;
      ArtifactKeyedSnoc(st.prefixes, artifacts, selected, k);
      ArtifactsElsewhere(st, artifacts[..n], selected, k);
      ArtifactsKeepPrefixes(st, artifacts[..n], selected);
      AddArtifactElsewhere(AddArtifacts(st, artifacts[..n], selected), artifacts[n], selected, k);
    }
  }

  /**
   * After the whole of `setupEntities`, a selected stakeholder that no later selected stakeholder
   * and no attached artifact shares a key with is under `name/instance` with its own entity and
   * an empty event list.
   */
  lemma SetupStakeholderEntity(entities: OMap<string, Entity>, events: OMap<string, seq<Event>>,
                               config: Configuration, selected: seq<string>, i: nat)
    requires entities.Valid() && events.Valid() && entities.keys == events.keys
    requires i < |config.stakeholders| && config.stakeholders[i].processInstance in selected
    requires forall j :: i < j < |config.stakeholders| && config.stakeholders[j].processInstance in selected
               ==> StakeholderKey(config.stakeholders[j]) != StakeholderKey(config.stakeholders[i])
    requires !ArtifactKeyed(AddStakeholders(SetupState(entities, events, Empty()), config.stakeholders, selected).prefixes,
                            config.artifacts, selected, StakeholderKey(config.stakeholders[i]))
    ensures var r := Setup(entities, events, config, selected);
      && StakeholderKey(config.stakeholders[i]) in r.entities.vals
      && r.entities.vals[StakeholderKey(config.stakeholders[i])] == StakeholderEntity(config.stakeholders[i])
      && r.events.vals[StakeholderKey(config.stakeholders[i])] == []
  {
    var st := AddStakeholders(SetupState(entities, events, Empty()), config.stakeholders, selected);
    StakeholderLastWriteWins(SetupState(entities, events, Empty()), config.stakeholders, selected, i);
    ArtifactsElsewhere(st, config.artifacts, selected, StakeholderKey(config.stakeholders[i]));
  }

  /**
   * `setupEntities` creates exactly the keys of the selected stakeholders and of the artifacts
   * attached through the prefixes the stakeholders recorded, besides the keys it started with.
   */
  lemma SetupKeys(entities: OMap<string, Entity>, events: OMap<string, seq<Event>>,
                  config: Configuration, selected: seq<string>, k: string)
    requires entities.Valid() && events.Valid() && entities.keys == events.keys
    ensures var st := AddStakeholders(SetupState(entities, events, Empty()), config.stakeholders, selected);
      (k in Setup(entities, events, config, selected).entities.vals
       <==> (|| k in entities.vals
             || StakeholderKeyed(config.stakeholders, selected, k)
             || ArtifactKeyed(st.prefixes, config.artifacts, selected, k)))
  {
    var st0 := SetupState(entities, events, Empty());
    StakeholderKeys(st0, config.stakeholders, selected, k);
    ArtifactKeys(AddStakeholders(st0, config.stakeholders, selected), config.artifacts, selected, k);
  }

  /** Only which instances are selected matters, not their order or repetition. */
  lemma {:induction false} StakeholdersSelectedSet(st: SetupState, stakeholders: seq<StakeholderDecl>, s1: seq<string>, s2: seq<string>)
    requires st.Valid()
    requires forall x :: x in s1 <==> x in s2
    ensures AddStakeholders(st, stakeholders, s1) == AddStakeholders(st, stakeholders, s2)
    decreases |stakeholders|
  {
    if |stakeholders| > 0 {
      StakeholdersSelectedSet(st, stakeholders[..|stakeholders| - 1], s1, s2);
    }
  }

  lemma {:induction false} ArtifactsSelectedSet(st: SetupState, artifacts: seq<ArtifactDecl>, s1: seq<string>, s2: seq<string>)
    requires st.Valid()
    requires forall x :: x in s1 <==> x in s2
    ensures AddArtifacts(st, artifacts, s1) == AddArtifacts(st, artifacts, s2)
    decreases |artifacts|
  {
    if |artifacts| > 0 {
      ArtifactsSelectedSet(st, artifacts[..|artifacts| - 1], s1, s2);
    }
  }

  lemma SetupSelectedSet(entities: OMap<string, Entity>, events: OMap<string, seq<Event>>,
                         config: Configuration, s1: seq<string>, s2: seq<string>)
    requires entities.Valid() && events.Valid() && entities.keys == events.keys
    requires forall x :: x in s1 <==> x in s2
    ensures Setup(entities, events, config, s1) == Setup(entities, events, config, s2)
  {
    var st := SetupState(entities, events, Empty());
    StakeholdersSelectedSet(st, config.stakeholders, s1, s2);
    ArtifactsSelectedSet(AddStakeholders(st, config.stakeholders, s1), config.artifacts, s1, s2);
  }
}
