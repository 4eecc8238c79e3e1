/**
 * The emulator's driver. Its global state is the selected process instances, the entity map, the
 * event map and the timers registered so far. The phases run in this order:
 * - the command line selects instances;
 * - the configuration yields entities;
 * - the brokers are registered with the connector;
 * - every entity's stream file is read into its event list;
 * - every event becomes a timer that publishes it when it fires.
 */
module Emulator {
  import opened Wrappers
  import opened JsStrings
  import opened OrderedMaps
  import opened Config
  import opened StreamParser
  import opened Selection
  import opened FilePattern
  import opened Topology
  import opened Dispatch
  import opened MqttConnector

  /** What every client id starts with; the rest is a random suffix given by the caller. */
  const ClientIdPrefix := "emulator-"

  /** `[...new Set(xs)]`, built the way a `Set` is filled: in order, skipping what is already in. */
  method DistinctInOrder(xs: seq<string>) returns (r: seq<string>)
    ensures r == Dedup(xs)
  {
    r := [];
    var seen: set<string> := {};
    for k := 0 to |xs|
      invariant r == Dedup(xs[..k])
      invariant forall x :: x in seen <==> x in r
    {
      assert xs[..k + 1][..k] == xs[..k];
      if xs[k] !in seen {
        r := r + [xs[k]];
        seen := seen + {xs[k]};
      }
    }
    assert xs[..|xs|] == xs;
  }

  /** The registry after the broker loop of `setupBrokers`, each broker with its own client id suffix. */
  function BrokersAfter(brokers: map<string, Connection>, decls: seq<BrokerDecl>, suffixes: seq<string>)
    : map<string, Connection>
    requires |suffixes| == |decls|
  {
    if |decls| == 0 then brokers
    else
      var n := |decls| - 1;
      WithConnection(BrokersAfter(brokers, decls[..n], suffixes[..n]), BrokerConnection(decls[n], suffixes[n]))
  }

  function BrokerConnection(d: BrokerDecl, suffix: string): Connection
  {
    Connection(d.host, d.port, d.user, d.password, ClientIdPrefix + suffix)
  }

  /** `setupBrokers()`: one `createConnection` per declared broker, in order. */
  method SetupBrokers(connector: Connector<Message>, decls: seq<BrokerDecl>, suffixes: seq<string>)
    requires |suffixes| == |decls|
    modifies connector
    ensures connector.brokers == BrokersAfter(old(connector.brokers), decls, suffixes)
    ensures connector.calls == old(connector.calls) && connector.onReceived == old(connector.onReceived)
  {
    for k := 0 to |decls|
      invariant connector.brokers == BrokersAfter(old(connector.brokers), decls[..k], suffixes[..k])
      invariant connector.calls == old(connector.calls) && connector.onReceived == old(connector.onReceived)
    {
      assert decls[..k + 1][..k] == decls[..k];
      assert suffixes[..k + 1][..k] == suffixes[..k];
      var d := decls[k];
      var _ := connector.CreateConnection(d.host, d.port, d.user, d.password, ClientIdPrefix + suffixes[k]);
    }
    assert decls[..|decls|] == decls;
    assert suffixes[..|suffixes|] == suffixes;
  }

  /** One entity's list after `readStreamFiles()`: extended by its file's events when the file is readable. */
  function ReadList(entities: OMap<string, Entity>, files: map<string, string>, key: string, list: seq<Event>)
    : seq<Event>
  {
    if key in entities.vals && entities.vals[key].file in files
    then list + StreamEvents(files[entities.vals[key].file])
    else list
  }

  /**
   * The event map after `readStreamFiles()`. `files` maps a path to its text and lacks the paths
   * that cannot be read; such an entity keeps its list as it was.
   */
  function ReadEvents(entities: OMap<string, Entity>, events: OMap<string, seq<Event>>, files: map<string, string>)
    : OMap<string, seq<Event>>
  {
    OMap(events.keys, map k | k in events.vals :: ReadList(entities, files, k, events.vals[k]))
  }

  class Emulator {
    var selectedInstances: seq<string>
    var entities: OMap<string, Entity>
    var events: OMap<string, seq<Event>>
    /** The `setTimeout` registrations made so far, in order. */
    var timers: seq<Task>

    /** Both maps are well formed over the same keys, and every timer names an entity. */
    ghost predicate Valid()
      reads this
    {
      && entities.Valid() && events.Valid() && entities.keys == events.keys
      && forall t :: t in timers ==> t.entityKey in entities.vals
    }

    /** The globals as the program starts. */
    constructor ()
      ensures Valid()
      ensures selectedInstances == [] && entities == Empty() && events == Empty() && timers == []
    {
      selectedInstances := [];
      entities := Empty();
      events := Empty();
      timers := [];
    }

    /**
     * `parseCommandLineArgs()`: the selection `Selection` describes, or the usage error the
     * program exits with.
     */
    method ParseCommandLineArgs(argv: seq<string>, stakeholders: seq<StakeholderDecl>) returns (r: Outcome<UsageError>)
      modifies this
      ensures Selection.Selection(argv, stakeholders, old(selectedInstances)).Failure? ==>
        r == Fail(Selection.Selection(argv, stakeholders, old(selectedInstances)).error)
        && selectedInstances == old(selectedInstances)
      ensures Selection.Selection(argv, stakeholders, old(selectedInstances)).Success? ==>
        r == Pass && selectedInstances == Selection.Selection(argv, stakeholders, old(selectedInstances)).value
      ensures entities == old(entities) && events == old(events) && timers == old(timers)
    {
      if |argv| < 3 {
        return Fail(MissingConfigFile);
      }
      var instances := selectedInstances;
      var types: seq<string> := [];
      var i := 3;
      while i < |argv|
        invariant 3 <= i <= |argv|
        invariant ScanFlags(argv, i, Filters(instances, types)) == ScanFlags(argv, 3, Filters(selectedInstances, []))
        decreases |argv| - i
      {
        if argv[i] == TypeFlag {
          if |instances| > 0 {
            return Fail(ConflictingFilters);
          }
          if Captures(argv, i) {
            types := Split(argv[i + 1], ',');
            i := i + 2;
          } else {
            i := i + 1;
          }
        } else if argv[i] == InstanceFlag {
          if |types| > 0 {
            return Fail(ConflictingFilters);
          }
          if Captures(argv, i) {
            instances := Split(argv[i + 1], ',');
            i := i + 2;
          } else {
            i := i + 1;
          }
        } else {
          i := i + 1;
        }
      }
      ghost var scanned := instances;
      if |types| > 0 {
        for k := 0 to |stakeholders|
          invariant instances == scanned + TypeInstances(stakeholders[..k], types)
        {
          assert stakeholders[..k + 1][..k] == stakeholders[..k];
          var parts := Split(stakeholders[k].streamFilePath, '/');
          if |parts| >= 2 && parts[1] in types {
            instances := instances + [stakeholders[k].processInstance];
          }
        }
        assert stakeholders[..|stakeholders|] == stakeholders;
      }
      if |instances| == 0 && |types| == 0 {
        for k := 0 to |stakeholders|
          invariant instances == AllInstances(stakeholders[..k])
        {
          instances := instances + [stakeholders[k].processInstance];
        }
        assert stakeholders[..|stakeholders|] == stakeholders;
      }
      selectedInstances := DistinctInOrder(instances);
      r := Pass;
    }

    /** `setupEntities()`: the stakeholder loop, then the artifact loop, as `Setup` describes. */
    method SetupEntities(config: Configuration)
      requires Valid()
      modifies this
      ensures Valid()
      ensures SetupState(entities, events, Setup(old(entities), old(events), config, selectedInstances).prefixes)
              == Setup(old(entities), old(events), config, selectedInstances)
      ensures selectedInstances == old(selectedInstances) && timers == old(timers)
    {
      var prefixes := SetupStakeholders(config.stakeholders);
      SetupArtifacts(config.artifacts, prefixes);
    }

    /** The stakeholder loop of `setupEntities()`, returning the prefix map it fills. */
    method SetupStakeholders(stakeholders: seq<StakeholderDecl>) returns (prefixes: OMap<string, string>)
      requires Valid()
      modifies this
      ensures Valid()
      ensures SetupState(entities, events, prefixes)
              == AddStakeholders(SetupState(old(entities), old(events), Empty()), stakeholders, selectedInstances)
      ensures selectedInstances == old(selectedInstances) && timers == old(timers)
    {
      prefixes := Empty();
      ghost var start := SetupState(entities, events, prefixes);
      for k := 0 to |stakeholders|
        invariant SetupState(entities, events, prefixes) == AddStakeholders(start, stakeholders[..k], selectedInstances)
        invariant forall t :: t in timers ==> t.entityKey in entities.vals
        invariant selectedInstances == old(selectedInstances) && timers == old(timers)
      {
        assert stakeholders[..k + 1][..k] == stakeholders[..k];
        var s := stakeholders[k];
        if s.processInstance in selectedInstances {
          var key := s.name + "/" + s.processInstance;
          entities := Put(entities, key, StakeholderEntity(s));
          events := Put(events, key, []);
          match InstancePrefix(s.streamFilePath) {
            case Some(prefix) => prefixes := Put(prefixes, s.processInstance, prefix);
            case None =>
          }
        }
      }
      assert stakeholders[..|stakeholders|] == stakeholders;
    }

    /** The artifact loop of `setupEntities()`, matching paths against the stakeholders' prefixes. */
    method SetupArtifacts(artifacts: seq<ArtifactDecl>, prefixes: OMap<string, string>)
      requires Valid() && prefixes.Valid()
      modifies this
      ensures Valid()
      ensures SetupState(entities, events, prefixes)
              == AddArtifacts(SetupState(old(entities), old(events), prefixes), artifacts, selectedInstances)
      ensures selectedInstances == old(selectedInstances) && timers == old(timers)
    {
      ghost var start := SetupState(entities, events, prefixes);
      for k := 0 to |artifacts|
        invariant Valid()
        invariant SetupState(entities, events, prefixes) == AddArtifacts(start, artifacts[..k], selectedInstances)
        invariant selectedInstances == old(selectedInstances) && timers == old(timers)
      {
        assert artifacts[..k + 1][..k] == artifacts[..k];
        ArtifactsKeepPrefixes(start, artifacts[..k], selectedInstances);
        AddArtifactEntity(artifacts[k], prefixes);
      }
      assert artifacts[..|artifacts|] == artifacts;
    }

    /** `readStreamFiles()`: each entity, in map order, appends the events of its stream file. */
    method ReadStreamFiles(files: map<string, string>)
      requires Valid()
      modifies this
      ensures Valid()
      ensures events == ReadEvents(entities, old(events), files)
      ensures entities == old(entities) && selectedInstances == old(selectedInstances) && timers == old(timers)
    {
      events := ReadAll(entities, events, files);
      ReadAllEntities(entities, old(events), files);
    }

    /** `setupEvents()`: one timer per event, entities in map order; answers how many were registered. */
    method SetupEvents() returns (total: nat)
      requires Valid()
      modifies this
      ensures Valid()
      ensures timers == old(timers) + Schedule(events.keys, events.vals)
      ensures total == TotalEvents(events.keys, events.vals)
      ensures entities == old(entities) && events == old(events) && selectedInstances == old(selectedInstances)
    {
      var registered;
      registered, total := ScheduleLists(events.keys, events.vals);
      ScheduleDelays(events.keys, events.vals);
      timers := timers + registered;
    }

    /**
     * A timer firing at clock `nowMs`: the entity's message is published on its topic through the
     * connection of the entity's endpoint, or dropped when that endpoint has none.
     */
    method FireTimer(task: Task, nowMs: nat, connector: Connector<Message>)
      requires Valid() && task in timers
      modifies connector
      ensures var entity := entities.vals[task.entityKey];
        var key := EndpointKey(entity.host, entity.port);
        && (key in connector.brokers ==>
              connector.calls == old(connector.calls)
                + [Publish(connector.brokers[key], Topic(task.entityKey, entity),
                           Message(PayloadData(entity, task.event, nowMs)))])
        && (key !in connector.brokers ==> connector.calls == old(connector.calls))
      ensures connector.brokers == old(connector.brokers) && connector.onReceived == old(connector.onReceived)
    {
      var entity := entities.vals[task.entityKey];
      var topic := if entity.Artifact? then task.entityKey + "/status" else task.entityKey;
      var payloadData := BuildPayloadData(entity, task.event, nowMs);
      connector.PublishTopic(entity.host, entity.port, topic, Message(payloadData));
    }

    /** One pass of the artifact loop: attach the artifact to the first instance whose prefix fits. */
    method AddArtifactEntity(a: ArtifactDecl, prefixes: OMap<string, string>)
      requires Valid() && prefixes.Valid()
      modifies this
      ensures Valid()
      ensures SetupState(entities, events, prefixes)
              == AddArtifact(SetupState(old(entities), old(events), prefixes), a, selectedInstances)
      ensures selectedInstances == old(selectedInstances) && timers == old(timers)
    {
      var matched := FindInstance(prefixes, a.streamFilePath);
      if matched.Some? && matched.value != "" && matched.value in selectedInstances {
        var key := a.name + "/" + a.id;
        entities := Put(entities, key, ArtifactEntity(a, matched.value));
        events := Put(events, key, []);
      }
    }
  }

  /** The `forEach` over the entities in `readStreamFiles()`, extending each entity's list in place. */
  method ReadAll(entities: OMap<string, Entity>, events: OMap<string, seq<Event>>, files: map<string, string>)
    returns (lists: OMap<string, seq<Event>>)
    requires events.Valid()
    ensures lists == ReadKeys(entities, files, entities.keys, events)
  {
    lists := events;
    var keys := entities.keys;
    for i := 0 to |keys|
      invariant lists == ReadKeys(entities, files, keys[..i], events)
    {
      ReadKeysSnoc(entities, files, keys, i, events);
      lists := ReadEntity(entities, files, keys[i], lists);
    }
    assert keys[..|keys|] == keys;
  }

  lemma ReadKeysSnoc(entities: OMap<string, Entity>, files: map<string, string>, keys: seq<string>, i: nat,
                     events: OMap<string, seq<Event>>)
    requires events.Valid() && i < |keys|
    ensures ReadKeys(entities, files, keys[..i + 1], events)
            == ReadOne(entities, files, keys[i], ReadKeys(entities, files, keys[..i], events))
  {
    assert keys[..i + 1][..i] == keys[..i];
  }

  /** The callback of that `forEach` for one entity: its file's events are pushed onto its list. */
  method ReadEntity(entities: OMap<string, Entity>, files: map<string, string>, key: string,
                    lists: OMap<string, seq<Event>>) returns (r: OMap<string, seq<Event>>)
    requires lists.Valid()
    ensures r == ReadOne(entities, files, key, lists)
  {
    r := lists;
    if key in lists.vals && key in entities.vals {
      var entity := entities.vals[key];
      if entity.file in files {
        var parsed := ParseStream(files[entity.file]);
        r := Put(lists, key, lists.vals[key] + parsed);
      }
    }
  }

  /** One entity's turn in `readStreamFiles()`. */
  function ReadOne(entities: OMap<string, Entity>, files: map<string, string>, key: string,
                   lists: OMap<string, seq<Event>>): (r: OMap<string, seq<Event>>)
    requires lists.Valid()
    ensures r.Valid() && r.keys == lists.keys
  {
    if key in lists.vals then Put(lists, key, ReadList(entities, files, key, lists.vals[key])) else lists
  }

  /** The entities' turns in the order of `keys`. */
  function ReadKeys(entities: OMap<string, Entity>, files: map<string, string>, keys: seq<string>,
                    lists: OMap<string, seq<Event>>): (r: OMap<string, seq<Event>>)
    requires lists.Valid()
    ensures r.Valid() && r.keys == lists.keys
  {
    if |keys| == 0 then lists
    else ReadOne(entities, files, keys[|keys| - 1], ReadKeys(entities, files, keys[..|keys| - 1], lists))
  }

  /** The event lists once the entities listed in `done` have been read. */
  function ReadUpTo(entities: OMap<string, Entity>, events: OMap<string, seq<Event>>, files: map<string, string>,
                    done: seq<string>): map<string, seq<Event>>
  {
    map k | k in events.vals :: if k in done then ReadList(entities, files, k, events.vals[k]) else events.vals[k]
  }

  lemma ReadUpToStep(entities: OMap<string, Entity>, events: OMap<string, seq<Event>>, files: map<string, string>,
                     done: seq<string>, key: string)
    requires events.Valid() && key in events.keys && key !in done
    ensures ReadUpTo(entities, events, files, done + [key])
            == ReadUpTo(entities, events, files, done)[key := ReadList(entities, files, key, events.vals[key])]
  {
  }

  /** One more entity's turn, for an entity not read before. */
  lemma ReadOneUpTo(entities: OMap<string, Entity>, events: OMap<string, seq<Event>>, files: map<string, string>,
                    done: seq<string>, key: string, front: OMap<string, seq<Event>>)
    requires events.Valid() && front.Valid() && front.keys == events.keys
    requires front.vals == ReadUpTo(entities, events, files, done) && key !in done
    ensures ReadOne(entities, files, key, front).vals == ReadUpTo(entities, events, files, done + [key])
  {
    if key in events.vals {
      assert front.vals[key] == events.vals[key];
      ReadUpToStep(entities, events, files, done, key);
    } else {
      assert ReadUpTo(entities, events, files, done + [key]) == ReadUpTo(entities, events, files, done);
    }
  }

  /** Reading the entities of distinct keys one after another reads each of them once. */
  lemma {:induction false} ReadKeysUpTo(entities: OMap<string, Entity>, events: OMap<string, seq<Event>>,
                                        files: map<string, string>, keys: seq<string>)
    requires events.Valid()
    requires forall i, j :: 0 <= i < j < |keys| ==> keys[i] != keys[j]
    ensures ReadKeys(entities, files, keys, events).vals == ReadUpTo(entities, events, files, keys)
    decreases |keys|
  {
    if |keys| > 0 {
      var n := |keys| - 1;
      ReadKeysUpTo(entities, events, files, keys[..n]);
      assert keys == keys[..n] + [keys[n]];
      assert keys[n] !in keys[..n];
      ReadOneUpTo(entities, events, files, keys[..n], keys[n], ReadKeys(entities, files, keys[..n], events));
    }
  }

  /** `readStreamFiles()` over the entity map reads every entity exactly once, as `ReadEvents` says. */
  lemma ReadAllEntities(entities: OMap<string, Entity>, events: OMap<string, seq<Event>>, files: map<string, string>)
    requires entities.Valid() && events.Valid() && entities.keys == events.keys
    ensures ReadKeys(entities, files, entities.keys, events) == ReadEvents(entities, events, files)
  {
    ReadKeysUpTo(entities, events, files, entities.keys);
  }

  /** The two `forEach` loops of `setupEvents()`: the timers they register and how many. */
  method ScheduleLists(keys: seq<string>, lists: map<string, seq<Event>>) returns (registered: seq<Task>, total: nat)
    requires forall k :: k in keys ==> k in lists
    ensures registered == Schedule(keys, lists)
    ensures total == TotalEvents(keys, lists)
  {
    registered := [];
    total := 0;
    for i := 0 to |keys|
      invariant forall k :: k in keys[..i] ==> k in lists
      invariant registered == Schedule(keys[..i], lists)
      invariant total == TotalEvents(keys[..i], lists)
    {
      assert keys[..i + 1] == keys[..i] + [keys[i]];
      var tasks := ListTimers(keys[i], lists[keys[i]]);
      registered := registered + tasks;
      total := total + |tasks|;
    }
    assert keys[..|keys|] == keys;
  }

  /** The inner `forEach` of `setupEvents()`: one timer per event of one list, in order. */
  method ListTimers(key: string, list: seq<Event>) returns (tasks: seq<Task>)
    ensures tasks == ListTasks(key, list)
  {
    tasks := [];
    for j := 0 to |list|
      invariant tasks == ListTasks(key, list[..j])
    {
      assert list[..j + 1][..j] == list[..j];
      tasks := tasks + [Task(list[j].time, key, list[j])];
    }
    assert list[..|list|] == list;
  }

  /** The `for ... of instancePrefixMap.entries()` search, stopping at the first prefix that fits. */
  method FindInstance(prefixes: OMap<string, string>, path: string) returns (matched: Option<string>)
    requires prefixes.Valid()
    ensures matched == MatchedInstance(prefixes, path)
  {
    matched := None;
    var j := 0;
    while j < |prefixes.keys| && matched.None?
      invariant 0 <= j <= |prefixes.keys|
      invariant matched.None? ==> FirstPrefixIndex(prefixes, path, j) == FirstPrefixIndex(prefixes, path, 0)
      invariant matched.Some? ==> matched == MatchedInstance(prefixes, path)
      decreases |prefixes.keys| - j, if matched.None? then 1 else 0
    {
      var instance := prefixes.keys[j];
      if StartsWith(path, prefixes.vals[instance]) {
        matched := Some(instance);
      } else {
        j := j + 1;
      }
    }
  }

  /**
   * `main()` once the configuration is loaded: select instances, set up the entities, await the
   * creation of the process instances, register the brokers, read the stream files and schedule
   * the events. A usage error ends the run before anything is set up. `exchanged` says whether the
   * awaited creation resolved; when it rejects, `main`'s `catch` only logs, and when it never
   * settles `main` waits for ever, so either way nothing after the entities is set up.
   * `scheduled` is the number of timers registered.
   */
  method Run(emulator: Emulator, connector: Connector<Message>, argv: seq<string>, config: Configuration,
             exchanged: bool, files: map<string, string>, suffixes: seq<string>)
    returns (r: Outcome<UsageError>, scheduled: nat)
    requires emulator.Valid() && |suffixes| == |config.brokers|
    modifies emulator, connector
    ensures emulator.Valid()
    ensures Selection.Selection(argv, config.stakeholders, old(emulator.selectedInstances)).Failure? ==>
      && r == Fail(Selection.Selection(argv, config.stakeholders, old(emulator.selectedInstances)).error)
      && emulator.entities == old(emulator.entities) && emulator.events == old(emulator.events)
      && emulator.timers == old(emulator.timers) && connector.brokers == old(connector.brokers)
    ensures Selection.Selection(argv, config.stakeholders, old(emulator.selectedInstances)).Success? ==>
      var selected := Selection.Selection(argv, config.stakeholders, old(emulator.selectedInstances)).value;
      var st := Setup(old(emulator.entities), old(emulator.events), config, selected);
      && r == Pass && emulator.selectedInstances == selected
      && emulator.entities == st.entities
      && (!exchanged ==>
            && emulator.events == st.events && emulator.timers == old(emulator.timers) && scheduled == 0
            && connector.brokers == old(connector.brokers))
      && (exchanged ==>
            && emulator.events == ReadEvents(st.entities, st.events, files)
            && emulator.timers == old(emulator.timers) + Schedule(emulator.events.keys, emulator.events.vals)
            && scheduled == TotalEvents(emulator.events.keys, emulator.events.vals)
            && connector.brokers == BrokersAfter(old(connector.brokers), config.brokers, suffixes))
    ensures connector.calls == old(connector.calls) && connector.onReceived == old(connector.onReceived)
  {
    r := emulator.ParseCommandLineArgs(argv, config.stakeholders);
    if r.Fail? {
      return r, 0;
    }
    emulator.SetupEntities(config);
    if !exchanged {
      return Pass, 0;
    }
    SetupBrokers(connector, config.brokers, suffixes);
    emulator.ReadStreamFiles(files);
    scheduled := emulator.SetupEvents();
  }

  /** The broker loop creates exactly the declared endpoints, besides those registered before. */
  lemma {:induction false} BrokersKeys(brokers: map<string, Connection>, decls: seq<BrokerDecl>, suffixes: seq<string>,
                                       key: string)
    requires |suffixes| == |decls|
    ensures key in BrokersAfter(brokers, decls, suffixes)
            <==> (key in brokers || exists i :: 0 <= i < |decls| && EndpointKey(decls[i].host, decls[i].port) == key)
    decreases |decls|
  {
    if |decls| > 0 {
      var n := |decls| - 1;
      BrokersKeys(brokers, decls[..n], suffixes[..n], key);
      if exists i :: 0 <= i < n && EndpointKey(decls[..n][i].host, decls[..n][i].port) == key {
        var i :| 0 <= i < n && EndpointKey(decls[..n][i].host, decls[..n][i].port) == key;
        assert decls[i] == decls[..n][i];
      }
      if exists i :: 0 <= i < |decls| && EndpointKey(decls[i].host, decls[i].port) == key {
        var i :| 0 <= i < |decls| && EndpointKey(decls[i].host, decls[i].port) == key;
        if i < n {
          assert decls[..n][i] == decls[i];
        }
      }
    }
  }

  /** An endpoint registered before the broker loop keeps its connection. */
  lemma {:induction false} BrokersKeepExisting(brokers: map<string, Connection>, decls: seq<BrokerDecl>,
                                               suffixes: seq<string>, key: string)
    requires |suffixes| == |decls| && key in brokers
    ensures key in BrokersAfter(brokers, decls, suffixes)
    ensures BrokersAfter(brokers, decls, suffixes)[key] == brokers[key]
    decreases |decls|
  {
    if |decls| > 0 {
      var n := |decls| - 1;
      BrokersKeepExisting(brokers, decls[..n], suffixes[..n], key);
    }
  }

  /** For a new endpoint declared more than once, the first declaration's connection is the one kept. */
  lemma {:induction false} BrokersFirstWins(brokers: map<string, Connection>, decls: seq<BrokerDecl>,
                                            suffixes: seq<string>, i: nat)
    requires |suffixes| == |decls| && i < |decls|
    requires EndpointKey(decls[i].host, decls[i].port) !in brokers
    requires forall j :: 0 <= j < i ==> EndpointKey(decls[j].host, decls[j].port) != EndpointKey(decls[i].host, decls[i].port)
    ensures EndpointKey(decls[i].host, decls[i].port) in BrokersAfter(brokers, decls, suffixes)
    ensures BrokersAfter(brokers, decls, suffixes)[EndpointKey(decls[i].host, decls[i].port)]
            == BrokerConnection(decls[i], suffixes[i])
    decreases |decls|
  {
    var n := |decls| - 1;
    var key := EndpointKey(decls[i].host, decls[i].port);
    if i < n {
      BrokersFirstWins(brokers, decls[..n], suffixes[..n], i);
    } else {
      BrokersKeys(brokers, decls[..n], suffixes[..n], key);
    }
  }

  /** A broker list whose endpoints are all registered changes nothing. */
  lemma {:induction false} BrokersAllPresent(brokers: map<string, Connection>, decls: seq<BrokerDecl>,
                                             suffixes: seq<string>)
    requires |suffixes| == |decls|
    requires forall i :: 0 <= i < |decls| ==> EndpointKey(decls[i].host, decls[i].port) in brokers
    ensures BrokersAfter(brokers, decls, suffixes) == brokers
    decreases |decls|
  {
    if |decls| > 0 {
      var n := |decls| - 1;
      BrokersAllPresent(brokers, decls[..n], suffixes[..n]);
      assert decls[..n][..] == decls[..n];
    }
  }

  /** Running the broker loop a second time, with any client ids, leaves the registry as it was. */
  lemma BrokersRerun(brokers: map<string, Connection>, decls: seq<BrokerDecl>, s1: seq<string>, s2: seq<string>)
    requires |s1| == |decls| && |s2| == |decls|
    ensures BrokersAfter(BrokersAfter(brokers, decls, s1), decls, s2) == BrokersAfter(brokers, decls, s1)
  {
    forall i | 0 <= i < |decls|
      ensures EndpointKey(decls[i].host, decls[i].port) in BrokersAfter(brokers, decls, s1)
    {
      BrokersKeys(brokers, decls, s1, EndpointKey(decls[i].host, decls[i].port));
    }
    BrokersAllPresent(BrokersAfter(brokers, decls, s1), decls, s2);
  }

  /** An entity whose file cannot be read keeps its list, and does not affect the other entities. */
  lemma UnreadableFileIsolated(entities: OMap<string, Entity>, events: OMap<string, seq<Event>>,
                               files: map<string, string>, path: string, key: string)
    requires key in events.vals && key in entities.vals
    ensures entities.vals[key].file == path ==> ReadEvents(entities, events, files - {path}).vals[key] == events.vals[key]
    ensures entities.vals[key].file != path ==>
      ReadEvents(entities, events, files - {path}).vals[key] == ReadEvents(entities, events, files).vals[key]
  {
  }

  /**
   * When every list starts empty, the timers registered for an entity carry exactly the events of
   * its stream file, in file order; none when the file cannot be read, and none for a key that is
   * no entity.
   */
  lemma EmptyListsTimers(entities: OMap<string, Entity>, events: OMap<string, seq<Event>>,
                         files: map<string, string>, key: string)
    requires entities.Valid() && events.Valid() && entities.keys == events.keys
    requires forall k :: k in events.vals ==> events.vals[k] == []
    ensures ReadEvents(entities, events, files).Valid()
    ensures var lists := ReadEvents(entities, events, files);
      EventsFor(Schedule(lists.keys, lists.vals), key)
      == if key in entities.vals && entities.vals[key].file in files
         then StreamEvents(files[entities.vals[key].file]) else []
  {
    var lists := ReadEvents(entities, events, files);
    ReadEmptyLists(entities, events, files, key);
    ScheduleExactlyOnce(lists.keys, lists.vals, key);
  }

  /** Read from empty lists, an entity's list is its file's events, or empty when it cannot be read. */
  lemma ReadEmptyLists(entities: OMap<string, Entity>, events: OMap<string, seq<Event>>,
                       files: map<string, string>, key: string)
    requires entities.Valid() && events.Valid() && entities.keys == events.keys
    requires forall k :: k in events.vals ==> events.vals[k] == []
    ensures var lists := ReadEvents(entities, events, files);
      && lists.Valid() && (forall k :: k in lists.keys ==> k in lists.vals)
      && (key in lists.keys <==> key in entities.vals)
      && (key in lists.keys ==> lists.vals[key] == if entities.vals[key].file in files
                                                  then StreamEvents(files[entities.vals[key].file]) else [])
  {
    var lists := ReadEvents(entities, events, files);
    ReadEventsValid(entities, events, files);
    if key in lists.keys {
      ReadEventsAt(entities, events, files, key);
    }
  }

  /** Reading keeps the keys and their order. */
  lemma ReadEventsValid(entities: OMap<string, Entity>, events: OMap<string, seq<Event>>, files: map<string, string>)
    requires events.Valid()
    ensures var lists := ReadEvents(entities, events, files);
      lists.Valid() && lists.keys == events.keys && lists.vals.Keys == events.vals.Keys
  {
    var lists := ReadEvents(entities, events, files);
    assert lists.vals.Keys == events.vals.Keys;
  }

  lemma ReadEventsAt(entities: OMap<string, Entity>, events: OMap<string, seq<Event>>, files: map<string, string>,
                     key: string)
    requires key in events.vals
    ensures ReadEvents(entities, events, files).vals[key] == ReadList(entities, files, key, events.vals[key])
  {
  }

  /** From the program's start, the timers of every set-up entity replay its stream file. */
  lemma FreshEntityTimers(config: Configuration, selected: seq<string>, files: map<string, string>, key: string)
    ensures var st := Setup(Empty(), Empty(), config, selected);
      ReadEvents(st.entities, st.events, files).Valid()
    ensures var st := Setup(Empty(), Empty(), config, selected);
      var lists := ReadEvents(st.entities, st.events, files);
      EventsFor(Schedule(lists.keys, lists.vals), key)
      == if key in st.entities.vals && st.entities.vals[key].file in files
         then StreamEvents(files[st.entities.vals[key].file]) else []
  {
    var st := Setup(Empty(), Empty(), config, selected);
    SetupListsEmpty(config, selected);
    EmptyListsTimers(st.entities, st.events, files, key);
  }
}
