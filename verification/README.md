# Artifact emulator, modelled in Dafny

This project models the emulator that replays recorded process data. The emulator takes an
XML configuration of MQTT brokers, stakeholders (one per process instance) and artifacts, and
selects process instances from its command line. It then sets up one entity per selected
stakeholder and per artifact that belongs to a selected instance. An artifact belongs to an
instance when its stream path starts with a prefix derived from the stakeholder's stream file
name by a regular expression. The emulator registers the brokers with its MQTT connector and
reads every entity's semicolon-separated stream file into a list of events. Each event becomes
a timer that publishes `{event: {payloadData}}` on the entity's topic when it fires.

The model follows the program's structure:

| module | file | models |
|---|---|---|
| `Wrappers` | wrappers.dfy | `Option`, `Result`, `Outcome` |
| `JsStrings` | js_strings.dfy | `split`, `join`, `startsWith`, `trim`'s white space, the global `parseInt` |
| `OrderedMaps` | ordered_maps.dfy | a JavaScript `Map` with its insertion order |
| `Config` | config.dfy | the parsed configuration |
| `Selection` | selection.dfy | `parseCommandLineArgs`, as functions |
| `FilePattern` | file_pattern.dfy | the file-name regular expression and the instance prefix |
| `Topology` | topology.dfy | `setupEntities`, as functions over the three maps it fills |
| `StreamParser` | stream_parser.dfy | the stream-file parsing inside `readStreamFiles` |
| `Dispatch` | dispatch.dfy | `registerTimeout`'s payload and topic, and the timers of `setupEvents` |
| `MqttConnector` | mqtt_connector.dfy | the connector module's `BROKERS` registry and its six exported functions |
| `Emulator` | emulator.dfy | main.js's globals and phases, as the class `Emulator` and `Run` |

The program is imperative: its functions fill global maps and lists. So main.js's globals
(`selectedInstances`, `entities`, `events`, and the `setTimeout` registrations made so far)
are the fields of the class `Emulator.Emulator`. The connector's `BROKERS` and `ON_RECEIVED`
are the fields of `MqttConnector.Connector`, which also records, in order, what it asks of
its MQTT clients.

Each source function is a method with its loops. Its postcondition ties the new state to a
specification function of the old state, and the lemmas state the properties of those
functions.

External effects become parameters:
- the configuration is a `Configuration` value;
- the file system is a map from path to text, which lacks the paths that cannot be read;
- the clock is `nowMs`;
- the random client-id digits are one suffix per broker.

Where the code and the project's documentation disagree, the model follows the code:
- A repeated entity key overwrites the earlier entity and resets its event list, without any
  error (`Topology.StakeholderLastWriteWins`, `Topology.ArtifactLastWriteWins`).
- The `selectedInstances.includes(matchedInstance)` test on an artifact never fails, because
  only selected instances get a prefix (`Topology.SelectedTestRedundant`).
- `parseInt` accepts a sign, leading white space, a `0x` prefix and trailing text, so
  `12abc` yields the time 12.

## Model

| member | source | states |
|---|---|---|
| `Selection.Dedup` | main.js:85 | the result has no repeated element and holds exactly the elements of the input |
| `Selection.DedupOrder` | main.js:85 | de-duplication keeps the order of first occurrences |
| `Selection.ScanNeverMissing` | main.js:30-52 | the argument loop can only fail with conflicting filters |
| `Selection.MissingConfigIff` | main.js:22-26 | the run fails for a missing configuration file exactly when there are fewer than three arguments |
| `Selection.ScanWithoutFlags` | main.js:30-52 | arguments without `--instance` or `--process-type` leave the filters unchanged |
| `Selection.NoFlagsSelectsAll` | main.js:75-85 | with no flag, every stakeholder's instance is selected once, and nothing else is |
| `Selection.TypesKeepInstances` | main.js:30-52 | a successful scan that ends with process types never replaced the instance list |
| `Selection.TypesExcludeCapture` | main.js:41-50 | once instances are captured, a successful scan ends with no process types |
| `Selection.TypeInstancesMembers` | main.js:59-70 | an instance is pushed for process types exactly when some stakeholder with it has one of the types as its path's second segment |
| `Selection.TypeSelection` | main.js:54-85 | with process types, the selection is the de-duplicated instances of the stakeholders whose path has at least two segments and one of those types as its second |
| `Selection.LaterConflict` | main.js:31-46 | a flag that meets a non-empty list of the other kind makes the run fail |
| `Selection.SuccessNoConflict` | main.js:30-52 | a successful scan met no flag while the other kind's list was non-empty |
| `Selection.ConflictIff` | main.js:30-52 | the scan fails exactly when a flag meets a non-empty list of the other kind (the starting list or a captured one) |
| `Selection.FailureHasConflict` | main.js:30-52 | a failing scan has such a conflicting pair of flags |
| `Selection.RepeatedFlagReplaces` | main.js:37-50 | a repeated flag's value replaces the earlier value rather than adding to it |
| `Selection.FlagWithoutValue` | main.js:37-50 | a flag followed by nothing, by an empty value or by another `--` argument captures nothing and is passed over |
| `Emulator.DistinctInOrder` | main.js:85 | the set-filling loop produces the de-duplicated list |
| `Emulator.Emulator.constructor` | main.js:10-13 | the globals start empty and satisfy the class invariant |
| `Emulator.Emulator.ParseCommandLineArgs` | main.js:20-87 | on failure, returns the usage error and leaves the selection unchanged; otherwise `selectedInstances` becomes the selection `Selection.Selection` describes; the entity and event maps and the timers are untouched |
| `OrderedMaps.Empty` | main.js:12-13 | a new map is well formed and has no keys |
| `OrderedMaps.Put` | main.js:130-139 | `set` keeps the map well formed and updates the value; an existing key keeps its place and a new key goes last |
| `FilePattern.LargestGroupEnd` | main.js:147 | the group end found lies after the group's start and no further than the end searched from |
| `FilePattern.LargestGroupEndSpec` | main.js:147 | the greedy group ends at the largest position that lets the rest of the pattern match, and no larger end does; when none is found, no end lets it match |
| `FilePattern.MatchAt` | main.js:147 | a match found at a start begins there, with a non-empty digit run, then a non-empty group, then a tail before the end of the text |
| `FilePattern.MatchAtIff` | main.js:147 | a start matches with given digit and group ends exactly when the digits are the whole non-empty digit run from the start, a `-` follows, the group lets `[^/]+\.csv` match the rest, and no larger group end does |
| `FilePattern.NoMatchAtIff` | main.js:147 | a start fails to match exactly when its digit run is empty, reaches the end, is not followed by `-`, or no group end lets the rest match |
| `FilePattern.MatchDigits` | main.js:147 | the digits of a match are decimal digits |
| `FilePattern.LeftmostMatch` | main.js:147 | the match found starts at or after the given start and is a match at its own start |
| `FilePattern.LeftmostIsFirst` | main.js:147 | no earlier start than the one found matches |
| `FilePattern.NoMatchAnywhere` | main.js:147-149 | when no match is found, no start matches |
| `FilePattern.ShallowPathNoPrefix` | main.js:142-143 | a path with fewer than three segments yields no prefix |
| `FilePattern.NotCsvNoPrefix` | main.js:147-149 | a file name that does not end in `.csv` yields no prefix |
| `FilePattern.NotCsvNoMatch` | main.js:147 | a file name that does not end in `.csv` is not matched at any start |
| `FilePattern.MatchedDigits` | main.js:150 | the text before the first `-` of the matched text is the digit run the match starts with |
| `FilePattern.GreedyGroup` | main.js:147 | in `digits-group-rest.csv` with no `-` in `rest`, the group runs to the last `-` |
| `FilePattern.FileNameMatch` | main.js:147 | such a file name is matched from its first character, with exactly its digits and group |
| `FilePattern.PrefixOfSegments` | main.js:142-146 | a path of at least three segments yields the prefix of its directory and its file name |
| `FilePattern.PrefixFromMatch` | main.js:142-151 | the prefix is the directory, the matched digits and the group, each followed by a separator |
| `FilePattern.PathSegments` | main.js:142 | the path of slash-free directory segments and such a file name splits back into them |
| `FilePattern.PrefixOfPath` | main.js:142-151 | the path `dir/digits-group-rest.csv` yields the prefix `dir/digits-group-` |
| `FilePattern.ExamplePrefix` | main.js:144-150 | `shipment-1-data/AMS-CDG/06-AMS-CDG-stakeholder.csv` yields `shipment-1-data/AMS-CDG/06-AMS-CDG-` |
| `Topology.AddStakeholder` | main.js:117-155 | an unselected stakeholder changes nothing; a selected one is entered under `name/instance` with its entity and an empty event list, other keys keep their values and earlier keys their place, and the maps stay well formed with entities and events over the same keys |
| `Topology.RecordPrefix` | main.js:141-154 | recording a prefix keeps the prefix map well formed; which keys and values it holds is stated by `Topology.PrefixKeysOrder` and `Topology.PrefixLastWriteWins` |
| `Topology.AddStakeholders` | main.js:117-155 | the stakeholder loop keeps the maps well formed and the keys it started with in their place |
| `Topology.PrefixKeysOrder` | main.js:117-155 | from an empty prefix map, its keys are the instances of the selected stakeholders whose path yields a prefix, each once, in the order the first of them was recorded; no other instance is a key |
| `Topology.PrefixKeysStep` | main.js:141-154 | one stakeholder adds its instance at the end of the keys when it records a prefix for a new instance, and otherwise leaves the keys as they were |
| `Topology.PrefixLastWriteWins` | main.js:149-151 | an instance's prefix is the one from the last selected stakeholder of that instance whose path yields a prefix |
| `Topology.ExampleRoutes` | main.js:169-174 | `shipment-1-data/AMS-CDG/06-AMS-CDG-truckA.csv` starts with the prefix `shipment-1-data/AMS-CDG/06-AMS-CDG-`, and `shipment-1-data/CDG-AMS/06-CDG-AMS-truckA.csv` does not |
| `Topology.ExampleAttachment` | main.js:117-179 | a stakeholder of instance `I1` at `shipment-1-data/AMS-CDG/06-AMS-CDG-stakeholder.csv` makes `I1` the only key, with that route's prefix; an artifact of the same route is attached to `I1` and one of the reverse route is not |
| `Topology.FirstPrefixIndex` | main.js:169-174 | the position found is the first whose prefix the path starts with |
| `Topology.AddArtifact` | main.js:161-195 | an unattached artifact changes nothing; an attached one is entered under `name/id` with its matched instance and an empty event list, other keys keep their values and earlier keys their place, and the prefix map is untouched |
| `Topology.AddArtifacts` | main.js:161-195 | the artifact loop keeps the maps well formed and the keys it started with in their place |
| `Topology.Setup` | main.js:109-198 | `setupEntities` keeps the maps well formed and the keys it started with in their place |
| `Topology.SetupKeys` | main.js:109-198 | `setupEntities` creates exactly the keys of the selected stakeholders and of the artifacts attached through the recorded prefixes, besides the keys it started with |
| `Topology.StakeholderListsFresh` | main.js:139 | the stakeholder loop only registers empty event lists |
| `Topology.ArtifactListsFresh` | main.js:194 | the artifact loop only registers empty event lists |
| `Topology.SetupListsEmpty` | main.js:109-198 | from empty maps, every entity has an event list and every list is empty |
| `Topology.PrefixesSelected` | main.js:120-151 | only selected instances receive a prefix |
| `Topology.SelectedTestRedundant` | main.js:176-179 | the artifact's selected-instance test never rejects a matched instance; only an unmatched or empty one is skipped |
| `Topology.ArtifactsKeepPrefixes` | main.js:161-195 | the artifact loop does not change the prefix map |
| `Topology.MatchedInstanceFirst` | main.js:167-174 | the matched instance is the first, in insertion order, whose prefix the path starts with; with none, no prefix fits |
| `Topology.StakeholderKeys` | main.js:117-139 | the stakeholder loop adds exactly the keys `name/instance` of the selected stakeholders |
| `Topology.ArtifactKeys` | main.js:161-194 | the artifact loop adds exactly the keys `name/id` of the attached artifacts |
| `Topology.StakeholderLastWriteWins` | main.js:130-139 | under a repeated stakeholder key, the last selected stakeholder's entity is kept, with an empty list |
| `Topology.ArtifactLastWriteWins` | main.js:181-194 | under a repeated artifact key, the last attached artifact's entity is kept, with an empty list |
| `Topology.AddArtifactElsewhere` | main.js:184-194 | an artifact entered under another key leaves an entry alone |
| `Topology.StakeholdersElsewhere` | main.js:117-155 | the stakeholder loop leaves the entity and the event list at a key no selected stakeholder has as they were |
| `Topology.ArtifactsElsewhere` | main.js:161-195 | the artifact loop leaves the entity and the event list at a key no attached artifact has as they were, so the stakeholder entities survive it |
| `Topology.SetupStakeholderEntity` | main.js:109-198 | after the whole of `setupEntities`, a selected stakeholder with no later selected stakeholder and no attached artifact under its key is under `name/instance` with `{type: 'stakeholder', host, port, file}` and an empty list |
| `Topology.AddArtifactHere` | main.js:184-194 | an attached artifact is entered under its key with its instance and an empty list |
| `Topology.StakeholdersSelectedSet` | main.js:121 | the stakeholder loop depends only on which instances are selected, not on their order or repetition |
| `Topology.ArtifactsSelectedSet` | main.js:177 | the same for the artifact loop |
| `Topology.SetupSelectedSet` | main.js:109-198 | the same for `setupEntities` as a whole |
| `Emulator.Emulator.SetupEntities` | main.js:109-198 | the maps become those `Topology.Setup` describes, and the class invariant holds |
| `Emulator.Emulator.SetupStakeholders` | main.js:115-155 | the stakeholder loop produces the maps and prefix map `Topology.AddStakeholders` describes |
| `Emulator.Emulator.SetupArtifacts` | main.js:159-195 | the artifact loop produces the maps `Topology.AddArtifacts` describes |
| `Emulator.Emulator.AddArtifactEntity` | main.js:162-194 | one artifact pass produces what `Topology.AddArtifact` describes |
| `Emulator.FindInstance` | main.js:167-174 | the loop that breaks at the first fitting prefix returns the matched instance |
| `Emulator.SetupBrokers` | main.js:201-216 | the registry becomes the one built by creating each declared broker in order, with client id `emulator-` and its suffix |
| `Emulator.BrokersKeys` | main.js:205-213 | afterwards exactly the earlier endpoints and the declared ones are registered |
| `Emulator.BrokersKeepExisting` | main.js:205-213 | an endpoint registered before keeps its connection |
| `Emulator.BrokersFirstWins` | main.js:205-213 | for a new endpoint declared twice, the first declaration's connection is kept |
| `Emulator.BrokersAllPresent` | main.js:205-213 | brokers that are all registered already change nothing |
| `Emulator.BrokersRerun` | main.js:201-216 | setting up the brokers a second time, with any client ids, changes nothing |
| `Emulator.Emulator.ReadStreamFiles` | main.js:219-261 | each entity's list is extended by its file's events when the file is readable, and otherwise kept |
| `Emulator.ReadAll` | main.js:222-260 | the `forEach` over the entity keys computes each entity's turn in order |
| `Emulator.ReadEntity` | main.js:223-258 | one entity's turn appends its parsed file to its own list only |
| `Emulator.ReadOne` | main.js:223-258 | one turn keeps the event map well formed with the same keys |
| `Emulator.ReadKeys` | main.js:222-260 | the turns keep the event map well formed with the same keys |
| `Emulator.ReadKeysUpTo` | main.js:222-260 | the turns of distinct keys read each entity once |
| `Emulator.ReadAllEntities` | main.js:222-260 | going over the entity map reads every entity exactly once |
| `Emulator.UnreadableFileIsolated` | main.js:223-259 | an unreadable file leaves its entity's list as it was and does not affect other entities |
| `Emulator.ReadEmptyLists` | main.js:222-260 | read from empty lists, an entity's list is its file's events, or empty when the file cannot be read |
| `Emulator.ReadEventsValid` | main.js:222-260 | reading keeps the event map's keys and their order |
| `Emulator.Emulator.SetupEvents` | main.js:289-301 | one timer is appended per event, entities in map order, and the count returned is the total number of events |
| `Emulator.ScheduleLists` | main.js:293-298 | the two loops register the timers of every list in order and count them |
| `Emulator.ListTimers` | main.js:294-297 | one list registers one timer per event, in order |
| `Emulator.EmptyListsTimers` | main.js:219-301 | from empty lists, the timers for an entity carry exactly its file's events, in file order |
| `Emulator.FreshEntityTimers` | main.js:109-301 | from the program's start, every set-up entity's timers replay its stream file, and no other key gets a timer |
| `Emulator.Emulator.FireTimer` | main.js:264-286 | a firing timer publishes its entity's payload on its topic through the connection of the entity's endpoint, or nothing is published when that endpoint is not registered |
| `Emulator.Run` | main.js:386-413 | a usage error stops the run before setup; otherwise the selection and the set-up entities are in place, and only when the awaited creation of process instances resolved do the lists get read, their timers registered and the connector hold the declared brokers; when it did not, events, timers and brokers are as set up or as before |
| `Dispatch.Topic` | main.js:267 | an artifact publishes on `key/status`, a stakeholder on `key` |
| `Dispatch.BuildPayloadData` | main.js:268-277 | the payload loop builds the payload of the entity, event and clock |
| `Dispatch.FieldIsLastWrite` | main.js:275-277 | a data name's field holds the value of its last occurrence, and is absent when that occurrence has no value |
| `Dispatch.FieldUntouched` | main.js:275-277 | a field not named by the event is left as it was |
| `Dispatch.ProtoNeverField` | main.js:275-277 | `__proto__` never becomes a field |
| `Dispatch.FieldsFromNames` | main.js:268-277 | every field is the timestamp or a data name of the event |
| `Dispatch.TimestampOnlyForArtifacts` | main.js:270-272 | unless the event names `timestamp`, the payload has a timestamp exactly for an artifact, and it is the clock in whole seconds |
| `Dispatch.TimestampOverridden` | main.js:270-277 | a data name `timestamp` with a value overrides the clock |
| `Dispatch.ListTasks` | main.js:294-297 | one timer per event of the list, with the event's time as its delay |
| `Dispatch.ScheduleCount` | main.js:291-298 | the number of timers is the total number of events |
| `Dispatch.ScheduleDelays` | main.js:264-298 | every timer's delay is its event's time, and its event is in its entity's list |
| `Dispatch.EventsForList` | main.js:294-297 | a list's timers carry exactly that list under its key, and nothing under any other |
| `Dispatch.ScheduleExactlyOnce` | main.js:293-298 | each entity's events are registered exactly once, in list order |
| `StreamParser.ParseLine` | main.js:228-253 | a line is skipped or becomes the event `StreamParser.LineEvent` describes |
| `StreamParser.SortFields` | main.js:238-247 | the fields after the time go alternately to the names and to the values |
| `StreamParser.ParseStream` | main.js:224-254 | a file's text yields the events of its lines, in order |
| `StreamParser.LineEventRoundTrip` | main.js:230-247 | a parsed line loses nothing: its time field followed by its names and values in alternation joins back into the line |
| `StreamParser.PositionsSnoc` | main.js:241-247 | one more field goes to the names after an even number of fields, and otherwise to the values |
| `StreamParser.InterleavePositions` | main.js:241-247 | splitting fields into names and values and interleaving them again gives the fields back |
| `StreamParser.PositionsOfInterleave` | main.js:241-247 | interleaved names and values split back into the same names and values |
| `StreamParser.CollectAppend` | main.js:227-254 | the events of two stretches of lines are the concatenation of their events |
| `StreamParser.SkippedLineIsolated` | main.js:228-236 | a skipped line drops only itself |
| `StreamParser.CollectBound` | main.js:227-254 | a file yields at most one event per line |
| `StreamParser.CollectOrigin` | main.js:227-254 | every event collected is the event of one of the lines |
| `StreamParser.NormalizeWithoutCr` | main.js:224 | text without CR is unchanged by line-end normalisation |
| `StreamParser.NormalizeKeepsFirst` | main.js:224 | a first character that does not start CR LF is kept |
| `StreamParser.NormalizeLfFree` | main.js:224 | text without LF is unchanged |
| `StreamParser.NormalizeLine` | main.js:224 | a line followed by CR LF becomes the line followed by LF |
| `StreamParser.NormalizeCrlfJoin` | main.js:224 | a CR LF file normalises to the LF file with the same lines |
| `StreamParser.CrlfFileEvents` | main.js:224-254 | a CR LF file yields the events of its lines, as an LF file does |
| `StreamParser.LfFileEvents` | main.js:224-254 | an LF file whose lines hold no CR yields exactly the events of its lines, in order |
| `StreamParser.LineOfFields` | main.js:230-253 | a line written as a decimal time and separator-free fields yields the event of that time and those fields |
| `StreamParser.LineEventOfElements` | main.js:228-253 | a non-blank line whose first field reads as a number yields an event |
| `StreamParser.LineWithoutTime` | main.js:231-236 | a line whose time field starts with a letter is skipped |
| `StreamParser.CollectSkipsMiddle` | main.js:227-236 | of three lines with the middle one skipped, the outer two's events remain in order |
| `StreamParser.PairsLine` | main.js:230-253 | a line written as a time and plain names interleaved with values yields exactly that event |
| `StreamParser.ExampleStream` | main.js:224-254 | `10;n1;v1;n2;v2`, then a line whose time starts with a letter, then `20;n1;v3` yield the events at 10 and 20, in that order |
| `JsStrings.IndexOf` | main.js:142 | the position found is the first occurrence, or the length when there is none |
| `JsStrings.Split` | main.js:142 | `split` always yields at least one piece |
| `JsStrings.SplitPiecesFree` | main.js:142 | no piece holds the separator |
| `JsStrings.JoinSplit` | main.js:145 | joining the pieces of a split gives back the text |
| `JsStrings.SplitJoin` | main.js:142-146 | splitting a join of separator-free pieces gives back the pieces |
| `JsStrings.SplitAppend` | main.js:225 | splitting at a separator splits the two sides independently |
| `JsStrings.SplitLength` | main.js:142 | a split has one more piece than the text has separators |
| `JsStrings.JoinAvoids` | main.js:145 | a character other than the separator that is in no piece is not in the join |
| `JsStrings.DigitSpan` | main.js:231 | the digit run is all digits and is followed by a non-digit or the end |
| `JsStrings.ToDecimalValue` | main.js:231 | a decimal numeral denotes its number |
| `JsStrings.ParseUnsignedDecimal` | main.js:231 | parseInt's unsigned part reads a decimal numeral and ignores the non-digit text after it |
| `JsStrings.ParseIntDecimal` | main.js:231 | `parseInt` reads a decimal numeral back, ignoring trailing non-digit text |
| `JsStrings.ParseIntNegativeDecimal` | main.js:231 | the same with a minus sign gives the negative number |
| `MqttConnector.Connector.constructor` | modules/mqttconnector.js:29-30 | the module starts with no broker and no callback |
| `MqttConnector.Connector.Init` | modules/mqttconnector.js:34-37 | `init` sets the callback and changes nothing else |
| `MqttConnector.Connector.CreateConnection` | modules/mqttconnector.js:39-49 | answers `created` and registers the connection for a new endpoint; answers `connection_exists` and keeps the old connection otherwise |
| `MqttConnector.Connector.CloseConnection` | modules/mqttconnector.js:51-58 | a registered endpoint's client is ended and the endpoint forgotten; an unknown endpoint is ignored |
| `MqttConnector.Connector.PublishTopic` | modules/mqttconnector.js:60-67 | publishes through the endpoint's connection, or drops the message for an unknown endpoint; the registry is unchanged |
| `MqttConnector.Connector.SubscribeTopic` | modules/mqttconnector.js:69-79 | subscribes through the endpoint's connection with the no-local option, even without a callback, or does nothing for an unknown endpoint |
| `MqttConnector.Connector.UnsubscribeTopic` | modules/mqttconnector.js:81-88 | unsubscribes through the endpoint's connection, or does nothing for an unknown endpoint |
| `MqttConnector.EndpointKeyShape` | modules/mqttconnector.js:41 | the registry key is the host, a colon, then the port |
| `MqttConnector.CreateTwice` | modules/mqttconnector.js:39-49 | a second create on an endpoint answers `connection_exists` and changes nothing |
| `MqttConnector.CreateThenClose` | modules/mqttconnector.js:39-58 | creating a new endpoint and closing it restores the registry |
| `MqttConnector.CloseThenCreate` | modules/mqttconnector.js:39-58 | after a close, the endpoint can be created anew with a different connection |
| `MqttConnector.EndpointKeyCollision` | modules/mqttconnector.js:41 | hosts containing a colon can make two endpoints share a key (`a:b` with `c`, and `a` with `b:c`) |
| `MqttConnector.EndpointKeyInjective` | modules/mqttconnector.js:41 | with colon-free hosts, the key identifies the endpoint |

## Left out

- `loadConfig` (main.js:90-106): reading and XML-parsing the configuration file is I/O. The parsed configuration is a parameter of `Emulator.Run`.
- `createProcessInstances` and `delay` (main.js:304-383): the WebSocket exchange with the engine is network I/O and is not modelled. Only its outcome is, as the `exchanged` parameter of `Emulator.Run`.
- The logger and its messages, including the warnings for an invalid time and an undefined broker. Logging changes no state.
- `process.exit` is modelled as the `Fail` outcome that ends `Emulator.Run`.
- `main`'s `try`/`catch` (main.js:410-412): the modelled phases raise no exception. The one rejection it catches, that of the awaited `createProcessInstances`, is `exchanged == false`.
- AddStakeholders: its own contract states only well-formedness and the place of earlier keys; which keys and entities the loop produces is stated by `Topology.StakeholderKeys`, `Topology.StakeholderLastWriteWins` and, for keys it does not write, `Topology.StakeholdersElsewhere`, so that each unfolding of the loop stays cheap to verify.
- AddArtifacts: likewise, its keys are stated by `Topology.ArtifactKeys`, the entries at artifact keys by `Topology.ArtifactLastWriteWins` and the entries at every other key by `Topology.ArtifactsElsewhere`, not by its own ensures.
- Setup: likewise, its keys are stated by `Topology.SetupKeys` and its lists by `Topology.SetupListsEmpty` and the stakeholder entities it ends with by `Topology.SetupStakeholderEntity`, not by its own ensures.
- `Emulator.Run`: a rejected exchange and one that never settles are both `exchanged == false`, and both leave brokers, stream files and timers untouched. The model does not distinguish a `main` that returns after logging from one that waits for ever.
- The `MqttBroker` constructor and its event handlers (modules/mqttconnector.js:6-27): the MQTT transport, reconnection and the delivery of received messages to `ON_RECEIVED` are not modelled. What the connector asks of a client is recorded as a `ClientCall`.
- The connector's log module and the path main.js:4 imports the connector from are not part of this model; modules/mqttconnector.js is modelled in its place.
- generator.js is not part of this model.
- Real timers are not modelled. A timer is its registration (delay, entity key, event), and it fires through `Emulator.Emulator.FireTimer`. The model does not capture ordering by delay, the clamping of negative or oversized delays by `setTimeout`, or interleaving with other callbacks.
- `Date.now()` is the parameter `nowMs`; it is a natural number, so clocks before 1970 are not modelled.
- `Math.random()` is one client-id suffix per broker, given by the caller.
- `fs.readFileSync` is a map from path to text. A file that cannot be read is a path missing from the map. UTF-8 decoding is not modelled; text is a sequence of characters.
- `JSON.stringify`: the payload is modelled as the map of fields it writes out, without the key order or the text layout.
- `JsStrings.ParseInt`: results are unbounded integers, so the loss of precision of very long numerals as floating point numbers is not modelled.
- `JsStrings.Split`: a character is one element, so strings are not modelled as UTF-16 code units.
- `Emulator.Emulator.ParseCommandLineArgs`: a captured `--instance` list is held in a local and assigned at the end. The source assigns the global at once, which differs only on the paths that exit the process.
- `Emulator.Emulator.FireTimer`: a timer whose entity has gone from the map would throw in the source; the model requires the class invariant that every timer names an entity.
