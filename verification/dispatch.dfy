/**
 * Emitting events. Every event of every entity is registered as one timer whose delay is the
 * event's time. When a timer fires, the message for the entity is published:
 * - the topic is `key/status` for an artifact and `key` for a stakeholder;
 * - the payload is `{event: {payloadData}}`;
 * - `payloadData` holds, for an artifact, the clock in whole seconds under `timestamp`, and then
 *   each data name of the event with its value, in order.
 */
module Dispatch {
  import opened Wrappers
  import opened OrderedMaps
  import opened StreamParser
  import opened Topology

  /** The values `payloadData` can hold once serialised. */
  datatype JsonValue = JNumber(n: int) | JString(s: string)

  /** `{event: {payloadData}}`, with `payloadData` as the fields `JSON.stringify` writes out. */
  datatype Message = Message(payloadData: map<string, JsonValue>)

  /** One `setTimeout` registration: its delay and the entity key and event the callback closes over. */
  datatype Task = Task(delay: int, entityKey: string, event: Event)

  const TimestampKey := "timestamp"
  const ProtoKey := "__proto__"

  /** The topic an entity's events are published on. */
  function Topic(key: string, entity: Entity): (topic: string)
    ensures entity.Artifact? ==> topic == key + "/status"
    ensures entity.Stakeholder? ==> topic == key
  {
    if entity.Artifact? then key + "/status" else key
  }

  /** `payloadData` before the event's fields are added. */
  function BasePayload(entity: Entity, nowMs: nat): map<string, JsonValue>
  {
    if entity.Artifact? then map[TimestampKey := JNumber(nowMs / 1000)] else map[]
  }

  /**
   * `payloadData[name] = value` as `JSON.stringify` later sees it: assigning to `__proto__` a
   * string or `undefined` changes nothing, and a field holding `undefined` is not written out.
   */
  function Assign(p: map<string, JsonValue>, name: string, value: Option<string>): map<string, JsonValue>
  {
    if name == ProtoKey then p
    else match value
      case None => p - {name}
      case Some(v) => p[name := JString(v)]
  }

  /** `datas[i]`, which is `undefined` past the end. */
  function ValueAt(values: seq<string>, i: nat): Option<string>
  {
    if i < |values| then Some(values[i]) else None
  }

  /** The first `n` iterations of the field loop. */
  function AssignFields(p: map<string, JsonValue>, names: seq<string>, values: seq<string>, n: nat): map<string, JsonValue>
    requires n <= |names|
  {
    if n == 0 then p
    else Assign(AssignFields(p, names, values, n - 1), names[n - 1], ValueAt(values, n - 1))
  }

  /** The `payloadData` an entity's event is published with when the clock reads `nowMs`. */
  function PayloadData(entity: Entity, event: Event, nowMs: nat): map<string, JsonValue>
  {
    AssignFields(BasePayload(entity, nowMs), event.dataNames, event.datas, |event.dataNames|)
  }

  /** The payload loop as the timer callback runs it. */
  method BuildPayloadData(entity: Entity, event: Event, nowMs: nat) returns (p: map<string, JsonValue>)
    ensures p == PayloadData(entity, event, nowMs)
  {
    p := if entity.Artifact? then map[TimestampKey := JNumber(nowMs / 1000)] else map[];
    for i := 0 to |event.dataNames|
      invariant p == AssignFields(BasePayload(entity, nowMs), event.dataNames, event.datas, i)
    {
      var name := event.dataNames[i];
      if name != ProtoKey {
        if i < |event.datas| {
          p := p[name := JString(event.datas[i])];
        } else {
          p := p - {name};
        }
      }
    }
  }

  /**
   * A data name's field holds the value of its last occurrence among the first `n` names, and is
   * absent when that occurrence has no value.
   */
  lemma {:induction false} FieldIsLastWrite(p: map<string, JsonValue>, names: seq<string>, values: seq<string>,
                                            n: nat, i: nat)
    requires i < n <= |names| && names[i] != ProtoKey
    requires forall j :: i < j < n ==> names[j] != names[i]
    ensures i < |values| ==> (names[i] in AssignFields(p, names, values, n)
                              && AssignFields(p, names, values, n)[names[i]] == JString(values[i]))
    ensures i >= |values| ==> names[i] !in AssignFields(p, names, values, n)
    decreases n
  {
    if i < n - 1 {
      FieldIsLastWrite(p, names, values, n - 1, i);
    }
  }

  /** A name that does not occur among the first `n` keeps the field it had before. */
  lemma {:induction false} FieldUntouched(p: map<string, JsonValue>, names: seq<string>, values: seq<string>,
                                          n: nat, name: string)
    requires n <= |names|
    requires forall j :: 0 <= j < n ==> names[j] != name
    ensures name in AssignFields(p, names, values, n) <==> name in p
    ensures name in p ==> AssignFields(p, names, values, n)[name] == p[name]
    decreases n
  {
    if n > 0 {
      FieldUntouched(p, names, values, n - 1, name);
    }
  }

  /** `__proto__` never becomes a field. */
  lemma {:induction false} ProtoNeverField(p: map<string, JsonValue>, names: seq<string>, values: seq<string>, n: nat)
    requires n <= |names| && ProtoKey !in p
    ensures ProtoKey !in AssignFields(p, names, values, n)
    decreases n
  {
    if n > 0 {
      ProtoNeverField(p, names, values, n - 1);
    }
  }

  /** Every field is the timestamp or one of the event's data names. */
  lemma {:induction false} FieldsFromNames(p: map<string, JsonValue>, names: seq<string>, values: seq<string>, n: nat)
    requires n <= |names|
    ensures forall k :: k in AssignFields(p, names, values, n) ==> k in p || k in names[..n]
    decreases n
  {
    if n > 0 {
      FieldsFromNames(p, names, values, n - 1);
      assert names[..n - 1] <= names[..n];
    }
  }

  /**
   * Without a data name `timestamp`, the payload has a timestamp exactly for an artifact, and it
   * is the clock in whole seconds.
   */
  lemma TimestampOnlyForArtifacts(entity: Entity, event: Event, nowMs: nat)
    requires TimestampKey !in event.dataNames
    ensures TimestampKey in PayloadData(entity, event, nowMs) <==> entity.Artifact?
    ensures entity.Artifact? ==> PayloadData(entity, event, nowMs)[TimestampKey] == JNumber(nowMs / 1000)
  {
    FieldUntouched(BasePayload(entity, nowMs), event.dataNames, event.datas, |event.dataNames|, TimestampKey);
  }

  /** The timestamp is set first, so a data name `timestamp` overrides it. */
  lemma TimestampOverridden(entity: Entity, event: Event, nowMs: nat, i: nat)
    requires i < |event.dataNames| && i < |event.datas| && event.dataNames[i] == TimestampKey
    requires forall j :: i < j < |event.dataNames| ==> event.dataNames[j] != TimestampKey
    ensures TimestampKey in PayloadData(entity, event, nowMs)
    ensures PayloadData(entity, event, nowMs)[TimestampKey] == JString(event.datas[i])
  {
    assert TimestampKey[0] != ProtoKey[0];
    FieldIsLastWrite(BasePayload(entity, nowMs), event.dataNames, event.datas, |event.dataNames|, i);
  }

  /** The timers one entity's event list registers, in order. */
  function ListTasks(key: string, events: seq<Event>): (tasks: seq<Task>)
    ensures |tasks| == |events|
    ensures forall i :: 0 <= i < |events| ==> tasks[i] == Task(events[i].time, key, events[i])
  {
    if |events| == 0 then []
    else ListTasks(key, events[..|events| - 1]) + [Task(events[|events| - 1].time, key, events[|events| - 1])]
  }

  /** The timers `setupEvents` registers: each list in key order, each list in order. */
  function Schedule(keys: seq<string>, lists: map<string, seq<Event>>): seq<Task>
    requires forall k :: k in keys ==> k in lists
  {
    if |keys| == 0 then []
    else Schedule(keys[..|keys| - 1], lists) + ListTasks(keys[|keys| - 1], lists[keys[|keys| - 1]])
  }

  /** The number of events in the lists of `keys`. */
  function TotalEvents(keys: seq<string>, lists: map<string, seq<Event>>): nat
    requires forall k :: k in keys ==> k in lists
  {
    if |keys| == 0 then 0
    else TotalEvents(keys[..|keys| - 1], lists) + |lists[keys[|keys| - 1]]|
  }

  /** The events of the timers registered for `key`, in registration order. */
  function EventsFor(tasks: seq<Task>, key: string): seq<Event>
  {
    if |tasks| == 0 then []
    else EventsFor(tasks[..|tasks| - 1], key)
         + if tasks[|tasks| - 1].entityKey == key then [tasks[|tasks| - 1].event] else []
  }

  /** One timer per event: the count registered is the total of the list lengths. */
  lemma {:induction false} ScheduleCount(keys: seq<string>, lists: map<string, seq<Event>>)
    requires forall k :: k in keys ==> k in lists
    ensures |Schedule(keys, lists)| == TotalEvents(keys, lists)
    decreases |keys|
  {
    if |keys| > 0 {
      ScheduleCount(keys[..|keys| - 1], lists);
    }
  }

  /** Every timer's delay is its event's time, and the event is in its entity's list. */
  lemma {:induction false} ScheduleDelays(keys: seq<string>, lists: map<string, seq<Event>>)
    requires forall k :: k in keys ==> k in lists
    ensures forall t :: t in Schedule(keys, lists) ==>
      t.delay == t.event.time && t.entityKey in keys && t.event in lists[t.entityKey]
    decreases |keys|
  {
    if |keys| > 0 {
      var n := |keys| - 1;
      ScheduleDelays(keys[..n], lists);
      forall t | t in Schedule(keys, lists)
        ensures t.delay == t.event.time && t.entityKey in keys && t.event in lists[t.entityKey]
      {
        if t in Schedule(keys[..n], lists) {
          assert t.entityKey in keys[..n];
        } else {
          var tasks := ListTasks(keys[n], lists[keys[n]]);
          assert t in tasks;
          var i :| 0 <= i < |tasks| && tasks[i] == t;
        }
      }
    }
  }

  lemma {:induction false} EventsForAppend(a: seq<Task>, b: seq<Task>, key: string)
    ensures EventsFor(a + b, key) == EventsFor(a, key) + EventsFor(b, key)
    decreases |b|
  {
    if |b| > 0 {
      var n := |b| - 1;
      assert (a + b)[..|a + b| - 1] == a + b[..n];
      EventsForAppend(a, b[..n], key);
    } else {
      assert a + b == a;
    }
  }

  lemma {:induction false} EventsForList(k: string, events: seq<Event>, key: string)
    ensures EventsFor(ListTasks(k, events), key) == if k == key then events else []
    decreases |events|
  {
    if |events| > 0 {
      var n := |events| - 1;
      EventsForList(k, events[..n], key);
      assert ListTasks(k, events)[..n] == ListTasks(k, events[..n]);
      if k == key {
        assert events[..n] + [events[n]] == events;
      }
    }
  }

  /** Each entity's events are registered exactly once, in list order, and no others under its key. */
  lemma {:induction false} ScheduleExactlyOnce(keys: seq<string>, lists: map<string, seq<Event>>, key: string)
    requires forall k :: k in keys ==> k in lists
    requires forall i, j :: 0 <= i < j < |keys| ==> keys[i] != keys[j]
    ensures EventsFor(Schedule(keys, lists), key) == if key in keys then lists[key] else []
    decreases |keys|
  {
    if |keys| > 0 {
      var n := |keys| - 1;
      ScheduleExactlyOnce(keys[..n], lists, key);
      EventsForAppend(Schedule(keys[..n], lists), ListTasks(keys[n], lists[keys[n]]), key);
      EventsForList(keys[n], lists[keys[n]], key);
      if key == keys[n] {
        assert key !in keys[..n];
      } else if key in keys {
        var i :| 0 <= i < |keys| && keys[i] == key;
        assert keys[..n][i] == key;
      }
    }
  }
}
