/**
 * The MQTT connector: a registry of broker connections keyed by `host:port`, and a callback
 * to hand received messages to. Requests naming an endpoint that is not registered are dropped
 * with a warning. The MQTT clients themselves are not modelled. What the connector asks of them
 * is recorded, in order, as a sequence of client calls.
 */
module MqttConnector {
  import opened Wrappers
  import opened JsStrings

  /** What a registered broker was created with. */
  datatype Connection = Connection(host: string, port: string, user: string, password: string, clientId: string)

  /** A request the connector hands to the MQTT client of a registered connection. */
  datatype ClientCall<M> =
    | Publish(connection: Connection, topic: string, message: M)
    | Subscribe(connection: Connection, topic: string, noLocal: bool)  // `noLocal`: MQTT's no-local option, `{ nl: true }`
    | Unsubscribe(connection: Connection, topic: string)
    | End(connection: Connection)

  /** The two answers of `createConnection`. */
  datatype CreateStatus = Created | ConnectionExists

  /** The function given to `init`, known only by an identity of its own. */
  datatype Handler = Handler(id: nat)

  /** The registry key of an endpoint: host and port joined by a colon. */
  function EndpointKey(host: string, port: string): string
  {
    Join([host, port], ':')
  }

  /** The registry after `createConnection`: an endpoint already registered keeps its connection. */
  function WithConnection(brokers: map<string, Connection>, c: Connection): map<string, Connection>
  {
    var key := EndpointKey(c.host, c.port);
    if key in brokers then brokers else brokers[key := c]
  }

  /** The answer of `createConnection` given the registry it is called on. */
  function CreateAnswer(brokers: map<string, Connection>, host: string, port: string): CreateStatus
  {
    if EndpointKey(host, port) in brokers then ConnectionExists else Created
  }

  /** The registry after `closeConnection`. */
  function WithoutConnection(brokers: map<string, Connection>, host: string, port: string): map<string, Connection>
  {
    brokers - {EndpointKey(host, port)}
  }

  class Connector<M> {
    /** `BROKERS` */
    var brokers: map<string, Connection>
    /** `ON_RECEIVED` */
    var onReceived: Option<Handler>
    /** Every request handed to an MQTT client so far, oldest first. */
    var calls: seq<ClientCall<M>>

    /** The module as loaded: no brokers, no callback. */
    constructor ()
      ensures brokers == map[] && onReceived == None && calls == []
    {
      brokers := map[];
      onReceived := None;
      calls := [];
    }

    /** `init`: remembers the callback; a later call replaces it. */
    method Init(handler: Handler)
      modifies this
      ensures onReceived == Some(handler)
      ensures brokers == old(brokers) && calls == old(calls)
    {
      onReceived := Some(handler);
    }

    /** `createConnection`: registers a new connection unless the endpoint already has one. */
    method CreateConnection(host: string, port: string, user: string, password: string, clientId: string)
      returns (status: CreateStatus)
      modifies this
      ensures status == CreateAnswer(old(brokers), host, port)
      ensures brokers == WithConnection(old(brokers), Connection(host, port, user, password, clientId))
      ensures EndpointKey(host, port) in brokers
      ensures onReceived == old(onReceived) && calls == old(calls)
    {
      var key := EndpointKey(host, port);
      if key !in brokers {
        brokers := brokers[key := Connection(host, port, user, password, clientId)];
        status := Created;
      } else {
        status := ConnectionExists;
      }
    }

    /** `closeConnection`: ends the endpoint's client and forgets it; an unknown endpoint is ignored. */
    method CloseConnection(host: string, port: string)
      modifies this
      ensures brokers == WithoutConnection(old(brokers), host, port)
      ensures EndpointKey(host, port) !in brokers
      ensures EndpointKey(host, port) in old(brokers) ==>
        calls == old(calls) + [End(old(brokers)[EndpointKey(host, port)])]
      ensures EndpointKey(host, port) !in old(brokers) ==> calls == old(calls)
      ensures onReceived == old(onReceived)
    {
      var key := EndpointKey(host, port);
      if key in brokers {
        calls := calls + [End(brokers[key])];
        brokers := brokers - {key};
      }
    }

    /** `publishTopic`: publishes through the endpoint's client, or drops the message. */
    method PublishTopic(host: string, port: string, topic: string, message: M)
      modifies this
      ensures EndpointKey(host, port) in brokers ==>
        calls == old(calls) + [Publish(brokers[EndpointKey(host, port)], topic, message)]
      ensures EndpointKey(host, port) !in brokers ==> calls == old(calls)
      ensures brokers == old(brokers) && onReceived == old(onReceived)
    {
      var key := EndpointKey(host, port);
      if key in brokers {
        calls := calls + [Publish(brokers[key], topic, message)];
      }
    }

    /**
     * `subscribeTopic`: subscribes through the endpoint's client, or does nothing. A missing
     * callback only draws a warning; the subscription is still made.
     */
    method SubscribeTopic(host: string, port: string, topic: string)
      modifies this
      ensures EndpointKey(host, port) in brokers ==>
        calls == old(calls) + [Subscribe(brokers[EndpointKey(host, port)], topic, true)]
      ensures EndpointKey(host, port) !in brokers ==> calls == old(calls)
      ensures brokers == old(brokers) && onReceived == old(onReceived)
    {
      var key := EndpointKey(host, port);
      if key in brokers {
        calls := calls + [Subscribe(brokers[key], topic, true)];
      }
    }

    /** `unsubscribeTopic`: unsubscribes through the endpoint's client, or does nothing. */
    method UnsubscribeTopic(host: string, port: string, topic: string)
      modifies this
      ensures EndpointKey(host, port) in brokers ==>
        calls == old(calls) + [Unsubscribe(brokers[EndpointKey(host, port)], topic)]
      ensures EndpointKey(host, port) !in brokers ==> calls == old(calls)
      ensures brokers == old(brokers) && onReceived == old(onReceived)
    {
      var key := EndpointKey(host, port);
      if key in brokers {
        calls := calls + [Unsubscribe(brokers[key], topic)];
      }
    }
  }

  /** The registry key is the host, a colon, then the port. */
  lemma EndpointKeyShape(host: string, port: string)
    ensures EndpointKey(host, port) == host + ":" + port
  {
    assert [host, port][1..] == [port];
    assert Join([port], ':') == port;
    assert ":" == [':'];
  }

  /** A second create on an endpoint answers `connection_exists` and keeps the first connection. */
  lemma CreateTwice(brokers: map<string, Connection>, c1: Connection, c2: Connection)
    requires c1.host == c2.host && c1.port == c2.port
    ensures CreateAnswer(WithConnection(brokers, c1), c2.host, c2.port) == ConnectionExists
    ensures WithConnection(WithConnection(brokers, c1), c2) == WithConnection(brokers, c1)
  {
  }

  /** Creating a new endpoint and closing it again restores the registry. */
  lemma CreateThenClose(brokers: map<string, Connection>, c: Connection)
    requires CreateAnswer(brokers, c.host, c.port) == Created
    ensures WithoutConnection(WithConnection(brokers, c), c.host, c.port) == brokers
  {
  }

  /** After a close, the endpoint can be created anew with a different connection. */
  lemma CloseThenCreate(brokers: map<string, Connection>, c: Connection)
    ensures CreateAnswer(WithoutConnection(brokers, c.host, c.port), c.host, c.port) == Created
    ensures WithConnection(WithoutConnection(brokers, c.host, c.port), c)[EndpointKey(c.host, c.port)] == c
  {
  }

  /** Two different endpoints can share a registry key when a host contains a colon. */
  lemma EndpointKeyCollision()
    ensures EndpointKey("a:b", "c") == EndpointKey("a", "b:c")
  {
    EndpointKeyShape("a:b", "c");
    EndpointKeyShape("a", "b:c");
  }

  /** With colon-free hosts, the registry key identifies the endpoint. */
  lemma EndpointKeyInjective(h1: string, p1: string, h2: string, p2: string)
    requires ':' !in h1 && ':' !in h2
    requires EndpointKey(h1, p1) == EndpointKey(h2, p2)
    ensures h1 == h2 && p1 == p2
  {
    EndpointKeyShape(h1, p1);
    EndpointKeyShape(h2, p2);
    IndexOfAfter(h1, ':', p1);
    IndexOfAfter(h2, ':', p2);
    var key := EndpointKey(h1, p1);
    assert h1 == key[..|h1|];
    assert h2 == key[..|h2|];
    assert p1 == key[|h1| + 1..];
    assert p2 == key[|h2| + 1..];
  }
}
