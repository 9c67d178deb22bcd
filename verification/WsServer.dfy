/** The WebSocket server's connection objects, updated in place by one caller at a time. */
module WsServer {
  import opened Ttl

  /** What is done to a client's socket. */
  datatype Event = Message(text: string) | CloseMessage | SocketClosed

  class ClientConnection {
    const id: string
    var closed: bool
    var lastActivity: int
    var log: seq<Event>

    constructor (clientID: string, now: int)
      ensures id == clientID && !closed && lastActivity == now && log == []
    {
      id, closed, lastActivity, log := clientID, false, now, [];
    }
  }

  const TEARDOWN := [CloseMessage, SocketClosed]
  const IDLE_LIMIT := 30 * 60 * SECOND

  class Server {
    const maxConnections: int
    var connections: map<string, ClientConnection>

    /** Between calls every connection is stored under its own ID and is open. */
    ghost predicate Valid()
      reads this, connections.Values
    {
      forall id :: id in connections ==> connections[id].id == id && !connections[id].closed
    }

    constructor (max: int)
      ensures Valid() && connections == map[] && maxConnections == max
    {
      maxConnections, connections := max, map[];
    }

    /** `upgrades` says whether the circuit breaker and the upgrade let the handshake
        through. The ID holds the connection's address and the time in nanoseconds. */
    method HandleWebSocket(clientID: string, upgrades: bool, now: int) returns (client: ClientConnection?)
      requires Valid() && clientID !in connections
      modifies this
      ensures Valid()
      ensures client != null <==> |old(connections)| < maxConnections && upgrades
      ensures client == null ==> connections == old(connections)
      ensures client != null ==>
                fresh(client) && client.log == [] && client.lastActivity == now
                  && connections == old(connections)[clientID := client]
      ensures |old(connections)| <= maxConnections ==> |connections| <= maxConnections
    {
      if |connections| >= maxConnections {
        return null;
      }
      if !upgrades {
        return null;
      }
      client := new ClientConnection(clientID, now);
      connections := connections[clientID := client];
    }

    /** Every message write tests the flag first: nothing is written to a socket once
        it is closed. */
    method Write(client: ClientConnection, message: string) returns (sent: bool)
      modifies client`log
      ensures sent == !client.closed
      ensures client.log == if client.closed then old(client.log) else old(client.log) + [Message(message)]
    {
      if client.closed {
        return false;
      }
      client.log := client.log + [Message(message)];
      return true;
    }

    method SendMessage(clientID: string, message: string) returns (sent: bool)
      requires Valid()
      modifies connections.Values
      ensures Valid() && sent == (clientID in connections)
      ensures sent ==> connections[clientID].log == old(connections[clientID].log) + [Message(message)]
      ensures forall id :: id in connections && id != clientID ==> connections[id].log == old(connections[id].log)
      ensures forall id :: id in connections ==> connections[id].lastActivity == old(connections[id].lastActivity)
    {
      if clientID !in connections {
        return false;
      }
      sent := Write(connections[clientID], message);
    }

    /** The first close tears the connection down and takes it out of the table; any
        later one does nothing. */
    method CloseConnection(client: ClientConnection)
      requires Valid() && (client.closed || (client.id in connections ==> connections[client.id] == client))
      modifies this, client
      ensures Valid() && client.closed && client.lastActivity == old(client.lastActivity)
      ensures connections == if old(client.closed) then old(connections) else old(connections) - {client.id}
      ensures client.log == if old(client.closed) then old(client.log) else old(client.log) + TEARDOWN
    {
      if client.closed {
        return;
      }
      client.closed := true;
      client.log := client.log + [CloseMessage];
      client.log := client.log + [SocketClosed];
      connections := connections - {client.id};
    }

    /** Closes a list of connections one after the other. */
    method CloseEach(ids: set<string>)
      requires Valid() && ids <= connections.Keys
      modifies this, connections.Values
      ensures Valid() && connections == old(connections) - ids
      ensures forall id :: id in ids ==>
          old(connections)[id].closed && old(connections)[id].log == old(connections[id].log) + TEARDOWN
      ensures forall id :: id in old(connections) && id !in ids ==> old(connections)[id].log == old(connections[id].log)
    {
      var clients := connections;
      var remaining := ids;
      while remaining != {}
        modifies this, clients.Values
        invariant remaining <= ids && clients == old(connections)
        invariant forall id :: id in clients ==> clients[id].id == id
        invariant connections == clients - (ids - remaining)
        invariant forall id :: id in ids - remaining ==>
            clients[id].closed && clients[id].log == old(clients[id].log) + TEARDOWN
        invariant forall id :: id in clients && id !in ids - remaining ==>
                    !clients[id].closed && clients[id].log == old(clients[id].log)
        decreases remaining
      {
        var id :| id in remaining;
        CloseConnection(clients[id]);
        remaining := remaining - {id};
      }
      assert ids - {} == ids;
    }

    /** Shutdown leaves no connection open and none in the table. */
    method CloseAllConnections()
      requires Valid()
      modifies this, connections.Values
      ensures Valid() && connections == map[]
      ensures forall id :: id in old(connections) ==>
                old(connections)[id].closed && old(connections)[id].log == old(connections[id].log) + TEARDOWN
    {
      CloseEach(connections.Keys);
    }

    /** Exactly the connections idle for more than half an hour are closed. */
    method CleanConnections(now: int)
      requires Valid()
      modifies this, connections.Values
      ensures Valid()
      ensures forall id :: id in connections <==>
          id in old(connections) && old(connections[id].lastActivity) >= now - IDLE_LIMIT
      ensures forall id :: id in connections ==>
          connections[id] == old(connections)[id] && connections[id].log == old(connections[id].log)
      ensures forall id :: id in old(connections) && id !in connections ==>
                old(connections)[id].closed && old(connections)[id].log == old(connections[id].log) + TEARDOWN
    {
      var toClose: set<string> := {};
      var remaining := connections.Keys;
      while remaining != {}
        invariant remaining <= connections.Keys
        invariant forall id :: id in toClose <==>
            id in connections && id !in remaining && connections[id].lastActivity < now - IDLE_LIMIT
        decreases remaining
      {
        var id :| id in remaining;
        if connections[id].lastActivity < now - IDLE_LIMIT {
          toClose := toClose + {id};
        }
        remaining := remaining - {id};
      }
      CloseEach(toClose);
    }
  }
}
