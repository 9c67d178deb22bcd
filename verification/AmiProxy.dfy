/** The AMI proxy: it reads actions from its clients, lets them log in, forwards
    what they send once they have, and prints the replies. */
module AmiProxy {
  import opened Ttl
  import opened AmiFraming

  // ---------------------------------------------------------- reading, printing

  class Reader {
    var data: string

    constructor (input: string)
      ensures data == input
    {
      data := input;
    }

    method ReadString() returns (line: Option<string>)
      modifies this
      ensures var r := ReadLine(old(data));
              if r.None? then line == None && data == "" else line == Some(r.value.0) && data == r.value.1
    {
      var r := ReadLine(data);
      if r.None? {
        data := "";
        return None;
      }
      data := r.value.1;
      return Some(r.value.0);
    }
  }

  /** readAction and the inner loop of readLoop: a message, or None when the input
      ends in the middle of one. What follows the message stays unread. */
  method ReadMessage(d: Dialect, reader: Reader) returns (r: Option<Message>)
    modifies reader
    ensures var parsed := Parse(d, old(reader.data));
            if parsed.None? then r == None else r == Some(parsed.value.0) && reader.data == parsed.value.1
  {
    hide ReadLine, ParseLine;
    var message: Message := map[];
    while true
      invariant ParseFrom(d, reader.data, message) == Parse(d, old(reader.data))
      decreases |reader.data|
    {
      var line := reader.ReadString();
      if line.None? {
        return None;
      }
      match ParseLine(d, line.value)
      case End => return Some(message);
      case Skip =>
      case Pair(key, value) => message := message[key := value];
    }
  }

  lemma {:induction false} PrintExtends(m: Message, order: seq<string>, key: string, lines: string)
    requires key in m && (forall k :: k in order ==> k in m) && lines + "\r\n" == Print(m, order)
    ensures lines + LineOf(key, m[key]) + "\r\n" == Print(m, order + [key])
    decreases |order|
  {
    hide LineOf;
    if order == [] {
      assert lines == "" by { assert |lines + "\r\n"| == |"\r\n"|; }
      assert ([] + [key])[1..] == [];
    } else {
      var (first, rest) := (LineOf(order[0], m[order[0]]), order[1..]);
      PrintIsLinesAndEnd(m, rest);
      var tail := Print(m, rest);
      var later := tail[..|tail| - 2];
      assert later + "\r\n" == tail;
      assert first + tail == (first + later) + "\r\n";
      assert lines == (lines + "\r\n")[..|lines|] == first + later;
      PrintExtends(m, rest, key, later);
      assert (order + [key])[1..] == rest + [key];
    }
  }

  lemma {:induction false} PrintIsLinesAndEnd(m: Message, order: seq<string>)
    requires forall k :: k in order ==> k in m
    ensures |Print(m, order)| >= 2 && Print(m, order)[|Print(m, order)| - 2..] == "\r\n"
    decreases |order|
  {
    if order != [] {
      PrintIsLinesAndEnd(m, order[1..]);
    }
  }

  /** Ranges over the map: every key once, in whatever order. */
  method Format(m: Message) returns (text: string, ghost order: seq<string>)
    ensures IsOrder(order, m) && text == Print(m, order)
    ensures forall d, rest :: WellFormed(m) ==> Parse(d, text + rest) == Some((m, rest))
  {
    hide LineOf, Print, WellFormed, Parse;
    text, order := "", [];
    var remaining := m.Keys;
    assert "" + "\r\n" == Print(m, []) by { PrintNothing(m); }
    while remaining != {}
      invariant remaining <= m.Keys && forall k :: k in order <==> k in m && k !in remaining
      invariant forall i, j :: 0 <= i < j < |order| ==> order[i] != order[j]
      invariant text + "\r\n" == Print(m, order)
      decreases remaining
    {
      var key :| key in remaining;
      PrintExtends(m, order, key, text);
      text := text + LineOf(key, m[key]);
      order := order + [key];
      remaining := remaining - {key};
    }
    text := text + "\r\n";
    forall d, rest | WellFormed(m) ensures Parse(d, text + rest) == Some((m, rest)) {
      RoundTripIff(d, m, order, rest);
    }
  }

  lemma PrintNothing(m: Message)
    ensures Print(m, []) == "\r\n"
  {}

  // --------------------------------------------------------------- login gate

  /** A connection. */
  type Conn = nat

  datatype ClientInfo = ClientInfo(authenticated: bool, username: string)

  /** What the backend makes of a message. */
  datatype Reply = Accepted(message: Message) | Refused(error: string)

  /** What goes to the backend: nothing, a rebuilt login, or the client's own action. */
  datatype Sent = Nothing | Login(message: Message) | Forwarded(message: Message)

  function Field(m: Message, k: string): string {
    if k in m then m[k] else ""
  }

  /** strings.EqualFold: the letters of "login" only fold to their ASCII capitals. */
  predicate IsLogin(action: Message) {
    var name := Field(action, "Action");
    |name| == 5 && forall i :: 0 <= i < 5 ==> name[i] == "login"[i] || name[i] == "LOGIN"[i]
  }

  function ErrorResponse(message: string): Message {
    map["Response" := "Error", "Message" := message]
  }

  predicate HasCredentials(action: Message) {
    Field(action, "Username") != "" && Field(action, "Secret") != ""
  }

  predicate LogsIn(action: Message, reply: Reply) {
    IsLogin(action) && HasCredentials(action) && reply.Accepted? && Field(reply.message, "Response") == "Success"
  }

  /** One action of a client: its record afterwards, what was sent to the backend,
      and the response. */
  function Handle(client: ClientInfo, action: Message, reply: Reply): (ClientInfo, Sent, Message) {
    if IsLogin(action) then
      var (username, secret) := (Field(action, "Username"), Field(action, "Secret"));
      if !HasCredentials(action) then (client, Nothing, ErrorResponse("Missing credentials"))
      else
        var login := Login(map["Action" := "Login", "Username" := username, "Secret" := secret]);
        if !LogsIn(action, reply) then (client, login, ErrorResponse("Authentication failed"))
        else (ClientInfo(true, username), login, map["Response" := "Success", "Message" := "Authentication accepted"])
    else if !client.authenticated then (client, Nothing, ErrorResponse("Not authenticated"))
    else
      (client, Forwarded(action),
       match reply case Accepted(m) => m case Refused(e) => ErrorResponse(e))
  }

  datatype Op =
    | Connect(c: Conn)
    | Act(c: Conn, action: Message, reply: Reply)
    | Disconnect(c: Conn)

  type Clients = map<Conn, ClientInfo>

  function Apply(clients: Clients, op: Op): Clients {
    match op
    case Connect(c) => clients[c := ClientInfo(false, "")]
    case Act(c, action, reply) => if c in clients then clients[c := Handle(clients[c], action, reply).0] else clients
    case Disconnect(c) => clients - {c}
  }

  function After(run: seq<Op>): Clients
    decreases |run|
  {
    if run == [] then map[] else Apply(After(run[..|run| - 1]), run[|run| - 1])
  }

  /** The client's present connection was made at `i`. */
  predicate OpenedAt(run: seq<Op>, c: Conn, i: nat) {
    i < |run| && run[i] == Connect(c) && forall m :: i < m < |run| ==> run[m] != Connect(c) && run[m] != Disconnect(c)
  }

  predicate LoginAt(run: seq<Op>, c: Conn, j: nat) {
    j < |run| && run[j].Act? && run[j].c == c && LogsIn(run[j].action, run[j].reply)
  }

  lemma OpenedExtends(run: seq<Op>, c: Conn, i: nat)
    requires run != [] && i < |run| - 1
    ensures var op := run[|run| - 1];
            OpenedAt(run, c, i) <==> OpenedAt(run[..|run| - 1], c, i) && op != Connect(c) && op != Disconnect(c)
  {
    var before := run[..|run| - 1];
    assert forall m :: 0 <= m < |before| ==> before[m] == run[m];
  }

  lemma {:induction false} ConnectedIff(run: seq<Op>, c: Conn)
    ensures c in After(run) <==> exists i: nat :: OpenedAt(run, c, i)
    decreases |run|
  {
    hide Handle;
    if run != [] {
      var before := run[..|run| - 1];
      ConnectedIff(before, c);
      forall i: nat | i < |run| - 1
        ensures OpenedAt(run, c, i) <==>
            OpenedAt(before, c, i) && run[|run| - 1] != Connect(c) && run[|run| - 1] != Disconnect(c)
      {
        OpenedExtends(run, c, i);
      }
      if run[|run| - 1] == Connect(c) {
        assert OpenedAt(run, c, |run| - 1);
      }
    }
  }

  ghost predicate LoggedIn(run: seq<Op>, c: Conn) {
    exists i: nat, j: nat :: OpenedAt(run, c, i) && i < j && LoginAt(run, c, j)
  }

  /** A client is authenticated exactly when a login with credentials that the backend
      confirmed has been made on its present connection. Nothing else a client or
      another connection does grants it, and nothing but disconnecting takes it away. */
  lemma {:induction false} AuthenticatedIff(run: seq<Op>, c: Conn)
    ensures c in After(run) && After(run)[c].authenticated <==> LoggedIn(run, c)
    decreases |run|
  {
    if run != [] {
      var (before, op) := (run[..|run| - 1], run[|run| - 1]);
      AuthenticatedIff(before, c);
      ConnectedIff(before, c);
      LastStep(run, c);
    }
  }

  lemma LastStep(run: seq<Op>, c: Conn)
    requires run != []
    ensures var (before, op) := (run[..|run| - 1], run[|run| - 1]);
            LoggedIn(run, c) <==>
              && op != Connect(c) && op != Disconnect(c)
              && (LoggedIn(before, c) || (LoginAt(run, c, |run| - 1) && exists i: nat :: OpenedAt(before, c, i)))
  {
    hide LogsIn;
    var (before, op) := (run[..|run| - 1], run[|run| - 1]);
    forall i: nat | i < |run| - 1
      ensures OpenedAt(run, c, i) <==> OpenedAt(before, c, i) && op != Connect(c) && op != Disconnect(c)
      ensures LoginAt(run, c, i) <==> LoginAt(before, c, i)
    {
      OpenedExtends(run, c, i);
    }
    if LoggedIn(run, c) {
      var i: nat, j: nat :| OpenedAt(run, c, i) && i < j && LoginAt(run, c, j);
      assert OpenedAt(before, c, i);
      if j < |run| - 1 {
        assert LoginAt(before, c, j);
      }
    }
    if op != Connect(c) && op != Disconnect(c) {
      if LoggedIn(before, c) {
        var i: nat, j: nat :| OpenedAt(before, c, i) && i < j && LoginAt(before, c, j);
        assert OpenedAt(run, c, i) && LoginAt(run, c, j);
      } else if LoginAt(run, c, |run| - 1) && exists i: nat :: OpenedAt(before, c, i) {
        var i: nat :| OpenedAt(before, c, i);
        assert OpenedAt(run, c, i);
      }
    }
  }

  /** In every run, an action reaches the backend under the client's own name exactly
      when it is not a login and such a login came before it; a login reaches the
      backend only as the three fields the proxy rebuilds it from. */
  lemma ForwardedIff(run: seq<Op>, c: Conn, action: Message, reply: Reply)
    requires c in After(run)
    ensures var sent := Handle(After(run)[c], action, reply).1;
            && (sent.Forwarded? <==> !IsLogin(action) && LoggedIn(run, c))
            && (sent.Forwarded? ==> sent.message == action)
            && (sent.Login? <==> IsLogin(action) && HasCredentials(action))
            && (sent.Login? ==>
                  && sent.message.Keys == {"Action", "Username", "Secret"} && sent.message["Action"] == "Login"
                  && sent.message["Username"] == action["Username"] && sent.message["Secret"] == action["Secret"])
  {
    AuthenticatedIff(run, c);
  }

  predicate IsError(response: Message, text: string) {
    response.Keys == {"Response", "Message"} && response["Response"] == "Error" && response["Message"] == text
  }

  /** What the client is told, in every run: a login fails for want of credentials or of
      the backend's confirmation, anything else for want of a login on this connection;
      otherwise the client gets the backend's own reply, or its error's text. */
  lemma ResponseIs(run: seq<Op>, c: Conn, action: Message, reply: Reply)
    requires c in After(run)
    ensures var response := Handle(After(run)[c], action, reply).2;
            if IsLogin(action) && !HasCredentials(action) then IsError(response, "Missing credentials")
            else if IsLogin(action) && !LogsIn(action, reply) then IsError(response, "Authentication failed")
            else if IsLogin(action) then
              && response.Keys == {"Response", "Message"} && response["Response"] == "Success"
              && response["Message"] == "Authentication accepted"
            else if !LoggedIn(run, c) then IsError(response, "Not authenticated")
            else if reply.Refused? then IsError(response, reply.error)
            else response == reply.message
  {
    AuthenticatedIff(run, c);
  }

  function Lower(s: string): (r: string)
    ensures |r| == |s|
  {
    seq(|s|, i requires 0 <= i < |s| => if 'A' <= s[i] <= 'Z' then 'a' + (s[i] - 'A') else s[i])
  }

  /** An action is a login exactly when its name is, in any mixture of letter cases. */
  lemma IsLoginIff(action: Message)
    ensures IsLogin(action) <==> "Action" in action && Lower(action["Action"]) == "login"
  {
    var name := Field(action, "Action");
    if |name| == 5 {
      forall i | 0 <= i < 5
        ensures name[i] == "login"[i] || name[i] == "LOGIN"[i] <==> Lower(name)[i] == "login"[i]
      {}
      assert Lower(name) == "login" <==> forall i :: 0 <= i < 5 ==> Lower(name)[i] == "login"[i];
    }
  }

  /** The name kept for a client is the one of its last login on this connection. */
  lemma {:induction false} NameIsLastLogin(run: seq<Op>, c: Conn, i: nat, j: nat)
    requires OpenedAt(run, c, i) && i < j && LoginAt(run, c, j)
    requires forall k :: j < k < |run| ==> !LoginAt(run, c, k)
    ensures c in After(run) && After(run)[c] == ClientInfo(true, run[j].action["Username"])
    decreases |run|
  {
    hide LogsIn, HasCredentials, IsLogin;
    var (before, last) := (run[..|run| - 1], |run| - 1);
    ConnectedIff(run, c);
    ConnectedIff(before, c);
    OpenedExtends(run, c, i);
    if j < last {
      assert LoginAt(before, c, j) && forall k :: j < k < last ==> (LoginAt(before, c, k) <==> LoginAt(run, c, k));
      NameIsLastLogin(before, c, i, j);
      assert !LoginAt(run, c, last);
      KeepsName(After(before), run[last], c);
    } else {
      assert OpenedAt(before, c, i);
      LoginSetsName(After(before)[c], run[j].action, run[j].reply);
    }
  }

  lemma KeepsName(clients: Clients, op: Op, c: Conn)
    requires c in clients && op != Connect(c) && op != Disconnect(c)
    requires op.Act? && op.c == c ==> !LogsIn(op.action, op.reply)
    ensures c in Apply(clients, op) && Apply(clients, op)[c] == clients[c]
  {
    hide LogsIn;
  }

  lemma LoginSetsName(client: ClientInfo, action: Message, reply: Reply)
    requires LogsIn(action, reply)
    ensures "Username" in action && Handle(client, action, reply).0 == ClientInfo(true, action["Username"])
  {}

  // ------------------------------------------------------------------- object

  class Server {
    var clients: Clients
    /** What has been written to each connection. */
    var written: map<Conn, string>

    constructor ()
      ensures clients == map[] && written == map[]
    {
      clients, written := map[], map[];
    }

    method Accept(conn: Conn)
      modifies this
      ensures clients == Apply(old(clients), Connect(conn))
      ensures written == old(written)[conn := "Asterisk Call Manager/1.4\r\n"]
    {
      clients := clients[conn := ClientInfo(false, "")];
      written := written[conn := "Asterisk Call Manager/1.4\r\n"];
    }

    method Close(conn: Conn)
      modifies `clients
      ensures clients == Apply(old(clients), Disconnect(conn))
    {
      clients := clients - {conn};
    }

    method SendResponse(conn: Conn, response: Message) returns (ghost order: seq<string>)
      modifies `written
      ensures IsOrder(order, response)
      ensures written == if conn in clients && conn in old(written)
                         then old(written)[conn := old(written)[conn] + Print(response, order)] else old(written)
    {
      hide Print, IsOrder;
      var text;
      text, order := Format(response);
      if conn in clients && conn in written {
        written := written[conn := written[conn] + text];
      }
    }

    method HandleLoginAction(conn: Conn, action: Message, reply: Reply) returns (sent: Sent, ghost order: seq<string>)
      requires conn in clients && conn in written && IsLogin(action)
      modifies this
      ensures var (client, s, response) := Handle(old(clients)[conn], action, reply);
              && sent == s && clients == old(clients)[conn := client] && IsOrder(order, response)
              && written == old(written)[conn := old(written)[conn] + Print(response, order)]
    {
      hide Print, IsOrder;
      var username, secret := Field(action, "Username"), Field(action, "Secret");
      assert clients[conn := clients[conn]] == clients;
      if username == "" || secret == "" {
        order := SendResponse(conn, ErrorResponse("Missing credentials"));
        return Nothing, order;
      }
      sent := Login(map["Action" := "Login", "Username" := username, "Secret" := secret]);
      if reply.Refused? || Field(reply.message, "Response") != "Success" {
        order := SendResponse(conn, ErrorResponse("Authentication failed"));
        return;
      }
      clients := clients[conn := clients[conn].(authenticated := true, username := username)];
      order := SendResponse(conn, map["Response" := "Success", "Message" := "Authentication accepted"]);
    }

    /** One round of handleClient's loop. */
    method HandleAction(conn: Conn, action: Message, reply: Reply) returns (sent: Sent, ghost order: seq<string>)
      requires conn in clients && conn in written
      modifies this
      ensures clients == Apply(old(clients), Act(conn, action, reply))
      ensures var (_, s, response) := Handle(old(clients)[conn], action, reply);
              && sent == s && IsOrder(order, response)
              && written == old(written)[conn := old(written)[conn] + Print(response, order)]
    {
      hide Print, IsOrder;
      if IsLogin(action) {
        sent, order := HandleLoginAction(conn, action, reply);
        return;
      }
      assert clients[conn := clients[conn]] == clients;
      if !clients[conn].authenticated {
        order := SendResponse(conn, ErrorResponse("Not authenticated"));
        return Nothing, order;
      }
      sent := Forwarded(action);
      match reply
      case Refused(error) => order := SendResponse(conn, ErrorResponse(error));
      case Accepted(response) => order := SendResponse(conn, response);
    }

    /** Backend events go to the authenticated clients only. */
    method ForwardEvent(conn: Conn, event: Message) returns (ghost order: seq<string>)
      modifies `written
      ensures IsOrder(order, event)
      ensures written == if conn in clients && conn in old(written) && clients[conn].authenticated
                         then old(written)[conn := old(written)[conn] + Print(event, order)] else old(written)
    {
      hide Print, IsOrder;
      var text;
      text, order := Format(event);
      if conn in clients && conn in written && clients[conn].authenticated {
        written := written[conn := written[conn] + text];
      }
    }
  }
}
