/** The shared registries and the per-client state machine of src/connections.rs, with the
    `User` record of src/user.rs folded in. Locks are gone: each operation is one sequential
    step. A `Sender<String>` becomes a `Mailbox` name, and a send becomes an `Envelope`
    returned by the step; `Deliver` appends envelopes to per-mailbox queues. */
module ConnectionRegistry {
  import opened Wrappers
  import Messages
  import ChannelRegistry

  /** A client's socket address, kept abstract. */
  datatype Address = Address(id: nat)

  /** One connection's outbound queue. Every clone of a `Sender` names the same mailbox. */
  datatype Mailbox = Mailbox(id: nat)

  /** One record queued on a mailbox. */
  datatype Envelope = Envelope(to: Mailbox, text: string)

  /** The server name used in every reply. */
  const HOST: string := "localhost"

  /** The numeric of the nickname-collision reply. Its module is not part of this model; the
      value is the one RFC 1459 (section 6.1) gives ERR_ALREADYREGISTRED. */
  const ERR_ALREADYREGISTRED: string := "462"

  // ---------------------------------------------------------------------------------------
  // Outbound record formats.

  function WelcomeLine(nick: string): string
  {
    ":" + HOST + " 001 " + nick + " :Welcome to the Internet Relay Network, " + nick + "!\r\n"
  }

  function NickInUseLine(nick: string): string
  {
    ":" + HOST + " " + ERR_ALREADYREGISTRED + " * " + nick + " :Nickname already in use\r\n"
  }

  function PrivmsgLine(sender: string, nick: string, message: string): string
  {
    sender + " PRIVMSG " + nick + " " + message + "\r\n"
  }

  function PongLine(server: string): string
  {
    ":" + HOST + " " + HOST + " " + server + "\r\n"
  }

  function SenderLabel(nick: string, user: string): string
  {
    ":" + nick + "!" + user + "@" + HOST
  }

  // ---------------------------------------------------------------------------------------
  // `Connections`: address -> mailbox, nickname -> mailbox, and the channel registry.

  datatype Connections = Connections(
    connectionMap: map<Address, Mailbox>,
    nicksMap: map<string, Mailbox>,
    channels: ChannelRegistry.Channels)

  /** `Connections::new`: nothing registered, no nickname claimed, no channel. */
  function NewConnections(): (c: Connections)
    ensures c.connectionMap.Keys == {} && c.nicksMap.Keys == {}
    ensures c.channels.channelsMap.Keys == {}
  {
    Connections(map[], map[], ChannelRegistry.New())
  }

  /** Every nickname claimed in `c` is still claimed in `c'`, by the same mailbox. */
  predicate NicksExtend(c: Connections, c': Connections)
  {
    forall n :: n in c.nicksMap ==> n in c'.nicksMap && c'.nicksMap[n] == c.nicksMap[n]
  }

  /** The identity a client has announced so far (`User` in src/user.rs). */
  datatype User = User(nick: Option<string>, user: Option<string>, host: Option<string>, fullName: Option<string>)

  /** `User::new`. */
  const NewUser: User := User(None, None, None, None)

  /** `UserConnection`: one client's identity, its own mailbox and whether it got the welcome.
      The shared `Connections` it holds is passed to each handler instead. */
  datatype UserConnection = UserConnection(sender: Mailbox, user: User, authenticated: bool)

  /** `register_connection`: record `address -> sender` and hand back a fresh session that owns
      `sender`, knows nothing of its user and is not authenticated. */
  function RegisterConnection(c: Connections, address: Address, sender: Mailbox): (r: (Connections, UserConnection))
    ensures address in r.0.connectionMap && r.0.connectionMap[address] == sender
    ensures r.0.connectionMap.Keys == c.connectionMap.Keys + {address}
    ensures forall a :: a in c.connectionMap && a != address ==> r.0.connectionMap[a] == c.connectionMap[a]
    ensures r.0.nicksMap == c.nicksMap && r.0.channels == c.channels
    ensures r.1.sender == sender && !r.1.authenticated
    ensures r.1.user.nick.None? && r.1.user.user.None? && r.1.user.host.None? && r.1.user.fullName.None?
  {
    (c.(connectionMap := c.connectionMap[address := sender]),
     UserConnection(sender, NewUser, false))
  }

  /** `set_nick_if_available`: the atomic check-and-set. A nickname already claimed is refused
      and nothing changes; otherwise it is bound to `sender` and nothing else changes. */
  function SetNickIfAvailable(c: Connections, sender: Mailbox, nick: string): (r: (Connections, bool))
    ensures r.1 <==> nick !in c.nicksMap
    ensures !r.1 ==> r.0 == c
    ensures nick in r.0.nicksMap && (r.1 ==> r.0.nicksMap[nick] == sender)
    ensures r.0.nicksMap.Keys == c.nicksMap.Keys + {nick}
    ensures NicksExtend(c, r.0)
    ensures r.0.connectionMap == c.connectionMap && r.0.channels == c.channels
  {
    if nick in c.nicksMap then (c, false)
    else (c.(nicksMap := c.nicksMap[nick := sender]), true)
  }

  /** The requested nicknames that are claimed, in request order (duplicates kept). */
  function Present(nicksMap: map<string, Mailbox>, nicks: seq<string>): (r: seq<string>)
    ensures forall i :: 0 <= i < |r| ==> r[i] in nicksMap
  {
    if |nicks| == 0 then []
    else (if nicks[0] in nicksMap then [nicks[0]] else []) + Present(nicksMap, nicks[1..])
  }

  /** The filter keeps every claimed nickname as often as it was requested and drops every
      unclaimed one. */
  lemma {:induction false} PresentCounts(nicksMap: map<string, Mailbox>, nicks: seq<string>, n: string)
    ensures multiset(Present(nicksMap, nicks))[n] == if n in nicksMap then multiset(nicks)[n] else 0
    decreases |nicks|
  {
    if |nicks| > 0 {
      assert nicks == [nicks[0]] + nicks[1..];
      PresentCounts(nicksMap, nicks[1..], n);
    }
  }

  lemma PresentCons(nicksMap: map<string, Mailbox>, nicks: seq<string>)
    requires |nicks| > 0
    ensures Present(nicksMap, nicks) ==
      (if nicks[0] in nicksMap then [nicks[0]] else []) + Present(nicksMap, nicks[1..])
  {
  }

  /** First phase of `send_msg_to_nicks`, under the lock: the mailbox of each claimed nickname. */
  function Senders(nicksMap: map<string, Mailbox>, nicks: seq<string>): (r: seq<(string, Mailbox)>)
    ensures |r| == |Present(nicksMap, nicks)|
    ensures forall i :: 0 <= i < |r| ==>
      r[i].0 == Present(nicksMap, nicks)[i] && r[i].1 == nicksMap[Present(nicksMap, nicks)[i]]
  {
    if |nicks| == 0 then []
    else
      var rest := Senders(nicksMap, nicks[1..]);
      PresentCons(nicksMap, nicks);
      if nicks[0] in nicksMap then [(nicks[0], nicksMap[nicks[0]])] + rest
      else
        assert [] + Present(nicksMap, nicks[1..]) == Present(nicksMap, nicks[1..]);
        rest
  }

  /** `send_msg_to_nicks`: one PRIVMSG record for each claimed nickname, in request order, queued
      on that nickname's mailbox; unclaimed nicknames are skipped without a word. */
  function SendMsgToNicks(c: Connections, user: string, message: string, nicks: seq<string>): (out: seq<Envelope>)
    ensures |out| == |Present(c.nicksMap, nicks)|
    ensures forall i :: 0 <= i < |out| ==>
      out[i] == Envelope(c.nicksMap[Present(c.nicksMap, nicks)[i]], PrivmsgLine(user, Present(c.nicksMap, nicks)[i], message))
    ensures forall i :: 0 <= i < |out| ==> out[i].to in c.nicksMap.Values
  {
    var senders := Senders(c.nicksMap, nicks);
    seq(|senders|, i requires 0 <= i < |senders| => Envelope(senders[i].1, PrivmsgLine(user, senders[i].0, message)))
  }

  // ---------------------------------------------------------------------------------------
  // Mailboxes as append-only queues.

  type PostOffice = map<Mailbox, seq<string>>

  function Inbox(post: PostOffice, m: Mailbox): seq<string>
  {
    if m in post then post[m] else []
  }

  /** The texts of the envelopes addressed to `m`, in order. */
  function TextsTo(out: seq<Envelope>, m: Mailbox): seq<string>
  {
    if |out| == 0 then []
    else (if out[0].to == m then [out[0].text] else []) + TextsTo(out[1..], m)
  }

  /** Queue each envelope, in order, at the end of its mailbox. */
  function Deliver(post: PostOffice, out: seq<Envelope>): PostOffice
    decreases |out|
  {
    if |out| == 0 then post
    else Deliver(post[out[0].to := Inbox(post, out[0].to) + [out[0].text]], out[1..])
  }

  /** Delivery only appends: each mailbox ends with exactly the texts addressed to it. */
  lemma {:induction false} DeliverAppends(post: PostOffice, out: seq<Envelope>, m: Mailbox)
    ensures Inbox(Deliver(post, out), m) == Inbox(post, m) + TextsTo(out, m)
    decreases |out|
  {
    if |out| > 0 {
      var post' := post[out[0].to := Inbox(post, out[0].to) + [out[0].text]];
      DeliverAppends(post', out[1..], m);
    }
  }

  /** The records for `m` in two batches are those of the first, then those of the second. */
  lemma {:induction false} TextsToAppend(a: seq<Envelope>, b: seq<Envelope>, m: Mailbox)
    ensures TextsTo(a + b, m) == TextsTo(a, m) + TextsTo(b, m)
  {
    if |a| > 0 {
      assert (a + b)[0] == a[0];
      assert (a + b)[1..] == a[1..] + b;
      TextsToAppend(a[1..], b, m);
    } else {
      assert a + b == b;
    }
  }

  lemma {:induction false} TextsToNone(out: seq<Envelope>, m: Mailbox)
    requires forall i :: 0 <= i < |out| ==> out[i].to != m
    ensures TextsTo(out, m) == []
  {
    if |out| > 0 {
      TextsToNone(out[1..], m);
    }
  }

  /** `send_msg_to_nicks` leaves every mailbox no claimed nickname maps to as it was. */
  lemma SendMsgToNicksFrame(post: PostOffice, c: Connections, user: string, message: string, nicks: seq<string>, m: Mailbox)
    requires m !in c.nicksMap.Values
    ensures Inbox(Deliver(post, SendMsgToNicks(c, user, message, nicks)), m) == Inbox(post, m)
  {
    var out := SendMsgToNicks(c, user, message, nicks);
    TextsToNone(out, m);
    DeliverAppends(post, out, m);
  }

  // ---------------------------------------------------------------------------------------
  // The `UserConnection` handlers, each a step from the shared state and the session to the
  // new shared state, the new session and the records it queued.

  datatype Step = Step(conns: Connections, session: UserConnection, outbox: seq<Envelope>)

  /** `check_authenticated`: the first time both nickname and user name are known, queue the
      welcome on the client's own mailbox and set the flag; after that, do nothing. */
  function CheckAuthenticated(conns: Connections, s: UserConnection): (r: Step)
    ensures r.conns == conns && r.session.sender == s.sender && r.session.user == s.user
    ensures r.session.authenticated <==> s.authenticated || (s.user.nick.Some? && s.user.user.Some?)
    ensures r.outbox ==
      if !s.authenticated && r.session.authenticated then [Envelope(s.sender, WelcomeLine(s.user.nick.value))]
      else []
  {
    if s.authenticated then Step(conns, s, [])
    else if s.user.nick.Some? && s.user.user.Some? then
      Step(conns, s.(authenticated := true), [Envelope(s.sender, WelcomeLine(s.user.nick.value))])
    else Step(conns, s, [])
  }

  /** `set_nick`: claim the nickname. A refused claim (also of the client's own current nickname)
      queues the collision reply and keeps the stored nickname; a granted one stores it, and any
      nickname held before stays claimed. The hop count is ignored. */
  function SetNick(conns: Connections, s: UserConnection, nickname: string, hopCount: nat): (r: Step)
    ensures r.session.sender == s.sender && r.session.authenticated == s.authenticated
    ensures r.session.user == s.user.(nick := r.session.user.nick)
    ensures nickname in conns.nicksMap ==>
      r.conns == conns && r.session == s && r.outbox == [Envelope(s.sender, NickInUseLine(nickname))]
    ensures nickname !in conns.nicksMap ==>
      && r.session.user.nick == Some(nickname)
      && r.conns.nicksMap == conns.nicksMap[nickname := s.sender]
      && r.outbox == []
    ensures NicksExtend(conns, r.conns)
    ensures r.conns.connectionMap == conns.connectionMap && r.conns.channels == conns.channels
  {
    var (conns', claimed) := SetNickIfAvailable(conns, s.sender, nickname);
    if !claimed then Step(conns', s, [Envelope(s.sender, NickInUseLine(nickname))])
    else Step(conns', s.(user := s.user.(nick := Some(nickname))), [])
  }

  /** `set_user`: overwrite user name, host name and real name. */
  function SetUser(s: UserConnection, userName: string, hostName: string, serverName: string, realName: string): (r: UserConnection)
    ensures r.sender == s.sender && r.authenticated == s.authenticated && r.user.nick == s.user.nick
    ensures r.user.user == Some(userName) && r.user.host == Some(hostName) && r.user.fullName == Some(realName)
  {
    s.(user := s.user.(user := Some(userName), host := Some(hostName), fullName := Some(realName)))
  }

  /** `send_priv_msg`: the sender label needs both nickname and user name; with either missing
      the `unwrap` panics (`None` here) before anything is sent. */
  function SendPrivMsg(conns: Connections, s: UserConnection, receivers: seq<string>, message: string): (r: Option<seq<Envelope>>)
    ensures r.None? <==> s.user.nick.None? || s.user.user.None?
    ensures r.Some? ==> r.value == SendMsgToNicks(conns, SenderLabel(s.user.nick.value, s.user.user.value), message, receivers)
  {
    if s.user.nick.None? || s.user.user.None? then None
    else Some(SendMsgToNicks(conns, SenderLabel(s.user.nick.value, s.user.user.value), message, receivers))
  }

  /** `ping`: reply on the client's own mailbox, whatever its registration state. */
  function Ping(s: UserConnection, server: string): (out: seq<Envelope>)
    ensures |out| == 1 && out[0].to == s.sender
  {
    [Envelope(s.sender, PongLine(server))]
  }

  /** How one message ended: normally, with an error the caller discards after the effects in
      `step`, or in a panic that ends the connection's task. */
  datatype Outcome = Completed(step: Step) | Failed(step: Step) | Panicked

  /** `handle_message_aux`: the dispatch. PASS, channel PRIVMSG, QUIT and MODE reach `todo!()`.
      JOIN builds an iterator it never consumes: it fails when no nickname is set and has no
      effect either way. */
  function HandleMessageAux(conns: Connections, s: UserConnection, m: Messages.UserMessage): Outcome
  {
    match m
    case Nick(nickname, hopCount) =>
      var st := SetNick(conns, s, nickname, hopCount);
      var st' := CheckAuthenticated(st.conns, st.session);
      Completed(Step(st'.conns, st'.session, st.outbox + st'.outbox))
    case User(userName, hostName, serverName, realName) =>
      var st := CheckAuthenticated(conns, SetUser(s, userName, hostName, serverName, realName));
      Completed(st)
    case Password(_) => Panicked
    case PrivateMessage(receivers, message) =>
      (match SendPrivMsg(conns, s, receivers, message)
       case None => Panicked
       case Some(out) => Completed(Step(conns, s, out)))
    case MessageToChannel(_, _) => Panicked
    case Join(_, _) =>
      if s.user.nick.None? then Failed(Step(conns, s, [])) else Completed(Step(conns, s, []))
    case Quit(_) => Panicked
    case Ping(server) => Completed(Step(conns, s, Ping(s, server)))
    case Mode(_, _) => Panicked
    case InvalidMessage => Completed(Step(conns, s, []))
  }

  /** `handle_message`: errors are dropped; `None` when the handler panicked. Apart from the
      nickname map growing by granted claims, the shared state never changes, and the flag is
      never cleared. */
  function HandleMessage(conns: Connections, s: UserConnection, m: Messages.UserMessage): (r: Option<Step>)
    ensures r.None? <==>
      || m.Password? || m.MessageToChannel? || m.Quit? || m.Mode?
      || (m.PrivateMessage? && (s.user.nick.None? || s.user.user.None?))
    ensures m.InvalidMessage? || m.Join? ==> r == Some(Step(conns, s, []))
    ensures m.Ping? ==> r == Some(Step(conns, s, [Envelope(s.sender, PongLine(m.server))]))
    ensures r.Some? ==>
      && r.value.session.sender == s.sender
      && (s.authenticated ==> r.value.session.authenticated)
      && NicksExtend(conns, r.value.conns)
      && r.value.conns.connectionMap == conns.connectionMap
      && r.value.conns.channels == conns.channels
  {
    match HandleMessageAux(conns, s, m)
    case Completed(st) => Some(st)
    case Failed(st) => Some(st)
    case Panicked => None
  }

}
