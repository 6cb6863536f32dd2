/** What the session state machine guarantees over whole runs: a client's lines are parsed and
    handled one after another, as its connection task does, until a handler panics. */
module SessionProperties {
  import opened Wrappers
  import opened Text
  import Messages
  import opened ConnectionRegistry

  /** Authenticated exactly when both nickname and user name are known. */
  predicate Registered(s: UserConnection)
  {
    s.authenticated <==> s.user.nick.Some? && s.user.user.Some?
  }

  /** The nickname and user name hold no space, as every parsed NICK and USER guarantees. */
  predicate SpaceFreeIdentity(s: UserConnection)
  {
    && (s.user.nick.Some? ==> ' ' !in s.user.nick.value)
    && (s.user.user.Some? ==> ' ' !in s.user.user.value)
  }

  predicate SpaceFreeMessage(m: Messages.UserMessage)
  {
    && (m.Nick? ==> ' ' !in m.nickname)
    && (m.User? ==> ' ' !in m.userName)
  }

  /** A stored nickname is claimed, by the session's own mailbox. */
  predicate OwnsNick(conns: Connections, s: UserConnection)
  {
    s.user.nick.Some? ==> s.user.nick.value in conns.nicksMap && conns.nicksMap[s.user.nick.value] == s.sender
  }

  predicate Good(conns: Connections, s: UserConnection)
  {
    Registered(s) && SpaceFreeIdentity(s) && OwnsNick(conns, s)
  }

  /** A freshly registered connection satisfies the invariant. */
  lemma FreshSessionIsGood(c: Connections, address: Address, sender: Mailbox)
    ensures var (c', s) := RegisterConnection(c, address, sender); Good(c', s)
  {
  }

  lemma ParsedIsSpaceFree(line: string)
    requires Messages.Parsable(line)
    ensures SpaceFreeMessage(Messages.ParseMessage(line))
  {
    Messages.ParsedIsWireReady(line);
  }

  // ---------------------------------------------------------------------------------------
  // Counting welcome records.

  const WELCOME_PREFIX: string := ":localhost 001 "
  const WELCOME_END: string := "!\r\n"

  /** A record shaped like the welcome: its numeric prefix, and its closing `!` and CR LF. */
  predicate IsWelcome(text: string)
  {
    && |text| >= |WELCOME_PREFIX| + |WELCOME_END|
    && text[..|WELCOME_PREFIX|] == WELCOME_PREFIX
    && text[|text| - |WELCOME_END|..] == WELCOME_END
  }

  function WelcomeCount(out: seq<Envelope>): nat
  {
    if |out| == 0 then 0
    else (if IsWelcome(out[0].text) then 1 else 0) + WelcomeCount(out[1..])
  }

  lemma {:induction false} WelcomeCountAppend(a: seq<Envelope>, b: seq<Envelope>)
    ensures WelcomeCount(a + b) == WelcomeCount(a) + WelcomeCount(b)
  {
    if |a| > 0 {
      assert (a + b)[0] == a[0];
      assert (a + b)[1..] == a[1..] + b;
      WelcomeCountAppend(a[1..], b);
    } else {
      assert a + b == b;
    }
  }

  lemma {:induction false} NoWelcomeAmong(out: seq<Envelope>)
    requires forall i :: 0 <= i < |out| ==> !IsWelcome(out[i].text)
    ensures WelcomeCount(out) == 0
  {
    if |out| > 0 {
      NoWelcomeAmong(out[1..]);
    }
  }

  lemma WelcomeLineIsWelcome(nick: string)
    ensures IsWelcome(WelcomeLine(nick))
  {
    var p := ":" + HOST + " 001 ";
    assert p == WELCOME_PREFIX;
    var w := WelcomeLine(nick);
    assert w == p + (nick + " :Welcome to the Internet Relay Network, " + nick) + WELCOME_END;
    assert w[|w| - |WELCOME_END|..] == WELCOME_END;
  }

  /** The nickname-collision reply is never a welcome, whatever its numeric: it ends in `use`. */
  lemma InUseReplyIsNotWelcome(code: string, nick: string)
    ensures !IsWelcome(":" + HOST + " " + code + " * " + nick + " :Nickname already in use\r\n")
  {
    var t := ":" + HOST + " " + code + " * " + nick + " :Nickname already in use\r\n";
    assert t == (":" + HOST + " " + code + " * " + nick + " :Nickname already in us") + "e\r\n";
    assert t[|t| - 3] == 'e';
    assert WELCOME_END[0] == '!';
  }

  lemma NickInUseIsNotWelcome(nick: string)
    ensures !IsWelcome(NickInUseLine(nick))
  {
    InUseReplyIsNotWelcome(ERR_ALREADYREGISTRED, nick);
  }

  lemma PongIsNotWelcome(server: string)
    ensures !IsWelcome(PongLine(server))
  {
    var p := ":" + HOST + " " + HOST + " ";
    assert PongLine(server) == p + (server + "\r\n");
    assert PongLine(server)[11] == p[11] == 'l';
    assert WELCOME_PREFIX[11] == '0';
  }

  /** A PRIVMSG record starts with the sender label, which has no space, so it never has the
      welcome's space at index 10. */
  lemma PrivmsgIsNotWelcome(nick: string, user: string, target: string, message: string)
    requires ' ' !in nick && ' ' !in user
    ensures !IsWelcome(PrivmsgLine(SenderLabel(nick, user), target, message))
  {
    var prefix := SenderLabel(nick, user);
    var text := PrivmsgLine(prefix, target, message);
    assert text == prefix + (" PRIVMSG " + target + " " + message + "\r\n");
    assert |prefix| > 10;
    assert text[10] == prefix[10];
    assert prefix[10] in prefix;
    assert WELCOME_PREFIX[10] == ' ';
  }

  lemma PrivateMessagesAreNotWelcomes(c: Connections, nick: string, user: string, message: string, nicks: seq<string>)
    requires ' ' !in nick && ' ' !in user
    ensures WelcomeCount(SendMsgToNicks(c, SenderLabel(nick, user), message, nicks)) == 0
  {
    var out := SendMsgToNicks(c, SenderLabel(nick, user), message, nicks);
    forall i | 0 <= i < |out|
      ensures !IsWelcome(out[i].text)
    {
      PrivmsgIsNotWelcome(nick, user, Present(c.nicksMap, nicks)[i], message);
    }
    NoWelcomeAmong(out);
  }

  // ---------------------------------------------------------------------------------------
  // One message.

  /** Handling a message keeps the invariant, and its records hold a welcome exactly when the
      step is the one that authenticates the session. */
  lemma HandleMessageStep(conns: Connections, s: UserConnection, m: Messages.UserMessage)
    requires Good(conns, s) && SpaceFreeMessage(m)
    ensures var r := HandleMessage(conns, s, m);
      r.Some? ==>
        && Good(r.value.conns, r.value.session)
        && WelcomeCount(r.value.outbox) == (if !s.authenticated && r.value.session.authenticated then 1 else 0)
  {
    var r := HandleMessage(conns, s, m);
    match m
    case Nick(nickname, hop) =>
      var st := SetNick(conns, s, nickname, hop);
      var st' := CheckAuthenticated(st.conns, st.session);
      if nickname in conns.nicksMap {
        NickInUseIsNotWelcome(nickname);
      }
      assert WelcomeCount(st.outbox) == 0;
      if !st.session.authenticated && st'.session.authenticated {
        WelcomeLineIsWelcome(st.session.user.nick.value);
      }
      WelcomeCountAppend(st.outbox, st'.outbox);
    case User(u, h, sv, rn) =>
      var s1 := SetUser(s, u, h, sv, rn);
      if !s1.authenticated && s1.user.nick.Some? {
        WelcomeLineIsWelcome(s1.user.nick.value);
      }
    case PrivateMessage(receivers, message) =>
      if r.Some? {
        PrivateMessagesAreNotWelcomes(conns, s.user.nick.value, s.user.user.value, message, receivers);
      }
    case Ping(server) =>
      PongIsNotWelcome(server);
    case _ =>
  }

  /** Every welcome a record list holds is addressed to `m`. */
  predicate WelcomesOnlyTo(out: seq<Envelope>, m: Mailbox)
  {
    forall i :: 0 <= i < |out| && IsWelcome(out[i].text) ==> out[i].to == m
  }

  /** A welcome a handler queues goes to the handling session's own mailbox, never to another. */
  lemma WelcomesGoHome(conns: Connections, s: UserConnection, m: Messages.UserMessage)
    requires SpaceFreeIdentity(s)
    ensures var r := HandleMessage(conns, s, m);
      r.Some? ==> WelcomesOnlyTo(r.value.outbox, s.sender)
  {
    var r := HandleMessage(conns, s, m);
    match m
    case PrivateMessage(receivers, message) =>
      if r.Some? {
        var sl := SenderLabel(s.user.nick.value, s.user.user.value);
        var out := SendMsgToNicks(conns, sl, message, receivers);
        forall i | 0 <= i < |out|
          ensures !IsWelcome(out[i].text)
        {
          PrivmsgIsNotWelcome(s.user.nick.value, s.user.user.value, Present(conns.nicksMap, receivers)[i], message);
        }
      }
    case _ =>
  }

  /** A step by any session keeps every other session's nickname claim. */
  lemma OthersKeepTheirNicks(conns: Connections, s: UserConnection, m: Messages.UserMessage, t: UserConnection)
    requires OwnsNick(conns, t)
    ensures var r := HandleMessage(conns, s, m); r.Some? ==> OwnsNick(r.value.conns, t)
  {
  }

  /** Two sessions with different mailboxes that both own their nicknames have different
      nicknames: a nickname identifies at most one client. */
  lemma NicknamesAreExclusive(conns: Connections, s1: UserConnection, s2: UserConnection)
    requires OwnsNick(conns, s1) && OwnsNick(conns, s2)
    requires s1.sender != s2.sender && s1.user.nick.Some? && s2.user.nick.Some?
    ensures s1.user.nick.value != s2.user.nick.value
  {
  }

  /** Two clients ask for the same free nickname, one after the other: the first gets it, the
      second is told it is in use and keeps the nickname it had. */
  lemma ClaimRace(conns: Connections, a: UserConnection, b: UserConnection, nick: string)
    requires nick !in conns.nicksMap && a.sender != b.sender
    ensures var ra := HandleMessage(conns, a, Messages.Nick(nick, 0));
      && ra.Some?
      && ra.value.session.user.nick == Some(nick)
      && var rb := HandleMessage(ra.value.conns, b, Messages.Nick(nick, 0));
      && rb.Some?
      && rb.value.session.user.nick == b.user.nick
      && rb.value.outbox[0] == Envelope(b.sender, NickInUseLine(nick))
      && rb.value.conns.nicksMap[nick] == a.sender
  {
  }

  // ---------------------------------------------------------------------------------------
  // Whole runs.

  /** The state after a client's lines, the records they queued, and whether the connection's
      task is still alive (false once the parser or a handler panicked; later lines are never
      read). */
  datatype Run = Run(conns: Connections, session: UserConnection, outbox: seq<Envelope>, alive: bool)

  /** What the parser makes of one line read off the socket: `None` when it panics. */
  function ParseLine(line: string): (r: Option<Messages.UserMessage>)
    ensures r.Some? <==> Messages.Parsable(line)
    ensures r.Some? ==> SpaceFreeMessage(r.value)
  {
    if Messages.Parsable(line) then
      ParsedIsSpaceFree(line);
      Some(Messages.ParseMessage(line))
    else None
  }

  function ParseLines(lines: seq<string>): seq<Option<Messages.UserMessage>>
  {
    seq(|lines|, i requires 0 <= i < |lines| => ParseLine(lines[i]))
  }

  /** One parsed line handled: `None` when the parser or the handler panicked. */
  function HandleParsed(conns: Connections, s: UserConnection, pm: Option<Messages.UserMessage>): Option<Step>
  {
    match pm
    case None => None
    case Some(m) => HandleMessage(conns, s, m)
  }

  function HandleLine(conns: Connections, s: UserConnection, line: string): Option<Step>
  {
    HandleParsed(conns, s, ParseLine(line))
  }

  /** The connection task over parsed lines, in order, until the first panic. */
  function RunMessages(conns: Connections, s: UserConnection, msgs: seq<Option<Messages.UserMessage>>): Run
    decreases |msgs|
  {
    if |msgs| == 0 then Run(conns, s, [], true)
    else
      match HandleParsed(conns, s, msgs[0])
      case None => Run(conns, s, [], false)
      case Some(st) =>
        var rest := RunMessages(st.conns, st.session, msgs[1..]);
        Run(rest.conns, rest.session, st.outbox + rest.outbox, rest.alive)
  }

  function RunLines(conns: Connections, s: UserConnection, lines: seq<string>): Run
  {
    RunMessages(conns, s, ParseLines(lines))
  }

  predicate AllSpaceFree(msgs: seq<Option<Messages.UserMessage>>)
  {
    forall i :: 0 <= i < |msgs| && msgs[i].Some? ==> SpaceFreeMessage(msgs[i].value)
  }

  /** Over any run of messages with space-free names: the invariant holds, the flag never goes
      back, nicknames stay claimed, and the records hold exactly one welcome if the run
      authenticated the session and none otherwise. */
  lemma {:induction false} RunInvariant(conns: Connections, s: UserConnection, msgs: seq<Option<Messages.UserMessage>>)
    requires Good(conns, s) && AllSpaceFree(msgs)
    ensures var r := RunMessages(conns, s, msgs);
      && Good(r.conns, r.session)
      && (s.authenticated ==> r.session.authenticated)
      && NicksExtend(conns, r.conns)
      && r.session.sender == s.sender
      && WelcomeCount(r.outbox) == (if !s.authenticated && r.session.authenticated then 1 else 0)
    decreases |msgs|
  {
    if |msgs| > 0 {
      if msgs[0].Some? {
        HandleMessageStep(conns, s, msgs[0].value);
      }
      match HandleParsed(conns, s, msgs[0])
      case None =>
      case Some(st) =>
        assert AllSpaceFree(msgs[1..]) by {
          forall i | 0 <= i < |msgs[1..]| && msgs[1..][i].Some?
            ensures SpaceFreeMessage(msgs[1..][i].value)
          {
            assert msgs[1..][i] == msgs[i + 1];
          }
        }
        RunInvariant(st.conns, st.session, msgs[1..]);
        var rest := RunMessages(st.conns, st.session, msgs[1..]);
        WelcomeCountAppend(st.outbox, rest.outbox);
    }
  }

  /** Whatever lines a client sends, the parsed names hold no space. */
  lemma ParsedLinesAreSpaceFree(lines: seq<string>)
    ensures AllSpaceFree(ParseLines(lines))
  {
    var msgs := ParseLines(lines);
    forall i | 0 <= i < |msgs| && msgs[i].Some?
      ensures SpaceFreeMessage(msgs[i].value)
    {
      assert msgs[i] == ParseLine(lines[i]);
    }
  }

  /** From a fresh connection, whatever the client sends: at most one welcome, and one exactly
      when both a nickname and a user name got stored, in whichever order they arrived. */
  lemma WelcomeAtMostOnce(c: Connections, address: Address, sender: Mailbox, lines: seq<string>)
    ensures var (c', s) := RegisterConnection(c, address, sender);
      var r := RunLines(c', s, lines);
      && WelcomeCount(r.outbox) <= 1
      && (WelcomeCount(r.outbox) == 1 <==> r.session.user.nick.Some? && r.session.user.user.Some?)
  {
    var (c', s) := RegisterConnection(c, address, sender);
    ParsedLinesAreSpaceFree(lines);
    RunInvariant(c', s, ParseLines(lines));
  }

  // ---------------------------------------------------------------------------------------
  // The server's end-to-end exchanges, from a fresh registry. Lines arrive as read off the
  // socket, still ending in CR LF.

  const CRLF: string := "\r\n"

  /** A name that `trim` leaves alone keeps only itself once the line ending is trimmed off. */
  lemma TrimLineEnd(name: string)
    requires |name| > 0 && IsTrimmed(name)
    ensures Trim(name + CRLF) == name
  {
    var t := name + CRLF;
    assert t[..|t| - 1] == name + "\r";
    assert (name + "\r")[..|name|] == name;
    assert LeadingWhitespace(t) == 0;
    assert WithoutTrailingWhitespace(name + "\r") == |name|;
    assert WithoutTrailingWhitespace(t) == |name|;
  }

  /** `NICK <name>` with nothing after the name stores it with hop count 0. */
  lemma NickLineParses(name: string)
    requires |name| > 0 && IsTrimmed(name) && ' ' !in name
    ensures Messages.Parsable("NICK " + name + CRLF)
    ensures Messages.ParseMessage("NICK " + name + CRLF) == Messages.Nick(name, 0)
  {
    var toks := [name + CRLF];
    assert Messages.CommandLine("NICK", toks) == "NICK " + name + CRLF;
    assert ' ' !in CRLF;
    Messages.NickLine(toks);
    TrimLineEnd(name);
  }

  /** `USER <name> <name> <name> <name>` stores the name as user, host, server and real name. */
  lemma UserLineParses(name: string)
    requires |name| > 0 && IsTrimmed(name) && ' ' !in name
    ensures var line := "USER " + name + " " + name + " " + name + " " + name + CRLF;
      && Messages.Parsable(line)
      && Messages.ParseMessage(line) == Messages.User(name, name, name, name)
  {
    var toks := [name, name, name, name + CRLF];
    UserTokens(name);
    assert Messages.CommandLine("USER", toks) == "USER " + name + " " + name + " " + name + " " + name + CRLF;
    assert ' ' !in CRLF;
    Messages.UserLine(toks);
    TrimLineEnd(name);
    TrimFixpoint(name);
  }

  lemma UserTokens(name: string)
    ensures JoinWith([name, name, name, name + CRLF], ' ') == name + " " + name + " " + name + " " + name + CRLF
  {
    var toks := [name, name, name, name + CRLF];
    assert toks[1..] == [name, name, name + CRLF];
    assert toks[1..][1..] == [name, name + CRLF];
    assert toks[1..][1..][1..] == [name + CRLF];
    assert JoinWith([name, name + CRLF], ' ') == name + " " + name + CRLF;
    assert JoinWith([name, name, name + CRLF], ' ') == name + " " + name + " " + name + CRLF;
  }

  /** A name as a client would type it: not empty, no space, nothing `trim` would cut. */
  predicate PlainName(name: string)
  {
    |name| > 0 && IsTrimmed(name) && ' ' !in name
  }

  function NickCommand(name: string): string
  {
    "NICK " + name + CRLF
  }

  function UserCommand(name: string): string
  {
    "USER " + name + " " + name + " " + name + " " + name + CRLF
  }

  lemma RunOne(c: Connections, s: UserConnection, l: string)
    ensures RunLines(c, s, [l]) ==
      match HandleLine(c, s, l)
      case None => Run(c, s, [], false)
      case Some(st) => Run(st.conns, st.session, st.outbox, true)
  {
    var ms := ParseLines([l]);
    assert ms == [ParseLine(l)];
    assert HandleParsed(c, s, ms[0]) == HandleLine(c, s, l);
    match HandleLine(c, s, l)
    case None =>
    case Some(st) =>
      assert ms[1..] == [];
      assert RunMessages(st.conns, st.session, ms[1..]) == Run(st.conns, st.session, [], true);
      assert st.outbox + [] == st.outbox;
  }

  lemma RunTwo(c: Connections, s: UserConnection, l1: string, l2: string)
    ensures RunLines(c, s, [l1, l2]) ==
      match HandleLine(c, s, l1)
      case None => Run(c, s, [], false)
      case Some(st) =>
        var r := RunLines(st.conns, st.session, [l2]);
        Run(r.conns, r.session, st.outbox + r.outbox, r.alive)
  {
    var ms := ParseLines([l1, l2]);
    assert ms == [ParseLine(l1), ParseLine(l2)];
    assert HandleParsed(c, s, ms[0]) == HandleLine(c, s, l1);
    assert ms[1..] == ParseLines([l2]);
  }

  lemma NickHandled(c: Connections, s: UserConnection, name: string)
    requires PlainName(name)
    ensures HandleLine(c, s, NickCommand(name)) == HandleMessage(c, s, Messages.Nick(name, 0))
  {
    NickLineParses(name);
  }

  /** NICK then USER, in terms of the two handled messages. */
  lemma RegistrationRun(c: Connections, s: UserConnection, name: string)
    requires PlainName(name)
    ensures RunLines(c, s, [NickCommand(name), UserCommand(name)]) ==
      match HandleMessage(c, s, Messages.Nick(name, 0))
      case None => Run(c, s, [], false)
      case Some(st) =>
        match HandleMessage(st.conns, st.session, Messages.User(name, name, name, name))
        case None => Run(st.conns, st.session, st.outbox, false)
        case Some(st') => Run(st'.conns, st'.session, st.outbox + st'.outbox, true)
  {
    NickLineParses(name);
    UserLineParses(name);
    RunTwo(c, s, NickCommand(name), UserCommand(name));
    match HandleMessage(c, s, Messages.Nick(name, 0))
    case None =>
    case Some(st) =>
      RunOne(st.conns, st.session, UserCommand(name));
  }

  /** The two registration messages from a session that has announced nothing, as handled. */
  lemma RegistrationMessages(c: Connections, s: UserConnection, name: string)
    requires name !in c.nicksMap && s.user.nick.None? && s.user.user.None? && !s.authenticated
    ensures var r1 := HandleMessage(c, s, Messages.Nick(name, 0));
      && r1.Some?
      && r1.value.session.user.nick == Some(name) && !r1.value.session.authenticated
      && r1.value.session.sender == s.sender
      && r1.value.conns == c.(nicksMap := c.nicksMap[name := s.sender])
      && r1.value.outbox == []
      && var r2 := HandleMessage(r1.value.conns, r1.value.session, Messages.User(name, name, name, name));
      && r2.Some?
      && r2.value.session.sender == s.sender
      && r2.value.session.authenticated
      && r2.value.session.user.nick == Some(name) && r2.value.session.user.user == Some(name)
      && r2.value.conns == r1.value.conns
      && r2.value.outbox == [Envelope(s.sender, WelcomeLine(name))]
  {
  }

  /** The registration exchange: NICK then USER from a session that has announced nothing. A free
      nickname is stored and claimed, and the USER line brings the one welcome. */
  lemma RegistrationSteps(c: Connections, s: UserConnection, name: string)
    requires PlainName(name) && name !in c.nicksMap
    requires s.user.nick.None? && s.user.user.None? && !s.authenticated
    ensures var r := RunLines(c, s, [NickCommand(name), UserCommand(name)]);
      && r.alive
      && r.session.sender == s.sender
      && r.session.authenticated
      && r.session.user.nick == Some(name) && r.session.user.user == Some(name)
      && r.conns == c.(nicksMap := c.nicksMap[name := s.sender])
      && r.outbox == [Envelope(s.sender, WelcomeLine(name))]
  {
    RegistrationRun(c, s, name);
    RegistrationMessages(c, s, name);
  }

  /** A client that sends its nickname and then its user name is welcomed exactly once, on its
      own mailbox, and holds the nickname. */
  lemma WelcomeScenario(name: string)
    requires PlainName(name)
    ensures var (c, s) := RegisterConnection(NewConnections(), Address(0), Mailbox(0));
      var r := RunLines(c, s, [NickCommand(name), UserCommand(name)]);
      && r.alive
      && r.session.authenticated
      && r.session.user.nick == Some(name)
      && r.conns.nicksMap == map[name := Mailbox(0)]
      && r.outbox == [Envelope(Mailbox(0), WelcomeLine(name))]
  {
    var (c, s) := RegisterConnection(NewConnections(), Address(0), Mailbox(0));
    RegistrationSteps(c, s, name);
  }

  /** A PRIVMSG line to one plain nickname parses to a private message to that nickname alone. */
  lemma PrivmsgLineParses(b: string, text: string)
    requires PlainName(b) && b[0] != '#' && ',' !in b
    ensures Messages.Parsable("PRIVMSG " + b + " " + text)
    ensures Messages.ParseMessage("PRIVMSG " + b + " " + text) == Messages.PrivateMessage([b], text)
  {
    Messages.PrivMsgLine(b, text);
    assert Find(b, ',').None?;
    assert Split(b, ',') == [b];
  }

  /** A registered session's private message to one claimed nickname: one record, on that
      nickname's mailbox, labelled with the sender's identity. */
  lemma PrivmsgDelivered(c: Connections, s: UserConnection, a: string, u: string, b: string, text: string)
    requires s.user.nick == Some(a) && s.user.user == Some(u) && b in c.nicksMap
    ensures HandleMessage(c, s, Messages.PrivateMessage([b], text)) ==
      Some(Step(c, s, [Envelope(c.nicksMap[b], PrivmsgLine(SenderLabel(a, u), b, text))]))
  {
    assert Present(c.nicksMap, [b]) == [b] by {
      assert [b][1..] == [];
    }
    var out := SendMsgToNicks(c, SenderLabel(a, u), text, [b]);
    assert |out| == 1 && out[0] == Envelope(c.nicksMap[b], PrivmsgLine(SenderLabel(a, u), b, text));
    assert out == [out[0]];
  }

  /** Two clients register; the first one's PRIVMSG to the second reaches the second one's
      mailbox alone, labelled with the sender's nickname, user name and the server host. */
  lemma PrivateMessageScenario(a: string, b: string, text: string)
    requires PlainName(a) && PlainName(b) && a != b
    requires b[0] != '#' && ',' !in b
    ensures
      var (c1, alice) := RegisterConnection(NewConnections(), Address(1), Mailbox(1));
      var (c2, bob) := RegisterConnection(c1, Address(2), Mailbox(2));
      var ra := RunLines(c2, alice, [NickCommand(a), UserCommand(a)]);
      var rb := RunLines(ra.conns, bob, [NickCommand(b), UserCommand(b)]);
      var rm := RunLines(rb.conns, ra.session, ["PRIVMSG " + b + " " + text]);
      && rm.alive
      && rm.outbox == [Envelope(Mailbox(2), ":" + a + "!" + a + "@" + HOST + " PRIVMSG " + b + " " + text + CRLF)]
  {
    var (c1, alice) := RegisterConnection(NewConnections(), Address(1), Mailbox(1));
    var (c2, bob) := RegisterConnection(c1, Address(2), Mailbox(2));
    RegistrationSteps(c2, alice, a);
    var ra := RunLines(c2, alice, [NickCommand(a), UserCommand(a)]);
    RegistrationSteps(ra.conns, bob, b);
    var rb := RunLines(ra.conns, bob, [NickCommand(b), UserCommand(b)]);
    assert rb.conns.nicksMap[b] == Mailbox(2);
    var line := "PRIVMSG " + b + " " + text;
    PrivmsgLineParses(b, text);
    PrivmsgDelivered(rb.conns, ra.session, a, a, b, text);
    RunOne(rb.conns, ra.session, line);
  }

  /** A second client asking for a nickname already held is told so on its own mailbox, stays
      without a nickname, and is not welcomed; the holder keeps the nickname. */
  lemma NicknameClashScenario(name: string)
    requires PlainName(name)
    ensures
      var (c1, bob) := RegisterConnection(NewConnections(), Address(1), Mailbox(1));
      var (c2, joe) := RegisterConnection(c1, Address(2), Mailbox(2));
      var rb := RunLines(c2, bob, [NickCommand(name)]);
      var rj := RunLines(rb.conns, joe, [NickCommand(name)]);
      && rj.alive
      && rj.session.user.nick.None?
      && !rj.session.authenticated
      && rj.outbox == [Envelope(Mailbox(2), NickInUseLine(name))]
      && rj.conns.nicksMap == map[name := Mailbox(1)]
  {
    var (c1, bob) := RegisterConnection(NewConnections(), Address(1), Mailbox(1));
    var (c2, joe) := RegisterConnection(c1, Address(2), Mailbox(2));
    NickHandled(c2, bob, name);
    RunOne(c2, bob, NickCommand(name));
    var rb := RunLines(c2, bob, [NickCommand(name)]);
    NickHandled(rb.conns, joe, name);
    RunOne(rb.conns, joe, NickCommand(name));
  }

}
