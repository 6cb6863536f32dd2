/** The wire-line parser of src/messages.rs: one line of text in, one `UserMessage` out. */
module Messages {
  import opened Wrappers
  import opened Text

  /** Every command a client can send, plus the sentinel for lines that are not understood. */
  datatype UserMessage =
    | Nick(nickname: string, hopCount: Usize)
    | User(userName: string, hostName: string, serverName: string, realName: string)
    | Password(password: string)
    | PrivateMessage(receivers: seq<string>, message: string)
    | MessageToChannel(channel: string, message: string)
    | Join(channels: seq<string>, keys: seq<string>)
    | Quit(quitMsg: Option<string>)
    | Ping(server: string)
    | Mode(channel: string, mode: Option<string>)
    | InvalidMessage

  /** The text before the first space and the text after it. With no space at all the source
      slices at index 0: the head is empty and the body loses its first character, which is why
      the line must be `Sliceable`: not empty, and starting with a one-byte character when it
      has no space. */
  function HeadAndBody(line: string): (r: (string, string))
    requires Sliceable(line)
    ensures ' ' in line ==> line == r.0 + " " + r.1 && ' ' !in r.0
    ensures ' ' !in line ==> r == ("", line[1..])
  {
    var i := match Find(line, ' ') case Some(i) => i case None => 0;
    assert ' ' in line ==> line == line[..i] + " " + line[i + 1..];
    (line[..i], line[i + 1..])
  }

  /** The head of `kw + " " + body` is `kw` whenever `kw` holds no space. */
  lemma HeadOf(kw: string, body: string)
    requires ' ' !in kw
    ensures HeadAndBody(kw + " " + body) == (kw, body)
  {
    FindAfter(kw, ' ', body);
    var line := kw + " " + body;
    assert line[..|kw|] == kw;
    assert line[|kw| + 1..] == body;
  }

  predicate IsKeyword(head: string)
  {
    head in {"NICK", "USER", "PASS", "PRIVMSG", "QUIT", "JOIN", "PING", "MODE"}
  }

  /** True of a string the source can split with `HeadAndBody`'s slicing without panicking:
      it is not empty, and when it has no space the slice at byte 1 must fall on a character
      boundary, so its first character is ASCII (one byte in UTF-8). */
  predicate Sliceable(s: string)
  {
    |s| > 0 && (' ' in s || s[0] < '\U{80}')
  }

  /** The lines `parse_message` handles without panicking: the line is sliceable, and so is the
      body of a PRIVMSG, whose target is sliced off the same way. */
  predicate Parsable(line: string)
  {
    Sliceable(line) && CommandDefined(HeadAndBody(line).0, HeadAndBody(line).1)
  }

  predicate CommandDefined(head: string, body: string)
  {
    head == "PRIVMSG" ==> Sliceable(body)
  }

  /** `parse_message`: split off the keyword at the first space and dispatch on it. */
  function ParseMessage(line: string): (m: UserMessage)
    requires Parsable(line)
    ensures !IsKeyword(HeadAndBody(line).0) ==> m == InvalidMessage
    ensures ' ' !in line ==> m == InvalidMessage
  {
    var (head, body) := HeadAndBody(line);
    Command(head, body)
  }

  /** The match on the exact, case-sensitive keyword; anything else is `InvalidMessage`. */
  function Command(head: string, body: string): UserMessage
    requires CommandDefined(head, body)
  {
    if head == "NICK" then ParseNick(Split(body, ' '))
    else if head == "USER" then ParseUser(Split(body, ' '))
    else if head == "PASS" then
      var parts := Split(body, ' ');
      if |parts| > 0 then Password(parts[0]) else InvalidMessage
    else if head == "PRIVMSG" then ParsePrivMsg(body)
    else if head == "QUIT" then
      var parts := Split(body, ' ');
      Quit(if |parts| > 0 then Some(parts[0]) else None)
    else if head == "JOIN" then ParseJoinMsg(Split(body, ' '))
    else if head == "PING" then
      var parts := Split(body, ' ');
      Ping(Trim(if |parts| > 0 then parts[0] else ""))
    else if head == "MODE" then ParseModeMsg(Split(body, ' '))
    else InvalidMessage
  }

  function ParseNick(input: seq<string>): UserMessage
  {
    if |input| == 1 then Nick(Trim(input[0]), 0)
    else if |input| >= 2 then
      match ParseUsize(Trim(input[1]))
      case Some(hop) => Nick(Trim(input[0]), hop)
      case None => InvalidMessage
    else InvalidMessage
  }

  /** The slice pattern binds the 2nd token to `server_name` and the 3rd to `host_name`. */
  function ParseUser(input: seq<string>): UserMessage
  {
    if |input| >= 4 then User(Trim(input[0]), Trim(input[2]), Trim(input[1]), Trim(input[3]))
    else InvalidMessage
  }

  function ParsePrivMsg(input: string): UserMessage
    requires Sliceable(input)
  {
    var (head, body) := HeadAndBody(input);
    if head == "" then InvalidMessage
    else if head[0] == '#' then MessageToChannel(head, body)
    else PrivateMessage(Split(head, ','), body)
  }

  function ParseJoinMsg(input: seq<string>): UserMessage
  {
    if |input| == 1 then Join(Split(input[0], ','), [])
    else if |input| >= 2 then Join(Split(input[0], ','), Split(input[1], ','))
    else InvalidMessage
  }

  function ParseModeMsg(input: seq<string>): UserMessage
  {
    if |input| == 1 then Mode(input[0], None)
    else if |input| >= 2 then Mode(input[0], Some(input[1]))
    else InvalidMessage
  }

  // ---------------------------------------------------------------------------------------
  // Facts about whole lines. Every line `kw + " " + body` is `CommandLine(kw, Split(body, ' '))`
  // (see `EveryBodyIsTokens`), so a statement about `CommandLine(kw, toks)` for all space-free
  // token lists is a statement about every line that starts with `kw` and a space.

  function CommandLine(kw: string, toks: seq<string>): string
  {
    kw + " " + JoinWith(toks, ' ')
  }

  predicate SpaceFreeTokens(toks: seq<string>)
  {
    |toks| > 0 && forall i :: 0 <= i < |toks| ==> ' ' !in toks[i]
  }

  lemma EveryBodyIsTokens(kw: string, body: string)
    ensures CommandLine(kw, Split(body, ' ')) == kw + " " + body
    ensures SpaceFreeTokens(Split(body, ' '))
  {
    JoinSplit(body, ' ');
  }

  /** A command line is parsed by dispatching its keyword on its joined tokens. */
  lemma {:induction false} CommandTokens(kw: string, toks: seq<string>)
    requires ' ' !in kw && SpaceFreeTokens(toks)
    requires CommandDefined(kw, JoinWith(toks, ' '))
    ensures Parsable(CommandLine(kw, toks))
    ensures ParseMessage(CommandLine(kw, toks)) == Command(kw, JoinWith(toks, ' '))
    ensures Split(JoinWith(toks, ' '), ' ') == toks
  {
    HeadOf(kw, JoinWith(toks, ' '));
    SplitJoin(toks, ' ');
  }

  // Which sub-parser each keyword reaches (one small lemma each keeps the proofs cheap).
  lemma DispatchNick(body: string) ensures Command("NICK", body) == ParseNick(Split(body, ' ')) {}
  lemma DispatchUser(body: string) ensures Command("USER", body) == ParseUser(Split(body, ' ')) {}
  lemma DispatchPass(body: string) ensures Command("PASS", body) == Password(Split(body, ' ')[0]) {}
  lemma DispatchPrivMsg(body: string) requires Sliceable(body) ensures Command("PRIVMSG", body) == ParsePrivMsg(body) {}
  lemma DispatchQuit(body: string) ensures Command("QUIT", body) == Quit(Some(Split(body, ' ')[0])) {}
  lemma DispatchJoin(body: string) ensures Command("JOIN", body) == ParseJoinMsg(Split(body, ' ')) {}
  lemma DispatchPing(body: string) ensures Command("PING", body) == Ping(Trim(Split(body, ' ')[0])) {}
  lemma DispatchMode(body: string) ensures Command("MODE", body) == ParseModeMsg(Split(body, ' ')) {}

  /** NICK: one token gives hop count 0; with two or more, the second (trimmed) must parse as a
      `usize` and becomes the hop count, otherwise the line is invalid; the rest is ignored. */
  lemma NickLine(toks: seq<string>)
    requires SpaceFreeTokens(toks)
    ensures Parsable(CommandLine("NICK", toks))
    ensures var m := ParseMessage(CommandLine("NICK", toks));
      && (|toks| == 1 ==> m == Nick(Trim(toks[0]), 0))
      && (|toks| >= 2 ==> (m != InvalidMessage <==> ParseUsize(Trim(toks[1])).Some?))
      && (|toks| >= 2 && m != InvalidMessage ==> m == Nick(Trim(toks[0]), ParseUsize(Trim(toks[1])).value))
  {
    CommandTokens("NICK", toks);
    DispatchNick(JoinWith(toks, ' '));
  }

  /** USER: fewer than four tokens is invalid; otherwise the first four, trimmed, are the user,
      server, host and real names in that order, and any further tokens are dropped. */
  lemma UserLine(toks: seq<string>)
    requires SpaceFreeTokens(toks)
    ensures Parsable(CommandLine("USER", toks))
    ensures var m := ParseMessage(CommandLine("USER", toks));
      && (|toks| < 4 ==> m == InvalidMessage)
      && (|toks| >= 4 ==> m == User(Trim(toks[0]), Trim(toks[2]), Trim(toks[1]), Trim(toks[3])))
  {
    CommandTokens("USER", toks);
    DispatchUser(JoinWith(toks, ' '));
  }

  /** PASS always finds a first token, so its `InvalidMessage` fallback cannot be reached. */
  lemma PassLine(toks: seq<string>)
    requires SpaceFreeTokens(toks)
    ensures Parsable(CommandLine("PASS", toks))
    ensures ParseMessage(CommandLine("PASS", toks)) == Password(toks[0])
  {
    CommandTokens("PASS", toks);
    DispatchPass(JoinWith(toks, ' '));
  }

  /** QUIT always finds a first token, so its message is never `None`. */
  lemma QuitLine(toks: seq<string>)
    requires SpaceFreeTokens(toks)
    ensures Parsable(CommandLine("QUIT", toks))
    ensures ParseMessage(CommandLine("QUIT", toks)) == Quit(Some(toks[0]))
  {
    CommandTokens("QUIT", toks);
    DispatchQuit(JoinWith(toks, ' '));
  }

  /** PING takes its first token, trimmed, as the server. */
  lemma PingLine(toks: seq<string>)
    requires SpaceFreeTokens(toks)
    ensures Parsable(CommandLine("PING", toks))
    ensures ParseMessage(CommandLine("PING", toks)) == Ping(Trim(toks[0]))
  {
    CommandTokens("PING", toks);
    DispatchPing(JoinWith(toks, ' '));
  }

  /** MODE takes the channel and an optional second token as the mode; it is never invalid. */
  lemma ModeLine(toks: seq<string>)
    requires SpaceFreeTokens(toks)
    ensures Parsable(CommandLine("MODE", toks))
    ensures |toks| == 1 ==> ParseMessage(CommandLine("MODE", toks)) == Mode(toks[0], None)
    ensures |toks| >= 2 ==> ParseMessage(CommandLine("MODE", toks)) == Mode(toks[0], Some(toks[1]))
  {
    CommandTokens("MODE", toks);
    DispatchMode(JoinWith(toks, ' '));
  }

  /** JOIN: channels are the first token split on commas; keys are the second token split on
      commas, or empty when there is no second token; later tokens are ignored. */
  lemma JoinLine(toks: seq<string>)
    requires SpaceFreeTokens(toks)
    ensures var m := ParseMessage(CommandLine("JOIN", toks));
      && m.Join?
      && m.channels == Split(toks[0], ',')
      && (|toks| == 1 ==> m.keys == [])
      && (|toks| >= 2 ==> m.keys == Split(toks[1], ','))
  {
    CommandTokens("JOIN", toks);
    DispatchJoin(JoinWith(toks, ' '));
  }

  /** PRIVMSG with a space in its body: the target is the text before that space and the
      message is everything after it, verbatim. An empty target is invalid, a target starting
      with `#` names a channel, and any other target is a comma-separated receiver list, kept in
      input order, that joins back into the target. */
  lemma PrivMsgLine(target: string, message: string)
    requires ' ' !in target
    ensures Parsable("PRIVMSG " + target + " " + message)
    ensures var m := ParseMessage("PRIVMSG " + target + " " + message);
      && (target == "" ==> m == InvalidMessage)
      && (target != "" && target[0] == '#' ==> m == MessageToChannel(target, message))
      && (target != "" && target[0] != '#' ==>
            m == PrivateMessage(Split(target, ','), message)
            && JoinWith(m.receivers, ',') == target)
  {
    PrivMsgTarget(target, message);
    PrivMsgBody(target, message);
    if target != "" && target[0] != '#' {
      JoinSplit(target, ',');
    }
  }

  lemma PrivMsgTarget(target: string, message: string)
    ensures Parsable("PRIVMSG " + target + " " + message)
    ensures ParseMessage("PRIVMSG " + target + " " + message) == ParsePrivMsg(target + " " + message)
  {
    var body := target + " " + message;
    assert "PRIVMSG " + target + " " + message == "PRIVMSG " + body;
    PrivMsgDispatch(body);
  }

  /** A PRIVMSG line whose body has a space reaches the PRIVMSG sub-parser with that body. */
  lemma PrivMsgDispatch(body: string)
    requires ' ' in body
    ensures Parsable("PRIVMSG " + body)
    ensures ParseMessage("PRIVMSG " + body) == ParsePrivMsg(body)
  {
    assert "PRIVMSG " + body == "PRIVMSG" + " " + body;
    HeadOf("PRIVMSG", body);
    assert Sliceable(body);
    DispatchPrivMsg(body);
  }

  lemma PrivMsgBody(target: string, message: string)
    requires ' ' !in target
    ensures ParsePrivMsg(target + " " + message) ==
      if target == "" then InvalidMessage
      else if target[0] == '#' then MessageToChannel(target, message)
      else PrivateMessage(Split(target, ','), message)
  {
    HeadOf(target, message);
  }

  /** PRIVMSG whose body holds no space has an empty target, so it is invalid. */
  lemma PrivMsgWithoutMessage(body: string)
    requires |body| > 0 && ' ' !in body && body[0] < '\U{80}'
    ensures Parsable("PRIVMSG " + body)
    ensures ParseMessage("PRIVMSG " + body) == InvalidMessage
  {
    HeadOf("PRIVMSG", body);
    DispatchPrivMsg(body);
  }

  // ---------------------------------------------------------------------------------------
  // A canonical rendering of each message, and the round trip that pins the parser down.

  /** A token of a list that is later split on commas. */
  predicate ListItem(s: string)
  {
    ' ' !in s && ',' !in s
  }

  /** The messages that have a line form: the ones `ParseMessage` can produce. */
  predicate WireReady(m: UserMessage)
  {
    match m
    case Nick(n, _) => ' ' !in n && IsTrimmed(n)
    case User(u, h, s, r) =>
      && ' ' !in u && IsTrimmed(u) && ' ' !in h && IsTrimmed(h)
      && ' ' !in s && IsTrimmed(s) && ' ' !in r && IsTrimmed(r)
    case Password(p) => ' ' !in p
    case PrivateMessage(rs, _) =>
      && |rs| > 0
      && (forall i :: 0 <= i < |rs| ==> ListItem(rs[i]))
      && JoinWith(rs, ',') != ""
      && JoinWith(rs, ',')[0] != '#'
    case MessageToChannel(c, _) => ' ' !in c && |c| > 0 && c[0] == '#'
    case Join(cs, ks) =>
      && |cs| > 0
      && (forall i :: 0 <= i < |cs| ==> ListItem(cs[i]))
      && (forall i :: 0 <= i < |ks| ==> ListItem(ks[i]))
    case Quit(q) => q.Some? && ' ' !in q.value
    case Ping(s) => ' ' !in s && IsTrimmed(s)
    case Mode(c, md) => ' ' !in c && (md.Some? ==> ' ' !in md.value)
    case InvalidMessage => true
  }

  /** The line a client would send for `m`. */
  function Format(m: UserMessage): string
  {
    match m
    case Nick(n, h) => CommandLine("NICK", [n, Decimal(h)])
    case User(u, h, s, r) => CommandLine("USER", [u, s, h, r])
    case Password(p) => CommandLine("PASS", [p])
    case PrivateMessage(rs, msg) => "PRIVMSG " + JoinWith(rs, ',') + " " + msg
    case MessageToChannel(c, msg) => "PRIVMSG " + c + " " + msg
    case Join(cs, ks) =>
      if ks == [] then CommandLine("JOIN", [JoinWith(cs, ',')])
      else CommandLine("JOIN", [JoinWith(cs, ','), JoinWith(ks, ',')])
    case Quit(q) => if q.Some? then CommandLine("QUIT", [q.value]) else "QUIT"
    case Ping(s) => CommandLine("PING", [s])
    case Mode(c, md) => if md.Some? then CommandLine("MODE", [c, md.value]) else CommandLine("MODE", [c])
    case InvalidMessage => "?"
  }

  lemma {:induction false} JoinKeepsOut(parts: seq<string>, sep: char, c: char)
    requires c != sep
    requires forall i :: 0 <= i < |parts| ==> c !in parts[i]
    ensures c !in JoinWith(parts, sep)
  {
    if |parts| > 1 {
      JoinKeepsOut(parts[1..], sep, c);
    }
  }

  lemma {:induction false} SplitKeepsOut(s: string, sep: char, c: char)
    requires c !in s
    ensures forall i :: 0 <= i < |Split(s, sep)| ==> c !in Split(s, sep)[i]
    decreases |s|
  {
    match Find(s, sep)
    case None =>
    case Some(i) =>
      assert s == s[..i] + [sep] + s[i + 1..];
      SplitKeepsOut(s[i + 1..], sep, c);
  }

  lemma DigitsHaveNoWhitespace(s: string)
    requires AllDigits(s)
    ensures ' ' !in s && IsTrimmed(s)
  {
  }

  /** Parsing the rendering of any message that has a line form gives that message back. */
  lemma ParseFormat(m: UserMessage)
    requires WireReady(m)
    ensures Parsable(Format(m))
    ensures ParseMessage(Format(m)) == m
  {
    match m
    case Nick(n, h) => FormatNick(n, h);
    case User(u, h, s, r) => FormatUser(u, h, s, r);
    case Password(p) => FormatPassword(p);
    case PrivateMessage(rs, msg) => FormatPrivateMessage(rs, msg);
    case MessageToChannel(c, msg) => FormatMessageToChannel(c, msg);
    case Join(cs, ks) => FormatJoin(cs, ks);
    case Quit(q) => FormatQuit(q.value);
    case Ping(s) => FormatPing(s);
    case Mode(c, md) => FormatMode(c, md);
    case InvalidMessage => FormatInvalid();
  }

  lemma FormatPassword(p: string)
    requires ' ' !in p
    ensures Parsable(Format(Password(p))) && ParseMessage(Format(Password(p))) == Password(p)
  {
    PassLine([p]);
  }

  lemma FormatMessageToChannel(c: string, msg: string)
    requires WireReady(MessageToChannel(c, msg))
    ensures Parsable(Format(MessageToChannel(c, msg)))
    ensures ParseMessage(Format(MessageToChannel(c, msg))) == MessageToChannel(c, msg)
  {
    PrivMsgLine(c, msg);
  }

  lemma FormatQuit(q: string)
    requires ' ' !in q
    ensures Parsable(Format(Quit(Some(q)))) && ParseMessage(Format(Quit(Some(q)))) == Quit(Some(q))
  {
    QuitLine([q]);
  }

  lemma FormatPing(s: string)
    requires ' ' !in s && IsTrimmed(s)
    ensures Parsable(Format(Ping(s))) && ParseMessage(Format(Ping(s))) == Ping(s)
  {
    TrimFixpoint(s);
    PingLine([s]);
  }

  lemma FormatMode(c: string, md: Option<string>)
    requires WireReady(Mode(c, md))
    ensures Parsable(Format(Mode(c, md))) && ParseMessage(Format(Mode(c, md))) == Mode(c, md)
  {
    if md.Some? {
      ModeLine([c, md.value]);
    } else {
      ModeLine([c]);
    }
  }

  lemma FormatInvalid()
    ensures Parsable(Format(InvalidMessage)) && ParseMessage(Format(InvalidMessage)) == InvalidMessage
  {
    assert ' ' !in Format(InvalidMessage);
  }

  lemma FormatNick(n: string, h: Usize)
    requires WireReady(Nick(n, h))
    ensures Parsable(Format(Nick(n, h))) && ParseMessage(Format(Nick(n, h))) == Nick(n, h)
  {
    var toks := [n, Decimal(h)];
    assert Format(Nick(n, h)) == CommandLine("NICK", toks);
    DigitsHaveNoWhitespace(Decimal(h));
    assert SpaceFreeTokens(toks);
    NickLine(toks);
    TrimFixpoint(n);
    TrimFixpoint(Decimal(h));
    ParseDecimal(h);
  }

  lemma FormatUser(u: string, h: string, s: string, r: string)
    requires WireReady(User(u, h, s, r))
    ensures Parsable(Format(User(u, h, s, r))) && ParseMessage(Format(User(u, h, s, r))) == User(u, h, s, r)
  {
    var toks := [u, s, h, r];
    assert Format(User(u, h, s, r)) == CommandLine("USER", toks);
    assert SpaceFreeTokens(toks);
    UserLine(toks);
    TrimFixpoint(u);
    TrimFixpoint(h);
    TrimFixpoint(s);
    TrimFixpoint(r);
  }

  lemma FormatPrivateMessage(rs: seq<string>, msg: string)
    requires WireReady(PrivateMessage(rs, msg))
    ensures Parsable(Format(PrivateMessage(rs, msg)))
    ensures ParseMessage(Format(PrivateMessage(rs, msg))) == PrivateMessage(rs, msg)
  {
    JoinKeepsOut(rs, ',', ' ');
    PrivMsgLine(JoinWith(rs, ','), msg);
    SplitJoin(rs, ',');
  }

  lemma FormatJoin(cs: seq<string>, ks: seq<string>)
    requires WireReady(Join(cs, ks))
    ensures Parsable(Format(Join(cs, ks))) && ParseMessage(Format(Join(cs, ks))) == Join(cs, ks)
  {
    JoinKeepsOut(cs, ',', ' ');
    SplitJoin(cs, ',');
    if ks == [] {
      var toks := [JoinWith(cs, ',')];
      assert Format(Join(cs, ks)) == CommandLine("JOIN", toks);
      assert SpaceFreeTokens(toks);
      JoinLine(toks);
    } else {
      JoinKeepsOut(ks, ',', ' ');
      SplitJoin(ks, ',');
      var toks := [JoinWith(cs, ','), JoinWith(ks, ',')];
      assert Format(Join(cs, ks)) == CommandLine("JOIN", toks);
      assert SpaceFreeTokens(toks);
      JoinLine(toks);
    }
  }

  /** Everything the parser produces has a line form: names carry no space and are trimmed,
      list items carry no space or comma. */
  lemma ParsedIsWireReady(line: string)
    requires Parsable(line)
    ensures WireReady(ParseMessage(line))
  {
    var (head, body) := HeadAndBody(line);
    CommandIsWireReady(head, body);
  }

  /** What trimming and comma-splitting a space-free token yields has no space in it. */
  lemma TokenPieces(toks: seq<string>)
    requires SpaceFreeTokens(toks)
    ensures forall i :: 0 <= i < |toks| ==> ' ' !in Trim(toks[i]) && IsTrimmed(Trim(toks[i]))
    ensures forall i :: 0 <= i < |toks| ==> forall j :: 0 <= j < |Split(toks[i], ',')| ==> ListItem(Split(toks[i], ',')[j])
  {
    forall i | 0 <= i < |toks|
      ensures ' ' !in Trim(toks[i]) && IsTrimmed(Trim(toks[i]))
      ensures forall j :: 0 <= j < |Split(toks[i], ',')| ==> ListItem(Split(toks[i], ',')[j])
    {
      TrimKeepsOut(toks[i], ' ');
      TrimFixpoint(toks[i]);
      SplitKeepsOut(toks[i], ',', ' ');
    }
  }

  lemma CommandIsWireReady(head: string, body: string)
    requires CommandDefined(head, body)
    ensures WireReady(Command(head, body))
  {
    var toks := Split(body, ' ');
    EveryBodyIsTokens(head, body);
    TokenPieces(toks);
    if head == "NICK" {
      DispatchNick(body);
    } else if head == "USER" {
      DispatchUser(body);
    } else if head == "PASS" {
      DispatchPass(body);
    } else if head == "PRIVMSG" {
      DispatchPrivMsg(body);
      PrivMsgTargetWireReady(body);
    } else if head == "QUIT" {
      DispatchQuit(body);
    } else if head == "JOIN" {
      DispatchJoin(body);
    } else if head == "PING" {
      DispatchPing(body);
    } else if head == "MODE" {
      DispatchMode(body);
    }
  }

  lemma PrivMsgTargetWireReady(body: string)
    requires Sliceable(body)
    ensures WireReady(ParsePrivMsg(body))
  {
    var (target, message) := HeadAndBody(body);
    SplitKeepsOut(target, ',', ' ');
    JoinSplit(target, ',');
  }

  /** The parser's output is a fixed point of rendering and parsing again. */
  lemma ParseCanonical(line: string)
    requires Parsable(line)
    ensures Parsable(Format(ParseMessage(line)))
    ensures ParseMessage(Format(ParseMessage(line))) == ParseMessage(line)
  {
    ParsedIsWireReady(line);
    ParseFormat(ParseMessage(line));
  }

}
