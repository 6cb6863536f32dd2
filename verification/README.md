# AvalonIRC core in Dafny

AvalonIRC is a small IRC server. This project models its core and proves properties of the
model. The core has three parts:

- **The line parser** (`src/messages.rs`). One line a client sent becomes one `UserMessage`:
  NICK, USER, PASS, PRIVMSG to nicknames or to a channel, JOIN, QUIT, PING, MODE, or
  `InvalidMessage`. It is built on Rust's `str::find`, `split(" ")`, `trim` and
  `usize::from_str`. `text.dfy` models those with Rust's semantics:
  - the index 0 that `find(..).unwrap_or_default()` gives for a line without a space;
  - a split that never yields zero pieces;
  - the full Unicode White_Space set for `trim`;
  - an optional `+` sign and 64-bit overflow for `usize`.
- **The channel registry** (`src/channels.rs`): channel name to member set, with join and list.
- **The connection registry and the session handlers** (`src/connections.rs`, with the `User`
  record of `src/user.rs`):
  - the shared `Connections` maps, and registration;
  - the atomic nickname claim;
  - PRIVMSG fan-out;
  - the per-client `UserConnection` handlers: NICK, USER, PRIVMSG, JOIN, PING, the welcome
    check, and the dispatch that drops errors.

How the model is built:

- **State.** Shared state is an immutable value. Each handler is a step
  `(Connections, UserConnection, message) -> Step(conns, session, outbox)`. The outbox lists
  the records the step queues on the clients' mailboxes (`Envelope(mailbox, text)`), in order.
- **Panics.** A handler that panics (the `todo!()` stubs, or an `unwrap` on an unset
  nickname or user name) yields `None`.
- **Runs.** `SessionProperties.RunLines` is the per-connection task of `src/server.rs`.
  `ParseLine` parses each line, and `RunMessages` handles the results in order. The run stops
  for good at the first panic, whether in the parser or in a handler.
- **Whole server.** `ServerRuns.Serve` is the accept loop of `src/server.rs` with all its
  tasks. A history of events is any interleaving of two kinds of event: a new client is
  accepted and gets a mailbox of its own, or one task handles one line. Every task works on
  the one shared registry.

What is proved:

- **Parser.** A complete characterisation per keyword. A canonical rendering `Format` round
  trips through the parser. Everything the parser produces is canonical, so parsing is a
  fixed point of render-then-parse.
- **Channel registry.** Join facts, idempotence, commutation, and the exact membership after
  any sequence of joins.
- **Nickname claim.** It is granted exactly when the nickname is free. Across the whole
  server, however the tasks interleave, no two connections hold the same nickname.
- **Welcome.** Over a session's own run, the welcome is queued once exactly when the session
  becomes authenticated, and never otherwise. Across the whole server, however the tasks
  interleave, each connection's mailbox gets at most one welcome. It gets one exactly when
  that connection stored both a nickname and a user name.
- **Scenarios.** Registration, a private message and a nickname clash end to end.

## Model

| member | source | states |
|---|---|---|
| Text.Find | src/messages.rs:51 | the index found holds the character and no earlier one does; none is found exactly when the character is absent |
| Text.FindAfter | src/messages.rs:51-53 | in `a + [sep] + b` with no `sep` in `a`, the first `sep` is at `|a|`, so the keyword is cut off exactly |
| Text.Split | src/messages.rs:45-48 | `split(" ")` yields one more piece than there are separators (never zero pieces) and no piece holds the separator |
| Text.JoinSplit | src/messages.rs:45-48 | joining the pieces of a split with the separator gives back the input |
| Text.SplitJoin | src/messages.rs:138-139 | splitting the join of non-empty, separator-free pieces gives back the pieces, in order |
| Text.Trim | src/messages.rs:89 | `trim` returns the slice between the first and last non-whitespace characters; everything cut is whitespace and both ends of the result are not |
| Text.TrimFixpoint | src/messages.rs:88-91 | `trim` leaves a string unchanged exactly when it starts and ends with non-whitespace, and trimming twice equals trimming once |
| Text.TrimKeepsOut | src/messages.rs:89 | `trim` introduces no character that was not in its input |
| Text.ParseUsize | src/messages.rs:93 | `usize::from_str` accepts only an optional `+` followed by at least one ASCII digit, and nothing above 2^64 - 1 |
| Text.ParseDigits | src/messages.rs:92-98 | every non-empty digit string, with or without `+` and whatever its leading zeros, is accepted exactly when its value is below 2^64, and then yields that value |
| Text.ParseDecimal | src/messages.rs:92-98 | every `usize` hop count parses back from its decimal form, with or without a `+` |
| Messages.HeadAndBody | src/messages.rs:51-53 | defined exactly on the lines the slicing does not panic on; with a space, the line is head, space, body, and the head holds no space; without one, the head is empty and the body loses the first character |
| Messages.HeadOf | src/messages.rs:51-53 | the head of `kw + " " + body` is `kw` and the body is `body` whenever `kw` holds no space |
| Messages.ParseMessage | src/messages.rs:50-84 | a line whose head is not one of the eight keywords, or that holds no space, is `InvalidMessage` |
| Messages.Command | src/messages.rs:55-83 | no contract of its own; the `Messages.Dispatch*` lemmas name the sub-parser each keyword reaches, and `Messages.ParseMessage` gives `InvalidMessage` for any other head |
| Messages.ParseNick | src/messages.rs:86-107 | no contract of its own; `Messages.NickLine` states its result on every NICK line |
| Messages.ParseUser | src/messages.rs:109-120 | no contract of its own; `Messages.UserLine` states its result on every USER line |
| Messages.ParsePrivMsg | src/messages.rs:122-144 | no contract of its own; `Messages.PrivMsgLine` and `Messages.PrivMsgWithoutMessage` state its result on every PRIVMSG body |
| Messages.ParseJoinMsg | src/messages.rs:146-168 | no contract of its own; `Messages.JoinLine` states its result on every JOIN line |
| Messages.ParseModeMsg | src/messages.rs:170-182 | no contract of its own; `Messages.ModeLine` states its result on every MODE line |
| Messages.EveryBodyIsTokens | src/messages.rs:45-48 | every body is its space-free tokens joined by spaces, so per-token statements cover every line |
| Messages.CommandTokens | src/messages.rs:50-57 | a keyword line is parsed by dispatching the keyword on the body, and the body splits back into its tokens |
| Messages.NickLine | src/messages.rs:86-107 | NICK with one token has hop count 0; with two or more it is valid exactly when the trimmed second token parses as `usize`, which is then the hop count; further tokens are ignored |
| Messages.UserLine | src/messages.rs:109-120 | USER with fewer than four tokens is invalid; otherwise the trimmed first four are user, server, host and real name, with the second token bound to server and the third to host |
| Messages.PassLine | src/messages.rs:58-65 | PASS always yields its first token as the password; the invalid branch is unreachable |
| Messages.QuitLine | src/messages.rs:67-71 | QUIT always yields its first token, so the quit message is never absent |
| Messages.PingLine | src/messages.rs:73-79 | PING yields its first token, trimmed, as the server |
| Messages.ModeLine | src/messages.rs:170-182 | MODE yields the channel, with the second token as mode when there is one |
| Messages.JoinLine | src/messages.rs:146-168 | JOIN yields the first token split on commas as channels, and the second split on commas as keys, or no keys |
| Messages.PrivMsgLine | src/messages.rs:122-144 | PRIVMSG: an empty target is invalid; a `#` target is a channel message; otherwise the comma-separated receivers, in order, join back into the target; the message after the first space is kept verbatim |
| Messages.PrivMsgDispatch | src/messages.rs:50-57 | a PRIVMSG line whose body has a space does not panic and reaches the PRIVMSG sub-parser with that body |
| Messages.PrivMsgWithoutMessage | src/messages.rs:122-129 | a PRIVMSG body without a space has an empty target and is invalid |
| Messages.ParseFormat | src/messages.rs:50-182 | parsing the canonical line of any message that has one gives that message back |
| Messages.ParsedIsWireReady | src/messages.rs:50-182 | every parsed message has a canonical line: names are trimmed and space-free, list items are free of spaces and commas |
| Messages.ParseCanonical | src/messages.rs:50-84 | rendering and re-parsing any parsed message gives the same message |
| ChannelRegistry.New | src/channels.rs:12-16 | a new registry knows no channel |
| ChannelRegistry.NewIsEmpty | src/channels.rs:33-39 | every channel of a new registry lists no member |
| ChannelRegistry.ChannelList | src/channels.rs:33-39 | an unknown channel lists no member |
| ChannelRegistry.JoinUser | src/channels.rs:18-31 | the nickname is added to the channel's members, a new channel starts as just that nickname, the channel now exists, and every other channel is unchanged |
| ChannelRegistry.JoinIdempotent | src/channels.rs:18-31 | joining twice with the same nickname equals joining once |
| ChannelRegistry.JoinCommutes | src/channels.rs:18-31 | two joins give the same registry in either order |
| ChannelRegistry.JoinsOnlyGrow | src/channels.rs:18-31 | after any sequence of joins, every earlier member and every earlier channel is still there |
| ChannelRegistry.JoinAllChannels | src/channels.rs:12-31 | from a new registry, the channels that exist are exactly the ones joined |
| ChannelRegistry.JoinAllMembers | src/channels.rs:12-39 | from a new registry, a channel's members are exactly the nicknames that joined it |
| ConnectionRegistry.NewConnections | src/connections.rs:27-33 | a new registry has no connection, no claimed nickname and no channel |
| ConnectionRegistry.RegisterConnection | src/connections.rs:35-50 | the address now maps to the mailbox, other addresses and the nickname map are unchanged, and the session owns the mailbox, knows nothing of its user and is not authenticated |
| ConnectionRegistry.SetNickIfAvailable | src/connections.rs:52-61 | the claim is granted exactly when the nickname is free; a refusal changes nothing; a grant binds the nickname to the mailbox and keeps every existing claim |
| ConnectionRegistry.Present | src/connections.rs:73-78 | the filter yields only claimed nicknames |
| ConnectionRegistry.PresentCounts | src/connections.rs:73-78 | each claimed nickname as often as it was requested, and no unclaimed one |
| ConnectionRegistry.Senders | src/connections.rs:69-80 | each claimed nickname paired with the mailbox it is claimed by, in request order |
| ConnectionRegistry.SendMsgToNicks | src/connections.rs:63-86 | one PRIVMSG record per claimed requested nickname, in request order, on that nickname's mailbox; unclaimed nicknames get nothing |
| ConnectionRegistry.DeliverAppends | src/connections.rs:82-85 | queuing records only appends: each mailbox ends with exactly the texts addressed to it, in order |
| ConnectionRegistry.Deliver | src/connections.rs:82-85 | no contract of its own; `ConnectionRegistry.DeliverAppends` states that each mailbox ends with exactly the texts addressed to it |
| ConnectionRegistry.TextsToAppend | src/connections.rs:82-85 | the records a mailbox gets from two batches are the first batch's, then the second's |
| ConnectionRegistry.SendMsgToNicksFrame | src/connections.rs:63-86 | a mailbox no claimed nickname maps to receives nothing from a fan-out |
| ConnectionRegistry.CheckAuthenticated | src/connections.rs:137-153 | the flag becomes set once nickname and user name are both known and is never cleared; the welcome goes to the client's own mailbox exactly when the flag flips |
| ConnectionRegistry.SetNick | src/connections.rs:155-173 | a taken nickname, the client's own included, gets the in-use reply and changes nothing; a free one is stored and claimed by the client's mailbox; the hop count is ignored |
| ConnectionRegistry.SetUser | src/connections.rs:175-179 | user, host and real name are overwritten; the server name is dropped; nickname and flag are kept |
| ConnectionRegistry.SendPrivMsg | src/connections.rs:185-202 | it panics exactly when nickname or user name is unset; otherwise it fans out with the `:nick!user@localhost` label |
| ConnectionRegistry.Ping | src/connections.rs:233-238 | exactly one reply, on the client's own mailbox, whatever the registration state |
| ConnectionRegistry.HandleMessage | src/connections.rs:97-135 | it panics exactly for PASS, channel PRIVMSG, QUIT, MODE and an unregistered PRIVMSG; invalid and JOIN change nothing; PING answers on the client's mailbox; otherwise the mailbox is kept, the flag is never cleared, nickname claims only grow, and connections and channels are untouched |
| ConnectionRegistry.HandleMessageAux | src/connections.rs:101-135 | no contract of its own; `ConnectionRegistry.HandleMessage` states its panic set, its no-ops, the PING reply and what a step may change |
| SessionProperties.FreshSessionIsGood | src/connections.rs:35-50 | a freshly registered session satisfies the session invariant |
| SessionProperties.ParsedIsSpaceFree | src/messages.rs:86-120 | parsed nicknames and user names hold no space |
| SessionProperties.WelcomeLineIsWelcome | src/connections.rs:143-146 | the welcome record starts with `:localhost 001 ` and ends with `!` and CR LF |
| SessionProperties.InUseReplyIsNotWelcome | src/connections.rs:160-165 | the nickname-in-use reply is never a welcome, whatever numeric it carries, because it ends in `use` |
| SessionProperties.NickInUseIsNotWelcome | src/connections.rs:160-165 | the nickname-in-use reply is never mistaken for a welcome |
| SessionProperties.PongIsNotWelcome | src/connections.rs:234 | the PING reply is never mistaken for a welcome |
| SessionProperties.PrivmsgIsNotWelcome | src/connections.rs:190-195 | a PRIVMSG record from a space-free sender label is never mistaken for a welcome |
| SessionProperties.PrivateMessagesAreNotWelcomes | src/connections.rs:185-202 | a fan-out queues no welcome |
| SessionProperties.HandleMessageStep | src/connections.rs:101-135 | every handled message keeps the session invariant, and queues one welcome if it is the message that authenticates the session, and none otherwise |
| SessionProperties.WelcomesGoHome | src/connections.rs:101-153 | any welcome a handled message queues goes to the handling client's own mailbox |
| SessionProperties.OthersKeepTheirNicks | src/connections.rs:52-61 | a step of any session leaves every other session's nickname claim in place |
| SessionProperties.NicknamesAreExclusive | src/connections.rs:52-61 | two sessions with different mailboxes that own their nicknames have different nicknames |
| SessionProperties.ClaimRace | src/connections.rs:155-173 | of two clients claiming the same free nickname in turn, the first gets it, and the second gets the in-use reply and keeps its old nickname |
| SessionProperties.ParseLine | src/server.rs:50-52 | a line read off the socket yields a message exactly when the parser does not panic on it, and every message it yields has space-free names |
| SessionProperties.RunMessages | src/server.rs:45-63 | no contract of its own; `SessionProperties.RunInvariant` states the invariant, the flag, the claims and the welcome count over every run |
| SessionProperties.RunLines | src/server.rs:45-63 | no contract of its own; `SessionProperties.WelcomeAtMostOnce` and the scenarios below state what runs of lines do |
| SessionProperties.RunInvariant | src/server.rs:45-63 | over any run of handled messages with space-free names: the invariant holds, the flag is never cleared, claims only grow, and one welcome is queued if the run authenticated the session and none otherwise |
| SessionProperties.WelcomeAtMostOnce | src/connections.rs:137-153 | from a fresh connection, whatever the client sends, at most one welcome, and one exactly when both a nickname and a user name got stored |
| SessionProperties.TrimLineEnd | src/messages.rs:88-91 | trimming a name that ends in CR LF gives the bare name |
| SessionProperties.NickLineParses | src/messages.rs:86-91 | `NICK <name>` with the line ending parses to the name with hop count 0 |
| SessionProperties.UserLineParses | src/messages.rs:109-117 | `USER` with the same name four times parses to that name in all four fields |
| SessionProperties.RegistrationSteps | src/connections.rs:101-118 | NICK then USER from a new session: the free nickname is claimed and stored, and exactly one welcome is queued on the client's mailbox |
| SessionProperties.PrivmsgLineParses | src/messages.rs:122-144 | a PRIVMSG line to one plain nickname parses to a private message to that nickname alone, with the message verbatim |
| SessionProperties.PrivmsgDelivered | src/connections.rs:185-202 | a registered session's private message to one claimed nickname queues exactly one record, on that nickname's mailbox, labelled `:nick!user@localhost`, and changes no state |
| SessionProperties.WelcomeScenario | src/server_test.rs:8-23 | a client sending NICK and USER is welcomed once, on its own mailbox, by its nickname |
| SessionProperties.PrivateMessageScenario | src/server_test.rs:26-53 | after two registrations, a PRIVMSG to the second client queues exactly one record, on that client's mailbox, carrying `PRIVMSG <nick> <message>` |
| SessionProperties.NicknameClashScenario | src/connections.rs:155-173 | a second client asking for a held nickname gets the in-use reply on its own mailbox and no nickname, and the holder keeps it |
| ServerRuns.WelcomesToOwner | src/connections.rs:143-146 | when every welcome of a record list goes to one mailbox, that mailbox gets all of them and every other mailbox none |
| ServerRuns.WelcomesToAppend | src/connections.rs:82-85 | the welcomes a mailbox gets from two batches add up |
| ServerRuns.Apply | src/server.rs:26-69 | no contract of its own; `ServerRuns.AcceptKeepsSound` and `ServerRuns.ReceiveKeepsSound` state that each event keeps the server invariant |
| ServerRuns.Serve | src/server.rs:26-69 | no contract of its own; `ServerRuns.ServeSound`, `ServerRuns.NicknamesAreUnique` and `ServerRuns.WelcomedAtMostOnceEach` state what holds after every history |
| ServerRuns.AcceptKeepsSound | src/server.rs:37-43 | accepting a client with a fresh mailbox keeps the server invariant: each task owns its own mailbox, every session keeps the session invariant, and each mailbox holds one welcome exactly when its session is authenticated |
| ServerRuns.HandledKeepsSound | src/connections.rs:101-135 | one task's handled message keeps the server invariant for every task, the handling one and all others |
| ServerRuns.ReceiveKeepsSound | src/server.rs:45-55 | one task reading one line keeps the server invariant, whether the line parses, panics or is handled |
| ServerRuns.ServeSound | src/server.rs:26-69 | after any interleaving of accepts and lines, the server invariant holds |
| ServerRuns.NicknamesAreUnique | src/connections.rs:52-61 | after any interleaving, two different connections never hold the same nickname |
| ServerRuns.WelcomedAtMostOnceEach | src/connections.rs:137-153 | after any interleaving, each connection's mailbox holds at most one welcome, and one exactly when that connection stored both a nickname and a user name |

## Left out

- Sockets, `read_line`, writing to the socket, `tokio::select!` and `src/main.rs` are not
  modelled. A client's lines enter as a sequence, or as `Receive` events of
  `ServerRuns.Serve`. Records leave as envelopes, or as a `PostOffice` of mailbox queues.
- The locks and `Arc` sharing are not modelled. Each handled message is one atomic step on an
  immutable value, and interleavings of tasks are sequences of such steps. The `Mutex` makes
  each registry operation atomic, but not every handler as a whole.
- ConnectionRegistry.SendMsgToNicks: a fan-out's records are modelled as one contiguous block.
  In the source, the lock is released once the list of mailboxes is built
  (`src/connections.rs:69-80`). Each record is then sent with its own `.await`
  (`src/connections.rs:82-85`). So another task's records can land between two records of one
  fan-out. Within one mailbox, the records of one fan-out still arrive in request order. The
  welcome and nickname results count records and do not depend on their order.
- Send failures are not modelled. `Sender::send` fails only when the receiving task has ended,
  and that, plus the early return it causes in `set_nick` and `check_authenticated`, is left
  out.
- `dbg!` output is not modelled.
- ServerRuns.WelcomedAtMostOnceEach: mailboxes are unbounded, while in the source each channel
  holds 10 records and a send to a full one waits. A task whose own mailbox other clients'
  PRIVMSGs have filled waits forever inside `check_authenticated` (`src/connections.rs:137-153`)
  once both names are stored, because only the task itself empties that mailbox. So "one
  welcome exactly when both names are stored" holds for unbounded mailboxes only; "at most one
  welcome" holds in every case.
- `src/errorcodes.rs` is not part of this model. `ERR_ALREADYREGISTRED` is taken as `462`, its
  value in section 6.1 of RFC 1459. No proof depends on that value:
  `SessionProperties.InUseReplyIsNotWelcome` holds for any numeric.
- PASS, channel PRIVMSG, QUIT and MODE are `todo!()` stubs, modelled as panics.
- ConnectionRegistry.HandleMessage: JOIN does not touch the channel registry. This follows
  `join_channels` as written, which takes the lock, requires a nickname and reads the
  channel list without adding anyone. Nothing calls `join_user` outside its own tests.
  `src/server_test.rs:56-96` expects members after JOIN, but it builds the server with
  `Server::new(listener)`, which this snapshot does not have. So it targets another version,
  and this is not reported as a defect of this code.
- Text.ParseUsize: a 64-bit `usize` is assumed.
- Strings are sequences of Unicode scalar values. The only byte-level effect modelled is the
  slice at byte 1 of a line or PRIVMSG body without a space, which panics when its first
  character is not ASCII (`Messages.Sliceable`). Nothing else in the parser depends on the
  encoding.

Where the code differs from common IRC practice, the model follows the code:

- the hop count accepts a `+` sign;
- `trim` strips all Unicode whitespace, not just ASCII;
- the PING reply is `:localhost localhost <server>` with no `PONG` keyword;
- the second USER parameter is the server name;
- a client re-sending its own nickname gets the in-use reply.
