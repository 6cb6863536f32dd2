/** The whole server of src/server.rs: connections are accepted one after another, each gets its
    own task, and the tasks' steps interleave in any order over the one shared registry. Each
    handler step is atomic here (see README for the one operation where the source is finer). */
module ServerRuns {
  import opened ConnectionRegistry
  import opened SessionProperties

  /** One connection task: its session, and whether it is still running. */
  datatype Task = Task(session: UserConnection, alive: bool)

  /** The shared registry, the tasks in order of acceptance, and every record queued so far. */
  datatype Server = Server(conns: Connections, tasks: seq<Task>, outbox: seq<Envelope>)

  /** What can happen next: a new client is accepted, or task `who` reads one line. */
  datatype Event = Accept(address: Address) | Receive(who: nat, line: string)

  /** `Server::new`. */
  const Start: Server := Server(NewConnections(), [], [])

  /** One event. An accepted client gets a mailbox of its own (every connection opens a fresh
      channel) and a fresh session. A line for a task that is gone or never existed changes
      nothing; a panic ends the task and leaves everything else as it was. */
  function Apply(sv: Server, e: Event): Server
  {
    match e
    case Accept(address) =>
      var (c, s) := RegisterConnection(sv.conns, address, Mailbox(|sv.tasks|));
      Server(c, sv.tasks + [Task(s, true)], sv.outbox)
    case Receive(who, line) =>
      if who >= |sv.tasks| || !sv.tasks[who].alive then sv
      else
        var s := sv.tasks[who].session;
        match HandleLine(sv.conns, s, line)
        case None => sv.(tasks := sv.tasks[who := Task(s, false)])
        case Some(st) => Server(st.conns, sv.tasks[who := Task(st.session, true)], sv.outbox + st.outbox)
  }

  /** The server after a history of events, applied in order from `Start`. */
  function Serve(events: seq<Event>): Server
  {
    if |events| == 0 then Start
    else Apply(Serve(events[..|events| - 1]), events[|events| - 1])
  }

  /** The number of welcomes among some texts. */
  function Welcomes(texts: seq<string>): nat
  {
    if |texts| == 0 then 0
    else (if IsWelcome(texts[0]) then 1 else 0) + Welcomes(texts[1..])
  }

  lemma {:induction false} WelcomesAppend(x: seq<string>, y: seq<string>)
    ensures Welcomes(x + y) == Welcomes(x) + Welcomes(y)
  {
    if |x| > 0 {
      assert (x + y)[0] == x[0];
      assert (x + y)[1..] == x[1..] + y;
      WelcomesAppend(x[1..], y);
    } else {
      assert x + y == y;
    }
  }

  /** The number of welcomes queued on mailbox `m`: the welcomes among its texts, in the view of
      `ConnectionRegistry.TextsTo` that `Deliver` appends to each mailbox. */
  function WelcomesTo(out: seq<Envelope>, m: Mailbox): nat
  {
    Welcomes(TextsTo(out, m))
  }

  lemma WelcomesToAppend(a: seq<Envelope>, b: seq<Envelope>, m: Mailbox)
    ensures WelcomesTo(a + b, m) == WelcomesTo(a, m) + WelcomesTo(b, m)
  {
    TextsToAppend(a, b, m);
    WelcomesAppend(TextsTo(a, m), TextsTo(b, m));
  }

  /** When every welcome goes to `owner`, the owner gets all of them and any other mailbox none. */
  lemma {:induction false} WelcomesToOwner(out: seq<Envelope>, owner: Mailbox, m: Mailbox)
    requires WelcomesOnlyTo(out, owner)
    ensures WelcomesTo(out, m) == if m == owner then WelcomeCount(out) else 0
  {
    if |out| > 0 {
      assert WelcomesOnlyTo(out[1..], owner) by {
        forall i | 0 <= i < |out[1..]| && IsWelcome(out[1..][i].text)
          ensures out[1..][i].to == owner
        {
          assert out[1..][i] == out[i + 1];
        }
      }
      WelcomesToOwner(out[1..], owner, m);
      var head: seq<string> := if out[0].to == m then [out[0].text] else [];
      WelcomesAppend(head, TextsTo(out[1..], m));
      if out[0].to == m {
        assert head[1..] == [];
      }
    }
  }

  /** What holds of the server at every point: task `i` owns mailbox `i`, every session keeps the
      session invariant against the shared registry, and each mailbox holds one welcome if its
      session is authenticated and none otherwise (none for a mailbox not handed out yet). */
  ghost predicate Sound(sv: Server)
  {
    && (forall i :: 0 <= i < |sv.tasks| ==> sv.tasks[i].session.sender == Mailbox(i))
    && (forall i :: 0 <= i < |sv.tasks| ==> Good(sv.conns, sv.tasks[i].session))
    && (forall i :: 0 <= i < |sv.tasks| ==>
          WelcomesTo(sv.outbox, Mailbox(i)) == if sv.tasks[i].session.authenticated then 1 else 0)
    && (forall m: Mailbox :: m.id >= |sv.tasks| ==> WelcomesTo(sv.outbox, m) == 0)
  }

  lemma AcceptKeepsSound(sv: Server, address: Address)
    requires Sound(sv)
    ensures Sound(Apply(sv, Accept(address)))
  {
    var n := |sv.tasks|;
    var (c, s) := RegisterConnection(sv.conns, address, Mailbox(n));
    FreshSessionIsGood(sv.conns, address, Mailbox(n));
    var sv' := Apply(sv, Accept(address));
    assert sv'.tasks == sv.tasks + [Task(s, true)];
    forall i | 0 <= i < |sv'.tasks|
      ensures sv'.tasks[i].session.sender == Mailbox(i) && Good(sv'.conns, sv'.tasks[i].session)
      ensures WelcomesTo(sv'.outbox, Mailbox(i)) == if sv'.tasks[i].session.authenticated then 1 else 0
    {
      if i < n {
        assert sv'.tasks[i] == sv.tasks[i];
      } else {
        assert WelcomesTo(sv.outbox, Mailbox(n)) == 0;
      }
    }
  }

  /** A handled line keeps the server sound: the handling session by `HandleMessageStep`, every
      other session by `OthersKeepTheirNicks`, and the welcome tally because the step's welcome,
      if any, lands on the handling session's own mailbox. */
  lemma HandledKeepsSound(sv: Server, who: nat, m: Messages.UserMessage)
    requires Sound(sv) && who < |sv.tasks| && SpaceFreeMessage(m)
    requires HandleMessage(sv.conns, sv.tasks[who].session, m).Some?
    ensures var st := HandleMessage(sv.conns, sv.tasks[who].session, m).value;
      Sound(Server(st.conns, sv.tasks[who := Task(st.session, true)], sv.outbox + st.outbox))
  {
    var s := sv.tasks[who].session;
    var st := HandleMessage(sv.conns, s, m).value;
    var sv' := Server(st.conns, sv.tasks[who := Task(st.session, true)], sv.outbox + st.outbox);
    HandleMessageStep(sv.conns, s, m);
    WelcomesGoHome(sv.conns, s, m);
    forall i | 0 <= i < |sv'.tasks|
      ensures sv'.tasks[i].session.sender == Mailbox(i) && Good(sv'.conns, sv'.tasks[i].session)
      ensures WelcomesTo(sv'.outbox, Mailbox(i)) == if sv'.tasks[i].session.authenticated then 1 else 0
    {
      WelcomesToAppend(sv.outbox, st.outbox, Mailbox(i));
      WelcomesToOwner(st.outbox, s.sender, Mailbox(i));
      if i != who {
        OthersKeepTheirNicks(sv.conns, s, m, sv.tasks[i].session);
      }
    }
    forall mb: Mailbox | mb.id >= |sv'.tasks|
      ensures WelcomesTo(sv'.outbox, mb) == 0
    {
      WelcomesToAppend(sv.outbox, st.outbox, mb);
      WelcomesToOwner(st.outbox, s.sender, mb);
    }
  }

  lemma ApplyKeepsSound(sv: Server, e: Event)
    requires Sound(sv)
    ensures Sound(Apply(sv, e))
  {
    match e
    case Accept(address) => AcceptKeepsSound(sv, address);
    case Receive(who, line) =>
      if who < |sv.tasks| && sv.tasks[who].alive {
        ReceiveKeepsSound(sv, who, line);
      }
  }

  lemma ReceiveKeepsSound(sv: Server, who: nat, line: string)
    requires Sound(sv) && who < |sv.tasks| && sv.tasks[who].alive
    ensures Sound(Apply(sv, Receive(who, line)))
  {
    var s := sv.tasks[who].session;
    var pm := ParseLine(line);
    assert HandleLine(sv.conns, s, line) == HandleParsed(sv.conns, s, pm);
    if pm.Some? && HandleMessage(sv.conns, s, pm.value).Some? {
      HandledKeepsSound(sv, who, pm.value);
    }
  }

  /** Whatever the clients send and however their tasks interleave, the server stays sound. */
  lemma {:induction false} ServeSound(events: seq<Event>)
    ensures Sound(Serve(events))
  {
    if |events| > 0 {
      ServeSound(events[..|events| - 1]);
      ApplyKeepsSound(Serve(events[..|events| - 1]), events[|events| - 1]);
    }
  }

  /** Across the whole server, two different connections never hold the same nickname. */
  lemma NicknamesAreUnique(events: seq<Event>, i: nat, j: nat)
    requires i < |Serve(events).tasks| && j < |Serve(events).tasks| && i != j
    requires Serve(events).tasks[i].session.user.nick.Some?
    requires Serve(events).tasks[j].session.user.nick.Some?
    ensures Serve(events).tasks[i].session.user.nick != Serve(events).tasks[j].session.user.nick
  {
    var sv := Serve(events);
    ServeSound(events);
    NicknamesAreExclusive(sv.conns, sv.tasks[i].session, sv.tasks[j].session);
  }

  /** Whatever the clients send and however their tasks interleave, every connection's mailbox
      receives at most one welcome, and one exactly when that connection stored both a nickname
      and a user name. */
  lemma WelcomedAtMostOnceEach(events: seq<Event>, i: nat)
    requires i < |Serve(events).tasks|
    ensures var sv := Serve(events);
      && WelcomesTo(sv.outbox, Mailbox(i)) <= 1
      && (WelcomesTo(sv.outbox, Mailbox(i)) == 1 <==>
            sv.tasks[i].session.user.nick.Some? && sv.tasks[i].session.user.user.Some?)
  {
    ServeSound(events);
  }

}
