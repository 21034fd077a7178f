/**
  The action queue of zserver/zserver.cpp: connection callbacks and the
  simulation push actions under a lock, and one consumer thread takes them out
  and carries them out. A step is one critical section or one send.
 */
module ActionQueue {

  import opened Options

  type Connection = nat

  datatype Action =
    | Subscribe(conn: Connection)
    | Unsubscribe(conn: Connection)
    | Broadcast(text: string)
    | Message(conn: Connection, body: string)
    | Exit

  /** The consumer waits, holds an action it took, is sending to the remaining connections, or has left its loop. */
  datatype Consumer =
    | Waiting
    | Holding(a: Action)
    | Sending(text: string, rest: set<Connection>)
    | Stopped

  datatype Sent = Sent(to: Connection, text: string)

  /** The shared queue and connection set, the consumer, and the history of pushes, takes and sends. */
  datatype State = State(
    actions: seq<Action>,
    connections: set<Connection>,
    consumer: Consumer,
    pushed: seq<Action>,
    taken: nat,
    sent: seq<Sent>)

  /** Push comes from any producer; the others are the consumer's. */
  datatype Event = Push(a: Action) | Take | Handle | Send(to: Connection) | Finish

  const START := State([], {}, Waiting, [], 0, [])

  predicate Enabled(s: State, e: Event) {
    match e
    case Push(_) => true
    case Take => s.consumer.Waiting? && s.actions != []
    case Handle => s.consumer.Holding?
    case Send(to) => s.consumer.Sending? && to in s.consumer.rest
    case Finish => s.consumer.Sending? && s.consumer.rest == {}
  }

  function Next(s: State, e: Event): State
    requires Enabled(s, e)
  {
    match e
    case Push(a) => s.(actions := s.actions + [a], pushed := s.pushed + [a])
    case Take => s.(actions := s.actions[1..], consumer := Holding(s.actions[0]), taken := s.taken + 1)
    case Handle =>
      (match s.consumer.a
       case Subscribe(c) => s.(connections := s.connections + {c}, consumer := Waiting)
       case Unsubscribe(c) => s.(connections := s.connections - {c}, consumer := Waiting)
       case Message(_, _) => s.(consumer := Waiting)
       case Broadcast(text) => s.(consumer := Sending(text, s.connections))
       case Exit => s.(consumer := Stopped))
    case Send(to) =>
      s.(consumer := Sending(s.consumer.text, s.consumer.rest - {to}),
         sent := s.sent + [Sent(to, s.consumer.text)])
    case Finish => s.(consumer := Waiting)
  }

  /** The state after a trace, or None if it is not possible in this order. */
  function Exec(trace: seq<Event>): Option<State> {
    if trace == [] then Some(START)
    else
      match Exec(trace[..|trace| - 1])
      case None => None
      case Some(s) =>
        var e := trace[|trace| - 1];
        if Enabled(s, e) then Some(Next(s, e)) else None
  }

  // ----- what the queue order alone demands -----

  /** The connections subscribed and not since unsubscribed by these actions, in order. */
  function Subscribed(actions: seq<Action>): set<Connection> {
    if actions == [] then {}
    else
      var before, a := Subscribed(actions[..|actions| - 1]), actions[|actions| - 1];
      if a.Subscribe? then before + {a.conn} else if a.Unsubscribe? then before - {a.conn} else before
  }

  /** The texts of the broadcasts among these actions that find c subscribed, in queue order. */
  function Expected(actions: seq<Action>, c: Connection): seq<string> {
    if actions == [] then []
    else
      var before, a := actions[..|actions| - 1], actions[|actions| - 1];
      Expected(before, c) + if a.Broadcast? && c in Subscribed(before) then [a.text] else []
  }

  /** The texts that connection c receives, in order. */
  function Received(sent: seq<Sent>, c: Connection): seq<string> {
    if sent == [] then []
    else
      var last := sent[|sent| - 1];
      Received(sent[..|sent| - 1], c) + if last.to == c then [last.text] else []
  }

  /** Every connection has received what the actions demand. */
  ghost predicate Settled(sent: seq<Sent>, actions: seq<Action>) {
    forall c :: Received(sent, c) == Expected(actions, c)
  }

  /** So it will be once text has gone to the connections of rest. */
  ghost predicate Underway(sent: seq<Sent>, text: string, rest: set<Connection>, actions: seq<Action>) {
    forall c :: Received(sent, c) + (if c in rest then [text] else []) == Expected(actions, c)
  }

  /** The queue holds what was pushed and not taken, in order. */
  ghost predicate QueueOk(s: State) {
    s.taken <= |s.pushed| && s.actions == s.pushed[s.taken..]
  }

  /** The consumer has carried out what it took, except possibly the last action. */
  ghost predicate ConsumerOk(s: State)
    requires QueueOk(s)
  {
    var done := s.pushed[..s.taken];
    match s.consumer
    case Waiting => Exit !in done && s.connections == Subscribed(done) && Settled(s.sent, done)
    case Holding(a) =>
      && s.taken > 0 && a == done[s.taken - 1] && Exit !in done[..s.taken - 1]
      && s.connections == Subscribed(done[..s.taken - 1]) && Settled(s.sent, done[..s.taken - 1])
    case Sending(text, rest) =>
      && s.taken > 0 && done[s.taken - 1] == Broadcast(text) && Exit !in done
      && s.connections == Subscribed(done) && rest <= s.connections
      && Underway(s.sent, text, rest, done)
    case Stopped =>
      && s.taken > 0 && done[s.taken - 1] == Exit && Exit !in done[..s.taken - 1]
      && s.connections == Subscribed(done) && Settled(s.sent, done)
  }

  ghost predicate Inv(s: State) {
    QueueOk(s) && ConsumerOk(s)
  }

  lemma ReceivedStep(sent: seq<Sent>, m: Sent, c: Connection)
    ensures Received(sent + [m], c) == Received(sent, c) + if m.to == c then [m.text] else []
  {
    assert (sent + [m])[..|sent|] == sent;
  }

  /** The text goes to one more connection. */
  lemma UnderwayStep(sent: seq<Sent>, text: string, rest: set<Connection>, to: Connection, actions: seq<Action>)
    requires Underway(sent, text, rest, actions) && to in rest
    ensures Underway(sent + [Sent(to, text)], text, rest - {to}, actions)
  {
    hide Expected, Received;
    forall c ensures Received(sent + [Sent(to, text)], c) + (if c in rest - {to} then [text] else [])
                  == Expected(actions, c)
    {
      ReceivedStep(sent, Sent(to, text), c);
    }
  }

  /** A new action: a broadcast has to go to everybody subscribed, anything else to nobody. */
  lemma ActionStep(sent: seq<Sent>, actions: seq<Action>)
    requires actions != [] && Settled(sent, actions[..|actions| - 1])
    ensures var a := actions[|actions| - 1];
            if a.Broadcast? then Underway(sent, a.text, Subscribed(actions[..|actions| - 1]), actions)
            else Settled(sent, actions)
  {
    hide Subscribed, Received;
  }

  lemma PushKeepsInv(s: State, a: Action)
    requires Inv(s)
    ensures Inv(Next(s, Push(a)))
  {
    var t := Next(s, Push(a));
    assert t.pushed[..t.taken] == s.pushed[..s.taken];
  }

  lemma TakeKeepsInv(s: State)
    requires Inv(s) && Enabled(s, Take)
    ensures Inv(Next(s, Take))
  {
    var t := Next(s, Take);
    assert t.pushed[..t.taken][..t.taken - 1] == s.pushed[..s.taken];
  }

  lemma HandleKeepsInv(s: State)
    requires Inv(s) && Enabled(s, Handle)
    ensures Inv(Next(s, Handle))
  {
    hide Settled, Underway;
    var done := s.pushed[..s.taken];
    ActionStep(s.sent, done);
    assert done == done[..s.taken - 1] + [done[s.taken - 1]];
  }

  lemma SendKeepsInv(s: State, text: string, rest: set<Connection>, to: Connection)
    requires Inv(s) && s.consumer == Sending(text, rest) && to in rest
    ensures Inv(Next(s, Send(to)))
  {
    hide Settled, Underway, Subscribed;
    UnderwayStep(s.sent, text, rest, to, s.pushed[..s.taken]);
  }

  lemma FinishKeepsInv(s: State, text: string)
    requires Inv(s) && s.consumer == Sending(text, {})
    ensures Inv(Next(s, Finish))
  {
    hide Expected, Received, Subscribed;
    var done := s.pushed[..s.taken];
    forall c ensures Received(s.sent, c) == Expected(done, c) {
      assert Received(s.sent, c) + [] == Received(s.sent, c);
    }
  }

  /** Every state that any interleaving of producers and consumer can reach. */
  lemma {:induction false} RunKeepsInv(trace: seq<Event>)
    ensures Exec(trace).Some? ==> Inv(Exec(trace).value)
  {
    if trace == [] {
      assert START.pushed[..0] == [];
    } else {
      RunKeepsInv(trace[..|trace| - 1]);
      var s, e := Exec(trace[..|trace| - 1]), trace[|trace| - 1];
      if s.Some? && Enabled(s.value, e) {
        hide Inv, Next;
        match e
        case Push(a) => PushKeepsInv(s.value, a);
        case Take => TakeKeepsInv(s.value);
        case Handle => HandleKeepsInv(s.value);
        case Send(to) => SendKeepsInv(s.value, s.value.consumer.text, s.value.consumer.rest, to);
        case Finish => FinishKeepsInv(s.value, s.value.consumer.text);
      }
    }
  }

  /**
    Every connection receives the broadcasts that find it subscribed, each once and in queue order, and no others:
    exactly those of the actions taken when the consumer is between actions or has stopped, and at any other
    time at most the latest one is missing.
   */
  lemma Delivered(trace: seq<Event>, c: Connection)
    requires Exec(trace).Some?
    ensures var s := Exec(trace).value;
            && s.taken <= |s.pushed|
            && var all, got := Expected(s.pushed[..s.taken], c), Received(s.sent, c);
            && got <= all <= got + (if |all| > 0 then [all[|all| - 1]] else [])
            && (s.consumer.Waiting? || s.consumer.Stopped? ==> got == all)
  {
    RunKeepsInv(trace);
    hide Exec, Received, Subscribed;
    var s := Exec(trace).value;
    var done := s.pushed[..s.taken];
    if s.consumer.Holding? {
      assert Settled(s.sent, done[..s.taken - 1]);
    }
  }

  /** Nothing queued behind an exit action is ever taken. */
  lemma NothingAfterExit(trace: seq<Event>, i: nat)
    requires Exec(trace).Some? && i < |Exec(trace).value.pushed| && Exec(trace).value.pushed[i] == Exit
    ensures Exec(trace).value.taken <= i + 1
  {
    RunKeepsInv(trace);
    hide Exec, Settled, Underway, Subscribed;
    var s := Exec(trace).value;
    var done := s.pushed[..s.taken];
    forall j | 0 <= j < s.taken - 1 ensures s.pushed[j] != Exit {
      assert done[j] == done[..s.taken - 1][j] == s.pushed[j];
    }
  }

  /** The consumer can always finish on its own: no reachable state leaves it stuck before the queue is empty. */
  lemma Drain(trace: seq<Event>) returns (more: seq<Event>)
    requires Exec(trace).Some?
    ensures forall e :: e in more ==> !e.Push?
    ensures Exec(trace + more).Some?
    ensures var s := Exec(trace + more).value;
            s.consumer.Stopped? || (s.consumer.Waiting? && s.actions == [])
    decreases |Exec(trace).value.actions|, Phase(Exec(trace).value.consumer), Pending(Exec(trace).value.consumer)
  {
    var s := Exec(trace).value;
    if s.consumer.Stopped? || (s.consumer.Waiting? && s.actions == []) {
      more := [];
      assert trace + [] == trace;
    } else {
      var e := ConsumerEvent(s);
      assert (trace + [e])[..|trace|] == trace;
      var rest := Drain(trace + [e]);
      more := [e] + rest;
      assert trace + more == trace + [e] + rest;
    }
  }

  function Phase(c: Consumer): nat {
    match c
    case Waiting => 0
    case Holding(_) => 2
    case Sending(_, _) => 1
    case Stopped => 0
  }

  function Pending(c: Consumer): nat { if c.Sending? then |c.rest| else 0 }

  /** Some step of the consumer is possible, and it brings the end of its work nearer. */
  lemma ConsumerEvent(s: State) returns (e: Event)
    requires !s.consumer.Stopped? && (s.consumer.Waiting? ==> s.actions != [])
    ensures !e.Push? && Enabled(s, e)
    ensures var t := Next(s, e);
            || |t.actions| < |s.actions|
            || (t.actions == s.actions && Phase(t.consumer) < Phase(s.consumer))
            || (t.actions == s.actions && Phase(t.consumer) == Phase(s.consumer)
                && Pending(t.consumer) < Pending(s.consumer))
  {
    match s.consumer
    case Waiting => e := Take;
    case Holding(_) => e := Handle;
    case Sending(_, rest) =>
      if to :| to in rest {
        e := Send(to);
      } else {
        e := Finish;
      }
  }

  // ----- the code -----

  class Server {
    var actions: seq<Action>
    var connections: set<Connection>
    var consumer: Consumer
    ghost var pushed: seq<Action>
    ghost var taken: nat
    ghost var sent: seq<Sent>

    ghost function Snapshot(): State
      reads this
    {
      State(actions, connections, consumer, pushed, taken, sent)
    }

    constructor ()
      ensures Snapshot() == START
    {
      actions, connections, consumer := [], {}, Waiting;
      pushed, taken, sent := [], 0, [];
    }

    /** The critical section of on_open, on_close, on_message, zserver_commit and zserver_stop. */
    method PushAction(a: Action)
      modifies this
      ensures Snapshot() == Next(old(Snapshot()), Push(a))
    {
      actions := actions + [a];
      pushed := pushed + [a];
    }

    method OnOpen(hdl: Connection)
      modifies this
      ensures Snapshot() == Next(old(Snapshot()), Push(Subscribe(hdl)))
    {
      PushAction(Subscribe(hdl));
    }

    method OnClose(hdl: Connection)
      modifies this
      ensures Snapshot() == Next(old(Snapshot()), Push(Unsubscribe(hdl)))
    {
      PushAction(Unsubscribe(hdl));
    }

    method OnMessage(hdl: Connection, msg: string)
      modifies this
      ensures Snapshot() == Next(old(Snapshot()), Push(Message(hdl, msg)))
    {
      PushAction(Message(hdl, msg));
    }

    method Commit(json: string)
      modifies this
      ensures Snapshot() == Next(old(Snapshot()), Push(Broadcast(json)))
    {
      PushAction(Broadcast(json));
    }

    method Stop()
      modifies this
      ensures Snapshot() == Next(old(Snapshot()), Push(Exit))
    {
      PushAction(Exit);
    }

    /** front and pop, under the lock. */
    method TakeAction() returns (a: Action)
      requires Enabled(Snapshot(), Take)
      modifies this
      ensures Snapshot() == Next(old(Snapshot()), Take) && consumer == Holding(a)
    {
      a := actions[0];
      actions := actions[1..];
      consumer := Holding(a);
      taken := taken + 1;
    }

    /** The branch on the action's type. */
    method HandleAction(a: Action)
      requires consumer == Holding(a)
      modifies this
      ensures Snapshot() == Next(old(Snapshot()), Handle)
    {
      match a
      case Subscribe(hdl) =>
        connections := connections + {hdl};
        consumer := Waiting;
      case Unsubscribe(hdl) =>
        connections := connections - {hdl};
        consumer := Waiting;
      case Message(_, _) =>
        consumer := Waiting;
      case Broadcast(text) =>
        consumer := Sending(text, connections);
      case Exit =>
        consumer := Stopped;
    }

    /** One send of the broadcast loop. */
    method SendTo(conn: Connection)
      requires Enabled(Snapshot(), Send(conn))
      modifies this
      ensures Snapshot() == Next(old(Snapshot()), Send(conn))
    {
      sent := sent + [Sent(conn, consumer.text)];
      consumer := Sending(consumer.text, consumer.rest - {conn});
    }

    /** start_process_message without interference: runs until it exits or would have to wait. */
    method ProcessMessages()
      requires Inv(Snapshot()) && consumer.Waiting?
      modifies this
      ensures Inv(Snapshot()) && pushed == old(pushed)
      ensures consumer.Stopped? || (consumer.Waiting? && actions == [])
      ensures forall c :: Received(sent, c) == Expected(pushed[..taken], c)
    {
      hide Inv;
      while consumer.Waiting? && actions != []
        invariant Inv(Snapshot()) && pushed == old(pushed) && (consumer.Waiting? || consumer.Stopped?)
        decreases |actions|
      {
        TakeKeepsInv(Snapshot());
        var a := TakeAction();
        HandleKeepsInv(Snapshot());
        HandleAction(a);
        ghost var remaining := actions;
        if consumer.Sending? {
          while consumer.rest != {}
            invariant consumer.Sending? && Inv(Snapshot()) && pushed == old(pushed)
            invariant actions == remaining
            decreases |consumer.rest|
          {
            var conn :| conn in consumer.rest;
            SendKeepsInv(Snapshot(), consumer.text, consumer.rest, conn);
            SendTo(conn);
          }
          FinishKeepsInv(Snapshot(), consumer.text);
          consumer := Waiting;
        }
      }
      SettledSends(Snapshot());
    }
  }

  lemma SettledSends(s: State)
    requires Inv(s) && (s.consumer.Waiting? || s.consumer.Stopped?)
    ensures s.taken <= |s.pushed| && forall c :: Received(s.sent, c) == Expected(s.pushed[..s.taken], c)
  {}
}
