/**
  Fairness of the Linux loop: what a run of polls does to one listening descriptor
  is a run of operations on its port table, so a ready port is served there as
  soon as the ports ahead of it have been.
 */
module LinuxFairness {
  import PortTable
  import opened SingleDescriptor
  import opened LinuxLoop

  /** An operation, and the broadcast that follows if registering the descriptor is refused. */
  function WithRefusal(op: PortTable.Op, d: Descriptor, after: Descriptor): seq<PortTable.Op> {
    if after == d then [op] else [op, PortTable.NotifyAll]
  }

  /** The operations of an event on the listening descriptor at `a`. */
  ghost function EventOps(s: State, e: Event, a: Addr): seq<PortTable.Op>
    requires Inv(s) && (e.Ready? ==> e.addr in s.store) && a in s.store && s.store[a].Many? && a in HandleEvent(s, e).store
  {
    assert Synced(s, a);
    var d, after := s.store[a], HandleEvent(s, e).store[a];
    if !e.Ready? || e.addr != a then []
    else if IsError(e.reported) then WithRefusal(PortTable.NotifyAll, d.NotifyAll(), after)
    else if IsNotification(e.reported) then WithRefusal(PortTable.Next, d.NextNotify(), after)
    else []
  }

  /** The operations of a message on the listening descriptor at `a`, which outlives it. */
  ghost function MessageOps(s: State, m: Message, a: Addr): seq<PortTable.Op>
    requires Inv(s) && Legal(s, m) && a in s.store && s.store[a].Many? && a in HandleMessage(s, m).store
  {
    var d, after := s.store[a], HandleMessage(s, m).store[a];
    if !m.ToSocket? || m.fd == -1 || m.fd !in s.sockets || s.sockets[m.fd] != a then []
    else match m.command
      case ShutdownRead => []
      case ShutdownWrite => []
      case SetEventMask(events) =>
        WithRefusal(PortTable.SetMask(m.port, events == Interest(true, false)), d.SetPortAndMask(m.port, events), after)
      case ReturnToken(count) => WithRefusal(PortTable.Return(m.port, count), d.ReturnTokens(m.port, count), after)
      case Close(_) => if m.port == 0 then [] else WithRefusal(PortTable.Remove(m.port), d.RemovePort(m.port), after)
  }

  /** The table of the listening descriptor at `a` goes through these operations. */
  ghost predicate Goes(s: State, s': State, a: Addr, ops: seq<PortTable.Op>) {
    && a in s.store && s.store[a].Many? && a in s'.store && s'.store[a].Many?
    && PortTable.Inv(s.store[a].ports) && PortTable.LegalRun(s.store[a].ports, ops)
    && s'.store[a].ports == PortTable.Run(s.store[a].ports, ops)
  }

  lemma GoesNowhere(s: State, s': State, a: Addr)
    requires Inv(s) && a in s.store && s.store[a].Many? && a in s'.store && s'.store[a] == s.store[a]
    ensures Goes(s, s', a, [])
  {
    assert Synced(s, a);
  }

  lemma OneOp(t: PortTable.Table, op: PortTable.Op)
    requires PortTable.Inv(t) && PortTable.Legal(t, op)
    ensures PortTable.LegalRun(t, [op]) && PortTable.Run(t, [op]) == PortTable.After(t, op)
    ensures var t' := PortTable.After(t, op);
      && PortTable.LegalRun(t, [op, PortTable.NotifyAll])
      && PortTable.Run(t, [op, PortTable.NotifyAll]) == PortTable.NotifyAllPorts(t')
  {
    hide PortTable.Inv;
    var n, t' := PortTable.NotifyAll, PortTable.After(t, op);
    PortTable.OpKeepsInv(t, op);
    PortTable.OpKeepsInv(t', n);
    assert [op][1..] == [] && [op, n][1..] == [n] && [n][1..] == [];
    var t'' := PortTable.After(t', n);
    assert PortTable.LegalRun(t'', []) && PortTable.Run(t'', []) == t'';
    assert PortTable.LegalRun(t', [n]) && PortTable.Run(t', [n]) == t'';
  }

  /** What is registered afresh is the descriptor as given, or with a broadcast after a refusal. */
  lemma TouchedIs(s: State, a: Addr, d: Descriptor, accepts: bool)
    requires a in s.store
    ensures var s' := Touch(s, a, d, accepts); a in s'.store && (s'.store[a] == d || s'.store[a] == d.NotifyAll())
  {
    hide Descriptor.NotifyAll, Descriptor.Mask;
  }

  /** Touching one descriptor changes no other. */
  lemma TouchElsewhere(s: State, addr: Addr, d: Descriptor, accepts: bool, a: Addr)
    requires addr in s.store && a != addr
    ensures var s' := Touch(s, addr, d, accepts);
      && s'.next == s.next && s'.sockets == s.sockets && addr in s'.store
      && (a in s'.store <==> a in s.store) && (a in s.store ==> s'.store[a] == s.store[a])
  {
    TouchFrame(s, addr, d, accepts);
    hide Touch;
  }

  /** What a message does beside the descriptor it is for. */
  lemma HandledElsewhere(s: State, m: Message, a: Addr)
    requires Inv(s) && Legal(s, m) && m.ToSocket? && m.fd != -1 && a < s.next
    requires m.fd !in s.sockets || s.sockets[m.fd] != a
    ensures var s' := HandleMessage(s, m);
      s.next <= s'.next && (a in s'.store <==> a in s.store) && (a in s.store ==> s'.store[a] == s.store[a])
  {
    hide Inv, Touch, Descriptor.Mask;
    MessageFacts(s, m);
    var s1 := WithDescriptor(s, m.fd, m.listening);
    var addr := s1.sockets[m.fd];
    var d := s1.store[addr];
    match m.command
    case ShutdownRead =>
    case ShutdownWrite =>
    case SetEventMask(events) => TouchElsewhere(s1, addr, d.SetPortAndMask(m.port, events), m.accepts, a);
    case ReturnToken(count) => TouchElsewhere(s1, addr, d.ReturnTokens(m.port, count), m.accepts, a);
    case Close(_) => TouchElsewhere(s1, addr, Closed(d, m.port), m.accepts, a);
  }

  lemma TouchGoes(s: State, a: Addr, op: PortTable.Op, d: Descriptor, accepts: bool)
    requires Inv(s) && a in s.store && s.store[a].Many? && d.Many?
    requires PortTable.Inv(s.store[a].ports) && PortTable.Legal(s.store[a].ports, op)
    requires d.ports == PortTable.After(s.store[a].ports, op)
    ensures var s' := Touch(s, a, d, accepts);
      a in s'.store && Goes(s, s', a, WithRefusal(op, d, s'.store[a]))
  {
    hide Inv, PortTable.Inv, PortTable.After, Touch, PortTable.Legal, PortTable.LegalRun, PortTable.Run;
    TouchedIs(s, a, d, accepts);
    OneOp(s.store[a].ports, op);
  }

  lemma EventGoes(s: State, batch: seq<Event>, a: Addr)
    requires Inv(s) && BatchOf(s, batch) && batch != [] && a in s.store && s.store[a].Many?
    ensures var e := batch[0];
      && (e.Ready? ==> e.addr in s.store) && a in HandleEvent(s, e).store
      && Goes(s, HandleEvent(s, e), a, EventOps(s, e, a))
  {
    var e, d := batch[0], s.store[a];
    EventFacts(s, batch);
    assert Synced(s, a);
    if e.Ready? && e.addr == a {
      TouchGoes(s, a, PortTable.NotifyAll, d.NotifyAll(), e.accepts);
      TouchGoes(s, a, PortTable.Next, d.NextNotify(), e.accepts);
      if !IsError(e.reported) && !IsNotification(e.reported) { GoesNowhere(s, s, a); }
    } else {
      if e.Ready? { OtherEvent(s, e, a); }
      GoesNowhere(s, HandleEvent(s, e), a);
    }
  }

  lemma OtherEvent(s: State, e: Event, a: Addr)
    requires Inv(s) && e.Ready? && e.addr in s.store && a in s.store && a != e.addr
    ensures a in HandleEvent(s, e).store && HandleEvent(s, e).store[a] == s.store[a]
  {
    hide Inv, Touch, Descriptor.NotifyAll, Descriptor.NextNotify, Descriptor.CanNotify, Descriptor.Audience, Descriptor.NextPort;
    hide GetPollEvents, IsError, IsNotification;
    var d := s.store[e.addr];
    CanAlwaysNotify(s, e.addr);
    TouchElsewhere(Posting(s, e.addr, d.Audience(), GetPollEvents(e.reported)), e.addr, d.NotifyAll(), e.accepts, a);
    TouchElsewhere(s, e.addr, d.NextNotify(), e.accepts, a);
  }

  lemma CanAlwaysNotify(s: State, addr: Addr)
    requires Inv(s) && addr in s.store
    ensures s.store[addr].CanNotify()
  {
    assert Synced(s, addr);
  }

  lemma CloseGoes(s: State, a: Addr, port: Port, safe: bool, accepts: bool)
    requires Inv(s) && a in s.store && s.store[a].Many? && a in CloseSocket(s, a, port, safe, accepts).store
    requires port == 0 ==> s.store[a].Mask() == NO_INTEREST
    ensures var d, s' := s.store[a], CloseSocket(s, a, port, safe, accepts);
      Goes(s, s', a, if port == 0 then [] else WithRefusal(PortTable.Remove(port), d.RemovePort(port), s'.store[a]))
  {
    var d := s.store[a];
    assert Synced(s, a);
    hide Inv, Touch, PortTable.Inv, PortTable.After, PortTable.LegalRun, PortTable.Run;
    if port == 0 {
      GoesNowhere(s, CloseSocket(s, a, port, safe, accepts), a);
    } else {
      TouchGoes(s, a, PortTable.Remove(port), d.RemovePort(port), accepts);
    }
  }

  lemma OwnMessageGoes(s: State, m: Message, a: Addr)
    requires Inv(s) && Legal(s, m) && a in s.store && s.store[a].Many? && a in HandleMessage(s, m).store
    requires m.ToSocket? && m.fd != -1 && m.fd in s.sockets && s.sockets[m.fd] == a
    ensures Goes(s, HandleMessage(s, m), a, MessageOps(s, m, a))
  {
    var d, s' := s.store[a], HandleMessage(s, m);
    assert Synced(s, a);
    hide Inv, Touch, CloseSocket, PortTable.Inv, PortTable.After, PortTable.LegalRun, PortTable.Run;
    match m.command
    case ShutdownRead => GoesNowhere(s, s', a);
    case ShutdownWrite => GoesNowhere(s, s', a);
    case SetEventMask(events) =>
      TouchGoes(s, a, PortTable.SetMask(m.port, events == Interest(true, false)), d.SetPortAndMask(m.port, events), m.accepts);
    case ReturnToken(count) =>
      TouchGoes(s, a, PortTable.Return(m.port, count), d.ReturnTokens(m.port, count), m.accepts);
    case Close(safe) => CloseGoes(s, a, m.port, safe, m.accepts);
  }

  lemma MessageGoes(s: State, m: Message, a: Addr)
    requires Inv(s) && Legal(s, m) && a in s.store && s.store[a].Many? && a in HandleMessage(s, m).store
    ensures Goes(s, HandleMessage(s, m), a, MessageOps(s, m, a))
  {
    if !m.ToSocket? || m.fd == -1 {
      GoesNowhere(s, HandleMessage(s, m), a);
    } else if m.fd !in s.sockets || s.sockets[m.fd] != a {
      assert a < s.next;
      hide Inv, HandleMessage, Legal, Goes;
      HandledElsewhere(s, m, a);
      GoesNowhere(s, HandleMessage(s, m), a);
    } else {
      OwnMessageGoes(s, m, a);
    }
  }

  // ----- Runs

  /** Addresses are not used again. */
  lemma StaysGone(s: State, m: Message, a: Addr)
    requires Inv(s) && Legal(s, m) && a < s.next && a !in s.store
    ensures a !in HandleMessage(s, m).store && s.next <= HandleMessage(s, m).next
  {
    if m.ToSocket? && m.fd != -1 {
      MessageFacts(s, m);
      hide Inv, HandleMessage, Legal;
      HandledElsewhere(s, m, a);
    }
  }

  lemma {:induction false} StaysGoneAll(s: State, messages: seq<Message>, a: Addr)
    requires Inv(s) && LegalMessages(s, messages) && a < s.next && a !in s.store
    ensures a !in HandleMessages(s, messages).store
    decreases |messages|
  {
    hide Inv, HandleMessage, Legal;
    if messages != [] {
      MessageKeepsInv(s, messages[0]);
      StaysGone(s, messages[0], a);
      StaysGoneAll(HandleMessage(s, messages[0]), messages[1..], a);
    }
  }

  ghost function BatchOps(s: State, batch: seq<Event>, a: Addr): seq<PortTable.Op>
    requires Inv(s) && BatchOf(s, batch) && a in s.store && s.store[a].Many?
    decreases |batch|
  {
    if batch == [] then [] else
    BatchStep(s, batch);
    EventGoes(s, batch, a);
    EventOps(s, batch[0], a) + BatchOps(HandleEvent(s, batch[0]), batch[1..], a)
  }

  ghost function MessagesOps(s: State, messages: seq<Message>, a: Addr): seq<PortTable.Op>
    requires Inv(s) && LegalMessages(s, messages) && a in s.store && s.store[a].Many?
    requires a in HandleMessages(s, messages).store
    decreases |messages|
  {
    if messages == [] then [] else
    Surviving(s, messages, a);
    MessageGoes(s, messages[0], a);
    MessageOps(s, messages[0], a) + MessagesOps(HandleMessage(s, messages[0]), messages[1..], a)
  }

  lemma Surviving(s: State, messages: seq<Message>, a: Addr)
    requires Inv(s) && LegalMessages(s, messages) && a in s.store && messages != []
    requires a in HandleMessages(s, messages).store
    ensures Legal(s, messages[0]) && Inv(HandleMessage(s, messages[0])) && a in HandleMessage(s, messages[0]).store
  {
    var s' := HandleMessage(s, messages[0]);
    MessageKeepsInv(s, messages[0]);
    if a !in s'.store {
      BelowNext(s, messages[0], a);
      StaysGoneAll(s', messages[1..], a);
    }
  }

  lemma BelowNext(s: State, m: Message, a: Addr)
    requires Inv(s) && Legal(s, m) && a in s.store
    ensures a < HandleMessage(s, m).next
  {
    assert a < s.next;
    if m.ToSocket? && m.fd != -1 {
      MessageFacts(s, m);
      HandledElsewhere(s, m, if m.fd in s.sockets then s.sockets[m.fd] - 1 else a);
    }
  }

  lemma {:induction false} RunAppend(t: PortTable.Table, x: seq<PortTable.Op>, y: seq<PortTable.Op>)
    requires PortTable.Inv(t) && PortTable.LegalRun(t, x) && PortTable.LegalRun(PortTable.Run(t, x), y)
    ensures PortTable.LegalRun(t, x + y) && PortTable.Run(t, x + y) == PortTable.Run(PortTable.Run(t, x), y)
    decreases |x|
  {
    hide PortTable.Inv, PortTable.After;
    if x == [] {
      assert x + y == y;
    } else {
      assert (x + y)[1..] == x[1..] + y;
      PortTable.OpKeepsInv(t, x[0]);
      RunAppend(PortTable.After(t, x[0]), x[1..], y);
    }
  }

  lemma GoesOn(s: State, s1: State, s2: State, a: Addr, x: seq<PortTable.Op>, y: seq<PortTable.Op>)
    requires Goes(s, s1, a, x) && Goes(s1, s2, a, y)
    ensures Goes(s, s2, a, x + y)
  {
    RunAppend(s.store[a].ports, x, y);
  }

  lemma {:induction false} BatchGoes(s: State, batch: seq<Event>, a: Addr)
    requires Inv(s) && BatchOf(s, batch) && a in s.store && s.store[a].Many?
    ensures Goes(s, HandleBatch(s, batch), a, BatchOps(s, batch, a))
    decreases |batch|
  {
    hide Inv, BatchOf, HandleEvent, Goes, EventOps;
    if batch == [] {
      BatchEnd(s);
      GoesNowhere(s, s, a);
    } else {
      BatchStep(s, batch);
      EventGoes(s, batch, a);
      var s' := HandleEvent(s, batch[0]);
      GoesMany(s, s', a, EventOps(s, batch[0], a));
      BatchGoes(s', batch[1..], a);
      GoesOn(s, s', HandleBatch(s, batch), a, EventOps(s, batch[0], a), BatchOps(s', batch[1..], a));
    }
  }

  lemma GoesMany(s: State, s': State, a: Addr, ops: seq<PortTable.Op>)
    requires Goes(s, s', a, ops)
    ensures a in s'.store && s'.store[a].Many?
  {
  }

  lemma {:induction false} MessagesGo(s: State, messages: seq<Message>, a: Addr)
    requires Inv(s) && LegalMessages(s, messages) && a in s.store && s.store[a].Many?
    requires a in HandleMessages(s, messages).store
    ensures Goes(s, HandleMessages(s, messages), a, MessagesOps(s, messages, a))
    decreases |messages|
  {
    hide Inv, Legal, HandleMessage, Goes, MessageOps;
    if messages == [] {
      GoesNowhere(s, s, a);
    } else {
      Surviving(s, messages, a);
      MessageGoes(s, messages[0], a);
      var s' := HandleMessage(s, messages[0]);
      GoesMany(s, s', a, MessageOps(s, messages[0], a));
      MessagesGo(s', messages[1..], a);
      GoesOn(s, s', HandleMessages(s, messages), a, MessageOps(s, messages[0], a), MessagesOps(s', messages[1..], a));
    }
  }

  /** The operations of a run of polls on the listening descriptor at `a`, which outlives the run. */
  ghost function PollOps(s: State, p: Poll, a: Addr): seq<PortTable.Op>
    requires Inv(s) && LegalPoll(s, p) && a in s.store && s.store[a].Many? && a in HandlePoll(s, p).store
  {
    BatchGoes(s, p.batch, a);
    BatchOps(s, p.batch, a) + if Interrupt in p.batch then MessagesOps(HandleBatch(s, p.batch), p.messages, a) else []
  }

  lemma PollGoes(s: State, p: Poll, a: Addr)
    requires Inv(s) && LegalPoll(s, p) && a in s.store && s.store[a].Many? && a in HandlePoll(s, p).store
    ensures Goes(s, HandlePoll(s, p), a, PollOps(s, p, a))
  {
    hide Inv, BatchOf, Goes, HandleBatch, HandleMessages, BatchOps, MessagesOps, LegalMessages;
    var s' := HandleBatch(s, p.batch);
    BatchGoes(s, p.batch, a);
    GoesMany(s, s', a, BatchOps(s, p.batch, a));
    if Interrupt in p.batch {
      MessagesGo(s', p.messages, a);
      GoesOn(s, s', HandlePoll(s, p), a, BatchOps(s, p.batch, a), MessagesOps(s', p.messages, a));
    } else {
      assert BatchOps(s, p.batch, a) + [] == BatchOps(s, p.batch, a);
    }
  }

  ghost function RunOps(s: State, run: seq<Poll>, a: Addr): seq<PortTable.Op>
    requires Inv(s) && LegalRun(s, run) && a in s.store && s.store[a].Many? && Lives(s, run, a)
    decreases |run|
  {
    if run == [] then [] else
    assert Lives(HandlePoll(s, run[0]), run[1..], a);
    PollGoes(s, run[0], a);
    PollOps(s, run[0], a) + RunOps(HandlePoll(s, run[0]), run[1..], a)
  }

  /** The descriptor is still there after every poll. */
  ghost predicate Lives(s: State, run: seq<Poll>, a: Addr)
    requires Inv(s) && LegalRun(s, run)
    decreases |run|
  {
    a in s.store && (run != [] ==> Lives(HandlePoll(s, run[0]), run[1..], a))
  }

  lemma {:induction false} RunGoes(s: State, run: seq<Poll>, a: Addr)
    requires Inv(s) && LegalRun(s, run) && a in s.store && s.store[a].Many? && Lives(s, run, a)
    ensures Goes(s, Run(s, run), a, RunOps(s, run, a))
    decreases |run|
  {
    hide Inv, LegalPoll, HandlePoll, Goes, PollOps;
    if run == [] {
      GoesNowhere(s, s, a);
    } else {
      var s' := HandlePoll(s, run[0]);
      assert a in s'.store;
      PollGoes(s, run[0], a);
      GoesMany(s, s', a, PollOps(s, run[0], a));
      RunGoes(s', run[1..], a);
      GoesOn(s, s', Run(s, run), a, PollOps(s, run[0], a), RunOps(s', run[1..], a));
    }
  }

  /**
    Bounded waiting in every Linux run: on a listening descriptor that lives
    through the run, a port that is ready behind n others is served by the
    descriptor's notification n + 1 at the latest, unless it stops being ready.
   */
  lemma BoundedWaiting(s: State, run: seq<Poll>, a: Addr, p: Port)
    requires Inv(s) && LegalRun(s, run) && a in s.store && s.store[a].Many? && Lives(s, run, a)
    requires PortTable.Listed(s.store[a].ports.ready, p)
    requires PortTable.Nexts(RunOps(s, run, a)) > PortTable.Position(s.store[a].ports.ready, p)
    ensures PortTable.Inv(s.store[a].ports) && PortTable.LegalRun(s.store[a].ports, RunOps(s, run, a))
    ensures PortTable.ServedOrDropped(s.store[a].ports, RunOps(s, run, a), p)
  {
    hide Inv, LegalRun, RunOps, Run, Lives, PortTable.Inv, PortTable.LegalRun, PortTable.Run;
    RunGoes(s, run, a);
    PortTable.BoundedWaiting(s.store[a].ports, RunOps(s, run, a), p);
  }
}
