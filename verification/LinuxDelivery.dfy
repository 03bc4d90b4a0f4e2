/**
  What the Linux loop sends: which ports hear of an event, of a refused
  registration and of a close, what they are told, and how that is charged.
 */
module LinuxDelivery {
  import PortTable
  import LinuxFairness
  import opened SingleDescriptor
  import opened LinuxLoop
  import opened LinuxHistory

  // ----- Events

  /** The ports of a descriptor. */
  function PortsOf(d: Descriptor): set<Port> {
    if d.One? then {d.single.port} else d.ports.accounts.Keys
  }

  /** The port whose turn it is. */
  function Turn(d: Descriptor): Port {
    if d.One? then d.single.port else if d.ports.ready == [] then 0 else d.ports.ready[0]
  }

  /** What is to be sent for an event: an error to everyone if there is input, anything else to the port whose turn it is. */
  function Due(s: State, e: Event): seq<Sending>
    requires e.Ready? ==> e.addr in s.store
  {
    if !e.Ready? then [] else
    var r, d := e.reported, s.store[e.addr];
    if r.error && r.epollIn then [Sending(e.addr, PortsOf(d), Notice(false, false, true, false, false))]
    else if r.error || (!r.epollIn && !r.epollOut && !r.hangup) then []
    else [Sending(e.addr, {Turn(d)}, Notice(r.epollIn, r.epollOut, false, r.hangup, false))]
  }

  /** The descriptors of the events are there. */
  ghost predicate AllThere(s: State, batch: seq<Event>) {
    forall i | 0 <= i < |batch| && batch[i].Ready? :: batch[i].addr in s.store
  }

  ghost function DueAll(s: State, batch: seq<Event>): seq<Sending>
    requires AllThere(s, batch)
  {
    if batch == [] then [] else
    assert AllThere(s, batch[1..]);
    Due(s, batch[0]) + DueAll(s, batch[1..])
  }

  /** An event sends what is due. */
  lemma EventSends(s: State, e: Event)
    requires Inv(s) && LegalInput(s, Saw(e))
    ensures (e.Ready? ==> e.addr in s.store) && Step(s, Saw(e)).posted == s.posted + Due(s, e)
  {
    if e.Ready? {
      hide Inv, Step, LegalInput, Descriptor.NotifyAll, Descriptor.NextNotify, Descriptor.WellFormed, Descriptor.Mask;
      hide Descriptor.CanNotify, Descriptor.Audience, Descriptor.NextPort, PortsOf, Turn;
      EventStep(s, e);
      Audiences(s.store[e.addr]);
    }
  }

  lemma Audiences(d: Descriptor)
    requires d.WellFormed() && d.Mask() != NO_INTEREST
    ensures d.Audience() == PortsOf(d) && d.NextPort() == Turn(d)
  {
  }

  /** The events find the same descriptors in both states. */
  ghost predicate SameThere(s: State, s': State, batch: seq<Event>) {
    AllThere(s, batch) && AllThere(s', batch)
    && forall i | 0 <= i < |batch| && batch[i].Ready? :: s'.store[batch[i].addr] == s.store[batch[i].addr]
  }

  lemma {:induction false} DueSame(s: State, s': State, batch: seq<Event>)
    requires SameThere(s, s', batch)
    ensures DueAll(s', batch) == DueAll(s, batch)
  {
    if batch != [] {
      var rest := batch[1..];
      assert forall i | 0 <= i < |rest| :: rest[i] == batch[i + 1];
      DueSame(s, s', rest);
    }
  }

  lemma FirstOfBatch(s: State, batch: seq<Event>)
    requires Inv(s) && BatchOf(s, batch)
    ensures AllThere(s, batch)
    ensures batch != [] ==> LegalInput(s, Saw(batch[0])) && SameThere(s, Step(s, Saw(batch[0])), batch[1..])
  {
    forall i | 0 <= i < |batch| && batch[i].Ready? ensures batch[i].addr in s.store {
      assert Reportable(s, batch[i].addr, batch[i].reported);
    }
    if batch != [] {
      var rest := batch[1..];
      assert batch[0].Ready? ==> Reportable(s, batch[0].addr, batch[0].reported);
      assert forall i | 0 <= i < |rest| :: rest[i] == batch[i + 1];
      assert forall i | 0 <= i < |rest| && rest[i].Ready? && batch[0].Ready? :: rest[i].addr != batch[0].addr;
      if batch[0].Ready? {
        hide Inv, Step, Reportable;
        EventStep(s, batch[0]);
      }
    }
  }

  /** Handling a batch sends what is due for each event in the state before the batch, in order, and nothing else. */
  lemma {:induction false} BatchSends(s: State, batch: seq<Event>)
    requires Inv(s) && BatchOf(s, batch)
    ensures AllThere(s, batch) && HandleBatch(s, batch).posted == s.posted + DueAll(s, batch)
    decreases |batch|
  {
    hide Inv, BatchOf, HandleEvent, Due, SameThere, AllThere, LegalInput;
    FirstOfBatch(s, batch);
    if batch == [] {
      BatchEnd(s);
    } else {
      BatchStep(s, batch);
      EventSends(s, batch[0]);
      var s', rest := HandleEvent(s, batch[0]), batch[1..];
      BatchSends(s', rest);
      DueSame(s, s', rest);
    }
  }

  /** The messages because of one descriptor. */
  function From(sent: seq<Sending>, a: Addr): seq<Sending> {
    if sent == [] then [] else (if sent[0].from == a then [sent[0]] else []) + From(sent[1..], a)
  }

  lemma FromCons(x: Sending, rest: seq<Sending>, a: Addr)
    ensures From([x] + rest, a) == (if x.from == a then [x] else []) + From(rest, a)
  {
    assert ([x] + rest)[1..] == rest;
  }

  lemma {:induction false} FromAppend(x: seq<Sending>, y: seq<Sending>, a: Addr)
    ensures From(x + y, a) == From(x, a) + From(y, a)
  {
    if x == [] {
      assert x + y == y;
    } else {
      hide From;
      var rest := x[1..];
      assert x == [x[0]] + rest && x + y == [x[0]] + (rest + y);
      FromAppend(rest, y, a);
      FromCons(x[0], rest, a);
      FromCons(x[0], rest + y, a);
    }
  }

  lemma FromDue(s: State, e: Event, a: Addr)
    requires e.Ready? ==> e.addr in s.store
    ensures From(Due(s, e), a) == if e.Ready? && e.addr == a then Due(s, e) else []
  {
    if Due(s, e) != [] { assert Due(s, e)[1..] == []; }
  }

  lemma {:induction false} FromDueAll(s: State, batch: seq<Event>, a: Addr, k: int)
    requires AllThere(s, batch) && k < |batch| && (k >= 0 ==> batch[k].Ready? && batch[k].addr == a)
    requires forall i | 0 <= i < |batch| && i != k && batch[i].Ready? :: batch[i].addr != a
    ensures From(DueAll(s, batch), a) == if k < 0 then [] else Due(s, batch[k])
  {
    if batch != [] {
      hide Due;
      var rest := batch[1..];
      assert forall i | 0 <= i < |rest| :: rest[i] == batch[i + 1];
      FromAppend(Due(s, batch[0]), DueAll(s, rest), a);
      FromDue(s, batch[0], a);
      FromDueAll(s, rest, a, k - 1);
    }
  }

  /**
    In every reachable state, an event of a batch for a connected socket is
    delivered to the socket's port, once and as it was reported: input as input,
    output as output and a hang-up as a close.  An error is delivered as such
    together with input, and otherwise dropped with whatever came with it.
   */
  lemma ConnectedDelivered(s: State, batch: seq<Event>, k: nat)
    requires Inv(s) && BatchOf(s, batch) && k < |batch| && batch[k].Ready?
    requires batch[k].addr in s.store && s.store[batch[k].addr].One?
    ensures var posted := HandleBatch(s, batch).posted;
      && s.posted <= posted
      && var a, r := batch[k].addr, batch[k].reported;
      && var news, port := From(posted[|s.posted|..], a), s.store[a].single.port;
      && (!r.error && (r.epollIn || r.epollOut || r.hangup) ==>
            news == [Sending(a, {port}, Notice(r.epollIn, r.epollOut, false, r.hangup, false))])
      && (r.error && r.epollIn ==> news == [Sending(a, {port}, Notice(false, false, true, false, false))])
      && (r.error && !r.epollIn ==> news == [])
  {
    BatchSends(s, batch);
    FromDueAll(s, batch, batch[k].addr, k);
    hide Inv, HandleBatch, DueAll, From;
    assert (s.posted + DueAll(s, batch))[|s.posted|..] == DueAll(s, batch);
  }

  /** The same for a listening socket: the port whose turn it is, or every port in case of an error. */
  lemma ListeningDelivered(s: State, batch: seq<Event>, k: nat)
    requires Inv(s) && BatchOf(s, batch) && k < |batch| && batch[k].Ready?
    requires batch[k].addr in s.store && s.store[batch[k].addr].Many?
    ensures var posted := HandleBatch(s, batch).posted;
      && s.posted <= posted
      && var a, r := batch[k].addr, batch[k].reported;
      && var news, ports := From(posted[|s.posted|..], a), s.store[a].ports;
      && ports.ready != []
      && (!r.error && (r.epollIn || r.hangup) ==>
            news == [Sending(a, {ports.ready[0]}, Notice(r.epollIn, false, false, r.hangup, false))])
      && (r.error && r.epollIn ==> news == [Sending(a, ports.accounts.Keys, Notice(false, false, true, false, false))])
      && (r.error && !r.epollIn ==> news == [])
  {
    assert Reportable(s, batch[k].addr, batch[k].reported) && Synced(s, batch[k].addr);
    BatchSends(s, batch);
    FromDueAll(s, batch, batch[k].addr, k);
    hide HandleBatch, DueAll, From;
    assert (s.posted + DueAll(s, batch))[|s.posted|..] == DueAll(s, batch);
  }

  // ----- Refused registrations

  /** The kernel is asked to register the descriptor, and refuses. */
  predicate Refuses(d: Descriptor, d': Descriptor, accepts: bool) {
    d'.Mask() != d.Mask() && d'.Mask() != NO_INTEREST && !accepts
  }

  /** What a message sends: a close event to everyone if registering is refused, and a destroyed event after a close. */
  lemma MessageSends(s: State, m: Message)
    requires Inv(s) && Legal(s, m) && m.ToSocket? && m.fd != -1
    ensures var s1, s' := WithDescriptor(s, m.fd, m.listening), HandleMessage(s, m);
      && m.fd in s1.sockets && s1.sockets[m.fd] in s1.store
      && var a := s1.sockets[m.fd];
      && var d := s1.store[a];
      && (m.command.ReturnToken? ==> ReturnAllowed(d, m.port, m.command.count))
      && var d' := Told(d, m);
      && s'.posted == s.posted + (if Refuses(d, d', m.accepts) then [Sending(a, d'.Audience(), CLOSE_EVENT)] else [])
                               + (if m.command.Close? then [Sending(a, {m.port}, DESTROYED_EVENT)] else [])
      && (a in s'.store ==> s'.store[a] == if Refuses(d, d', m.accepts) then d'.NotifyAll() else d')
      && s'.next == s1.next
  {
    hide Inv, Legal, HandleMessage, Touch, Told, Replaces, Refuses, Descriptor.WellFormed, Descriptor.NotifyAll, Descriptor.Audience;
    MessageForm(s, m);
    var s1 := WithDescriptor(s, m.fd, m.listening);
    var a := s1.sockets[m.fd];
    TouchSends(s1, a, Told(s1.store[a], m), m.accepts);
    NotYet(s, m);
  }

  lemma NotYet(s: State, m: Message)
    requires m.ToSocket?
    ensures WithDescriptor(s, m.fd, m.listening).posted == s.posted
  {
  }

  lemma TouchSends(s: State, addr: Addr, d: Descriptor, accepts: bool)
    requires Inv(s) && Replaces(s, addr, d)
    ensures var s', refused := Touch(s, addr, d, accepts), Refuses(s.store[addr], d, accepts);
      && addr in s'.store && s'.store[addr] == (if refused then d.NotifyAll() else d)
      && s'.posted == s.posted + (if refused then [Sending(addr, d.Audience(), CLOSE_EVENT)] else [])
      && s'.next == s.next && s'.sockets == s.sockets
  {
    TouchRegisters(s, addr, d, accepts);
    TouchFrame(s, addr, d, accepts);
    hide Inv, Touch, Descriptor.Mask;
  }

  /**
    A connected socket whose mask is set is told of a refusal: exactly if it has
    tokens, asks for something it is not registered for yet, and the kernel
    refuses, its port is sent a close event, and one token is charged.
   */
  lemma RefusalTold(s: State, m: Message)
    requires Inv(s) && Legal(s, m) && m.ToSocket? && m.fd != -1 && m.command.SetEventMask?
    requires m.fd in s.sockets && s.sockets[m.fd] in s.store && s.store[s.sockets[m.fd]].One?
    ensures var s', a := HandleMessage(s, m), s.sockets[m.fd];
      && var single, events := s.store[a].single, m.command.events;
      && var refused := single.tokens > 0 && events != NO_INTEREST && events != single.mask && !m.accepts;
      && s'.posted == (if refused then s.posted + [Sending(a, {m.port}, CLOSE_EVENT)] else s.posted)
      && a in s'.store && s'.store[a].One?
      && s'.store[a].single.tokens == single.tokens - (if refused then 1 else 0)
  {
    var a := s.sockets[m.fd];
    assert Synced(s, a);
    hide Inv;
    MessageSends(s, m);
    TouchAlike(s, a, s.store[a].SetPortAndMask(m.port, m.command.events), m.accepts);
  }

  // ----- Charges

  /** How many messages were sent because of the descriptor at `a`; the one that ends a close costs nothing. */
  function Charges(sent: seq<Sending>, a: Addr): nat {
    if sent == [] then 0 else
    var last := sent[|sent| - 1];
    Charges(sent[..|sent| - 1], a) + if last.from == a && !last.notice.destroyedEvent then 1 else 0
  }

  lemma ChargesOneMore(sent: seq<Sending>, last: Sending, a: Addr)
    ensures Charges(sent + [last], a) == Charges(sent, a) + if last.from == a && !last.notice.destroyedEvent then 1 else 0
  {
    assert (sent + [last])[..|sent|] == sent;
  }

  /** What the sendings of a message add. */
  lemma ChargesAdded(sent: seq<Sending>, refused: bool, refusal: Sending, closes: bool, destroyed: Sending, a: Addr)
    requires !refusal.notice.destroyedEvent && destroyed.notice.destroyedEvent
    ensures Charges(sent + (if refused then [refusal] else []) + (if closes then [destroyed] else []), a) ==
      Charges(sent, a) + if refused && refusal.from == a then 1 else 0
  {
    hide Charges;
    var mid := sent + if refused then [refusal] else [];
    assert sent + [] == sent && mid + [] == mid;
    ChargesOneMore(sent, refusal, a);
    ChargesOneMore(mid, destroyed, a);
  }

  /** Tokens returned for `fd` from position `from` on. */
  function Returned(h: seq<Input>, fd: int, from: nat): nat {
    if |h| <= from then 0 else
    var last := h[|h| - 1];
    Returned(h[..|h| - 1], fd, from)
    + if For(last, fd) && last.message.command.ReturnToken? then last.message.command.count else 0
  }

  lemma ReturnedOneMore(h: seq<Input>, i: Input, fd: int, from: nat)
    requires from <= |h|
    ensures Returned(h + [i], fd, from) ==
      Returned(h, fd, from) + if For(i, fd) && i.message.command.ReturnToken? then i.message.command.count else 0
  {
    assert (h + [i])[..|h|] == h;
  }

  /** Addresses are used once, so nothing was sent because of one not used yet. */
  ghost predicate Unused(s: State) {
    forall i | 0 <= i < |s.posted| :: s.posted[i].from < s.next
  }

  lemma {:induction false} UnusedUncharged(sent: seq<Sending>, a: Addr)
    requires forall i | 0 <= i < |sent| :: sent[i].from < a
    ensures Charges(sent, a) == 0
  {
    if sent != [] { UnusedUncharged(sent[..|sent| - 1], a); }
  }

  /** The tokens of a connected socket: 16, less what was sent because of it, plus what was returned for it. */
  ghost predicate Paid(s: State, h: seq<Input>, fd: int) {
    var b := BornAt(h, fd);
    b >= 0 && fd in s.sockets && s.sockets[fd] in s.store && s.store[s.sockets[fd]].One? ==>
      s.store[s.sockets[fd]].single.tokens == 16 - Charges(s.posted, s.sockets[fd]) + Returned(h, fd, b)
  }

  lemma EventPaid(s: State, h: seq<Input>, e: Event, fd: int)
    requires Inv(s) && LegalInput(s, Saw(e)) && fd != -1 && Tracked(s, h, fd) && Paid(s, h, fd)
    ensures Paid(Step(s, Saw(e)), h + [Saw(e)], fd)
  {
    var i := Saw(e);
    BornOneMore(h, i, fd);
    var b := BornAt(h, fd);
    if b >= 0 {
      ReturnedOneMore(h, i, fd, b);
      var a := s.sockets[fd];
      EventAlike(s, e, a);
      if e.Ready? && s.store[a].One? { EventCharges(s, e, a); }
    }
  }

  /** An event costs its descriptor a token exactly if something is sent. */
  lemma EventCharges(s: State, e: Event, a: Addr)
    requires Inv(s) && LegalInput(s, Saw(e)) && e.Ready? && a in s.store && s.store[a].One?
    ensures var s' := Step(s, Saw(e));
      && s'.sockets == s.sockets && a in s'.store && s'.store[a].One?
      && s'.store[a].single.tokens + Charges(s'.posted, a) == s.store[a].single.tokens + Charges(s.posted, a)
  {
    hide Inv, Step, LegalInput, Charges, GetPollEvents, IsError, IsNotification;
    hide Descriptor.NotifyAll, Descriptor.NextNotify, Descriptor.CanNotify, Descriptor.Audience, Descriptor.NextPort, Descriptor.WellFormed;
    EventStep(s, e);
    var d := s.store[e.addr];
    NotifyCosts(d);
    NeverDestroyed(e.reported);
    ChargesOneMore(s.posted, Sending(e.addr, d.Audience(), GetPollEvents(e.reported)), a);
    ChargesOneMore(s.posted, Sending(e.addr, {d.NextPort()}, GetPollEvents(e.reported)), a);
    assert s.posted + [] == s.posted;
  }

  lemma NotifyCosts(d: Descriptor)
    requires d.WellFormed() && d.CanNotify()
    ensures d.One? ==> d.NotifyAll().One? && d.NotifyAll().single.tokens == d.single.tokens - 1
    ensures d.One? ==> d.NextNotify().One? && d.NextNotify().single.tokens == d.single.tokens - 1
  {
  }

  lemma NeverDestroyed(r: Reported)
    ensures !GetPollEvents(r).destroyedEvent
  {
  }

  /** What a message adds to the charges: one if a registration is refused, to the descriptor it is for. */
  lemma MessageCharges(s: State, m: Message, a: Addr)
    requires Inv(s) && Legal(s, m) && m.ToSocket? && m.fd != -1
    ensures var s1 := WithDescriptor(s, m.fd, m.listening);
      && m.fd in s1.sockets && s1.sockets[m.fd] in s1.store
      && var d := s1.store[s1.sockets[m.fd]];
      && (m.command.ReturnToken? ==> ReturnAllowed(d, m.port, m.command.count))
      && Charges(HandleMessage(s, m).posted, a) ==
         Charges(s.posted, a) + if s1.sockets[m.fd] == a && Refuses(d, Told(d, m), m.accepts) then 1 else 0
  {
    hide Inv, Charges, Descriptor.Audience, Descriptor.NotifyAll, Refuses, HandleMessage, Legal, WithDescriptor, Told;
    MessageSends(s, m);
    var s1 := WithDescriptor(s, m.fd, m.listening);
    var addr := s1.sockets[m.fd];
    var d := s1.store[addr];
    ChargesAdded(s.posted, Refuses(d, Told(d, m), m.accepts), Sending(addr, Told(d, m).Audience(), CLOSE_EVENT),
                 m.command.Close?, Sending(addr, {m.port}, DESTROYED_EVENT), a);
  }

  /** Whatever a message makes of a connected socket, its tokens follow what was returned and charged. */
  lemma ToldTokens(d: Descriptor, m: Message)
    requires d.One? && d.WellFormed() && m.ToSocket?
    requires m.command.ReturnToken? ==> ReturnAllowed(d, m.port, m.command.count)
    ensures var d', count := Told(d, m), if m.command.ReturnToken? then m.command.count else 0;
      d'.One? && d'.single.tokens == d.single.tokens + count && d'.NotifyAll().single.tokens == d'.single.tokens - 1
  {
  }

  /** A message adds what it returns to the tokens of its descriptor, less one if a registration is refused. */
  lemma OwnTokens(s: State, m: Message)
    requires Inv(s) && Legal(s, m) && m.ToSocket? && m.fd != -1
    ensures var s1, s' := WithDescriptor(s, m.fd, m.listening), HandleMessage(s, m);
      && m.fd in s1.sockets && s1.sockets[m.fd] in s1.store
      && var a, count := s1.sockets[m.fd], if m.command.ReturnToken? then m.command.count else 0;
      && (a in s'.store ==> s'.store[a].One? == s1.store[a].One?)
      && (a in s'.store && s1.store[a].One? ==>
            s'.store[a].single.tokens + Charges(s'.posted, a) == s1.store[a].single.tokens + count + Charges(s.posted, a))
  {
    hide Inv, HandleMessage, Legal, WithDescriptor, Charges, Refuses, Told, Replaces, Touch;
    hide Descriptor.NotifyAll, Descriptor.WellFormed, Descriptor.Audience;
    MessageForm(s, m);
    MessageSends(s, m);
    var s1 := WithDescriptor(s, m.fd, m.listening);
    var a := s1.sockets[m.fd];
    MessageCharges(s, m, a);
    KindKept(s1.store[a], m);
    if s1.store[a].One? { ToldTokens(s1.store[a], m); }
  }

  lemma OwnPaid(s: State, h: seq<Input>, m: Message, fd: int)
    requires Inv(s) && Legal(s, m) && For(Got(m), fd) && Tracked(s, h, fd) && Paid(s, h, fd) && Unused(s)
    requires Tracked(HandleMessage(s, m), h + [Got(m)], fd)
    ensures Paid(HandleMessage(s, m), h + [Got(m)], fd)
  {
    hide Inv, HandleMessage, Legal, BornAt, Returned, Charges, AsTold;
    var i := Got(m);
    BornOneMore(h, i, fd);
    var b, b', s' := BornAt(h, fd), BornAt(h + [i], fd), HandleMessage(s, m);
    if b' >= 0 {
      OwnSocket(s, m);
      OwnTokens(s, m);
      if b >= 0 {
        ReturnedOneMore(h, i, fd, b);
      } else {
        UnusedUncharged(s.posted, s.next);
        NothingReturned(h, fd);
        ReturnedOneMore(h, i, fd, |h|);
      }
    }
  }

  lemma KindKept(d: Descriptor, m: Message)
    requires m.ToSocket? && (m.command.ReturnToken? ==> ReturnAllowed(d, m.port, m.command.count))
    ensures Told(d, m).One? == d.One? && Told(d, m).NotifyAll().One? == d.One?
  {
  }

  lemma NothingReturned(h: seq<Input>, fd: int)
    ensures Returned(h, fd, |h|) == 0
  {
  }

  lemma OtherPaid(s: State, h: seq<Input>, m: Message, fd: int)
    requires Inv(s) && Legal(s, m) && !For(Got(m), fd) && fd != -1 && Tracked(s, h, fd) && Paid(s, h, fd)
    ensures Paid(HandleMessage(s, m), h + [Got(m)], fd)
  {
    var i := Got(m);
    BornOneMore(h, i, fd);
    var b := BornAt(h, fd);
    if b >= 0 {
      ReturnedOneMore(h, i, fd, b);
      var a := s.sockets[fd];
      assert a < s.next;
      if m.ToSocket? && m.fd != -1 {
        hide HandleMessage, Legal, BornAt, Returned, Charges, AsTold;
        FoundFd(s, m);
        SocketsElsewhere(s, m, fd);
        LinuxFairness.HandledElsewhere(s, m, a);
        MessageCharges(s, m, a);
      }
    }
  }

  lemma EventUnused(s: State, e: Event)
    requires Inv(s) && LegalInput(s, Saw(e)) && Unused(s)
    ensures Unused(Step(s, Saw(e)))
  {
    if e.Ready? {
      hide Step, LegalInput, Synced;
      EventStep(s, e);
      assert e.addr < s.next;
    }
  }

  lemma MessageUnused(s: State, m: Message)
    requires Inv(s) && Legal(s, m) && Unused(s)
    ensures Unused(HandleMessage(s, m))
  {
    if m.ToSocket? && m.fd != -1 {
      var s1 := WithDescriptor(s, m.fd, m.listening);
      assert m.fd in s1.sockets && s1.sockets[m.fd] < s1.next && s.next <= s1.next by { FoundFd(s, m); }
      hide Inv, HandleMessage, Legal, WithDescriptor, Refuses, Told, Descriptor.Audience;
      MessageSends(s, m);
    }
  }

  lemma {:induction false} HistoryPaid(h: seq<Input>, fd: int)
    requires LegalHistory(INITIAL, h) && fd != -1
    ensures Paid(After(INITIAL, h), h, fd) && Unused(After(INITIAL, h))
    decreases |h|
  {
    if h != [] {
      var h', i := h[..|h| - 1], h[|h| - 1];
      hide Inv, Tracked, Paid, Unused, HandleMessage, Legal;
      InitialInv();
      HistoryPaid(h', fd);
      HistoryTracked(h', fd);
      HistoryTracked(h, fd);
      assert h' + [i] == h;
      var s := After(INITIAL, h');
      match i
      case Saw(e) =>
        EventUnused(s, e);
        EventPaid(s, h', e, fd);
      case Got(m) =>
        MessageUnused(s, m);
        if For(i, fd) { OwnPaid(s, h', m, fd); } else { OtherPaid(s, h', m, fd); }
    }
  }

  /**
    In every run, a connected socket has 16 tokens less one for each message sent
    because of it since it was created, and plus those returned for it since.
   */
  lemma ConnectedPaid(run: seq<Poll>, fd: int)
    requires LegalRun(INITIAL, run) && fd != -1 && BornAt(Inputs(run), fd) >= 0
    requires !Inputs(run)[BornAt(Inputs(run), fd)].message.listening
    ensures var h, s := Inputs(run), Run(INITIAL, run);
      && fd in s.sockets && s.sockets[fd] in s.store && s.store[s.sockets[fd]].One?
      && s.store[s.sockets[fd]].single.tokens ==
         16 - Charges(s.posted, s.sockets[fd]) + Returned(h, fd, BornAt(h, fd))
  {
    hide Inv, LegalRun, Run, Inputs, LegalHistory, After, BornAt, Returned, Charges;
    InitialInv();
    RunHistory(INITIAL, run);
    RunTracked(run, fd);
    HistoryPaid(Inputs(run), fd);
  }

  // ----- Closes

  /** Destroyed events sent to `port`, and closes that name it. */
  function DestroyedTo(sent: seq<Sending>, port: Port): nat {
    if sent == [] then 0 else
    var last := sent[|sent| - 1];
    DestroyedTo(sent[..|sent| - 1], port) + if last.notice.destroyedEvent && last.to == {port} then 1 else 0
  }

  function ClosesBy(h: seq<Input>, port: Port): nat {
    if h == [] then 0 else
    ClosesBy(h[..|h| - 1], port) + if IsCloseBy(h[|h| - 1], port) then 1 else 0
  }

  predicate IsCloseBy(i: Input, port: Port) {
    i.Got? && i.message.ToSocket? && i.message.fd != -1 && i.message.command.Close? && i.message.port == port
  }

  lemma DestroyedOneMore(sent: seq<Sending>, last: Sending, port: Port)
    ensures DestroyedTo(sent + [last], port) ==
      DestroyedTo(sent, port) + if last.notice.destroyedEvent && last.to == {port} then 1 else 0
  {
    assert (sent + [last])[..|sent|] == sent;
  }

  lemma EventDestroys(s: State, e: Event, port: Port)
    requires Inv(s) && LegalInput(s, Saw(e))
    ensures DestroyedTo(Step(s, Saw(e)).posted, port) == DestroyedTo(s.posted, port)
  {
    if e.Ready? {
      hide Inv, Step, LegalInput, DestroyedTo, GetPollEvents, Descriptor.Audience, Descriptor.NextPort, Descriptor.WellFormed;
      EventStep(s, e);
      var d := s.store[e.addr];
      NeverDestroyed(e.reported);
      DestroyedOneMore(s.posted, Sending(e.addr, d.Audience(), GetPollEvents(e.reported)), port);
      DestroyedOneMore(s.posted, Sending(e.addr, {d.NextPort()}, GetPollEvents(e.reported)), port);
      assert s.posted + [] == s.posted;
    }
  }

  lemma MessageDestroys(s: State, m: Message, port: Port)
    requires Inv(s) && Legal(s, m)
    ensures DestroyedTo(HandleMessage(s, m).posted, port) ==
      DestroyedTo(s.posted, port) + if IsCloseBy(Got(m), port) then 1 else 0
  {
    if m.ToSocket? && m.fd != -1 {
      hide Inv, DestroyedTo, Descriptor.Audience, Descriptor.NotifyAll, Refuses, HandleMessage, Legal, WithDescriptor, Told;
      MessageSends(s, m);
      var s1 := WithDescriptor(s, m.fd, m.listening);
      var addr := s1.sockets[m.fd];
      var d := s1.store[addr];
      DestroyedAdded(s.posted, Refuses(d, Told(d, m), m.accepts), Sending(addr, Told(d, m).Audience(), CLOSE_EVENT),
                     m.command.Close?, Sending(addr, {m.port}, DESTROYED_EVENT), port);
      assert {m.port} == {port} <==> m.port == port by { assert m.port in {m.port}; }
    }
  }

  lemma DestroyedAdded(sent: seq<Sending>, refused: bool, refusal: Sending, closes: bool, destroyed: Sending, port: Port)
    requires !refusal.notice.destroyedEvent && destroyed.notice.destroyedEvent
    ensures DestroyedTo(sent + (if refused then [refusal] else []) + (if closes then [destroyed] else []), port) ==
      DestroyedTo(sent, port) + if closes && destroyed.to == {port} then 1 else 0
  {
    hide DestroyedTo;
    var mid := sent + if refused then [refusal] else [];
    assert sent + [] == sent && mid + [] == mid;
    DestroyedOneMore(sent, refusal, port);
    DestroyedOneMore(mid, destroyed, port);
  }

  lemma {:induction false} HistoryDestroys(h: seq<Input>, port: Port)
    requires LegalHistory(INITIAL, h)
    ensures DestroyedTo(After(INITIAL, h).posted, port) == ClosesBy(h, port)
    decreases |h|
  {
    if h != [] {
      var h', i := h[..|h| - 1], h[|h| - 1];
      hide Inv, HandleMessage, HandleEvent, Legal, DestroyedTo;
      InitialInv();
      HistoryDestroys(h', port);
      var s := After(INITIAL, h');
      match i
      case Saw(e) => EventDestroys(s, e, port);
      case Got(m) => MessageDestroys(s, m, port);
    }
  }

  /** In every run, a port is sent one destroyed event for each close that names it. */
  lemma DestroyedExactly(run: seq<Poll>, port: Port)
    requires LegalRun(INITIAL, run)
    ensures DestroyedTo(Run(INITIAL, run).posted, port) == ClosesBy(Inputs(run), port)
  {
    hide Inv, LegalRun, Run, Inputs, LegalHistory, After, DestroyedTo, ClosesBy;
    InitialInv();
    RunHistory(INITIAL, run);
    HistoryDestroys(Inputs(run), port);
  }

  // ----- The null port

  /** Something was sent to `port`. */
  predicate SentTo(posted: seq<Sending>, port: Port) {
    exists i :: 0 <= i < |posted| && port in posted[i].to
  }

  lemma SentOneMore(posted: seq<Sending>, last: Sending, port: Port)
    ensures SentTo(posted + [last], port) <==> SentTo(posted, port) || port in last.to
  {
    var all := posted + [last];
    assert forall i | 0 <= i < |posted| :: all[i] == posted[i];
    assert all[|posted|] == last;
  }

  lemma RealAudience(d: Descriptor)
    requires d.WellFormed()
    ensures 0 !in d.Audience()
  {
  }

  /** A close that names the null port, of a socket that is still open. */
  predicate NullClose(m: Message) {
    m.ToSocket? && m.fd != -1 && m.command.Close? && m.port == 0
  }

  lemma EventPosts(s: State, e: Event)
    requires Inv(s) && LegalInput(s, Saw(e))
    ensures SentTo(Step(s, Saw(e)).posted, 0) <==> SentTo(s.posted, 0)
  {
    if e.Ready? {
      hide Inv, Step, LegalInput, SentTo, GetPollEvents, IsError, IsNotification;
      hide Descriptor.NotifyAll, Descriptor.NextNotify, Descriptor.CanNotify, Descriptor.Audience, Descriptor.NextPort, Descriptor.WellFormed;
      EventStep(s, e);
      var d := s.store[e.addr];
      RealAudience(d);
      NextNotifyWellFormed(d);
      SentOneMore(s.posted, Sending(e.addr, d.Audience(), GetPollEvents(e.reported)), 0);
      SentOneMore(s.posted, Sending(e.addr, {d.NextPort()}, GetPollEvents(e.reported)), 0);
      assert s.posted + [] == s.posted;
    }
  }

  lemma SentAdded(sent: seq<Sending>, refused: bool, refusal: Sending, closes: bool, destroyed: Sending, port: Port)
    ensures SentTo(sent + (if refused then [refusal] else []) + (if closes then [destroyed] else []), port) <==>
      SentTo(sent, port) || (refused && port in refusal.to) || (closes && port in destroyed.to)
  {
    hide SentTo;
    var mid := sent + if refused then [refusal] else [];
    assert sent + [] == sent && mid + [] == mid;
    SentOneMore(sent, refusal, port);
    SentOneMore(mid, destroyed, port);
  }

  lemma MessagePosts(s: State, m: Message)
    requires Inv(s) && Legal(s, m)
    ensures SentTo(HandleMessage(s, m).posted, 0) <==> SentTo(s.posted, 0) || NullClose(m)
  {
    if m.ToSocket? && m.fd != -1 {
      hide Inv, SentTo, Descriptor.Audience, Descriptor.NotifyAll, Descriptor.WellFormed, Refuses, HandleMessage, Legal, WithDescriptor, Told;
      MessageForm(s, m);
      MessageSends(s, m);
      var s1 := WithDescriptor(s, m.fd, m.listening);
      var addr := s1.sockets[m.fd];
      var d := s1.store[addr];
      RealAudience(Told(d, m));
      SentAdded(s.posted, Refuses(d, Told(d, m), m.accepts), Sending(addr, Told(d, m).Audience(), CLOSE_EVENT),
                m.command.Close?, Sending(addr, {m.port}, DESTROYED_EVENT), 0);
    }
  }

  lemma {:induction false} BatchPosts(s: State, batch: seq<Event>)
    requires Inv(s) && BatchOf(s, batch)
    ensures SentTo(HandleBatch(s, batch).posted, 0) <==> SentTo(s.posted, 0)
    decreases |batch|
  {
    hide Inv, BatchOf, HandleEvent, LegalInput, SameThere, AllThere;
    FirstOfBatch(s, batch);
    if batch == [] {
      BatchEnd(s);
    } else {
      BatchStep(s, batch);
      EventPosts(s, batch[0]);
      EventSends(s, batch[0]);
      BatchPosts(HandleEvent(s, batch[0]), batch[1..]);
    }
  }

  predicate NullCloseAmong(messages: seq<Message>) {
    exists j :: 0 <= j < |messages| && NullClose(messages[j])
  }

  lemma {:induction false} MessagesPost(s: State, messages: seq<Message>)
    requires Inv(s) && LegalMessages(s, messages)
    ensures SentTo(HandleMessages(s, messages).posted, 0) <==> SentTo(s.posted, 0) || NullCloseAmong(messages)
    decreases |messages|
  {
    hide Inv, Legal, HandleMessage, NullClose;
    if messages != [] {
      var rest := messages[1..];
      MessageKeepsInv(s, messages[0]);
      MessagePosts(s, messages[0]);
      MessagesPost(HandleMessage(s, messages[0]), rest);
      assert forall j | 0 <= j < |rest| :: rest[j] == messages[j + 1];
      assert NullCloseAmong(rest) ==> NullCloseAmong(messages);
      assert NullCloseAmong(messages) ==> NullClose(messages[0]) || NullCloseAmong(rest) by {
        assert forall j | 0 < j < |messages| :: messages[j] == rest[j - 1];
      }
    }
  }

  /** A poll whose messages are handled and close a socket in the name of the null port. */
  predicate NullClosePoll(p: Poll) {
    Interrupt in p.batch && NullCloseAmong(p.messages)
  }

  /** In every run, a message is sent to the null port exactly if a close names it. */
  lemma {:induction false} NullPortExactly(s: State, run: seq<Poll>)
    requires Inv(s) && LegalRun(s, run)
    ensures SentTo(Run(s, run).posted, 0) <==> SentTo(s.posted, 0) || exists i :: 0 <= i < |run| && NullClosePoll(run[i])
    decreases |run|
  {
    hide Inv, LegalPoll, HandlePoll, NullCloseAmong, NullClosePoll;
    if run != [] {
      var rest := run[1..];
      PollPosts(s, run[0]);
      NullPortExactly(HandlePoll(s, run[0]), rest);
      assert forall i | 0 <= i < |rest| :: rest[i] == run[i + 1];
      assert forall i | 0 < i < |run| :: run[i] == rest[i - 1];
    }
  }

  lemma PollPosts(s: State, p: Poll)
    requires Inv(s) && LegalPoll(s, p)
    ensures SentTo(HandlePoll(s, p).posted, 0) <==> SentTo(s.posted, 0) || NullClosePoll(p)
  {
    hide Inv, HandleBatch, HandleMessages, LegalMessages, NullCloseAmong, BatchOf;
    BatchPosts(s, p.batch);
    if Interrupt in p.batch { MessagesPost(HandleBatch(s, p.batch), p.messages); }
  }

  /** Such a close is legal: it posts the destroyed event to the null port. */
  lemma NullPortPosted()
    ensures var m := ToSocket(3, 0, false, Close(true), true);
      Inv(INITIAL) && Legal(INITIAL, m) && SentTo(HandleMessage(INITIAL, m).posted, 0)
  {
    MessagePosts(INITIAL, ToSocket(3, 0, false, Close(true), true));
  }
}
