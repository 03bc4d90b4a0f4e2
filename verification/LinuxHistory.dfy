/**
  What the Linux loop has done, told from what it was given: the messages it has
  handled and the events it has seen.  In every run, these alone say which file
  descriptors have a descriptor, what each of them is registered for, what it has
  been charged, and which messages were sent.
 */
module LinuxHistory {
  import PortTable
  import LinuxFairness
  import opened SingleDescriptor
  import opened LinuxLoop

  // ----- Histories

  datatype Input = Got(message: Message) | Saw(event: Event)

  ghost predicate LegalInput(s: State, i: Input)
    requires Inv(s)
  {
    match i
    case Got(m) => Legal(s, m)
    case Saw(e) => e.Ready? ==> Reportable(s, e.addr, e.reported)
  }

  lemma AloneInBatch(s: State, e: Event)
    requires Inv(s) && LegalInput(s, Saw(e))
    ensures BatchOf(s, [e]) && (e.Ready? ==> e.addr in s.store) && Inv(HandleEvent(s, e))
  {
    EventKeepsInv(s, [e]);
  }

  ghost function Step(s: State, i: Input): (s': State)
    requires Inv(s) && LegalInput(s, i)
    ensures Inv(s')
  {
    match i
    case Got(m) => MessageKeepsInv(s, m); HandleMessage(s, m)
    case Saw(e) => AloneInBatch(s, e); HandleEvent(s, e)
  }

  ghost predicate LegalHistory(s: State, h: seq<Input>)
    requires Inv(s)
    decreases |h|, 0
  {
    h == [] || (LegalHistory(s, h[..|h| - 1]) && LegalInput(After(s, h[..|h| - 1]), h[|h| - 1]))
  }

  ghost function After(s: State, h: seq<Input>): (s': State)
    requires Inv(s) && LegalHistory(s, h)
    ensures Inv(s')
    decreases |h|, 1
  {
    if h == [] then s else Step(After(s, h[..|h| - 1]), h[|h| - 1])
  }

  lemma OneMore(s: State, h: seq<Input>, i: Input)
    requires Inv(s) && LegalHistory(s, h) && LegalInput(After(s, h), i)
    ensures LegalHistory(s, h + [i]) && After(s, h + [i]) == Step(After(s, h), i)
  {
    hide Inv, LegalInput, Step;
    assert (h + [i])[..|h|] == h;
  }

  lemma LastInput(s: State, h: seq<Input>)
    requires Inv(s) && LegalHistory(s, h) && h != []
    ensures var h', i := h[..|h| - 1], h[|h| - 1];
      LegalHistory(s, h') && LegalInput(After(s, h'), i) && After(s, h) == Step(After(s, h'), i)
  {
    hide Inv, LegalInput, Step;
  }

  lemma NoInput(s: State)
    requires Inv(s)
    ensures LegalHistory(s, []) && After(s, []) == s
  {
  }

  lemma {:induction false} HistoryAppend(s: State, h: seq<Input>, k: seq<Input>)
    requires Inv(s) && LegalHistory(s, h) && LegalHistory(After(s, h), k)
    ensures LegalHistory(s, h + k) && After(s, h + k) == After(After(s, h), k)
    decreases |k|
  {
    hide Inv, LegalInput, Step, LegalHistory, After;
    if k == [] {
      assert h + k == h;
      NoInput(After(s, h));
    } else {
      var k', i := k[..|k| - 1], k[|k| - 1];
      LastInput(After(s, h), k);
      HistoryAppend(s, h, k');
      OneMore(s, h + k', i);
      assert h + k' + [i] == h + k;
    }
  }

  lemma HistoryCons(s: State, i: Input, k: seq<Input>)
    requires Inv(s) && LegalInput(s, i) && LegalHistory(Step(s, i), k)
    ensures LegalHistory(s, [i] + k) && After(s, [i] + k) == After(Step(s, i), k)
  {
    hide Inv, LegalInput, Step, LegalHistory, After;
    NoInput(s);
    OneMore(s, [], i);
    assert [] + [i] == [i];
    HistoryAppend(s, [i], k);
  }

  // ----- The history of a run of polls

  function EventInputs(batch: seq<Event>): (h: seq<Input>) {
    if batch == [] then [] else [Saw(batch[0])] + EventInputs(batch[1..])
  }

  function MessageInputs(messages: seq<Message>): (h: seq<Input>) {
    if messages == [] then [] else [Got(messages[0])] + MessageInputs(messages[1..])
  }

  function PollInputs(p: Poll): seq<Input> {
    EventInputs(p.batch) + if Interrupt in p.batch then MessageInputs(p.messages) else []
  }

  /** All that is handled in a run: messages only of polls that report the pipe. */
  function Inputs(run: seq<Poll>): seq<Input> {
    if run == [] then [] else PollInputs(run[0]) + Inputs(run[1..])
  }

  lemma {:induction false} BatchHistory(s: State, batch: seq<Event>)
    requires Inv(s) && BatchOf(s, batch)
    ensures LegalHistory(s, EventInputs(batch)) && After(s, EventInputs(batch)) == HandleBatch(s, batch)
    decreases |batch|
  {
    if batch == [] {
      BatchEnd(s);
    } else {
      assert batch[0].Ready? ==> Reportable(s, batch[0].addr, batch[0].reported);
      hide Inv, BatchOf, HandleEvent, Reportable;
      BatchStep(s, batch);
      BatchHistory(HandleEvent(s, batch[0]), batch[1..]);
      HistoryCons(s, Saw(batch[0]), EventInputs(batch[1..]));
    }
  }

  lemma {:induction false} MessagesHistory(s: State, messages: seq<Message>)
    requires Inv(s) && LegalMessages(s, messages)
    ensures LegalHistory(s, MessageInputs(messages)) && After(s, MessageInputs(messages)) == HandleMessages(s, messages)
    decreases |messages|
  {
    hide Inv, Legal, HandleMessage;
    if messages != [] {
      MessageKeepsInv(s, messages[0]);
      MessagesHistory(HandleMessage(s, messages[0]), messages[1..]);
      HistoryCons(s, Got(messages[0]), MessageInputs(messages[1..]));
    }
  }

  lemma PollHistory(s: State, p: Poll)
    requires Inv(s) && LegalPoll(s, p)
    ensures LegalHistory(s, PollInputs(p)) && After(s, PollInputs(p)) == HandlePoll(s, p)
  {
    hide Inv, BatchOf, HandleBatch, HandleMessages, LegalMessages, EventInputs, MessageInputs, LegalHistory, After;
    BatchHistory(s, p.batch);
    if Interrupt in p.batch {
      MessagesHistory(HandleBatch(s, p.batch), p.messages);
      HistoryAppend(s, EventInputs(p.batch), MessageInputs(p.messages));
    } else {
      assert EventInputs(p.batch) + [] == EventInputs(p.batch);
    }
  }

  /** A run handles its inputs one after the other. */
  lemma {:induction false} RunHistory(s: State, run: seq<Poll>)
    requires Inv(s) && LegalRun(s, run)
    ensures LegalHistory(s, Inputs(run)) && After(s, Inputs(run)) == Run(s, run)
    decreases |run|
  {
    hide Inv, LegalPoll, HandlePoll, PollInputs;
    if run != [] {
      PollHistory(s, run[0]);
      RunHistory(HandlePoll(s, run[0]), run[1..]);
      HistoryAppend(s, PollInputs(run[0]), Inputs(run[1..]));
    }
  }

  // ----- Which descriptors there are

  /** A message for an open socket with this file descriptor. */
  predicate For(i: Input, fd: int) {
    i.Got? && i.message.ToSocket? && i.message.fd == fd && fd != -1
  }

  /** A close after which nothing is left: the socket does not listen, or nobody else listens on it. */
  predicate Deletes(m: Message, listening: bool) {
    m.ToSocket? && m.command.Close? && (m.command.closeSafe || !listening)
  }

  /** The message that the present descriptor of `fd` was created for, or -1 if there is none. */
  function BornAt(h: seq<Input>, fd: int): (b: int)
    ensures -1 <= b < |h| && (b >= 0 ==> For(h[b], fd))
  {
    if h == [] then -1 else
    var n := |h| - 1;
    var before := BornAt(h[..n], fd);
    if !For(h[n], fd) then before else
    var b := if before < 0 then n else before;
    if Deletes(h[n].message, h[b].message.listening) then -1 else b
  }

  lemma BornOneMore(h: seq<Input>, i: Input, fd: int)
    ensures BornAt(h + [i], fd) ==
      var before := BornAt(h, fd);
      if !For(i, fd) then before
      else if Deletes(i.message, if before < 0 then i.message.listening else h[before].message.listening) then -1
      else if before < 0 then |h| else before
  {
    assert (h + [i])[..|h|] == h;
  }

  /** Whether message `j` deletes the descriptor of `fd`. */
  predicate DeletedAt(h: seq<Input>, j: nat, fd: int)
    requires j < |h|
  {
    For(h[j], fd) &&
    var b := BornAt(h[..j], fd);
    Deletes(h[j].message, h[if b < 0 then j else b].message.listening)
  }

  /** A message for `fd` that no deletion follows. */
  ghost predicate Opened(h: seq<Input>, fd: int) {
    exists i :: 0 <= i < |h| && OpenedBy(h, fd, i)
  }

  ghost predicate OpenedBy(h: seq<Input>, fd: int, i: nat)
    requires i < |h|
  {
    For(h[i], fd) && forall j | i <= j < |h| :: !DeletedAt(h, j, fd)
  }

  lemma DeletedPrefix(h: seq<Input>, n: nat, j: nat, fd: int)
    requires j < n <= |h|
    ensures DeletedAt(h[..n], j, fd) == DeletedAt(h, j, fd)
  {
    assert h[..n][..j] == h[..j];
  }

  /** There is a descriptor exactly if there was a message for it and no deletion since. */
  lemma {:induction false} BornExactly(h: seq<Input>, fd: int)
    ensures BornAt(h, fd) >= 0 <==> Opened(h, fd)
  {
    if h != [] {
      var n := |h| - 1;
      BornExactly(h[..n], fd);
      hide Opened, BornAt;
      LastOpens(h, fd);
    }
  }

  lemma LastDeletes(h: seq<Input>, fd: int)
    requires h != []
    ensures DeletedAt(h, |h| - 1, fd) <==> For(h[|h| - 1], fd) && BornAt(h, fd) < 0
    ensures !For(h[|h| - 1], fd) ==> BornAt(h, fd) == BornAt(h[..|h| - 1], fd)
  {
  }

  lemma LastOpens(h: seq<Input>, fd: int)
    requires h != [] && (BornAt(h[..|h| - 1], fd) >= 0 <==> Opened(h[..|h| - 1], fd))
    ensures BornAt(h, fd) >= 0 <==> Opened(h, fd)
  {
    hide BornAt, For, DeletedAt;
    var n := |h| - 1;
    var h' := h[..n];
    LastDeletes(h, fd);
    forall j | 0 <= j < n ensures DeletedAt(h', j, fd) == DeletedAt(h, j, fd) { DeletedPrefix(h, n, j, fd); }
    if BornAt(h, fd) >= 0 {
      if For(h[n], fd) {
        assert OpenedBy(h, fd, n);
      } else {
        var i :| 0 <= i < |h'| && OpenedBy(h', fd, i);
        assert OpenedBy(h, fd, i);
      }
    }
    if Opened(h, fd) {
      var i :| 0 <= i < |h| && OpenedBy(h, fd, i);
      assert !DeletedAt(h, n, fd);
      assert !For(h[n], fd) ==> OpenedBy(h', fd, i);
    }
  }

  // ----- What a descriptor was told

  /** A message that sets the event mask of a socket. */
  predicate SetsMask(i: Input, fd: int) {
    For(i, fd) && i.message.command.SetEventMask?
  }

  /** The last mask that `fd` was given from position `from` on, or -1. */
  function LastMaskAt(h: seq<Input>, fd: int, from: nat): (k: int)
    ensures k < 0 ==> forall j | from <= j < |h| :: !SetsMask(h[j], fd)
    ensures k >= 0 ==> from <= k < |h| && SetsMask(h[k], fd) && forall j | k < j < |h| :: !SetsMask(h[j], fd)
  {
    if |h| <= from then -1
    else if SetsMask(h[|h| - 1], fd) then |h| - 1
    else LastMaskAt(h[..|h| - 1], fd, from)
  }

  /** A message by which a port enters or leaves a socket. */
  predicate ByPort(i: Input, fd: int, port: Port) {
    For(i, fd) && i.message.port == port && (i.message.command.SetEventMask? || i.message.command.Close?)
  }

  function LastByPort(h: seq<Input>, fd: int, from: nat, port: Port): (k: int)
    ensures k < 0 ==> forall j | from <= j < |h| :: !ByPort(h[j], fd, port)
    ensures k >= 0 ==> from <= k < |h| && ByPort(h[k], fd, port) && forall j | k < j < |h| :: !ByPort(h[j], fd, port)
  {
    if |h| <= from then -1
    else if ByPort(h[|h| - 1], fd, port) then |h| - 1
    else LastByPort(h[..|h| - 1], fd, from, port)
  }

  /** What the socket last asked for. */
  function Wanted(h: seq<Input>, fd: int, from: nat): Interest {
    var k := LastMaskAt(h, fd, from);
    if k < 0 then NO_INTEREST else h[k].message.command.events
  }

  function PortOf(h: seq<Input>, fd: int, from: nat): Port {
    var k := LastMaskAt(h, fd, from);
    if k < 0 then 0 else h[k].message.port
  }

  /** The port is among those of the listening socket: its last word was a mask, not a close. */
  predicate Joined(h: seq<Input>, fd: int, from: nat, port: Port) {
    var k := LastByPort(h, fd, from, port);
    k >= 0 && h[k].message.command.SetEventMask?
  }

  /** The port last asked a listening socket for reads. */
  predicate Reads(h: seq<Input>, fd: int, from: nat, port: Port)
    requires Joined(h, fd, from, port)
  {
    h[LastByPort(h, fd, from, port)].message.command.events.read
  }

  /** The port is known to the table exactly if it joined, and reads exactly if it asked to. */
  ghost predicate PortAsTold(t: PortTable.Table, h: seq<Input>, fd: int, from: nat, port: Port) {
    && (port in t.accounts <==> Joined(h, fd, from, port))
    && (port in t.accounts ==> t.accounts[port].reading == Reads(h, fd, from, port))
  }

  /** Kind, port and mask of a descriptor are as told since `from`. */
  ghost predicate AsTold(d: Descriptor, h: seq<Input>, fd: int, from: nat, listening: bool) {
    && d.fd == fd && d.Many? == listening
    && (d.One? ==> d.single.mask == Wanted(h, fd, from) && d.single.port == PortOf(h, fd, from))
    && (d.Many? ==> forall p :: PortAsTold(d.ports, h, fd, from, p))
  }

  lemma NewAsTold(h: seq<Input>, fd: int, listening: bool)
    ensures AsTold(NewDescriptor(fd, listening), h, fd, |h|, listening)
  {
  }

  /** Kind, port and mask are the same. */
  ghost predicate Alike(d: Descriptor, d': Descriptor) {
    && d.fd == d'.fd && d.One? == d'.One?
    && (d.One? ==> d.single.mask == d'.single.mask && d.single.port == d'.single.port)
    && (d.Many? ==> forall p :: SamePort(d.ports.accounts, d'.ports.accounts, p))
  }

  ghost predicate SamePort(m: map<Port, PortTable.Account>, m': map<Port, PortTable.Account>, p: Port) {
    (p in m <==> p in m') && (p in m ==> m[p].reading == m'[p].reading)
  }

  lemma NotifyAlike(d: Descriptor)
    ensures Alike(d, d.NotifyAll()) && (d.CanNotify() ==> Alike(d, d.NextNotify()))
  {
    if d.Many? && d.CanNotify() { PortTable.HeadKnown(d.ports); }
  }

  lemma ReturnAlike(d: Descriptor, port: Port, count: nat)
    requires d.Many? ==> port in d.ports.accounts && port in d.owedBy
    ensures Alike(d, d.ReturnTokens(port, count))
  {
  }

  lemma AlikeAsTold(d: Descriptor, d': Descriptor, h: seq<Input>, fd: int, from: nat, listening: bool)
    requires Alike(d, d') && AsTold(d, h, fd, from, listening)
    ensures AsTold(d', h, fd, from, listening)
  {
    hide Wanted, PortOf, Joined, Reads;
    if d.Many? {
      forall p ensures PortAsTold(d'.ports, h, fd, from, p) {
        assert PortAsTold(d.ports, h, fd, from, p);
        assert SamePort(d.ports.accounts, d'.ports.accounts, p);
      }
    }
  }

  /** Handling anything but a mask or a close changes nothing of what a descriptor was told. */
  lemma ToldNothing(d: Descriptor, h: seq<Input>, i: Input, fd: int, from: nat, listening: bool)
    requires AsTold(d, h, fd, from, listening) && from <= |h|
    requires For(i, fd) ==> !i.message.command.SetEventMask? && !i.message.command.Close?
    ensures AsTold(d, h + [i], fd, from, listening)
  {
    var h' := h + [i];
    assert h'[..|h|] == h;
    if d.Many? {
      forall p ensures PortAsTold(d.ports, h', fd, from, p) {
        assert PortAsTold(d.ports, h, fd, from, p);
      }
    }
  }

  lemma ToldMask(d: Descriptor, h: seq<Input>, m: Message, fd: int, from: nat, listening: bool)
    requires AsTold(d, h, fd, from, listening) && from <= |h| && For(Got(m), fd) && m.command.SetEventMask?
    requires MaskAllowed(d, m.port, m.command.events)
    ensures AsTold(d.SetPortAndMask(m.port, m.command.events), h + [Got(m)], fd, from, listening)
  {
    var h' := h + [Got(m)];
    assert h'[..|h|] == h;
    if d.Many? {
      var d' := d.SetPortAndMask(m.port, m.command.events);
      forall p ensures PortAsTold(d'.ports, h', fd, from, p) {
        assert PortAsTold(d.ports, h, fd, from, p);
      }
    }
  }

  lemma ToldClose(d: Descriptor, h: seq<Input>, m: Message, fd: int, from: nat)
    requires AsTold(d, h, fd, from, true) && from <= |h| && For(Got(m), fd) && m.command.Close?
    requires d.Many? && 0 !in d.ports.accounts
    ensures AsTold(Closed(d, m.port), h + [Got(m)], fd, from, true)
  {
    var h' := h + [Got(m)];
    assert h'[..|h|] == h;
    var d' := Closed(d, m.port);
    forall p ensures PortAsTold(d'.ports, h', fd, from, p) {
      assert PortAsTold(d.ports, h, fd, from, p);
    }
  }

  /** The descriptor of `fd`, if history says there is one, is as it was told. */
  ghost predicate Tracked(s: State, h: seq<Input>, fd: int) {
    var b := BornAt(h, fd);
    && (fd in s.sockets <==> b >= 0)
    && (b >= 0 ==> s.sockets[fd] in s.store && AsTold(s.store[s.sockets[fd]], h, fd, b, h[b].message.listening))
  }

  /** Touching a descriptor leaves it as told, a refusal included. */
  lemma TouchAlike(s: State, addr: Addr, d: Descriptor, accepts: bool)
    requires addr in s.store
    ensures var s' := Touch(s, addr, d, accepts); addr in s'.store && s'.sockets == s.sockets && Alike(d, s'.store[addr])
  {
    LinuxFairness.TouchedIs(s, addr, d, accepts);
    TouchFrame(s, addr, d, accepts);
    NotifyAlike(d);
    hide Touch, Descriptor.NotifyAll;
  }

  lemma EventAlike(s: State, e: Event, a: Addr)
    requires Inv(s) && LegalInput(s, Saw(e)) && a in s.store
    ensures var s' := Step(s, Saw(e)); a in s'.store && s'.sockets == s.sockets && Alike(s.store[a], s'.store[a])
  {
    AlikeSelf(s.store[a]);
    if e.Ready? {
      hide Inv, Step, LegalInput, Alike, Descriptor.NotifyAll, Descriptor.NextNotify, Descriptor.CanNotify, Descriptor.WellFormed;
      EventStep(s, e);
      NotifyAlike(s.store[e.addr]);
    }
  }

  lemma AlikeSelf(d: Descriptor)
    ensures Alike(d, d)
  {
  }

  /** The descriptor that a message makes of the one it is for. */
  function Told(d: Descriptor, m: Message): Descriptor
    requires m.ToSocket? && (m.command.ReturnToken? ==> ReturnAllowed(d, m.port, m.command.count))
  {
    match m.command
    case ShutdownRead => d
    case ShutdownWrite => d
    case SetEventMask(events) => d.SetPortAndMask(m.port, events)
    case ReturnToken(count) => d.ReturnTokens(m.port, count)
    case Close(_) => Closed(d, m.port)
  }

  lemma MaskReplaces(s: State, addr: Addr, port: Port, events: Interest)
    requires addr in s.store && s.store[addr].WellFormed() && port != 0
    ensures Replaces(s, addr, s.store[addr].SetPortAndMask(port, events))
  {
    SetPortWellFormed(s.store[addr], port, events);
  }

  lemma ReturnReplaces(s: State, addr: Addr, port: Port, count: nat)
    requires addr in s.store && s.store[addr].WellFormed() && ReturnAllowed(s.store[addr], port, count)
    ensures Replaces(s, addr, s.store[addr].ReturnTokens(port, count))
  {
    ReturnTokensWellFormed(s.store[addr], port, count);
  }

  lemma CloseReplaces(s: State, addr: Addr, port: Port)
    requires addr in s.store && s.store[addr].WellFormed()
    ensures Replaces(s, addr, Closed(s.store[addr], port))
  {
    RemovePortWellFormed(s.store[addr], port);
  }

  lemma TouchSame(s: State, addr: Addr, accepts: bool)
    requires addr in s.store
    ensures Touch(s, addr, s.store[addr], accepts) == s
  {
    assert s.store[addr := s.store[addr]] == s.store;
  }

  /** A message for an open socket finds its descriptor or makes one, and touches it; a close may delete it. */
  lemma MessageForm(s: State, m: Message)
    requires Inv(s) && Legal(s, m) && m.ToSocket? && m.fd != -1
    ensures var s1 := WithDescriptor(s, m.fd, m.listening);
      && Inv(s1) && m.fd in s1.sockets && s1.sockets[m.fd] in s1.store
      && var a := s1.sockets[m.fd];
      && var d := s1.store[a];
      && d.fd == m.fd && d.WellFormed() && (m.command.ReturnToken? ==> ReturnAllowed(d, m.port, m.command.count))
      && (m.command.SetEventMask? ==> MaskAllowed(d, m.port, m.command.events))
      && Replaces(s1, a, Told(d, m))
      && var t := Touch(s1, a, Told(d, m), m.accepts);
      && a in t.store
      && HandleMessage(s, m) ==
         if !m.command.Close? then t
         else Posting(if d.Many? && !m.command.closeSafe then t else Delete(t, a), a, {m.port}, DESTROYED_EVENT)
  {
    hide Inv, Touch, Delete, WithDescriptor, Posting, Replaces, Addressee, Descriptor.WellFormed, Descriptor.Mask;
    hide Descriptor.SetPortAndMask, Closed, NewDescriptor, MaskAllowed, CloseAllowed;
    MessageFacts(s, m);
    FoundFd(s, m);
    var s1 := WithDescriptor(s, m.fd, m.listening);
    var a := s1.sockets[m.fd];
    var d := s1.store[a];
    match m.command
    case ShutdownRead =>
      SameReplaces(s1, a);
      TouchSame(s1, a, m.accepts);
    case ShutdownWrite =>
      SameReplaces(s1, a);
      TouchSame(s1, a, m.accepts);
    case SetEventMask(events) =>
      MaskReplaces(s1, a, m.port, events);
      TouchedFd(s1, a, d.SetPortAndMask(m.port, events), m.accepts);
    case ReturnToken(count) =>
      ReturnReplaces(s1, a, m.port, count);
      TouchedFd(s1, a, d.ReturnTokens(m.port, count), m.accepts);
    case Close(_) =>
      CloseReplaces(s1, a, m.port);
      TouchedFd(s1, a, Closed(d, m.port), m.accepts);
  }

  lemma FoundFd(s: State, m: Message)
    requires Inv(s) && m.ToSocket?
    ensures var s' := WithDescriptor(s, m.fd, m.listening);
      m.fd in s'.sockets && s'.sockets[m.fd] in s'.store && s'.store[s'.sockets[m.fd]].fd == m.fd
  {
    MessageFacts(s, m);
  }

  lemma SameReplaces(s: State, addr: Addr)
    requires addr in s.store && s.store[addr].WellFormed()
    ensures Replaces(s, addr, s.store[addr])
  {
  }

  lemma TouchedFd(s: State, addr: Addr, d: Descriptor, accepts: bool)
    requires Replaces(s, addr, d)
    ensures var s' := Touch(s, addr, d, accepts);
      && addr in s'.store && s'.store[addr].fd == s.store[addr].fd
      && s'.sockets == s.sockets && s'.next == s.next && s'.shutdown == s.shutdown
  {
    TouchAlike(s, addr, d, accepts);
    TouchFrame(s, addr, d, accepts);
    hide Touch, Descriptor.WellFormed;
  }

  lemma SocketsElsewhere(s: State, m: Message, fd: int)
    requires Inv(s) && Legal(s, m) && m.ToSocket? && m.fd != -1 && m.fd != fd
    ensures var s' := HandleMessage(s, m);
      (fd in s'.sockets <==> fd in s.sockets) && (fd in s.sockets ==> s'.sockets[fd] == s.sockets[fd])
  {
    hide Inv, Legal, HandleMessage, Touch, Told, Replaces, Descriptor.WellFormed;
    MessageForm(s, m);
    var s1 := WithDescriptor(s, m.fd, m.listening);
    var a := s1.sockets[m.fd];
    TouchedFd(s1, a, Told(s1.store[a], m), m.accepts);
  }

  /** A message for another socket, or an event, leaves the descriptor of `fd` as told. */
  lemma OtherTracked(s: State, h: seq<Input>, i: Input, fd: int)
    requires Inv(s) && LegalInput(s, i) && Tracked(s, h, fd) && !For(i, fd) && fd != -1
    ensures Tracked(Step(s, i), h + [i], fd)
  {
    var s', b := Step(s, i), BornAt(h, fd);
    BornOneMore(h, i, fd);
    if b >= 0 {
      var a := s.sockets[fd];
      assert a < s.next && Synced(s, a);
      hide Inv, BornAt, AsTold, Synced, Step, Alike, LegalInput;
      Unmoved(s, i, fd, a);
      AlikeAsTold(s.store[a], s'.store[a], h, fd, b, h[b].message.listening);
      ToldNothing(s'.store[a], h, i, fd, b, h[b].message.listening);
    } else {
      hide BornAt, AsTold, Step;
      StaysAbsent(s, i, fd);
    }
  }

  lemma Unmoved(s: State, i: Input, fd: int, a: Addr)
    requires Inv(s) && LegalInput(s, i) && !For(i, fd) && fd != -1
    requires fd in s.sockets && s.sockets[fd] == a && a in s.store && s.store[a].fd == fd && a < s.next
    ensures var s' := Step(s, i);
      fd in s'.sockets && s'.sockets[fd] == a && a in s'.store && Alike(s.store[a], s'.store[a])
  {
    match i
    case Saw(e) => EventAlike(s, e, a);
    case Got(m) =>
      AlikeSelf(s.store[a]);
      if m.ToSocket? && m.fd != -1 {
        MessageFacts(s, m);
        hide Inv, HandleMessage, Legal, Alike;
        SocketsElsewhere(s, m, fd);
        LinuxFairness.HandledElsewhere(s, m, a);
      }
  }

  lemma StaysAbsent(s: State, i: Input, fd: int)
    requires Inv(s) && LegalInput(s, i) && !For(i, fd) && fd != -1 && fd !in s.sockets
    ensures fd !in Step(s, i).sockets
  {
    match i
    case Saw(e) =>
      if e.Ready? {
        hide Inv, Step, Alike;
        EventAlike(s, e, e.addr);
      }
    case Got(m) =>
      if m.ToSocket? && m.fd != -1 {
        hide Inv, HandleMessage, Legal;
        SocketsElsewhere(s, m, fd);
      }
  }

  /** What a message says is what its descriptor was told last. */
  lemma ToldAsTold(d: Descriptor, h: seq<Input>, m: Message, fd: int, from: nat, listening: bool)
    requires For(Got(m), fd) && AsTold(d, h, fd, from, listening) && from <= |h| && d.WellFormed() && !Deletes(m, listening)
    requires m.command.ReturnToken? ==> ReturnAllowed(d, m.port, m.command.count)
    requires m.command.SetEventMask? ==> MaskAllowed(d, m.port, m.command.events)
    ensures AsTold(Told(d, m), h + [Got(m)], fd, from, listening)
  {
    hide Alike, Descriptor.SetPortAndMask, Closed;
    match m.command
    case ShutdownRead => ToldNothing(d, h, Got(m), fd, from, listening);
    case ShutdownWrite => ToldNothing(d, h, Got(m), fd, from, listening);
    case SetEventMask(_) => ToldMask(d, h, m, fd, from, listening);
    case ReturnToken(count) =>
      ReturnAlike(d, m.port, count);
      AlikeAsTold(d, d.ReturnTokens(m.port, count), h, fd, from, listening);
      ToldNothing(d.ReturnTokens(m.port, count), h, Got(m), fd, from, listening);
    case Close(_) => ToldClose(d, h, m, fd, from);
  }

  /** A message for `fd` makes a new descriptor of it or finds the old one, and tells it something. */
  lemma OwnTracked(s: State, h: seq<Input>, m: Message, fd: int)
    requires Inv(s) && Legal(s, m) && Tracked(s, h, fd) && For(Got(m), fd)
    ensures Tracked(Step(s, Got(m)), h + [Got(m)], fd)
  {
    hide Inv, Legal, HandleMessage, BornAt, AsTold, Touch, Told, Replaces, Descriptor.WellFormed;
    var i, b := Got(m), BornAt(h, fd);
    BornOneMore(h, i, fd);
    MessageForm(s, m);
    var s1 := WithDescriptor(s, fd, m.listening);
    var a := s1.sockets[fd];
    var d := s1.store[a];
    var from: nat := if b < 0 then |h| else b;
    var listening := if b < 0 then m.listening else h[b].message.listening;
    if b < 0 { NewAsTold(h, fd, m.listening); }
    assert (h + [i])[from].message.listening == listening;
    KindTold(d, h, fd, from, listening);
    TouchedFd(s1, a, Told(d, m), m.accepts);
    if !Deletes(m, listening) {
      ToldAsTold(d, h, m, fd, from, listening);
      TouchTold(s1, a, Told(d, m), m.accepts, h + [i], fd, from, listening);
    }
  }

  lemma KindTold(d: Descriptor, h: seq<Input>, fd: int, from: nat, listening: bool)
    requires AsTold(d, h, fd, from, listening)
    ensures d.Many? == listening
  {
  }

  lemma TouchTold(s: State, addr: Addr, d: Descriptor, accepts: bool, h: seq<Input>, fd: int, from: nat, listening: bool)
    requires addr in s.store && AsTold(d, h, fd, from, listening)
    ensures var s' := Touch(s, addr, d, accepts);
      addr in s'.store && s'.sockets == s.sockets && AsTold(s'.store[addr], h, fd, from, listening)
  {
    TouchAlike(s, addr, d, accepts);
    hide Touch, AsTold, Alike;
    AlikeAsTold(d, Touch(s, addr, d, accepts).store[addr], h, fd, from, listening);
  }

  /** After every history, every file descriptor is tracked. */
  lemma {:induction false} HistoryTracked(h: seq<Input>, fd: int)
    requires LegalHistory(INITIAL, h) && fd != -1
    ensures Tracked(After(INITIAL, h), h, fd)
    decreases |h|
  {
    if h != [] {
      hide Inv, Tracked, Step, LegalInput;
      InitialInv();
      var h', i := h[..|h| - 1], h[|h| - 1];
      HistoryTracked(h', fd);
      assert h' + [i] == h;
      if For(i, fd) {
        OwnInput(After(INITIAL, h'), i, fd);
        OwnTracked(After(INITIAL, h'), h', i.message, fd);
      } else {
        OtherTracked(After(INITIAL, h'), h', i, fd);
      }
    }
  }

  lemma OwnInput(s: State, i: Input, fd: int)
    requires Inv(s) && LegalInput(s, i) && For(i, fd)
    ensures i == Got(i.message) && Legal(s, i.message)
  {
  }

  // ----- Which descriptors there are, in every run

  lemma InitialInv()
    ensures Inv(INITIAL)
  {
  }

  lemma RunTracked(run: seq<Poll>, fd: int)
    requires LegalRun(INITIAL, run) && fd != -1
    ensures Inv(Run(INITIAL, run)) && Tracked(Run(INITIAL, run), Inputs(run), fd)
  {
    hide Inv, LegalRun, Run, Inputs, LegalHistory, After, Tracked;
    InitialInv();
    RunHistory(INITIAL, run);
    RunKeepsInv(INITIAL, run);
    HistoryTracked(Inputs(run), fd);
  }

  /**
    In every run, a file descriptor is in the socket map exactly if a message for
    it was handled and no close since has deleted it.
   */
  lemma SocketMapExactly(run: seq<Poll>, fd: int)
    requires LegalRun(INITIAL, run) && fd != -1
    ensures fd in Run(INITIAL, run).sockets <==> Opened(Inputs(run), fd)
  {
    hide Inv, LegalRun, Run, Inputs, Opened;
    RunTracked(run, fd);
    BornExactly(Inputs(run), fd);
  }

  /** The first message after a deletion, or ever, meets a new descriptor: nothing is left of an earlier one. */
  lemma MeetsNew(run: seq<Poll>, m: Message)
    requires LegalRun(INITIAL, run) && m.ToSocket? && m.fd != -1 && !Opened(Inputs(run), m.fd)
    requires Inv(Run(INITIAL, run)) && Legal(Run(INITIAL, run), m)
    ensures var s := Run(INITIAL, run);
      && m.fd !in s.sockets && s.next !in s.store
      && var s' := WithDescriptor(s, m.fd, m.listening);
      && m.fd in s'.sockets && s'.sockets[m.fd] == s.next && s.next in s'.store
      && var d := s'.store[s.next];
      && d.fd == m.fd && d.Many? == m.listening
      && (d.One? ==> d.single.tokens == 16 && d.owed == 0 && d.single.port == 0 && d.single.mask == NO_INTEREST)
      && (d.Many? ==> d.ports.accounts == map[] && d.ports.ready == [] && d.owedBy == map[])
  {
    hide LegalRun, Run, Inputs, Opened;
    SocketMapExactly(run, m.fd);
    MessageFacts(Run(INITIAL, run), m);
  }

  // ----- What is registered

  /** Masks only shrink when a descriptor is notified. */
  lemma NotifyShrinks(d: Descriptor)
    requires d.WellFormed()
    ensures d.NotifyAll().Mask() == d.Mask() || d.NotifyAll().Mask() == NO_INTEREST
    ensures d.CanNotify() && (d.NextNotify().Mask() == d.Mask() || d.NextNotify().Mask() == NO_INTEREST)
  {
  }

  /** Where the mask stays or vanishes, nothing is registered, so nothing is refused. */
  lemma TouchShrinks(s: State, addr: Addr, d: Descriptor, accepts: bool)
    requires addr in s.store && d.fd == s.store[addr].fd
    requires d.Mask() == s.store[addr].Mask() || d.Mask() == NO_INTEREST
    ensures var s' := Touch(s, addr, d, accepts);
      && s'.store == s.store[addr := d] && s'.rejected == s.rejected && s'.posted == s.posted
      && s'.sockets == s.sockets && s'.next == s.next && s'.shutdown == s.shutdown
      && s'.epoll == if d.Mask() == s.store[addr].Mask() then s.epoll else s.epoll - {d.fd}
  {
    hide Descriptor.Mask;
  }

  /** What a registration amounts to: it is tried exactly if the mask changes to something, and then the kernel decides. */
  lemma TouchRegisters(s: State, addr: Addr, d: Descriptor, accepts: bool)
    requires Inv(s) && Replaces(s, addr, d)
    ensures var s', was, now := Touch(s, addr, d, accepts), s.store[addr].Mask(), d.Mask();
      && (d.fd in s'.epoll <==> now != NO_INTEREST && if now == was then d.fd in s.epoll else accepts)
      && (addr in s'.rejected ==> addr in s.rejected || !accepts)
      && addr in s'.store
      && if now != was && now != NO_INTEREST && !accepts
         then s'.store[addr] == d.NotifyAll() && s'.posted == s.posted + [Sending(addr, d.Audience(), CLOSE_EVENT)]
         else s'.store[addr] == d && s'.posted == s.posted
  {
    assert Synced(s, addr);
    hide Inv, Descriptor.Mask, Descriptor.NotifyAll, Descriptor.Audience, Descriptor.WellFormed;
  }

  /** Some registration for `fd` was refused from position `from` on. */
  ghost predicate RefusedSince(h: seq<Input>, fd: int, from: nat) {
    exists k :: from <= k < |h| && RefusedAt(h, fd, k)
  }

  predicate RefusedAt(h: seq<Input>, fd: int, k: nat)
    requires k < |h|
  {
    For(h[k], fd) && !h[k].message.accepts
  }

  lemma StillRefused(h: seq<Input>, i: Input, fd: int, from: nat)
    ensures RefusedSince(h, fd, from) ==> RefusedSince(h + [i], fd, from)
    ensures For(i, fd) && !i.message.accepts && from <= |h| ==> RefusedSince(h + [i], fd, from)
  {
    if RefusedSince(h, fd, from) {
      var k :| from <= k < |h| && RefusedAt(h, fd, k);
      assert RefusedAt(h + [i], fd, k);
    }
    if For(i, fd) && !i.message.accepts {
      assert RefusedAt(h + [i], fd, |h|);
    }
  }

  /** A descriptor counts as rejected only if the kernel refused it since it was created. */
  ghost predicate Blamed(s: State, h: seq<Input>, fd: int) {
    var b := BornAt(h, fd);
    b >= 0 && fd in s.sockets && s.sockets[fd] in s.rejected ==> RefusedSince(h, fd, b)
  }

  /** What an event does to its descriptor; nothing is registered, so nothing is refused. */
  lemma EventStep(s: State, e: Event)
    requires Inv(s) && LegalInput(s, Saw(e)) && e.Ready?
    ensures e.addr in s.store && s.store[e.addr].WellFormed() && s.store[e.addr].CanNotify()
    ensures s.store[e.addr].Mask() != NO_INTEREST
    ensures var s', d := Step(s, Saw(e)), s.store[e.addr];
      && s'.rejected == s.rejected && s'.sockets == s.sockets && s'.next == s.next && s'.shutdown == s.shutdown
      && s'.store == s.store[e.addr := if IsError(e.reported) then d.NotifyAll()
                                       else if IsNotification(e.reported) then d.NextNotify() else d]
      && s'.posted == s.posted + (if IsError(e.reported) then [Sending(e.addr, d.Audience(), GetPollEvents(e.reported))]
                                  else if IsNotification(e.reported) then [Sending(e.addr, {d.NextPort()}, GetPollEvents(e.reported))]
                                  else [])
  {
    hide Inv, BatchOf, Touch, Descriptor.NotifyAll, Descriptor.NextNotify, Descriptor.WellFormed, Descriptor.Mask;
    hide Descriptor.CanNotify, Descriptor.Audience, Descriptor.NextPort, GetPollEvents, IsError, IsNotification;
    AloneInBatch(s, e);
    ReplacedByEvent(s, [e]);
    var d := s.store[e.addr];
    NotifyShrinks(d);
    TouchShrinks(s, e.addr, d.NextNotify(), e.accepts);
    TouchShrinks(Posting(s, e.addr, d.Audience(), GetPollEvents(e.reported)), e.addr, d.NotifyAll(), e.accepts);
  }

  lemma EventRejects(s: State, e: Event)
    requires Inv(s) && LegalInput(s, Saw(e))
    ensures var s' := Step(s, Saw(e)); s'.rejected == s.rejected && s'.sockets == s.sockets
  {
    if e.Ready? {
      hide Inv, Step, LegalInput;
      EventStep(s, e);
    }
  }

  /** What a message may reject: the descriptor it is for, if the kernel refuses it. */
  lemma MessageRejects(s: State, m: Message, a: Addr)
    requires Inv(s) && Legal(s, m) && a in HandleMessage(s, m).rejected
    ensures a in s.rejected || (m.ToSocket? && m.fd != -1 && !m.accepts && WithDescriptor(s, m.fd, m.listening).sockets[m.fd] == a)
  {
    if m.ToSocket? && m.fd != -1 {
      hide Inv, Legal, HandleMessage, Touch, Told, Replaces, Descriptor.WellFormed;
      MessageForm(s, m);
      var s1 := WithDescriptor(s, m.fd, m.listening);
      var addr := s1.sockets[m.fd];
      TouchRejects(s1, addr, Told(s1.store[addr], m), m.accepts, a);
    }
  }

  lemma TouchRejects(s: State, addr: Addr, d: Descriptor, accepts: bool, a: Addr)
    requires Inv(s) && Replaces(s, addr, d) && a in Touch(s, addr, d, accepts).rejected
    ensures a in s.rejected || (a == addr && !accepts)
  {
    TouchRegisters(s, addr, d, accepts);
    TouchFrame(s, addr, d, accepts);
    hide Inv, Touch;
  }

  lemma StepBlamed(s: State, h: seq<Input>, i: Input, fd: int)
    requires Inv(s) && LegalInput(s, i) && fd != -1 && Tracked(s, h, fd) && Blamed(s, h, fd)
    requires Tracked(Step(s, i), h + [i], fd)
    ensures Blamed(Step(s, i), h + [i], fd)
  {
    var s' := Step(s, i);
    BornOneMore(h, i, fd);
    var b, b' := BornAt(h, fd), BornAt(h + [i], fd);
    if b' >= 0 && s'.sockets[fd] in s'.rejected {
      StillRefused(h, i, fd, b');
      match i
      case Saw(e) => EventRejects(s, e);
      case Got(m) =>
        MessageRejects(s, m, s'.sockets[fd]);
        SocketKept(s, m, fd);
    }
  }

  /** A socket that is still there keeps its address, and a new one has an address of its own. */
  lemma SocketKept(s: State, m: Message, fd: int)
    requires Inv(s) && Legal(s, m) && fd != -1 && fd in HandleMessage(s, m).sockets
    ensures var a := HandleMessage(s, m).sockets[fd];
      if fd in s.sockets then a == s.sockets[fd] else For(Got(m), fd) && a == s.next && a !in s.rejected
    ensures m.ToSocket? && m.fd != -1 && m.fd != fd ==>
      WithDescriptor(s, m.fd, m.listening).sockets[m.fd] != HandleMessage(s, m).sockets[fd]
  {
    if m.ToSocket? && m.fd != -1 {
      if m.fd != fd {
        hide HandleMessage, Legal;
        FoundFd(s, m);
        SocketsElsewhere(s, m, fd);
      } else {
        OwnSocket(s, m);
      }
    }
  }

  lemma OwnSocket(s: State, m: Message)
    requires Inv(s) && Legal(s, m) && m.ToSocket? && m.fd != -1 && m.fd in HandleMessage(s, m).sockets
    ensures HandleMessage(s, m).sockets[m.fd] == WithDescriptor(s, m.fd, m.listening).sockets[m.fd]
    ensures s.next !in s.rejected
  {
    assert s.next !in s.rejected;
    hide Inv, Legal, HandleMessage, Touch, Told, Replaces, Descriptor.WellFormed;
    MessageForm(s, m);
    var s1 := WithDescriptor(s, m.fd, m.listening);
    var a := s1.sockets[m.fd];
    TouchedFd(s1, a, Told(s1.store[a], m), m.accepts);
  }

  lemma {:induction false} HistoryBlamed(h: seq<Input>, fd: int)
    requires LegalHistory(INITIAL, h) && fd != -1
    ensures Blamed(After(INITIAL, h), h, fd)
    decreases |h|
  {
    if h != [] {
      var h', i := h[..|h| - 1], h[|h| - 1];
      hide Inv, Tracked, Blamed, Step, LegalInput;
      InitialInv();
      HistoryBlamed(h', fd);
      HistoryTracked(h', fd);
      HistoryTracked(h, fd);
      assert h' + [i] == h;
      StepBlamed(After(INITIAL, h'), h', i, fd);
    }
  }

  lemma RunBlamed(run: seq<Poll>, fd: int)
    requires LegalRun(INITIAL, run) && fd != -1
    ensures Blamed(Run(INITIAL, run), Inputs(run), fd)
  {
    hide Inv, LegalRun, Run, Inputs, LegalHistory, After, Blamed;
    InitialInv();
    RunHistory(INITIAL, run);
    HistoryBlamed(Inputs(run), fd);
  }

  /**
    In every run, a connected socket that is registered is registered for input
    exactly if the last mask it was given asks for reads, for output exactly if it
    asks for writes, for hang-ups, and edge-triggered.  It is not registered
    without a mask or without tokens; with both it is, unless it was refused.
   */
  lemma ConnectedAsWanted(run: seq<Poll>, fd: int)
    requires LegalRun(INITIAL, run) && fd != -1 && BornAt(Inputs(run), fd) >= 0
    requires !Inputs(run)[BornAt(Inputs(run), fd)].message.listening
    ensures var h, s := Inputs(run), Run(INITIAL, run);
      && var b := BornAt(h, fd);
      && fd in s.sockets && s.sockets[fd] in s.store && s.store[s.sockets[fd]].One?
      && var wanted, single := Wanted(h, fd, b), s.store[s.sockets[fd]].single;
      && single.port == PortOf(h, fd, b)
      && (fd in s.epoll ==>
            && s.epoll[fd].addr == s.sockets[fd] && wanted != NO_INTEREST && single.tokens > 0
            && (s.epoll[fd].events.epollIn <==> wanted.read) && (s.epoll[fd].events.epollOut <==> wanted.write)
            && s.epoll[fd].events.readHangup && s.epoll[fd].events.edgeTriggered)
      && (wanted != NO_INTEREST && single.tokens > 0 && !RefusedSince(h, fd, b) ==> fd in s.epoll)
  {
    hide LegalRun, Run, Inputs, BornAt, Wanted, PortOf, RefusedSince;
    RunTracked(run, fd);
    RunBlamed(run, fd);
    var s := Run(INITIAL, run);
    assert Synced(s, s.sockets[fd]);
  }

  /**
    In every run, a listening socket that is registered is registered for input
    and hang-ups only, and not edge-triggered.  It is registered only if some port
    that joined it asks for reads and has tokens; if there is one it is
    registered, unless it was refused.
   */
  lemma ListeningAsWanted(run: seq<Poll>, fd: int)
    requires LegalRun(INITIAL, run) && fd != -1 && BornAt(Inputs(run), fd) >= 0
    requires Inputs(run)[BornAt(Inputs(run), fd)].message.listening
    ensures var h, s := Inputs(run), Run(INITIAL, run);
      && var b := BornAt(h, fd);
      && fd in s.sockets && s.sockets[fd] in s.store && s.store[s.sockets[fd]].Many?
      && var ports := s.store[s.sockets[fd]].ports;
      && (fd in s.epoll ==>
            && s.epoll[fd].addr == s.sockets[fd] && (exists p :: Waiting(ports, h, fd, b, p))
            && s.epoll[fd].events.epollIn && !s.epoll[fd].events.epollOut
            && s.epoll[fd].events.readHangup && !s.epoll[fd].events.edgeTriggered)
      && ((exists p :: Waiting(ports, h, fd, b, p)) && !RefusedSince(h, fd, b) ==> fd in s.epoll)
  {
    hide LegalRun, Run, Inputs, BornAt, Joined, Reads, RefusedSince;
    RunTracked(run, fd);
    RunBlamed(run, fd);
    var s := Run(INITIAL, run);
    assert Synced(s, s.sockets[fd]);
    var h := Inputs(run);
    ReadyIsWaiting(s.store[s.sockets[fd]].ports, h, fd, BornAt(h, fd));
  }

  /** A port that joined, asks for reads and has tokens. */
  ghost predicate Waiting(t: PortTable.Table, h: seq<Input>, fd: int, from: nat, p: Port) {
    Joined(h, fd, from, p) && Reads(h, fd, from, p) && p in t.accounts && t.accounts[p].tokens > 0
  }

  lemma ReadyIsWaiting(t: PortTable.Table, h: seq<Input>, fd: int, from: nat)
    requires PortTable.Inv(t) && forall p :: PortAsTold(t, h, fd, from, p)
    ensures t.ready != [] <==> exists p :: Waiting(t, h, fd, from, p)
  {
    hide Joined, Reads;
    if t.ready != [] {
      var p := t.ready[0];
      assert PortTable.Listed(t.ready, p);
      assert PortAsTold(t, h, fd, from, p);
      assert Waiting(t, h, fd, from, p);
    }
    if p :| Waiting(t, h, fd, from, p) {
      assert PortAsTold(t, h, fd, from, p);
      assert PortTable.IsReady(t.accounts, p);
      assert PortTable.Listed(t.ready, p);
    }
  }

  // ----- The loop

  lemma {:induction false} RunSnoc(s: State, run: seq<Poll>, p: Poll)
    requires Inv(s) && LegalRun(s, run) && Inv(Run(s, run)) && LegalPoll(Run(s, run), p)
    ensures LegalRun(s, run + [p]) && Run(s, run + [p]) == HandlePoll(Run(s, run), p)
    decreases |run|
  {
    hide Inv, LegalPoll, HandlePoll;
    if run == [] {
      assert [p][1..] == [] && run + [p] == [p];
      assert LegalRun(HandlePoll(s, p), []);
    } else {
      assert (run + [p])[1..] == run[1..] + [p];
      RunSnoc(HandlePoll(s, run[0]), run[1..], p);
    }
  }

  lemma FirstPoll(s: State, run: seq<Poll>)
    requires Inv(s) && LegalRun(s, run) && run != []
    ensures LegalPoll(s, run[0]) && LegalRun(HandlePoll(s, run[0]), run[1..])
  {
  }

  lemma NoPoll(s: State)
    requires Inv(s)
    ensures LegalRun(s, []) && Run(s, []) == s
  {
  }

  /** The poll brings a shutdown message. */
  predicate StopsLoop(p: Poll) {
    Interrupt in p.batch && StopAmong(p.messages)
  }

  predicate StopAmong(messages: seq<Message>) {
    exists j :: 0 <= j < |messages| && messages[j] == Shutdown
  }

  lemma {:induction false} MessagesStop(s: State, messages: seq<Message>)
    requires Inv(s) && LegalMessages(s, messages)
    ensures HandleMessages(s, messages).shutdown <==> s.shutdown || StopAmong(messages)
    decreases |messages|
  {
    hide Inv, Legal, HandleMessage;
    if messages != [] {
      var rest := messages[1..];
      MessageKeepsInv(s, messages[0]);
      MessageStops(s, messages[0]);
      MessagesStop(HandleMessage(s, messages[0]), rest);
      assert forall j | 0 <= j < |rest| :: rest[j] == messages[j + 1];
      assert StopAmong(rest) ==> StopAmong(messages);
      assert StopAmong(messages) ==> messages[0] == Shutdown || StopAmong(rest) by {
        assert forall j | 0 < j < |messages| :: messages[j] == rest[j - 1];
      }
    }
  }

  lemma MessageStops(s: State, m: Message)
    requires Inv(s) && Legal(s, m)
    ensures HandleMessage(s, m).shutdown <==> s.shutdown || m == Shutdown
  {
    if m.ToSocket? && m.fd != -1 {
      hide Inv, Legal, HandleMessage, Touch, Told, Replaces, Descriptor.WellFormed;
      MessageForm(s, m);
      var s1 := WithDescriptor(s, m.fd, m.listening);
      var a := s1.sockets[m.fd];
      TouchedFd(s1, a, Told(s1.store[a], m), m.accepts);
    }
  }

  lemma {:induction false} BatchStops(s: State, batch: seq<Event>)
    requires Inv(s) && BatchOf(s, batch)
    ensures HandleBatch(s, batch).shutdown == s.shutdown
    decreases |batch|
  {
    if batch == [] {
      BatchEnd(s);
    } else {
      assert batch[0].Ready? ==> Reportable(s, batch[0].addr, batch[0].reported);
      hide Inv, BatchOf, Reportable;
      BatchStep(s, batch);
      if batch[0].Ready? { EventStep(s, batch[0]); }
      BatchStops(HandleEvent(s, batch[0]), batch[1..]);
    }
  }

  /** A poll stops the loop exactly if it brings a shutdown message. */
  lemma PollStops(s: State, p: Poll)
    requires Inv(s) && LegalPoll(s, p)
    ensures HandlePoll(s, p).shutdown <==> s.shutdown || StopsLoop(p)
  {
    hide Inv, BatchOf, HandleBatch, HandleMessages, LegalMessages, StopAmong;
    BatchStops(s, p.batch);
    if Interrupt in p.batch { MessagesStop(HandleBatch(s, p.batch), p.messages); }
  }

  /** In every run, the loop is told to stop exactly if a shutdown message was handled. */
  lemma {:induction false} ShutdownExactly(s: State, run: seq<Poll>)
    requires Inv(s) && LegalRun(s, run)
    ensures Run(s, run).shutdown <==> s.shutdown || exists i :: 0 <= i < |run| && StopsLoop(run[i])
    decreases |run|
  {
    hide Inv, LegalPoll, HandlePoll, StopsLoop;
    if run != [] {
      var rest := run[1..];
      PollStops(s, run[0]);
      ShutdownExactly(HandlePoll(s, run[0]), rest);
      assert forall i | 0 <= i < |rest| :: rest[i] == run[i + 1];
      assert forall i | 0 < i < |run| :: run[i] == rest[i - 1];
    }
  }
}
