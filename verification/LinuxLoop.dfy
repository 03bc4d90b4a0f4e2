/**
  The Linux event loop (`EventHandlerImplementation`) as a state machine.

  Descriptors live in an explicit store, so that a dangling pointer is an
  address outside it.  The kernel's epoll set maps a file descriptor to what it
  was registered with.  Each input of a run is what one `epoll_wait` returns,
  with the messages waiting in the interrupt pipe.
 */
module LinuxLoop {
  import PortTable
  import opened SingleDescriptor

  type Addr = int

  /** A descriptor; `owed` counts the tokens a port was charged and has not returned. */
  datatype Descriptor =
    | One(fd: int, single: Single, owed: int)
    | Many(fd: int, ports: PortTable.Table, owedBy: map<Port, int>)
  {
    function Mask(): Interest {
      match this
      case One(_, single, _) => single.Mask()
      case Many(_, ports, _) => Interest(ports.ready != [], false)
    }

    function NotifyAll(): Descriptor {
      match this
      case One(fd, single, owed) => One(fd, single.Notify(), owed + 1)
      case Many(fd, ports, owedBy) => Many(fd, PortTable.NotifyAllPorts(ports), map p | p in owedBy :: owedBy[p] + 1)
    }

    ghost predicate CanNotify() {
      Many? ==> PortTable.Inv(ports) && owedBy.Keys == ports.accounts.Keys
    }

    function NextNotify(): Descriptor
      requires CanNotify()
    {
      match this
      case One(fd, single, owed) => One(fd, single.Notify(), owed + 1)
      case Many(fd, ports, owedBy) =>
        assert ports.ready != [] ==> PortTable.Listed(ports.ready, ports.ready[0]);
        Many(fd, PortTable.After(ports, PortTable.Next),
             if ports.ready == [] then owedBy else owedBy[ports.ready[0] := owedBy[ports.ready[0]] + 1])
    }

    function NextPort(): Port {
      match this
      case One(_, single, _) => single.port
      case Many(_, ports, _) => PortTable.NextPort(ports)
    }

    /** The ports that a broadcast is sent to. */
    function Audience(): set<Port> {
      match this
      case One(_, single, _) => if single.port == 0 then {} else {single.port}
      case Many(_, ports, _) => ports.accounts.Keys
    }

    function SetPortAndMask(port: Port, events: Interest): Descriptor {
      match this
      case One(fd, single, owed) => One(fd, single.SetPortAndMask(port, events), owed)
      case Many(fd, ports, owedBy) =>
        Many(fd, PortTable.SetPortAndMask(ports, port, events == Interest(true, false)),
             owedBy[port := if port in owedBy then owedBy[port] else 0])
    }

    function RemovePort(port: Port): Descriptor {
      match this
      case One(fd, single, owed) => One(fd, single.RemovePort(), owed)
      case Many(fd, ports, owedBy) => Many(fd, PortTable.RemovePort(ports, port), owedBy - {port})
    }

    function ReturnTokens(port: Port, count: nat): Descriptor
      requires Many? ==> port in ports.accounts && port in owedBy
    {
      match this
      case One(fd, single, owed) => One(fd, single.ReturnTokens(count), owed - count)
      case Many(fd, ports, owedBy) =>
        Many(fd, PortTable.ReturnTokens(ports, port, count), owedBy[port := owedBy[port] - count])
    }

    /** Token counts within budget, and nobody to notify but real ports. */
    ghost predicate WellFormed() {
      match this
      case One(_, single, owed) =>
        && !single.disableTokens
        && single.tokens == TOKEN_COUNT - owed && 0 <= single.tokens <= TOKEN_COUNT
        && (single.mask != NO_INTEREST ==> single.port != 0)
      case Many(_, ports, owedBy) =>
        && PortTable.Inv(ports) && !ports.disableTokens && 0 !in ports.accounts
        && owedBy.Keys == ports.accounts.Keys
        && forall p | p in ports.accounts :: PortTable.Balanced(ports, p, owedBy[p]) && owedBy[p] >= 0
    }
  }

  function NewDescriptor(fd: int, listening: bool): Descriptor {
    if listening then Many(fd, PortTable.NO_PORTS, map[]) else One(fd, Create(false), 0)
  }

  /** The events of an epoll registration: EPOLLIN, EPOLLOUT, EPOLLRDHUP and EPOLLET. */
  datatype PollEvents = PollEvents(epollIn: bool, epollOut: bool, readHangup: bool, edgeTriggered: bool)

  datatype Registration = Registration(addr: Addr, events: PollEvents)

  function EventsFor(d: Descriptor): PollEvents {
    PollEvents(d.Mask().read, d.Mask().write, true, d.One?)
  }

  /** The event mask of a message to a port. */
  datatype Notice = Notice(inEvent: bool, outEvent: bool, errorEvent: bool, closeEvent: bool, destroyedEvent: bool)

  const NOTHING: Notice := Notice(false, false, false, false, false)
  const CLOSE_EVENT: Notice := Notice(false, false, false, true, false)
  const DESTROYED_EVENT: Notice := Notice(false, false, false, false, true)

  /** A message sent to one port or to several, because of the descriptor at `from`. */
  datatype Sending = Sending(from: Addr, to: set<Port>, notice: Notice)

  /**
    `rejected` holds the descriptors whose last registration the kernel refused,
    and `posted` what has been sent so far.
   */
  datatype State = State(
    store: map<Addr, Descriptor>,
    next: Addr,
    sockets: map<int, Addr>,
    epoll: map<int, Registration>,
    rejected: set<Addr>,
    shutdown: bool,
    posted: seq<Sending>)

  const INITIAL: State := State(map[], 0, map[], map[], {}, false, [])

  function Posting(s: State, from: Addr, to: set<Port>, notice: Notice): State {
    s.(posted := s.posted + [Sending(from, to, notice)])
  }

  // ----- Registration

  function RemoveFromEpoll(s: State, addr: Addr): State
    requires addr in s.store
  {
    s.(epoll := s.epoll - {s.store[addr].fd})
  }

  /**
    Registers a descriptor; the kernel refuses a second registration of the same
    file descriptor.  A refusal is broadcast as a close event.
   */
  function AddToEpoll(s: State, addr: Addr, accepts: bool): State
    requires addr in s.store
  {
    var d := s.store[addr];
    if accepts && d.fd !in s.epoll then
      s.(epoll := s.epoll[d.fd := Registration(addr, EventsFor(d))], rejected := s.rejected - {addr})
    else
      s.(store := s.store[addr := d.NotifyAll()], rejected := s.rejected + {addr},
         posted := s.posted + [Sending(addr, d.Audience(), CLOSE_EVENT)])
  }

  function UpdateEpoll(s: State, was: Interest, addr: Addr, accepts: bool): State
    requires addr in s.store
  {
    var now := s.store[addr].Mask();
    if was != NO_INTEREST && now == NO_INTEREST then RemoveFromEpoll(s, addr)
    else if was == NO_INTEREST && now != NO_INTEREST then AddToEpoll(s, addr, accepts)
    else if was != now then AddToEpoll(RemoveFromEpoll(s, addr), addr, accepts)
    else s
  }

  /** Replaces a descriptor's state and brings its registration up to date. */
  function Touch(s: State, addr: Addr, d: Descriptor, accepts: bool): State
    requires addr in s.store
  {
    UpdateEpoll(s.(store := s.store[addr := d]), s.store[addr].Mask(), addr, accepts)
  }

  // ----- The invariant

  /** The descriptor at `addr` is the one of its file descriptor, and epoll mirrors its mask. */
  ghost predicate Synced(s: State, addr: Addr)
    requires addr in s.store
  {
    var d := s.store[addr];
    && d.WellFormed()
    && d.fd in s.sockets && s.sockets[d.fd] == addr
    && (d.fd in s.epoll <==> d.Mask() != NO_INTEREST && addr !in s.rejected)
    && (d.fd in s.epoll ==> s.epoll[d.fd] == Registration(addr, EventsFor(d)))
  }

  ghost predicate Inv(s: State) {
    && (forall addr | addr in s.store :: addr < s.next && Synced(s, addr))
    && (forall fd | fd in s.sockets :: s.sockets[fd] in s.store && s.store[s.sockets[fd]].fd == fd)
    && (forall fd | fd in s.epoll :: fd in s.sockets)
    && (forall addr | addr in s.rejected :: addr < s.next)
  }

  /** Sending messages changes no registration. */
  lemma PostingKeepsInv(s: State, from: Addr, to: set<Port>, notice: Notice)
    requires Inv(s)
    ensures Inv(Posting(s, from, to, notice))
  {
    forall addr | addr in s.store ensures Synced(Posting(s, from, to, notice), addr) {
      assert Synced(s, addr);
    }
  }

  lemma NotifyAllWellFormed(d: Descriptor)
    requires d.WellFormed() && d.Mask() != NO_INTEREST
    ensures d.NotifyAll().WellFormed() && d.NotifyAll().fd == d.fd
  {
    if d.Many? { PortTable.OpKeepsInv(d.ports, PortTable.NotifyAll); }
  }

  /** A descriptor that may take the place of the one at `addr`. */
  ghost predicate Replaces(s: State, addr: Addr, d: Descriptor) {
    addr in s.store && d.fd == s.store[addr].fd && d.One? == s.store[addr].One? && d.WellFormed()
  }

  /** Whether the descriptor at `addr` is in the epoll set. */
  predicate Registered(s: State, addr: Addr) {
    addr in s.store && s.store[addr].fd in s.epoll
  }

  /** The descriptor at `a` is registered as it was before, or not at all as before. */
  predicate SameRegistration(s: State, s': State, a: Addr)
    requires a in s.store
  {
    var fd := s.store[a].fd;
    if fd in s.epoll then fd in s'.epoll && s'.epoll[fd] == s.epoll[fd] else fd !in s'.epoll
  }

  lemma TouchSelf(s: State, addr: Addr, d: Descriptor, accepts: bool)
    requires Inv(s) && Replaces(s, addr, d)
    ensures var s' := Touch(s, addr, d, accepts); addr in s'.store && Synced(s', addr) && s'.store[addr].fd == d.fd
  {
    hide Descriptor.WellFormed, Descriptor.NotifyAll, Descriptor.Mask;
    assert Synced(s, addr);
    if d.Mask() != NO_INTEREST { NotifyAllWellFormed(d); }
  }

  lemma TouchOthers(s: State, addr: Addr, d: Descriptor, accepts: bool, a: Addr)
    requires Inv(s) && Replaces(s, addr, d) && a in s.store && a != addr
    ensures var s' := Touch(s, addr, d, accepts);
      a in s'.store && s'.store[a] == s.store[a] && Synced(s', a) && SameRegistration(s, s', a)
  {
    hide Descriptor.WellFormed, Descriptor.NotifyAll, Descriptor.Mask;
    assert Synced(s, a) && Synced(s, addr);
  }

  /** A registration concerns one descriptor. */
  lemma AddFrame(s: State, addr: Addr, accepts: bool)
    requires addr in s.store
    ensures var s' := AddToEpoll(s, addr, accepts);
      && s'.store == s.store[addr := s'.store[addr]] && s'.sockets == s.sockets && s'.next == s.next && s'.shutdown == s.shutdown
      && s'.epoll.Keys <= s.epoll.Keys + {s.store[addr].fd} && s'.rejected <= s.rejected + {addr}
  {
    hide Descriptor.NotifyAll, Descriptor.Audience, Descriptor.Mask;
  }

  lemma TouchFrame(s: State, addr: Addr, d: Descriptor, accepts: bool)
    requires addr in s.store
    ensures var s' := Touch(s, addr, d, accepts);
      && addr in s'.store && s'.store == s.store[addr := s'.store[addr]] && s'.sockets == s.sockets && s'.next == s.next && s'.shutdown == s.shutdown
      && s'.epoll.Keys <= s.epoll.Keys + {d.fd} && s'.rejected <= s.rejected + {addr}
  {
    hide AddToEpoll, Descriptor.Mask;
    var s1 := s.(store := s.store[addr := d]);
    AddFrame(s1, addr, accepts);
    AddFrame(RemoveFromEpoll(s1, addr), addr, accepts);
  }

  /** The heart of the loop: whatever happens to one descriptor, updating its registration restores the invariant. */
  lemma TouchKeepsInv(s: State, addr: Addr, d: Descriptor, accepts: bool)
    requires Inv(s) && Replaces(s, addr, d)
    ensures var s' := Touch(s, addr, d, accepts);
      && Inv(s') && s'.store.Keys == s.store.Keys && s'.sockets == s.sockets
      && (forall a | a in s.store && a != addr :: s'.store[a] == s.store[a] && SameRegistration(s, s', a))
  {
    var s' := Touch(s, addr, d, accepts);
    assert d.fd in s.sockets by { assert Synced(s, addr); }
    TouchFrame(s, addr, d, accepts);
    TouchSelf(s, addr, d, accepts);
    hide Touch, Synced, Descriptor.WellFormed;
    forall a | a in s.store && a != addr
      ensures a in s'.store && s'.store[a] == s.store[a] && Synced(s', a) && SameRegistration(s, s', a)
    {
      TouchOthers(s, addr, d, accepts, a);
    }
  }

  // ----- Messages

  datatype Command =
    | ShutdownRead
    | ShutdownWrite
    | Close(closeSafe: bool)
    | ReturnToken(count: nat)
    | SetEventMask(events: Interest)

  /**
    A message of the interrupt pipe.  For a socket: its file descriptor (-1 once
    closed), the port, the listening flag and the command, with the kernel's
    answer should this message register the descriptor.
   */
  datatype Message =
    | UpdateTimer
    | Shutdown
    | ToSocket(fd: int, port: Port, listening: bool, command: Command, accepts: bool)

  function WithDescriptor(s: State, fd: int, listening: bool): State {
    if fd in s.sockets then s
    else s.(store := s.store[s.next := NewDescriptor(fd, listening)], sockets := s.sockets[fd := s.next], next := s.next + 1)
  }

  function Delete(s: State, addr: Addr): State
    requires addr in s.store
  {
    s.(store := s.store - {addr}, sockets := s.sockets - {s.store[addr].fd})
  }

  /** The descriptor a message is about. */
  function Addressee(s: State, m: Message): Descriptor
    requires m.ToSocket? && (m.fd in s.sockets ==> s.sockets[m.fd] in s.store)
  {
    if m.fd in s.sockets then s.store[s.sockets[m.fd]] else NewDescriptor(m.fd, m.listening)
  }

  /**
    What the Dart side promises.  A socket keeps to one port, unless it listens;
    event masks come with a real port, and a listening socket asks for nothing
    but reads; only a connected socket is shut down; only owed tokens are
    returned; a close names the socket's port unless the port was never set, and
    the registry reports a listening socket safe to close only when no other port
    is left on it.
   */
  ghost predicate Legal(s: State, m: Message)
    requires Inv(s)
  {
    m.ToSocket? && m.fd != -1 ==>
      var d := Addressee(s, m);
      m.fd >= 0 &&
      match m.command
      case ShutdownRead => d.One?
      case ShutdownWrite => d.One?
      case SetEventMask(events) => m.port != 0 && MaskAllowed(d, m.port, events)
      case ReturnToken(count) => ReturnAllowed(d, m.port, count)
      case Close(safe) => CloseAllowed(d, m.port, safe)
  }

  /** The source asserts that a descriptor with one port keeps it, and that a listening one is asked for reads or nothing. */
  predicate MaskAllowed(d: Descriptor, port: Port, events: Interest) {
    if d.One? then d.single.port == 0 || d.single.port == port else events == Interest(true, false) || events == NO_INTEREST
  }

  predicate ReturnAllowed(d: Descriptor, port: Port, count: nat) {
    if d.One? then d.single.port == port && count <= d.owed
    else port in d.ports.accounts && port in d.owedBy && count <= d.owedBy[port]
  }

  ghost predicate CloseAllowed(d: Descriptor, port: Port, safe: bool) {
    && (port == 0 ==> d.Mask() == NO_INTEREST)
    && (d.One? && port != 0 ==> d.single.port == 0 || d.single.port == port)
    && (d.Many? && safe ==> forall p | p in d.ports.accounts :: p == port)
  }

  /** The descriptor after a close by `port`; the null port has nothing to remove. */
  function Closed(d: Descriptor, port: Port): Descriptor {
    if port != 0 then d.RemovePort(port) else d
  }

  /** Removes the socket's port; the descriptor goes too, unless other sockets still listen on it. */
  function CloseSocket(s: State, addr: Addr, port: Port, safe: bool, accepts: bool): State
    requires addr in s.store
  {
    var d := s.store[addr];
    var s' := Touch(s, addr, Closed(d, port), accepts);
    if d.Many? && !safe then s' else Delete(s', addr)
  }

  ghost function HandleMessage(s: State, m: Message): State
    requires Inv(s) && Legal(s, m)
  {
    match m
    case UpdateTimer => s
    case Shutdown => s.(shutdown := true)
    case ToSocket(fd, port, listening, command, accepts) =>
      if fd == -1 then s else
      var s1 := WithDescriptor(s, fd, listening);
      var addr := s1.sockets[fd];
      var d := s1.store[addr];
      match command
      case ShutdownRead => s1
      case ShutdownWrite => s1
      case SetEventMask(events) => Touch(s1, addr, d.SetPortAndMask(port, events), accepts)
      case ReturnToken(count) => Touch(s1, addr, d.ReturnTokens(port, count), accepts)
      case Close(safe) => Posting(CloseSocket(s1, addr, port, safe, accepts), addr, {port}, DESTROYED_EVENT)
  }

  lemma WithDescriptorKeepsInv(s: State, fd: int, listening: bool)
    requires Inv(s)
    ensures var s' := WithDescriptor(s, fd, listening);
      && Inv(s') && fd in s'.sockets && s'.sockets[fd] in s'.store && s'.store[s'.sockets[fd]].fd == fd
  {
    var s' := WithDescriptor(s, fd, listening);
    if fd !in s.sockets {
      forall a | a in s'.store ensures a < s'.next && Synced(s', a) {
        if a != s.next { assert Synced(s, a); }
      }
    }
  }

  /** A descriptor is deleted only after it was unregistered, so nothing keeps pointing to it. */
  lemma DeleteKeepsInv(s: State, addr: Addr)
    requires Inv(s) && addr in s.store && s.store[addr].Mask() == NO_INTEREST
    ensures Inv(Delete(s, addr))
  {
    assert Synced(s, addr);
    var s' := Delete(s, addr);
    forall a | a in s'.store ensures a < s'.next && Synced(s', a) {
      assert Synced(s, a);
    }
  }

  lemma SetPortWellFormed(d: Descriptor, port: Port, events: Interest)
    requires d.WellFormed() && port != 0
    ensures d.SetPortAndMask(port, events).WellFormed()
  {
    if d.Many? { PortTable.OpKeepsInv(d.ports, PortTable.SetMask(port, events == Interest(true, false))); }
  }

  lemma ReturnTokensWellFormed(d: Descriptor, port: Port, count: nat)
    requires d.WellFormed() && ReturnAllowed(d, port, count)
    ensures d.ReturnTokens(port, count).WellFormed()
  {
    if d.Many? { PortTable.OpKeepsInv(d.ports, PortTable.Return(port, count)); }
  }

  /** Closing leaves a well-formed descriptor, and one that asks for nothing when it will be deleted. */
  lemma RemovePortWellFormed(d: Descriptor, port: Port)
    requires d.WellFormed()
    ensures d.RemovePort(port).WellFormed()
    ensures d.One? || (forall p | p in d.ports.accounts :: p == port) ==> d.RemovePort(port).Mask() == NO_INTEREST
  {
    if d.Many? {
      PortTable.OpKeepsInv(d.ports, PortTable.Remove(port));
      var t := PortTable.RemovePort(d.ports, port);
      PortTable.ReadyAreReady(t);
      assert t.ready != [] ==> PortTable.IsReady(t.accounts, t.ready[0]) && t.ready[0] in d.ports.accounts;
    }
  }

  /** The mask of a descriptor that is about to be closed. */
  lemma TouchToNothing(s: State, addr: Addr, d: Descriptor, accepts: bool)
    requires addr in s.store && d.Mask() == NO_INTEREST && d.fd == s.store[addr].fd
    ensures var s' := Touch(s, addr, d, accepts); addr in s'.store && s'.store[addr] == d
  {
  }

  /** A descriptor that is to be deleted has nothing left to ask for, as the source asserts. */
  lemma ClosedFacts(s: State, addr: Addr, port: Port, safe: bool, accepts: bool)
    requires Inv(s) && addr in s.store && CloseAllowed(s.store[addr], port, safe)
    ensures s.store[addr].One? || safe ==> Closed(s.store[addr], port).Mask() == NO_INTEREST
    ensures addr in Touch(s, addr, Closed(s.store[addr], port), accepts).store
  {
    assert Synced(s, addr);
    RemovePortWellFormed(s.store[addr], port);
  }

  lemma CloseKeepsInv(s: State, addr: Addr, port: Port, safe: bool, accepts: bool)
    requires Inv(s) && addr in s.store && CloseAllowed(s.store[addr], port, safe)
    ensures Inv(CloseSocket(s, addr, port, safe, accepts))
  {
    var d := s.store[addr];
    assert Synced(s, addr);
    var d' := Closed(d, port);
    RemovePortWellFormed(d, port);
    TouchKeepsInv(s, addr, d', accepts);
    if !(d.Many? && !safe) {
      TouchToNothing(s, addr, d', accepts);
      DeleteKeepsInv(Touch(s, addr, d', accepts), addr);
    }
  }

  lemma MessageKeepsInv(s: State, m: Message)
    requires Inv(s) && Legal(s, m)
    ensures Inv(HandleMessage(s, m))
  {
    hide Inv, Touch, Descriptor.WellFormed, Synced, Delete, CloseSocket, WithDescriptor, Posting;
    if m.ToSocket? && m.fd != -1 {
      MessageFacts(s, m);
      var s1 := WithDescriptor(s, m.fd, m.listening);
      var addr := s1.sockets[m.fd];
      var d := s1.store[addr];
      match m.command
      case SetEventMask(events) =>
        SetPortWellFormed(d, m.port, events);
        TouchKeepsInv(s1, addr, d.SetPortAndMask(m.port, events), m.accepts);
      case ReturnToken(count) =>
        ReturnTokensWellFormed(d, m.port, count);
        TouchKeepsInv(s1, addr, d.ReturnTokens(m.port, count), m.accepts);
      case Close(safe) =>
        CloseKeepsInv(s1, addr, m.port, safe, m.accepts);
        PostingKeepsInv(CloseSocket(s1, addr, m.port, safe, m.accepts), addr, {m.port}, DESTROYED_EVENT);
      case _ =>
    } else if m.Shutdown? {
      ShutdownKeepsInv(s);
    }
  }

  /** What a message may rely on about the descriptor it is for. */
  lemma MessageFacts(s: State, m: Message)
    requires Inv(s) && m.ToSocket?
    ensures s.next !in s.store && (m.fd in s.sockets ==> s.sockets[m.fd] in s.store && s.store[s.sockets[m.fd]].fd == m.fd)
    ensures var s' := WithDescriptor(s, m.fd, m.listening);
      && Inv(s') && m.fd in s'.sockets && s'.sockets[m.fd] in s'.store
      && s'.store[s'.sockets[m.fd]] == Addressee(s, m) && Addressee(s, m).WellFormed()
  {
    WithDescriptorKeepsInv(s, m.fd, m.listening);
    var s' := WithDescriptor(s, m.fd, m.listening);
    assert Synced(s', s'.sockets[m.fd]);
  }

  lemma ShutdownKeepsInv(s: State)
    requires Inv(s)
    ensures Inv(s.(shutdown := true))
  {
    var s' := s.(shutdown := true);
    forall a | a in s'.store ensures a < s'.next && Synced(s', a) {
      assert Synced(s, a);
    }
  }

  // ----- Events

  /** What epoll reports: EPOLLIN, EPOLLOUT, EPOLLERR and a hang-up (EPOLLHUP or EPOLLRDHUP). */
  datatype Reported = Reported(epollIn: bool, epollOut: bool, error: bool, hangup: bool)

  /** An event of a batch, with the kernel's answer should handling it register the descriptor. */
  datatype Event =
    | Interrupt
    | TimerFired
    | Ready(addr: Addr, reported: Reported, accepts: bool)

  /** The event mask for what epoll reports; an error counts only together with EPOLLIN. */
  function GetPollEvents(r: Reported): Notice {
    if r.error then NOTHING.(errorEvent := r.epollIn)
    else Notice(r.epollIn, r.epollOut, false, r.hangup, false)
  }

  /** An error is broadcast. */
  predicate IsError(r: Reported) {
    GetPollEvents(r).errorEvent
  }

  /** Anything else goes to one port. */
  predicate IsNotification(r: Reported) {
    !IsError(r) && GetPollEvents(r) != NOTHING
  }

  ghost function HandleEvent(s: State, e: Event): State
    requires Inv(s) && (e.Ready? ==> e.addr in s.store)
  {
    if !e.Ready? then s else
    assert Synced(s, e.addr);
    var d := s.store[e.addr];
    var notice := GetPollEvents(e.reported);
    if IsError(e.reported) then Touch(Posting(s, e.addr, d.Audience(), notice), e.addr, d.NotifyAll(), e.accepts)
    else if IsNotification(e.reported) then
      Posting(Touch(s, e.addr, d.NextNotify(), e.accepts), e.addr, {d.NextPort()}, notice)
    else s
  }

  /** Epoll reports input and output only where it was registered for them; errors and hang-ups come unasked. */
  predicate Asked(events: PollEvents, r: Reported) {
    (r.epollIn ==> events.epollIn) && (r.epollOut ==> events.epollOut)
  }

  ghost predicate Reportable(s: State, addr: Addr, r: Reported) {
    Registered(s, addr) && Asked(s.epoll[s.store[addr].fd].events, r)
  }

  /** The descriptors of a batch are registered and appear once each, as `epoll_wait` reports them. */
  ghost predicate BatchOf(s: State, batch: seq<Event>) {
    && (forall i | 0 <= i < |batch| && batch[i].Ready? :: Reportable(s, batch[i].addr, batch[i].reported))
    && (forall i, j | 0 <= i < j < |batch| && batch[i].Ready? && batch[j].Ready? :: batch[i].addr != batch[j].addr)
  }

  lemma NextNotifyWellFormed(d: Descriptor)
    requires d.WellFormed() && d.Mask() != NO_INTEREST
    ensures d.NextNotify().WellFormed() && d.NextNotify().fd == d.fd && d.NextNotify().One? == d.One?
    ensures d.NotifyAll().One? == d.One?
    ensures d.NextPort() != 0
  {
    if d.Many? {
      PortTable.OpKeepsInv(d.ports, PortTable.Next);
      PortTable.ReadyAreReady(d.ports);
      assert PortTable.IsReady(d.ports.accounts, d.ports.ready[0]);
    }
  }

  lemma TouchedBatch(s: State, batch: seq<Event>, d: Descriptor, accepts: bool)
    requires Inv(s) && BatchOf(s, batch) && batch != [] && batch[0].Ready? && Replaces(s, batch[0].addr, d)
    ensures var s' := Touch(s, batch[0].addr, d, accepts); Inv(s') && BatchOf(s', batch[1..])
  {
    hide Inv, Touch, Replaces, Asked;
    TouchKeepsInv(s, batch[0].addr, d, accepts);
    assert Reportable(s, batch[0].addr, batch[0].reported);
  }

  lemma PostingKeepsBatch(s: State, batch: seq<Event>, from: Addr, to: set<Port>, notice: Notice)
    requires BatchOf(s, batch)
    ensures BatchOf(Posting(s, from, to, notice), batch)
  {
    hide Asked;
    var s' := Posting(s, from, to, notice);
    forall i | 0 <= i < |batch| && batch[i].Ready? ensures Reportable(s', batch[i].addr, batch[i].reported) {
      assert Reportable(s, batch[i].addr, batch[i].reported);
    }
  }

  /** Handling an event of a batch keeps the invariant and the registrations of the others. */
  lemma EventKeepsInv(s: State, batch: seq<Event>)
    requires Inv(s) && BatchOf(s, batch) && batch != []
    ensures batch[0].Ready? ==> batch[0].addr in s.store
    ensures Inv(HandleEvent(s, batch[0])) && BatchOf(HandleEvent(s, batch[0]), batch[1..])
  {
    var e := batch[0];
    if e.Ready? {
      ReplacedByEvent(s, batch);
      var d, notice := s.store[e.addr], GetPollEvents(e.reported);
      hide Inv, BatchOf, Touch, Synced, Posting, Replaces, GetPollEvents;
      hide Descriptor.NotifyAll, Descriptor.NextNotify, Descriptor.WellFormed, Descriptor.Audience;
      if IsError(e.reported) {
        PostingKeepsInv(s, e.addr, d.Audience(), notice);
        PostingKeepsBatch(s, batch, e.addr, d.Audience(), notice);
        PostingReplaces(s, e.addr, d.NotifyAll(), d.Audience(), notice);
        TouchedBatch(Posting(s, e.addr, d.Audience(), notice), batch, d.NotifyAll(), e.accepts);
      } else if IsNotification(e.reported) {
        var s' := Touch(s, e.addr, d.NextNotify(), e.accepts);
        TouchedBatch(s, batch, d.NextNotify(), e.accepts);
        PostingKeepsInv(s', e.addr, {d.NextPort()}, notice);
        PostingKeepsBatch(s', batch[1..], e.addr, {d.NextPort()}, notice);
      } else {
        BatchTail(s, batch);
      }
    } else {
      BatchTail(s, batch);
    }
  }

  lemma PostingReplaces(s: State, addr: Addr, d: Descriptor, to: set<Port>, notice: Notice)
    requires Replaces(s, addr, d)
    ensures Replaces(Posting(s, addr, to, notice), addr, d)
  {
    hide Descriptor.WellFormed;
  }

  /** What an event turns its descriptor into may take its place. */
  lemma ReplacedByEvent(s: State, batch: seq<Event>)
    requires Inv(s) && BatchOf(s, batch) && batch != [] && batch[0].Ready?
    ensures var a := batch[0].addr;
      && a in s.store && s.store[a].CanNotify() && Synced(s, a) && s.store[a].Mask() != NO_INTEREST
      && Replaces(s, a, s.store[a].NotifyAll()) && Replaces(s, a, s.store[a].NextNotify())
  {
    var a := batch[0].addr;
    assert Reportable(s, a, batch[0].reported);
    assert Synced(s, a);
    NotifyAllWellFormed(s.store[a]);
    NextNotifyWellFormed(s.store[a]);
  }

  lemma BatchTail(s: State, batch: seq<Event>)
    requires BatchOf(s, batch) && batch != []
    ensures BatchOf(s, batch[1..])
  {
    hide Asked;
  }

  /** What handling an event relies on: its descriptor is live and has a port to notify. */
  lemma EventFacts(s: State, batch: seq<Event>)
    requires Inv(s) && BatchOf(s, batch) && batch != []
    ensures batch[0].Ready? ==>
      var d := s.store[batch[0].addr]; batch[0].addr in s.store && d.CanNotify() && d.NextPort() != 0
  {
    if batch[0].Ready? {
      assert Reportable(s, batch[0].addr, batch[0].reported) && Synced(s, batch[0].addr);
      NextNotifyWellFormed(s.store[batch[0].addr]);
    }
  }

  // ----- Runs

  ghost function HandleBatch(s: State, batch: seq<Event>): (s': State)
    requires Inv(s) && BatchOf(s, batch)
    ensures Inv(s')
    decreases |batch|
  {
    if batch == [] then s else EventKeepsInv(s, batch); HandleBatch(HandleEvent(s, batch[0]), batch[1..])
  }

  ghost predicate LegalMessages(s: State, messages: seq<Message>)
    requires Inv(s)
    decreases |messages|
  {
    messages != [] ==>
      (Legal(s, messages[0]) && (MessageKeepsInv(s, messages[0]); LegalMessages(HandleMessage(s, messages[0]), messages[1..])))
  }

  ghost function HandleMessages(s: State, messages: seq<Message>): (s': State)
    requires Inv(s) && LegalMessages(s, messages)
    ensures Inv(s')
    decreases |messages|
  {
    if messages == [] then s else
    MessageKeepsInv(s, messages[0]);
    HandleMessages(HandleMessage(s, messages[0]), messages[1..])
  }

  /** One return of `epoll_wait`, and the messages waiting in the pipe. */
  datatype Poll = Poll(batch: seq<Event>, messages: seq<Message>)

  ghost predicate LegalPoll(s: State, p: Poll)
    requires Inv(s)
  {
    BatchOf(s, p.batch) && (Interrupt in p.batch ==> LegalMessages(HandleBatch(s, p.batch), p.messages))
  }

  /** Messages are handled after all events of the batch, and only if the pipe was reported. */
  ghost function HandlePoll(s: State, p: Poll): (s': State)
    requires Inv(s) && LegalPoll(s, p)
    ensures Inv(s')
  {
    var s1 := HandleBatch(s, p.batch);
    if Interrupt in p.batch then HandleMessages(s1, p.messages) else s1
  }

  ghost predicate LegalRun(s: State, run: seq<Poll>)
    requires Inv(s)
    decreases |run|
  {
    run != [] ==> (LegalPoll(s, run[0]) && LegalRun(HandlePoll(s, run[0]), run[1..]))
  }

  ghost function Run(s: State, run: seq<Poll>): State
    requires Inv(s) && LegalRun(s, run)
    decreases |run|
  {
    if run == [] then s else Run(HandlePoll(s, run[0]), run[1..])
  }

  /** Every run keeps epoll, store and socket map consistent. */
  lemma {:induction false} RunKeepsInv(s: State, run: seq<Poll>)
    requires Inv(s) && LegalRun(s, run)
    ensures Inv(Run(s, run))
    decreases |run|
  {
    hide Inv, HandlePoll, LegalPoll;
    if run != [] {
      RunKeepsInv(HandlePoll(s, run[0]), run[1..]);
    }
  }

  /** The ports that an event is sent to. */
  function EventPorts(s: State, e: Event): seq<Port>
    requires e.Ready? ==> e.addr in s.store
  {
    if e.Ready? && IsNotification(e.reported) then [s.store[e.addr].NextPort()] else []
  }

  /** The ports that the events of a batch are sent to. */
  ghost function BatchPorts(s: State, batch: seq<Event>): seq<Port>
    requires Inv(s) && BatchOf(s, batch)
    decreases |batch|
  {
    if batch == [] then [] else
    EventKeepsInv(s, batch);
    EventPorts(s, batch[0]) + BatchPorts(HandleEvent(s, batch[0]), batch[1..])
  }

  /** Handling a batch is handling its first event, and then the rest. */
  lemma BatchStep(s: State, batch: seq<Event>)
    requires Inv(s) && BatchOf(s, batch) && batch != []
    ensures var s' := HandleEvent(s, batch[0]);
      && Inv(s') && BatchOf(s', batch[1..])
      && HandleBatch(s, batch) == HandleBatch(s', batch[1..])
      && BatchPorts(s, batch) == EventPorts(s, batch[0]) + BatchPorts(s', batch[1..])
  {
    hide Inv, HandleEvent;
    EventKeepsInv(s, batch);
  }

  lemma BatchEnd(s: State)
    requires Inv(s) && BatchOf(s, [])
    ensures HandleBatch(s, []) == s && BatchPorts(s, []) == []
  {
  }

  // ----- What holds in every run

  /**
    Epoll mirrors the masks.  A descriptor is registered exactly when it wants
    events and its last registration was not refused, and it is registered for
    exactly the events it wants.
   */
  lemma EpollMirrorsMasks(run: seq<Poll>)
    requires LegalRun(INITIAL, run)
    ensures var s := Run(INITIAL, run);
      forall a | a in s.store ::
        && var d := s.store[a];
        && (d.fd in s.epoll <==> d.Mask() != NO_INTEREST && a !in s.rejected)
        && (d.fd in s.epoll ==> s.epoll[d.fd] == Registration(a, EventsFor(d)))
  {
    RunKeepsInv(INITIAL, run);
    var s := Run(INITIAL, run);
    assert forall a | a in s.store :: Synced(s, a);
  }

  /** Every pointer in the epoll set is a live descriptor, the one its file descriptor maps to. */
  lemma NoDanglingPointers(run: seq<Poll>)
    requires LegalRun(INITIAL, run)
    ensures var s := Run(INITIAL, run);
      forall fd | fd in s.epoll ::
        && var a := s.epoll[fd].addr;
        && a in s.store && s.store[a].fd == fd && fd in s.sockets && s.sockets[fd] == a
  {
    RunKeepsInv(INITIAL, run);
    var s := Run(INITIAL, run);
    forall fd | fd in s.epoll
      ensures var a := s.epoll[fd].addr; a in s.store && s.store[a].fd == fd && fd in s.sockets && s.sockets[fd] == a
    {
      assert Synced(s, s.sockets[fd]);
    }
  }

  /** Live descriptors and the socket map are in one-to-one correspondence, so none is leaked. */
  lemma NoLeaks(run: seq<Poll>)
    requires LegalRun(INITIAL, run)
    ensures var s := Run(INITIAL, run);
      && (forall a | a in s.store :: s.store[a].fd in s.sockets && s.sockets[s.store[a].fd] == a)
      && (forall fd | fd in s.sockets :: s.sockets[fd] in s.store && s.store[s.sockets[fd]].fd == fd)
  {
    RunKeepsInv(INITIAL, run);
    var s := Run(INITIAL, run);
    assert forall a | a in s.store :: Synced(s, a);
  }

  /**
    Token counts stay within budget and account for every notification: between 0
    and 16 for a single port, and at most 4 for a port of a listening descriptor.
   */
  lemma TokensInRange(run: seq<Poll>)
    requires LegalRun(INITIAL, run)
    ensures var s := Run(INITIAL, run);
      forall a | a in s.store ::
        var d := s.store[a];
        if d.One? then 0 <= d.single.tokens <= TOKEN_COUNT && TOKEN_COUNT - d.single.tokens == d.owed
        else d.owedBy.Keys == d.ports.accounts.Keys && forall p | p in d.ports.accounts ::
          var tokens := d.ports.accounts[p].tokens;
          tokens <= PortTable.TOKEN_COUNT && PortTable.TOKEN_COUNT - tokens == d.owedBy[p]
  {
    RunKeepsInv(INITIAL, run);
    var s := Run(INITIAL, run);
    assert forall a | a in s.store :: Synced(s, a);
  }

  // ----- The event of a listening descriptor

  /** An event that is input alone, as the source asserts before it picks a port of a listening descriptor. */
  predicate OnlyInput(n: Notice) {
    n == NOTHING.(inEvent := true)
  }

  /** The assertion holds for an event of a listening descriptor exactly when no hang-up is reported. */
  lemma OnlyInputExactly(s: State, batch: seq<Event>, i: nat)
    requires Inv(s) && BatchOf(s, batch) && i < |batch| && batch[i].Ready?
    requires s.store[batch[i].addr].Many? && IsNotification(batch[i].reported)
    ensures OnlyInput(GetPollEvents(batch[i].reported)) <==> !batch[i].reported.hangup
  {
    assert Reportable(s, batch[i].addr, batch[i].reported);
    assert Synced(s, batch[i].addr);
  }

  /** The message that registers a listening socket, and the event that breaks the assertion. */
  const LISTEN: Poll := Poll([Interrupt], [ToSocket(3, 7, true, SetEventMask(Interest(true, false)), true)])
  const HANGUP: Event := Ready(0, Reported(true, false, false, true), true)

  /** A legal run leads to an event for a listening descriptor that is not input alone. */
  lemma HangupReported()
    ensures Inv(INITIAL) && LegalRun(INITIAL, [LISTEN])
    ensures var s := Run(INITIAL, [LISTEN]);
      && Inv(s) && BatchOf(s, [HANGUP]) && 0 in s.store && s.store[0].Many?
      && IsNotification(HANGUP.reported) && !OnlyInput(GetPollEvents(HANGUP.reported))
  {
    Listening();
    assert [LISTEN][1..] == [];
    RunKeepsInv(INITIAL, [LISTEN]);
    hide Inv, HandlePoll, LegalPoll;
    assert LegalRun(HandlePoll(INITIAL, LISTEN), []);
    assert Run(INITIAL, [LISTEN]) == HandlePoll(INITIAL, LISTEN);
  }

  lemma ListenHandled()
    ensures var m := LISTEN.messages[0];
      && Inv(INITIAL) && Legal(INITIAL, m)
      && var s := HandleMessage(INITIAL, m);
         Registered(s, 0) && s.store[0].Many? && s.store[0].Mask() == Interest(true, false)
  {
    MessageKeepsInv(INITIAL, LISTEN.messages[0]);
  }

  lemma Listening()
    ensures Inv(INITIAL) && LegalPoll(INITIAL, LISTEN)
    ensures var s := HandlePoll(INITIAL, LISTEN);
      Registered(s, 0) && s.store[0].Many? && s.store[0].Mask() == Interest(true, false)
  {
    ListenHandled();
    hide HandleMessage, Legal, Registered, Inv, Descriptor.Mask, HandleEvent;
    var m := LISTEN.messages[0];
    var s0 := INITIAL;
    assert LISTEN.batch[1..] == [] && LISTEN.batch[0] == Interrupt && Interrupt in LISTEN.batch;
    ListenBatch();
    MessageKeepsInv(s0, m);
    assert LISTEN.messages[1..] == [];
    var s1 := HandleMessage(s0, m);
    assert LegalMessages(s1, []);
    assert HandleMessages(s0, LISTEN.messages) == HandleMessages(s1, []) == s1;
  }

  lemma ListenBatch()
    ensures Inv(INITIAL) && BatchOf(INITIAL, LISTEN.batch) && HandleBatch(INITIAL, LISTEN.batch) == INITIAL
  {
    assert LISTEN.batch[1..] == [] && LISTEN.batch[0] == Interrupt;
    BatchStep(INITIAL, LISTEN.batch);
    BatchEnd(INITIAL);
  }

  lemma {:induction false} BatchPortsAreReal(s: State, batch: seq<Event>)
    requires Inv(s) && BatchOf(s, batch)
    ensures forall i | 0 <= i < |BatchPorts(s, batch)| :: BatchPorts(s, batch)[i] != 0
    decreases |batch|
  {
    if batch != [] {
      EventKeepsInv(s, batch);
      BatchPortsAreReal(HandleEvent(s, batch[0]), batch[1..]);
      if batch[0].Ready? {
        assert Reportable(s, batch[0].addr, batch[0].reported) && Synced(s, batch[0].addr);
        NextNotifyWellFormed(s.store[batch[0].addr]);
      }
    }
  }
}
