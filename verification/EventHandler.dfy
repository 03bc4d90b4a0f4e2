/**
  The Linux event handler as an object.  It owns the descriptor objects, each with
  heap objects of its own that no other descriptor reaches, and every method
  refines the step of the same name in `LinuxLoop` over what those objects hold.
 */
module EventHandler {
  import opened SingleDescriptor
  import opened LinuxLoop
  import opened DescriptorInfo
  import opened LinuxHistory

  class EventHandlerImplementation {
    var objects: map<Addr, DescriptorInfo>
    var next: Addr
    var sockets: map<int, Addr>
    var epoll: map<int, Registration>
    var shutdown: bool
    /** What has been sent. */
    var posted: seq<Sending>
    ghost var rejected: set<Addr>

    ghost function Footprint(): set<object>
      reads `objects, objects.Values
    {
      set a, o | a in objects && o in objects[a].repr :: o
    }

    /** Every descriptor is in order, and no two descriptors have an object in common. */
    ghost predicate Valid()
      reads `objects, objects.Values, Footprint()
    {
      && (forall a | a in objects :: objects[a].Valid() && this !in objects[a].repr)
      && (forall a, b | a in objects && b in objects && a != b :: objects[a].repr !! objects[b].repr)
    }

    ghost function Store(): map<Addr, Descriptor>
      requires Valid()
      reads `objects, objects.Values, Footprint()
    {
      map a | a in objects :: objects[a].View()
    }

    ghost function View(): State
      requires Valid()
      reads this, objects.Values, Footprint()
    {
      State(Store(), next, sockets, epoll, rejected, shutdown, posted)
    }

    constructor ()
      ensures Valid() && View() == INITIAL && Inv(View())
    {
      objects, next, sockets, epoll, shutdown, posted, rejected := map[], 0, map[], map[], false, [], {};
    }

    twostate lemma OwnedBefore(a: Addr)
      requires a in old(objects)
      ensures forall o | o in old(objects[a].repr) :: o in old(Footprint())
    {
      forall o | o in old(objects[a].repr) ensures o in old(Footprint()) {
        assert old(a in objects && o in objects[a].repr);
      }
    }

    /** A change to the objects of one descriptor leaves all others as they are. */
    twostate lemma Framed(addr: Addr)
      requires old(Valid()) && objects == old(objects) && addr in objects
      requires forall o | o in old(Footprint()) && o !in old(objects[addr].repr) :: unchanged(o)
      requires this !in old(objects[addr].repr)
      requires objects[addr].Valid() && fresh(objects[addr].repr - old(objects[addr].repr))
      ensures Valid() && Store() == old(Store())[addr := objects[addr].View()]
      ensures forall o | o in Footprint() :: o in old(Footprint()) || fresh(o)
    {
      hide DescriptorInfo.Valid, DescriptorInfo.View;
      forall a | a in objects && a != addr
        ensures objects[a].Valid() && objects[a].repr == old(objects[a].repr) && objects[a].View() == old(objects[a].View())
        ensures objects[a].repr !! objects[addr].repr
      {
        assert old(objects[a].Valid()) && old(objects[a].repr !! objects[addr].repr);
        OwnedBefore(a);
        assert forall o | o in old(objects[a].repr) :: unchanged(o);
      }
    }

    lemma Apart()
      requires Valid()
      ensures this !in Footprint()
    {
    }

    lemma At(addr: Addr)
      requires Valid() && addr in objects
      ensures objects[addr].Valid() && this !in Footprint() && objects[addr].repr <= Footprint()
      ensures addr in Store() && Store()[addr] == objects[addr].View()
      ensures objects[addr].fd == Store()[addr].fd && objects[addr].IsListeningSocket() == Store()[addr].Many?
      ensures objects[addr].Mask() == Store()[addr].Mask()
    {
    }

    method RemoveFromEpollInstance(addr: Addr)
      requires Valid() && addr in objects
      modifies this`epoll
      ensures Valid() && View() == RemoveFromEpoll(old(View()), addr)
    {
      hide Valid, Store;
      At(addr);
      epoll := epoll - {objects[addr].fd};
    }

    /** Broadcasts an event to the ports of a descriptor. */
    method NotifyAll(addr: Addr) returns (sent: set<Port>)
      requires Valid() && addr in objects
      modifies objects[addr].repr
      ensures Valid() && forall o | o in Footprint() :: o in old(Footprint()) || fresh(o)
      ensures addr in old(Store()) && Store() == old(Store())[addr := old(Store())[addr].NotifyAll()]
      ensures sent == old(Store())[addr].Audience() && fresh(objects[addr].repr - old(objects[addr].repr))
    {
      hide Valid, Store, Descriptor.NotifyAll, Descriptor.Audience;
      At(addr);
      sent := objects[addr].NotifyAllDartPorts();
      Framed(addr);
    }

    /** A refused registration is reported to the Dart side as a close event. */
    method Refused(addr: Addr)
      requires Valid() && addr in objects
      modifies this`rejected, this`posted, objects[addr].repr
      ensures Valid() && forall o | o in Footprint() :: o in old(Footprint()) || fresh(o)
      ensures addr in old(Store()) && Store() == old(Store())[addr := old(Store())[addr].NotifyAll()]
      ensures posted == old(posted) + [Sending(addr, old(Store())[addr].Audience(), CLOSE_EVENT)] && rejected == old(rejected) + {addr}
    {
      hide Valid, Store, DescriptorInfo.Valid, DescriptorInfo.View, Descriptor.NotifyAll, Descriptor.Audience, Footprint;
      At(addr);
      var sent := NotifyAll(addr);
      posted := posted + [Sending(addr, sent, CLOSE_EVENT)];
      rejected := rejected + {addr};
    }

    method AddToEpollInstance(addr: Addr, accepts: bool)
      requires Valid() && addr in objects
      modifies this`epoll, this`rejected, this`posted, objects[addr].repr
      ensures Valid() && forall o | o in Footprint() :: o in old(Footprint()) || fresh(o)
      ensures View() == AddToEpoll(old(View()), addr, accepts)
    {
      hide Valid, Store, Footprint, DescriptorInfo.Valid, DescriptorInfo.View;
      hide Descriptor.NotifyAll, Descriptor.Mask, Descriptor.Audience;
      At(addr);
      var fd := objects[addr].fd;
      if accepts && fd !in epoll {
        epoll := epoll[fd := Registration(addr, objects[addr].PollEventsOf())];
        rejected := rejected - {addr};
      } else {
        Refused(addr);
      }
    }

    /** Re-registers a descriptor only when its mask changed. */
    method UpdateEpollInstance(oldMask: Interest, addr: Addr, accepts: bool)
      requires Valid() && addr in objects
      requires Store()[addr].Many? ==> !oldMask.write
      modifies this`epoll, this`rejected, this`posted, objects[addr].repr
      ensures Valid() && forall o | o in Footprint() :: o in old(Footprint()) || fresh(o)
      ensures View() == UpdateEpoll(old(View()), oldMask, addr, accepts)
    {
      hide Valid, Store, DescriptorInfo.Valid, DescriptorInfo.View, AddToEpoll, RemoveFromEpoll;
      At(addr);
      var newMask := objects[addr].Mask();
      if oldMask != NO_INTEREST && newMask == NO_INTEREST {
        RemoveFromEpollInstance(addr);
      } else if oldMask == NO_INTEREST && newMask != NO_INTEREST {
        AddToEpollInstance(addr, accepts);
      } else if oldMask != NO_INTEREST && newMask != NO_INTEREST && oldMask != newMask {
        assert !objects[addr].IsListeningSocket();
        RemoveFromEpollInstance(addr);
        AddToEpollInstance(addr, accepts);
      }
    }

    method GetDescriptorInfo(fd: int, listening: bool) returns (addr: Addr)
      requires Valid() && fd >= 0 && next !in objects
      requires fd in sockets ==> sockets[fd] in objects && Store()[sockets[fd]].fd == fd
      modifies this
      ensures Valid() && forall o | o in Footprint() :: o in old(Footprint()) || fresh(o)
      ensures View() == WithDescriptor(old(View()), fd, listening)
      ensures fd in sockets && addr == sockets[fd] && addr in objects
    {
      hide Valid, Store, DescriptorInfo.Valid, DescriptorInfo.View, Footprint;
      if fd !in sockets {
        Insert(next, fd, listening);
        sockets := sockets[fd := next];
        next := next + 1;
      }
      addr := sockets[fd];
      At(addr);
      assert fd == objects[addr].fd;
    }

    /** Creates a descriptor object, with nothing in common with the others. */
    method Insert(addr: Addr, fd: int, listening: bool)
      requires Valid() && addr !in objects
      modifies this`objects
      ensures Valid() && this !in Footprint() && forall o | o in Footprint() :: o in old(Footprint()) || fresh(o)
      ensures addr in objects && Store() == old(Store())[addr := NewDescriptor(fd, listening)]
      ensures objects.Keys == old(objects).Keys + {addr}
    {
      hide Valid, Store, DescriptorInfo.Valid, DescriptorInfo.View;
      Apart();
      var di := new DescriptorInfo(fd, listening);
      objects := objects[addr := di];
      Inserted(addr, di);
    }

    twostate lemma Inserted(addr: Addr, new di: DescriptorInfo)
      requires old(Valid()) && addr !in old(objects) && objects == old(objects)[addr := di]
      requires forall o | o in old(Footprint()) :: unchanged(o)
      requires di.Valid() && fresh(di.repr) && this !in di.repr
      ensures Valid() && this !in Footprint() && Store() == old(Store())[addr := di.View()]
      ensures forall o | o in Footprint() :: o in old(Footprint()) || fresh(o)
    {
      hide DescriptorInfo.Valid, DescriptorInfo.View;
      forall a | a in old(objects)
        ensures objects[a].Valid() && objects[a].repr == old(objects[a].repr) && objects[a].View() == old(objects[a].View())
        ensures this !in objects[a].repr && objects[a].repr !! di.repr
      {
        assert old(objects[a].Valid()) && old(this !in objects[a].repr);
        OwnedBefore(a);
        assert forall o | o in old(objects[a].repr) :: unchanged(o);
      }
    }

    /** Sets a descriptor's port and mask and updates its registration. */
    method SetPortAndMask(addr: Addr, port: Port, events: Interest, accepts: bool)
      requires Valid() && addr in objects && MaskAllowed(Store()[addr], port, events)
      modifies this`epoll, this`rejected, this`posted, objects[addr].repr
      ensures Valid() && forall o | o in Footprint() :: o in old(Footprint()) || fresh(o)
      ensures View() == Touch(old(View()), addr, old(Store())[addr].SetPortAndMask(port, events), accepts)
    {
      hide Valid, Store, DescriptorInfo.Valid, DescriptorInfo.View, UpdateEpoll;
      At(addr);
      var oldMask := objects[addr].Mask();
      objects[addr].SetPortAndMask(port, events);
      Framed(addr);
      UpdateEpollInstance(oldMask, addr, accepts);
    }

    method ReturnTokens(addr: Addr, port: Port, count: nat, accepts: bool)
      requires Valid() && addr in objects && Store()[addr].WellFormed() && ReturnAllowed(Store()[addr], port, count)
      modifies this`epoll, this`rejected, this`posted, objects[addr].repr
      ensures Valid() && forall o | o in Footprint() :: o in old(Footprint()) || fresh(o)
      ensures View() == Touch(old(View()), addr, old(Store())[addr].ReturnTokens(port, count), accepts)
    {
      hide Valid, Store, DescriptorInfo.Valid, DescriptorInfo.View, UpdateEpoll;
      At(addr);
      var oldMask := objects[addr].Mask();
      objects[addr].ReturnTokens(port, count);
      Framed(addr);
      UpdateEpollInstance(oldMask, addr, accepts);
    }

    /** Takes a port off a descriptor, unless it is the null port, and updates its registration. */
    method RemovePort(addr: Addr, port: Port, accepts: bool) returns (newMask: Interest)
      requires Valid() && addr in objects
      requires Store()[addr].One? && port != 0 ==> Store()[addr].single.port == 0 || Store()[addr].single.port == port
      modifies this`epoll, this`rejected, this`posted, objects[addr].repr
      ensures Valid() && forall o | o in Footprint() :: o in old(Footprint()) || fresh(o)
      ensures View() == Touch(old(View()), addr, Closed(old(Store())[addr], port), accepts)
      ensures newMask == Closed(old(Store())[addr], port).Mask()
    {
      hide Valid, Store, DescriptorInfo.Valid, UpdateEpoll;
      At(addr);
      var oldMask := objects[addr].Mask();
      if port != 0 {
        objects[addr].RemovePort(port);
        Framed(addr);
      }
      assert Store() == old(Store())[addr := Closed(old(Store())[addr], port)];
      newMask := objects[addr].Mask();
      UpdateEpollInstance(oldMask, addr, accepts);
    }

    /** The descriptor object goes, with all it owns. */
    method Erase(addr: Addr)
      requires Valid() && addr in objects
      modifies this`objects, objects[addr].repr
      ensures Valid() && Footprint() <= old(Footprint()) && Store() == old(Store()) - {addr}
      ensures this !in Footprint()
    {
      hide Valid, Store, DescriptorInfo.Valid, DescriptorInfo.View;
      At(addr);
      var _ := objects[addr].Destroy();
      objects := objects - {addr};
      Deleted(addr);
    }

    method DeleteDescriptor(addr: Addr)
      requires Valid() && addr in objects
      modifies this`objects, this`sockets, objects[addr].repr
      ensures Valid() && Footprint() <= old(Footprint())
      ensures addr in old(Store()) && View() == LinuxLoop.Delete(old(View()), addr)
    {
      hide Valid, Store, DescriptorInfo.Valid, DescriptorInfo.View, Footprint;
      At(addr);
      var fd := objects[addr].fd;
      Erase(addr);
      sockets := sockets - {fd};
    }

    twostate lemma Deleted(addr: Addr)
      requires old(Valid()) && addr in old(objects) && objects == old(objects) - {addr}
      requires forall o | o in old(Footprint()) && o !in old(objects[addr].repr) :: unchanged(o)
      ensures Valid() && this !in Footprint() && Store() == old(Store()) - {addr} && Footprint() <= old(Footprint())
    {
      hide DescriptorInfo.Valid, DescriptorInfo.View;
      forall a | a in objects
        ensures objects[a].Valid() && objects[a].repr == old(objects[a].repr) && objects[a].View() == old(objects[a].View())
      {
        assert old(objects[a].Valid()) && old(objects[a].repr !! objects[addr].repr);
        OwnedBefore(a);
        assert forall o | o in old(objects[a].repr) :: unchanged(o);
      }
    }

    /** Closes a socket; its descriptor is deleted unless other sockets still listen on it. */
    method CloseSocket(addr: Addr, port: Port, closeSafe: bool, accepts: bool)
      requires Valid() && Inv(View()) && addr in objects && CloseAllowed(Store()[addr], port, closeSafe)
      modifies this`epoll, this`rejected, this`posted, this`objects, this`sockets, Footprint()
      ensures Valid() && forall o | o in Footprint() :: o in old(Footprint()) || fresh(o)
      ensures View() == LinuxLoop.CloseSocket(old(View()), addr, port, closeSafe, accepts)
    {
      hide Valid, Store, DescriptorInfo.Valid, DescriptorInfo.View, Inv, Touch, LinuxLoop.Delete, Descriptor.RemovePort;
      At(addr);
      ghost var d := Store()[addr];
      var listening := objects[addr].IsListeningSocket();
      ClosedFacts(View(), addr, port, closeSafe, accepts);
      var newMask := RemovePort(addr, port, accepts);
      if !listening || closeSafe {
        assert newMask == NO_INTEREST;
        At(addr);
        DeleteDescriptor(addr);
      }
    }

    /** Closes a socket and tells the port that asked for it. */
    method CloseAndTell(addr: Addr, port: Port, closeSafe: bool, accepts: bool)
      requires Valid() && Inv(View()) && addr in objects && CloseAllowed(Store()[addr], port, closeSafe)
      modifies this`epoll, this`rejected, this`posted, this`objects, this`sockets, Footprint()
      ensures Valid() && forall o | o in Footprint() :: o in old(Footprint()) || fresh(o)
      ensures View() == Posting(LinuxLoop.CloseSocket(old(View()), addr, port, closeSafe, accepts), addr, {port}, DESTROYED_EVENT)
    {
      hide Valid, Store, Footprint, Inv, LinuxLoop.CloseSocket, Descriptor.RemovePort;
      CloseSocket(addr, port, closeSafe, accepts);
      Apart();
      posted := posted + [Sending(addr, {port}, DESTROYED_EVENT)];
    }

    /** One message of the interrupt pipe. */
    method HandleMessage(m: Message)
      requires Valid() && Inv(View()) && Legal(View(), m)
      modifies this, Footprint()
      ensures Valid() && forall o | o in Footprint() :: o in old(Footprint()) || fresh(o)
      ensures View() == LinuxLoop.HandleMessage(old(View()), m) && Inv(View())
    {
      hide Valid, Store, Footprint, DescriptorInfo.Valid, DescriptorInfo.View;
      hide Touch, Inv, Synced, LinuxLoop.CloseSocket, WithDescriptor, Posting;
      MessageKeepsInv(View(), m);
      match m
      case UpdateTimer =>
      case Shutdown =>
        Apart();
        shutdown := true;
      case ToSocket(fd, port, listening, command, accepts) =>
        if fd == -1 {
          return;
        }
        MessageFacts(View(), m);
        Domain();
        var addr := GetDescriptorInfo(fd, listening);
        At(addr);
        match command
        case ShutdownRead =>
          assert !objects[addr].IsListeningSocket();
        case ShutdownWrite =>
          assert !objects[addr].IsListeningSocket();
        case Close(closeSafe) =>
          CloseAndTell(addr, port, closeSafe, accepts);
        case ReturnToken(count) =>
          ReturnTokens(addr, port, count, accepts);
        case SetEventMask(events) =>
          SetPortAndMask(addr, port, events, accepts);
    }

    lemma Domain()
      requires Valid()
      ensures View().store.Keys == objects.Keys
    {
    }

    method HandleInterruptFd(messages: seq<Message>)
      requires Valid() && Inv(View()) && LegalMessages(View(), messages)
      modifies this, Footprint()
      ensures Valid() && forall o | o in Footprint() :: o in old(Footprint()) || fresh(o)
      ensures Inv(View()) && View() == HandleMessages(old(View()), messages)
    {
      hide Valid, Store, Footprint, Inv;
      var i := 0;
      assert messages[0..] == messages;
      while i < |messages|
        invariant 0 <= i <= |messages| && Valid() && Inv(View()) && LegalMessages(View(), messages[i..])
        invariant HandleMessages(View(), messages[i..]) == HandleMessages(old(View()), messages)
        invariant forall o | o in Footprint() :: o in old(Footprint()) || fresh(o)
      {
        assert messages[i..][1..] == messages[i + 1..];
        HandleMessage(messages[i]);
        i := i + 1;
      }
    }

    /** Broadcasts an event to a descriptor's ports and updates its registration. */
    method Broadcast(addr: Addr, notice: Notice, accepts: bool)
      requires Valid() && addr in objects
      modifies this`epoll, this`rejected, this`posted, objects[addr].repr
      ensures Valid() && forall o | o in Footprint() :: o in old(Footprint()) || fresh(o)
      ensures addr in old(Store()) && var d := old(Store())[addr];
        View() == Touch(Posting(old(View()), addr, d.Audience(), notice), addr, d.NotifyAll(), accepts)
    {
      hide Valid, Store, DescriptorInfo.Valid, DescriptorInfo.View, UpdateEpoll, Descriptor.NotifyAll, Descriptor.Audience, Footprint;
      At(addr);
      var oldMask := objects[addr].Mask();
      var sent := NotifyAll(addr);
      At(addr);
      posted := posted + [Sending(addr, sent, notice)];
      UpdateEpollInstance(oldMask, addr, accepts);
    }

    /** Picks the port to notify and updates the registration. */
    method Notify(addr: Addr, accepts: bool) returns (port: Port)
      requires Valid() && addr in objects && Store()[addr].CanNotify() && Store()[addr].NextPort() != 0
      modifies this`epoll, this`rejected, this`posted, objects[addr].repr
      ensures Valid() && forall o | o in Footprint() :: o in old(Footprint()) || fresh(o)
      ensures View() == Touch(old(View()), addr, old(Store())[addr].NextNotify(), accepts)
      ensures port == old(Store())[addr].NextPort()
    {
      hide Valid, Store, DescriptorInfo.Valid, DescriptorInfo.View, UpdateEpoll, Descriptor.CanNotify;
      At(addr);
      var oldMask := objects[addr].Mask();
      port := objects[addr].NextNotifyDartPort();
      assert port != 0;
      Framed(addr);
      UpdateEpollInstance(oldMask, addr, accepts);
    }

    /** One reported event; the ports it was sent to. */
    method HandleEvent(ghost batch: seq<Event>, e: Event) returns (ports: seq<Port>)
      requires Valid() && Inv(View()) && BatchOf(View(), batch) && batch != [] && e == batch[0]
      modifies this, Footprint()
      ensures Valid() && forall o | o in Footprint() :: o in old(Footprint()) || fresh(o)
      ensures View() == LinuxLoop.HandleEvent(old(View()), e)
      ensures Inv(View()) && BatchOf(View(), batch[1..])
      ensures ports == old(EventPorts(View(), e)) && 0 !in ports
    {
      hide Valid, Store, Footprint, DescriptorInfo.Valid, DescriptorInfo.View, Touch, Inv, BatchOf;
      EventKeepsInv(View(), batch);
      EventFacts(View(), batch);
      Domain();
      ports := [];
      if e.Ready? {
        At(e.addr);
        var eventMask := GetPollEvents(e.reported);
        if eventMask.errorEvent {
          Broadcast(e.addr, eventMask, e.accepts);
        } else if eventMask != NOTHING {
          var port := Notify(e.addr, e.accepts);
          Apart();
          posted := posted + [Sending(e.addr, {port}, eventMask)];
          ports := [port];
        }
      }
    }

    /** All events of a batch, and then the messages, if the interrupt pipe was among the events. */
    method HandleEvents(batch: seq<Event>, messages: seq<Message>) returns (ports: seq<Port>)
      requires Valid() && Inv(View()) && LegalPoll(View(), Poll(batch, messages))
      modifies this, Footprint()
      ensures Valid() && forall o | o in Footprint() :: o in old(Footprint()) || fresh(o)
      ensures Inv(View()) && View() == HandlePoll(old(View()), Poll(batch, messages))
      ensures ports == BatchPorts(old(View()), batch) && 0 !in ports
    {
      hide Valid, Store, Footprint, Inv, LinuxLoop.HandleEvent, BatchOf, HandleBatch, BatchPorts, EventPorts;
      var interruptSeen := false;
      ports := [];
      var i := 0;
      assert batch[0..] == batch;
      while i < |batch|
        invariant 0 <= i <= |batch| && Valid() && Inv(View()) && BatchOf(View(), batch[i..])
        invariant interruptSeen <==> Interrupt in batch[..i]
        invariant HandleBatch(View(), batch[i..]) == HandleBatch(old(View()), batch)
        invariant ports + BatchPorts(View(), batch[i..]) == BatchPorts(old(View()), batch) && 0 !in ports
        invariant forall o | o in Footprint() :: o in old(Footprint()) || fresh(o)
      {
        assert batch[i..][1..] == batch[i + 1..] && batch[i..][0] == batch[i];
        assert batch[..i + 1] == batch[..i] + [batch[i]];
        BatchStep(View(), batch[i..]);
        if batch[i].Interrupt? {
          interruptSeen := true;
        }
        var sent := HandleEvent(batch[i..], batch[i]);
        ports := ports + sent;
        i := i + 1;
      }
      assert batch[..i] == batch && batch[i..] == [];
      BatchEnd(View());
      if interruptSeen {
        HandleInterruptFd(messages);
      }
    }

    static lemma OnePollMore(s: State, polls: seq<Poll>, n: nat)
      requires n < |polls| && Inv(INITIAL) && LegalRun(INITIAL, polls[..n]) && s == Run(INITIAL, polls[..n])
      requires Inv(s) && LegalRun(s, polls[n..])
      ensures LegalPoll(s, polls[n]) && LegalRun(HandlePoll(s, polls[n]), polls[n + 1..])
      ensures LegalRun(INITIAL, polls[..n + 1]) && Run(INITIAL, polls[..n + 1]) == HandlePoll(s, polls[n])
      ensures HandlePoll(s, polls[n]).shutdown <==> s.shutdown || StopsLoop(polls[n])
    {
      hide Inv, LegalPoll, HandlePoll, LegalRun, Run, StopsLoop;
      var p := polls[n];
      assert polls[n..][0] == p && polls[n..][1..] == polls[n + 1..] && polls[..n + 1] == polls[..n] + [p];
      FirstPoll(s, polls[n..]);
      RunSnoc(INITIAL, polls[..n], p);
      PollStops(s, p);
    }

    /** The loop of the handler's thread: handles polls until one of them brought a shutdown message. */
    method PollLoop(polls: seq<Poll>) returns (handled: nat)
      requires Valid() && View() == INITIAL && LegalRun(INITIAL, polls)
      modifies this, Footprint()
      ensures Valid() && handled <= |polls| && LegalRun(INITIAL, polls[..handled])
      ensures View() == Run(INITIAL, polls[..handled])
      ensures forall i | 0 <= i < handled - 1 :: !StopsLoop(polls[i])
      ensures handled < |polls| ==> handled > 0 && StopsLoop(polls[handled - 1])
    {
      hide Valid, Store, Footprint, Inv, LegalPoll, HandlePoll, LegalRun, Run, StopsLoop;
      InitialInv();
      NoPoll(INITIAL);
      handled := 0;
      assert polls[..0] == [] && polls[0..] == polls;
      while !shutdown && handled < |polls|
        invariant 0 <= handled <= |polls| && Valid() && Inv(View())
        invariant LegalRun(INITIAL, polls[..handled]) && View() == Run(INITIAL, polls[..handled])
        invariant LegalRun(View(), polls[handled..])
        invariant forall o | o in Footprint() :: o in old(Footprint()) || fresh(o)
        invariant if shutdown then handled > 0 && StopsLoop(polls[handled - 1]) else handled > 0 ==> !StopsLoop(polls[handled - 1])
        invariant forall i | 0 <= i < handled - 1 :: !StopsLoop(polls[i])
      {
        var p := polls[handled];
        OnePollMore(View(), polls, handled);
        var _ := HandleEvents(p.batch, p.messages);
        handled := handled + 1;
      }
    }
  }
}
