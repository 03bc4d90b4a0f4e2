/**
  The listening socket of Windows (`ListenSocket`): asynchronous accepts in
  flight, and a queue of accepted connections for the Dart side to take.

  The first part is the protocol over whole runs: where the socket of each issued
  accept is.  The second part is the class with its linked list, whose methods
  are proved to take exactly the protocol's steps.
 */
module AcceptQueue {
  import opened Sequences

  const MAX_PENDING: nat := 5

  /**
    Every accept is issued with a fresh socket for the future connection, numbered
    in order.  `closed` lists the sockets given back to the system, `handed` those
    taken by the Dart side, and `arrived` all that ever entered the queue.
   */
  datatype World = World(closing: bool, queue: seq<nat>, inFlight: set<nat>, handed: seq<nat>, closed: seq<nat>,
                         arrived: seq<nat>, issued: nat)

  const START: World := World(false, [], {}, [], [], [], 0)

  datatype Step =
    | Issue(ok: bool)
    | Complete(socket: nat, ok: bool)
    | Take(ok: bool)
    | Close

  // ----- The protocol

  /** An accept is issued: its socket is in flight, or closed at once if the system refuses. */
  function Issued(w: World, ok: bool): World {
    if ok then w.(inFlight := w.inFlight + {w.issued}, issued := w.issued + 1)
    else w.(closed := w.closed + [w.issued], issued := w.issued + 1)
  }

  /** The accept of `socket` completes: the connection is queued, or closed when that fails or the socket is closing. */
  function Completed(w: World, socket: nat, ok: bool): World {
    var landed := w.(inFlight := w.inFlight - {socket});
    if !w.closing && ok then landed.(queue := w.queue + [socket], arrived := w.arrived + [socket])
    else landed.(closed := w.closed + [socket])
  }

  function Dequeued(w: World): World {
    if w.queue == [] then w else w.(queue := w.queue[1..], handed := w.handed + [w.queue[0]])
  }

  /** The Dart side takes a connection, which makes room for another accept. */
  function Taken(w: World, ok: bool): World {
    var w' := Dequeued(w);
    if |w.inFlight| < MAX_PENDING && !w.closing then Issued(w', ok) else w'
  }

  function Drained(w: World): World {
    w.(queue := [], closed := w.closed + w.queue)
  }

  /** The head of the queue is closed: one step of draining it. */
  function OneClosed(w: World): (r: World)
    requires w.queue != []
    ensures Drained(r) == Drained(w)
  {
    var r := w.(queue := w.queue[1..], closed := w.closed + [w.queue[0]]);
    assert r.closed + r.queue == w.closed + w.queue by {
      assert w.queue == [w.queue[0]] + w.queue[1..];
    }
    r
  }

  function Closed(w: World): World {
    if w.closing then w else Drained(w.(closing := true))
  }

  /** Accepts are issued on an open socket only; only an accept in flight completes. */
  predicate Enabled(w: World, s: Step) {
    match s
    case Issue(_) => !w.closing
    case Complete(socket, _) => socket in w.inFlight
    case Take(_) => true
    case Close => true
  }

  function Next(w: World, s: Step): World {
    match s
    case Issue(ok) => Issued(w, ok)
    case Complete(socket, ok) => Completed(w, socket, ok)
    case Take(ok) => Taken(w, ok)
    case Close => Closed(w)
  }

  predicate Legal(w: World, steps: seq<Step>)
    decreases |steps|
  {
    steps != [] ==> Enabled(w, steps[0]) && Legal(Next(w, steps[0]), steps[1..])
  }

  function Run(w: World, steps: seq<Step>): World
    requires Legal(w, steps)
    decreases |steps|
  {
    if steps == [] then w else Run(Next(w, steps[0]), steps[1..])
  }

  /** In how many places socket `i` is. */
  function Places(w: World, i: nat): nat {
    (if i in w.inFlight then 1 else 0) + multiset(w.queue)[i] + multiset(w.handed)[i] + multiset(w.closed)[i]
  }

  /** Every issued socket is in one place, and no other socket is anywhere. */
  ghost predicate Conserved(w: World) {
    forall i: nat :: Places(w, i) == if i < w.issued then 1 else 0
  }

  /** Connections are taken in the order in which they arrived; those not taken are queued, or were closed. */
  predicate InOrder(w: World) {
    w.handed + w.queue <= w.arrived && (!w.closing ==> w.handed + w.queue == w.arrived)
  }

  ghost predicate Inv(w: World) {
    && Conserved(w)
    && InOrder(w)
    && (w.closing ==> w.queue == [])
  }

  /** Nothing is in flight and the socket is closing: the event handler deletes it. */
  predicate IsClosed(w: World) {
    w.closing && |w.inFlight| == 0
  }

  lemma IssuedConserves(w: World, ok: bool)
    requires Conserved(w)
    ensures Conserved(Issued(w, ok))
  {
    var w' := Issued(w, ok);
    forall i: nat
      ensures Places(w', i) == if i < w'.issued then 1 else 0
    {
      assert Places(w, i) == if i < w.issued then 1 else 0;
    }
  }

  lemma CompletedConserves(w: World, socket: nat, ok: bool)
    requires Conserved(w) && socket in w.inFlight
    ensures Conserved(Completed(w, socket, ok))
  {
    var w' := Completed(w, socket, ok);
    forall i: nat
      ensures Places(w', i) == Places(w, i)
    {
    }
  }

  lemma DequeuedConserves(w: World)
    requires Conserved(w)
    ensures Conserved(Dequeued(w))
  {
    if w.queue != [] {
      assert w.queue == [w.queue[0]] + w.queue[1..];
      assert multiset(w.queue) == multiset{w.queue[0]} + multiset(w.queue[1..]);
      forall i: nat
        ensures Places(Dequeued(w), i) == Places(w, i)
      {
      }
    }
  }

  lemma DrainedConserves(w: World)
    requires Conserved(w)
    ensures Conserved(Drained(w))
  {
    forall i: nat
      ensures Places(Drained(w), i) == Places(w, i)
    {
      assert multiset(w.closed + w.queue)[i] == multiset(w.closed)[i] + multiset(w.queue)[i];
    }
  }

  lemma StepConserves(w: World, s: Step)
    requires Conserved(w) && Enabled(w, s)
    ensures Conserved(Next(w, s))
  {
    hide Conserved;
    match s {
      case Issue(ok) => IssuedConserves(w, ok);
      case Complete(socket, ok) => CompletedConserves(w, socket, ok);
      case Take(ok) =>
        DequeuedConserves(w);
        IssuedConserves(Dequeued(w), ok);
      case Close =>
        if !w.closing {
          ClosingConserves(w);
          DrainedConserves(w.(closing := true));
        }
    }
  }

  lemma ClosingConserves(w: World)
    requires Conserved(w)
    ensures Conserved(w.(closing := true))
  {
    forall i: nat
      ensures Places(w.(closing := true), i) == Places(w, i)
    {
    }
  }

  lemma StepKeepsOrder(w: World, s: Step)
    requires InOrder(w) && (w.closing ==> w.queue == []) && Enabled(w, s)
    ensures InOrder(Next(w, s)) && (Next(w, s).closing ==> Next(w, s).queue == [])
  {
    if s.Complete? {
      assert w.handed + (w.queue + [s.socket]) == (w.handed + w.queue) + [s.socket];
    } else if s.Take? && w.queue != [] {
      assert (w.handed + [w.queue[0]]) + w.queue[1..] == w.handed + w.queue;
    } else if s.Close? {
      assert w.handed <= w.handed + w.queue;
    }
  }

  lemma {:induction false} RunKeepsInv(w: World, steps: seq<Step>)
    requires Inv(w) && Legal(w, steps)
    ensures Inv(Run(w, steps))
    decreases |steps|
  {
    hide Conserved, InOrder, Next, Enabled;
    if steps != [] {
      StepConserves(w, steps[0]);
      StepKeepsOrder(w, steps[0]);
      RunKeepsInv(Next(w, steps[0]), steps[1..]);
    }
  }

  /**
    In every run, each issued accept is in flight, or its socket is queued, taken
    or closed, in one of these places and once; connections are taken in the order
    they arrived; and once closing starts the queue is empty.
   */
  lemma EveryRun(steps: seq<Step>)
    requires Legal(START, steps)
    ensures Inv(Run(START, steps))
  {
    RunKeepsInv(START, steps);
  }

  /** The accepts that complete with success before the socket is closed, in order. */
  function Arrivals(steps: seq<Step>): seq<nat> {
    if steps == [] || steps[0].Close? then []
    else (if steps[0].Complete? && steps[0].ok then [steps[0].socket] else []) + Arrivals(steps[1..])
  }

  /** Exactly the accepts that complete with success on the open socket are queued. */
  lemma {:induction false} ArrivedExactly(w: World, steps: seq<Step>)
    requires Legal(w, steps)
    ensures Run(w, steps).arrived == w.arrived + if w.closing then [] else Arrivals(steps)
    decreases |steps|
  {
    hide Next, Enabled;
    if steps != [] {
      ArrivedByStep(w, steps[0]);
      ArrivedExactly(Next(w, steps[0]), steps[1..]);
    }
  }

  lemma ArrivedByStep(w: World, s: Step)
    ensures Next(w, s).closing == (w.closing || s.Close?)
    ensures Next(w, s).arrived == w.arrived + if !w.closing && s.Complete? && s.ok then [s.socket] else []
  {
  }

  /** As long as the socket is open, what Dart took followed by the queue is all that arrived. */
  lemma FirstInFirstOut(steps: seq<Step>)
    requires Legal(START, steps) && !Run(START, steps).closing
    ensures var w := Run(START, steps); w.handed + w.queue == Arrivals(steps)
  {
    EveryRun(steps);
    ArrivedExactly(START, steps);
  }

  /** When the socket is reported closed, every socket ever issued was taken or closed, once. */
  lemma ClosedLeavesNothing(steps: seq<Step>, i: nat)
    requires Legal(START, steps) && IsClosed(Run(START, steps)) && i < Run(START, steps).issued
    ensures var w := Run(START, steps); multiset(w.handed)[i] + multiset(w.closed)[i] == 1
  {
    EveryRun(steps);
    var w := Run(START, steps);
    assert Places(w, i) == 1 && w.inFlight == {};
  }

  /** A socket reported closed stays so: no step changes it. */
  lemma ClosedIsFinal(w: World, s: Step)
    requires Inv(w) && IsClosed(w) && Enabled(w, s)
    ensures Next(w, s) == w
  {
    assert w.inFlight == {};
  }

  /** Once closing has started it lasts, nothing more is handed over, and accepts in flight only get fewer. */
  lemma {:induction false} ClosingDrains(w: World, steps: seq<Step>)
    requires Inv(w) && w.closing && Legal(w, steps)
    ensures var w' := Run(w, steps);
            w'.closing && w'.queue == [] && w'.handed == w.handed && w'.inFlight <= w.inFlight && w'.issued == w.issued
    decreases |steps|
  {
    hide Conserved, InOrder;
    if steps != [] {
      StepConserves(w, steps[0]);
      StepKeepsOrder(w, steps[0]);
      ClosingDrains(Next(w, steps[0]), steps[1..]);
    }
  }

  /** After the first accepts, which `StartAccept` issues, at most five are ever in flight. */
  lemma {:induction false} AtMostFiveInFlight(w: World, steps: seq<Step>)
    requires |w.inFlight| <= MAX_PENDING && Legal(w, steps) && forall i | 0 <= i < |steps| :: !steps[i].Issue?
    ensures |Run(w, steps).inFlight| <= MAX_PENDING
    decreases |steps|
  {
    if steps != [] {
      AtMostFiveInFlight(Next(w, steps[0]), steps[1..]);
    }
  }

  /** Steps after which a connection or an accept is missing: a failed completion, a take whose accept is refused. */
  function Losses(steps: seq<Step>): nat {
    if steps == [] then 0 else
    (if (steps[0].Complete? || steps[0].Take?) && !steps[0].ok then 1 else 0) + Losses(steps[1..])
  }

  lemma StepKeepsListening(w: World, s: Step, lost: nat)
    requires Conserved(w) && !w.closing && Enabled(w, s) && !s.Close?
    requires |w.inFlight| + |w.queue| + lost >= MAX_PENDING
    ensures var w', more := Next(w, s), if (s.Complete? || s.Take?) && !s.ok then 1 else 0;
      !w'.closing && |w'.inFlight| + |w'.queue| + lost + more >= MAX_PENDING
  {
    NextIsFresh(w);
  }

  /**
    An open socket that started with five accepts goes on listening: in every run,
    accepts in flight and queued connections together are at least five, but for
    those that were lost to failures.
   */
  lemma {:induction false} KeepsListening(w: World, steps: seq<Step>, lost: nat)
    requires Conserved(w) && !w.closing && |w.inFlight| + |w.queue| + lost >= MAX_PENDING
    requires Legal(w, steps) && forall i | 0 <= i < |steps| :: !steps[i].Close?
    ensures var w' := Run(w, steps); |w'.inFlight| + |w'.queue| + lost + Losses(steps) >= MAX_PENDING
    decreases |steps|
  {
    hide Conserved, Next, Enabled;
    if steps != [] {
      StepConserves(w, steps[0]);
      StepKeepsListening(w, steps[0], lost);
      var more := if (steps[0].Complete? || steps[0].Take?) && !steps[0].ok then 1 else 0;
      KeepsListening(Next(w, steps[0]), steps[1..], lost + more);
    }
  }

  /** Taking from an open socket issues one more accept exactly if fewer than five are in flight. */
  lemma TakeRefills(w: World)
    requires Conserved(w) && !w.closing
    ensures var w' := Next(w, Take(true));
      && |w'.inFlight| == |w.inFlight| + (if |w.inFlight| < 5 then 1 else 0)
      && w'.issued == w.issued + (if |w.inFlight| < 5 then 1 else 0) && w.inFlight <= w'.inFlight
  {
    NextIsFresh(w);
  }

  function Completions(steps: seq<Step>): nat {
    if steps == [] then 0 else (if steps[0].Complete? then 1 else 0) + Completions(steps[1..])
  }

  /** Once closing has started, the socket is reported closed exactly when all accepts then in flight have completed. */
  lemma {:induction false} ClosedExactly(w: World, steps: seq<Step>)
    requires Inv(w) && w.closing && Legal(w, steps)
    ensures IsClosed(Run(w, steps)) <==> Completions(steps) == |w.inFlight|
    decreases |steps|
  {
    if steps != [] {
      StepConserves(w, steps[0]);
      StepKeepsOrder(w, steps[0]);
      hide Conserved, InOrder;
      ClosedExactly(Next(w, steps[0]), steps[1..]);
    }
  }

  // ----- The class

  class ClientSocket {
    const socket: nat
    var next: ClientSocket?

    constructor (socket: nat)
      ensures this.socket == socket && next == null
    {
      this.socket, next := socket, null;
    }
  }

  function Sockets(chain: seq<ClientSocket>): (r: seq<nat>)
    ensures |r| == |chain| && forall i | 0 <= i < |r| :: r[i] == chain[i].socket
  {
    seq(|chain|, i requires 0 <= i < |chain| => chain[i].socket)
  }

  class ListenSocket {
    var closing: bool
    var pendingAcceptCount: int
    var acceptedHead: ClientSocket?
    var acceptedTail: ClientSocket?
    var acceptedCount: int
    ghost var chain: seq<ClientSocket>
    ghost var world: World

    ghost predicate Linked()
      reads `acceptedHead, `acceptedTail, `chain, chain
    {
      && NoDuplicates(chain)
      && (forall i | 0 <= i < |chain| - 1 :: chain[i].next == chain[i + 1])
      && (chain == [] ==> acceptedHead == null && acceptedTail == null)
      && (chain != [] ==> acceptedHead == chain[0] && acceptedTail == chain[|chain| - 1] && acceptedTail.next == null)
    }

    /** The list is the queue, and the counters count the queue and the accepts in flight. */
    ghost predicate Valid()
      reads this, chain
    {
      && Linked()
      && world.queue == Sockets(chain)
      && acceptedCount == |world.queue|
      && pendingAcceptCount == |world.inFlight|
      && closing == world.closing
    }

    constructor ()
      ensures Valid() && world == START && chain == []
    {
      closing, pendingAcceptCount, acceptedCount := false, 0, 0;
      acceptedHead, acceptedTail := null, null;
      chain, world := [], START;
    }

    /** `ok` is the system's answer to the request, immediate or pending. */
    method IssueAccept(ok: bool) returns (success: bool)
      requires Valid() && world.issued !in world.inFlight
      modifies this
      ensures Valid() && chain == old(chain)
      ensures success == ok && world == Issued(old(world), ok)
    {
      world := Issued(world, ok);
      if !ok {
        return false;
      }
      pendingAcceptCount := pendingAcceptCount + 1;
      return true;
    }

    /** The client is appended to the list. */
    method Enqueue(client: ClientSocket)
      requires Linked() && acceptedCount == |chain| && client !in chain && client.next == null
      modifies `acceptedHead, `acceptedTail, `acceptedCount, `chain, chain
      ensures Linked() && acceptedCount == |chain| && chain == old(chain) + [client]
    {
      if acceptedHead == null {
        acceptedHead := client;
        acceptedTail := client;
      } else {
        assert acceptedTail != null;
        acceptedTail.next := client;
        acceptedTail := client;
      }
      acceptedCount := acceptedCount + 1;
      chain := chain + [client];
    }

    /** `ok` is the system's answer when the new socket is given the listening socket's properties. */
    method AcceptComplete(socket: nat, ok: bool)
      requires Valid() && socket in world.inFlight
      modifies this, chain
      ensures Valid() && world == Completed(old(world), socket, ok)
      ensures chain == old(chain) || (|chain| > 0 && chain[..|chain| - 1] == old(chain) && fresh(chain[|chain| - 1]))
    {
      hide Linked;
      if !closing && ok {
        var client := new ClientSocket(socket);
        Enqueue(client);
      }
      pendingAcceptCount := pendingAcceptCount - 1;
      world := Completed(world, socket, ok);
      assert Sockets(chain) == world.queue;
    }

    predicate CanAccept()
      requires Valid()
      reads this, chain
      ensures CanAccept() <==> world.queue != []
    {
      acceptedHead != null
    }

    /** The head of the list is unlinked. */
    method TakeHead() returns (client: ClientSocket?)
      requires Valid()
      modifies this, chain
      ensures Valid() && world == Dequeued(old(world))
      ensures chain == if old(chain) == [] then [] else old(chain)[1..]
      ensures if old(world.queue) == [] then client == null
              else client != null && client.socket == old(world.queue)[0] && client.next == null
    {
      client := null;
      if acceptedHead != null {
        client := acceptedHead;
        acceptedHead := acceptedHead.next;
        if acceptedHead == null {
          acceptedTail := null;
        }
        client.next := null;
        acceptedCount := acceptedCount - 1;
        chain := chain[1..];
        world := Dequeued(world);
        assert Sockets(chain) == world.queue;
      }
    }

    /** `ok` is the system's answer if another accept is issued. */
    method Accept(ok: bool) returns (client: ClientSocket?)
      requires Valid() && world.issued !in world.inFlight
      modifies this, chain
      ensures Valid() && world == Taken(old(world), ok)
      ensures chain == if old(chain) == [] then [] else old(chain)[1..]
      ensures if old(world.queue) == [] then client == null
              else client != null && client.socket == old(world.queue)[0] && client.next == null
    {
      client := TakeHead();
      if pendingAcceptCount < 5 {
        if !closing {
          var _ := IssueAccept(ok);
        }
      }
    }

    /** The queued connections are closed; what the Dart side took is not affected. */
    method DoClose()
      requires Valid() && closing && world.issued !in world.inFlight
      modifies this, chain
      ensures Valid() && chain == [] && world == Drained(old(world))
    {
      while CanAccept()
        invariant Valid() && closing && world.issued !in world.inFlight
        invariant forall i | 0 <= i < |chain| :: chain[i] in old(chain)
        invariant Drained(world) == Drained(old(world))
        decreases |world.queue|
      {
        ghost var was := world;
        var client := Accept(false);
        CloseOne(client, was);
      }
      assert world.closed + [] == world.closed;
    }

    /** The connection just taken is closed, and so not handed over. */
    ghost method CloseOne(client: ClientSocket, was: World)
      requires Valid() && was.closing && was.queue != [] && world == Taken(was, false)
      requires client.socket == was.queue[0]
      modifies `world
      ensures Valid() && world.queue == was.queue[1..] && world.inFlight == was.inFlight && world.issued == was.issued
      ensures world.closing && Drained(world) == Drained(was)
    {
      hide Linked;
      assert world.queue == was.queue[1..] && world.inFlight == was.inFlight;
      world := OneClosed(was);
    }

    method Close()
      requires Valid() && world.issued !in world.inFlight
      modifies this, chain
      ensures Valid() && world == Closed(old(world))
    {
      if !closing {
        closing := true;
        world := world.(closing := true);
        DoClose();
      }
    }

    /** Issues the first accepts; a refusal closes the socket. */
    method StartAccept(answers: seq<bool>) returns (success: bool)
      requires Valid() && Inv(world) && !world.closing && |answers| == MAX_PENDING
      modifies this, chain
      ensures Valid() && Inv(world)
      ensures success <==> forall i | 0 <= i < |answers| :: answers[i]
      ensures success ==> !world.closing && |world.inFlight| == |old(world).inFlight| + MAX_PENDING
      ensures !success ==> world.closing && world.queue == []
    {
      for i := 0 to MAX_PENDING
        invariant Valid() && Inv(world) && !world.closing && chain == old(chain)
        invariant forall j | 0 <= j < i :: answers[j]
        invariant |world.inFlight| == |old(world).inFlight| + i
      {
        NextIsFresh(world);
        ghost var was := world;
        var ok := IssueAccept(answers[i]);
        StepConserves(was, Issue(answers[i]));
        StepKeepsOrder(was, Issue(answers[i]));
        if !ok {
          NextIsFresh(world);
          was := world;
          Close();
          StepConserves(was, Step.Close);
          StepKeepsOrder(was, Step.Close);
          return false;
        }
      }
      return true;
    }

    predicate ReportsClosed()
      requires Valid()
      reads this, chain
      ensures ReportsClosed() <==> IsClosed(world)
    {
      closing && !(pendingAcceptCount > 0)
    }

    /** What the destructor asserts holds whenever the socket is reported closed. */
    lemma DestructorAssertions()
      requires Valid() && Inv(world) && ReportsClosed()
      ensures pendingAcceptCount == 0 && acceptedHead == null && acceptedTail == null && acceptedCount == 0
      ensures IsClosed(world)
    {
      assert |Sockets(chain)| == 0;
    }
  }

  /** The socket of the next accept is new. */
  lemma NextIsFresh(w: World)
    requires Conserved(w)
    ensures w.issued !in w.inFlight
  {
    assert Places(w, w.issued) == 0;
  }
}
