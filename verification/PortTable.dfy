/**
  The ports that share one listening descriptor (`DescriptorInfoMultipleMixin`),
  as a value: every known port with its reading flag and token count, and the
  ready ports in the order in which they will be served.

  Each operation of the descriptor is a function on tables.  The theorems are
  about every run of operations: which ports are ready, what tokens are owed,
  and how long a ready port waits.
 */
module PortTable {
  import opened CircularList
  import opened Sequences

  type Port = int

  /** The budget of a new port. */
  const TOKEN_COUNT: int := 4

  datatype Account = Account(reading: bool, tokens: int) {
    predicate Ready() {
      tokens > 0 && reading
    }
  }

  datatype Table = Table(accounts: map<Port, Account>, ready: seq<Port>, disableTokens: bool)

  const NO_PORTS: Table := Table(map[], [], false)

  predicate Listed(s: seq<Port>, p: Port) {
    p in s
  }

  function PortSet(s: seq<Port>): set<Port> {
    set i | 0 <= i < |s| :: s[i]
  }

  predicate IsReady(accounts: map<Port, Account>, p: Port) {
    p in accounts && accounts[p].Ready()
  }

  /** The ready list holds, once each, exactly the reading ports with tokens left. */
  ghost predicate Inv(t: Table) {
    && NoDuplicates(t.ready)
    && forall p :: Listed(t.ready, p) <==> IsReady(t.accounts, p)
  }

  // ----- Operations

  datatype Op =
    | SetMask(port: Port, reading: bool)
    | Remove(port: Port)
    | RemoveAll
    | Next
    | NotifyAll
    | Return(port: Port, count: nat)

  /** Tokens are returned only for a known port. */
  predicate Legal(t: Table, op: Op) {
    op.Return? ==> op.port in t.accounts
  }

  /** The list after the account of `p` became `now`: moved in at the end, or taken out. */
  function Relist(t: Table, p: Port, now: Account): seq<Port> {
    var was := IsReady(t.accounts, p);
    if was && !now.Ready() then RemoveFirst(t.ready, p)
    else if !was && now.Ready() then t.ready + [p]
    else t.ready
  }

  function SetPortAndMask(t: Table, p: Port, reading: bool): Table {
    var now := Account(reading, if p in t.accounts then t.accounts[p].tokens else TOKEN_COUNT);
    t.(accounts := t.accounts[p := now], ready := Relist(t, p, now))
  }

  function RemovePort(t: Table, p: Port): Table {
    if p in t.accounts then
      t.(accounts := t.accounts - {p},
         ready := if t.accounts[p].Ready() then RemoveFirst(t.ready, p) else t.ready)
    else t
  }

  function Charge(t: Table, a: Account): Account {
    if t.disableTokens then a else a.(tokens := a.tokens - 1)
  }

  /** The port at the head of the list is charged and goes to the end, or leaves. */
  function NextNotify(t: Table): Table
    requires t.ready != [] ==> t.ready[0] in t.accounts
  {
    if t.ready == [] then t else
    var p := t.ready[0];
    var now := Charge(t, t.accounts[p]);
    t.(accounts := t.accounts[p := now],
       ready := if now.tokens <= 0 then t.ready[1..] else RotateLeft(t.ready))
  }

  /** The port that `NextNotify` serves; 0 when nobody is ready. */
  function NextPort(t: Table): Port {
    if t.ready == [] then 0 else t.ready[0]
  }

  /** The ports of `s` that are ready. */
  function Select(s: seq<Port>, accounts: map<Port, Account>): (r: seq<Port>)
    ensures forall p :: Listed(r, p) <==> Listed(s, p) && IsReady(accounts, p)
  {
    if s == [] then [] else
    assert forall p :: Listed(s, p) <==> p == s[0] || Listed(s[1..], p);
    (if IsReady(accounts, s[0]) then [s[0]] else []) + Select(s[1..], accounts)
  }

  function ChargeAll(t: Table): map<Port, Account> {
    map p | p in t.accounts :: Charge(t, t.accounts[p])
  }

  function NotifyAllPorts(t: Table): Table {
    t.(accounts := ChargeAll(t), ready := Select(t.ready, ChargeAll(t)))
  }

  function ReturnTokens(t: Table, p: Port, count: nat): Table
    requires p in t.accounts
  {
    var a := t.accounts[p];
    var now := if t.disableTokens then a else a.(tokens := a.tokens + count);
    t.(accounts := t.accounts[p := now], ready := Relist(t, p, now))
  }

  function After(t: Table, op: Op): Table
    requires Inv(t) && Legal(t, op)
  {
    match op
    case SetMask(p, reading) => SetPortAndMask(t, p, reading)
    case Remove(p) => RemovePort(t, p)
    case RemoveAll => t.(accounts := map[], ready := [])
    case Next => assert t.ready != [] ==> Listed(t.ready, t.ready[0]); NextNotify(t)
    case NotifyAll => NotifyAllPorts(t)
    case Return(p, count) => ReturnTokens(t, p, count)
  }

  lemma HeadKnown(t: Table)
    requires Inv(t)
    ensures t.ready != [] ==> t.ready[0] in t.accounts
  {
    assert t.ready != [] ==> Listed(t.ready, t.ready[0]);
  }

  /** The ports that an operation notifies. */
  function Notified(t: Table, op: Op): set<Port> {
    if op.Next? && t.ready != [] then {t.ready[0]}
    else if op.NotifyAll? then t.accounts.Keys
    else {}
  }

  // ----- The ready list

  lemma ListedSplit(x: Port, s: seq<Port>)
    ensures forall q :: Listed([x] + s, q) <==> q == x || Listed(s, q)
    ensures forall q :: Listed(s + [x], q) <==> q == x || Listed(s, q)
  {
  }

  lemma {:induction false} RemoveFirstUnique(s: seq<Port>, p: Port)
    requires NoDuplicates(s)
    ensures NoDuplicates(RemoveFirst(s, p))
    ensures forall q :: Listed(RemoveFirst(s, p), q) <==> Listed(s, q) && q != p
  {
    if s != [] {
      var x, rest := s[0], s[1..];
      assert s == [x] + rest;
      ListedSplit(x, rest);
      assert !Listed(rest, x);
      if x != p {
        RemoveFirstUnique(rest, p);
        ListedSplit(x, RemoveFirst(rest, p));
        assert !Listed(RemoveFirst(rest, p), x);
      }
    }
  }

  lemma {:induction false} SelectUnique(s: seq<Port>, accounts: map<Port, Account>)
    requires NoDuplicates(s)
    ensures NoDuplicates(Select(s, accounts))
  {
    if s != [] {
      assert s[0] !in s[1..];
      SelectUnique(s[1..], accounts);
    }
  }

  /** Moving a port in or out when its account changes keeps the list exact. */
  lemma RelistKeepsInv(t: Table, p: Port, now: Account)
    requires Inv(t)
    ensures Inv(t.(accounts := t.accounts[p := now], ready := Relist(t, p, now)))
  {
    RemoveFirstUnique(t.ready, p);
    ListedSplit(p, t.ready);
    var accounts := t.accounts[p := now];
    assert forall q | q != p :: IsReady(accounts, q) <==> IsReady(t.accounts, q);
    assert IsReady(accounts, p) <==> now.Ready();
    assert !IsReady(t.accounts, p) ==> !Listed(t.ready, p);
  }

  lemma NextKeepsInv(t: Table)
    requires Inv(t) && t.ready != []
    ensures Inv(After(t, Next))
  {
    var p, rest := t.ready[0], t.ready[1..];
    assert t.ready == [p] + rest;
    ListedSplit(p, rest);
    assert !Listed(rest, p);
    assert Listed(t.ready, p);
    assert forall q | q != p :: IsReady(After(t, Next).accounts, q) <==> IsReady(t.accounts, q);
  }

  /** Every operation keeps the ready list exact. */
  lemma OpKeepsInv(t: Table, op: Op)
    requires Inv(t) && Legal(t, op)
    ensures Inv(After(t, op))
    ensures After(t, op).disableTokens == t.disableTokens
  {
    match op
    case SetMask(p, _) => RelistKeepsInv(t, p, After(t, op).accounts[p]);
    case Remove(p) => RemoveFirstUnique(t.ready, p);
    case RemoveAll =>
    case Next =>
      if t.ready != [] { NextKeepsInv(t); }
    case NotifyAll => SelectUnique(t.ready, ChargeAll(t));
    case Return(p, _) => RelistKeepsInv(t, p, After(t, op).accounts[p]);
  }

  /** Nothing is filtered out of an exact list. */
  lemma {:induction false} SelectAll(s: seq<Port>, accounts: map<Port, Account>)
    requires forall i | 0 <= i < |s| :: IsReady(accounts, s[i])
    ensures Select(s, accounts) == s
  {
    if s != [] {
      SelectAll(s[1..], accounts);
      assert s == [s[0]] + s[1..];
    }
  }

  lemma ReadyAreReady(t: Table)
    requires Inv(t)
    ensures forall i | 0 <= i < |t.ready| :: IsReady(t.accounts, t.ready[i])
  {
    assert forall i | 0 <= i < |t.ready| :: Listed(t.ready, t.ready[i]);
  }

  /** Filtering after one account lost its readiness, or kept it. */
  lemma {:induction false} SelectUpdate(s: seq<Port>, accounts: map<Port, Account>, p: Port, now: Account)
    requires NoDuplicates(s) && (now.Ready() ==> IsReady(accounts, p))
    ensures Select(s, accounts[p := now]) ==
            if IsReady(accounts, p) && !now.Ready() then RemoveFirst(Select(s, accounts), p) else Select(s, accounts)
  {
    if s != [] {
      SelectUpdate(s[1..], accounts, p, now);
      var rest := Select(s[1..], accounts);
      if s[0] == p {
        assert !Listed(s[1..], p);
        assert !Listed(rest, p);
        RemoveFirstAbsent(rest, p);
        assert IsReady(accounts, p) ==> Select(s, accounts)[1..] == rest;
      } else {
        assert IsReady(accounts[p := now], s[0]) == IsReady(accounts, s[0]);
        assert !IsReady(accounts, s[0]) ==> Select(s, accounts) == rest;
        assert IsReady(accounts, s[0]) ==> Select(s, accounts)[1..] == rest;
      }
    }
  }

  lemma RemovedNotListed(t: Table, p: Port)
    requires Inv(t)
    ensures p !in RemovePort(t, p).ready
  {
    OpKeepsInv(t, Remove(p));
    assert !IsReady(RemovePort(t, p).accounts, p);
    assert !Listed(RemovePort(t, p).ready, p);
  }

  // ----- Runs

  ghost predicate LegalRun(t: Table, ops: seq<Op>)
    requires Inv(t)
    decreases |ops|
  {
    ops != [] ==>
      (Legal(t, ops[0]) && (OpKeepsInv(t, ops[0]); LegalRun(After(t, ops[0]), ops[1..])))
  }

  ghost function Run(t: Table, ops: seq<Op>): (t': Table)
    requires Inv(t) && LegalRun(t, ops)
    ensures Inv(t') && t'.disableTokens == t.disableTokens
    decreases |ops|
  {
    if ops == [] then t else OpKeepsInv(t, ops[0]); Run(After(t, ops[0]), ops[1..])
  }

  /**
    After every run, the ready list holds each reading port with tokens left
    exactly once and nobody else, so someone can be served exactly when such a
    port exists.
   */
  lemma ReadyExactly(ops: seq<Op>)
    requires LegalRun(NO_PORTS, ops)
    ensures var t := Run(NO_PORTS, ops);
      && NoDuplicates(t.ready)
      && (forall p :: Listed(t.ready, p) <==> p in t.accounts && t.accounts[p].reading && t.accounts[p].tokens > 0)
      && (t.ready != [] <==> exists p :: IsReady(t.accounts, p))
  {
    var t := Run(NO_PORTS, ops);
    assert t.ready != [] ==> Listed(t.ready, t.ready[0]);
  }

  /** An operation by which a port enters or leaves the table. */
  predicate Word(op: Op, p: Port) {
    (op.SetMask? && op.port == p) || (op.Remove? && op.port == p) || op.RemoveAll?
  }

  function LastWord(ops: seq<Op>, p: Port): (k: int)
    ensures k < 0 ==> forall j | 0 <= j < |ops| :: !Word(ops[j], p)
    ensures k >= 0 ==> k < |ops| && Word(ops[k], p) && forall j | k < j < |ops| :: !Word(ops[j], p)
  {
    if ops == [] then -1
    else if Word(ops[|ops| - 1], p) then |ops| - 1
    else LastWord(ops[..|ops| - 1], p)
  }

  lemma OpWord(t: Table, op: Op, p: Port)
    requires Inv(t) && Legal(t, op)
    ensures var t' := After(t, op);
      if Word(op, p) then (p in t'.accounts <==> op.SetMask?) && (op.SetMask? ==> t'.accounts[p].reading == op.reading)
      else (p in t'.accounts <==> p in t.accounts) && (p in t.accounts ==> t'.accounts[p].reading == t.accounts[p].reading)
  {
    HeadKnown(t);
  }

  /**
    After any run, a port is known exactly if its last word was a mask and not a
    removal, and it reads exactly if that mask said so.
   */
  lemma {:induction false} KnownExactly(t: Table, ops: seq<Op>, p: Port)
    requires Inv(t) && LegalRun(t, ops)
    ensures var t', k := Run(t, ops), LastWord(ops, p);
      if k >= 0 then (p in t'.accounts <==> ops[k].SetMask?) && (ops[k].SetMask? ==> t'.accounts[p].reading == ops[k].reading)
      else (p in t'.accounts <==> p in t.accounts) && (p in t.accounts ==> t'.accounts[p].reading == t.accounts[p].reading)
    decreases |ops|
  {
    if ops != [] {
      var rest := ops[1..];
      OpKeepsInv(t, ops[0]);
      OpWord(t, ops[0], p);
      hide Inv, After, Word;
      KnownExactly(After(t, ops[0]), rest, p);
      assert forall j | 0 <= j < |rest| :: rest[j] == ops[j + 1];
      assert forall j | 0 < j < |ops| :: ops[j] == rest[j - 1];
      assert LastWord(rest, p) >= 0 ==> LastWord(ops, p) == LastWord(rest, p) + 1;
    }
  }

  // ----- Tokens

  /** What port `p` owes after an operation: one token per notification, less the tokens it returned. */
  function OwedAfter(t: Table, op: Op, p: Port, owed: int): int
    requires Inv(t) && Legal(t, op)
  {
    if p !in t.accounts || p !in After(t, op).accounts then 0
    else owed + (if p in Notified(t, op) then 1 else 0) - (if op.Return? && op.port == p then op.count else 0)
  }

  ghost function Owed(t: Table, ops: seq<Op>, p: Port, owed: int): int
    requires Inv(t) && LegalRun(t, ops)
    decreases |ops|
  {
    if ops == [] then owed else
    OpKeepsInv(t, ops[0]);
    Owed(After(t, ops[0]), ops[1..], p, OwedAfter(t, ops[0], p, owed))
  }

  /** The budget covers exactly what is owed. */
  predicate Balanced(t: Table, p: Port, owed: int) {
    p in t.accounts ==> t.accounts[p].tokens == TOKEN_COUNT - owed
  }

  lemma OpKeepsBalance(t: Table, op: Op, p: Port, owed: int)
    requires Inv(t) && Legal(t, op) && !t.disableTokens && Balanced(t, p, owed)
    ensures Balanced(After(t, op), p, OwedAfter(t, op, p, owed))
  {
    assert op.Next? && t.ready != [] ==> Listed(t.ready, t.ready[0]);
  }

  /** In every run, budget minus count is the notifications charged minus the tokens returned. */
  lemma {:induction false} TokenConservation(t: Table, ops: seq<Op>, p: Port, owed: int)
    requires Inv(t) && LegalRun(t, ops) && !t.disableTokens && Balanced(t, p, owed)
    ensures Balanced(Run(t, ops), p, Owed(t, ops, p, owed))
    decreases |ops|
  {
    if ops != [] {
      OpKeepsInv(t, ops[0]);
      OpKeepsBalance(t, ops[0], p, owed);
      TokenConservation(After(t, ops[0]), ops[1..], p, OwedAfter(t, ops[0], p, owed));
    }
  }

  /** Port `p` never returns more tokens than it owes. */
  ghost predicate Honest(t: Table, ops: seq<Op>, p: Port, owed: int)
    requires Inv(t) && LegalRun(t, ops)
    decreases |ops|
  {
    ops != [] ==>
      && (ops[0].Return? && ops[0].port == p ==> ops[0].count <= owed)
      && (OpKeepsInv(t, ops[0]); Honest(After(t, ops[0]), ops[1..], p, OwedAfter(t, ops[0], p, owed)))
  }

  lemma {:induction false} HonestOwesNothingNegative(t: Table, ops: seq<Op>, p: Port, owed: int)
    requires Inv(t) && LegalRun(t, ops) && owed >= 0 && Honest(t, ops, p, owed)
    ensures Owed(t, ops, p, owed) >= 0
    decreases |ops|
  {
    if ops != [] {
      OpKeepsInv(t, ops[0]);
      HonestOwesNothingNegative(After(t, ops[0]), ops[1..], p, OwedAfter(t, ops[0], p, owed));
    }
  }

  /** An honest port never exceeds its budget. */
  lemma TokenBound(ops: seq<Op>, p: Port)
    requires LegalRun(NO_PORTS, ops) && Honest(NO_PORTS, ops, p, 0)
    ensures var t := Run(NO_PORTS, ops); p in t.accounts ==> t.accounts[p].tokens <= TOKEN_COUNT
  {
    HonestOwesNothingNegative(NO_PORTS, ops, p, 0);
    TokenConservation(NO_PORTS, ops, p, 0);
  }

  // ----- Fairness

  /** The ports returned by `n` consecutive calls. */
  ghost function Served(t: Table, n: nat): seq<Port>
    requires Inv(t)
    decreases n
  {
    if n == 0 then [] else OpKeepsInv(t, Next); [NextPort(t)] + Served(After(t, Next), n - 1)
  }

  lemma NextDropsHead(t: Table)
    requires Inv(t) && t.ready != []
    ensures t.ready[1..] <= After(t, Next).ready && NextPort(t) == t.ready[0]
  {
  }

  /** The next calls serve the ready ports in order, even as ports run out of tokens. */
  lemma {:induction false} RoundRobin(t: Table, n: nat)
    requires Inv(t) && n <= |t.ready|
    ensures Served(t, n) == t.ready[..n]
    decreases n
  {
    hide Inv, After, NextPort;
    if n > 0 {
      OpKeepsInv(t, Next);
      var t' := After(t, Next);
      NextDropsHead(t);
      assert t'.ready[..n - 1] == t.ready[1..n];
      RoundRobin(t', n - 1);
      assert t.ready[..n] == [t.ready[0]] + t.ready[1..n];
    }
  }

  /** So among the next |ready| calls, each ready port is served exactly once. */
  lemma EachServedOnce(t: Table)
    requires Inv(t)
    ensures NoDuplicates(Served(t, |t.ready|))
    ensures forall p :: Listed(Served(t, |t.ready|), p) <==> IsReady(t.accounts, p)
  {
    RoundRobin(t, |t.ready|);
    assert t.ready[..|t.ready|] == t.ready;
  }

  /** How many ports are served before `p`. */
  function Position(s: seq<Port>, p: Port): (i: nat)
    requires p in s
    ensures i < |s| && s[i] == p && p !in s[..i]
  {
    if s[0] == p then 0 else
    var i := Position(s[1..], p);
    assert s[..i + 1] == [s[0]] + s[1..][..i];
    i + 1
  }

  lemma {:induction false} PositionRemoveFirst(s: seq<Port>, p: Port, q: Port)
    requires p in s && p != q
    ensures p in RemoveFirst(s, q) && Position(RemoveFirst(s, q), p) <= Position(s, p)
  {
    if s[0] != q && s[0] != p {
      PositionRemoveFirst(s[1..], p, q);
      assert RemoveFirst(s, q)[1..] == RemoveFirst(s[1..], q);
    }
  }

  lemma {:induction false} PositionSelect(s: seq<Port>, p: Port, accounts: map<Port, Account>)
    requires p in s && p in accounts && accounts[p].Ready()
    ensures p in Select(s, accounts) && Position(Select(s, accounts), p) <= Position(s, p)
  {
    var r := Select(s, accounts);
    if s[0] != p {
      PositionSelect(s[1..], p, accounts);
      if s[0] in accounts && accounts[s[0]].Ready() {
        assert r[1..] == Select(s[1..], accounts);
      } else {
        assert r == Select(s[1..], accounts);
      }
    }
  }

  lemma {:induction false} PositionPrefix(s: seq<Port>, s': seq<Port>, p: Port)
    requires p in s
    ensures p in s + s' && Position(s + s', p) == Position(s, p)
  {
    if s[0] != p {
      assert (s + s')[1..] == s[1..] + s';
      PositionPrefix(s[1..], s', p);
    }
  }

  /** No operation makes a ready port wait longer. */
  lemma NotDelayed(t: Table, op: Op, p: Port)
    requires Inv(t) && Legal(t, op) && !op.Next? && Listed(t.ready, p) && Listed(After(t, op).ready, p)
    ensures Position(After(t, op).ready, p) <= Position(t.ready, p)
  {
    hide Position;
    match op
    case SetMask(q, _) =>
      RemoveFirstUnique(t.ready, q);
      if p != q { PositionRemoveFirst(t.ready, p, q); }
      PositionPrefix(t.ready, [q], p);
    case Remove(q) =>
      RemoveFirstUnique(t.ready, q);
      if p != q { PositionRemoveFirst(t.ready, p, q); }
    case RemoveAll =>
    case NotifyAll => PositionSelect(t.ready, p, ChargeAll(t));
    case Return(q, _) => PositionPrefix(t.ready, [q], p);
  }

  /** Serving another port brings a ready port one place forward. */
  lemma NextAdvances(t: Table, p: Port)
    requires Inv(t) && Listed(t.ready, p) && t.ready[0] != p
    ensures Listed(After(t, Next).ready, p) && Position(After(t, Next).ready, p) == Position(t.ready, p) - 1
  {
    assert p in t.ready[1..];
    PositionPrefix(t.ready[1..], [t.ready[0]], p);
  }

  function Nexts(ops: seq<Op>): nat {
    if ops == [] then 0 else (if ops[0].Next? then 1 else 0) + Nexts(ops[1..])
  }

  /** Some operation of the run serves `p`, or takes it off the ready list without serving anyone. */
  ghost predicate ServedOrDropped(t: Table, ops: seq<Op>, p: Port)
    requires Inv(t) && LegalRun(t, ops)
    decreases |ops|
  {
    ops != [] && (OpKeepsInv(t, ops[0]);
      || (ops[0].Next? && NextPort(t) == p && t.ready != [])
      || (!ops[0].Next? && !Listed(After(t, ops[0]).ready, p))
      || ServedOrDropped(After(t, ops[0]), ops[1..], p))
  }

  /**
    Bounded waiting.  Whatever other operations come in between, a port that is
    ready behind n others is served by notification n + 1 at the latest, unless
    it stops being ready first.
   */
  lemma {:induction false} BoundedWaiting(t: Table, ops: seq<Op>, p: Port)
    requires Inv(t) && LegalRun(t, ops) && Listed(t.ready, p)
    requires Nexts(ops) > Position(t.ready, p)
    ensures ServedOrDropped(t, ops, p)
    decreases |ops|
  {
    OpKeepsInv(t, ops[0]);
    var t' := After(t, ops[0]);
    if ops[0].Next? {
      if t.ready[0] != p {
        NextAdvances(t, p);
        BoundedWaiting(t', ops[1..], p);
      }
    } else if Listed(t'.ready, p) {
      NotDelayed(t, ops[0], p);
      BoundedWaiting(t', ops[1..], p);
    }
  }
}
