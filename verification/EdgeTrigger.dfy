/**
  The simulation of edge-triggered events on Fuchsia (`IOHandle`): an event that
  was delivered is suppressed until the Dart side acts on it.

  The theorems speak of whole histories of calls: which delivered event a later
  event of the same kind depends on, and why an event is suppressed.
 */
module EdgeTrigger {

  /** The in, out and close bits of an event mask. */
  datatype Events = Events(inEvent: bool, outEvent: bool, closeEvent: bool)

  const NO_EVENTS: Events := Events(false, false, false)

  datatype Flags = Flags(write: bool, read: bool, close: bool, available: int)

  /**
    A call on the handle, with what the system answers: the events reported and
    the number of bytes then available, the result of a read, or the number of
    bytes available (an error counts as one).
   */
  datatype Call =
    | Toggle(reported: Events, bytes: int)
    | Read(result: int)
    | Write
    | Accept
    | AvailableBytes(bytes: int)

  // ----- One call

  function Remaining(available: int, result: int): int {
    if result <= 0 then available
    else available - (if available >= result then result else available)
  }

  /** The events delivered: those reported that are enabled. */
  function Delivered(f: Flags, c: Call): Events {
    if c.Toggle? then
      Events(c.reported.inEvent && f.read, c.reported.outEvent && f.write, c.reported.closeEvent && f.close)
    else NO_EVENTS
  }

  function After(f: Flags, c: Call): Flags {
    match c
    case Toggle(reported, bytes) =>
      var d := Delivered(f, c);
      Flags(f.write && !d.outEvent,
            f.read && !(d.inEvent && (bytes != 0 || reported.closeEvent)),
            f.close && !d.closeEvent,
            f.available)
    case Read(result) =>
      var left := Remaining(f.available, result);
      f.(available := left, read := f.read || left == 0 || result < 0)
    case Write => f.(write := true)
    case Accept => f.(read := true)
    case AvailableBytes(bytes) => f.(available := if bytes < 0 then 1 else bytes)
  }

  class IOHandle {
    var writeEventsEnabled: bool
    var readEventsEnabled: bool
    var closeEventsEnabled: bool
    var availableBytes: int

    ghost function View(): Flags
      reads this
    {
      Flags(writeEventsEnabled, readEventsEnabled, closeEventsEnabled, availableBytes)
    }

    /** All events start enabled; the count of available bytes starts with any value. */
    constructor (available: int)
      ensures View() == Flags(true, true, true, available)
    {
      writeEventsEnabled, readEventsEnabled, closeEventsEnabled := true, true, true;
      availableBytes := available;
    }

    method ToggleEvents(reported: Events, bytes: int) returns (mask: Events)
      modifies this
      ensures mask == Delivered(old(View()), Toggle(reported, bytes))
      ensures View() == After(old(View()), Toggle(reported, bytes))
    {
      mask := reported;
      if !writeEventsEnabled {
        mask := mask.(outEvent := false);
      }
      if mask.outEvent {
        writeEventsEnabled := false;
      }
      if !readEventsEnabled {
        mask := mask.(inEvent := false);
      }
      if mask.inEvent {
        if bytes != 0 {
          readEventsEnabled := false;
        }
        if mask.closeEvent {
          readEventsEnabled := false;
        }
      }
      if !closeEventsEnabled {
        mask := mask.(closeEvent := false);
      }
      if mask.closeEvent {
        closeEventsEnabled := false;
      }
    }

    method Read(result: int)
      modifies this
      ensures View() == After(old(View()), Call.Read(result))
    {
      if result > 0 {
        availableBytes := availableBytes - (if availableBytes >= result then result else availableBytes);
      }
      if availableBytes == 0 || result < 0 {
        readEventsEnabled := true;
      }
    }

    method Write()
      modifies this
      ensures View() == After(old(View()), Call.Write)
    {
      writeEventsEnabled := true;
    }

    method Accept()
      modifies this
      ensures View() == After(old(View()), Call.Accept)
    {
      readEventsEnabled := true;
    }

    method AvailableBytes(bytes: int) returns (available: int)
      modifies this
      ensures View() == After(old(View()), Call.AvailableBytes(bytes)) && available == availableBytes
    {
      available := bytes;
      if available < 0 {
        available := 1;
      }
      availableBytes := available;
    }
  }

  // ----- Histories

  /** The flags before call `k` of a history. */
  function FlagsAt(f: Flags, calls: seq<Call>, k: nat): Flags
    requires k <= |calls|
  {
    if k == 0 then f else After(FlagsAt(f, calls, k - 1), calls[k - 1])
  }

  function DeliveredAt(f: Flags, calls: seq<Call>, k: nat): Events
    requires k < |calls|
  {
    Delivered(FlagsAt(f, calls, k), calls[k])
  }

  /** All events enabled, and nothing known about the bytes available. */
  predicate Fresh(f: Flags) {
    f.write && f.read && f.close
  }

  /** Call `k` enables read events again: an accept, or a read that fails or drains the handle. */
  predicate Rearms(f: Flags, calls: seq<Call>, k: nat)
    requires k < |calls|
  {
    || calls[k].Accept?
    || (calls[k].Read? && (calls[k].result < 0 || FlagsAt(f, calls, k + 1).available == 0))
  }

  /** Call `k` delivers an in-event that suppresses further ones: with bytes available, or with a close reported. */
  predicate SuppressesIn(f: Flags, calls: seq<Call>, k: nat)
    requires k < |calls|
  {
    DeliveredAt(f, calls, k).inEvent && (calls[k].bytes != 0 || calls[k].reported.closeEvent)
  }

  /** An out-event was delivered before call `k`, and nothing written since. */
  ghost predicate AwaitsWrite(f: Flags, calls: seq<Call>, k: nat)
    requires k <= |calls|
  {
    exists i :: 0 <= i < k && DeliveredAt(f, calls, i).outEvent && forall m | i < m < k :: !calls[m].Write?
  }

  ghost predicate AwaitsRead(f: Flags, calls: seq<Call>, k: nat)
    requires k <= |calls|
  {
    exists i :: 0 <= i < k && SuppressesIn(f, calls, i) && forall m | i < m < k :: !Rearms(f, calls, m)
  }

  ghost predicate ClosedBefore(f: Flags, calls: seq<Call>, k: nat)
    requires k <= |calls|
  {
    exists i :: 0 <= i < k && DeliveredAt(f, calls, i).closeEvent
  }

  /** Write events are enabled exactly when no delivered out-event still awaits its write. */
  lemma {:induction false} WriteEnabledExactly(f: Flags, calls: seq<Call>, k: nat)
    requires Fresh(f) && k <= |calls|
    ensures FlagsAt(f, calls, k).write <==> !AwaitsWrite(f, calls, k)
  {
    if k > 0 {
      WriteEnabledExactly(f, calls, k - 1);
      if AwaitsWrite(f, calls, k - 1) && !calls[k - 1].Write? {
        var i :| 0 <= i < k - 1 && DeliveredAt(f, calls, i).outEvent && forall m | i < m < k - 1 :: !calls[m].Write?;
        assert forall m | i < m < k :: !calls[m].Write?;
      }
      if DeliveredAt(f, calls, k - 1).outEvent {
        assert 0 <= k - 1 < k;
      } else if AwaitsWrite(f, calls, k) {
        var i :| 0 <= i < k && DeliveredAt(f, calls, i).outEvent && forall m | i < m < k :: !calls[m].Write?;
        assert i < k - 1 && forall m | i < m < k - 1 :: !calls[m].Write?;
      }
    }
  }

  lemma {:induction false} ReadEnabledExactly(f: Flags, calls: seq<Call>, k: nat)
    requires Fresh(f) && k <= |calls|
    ensures FlagsAt(f, calls, k).read <==> !AwaitsRead(f, calls, k)
  {
    if k > 0 {
      ReadEnabledExactly(f, calls, k - 1);
      if AwaitsRead(f, calls, k - 1) && !Rearms(f, calls, k - 1) {
        var i :| 0 <= i < k - 1 && SuppressesIn(f, calls, i) && forall m | i < m < k - 1 :: !Rearms(f, calls, m);
        assert forall m | i < m < k :: !Rearms(f, calls, m);
      }
      if SuppressesIn(f, calls, k - 1) {
        assert 0 <= k - 1 < k;
      } else if AwaitsRead(f, calls, k) {
        var i :| 0 <= i < k && SuppressesIn(f, calls, i) && forall m | i < m < k :: !Rearms(f, calls, m);
        assert i < k - 1 && forall m | i < m < k - 1 :: !Rearms(f, calls, m);
      }
    }
  }

  lemma ClosedOneMore(f: Flags, calls: seq<Call>, k: nat)
    requires 0 < k <= |calls|
    ensures ClosedBefore(f, calls, k) <==> ClosedBefore(f, calls, k - 1) || DeliveredAt(f, calls, k - 1).closeEvent
  {
    hide DeliveredAt;
    if ClosedBefore(f, calls, k - 1) {
      var i :| 0 <= i < k - 1 && DeliveredAt(f, calls, i).closeEvent;
      assert 0 <= i < k && DeliveredAt(f, calls, i).closeEvent;
    }
    if DeliveredAt(f, calls, k - 1).closeEvent {
      assert 0 <= k - 1 < k;
    } else if ClosedBefore(f, calls, k) {
      var i :| 0 <= i < k && DeliveredAt(f, calls, i).closeEvent;
      assert i < k - 1;
    }
  }

  lemma {:induction false} CloseEnabledExactly(f: Flags, calls: seq<Call>, k: nat)
    requires Fresh(f) && k <= |calls|
    ensures FlagsAt(f, calls, k).close <==> !ClosedBefore(f, calls, k)
  {
    if k > 0 {
      CloseEnabledExactly(f, calls, k - 1);
      ClosedOneMore(f, calls, k);
    }
  }

  // ----- Theorems

  /**
    In every history, a reported event is delivered unless an earlier delivery of
    the same kind still awaits its reaction, and suppressed only then.
   */
  lemma DeliveredExactly(f: Flags, calls: seq<Call>, k: nat)
    requires Fresh(f) && k < |calls| && calls[k].Toggle?
    ensures var r, d := calls[k].reported, DeliveredAt(f, calls, k);
      && (d.outEvent <==> r.outEvent && !AwaitsWrite(f, calls, k))
      && (d.inEvent <==> r.inEvent && !AwaitsRead(f, calls, k))
      && (d.closeEvent <==> r.closeEvent && !ClosedBefore(f, calls, k))
  {
    WriteEnabledExactly(f, calls, k);
    ReadEnabledExactly(f, calls, k);
    CloseEnabledExactly(f, calls, k);
  }

  /** Between two delivered out-events there is a write. */
  lemma OutEventsSeparated(f: Flags, calls: seq<Call>, i: nat, j: nat)
    requires Fresh(f) && i < j < |calls| && DeliveredAt(f, calls, i).outEvent && DeliveredAt(f, calls, j).outEvent
    ensures exists m :: i < m < j && calls[m].Write?
  {
    WriteEnabledExactly(f, calls, j);
  }

  /** Between an in-event that suppresses and the next in-event, reading is re-armed. */
  lemma InEventsSeparated(f: Flags, calls: seq<Call>, i: nat, j: nat)
    requires Fresh(f) && i < j < |calls| && SuppressesIn(f, calls, i) && DeliveredAt(f, calls, j).inEvent
    ensures exists m :: i < m < j && Rearms(f, calls, m)
  {
    ReadEnabledExactly(f, calls, j);
  }

  /** A close-event is delivered at most once. */
  lemma CloseDeliveredOnce(f: Flags, calls: seq<Call>, i: nat, j: nat)
    requires Fresh(f) && i < |calls| && j < |calls|
    requires DeliveredAt(f, calls, i).closeEvent && DeliveredAt(f, calls, j).closeEvent
    ensures i == j
  {
    CloseEnabledExactly(f, calls, i);
    CloseEnabledExactly(f, calls, j);
  }

  // ----- When reading is re-armed

  /** The bytes that calls `i` up to `k` read. */
  function BytesRead(calls: seq<Call>, i: nat, k: nat): nat
    requires i <= k <= |calls|
  {
    if i == k then 0
    else BytesRead(calls, i, k - 1) + if calls[k - 1].Read? && calls[k - 1].result > 0 then calls[k - 1].result else 0
  }

  /**
    The count is the bytes available when they were last counted, less the bytes
    read since; so a read re-arms as soon as that many bytes have been read.
   */
  lemma {:induction false} CountExactly(f: Flags, calls: seq<Call>, i: nat, k: nat)
    requires i < k <= |calls| && calls[i].AvailableBytes? && forall m | i < m < k :: !calls[m].AvailableBytes?
    ensures var counted := if calls[i].bytes < 0 then 1 else calls[i].bytes;
            var read := BytesRead(calls, i + 1, k);
            FlagsAt(f, calls, k).available == if read <= counted then counted - read else 0
    decreases k
  {
    if k > i + 1 {
      CountExactly(f, calls, i, k - 1);
    }
  }
}
