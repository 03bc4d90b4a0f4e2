/**
  The descriptor objects of the Linux event handler: a file descriptor with one
  port or with many, behind one interface.  Each owns the heap objects that make
  it up, and its methods refine the operations of `LinuxLoop.Descriptor`.
 */
module DescriptorInfo {
  import PortTable
  import opened SingleDescriptor
  import opened ListeningDescriptor
  import opened LinuxLoop

  class DescriptorInfo {
    const fd: int
    const single: DescriptorInfoSingle?
    const multiple: DescriptorInfoMultiple?
    ghost var owed: int
    ghost var owedBy: map<Port, int>
    /** The object and all it owns. */
    ghost var repr: set<object>

    ghost predicate Valid()
      reads this, repr
      ensures Valid() ==> this in repr
    {
      && this in repr
      && (single == null <==> multiple != null)
      && (single != null ==> single in repr)
      && (multiple != null ==>
            && multiple in repr && multiple.activeReaders in repr && multiple.Parts() <= repr && this !in multiple.Parts()
            && multiple.Valid())
    }

    ghost function View(): Descriptor
      requires Valid()
      reads this, repr
    {
      if single != null then One(fd, single.View(), owed) else Many(fd, multiple.View(), owedBy)
    }

    constructor (fd: int, listening: bool)
      ensures Valid() && fresh(repr) && View() == NewDescriptor(fd, listening)
    {
      this.fd, owed, owedBy := fd, 0, map[];
      if listening {
        single := null;
        var m := new DescriptorInfoMultiple(false);
        multiple := m;
        repr := {this} + m.Parts();
      } else {
        var s := new DescriptorInfoSingle(false);
        single, multiple := s, null;
        repr := {this, s};
      }
    }

    predicate IsListeningSocket() {
      multiple != null
    }

    function Mask(): Interest
      requires Valid()
      reads this, repr
      ensures Mask() == View().Mask()
    {
      if single != null then single.Mask() else Interest(multiple.Reading(), false)
    }

    /** The events to register for. */
    function PollEventsOf(): PollEvents
      requires Valid()
      reads this, repr
      ensures PollEventsOf() == EventsFor(View())
    {
      PollEvents(Mask().read, Mask().write, true, !IsListeningSocket())
    }

    method SetPortAndMask(port: Port, events: Interest)
      requires Valid() && MaskAllowed(View(), port, events)
      modifies repr
      ensures Valid() && fresh(repr - old(repr)) && View() == old(View()).SetPortAndMask(port, events)
    {
      hide DescriptorInfoMultiple.Valid, DescriptorInfoMultiple.View, PortTable.Inv, PortTable.SetPortAndMask;
      if single != null {
        single.SetPortAndMask(port, events);
      } else {
        multiple.SetPortAndMask(port, events == Interest(true, false));
        repr := repr + multiple.Parts();
      }
      owedBy := owedBy[port := if port in owedBy then owedBy[port] else 0];
    }

    method RemovePort(port: Port)
      requires Valid() && (single != null ==> single.port == 0 || single.port == port)
      modifies repr
      ensures Valid() && fresh(repr - old(repr)) && View() == old(View()).RemovePort(port)
    {
      hide DescriptorInfoMultiple.Valid, DescriptorInfoMultiple.View, PortTable.Inv, PortTable.RemovePort;
      if single != null {
        single.RemovePort(port);
      } else {
        multiple.RemovePort(port);
      }
      owedBy := owedBy - {port};
    }

    /** No more tokens are returned than the budget has room for. */
    lemma Returnable(port: Port, count: nat)
      requires Valid() && View().WellFormed() && ReturnAllowed(View(), port, count)
      ensures single != null ==> single.port == port && single.tokens + count <= TOKEN_COUNT
      ensures multiple != null ==>
        && port in multiple.tokensMap && multiple.tokensMap[port].tokenCount + count <= PortTable.TOKEN_COUNT
        && port in owedBy && port in multiple.View().accounts
    {
      hide DescriptorInfoMultiple.Valid, PortTable.Inv;
      if multiple != null { multiple.TokensOf(port); }
    }

    method ReturnTokens(port: Port, count: nat)
      requires Valid() && View().WellFormed() && ReturnAllowed(View(), port, count)
      modifies repr
      ensures Valid() && fresh(repr - old(repr)) && View() == old(View()).ReturnTokens(port, count)
    {
      hide DescriptorInfoMultiple.Valid, DescriptorInfoMultiple.View, PortTable.ReturnTokens, Single.ReturnTokens, Descriptor.WellFormed;
      Returnable(port, count);
      if single != null {
        single.ReturnTokens(port, count);
        owed := owed - count;
      } else {
        multiple.ReturnTokens(port, count);
        repr := repr + multiple.Parts();
        owedBy := owedBy[port := owedBy[port] - count];
      }
    }

    method NextNotifyDartPort() returns (port: Port)
      requires Valid() && View().CanNotify()
      modifies repr
      ensures Valid() && fresh(repr - old(repr)) && View() == old(View()).NextNotify() && port == old(View()).NextPort()
    {
      hide DescriptorInfoMultiple.Valid, DescriptorInfoMultiple.View, PortTable.Inv, PortTable.After;
      if single != null {
        port := single.NextNotifyDartPort();
        owed := owed + 1;
      } else {
        ghost var ready := multiple.View().ready;
        PortTable.HeadKnown(multiple.View());
        port := multiple.NextNotifyDartPort();
        owedBy := if ready == [] then owedBy else owedBy[ready[0] := owedBy[ready[0]] + 1];
      }
    }

    static lemma AtMostOne(s: seq<Port>)
      requires |s| <= 1
      ensures PortTable.PortSet(s) == if s == [] then {} else {s[0]}
    {
    }

    /** Broadcasts an event; the ports it was sent to. */
    method NotifyAllDartPorts() returns (posted: set<Port>)
      requires Valid()
      modifies repr
      ensures Valid() && fresh(repr - old(repr)) && View() == old(View()).NotifyAll() && posted == old(View()).Audience()
    {
      hide DescriptorInfoMultiple.Valid, DescriptorInfoMultiple.View, PortTable.Inv, PortTable.NotifyAllPorts, PortTable.PortSet;
      if single != null {
        var sent := single.NotifyAllDartPorts();
        posted := PortTable.PortSet(sent);
        AtMostOne(sent);
        owed := owed + 1;
      } else {
        multiple.KeysAreAccounts();
        var sent := multiple.NotifyAllDartPorts(multiple.keys);
        posted := PortTable.PortSet(sent);
        owedBy := map p | p in owedBy :: owedBy[p] + 1;
      }
    }

    /** The destructor: every port entry is freed, once. */
    method Destroy() returns (freed: seq<PortEntry>)
      requires Valid()
      modifies repr
      ensures multiple != null ==>
        && |freed| == |old(multiple.keys)|
        && forall i | 0 <= i < |freed| ::
             old(multiple.keys)[i] in old(multiple.tokensMap) && freed[i] == old(multiple.tokensMap)[old(multiple.keys)[i]]
    {
      freed := [];
      if multiple != null {
        freed := multiple.RemoveAllPorts(multiple.keys);
      }
    }
  }
}
