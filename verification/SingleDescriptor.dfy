/**
  A descriptor connected to a single port (`DescriptorInfoSingleMixin`): as a
  value with its operations, and as the object that refines it.
 */
module SingleDescriptor {

  type Port = int

  /** The budget of a descriptor with one port. */
  const TOKEN_COUNT: int := 16

  /** The events a descriptor asks for. */
  datatype Interest = Interest(read: bool, write: bool)

  const NO_INTEREST: Interest := Interest(false, false)

  datatype Single = Single(port: Port, tokens: int, mask: Interest, disableTokens: bool) {

    function Mask(): Interest {
      if tokens <= 0 then NO_INTEREST else mask
    }

    function SetPortAndMask(port: Port, mask: Interest): Single {
      this.(port := port, mask := mask)
    }

    function RemovePort(): Single {
      this.(port := 0, mask := NO_INTEREST)
    }

    /** One notification: to the port, for an I/O event or a broadcast. */
    function Notify(): Single {
      if disableTokens then this else this.(tokens := tokens - 1)
    }

    function ReturnTokens(count: nat): Single {
      if disableTokens then this else this.(tokens := tokens + count)
    }
  }

  function Create(disableTokens: bool): Single {
    Single(0, TOKEN_COUNT, NO_INTEREST, disableTokens)
  }

  class DescriptorInfoSingle {
    var port: Port
    var tokens: int
    var mask: Interest
    const disableTokens: bool

    ghost function View(): Single
      reads this
    {
      Single(port, tokens, mask, disableTokens)
    }

    constructor (disableTokens: bool)
      ensures View() == Create(disableTokens)
    {
      port, tokens, mask, this.disableTokens := 0, TOKEN_COUNT, NO_INTEREST, disableTokens;
    }

    method SetPortAndMask(port: Port, mask: Interest)
      requires this.port == 0 || port == this.port
      modifies this
      ensures View() == old(View()).SetPortAndMask(port, mask)
    {
      this.port := port;
      this.mask := mask;
    }

    method RemovePort(port: Port)
      requires this.port == 0 || port == this.port
      modifies this
      ensures View() == old(View()).RemovePort()
    {
      this.port := 0;
      mask := NO_INTEREST;
    }

    method NextNotifyDartPort() returns (port: Port)
      modifies this
      ensures View() == old(View()).Notify() && port == old(this.port)
    {
      if !disableTokens {
        tokens := tokens - 1;
      }
      port := this.port;
    }

    /** Posts to the port if there is one; charges in any case. */
    method NotifyAllDartPorts() returns (posted: seq<Port>)
      modifies this
      ensures View() == old(View()).Notify()
      ensures posted == if old(this.port) == 0 then [] else [old(this.port)]
    {
      posted := if port != 0 then [port] else [];
      if !disableTokens {
        tokens := tokens - 1;
      }
    }

    method ReturnTokens(port: Port, count: nat)
      requires this.port == port && tokens + (if disableTokens then 0 else count) <= TOKEN_COUNT
      modifies this
      ensures View() == old(View()).ReturnTokens(count) && tokens <= TOKEN_COUNT
    {
      if !disableTokens {
        tokens := tokens + count;
      }
      assert tokens <= TOKEN_COUNT;
    }

    function Mask(): Interest
      reads this
    {
      if tokens <= 0 then NO_INTEREST else mask
    }
  }
}
