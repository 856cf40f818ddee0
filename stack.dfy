/**
 * The protocol stack's fixed-capacity state: an array of layer slots and the
 * number of slots in use, and its initialisation, which resets every slot
 * and empties the stack.
 */
module Stack {

  /** The layers a slot can hold; a reset slot holds none. */
  datatype ProtocolEntry = Unused | Ethernet | Ipv6 | Tcp

  /** Resets one slot of the protocol array, as protocol initialisation does. */
  method ResetSlot(slots: array<ProtocolEntry>, i: nat)
    requires i < slots.Length
    modifies slots
    ensures slots[i] == Unused
    ensures forall j | 0 <= j < slots.Length && j != i :: slots[j] == old(slots[j])
  {
    slots[i] := Unused;
  }

  class ProtocolStack {
    // The slots are storage of the stack itself, so the reference is fixed;
    // their number is the stack's capacity.
    const protocolArray: array<ProtocolEntry>
    var protocolCount: nat

    /** The count never exceeds the capacity. */
    ghost predicate Valid()
      reads this
    {
      protocolCount <= protocolArray.Length
    }

    /** The slots in use, in push order. */
    function Layers(): (r: seq<ProtocolEntry>)
      reads this, protocolArray
      requires Valid()
      ensures |r| == protocolCount
    {
      protocolArray[..protocolCount]
    }

    /** Storage for a stack of `capacity` slots whose contents are not yet initialised. */
    constructor (capacity: nat)
      ensures protocolArray.Length == capacity && fresh(protocolArray)
    {
      protocolArray := new ProtocolEntry[capacity];
    }

    /**
     * Resets every slot, from the first to the last, then empties the stack.
     * Whatever the stack held before, it ends valid and empty with every slot
     * reset.
     */
    method Init()
      modifies this, protocolArray
      ensures Valid() && protocolCount == 0 && Layers() == []
      ensures protocolArray[..] == seq(protocolArray.Length, _ => Unused)
    {
      for i := 0 to protocolArray.Length
        modifies protocolArray
        invariant forall j | 0 <= j < i :: protocolArray[j] == Unused
      {
        ResetSlot(protocolArray, i);
      }
      protocolCount := 0;
    }
  }

  /**
   * Two stacks of the same capacity, however they were filled before, are
   * indistinguishable after initialisation.
   */
  method InitForgetsHistory(a: ProtocolStack, b: ProtocolStack)
    requires a != b && a.protocolArray != b.protocolArray
    requires a.protocolArray.Length == b.protocolArray.Length
    modifies a, a.protocolArray, b, b.protocolArray
    ensures a.protocolCount == b.protocolCount
    ensures a.protocolArray[..] == b.protocolArray[..]
  {
    a.Init();
    b.Init();
  }
}
