/** The allocation counters, and the byte-reversing copy used for big-endian integers. */
module Mem {
  import opened Bytes

  /** Copies src into dest from index at on, last byte first. */
  method ReverseCopy(dest: array<Byte>, at: nat, src: Octets)
    requires at + |src| <= dest.Length
    modifies dest
    ensures dest[at..at + |src|] == Reversed(src)
    ensures dest[..at] == old(dest[..at]) && dest[at + |src|..] == old(dest[at + |src|..])
  {
    var n := |src|;
    for i := 0 to n
      invariant dest[at..at + i] == Reversed(src)[..i]
      invariant dest[..at] == old(dest[..at]) && dest[at + n..] == old(dest[at + n..])
    {
      dest[at + i] := src[n - i - 1];
    }
  }

  function Max(a: int, b: int): (m: int)
    ensures m == a || m == b
    ensures m >= a && m >= b
  {
    if a < b then b else a
  }

  /** The three global counters. Sizes are what the callers say they are. */
  class BoltMem {
    var allocation: int
    var peak: int
    var events: nat

    ghost predicate Valid()
      reads this
    {
      allocation <= peak
    }

    constructor ()
      ensures Valid() && allocation == 0 && peak == 0 && events == 0
    {
      allocation, peak, events := 0, 0, 0;
    }

    method Allocate(newSize: nat)
      requires Valid()
      modifies this
      ensures Valid()
      ensures allocation == old(allocation) + newSize
      ensures peak == Max(old(peak), allocation) && events == old(events) + 1
    {
      allocation := allocation + newSize;
      if allocation > peak {
        peak := peak + (allocation - peak);
      }
      events := events + 1;
    }

    method Reallocate(oldSize: nat, newSize: nat)
      requires Valid()
      modifies this
      ensures Valid()
      ensures allocation == old(allocation) - oldSize + newSize
      ensures peak == Max(old(peak), allocation) && events == old(events) + 1
    {
      allocation := allocation - oldSize + newSize;
      if allocation > peak {
        peak := peak + (allocation - peak);
      }
      events := events + 1;
    }

    /** Freeing a null pointer is not counted. */
    method Deallocate(isNull: bool, oldSize: nat)
      requires Valid()
      modifies this
      ensures Valid() && peak == old(peak)
      ensures allocation == old(allocation) - (if isNull then 0 else oldSize)
      ensures events == old(events) + (if isNull then 0 else 1)
    {
      if isNull {
        return;
      }
      allocation := allocation - oldSize;
      events := events + 1;
    }

    /** Moves a block from one size to another, reusing it when the sizes agree. A block of
        positive size is not null. */
    method Adjust(oldSize: nat, newSize: nat)
      requires Valid()
      modifies this
      ensures Valid()
      ensures allocation == old(allocation) - oldSize + newSize
      ensures peak == Max(old(peak), allocation)
      ensures events == old(events) + (if oldSize == newSize then 0 else 1)
    {
      if newSize == oldSize {
        return;
      }
      if oldSize == 0 {
        Allocate(newSize);
        return;
      }
      if newSize == 0 {
        Deallocate(false, oldSize);
        return;
      }
      Reallocate(oldSize, newSize);
    }
  }
}
