/** BoltBuffer: a growable byte queue over one block of memory. */
module Buffering {
  import opened Bytes
  import opened Mem

  lemma Cut(s: Octets, a: nat, b: nat, c: nat)
    requires a <= b <= c <= |s|
    ensures s[a..c][..b - a] == s[..b][a..]
  {
  }

  class BoltBuffer {
    var size: nat
    var extent: nat
    var cursor: nat
    var data: array<Byte>

    ghost predicate Valid()
      reads this
    {
      cursor <= extent <= size && size == data.Length
    }

    /** The queue: the bytes loaded and not yet unloaded. */
    ghost function Contents(): (s: Octets)
      requires Valid()
      reads this, data
      ensures |s| == extent - cursor
    {
      data[cursor..extent]
    }

    constructor (initialSize: nat)
      ensures Valid() && Contents() == [] && fresh(data)
      ensures size == initialSize && cursor == 0 && extent == 0
    {
      size := initialSize;
      data := new Byte[initialSize](_ => 0);
      extent := 0;
      cursor := 0;
    }

    /** Moves the contents to the front when they fit in the space already unloaded. */
    method Compact()
      requires Valid()
      modifies this, data
      ensures Valid() && Contents() == old(Contents())
      ensures data == old(data) && size == old(size)
      ensures cursor == (if |Contents()| < old(cursor) then 0 else old(cursor))
    {
      if cursor > 0 {
        var available := extent - cursor;
        if available < cursor {
          ghost var before := data[cursor..extent];
          forall i | 0 <= i < available {
            data[i] := data[cursor + i];
          }
          assert data[..available] == before;
          cursor := 0;
          extent := available;
        }
      }
    }

    function Loadable(): (n: nat)
      requires Valid()
      reads this
      ensures extent + n == size
    {
      size - extent
    }

    /** Reserves n bytes after the contents and returns where they start. Growing replaces
        the block by a larger one with the same leading bytes. */
    method LoadPointer(n: nat) returns (at: nat)
      requires Valid()
      modifies this
      ensures Valid() && (data == old(data) || fresh(data))
      ensures at == old(extent) && extent == old(extent) + n && cursor == old(cursor)
      ensures data[..at] == old(data[..extent])
      ensures Contents()[..at - cursor] == old(Contents())
      ensures size == Max(old(size), extent)
    {
      var available := Loadable();
      if n > available {
        var newSize := size + (n - available);
        var old_ := data;
        var block := new Byte[newSize](i requires 0 <= i < newSize reads old_ => if i < old_.Length then old_[i] else 0);
        assert block[..extent] == old_[..extent];
        data := block;
        size := newSize;
      }
      at := extent;
      extent := extent + n;
      Cut(data[..], cursor, at, extent);
      assert data[..at] == data[..][..at] && data[cursor..extent] == data[..][cursor..extent];
      assert old(data[cursor..extent]) == old(data[..extent])[cursor..];
    }

    /** A queue append that leaves everything already in the queue in place. */
    twostate predicate Appended(bytes: Octets)
      requires old(Valid()) && Valid()
      reads this, data
    {
      cursor == old(cursor) && extent == old(extent) + |bytes| &&
      Contents() == old(Contents()) + bytes && (data == old(data) || fresh(data))
    }

    method Load(bytes: Octets)
      requires Valid()
      modifies this, data
      ensures Valid() && Appended(bytes)
    {
      var at := LoadPointer(|bytes|);
      ghost var kept := data[..at];
      forall i | 0 <= i < |bytes| {
        data[at + i] := bytes[i];
      }
      assert data[..at] == kept && data[at..extent] == bytes;
      assert Contents() == data[..at][cursor..] + data[at..extent];
      assert old(Contents()) == kept[cursor..];
    }

    method LoadU8(x: Byte)
      requires Valid()
      modifies this, data
      ensures Valid() && Appended([x])
    {
      Load([x]);
    }

    /** Loads a host integer (or double) through a byte-reversing copy. */
    method LoadReversed(host: Octets)
      requires Valid()
      modifies this, data
      ensures Valid() && Appended(Reversed(host))
    {
      var at := LoadPointer(|host|);
      ghost var kept := Contents()[..at - cursor];
      ghost var front := data[..at];
      ReverseCopy(data, at, host);
      assert data[cursor..at] == data[..at][cursor..];
      assert Contents()[..at - cursor] == kept by {
        assert kept == front[cursor..];
      }
      assert Contents()[at - cursor..] == Reversed(host);
    }

    method LoadU16be(x: nat)
      requires Valid() && x < Range(2)
      modifies this, data
      ensures Valid() && Appended(BigEndian(2, x))
    {
      ReversedHostIsBigEndian(2, x);
      LoadReversed(HostBytes(2, x));
    }

    /** The signed loads of one, two, four and eight bytes. */
    method LoadSigned(width: nat, x: int)
      requires Valid() && width > 0 && -(Range(width) / 2) <= x < Range(width) / 2
      modifies this, data
      ensures Valid() && Appended(SignedBE(width, x))
    {
      ReversedHostIsBigEndian(width, ToUnsigned(width, x));
      LoadReversed(HostBytes(width, ToUnsigned(width, x)));
    }

    function Unloadable(): (n: nat)
      requires Valid()
      reads this
      ensures n == extent - cursor
    {
      extent - cursor
    }

    /** Takes n bytes and returns where they lie, or nothing when there are fewer. */
    method UnloadPointer(n: nat) returns (ok: bool, at: nat)
      requires Valid()
      modifies this
      ensures Valid() && data == old(data) && size == old(size)
      ensures ok == (n <= |old(Contents())|)
      ensures ok ==> at + n <= data.Length && data[at..at + n] == old(Contents())[..n]
      ensures Contents() == if ok then old(Contents())[n..] else old(Contents())
    {
      var available := Unloadable();
      at := cursor;
      if n > available {
        return false, at;
      }
      cursor := cursor + n;
      assert data[at..at + n] == old(Contents())[..n];
      assert data[cursor..extent] == old(Contents())[n..];
      if cursor == extent {
        extent := 0;
        cursor := 0;
      }
      return true, at;
    }

    /** Takes n bytes out, or none when there are fewer. */
    method Unload(n: nat) returns (ok: bool, bytes: Octets)
      requires Valid()
      modifies this, data
      ensures Valid() && data == old(data) && size == old(size)
      ensures ok == (n <= |old(Contents())|)
      ensures bytes == if ok then old(Contents())[..n] else []
      ensures Contents() == if ok then old(Contents())[n..] else old(Contents())
    {
      var available := Unloadable();
      if n > available {
        return false, [];
      }
      bytes := data[cursor..cursor + n];
      assert bytes == old(Contents())[..n];
      assert data[cursor + n..extent] == old(Contents())[n..];
      cursor := cursor + n;
      if cursor == extent {
        Compact();
      }
      return true, bytes;
    }

    /** Reads the next byte without taking it; x is arbitrary when there is none. */
    method PeekU8() returns (ok: bool, x: Byte)
      requires Valid()
      ensures ok == (Contents() != [])
      ensures ok ==> x == Contents()[0]
    {
      x := 0;
      if Unloadable() < 1 {
        return false, x;
      }
      return true, data[cursor];
    }

    method UnloadU8() returns (ok: bool, x: Byte)
      requires Valid()
      modifies this
      ensures Valid() && data == old(data) && size == old(size)
      ensures ok == (old(Contents()) != [])
      ensures ok ==> x == old(Contents())[0]
      ensures Contents() == if ok then old(Contents())[1..] else old(Contents())
    {
      x := 0;
      if Unloadable() < 1 {
        return false, x;
      }
      x := data[cursor];
      cursor := cursor + 1;
      assert data[cursor..extent] == old(Contents())[1..];
      return true, x;
    }

    /** Takes n bytes into a host integer (or double) through a byte-reversing copy. */
    method UnloadReversed(n: nat) returns (ok: bool, host: Octets)
      requires Valid()
      modifies this
      ensures Valid() && data == old(data) && size == old(size)
      ensures ok == (n <= |old(Contents())|)
      ensures ok ==> host == Reversed(old(Contents())[..n])
      ensures Contents() == if ok then old(Contents())[n..] else old(Contents())
    {
      host := [];
      if Unloadable() < n {
        return false, host;
      }
      var x := new Byte[n](_ => 0);
      assert data[cursor..cursor + n] == old(Contents())[..n];
      ReverseCopy(x, 0, data[cursor..cursor + n]);
      host := x[..];
      assert host == x[0..n];
      cursor := cursor + n;
      assert data[cursor..extent] == old(Contents())[n..];
      return true, host;
    }

    method UnloadU16be() returns (ok: bool, x: nat)
      requires Valid()
      modifies this
      ensures Valid() && data == old(data) && size == old(size)
      ensures ok == (2 <= |old(Contents())|)
      ensures ok ==> x == BigEndianValue(old(Contents())[..2])
      ensures Contents() == if ok then old(Contents())[2..] else old(Contents())
    {
      var host: Octets;
      ok, host := UnloadReversed(2);
      x := HostValue(host);
    }

    method UnloadSigned(width: nat) returns (ok: bool, x: int)
      requires Valid() && width > 0
      modifies this
      ensures Valid() && data == old(data) && size == old(size)
      ensures ok == (width <= |old(Contents())|)
      ensures ok ==> x == SignedBEValue(old(Contents())[..width])
      ensures Contents() == if ok then old(Contents())[width..] else old(Contents())
    {
      var host: Octets;
      ok, host := UnloadReversed(width);
      x := if ok then ToSigned(width, HostValue(host)) else 0;
    }
  }
}
