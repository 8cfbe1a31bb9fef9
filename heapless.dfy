/**
 * A string of fixed capacity whose characters live in a buffer allocated once:
 * pushing past the capacity is refused instead of growing the buffer.
 * Every character stored by this firmware is an ASCII digit, so one character
 * takes one byte of the capacity.
 */
module Heapless {

  class BoundedString {
    const capacity: nat
    const buf: array<char>
    var len: nat

    ghost predicate Valid()
      reads this
    {
      buf.Length == capacity && len <= capacity
    }

    /** The characters pushed so far, in order. */
    function Chars(): (s: seq<char>)
      reads this, buf
      requires Valid()
      ensures |s| == len
    {
      buf[..len]
    }

    constructor (capacity: nat)
      ensures Valid() && fresh(buf)
      ensures this.capacity == capacity && Chars() == []
    {
      this.capacity := capacity;
      buf := new char[capacity];
      len := 0;
    }

    /** Appends `c` when there is room; a full string is left as it was and `ok` is false. */
    method Push(c: char) returns (ok: bool)
      requires Valid()
      modifies this`len, buf
      ensures Valid()
      ensures ok == (old(len) < capacity)
      ensures Chars() == if ok then old(Chars()) + [c] else old(Chars())
    {
      ok := len < capacity;
      if ok {
        buf[len] := c;
        len := len + 1;
      }
    }
  }
}
