/**
 * The growable byte FIFO (struct mux_buffer) that carries encoded output,
 * decoded output and decoder input staging.  Writes append at `size`; reads
 * consume from `readPos`; once everything written has been read the buffer
 * rewinds to empty so that its storage is reused.
 */
module Buffer {
  import opened Types

  /**
   * The capacity EnsureCapacity settles on: unchanged when it already
   * suffices, otherwise one and a half times the old capacity, or exactly
   * `needed` when that is larger.
   */
  function GrownCapacity(capacity: nat, needed: nat): (r: nat)
    ensures r >= needed && r >= capacity
    ensures capacity >= needed ==> r == capacity
    ensures capacity < needed ==> r >= capacity + capacity / 2 && (r == needed || r == capacity + capacity / 2)
  {
    if capacity >= needed then capacity
    else if capacity + capacity / 2 < needed then needed
    else capacity + capacity / 2
  }

  class MuxBuffer {
    /** The allocation; its length is the capacity. */
    var data: seq<byte>
    /** Bytes written so far (the write position). */
    var size: nat
    var capacity: nat
    /** Bytes already consumed from the front. */
    var readPos: nat

    ghost predicate Valid()
      reads this
    {
      readPos <= size <= capacity && |data| == capacity
    }

    /** The bytes written but not yet read, oldest first. */
    ghost function Unread(): seq<byte>
      reads this
      requires Valid()
    {
      data[readPos..size]
    }

    /** A zero-filled struct mux_buffer (no allocation, nothing stored). */
    constructor ()
      ensures Valid() && Unread() == []
      ensures data == [] && size == 0 && capacity == 0 && readPos == 0
    {
      data, size, capacity, readPos := [], 0, 0, 0;
    }

    /** mux_buffer_init: an empty buffer with `initialCapacity` bytes allocated. */
    method Init(initialCapacity: nat) returns (r: int)
      modifies this
      ensures Valid() && r == OK
      ensures capacity == initialCapacity && size == 0 && readPos == 0
      ensures Unread() == []
    {
      data := Zeros(initialCapacity);
      capacity := initialCapacity;
      size, readPos := 0, 0;
      r := OK;
    }

    /** mux_buffer_deinit: releases the allocation and zeroes every field. */
    method Deinit()
      modifies this
      ensures Valid() && Unread() == []
      ensures data == [] && size == 0 && capacity == 0 && readPos == 0
    {
      data, size, capacity, readPos := [], 0, 0, 0;
    }

    /** mux_buffer_ensure_capacity: grows the allocation, keeping its contents. */
    method EnsureCapacity(needed: nat)
      requires Valid()
      modifies this
      ensures Valid()
      ensures capacity == GrownCapacity(old(capacity), needed)
      ensures size == old(size) && readPos == old(readPos)
      ensures data[..size] == old(data[..size])
    {
      if capacity >= needed {
        return;
      }
      var newCapacity := capacity + capacity / 2;
      if newCapacity < needed {
        newCapacity := needed;
      }
      // realloc: the old bytes are kept and the new tail is not yet written.
      data := data + Zeros(newCapacity - capacity);
      capacity := newCapacity;
    }

    /** mux_buffer_write: appends `src` behind everything not yet read. */
    method Write(src: seq<byte>) returns (r: int)
      requires Valid()
      modifies this
      ensures Valid() && r == OK
      ensures Unread() == old(Unread()) + src
      ensures readPos == old(readPos) && size == old(size) + |src|
      ensures |src| == 0 ==> capacity == old(capacity)
      ensures |src| > 0 ==> capacity == GrownCapacity(old(capacity), old(size) + |src|)
    {
      if |src| == 0 {
        return OK;
      }
      EnsureCapacity(size + |src|);
      data := data[..size] + src + data[size + |src|..];
      size := size + |src|;
      r := OK;
    }

    /**
     * mux_buffer_read: takes up to `n` bytes from the front.  An empty
     * buffer answers AGAIN and reads nothing; a read that drains the buffer
     * rewinds it to empty.
     */
    method Read(n: nat) returns (r: int, out: seq<byte>)
      requires Valid()
      modifies this
      ensures Valid() && capacity == old(capacity) && data == old(data)
      ensures old(size - readPos) == 0 ==> r == AGAIN && out == [] && size == old(size) && readPos == old(readPos)
      ensures old(size - readPos) > 0 ==> r == OK && out == old(Unread())[..Min(n, old(size - readPos))]
      ensures Unread() == old(Unread())[|out|..]
      ensures r == OK && Unread() == [] ==> size == 0 && readPos == 0
    {
      var available := size - readPos;
      if available == 0 {
        return AGAIN, [];
      }
      var k := if n > available then available else n;
      out := data[readPos..readPos + k];
      readPos := readPos + k;
      if readPos == size {
        readPos, size := 0, 0;
      }
      r := OK;
    }

    /** mux_buffer_available: how many bytes are waiting to be read. */
    function Available(): (r: nat)
      reads this
      requires Valid()
      ensures r == |Unread()|
    {
      size - readPos
    }

    /** mux_buffer_clear: discards everything, keeping the allocation. */
    method Clear()
      requires Valid()
      modifies this
      ensures Valid() && Unread() == []
      ensures size == 0 && readPos == 0 && capacity == old(capacity) && data == old(data)
    {
      size, readPos := 0, 0;
    }
  }
}
