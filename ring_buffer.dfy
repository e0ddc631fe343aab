/*
 * `libs::RingBuffer<T, Capacity>` (libs/ring_buffer/RingBuffer.hpp): a
 * circular queue over a fixed array that keeps one slot empty, so it holds
 * at most Capacity - 1 elements. `head` is the next slot to write and
 * `tail` the next slot to read. The queue's contents are the circular slice
 * from `tail` up to `head` (`Contents`).
 */
module RingBuffers {

  class RingBuffer<T(0)> {
    /** The template parameter Capacity, the length of the array. */
    const cap: nat
    const buffer: array<T>
    var head: nat
    var tail: nat

    ghost predicate Valid()
      reads this
    {
      cap >= 2 && buffer.Length == cap && head < cap && tail < cap
    }

    /** The queued elements, oldest first. */
    ghost function Contents(): seq<T>
      reads this, buffer
      requires Valid()
    {
      if head >= tail then buffer[tail..head] else buffer[tail..] + buffer[..head]
    }

    constructor (capacity: nat)
      requires capacity >= 2
      ensures Valid() && cap == capacity && fresh(buffer)
      ensures head == 0 && tail == 0 && Contents() == []
    {
      cap := capacity;
      buffer := new T[capacity];
      head := 0;
      tail := 0;
    }

    /** `capacity()`: one slot always stays free. */
    function Capacity(): (n: nat)
      reads this
      requires Valid()
      ensures n + 1 == buffer.Length
    {
      cap - 1
    }

    /** `next(idx)`: the following slot, wrapping at the end of the array. */
    function Next(idx: nat): (r: nat)
      reads this
      requires Valid() && idx < cap
      ensures r < cap && (r == idx + 1 || (r == 0 && idx == cap - 1))
    {
      (idx + 1) % cap
    }

    /** `size()`: the number of queued elements, between 0 and capacity(). */
    function Size(): (n: nat)
      reads this, buffer
      requires Valid()
      ensures n == |Contents()| && n <= Capacity()
    {
      if head >= tail then head - tail else cap - (tail - head)
    }

    /** `empty()` */
    function Empty(): (b: bool)
      reads this, buffer
      requires Valid()
      ensures b <==> Size() == 0
      ensures b <==> Contents() == []
    {
      head == tail
    }

    /** `full()` */
    function Full(): (b: bool)
      reads this, buffer
      requires Valid()
      ensures b <==> Size() == Capacity()
    {
      Next(head) == tail
    }

    /** `push(value)`: append at the back unless full. */
    method Push(value: T) returns (ok: bool)
      requires Valid()
      modifies this, buffer
      ensures Valid()
      ensures ok <==> !old(Full())
      ensures !ok ==> head == old(head) && tail == old(tail) && buffer[..] == old(buffer[..])
      ensures ok ==> (head == old(Next(head)) && tail == old(tail)
                      && buffer[..] == old(buffer[..])[old(head) := value])
      ensures ok ==> Contents() == old(Contents()) + [value] && Size() == old(Size()) + 1
    {
      var nextHead := Next(head);
      if nextHead == tail {
        return false;
      }
      buffer[head] := value;
      head := nextHead;
      ok := true;
      if old(head) >= tail {
        if head == 0 {
          assert buffer[..head] == [];
          assert Contents() == buffer[tail..];
        } else {
          assert Contents() == buffer[tail..head];
        }
      }
    }

    /** `pop(out)`: remove the front element into `out` unless empty; `out` keeps its value otherwise. */
    method Pop(out0: T) returns (ok: bool, out: T)
      requires Valid()
      modifies this
      ensures Valid()
      ensures ok <==> old(Contents()) != []
      ensures !ok ==> out == out0 && head == old(head) && tail == old(tail)
      ensures ok ==> out == old(buffer[tail]) && tail == old(Next(tail)) && head == old(head)
      ensures ok ==> out == old(Contents())[0] && Contents() == old(Contents())[1..]
      ensures ok ==> Size() == old(Size()) - 1
    {
      if head == tail {
        return false, out0;
      }
      out := buffer[tail];
      tail := Next(tail);
      ok := true;
      if tail == 0 {
        assert buffer[tail..head] == buffer[..head];
      }
    }
  }
}
