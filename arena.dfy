/**
 The fixed-capacity, append-only container of src/util/arena.h: `CAP` slots allocated
 once, a "first available index" that only `Acquire` moves forward and `Clear` resets,
 and reads by index that are bounded by the capacity, not by the count.
 */
module Arenas {

  class Arena<T(0)> {
    /** The template argument `CAP`. */
    const CAP: nat
    /** `_data`, resized to `CAP` by the constructor and never resized again. */
    const data: array<T>
    /** `_firstAvailableIdx`. */
    var count: nat

    ghost predicate Valid()
      reads this
    {
      data.Length == CAP && count <= CAP
    }

    /** The elements appended since the last `Clear`. */
    function Contents(): (s: seq<T>)
      reads this, data
      requires Valid()
      ensures |s| == count
    {
      data[..count]
    }

    /** A fresh arena: no elements, `CAP` slots. */
    constructor (cap: nat)
      ensures Valid() && fresh(data)
      ensures CAP == cap && data.Length == cap && count == 0 && Contents() == []
    {
      CAP := cap;
      data := new T[cap];
      count := 0;
    }

    /**
     `acquire`: writes `obj` at the old count and returns the new count. The second
     argument is accepted and ignored, as in the source. The source does not check the
     capacity, so this model makes room for one more element its precondition.
     */
    method Acquire(obj: T, ignored: nat := 1) returns (newCount: nat)
      requires Valid() && count < CAP
      modifies this`count, data
      ensures Valid()
      ensures count == old(count) + 1 && newCount == count
      ensures data[old(count)] == obj
      ensures forall j :: 0 <= j < CAP && j != old(count) ==> data[j] == old(data[j])
      ensures Contents() == old(Contents()) + [obj]
    {
      data[count] := obj;
      count := count + 1;
      newCount := count;
    }

    /** `at` and `get`: slot `idx`, readable whenever it is below the capacity, also after `Clear`. */
    function Get(idx: nat): (x: T)
      reads this, data
      requires Valid() && idx < CAP
      ensures idx < count ==> x == Contents()[idx]
    {
      data[idx]
    }

    /** `count()`. */
    function Count(): (n: nat)
      reads this
      requires Valid()
      ensures n <= Capacity()
    {
      count
    }

    /** `capacity()`: the number of slots, which no count ever exceeds. */
    function Capacity(): (n: nat)
      reads this
      requires Valid()
      ensures n == data.Length && count <= n
    {
      CAP
    }

    /** `clear`: forgets the elements but leaves every slot as it was. */
    method Clear()
      requires Valid()
      modifies this`count
      ensures Valid() && count == 0 && Contents() == []
      ensures data[..] == old(data[..])
    {
      count := 0;
    }

    /**
     Copy assignment of one arena to another: the whole slot vector and the
     count are copied from `src`.
     */
    method CopyFrom(src: Arena<T>)
      requires Valid() && src.Valid() && src.CAP == CAP && src.data != data
      modifies this`count, data
      ensures Valid() && count == src.count
      ensures data[..] == src.data[..] && Contents() == src.Contents()
    {
      forall j | 0 <= j < CAP {
        data[j] := src.data[j];
      }
      count := src.count;
    }
  }
}
