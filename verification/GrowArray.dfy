/** An array that grows.  After every operation at least one slot behind the elements is spare. */
module GrowArrays {
  class GrowArray<T(0)> {
    var maxSize: nat
    var numElems: nat
    var slots: array<T>

    /** The spare slot is what makes the unchecked write in `Append` safe. */
    ghost predicate Valid()
      reads this
    {
      slots.Length == maxSize && numElems < maxSize
    }

    ghost function Contents(): (s: seq<T>)
      reads this, slots
      requires Valid()
      ensures |s| == numElems
    {
      slots[..numElems]
    }

    constructor (initialSize: int)
      ensures Valid() && fresh(slots) && Contents() == []
      ensures maxSize == if initialSize < 1 then 1 else initialSize
    {
      var size := if initialSize < 1 then 1 else initialSize;
      maxSize, numElems := size, 0;
      slots := new T[size];
    }

    constructor Copy(other: GrowArray<T>)
      requires other.Valid()
      ensures Valid() && fresh(slots) && Contents() == other.Contents() && maxSize == other.maxSize
    {
      maxSize, numElems := other.maxSize, other.numElems;
      slots := new T[other.maxSize];
      new;
      for i := 0 to numElems
        invariant slots[..i] == other.slots[..i]
        modifies slots
      {
        slots[i] := other.slots[i];
      }
    }

    method Append(newElem: T)
      requires Valid()
      modifies this, slots
      ensures Valid() && (slots == old(slots) || fresh(slots))
      ensures Contents() == old(Contents()) + [newElem]
      ensures maxSize == if old(numElems) + 1 == old(maxSize) then 2 * old(maxSize) else old(maxSize)
    {
      slots[numElems] := newElem;
      numElems := numElems + 1;
      assert slots[..numElems] == old(Contents()) + [newElem];
      if numElems == maxSize {
        Grow(maxSize * 2);
      }
    }

    method Grow(newSize: nat)
      requires slots.Length == maxSize && numElems <= maxSize && numElems < newSize
      modifies this`slots, this`maxSize
      ensures Valid() && fresh(slots) && maxSize == newSize
      ensures Contents() == old(slots[..numElems])
    {
      var oldSlots := slots;
      slots := new T[newSize];
      for i := 0 to numElems
        invariant slots[..i] == oldSlots[..i]
        modifies slots
      {
        slots[i] := oldSlots[i];
      }
      maxSize := newSize;
    }

    method DeleteLast()
      requires Valid()
      modifies this`numElems
      ensures Valid()
      ensures Contents() == if old(Contents()) == [] then [] else old(Contents())[..old(numElems) - 1]
    {
      if numElems > 0 {
        numElems := numElems - 1;
      }
    }

    method Size() returns (n: nat)
      requires Valid()
      ensures n == |Contents()|
    {
      n := numElems;
    }

    /** The accessor does not compare the index with the number of elements: the spare slot may be read too. */
    method Get(i: nat) returns (x: T)
      requires Valid() && i <= numElems
      ensures i < numElems ==> x == Contents()[i]
    {
      x := slots[i];
    }

    /** Writing the spare slot changes no element. */
    method Set(i: nat, x: T)
      requires Valid() && i <= numElems
      modifies slots
      ensures Valid()
      ensures Contents() == if i < numElems then old(Contents())[i := x] else old(Contents())
    {
      slots[i] := x;
    }
  }
}
