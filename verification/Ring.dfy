// containers/ring.c: a ring of slots with a 32-bit write index that wraps.

module Rings {
  import opened Bits
  import opened Results

  // The slot of the i-th oldest item: the read index, masked to the capacity.
  function Index(windex: nat, count: nat, i: nat, capacity: nat): nat
    requires count <= TWO32 && capacity >= 1
  {
    (windex + (TWO32 - count) + i) % capacity
  }

  // The write index may wrap because the capacity divides 2^32 ...
  lemma WrapKeepsSlot(w: nat, capacity: nat)
    requires IsPow2(capacity) && 1 <= capacity <= TWO32
    ensures (w % TWO32) % capacity == w % capacity
  {
    WordsArePow2();
    var d := Pow2Divides(capacity, TWO32);
    ModModMultiple(w, capacity, d);
  }

  // ... and for no other reason: with any capacity, the next slot is the same before
  // and after the wrap exactly when the capacity divides 2^32.
  lemma WrapIsHarmlessExactly(capacity: nat)
    requires 1 <= capacity <= TWO32
    ensures (forall w: nat {:trigger Stepped(w)} :: w < TWO32 ==> Stepped(w) % capacity == (w + 1) % capacity)
            <==> TWO32 % capacity == 0
  {
    assert Stepped(TWO32 - 1) == 0;
    if TWO32 % capacity == 0 {
      assert TWO32 == capacity * (TWO32 / capacity);
      forall w: nat {:trigger Stepped(w)} | w < TWO32 ensures Stepped(w) % capacity == (w + 1) % capacity {
        ModModMultiple(w + 1, capacity, TWO32 / capacity);
      }
    }
  }

  // windex++
  function Stepped(windex: nat): nat {
    (windex + 1) % TWO32
  }

  lemma SlotsDiffer(windex: nat, count: nat, i: nat, j: nat, capacity: nat)
    requires i < j < capacity && count <= capacity <= TWO32
    ensures Index(windex, count, i, capacity) != Index(windex, count, j, capacity)
  {
    ModDiffers(windex + (TWO32 - count) + i, j - i, capacity);
  }

  // Taking a slot moves no item that is already in the ring, wrap or not.
  lemma SteppedKeepsSlots(windex: nat, count: nat, i: nat, capacity: nat)
    requires IsPow2(capacity) && count < capacity <= TWO32 && windex < TWO32
    ensures Index(Stepped(windex), count + 1, i, capacity) == Index(windex, count, i, capacity)
  {
    if windex + 1 == TWO32 {
      WordsArePow2();
      var d := Pow2Divides(capacity, TWO32);
      var x := windex + (TWO32 - count) + i;
      var q, r := x / capacity, x % capacity;
      assert x - TWO32 == (q - d) * capacity + r;
      DivModUnique(x - TWO32, capacity, q - d, r);
    }
  }

  // A turn of 2^32 changes no slot.
  lemma TurnKeepsSlot(x: nat, capacity: nat)
    requires IsPow2(capacity) && 1 <= capacity <= TWO32
    ensures (x + TWO32) % capacity == x % capacity
  {
    WordsArePow2();
    var d := Pow2Divides(capacity, TWO32);
    DivModUnique(x + TWO32, capacity, x / capacity + d, x % capacity);
  }

  lemma WrittenSlot(windex: nat, count: nat, capacity: nat)
    requires IsPow2(capacity) && count < capacity <= TWO32
    ensures And(windex, capacity - 1) == Index(windex, count, count, capacity)
  {
    MaskIsMod(windex, capacity);
    TurnKeepsSlot(windex, capacity);
  }

  lemma ReadSlot(windex: nat, count: nat, capacity: nat)
    requires IsPow2(capacity) && 0 < count <= capacity <= TWO32 && windex < TWO32
    ensures And((capacity + (windex + TWO32 - count)) % TWO32, capacity - 1) == Index(windex, count, 0, capacity)
  {
    var x := windex + TWO32 - count;
    MaskIsMod((capacity + x) % TWO32, capacity);
    WrapKeepsSlot(capacity + x, capacity);
    NextTurn(x, capacity);
  }

  // The slot of the oldest item, without the turn that keeps the words from wrapping
  lemma OldestSlot(windex: nat, count: nat, capacity: nat)
    requires IsPow2(capacity) && 1 <= capacity <= TWO32
    requires count <= TWO32
    ensures Index(windex, count, 0, capacity) == (windex - count) % capacity
  {
    WordsArePow2();
    var d := Pow2Divides(capacity, TWO32);
    var x := windex + (TWO32 - count);
    DivModUnique(windex - count, capacity, x / capacity - d, x % capacity);
  }

  lemma NextTurn(x: nat, capacity: nat)
    requires capacity >= 1
    ensures (capacity + x) % capacity == x % capacity
  {
    DivModUnique(capacity + x, capacity, x / capacity + 1, x % capacity);
  }

  class Ring<T> {
    const capacity: nat
    const values: array<T>
    var count: nat
    var windex: nat

    constructor (capacity: nat, values: array<T>)
      ensures this.capacity == capacity && this.values == values && count == 0 && windex == 0
    {
      this.capacity, this.values, count, windex := capacity, values, 0, 0;
    }

    ghost predicate Valid()
      reads this
    {
      IsPow2(capacity) && 1 <= capacity < TWO32 && values.Length == capacity && count <= capacity && windex < TWO32
    }

    // What is in the ring, oldest first
    ghost function Contents(): (items: seq<T>)
      requires Valid()
      reads this, values
      ensures |items| == count
    {
      seq(count, i requires 0 <= i < count reads this, values requires Valid() =>
            values[Index(windex, count, i, capacity)])
    }

    // ms_ring_construct; values is what the allocator returned, if anything.
    static method Construct(capacity: nat, itemSize: nat, values: array?<T>) returns (result: Outcome, ring: Ring?<T>)
      requires capacity < TWO32 && (values != null ==> values.Length == capacity)
      ensures result == (if !IsPow2(capacity) || itemSize == 0 then InvalidArgument
                       else if values == null then Memory else Success)
      ensures result.Success? <==> ring != null
      ensures ring != null ==> fresh(ring) && ring.Valid() && ring.Contents() == []
      ensures ring != null ==> ring.capacity == capacity && ring.values == values
    {
      ring := null;
      IsPower2Correct(capacity);
      if !IsPower2(capacity) || capacity == 0 {
        return InvalidArgument, null;
      }
      if itemSize == 0 {
        return InvalidArgument, null;
      }
      if values == null {
        return Memory, null;
      }
      ring := new Ring(capacity, values);
      result := Success;
    }

    // ms_ring_enqueue: a slot for a new last item, which the caller then fills. No item
    // in the ring is in that slot.
    method Enqueue() returns (item: Option<nat>)
      requires Valid()
      modifies this
      ensures Valid()
      ensures item == None <==> old(count) == capacity
      ensures item == None ==> count == old(count) && windex == old(windex)
      ensures item != None ==> item.value < capacity && count == old(count) + 1
      ensures item != None ==> Contents() == old(Contents()) + [values[item.value]]
      ensures item != None ==> item.value == Index(windex, count, old(count), capacity)
      ensures item != None ==> item.value == old(windex) % capacity && windex == (old(windex) + 1) % TWO32
    {
      if count < capacity {
        var index := And(windex, capacity - 1);
        WrittenSlot(windex, count, capacity);
        MaskIsMod(windex, capacity);
        ghost var before := Contents();
        ghost var c, w := count, windex;
        windex := Stepped(windex);
        count := count + 1;
        forall i | 0 <= i <= c ensures Index(windex, count, i, capacity) == Index(w, c, i, capacity) {
          SteppedKeepsSlots(w, c, i, capacity);
        }
        assert Contents() == before + [values[index]];
        return Some(index);
      }
      item := None;
    }

    // ms_ring_dequeue: the slot of the oldest item.
    method Dequeue() returns (item: Option<nat>)
      requires Valid()
      modifies this
      ensures Valid() && windex == old(windex)
      ensures item == None <==> old(Contents()) == []
      ensures item == None ==> count == old(count)
      ensures item != None ==> item.value < capacity && [values[item.value]] + Contents() == old(Contents())
      ensures item != None ==> item.value == (windex - old(count)) % capacity
    {
      if count > 0 {
        var index := And((capacity + (windex + TWO32 - count)) % TWO32, capacity - 1);
        ReadSlot(windex, count, capacity);
        OldestSlot(windex, count, capacity);
        ghost var before := Contents();
        count := count - 1;
        assert [values[index]] + Contents() == before;
        return Some(index);
      }
      item := None;
    }
  }
}
