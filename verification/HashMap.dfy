// containers/map.c with a growth factor of 0: open addressing inside a window of
// sixteen slots.

module HashMaps {
  import opened Bits
  import opened Results

  const SLICE: nat := 16

  // The i-th slot probed for a hash: the 64-bit sum, masked to the capacity.
  function Slot(h: nat, i: nat, capacity: nat): nat
    requires capacity >= 1
  {
    And((h + i) % TWO64, capacity - 1)
  }

  lemma SlotIsMod(h: nat, i: nat, capacity: nat)
    requires IsPow2(capacity) && 1 <= capacity <= TWO32
    ensures Slot(h, i, capacity) == (h + i) % capacity < capacity
  {
    MaskIsMod((h + i) % TWO64, capacity);
    WordsArePow2();
    var d := Pow2Divides(capacity, TWO64);
    ModModMultiple(h + i, capacity, d);
  }

  ghost predicate InWindow(h: nat, slot: nat, capacity: nat)
    requires capacity >= 1
  {
    exists i: nat :: i < SLICE && Slot(h, i, capacity) == slot
  }

  // A window holds sixteen different slots, or the whole of a smaller table.
  lemma WindowSlotsDiffer(h: nat, i: nat, j: nat, capacity: nat)
    requires IsPow2(capacity) && SLICE <= capacity <= TWO32 && i < j < SLICE
    ensures Slot(h, i, capacity) != Slot(h, j, capacity)
  {
    SlotIsMod(h, i, capacity);
    SlotIsMod(h, j, capacity);
    ModDiffers(h + i, j - i, capacity);
  }

  lemma SmallTableIsOneWindow(h: nat, slot: nat, capacity: nat)
    requires IsPow2(capacity) && 1 <= capacity <= SLICE && slot < capacity
    ensures InWindow(h, slot, capacity)
  {
    var i := ModReaches(h, slot, capacity);
    SlotIsMod(h, i, capacity);
    assert Slot(h, i, capacity) == slot;
  }

  // The window, by how far a slot is from where the hash points.
  lemma WindowIsDistance(h: nat, slot: nat, capacity: nat)
    requires IsPow2(capacity) && 1 <= capacity <= TWO32 && slot < capacity
    ensures InWindow(h, slot, capacity) <==> (slot - h) % capacity < 16
  {
    if InWindow(h, slot, capacity) {
      var i: nat :| i < SLICE && Slot(h, i, capacity) == slot;
      SlotIsMod(h, i, capacity);
      DistanceBack(h, i, slot, capacity);
    }
    SlotAtDistance(h, slot, capacity);
  }

  lemma SlotAtDistance(h: nat, slot: nat, capacity: nat)
    requires IsPow2(capacity) && 1 <= capacity <= TWO32 && slot < capacity
    ensures Slot(h, (slot - h) % capacity, capacity) == slot
  {
    SlotIsMod(h, (slot - h) % capacity, capacity);
    DistanceForward(h, slot, capacity);
  }

  lemma DistanceForward(h: nat, slot: nat, capacity: nat)
    requires capacity >= 1 && slot < capacity
    ensures (h + (slot - h) % capacity) % capacity == slot
  {
    var q, i := (slot - h) / capacity, (slot - h) % capacity;
    assert slot - h == capacity * q + i;
    DivModUnique(h + i, capacity, -q, slot);
  }

  lemma DistanceBack(h: nat, i: nat, slot: nat, capacity: nat)
    requires capacity >= 1 && (h + i) % capacity == slot
    ensures (slot - h) % capacity <= i
  {
    var q := (h + i) / capacity;
    assert slot - h == i - capacity * q;
    DivModUnique(slot - h, capacity, i / capacity - q, i % capacity);
  }

  function Min(a: nat, b: nat): nat {
    if a < b then a else b
  }

  lemma {:induction false} ManyKeys<K>(ks: seq<K>, held: set<K>)
    requires forall i :: 0 <= i < |ks| ==> ks[i] in held
    requires forall i, j :: 0 <= i < j < |ks| ==> ks[i] != ks[j]
    ensures |held| >= |ks|
  {
    if ks != [] {
      ManyKeys(ks[1..], held - {ks[0]});
    }
  }

  // Keys come with a hash and a value that stands for no key, as the callbacks given
  // to the map say.
  class Map<K(==), V(==)> {
    const keys: array<K>
    const values: array<V>
    const none: K
    const hash: K -> nat

    // What the map holds, and in which slot
    ghost var contents: map<K, V>
    ghost var slots: map<K, nat>

    ghost predicate Valid()
      reads this, keys, values
    {
      && IsPow2(keys.Length) && 1 <= keys.Length <= TWO32 / 2 && values.Length == keys.Length && Apart(keys, values)
      && contents.Keys == slots.Keys && none !in slots
      && (forall j :: 0 <= j < keys.Length && keys[j] != none ==> keys[j] in slots && slots[keys[j]] == j)
      && (forall k :: k in slots ==>
            && slots[k] < keys.Length && keys[slots[k]] == k && contents[k] == values[slots[k]]
            && InWindow(hash(k), slots[k], keys.Length))
    }

    // Some slot of the key's window is empty.
    ghost predicate HasRoom(key: K)
      reads keys
      requires keys.Length >= 1 && IsPow2(keys.Length) && keys.Length <= TWO32
    {
      exists j :: 0 <= j < keys.Length && keys[j] == none && InWindow(hash(key), j, keys.Length)
    }

    constructor (keys: array<K>, values: array<V>, none: K, hash: K -> nat)
      ensures this.keys == keys && this.values == values && this.none == none && this.hash == hash
      ensures contents == map[] && slots == map[]
    {
      this.keys, this.values, this.none, this.hash := keys, values, none, hash;
      contents, slots := map[], map[];
    }

    // ms_map_construct; keys and values are what the allocator returned, if anything.
    static method Construct(capacity: nat, none: K, hash: K -> nat, keys: array?<K>, values: array?<V>)
      returns (result: Outcome, m: Map?<K, V>)
      requires capacity < TWO32
      requires keys != null ==> keys.Length == capacity
      requires values != null ==> values.Length == capacity
      requires keys != null && values != null ==> Apart(keys, values)
      modifies keys
      ensures result == (if !IsPower2(capacity) then InvalidArgument
                       else if keys == null || values == null then Memory else Success)
      ensures result.Success? <==> m != null
      ensures m != null ==> fresh(m) && m.Valid() && m.contents == map[] && m.keys == keys && m.values == values
      ensures m != null ==> m.none == none && m.hash == hash
    {
      m := null;
      if !IsPower2(capacity) {
        return InvalidArgument, null;
      }
      if keys == null || values == null {
        return Memory, null;
      }
      m := new Map(keys, values, none, hash);
      var i := 0;
      while i < capacity
        invariant i <= capacity
        invariant forall j :: 0 <= j < i ==> keys[j] == none
        modifies keys
      {
        keys[i] := none;
        i := i + 1;
      }
      IsPower2Correct(capacity);
      PowerFitsHalf(capacity);
      result := Success;
    }

    // ms_map_get_index: the key's slot, or UINT32_MAX
    method GetIndex(key: K) returns (index: nat)
      requires Valid() && key != none
      ensures index == if key in slots then slots[key] else UINT32_MAX
    {
      var h := hash(key);
      var i := 0;
      while i < SLICE
        invariant i <= SLICE
        invariant forall l: nat {:trigger Slot(h, l, keys.Length)} :: l < i ==>
                    Slot(h, l, keys.Length) < keys.Length && keys[Slot(h, l, keys.Length)] != key
      {
        SlotIsMod(h, i, keys.Length);
        index := Slot(h, i, keys.Length);
        if key == keys[index] {
          return;
        }
        i := i + 1;
      }
      index := UINT32_MAX;
    }

    // find_empty: an empty slot of the key's window, or UINT32_MAX
    method FindEmpty(key: K) returns (index: nat)
      requires Valid()
      ensures index == UINT32_MAX <==> !HasRoom(key)
      ensures index != UINT32_MAX ==>
                index < keys.Length && keys[index] == none && InWindow(hash(key), index, keys.Length)
      ensures index != UINT32_MAX ==>
                var h, c := hash(key), keys.Length;
                forall j :: 0 <= j < c && (j - h) % c < (index - h) % c ==> keys[j] != none
    {
      var h := hash(key);
      var i := 0;
      while i < SLICE
        invariant i <= SLICE
        invariant forall l: nat {:trigger Slot(h, l, keys.Length)} :: l < i ==>
                    Slot(h, l, keys.Length) < keys.Length && keys[Slot(h, l, keys.Length)] != none
      {
        SlotIsMod(h, i, keys.Length);
        index := Slot(h, i, keys.Length);
        if keys[index] == none {
          FirstInWindow(h, i, index);
          return;
        }
        i := i + 1;
      }
      index := UINT32_MAX;
    }

    // The slots before the i-th are those nearer to where the hash points.
    lemma FirstInWindow(h: nat, i: nat, index: nat)
      requires Valid() && i < SLICE && index == Slot(h, i, keys.Length) < keys.Length
      requires forall l: nat {:trigger Slot(h, l, keys.Length)} :: l < i ==>
                 Slot(h, l, keys.Length) < keys.Length && keys[Slot(h, l, keys.Length)] != none
      ensures forall j :: 0 <= j < keys.Length && (j - h) % keys.Length < (index - h) % keys.Length ==> keys[j] != none
    {
      var c := keys.Length;
      SlotIsMod(h, i, c);
      DistanceBack(h, i, index, c);
      forall j | 0 <= j < c && (j - h) % c < (index - h) % c
        ensures keys[j] != none
      {
        SlotAtDistance(h, j, c);
      }
    }

    // ms_map_get_value
    method Get(key: K) returns (value: Option<V>)
      requires Valid() && key != none
      ensures value == if key in contents then Some(contents[key]) else None
    {
      var index := GetIndex(key);
      if index != UINT32_MAX {
        return Some(values[index]);
      }
      value := None;
    }

    // Room is an empty slot among the sixteen from where the hash points; a map without
    // room for some key holds at least as many keys.
    lemma RoomInWindow(key: K)
      requires Valid()
      ensures HasRoom(key) <==>
                exists j :: 0 <= j < keys.Length && keys[j] == none && (j - hash(key)) % keys.Length < 16
      ensures !HasRoom(key) ==> |contents| >= Min(16, keys.Length)
    {
      forall j | 0 <= j < keys.Length
        ensures InWindow(hash(key), j, keys.Length) <==> (j - hash(key)) % keys.Length < 16
      {
        WindowIsDistance(hash(key), j, keys.Length);
      }
      if !HasRoom(key) {
        Crowded(key);
      }
    }

    lemma Crowded(key: K)
      requires Valid() && !HasRoom(key)
      ensures |contents| >= Min(16, keys.Length)
    {
      var h, c, kk := hash(key), keys.Length, keys[..];
      var n := Min(SLICE, c);
      var ks := seq(n, i requires 0 <= i < n => kk[(h + i) % c]);
      forall i | 0 <= i < n
        ensures ks[i] in contents && slots[ks[i]] == (h + i) % c
      {
        SlotIsMod(h, i, c);
        assert InWindow(h, Slot(h, i, c), c);
      }
      forall i, j | 0 <= i < j < n
        ensures ks[i] != ks[j]
      {
        ModDiffers(h + i, j - i, c);
      }
      ManyKeys(ks, contents.Keys);
    }

    // ms_map_set: fails exactly when the key is new and its window has no room, and
    // then changes nothing.
    method Set(key: K, value: V) returns (result: Outcome)
      requires Valid() && key != none
      modifies this, keys, values
      ensures Valid()
      ensures result == if key !in old(contents) && !old(HasRoom(key)) then Full else Success
      ensures result == Full <==>
                && key !in old(contents)
                && forall j :: 0 <= j < keys.Length && (j - hash(key)) % keys.Length < 16 ==> old(keys[j]) != none
      ensures result == Full ==> |old(contents)| >= Min(16, keys.Length)
      ensures contents == if result == Success then old(contents)[key := value] else old(contents)
      ensures result == Full ==> unchanged(this, keys, values)
    {
      var index := GetIndex(key);
      RoomInWindow(key);
      if index == UINT32_MAX {
        index := FindEmpty(key);
      }
      if index != UINT32_MAX {
        keys[index] := key;
        values[index] := value;
        contents, slots := contents[key := value], slots[key := index];
        return Success;
      }
      result := Full;
    }

    // ms_map_remove: the slot is emptied, and nothing else has to be marked or moved.
    method Remove(key: K) returns (removed: bool)
      requires Valid() && key != none
      modifies this, keys
      ensures Valid()
      ensures removed <==> key in old(contents)
      ensures contents == old(contents) - {key}
    {
      var index := GetIndex(key);
      if index != UINT32_MAX {
        keys[index] := none;
        contents, slots := contents - {key}, slots - {key};
        return true;
      }
      removed := false;
    }
  }

  // When there is no room for a key, every slot of its window holds a key of the map:
  // sixteen different ones, or as many as a smaller table has slots.
  lemma NoRoomMeansCrowded<K, V>(m: Map<K, V>, key: K)
    requires m.Valid() && !m.HasRoom(key)
    ensures m.keys.Length <= SLICE ==> forall j :: 0 <= j < m.keys.Length ==> m.keys[j] in m.contents
    ensures forall i: nat {:trigger Slot(m.hash(key), i, m.keys.Length)} :: i < SLICE ==>
              var j := Slot(m.hash(key), i, m.keys.Length);
              j < m.keys.Length && m.keys[j] in m.contents && m.slots[m.keys[j]] == j
    ensures m.keys.Length >= SLICE ==>
              var h, c := m.hash(key), m.keys.Length;
              forall i: nat, l: nat {:trigger Slot(h, i, c), Slot(h, l, c)} :: i < l < SLICE ==>
                Slot(h, i, c) != Slot(h, l, c)
  {
    var h, c := m.hash(key), m.keys.Length;
    forall i: nat {:trigger Slot(h, i, c)} | i < SLICE
      ensures var j := Slot(h, i, c); j < c && m.keys[j] in m.contents && m.slots[m.keys[j]] == j
    {
      SlotIsMod(h, i, c);
    }
    if c >= SLICE {
      forall i: nat, l: nat {:trigger Slot(h, i, c), Slot(h, l, c)} | i < l < SLICE
        ensures Slot(h, i, c) != Slot(h, l, c)
      {
        WindowSlotsDiffer(h, i, l, c);
      }
    }
    if c <= SLICE {
      forall j | 0 <= j < c ensures m.keys[j] in m.contents {
        SmallTableIsOneWindow(h, j, c);
      }
    }
  }

  // ---- Sixteen keys with one hash

  ghost function Range(hi: nat): set<int> {
    if hi == 0 then {} else Range(hi - 1) + {hi - 1}
  }

  lemma {:induction false} RangeHolds(hi: nat)
    ensures |Range(hi)| == hi && forall x: int :: x in Range(hi) <==> 0 <= x < hi
  {
    if hi > 0 {
      RangeHolds(hi - 1);
    }
  }

  // Sixteen different numbers below 16 are all of them.
  lemma AllTaken(taken: seq<int>, j: int)
    requires |taken| == 16 && 0 <= j < 16
    requires forall i :: 0 <= i < 16 ==> 0 <= taken[i] < 16
    requires forall i, l :: 0 <= i < l < 16 ==> taken[i] != taken[l]
    ensures j in taken
  {
    RangeHolds(16);
    if j !in taken {
      ManyKeys(taken, Range(16) - {j});
      assert false;
    }
  }

  lemma Pigeonhole(slots: map<nat, nat>, j: nat)
    requires j < 16 && forall k: nat :: 1 <= k <= 16 ==> k in slots && slots[k] < 16
    requires forall k: nat, l: nat :: 1 <= k < l <= 16 ==> slots[k] != slots[l]
    ensures exists k: nat :: 1 <= k <= 16 && slots[k] == j
  {
    var taken := seq(16, i requires 0 <= i < 16 && i + 1 in slots => slots[i + 1] as int);
    AllTaken(taken, j);
    var i :| 0 <= i < 16 && taken[i] == j;
    assert slots[i + 1] == j;
  }

  // Sixteen keys of a hash 0 fill the sixteen slots from 0 on.
  lemma SixteenFill(m: Map<nat, nat>, j: nat)
    requires m.Valid() && m.keys.Length == 32 && j < 16
    requires forall k: nat :: 1 <= k <= 16 ==> k in m.slots && m.hash(k) == 0
    ensures m.keys[j] != m.none
  {
    forall k: nat | 1 <= k <= 16
      ensures m.slots[k] < 16 && m.keys[m.slots[k]] == k
    {
      WindowIsDistance(0, m.slots[k], 32);
    }
    Pigeonhole(m.slots, j);
  }

  // Keys 1 to n, all with hash 0, in a table of 32 slots
  ghost predicate Colliding(m: Map<nat, nat>, n: nat)
    reads m, m.keys, m.values
  {
    && m.Valid() && m.keys.Length == 32 && m.none == 0 && (forall x :: m.hash(x) == 0)
    && |m.contents| == n && forall x: nat :: x in m.contents <==> 1 <= x <= n
  }

  // Sixteen such keys find room, and the seventeenth does not.
  method SixteenCollide(keys: array<nat>, values: array<nat>) returns (m: Map<nat, nat>, last: Outcome)
    requires keys.Length == values.Length == 32 && Apart(keys, values)
    modifies keys, values
    ensures Colliding(m, 16) && last == Full
  {
    m := FreshTable(keys, values);
    for n := 0 to 16
      invariant fresh(m) && m.keys == keys && m.values == values && Colliding(m, n)
    {
      Collide(m, n);
    }
    last := Seventeenth(m);
  }

  method FreshTable(keys: array<nat>, values: array<nat>) returns (m: Map<nat, nat>)
    requires keys.Length == values.Length == 32 && Apart(keys, values)
    modifies keys
    ensures fresh(m) && m.keys == keys && m.values == values && Colliding(m, 0)
  {
    ThirtyTwo();
    var result, made := Map<nat, nat>.Construct(32, 0, (k: nat) => 0, keys, values);
    m := made;
  }

  method Collide(m: Map<nat, nat>, n: nat)
    requires Colliding(m, n) && n < 16
    modifies m, m.keys, m.values
    ensures Colliding(m, n + 1)
  {
    var result := m.Set(n + 1, n + 1);
  }

  method Seventeenth(m: Map<nat, nat>) returns (last: Outcome)
    requires Colliding(m, 16)
    modifies m, m.keys, m.values
    ensures Colliding(m, 16) && last == Full
  {
    WindowIsFull(m);
    last := m.Set(17, 17);
  }

  lemma WindowIsFull(m: Map<nat, nat>)
    requires Colliding(m, 16)
    ensures 17 !in m.contents && !m.HasRoom(17)
  {
    if j :| 0 <= j < m.keys.Length && m.keys[j] == m.none && InWindow(m.hash(17), j, m.keys.Length) {
      SlotBelow(m.hash(17), j, m.keys.Length);
      SixteenFill(m, j);
      assert false;
    }
  }

  lemma SlotBelow(h: nat, j: nat, capacity: nat)
    requires IsPow2(capacity) && h == 0 && j < capacity <= TWO32 && InWindow(h, j, capacity)
    ensures j < 16
  {
    WindowIsDistance(h, j, capacity);
    DivModUnique(j, capacity, 0, j);
  }

  lemma ThirtyTwo()
    ensures IsPower2(32)
  {
    assert Pow2(5) == 32;
    IsPower2Correct(32);
  }

  ghost predicate Apart<K, V>(keys: array<K>, values: array<V>) {
    var a: object, b: object := keys, values;
    a != b
  }

  lemma PowerFitsHalf(n: nat)
    requires IsPow2(n) && n < TWO32
    ensures 1 <= n <= TWO32 / 2
  {
    WordsArePow2();
    Pow2Words();
    var k: nat :| n == Pow2(k);
    if k >= 32 {
      Pow2Monotone(32, k);
    } else {
      Pow2Monotone(k, 31);
    }
  }
}
