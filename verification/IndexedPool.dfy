// containers/indexed-pool.c: a pool of item indices, one bit each, packed into 64-bit
// words.

module IndexedPools {
  import opened Bits
  import opened Results

  const FULL: nat := TWO64 - 1

  // ms_test with a one-bit mask
  predicate Test(block: nat, i: nat) {
    And(block, Pow2(i)) == Pow2(i)
  }

  lemma TestIsBit(block: nat, i: nat)
    ensures Test(block, i) <==> Bit(block, i)
  {
    TestBit(block, i);
  }

  // Setting or clearing one bit of a word leaves the others and stays a word.
  lemma SetOne(block: nat, k: nat)
    requires block < TWO64 && k < 64
    ensures Or(block, Pow2(k)) < TWO64
    ensures forall i: nat :: Bit(Or(block, Pow2(k)), i) <==> Bit(block, i) || i == k
  {
    Pow2Words();
    Pow2Monotone(k, 63);
    OrBound(block, Pow2(k), 64);
    forall i: nat ensures Bit(Or(block, Pow2(k)), i) <==> Bit(block, i) || i == k {
      BitOr(block, Pow2(k), i);
      BitPow2(k, i);
    }
  }

  lemma ClearOne(block: nat, k: nat)
    requires block < TWO64
    ensures AndNot(block, Pow2(k)) < TWO64
    ensures forall i: nat :: Bit(AndNot(block, Pow2(k)), i) <==> Bit(block, i) && i != k
  {
    AndNotBound(block, Pow2(k));
    forall i: nat ensures Bit(AndNot(block, Pow2(k)), i) <==> Bit(block, i) && i != k {
      BitAndNot(block, Pow2(k), i);
      BitPow2(k, i);
    }
  }

  // A word is full exactly when each of its 64 bits is set.
  lemma FullMeansAllSet(block: nat)
    requires block < TWO64
    ensures block == FULL <==> forall i: nat :: i < 64 ==> Bit(block, i)
  {
    Pow2Words();
    if block == FULL {
      forall i: nat | i < 64 ensures Bit(block, i) {
        OnesBit(64, i);
      }
    } else {
      var i := ClearBit(block, 64);
    }
  }

  // find_block_offset: the lowest clear bit, or UINT_MAX
  method FindBlockOffset(block: nat) returns (offset: nat)
    requires block < TWO64
    ensures offset < 64 || offset == UINT32_MAX
    ensures offset == UINT32_MAX <==> block == FULL
    ensures offset < 64 ==> !Bit(block, offset) && forall j: nat :: j < offset ==> Bit(block, j)
  {
    var i := 0;
    FullMeansAllSet(block);
    while i < 64
      invariant i <= 64
      invariant forall j: nat :: j < i ==> Bit(block, j)
    {
      TestIsBit(block, i);
      if !Test(block, i) {
        return i;
      }
      i := i + 1;
    }
    offset := UINT32_MAX;
  }

  predicate IsOut(words: seq<nat>, item: int) {
    0 <= item < 64 * |words| && Bit(words[item / 64], item % 64)
  }

  // The items whose bits are set
  ghost function Items(words: seq<nat>): set<int> {
    set item: int | 0 <= item < 64 * |words| && IsOut(words, item)
  }

  ghost predicate AllOut(out: set<int>, lo: int, hi: int) {
    forall i: int :: lo <= i < hi ==> i in out
  }

  lemma LowerBits(words: seq<nat>, b: nat, offset: nat)
    requires b < |words| && offset <= 64 && forall j: nat :: j < offset ==> Bit(words[b], j)
    ensures AllOut(Items(words), 64 * b, 64 * b + offset)
  {
    forall i: int | 64 * b <= i < 64 * b + offset ensures i in Items(words) {
      ItemOfBit(words, b, i - 64 * b);
    }
  }

  lemma ItemOfBit(words: seq<nat>, b: nat, k: nat)
    requires b < |words| && k < 64
    ensures 64 * b + k in Items(words) <==> Bit(words[b], k)
  {
    assert (64 * b + k) / 64 == b && (64 * b + k) % 64 == k;
  }

  // One word changed in one bit changes one item.
  lemma OneItem(words: seq<nat>, b: nat, k: nat, word: nat)
    requires b < |words| && k < 64
    requires forall i: nat :: i < 64 && i != k ==> (Bit(word, i) <==> Bit(words[b], i))
    ensures Items(words[b := word]) == if Bit(word, k) then Items(words) + {64 * b + k} else Items(words) - {64 * b + k}
  {
    var next := words[b := word];
    ItemOfBit(next, b, k);
    forall item: int | item != 64 * b + k ensures IsOut(next, item) <==> IsOut(words, item) {
    }
  }

  class Pool {
    var state: array<nat>
    var itemCount: nat
    var lastState: nat

    constructor (state: array<nat>, itemCount: nat)
      ensures this.state == state && this.itemCount == itemCount && lastState == 0
    {
      this.state, this.itemCount, lastState := state, itemCount, 0;
    }

    ghost predicate Valid()
      reads this, state
    {
      && itemCount < TWO32 && itemCount == 64 * state.Length && lastState <= state.Length
      && (forall b :: 0 <= b < state.Length ==> state[b] < TWO64)
    }

    // The items that are acquired and not released
    ghost function Outstanding(): set<int>
      reads this, state
    {
      Items(state[..])
    }

    // ms_ipool_construct; state is what the allocator returned, if anything.
    static method Construct(capacity: nat, state: array?<nat>) returns (result: Outcome, pool: Pool?)
      requires capacity < TWO32 && (state != null ==> 64 * state.Length == capacity)
      modifies state
      ensures result == if capacity % 64 != 0 then InvalidArgument
                      else if state == null && capacity > 0 then Memory else Success
      ensures result == Success <==> pool != null
      ensures pool != null ==> fresh(pool) && pool.Valid() && pool.Outstanding() == {} && pool.itemCount == capacity
    {
      pool := null;
      if capacity % 64 != 0 {
        return InvalidArgument, null;
      }
      if state == null && capacity > 0 {
        return Memory, null;
      }
      var words: array<nat>;
      if state == null {
        words := new nat[0];
      } else {
        words := state;
      }
      var b := 0;
      while b < words.Length
        invariant b <= words.Length
        invariant forall c :: 0 <= c < b ==> words[c] == 0
        modifies words
      {
        words[b] := 0;
        b := b + 1;
      }
      pool := new Pool(words, capacity);
      forall item: int | 0 <= item < capacity ensures !IsOut(words[..], item) {
        BitOfZero(item % 64);
      }
      result := Success;
    }

    // try_acquire: an item of the given word, or UINT32_MAX when it is full
    method TryAcquire(b: nat) returns (item: nat)
      requires Valid() && b < state.Length
      modifies this`lastState, state
      ensures Valid()
      ensures item == UINT32_MAX <==> old(state[b]) == FULL
      ensures item == UINT32_MAX ==> state[..] == old(state[..]) && lastState == old(lastState)
      ensures item != UINT32_MAX ==>
                item < itemCount && item !in old(Outstanding()) && Outstanding() == old(Outstanding()) + {item}
      ensures item != UINT32_MAX ==> lastState == b == item / 64 && AllOut(old(Outstanding()), 64 * b, item)
    {
      if state[b] == FULL {
        return UINT32_MAX;
      }
      var offset := FindBlockOffset(state[b]);
      SetOne(state[b], offset);
      ItemOfBit(state[..], b, offset);
      OneItem(state[..], b, offset, Or(state[b], Pow2(offset)));
      ghost var next := state[..][b := Or(state[b], Pow2(offset))];
      state[b] := Or(state[b], Pow2(offset));
      assert state[..] == next;
      lastState := b;
      item := 64 * b + offset;
      LowerBits(old(state[..]), b, offset);
    }

    lemma FullWord(b: nat)
      requires Valid() && b < state.Length && state[b] == FULL
      ensures AllOut(Outstanding(), 64 * b, 64 * b + 64)
    {
      FullMeansAllSet(FULL);
      LowerBits(state[..], b, 64);
    }

    // ms_ipool_acquire: an index that nobody has, or UINT32_MAX exactly when all are
    // out, wherever the search starts. It is the first free one from the word that the
    // last acquire used, round the end.
    method Acquire() returns (item: nat)
      requires Valid()
      modifies this`lastState, state
      ensures Valid()
      ensures item == UINT32_MAX <==> forall i: int :: 0 <= i < itemCount ==> i in old(Outstanding())
      ensures item == UINT32_MAX ==> Outstanding() == old(Outstanding()) && lastState == old(lastState)
      ensures item != UINT32_MAX ==>
                item < itemCount && item !in old(Outstanding()) && Outstanding() == old(Outstanding()) + {item}
      ensures item != UINT32_MAX ==> lastState == item / 64
      ensures item != UINT32_MAX && item >= 64 * old(lastState) ==>
                AllOut(old(Outstanding()), 64 * old(lastState), item)
      ensures item != UINT32_MAX && item < 64 * old(lastState) ==>
                AllOut(old(Outstanding()), 64 * old(lastState), itemCount) && AllOut(old(Outstanding()), 0, item)
    {
      var last := lastState;
      var b := last;
      while b < state.Length
        invariant last <= b <= state.Length && Valid() && lastState == last
        invariant state[..] == old(state[..]) && Outstanding() == old(Outstanding())
        invariant AllOut(Outstanding(), 64 * last, 64 * b)
      {
        item := TryAcquire(b);
        if item != UINT32_MAX {
          return;
        }
        FullWord(b);
        b := b + 1;
      }
      b := 0;
      while b < last
        invariant b <= last && Valid() && lastState == last
        invariant state[..] == old(state[..]) && Outstanding() == old(Outstanding())
        invariant AllOut(Outstanding(), 64 * last, itemCount) && AllOut(Outstanding(), 0, 64 * b)
      {
        item := TryAcquire(b);
        if item != UINT32_MAX {
          return;
        }
        FullWord(b);
        b := b + 1;
      }
      item := UINT32_MAX;
    }

    // ms_ipool_release
    method Release(item: nat) returns (result: nat)
      requires Valid() && item < itemCount
      modifies state
      ensures Valid()
      ensures result == if item in old(Outstanding()) then 0 else 3
      ensures Outstanding() == old(Outstanding()) - {item}
    {
      MaskedOffset(item);
      var b := item / 64;
      var offset := And(item, 0xff_ffff) % 64; // a shift that takes its count modulo 64
      var wasSet := And(state[b], Pow2(offset)) != 0;
      TestBit(state[b], offset);
      ClearOne(state[b], offset);
      ItemOfBit(state[..], b, offset);
      OneItem(state[..], b, offset, AndNot(state[b], Pow2(offset)));
      ghost var next := state[..][b := AndNot(state[b], Pow2(offset))];
      state[b] := AndNot(state[b], Pow2(offset));
      assert state[..] == next;
      ChooseCorrect(Success.Code(), InvalidArgument.Code(), wasSet);
      result := Choose(Success.Code(), InvalidArgument.Code(), wasSet);
    }

    // ms_ipool_resize; grown is what the allocator made of the old words, if anything.
    method Resize(newCount: nat, grown: array?<nat>) returns (result: Outcome)
      requires Valid() && newCount < TWO32
      requires grown != null ==> grown.Length == (newCount + 63) / 64
      requires grown != null ==> forall b :: 0 <= b < state.Length && b < grown.Length ==> grown[b] == state[b]
      modifies this, grown
      ensures Valid()
      ensures result == if newCount % 64 != 0 then InvalidArgument
                        else if grown == null && newCount > 0 then Memory else Success
      ensures result == Success ==> itemCount == newCount && lastState == 0
      ensures result == Success ==> Outstanding() == set item | item in old(Outstanding()) && item < newCount
      ensures result != Success ==> unchanged(this) && Outstanding() == old(Outstanding())
    {
      if newCount % 64 != 0 {
        return InvalidArgument;
      }
      if grown == null && newCount > 0 {
        return Memory;
      }
      var words: array<nat>;
      if grown == null {
        words := new nat[0];
      } else {
        words := grown;
      }
      ghost var before := state[..];
      var b := state.Length;
      while b < words.Length
        invariant state.Length <= b && state[..] == before
        invariant forall c :: 0 <= c < words.Length && c < |before| ==> words[c] == before[c]
        invariant forall c :: |before| <= c < words.Length && c < b ==> words[c] == 0
        modifies words
      {
        words[b] := 0;
        b := b + 1;
      }
      ResizedItems(before, words[..]);
      state, lastState, itemCount := words, 0, newCount;
      result := Success;
    }
  }

  lemma ResizedItems(before: seq<nat>, after: seq<nat>)
    requires forall c :: 0 <= c < |after| ==> after[c] == if c < |before| then before[c] else 0
    ensures Items(after) == set item | item in Items(before) && item < 64 * |after|
  {
    forall item: int | 0 <= item < 64 * |after| ensures IsOut(after, item) <==> IsOut(before, item) {
      BitOfZero(item % 64);
    }
  }

  // The offset that the code masks out of an item is its bit number exactly for the
  // items whose low 24 bits are below 64; a shift that takes its count modulo 64
  // finds the right bit for every item.
  lemma MaskedOffset(item: nat)
    requires item < TWO32
    ensures And(item, 0xff_ffff) == item % 64 <==> item % 0x100_0000 < 64
    ensures And(item, 0xff_ffff) % 64 == item % 64
  {
    Pow2Words();
    Pow2Add(6, 18);
    assert Pow2(18) == 0x4_0000 by {
      Pow2Add(6, 6);
      Pow2Add(12, 6);
    }
    AndMask(item, 24);
    ModModMultiple(item, 64, 0x4_0000);
  }
}
