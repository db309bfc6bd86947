// Whole runs of the free list: any sequence of mallocs and frees, from one node
// that spans the region.

module FreeListRuns {
  import Bits
  import opened Blocks
  import opened FreeLists

  datatype Op = MallocOp(count: nat, alignment: nat) | FreeOp(chunk: Block)

  datatype State = State(free: seq<Block>, live: set<Block>)

  ghost predicate Step(s: State, op: Op, s': State) {
    match op
    case MallocOp(count, alignment) =>
      && ValidAlignment(alignment) && count < Bits.TWO64 && FitsWord(count, alignment)
      && var n := NodeSize(count, alignment);
      if NoFit(s.free, n) then s' == s
      else exists i: nat :: MallocStep(s, n, i, s')
    case FreeOp(c) =>
      c in s.live && s' == State(Release(s.free, c), s.live - {c})
  }

  ghost predicate MallocStep(s: State, n: nat, i: nat, s': State) {
    && Chosen(s.free, n, i) && i < |s.free| && n <= s.free[i].size
    && s' == State(Take(s.free, i, n), s.live + {Taken(s.free, i, n)})
  }

  ghost predicate Run(states: seq<State>, ops: seq<Op>, base: nat, size: nat) {
    && |states| == |ops| + 1
    && states[0] == State([Block(base, size)], {})
    && (forall i :: 0 <= i < |ops| ==> Step(states[i], ops[i], states[i + 1]))
  }

  ghost predicate Inv(s: State, base: nat, size: nat) {
    RegionInv(s.free, s.live, base, size)
  }

  // What ms_free_list_malloc does to the list is such a step, successful or not.
  lemma MallocIsStep(bs: seq<Block>, mem: map<nat, NodeRec>, bs': seq<Block>, mem': map<nat, NodeRec>,
                     live: set<Block>, count: nat, alignment: nat, i: nat, chunk: nat, totalSize: nat)
    requires ValidAlignment(alignment) && count < Bits.TWO64 && FitsWord(count, alignment)
    requires chunk == NULL <==> NoFit(bs, NodeSize(count, alignment))
    requires chunk == NULL ==> bs' == bs
    requires chunk != NULL ==> MallocEffect(bs, mem, bs', mem', NodeSize(count, alignment), i, chunk, totalSize)
    ensures Step(State(bs, live), MallocOp(count, alignment),
                 State(bs', if chunk == NULL then live else live + {Block(chunk, totalSize)}))
  {
    if chunk != NULL {
      assert MallocStep(State(bs, live), NodeSize(count, alignment), i, State(bs', live + {Block(chunk, totalSize)}));
    }
  }

  // And so is what ms_free_list_free makes of it, exactly for a harmless size word.
  lemma FreeIsStep(s: State, c: Block, word: nat, base: nat, size: nat)
    requires Inv(s, base, size) && c in s.live
    ensures Step(s, FreeOp(c), State(FreeAsCoded(s.free, c, word), s.live - {c})) <==> WordHarmless(s.free, c, word)
  {
    FreeAsCodedExact(s.free, c, word);
  }

  lemma StepKeepsInv(s: State, op: Op, s': State, base: nat, size: nat)
    requires Inv(s, base, size) && Step(s, op, s')
    ensures Inv(s', base, size)
  {
    match op
    case MallocOp(count, alignment) =>
      var n := NodeSize(count, alignment);
      NodeSizeExact(count, alignment);
      if s' != s {
        var i: nat :| MallocStep(s, n, i, s');
        TakeKeepsInv(s.free, s.live, base, size, i, n);
      }
    case FreeOp(c) =>
      ReleaseKeepsInv(s.free, s.live, base, size, c);
  }

  // Every reachable state: address order, disjointness, maximal coalescing, and an
  // exact tiling of the region by free blocks and live chunks.
  lemma {:induction false} RunKeepsInv(states: seq<State>, ops: seq<Op>, base: nat, size: nat, i: nat)
    requires Run(states, ops, base, size) && size >= NODE_SIZE && i < |states|
    ensures Inv(states[i], base, size)
  {
    if i == 0 {
      SpanIsRegion(base, size);
    } else {
      RunKeepsInv(states, ops, base, size, i - 1);
      StepKeepsInv(states[i - 1], ops[i - 1], states[i], base, size);
    }
  }

  // Bytes are conserved by split, whole-chunk take and both merges.
  lemma RunConservesBytes(states: seq<State>, ops: seq<Op>, base: nat, size: nat, i: nat)
    requires Run(states, ops, base, size) && size >= NODE_SIZE && i < |states|
    ensures Sum(states[i].free) + SumLive(states[i].live) == size
  {
    RunKeepsInv(states, ops, base, size, i);
  }

  // The free list forgets its history: it depends on the live bytes alone.
  lemma LiveBytesDecide(s: State, t: State, base: nat, size: nat)
    requires Inv(s, base, size) && Inv(t, base, size)
    requires forall a: int :: CoveredBy(s.live, a) <==> CoveredBy(t.live, a)
    ensures s.free == t.free
  {
    forall a: int
      ensures Covered(s.free, a) <==> Covered(t.free, a)
    {
      FreeIsRest(s, base, size, a);
      FreeIsRest(t, base, size, a);
    }
    Canonical(s.free, t.free);
  }

  lemma FreeIsRest(s: State, base: nat, size: nat, a: int)
    requires Inv(s, base, size)
    ensures Covered(s.free, a) <==> base <= a < base + size && !CoveredBy(s.live, a)
  {
    forall i, b | 0 <= i < |s.free| && s.free[i].Covers(a) && b in s.live
      ensures !b.Covers(a)
    {
      assert ApartFrom(s.free, b);
      assert Apart(s.free[i], b);
    }
  }

  // A run that has freed everything is back at one node of the original base and
  // size, in whatever order the chunks came back.
  lemma FreedEverything(states: seq<State>, ops: seq<Op>, base: nat, size: nat, i: nat)
    requires Run(states, ops, base, size) && size >= NODE_SIZE && i < |states|
    requires states[i].live == {}
    ensures states[i].free == [Block(base, size)]
  {
    RunKeepsInv(states, ops, base, size, i);
    RunKeepsInv(states, ops, base, size, 0);
    LiveBytesDecide(states[i], states[0], base, size);
  }

  // Freeing a chunk right after its allocation restores the list.
  lemma MallocThenFree(s: State, n: nat, i: nat, s': State, base: nat, size: nat)
    requires Inv(s, base, size) && NODE_SIZE <= n && MallocStep(s, n, i, s')
    ensures Release(s'.free, Taken(s.free, i, n)) == s.free
  {
    var c := Taken(s.free, i, n);
    TakeKeepsInv(s.free, s.live, base, size, i, n);
    ReleaseKeepsInv(s'.free, s'.live, base, size, c);
    assert s'.live - {c} == s.live;
    LiveBytesDecide(State(Release(s'.free, c), s'.live - {c}), s, base, size);
  }

  // The order of two frees does not matter.
  lemma FreesCommute(s: State, b: Block, c: Block, base: nat, size: nat)
    requires Inv(s, base, size) && b in s.live && c in s.live && b != c
    ensures Release(Release(s.free, b), c) == Release(Release(s.free, c), b)
  {
    ReleaseKeepsInv(s.free, s.live, base, size, b);
    ReleaseKeepsInv(Release(s.free, b), s.live - {b}, base, size, c);
    ReleaseKeepsInv(s.free, s.live, base, size, c);
    ReleaseKeepsInv(Release(s.free, c), s.live - {c}, base, size, b);
    assert s.live - {b} - {c} == s.live - {c} - {b};
    LiveBytesDecide(State(Release(Release(s.free, b), c), s.live - {b} - {c}),
                    State(Release(Release(s.free, c), b), s.live - {c} - {b}), base, size);
  }

  // ---- A run on which the search misses the smallest node

  lemma FirstOfOne(b: Block, n: nat)
    requires b.size >= n
    ensures Chosen([b], n, 0)
  {
    assert ChosenVia([b], n, 0, 0, 1);
  }

  lemma Extend(states: seq<State>, ops: seq<Op>, base: nat, size: nat, op: Op, s': State)
    returns (states': seq<State>, ops': seq<Op>)
    requires Run(states, ops, base, size) && Step(states[|states| - 1], op, s')
    ensures Run(states', ops', base, size) && |states'| == |states| + 1 && states'[|states|] == s'
  {
    states', ops' := states + [s'], ops + [op];
    forall i | 0 <= i < |ops'|
      ensures Step(states'[i], ops'[i], states'[i + 1])
    {
      assert i < |ops| ==> Step(states[i], ops[i], states[i + 1]);
    }
  }

  lemma SizeOf(count: nat, n: nat)
    requires 1 <= count < 100 && n % 8 == 0 && count + 23 <= n < count + 31
    ensures ValidAlignment(8) && FitsWord(count, 8) && NodeSize(count, 8) == n
  {
    Bits.WordsArePow2();
    NodeSizeExact(count, 8);
    Bits.RoundUpUnique(NodeSize(count, 8), n, count + 23, 8);
  }

  // A request for n rounded bytes is cut off the front of the one free node.
  lemma CutFront(states: seq<State>, ops: seq<Op>, base: nat, size: nat, count: nat, n: nat)
    returns (states': seq<State>, ops': seq<Op>)
    requires Run(states, ops, base, size)
    requires var s := states[|states| - 1]; |s.free| == 1 && n + NODE_SIZE <= s.free[0].size
    requires 1 <= count < 100 && n % 8 == 0 && count + 23 <= n < count + 31
    ensures Run(states', ops', base, size) && |states'| == |states| + 1
    ensures var b := states[|states| - 1].free[0];
      states'[|states|] == State([Block(b.addr + n, b.size - n)], states[|states| - 1].live + {Block(b.addr, n)})
  {
    var s := states[|states| - 1];
    var b := s.free[0];
    var s' := State([Block(b.addr + n, b.size - n)], s.live + {Block(b.addr, n)});
    SizeOf(count, n);
    FirstOfOne(b, n);
    assert s.free == [b];
    assert Take(s.free, 0, n) == s'.free;
    assert MallocStep(s, n, 0, s');
    states', ops' := Extend(states, ops, base, size, MallocOp(count, 8), s');
  }

  lemma PutFirst(c: Block, b: Block)
    requires c.End() < b.addr
    ensures Release([b], c) == [c, b]
  {
  }

  lemma PutBetween(a: Block, c: Block, b: Block)
    requires a.End() < c.addr && c.End() < b.addr && a.size > 0
    ensures Release([a, b], c) == [a, c, b]
  {
    assert [a, b][1..] == [b];
    assert Rank([a, b], c.addr) == 1;
  }

  // Four chunks are cut off the front, then the first and the third are freed.
  lemma ReachesThree() returns (states: seq<State>, ops: seq<Op>)
    ensures Run(states, ops, 4096, 168) && |states| > 0
    ensures states[|states| - 1].free == [Block(4096, 40), Block(4160, 48), Block(4232, 32)]
  {
    var a, b, rest := Block(4096, 40), Block(4160, 48), Block(4232, 32);
    states, ops := [State([Block(4096, 168)], {})], [];
    states, ops := CutFront(states, ops, 4096, 168, 17, 40);
    states, ops := CutFront(states, ops, 4096, 168, 1, 24);
    states, ops := CutFront(states, ops, 4096, 168, 25, 48);
    states, ops := CutFront(states, ops, 4096, 168, 1, 24);
    var s4 := states[|states| - 1];
    assert s4.free == [rest];
    PutFirst(a, rest);
    states, ops := Extend(states, ops, 4096, 168, FreeOp(a), State([a, rest], s4.live - {a}));
    PutBetween(a, b, rest);
    states, ops := Extend(states, ops, 4096, 168, FreeOp(b), State([a, b, rest], s4.live - {a} - {b}));
  }

  // On the list that this run reaches, a request for 32 rounded bytes gets the node of
  // 40 bytes although the last node has exactly 32.
  lemma SearchMissesSmaller() returns (states: seq<State>, ops: seq<Op>, count: nat)
    ensures Run(states, ops, 4096, 168) && |states| > 0
    ensures count == 9 && NodeSize(count, 8) == 32
    ensures var bs := states[|states| - 1].free;
      Chosen(bs, 32, 0) && !SmallestFit(bs, 32, 0) && SmallestFit(bs, 32, 2)
  {
    states, ops := ReachesThree();
    count := 9;
    SizeOf(count, 32);
    var bs := states[|states| - 1].free;
    assert ChosenVia(bs, 32, 0, 0, 1);
    assert bs[2].size < bs[0].size;
  }
}
