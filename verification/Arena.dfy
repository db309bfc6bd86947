// arena.c: a chain of regions, each with its own byte accounting, that grows on
// demand. Sticky arenas only: nodes stay when they become empty.

module Arenas {
  import opened Bits
  import opened Blocks
  import opened FreeLists
  import opened Regions

  const ARENA_NODE_SIZE: nat := 56  // sizeof(ms_arena_node)

  class ArenaNode {
    const region: Region
    const totalSize: nat
    var allocatedSize: nat
    var next: ArenaNode?

    // The accounting agrees with the chunks that are out.
    ghost predicate Valid()
      reads this`allocatedSize, region, region.list
    {
      && region.Valid() && region.list.user == null && region.size == totalSize
      && allocatedSize == SumLive(region.owner.Keys)
    }

    // create_arena_node, in memory that the backing allocator placed at backing
    constructor (backing: nat, size: nat)
      requires Placed(backing + ARENA_NODE_SIZE, size)
      ensures Valid() && fresh(region) && fresh(region.list)
      ensures totalSize == size && next == null && region.base == backing + ARENA_NODE_SIZE
      ensures region.headers == map[] && region.counts == map[] && region.Words() == map[]
      ensures region.list.blocks == [Block(region.base, size)] && allocatedSize == 0
    {
      totalSize := size;
      allocatedSize, next := 0, null;
      var r := new Region(backing + ARENA_NODE_SIZE, size, null);
      region := r;
    }

    predicate Holds(ptr: int)
    {
      region.base < ptr < region.base + totalSize
    }

    // Free bytes are exactly what the accounting says, so the preliminary check
    // never passes over a node that could have served the request.
    lemma SkipIsSafe(count: nat, alignment: nat)
      requires Valid() && ValidAlignment(alignment) && count < TWO64 && FitsWord(count, alignment)
      ensures allocatedSize <= totalSize && Sum(region.list.blocks) == totalSize - allocatedSize
      ensures totalSize - allocatedSize < count ==> NoFit(region.list.blocks, NodeSize(count, alignment))
    {
      NodeSizeExact(count, alignment);
      forall k | 0 <= k < |region.list.blocks|
        ensures region.list.blocks[k].size <= Sum(region.list.blocks)
      {
        SumAtLeast(region.list.blocks, k);
      }
    }

    // allocate_from_node
    method Allocate(count: nat, alignment: nat) returns (ptr: nat)
      requires Valid()
      requires ValidAlignment(alignment) && 1 <= count < TWO64 && FitsWord(count, alignment)
      modifies this`allocatedSize, region, region.list
      ensures Valid()
      ensures ptr == NULL <==> NoFit(old(region.list.blocks), NodeSize(count, alignment))
      ensures ptr == NULL ==>
                && region.headers == old(region.headers) && region.counts == old(region.counts)
                && region.list.blocks == old(region.list.blocks) && allocatedSize == old(allocatedSize)
                && region.Words() == old(region.Words())
      ensures ptr != NULL ==>
                && ptr !in old(region.headers) && ptr in region.headers
                && region.headers == old(region.headers)[ptr := region.headers[ptr]]
                && region.counts == old(region.counts)[ptr := count]
                && PayloadFits(ptr, region.headers[ptr], count) && region.headers[ptr].alignment == alignment
                && allocatedSize == old(allocatedSize) + region.headers[ptr].size
                && Holds(ptr) && region.headers[ptr].size < NodeSize(count, alignment) + NODE_SIZE
                && region.Words() == old(region.Words())[ptr := WordUnderHeader(region.headers[ptr])]
    {
      ghost var live := region.owner.Keys;
      ghost var i;
      ptr, i := region.Allocate(count, alignment);
      if ptr != NULL {
        ghost var c := ChunkOf(ptr, region.headers[ptr]);
        SumLiveAdd(live, c);
        assert region.owner.Keys == live + {c};
        ChunkInRegion(region.list.blocks, region.owner.Keys, region.base, region.size, c);
        allocatedSize := allocatedSize + region.headers[ptr].size;
      }
    }

    // The part of ms_arena_free for the node that holds ptr. The chunk's size word is
    // what the accounting is reduced by.
    method Free(ptr: nat)
      requires Valid() && ptr in region.headers && region.SizeWordIntact(ptr)
      modifies this`allocatedSize, region, region.list
      ensures Valid()
      ensures region.headers == old(region.headers) - {ptr} && region.counts == old(region.counts) - {ptr}
      ensures allocatedSize == old(allocatedSize) - old(region.headers)[ptr].size
      ensures region.Words() == old(region.Words()) - {ptr}
    {
      ghost var live, c := region.owner.Keys, ChunkOf(ptr, region.headers[ptr]);
      var head := region.headers[ptr];
      assert PayloadFits(ptr, head, region.counts[ptr]);
      var chunk := ptr - HEADER_SIZE - head.padding;
      var chunkSize := region.list.mem[chunk].size;
      region.IntactCanBeFreed(ptr);
      SumLiveRemove(live, c);
      region.Free(ptr);
      assert region.owner.Keys == live - {c};
      assert allocatedSize >= chunkSize;
      allocatedSize := allocatedSize - chunkSize;
    }

    lemma HoldsItsPayloads(ptr: int)
      requires Valid() && ptr in region.headers
      ensures Holds(ptr)
    {
      assert PayloadFits(ptr, region.headers[ptr], region.counts[ptr]);
      ChunkInRegion(region.list.blocks, region.owner.Keys, region.base, region.size, ChunkOf(ptr, region.headers[ptr]));
    }

    // The part of ms_arena_clear for one node of a sticky arena
    method Clear()
      requires Valid()
      modifies this`allocatedSize, region, region.list
      ensures Valid()
      ensures region.headers == map[] && region.counts == map[]
      ensures region.list.blocks == [Block(region.base, totalSize)] && allocatedSize == 0
      ensures region.Words() == map[]
    {
      allocatedSize := 0;
      region.Reset();
    }
  }

  // ---- The size of a new node

  // ms_arena_malloc, in 64-bit arithmetic: room for the request, and twice the previous
  // node
  function NewNodeSize(count: nat, last: nat, baseSize: nat): nat
    requires 1 <= baseSize
  {
    2 * AlignSz(Max(count * 8 % TWO64, last % TWO64), baseSize) % TWO64
  }

  // The size that is meant fits in a word.
  ghost predicate GrowthFits(count: nat, last: nat, baseSize: nat) {
    1 <= baseSize && 2 * RoundUp(Max(count * 8, last), baseSize) < TWO64
  }

  lemma NewNodeSizeExact(count: nat, last: nat, baseSize: nat)
    requires IsPow2(baseSize) && 1 <= baseSize <= TWO64
    ensures NewNodeSize(count, last, baseSize) == 2 * RoundUp(Max(count * 8, last), baseSize)
            <==> GrowthFits(count, last, baseSize)
  {
    if GrowthFits(count, last, baseSize) {
      assert count * 8 % TWO64 == count * 8 && last % TWO64 == last;
      TwiceAligned(Max(count * 8, last), baseSize);
    }
  }

  lemma TwiceAligned(v: nat, b: nat)
    requires IsPow2(b) && 1 <= b <= TWO64 && 2 * RoundUp(v, b) < TWO64
    ensures 2 * AlignSz(v, b) % TWO64 == 2 * RoundUp(v, b)
  {
    var r := RoundUp(v, b);
    AlignSzIsRoundUp(v, b);
    assert r % TWO64 == r && 2 * r % TWO64 == 2 * r;
  }

  lemma RoundsToItself(b: nat)
    requires b >= 1
    ensures RoundUp(b, b) == b
  {
    DivModUnique(b, b, 1, 0);
  }

  lemma NewNodeGrows(count: nat, last: nat, baseSize: nat)
    requires IsPow2(baseSize) && baseSize >= 16 && last >= baseSize && GrowthFits(count, last, baseSize)
    ensures NewNodeSize(count, last, baseSize) >= 2 * last
    ensures NewNodeSize(count, last, baseSize) >= 16 * count
    ensures NODE_SIZE <= NewNodeSize(count, last, baseSize) < TWO64
    ensures NewNodeSize(count, last, baseSize) % baseSize == 0 && NewNodeSize(count, last, baseSize) % 8 == 0
  {
    NewNodeSizeExact(count, last, baseSize);
    TwiceMultiple(RoundUp(Max(count * 8, last), baseSize), baseSize);
    WordsArePow2();
    var d := Pow2Divides(8, baseSize);
    MultipleOfMultiple(NewNodeSize(count, last, baseSize), 8, d);
  }

  lemma NewNodePlaced(count: nat, last: nat, baseSize: nat, backing: nat)
    requires IsPow2(baseSize) && baseSize >= 16 && last >= baseSize && GrowthFits(count, last, baseSize)
    requires backing % 8 == 0 && backing + ARENA_NODE_SIZE + NewNodeSize(count, last, baseSize) < TWO64
    ensures Placed(backing + ARENA_NODE_SIZE, NewNodeSize(count, last, baseSize))
    ensures NewNodeSize(count, last, baseSize) >= 2 * last && Multiple(NewNodeSize(count, last, baseSize), baseSize)
  {
    NewNodeGrows(count, last, baseSize);
    EightsArePlaced(backing, NewNodeSize(count, last, baseSize));
  }

  lemma EightsArePlaced(backing: nat, size: nat)
    requires backing % 8 == 0 && size % 8 == 0 && NODE_SIZE <= size && backing + ARENA_NODE_SIZE + size < TWO64
    ensures Placed(backing + ARENA_NODE_SIZE, size)
  {
  }

  lemma TwiceMultiple(r: nat, b: nat)
    requires b >= 1 && r % b == 0
    ensures (2 * r) % b == 0
  {
    assert 2 * r == b * (2 * (r / b));
    DivModUnique(2 * r, b, 2 * (r / b), 0);
  }

  lemma MultipleOfMultiple(r: nat, a: nat, d: nat)
    requires a >= 1 && a * d >= 1 && r % (a * d) == 0
    ensures r % a == 0
  {
    assert r == a * (d * (r / (a * d)));
    DivModUnique(r, a, d * (r / (a * d)), 0);
  }

  // Which bases make a new node large enough for every request with this alignment
  predicate ServesAll(baseSize: nat, alignment: nat) {
    baseSize >= alignment && !(baseSize == 16 && alignment == 16)
  }

  lemma NewNodeServes(count: nat, alignment: nat, last: nat, baseSize: nat)
    requires IsPow2(baseSize) && baseSize >= 16 && ServesAll(baseSize, alignment) && last >= baseSize
    requires ValidAlignment(alignment) && 1 <= count < TWO64 && FitsWord(count, alignment)
    requires GrowthFits(count, last, baseSize)
    ensures NewNodeSize(count, last, baseSize) >= NodeSize(count, alignment)
  {
    var size, v := NewNodeSize(count, last, baseSize), count + HEADER_SIZE + alignment - 1;
    NewNodeGrows(count, last, baseSize);
    var d := Pow2Divides(alignment, baseSize);
    MultipleOfMultiple(size, alignment, d);
    NoneBetween(baseSize, alignment);
    assert v <= size;
    RoundUpMonotone(v, size, alignment);
    NodeSizeExact(count, alignment);
    RoundUpUnique(NodeSize(count, alignment), RoundUp(v, alignment), v, alignment);
  }

  // The powers of two from 8 on that are below 32
  lemma NoneBetween(baseSize: nat, alignment: nat)
    requires IsPow2(baseSize) && baseSize >= 16 && ValidAlignment(alignment)
    ensures baseSize == 16 || baseSize >= 32
    ensures alignment == 8 || alignment >= 16
  {
    assert Pow2(3) == 8 && Pow2(4) == 16 && Pow2(5) == 32;
    var j: nat :| baseSize == Pow2(j);
    var k: nat :| alignment == Pow2(k);
    if j >= 5 { Pow2Monotone(5, j); } else { Pow2Monotone(j, 4); }
    if k >= 4 { Pow2Monotone(4, k); } else { Pow2Monotone(k, 3); }
  }

  // For the other bases, the count of a request that the first node cannot hold
  function TooMuch(baseSize: nat, alignment: nat): nat {
    if baseSize < alignment then 1 else 2
  }

  lemma FirstNodeFails(baseSize: nat, alignment: nat)
    requires IsPow2(baseSize) && baseSize >= 16 && ValidAlignment(alignment) && !ServesAll(baseSize, alignment)
    ensures var count := TooMuch(baseSize, alignment);
            && FitsWord(count, alignment) && GrowthFits(count, baseSize, baseSize)
            && NewNodeSize(count, baseSize, baseSize) == 2 * baseSize < NodeSize(count, alignment)
  {
    NodeSizeExact(TooMuch(baseSize, alignment), alignment);
    NoneBetween(baseSize, alignment);
    AlignsToItself(TooMuch(baseSize, alignment), baseSize);
    if baseSize < alignment {
      NextPower(baseSize, alignment);
    }
  }

  lemma AlignsToItself(count: nat, b: nat)
    requires IsPow2(b) && 16 <= b < TWO64 / 4
    requires count <= 2 || count == HUGE
    ensures NewNodeSize(count, b, b) == 2 * b && (count <= 2 ==> GrowthFits(count, b, b))
  {
    RoundsToItself(b);
    TwiceAligned(b, b);
    assert HUGE * 8 % TWO64 == 0 && b % TWO64 == b;
    assert Max(count * 8 % TWO64, b % TWO64) == b;
  }

  // A request whose room, eight times its count, wraps to 0
  const HUGE: nat := 0x2000_0000_0000_0000

  lemma NextPower(a: nat, b: nat)
    requires IsPow2(a) && IsPow2(b) && 1 <= a < b
    ensures b >= 2 * a
  {
    var d := Pow2Divides(a, b);
    MulBound(a, d - 2);
    assert b == 2 * a + a * (d - 2);
  }

  ghost predicate ServesAt(count: nat, last: nat, baseSize: nat, alignment: nat)
    requires baseSize >= 1 && alignment >= 1
  {
    1 <= count < TWO64 && last >= baseSize && FitsWord(count, alignment) && GrowthFits(count, last, baseSize) ==>
      NewNodeSize(count, last, baseSize) >= NodeSize(count, alignment)
  }

  // A power-of-two base from 16 on serves every request, on every chain, if and only if
  // it is at least the alignment and not both are 16.
  lemma NewNodeServesExactly(baseSize: nat, alignment: nat)
    requires IsPow2(baseSize) && baseSize >= 16 && ValidAlignment(alignment)
    ensures (forall count: nat, last: nat :: ServesAt(count, last, baseSize, alignment)) <==>
              ServesAll(baseSize, alignment)
  {
    if ServesAll(baseSize, alignment) {
      forall count: nat, last: nat
        ensures ServesAt(count, last, baseSize, alignment)
      {
        if 1 <= count < TWO64 && last >= baseSize && FitsWord(count, alignment) && GrowthFits(count, last, baseSize) {
          NewNodeServes(count, alignment, last, baseSize);
        }
      }
    } else {
      FirstNodeFails(baseSize, alignment);
      assert !ServesAt(TooMuch(baseSize, alignment), baseSize, baseSize, alignment);
    }
  }

  // The room for this request wraps to nothing, and the node it gets cannot hold it.
  method WrappedNodeFails(baseSize: nat, alignment: nat, backing: nat) returns (node: ArenaNode, ptr: nat)
    requires IsPow2(baseSize) && 16 <= baseSize <= HUGE / 2 && ValidAlignment(alignment)
    requires Placed(backing + ARENA_NODE_SIZE, 2 * baseSize)
    ensures fresh(node) && node.Valid() && node.totalSize == NewNodeSize(HUGE, baseSize, baseSize) == 2 * baseSize
    ensures FitsWord(HUGE, alignment) && ptr == NULL
  {
    AlignsToItself(HUGE, baseSize);
    NodeSizeExact(HUGE, alignment);
    node := new ArenaNode(backing, 2 * baseSize);
    ptr := node.Allocate(HUGE, alignment);
  }

  // Reducing the accounting by the size word, in 64-bit arithmetic, keeps it right
  // exactly when the word still holds the chunk's size.
  lemma AccountingExact(live: set<Block>, c: Block, counted: nat, word: nat)
    requires c in live && counted == SumLive(live) < TWO64 && word < TWO64
    ensures (counted - word) % TWO64 == SumLive(live - {c}) <==> word == c.size
  {
    SumLiveRemove(live, c);
  }

  // ---- The chain

  datatype NodeState = NodeState(used: nat, headers: map<int, Header>, counts: map<int, nat>, blocks: seq<Block>,
                                 words: map<int, nat>)

  ghost function Snap(n: ArenaNode): NodeState
    reads n`allocatedSize, n.region, n.region.list
  {
    NodeState(n.allocatedSize, n.region.headers, n.region.counts, n.region.list.blocks, n.region.Words())
  }

  // One payload of count bytes more.
  ghost predicate Served(s: NodeState, s': NodeState, ptr: nat, count: nat, alignment: nat) {
    && ptr !in s.headers && ptr in s'.headers
    && s'.headers == s.headers[ptr := s'.headers[ptr]] && s'.counts == s.counts[ptr := count]
    && PayloadFits(ptr, s'.headers[ptr], count) && s'.headers[ptr].alignment == alignment
    && s'.used == s.used + s'.headers[ptr].size
    && s'.words == s.words[ptr := WordUnderHeader(s'.headers[ptr])]
  }

  // Node k served the request and no other node changed.
  ghost predicate ServedAt(ss: seq<NodeState>, ss': seq<NodeState>, k: nat, ptr: nat, count: nat, alignment: nat) {
    k < |ss| && |ss'| == |ss| && ss' == ss[k := ss'[k]] && Served(ss[k], ss'[k], ptr, count, alignment)
  }

  // None of the first k nodes has room for n bytes.
  ghost predicate AllFull(ss: seq<NodeState>, k: nat, n: nat) {
    k <= |ss| && forall j {:trigger Node(j)} :: 0 <= j < k && Node(j) ==> NoFit(ss[j].blocks, n)
  }

  lemma OneMoreFull(ss: seq<NodeState>, k: nat, n: nat)
    requires k < |ss| && AllFull(ss, k, n) && NoFit(ss[k].blocks, n)
    ensures AllFull(ss, k + 1, n)
  {
  }

  ghost function RegionsOf(ns: seq<ArenaNode>): set<Region> {
    set n | n in ns :: n.region
  }

  ghost function ListsOf(ns: seq<ArenaNode>): set<FreeList> {
    set n | n in ns :: n.region.list
  }

  // The chain from node spells out ns.
  ghost predicate Chained(node: ArenaNode?, ns: seq<ArenaNode>)
    reads ns`next
  {
    if ns == [] then node == null else node == ns[0] && Chained(ns[0].next, ns[1..])
  }

  // Mentioning Node(i) is what makes the verifier look into the validity of node i.
  ghost predicate Node(i: int) {
    true
  }

  ghost predicate AllValid(ns: seq<ArenaNode>)
    reads ns`allocatedSize, RegionsOf(ns), ListsOf(ns)
  {
    forall i {:trigger Node(i)} :: 0 <= i < |ns| && Node(i) ==> ns[i].Valid()
  }

  ghost function Snaps(ns: seq<ArenaNode>): (ss: seq<NodeState>)
    reads ns`allocatedSize, RegionsOf(ns), ListsOf(ns)
    ensures |ss| == |ns|
  {
    if ns == [] then [] else [Snap(ns[0])] + Snaps(ns[1..])
  }

  // Nodes, their regions and their lists are distinct objects over disjoint memory.
  ghost predicate Separate(a: ArenaNode, b: ArenaNode) {
    && a != b && a.region != b.region && a.region.list != b.region.list
    && (a.region.base + a.totalSize <= b.region.base || b.region.base + b.totalSize <= a.region.base)
  }

  ghost predicate AllSeparate(ns: seq<ArenaNode>) {
    forall i, j {:trigger Separate(ns[i], ns[j])} :: 0 <= i < j < |ns| ==> Separate(ns[i], ns[j])
  }

  ghost function At(ns: seq<ArenaNode>, i: int): ArenaNode? {
    if 0 <= i < |ns| then ns[i] else null
  }

  ghost predicate Multiple(n: nat, baseSize: nat) {
    baseSize >= 1 && n % baseSize == 0
  }

  // Each node is at least twice as large as the one before, and all are multiples of
  // the base.
  ghost predicate Doubling(ns: seq<ArenaNode>, baseSize: nat) {
    && (ns != [] ==> ns[0].totalSize >= 2 * baseSize)
    && (forall i :: 0 < i < |ns| ==> ns[i].totalSize >= 2 * ns[i - 1].totalSize)
    && (forall i {:trigger Multiple(ns[i].totalSize, baseSize)} :: 0 <= i < |ns| ==>
          Multiple(ns[i].totalSize, baseSize))
  }

  lemma {:induction false} SnapsAppend(xs: seq<ArenaNode>, ys: seq<ArenaNode>)
    ensures Snaps(xs + ys) == Snaps(xs) + Snaps(ys)
  {
    if xs == [] {
      assert xs + ys == ys;
    } else {
      SnapsAppend(xs[1..], ys);
      assert (xs + ys)[1..] == xs[1..] + ys && (xs + ys)[0] == xs[0];
      assert Snaps(xs + ys) == [Snap(xs[0])] + (Snaps(xs[1..]) + Snaps(ys));
    }
  }

  lemma ValidAppend(xs: seq<ArenaNode>, ys: seq<ArenaNode>)
    ensures AllValid(xs + ys) <==> AllValid(xs) && AllValid(ys)
  {
    if AllValid(xs + ys) {
      forall i | 0 <= i < |ys|
        ensures ys[i].Valid()
      {
        assert Node(|xs| + i);
      }
    }
    if AllValid(xs) && AllValid(ys) {
      forall i | |xs| <= i < |xs + ys|
        ensures (xs + ys)[i].Valid()
      {
        assert Node(i - |xs|);
      }
    }
  }

  // A chain can be followed to any of its nodes.
  lemma {:induction false} ChainedAt(node: ArenaNode?, ns: seq<ArenaNode>, k: nat)
    requires Chained(node, ns) && k < |ns|
    ensures node == ns[0] && ns[k].next == At(ns, k + 1)
  {
    if k == 0 {
      assert Chained(ns[0].next, ns[1..]);
    } else {
      ChainedAt(ns[0].next, ns[1..], k - 1);
    }
  }

  lemma {:induction false} ChainedIf(node: ArenaNode?, ns: seq<ArenaNode>)
    requires node == At(ns, 0)
    requires forall i {:trigger ns[i].next} :: 0 <= i < |ns| ==> ns[i].next == At(ns, i + 1)
    ensures Chained(node, ns)
  {
    if ns != [] {
      forall i | 0 <= i < |ns[1..]|
        ensures ns[1..][i].next == At(ns[1..], i + 1)
      {
        assert ns[1..][i] == ns[i + 1] && ns[i + 1].next == At(ns, i + 2);
      }
      ChainedIf(ns[0].next, ns[1..]);
    }
  }

  lemma SnapAt(ns: seq<ArenaNode>, k: nat)
    requires k < |ns|
    ensures Snaps(ns)[k] == Snap(ns[k])
  {
    Split(ns, k);
  }

  // The node at k, and the rest that a change to it leaves alone.
  lemma Split(ns: seq<ArenaNode>, k: nat)
    requires k < |ns|
    ensures var pre, post := ns[..k], ns[k + 1..];
            && (AllValid(ns) <==> AllValid(pre) && ns[k].Valid() && AllValid(post))
            && Snaps(ns) == Snaps(pre) + [Snap(ns[k])] + Snaps(post)
  {
    var pre, post := ns[..k], ns[k + 1..];
    assert ns == pre + ns[k..] && ns[k..] == [ns[k]] + post;
    ValidAppend(pre, ns[k..]);
    ValidAppend([ns[k]], post);
    SnapsAppend(pre, ns[k..]);
    SnapsAppend([ns[k]], post);
    ValidOne(ns[k]);
  }

  // The same with the rest in one sequence.
  lemma SplitRest(ns: seq<ArenaNode>, k: nat) returns (rest: seq<ArenaNode>)
    requires k < |ns|
    ensures |rest| == |ns| - 1
    ensures rest == ns[..k] + ns[k + 1..]
    ensures AllValid(ns) <==> ns[k].Valid() && AllValid(rest)
    ensures Snaps(ns) == Snaps(rest)[..k] + [Snap(ns[k])] + Snaps(rest)[k..]
  {
    rest := ns[..k] + ns[k + 1..];
    Split(ns, k);
    ValidAppend(ns[..k], ns[k + 1..]);
    SnapsAppend(ns[..k], ns[k + 1..]);
  }

  lemma RestApart(ns: seq<ArenaNode>, k: nat, rest: seq<ArenaNode>)
    requires AllSeparate(ns) && k < |ns| && rest == ns[..k] + ns[k + 1..]
    ensures forall i :: 0 <= i < |rest| ==>
              rest[i] != ns[k] && rest[i].region != ns[k].region && rest[i].region.list != ns[k].region.list
  {
    forall i | 0 <= i < |rest|
      ensures rest[i] != ns[k] && rest[i].region != ns[k].region && rest[i].region.list != ns[k].region.list
    {
      if i < k {
        assert rest[i] == ns[i] && Separate(ns[i], ns[k]);
      } else {
        assert rest[i] == ns[i + 1] && Separate(ns[k], ns[i + 1]);
      }
    }
  }

  // Only entry k of the states differs.
  lemma OneChanged(ss: seq<NodeState>, ss': seq<NodeState>, r: seq<NodeState>, k: nat, s: NodeState, s': NodeState)
    requires k <= |r| && ss == r[..k] + [s] + r[k..] && ss' == r[..k] + [s'] + r[k..]
    ensures ss' == ss[k := s'] && ss[k] == s && ss'[k] == s'
    ensures s == s' ==> ss == ss'
  {
  }

  lemma ValidOne(n: ArenaNode)
    ensures AllValid([n]) <==> n.Valid()
    ensures Snaps([n]) == [Snap(n)]
  {
    assert Node(0);
    assert [n][1..] == [];
  }

  // Nodes that nothing was written to are as they were.
  twostate predicate Untouched(n: ArenaNode)
    reads n, n.region, n.region.list
  {
    unchanged(n`allocatedSize) && unchanged(n.region) && unchanged(n.region.list)
  }

  twostate lemma {:induction false} SnapsFrame(ns: seq<ArenaNode>)
    requires forall i :: 0 <= i < |ns| ==> Untouched(ns[i])
    ensures Snaps(ns) == old(Snaps(ns))
  {
    if ns != [] {
      assert Untouched(ns[0]);
      assert forall i :: 0 <= i < |ns[1..]| ==> ns[1..][i] == ns[i + 1];
      SnapsFrame(ns[1..]);
      assert Snap(ns[0]) == old(Snap(ns[0]));
    }
  }

  twostate lemma ValidFrame(ns: seq<ArenaNode>)
    requires forall i :: 0 <= i < |ns| ==> Untouched(ns[i])
    requires old(AllValid(ns))
    ensures AllValid(ns)
  {
    forall i | 0 <= i < |ns|
      ensures ns[i].Valid()
    {
      assert Node(i) && Untouched(ns[i]);
      assert old(ns[i].Valid());
    }
  }

  // allocate_from_node, with the rest of the chain kept in view
  method AllocateFrom(node: ArenaNode, count: nat, alignment: nat, ghost rest: seq<ArenaNode>) returns (ptr: nat)
    requires node.Valid() && AllValid(rest)
    requires forall i :: 0 <= i < |rest| ==>
               rest[i] != node && rest[i].region != node.region && rest[i].region.list != node.region.list
    requires ValidAlignment(alignment) && 1 <= count < TWO64 && FitsWord(count, alignment)
    modifies node`allocatedSize, node.region, node.region.list
    ensures node.Valid() && AllValid(rest) && Snaps(rest) == old(Snaps(rest))
    ensures ptr == NULL <==> NoFit(old(Snap(node)).blocks, NodeSize(count, alignment))
    ensures ptr == NULL ==> Snap(node) == old(Snap(node))
    ensures ptr != NULL ==> Served(old(Snap(node)), Snap(node), ptr, count, alignment)
  {
    ptr := node.Allocate(count, alignment);
    forall i | 0 <= i < |rest|
      ensures Untouched(rest[i])
    {
    }
    SnapsFrame(rest);
    ValidFrame(rest);
  }

  // The fresh last node, free throughout.
  twostate predicate Appended(new newNode: ArenaNode, ss: seq<NodeState>, ss': seq<NodeState>, backing: nat,
                              size: nat) {
    && fresh(newNode) && fresh(newNode.region) && fresh(newNode.region.list)
    && newNode.totalSize == size && newNode.region.base == backing + ARENA_NODE_SIZE
    && ss' == ss + [NodeState(0, map[], map[], [Block(newNode.region.base, size)], map[])]
  }

  // The size of the node after ns that a request makes, as arena.c:136-139 means it: twice
  // the larger of eight times the request and the last node, rounded up to the base.
  ghost predicate SizedAfter(size: nat, ns: seq<ArenaNode>, count: nat, baseSize: nat) {
    && baseSize >= 1
    && var last := if ns == [] then baseSize else ns[|ns| - 1].totalSize;
    && size == 2 * RoundUp(Max(8 * count, last), baseSize)
    && (8 * count <= last ==> size == 2 * last)
  }

  lemma NextSized(ns: seq<ArenaNode>, count: nat, last: nat, baseSize: nat)
    requires IsPow2(baseSize) && 16 <= baseSize <= TWO64 && GrowthFits(count, last, baseSize)
    requires last == if ns == [] then baseSize else ns[|ns| - 1].totalSize
    requires Multiple(last, baseSize)
    ensures SizedAfter(NewNodeSize(count, last, baseSize), ns, count, baseSize)
  {
    NewNodeSizeExact(count, last, baseSize);
  }

  lemma DoublingAppend(ns: seq<ArenaNode>, n: ArenaNode, baseSize: nat)
    requires Doubling(ns, baseSize)
    requires n.totalSize >= 2 * (if ns == [] then baseSize else ns[|ns| - 1].totalSize)
    requires Multiple(n.totalSize, baseSize)
    ensures Doubling(ns + [n], baseSize)
  {
  }

  // k nodes imply a last total of at least 2^k * baseSize.
  lemma {:induction false} DoublingFrom(ns: seq<ArenaNode>, baseSize: nat, i: nat)
    requires Doubling(ns, baseSize) && i < |ns|
    ensures ns[i].totalSize >= Pow2(i + 1) * baseSize
  {
    if i == 0 {
    } else {
      DoublingFrom(ns, baseSize, i - 1);
      assert Pow2(i + 1) * baseSize == 2 * (Pow2(i) * baseSize);
    }
  }

  lemma AllDistinct(ns: seq<ArenaNode>)
    requires AllSeparate(ns)
    ensures forall i, j :: 0 <= i < j < |ns| ==> ns[i] != ns[j]
  {
    forall i, j | 0 <= i < j < |ns|
      ensures ns[i] != ns[j]
    {
      assert Separate(ns[i], ns[j]);
    }
  }

  lemma SeparateAppend(ns: seq<ArenaNode>, n: ArenaNode)
    requires AllSeparate(ns)
    requires forall i :: 0 <= i < |ns| ==> Separate(ns[i], n)
    ensures AllSeparate(ns + [n])
  {
    var ns' := ns + [n];
    forall i, j | 0 <= i < j < |ns'|
      ensures Separate(ns'[i], ns'[j])
    {
      assert ns'[i] == ns[i];
      assert j < |ns| ==> Separate(ns[i], ns[j]);
    }
  }

  // The first node with room gained the payload.
  ghost predicate FirstFitServes(ss: seq<NodeState>, ss': seq<NodeState>, k: nat, ptr: nat, count: nat, alignment: nat)
    requires alignment >= 1
  {
    && k < |ss| && AllFull(ss, k, NodeSize(count, alignment)) && !NoFit(ss[k].blocks, NodeSize(count, alignment))
    && ServedAt(ss, ss', k, ptr, count, alignment)
  }

  // A node with the given base and size was added and nothing else changed. It
  // serves the request exactly when it is large enough.
  ghost predicate Grown(ss: seq<NodeState>, ss': seq<NodeState>, base: nat, size: nat, ptr: nat, count: nat,
                        alignment: nat)
    requires alignment >= 1
  {
    && |ss'| == |ss| + 1 && ss'[..|ss|] == ss
    && var s0 := NodeState(0, map[], map[], [Block(base, size)], map[]);
    if size < NodeSize(count, alignment) then ptr == NULL && ss'[|ss|] == s0
    else ptr != NULL && Served(s0, ss'[|ss|], ptr, count, alignment)
  }

  lemma GrownStates(ss: seq<NodeState>, mid: seq<NodeState>, ss': seq<NodeState>, base: nat, size: nat,
                    ptr: nat, count: nat, alignment: nat)
    requires alignment >= 1
    requires mid == ss + [NodeState(0, map[], map[], [Block(base, size)], map[])]
    requires ptr == NULL <==> NoFit(mid[|ss|].blocks, NodeSize(count, alignment))
    requires ptr == NULL ==> ss' == mid
    requires ptr != NULL ==> ServedAt(mid, ss', |ss|, ptr, count, alignment)
    ensures Grown(ss, ss', base, size, ptr, count, alignment)
  {
    var s0 := NodeState(0, map[], map[], [Block(base, size)], map[]);
    assert mid[|ss|] == s0 && s0.blocks[0].size == size;
    assert mid[..|ss|] == ss;
  }

  // Node k lost the payload ptr and no other node changed.
  ghost predicate FreedAt(ss: seq<NodeState>, ss': seq<NodeState>, k: nat, ptr: nat) {
    && k < |ss| && |ss'| == |ss| && ss' == ss[k := ss'[k]]
    && ptr in ss[k].headers
    && ss'[k].headers == ss[k].headers - {ptr} && ss'[k].counts == ss[k].counts - {ptr}
    && ss'[k].used == ss[k].used - ss[k].headers[ptr].size
    && ss'[k].words == ss[k].words - {ptr}
  }

  ghost function Cleared(n: ArenaNode): NodeState {
    NodeState(0, map[], map[], [Block(n.region.base, n.totalSize)], map[])
  }

  lemma ClearedMore(ns: seq<ArenaNode>, ss: seq<NodeState>, ss': seq<NodeState>, k: nat)
    requires k < |ns| == |ss| && ss' == ss[k := Cleared(ns[k])]
    requires AllCleared(ns, ss, k)
    ensures AllCleared(ns, ss', k + 1)
  {
  }

  // The first k nodes are free throughout.
  ghost predicate AllCleared(ns: seq<ArenaNode>, ss: seq<NodeState>, k: nat) {
    && k <= |ns| == |ss|
    && (forall j {:trigger Node(j)} :: 0 <= j < k && Node(j) ==> ss[j] == Cleared(ns[j]))
  }

  // None of the first k nodes holds ptr.
  predicate NoneHolds(ns: seq<ArenaNode>, k: nat, ptr: int) {
    k <= |ns| && forall i :: 0 <= i < k ==> !ns[i].Holds(ptr)
  }

  // The branch of ms_arena_free for the node that holds ptr, with the rest of the
  // chain kept in view
  method FreeFrom(node: ArenaNode, ptr: nat, ghost rest: seq<ArenaNode>)
    requires node.Valid() && AllValid(rest)
    requires forall i :: 0 <= i < |rest| ==>
               rest[i] != node && rest[i].region != node.region && rest[i].region.list != node.region.list
    requires ptr in node.region.headers && node.region.SizeWordIntact(ptr)
    modifies node`allocatedSize, node.region, node.region.list
    ensures node.Valid() && AllValid(rest) && Snaps(rest) == old(Snaps(rest))
    ensures FreedAt([old(Snap(node))], [Snap(node)], 0, ptr)
  {
    node.Free(ptr);
    forall i | 0 <= i < |rest|
      ensures Untouched(rest[i])
    {
    }
    SnapsFrame(rest);
    ValidFrame(rest);
  }

  // One turn of the loop of ms_arena_clear
  method ClearFrom(node: ArenaNode, ghost rest: seq<ArenaNode>)
    requires node.Valid() && AllValid(rest)
    requires forall i :: 0 <= i < |rest| ==>
               rest[i] != node && rest[i].region != node.region && rest[i].region.list != node.region.list
    modifies node`allocatedSize, node.region, node.region.list
    ensures node.Valid() && AllValid(rest) && Snaps(rest) == old(Snaps(rest))
    ensures Snap(node) == Cleared(node)
  {
    node.Clear();
    forall i | 0 <= i < |rest|
      ensures Untouched(rest[i])
    {
    }
    SnapsFrame(rest);
    ValidFrame(rest);
  }

  class Arena {
    const baseSize: nat
    var first: ArenaNode?
    ghost var nodes: seq<ArenaNode>

    ghost predicate Valid()
      reads this, nodes, RegionsOf(nodes), ListsOf(nodes)
    {
      && IsPow2(baseSize) && baseSize >= 16
      && Chained(first, nodes) && AllValid(nodes)
      && AllSeparate(nodes) && Doubling(nodes, baseSize)
    }

    constructor (baseSize: nat)
      requires IsPow2(baseSize) && baseSize >= 16
      ensures Valid() && nodes == [] && this.baseSize == baseSize
    {
      this.baseSize := baseSize;
      first, nodes := null, [];
    }

    // allocate_from_node on node k of the chain
    method TryNode(count: nat, alignment: nat, node: ArenaNode, ghost k: nat) returns (ptr: nat)
      requires Valid() && k < |nodes| && node == nodes[k]
      requires ValidAlignment(alignment) && 1 <= count < TWO64 && FitsWord(count, alignment)
      modifies node`allocatedSize, node.region, node.region.list
      ensures Valid()
      ensures ptr == NULL <==> NoFit(old(Snaps(nodes))[k].blocks, NodeSize(count, alignment))
      ensures ptr == NULL ==> Snaps(nodes) == old(Snaps(nodes))
      ensures ptr != NULL ==> ServedAt(old(Snaps(nodes)), Snaps(nodes), k, ptr, count, alignment)
    {
      ghost var ss, s := Snaps(nodes), Snap(node);
      ghost var rest := SplitRest(nodes, k);
      RestApart(nodes, k, rest);
      ghost var r := Snaps(rest);
      ptr := AllocateFrom(node, count, alignment, rest);
      ghost var rest' := SplitRest(nodes, k);
      OneChanged(ss, Snaps(nodes), r, k, s, Snap(node));
    }

    // The preliminary check of ms_arena_malloc on node k
    lemma Skipped(k: nat, count: nat, alignment: nat)
      requires Valid() && k < |nodes|
      requires ValidAlignment(alignment) && count < TWO64 && FitsWord(count, alignment)
      ensures nodes[k].allocatedSize <= nodes[k].totalSize
      ensures nodes[k].totalSize - nodes[k].allocatedSize < count ==>
                NoFit(Snaps(nodes)[k].blocks, NodeSize(count, alignment))
    {
      assert Node(k);
      SnapAt(nodes, k);
      nodes[k].SkipIsSafe(count, alignment);
    }

    // One turn of that loop: the preliminary check, then the allocation
    method Serve(count: nat, alignment: nat, node: ArenaNode, ghost k: nat, ghost ss: seq<NodeState>, ghost n: nat)
      returns (ptr: nat)
      requires Valid() && k < |nodes| && node == nodes[k] && ss == Snaps(nodes)
      requires ValidAlignment(alignment) && 1 <= count < TWO64 && FitsWord(count, alignment)
      requires n == NodeSize(count, alignment)
      modifies node`allocatedSize, node.region, node.region.list
      ensures Valid()
      ensures ptr == NULL <==> NoFit(ss[k].blocks, n)
      ensures ptr == NULL ==> Snaps(nodes) == ss
      ensures ptr != NULL ==> ServedAt(ss, Snaps(nodes), k, ptr, count, alignment)
    {
      Skipped(k, count, alignment);
      var nodeFreeSize := node.totalSize - node.allocatedSize;
      if nodeFreeSize < count {
        ptr := NULL;
      } else {
        ptr := TryNode(count, alignment, node, k);
      }
    }

    // The loop of ms_arena_malloc over the nodes there are: the first node with room
    // serves the request.
    method TryNodes(count: nat, alignment: nat, ghost ss: seq<NodeState>, ghost n: nat)
      returns (ptr: nat, prev: ArenaNode?, ghost k: nat)
      requires Valid() && ss == Snaps(nodes)
      requires ValidAlignment(alignment) && 1 <= count < TWO64 && FitsWord(count, alignment)
      requires n == NodeSize(count, alignment)
      modifies nodes`allocatedSize, RegionsOf(nodes), ListsOf(nodes)
      ensures Valid()
      ensures k <= |nodes| && AllFull(ss, k, n)
      ensures ptr == NULL ==> k == |nodes| && prev == At(nodes, |nodes| - 1) && Snaps(nodes) == ss
      ensures ptr != NULL ==>
                && k < |nodes| && !NoFit(ss[k].blocks, n)
                && ServedAt(ss, Snaps(nodes), k, ptr, count, alignment)
    {
      ptr, prev, k := NULL, null, 0;
      var node := first;
      while node != null
        invariant Valid() && 0 <= k <= |nodes| && Snaps(nodes) == ss
        invariant ptr == NULL && node == At(nodes, k) && prev == At(nodes, k as int - 1)
        invariant AllFull(ss, k, n)
        decreases |nodes| - k
      {
        var next;
        ptr, next := Turn(count, alignment, node, k, ss, n);
        if ptr != NULL {
          return;
        }
        prev, node, k := node, next, k + 1;
      }
    }

    // One turn of the loop, and the node after
    method Turn(count: nat, alignment: nat, node: ArenaNode, ghost k: nat, ghost ss: seq<NodeState>, ghost n: nat)
      returns (ptr: nat, next: ArenaNode?)
      requires Valid() && k < |nodes| && node == nodes[k] && ss == Snaps(nodes) && AllFull(ss, k, n)
      requires ValidAlignment(alignment) && 1 <= count < TWO64 && FitsWord(count, alignment)
      requires n == NodeSize(count, alignment)
      modifies node`allocatedSize, node.region, node.region.list
      ensures Valid() && next == At(nodes, k + 1)
      ensures ptr == NULL ==> Snaps(nodes) == ss && AllFull(ss, k + 1, n)
      ensures ptr != NULL ==> !NoFit(ss[k].blocks, n) && ServedAt(ss, Snaps(nodes), k, ptr, count, alignment)
    {
      ptr := Serve(count, alignment, node, k, ss, n);
      ChainedAt(first, nodes, k);
      next := node.next;
      if ptr == NULL {
        OneMoreFull(ss, k, n);
      }
    }

    ghost function Last(): nat
      reads this
    {
      if nodes == [] then baseSize else nodes[|nodes| - 1].totalSize
    }

    // The backing allocator can place a node of this size at this address.
    ghost predicate Backing(backing: nat, size: nat)
      reads this
    {
      && backing % 8 == 0 && backing + ARENA_NODE_SIZE + size < TWO64
      && (forall i {:trigger nodes[i].region} :: 0 <= i < |nodes| ==>
            backing + ARENA_NODE_SIZE + size <= nodes[i].region.base
            || nodes[i].region.base + nodes[i].totalSize <= backing)
    }

    // create_arena_node, sized by arena.c:136-139: everything is ready for the link
    method MakeNode(count: nat, prev: ArenaNode?, backing: nat) returns (newNode: ArenaNode)
      requires Valid() && prev == At(nodes, |nodes| - 1)
      requires GrowthFits(count, Last(), baseSize)
      requires Backing(backing, NewNodeSize(count, Last(), baseSize))
      ensures Valid() && newNode.next == null && newNode !in nodes
      ensures SizedAfter(newNode.totalSize, nodes, count, baseSize)
      ensures Appended(newNode, old(Snaps(nodes)), Snaps(nodes + [newNode]), backing,
                       NewNodeSize(count, Last(), baseSize))
      ensures AllValid(nodes + [newNode]) && AllSeparate(nodes + [newNode]) && Doubling(nodes + [newNode], baseSize)
    {
      LastIsLarge();
      NewNodePlaced(count, Last(), baseSize, backing);
      NextSized(nodes, count, Last(), baseSize);
      var last := if prev != null then prev.totalSize else baseSize;
      var newNodeSize := 2 * AlignSz(Max(count * 8 % TWO64, last % TWO64), baseSize) % TWO64;
      newNode := new ArenaNode(backing, newNodeSize);
      SnapsFrame(nodes);
      ValidOne(newNode);
      ValidAppend(nodes, [newNode]);
      SnapsAppend(nodes, [newNode]);
      DoublingAppend(nodes, newNode, baseSize);
      SeparateAppend(nodes, newNode);
    }

    // A new node at the end of the chain
    method Grow(count: nat, prev: ArenaNode?, backing: nat) returns (newNode: ArenaNode)
      requires Valid() && prev == At(nodes, |nodes| - 1)
      requires GrowthFits(count, Last(), baseSize)
      requires Backing(backing, NewNodeSize(count, Last(), baseSize))
      modifies this`first, this`nodes, nodes`next
      ensures Valid() && nodes == old(nodes) + [newNode]
      ensures Appended(newNode, old(Snaps(nodes)), Snaps(nodes), backing, NewNodeSize(count, old(Last()), baseSize))
      ensures newNode.totalSize == 2 * RoundUp(
                Max(8 * count, if old(nodes) == [] then baseSize else old(nodes)[|old(nodes)| - 1].totalSize), baseSize)
      ensures SizedAfter(newNode.totalSize, old(nodes), count, baseSize)
    {
      newNode := MakeNode(count, prev, backing);
      AllDistinct(nodes);
      Append(newNode, prev);
    }

    // arena.c:143-147
    method Append(newNode: ArenaNode, prev: ArenaNode?)
      requires Chained(first, nodes) && prev == At(nodes, |nodes| - 1)
      requires newNode !in nodes && newNode.next == null
      requires forall i, j :: 0 <= i < j < |nodes| ==> nodes[i] != nodes[j]
      requires AllValid(nodes + [newNode])
      modifies this`first, this`nodes, nodes`next
      ensures Chained(first, nodes) && nodes == old(nodes) + [newNode]
      ensures AllValid(nodes) && Snaps(nodes) == old(Snaps(nodes + [newNode]))
    {
      ghost var ns := nodes;
      forall i | 0 <= i < |ns|
        ensures ns[i].next == At(ns, i + 1)
      {
        ChainedAt(first, ns, i);
      }
      if prev != null {
        prev.next := newNode;
      } else {
        first := newNode;
      }
      nodes := ns + [newNode];
      ChainedIf(first, nodes);
      SnapsFrame(nodes);
      ValidFrame(nodes);
    }

    lemma LastIsLarge()
      requires Valid()
      ensures Last() >= baseSize && Multiple(Last(), baseSize)
    {
      if nodes != [] {
        DoublingFrom(nodes, baseSize, |nodes| - 1);
        Pow2Monotone(0, |nodes|);
        assert Pow2(|nodes|) * baseSize >= baseSize;
        assert Multiple(nodes[|nodes| - 1].totalSize, baseSize);
      } else {
        DivModUnique(baseSize, baseSize, 1, 0);
      }
    }

    // The end of ms_arena_malloc: no node had room, so one is made for the request.
    method GrowAndServe(count: nat, alignment: nat, prev: ArenaNode?, backing: nat, ghost ss: seq<NodeState>)
      returns (ptr: nat)
      requires Valid() && prev == At(nodes, |nodes| - 1) && ss == Snaps(nodes)
      requires ValidAlignment(alignment) && 1 <= count < TWO64 && FitsWord(count, alignment)
      requires GrowthFits(count, Last(), baseSize) && Backing(backing, NewNodeSize(count, Last(), baseSize))
      modifies this`first, this`nodes, nodes`next
      ensures Valid() && |nodes| == |old(nodes)| + 1 && nodes[..|old(nodes)|] == old(nodes)
      ensures nodes[|old(nodes)|].totalSize == NewNodeSize(count, old(Last()), baseSize)
      ensures SizedAfter(nodes[|old(nodes)|].totalSize, old(nodes), count, baseSize)
      ensures Grown(ss, Snaps(nodes), backing + ARENA_NODE_SIZE, NewNodeSize(count, old(Last()), baseSize),
                    ptr, count, alignment)
    {
      ghost var size := NewNodeSize(count, Last(), baseSize);
      var newNode := Grow(count, prev, backing);
      ghost var mid := Snaps(nodes);
      ptr := TryNode(count, alignment, newNode, |ss|);
      GrownStates(ss, mid, Snaps(nodes), backing + ARENA_NODE_SIZE, size, ptr, count, alignment);
    }

    // ms_arena_malloc for count > 0, with the alignment already raised to the minimum
    method MallocSome(count: nat, alignment: nat, backing: nat) returns (ptr: nat, ghost k: nat)
      requires Valid()
      requires ValidAlignment(alignment) && 1 <= count < TWO64 && FitsWord(count, alignment)
      requires GrowthFits(count, Last(), baseSize) && Backing(backing, NewNodeSize(count, Last(), baseSize))
      modifies this`first, this`nodes, nodes`next, nodes`allocatedSize, RegionsOf(nodes), ListsOf(nodes)
      ensures Valid()
      ensures AllFull(old(Snaps(nodes)), |old(nodes)|, NodeSize(count, alignment)) ==>
                && |nodes| == |old(nodes)| + 1 && nodes[..|old(nodes)|] == old(nodes)
                && nodes[|old(nodes)|].totalSize == NewNodeSize(count, old(Last()), baseSize)
                && SizedAfter(nodes[|old(nodes)|].totalSize, old(nodes), count, baseSize)
                && Grown(old(Snaps(nodes)), Snaps(nodes), backing + ARENA_NODE_SIZE,
                         NewNodeSize(count, old(Last()), baseSize), ptr, count, alignment)
      ensures !AllFull(old(Snaps(nodes)), |old(nodes)|, NodeSize(count, alignment)) ==>
                && nodes == old(nodes) && ptr != NULL
                && FirstFitServes(old(Snaps(nodes)), Snaps(nodes), k, ptr, count, alignment)
    {
      ghost var ss, n := Snaps(nodes), NodeSize(count, alignment);
      var prev;
      ptr, prev, k := TryNodes(count, alignment, ss, n);
      if ptr == NULL {
        ptr := GrowAndServe(count, alignment, prev, backing, ss);
      } else {
        assert Node(k);
      }
    }

    // ms_arena_malloc. A base size that serves all requests rules NULL out.
    method Malloc(count: nat, alignment: nat, backing: nat) returns (ptr: nat, ghost k: nat)
      requires Valid() && ValidAlignment(Max(alignment, DEFAULT_ALIGNMENT))
      requires count < TWO64 && FitsWord(count, Max(alignment, DEFAULT_ALIGNMENT))
      requires count > 0 ==>
                 GrowthFits(count, Last(), baseSize) && Backing(backing, NewNodeSize(count, Last(), baseSize))
      modifies this`first, this`nodes, nodes`next, nodes`allocatedSize, RegionsOf(nodes), ListsOf(nodes)
      ensures Valid()
      ensures count == 0 ==> ptr == NULL && nodes == old(nodes) && Snaps(nodes) == old(Snaps(nodes))
      ensures var al := Max(alignment, DEFAULT_ALIGNMENT);
              count > 0 && AllFull(old(Snaps(nodes)), |old(nodes)|, NodeSize(count, al)) ==>
                && |nodes| == |old(nodes)| + 1 && nodes[..|old(nodes)|] == old(nodes)
                && var last := if old(nodes) == [] then baseSize else old(nodes)[|old(nodes)| - 1].totalSize;
                && nodes[|old(nodes)|].totalSize == 2 * RoundUp(Max(8 * count, last), baseSize)
                && (8 * count <= last ==> nodes[|old(nodes)|].totalSize == 2 * last)
                && Grown(old(Snaps(nodes)), Snaps(nodes), backing + ARENA_NODE_SIZE,
                         nodes[|old(nodes)|].totalSize, ptr, count, al)
      ensures var al := Max(alignment, DEFAULT_ALIGNMENT);
              count > 0 && !AllFull(old(Snaps(nodes)), |old(nodes)|, NodeSize(count, al)) ==>
                && nodes == old(nodes) && ptr != NULL
                && FirstFitServes(old(Snaps(nodes)), Snaps(nodes), k, ptr, count, al)
      ensures count > 0 && ServesAll(baseSize, Max(alignment, DEFAULT_ALIGNMENT)) ==> ptr != NULL
    {
      var alignment' := Max(alignment, DEFAULT_ALIGNMENT);
      if count > 0 {
        LastIsLarge();
        if ServesAll(baseSize, alignment') {
          NewNodeServes(count, alignment', Last(), baseSize);
        }
        ptr, k := MallocSome(count, alignment', backing);
      } else {
        ptr, k := NULL, 0;
      }
    }

    // ms_arena_free on node k of the chain
    method FreeAt(ptr: nat, node: ArenaNode, ghost k: nat, ghost ss: seq<NodeState>)
      requires Valid() && k < |nodes| && node == nodes[k] && ss == Snaps(nodes)
      requires ptr in node.region.headers && node.region.SizeWordIntact(ptr)
      modifies node`allocatedSize, node.region, node.region.list
      ensures Valid() && FreedAt(ss, Snaps(nodes), k, ptr)
    {
      ghost var s := Snap(node);
      ghost var rest := SplitRest(nodes, k);
      RestApart(nodes, k, rest);
      ghost var r := Snaps(rest);
      FreeFrom(node, ptr, rest);
      ghost var rest' := SplitRest(nodes, k);
      OneChanged(ss, Snaps(nodes), r, k, s, Snap(node));
    }

    // The caller hands back NULL, a pointer of no node, or a live payload whose size
    // word is intact.
    ghost predicate MayFree(ptr: nat)
      reads this, nodes, RegionsOf(nodes), ListsOf(nodes)
    {
      forall i {:trigger nodes[i].Holds(ptr)} :: 0 <= i < |nodes| && nodes[i].Holds(ptr) ==>
        ptr in nodes[i].region.headers && nodes[i].region.SizeWordIntact(ptr)
    }

    // The loop of ms_arena_free: the node whose memory holds ptr
    method FindHolder(ptr: nat) returns (node: ArenaNode?, ghost k: nat)
      requires Chained(first, nodes)
      ensures k <= |nodes| && node == At(nodes, k)
      ensures node != null ==> node in nodes && node.Holds(ptr)
      ensures node != null ==> node.region.base < ptr < node.region.base + node.totalSize
      ensures node == null <==> NoneHolds(nodes, |nodes|, ptr)
      ensures NoneHolds(nodes, k, ptr)
    {
      node, k := first, 0;
      while node != null
        invariant 0 <= k <= |nodes| && node == At(nodes, k)
        invariant NoneHolds(nodes, k, ptr)
        decreases |nodes| - k
      {
        if node.Holds(ptr) {
          return;
        }
        ChainedAt(first, nodes, k);
        node := node.next;
        k := k + 1;
      }
    }

    // ms_arena_free of a sticky arena
    method Free(ptr: nat, ghost ss: seq<NodeState>) returns (ghost k: nat)
      requires Valid() && ss == Snaps(nodes) && MayFree(ptr)
      modifies nodes`allocatedSize, RegionsOf(nodes), ListsOf(nodes)
      ensures Valid() && k <= |nodes|
      ensures k < |nodes| ==> ptr != NULL && nodes[k].Holds(ptr) && FreedAt(ss, Snaps(nodes), k, ptr)
      ensures k == |nodes| ==> Snaps(nodes) == ss && (ptr == NULL || NoneHolds(nodes, |nodes|, ptr))
    {
      k := |nodes|;
      if ptr != NULL {
        var node;
        node, k := FindHolder(ptr);
        if node != null {
          FreeAt(ptr, node, k, ss);
        }
      }
    }

    // ms_arena_clear on node k of the chain
    method ClearAt(node: ArenaNode, ghost k: nat)
      requires Valid() && k < |nodes| && node == nodes[k] && AllCleared(nodes, Snaps(nodes), k)
      modifies node`allocatedSize, node.region, node.region.list
      ensures Valid() && AllCleared(nodes, Snaps(nodes), k + 1)
    {
      ghost var ss, s := Snaps(nodes), Snap(node);
      ghost var rest := SplitRest(nodes, k);
      RestApart(nodes, k, rest);
      ghost var r := Snaps(rest);
      ClearFrom(node, rest);
      ghost var rest' := SplitRest(nodes, k);
      OneChanged(ss, Snaps(nodes), r, k, s, Snap(node));
      ClearedMore(nodes, ss, Snaps(nodes), k);
    }

    // ms_arena_clear of a sticky arena: every node stays and is free throughout
    method Clear()
      requires Valid()
      modifies nodes`allocatedSize, RegionsOf(nodes), ListsOf(nodes)
      ensures Valid() && AllCleared(nodes, Snaps(nodes), |nodes|)
    {
      var node := first;
      ghost var k := 0;
      while node != null
        invariant Valid() && 0 <= k <= |nodes| && node == At(nodes, k)
        invariant AllCleared(nodes, Snaps(nodes), k)
        decreases |nodes| - k
      {
        ClearAt(node, k);
        ChainedAt(first, nodes, k);
        node := node.next;
        k := k + 1;
      }
    }
  }

  // With any other base, the first request for that alignment can get NULL.
  method FirstMallocFails(baseSize: nat, alignment: nat, backing: nat) returns (arena: Arena, ptr: nat)
    requires IsPow2(baseSize) && baseSize >= 16 && ValidAlignment(alignment) && !ServesAll(baseSize, alignment)
    requires backing % 8 == 0 && backing + ARENA_NODE_SIZE + 2 * baseSize < TWO64
    ensures fresh(arena) && arena.Valid() && arena.baseSize == baseSize
    ensures ptr == NULL
  {
    arena := new Arena(baseSize);
    FirstNodeFails(baseSize, alignment);
    ghost var k;
    ptr, k := arena.Malloc(TooMuch(baseSize, alignment), alignment, backing);
  }
}
