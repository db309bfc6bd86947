// What callers of an arena may count on over a run, and requests on regions with one free
// block.

module Clients {
  import opened Bits
  import opened Blocks
  import opened FreeLists
  import opened Regions
  import opened Arenas

  // ---- Runs of an arena

  // One successful call of the arena, as its contracts describe it
  ghost predicate ArenaStep(ss: seq<NodeState>, ss': seq<NodeState>) {
    || ss' == ss
    || (exists k: nat, ptr: nat, count: nat, alignment: nat :: ServedAt(ss, ss', k, ptr, count, alignment))
    || (exists base: nat, size: nat, ptr: nat, count: nat, alignment: nat ::
          alignment >= 1 && Grown(ss, ss', base, size, ptr, count, alignment))
    || (exists k: nat, ptr: nat :: FreedAt(ss, ss', k, ptr))
    || (forall k :: 0 <= k < |ss'| ==> ss'[k].headers == map[])
  }

  ghost predicate AllTidy(ss: seq<NodeState>) {
    forall k :: 0 <= k < |ss| ==> Tidy(ss[k].headers, ss[k].words)
  }

  lemma ArenaStepKeepsTidy(ss: seq<NodeState>, ss': seq<NodeState>)
    requires AllTidy(ss) && ArenaStep(ss, ss')
    ensures AllTidy(ss')
  {
    forall k | 0 <= k < |ss'|
      ensures Tidy(ss'[k].headers, ss'[k].words)
    {
      if k < |ss| {
        assert Tidy(ss[k].headers, ss[k].words);
      }
      if base: nat, size: nat, ptr: nat, count: nat, alignment: nat :|
        alignment >= 1 && Grown(ss, ss', base, size, ptr, count, alignment)
      {
        assert k < |ss| ==> ss'[k] == ss'[..|ss|][k];
      }
    }
  }

  lemma ClearIsStep(nodes: seq<ArenaNode>, ss: seq<NodeState>, ss': seq<NodeState>)
    requires AllCleared(nodes, ss', |nodes|)
    ensures ArenaStep(ss, ss')
  {
    forall k | 0 <= k < |ss'|
      ensures ss'[k].headers == map[]
    {
      assert Node(k);
    }
  }

  // Any sequence of calls on a sticky arena whose client never writes to its payloads.
  lemma {:induction false} ArenaRunKeepsTidy(states: seq<seq<NodeState>>, i: nat)
    requires i < |states| && states[0] == []
    requires forall j :: 0 <= j < |states| - 1 ==> ArenaStep(states[j], states[j + 1])
    ensures AllTidy(states[i])
  {
    if i > 0 {
      ArenaRunKeepsTidy(states, i - 1);
      ArenaStepKeepsTidy(states[i - 1], states[i]);
    }
  }

  // At any moment of such a run, a live payload whose header spares its size word may
  // be freed.
  lemma TidyMayFree(arena: Arena, k: nat, ptr: nat)
    requires arena.Valid() && AllTidy(Snaps(arena.nodes)) && k < |arena.nodes|
    requires ptr in arena.nodes[k].region.headers && HeaderSpares(arena.nodes[k].region.headers[ptr])
    ensures arena.nodes[k].Holds(ptr) && arena.MayFree(ptr)
  {
    var ns, r := arena.nodes, arena.nodes[k].region;
    assert Node(k);
    SnapAt(ns, k);
    assert Tidy(Snaps(ns)[k].headers, Snaps(ns)[k].words);
    TidyCanBeFreed(r, ptr);
    ns[k].HoldsItsPayloads(ptr);
    forall i | 0 <= i < |ns| && ns[i].Holds(ptr)
      ensures i == k
    {
      assert i < k ==> Separate(ns[i], ns[k]);
      assert k < i ==> Separate(ns[k], ns[i]);
    }
  }

  // A payload that was just served with the default alignment may be freed.
  lemma JustServed(arena: Arena, ss: seq<NodeState>, n: nat, ptr: nat, s: NodeState, count: nat)
    requires arena.Valid() && AllTidy(ss) && ArenaStep(ss, Snaps(arena.nodes)) && n < |arena.nodes|
    requires Served(s, Snaps(arena.nodes)[n], ptr, count, DEFAULT_ALIGNMENT)
    ensures arena.MayFree(ptr) && arena.nodes[n].Holds(ptr)
  {
    ArenaStepKeepsTidy(ss, Snaps(arena.nodes));
    SnapAt(arena.nodes, n);
    assert Node(n);
    assert Tidy(Snaps(arena.nodes)[n].headers, Snaps(arena.nodes)[n].words);
    TidyCanBeFreed(arena.nodes[n].region, ptr);
    TidyMayFree(arena, n, ptr);
  }

  method GetFreeable(arena: Arena, count: nat, backing: nat) returns (ptr: nat)
    requires arena.Valid() && AllTidy(Snaps(arena.nodes)) && 0 < count < TWO64 && FitsWord(count, DEFAULT_ALIGNMENT)
    requires GrowthFits(count, arena.Last(), arena.baseSize)
    requires arena.Backing(backing, NewNodeSize(count, arena.Last(), arena.baseSize))
    modifies arena`first, arena`nodes, arena.nodes`next, arena.nodes`allocatedSize
    modifies RegionsOf(arena.nodes), ListsOf(arena.nodes)
    ensures arena.Valid() && AllTidy(Snaps(arena.nodes))
    ensures ptr != NULL && arena.MayFree(ptr)
  {
    ghost var ss, k := Snaps(arena.nodes), 0;
    WordsArePow2();
    ptr, k := arena.Malloc(count, DEFAULT_ALIGNMENT, backing);
    ghost var ss' := Snaps(arena.nodes);
    ArenaStepKeepsTidy(ss, ss');
    if AllFull(ss, |ss|, NodeSize(count, DEFAULT_ALIGNMENT)) {
      var s0 := NodeState(0, map[], map[], [Block(backing + ARENA_NODE_SIZE, arena.nodes[|ss|].totalSize)], map[]);
      JustServed(arena, ss, |ss|, ptr, s0, count);
    } else {
      JustServed(arena, ss, k, ptr, ss[k], count);
    }
  }

  // ---- Regions with one free block

  // What n bytes leave of block b
  function Left(b: Block, n: nat): seq<Block>
    requires n <= b.size
  {
    if TakeSize(b.size, n) < b.size then [Block(b.addr + n, b.size - n)] else []
  }

  lemma OnlyBlock(b: Block, n: nat, i: nat, c: Block)
    requires ChosenChunk([b], n, i, c)
    ensures c == Block(b.addr, TakeSize(b.size, n))
    ensures n <= b.size && Take([b], i, n) == Left(b, n)
  {
  }

  // A request of n rounded bytes on a region with one free block
  method GetFirst(r: Region, b: Block, count: nat, alignment: nat, n: nat) returns (ptr: nat)
    requires r.Valid() && r.list.blocks == [b] && r.list.user == null
    requires ValidAlignment(alignment) && 1 <= count < TWO64 && FitsWord(count, alignment)
    requires n == NodeSize(count, alignment) <= b.size
    modifies r, r.list
    ensures r.Valid() && ptr in r.headers && ptr !in old(r.headers) && r.headers[ptr].size == TakeSize(b.size, n)
    ensures r.headers == old(r.headers)[ptr := r.headers[ptr]]
    ensures r.Words() == old(r.Words())[ptr := WordUnderHeader(r.headers[ptr])]
    ensures ChunkOf(ptr, r.headers[ptr]) == Block(b.addr, TakeSize(b.size, n))
    ensures r.list.blocks == Left(b, n)
    ensures PayloadFits(ptr, r.headers[ptr], count) && r.headers[ptr].alignment == alignment
  {
    ghost var i;
    assert r.list.blocks[0].size >= n;
    ptr, i := r.Allocate(count, alignment);
    OnlyBlock(b, n, i, ChunkOf(ptr, r.headers[ptr]));
    assert r.list.blocks == Take([b], i, n);
  }

  lemma SomeSizes()
    ensures ValidAlignment(8) && ValidAlignment(16)
    ensures FitsWord(25, 8) && FitsWord(1, 8) && FitsWord(1, 16)
    ensures NodeSize(25, 8) == 48 && NodeSize(1, 8) == 24 && NodeSize(1, 16) == 32
  {
    WordsArePow2();
    assert IsPow2(16) by { assert Pow2(4) == 16; }
    NodeSizeExact(25, 8);
    NodeSizeExact(1, 8);
    NodeSizeExact(1, 16);
  }

  // The padding of a small payload, by where its chunk begins
  lemma PaddingAt(ptr: int, h: Header, count: nat, addr: nat)
    requires PayloadFits(ptr, h, count) && ChunkOf(ptr, h).addr == addr && addr % 8 == 0
    ensures h.alignment == 8 ==> h.padding == 0
    ensures h.alignment == 16 && addr % 16 == 8 ==> h.padding == 8
  {
  }

  // Payloads of chunks of 24 bytes, by where these begin; all size words are intact.
  ghost predicate Small(headers: map<int, Header>, words: map<int, nat>, at: map<int, nat>) {
    && at.Keys == headers.Keys && words.Keys == headers.Keys
    && forall p {:trigger at[p]} :: p in at ==> ChunkOf(p, headers[p]) == Block(at[p], 24) && words[p] == 24
  }

  // As for the nodes of an arena, mentioning Node(i) makes the verifier look into r.
  ghost predicate Bare(r: Region)
    reads r, r.list
  {
    r.list.user == null && forall i {:trigger Node(i)} :: Node(i) ==> r.Valid()
  }

  lemma SmallAt(r: Region, at: map<int, nat>, p: nat)
    requires Small(r.headers, r.Words(), at) && p in at
    ensures p in r.headers && r.SizeWordIntact(p) && ChunkOf(p, r.headers[p]) == Block(at[p], 24)
  {
  }
}
