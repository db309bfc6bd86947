// Where a size word misleads the allocators: states that calls and clients reach.

module SizeWords {
  import opened Bits
  import opened Blocks
  import opened FreeLists
  import opened Regions
  import opened Arenas
  import opened Stores
  import opened Clients

  // A region that one request fills: its only chunk has padding 0, so the client's first
  // bytes lie on the size word. After the client has written zeros, a free would leave
  // a list of one node of size 0.
  method SpoiledByClient() returns (r: Region, ptr: nat)
    ensures fresh(r) && r.Valid() && ptr in r.headers && r.headers[ptr].padding == 0
    ensures r.list.blocks == [] && r.Words()[ptr] == 0 && !r.CanFree(ptr)
    ensures FreeAsCoded(r.list.blocks, ChunkOf(ptr, r.headers[ptr]), r.Words()[ptr]) == [Block(4096, 0)]
  {
    SomeSizes();
    r := new Region(4096, 48, null);
    ptr := GetFirst(r, Block(4096, 48), 25, 8, 48);
    PaddingAt(ptr, r.headers[ptr], 25, 4096);
    r.Scribble(ptr, NodeRec(0, 0, 0));
  }

  // No client write is needed: with alignment 16, the second of two payloads that fill a
  // region has padding 8, and its own header lies on the size word.
  method SpoiledByHeader() returns (r: Region, ptr: nat)
    ensures fresh(r) && r.Valid() && ptr in r.headers && r.headers[ptr].padding == 8 && r.headers[ptr].alignment == 16
    ensures r.list.blocks == [] && r.Words()[ptr] == WordUnderHeader(r.headers[ptr]) && !r.CanFree(ptr)
  {
    SomeSizes();
    r := new Region(4096, 56, null);
    var p := GetFirst(r, Block(4096, 56), 1, 8, 24);
    ptr := GetFirst(r, Block(4120, 32), 1, 16, 32);
    PaddingAt(ptr, r.headers[ptr], 1, 4120);
  }

  const NEAR_THE_END: nat := TWO64 - 150

  // Four payloads of 24 bytes fill a region, the first and the third are freed, and the
  // client of the last writes a word near 2^64. The chunk then seems to end below the
  // second of the two free nodes: the search stops at the first one, and the chunk would
  // be linked in before the second.
  method SpoiledByWrap() returns (r: Region, ptr: nat)
    ensures fresh(r) && r.Valid() && ptr in r.headers && r.Words()[ptr] == NEAR_THE_END && !r.CanFree(ptr)
    ensures ChunkOf(ptr, r.headers[ptr]) == Block(4168, 24)
    ensures r.list.blocks == [Block(4096, 24), Block(4144, 24)]
    ensures FreeAsCoded(r.list.blocks, ChunkOf(ptr, r.headers[ptr]), r.Words()[ptr])
            == [Block(4096, 24), Block(4168, 24), Block(4144, 24)]
  {
    r, ptr := TwoFree();
    WrapMisleads();
    WriteWord(r, ptr, NEAR_THE_END);
    assert Node(0);
  }

  method TwoFree() returns (r: Region, ptr: nat)
    ensures fresh(r) && fresh(r.list) && Bare(r) && r.list.blocks == [Block(4096, 24), Block(4144, 24)]
    ensures ptr in r.headers && ChunkOf(ptr, r.headers[ptr]) == Block(4168, 24)
  {
    var p0, p2;
    ghost var at;
    r, p0, at := FirstTwo();
    p2, ptr, at := LastTwo(r, at);
    at := FreeTwo(r, p0, p2, at);
    SmallAt(r, at, ptr);
  }

  method WriteWord(r: Region, ptr: nat, word: nat)
    requires Bare(r) && ptr in r.headers
    modifies r.list`mem
    ensures Bare(r) && ptr in r.Words() && r.Words()[ptr] == word
  {
    assert Node(0);
    r.Scribble(ptr, NodeRec(0, 0, word));
  }

  method NextSmall(r: Region, addr: nat, size: nat, ghost at: map<int, nat>) returns (p: nat, ghost at': map<int, nat>)
    requires Bare(r) && r.list.blocks == [Block(addr, size)]
    requires addr % 8 == 0 && (size == 24 || size >= 48) && Small(r.headers, r.Words(), at)
    modifies r, r.list
    ensures Bare(r) && Small(r.headers, r.Words(), at') && p !in at && at' == at[p := addr]
    ensures r.list.blocks == Left(Block(addr, size), 24)
  {
    assert Node(0);
    SomeSizes();
    assert TakeSize(size, 24) == 24;
    p := GetFirst(r, Block(addr, size), 1, 8, 24);
    PaddingAt(p, r.headers[p], 1, addr);
    at' := at[p := addr];
  }

  method FreeSmall(r: Region, p: nat, ghost at: map<int, nat>) returns (ghost at': map<int, nat>)
    requires Bare(r) && Small(r.headers, r.Words(), at) && p in at
    modifies r, r.list
    ensures Bare(r) && r.list.blocks == Release(old(r.list.blocks), Block(at[p], 24))
    ensures Small(r.headers, r.Words(), at') && at' == at - {p}
  {
    assert Node(0);
    SmallAt(r, at, p);
    r.IntactCanBeFreed(p);
    r.Free(p);
    at' := at - {p};
  }

  method FreshRegion(size: nat) returns (r: Region)
    requires Placed(4096, size)
    ensures fresh(r) && fresh(r.list) && Bare(r) && r.list.blocks == [Block(4096, size)]
    ensures Small(r.headers, r.Words(), map[])
  {
    r := new Region(4096, size, null);
  }

  method FirstTwo() returns (r: Region, p0: nat, ghost at: map<int, nat>)
    ensures fresh(r) && fresh(r.list) && Bare(r) && r.list.blocks == [Block(4144, 48)]
    ensures Small(r.headers, r.Words(), at) && p0 in at && at[p0] == 4096
  {
    at := map[];
    r := FreshRegion(96);
    p0, at := NextSmall(r, 4096, 96, at);
    var p1;
    p1, at := NextSmall(r, 4120, 72, at);
  }

  method LastTwo(r: Region, ghost at: map<int, nat>) returns (p2: nat, p3: nat, ghost at': map<int, nat>)
    requires Bare(r) && r.list.blocks == [Block(4144, 48)] && Small(r.headers, r.Words(), at)
    modifies r, r.list
    ensures Bare(r) && r.list.blocks == [] && Small(r.headers, r.Words(), at')
    ensures p2 !in at && p3 !in at && p2 != p3 && at' == at[p2 := 4144][p3 := 4168]
  {
    p2, at' := NextSmall(r, 4144, 48, at);
    p3, at' := NextSmall(r, 4168, 24, at');
  }

  method FreeTwo(r: Region, p0: nat, p2: nat, ghost at: map<int, nat>) returns (ghost at': map<int, nat>)
    requires Bare(r) && r.list.blocks == [] && Small(r.headers, r.Words(), at)
    requires p0 in at && p2 in at && p0 != p2 && at[p0] == 4096 && at[p2] == 4144
    modifies r, r.list
    ensures Bare(r) && r.list.blocks == [Block(4096, 24), Block(4144, 24)]
    ensures Small(r.headers, r.Words(), at') && at' == at - {p0, p2}
  {
    at' := FreeSmall(r, p0, at);
    at' := FreeSmall(r, p2, at');
    ReleasesOfTwo();
  }

  lemma ReleasesOfTwo()
    ensures Release([], Block(4096, 24)) == [Block(4096, 24)]
    ensures Release([Block(4096, 24)], Block(4144, 24)) == [Block(4096, 24), Block(4144, 24)]
  {
    var bs := [Block(4096, 24)];
    assert Rank(bs, 4144) == 1 + Rank(bs[1..], 4144);
  }

  lemma WrapMisleads()
    ensures var bs, b := [Block(4096, 24), Block(4144, 24)], Block(4168, 24);
            !WordHarmless(bs, b, NEAR_THE_END) && FreeAsCoded(bs, b, NEAR_THE_END) == [bs[0], b, bs[1]]
  {
    var bs, b := [Block(4096, 24), Block(4144, 24)], Block(4168, 24);
    assert NodeEnd(4168, NEAR_THE_END) == 4018;
    assert PrevIndex(bs, 4168, NEAR_THE_END, 0) == 0;
    assert Rank(bs[1..], 4168) == 1 + Rank(bs[1..][1..], 4168);
  }

  // In an arena node a harmless word is not enough: the list would be right after this
  // free, but the accounting would not.
  method AccountingSpoiled() returns (node: ArenaNode, ptr: nat)
    ensures fresh(node) && node.Valid() && ptr in node.region.headers
    ensures node.region.Words()[ptr] == 0 && node.region.CanFree(ptr)
    ensures var c := ChunkOf(ptr, node.region.headers[ptr]);
            (node.allocatedSize - node.region.Words()[ptr]) % TWO64 != SumLive(node.region.owner.Keys - {c})
  {
    SomeSizes();
    node := new ArenaNode(4096, 96);
    assert node.region.list.blocks[0].size >= NodeSize(25, 8);
    ptr := node.Allocate(25, 8);
    WriteZeros(node, ptr);
  }

  method WriteZeros(node: ArenaNode, ptr: nat)
    requires node.Valid() && ptr in node.region.headers && node.allocatedSize < node.totalSize
    modifies node.region.list`mem
    ensures node.Valid() && node.region.Words()[ptr] == 0 && node.region.CanFree(ptr)
    ensures var c := ChunkOf(ptr, node.region.headers[ptr]);
            (node.allocatedSize - node.region.Words()[ptr]) % TWO64 != SumLive(node.region.owner.Keys - {c})
  {
    node.region.Scribble(ptr, NodeRec(0, 0, 0));
    ZeroMisleads(node, ptr);
  }

  lemma ZeroMisleads(node: ArenaNode, ptr: nat)
    requires node.Valid() && ptr in node.region.headers && node.allocatedSize < node.totalSize
    requires node.region.Words()[ptr] == 0
    ensures node.region.CanFree(ptr)
    ensures var c := ChunkOf(ptr, node.region.headers[ptr]);
            (node.allocatedSize - node.region.Words()[ptr]) % TWO64 != SumLive(node.region.owner.Keys - {c})
  {
    var r, c := node.region, ChunkOf(ptr, node.region.headers[ptr]);
    assert c in r.owner;
    ChunkIsFreeable(r.list.blocks, r.owner.Keys, r.base, r.size, c);
    NotFull(r.list.blocks, r.owner.Keys, r.base, r.size, c, 0);
    AccountingExact(r.owner.Keys, c, node.allocatedSize, 0);
  }
}
