// A region of addresses carved into chunks with in-band headers. The code is the
// same in heap.c and arena.c: the heap is one such region, an arena node is another.

module Regions {
  import opened Bits
  import opened Blocks
  import opened FreeLists

  const DEFAULT_ALIGNMENT: nat := 8

  // ms_header
  datatype Header = Header(size: nat, alignment: nat, padding: nat)

  // The size word of the chunk's old node record, at offset 16, once the header is
  // written at offset padding, a multiple of 8. At 8 the header's padding and
  // alignment, 32 bits each, lie on the word; at 16 its size does, which the word
  // already holds; otherwise the two do not overlap.
  function WordUnderHeader(h: Header): nat {
    if h.padding == 8 then h.padding + h.alignment * TWO32 else h.size
  }

  predicate HeaderSpares(h: Header) {
    WordUnderHeader(h) == h.size
  }

  // The chunk that a payload pointer and the header below it describe.
  function ChunkOf(ptr: int, h: Header): Block {
    Block(if ptr >= HEADER_SIZE + h.padding then ptr - HEADER_SIZE - h.padding else 0, h.size)
  }

  // What ms_free_list_malloc hands out is turned into an aligned pointer with a
  // header below it; count bytes from the pointer on stay inside the chunk.
  ghost predicate PayloadFits(ptr: int, h: Header, count: nat) {
    && ValidAlignment(h.alignment) && ptr % h.alignment == 0
    && h.padding < h.alignment
    && ptr == ChunkOf(ptr, h).addr + h.padding + HEADER_SIZE
    && 1 <= count && ptr + count <= ChunkOf(ptr, h).End()
  }

  lemma AlignedPayload(chunk: nat, total: nat, count: nat, alignment: nat)
    requires ValidAlignment(alignment) && 1 <= count < TWO64 && FitsWord(count, alignment)
    requires total >= NodeSize(count, alignment) && chunk + total <= TWO64
    ensures chunk + HEADER_SIZE < TWO64
    ensures var ptr := AlignSz(chunk + HEADER_SIZE, alignment);
            && ptr >= chunk + HEADER_SIZE
            && PayloadFits(ptr, Header(total, alignment, ptr - chunk - HEADER_SIZE), count)
  {
    NodeSizeExact(count, alignment);
    AlignSzExact(chunk + HEADER_SIZE, alignment);
  }

  // Neither the header nor the payload of a live chunk lies on the size word of its old
  // node record, at offset 16, exactly when the padding is at least a whole record.
  lemma SizeWordSurvives(chunk: nat, padding: nat, count: nat)
    requires count >= 1
    ensures (forall a {:trigger InRange(chunk + 16, 8, a)} :: InRange(chunk + 16, 8, a) ==>
               && !InRange(chunk + padding, HEADER_SIZE, a)
               && !InRange(chunk + padding + HEADER_SIZE, count, a))
            <==> padding >= NODE_SIZE
  {
    if padding < NODE_SIZE {
      assert InRange(chunk + 16, 8, Max(chunk + 16, chunk + padding));
    }
  }

  predicate InRange(start: nat, length: nat, a: int) {
    start <= a < start + length
  }

  // A size word that was not overwritten does no harm.
  lemma IntactWordHarmless(bs: seq<Block>, live: set<Block>, base: nat, size: nat, b: Block)
    requires RegionInv(bs, live, base, size) && b in live && base + size < TWO64
    ensures WordHarmless(bs, b, b.size)
  {
    ChunkInRegion(bs, live, base, size, b);
    RankIsPosition(bs, b);
  }

  // Addresses and sizes are multiples of 8, so paddings are too.
  ghost predicate Eights(b: Block) {
    b.addr % 8 == 0 && b.size % 8 == 0
  }

  ghost predicate AllEights(bs: seq<Block>, live: set<Block>) {
    (forall i :: 0 <= i < |bs| ==> Eights(bs[i])) && (forall b :: b in live ==> Eights(b))
  }

  lemma TakeKeepsEights(bs: seq<Block>, live: set<Block>, i: nat, n: nat)
    requires AllEights(bs, live) && i < |bs| && n <= bs[i].size && n % 8 == 0
    ensures AllEights(Take(bs, i, n), live + {Taken(bs, i, n)})
  {
    var bs' := Take(bs, i, n);
    forall j | 0 <= j < |bs'|
      ensures Eights(bs'[j])
    {
      assert Eights(bs[i]);
      var k := if |bs'| == |bs| || j < i then j else j + 1;
      assert bs'[j] == bs[k] || (j == i && bs'[j] == Rest(bs, i, n)[0]);
    }
  }

  lemma ReleaseKeepsEights(bs: seq<Block>, live: set<Block>, b: Block)
    requires AllEights(bs, live) && b in live
    ensures AllEights(Release(bs, b), live - {b})
  {
    var bs', k := Release(bs, b), Rank(bs, b.addr);
    var lo, hi, m := Lo(bs, b, k), Hi(bs, b, k), Merged(bs, b, k);
    MergedEights(bs, live, b, k);
    SpliceReplaces(bs, lo, hi, m);
    forall j | 0 <= j < |bs'|
      ensures Eights(bs'[j])
    {
      assert j != lo ==> bs'[j] == bs[if j < lo then j else j - 1 + (hi - lo)];
    }
  }

  lemma MergedEights(bs: seq<Block>, live: set<Block>, b: Block, k: nat)
    requires AllEights(bs, live) && b in live && k <= |bs|
    ensures Eights(Merged(bs, b, k))
  {
    var lo, hi := Lo(bs, b, k), Hi(bs, b, k);
    assert Eights(b) && (lo < k ==> Eights(bs[lo])) && (k < hi ==> Eights(bs[k]));
  }

  lemma NodeSizeEights(count: nat, alignment: nat)
    requires ValidAlignment(alignment) && count < TWO64 && FitsWord(count, alignment)
    ensures NodeSize(count, alignment) % 8 == 0 && NodeSize(count, alignment) >= NODE_SIZE
  {
    NodeSizeExact(count, alignment);
    MultipleOfEight(NodeSize(count, alignment), alignment);
  }

  // The possible paddings: 0, 8, 16 and from 24 on; only 8 spoils the size word.
  lemma PaddingKinds(ptr: int, h: Header, count: nat)
    requires PayloadFits(ptr, h, count) && Eights(ChunkOf(ptr, h))
    ensures h.padding % 8 == 0 && (h.alignment == 8 ==> h.padding == 0)
    ensures HeaderSpares(h) <==> h.padding != 8 || h.size == 8 + h.alignment * TWO32
  {
    MultipleOfEight(ptr, h.alignment);
    EightsBetween(ptr, ChunkOf(ptr, h).addr, h.padding);
  }

  lemma EightsBetween(ptr: int, addr: nat, padding: nat)
    requires ptr % 8 == 0 && addr % 8 == 0 && ptr == addr + padding + HEADER_SIZE
    ensures padding % 8 == 0 && (padding < 8 ==> padding == 0)
  {
  }

  lemma BlockInRegion(bs: seq<Block>, live: set<Block>, base: nat, size: nat, i: nat)
    requires RegionInv(bs, live, base, size) && i < |bs|
    ensures base <= bs[i].addr && bs[i].End() <= base + size
  {
    assert bs[i].Covers(bs[i].addr) && bs[i].Covers(bs[i].End() - 1);
    assert Covered(bs, bs[i].addr) && Covered(bs, bs[i].End() - 1);
  }

  lemma BlocksInWords(bs: seq<Block>, live: set<Block>, base: nat, size: nat)
    requires RegionInv(bs, live, base, size) && base + size < TWO64
    ensures InWords(bs)
  {
    forall i | 0 <= i < |bs|
      ensures bs[i].End() < TWO64
    {
      BlockInRegion(bs, live, base, size, i);
    }
  }

  lemma ChunkInRegion(bs: seq<Block>, live: set<Block>, base: nat, size: nat, b: Block)
    requires RegionInv(bs, live, base, size) && b in live
    ensures base <= b.addr && b.End() <= base + size
  {
    assert b.Covers(b.addr) && b.Covers(b.End() - 1);
    assert CoveredBy(live, b.addr) && CoveredBy(live, b.End() - 1);
  }

  // A live chunk of a placed region meets what ms_free_list_free asks for, and giving
  // it back keeps what the region promises.
  lemma ChunkIsFreeable(bs: seq<Block>, live: set<Block>, base: nat, size: nat, c: Block)
    requires RegionInv(bs, live, base, size) && c in live && base + size < TWO64
    ensures InWords(bs) && ApartFrom(bs, c) && c.size >= NODE_SIZE && base <= c.addr && c.End() < TWO64
  {
    ChunkInRegion(bs, live, base, size, c);
    BlocksInWords(bs, live, base, size);
  }

  lemma ReleaseForClient(bs: seq<Block>, mem: map<nat, NodeRec>, bs': seq<Block>, mem': map<nat, NodeRec>,
                         live: set<Block>, base: nat, size: nat, c: Block, mark: nat)
    requires RegionInv(bs, live, base, size) && AllEights(bs, live) && c in live && base != NULL
    requires forall b :: b in live ==> b.addr in mem
    requires bs' == Release(bs, c) && SameRecords(mem, mem', ReleaseTouches(bs, c.addr))
    ensures RegionInv(bs', live - {c}, base, size) && AllEights(bs', live - {c})
    ensures forall b :: b in live - {c} ==> b.addr in mem' && mem'[b.addr] == mem[b.addr]
    ensures Marked(bs, mark) ==> Marked(bs', Max(mark, c.addr + NODE_SIZE))
  {
    ReleaseKeepsInv(bs, live, base, size, c);
    ReleaseKeepsEights(bs, live, c);
    ReleaseKeepsRecords(mem, mem', bs, live, base, size, c);
    if Marked(bs, mark) {
      MarkAfterRelease(bs, mark, c);
    }
  }

  // The chunk c that a request for n rounded bytes gets: the front of block i.
  ghost predicate ChosenChunk(bs: seq<Block>, n: nat, i: nat, c: Block) {
    Chosen(bs, n, i) && i < |bs| && n <= bs[i].size && c == Block(bs[i].addr, TakeSize(bs[i].size, n))
  }

  ghost predicate HarmlessAfter(bs: seq<Block>, n: nat, c: Block, word: nat) {
    forall i: nat {:trigger Chosen(bs, n, i)} :: i < |bs| && n <= bs[i].size && Chosen(bs, n, i) ==>
      WordHarmless(Take(bs, i, n), c, word)
  }

  // Every free node's record lies below the commit mark.
  ghost predicate Marked(bs: seq<Block>, mark: nat) {
    forall j :: 0 <= j < |bs| ==> bs[j].addr + NODE_SIZE <= mark
  }

  lemma MarkAfterTake(bs: seq<Block>, mark: nat, n: nat, i: nat)
    requires Marked(bs, mark) && i < |bs| && NODE_SIZE <= n <= bs[i].size && bs[i].addr != NULL
    ensures Marked(Take(bs, i, n), MallocMark(mark, bs, n, i, bs[i].addr))
  {
    var bs' := Take(bs, i, n);
    forall j | 0 <= j < |bs'|
      ensures bs'[j].addr + NODE_SIZE <= MallocMark(mark, bs, n, i, bs[i].addr)
    {
      var k := if |bs'| == |bs| || j < i then j else j + 1;
      assert bs'[j] == bs[k] || (j == i && bs'[j] == Rest(bs, i, n)[0]);
    }
  }

  lemma MarkAfterRelease(bs: seq<Block>, mark: nat, b: Block)
    requires Marked(bs, mark)
    ensures Marked(Release(bs, b), Max(mark, b.addr + NODE_SIZE))
  {
    var bs', k := Release(bs, b), Rank(bs, b.addr);
    var lo, hi, m := Lo(bs, b, k), Hi(bs, b, k), Merged(bs, b, k);
    SpliceReplaces(bs, lo, hi, m);
    assert m.addr == if lo < k then bs[lo].addr else b.addr;
    forall j | 0 <= j < |bs'|
      ensures bs'[j].addr + NODE_SIZE <= Max(mark, b.addr + NODE_SIZE)
    {
      assert j != lo ==> bs'[j] == bs[if j < lo then j else j - 1 + (hi - lo)];
    }
  }

  // Everything malloc needs to know about the chunk it was handed.
  lemma TakeForClient(bs: seq<Block>, mem: map<nat, NodeRec>, bs': seq<Block>, mem': map<nat, NodeRec>,
                      owner: map<Block, nat>, base: nat, size: nat,
                      n: nat, i: nat, c: Block)
    requires RegionInv(bs, owner.Keys, base, size) && base != NULL && NODE_SIZE <= n
    requires forall b :: b in owner ==> b.addr in mem
    requires MallocEffect(bs, mem, bs', mem', n, i, c.addr, c.size) && AllEights(bs, owner.Keys) && n % 8 == 0
    ensures base <= c.addr && n <= c.size && c.End() <= base + size
    ensures AllEights(bs', owner.Keys + {c})
    ensures RegionInv(bs', owner.Keys + {c}, base, size)
    ensures forall b :: b in owner ==> Apart(b, c)
    ensures forall b :: b in owner.Keys + {c} ==> b.addr in mem'
    ensures forall b :: b in owner ==> mem'[b.addr] == mem[b.addr]
  {
    TakeKeepsInv(bs, owner.Keys, base, size, i, n);
    TakeKeepsEights(bs, owner.Keys, i, n);
    BlockInRegion(bs, owner.Keys, base, size, i);
    forall b | b in owner
      ensures Apart(b, c)
    {
      assert b in owner.Keys + {c} && c in owner.Keys + {c} && b != c;
    }
    forall b | b in owner.Keys
      ensures b.addr != NULL
    {
      ChunkInRegion(bs, owner.Keys, base, size, b);
    }
    TakeKeepsRecords(mem, mem', bs, owner.Keys, base, size, i, n);
  }

  lemma ReleaseKeepsRecords(mem: map<nat, NodeRec>, mem': map<nat, NodeRec>,
                            bs: seq<Block>, live: set<Block>, base: nat, size: nat, c: Block)
    requires RegionInv(bs, live, base, size) && c in live && base != NULL
    requires forall b :: b in live ==> b.addr in mem
    requires SameRecords(mem, mem', ReleaseTouches(bs, c.addr))
    ensures forall b :: b in live - {c} ==> b.addr in mem' && mem'[b.addr] == mem[b.addr]
  {
    var k := Rank(bs, c.addr);
    forall b | b in live - {c}
      ensures b.addr in mem' && mem'[b.addr] == mem[b.addr]
    {
      assert Apart(b, c);
      ChunkInRegion(bs, live, base, size, b);
      LiveIsNoNode(bs, live, base, size, b, k as int - 1);
      LiveIsNoNode(bs, live, base, size, b, k);
      LiveIsNoNode(bs, live, base, size, b, k + 1);
    }
  }

  lemma LinkedFrame(mem: map<nat, NodeRec>, mem': map<nat, NodeRec>, first: nat, bs: seq<Block>, a: nat)
    requires Linked(mem, first, bs)
    requires forall i :: 0 <= i < |bs| ==> bs[i].addr != a
    requires forall b :: b in mem && b != a ==> b in mem' && mem'[b] == mem[b]
    ensures Linked(mem', first, bs)
  {
    forall i | 0 <= i < |bs|
      ensures LinkedAt(mem', bs, i)
    {
      assert LinkedAt(mem, bs, i);
    }
  }

  // Headers, live chunks and payload pointers correspond one to one.
  ghost predicate Matched(headers: map<int, Header>, owner: map<Block, nat>, counts: map<int, nat>) {
    && counts.Keys == headers.Keys
    && (forall p {:trigger PayloadFits(p, headers[p], counts[p])} :: p in headers ==>
          PayloadFits(p, headers[p], counts[p]))
    && (forall p {:trigger headers[p].alignment} :: p in headers ==> headers[p].alignment >= DEFAULT_ALIGNMENT)
    && (forall p {:trigger ChunkOf(p, headers[p])} :: p in headers ==>
          ChunkOf(p, headers[p]) in owner && owner[ChunkOf(p, headers[p])] == p)
    && (forall b {:trigger owner[b]} :: b in owner ==> owner[b] in headers && ChunkOf(owner[b], headers[owner[b]]) == b)
  }

  lemma MatchedAdd(headers: map<int, Header>, owner: map<Block, nat>, counts: map<int, nat>,
                   headers': map<int, Header>, ptr: int, h: Header, count: nat)
    requires Matched(headers, owner, counts) && headers' == headers[ptr := h]
    requires PayloadFits(ptr, h, count)
    requires forall b :: b in owner ==> Apart(b, ChunkOf(ptr, h))
    ensures ptr !in headers && ChunkOf(ptr, h) !in owner
    ensures Matched(headers', owner[ChunkOf(ptr, h) := ptr], counts[ptr := count])
  {
    assert ptr in headers ==> PayloadFits(ptr, headers[ptr], counts[ptr]);
    assert ChunkOf(ptr, h).Covers(ptr);
  }

  lemma MatchedRemove(headers: map<int, Header>, owner: map<Block, nat>, counts: map<int, nat>, ptr: int)
    requires Matched(headers, owner, counts) && ptr in headers
    ensures Matched(headers - {ptr}, owner - {ChunkOf(ptr, headers[ptr])}, counts - {ptr})
  {
  }

  // The stale record of a live chunk is none of the list's, so the list does not
  // notice what is written there.
  lemma StaleRecord(mem: map<nat, NodeRec>, mem': map<nat, NodeRec>, first: nat, bs: seq<Block>,
                    live: set<Block>, base: nat, size: nat, c: Block)
    requires Linked(mem, first, bs) && RegionInv(bs, live, base, size) && c in live
    requires forall b :: b in mem && b != c.addr ==> b in mem' && mem'[b] == mem[b]
    ensures Linked(mem', first, bs)
    ensures forall b :: b in live && b != c ==> b.addr != c.addr
  {
    forall i | 0 <= i < |bs|
      ensures bs[i].addr != c.addr
    {
      LiveIsNoNode(bs, live, base, size, c, i);
    }
    LinkedFrame(mem, mem', first, bs, c.addr);
    forall b | b in live && b != c
      ensures b.addr != c.addr
    {
      assert Apart(b, c);
    }
  }

  class Region {
    const base: nat
    const size: nat
    const list: FreeList
    var headers: map<int, Header>      // the header below each payload pointer
    ghost var owner: map<Block, nat>   // the payload pointer of each live chunk
    ghost var counts: map<int, nat>    // the byte count each pointer was asked for with

    ghost predicate Valid()
      reads this, list
    {
      && Placed(base, size)
      && list.Valid()
      && RegionInv(list.blocks, owner.Keys, base, size) && AllEights(list.blocks, owner.Keys)
      && (forall b :: b in owner ==> b.addr in list.mem)
      && Matched(headers, owner, counts)
    }

    constructor (base: nat, size: nat, user: Watermark?)
      requires Placed(base, size)
      modifies user
      ensures Valid() && this.base == base && this.size == size && list.user == user && fresh(list)
      ensures headers == map[] && owner == map[] && counts == map[] && list.blocks == [Block(base, size)]
      ensures Words() == map[]
      ensures user != null ==> user.End() == Max(old(user.End()), base + NODE_SIZE)
    {
      this.base, this.size := base, size;
      headers, owner, counts := map[], map[], map[];
      var l := new FreeList(user);
      list := l;
      new;
      list.CreateOnlyNode(base, size);
      SpanIsRegion(base, size);
    }

    // The header that turns a chunk into a payload: heap.c:144-151, arena.c:95-102
    method WriteHeader(chunk: nat, chunkSize: nat, count: nat, alignment: nat) returns (ptr: nat)
      requires ValidAlignment(alignment) && 1 <= count < TWO64 && FitsWord(count, alignment)
      requires chunkSize >= NodeSize(count, alignment) && chunk + chunkSize < TWO64
      requires chunk in list.mem && list.mem[chunk].size == chunkSize
      modifies this`headers, list`mem
      ensures ptr != NULL && ptr in headers && headers == old(headers)[ptr := headers[ptr]]
      ensures headers[ptr].alignment == alignment && ChunkOf(ptr, headers[ptr]) == Block(chunk, chunkSize)
      ensures PayloadFits(ptr, headers[ptr], count)
      ensures list.mem == old(list.mem)[chunk := old(list.mem)[chunk].(size := WordUnderHeader(headers[ptr]))]
    {
      AlignedPayload(chunk, chunkSize, count, alignment);
      var alignedMin := chunk + HEADER_SIZE;
      ptr := AlignSz(alignedMin, alignment);
      var padding := ptr - alignedMin;
      headers := headers[ptr := Header(chunkSize, alignment, padding)];
      list.mem := list.mem[chunk := list.mem[chunk].(size := WordUnderHeader(headers[ptr]))];
    }

    // Chunk c has left the free blocks and has no header yet.
    ghost predicate Carved(c: Block)
      reads this, list
    {
      && Placed(base, size) && list.Valid() && Matched(headers, owner, counts)
      && RegionInv(list.blocks, owner.Keys + {c}, base, size) && AllEights(list.blocks, owner.Keys + {c})
      && c.End() < TWO64 && (forall b :: b in owner ==> Apart(b, c))
      && (forall b :: b in owner.Keys + {c} ==> b.addr in list.mem)
      && list.mem[c.addr].size == c.size
    }

    // ms_free_list_malloc, seen from the region
    method Carve(count: nat, alignment: nat) returns (chunk: nat, chunkSize: nat, ghost i: nat)
      requires Valid()
      requires ValidAlignment(alignment) && 1 <= count < TWO64 && FitsWord(count, alignment)
      modifies list, list.user
      ensures chunk == NULL <==> NoFit(old(list.blocks), NodeSize(count, alignment))
      ensures chunk == NULL ==> Valid() && list.blocks == old(list.blocks) && list.mem == old(list.mem)
      ensures chunk != NULL ==>
                && Carved(Block(chunk, chunkSize)) && chunkSize >= NodeSize(count, alignment)
                && ChosenChunk(old(list.blocks), NodeSize(count, alignment), i, Block(chunk, chunkSize))
                && list.blocks == Take(old(list.blocks), i, NodeSize(count, alignment))
      ensures forall b :: b in owner ==> list.mem[b.addr] == old(list.mem)[b.addr]
      ensures Words() == old(Words())
      ensures list.user != null ==>
                list.user.End() ==
                MallocMark(old(list.user.End()), old(list.blocks), NodeSize(count, alignment), i, chunk)
      ensures list.user != null && Marked(old(list.blocks), old(list.user.End())) ==>
                Marked(list.blocks, list.user.End())
    {
      ghost var bs, mem := list.blocks, list.mem;
      ghost var n := NodeSize(count, alignment);
      NodeSizeEights(count, alignment);
      chunk, chunkSize, i := list.Malloc(count, alignment);
      if chunk != NULL {
        TakeForClient(bs, mem, list.blocks, list.mem, owner, base, size, n, i, Block(chunk, chunkSize));
        if list.user != null && Marked(bs, old(list.user.End())) {
          MarkAfterTake(bs, old(list.user.End()), n, i);
        }
      }
      SameRecordsSameWords(headers, owner, counts, mem, list.mem);
    }

    // The carved chunk gets its header and becomes a live payload.
    method Adopt(chunk: nat, chunkSize: nat, count: nat, alignment: nat) returns (ptr: nat)
      requires Carved(Block(chunk, chunkSize))
      requires ValidAlignment(alignment) && 1 <= count < TWO64 && FitsWord(count, alignment)
      requires chunkSize >= NodeSize(count, alignment)
      modifies this, list`mem
      ensures Valid()
      ensures ptr != NULL && ptr !in old(headers) && ptr in headers && headers == old(headers)[ptr := headers[ptr]]
      ensures counts == old(counts)[ptr := count] && headers[ptr].alignment == alignment
      ensures ChunkOf(ptr, headers[ptr]) == Block(chunk, chunkSize) && Block(chunk, chunkSize) !in old(owner)
      ensures owner == old(owner)[Block(chunk, chunkSize) := ptr]
      ensures list.mem == old(list.mem)[chunk := old(list.mem)[chunk].(size := WordUnderHeader(headers[ptr]))]
      ensures forall b :: b in old(owner) ==> b.addr != chunk
    {
      ghost var hs, mem, c := headers, list.mem, Block(chunk, chunkSize);
      ptr := WriteHeader(chunk, chunkSize, count, alignment);
      StaleRecord(mem, list.mem, list.first, list.blocks, owner.Keys + {c}, base, size, c);
      Enroll(hs, ptr, count);
    }

    ghost method Enroll(hs: map<int, Header>, ptr: nat, count: nat)
      requires ptr in headers && headers == hs[ptr := headers[ptr]] && Matched(hs, owner, counts)
      requires PayloadFits(ptr, headers[ptr], count)
      requires var c := ChunkOf(ptr, headers[ptr]);
        && Placed(base, size) && list.Valid()
        && RegionInv(list.blocks, owner.Keys + {c}, base, size) && AllEights(list.blocks, owner.Keys + {c})
        && (forall b :: b in owner ==> Apart(b, c))
        && (forall b :: b in owner.Keys + {c} ==> b.addr in list.mem)
      modifies this`owner, this`counts
      ensures Valid() && ptr !in hs
      ensures ChunkOf(ptr, headers[ptr]) !in old(owner) && owner == old(owner)[ChunkOf(ptr, headers[ptr]) := ptr]
      ensures counts == old(counts)[ptr := count]
    {
      var c := ChunkOf(ptr, headers[ptr]);
      var owner', counts' := owner[c := ptr], counts[ptr := count];
      MatchedAdd(hs, owner, counts, headers, ptr, headers[ptr], count);
      assert owner'.Keys == owner.Keys + {c};
      counts, owner := counts', owner';
    }

    // heap.c:138-153 and arena.c:89-102
    method Allocate(count: nat, alignment: nat) returns (ptr: nat, ghost i: nat)
      requires Valid()
      requires ValidAlignment(alignment) && 1 <= count < TWO64 && FitsWord(count, alignment)
      modifies this, list, list.user
      ensures Valid()
      ensures ptr == NULL <==> NoFit(old(list.blocks), NodeSize(count, alignment))
      ensures ptr == NULL ==>
                && headers == old(headers) && owner == old(owner) && counts == old(counts)
                && list.blocks == old(list.blocks) && Words() == old(Words())
      ensures ptr != NULL ==>
                && ptr !in old(headers) && ptr in headers && headers == old(headers)[ptr := headers[ptr]]
                && counts == old(counts)[ptr := count]
                && headers[ptr].alignment == alignment
                && ChosenChunk(old(list.blocks), NodeSize(count, alignment), i, ChunkOf(ptr, headers[ptr]))
                && list.blocks == Take(old(list.blocks), i, NodeSize(count, alignment))
                && ChunkOf(ptr, headers[ptr]) !in old(owner)
                && owner == old(owner)[ChunkOf(ptr, headers[ptr]) := ptr]
                && Words() == old(Words())[ptr := WordUnderHeader(headers[ptr])]
      ensures list.user != null ==>
                list.user.End() == MallocMark(old(list.user.End()), old(list.blocks), NodeSize(count, alignment), i,
                                              if ptr == NULL then NULL else ChunkOf(ptr, headers[ptr]).addr)
      ensures list.user != null && Marked(old(list.blocks), old(list.user.End())) ==>
                Marked(list.blocks, list.user.End())
    {
      var chunk, chunkSize;
      chunk, chunkSize, i := Carve(count, alignment);
      if chunk == NULL {
        return NULL, i;
      }
      ptr := Furnish(chunk, chunkSize, count, alignment);
    }

    // The header, and what it leaves of the size word
    method Furnish(chunk: nat, chunkSize: nat, count: nat, alignment: nat) returns (ptr: nat)
      requires Carved(Block(chunk, chunkSize))
      requires ValidAlignment(alignment) && 1 <= count < TWO64 && FitsWord(count, alignment)
      requires chunkSize >= NodeSize(count, alignment)
      modifies this, list`mem
      ensures Valid()
      ensures ptr != NULL && ptr !in old(headers) && ptr in headers && headers == old(headers)[ptr := headers[ptr]]
      ensures counts == old(counts)[ptr := count] && headers[ptr].alignment == alignment
      ensures ChunkOf(ptr, headers[ptr]) == Block(chunk, chunkSize) && Block(chunk, chunkSize) !in old(owner)
      ensures owner == old(owner)[Block(chunk, chunkSize) := ptr]
      ensures Words() == old(Words())[ptr := WordUnderHeader(headers[ptr])]
    {
      ghost var hs, os, cs, mem := headers, owner, counts, list.mem;
      ptr := Adopt(chunk, chunkSize, count, alignment);
      WordsAdded(hs, os, cs, mem, ptr, headers[ptr], list.mem);
    }

    // ms_free_list_free, seen from the region: chunk c joins the free blocks.
    method GiveBack(chunk: nat, chunkSize: nat)
      requires Valid() && Block(chunk, chunkSize) in owner
      requires WordHarmless(list.blocks, Block(chunk, chunkSize), list.mem[chunk].size)
      modifies list, list.user
      ensures list.Valid()
      ensures RegionInv(list.blocks, owner.Keys - {Block(chunk, chunkSize)}, base, size)
      ensures AllEights(list.blocks, owner.Keys - {Block(chunk, chunkSize)})
      ensures list.blocks == Release(old(list.blocks), Block(chunk, chunkSize))
      ensures forall b :: b in owner.Keys - {Block(chunk, chunkSize)} ==>
                b.addr in list.mem && list.mem[b.addr] == old(list.mem)[b.addr]
      ensures list.user != null ==> list.user.End() == Max(old(list.user.End()), chunk + NODE_SIZE)
      ensures list.user != null && Marked(old(list.blocks), old(list.user.End())) ==>
                Marked(list.blocks, list.user.End())
    {
      ghost var bs, mem, c := list.blocks, list.mem, Block(chunk, chunkSize);
      ghost var mark := if list.user == null then 0 else list.user.End();
      ChunkIsFreeable(bs, owner.Keys, base, size, c);
      list.Free(chunk, chunkSize);
      ReleaseForClient(bs, mem, list.blocks, list.mem, owner.Keys, base, size, c, mark);
    }

    // heap.c:161-164 and arena.c:164-168: the header leads back to the chunk. The
    // size word of the chunk's record is whatever header and client left there.
    method Free(ptr: nat)
      requires Valid() && ptr in headers && CanFree(ptr)
      modifies this, list, list.user
      ensures Valid()
      ensures headers == old(headers) - {ptr} && counts == old(counts) - {ptr}
      ensures owner == old(owner) - {ChunkOf(ptr, old(headers)[ptr])}
      ensures Words() == old(Words()) - {ptr}
      ensures list.blocks == Release(old(list.blocks), ChunkOf(ptr, old(headers)[ptr]))
      ensures list.user != null ==>
                list.user.End() == Max(old(list.user.End()), ChunkOf(ptr, old(headers)[ptr]).addr + NODE_SIZE)
      ensures list.user != null && Marked(old(list.blocks), old(list.user.End())) ==>
                Marked(list.blocks, list.user.End())
    {
      ghost var hs, os, cs, mem := headers, owner, counts, list.mem;
      var head := headers[ptr];
      assert PayloadFits(ptr, head, counts[ptr]);
      var chunk := ptr - HEADER_SIZE - head.padding;
      GiveBack(chunk, head.size);
      WordsRemoved(hs, os, cs, mem, ptr, list.mem);
      Forget(ptr);
    }

    // The header of a chunk that was given back no longer counts.
    method Forget(ptr: nat)
      requires ptr in headers && Matched(headers, owner, counts)
      requires var live := owner.Keys - {ChunkOf(ptr, headers[ptr])};
        && Placed(base, size) && list.Valid()
        && RegionInv(list.blocks, live, base, size) && AllEights(list.blocks, live)
        && forall b :: b in live ==> b.addr in list.mem
      modifies this
      ensures Valid()
      ensures headers == old(headers) - {ptr} && counts == old(counts) - {ptr}
      ensures owner == old(owner) - {ChunkOf(ptr, old(headers)[ptr])}
    {
      ghost var c := ChunkOf(ptr, headers[ptr]);
      ghost var owner' := owner - {c};
      MatchedRemove(headers, owner, counts, ptr);
      assert owner'.Keys == owner.Keys - {c};
      headers, counts, owner := headers - {ptr}, counts - {ptr}, owner';
    }

    // The size word left in the chunk's record does not mislead the free list.
    ghost predicate CanFree(ptr: int)
      requires ptr in headers
      reads this, list
    {
      WordHarmless(list.blocks, ChunkOf(ptr, headers[ptr]), Words()[ptr])
    }

    // The same for the list that a request of n rounded bytes leaves
    ghost predicate CanFreeAfter(ptr: int, n: nat)
      requires ptr in headers
      reads this, list
    {
      HarmlessAfter(list.blocks, n, ChunkOf(ptr, headers[ptr]), Words()[ptr])
    }

    // A fresh first node over the whole region: whatever was live is forgotten.
    method Reset()
      requires Placed(base, size)
      modifies this, list, list.user
      ensures Valid() && headers == map[] && counts == map[] && owner == map[] && list.blocks == [Block(base, size)]
      ensures Words() == map[]
    {
      headers, owner, counts := map[], map[], map[];
      list.CreateOnlyNode(base, size);
      SpanIsRegion(base, size);
    }

    // The client writes to its payload, which in memory can reach the record that the
    // chunk had while it was free. Nothing else notices.
    method Scribble(ptr: nat, junk: NodeRec)
      requires Valid() && ptr in headers
      modifies list`mem
      ensures Valid()
      ensures list.mem == old(list.mem)[ChunkOf(ptr, headers[ptr]).addr := junk]
      ensures Words() == old(Words())[ptr := junk.size]
    {
      ghost var mem, c := list.mem, ChunkOf(ptr, headers[ptr]);
      ChunkInRegion(list.blocks, owner.Keys, base, size, c);
      list.mem := list.mem[ptr - HEADER_SIZE - headers[ptr].padding := junk];
      StaleRecord(mem, list.mem, list.first, list.blocks, owner.Keys, base, size, c);
      WordsScribbled(headers, owner, counts, mem, ptr, junk);
    }

    // The size word in the old node record of each live chunk
    ghost function Words(): map<int, nat>
      reads this, list
    {
      WordsOf(headers, list.mem)
    }

    // The word still holds the chunk's size.
    ghost predicate SizeWordIntact(ptr: int)
      requires ptr in headers
      reads this, list
    {
      Words()[ptr] == headers[ptr].size
    }

    lemma IntactCanBeFreed(ptr: int)
      requires Valid() && ptr in headers && SizeWordIntact(ptr)
      ensures CanFree(ptr)
    {
      IntactWordHarmless(list.blocks, owner.Keys, base, size, ChunkOf(ptr, headers[ptr]));
    }

    // Distinct payloads, headers included, do not overlap.
    lemma PayloadsApart(p: int, q: int)
      requires Valid() && p in headers && q in headers && p != q
      ensures p + counts[p] <= q - HEADER_SIZE || q + counts[q] <= p - HEADER_SIZE
    {
      var b, c := ChunkOf(p, headers[p]), ChunkOf(q, headers[q]);
      assert PayloadFits(p, headers[p], counts[p]) && PayloadFits(q, headers[q], counts[q]);
      assert b in owner && c in owner && b != c;
      assert Apart(b, c);
    }

    // Once every pointer was freed, the region is one free node again.
    lemma AllFreed()
      requires Valid() && headers == map[]
      ensures list.blocks == [Block(base, size)]
    {
      assert forall b :: b in owner ==> owner[b] in headers;
      SumOne(Block(base, size));
      SpanIsRegion(base, size);
      forall a: int
        ensures Covered(list.blocks, a) <==> Covered([Block(base, size)], a)
      {
        assert !CoveredBy(owner.Keys, a) && !CoveredBy({}, a);
      }
      Canonical(list.blocks, [Block(base, size)]);
    }
  }

  // A region that the system or another allocator hands out
  predicate Placed(base: nat, size: nat) {
    base != NULL && base % 8 == 0 && size % 8 == 0 && size >= NODE_SIZE && base + size < TWO64
  }

  function WordAt(mem: map<nat, NodeRec>, a: nat): nat {
    if a in mem then mem[a].size else 0
  }

  ghost function WordsOf(headers: map<int, Header>, mem: map<nat, NodeRec>): map<int, nat> {
    map p | p in headers :: WordAt(mem, ChunkOf(p, headers[p]).addr)
  }

  lemma SameRecordsSameWords(headers: map<int, Header>, owner: map<Block, nat>, counts: map<int, nat>,
                             mem: map<nat, NodeRec>, mem': map<nat, NodeRec>)
    requires Matched(headers, owner, counts)
    requires forall b :: b in owner ==> b.addr in mem && b.addr in mem' && mem'[b.addr] == mem[b.addr]
    ensures WordsOf(headers, mem') == WordsOf(headers, mem)
  {
    forall p | p in headers
      ensures WordsOf(headers, mem')[p] == WordsOf(headers, mem)[p]
    {
      assert ChunkOf(p, headers[p]) in owner;
    }
  }

  lemma WordsAdded(headers: map<int, Header>, owner: map<Block, nat>, counts: map<int, nat>, mem: map<nat, NodeRec>,
                   ptr: int, h: Header, mem': map<nat, NodeRec>)
    requires Matched(headers, owner, counts) && ptr !in headers && ChunkOf(ptr, h).addr in mem
    requires forall b :: b in owner ==> b.addr != ChunkOf(ptr, h).addr
    requires mem' == mem[ChunkOf(ptr, h).addr := mem[ChunkOf(ptr, h).addr].(size := WordUnderHeader(h))]
    ensures WordsOf(headers[ptr := h], mem') == WordsOf(headers, mem)[ptr := WordUnderHeader(h)]
  {
    forall p | p in headers
      ensures WordsOf(headers[ptr := h], mem')[p] == WordsOf(headers, mem)[p]
    {
      assert ChunkOf(p, headers[p]) in owner;
    }
  }

  lemma WordsScribbled(headers: map<int, Header>, owner: map<Block, nat>, counts: map<int, nat>,
                       mem: map<nat, NodeRec>, ptr: int, junk: NodeRec)
    requires Matched(headers, owner, counts) && ptr in headers
    requires var c := ChunkOf(ptr, headers[ptr]); forall b :: b in owner && b != c ==> b.addr != c.addr
    ensures WordsOf(headers, mem[ChunkOf(ptr, headers[ptr]).addr := junk]) == WordsOf(headers, mem)[ptr := junk.size]
  {
    var c := ChunkOf(ptr, headers[ptr]);
    forall p | p in headers && p != ptr
      ensures WordsOf(headers, mem[c.addr := junk])[p] == WordsOf(headers, mem)[p]
    {
      assert ChunkOf(p, headers[p]) in owner && ChunkOf(p, headers[p]) != c;
    }
  }

  lemma WordsRemoved(headers: map<int, Header>, owner: map<Block, nat>, counts: map<int, nat>, mem: map<nat, NodeRec>,
                     ptr: int, mem': map<nat, NodeRec>)
    requires Matched(headers, owner, counts) && ptr in headers
    requires forall b :: b in owner.Keys - {ChunkOf(ptr, headers[ptr])} ==>
               b.addr in mem && b.addr in mem' && mem'[b.addr] == mem[b.addr]
    ensures WordsOf(headers - {ptr}, mem') == WordsOf(headers, mem) - {ptr}
  {
    forall p | p in headers && p != ptr
      ensures WordsOf(headers - {ptr}, mem')[p] == WordsOf(headers, mem)[p]
    {
      assert ChunkOf(p, headers[p]) in owner.Keys - {ChunkOf(ptr, headers[ptr])};
    }
  }

  // ---- Clients that leave size words alone

  // Nothing but the header was written over a size word.
  ghost predicate Tidy(headers: map<int, Header>, words: map<int, nat>) {
    forall p {:trigger headers[p]} {:trigger words[p]} :: p in headers ==>
      p in words && words[p] == WordUnderHeader(headers[p])
  }

  // In such a region every payload can be freed whose header does not lie on the size
  // word; that takes a padding of 8, which the default alignment rules out.
  lemma TidyCanBeFreed(r: Region, p: int)
    requires r.Valid() && Tidy(r.headers, r.Words()) && p in r.headers
    ensures r.headers[p].alignment == DEFAULT_ALIGNMENT ==> HeaderSpares(r.headers[p])
    ensures HeaderSpares(r.headers[p]) <==>
              r.headers[p].padding != 8 || r.headers[p].size == 8 + r.headers[p].alignment * TWO32
    ensures HeaderSpares(r.headers[p]) ==> r.SizeWordIntact(p) && r.CanFree(p)
  {
    assert ChunkOf(p, r.headers[p]) in r.owner;
    PaddingKinds(p, r.headers[p], r.counts[p]);
    if HeaderSpares(r.headers[p]) {
      r.IntactCanBeFreed(p);
    }
  }
}
