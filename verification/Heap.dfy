// heap.c: one reserved region with a commit mark, payload bytes and realloc.

module Heaps {
  import opened Bits
  import opened Blocks
  import opened FreeLists
  import opened Regions
  import opened Payloads

  const HEAP_DEALLOC_THR: nat := 4194304

  // Committing the bytes asked for and the record of the rest covers the payload as
  // requested, and stays inside the region.
  lemma MarkCovers(bs: seq<Block>, live: set<Block>, base: nat, size: nat, i: nat,
                   ptr: int, h: Header, count: nat, mark: nat)
    requires RegionInv(bs, live, base, size) && base != NULL && mark <= base + size
    requires PayloadFits(ptr, h, count) && count < TWO64 && FitsWord(count, h.alignment)
    requires ChosenChunk(bs, NodeSize(count, h.alignment), i, ChunkOf(ptr, h))
    ensures var mark' := MallocMark(mark, bs, NodeSize(count, h.alignment), i, ChunkOf(ptr, h).addr);
            mark <= mark' <= base + size && ChunkOf(ptr, h).addr + NodeSize(count, h.alignment) <= mark'
    ensures count + h.padding + HEADER_SIZE <= NodeSize(count, h.alignment) <= h.size
    ensures NODE_SIZE <= NodeSize(count, h.alignment)
    ensures base < ptr < base + size
  {
    NodeSizeExact(count, h.alignment);
    BlockInRegion(bs, live, base, size, i);
  }

  // In numbers: past the n bytes of the chunk that begins before header and padding, and
  // past 24 bytes more if the block has so many left.
  lemma MarkInNumbers(end: nat, bs: seq<Block>, n: nat, i: nat, ptr: int, h: Header, count: nat)
    requires PayloadFits(ptr, h, count) && ChosenChunk(bs, n, i, ChunkOf(ptr, h)) && ChunkOf(ptr, h).addr != NULL
    ensures MallocMark(end, bs, n, i, ChunkOf(ptr, h).addr)
            == Max(end, ptr - h.padding - 16 + n + (if bs[i].size >= n + 24 then 24 else 0))
    ensures MarkMoved(end, MallocMark(end, bs, n, i, ChunkOf(ptr, h).addr), ptr, h, n)
  {
  }

  lemma MarkAdded(bs: seq<Block>, live: set<Block>, base: nat, size: nat, i: nat, ptr: int, h: Header, count: nat,
                  mark: nat)
    requires RegionInv(bs, live, base, size) && base != NULL && mark <= base + size
    requires PayloadFits(ptr, h, count) && count < TWO64 && FitsWord(count, h.alignment)
    requires ChosenChunk(bs, NodeSize(count, h.alignment), i, ChunkOf(ptr, h))
    ensures var n := NodeSize(count, h.alignment);
            var mark' := MallocMark(mark, bs, n, i, ChunkOf(ptr, h).addr);
            && mark <= mark' <= base + size && base < ptr < base + size && Snug(h, count)
            && PayloadMarked(ptr, h, count, n, mark')
  {
    MarkCovers(bs, live, base, size, i, ptr, h, count, mark);
  }

  ghost predicate Look(i: int) {
    true
  }

  class Heap {
    const base: nat
    const size: nat
    const mark: Watermark   // committed_size, which the free list's callbacks move
    const region: Region
    var memory: seq<Byte>   // the reserved bytes, as far as payloads are concerned
    ghost var asked: map<int, nat>  // the rounded size that malloc asked the free list for

    ghost predicate Valid()
      reads this, region, region.list, mark
    {
      Sound() && Shown(region.headers, region.Words(), memory, base)
    }

    // Valid, up to what payloads show of size words
    ghost predicate Sound()
      reads this, region, region.list, mark
    {
      && Housed() && region.list.user == mark && mark.base == base
      && mark.End() <= base + size
      && Marked(region.list.blocks, mark.End())
      && PayloadsMarked(region.headers, region.counts, asked, mark.End())
    }

    // Mentioning Look(i) is what makes the verifier look into the region.
    ghost predicate Housed()
      reads this, region, region.list
    {
      && region.base == base && region.size == size && |memory| == size
      && region.counts.Keys == region.headers.Keys
      && (forall p {:trigger region.headers[p].alignment} :: p in region.headers ==>
            region.headers[p].alignment >= DEFAULT_ALIGNMENT)
      && forall i {:trigger Look(i)} :: Look(i) ==> region.Valid()
    }

    ghost function Now(): View
      reads this, region, region.list
    {
      View(memory, region.headers, region.counts)
    }

    predicate Owns(ptr: int)
    {
      base < ptr < base + size
    }

    // ms_heap_construct, once ms_reserve has returned base
    constructor (base: nat, size: nat, reserved: seq<Byte>)
      requires Placed(base, size) && |reserved| == size
      ensures Valid() && this.base == base && this.size == size && memory == reserved
      ensures region.headers == map[] && region.list.blocks == [Block(base, size)]
      ensures mark.committedSize == NODE_SIZE
      ensures fresh(region) && fresh(region.list) && fresh(mark)
    {
      this.base, this.size := base, size;
      memory, asked := reserved, map[];
      var m := new Watermark(base);
      var r := new Region(base, size, m);
      mark, region := m, r;
    }

    // ms_heap_malloc
    method Malloc(count: nat, alignment: nat) returns (ptr: nat, ghost i: nat)
      requires Valid()
      requires ValidAlignment(Max(alignment, DEFAULT_ALIGNMENT))
      requires count < TWO64 && FitsWord(count, Max(alignment, DEFAULT_ALIGNMENT))
      modifies this`memory, this`asked, region, region.list, mark
      ensures Valid()
      ensures mark.committedSize >= old(mark.committedSize)
      ensures ptr == NULL <==>
                count == 0 || NoFit(old(region.list.blocks), NodeSize(count, Max(alignment, DEFAULT_ALIGNMENT)))
      ensures ptr == NULL ==>
                && Now() == old(Now()) && region.owner == old(region.owner) && mark.End() == old(mark.End())
                && region.list.blocks == old(region.list.blocks) && asked == old(asked)
      ensures ptr != NULL ==>
                && Owns(ptr) && (IsPow2(alignment) ==> ptr % alignment == 0)
                && Gained(old(Now()), Now(), base, ptr, count, Max(alignment, DEFAULT_ALIGNMENT))
                && Took(old(region.list.blocks), old(mark.End()), ptr,
                        NodeSize(count, Max(alignment, DEFAULT_ALIGNMENT)), i)
                && asked == old(asked)[ptr := NodeSize(count, Max(alignment, DEFAULT_ALIGNMENT))]
                && region.Words() == old(region.Words())[ptr := WordUnderHeader(region.headers[ptr])]
                && MarkMoved(old(mark.End()), mark.End(), ptr, region.headers[ptr], asked[ptr])
      // The mark moves past the bytes taken and, if the rest of the block is a node, its record.
      ensures ptr != NULL ==>
                var n := NodeSize(count, Max(alignment, DEFAULT_ALIGNMENT));
                && i < |old(region.list.blocks)|
                && mark.End() == Max(old(mark.End()), ptr - region.headers[ptr].padding - 16 + n +
                                     (if old(region.list.blocks)[i].size >= n + 24 then 24 else 0))
    {
      ptr, i := NULL, 0;
      ghost var bs, end := region.list.blocks, mark.End();
      if count > 0 {
        ptr, i := MallocSome(count, Max(alignment, DEFAULT_ALIGNMENT));
        if ptr != NULL {
          PayloadBounds(ptr);
          ghost var n := NodeSize(count, Max(alignment, DEFAULT_ALIGNMENT));
          MarkInNumbers(end, bs, n, i, ptr, region.headers[ptr], count);
        }
        if ptr != NULL && IsPow2(alignment) {
          DividesDown(ptr, alignment, Max(alignment, DEFAULT_ALIGNMENT));
        }
      }
    }

    // The payload ptr has the front of block i, and the commit mark is where the
    // callbacks put it.
    ghost predicate Took(bs: seq<Block>, end: nat, ptr: int, n: nat, i: nat)
      requires ptr in region.headers
      reads region, region.list, mark
    {
      && ChosenChunk(bs, n, i, ChunkOf(ptr, region.headers[ptr])) && region.list.blocks == Take(bs, i, n)
      && mark.End() == MallocMark(end, bs, n, i, ChunkOf(ptr, region.headers[ptr]).addr)
    }

    // ms_heap_malloc for count > 0, with the alignment already raised to the minimum
    method MallocSome(count: nat, alignment: nat) returns (ptr: nat, ghost i: nat)
      requires Valid()
      requires ValidAlignment(alignment) && 1 <= count < TWO64 && FitsWord(count, alignment)
      modifies this`memory, this`asked, region, region.list, mark
      ensures Valid()
      ensures mark.committedSize >= old(mark.committedSize)
      ensures ptr == NULL <==> NoFit(old(region.list.blocks), NodeSize(count, alignment))
      ensures ptr == NULL ==>
                && Now() == old(Now()) && region.owner == old(region.owner) && mark.End() == old(mark.End())
                && region.list.blocks == old(region.list.blocks) && asked == old(asked)
      ensures ptr != NULL ==>
                && Owns(ptr) && Gained(old(Now()), Now(), base, ptr, count, alignment)
                && Took(old(region.list.blocks), old(mark.End()), ptr, NodeSize(count, alignment), i)
                && asked == old(asked)[ptr := NodeSize(count, alignment)]
                && region.Words() == old(region.Words())[ptr := WordUnderHeader(region.headers[ptr])]
                && MarkMoved(old(mark.End()), mark.End(), ptr, region.headers[ptr], asked[ptr])
    {
      ghost var v, words, bs, end := Now(), region.Words(), region.list.blocks, mark.End();
      ptr, i := Claim(count, alignment);
      if ptr != NULL {
        Expose(ptr, count, alignment, v, words);
        PayloadBounds(ptr);
        MarkInNumbers(end, bs, NodeSize(count, alignment), i, ptr, region.headers[ptr], count);
      }
    }

    // The chunk and its header
    method Claim(count: nat, alignment: nat) returns (ptr: nat, ghost i: nat)
      requires Sound()
      requires ValidAlignment(alignment) && 1 <= count < TWO64 && FitsWord(count, alignment)
      modifies this`asked, region, region.list, mark
      ensures Sound()
      ensures mark.committedSize >= old(mark.committedSize)
      ensures ptr == NULL <==> NoFit(old(region.list.blocks), NodeSize(count, alignment))
      ensures ptr == NULL ==>
                && region.headers == old(region.headers) && region.counts == old(region.counts)
                && region.Words() == old(region.Words()) && region.owner == old(region.owner)
                && region.list.blocks == old(region.list.blocks) && asked == old(asked)
                && mark.End() == old(mark.End())
      ensures ptr != NULL ==>
                && Owns(ptr) && ptr !in old(region.headers) && ptr in region.headers
                && region.headers == old(region.headers)[ptr := region.headers[ptr]]
                && region.counts == old(region.counts)[ptr := count]
                && PayloadFits(ptr, region.headers[ptr], count) && region.headers[ptr].alignment == alignment
                && Snug(region.headers[ptr], count)
                && Took(old(region.list.blocks), old(mark.End()), ptr, NodeSize(count, alignment), i)
                && asked == old(asked)[ptr := NodeSize(count, alignment)]
                && region.Words() == old(region.Words())[ptr := WordUnderHeader(region.headers[ptr])]
    {
      ghost var hs, cs, end := region.headers, region.counts, mark.End();
      ptr, i := Allot(count, alignment);
      if ptr != NULL {
        ghost var n := NodeSize(count, alignment);
        PayloadAdded(hs, cs, asked, end, ptr, region.headers[ptr], count, n, mark.End());
        asked := asked[ptr := n];
      }
    }

    // The part of it that is the region's
    method Allot(count: nat, alignment: nat) returns (ptr: nat, ghost i: nat)
      requires Housed() && region.list.user == mark && mark.base == base && mark.End() <= base + size
      requires Marked(region.list.blocks, mark.End())
      requires ValidAlignment(alignment) && 1 <= count < TWO64 && FitsWord(count, alignment)
      modifies region, region.list, mark
      ensures Housed() && old(mark.End()) <= mark.End() <= base + size && Marked(region.list.blocks, mark.End())
      ensures ptr == NULL <==> NoFit(old(region.list.blocks), NodeSize(count, alignment))
      ensures ptr == NULL ==>
                && region.headers == old(region.headers) && region.counts == old(region.counts)
                && region.Words() == old(region.Words()) && region.owner == old(region.owner)
                && region.list.blocks == old(region.list.blocks) && mark.End() == old(mark.End())
      ensures ptr != NULL ==>
                && Owns(ptr) && ptr !in old(region.headers) && ptr in region.headers
                && region.headers == old(region.headers)[ptr := region.headers[ptr]]
                && region.counts == old(region.counts)[ptr := count]
                && PayloadFits(ptr, region.headers[ptr], count) && region.headers[ptr].alignment == alignment
                && Snug(region.headers[ptr], count)
                && Took(old(region.list.blocks), old(mark.End()), ptr, NodeSize(count, alignment), i)
                && region.Words() == old(region.Words())[ptr := WordUnderHeader(region.headers[ptr])]
                && PayloadMarked(ptr, region.headers[ptr], count, NodeSize(count, alignment), mark.End())
    {
      assert Look(0);
      ghost var bs, live, end := region.list.blocks, region.owner.Keys, mark.End();
      ptr, i := region.Allocate(count, alignment);
      if ptr != NULL {
        MarkAdded(bs, live, base, size, i, ptr, region.headers[ptr], count, end);
      }
    }

    // With padding 0, a fresh payload begins with the size word of its chunk. Other bytes
    // of it are left from earlier payloads or free nodes, and no contract speaks of them.
    method Expose(ptr: nat, count: nat, alignment: nat, ghost v: View, ghost words: map<int, nat>)
      requires Sound() && memory == v.memory && Shown(v.headers, words, v.memory, base)
      requires ptr !in v.headers && ptr in region.headers && region.headers == v.headers[ptr := region.headers[ptr]]
      requires region.counts == v.counts[ptr := count] && PayloadFits(ptr, region.headers[ptr], count)
      requires region.headers[ptr].alignment == alignment && Snug(region.headers[ptr], count)
      requires region.Words() == words[ptr := WordUnderHeader(region.headers[ptr])]
      modifies this`memory
      ensures Valid() && Gained(v, Now(), base, ptr, count, alignment)
    {
      PayloadsLaid();
      PayloadBounds(ptr);
      Surface(ptr, count, alignment, v, words);
    }

    method Surface(ptr: nat, count: nat, alignment: nat, ghost v: View, ghost words: map<int, nat>)
      requires Laid(region.headers, base, size) && |memory| == size && memory == v.memory
      requires Shown(v.headers, words, v.memory, base)
      requires ptr !in v.headers && ptr in region.headers && region.headers == v.headers[ptr := region.headers[ptr]]
      requires region.counts == v.counts[ptr := count] && PayloadFits(ptr, region.headers[ptr], count)
      requires region.headers[ptr].alignment == alignment && region.headers[ptr].size < TWO64
      requires Snug(region.headers[ptr], count)
      modifies this`memory
      ensures |memory| == size && Gained(v, Now(), base, ptr, count, alignment)
      ensures Shown(region.headers, words[ptr := WordUnderHeader(region.headers[ptr])], memory, base)
    {
      var h := region.headers[ptr];
      assert RoomInside(ptr, h, base, size);
      Put(ptr - base, LeftOver(h));
      Surfaced(v, words, Now(), base, size, ptr, count);
    }

    method Put(at: nat, data: seq<Byte>)
      requires at + |data| <= |memory|
      modifies this`memory
      ensures Overwritten(old(memory), memory, at, data)
    {
      memory := memory[..at] + data + memory[at + |data|..];
    }

    // The branch of ms_heap_free for a pointer of this heap; a heap within the threshold
    // has nothing to trim afterwards.
    method FreeOwned(ptr: nat)
      requires Valid() && ptr in region.headers && region.CanFree(ptr) && size <= HEAP_DEALLOC_THR
      modifies this`asked, region, region.list, mark
      ensures Valid() && mark.End() == old(mark.End())
      ensures Now() == Lost(old(Now()), ptr) && asked == old(asked) - {ptr}
      ensures region.Words() == old(region.Words()) - {ptr}
      ensures region.owner == old(region.owner) - {ChunkOf(ptr, old(region.headers)[ptr])}
    {
      ShownRemoved(region.headers, region.Words(), memory, base, ptr);
      Drop(ptr);
    }

    method Drop(ptr: nat)
      requires Sound() && ptr in region.headers && region.CanFree(ptr)
      modifies this`asked, region, region.list, mark
      ensures Sound() && mark.End() == old(mark.End())
      ensures region.headers == old(region.headers) - {ptr} && region.counts == old(region.counts) - {ptr}
      ensures asked == old(asked) - {ptr} && region.Words() == old(region.Words()) - {ptr}
      ensures region.owner == old(region.owner) - {ChunkOf(ptr, old(region.headers)[ptr])}
    {
      assert Look(0);
      ghost var c, hs, cs, end := ChunkOf(ptr, region.headers[ptr]), region.headers, region.counts, mark.End();
      ChunkInRegion(region.list.blocks, region.owner.Keys, base, size, c);
      assert ptr in asked && PayloadMarked(ptr, hs[ptr], cs[ptr], asked[ptr], end);
      region.Free(ptr);
      PayloadRemoved(hs, cs, asked, end, ptr, mark.End());
      asked := asked - {ptr};
    }

    // ms_heap_free
    method Free(ptr: nat)
      requires Valid()
      requires Owns(ptr) ==> ptr in region.headers && region.CanFree(ptr) && size <= HEAP_DEALLOC_THR
      modifies this`asked, region, region.list, mark
      ensures Valid() && mark.End() == old(mark.End())
      ensures Now() == if base < ptr < base + size then Lost(old(Now()), ptr) else old(Now())
      ensures !Owns(ptr) ==>
                && region.owner == old(region.owner) && region.list.blocks == old(region.list.blocks)
                && asked == old(asked) && region.Words() == old(region.Words())
      ensures Owns(ptr) ==>
                && region.Words() == old(region.Words()) - {ptr}
                && region.owner == old(region.owner) - {ChunkOf(ptr, old(region.headers)[ptr])}
                && asked == old(asked) - {ptr}
    {
      if Owns(ptr) {
        FreeOwned(ptr);
      }
    }

    function Available(ptr: int): nat
      requires ptr in region.headers
      reads region
    {
      Room(region.headers[ptr])
    }

    lemma PayloadBounds(ptr: int)
      requires Housed() && ptr in region.headers
      ensures Owns(ptr) && ptr + Available(ptr) <= base + size
      ensures region.headers[ptr].size == region.headers[ptr].padding + HEADER_SIZE + Available(ptr) >= NODE_SIZE
      ensures PayloadFits(ptr, region.headers[ptr], region.counts[ptr]) && 1 <= region.counts[ptr] <= Available(ptr)
      ensures region.headers[ptr].size < TWO64 && ChunkOf(ptr, region.headers[ptr]) in region.owner
      ensures ChunkOf(ptr, region.headers[ptr]).addr != NULL
    {
      assert Look(0);
      var c := ChunkOf(ptr, region.headers[ptr]);
      assert PayloadFits(ptr, region.headers[ptr], region.counts[ptr]);
      ChunkInRegion(region.list.blocks, region.owner.Keys, base, size, c);
      assert ApartFrom(region.list.blocks, c);
    }

    lemma RoomsOfRegion(p: int, q: int)
      requires Housed() && p in region.headers && q in region.headers && p != q
      ensures RoomsApart(p, region.headers[p], q, region.headers[q])
    {
      assert Look(0);
      PayloadBounds(p);
      PayloadBounds(q);
      var b, c := ChunkOf(p, region.headers[p]), ChunkOf(q, region.headers[q]);
      assert b in region.owner && c in region.owner && b != c;
      assert Apart(b, c);
    }

    lemma PayloadsLaid()
      requires Housed()
      ensures Laid(region.headers, base, size)
    {
      forall p | p in region.headers
        ensures RoomInside(p, region.headers[p], base, size)
      {
        PayloadBounds(p);
      }
      forall p, q | p in region.headers && q in region.headers && p != q
        ensures RoomsApart(p, region.headers[p], q, region.headers[q])
      {
        RoomsOfRegion(p, q);
      }
    }

    // ---- What malloc, free and realloc write besides payload bytes

    lemma ChunkOutside(c: Block, p: int)
      requires Housed() && p in region.headers && Apart(c, ChunkOf(p, region.headers[p]))
      ensures forall a: int, n: nat :: c.addr <= a && a + n <= c.End() ==> Outside(a, n, p, region.headers[p])
    {
      PayloadBounds(p);
    }

    // Node records of free blocks, and headers of other payloads
    lemma MetadataOutside(p: int)
      requires Housed() && p in region.headers
      ensures forall j :: 0 <= j < |region.list.blocks| ==>
                Outside(region.list.blocks[j].addr, NODE_SIZE, p, region.headers[p])
      ensures forall q :: q in region.headers && q != p ==> Outside(q - HEADER_SIZE, HEADER_SIZE, p, region.headers[p])
    {
      assert Look(0);
      var c := ChunkOf(p, region.headers[p]);
      ChunkInRegion(region.list.blocks, region.owner.Keys, base, size, c);
      assert ApartFrom(region.list.blocks, c);
      forall j | 0 <= j < |region.list.blocks|
        ensures Outside(region.list.blocks[j].addr, NODE_SIZE, p, region.headers[p])
      {
        assert Apart(region.list.blocks[j], c);
        ChunkOutside(region.list.blocks[j], p);
      }
      forall q | q in region.headers && q != p
        ensures Outside(q - HEADER_SIZE, HEADER_SIZE, p, region.headers[p])
      {
        var d := ChunkOf(q, region.headers[q]);
        PayloadBounds(q);
        assert d in region.owner && c in region.owner && d != c && Apart(d, c);
        ChunkOutside(d, p);
      }
    }

    // Every record that malloc writes in taking n bytes of block i, and every record
    // that free writes for another payload q, lies outside the payload p.
    lemma TakeWritesOutside(i: nat, n: nat, p: int, a: int)
      requires Housed() && p in region.headers && i < |region.list.blocks|
      requires NODE_SIZE <= n <= region.list.blocks[i].size
      requires a in TakeTouches(region.list.blocks, i, n) && a != NULL
      ensures Outside(a, NODE_SIZE, p, region.headers[p])
    {
      assert Look(0);
      MetadataOutside(p);
      var b, c := region.list.blocks[i], ChunkOf(p, region.headers[p]);
      assert ApartFrom(region.list.blocks, c) && Apart(b, c);
      ChunkOutside(b, p);
    }

    lemma ReleaseWritesOutside(q: int, p: int, a: int)
      requires Housed() && p in region.headers && q in region.headers && q != p
      requires a in ReleaseTouches(region.list.blocks, ChunkOf(q, region.headers[q]).addr) && a != NULL
      ensures Outside(a, NODE_SIZE, p, region.headers[p])
    {
      assert Look(0);
      var d := ChunkOf(q, region.headers[q]);
      TouchedNodes(region.list.blocks, d.addr, a);
      MetadataOutside(p);
      if a == d.addr {
        ChunksApart(q, p);
        PayloadBounds(q);
        ChunkOutside(d, p);
      }
    }

    lemma ChunksApart(q: int, p: int)
      requires Housed() && p in region.headers && q in region.headers && q != p
      ensures Apart(ChunkOf(q, region.headers[q]), ChunkOf(p, region.headers[p]))
    {
      assert Look(0);
      var c, d := ChunkOf(p, region.headers[p]), ChunkOf(q, region.headers[q]);
      assert c in region.owner && d in region.owner && c != d;
    }

    // What a client does to its payload. With padding 0 the first eight bytes are also the
    // size word of the chunk.
    method Write(ptr: nat, off: nat, data: seq<Byte>)
      requires Valid() && ptr in region.headers && off + |data| <= Available(ptr)
      modifies this`memory, region.list`mem
      ensures Valid() && Wrote(old(Now()), Now(), base, ptr, off, data)
      ensures region.Words() == old(region.Words())[ptr := WordSeen(region.headers[ptr], memory, ptr - base)]
    {
      PayloadsLaid();
      WriteBytes(ptr, off, data, region.Words());
      Resurface(ptr);
    }

    method WriteBytes(ptr: nat, off: nat, data: seq<Byte>, ghost words: map<int, nat>)
      requires Laid(region.headers, base, size) && |memory| == size && Shown(region.headers, words, memory, base)
      requires ptr in region.headers && off + |data| <= Room(region.headers[ptr])
      modifies this`memory
      ensures |memory| == size && Wrote(old(Now()), Now(), base, ptr, off, data)
      ensures Shown(region.headers, words[ptr := WordSeen(region.headers[ptr], memory, ptr - base)], memory, base)
      ensures region.headers[ptr].padding != 0 ==> words[ptr] == WordUnderHeader(region.headers[ptr])
    {
      assert words[ptr] == WordSeen(region.headers[ptr], memory, ptr - base);
      assert RoomInside(ptr, region.headers[ptr], base, size);
      Put(ptr - base + off, data);
      ShownWritten(region.headers, words, old(memory), memory, base, size, ptr, off, |data|);
    }

    // The size word becomes what the payload now shows of it.
    method Resurface(ptr: nat)
      requires Sound() && ptr in region.headers
      requires region.headers[ptr].padding != 0 ==> region.Words()[ptr] == WordUnderHeader(region.headers[ptr])
      requires var word := WordSeen(region.headers[ptr], memory, ptr - base);
        Shown(region.headers, region.Words()[ptr := word], memory, base)
      modifies region.list`mem
      ensures Valid()
      ensures region.Words() == old(region.Words())[ptr := WordSeen(region.headers[ptr], memory, ptr - base)]
    {
      Rewrite(ptr);
    }

    method Rewrite(ptr: nat)
      requires Sound() && ptr in region.headers
      requires region.headers[ptr].padding != 0 ==> region.Words()[ptr] == WordUnderHeader(region.headers[ptr])
      modifies region.list`mem
      ensures Sound()
      ensures region.Words() == old(region.Words())[ptr := WordSeen(region.headers[ptr], memory, ptr - base)]
    {
      assert Look(0);
      PayloadBounds(ptr);
      var h := region.headers[ptr];
      if h.padding == 0 {
        var record := region.list.mem[ptr - HEADER_SIZE];
        region.Scribble(ptr, record.(size := LittleEndian(memory[ptr - base..ptr - base + 8])));
      }
    }

    // The malloc and the memcpy of realloc_from_free_list
    method CopyOut(ptr: nat, newCount: nat, availableSize: nat) returns (r: nat)
      requires Valid() && ptr in region.headers && availableSize == Available(ptr) < newCount < TWO64
      requires FitsWord(newCount, region.headers[ptr].alignment) && CanMove(ptr, newCount)
      modifies this`memory, this`asked, region, region.list, mark
      ensures Valid() && mark.committedSize >= old(mark.committedSize)
      ensures r == NULL <==> NoFit(old(region.list.blocks), NodeSize(newCount, old(region.headers)[ptr].alignment))
      ensures r == NULL ==> Now() == old(Now())
      ensures r != NULL ==>
                && Copied(old(Now()), Now(), base, ptr, r, newCount) && ptr in region.headers && region.CanFree(ptr)
                && asked == old(asked)[r := NodeSize(newCount, old(region.headers)[ptr].alignment)]
                && r in region.headers && MarkMoved(old(mark.End()), mark.End(), r, region.headers[r], asked[r])
      ensures r == NULL ==> mark.End() == old(mark.End()) && asked == old(asked)
    {
      ghost var v := Now();
      r := MallocBeside(ptr, newCount);
      if r != NULL {
        Fill(ptr, r, availableSize, newCount, v);
      }
    }

    // The malloc, after which ptr can be freed
    method MallocBeside(ptr: nat, newCount: nat) returns (r: nat)
      requires Valid() && ptr in region.headers && 1 <= newCount < TWO64
      requires FitsWord(newCount, region.headers[ptr].alignment) && CanMove(ptr, newCount)
      modifies this`memory, this`asked, region, region.list, mark
      ensures Valid() && mark.committedSize >= old(mark.committedSize)
      ensures r == NULL <==> NoFit(old(region.list.blocks), NodeSize(newCount, old(region.headers)[ptr].alignment))
      ensures r == NULL ==> Now() == old(Now())
      ensures r != NULL ==>
                && ptr in region.headers && region.CanFree(ptr)
                && Gained(old(Now()), Now(), base, r, newCount, old(region.headers)[ptr].alignment)
                && asked == old(asked)[r := NodeSize(newCount, old(region.headers)[ptr].alignment)]
                && r in region.headers && MarkMoved(old(mark.End()), mark.End(), r, region.headers[r], asked[r])
      ensures r == NULL ==> mark.End() == old(mark.End()) && asked == old(asked)
    {
      assert ValidAlignment(region.headers[ptr].alignment) by { PayloadBounds(ptr); }
      ghost var bs, hs, words := region.list.blocks, region.headers, region.Words();
      ghost var n, i := NodeSize(newCount, region.headers[ptr].alignment), 0;
      r, i := MallocSome(newCount, region.headers[ptr].alignment);
      if r != NULL {
        HarmlessThen(bs, n, i, ChunkOf(r, region.headers[r]), hs, words, region.headers, region.Words(), ptr, r);
      }
    }

    // The memcpy
    method Fill(ptr: nat, r: nat, n: nat, ghost newCount: nat, ghost v: View)
      requires Valid() && ptr in v.headers && n == Room(v.headers[ptr]) < newCount
      requires Gained(v, Now(), base, r, newCount, v.headers[ptr].alignment)
      requires ptr in region.headers && region.CanFree(ptr)
      modifies this`memory, region.list`mem
      ensures Valid() && Copied(v, Now(), base, ptr, r, newCount) && region.CanFree(ptr)
    {
      ghost var word := region.Words()[ptr];
      Copy(ptr, r, n, newCount, v);
      Resurface(r);
      assert region.Words()[ptr] == word;
    }

    method Copy(ptr: nat, r: nat, n: nat, ghost newCount: nat, ghost v: View)
      requires Valid() && ptr in v.headers && n == Room(v.headers[ptr]) < newCount
      requires Gained(v, Now(), base, r, newCount, v.headers[ptr].alignment)
      modifies this`memory
      ensures Sound() && Copied(v, Now(), base, ptr, r, newCount)
      ensures Shown(region.headers, region.Words()[r := WordSeen(region.headers[r], memory, r - base)], memory, base)
      ensures region.headers[r].padding != 0 ==> region.Words()[r] == WordUnderHeader(region.headers[r])
    {
      PayloadsLaid();
      FillBytes(ptr, r, n, newCount, v, region.Words());
    }

    method FillBytes(ptr: nat, r: nat, n: nat, ghost newCount: nat, ghost v: View, ghost words: map<int, nat>)
      requires Laid(region.headers, base, size) && |memory| == size && Shown(region.headers, words, memory, base)
      requires ptr in v.headers && n == Room(v.headers[ptr]) < newCount
      requires Gained(v, Now(), base, r, newCount, v.headers[ptr].alignment)
      modifies this`memory
      ensures |memory| == size && Copied(v, Now(), base, ptr, r, newCount)
      ensures Shown(region.headers, words[r := WordSeen(region.headers[r], memory, r - base)], memory, base)
      ensures region.headers[r].padding != 0 ==> words[r] == WordUnderHeader(region.headers[r])
    {
      ghost var mid := Now();
      assert ptr in region.headers && RoomInside(ptr, region.headers[ptr], base, size);
      var data := memory[ptr - base..ptr - base + n];
      WriteBytes(r, 0, data, words);
      GainedThenFilled(v, mid, Now(), base, ptr, r, newCount, data);
    }

    // Once a larger payload has been taken from the free list, the old one can be freed.
    ghost predicate CanMove(ptr: int, newCount: nat)
      requires ptr in region.headers
      reads region, region.list
    {
      var alignment := region.headers[ptr].alignment;
      alignment >= 1 ==> region.CanFreeAfter(ptr, NodeSize(newCount, alignment))
    }

    // The branch of realloc_from_free_list that needs more room
    method Relocate(ptr: nat, newCount: nat, availableSize: nat) returns (r: nat)
      requires Valid() && ptr in region.headers && availableSize == Available(ptr) < newCount < TWO64
      requires FitsWord(newCount, region.headers[ptr].alignment) && CanMove(ptr, newCount) && size <= HEAP_DEALLOC_THR
      modifies this`memory, this`asked, region, region.list, mark
      ensures Valid() && mark.committedSize >= old(mark.committedSize)
      ensures r == NULL <==> NoFit(old(region.list.blocks), NodeSize(newCount, old(region.headers)[ptr].alignment))
      ensures if r == NULL then Now() == old(Now()) else Moved(old(Now()), Now(), base, ptr, r, newCount)
      ensures r == NULL ==> mark.End() == old(mark.End()) && asked == old(asked)
      ensures r != NULL ==>
                && asked == (old(asked) - {ptr})[r := NodeSize(newCount, old(region.headers)[ptr].alignment)]
                && r in region.headers && MarkMoved(old(mark.End()), mark.End(), r, region.headers[r], asked[r])
    {
      ghost var v := Now();
      ghost var n, asked0 := NodeSize(newCount, region.headers[ptr].alignment), asked;
      r := CopyOut(ptr, newCount, availableSize);
      if r != NULL {
        CopiedThenFreed(v, Now(), base, ptr, r, newCount);
        AddThenRemove(asked0, ptr, r, n);
        FreeOwned(ptr);
      }
    }

    // realloc_from_free_list; a failed relocation ends in ms_fatal, which traps
    method ReallocFromFreeList(ptr: nat, newCount: nat) returns (r: nat, trapped: bool)
      requires Valid() && ptr in region.headers && 0 < newCount < TWO64
      requires newCount > Available(ptr) ==>
                 FitsWord(newCount, region.headers[ptr].alignment) && CanMove(ptr, newCount) && size <= HEAP_DEALLOC_THR
      modifies this`memory, this`asked, region, region.list, mark
      ensures Valid() && mark.committedSize >= old(mark.committedSize)
      ensures trapped <==> newCount > old(Available(ptr))
                           && NoFit(old(region.list.blocks), NodeSize(newCount, old(region.headers)[ptr].alignment))
      ensures newCount <= old(Available(ptr)) ==> r == ptr && Now() == old(Now()) && mark.End() == old(mark.End())
      ensures trapped ==> Now() == old(Now())
      ensures r != NULL
      ensures newCount <= old(Available(ptr)) || trapped ==> mark.End() == old(mark.End()) && asked == old(asked)
      ensures newCount > old(Available(ptr)) && !trapped ==>
                && Moved(old(Now()), Now(), base, ptr, r, newCount)
                && asked == (old(asked) - {ptr})[r := NodeSize(newCount, old(region.headers)[ptr].alignment)]
                && r in region.headers && MarkMoved(old(mark.End()), mark.End(), r, region.headers[r], asked[r])
    {
      var availableSize := region.headers[ptr].size - region.headers[ptr].padding - HEADER_SIZE;
      PayloadBounds(ptr);
      r, trapped := ptr, false;
      if newCount > availableSize {
        r := Relocate(ptr, newCount, availableSize);
        if r == NULL {
          r, trapped := ptr, true;
        }
      }
    }

    // ms_heap_realloc, branch by branch
    method Realloc(ptr: nat, newCount: nat) returns (r: nat, trapped: bool)
      requires Valid() && newCount < TWO64
      requires ptr == NULL ==> FitsWord(newCount, DEFAULT_ALIGNMENT)
      requires Owns(ptr) ==> ptr in region.headers
      requires Owns(ptr) && newCount == 0 ==> region.CanFree(ptr) && size <= HEAP_DEALLOC_THR
      requires Owns(ptr) && newCount > Available(ptr) ==>
                 FitsWord(newCount, region.headers[ptr].alignment) && CanMove(ptr, newCount) && size <= HEAP_DEALLOC_THR
      modifies this`memory, this`asked, region, region.list, mark
      ensures Valid() && mark.committedSize >= old(mark.committedSize)
      ensures ptr == NULL ==>
                && !trapped
                && (r == NULL <==>
                    newCount == 0 || NoFit(old(region.list.blocks), NodeSize(newCount, DEFAULT_ALIGNMENT)))
                && if r == NULL then Now() == old(Now())
                   else Gained(old(Now()), Now(), base, r, newCount, DEFAULT_ALIGNMENT)
      ensures ptr != NULL && newCount == 0 ==>
                && r == NULL && !trapped
                && Now() == if base < ptr < base + size then Lost(old(Now()), ptr) else old(Now())
      ensures ptr != NULL && newCount > 0 && !(base < ptr < base + size) ==> trapped && Now() == old(Now())
      ensures Owns(ptr) && newCount > 0 ==>
                && (trapped <==>
                    && newCount > old(Available(ptr))
                    && NoFit(old(region.list.blocks), NodeSize(newCount, old(region.headers)[ptr].alignment)))
                && (trapped ==> Now() == old(Now()))
                && (newCount <= old(Available(ptr)) ==>
                      r == ptr && Now() == old(Now()) && mark.End() == old(mark.End()))
                && (newCount > old(Available(ptr)) && !trapped ==> Moved(old(Now()), Now(), base, ptr, r, newCount))
      // Only a new payload moves the mark, and for the bytes that were asked for it.
      ensures trapped || r == NULL || r == ptr ==> mark.End() == old(mark.End())
      ensures !trapped && r != NULL && r != ptr ==>
                && r in region.headers && r in asked
                && region.headers[r].alignment >= 1 && asked[r] == NodeSize(newCount, region.headers[r].alignment)
                && MarkMoved(old(mark.End()), mark.End(), r, region.headers[r], asked[r])
    {
      r, trapped := NULL, false;
      if ptr != NULL {
        if newCount > 0 {
          if Owns(ptr) {
            r, trapped := ReallocFromFreeList(ptr, newCount);
          } else {
            trapped := true;
          }
        } else {
          Free(ptr);
        }
      } else {
        ghost var i;
        WordsArePow2();
        r, i := Malloc(newCount, DEFAULT_ALIGNMENT);
      }
    }

    // What the outcomes of a successful realloc have in common: the first min(old, new)
    // bytes of the payload survive wherever it ends up, and every other payload keeps
    // its header, all its bytes and its size word.
    lemma ReallocKeepsBytes(v: View, v': View, ptr: int, r: int, newCount: nat)
      requires Laid(v.headers, base, size) && |v.memory| == size && ptr in v.headers
      requires if newCount <= Room(v.headers[ptr]) then r == ptr && v' == v else Moved(v, v', base, ptr, r, newCount)
      ensures Reallocated(v.headers, v.memory, v'.headers, v'.memory, base, ptr, r, newCount,
                          Min(Room(v.headers[ptr]), newCount))
      ensures forall q {:trigger v.headers[q]} :: q in v.headers && q != ptr ==>
                q in v'.headers && SizeWord(v', base, q) == SizeWord(v, base, q)
    {
      if newCount <= Room(v.headers[ptr]) {
        NothingMoved(v.headers, v.memory, base, size, ptr, newCount);
      }
      forall q | q in v.headers && q != ptr
        ensures q in v'.headers && SizeWord(v', base, q) == SizeWord(v, base, q)
      {
        assert PayloadKept(v.headers, v.memory, v'.headers, v'.memory, base, q);
        assert RoomInside(q, v.headers[q], base, size);
        KeptWord(v.memory, v'.memory, v.headers[q], q - base);
      }
    }

    // ---- Growing in place and the commit mark

    // A payload that grows in place stays committed as long as it stays within what
    // malloc asked the free list for. All of its chunk is committed exactly when the
    // chunk is not the last of the heap, or the whole heap is committed.
    lemma GrowthCoveredExactly(ptr: int)
      requires Valid() && ptr in region.headers
      ensures region.counts[ptr] + region.headers[ptr].padding + HEADER_SIZE <= asked[ptr]
      ensures forall n: nat :: n + region.headers[ptr].padding + HEADER_SIZE <= asked[ptr] ==> Committed(ptr, n)
      ensures (forall n: nat :: n <= Available(ptr) ==> Committed(ptr, n))
              <==> ChunkOf(ptr, region.headers[ptr]).End() < base + size || mark.End() == base + size
    {
      var c := ChunkOf(ptr, region.headers[ptr]);
      PayloadBounds(ptr);
      assert PayloadMarked(ptr, region.headers[ptr], region.counts[ptr], asked[ptr], mark.End());
      assert Committed(ptr, Available(ptr)) <==> c.End() <= mark.End();
      if c.End() < base + size {
        NextIsMarked(c);
      }
    }

    ghost predicate Committed(ptr: int, n: nat)
      reads mark
    {
      ptr + n <= mark.End()
    }

    // Whatever follows a chunk begins below the mark.
    lemma NextIsMarked(c: Block)
      requires Valid() && c in region.owner && c.End() < base + size
      ensures c.End() <= mark.End()
    {
      assert Look(0);
      ChunkInRegion(region.list.blocks, region.owner.Keys, base, size, c);
      assert Covered(region.list.blocks, c.End()) || CoveredBy(region.owner.Keys, c.End());
      if Covered(region.list.blocks, c.End()) {
        var j :| 0 <= j < |region.list.blocks| && region.list.blocks[j].Covers(c.End());
        assert ApartFrom(region.list.blocks, c) && Apart(region.list.blocks[j], c);
      } else {
        var d :| d in region.owner.Keys && d.Covers(c.End());
        assert Apart(d, c);
        ChunkIsMarked(d);
      }
    }

    lemma ChunkIsMarked(d: Block)
      requires Valid() && d in region.owner
      ensures d.addr < mark.End()
    {
      assert Look(0);
      var p := region.owner[d];
      assert p in region.headers && ChunkOf(p, region.headers[p]) == d;
      PayloadBounds(p);
      assert p in asked;
    }
  }

  // A request of 4065 bytes takes all of a region of 4096 bytes at 4096.
  lemma TakesAll(bs: seq<Block>, i: nat, ptr: int, h: Header, mark: nat)
    requires bs == [Block(4096, 4096)] && mark <= 4096 + NODE_SIZE
    requires ChosenChunk(bs, NodeSize(4065, 8), i, ChunkOf(ptr, h)) && PayloadFits(ptr, h, 4065) && h.alignment == 8
    ensures NodeSize(4065, 8) == 4088 && ptr == 4112 && Room(h) == 4080
    ensures MallocMark(mark, bs, NodeSize(4065, 8), i, ChunkOf(ptr, h).addr) == 8184
  {
    NodeSizeExact(4065, 8);
    PaddingKinds(ptr, h, 4065);
  }

  // A heap of 4096 bytes whose one payload of 4065 bytes is grown in place to 4080, which
  // realloc grants: its last 8 bytes lie past the commit mark.
  method GrowPastMark(reserved: seq<Byte>) returns (heap: Heap, ptr: nat, r: nat, trapped: bool)
    requires |reserved| == 4096
    ensures fresh(heap) && heap.Valid() && heap.size == 4096 && r == ptr && !trapped
    ensures ptr in heap.region.headers && heap.region.counts == map[ptr := 4065] && heap.Available(ptr) == 4080
    ensures heap.mark.End() + 8 == ptr + 4080 <= heap.base + heap.size
  {
    heap := new Heap(4096, 4096, reserved);
    WordsArePow2();
    NodeSizeExact(4065, 8);
    ghost var bs, mark := heap.region.list.blocks, heap.mark.End();
    ghost var i;
    assert bs[0].size >= NodeSize(4065, 8);
    ptr, i := heap.MallocSome(4065, 8);
    TakesAll(bs, i, ptr, heap.region.headers[ptr], mark);
    r, trapped := heap.Realloc(ptr, 4080);
  }

  lemma DividesDown(ptr: nat, a: nat, b: nat)
    requires IsPow2(a) && IsPow2(b) && 1 <= a <= b && ptr % b == 0
    ensures ptr % a == 0
  {
    var d := Pow2Divides(a, b);
    assert ptr == a * d * (ptr / b);
    assert ptr == a * (d * (ptr / b));
    DivModUnique(ptr, a, d * (ptr / b), 0);
  }
}
