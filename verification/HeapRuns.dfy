// What callers of a heap may count on over a run of calls.

module HeapRuns {
  import opened Bits
  import opened Blocks
  import opened FreeLists
  import opened Regions
  import opened Payloads
  import opened Heaps
  import opened Stores

  // ---- A client that never writes

  method ServeGet(heap: Heap, count: nat, alignment: nat, live: seq<nat>) returns (live': seq<nat>)
    requires heap.Valid() && HeldTidily(heap.region.headers, heap.region.Words(), live) && Legal(Get(count, alignment))
    modifies heap`memory, heap`asked, heap.region, heap.region.list, heap.mark
    ensures heap.Valid() && HeldTidily(heap.region.headers, heap.region.Words(), live')
  {
    ghost var headers, words := heap.region.headers, heap.region.Words();
    WordsArePow2();
    var p;
    ghost var i;
    p, i := heap.Malloc(count, alignment);
    live' := live;
    if p != NULL {
      live' := live + [p];
      TidyGets(headers, words, live, p, heap.region.headers, heap.region.Words());
    }
  }

  method ServeGive(heap: Heap, k: nat, live: seq<nat>) returns (live': seq<nat>)
    requires heap.Valid() && HeldTidily(heap.region.headers, heap.region.Words(), live)
    requires k < |live| && heap.size <= HEAP_DEALLOC_THR
    modifies heap`memory, heap`asked, heap.region, heap.region.list, heap.mark
    ensures heap.Valid() && HeldTidily(heap.region.headers, heap.region.Words(), live')
  {
    assert Look(0);
    assert live[k] in heap.region.headers;
    TidyCanBeFreed(heap.region, live[k]);
    heap.PayloadBounds(live[k]);
    TidyGives(heap.region.headers, heap.region.Words(), live, k);
    heap.Free(live[k]);
    live' := live[..k] + live[k + 1..];
  }

  // Any sequence of mallocs with default alignment and of frees of live payloads, in any
  // order, even of a full heap. Every free meets its precondition, and when all is given
  // back the heap is one node again.
  method ServeAll(heap: Heap, requests: seq<Request>) returns (live: seq<nat>)
    requires heap.Valid() && heap.region.headers == map[] && heap.size <= HEAP_DEALLOC_THR
    requires forall i :: 0 <= i < |requests| ==> Legal(requests[i]) && (requests[i].Get? || requests[i].Give?)
    modifies heap`memory, heap`asked, heap.region, heap.region.list, heap.mark
    ensures heap.Valid() && HeldTidily(heap.region.headers, heap.region.Words(), live)
    ensures forall p :: p in heap.region.headers ==> heap.region.CanFree(p)
    ensures live == [] ==> heap.region.list.blocks == [Block(heap.base, heap.size)]
  {
    live := [];
    for i := 0 to |requests|
      invariant heap.Valid() && HeldTidily(heap.region.headers, heap.region.Words(), live)
    {
      assert Legal(requests[i]);
      match requests[i]
      case Get(count, alignment) =>
        live := ServeGet(heap, count, alignment, live);
      case Give(k) =>
        if k < |live| {
          live := ServeGive(heap, k, live);
        }
    }
    assert Look(0);
    forall p | p in heap.region.headers
      ensures heap.region.CanFree(p)
    {
      TidyCanBeFreed(heap.region, p);
    }
    if live == [] {
      NothingHeld(heap.region.headers, live);
      heap.region.AllFreed();
    }
  }

  // ---- A client that writes and lets payloads grow

  lemma DefaultPayload(heap: Heap, p: nat)
    requires heap.Housed() && p in heap.region.headers && heap.region.headers[p].alignment == DEFAULT_ALIGNMENT
    ensures heap.region.headers[p].padding == 0 && heap.region.headers[p].size >= NODE_SIZE
    ensures 0 <= p - heap.base && p - heap.base + Room(heap.region.headers[p]) <= |heap.memory|
  {
    assert Look(0);
    var r := heap.region;
    heap.PayloadBounds(p);
    assert ChunkOf(p, r.headers[p]) in r.owner;
    PaddingKinds(p, r.headers[p], r.counts[p]);
  }

  // The client has the strings of store behind the payloads in live, and keeps some byte
  // of the heap free.
  ghost predicate Keeps(heap: Heap, live: seq<nat>, store: Store)
    reads heap, heap.region, heap.region.list, heap.mark
  {
    && heap.Valid() && heap.size <= HEAP_DEALLOC_THR && Held(heap.Now(), heap.base, live, store)
    && SumLive(heap.region.owner.Keys) < heap.size
  }

  // What the client knows of the word that a free of its k-th payload will read
  lemma WordIsSmall(heap: Heap, live: seq<nat>, store: Store, k: nat)
    requires Keeps(heap, live, store) && k < |live|
    ensures |store| == |live| && live[k] in heap.region.headers && heap.Owns(live[k])
    ensures heap.region.headers[live[k]].alignment == DEFAULT_ALIGNMENT && heap.Available(live[k]) == |store[k]|
    ensures heap.region.Words()[live[k]] <= heap.region.headers[live[k]].size
    ensures ChunkOf(live[k], heap.region.headers[live[k]]) in heap.region.owner
    ensures ChunkOf(live[k], heap.region.headers[live[k]]).size == heap.region.headers[live[k]].size
  {
    assert Look(0);
    HeldIn(heap.Now(), heap.base, live, store, k);
    heap.PayloadBounds(live[k]);
  }

  ghost function ExtentOf(heap: Heap): Extent
    reads heap, heap.region, heap.mark
  {
    Extent(heap.mark.End(), AskedEnds(heap.region.headers, heap.asked))
  }

  lemma Still(heap: Heap, x: Extent)
    requires heap.Valid() && heap.mark.End() == x.mark
    ensures ExtentStep(x, ExtentOf(heap))
  {
    EndsAreBelow(heap.region.headers, heap.region.counts, heap.asked, heap.mark.End());
  }

  lemma MovedOn(heap: Heap, x: Extent, r: int)
    requires heap.Valid() && r in heap.region.headers && r in heap.asked && heap.mark.End() >= x.mark
    requires MarkMoved(x.mark, heap.mark.End(), r, heap.region.headers[r], heap.asked[r])
    ensures ExtentStep(x, ExtentOf(heap))
  {
    EndsAreBelow(heap.region.headers, heap.region.counts, heap.asked, heap.mark.End());
    MovedIsStep(x.mark, heap.mark.End(), r, heap.region.headers, heap.asked);
  }

  // A free is safe now, and a free after a move is.
  lemma KeptCanBeFreed(heap: Heap, live: seq<nat>, store: Store, k: nat)
    requires Keeps(heap, live, store) && k < |live|
    ensures live[k] in heap.region.headers && heap.region.CanFree(live[k])
  {
    assert Look(0);
    var r := heap.region;
    WordIsSmall(heap, live, store, k);
    NotFull(r.list.blocks, r.owner.Keys, r.base, r.size, ChunkOf(live[k], r.headers[live[k]]), r.Words()[live[k]]);
  }

  lemma KeptCanMove(heap: Heap, live: seq<nat>, store: Store, k: nat, newCount: nat)
    requires Keeps(heap, live, store) && k < |live| && newCount < TWO64 && FitsWord(newCount, DEFAULT_ALIGNMENT)
    requires SumLive(heap.region.owner.Keys) + NodeSize(newCount, DEFAULT_ALIGNMENT) + NODE_SIZE <= heap.size
    ensures live[k] in heap.region.headers && heap.CanMove(live[k], newCount)
  {
    assert Look(0);
    var r, n := heap.region, NodeSize(newCount, DEFAULT_ALIGNMENT);
    WordIsSmall(heap, live, store, k);
    WordsArePow2();
    NodeSizeExact(newCount, DEFAULT_ALIGNMENT);
    var c := ChunkOf(live[k], r.headers[live[k]]);
    NotFullAfter(r.list.blocks, r.owner.Keys, r.base, r.size, n, c, r.Words()[live[k]]);
  }

  // The bytes in use, which the client can add up from the sizes it was given
  lemma UsedBytes(heap: Heap, live: seq<nat>)
    requires heap.Valid() && Listed(heap.region.headers, live)
    ensures SumLive(heap.region.owner.Keys) == Used(heap.region.headers, live)
  {
    assert Look(0);
    AllUsed(heap.region.headers, heap.region.owner, heap.region.counts, live);
  }

  // One request each. The client declines what would leave less than a node record's
  // worth of bytes free.
  method KeepGet(heap: Heap, count: nat, alignment: nat, live: seq<nat>, ghost store: Store)
    returns (live': seq<nat>, ghost store': Store, served: bool)
    requires Keeps(heap, live, store) && Legal(Get(count, alignment))
    modifies heap`memory, heap`asked, heap.region, heap.region.list, heap.mark
    ensures Keeps(heap, live', store') && Step(store, store', Get(count, alignment), served)
    ensures ExtentStep(old(ExtentOf(heap)), ExtentOf(heap))
  {
    ghost var x := ExtentOf(heap);
    live', store', served := live, store, false;
    WordsArePow2();
    UsedBytes(heap, live);
    ghost var v, used := heap.Now(), Used(heap.region.headers, live);
    if Used(heap.region.headers, live) + NodeSize(count, DEFAULT_ALIGNMENT) + NODE_SIZE <= heap.size {
      var p;
      ghost var i, s;
      p, i := heap.Malloc(count, alignment);
      if p != NULL {
        MovedOn(heap, x, p);
        DefaultPayload(heap, p);
        s := HeldGets(v, heap.Now(), heap.base, live, store, p, count);
        UsedGets(v.headers, live, p, heap.region.headers[p]);
        live', store', served := live + [p], store + [s], true;
        UsedBytes(heap, live');
      } else {
        Still(heap, x);
      }
    } else {
      Still(heap, x);
    }
  }

  method KeepPut(heap: Heap, k: nat, off: nat, data: seq<Byte>, live: seq<nat>, ghost store: Store)
    returns (ghost store': Store, served: bool)
    requires Keeps(heap, live, store)
    modifies heap`memory, heap.region.list`mem
    ensures Keeps(heap, live, store') && Step(store, store', Put(k, off, data), served)
    ensures ExtentStep(old(ExtentOf(heap)), ExtentOf(heap))
  {
    store', served := store, false;
    Still(heap, ExtentOf(heap));
    if k < |live| {
      WordIsSmall(heap, live, store, k);
      var room := heap.Available(live[k]);
      if off + |data| <= room && Modest(off, data, room) {
        KeepWrite(heap, k, off, data, live, store);
        store', served := store[k := Patch(store[k], off, data)], true;
      }
    }
  }

  method KeepWrite(heap: Heap, k: nat, off: nat, data: seq<Byte>, live: seq<nat>, ghost store: Store)
    requires Keeps(heap, live, store) && Writable(store, k, off, data)
    modifies heap`memory, heap.region.list`mem
    ensures Keeps(heap, live, store[k := Patch(store[k], off, data)])
    ensures ExtentStep(old(ExtentOf(heap)), ExtentOf(heap))
  {
    ghost var x := ExtentOf(heap);
    WordIsSmall(heap, live, store, k);
    ghost var v := heap.Now();
    heap.Write(live[k], off, data);
    HeldPuts(v, heap.Now(), heap.base, live, store, k, off, data);
    Still(heap, x);
  }

  method KeepGrow(heap: Heap, k: nat, newCount: nat, live: seq<nat>, ghost store: Store)
    returns (live': seq<nat>, ghost store': Store, served: bool, trapped: bool)
    requires Keeps(heap, live, store) && Legal(Grow(k, newCount))
    modifies heap`memory, heap`asked, heap.region, heap.region.list, heap.mark
    ensures Keeps(heap, live', store') && Step(store, store', Grow(k, newCount), served)
    ensures trapped ==> !served
    ensures ExtentStep(old(ExtentOf(heap)), ExtentOf(heap))
  {
    live', store', served, trapped := live, store, false, false;
    Still(heap, ExtentOf(heap));
    if k < |live| {
      WordIsSmall(heap, live, store, k);
      if newCount <= heap.Available(live[k]) {
        KeepInPlace(heap, k, newCount, live, store);
        StepInPlace(store, k, newCount);
        served := true;
      } else {
        live', store', served, trapped := KeepMove(heap, k, newCount, live, store);
      }
    }
  }

  method KeepInPlace(heap: Heap, k: nat, newCount: nat, live: seq<nat>, ghost store: Store)
    requires Keeps(heap, live, store) && k < |store| && 1 <= newCount <= |store[k]| && newCount < TWO64
    modifies heap`memory, heap`asked, heap.region, heap.region.list, heap.mark
    ensures Keeps(heap, live, store)
    ensures ExtentStep(old(ExtentOf(heap)), ExtentOf(heap))
  {
    ghost var x := ExtentOf(heap);
    WordIsSmall(heap, live, store, k);
    UsedBytes(heap, live);
    var r, trapped := heap.Realloc(live[k], newCount);
    UsedBytes(heap, live);
    Still(heap, x);
  }

  method KeepMove(heap: Heap, k: nat, newCount: nat, live: seq<nat>, ghost store: Store)
    returns (live': seq<nat>, ghost store': Store, served: bool, trapped: bool)
    requires Keeps(heap, live, store) && k < |store| && |store[k]| < newCount && Legal(Grow(k, newCount))
    modifies heap`memory, heap`asked, heap.region, heap.region.list, heap.mark
    ensures Keeps(heap, live', store') && Step(store, store', Grow(k, newCount), served)
    ensures trapped ==> !served
    ensures ExtentStep(old(ExtentOf(heap)), ExtentOf(heap))
  {
    ghost var x := ExtentOf(heap);
    live', store', served, trapped := live, store, false, false;
    Still(heap, x);
    UsedBytes(heap, live);
    if Used(heap.region.headers, live) + NodeSize(newCount, DEFAULT_ALIGNMENT) + NODE_SIZE <= heap.size {
      WordIsSmall(heap, live, store, k);
      KeptCanMove(heap, live, store, k, newCount);
      ghost var v, s := heap.Now(), [];
      var r;
      r, trapped := heap.Realloc(live[k], newCount);
      if trapped {
        Still(heap, x);
      } else {
        MovedOn(heap, x, r);
        DefaultPayload(heap, r);
        s := HeldMoves(v, heap.Now(), heap.base, live, store, k, r, newCount);
        UsedMoves(v.headers, heap.region.headers, live, k, r);
        live', store', served := live[k := r], store[k := s], true;
        assert Snug(heap.region.headers[r], newCount) && heap.region.headers[r].alignment == DEFAULT_ALIGNMENT;
      }
      UsedBytes(heap, live');
    }
  }

  method KeepGive(heap: Heap, k: nat, live: seq<nat>, ghost store: Store)
    returns (live': seq<nat>, ghost store': Store, served: bool)
    requires Keeps(heap, live, store)
    modifies heap`memory, heap`asked, heap.region, heap.region.list, heap.mark
    ensures Keeps(heap, live', store') && Step(store, store', Give(k), served)
    ensures ExtentStep(old(ExtentOf(heap)), ExtentOf(heap))
  {
    ghost var x := ExtentOf(heap);
    live', store', served := live, store, false;
    Still(heap, x);
    if k < |live| {
      KeptCanBeFreed(heap, live, store, k);
      WordIsSmall(heap, live, store, k);
      HeldGives(heap.Now(), heap.base, live, store, k);
      SumLiveRemove(heap.region.owner.Keys, ChunkOf(live[k], heap.region.headers[live[k]]));
      ghost var live0, c := heap.region.owner.Keys, ChunkOf(live[k], heap.region.headers[live[k]]);
      heap.Free(live[k]);
      Still(heap, x);
      assert heap.region.owner.Keys == live0 - {c};
      live', store', served := live[..k] + live[k + 1..], store[..k] + store[k + 1..], true;
    }
  }

  method KeepOne(heap: Heap, q: Request, live: seq<nat>, ghost store: Store)
    returns (live': seq<nat>, ghost store': Store, served: bool, trapped: bool)
    requires Keeps(heap, live, store) && Legal(q)
    modifies heap`memory, heap`asked, heap.region, heap.region.list, heap.mark
    ensures Keeps(heap, live', store') && Step(store, store', q, served)
    ensures ExtentStep(old(ExtentOf(heap)), ExtentOf(heap))
  {
    live', store', served, trapped := live, store, false, false;
    match q
    case Get(count, alignment) => live', store', served := KeepGet(heap, count, alignment, live, store);
    case Put(k, off, data) => store', served := KeepPut(heap, k, off, data, live, store);
    case Grow(k, newCount) => live', store', served, trapped := KeepGrow(heap, k, newCount, live, store);
    case Give(k) => live', store', served := KeepGive(heap, k, live, store);
  }

  // A client that writes to its payloads and lets them grow as often as it likes: any
  // sequence of requests, until a relocation finds no room and ms_fatal stops the program.
  // Every call meets its precondition, the heap behaves as a store of byte strings, and
  // the payloads that are left hold the strings that are left.
  method KeepAll(heap: Heap, requests: seq<Request>)
    returns (live: seq<nat>, ghost stores: seq<Store>, ghost served: seq<bool>, ghost extents: seq<Extent>,
             trapped: bool)
    requires heap.Valid() && heap.region.headers == map[] && heap.size <= HEAP_DEALLOC_THR
    requires forall i :: 0 <= i < |requests| ==> Legal(requests[i])
    modifies heap`memory, heap`asked, heap.region, heap.region.list, heap.mark
    ensures Run(stores, requests, served) && (!trapped ==> |served| == |requests|)
    ensures heap.Valid() && Held(heap.Now(), heap.base, live, stores[|served|])
    ensures forall k :: 0 <= k < |live| ==> live[k] in heap.region.headers && heap.region.CanFree(live[k])
    ensures live == [] ==> heap.region.list.blocks == [Block(heap.base, heap.size)]
    ensures Extents(extents) && |extents| == |stores| && extents[0] == old(ExtentOf(heap))
    ensures extents[|served|] == ExtentOf(heap)
  {
    live, stores, served, extents, trapped := [], [[]], [], [ExtentOf(heap)], false;
    NothingUsed(heap);
    var n := 0;
    while n < |requests| && !trapped
      invariant 0 <= n == |served| <= |requests| && Run(stores, requests, served)
      invariant Keeps(heap, live, stores[n])
      invariant Extents(extents) && |extents| == n + 1 && extents[0] == old(ExtentOf(heap))
      invariant extents[n] == ExtentOf(heap)
    {
      assert Legal(requests[n]);
      ghost var store';
      var s;
      live, store', s, trapped := KeepOne(heap, requests[n], live, stores[n]);
      RunStep(stores, requests, served, store', s);
      stores, served, extents := stores + [store'], served + [s], extents + [ExtentOf(heap)];
      n := n + 1;
    }
    assert Look(0);
    forall k | 0 <= k < |live|
      ensures live[k] in heap.region.headers && heap.region.CanFree(live[k])
    {
      KeptCanBeFreed(heap, live, stores[n], k);
    }
    if live == [] {
      NothingHeld(heap.region.headers, live);
      heap.region.AllFreed();
    }
  }

  lemma NothingUsed(heap: Heap)
    requires heap.Valid() && heap.region.headers == map[] && heap.size <= HEAP_DEALLOC_THR
    ensures Keeps(heap, [], [])
  {
    assert Look(0);
    UsedBytes(heap, []);
  }
}
