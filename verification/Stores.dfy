// What a heap is to a client that keeps byte strings in it: a sequence of strings, each
// behind one default-aligned payload.

module Stores {
  import opened Bits
  import opened Blocks
  import opened FreeLists
  import opened Regions
  import opened Payloads

  type Store = seq<seq<Byte>>

  // ---- The client's view

  datatype Request =
    | Get(count: nat, alignment: nat)
    | Put(k: nat, off: nat, data: seq<Byte>)
    | Grow(k: nat, newCount: nat)
    | Give(k: nat)

  predicate Legal(q: Request) {
    match q
    case Get(count, alignment) =>
      Max(alignment, DEFAULT_ALIGNMENT) == DEFAULT_ALIGNMENT && count < TWO64 && FitsWord(count, DEFAULT_ALIGNMENT)
    case Grow(k, newCount) => 1 <= newCount < TWO64 && FitsWord(newCount, DEFAULT_ALIGNMENT)
    case _ => true
  }

  // The first eight bytes of a payload lie on a size word. The client keeps them below
  // what it was given: it writes behind them, or all of them, spelling at most limit.
  predicate Modest(off: nat, data: seq<Byte>, limit: nat) {
    off >= 8 || (off == 0 && |data| >= 8 && LittleEndian(data[..8]) <= limit)
  }

  function Patch(s: seq<Byte>, off: nat, data: seq<Byte>): (r: seq<Byte>)
    requires off + |data| <= |s|
    ensures |r| == |s| && r[off..off + |data|] == data && r[..off] == s[..off]
    ensures r[off + |data|..] == s[off + |data|..]
  {
    s[..off] + data + s[off + |data|..]
  }

  predicate Writable(store: Store, k: nat, off: nat, data: seq<Byte>) {
    k < |store| && off + |data| <= |store[k]| && Modest(off, data, |store[k]|)
  }

  // One request on the store. What was not served changed nothing; growing keeps the
  // bytes there were, and no request touches another string.
  ghost predicate Step(store: Store, store': Store, q: Request, served: bool) {
    match q
    case Get(count, _) =>
      if served then |store'| == |store| + 1 && store'[..|store|] == store && |store'[|store|]| >= count
      else store' == store
    case Put(k, off, data) =>
      && (served <==> Writable(store, k, off, data))
      && store' == if served then store[k := Patch(store[k], off, data)] else store
    case Grow(k, newCount) =>
      && (k < |store| && newCount <= |store[k]| ==> served && store' == store)
      && (if served then
            && k < |store| && |store'| == |store| && store' == store[k := store'[k]]
            && |store'[k]| >= newCount && |store'[k]| >= |store[k]| && store'[k][..|store[k]|] == store[k]
          else store' == store)
    case Give(k) =>
      && (served <==> k < |store|)
      && store' == if served then store[..k] + store[k + 1..] else store
  }

  lemma StepInPlace(store: Store, k: nat, newCount: nat)
    requires k < |store| && newCount <= |store[k]|
    ensures Step(store, store, Grow(k, newCount), true)
  {
  }

  ghost predicate Run(stores: seq<Store>, requests: seq<Request>, served: seq<bool>) {
    && |stores| == |served| + 1 && |served| <= |requests| && stores[0] == []
    && forall i {:trigger served[i]} :: 0 <= i < |served| ==> Step(stores[i], stores[i + 1], requests[i], served[i])
  }

  lemma RunStep(stores: seq<Store>, requests: seq<Request>, served: seq<bool>, store': Store, s: bool)
    requires Run(stores, requests, served) && |served| < |requests|
    requires Step(stores[|served|], store', requests[|served|], s)
    ensures Run(stores + [store'], requests, served + [s])
  {
    var stores', served' := stores + [store'], served + [s];
    forall i | 0 <= i < |served'|
      ensures Step(stores'[i], stores'[i + 1], requests[i], served'[i])
    {
      assert i < |served| ==> served'[i] == served[i];
    }
  }

  // ---- Its payloads

  // The payload p holds the string s, from its first byte to the end of its chunk.
  ghost predicate Holds(v: View, base: nat, p: int, s: seq<Byte>) {
    && p in v.headers && v.headers[p].alignment == DEFAULT_ALIGNMENT
    && v.headers[p].padding == 0 && v.headers[p].size == |s| + HEADER_SIZE
    && |s| >= 8 && LittleEndian(s[..8]) <= v.headers[p].size
    && 0 <= p - base && p - base + |s| <= |v.memory| && v.memory[p - base..p - base + |s|] == s
  }

  ghost predicate Listed(headers: map<int, Header>, live: seq<nat>) {
    && (forall p :: p in headers <==> p in live)
    && (forall j, k :: 0 <= j < k < |live| ==> live[j] != live[k])
  }

  // live lists the payloads, and each holds its string.
  ghost predicate Held(v: View, base: nat, live: seq<nat>, store: Store) {
    && Listed(v.headers, live) && |store| == |live|
    && forall k {:trigger store[k]} :: 0 <= k < |live| ==> Holds(v, base, live[k], store[k])
  }

  lemma HoldsKept(v: View, v': View, base: nat, p: int, s: seq<Byte>)
    requires Holds(v, base, p, s) && PayloadKept(v.headers, v.memory, v'.headers, v'.memory, base, p)
    ensures Holds(v', base, p, s)
  {
    assert Room(v.headers[p]) == |s|;
  }

  lemma HeldIn(v: View, base: nat, live: seq<nat>, store: Store, k: nat)
    requires Held(v, base, live, store) && k < |live|
    ensures Holds(v, base, live[k], store[k]) && SizeWord(v, base, live[k]) <= v.headers[live[k]].size
    ensures |store[k]| == Room(v.headers[live[k]])
  {
    var s, off := store[k], live[k] - base;
    assert Holds(v, base, live[k], s);
    assert v.memory[off..off + 8] == v.memory[off..off + |s|][..8];
  }

  lemma ListedAdd(headers: map<int, Header>, live: seq<nat>, p: nat, h: Header)
    requires Listed(headers, live) && p !in headers
    ensures Listed(headers[p := h], live + [p])
  {
  }

  lemma ListedRemove(headers: map<int, Header>, live: seq<nat>, k: nat)
    requires Listed(headers, live) && k < |live|
    ensures Listed(headers - {live[k]}, live[..k] + live[k + 1..])
  {
    var rest := live[..k] + live[k + 1..];
    forall j | 0 <= j < |rest|
      ensures rest[j] == live[if j < k then j else j + 1] && rest[j] != live[k]
    {
    }
    forall p | p in headers && p != live[k]
      ensures p in rest
    {
      var j :| 0 <= j < |live| && live[j] == p;
      assert rest[if j < k then j else j - 1] == p;
    }
  }

  lemma ListedReplace(headers: map<int, Header>, live: seq<nat>, k: nat, r: nat, h: Header)
    requires Listed(headers, live) && k < |live| && r !in headers
    ensures Listed((headers - {live[k]})[r := h], live[k := r])
  {
    var live', headers' := live[k := r], (headers - {live[k]})[r := h];
    forall p
      ensures p in headers' <==> p in live'
    {
      if p in headers && p != live[k] {
        var j :| 0 <= j < |live| && live[j] == p;
        assert live'[j] == p;
      }
      assert live'[k] == r;
    }
  }

  lemma HeldGets(v: View, v': View, base: nat, live: seq<nat>, store: Store, p: nat, count: nat) returns (s: seq<Byte>)
    requires Held(v, base, live, store) && Gained(v, v', base, p, count, DEFAULT_ALIGNMENT)
    requires v'.headers[p].padding == 0 && 0 <= p - base && p - base + Room(v'.headers[p]) <= |v'.memory|
    requires v'.headers[p].size >= NODE_SIZE
    ensures Held(v', base, live + [p], store + [s]) && |s| >= count
  {
    var off, h := p - base, v'.headers[p];
    s := v'.memory[off..off + Room(h)];
    assert v'.memory[off..off + 8] == s[..8];
    assert Holds(v', base, p, s);
    ListedAdd(v.headers, live, p, h);
    forall k | 0 <= k < |live|
      ensures Holds(v', base, live[k], store[k])
    {
      assert Holds(v, base, live[k], store[k]);
      assert PayloadKept(v.headers, v.memory, v'.headers, v'.memory, base, live[k]);
      HoldsKept(v, v', base, live[k], store[k]);
    }
  }

  lemma HeldPuts(v: View, v': View, base: nat, live: seq<nat>, store: Store, k: nat, off: nat, data: seq<Byte>)
    requires Held(v, base, live, store) && Writable(store, k, off, data)
    requires Wrote(v, v', base, live[k], off, data)
    ensures Held(v', base, live, store[k := Patch(store[k], off, data)])
  {
    var s', p := Patch(store[k], off, data), live[k];
    assert Holds(v, base, p, store[k]);
    PatchShows(v.memory, v'.memory, p - base, store[k], off, data);
    PatchIsModest(store[k], off, data);
    assert Holds(v', base, p, s');
    OthersHeld(v, v', base, live, store, k);
    var store' := store[k := s'];
    forall j | 0 <= j < |live|
      ensures Holds(v', base, live[j], store'[j])
    {
      assert j != k ==> store'[j] == store[j];
    }
  }

  lemma OthersHeld(v: View, v': View, base: nat, live: seq<nat>, store: Store, k: nat)
    requires Held(v, base, live, store) && k < |live|
    requires OthersKept(v.headers, v.memory, v'.headers, v'.memory, base, live[k])
    ensures forall j {:trigger store[j]} :: 0 <= j < |live| && j != k ==> Holds(v', base, live[j], store[j])
  {
    forall j | 0 <= j < |live| && j != k
      ensures Holds(v', base, live[j], store[j])
    {
      assert Holds(v, base, live[j], store[j]) && live[j] != live[k];
      assert PayloadKept(v.headers, v.memory, v'.headers, v'.memory, base, live[j]);
      HoldsKept(v, v', base, live[j], store[j]);
    }
  }

  lemma PatchIsModest(s: seq<Byte>, off: nat, data: seq<Byte>)
    requires |s| >= 8 && off + |data| <= |s| && Modest(off, data, |s|)
    ensures var first := Patch(s, off, data)[..8];
            LittleEndian(first) == LittleEndian(s[..8]) || LittleEndian(first) <= |s|
  {
    var s' := Patch(s, off, data);
    if off >= 8 {
      assert s'[..8] == s'[..off][..8] == s[..8];
    } else {
      assert s'[..8] == s'[off..off + |data|][..8];
    }
  }

  lemma PatchShows(memory: seq<Byte>, memory': seq<Byte>, at: nat, s: seq<Byte>, off: nat, data: seq<Byte>)
    requires at + |s| <= |memory| && memory[at..at + |s|] == s && off + |data| <= |s|
    requires Overwritten(memory, memory', at + off, data)
    ensures memory'[at..at + |s|] == Patch(s, off, data)
  {
    var s', t := Patch(s, off, data), memory'[at..at + |s|];
    forall j | 0 <= j < |s|
      ensures t[j] == s'[j]
    {
      if off <= j < off + |data| {
        assert t[j] == memory'[at + off..at + off + |data|][j - off];
      } else {
        assert t[j] == memory[at + j] == s[j];
      }
    }
  }

  lemma HeldMoves(v: View, v': View, base: nat, live: seq<nat>, store: Store, k: nat, r: nat, newCount: nat)
    returns (s: seq<Byte>)
    requires Held(v, base, live, store) && k < |live| && Moved(v, v', base, live[k], r, newCount)
    requires Room(v.headers[live[k]]) < newCount
    requires v'.headers[r].padding == 0 && 0 <= r - base && r - base + Room(v'.headers[r]) <= |v'.memory|
    ensures Held(v', base, live[k := r], store[k := s])
    ensures |s| >= newCount && |s| > |store[k]| && s[..|store[k]|] == store[k]
  {
    var off, h, n := r - base, v'.headers[r], |store[k]|;
    assert Holds(v, base, live[k], store[k]);
    s := v'.memory[off..off + Room(h)];
    assert n <= Room(h) && BytesKept(v.memory, v'.memory, live[k] - base, off, n);
    assert s[..n] == v'.memory[off..off + n];
    assert s[..8] == s[..n][..8] == store[k][..8];
    ListedReplace(v.headers, live, k, r, h);
    OthersHeld(v, v', base, live, store, k);
    var live', store' := live[k := r], store[k := s];
    forall j | 0 <= j < |live'|
      ensures Holds(v', base, live'[j], store'[j])
    {
      assert j != k ==> live'[j] == live[j] && store'[j] == store[j];
    }
  }

  lemma HeldGives(v: View, base: nat, live: seq<nat>, store: Store, k: nat)
    requires Held(v, base, live, store) && k < |live|
    ensures Held(Lost(v, live[k]), base, live[..k] + live[k + 1..], store[..k] + store[k + 1..])
  {
    var live', store' := live[..k] + live[k + 1..], store[..k] + store[k + 1..];
    ListedRemove(v.headers, live, k);
    forall j | 0 <= j < |live'|
      ensures Holds(Lost(v, live[k]), base, live'[j], store'[j])
    {
      var i := if j < k then j else j + 1;
      assert live'[j] == live[i] && store'[j] == store[i] && live[i] != live[k];
      assert Holds(v, base, live[i], store[i]);
    }
  }

  lemma NothingHeld(headers: map<int, Header>, live: seq<nat>)
    requires Listed(headers, live) && live == []
    ensures headers == map[]
  {
    assert forall p :: p in headers ==> p in live;
  }

  // live lists the payloads; all have the default alignment, and nothing but headers was
  // written over size words.
  ghost predicate HeldTidily(headers: map<int, Header>, words: map<int, nat>, live: seq<nat>) {
    && Tidy(headers, words) && Listed(headers, live)
    && (forall p {:trigger headers[p]} :: p in headers ==> headers[p].alignment == DEFAULT_ALIGNMENT)
  }

  lemma TidyGets(headers: map<int, Header>, words: map<int, nat>, live: seq<nat>, p: nat,
                 headers': map<int, Header>, words': map<int, nat>)
    requires HeldTidily(headers, words, live) && p !in headers && p in headers'
    requires headers' == headers[p := headers'[p]] && words' == words[p := WordUnderHeader(headers'[p])]
    requires headers'[p].alignment == DEFAULT_ALIGNMENT
    ensures HeldTidily(headers', words', live + [p])
  {
    ListedAdd(headers, live, p, headers'[p]);
  }

  lemma TidyGives(headers: map<int, Header>, words: map<int, nat>, live: seq<nat>, k: nat)
    requires HeldTidily(headers, words, live) && k < |live|
    ensures HeldTidily(headers - {live[k]}, words - {live[k]}, live[..k] + live[k + 1..])
  {
    ListedRemove(headers, live, k);
  }

  // ---- Bytes in use

  function Used(headers: map<int, Header>, live: seq<nat>): nat
    requires forall k :: 0 <= k < |live| ==> live[k] in headers
  {
    if live == [] then 0 else headers[live[0]].size + Used(headers, live[1..])
  }

  lemma {:induction false} UsedConcat(headers: map<int, Header>, xs: seq<nat>, ys: seq<nat>)
    requires forall p :: p in xs || p in ys ==> p in headers
    ensures Used(headers, xs + ys) == Used(headers, xs) + Used(headers, ys)
  {
    if xs == [] {
      assert xs + ys == ys;
    } else {
      UsedConcat(headers, xs[1..], ys);
      assert (xs + ys)[1..] == xs[1..] + ys;
    }
  }

  lemma {:induction false} UsedFrame(headers: map<int, Header>, headers': map<int, Header>, live: seq<nat>)
    requires forall p :: p in live ==> p in headers && p in headers' && headers'[p] == headers[p]
    ensures Used(headers', live) == Used(headers, live)
  {
    if live != [] {
      UsedFrame(headers, headers', live[1..]);
    }
  }

  lemma UsedGets(headers: map<int, Header>, live: seq<nat>, p: nat, h: Header)
    requires Listed(headers, live) && p !in headers
    ensures forall k :: 0 <= k < |live + [p]| ==> (live + [p])[k] in headers[p := h]
    ensures Used(headers[p := h], live + [p]) == Used(headers, live) + h.size
  {
    UsedConcat(headers[p := h], live, [p]);
    UsedFrame(headers, headers[p := h], live);
  }

  lemma UsedMoves(headers: map<int, Header>, headers': map<int, Header>, live: seq<nat>, k: nat, r: nat)
    requires Listed(headers, live) && k < |live| && r !in headers && r in headers'
    requires headers' == (headers - {live[k]})[r := headers'[r]]
    ensures forall p :: p in live[k := r] ==> p in headers'
    ensures Used(headers', live[k := r]) + headers[live[k]].size == Used(headers, live) + headers'[r].size
  {
    UsedReplaced(headers, headers', live, k, r);
  }

  lemma {:induction false} UsedReplaced(headers: map<int, Header>, headers': map<int, Header>, live: seq<nat>, k: nat,
                                        r: nat)
    requires k < |live| && r in headers' && live[k] in headers
    requires forall j :: 0 <= j < |live| && j != k ==>
               live[j] in headers && live[j] in headers' && headers'[live[j]] == headers[live[j]]
    ensures forall p :: p in live[k := r] ==> p in headers'
    ensures Used(headers', live[k := r]) + headers[live[k]].size == Used(headers, live) + headers'[r].size
  {
    var live', rest := live[k := r], live[1..];
    if k == 0 {
      assert live'[1..] == rest;
      assert forall p :: p in rest ==> exists j :: 1 <= j < |live| && live[j] == p;
      UsedFrame(headers, headers', rest);
    } else {
      assert live'[1..] == rest[k - 1 := r];
      UsedReplaced(headers, headers', rest, k - 1, r);
    }
  }

  ghost function Chunks(headers: map<int, Header>, live: seq<nat>): set<Block>
    requires forall k :: 0 <= k < |live| ==> live[k] in headers
  {
    set k | 0 <= k < |live| :: ChunkOf(live[k], headers[live[k]])
  }

  lemma {:induction false} UsedIsLive(headers: map<int, Header>, owner: map<Block, nat>, counts: map<int, nat>,
                                      live: seq<nat>)
    requires Matched(headers, owner, counts)
    requires forall k :: 0 <= k < |live| ==> live[k] in headers
    requires forall j, k :: 0 <= j < k < |live| ==> live[j] != live[k]
    ensures SumLive(Chunks(headers, live)) == Used(headers, live)
  {
    if live != [] {
      var c, rest := ChunkOf(live[0], headers[live[0]]), live[1..];
      UsedIsLive(headers, owner, counts, rest);
      forall k | 0 <= k < |rest|
        ensures ChunkOf(rest[k], headers[rest[k]]) != c
      {
        assert rest[k] == live[k + 1] && live[k + 1] in headers;
        assert owner[ChunkOf(rest[k], headers[rest[k]])] == rest[k] && owner[c] == live[0];
      }
      forall d
        ensures d in Chunks(headers, live) <==> d in Chunks(headers, rest) + {c}
      {
        if d in Chunks(headers, live) {
          var k :| 0 <= k < |live| && d == ChunkOf(live[k], headers[live[k]]);
          assert k > 0 ==> rest[k - 1] == live[k];
        }
        if d in Chunks(headers, rest) {
          var k :| 0 <= k < |rest| && d == ChunkOf(rest[k], headers[rest[k]]);
          assert live[k + 1] == rest[k];
        }
        assert live[0] in headers;
      }
      assert Chunks(headers, live) == Chunks(headers, rest) + {c};
      SumLiveAdd(Chunks(headers, rest), c);
    }
  }

  lemma AllUsed(headers: map<int, Header>, owner: map<Block, nat>, counts: map<int, nat>, live: seq<nat>)
    requires Matched(headers, owner, counts) && Listed(headers, live)
    ensures SumLive(owner.Keys) == Used(headers, live)
  {
    UsedIsLive(headers, owner, counts, live);
    forall c
      ensures c in owner.Keys <==> c in Chunks(headers, live)
    {
      if c in owner.Keys {
        var p := owner[c];
        assert p in headers && ChunkOf(p, headers[p]) == c;
        var k :| 0 <= k < |live| && live[k] == p;
      }
      if c in Chunks(headers, live) {
        var k :| 0 <= k < |live| && c == ChunkOf(live[k], headers[live[k]]);
      }
    }
    assert owner.Keys == Chunks(headers, live);
  }

  // A number up to the chunk's size on its size word does no harm while some byte of
  // the region is free, also after a request that leaves some byte free.
  lemma NotFull(bs: seq<Block>, live: set<Block>, base: nat, size: nat, c: Block, word: nat)
    requires RegionInv(bs, live, base, size) && SumLive(live) < size && base + size < TWO64 && c in live
    requires word <= c.size
    ensures WordHarmless(bs, c, word)
  {
    ChunkInRegion(bs, live, base, size, c);
    assert bs != [];
    SmallWordHarmless(bs, c, word);
  }

  lemma NotFullAfter(bs: seq<Block>, live: set<Block>, base: nat, size: nat, n: nat, c: Block, word: nat)
    requires RegionInv(bs, live, base, size) && base + size < TWO64 && c in live && word <= c.size
    requires NODE_SIZE <= n && SumLive(live) + n + NODE_SIZE <= size
    ensures HarmlessAfter(bs, n, c, word)
  {
    forall i: nat | i < |bs| && n <= bs[i].size && Chosen(bs, n, i)
      ensures WordHarmless(Take(bs, i, n), c, word)
    {
      TakeKeepsInv(bs, live, base, size, i, n);
      SumLiveAdd(live, Taken(bs, i, n));
      NotFull(Take(bs, i, n), live + {Taken(bs, i, n)}, base, size, c, word);
    }
  }
}
