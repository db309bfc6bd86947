// freelist.c: the address-ordered, doubly linked list of free nodes.

module FreeLists {
  import opened Bits
  import opened Blocks

  // The part of ms_heap that the list's callbacks update: how far from base the
  // region is committed.
  class Watermark {
    const base: nat
    var committedSize: nat

    constructor (base: nat)
      ensures this.base == base && committedSize == 0
    {
      this.base := base;
      committedSize := 0;
    }

    function End(): nat
      reads this
    {
      base + committedSize
    }

    // commit_free_list_node_memory: the mark moves only forward.
    method Commit(chunk: nat, sizeToCommit: nat)
      modifies this
      ensures End() == Max(old(End()), chunk + sizeToCommit)
    {
      var heapCommitEnd, chunkCommitEnd := base + committedSize, chunk + sizeToCommit;
      if chunkCommitEnd > heapCommitEnd {
        committedSize := committedSize + (chunkCommitEnd - heapCommitEnd);
      }
    }
  }

  function Max(a: nat, b: nat): nat {
    if a > b then a else b
  }

  // compute_free_list_node_size, in 64-bit arithmetic
  function NodeSize(count: nat, alignment: nat): nat
    requires alignment >= 1
  {
    AlignSz((count + HEADER_SIZE + alignment - 1) % TWO64, alignment)
  }

  ghost predicate ValidAlignment(alignment: nat) {
    IsPow2(alignment) && 8 <= alignment < TWO32
  }

  // The request, its header and the worst padding can be rounded up in a word.
  predicate FitsWord(count: nat, alignment: nat) {
    count + HEADER_SIZE + alignment - 1 <= TWO64 - alignment
  }

  // The computed size has room for the request exactly when nothing wraps around.
  lemma NodeSizeExact(count: nat, alignment: nat)
    requires ValidAlignment(alignment) && count < TWO64
    ensures NodeSize(count, alignment) >= count + HEADER_SIZE <==> FitsWord(count, alignment)
    ensures FitsWord(count, alignment) ==>
              && IsRoundUp(NodeSize(count, alignment), count + HEADER_SIZE + alignment - 1, alignment)
              && NodeSize(count, alignment) >= NODE_SIZE
  {
    var v := count + HEADER_SIZE + alignment - 1;
    if v < TWO64 {
      DivModUnique(v, TWO64, 0, v);
      AlignSzExact(v, alignment);
      if FitsWord(count, alignment) {
        MultipleOfEight(NodeSize(count, alignment), alignment);
      }
    } else {
      DivModUnique(v, TWO64, 1, v - TWO64);
      AlignSzExact(v - TWO64, alignment);
      assert RoundUp(v - TWO64, alignment) < count + HEADER_SIZE;
    }
  }

  lemma MultipleOfEight(r: nat, alignment: nat)
    requires ValidAlignment(alignment) && r % alignment == 0
    ensures r % 8 == 0
  {
    WordsArePow2();
    var d := Pow2Divides(8, alignment);
    assert r == 8 * d * (r / alignment);
    assert r == 8 * (d * (r / alignment));
  }

  // ---- The list in memory

  // The node record at an address; NULL ends the chain on either side.
  datatype NodeRec = NodeRec(next: nat, prev: nat, size: nat)

  const NULL: nat := 0

  ghost function AddrAt(bs: seq<Block>, i: int): nat {
    if 0 <= i < |bs| then bs[i].addr else NULL
  }

  ghost predicate Distinct(bs: seq<Block>) {
    forall i, j {:trigger bs[i].addr, bs[j].addr} :: 0 <= i < j < |bs| ==> bs[i].addr != bs[j].addr
  }

  ghost predicate NotAmong(bs: seq<Block>, a: nat) {
    forall i {:trigger bs[i].addr} :: 0 <= i < |bs| ==> bs[i].addr != a
  }

  // NODE_END, a 64-bit pointer
  function NodeEnd(node: nat, size: nat): nat {
    (node + size) % TWO64
  }

  ghost predicate InWords(bs: seq<Block>) {
    forall i {:trigger bs[i].addr} :: 0 <= i < |bs| ==> bs[i].End() < TWO64
  }

  // The chain that starts at first spells out the blocks bs; next and prev are mutual
  // inverses and the first node has no predecessor.
  ghost predicate Linked(mem: map<nat, NodeRec>, first: nat, bs: seq<Block>) {
    && first == AddrAt(bs, 0)
    && Distinct(bs)
    && (forall i :: 0 <= i < |bs| ==> LinkedAt(mem, bs, i))
  }

  ghost predicate LinkedAt(mem: map<nat, NodeRec>, bs: seq<Block>, i: nat)
    requires i < |bs|
  {
    && bs[i].addr != NULL && bs[i].addr in mem
    && mem[bs[i].addr] == NodeRec(AddrAt(bs, i + 1), AddrAt(bs, i - 1), bs[i].size)
  }

  lemma Replace(bs: seq<Block>, lo: nat, hi: nat, b: Block) returns (bs': seq<Block>)
    requires lo <= hi <= |bs|
    ensures Replaced(bs, bs', lo, hi, b)
  {
    bs' := Splice(bs, lo, hi, [b]);
  }

  lemma ReplacedUnique(bs: seq<Block>, xs: seq<Block>, ys: seq<Block>, lo: nat, hi: nat, b: Block)
    requires Replaced(bs, xs, lo, hi, b) && Replaced(bs, ys, lo, hi, b)
    ensures xs == ys
  {
    assert forall j :: 0 <= j < |xs| ==> xs[j] == ys[j];
  }

  lemma Remove(bs: seq<Block>, i: nat) returns (bs': seq<Block>)
    requires i < |bs|
    ensures Inserted(bs', bs, i, bs[i])
  {
    bs' := Splice(bs, i, i + 1, []);
  }

  // Split, shrink and detach amount to one replacement.
  lemma SplitSteps(bs: seq<Block>, m1: seq<Block>, m2: seq<Block>, bs': seq<Block>, i: nat, c: Block, r: Block)
    requires Inserted(bs, m1, i + 1, r) && Replaced(m1, m2, i, i + 1, c) && Replaced(bs, bs', i, i + 1, r)
    ensures Inserted(bs', m2, i, c)
  {
  }

  // Detaching the right of two blocks and widening the left one.
  lemma CoalesceSteps(bs: seq<Block>, mid: seq<Block>, bs': seq<Block>, i: nat, r: Block)
    requires i + 1 < |bs| && Inserted(mid, bs, i + 1, bs[i + 1]) && Replaced(bs, bs', i, i + 2, r)
    ensures Replaced(mid, bs', i, i + 1, r)
  {
  }

  // Insertion, then a merge with the right neighbour.
  lemma MergeRightSteps(bs: seq<Block>, m1: seq<Block>, m2: seq<Block>, k: nat, b: Block, r: Block)
    requires Inserted(bs, m1, k, b) && k < |bs| && Replaced(bs, m2, k, k + 1, r)
    ensures Replaced(m1, m2, k, k + 2, r) && m1[k + 1] == bs[k] && AddrAt(m1, k + 2) == AddrAt(bs, k + 1)
  {
  }

  // And then one with the left neighbour.
  lemma MergeLeftSteps(bs: seq<Block>, m1: seq<Block>, bs': seq<Block>, k: nat, hi: nat, m: Block, r: Block)
    requires 0 < k && Replaced(bs, m1, k, hi, m) && Replaced(bs, bs', k - 1, hi, r)
    ensures Replaced(m1, bs', k - 1, k + 1, r) && m1[k - 1] == bs[k - 1] && AddrAt(m1, k + 1) == AddrAt(bs, hi)
  {
  }

  lemma AddrAtInserted(bs: seq<Block>, bs': seq<Block>, k: nat, b: Block, i: int)
    requires Inserted(bs, bs', k, b)
    ensures AddrAt(bs', i) == if i < k then AddrAt(bs, i) else if i == k then b.addr else AddrAt(bs, i - 1)
  {
  }

  // The three writes of ms_free_list_create_node.
  function LinkIn(mem: map<nat, NodeRec>, chunk: nat, prev: nat, next: nat, size: nat): map<nat, NodeRec>
    requires prev != NULL ==> prev in mem
    requires next != NULL ==> next in mem
  {
    var m1 := mem[chunk := NodeRec(next, prev, size)];
    var m2 := if prev != NULL then m1[prev := m1[prev].(next := chunk)] else m1;
    if next != NULL then m2[next := m2[next].(prev := chunk)] else m2
  }

  // The two writes of detach_node.
  function LinkOut(mem: map<nat, NodeRec>, chunk: nat): map<nat, NodeRec>
    requires chunk in mem
    requires mem[chunk].prev != NULL ==> mem[chunk].prev in mem
    requires mem[chunk].next != NULL ==> mem[chunk].next in mem
  {
    var prev, next := mem[chunk].prev, mem[chunk].next;
    var m1 := if prev != NULL then mem[prev := mem[prev].(next := next)] else mem;
    if next != NULL then m1[next := m1[next].(prev := prev)] else m1
  }

  // A request of 2^64 - 23 bytes rounds to 0. The rest that malloc_node then splits off the
  // chosen node c is c itself: c leaves as a chunk of 0 bytes and stays in the list as its
  // own successor, where every later search that finds nothing before it goes round.
  lemma WrappedRequest(mem: map<nat, NodeRec>, c: nat)
    requires c != NULL && c in mem && mem[c].next != c && (mem[c].next != NULL ==> mem[c].next in mem)
    ensures NodeSize(TWO64 - 23, 8) == 0
    ensures var remainingSize := mem[c].size;
            var m1 := LinkIn(mem, c, c, mem[c].next, remainingSize);
            var m2 := m1[c := m1[c].(size := m1[c].size - remainingSize)];
            LinkOut(m2, c)[c] == NodeRec(c, c, 0)
  {
    WordsArePow2();
    AlignSzExact(0, 8);
  }

  lemma NeighboursInMem(mem: map<nat, NodeRec>, first: nat, bs: seq<Block>, i: int)
    requires Linked(mem, first, bs)
    ensures AddrAt(bs, i) != NULL <==> 0 <= i < |bs|
    ensures 0 <= i < |bs| ==> AddrAt(bs, i) in mem
  {
    if 0 <= i < |bs| {
      assert LinkedAt(mem, bs, i);
    }
  }

  lemma NodeAt(mem: map<nat, NodeRec>, first: nat, bs: seq<Block>, i: nat)
    requires Linked(mem, first, bs)
    ensures AddrAt(bs, i) != NULL <==> i < |bs|
    ensures i < |bs| ==>
              && AddrAt(bs, i) in mem && mem[AddrAt(bs, i)].size == bs[i].size
              && mem[AddrAt(bs, i)].next == AddrAt(bs, i + 1)
  {
    if i < |bs| {
      assert LinkedAt(mem, bs, i);
    }
  }

  lemma LinkInKeeps(mem: map<nat, NodeRec>, mem': map<nat, NodeRec>, first: nat, bs: seq<Block>, bs': seq<Block>,
                    k: nat, b: Block)
    requires Linked(mem, first, bs) && Inserted(bs, bs', k, b) && b.addr != NULL && NotAmong(bs, b.addr)
    requires AddrAt(bs, k - 1) != NULL ==> AddrAt(bs, k - 1) in mem
    requires AddrAt(bs, k) != NULL ==> AddrAt(bs, k) in mem
    requires mem' == LinkIn(mem, b.addr, AddrAt(bs, k - 1), AddrAt(bs, k), b.size)
    ensures Linked(mem', if k > 0 then first else b.addr, bs')
  {
    if k < |bs| {
      assert LinkedAt(mem, bs, k);
    }
    DistinctInserted(bs, bs', k, b);
    LinkInEach(mem, mem', bs, bs', k, b);
  }

  lemma DistinctInserted(bs: seq<Block>, bs': seq<Block>, k: nat, b: Block)
    requires Inserted(bs, bs', k, b) && Distinct(bs) && NotAmong(bs, b.addr)
    ensures Distinct(bs')
  {
    forall i, j | 0 <= i < j < |bs'|
      ensures bs'[i].addr != bs'[j].addr
    {
      assert i != k ==> bs'[i] == bs[if i < k then i else i - 1];
      assert j != k ==> bs'[j] == bs[if j < k then j else j - 1];
    }
  }

  lemma LinkInEach(mem: map<nat, NodeRec>, mem': map<nat, NodeRec>, bs: seq<Block>, bs': seq<Block>, k: nat, b: Block)
    requires Distinct(bs) && Inserted(bs, bs', k, b)
    requires forall j :: 0 <= j < |bs| ==> LinkedAt(mem, bs, j)
    requires b.addr != NULL && NotAmong(bs, b.addr)
    requires AddrAt(bs, k - 1) != NULL ==> AddrAt(bs, k - 1) in mem
    requires AddrAt(bs, k) != NULL ==> AddrAt(bs, k) in mem
    requires mem' == LinkIn(mem, b.addr, AddrAt(bs, k - 1), AddrAt(bs, k), b.size)
    ensures forall i :: 0 <= i < |bs'| ==> LinkedAt(mem', bs', i)
  {
    forall i | 0 <= i < |bs'|
      ensures LinkedAt(mem', bs', i)
    {
      AddrAtInserted(bs, bs', k, b, i + 1);
      AddrAtInserted(bs, bs', k, b, i - 1);
      if i != k {
        var j := if i < k then i else i - 1;
        assert LinkedAt(mem, bs, j);
        assert bs'[i] == bs[j] && bs[j].addr != b.addr;
      }
    }
  }

  lemma LinkOutEach(mem: map<nat, NodeRec>, mem': map<nat, NodeRec>, bs: seq<Block>, bs': seq<Block>, k: nat, b: Block)
    requires Distinct(bs') && Inserted(bs, bs', k, b)
    requires forall j :: 0 <= j < |bs'| ==> LinkedAt(mem, bs', j)
    requires b.addr in mem
    requires mem[b.addr].prev != NULL ==> mem[b.addr].prev in mem
    requires mem[b.addr].next != NULL ==> mem[b.addr].next in mem
    requires mem' == LinkOut(mem, b.addr)
    ensures forall i :: 0 <= i < |bs| ==> LinkedAt(mem', bs, i)
  {
    assert LinkedAt(mem, bs', k);
    forall i | 0 <= i < |bs|
      ensures LinkedAt(mem', bs, i)
    {
      var j := if i < k then i else i + 1;
      assert LinkedAt(mem, bs', j);
      AddrAtInserted(bs, bs', k, b, j + 1);
      AddrAtInserted(bs, bs', k, b, j - 1);
      AddrAtInserted(bs, bs', k, b, k + 1);
      AddrAtInserted(bs, bs', k, b, k - 1);
      assert bs'[j] == bs[i];
    }
  }

  lemma LinkOutKeeps(mem: map<nat, NodeRec>, mem': map<nat, NodeRec>, first: nat, bs: seq<Block>, bs': seq<Block>,
                     k: nat, b: Block)
    requires Linked(mem, first, bs') && Inserted(bs, bs', k, b)
    requires b.addr in mem
    requires mem[b.addr].prev != NULL ==> mem[b.addr].prev in mem
    requires mem[b.addr].next != NULL ==> mem[b.addr].next in mem
    requires mem' == LinkOut(mem, b.addr)
    ensures Linked(mem', if first == b.addr then mem[b.addr].next else first, bs)
  {
    LinkOutEach(mem, mem', bs, bs', k, b);
    assert LinkedAt(mem, bs', k);
    AddrAtInserted(bs, bs', k, b, 0);
    AddrAtInserted(bs, bs', k, b, k + 1);
    DistinctRemoved(bs, bs', k, b);
  }

  lemma DistinctRemoved(bs: seq<Block>, bs': seq<Block>, k: nat, b: Block)
    requires Inserted(bs, bs', k, b) && Distinct(bs')
    ensures Distinct(bs)
  {
    forall i, j | 0 <= i < j < |bs|
      ensures bs[i].addr != bs[j].addr
    {
      var i', j' := if i < k then i else i + 1, if j < k then j else j + 1;
      assert bs[i] == bs'[i'] && bs[j] == bs'[j'];
    }
  }

  // Only the records at the addresses in changed may differ.
  ghost predicate SameRecords(mem: map<nat, NodeRec>, mem': map<nat, NodeRec>, changed: set<int>) {
    forall a :: a in mem ==> a in mem' && (a in changed || mem'[a] == mem[a])
  }

  // Changing the size field of one record.
  lemma ResizeKeeps(mem: map<nat, NodeRec>, mem': map<nat, NodeRec>, first: nat, bs: seq<Block>, bs': seq<Block>,
                    i: nat, b: Block)
    requires Linked(mem, first, bs) && Replaced(bs, bs', i, i + 1, b)
    requires b.addr == bs[i].addr && b.addr in mem && mem' == mem[b.addr := mem[b.addr].(size := b.size)]
    ensures Linked(mem', first, bs')
  {
    forall j | 0 <= j < |bs'|
      ensures LinkedAt(mem', bs', j) && bs'[j].addr == bs[j].addr
    {
      assert LinkedAt(mem, bs, j) && LinkedAt(mem, bs, i);
    }
  }

  // The record of a live chunk is none of the list's own.
  lemma LiveIsNoNode(bs: seq<Block>, live: set<Block>, base: nat, size: nat, b: Block, i: int)
    requires RegionInv(bs, live, base, size) && b in live
    ensures 0 <= i < |bs| ==> bs[i].addr != b.addr
  {
    assert ApartFrom(bs, b);
    assert 0 <= i < |bs| ==> Apart(bs[i], b);
  }

  lemma SpanIsRegion(base: nat, size: nat)
    requires size >= NODE_SIZE
    ensures RegionInv([Block(base, size)], {}, base, size)
  {
    SumOne(Block(base, size));
    forall a: int
      ensures base <= a < base + size <==> Covered([Block(base, size)], a) || CoveredBy({}, a)
    {
      CoveredOne(Block(base, size), a);
    }
  }

  // The records that malloc_node writes.
  ghost function TakeTouches(bs: seq<Block>, i: nat, n: nat): set<int>
    requires i < |bs| && n <= bs[i].size
  {
    {bs[i].addr, AddrAt(bs, i - 1), AddrAt(bs, i + 1)} +
    (if TakeSize(bs[i].size, n) < bs[i].size then {bs[i].addr + n} else {})
  }

  lemma TakeKeepsRecords(mem: map<nat, NodeRec>, mem': map<nat, NodeRec>,
                         bs: seq<Block>, live: set<Block>, base: nat, size: nat, i: nat, n: nat)
    requires RegionInv(bs, live, base, size) && i < |bs| && n <= bs[i].size
    requires forall b :: b in live ==> b.addr != NULL && b.addr in mem
    requires SameRecords(mem, mem', TakeTouches(bs, i, n))
    ensures forall b :: b in live ==> b.addr in mem' && mem'[b.addr] == mem[b.addr]
  {
    forall b | b in live
      ensures b.addr in mem' && mem'[b.addr] == mem[b.addr]
    {
      RecordsApart(bs, live, base, size, i, n, b);
    }
  }

  // No node begins strictly inside another.
  lemma InsideIsNotAmong(bs: seq<Block>, i: nat, a: nat)
    requires Sized(bs) && Separated(bs) && i < |bs| && bs[i].addr < a < bs[i].End()
    ensures NotAmong(bs, a)
  {
    forall j | 0 <= j < |bs|
      ensures bs[j].addr != a
    {
      assert j < i ==> bs[j].End() < bs[i].addr;
      assert i < j ==> bs[i].End() < bs[j].addr;
    }
  }

  lemma ApartIsNotAmong(bs: seq<Block>, b: Block)
    requires Sized(bs) && ApartFrom(bs, b) && b.size > 0
    ensures NotAmong(bs, b.addr)
  {
    forall j | 0 <= j < |bs|
      ensures bs[j].addr != b.addr
    {
      assert Apart(bs[j], b);
    }
  }

  // Taking a chunk out of block i touches no record of a live chunk.
  lemma RecordsApart(bs: seq<Block>, live: set<Block>, base: nat, size: nat, i: nat, n: nat, b: Block)
    requires RegionInv(bs, live, base, size) && b in live && b.addr != NULL
    requires i < |bs| && n <= bs[i].size
    ensures b.addr !in {bs[i].addr, AddrAt(bs, i - 1), AddrAt(bs, i + 1)}
    ensures n < bs[i].size ==> b.addr != bs[i].addr + n
  {
    LiveIsNoNode(bs, live, base, size, b, i - 1);
    LiveIsNoNode(bs, live, base, size, b, i);
    LiveIsNoNode(bs, live, base, size, b, i + 1);
    assert ApartFrom(bs, b) && Apart(bs[i], b);
  }

  // ---- Merging a chunk with its neighbours

  function MergedRight(bs: seq<Block>, b: Block, k: nat): Block
    requires k <= |bs|
  {
    if k < Hi(bs, b, k) then Block(b.addr, b.size + bs[k].size) else b
  }

  lemma SameRecordsTwice(m0: map<nat, NodeRec>, m1: map<nat, NodeRec>, m2: map<nat, NodeRec>,
                         c1: set<int>, c2: set<int>, c: set<int>)
    requires SameRecords(m0, m1, c1) && SameRecords(m1, m2, c2) && c1 <= c && c2 <= c
    ensures SameRecords(m0, m2, c)
  {
  }

  lemma PrevRecord(mem: map<nat, NodeRec>, first: nat, bs: seq<Block>, k: nat)
    requires Linked(mem, first, bs) && k <= |bs|
    ensures var p := AddrAt(bs, k as int - 1);
            && (p != NULL <==> k > 0)
            && (k > 0 ==> p in mem && mem[p].size == bs[k - 1].size)
            && AddrAt(bs, k) == if k > 0 then mem[p].next else first
  {
    if k > 0 {
      assert LinkedAt(mem, bs, k - 1);
    }
  }

  // The records that linking in a chunk at position k and merging it may write, and
  // those of ms_free_list_free.
  ghost function TouchesAt(bs: seq<Block>, ptr: nat, k: nat): set<int> {
    {ptr, AddrAt(bs, k as int - 1), AddrAt(bs, k), AddrAt(bs, k + 1)}
  }

  ghost function ReleaseTouches(bs: seq<Block>, ptr: nat): set<int> {
    TouchesAt(bs, ptr, Rank(bs, ptr))
  }

  lemma TouchedNodes(bs: seq<Block>, ptr: nat, a: int)
    requires a in ReleaseTouches(bs, ptr) && a != NULL
    ensures a == ptr || exists j :: 0 <= j < |bs| && bs[j].addr == a
  {
    var k := Rank(bs, ptr);
    assert a == ptr || a == AddrAt(bs, k as int - 1) || a == AddrAt(bs, k) || a == AddrAt(bs, k + 1);
  }

  // What the record of a freshly inserted chunk says about its neighbours.
  lemma InsertedNeighbours(mem: map<nat, NodeRec>, first: nat, bs: seq<Block>, bs': seq<Block>, b: Block, k: nat)
    requires Inserted(bs, bs', k, b) && Linked(mem, first, bs')
    ensures b.addr in mem && mem[b.addr] == NodeRec(AddrAt(bs, k), AddrAt(bs, k - 1), b.size)
    ensures k > 0 ==> bs[k - 1].addr != NULL && bs[k - 1].addr in mem && mem[bs[k - 1].addr].size == bs[k - 1].size
    ensures k < |bs| ==> bs[k].addr != NULL
  {
    assert LinkedAt(mem, bs', k);
    AddrAtInserted(bs, bs', k, b, k + 1);
    AddrAtInserted(bs, bs', k, b, k - 1);
    assert k > 0 ==> LinkedAt(mem, bs', k - 1);
    assert k < |bs| ==> LinkedAt(mem, bs', k + 1);
  }

  // The list that malloc_node leaves.
  ghost predicate TakeShape(bs: seq<Block>, bs': seq<Block>, i: nat, total: nat) {
    && i < |bs| && total <= bs[i].size
    && if bs[i].size - total >= NODE_SIZE
       then Replaced(bs, bs', i, i + 1, Block(bs[i].addr + total, bs[i].size - total))
       else Inserted(bs', bs, i, bs[i])
  }

  lemma TakeResult(bs: seq<Block>, i: nat, total: nat) returns (bs': seq<Block>)
    requires i < |bs| && total <= bs[i].size
    ensures TakeShape(bs, bs', i, total)
  {
    bs' := Take(bs, i, total);
  }

  lemma TakeShapeIsTake(bs: seq<Block>, bs': seq<Block>, i: nat, total: nat)
    requires Sized(bs) && Separated(bs)
    requires TakeShape(bs, bs', i, total) && NODE_SIZE <= total
    ensures bs' == Take(bs, i, total) && Sized(bs') && Separated(bs')
  {
    assert forall j :: 0 <= j < |bs'| ==> bs'[j] == Take(bs, i, total)[j];
    TakeKeepsForm(bs, i, total);
  }

  lemma InsertResult(bs: seq<Block>, bs': seq<Block>, b: Block, k: nat)
    requires k <= |bs| && Replaced(bs, bs', Lo(bs, b, k), Hi(bs, b, k), Merged(bs, b, k))
    ensures bs' == Insert(bs, b, k)
  {
    ReplacedUnique(bs, bs', Insert(bs, b, k), Lo(bs, b, k), Hi(bs, b, k), Merged(bs, b, k));
  }

  // ---- Finding the predecessor of a chunk that comes back

  // find_prev_node, as a function of the blocks from index i on. The size of the
  // chunk is read from its record, word, and its end is a 64-bit pointer.
  function PrevIndex(bs: seq<Block>, addr: nat, word: nat, i: nat): (r: int)
    requires i <= |bs|
    ensures -1 <= r < |bs|
    decreases |bs| - i
  {
    if i == |bs| || bs[i].End() > addr then -1
    else if i + 1 == |bs| || bs[i + 1].addr >= NodeEnd(addr, word) then i
    else PrevIndex(bs, addr, word, i + 1)
  }

  // The size word that ms_free_list_free finds in the record of chunk b is harmless:
  // right when the list is empty, and otherwise the 64-bit end of the chunk that it
  // gives is past its predecessor, if that has one, and not past its successor.
  predicate WordHarmless(bs: seq<Block>, b: Block, word: nat) {
    (bs == [] ==> word == b.size) && EndFits(bs, Rank(bs, b.addr), NodeEnd(b.addr, word))
  }

  predicate EndFits(bs: seq<Block>, k: nat, e: nat)
    requires k <= |bs|
  {
    (k >= 2 ==> bs[k - 1].addr < e) && (0 < k < |bs| ==> e <= bs[k].addr)
  }

  // Which predecessor the search finds, for every size word: the right one exactly
  // when no node between here and there begins at or past the chunk's supposed end,
  // and the one after it does.
  lemma {:induction false} PrevIndexFrom(bs: seq<Block>, b: Block, word: nat, k: nat, i: nat)
    requires Sized(bs) && Separated(bs) && Position(bs, b, k) && b.size >= NODE_SIZE
    requires i <= k && (i < k || i == 0)
    ensures var r, e := PrevIndex(bs, b.addr, word, i), NodeEnd(b.addr, word);
            && (r == k - 1 <==> (forall j :: i < j < k ==> bs[j].addr < e) && (0 < k < |bs| ==> e <= bs[k].addr))
            && r <= k - 1
    decreases k - i
  {
    if i + 1 < k {
      PrevIndexFrom(bs, b, word, k, i + 1);
    }
  }

  // For every size word, the search returns the first node after which it may stop, if
  // all nodes up to there end before the chunk, and otherwise none.
  lemma {:induction false} PrevIndexIsFirst(bs: seq<Block>, addr: nat, word: nat, i: nat)
    requires i <= |bs|
    ensures var r := PrevIndex(bs, addr, word, i);
            && (r != -1 ==> i <= r && MayStop(bs, addr, word, r))
            && (forall j :: i <= j < (if r == -1 then |bs| else r) && Before(bs, i, j, addr) ==>
                  !MayStop(bs, addr, word, j))
            && (r != -1 ==> Before(bs, i, r, addr))
    decreases |bs| - i
  {
    if i < |bs| && bs[i].End() <= addr && !MayStop(bs, addr, word, i) {
      PrevIndexIsFirst(bs, addr, word, i + 1);
    }
  }

  ghost predicate Before(bs: seq<Block>, i: nat, j: int, addr: nat) {
    forall l :: i <= l <= j && l < |bs| ==> bs[l].End() <= addr
  }

  // The last node, or one whose successor does not begin before the chunk's 64-bit end
  predicate MayStop(bs: seq<Block>, addr: nat, word: nat, j: int)
    requires 0 <= j < |bs|
  {
    j == |bs| - 1 || bs[j + 1].addr >= (addr + word) % TWO64
  }

  lemma PrevIndexStep(bs: seq<Block>, addr: nat, word: nat, i: nat)
    requires i < |bs| && InWords(bs)
    ensures NodeEnd(bs[i].addr, bs[i].size) == bs[i].End()
    ensures bs[i].End() > addr ==> PrevIndex(bs, addr, word, i) == -1
    ensures bs[i].End() <= addr && (i + 1 == |bs| || bs[i + 1].addr >= NodeEnd(addr, word)) ==>
              PrevIndex(bs, addr, word, i) == i
    ensures bs[i].End() <= addr && i + 1 < |bs| && bs[i + 1].addr < NodeEnd(addr, word) ==>
              PrevIndex(bs, addr, word, i) == PrevIndex(bs, addr, word, i + 1)
  {
  }

  // Where ms_free_list_free links in the chunk, and what it makes of the list, without
  // assertions and whatever the size word says.
  function CodedIndex(bs: seq<Block>, addr: nat, word: nat): (k: nat)
    ensures k <= |bs|
  {
    if bs == [] then 0 else PrevIndex(bs, addr, word, 0) + 1
  }

  function FreeAsCoded(bs: seq<Block>, b: Block, word: nat): seq<Block> {
    if bs == [] then [Block(b.addr, word)] else Insert(bs, b, CodedIndex(bs, b.addr, word))
  }

  lemma LastBelow(bs: seq<Block>, k: nat, e: nat)
    requires Separated(bs) && k <= |bs|
    ensures (forall j :: 0 < j < k ==> bs[j].addr < e) <==> (k >= 2 ==> bs[k - 1].addr < e)
  {
    forall j | 0 < j < k && bs[k - 1].addr < e
      ensures bs[j].addr < e
    {
      assert j < k - 1 ==> bs[j].End() < bs[k - 1].addr;
    }
  }

  lemma CodedIndexExact(bs: seq<Block>, b: Block, word: nat)
    requires Sized(bs) && Separated(bs) && ApartFrom(bs, b) && b.size >= NODE_SIZE
    ensures var k := Rank(bs, b.addr);
            && CodedIndex(bs, b.addr, word) <= k
            && (CodedIndex(bs, b.addr, word) == k <==> EndFits(bs, k, NodeEnd(b.addr, word)))
  {
    RankIsPosition(bs, b);
    if bs != [] {
      var k := Rank(bs, b.addr);
      PrevIndexFrom(bs, b, word, k, 0);
      LastBelow(bs, k, NodeEnd(b.addr, word));
    }
  }

  lemma ReleaseKeepsForm(bs: seq<Block>, b: Block)
    requires Sized(bs) && Separated(bs) && ApartFrom(bs, b) && b.size >= NODE_SIZE
    ensures Sized(Release(bs, b)) && Separated(Release(bs, b)) && Position(bs, b, Rank(bs, b.addr))
  {
    RankIsPosition(bs, b);
    InsertKeepsForm(bs, b, Rank(bs, b.addr));
  }

  // Giving a chunk back works exactly when its size word is harmless.
  lemma FreeAsCodedExact(bs: seq<Block>, b: Block, word: nat)
    requires Sized(bs) && Separated(bs) && ApartFrom(bs, b) && b.size >= NODE_SIZE
    ensures FreeAsCoded(bs, b, word) == Release(bs, b) <==> WordHarmless(bs, b, word)
  {
    var k, j := Rank(bs, b.addr), CodedIndex(bs, b.addr, word);
    CodedIndexExact(bs, b, word);
    ReleaseKeepsForm(bs, b);
    if bs == [] {
      ReleaseOfEmpty(b);
    } else if j < k {
      LinkedTooEarly(bs, b, k, j);
    }
  }

  // A client that leaves a number up to the chunk's size on the size word does no harm,
  // as long as some node is free.
  lemma SmallWordHarmless(bs: seq<Block>, b: Block, word: nat)
    requires Sized(bs) && Separated(bs) && ApartFrom(bs, b) && b.size >= NODE_SIZE && b.End() < TWO64
    requires bs != [] && word <= b.size
    ensures WordHarmless(bs, b, word)
  {
    RankIsPosition(bs, b);
    assert NodeEnd(b.addr, word) == b.addr + word;
  }

  // Exactly where it does not matter what a client leaves there: in front of all free
  // nodes, or with one free node.
  lemma AnyWordHarmless(bs: seq<Block>, b: Block)
    requires Sized(bs) && Separated(bs) && ApartFrom(bs, b) && b.size >= NODE_SIZE && b.End() < TWO64 && InWords(bs)
    ensures (forall word: nat :: word < TWO64 ==> WordHarmless(bs, b, word))
            <==> bs != [] && (Rank(bs, b.addr) == 0 || |bs| == 1)
  {
    if bs == [] || (Rank(bs, b.addr) > 0 && |bs| > 1) {
      HarmfulWord(bs, b);
      assert HarmfulAt(bs, b) < TWO64;
    }
  }

  // Elsewhere some word does harm: an end at the top of memory lets the search run past
  // the predecessor, one that wraps to 0 stops it at the first node.
  function HarmfulAt(bs: seq<Block>, b: Block): int {
    if bs == [] then 0 else if Rank(bs, b.addr) == 1 then TWO64 - 1 - b.addr else TWO64 - b.addr
  }

  lemma HarmfulWord(bs: seq<Block>, b: Block)
    requires Sized(bs) && Separated(bs) && ApartFrom(bs, b) && b.size >= NODE_SIZE && b.End() < TWO64 && InWords(bs)
    requires bs == [] || (Rank(bs, b.addr) > 0 && |bs| > 1)
    ensures 0 <= HarmfulAt(bs, b) < TWO64 && !WordHarmless(bs, b, HarmfulAt(bs, b))
  {
    if bs != [] {
      var k, word := Rank(bs, b.addr), HarmfulAt(bs, b);
      RankIsPosition(bs, b);
      assert bs[k - 1].End() <= b.addr;
      if k == 1 {
        DivModUnique(b.addr + word, TWO64, 0, TWO64 - 1);
        assert bs[1].End() < TWO64;
      } else {
        DivModUnique(b.addr + word, TWO64, 1, 0);
      }
    }
  }

  lemma ReleaseOfEmpty(b: Block)
    ensures Release([], b) == [b]
  {
  }

  lemma FreeOutcome(bs: seq<Block>, b: Block, word: nat)
    requires Sized(bs) && Separated(bs) && ApartFrom(bs, b) && b.size >= NODE_SIZE
    ensures NotAmong(bs, b.addr)
    ensures WordHarmless(bs, b, word) ==>
              && CodedIndex(bs, b.addr, word) == Rank(bs, b.addr) && Position(bs, b, CodedIndex(bs, b.addr, word))
              && FreeAsCoded(bs, b, word) == Release(bs, b)
              && Sized(Release(bs, b)) && Separated(Release(bs, b))
  {
    ApartIsNotAmong(bs, b);
    ReleaseKeepsForm(bs, b);
    CodedIndexExact(bs, b, word);
    FreeAsCodedExact(bs, b, word);
  }

  // A chunk that is linked in before nodes below it stays unmerged and out of order.
  lemma LinkedTooEarly(bs: seq<Block>, b: Block, k: nat, j: nat)
    requires Sized(bs) && Separated(bs) && Position(bs, b, k) && b.size >= NODE_SIZE && j < k
    ensures !Separated(Insert(bs, b, j))
  {
    var coded := Insert(bs, b, j);
    assert j > 0 ==> bs[j - 1].End() < bs[j].addr;
    assert coded[j] == b && coded[j + 1] == bs[j];
  }

  // A successful ms_free_list_malloc of n rounded bytes: block i was the one to
  // choose, its front is the chunk, the rest stays free if a node fits in it.
  ghost predicate MallocEffect(bs: seq<Block>, mem: map<nat, NodeRec>, bs': seq<Block>, mem': map<nat, NodeRec>,
                               n: nat, i: nat, chunk: nat, totalSize: nat) {
    && i < |bs| && Chosen(bs, n, i) && n <= bs[i].size
    && Block(chunk, totalSize) == Taken(bs, i, n)
    && bs' == Take(bs, i, n)
    && chunk in mem' && mem'[chunk].size == totalSize
    && SameRecords(mem, mem', TakeTouches(bs, i, n))
  }

  // Where the commit mark ends up: past the bytes asked for and, after a split,
  // past the record of the new node.
  ghost function MallocMark(mark: nat, bs: seq<Block>, n: nat, i: nat, chunk: nat): nat {
    if chunk == NULL || i >= |bs| || bs[i].size < n then mark
    else Max(Max(mark, chunk + n), if TakeSize(bs[i].size, n) < bs[i].size then chunk + n + NODE_SIZE else 0)
  }

  class FreeList {
    var first: nat
    var mem: map<nat, NodeRec>  // the node records, by address
    const user: Watermark?
    ghost var blocks: seq<Block>

    // Address order, disjointness and maximal coalescing on top of the links.
    ghost predicate Valid()
      reads this
    {
      Linked(mem, first, blocks) && Sized(blocks) && Separated(blocks)
    }

    // ms_free_list_create_node; its assertions hold when the call is sound.
    method CreateNode(chunk: nat, prev: nat, next: nat, size: nat, ghost sound: bool, ghost k: nat,
                      ghost bs': seq<Block>)
      requires Linked(mem, first, blocks) && Inserted(blocks, bs', k, Block(chunk, size))
      requires prev == AddrAt(blocks, k - 1) && next == AddrAt(blocks, k)
      requires chunk != NULL && NotAmong(blocks, chunk)
      requires sound ==> size > 0 && (k > 0 ==> prev < chunk) && (k < |blocks| ==> chunk < next)
      modifies this`first, this`mem, this`blocks, user
      ensures Linked(mem, first, blocks) && blocks == bs'
      ensures SameRecords(old(mem), mem, {chunk, prev, next})
      ensures user != null ==> user.End() == Max(old(user.End()), chunk + NODE_SIZE)
    {
      NeighboursInMem(mem, first, blocks, k - 1);
      NeighboursInMem(mem, first, blocks, k);
      LinkInKeeps(mem, LinkIn(mem, chunk, prev, next, size), first, blocks, bs', k, Block(chunk, size));
      if user != null {
        user.Commit(chunk, NODE_SIZE);
      }
      mem := mem[chunk := NodeRec(next, prev, size)];
      assert sound ==> mem[chunk].size > 0;
      assert sound && prev != NULL ==> prev < chunk;
      if prev != NULL {
        mem := mem[prev := mem[prev].(next := chunk)];
      } else {
        first := chunk;
      }
      assert sound && next != NULL ==> next > chunk;
      if next != NULL {
        mem := mem[next := mem[next].(prev := chunk)];
      }
      blocks := bs';
    }

    // detach_node
    method Detach(chunk: nat, ghost i: nat, ghost bs': seq<Block>)
      requires Linked(mem, first, blocks) && i < |blocks| && blocks[i].addr == chunk
      requires Inserted(bs', blocks, i, blocks[i])
      modifies this`first, this`mem, this`blocks
      ensures Linked(mem, first, blocks) && blocks == bs'
      ensures SameRecords(old(mem), mem, {AddrAt(old(blocks), i - 1), AddrAt(old(blocks), i + 1)})
    {
      assert LinkedAt(mem, blocks, i);
      NeighboursInMem(mem, first, blocks, i - 1);
      NeighboursInMem(mem, first, blocks, i + 1);
      LinkOutKeeps(mem, LinkOut(mem, chunk), first, bs', blocks, i, blocks[i]);
      if first == chunk {
        first := mem[chunk].next;
      }
      if mem[chunk].prev != NULL {
        mem := mem[mem[chunk].prev := mem[mem[chunk].prev].(next := mem[chunk].next)];
      }
      if mem[chunk].next != NULL {
        mem := mem[mem[chunk].next := mem[mem[chunk].next].(prev := mem[chunk].prev)];
      }
      blocks := bs';
    }

    // The first loop of find_smallest_node
    method FindFirstFit(alignedCount: nat) returns (smallest: nat, ghost f: nat)
      requires Linked(mem, first, blocks)
      ensures smallest == NULL <==> NoFit(blocks, alignedCount)
      ensures smallest != NULL ==> IsFirstFit(blocks, alignedCount, f) && smallest == blocks[f].addr
    {
      smallest, f := NULL, 0;
      var chunk := first;
      NeighboursInMem(mem, first, blocks, 0);
      while chunk != NULL
        invariant 0 <= f <= |blocks| && chunk == AddrAt(blocks, f)
        invariant chunk != NULL <==> f < |blocks|
        invariant forall k :: 0 <= k < f ==> blocks[k].size < alignedCount
        invariant smallest == NULL
        decreases |blocks| - f
      {
        assert LinkedAt(mem, blocks, f);
        if mem[chunk].size >= alignedCount {
          smallest := chunk;
          break;
        }
        NeighboursInMem(mem, first, blocks, f + 1);
        chunk := mem[chunk].next;
        f := f + 1;
      }
    }

    // find_smallest_node
    method FindSmallest(alignedCount: nat) returns (smallest: nat, ghost i: nat)
      requires Linked(mem, first, blocks)
      ensures smallest == NULL <==> NoFit(blocks, alignedCount)
      ensures smallest != NULL ==> i < |blocks| && smallest == blocks[i].addr && Chosen(blocks, alignedCount, i)
    {
      smallest, i := FindFirstFit(alignedCount);
      if smallest != NULL {
        ghost var f, stop := i, i + 1;
        NodeAt(mem, first, blocks, f);
        var chunk := mem[smallest].next;
        NodeAt(mem, first, blocks, stop);
        while chunk != NULL && mem[chunk].size < mem[smallest].size
          invariant Scanned(blocks, alignedCount, i, f, stop)
          invariant chunk == AddrAt(blocks, stop) && (chunk != NULL <==> stop < |blocks|)
          invariant smallest == blocks[i].addr && smallest != NULL
          invariant smallest in mem && mem[smallest].size == blocks[i].size
          invariant chunk != NULL ==> chunk in mem && mem[chunk].size == blocks[stop].size
          decreases |blocks| - stop
        {
          ScanStep(blocks, alignedCount, i, f, stop);
          NodeAt(mem, first, blocks, stop);
          if mem[chunk].size >= alignedCount {
            smallest := chunk;
            i := stop;
          }
          chunk := mem[chunk].next;
          stop := stop + 1;
          NodeAt(mem, first, blocks, stop);
        }
        assert ChosenVia(blocks, alignedCount, i, f, stop);
      }
    }

    // The branch of malloc_node that splits the chunk
    method SplitNode(chunk: nat, total: nat, ghost i: nat, ghost bs': seq<Block>)
      requires Linked(mem, first, blocks) && i < |blocks| && blocks[i].addr == chunk
      requires NODE_SIZE <= total && total + NODE_SIZE <= blocks[i].size
      requires NotAmong(blocks, chunk + total) && (i + 1 < |blocks| ==> blocks[i].End() < blocks[i + 1].addr)
      requires Replaced(blocks, bs', i, i + 1, Block(chunk + total, blocks[i].size - total))
      modifies this`first, this`mem, this`blocks, user
      ensures Linked(mem, first, blocks) && Inserted(bs', blocks, i, Block(chunk, total))
      ensures SameRecords(old(mem), mem, {chunk, AddrAt(old(blocks), i + 1), chunk + total})
      ensures user != null ==> user.End() == Max(old(user.End()), chunk + total + NODE_SIZE)
    {
      assert LinkedAt(mem, blocks, i);
      var remainingSize := mem[chunk].size - total;
      var remaining := chunk + total;
      ghost var bs := blocks;
      ghost var m1 := Replace(bs, i + 1, i + 1, Block(remaining, remainingSize));
      ghost var m2 := Replace(m1, i, i + 1, Block(chunk, total));
      SplitSteps(bs, m1, m2, bs', i, Block(chunk, total), Block(remaining, remainingSize));
      CreateNode(remaining, chunk, mem[chunk].next, remainingSize, true, i + 1, m1);
      assert LinkedAt(mem, blocks, i) && LinkedAt(mem, blocks, i + 1);
      assert mem[chunk].size > remainingSize;
      assert mem[remaining].next == NULL || remaining < mem[remaining].next;
      ResizeKeeps(mem, mem[chunk := mem[chunk].(size := total)], first, m1, m2, i, Block(chunk, total));
      mem := mem[chunk := mem[chunk].(size := mem[chunk].size - remainingSize)];
      blocks := m2;
    }

    // malloc_node
    method MallocNode(chunk: nat, total: nat, ghost i: nat, ghost bs': seq<Block>) returns (newTotal: nat)
      requires Linked(mem, first, blocks) && i < |blocks| && blocks[i].addr == chunk
      requires Sized(blocks) && Separated(blocks)
      requires NODE_SIZE <= total <= blocks[i].size
      requires TakeShape(blocks, bs', i, total)
      modifies this`first, this`mem, this`blocks, user
      ensures Linked(mem, first, blocks) && blocks == bs'
      ensures newTotal == TakeSize(old(blocks)[i].size, total)
      ensures chunk in mem && mem[chunk].size == newTotal
      ensures SameRecords(old(mem), mem, TakeTouches(old(blocks), i, total))
      ensures user != null ==>
                user.End() == if newTotal < old(blocks)[i].size then Max(old(user.End()), chunk + total + NODE_SIZE)
                              else old(user.End())
    {
      assert LinkedAt(mem, blocks, i);
      var remainingSize := mem[chunk].size - total;
      newTotal := total;
      if remainingSize >= NODE_SIZE {
        InsideIsNotAmong(blocks, i, chunk + total);
        SplitNode(chunk, total, i, bs');
      } else {
        newTotal := mem[chunk].size;
      }
      assert LinkedAt(mem, blocks, i);
      Detach(chunk, i, bs');
      assert mem[chunk].next == NULL || NodeEnd(chunk, mem[chunk].size) <= mem[chunk].next;
    }

    constructor (user: Watermark?)
      ensures this.user == user && Valid() && blocks == []
    {
      this.user := user;
      first, mem, blocks := NULL, map[], [];
    }

    // ms_free_list_create_node without neighbours: whatever the list held, it is
    // now this one node.
    method CreateOnlyNode(chunk: nat, size: nat)
      requires chunk != NULL && size >= NODE_SIZE
      modifies this`first, this`mem, this`blocks, user
      ensures Valid() && blocks == [Block(chunk, size)]
      ensures user != null ==> user.End() == Max(old(user.End()), chunk + NODE_SIZE)
    {
      if user != null {
        user.Commit(chunk, NODE_SIZE);
      }
      mem := mem[chunk := NodeRec(NULL, NULL, size)];
      first := chunk;
      blocks := [Block(chunk, size)];
      assert LinkedAt(mem, blocks, 0);
    }

    // The body of ms_free_list_malloc once the size is rounded up to n
    method MallocRounded(n: nat) returns (chunk: nat, totalSize: nat, ghost i: nat)
      requires Valid() && NODE_SIZE <= n
      modifies this`first, this`mem, this`blocks, user
      ensures Valid()
      ensures chunk == NULL <==> NoFit(old(blocks), n)
      ensures chunk == NULL ==> blocks == old(blocks) && mem == old(mem) && totalSize == n
      ensures chunk != NULL ==> MallocEffect(old(blocks), old(mem), blocks, mem, n, i, chunk, totalSize)
      ensures user != null ==> user.End() == MallocMark(old(user.End()), old(blocks), n, i, chunk)
      ensures user != null && chunk != NULL ==>
                user.End() == Max(old(user.End()), chunk + n + (if old(blocks)[i].size >= n + 24 then 24 else 0))
    {
      totalSize := n;
      chunk, i := FindSmallest(totalSize);
      if chunk != NULL {
        ghost var bs := blocks;
        ghost var bs' := TakeResult(bs, i, n);
        if user != null {
          user.Commit(chunk, totalSize);
        }
        totalSize := MallocNode(chunk, totalSize, i, bs');
        TakeShapeIsTake(bs, bs', i, n);
      }
    }

    // ms_free_list_malloc
    method Malloc(count: nat, alignment: nat) returns (chunk: nat, totalSize: nat, ghost i: nat)
      requires Valid()
      requires ValidAlignment(alignment) && count < TWO64 && NodeSize(count, alignment) >= NODE_SIZE
      modifies this`first, this`mem, this`blocks, user
      ensures Valid()
      ensures chunk == NULL <==> NoFit(old(blocks), NodeSize(count, alignment))
      ensures chunk == NULL ==> blocks == old(blocks) && mem == old(mem) && totalSize == NodeSize(count, alignment)
      ensures chunk != NULL ==>
                MallocEffect(old(blocks), old(mem), blocks, mem, NodeSize(count, alignment), i, chunk, totalSize)
      ensures user != null ==>
                user.End() == MallocMark(old(user.End()), old(blocks), NodeSize(count, alignment), i, chunk)
    {
      totalSize := NodeSize(count, alignment);
      chunk, totalSize, i := MallocRounded(totalSize);
    }

    // coalesce
    method Coalesce(left: nat, right: nat, ghost i: nat, ghost bs': seq<Block>)
      requires Linked(mem, first, blocks) && i + 1 < |blocks|
      requires blocks[i].addr == left && blocks[i + 1].addr == right
      requires Replaced(blocks, bs', i, i + 2, Block(left, blocks[i].size + blocks[i + 1].size))
      modifies this`first, this`mem, this`blocks
      ensures Linked(mem, first, blocks) && blocks == bs'
      ensures SameRecords(old(mem), mem, {left, AddrAt(old(blocks), i + 2)})
    {
      assert LinkedAt(mem, blocks, i) && LinkedAt(mem, blocks, i + 1);
      ghost var bs := blocks;
      ghost var mid := Remove(bs, i + 1);
      ghost var merged := Block(left, bs[i].size + bs[i + 1].size);
      CoalesceSteps(bs, mid, bs', i, merged);
      Detach(right, i + 1, mid);
      assert LinkedAt(mem, mid, i);
      ResizeKeeps(mem, mem[left := mem[left].(size := merged.size)], first, mid, bs', i, merged);
      mem := mem[left := mem[left].(size := mem[left].size + mem[right].size)];
      blocks := bs';
    }

    // find_prev_node
    method FindPrev(subject: nat) returns (prev: nat)
      requires Linked(mem, first, blocks) && InWords(blocks) && subject in mem
      ensures prev == AddrAt(blocks, PrevIndex(blocks, subject, mem[subject].size, 0))
    {
      var c := first;
      ghost var i := 0;
      NodeAt(mem, first, blocks, 0);
      while c != NULL
        invariant 0 <= i <= |blocks| && c == AddrAt(blocks, i) && (c != NULL <==> i < |blocks|)
        invariant PrevIndex(blocks, subject, mem[subject].size, 0) == PrevIndex(blocks, subject, mem[subject].size, i)
        decreases |blocks| - i
      {
        NodeAt(mem, first, blocks, i);
        NodeAt(mem, first, blocks, i + 1);
        PrevIndexStep(blocks, subject, mem[subject].size, i);
        if NodeEnd(c, mem[c].size) <= subject {
          if mem[c].next == NULL || mem[c].next >= NodeEnd(subject, mem[subject].size) {
            return c;
          }
        } else {
          break;
        }
        c := mem[c].next;
        i := i + 1;
      }
      return NULL;
    }

    // The right half of try_coalesce_neighbors, after chunk b was inserted at
    // position k of bs
    method CoalesceRight(chunk: nat, next: nat, ghost bs: seq<Block>, ghost b: Block, ghost k: nat,
                         ghost bs': seq<Block>)
      requires Linked(mem, first, blocks) && Inserted(bs, blocks, k, b)
      requires b.addr == chunk && next == AddrAt(bs, k) && b.End() < TWO64
      requires Replaced(bs, bs', k, Hi(bs, b, k), MergedRight(bs, b, k))
      modifies this`first, this`mem, this`blocks
      ensures Linked(mem, first, blocks) && Replaced(bs, blocks, k, Hi(bs, b, k), MergedRight(bs, b, k))
      ensures SameRecords(old(mem), mem, {chunk, AddrAt(bs, k + 1)})
    {
      InsertedNeighbours(mem, first, bs, blocks, b, k);
      if next != NULL && next == NodeEnd(chunk, mem[chunk].size) {
        MergeRightSteps(bs, blocks, bs', k, b, MergedRight(bs, b, k));
        Coalesce(chunk, next, k, bs');
      }
    }

    // try_coalesce_neighbors; its assertions hold when the chunk is at its position.
    method TryCoalesce(chunk: nat, ghost sound: bool, ghost bs: seq<Block>, ghost b: Block, ghost k: nat,
                       ghost bs': seq<Block>)
      returns (node: nat)
      requires Linked(mem, first, blocks) && Inserted(bs, blocks, k, b) && b.addr == chunk
      requires b.End() < TWO64 && InWords(bs)
      requires sound ==> Position(bs, b, k)
      requires Replaced(bs, bs', Lo(bs, b, k), Hi(bs, b, k), Merged(bs, b, k))
      modifies this`first, this`mem, this`blocks
      ensures Linked(mem, first, blocks) && blocks == bs'
      ensures node == Merged(bs, b, k).addr
      ensures SameRecords(old(mem), mem, TouchesAt(bs, chunk, k))
    {
      InsertedNeighbours(mem, first, bs, blocks, b, k);
      var prev := mem[chunk].prev;
      var next := mem[chunk].next;
      assert sound ==> prev == NULL || NodeEnd(prev, mem[prev].size) <= chunk;
      assert sound ==> next == NULL || NodeEnd(chunk, mem[chunk].size) <= next;
      ghost var hi, m := Hi(bs, b, k), MergedRight(bs, b, k);
      ghost var m1 := Replace(bs, k, hi, m);
      CoalesceRight(chunk, next, bs, b, k, m1);
      node := chunk;
      ReplacedUnique(bs, blocks, m1, k, hi, m);
      assert k > 0 ==> LinkedAt(mem, blocks, k - 1);
      if prev != NULL && chunk == NodeEnd(prev, mem[prev].size) {
        ghost var mem1, n, nn := mem, AddrAt(bs, k), AddrAt(bs, k + 1);
        MergeLeftSteps(bs, blocks, bs', k, hi, m, Merged(bs, b, k));
        Coalesce(prev, chunk, k - 1, bs');
        assert SameRecords(mem1, mem, {prev, n, nn});
        SameRecordsTwice(old(mem), mem1, mem, {chunk, nn}, {prev, n, nn}, {chunk, prev, n, nn});
        node := prev;
      } else {
        ReplacedUnique(bs, blocks, bs', k, hi, m);
      }
    }

    // ms_free_list_free, whatever size word the chunk's record holds. With a harmless
    // one the assertions hold and the chunk ends up in its place.
    method Free(ptr: nat, size: nat)
      requires Valid() && InWords(blocks)
      requires ptr != NULL && ptr in mem && size >= NODE_SIZE && ptr + size < TWO64
      requires ApartFrom(blocks, Block(ptr, size))
      modifies this`first, this`mem, this`blocks, user
      ensures Linked(mem, first, blocks)
      ensures blocks == FreeAsCoded(old(blocks), Block(ptr, size), old(mem)[ptr].size)
      ensures SameRecords(old(mem), mem, TouchesAt(old(blocks), ptr, CodedIndex(old(blocks), ptr, old(mem)[ptr].size)))
      ensures WordHarmless(old(blocks), Block(ptr, size), old(mem)[ptr].size) ==>
                && Valid() && blocks == Release(old(blocks), Block(ptr, size))
                && SameRecords(old(mem), mem, ReleaseTouches(old(blocks), ptr))
      ensures user != null ==> user.End() == Max(old(user.End()), ptr + NODE_SIZE)
    {
      ghost var bs, b, word := blocks, Block(ptr, size), mem[ptr].size;
      ghost var k, harmless := CodedIndex(bs, ptr, word), WordHarmless(bs, b, word);
      FreeOutcome(bs, b, word);
      NeighboursInMem(mem, first, blocks, 0);
      if first != NULL {
        var prev := FindPrev(ptr);
        LinkAndMerge(ptr, prev, size, harmless, k);
      } else {
        ghost var m1 := Replace(bs, 0, 0, Block(ptr, word));
        CreateNode(ptr, NULL, NULL, mem[ptr].size, harmless, 0, m1);
        assert m1 == [Block(ptr, word)];
      }
    }

    // The branch of ms_free_list_free for a list with nodes, once prev is found
    method LinkAndMerge(ptr: nat, prev: nat, size: nat, ghost sound: bool, ghost k: nat)
      requires Linked(mem, first, blocks) && InWords(blocks) && k <= |blocks| && NotAmong(blocks, ptr)
      requires ptr != NULL && ptr + size < TWO64
      requires prev == AddrAt(blocks, k as int - 1)
      requires sound ==> Position(blocks, Block(ptr, size), k) && Sized(blocks) && size >= NODE_SIZE
      modifies this`first, this`mem, this`blocks, user
      ensures Linked(mem, first, blocks) && blocks == Insert(old(blocks), Block(ptr, size), k)
      ensures SameRecords(old(mem), mem, TouchesAt(old(blocks), ptr, k))
      ensures user != null ==> user.End() == Max(old(user.End()), ptr + NODE_SIZE)
    {
      ghost var bs, b, mem0 := blocks, Block(ptr, size), mem;
      ghost var m1 := Replace(bs, k, k, b);
      ghost var bs' := Replace(bs, Lo(bs, b, k), Hi(bs, b, k), Merged(bs, b, k));
      PrevRecord(mem, first, bs, k);
      assert sound ==> prev == NULL || NodeEnd(prev, mem[prev].size) <= ptr;
      var next := if prev != NULL then mem[prev].next else first;
      CreateNode(ptr, prev, next, size, sound, k, m1);
      ghost var mem1 := mem;
      var node := TryCoalesce(ptr, sound, bs, b, k, bs');
      SameRecordsTwice(mem0, mem1, mem, {ptr, prev, next}, TouchesAt(bs, ptr, k), TouchesAt(bs, ptr, k));
      InsertResult(bs, bs', b, k);
    }
  }
}
