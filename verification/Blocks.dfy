// The abstract value of a free list: a sequence of blocks of addresses, and
// what it means for free blocks and live chunks to tile one region.

module Blocks {

  const NODE_SIZE: nat := 24    // sizeof(ms_free_list_node)
  const HEADER_SIZE: nat := 16  // sizeof(ms_header)

  datatype Block = Block(addr: nat, size: nat) {
    function End(): nat {
      addr + size
    }

    predicate Covers(a: int) {
      addr <= a < addr + size
    }
  }

  ghost predicate Sized(bs: seq<Block>) {
    forall i :: 0 <= i < |bs| ==> bs[i].size >= NODE_SIZE
  }

  // In address order, pairwise disjoint, and no block ends where another begins.
  ghost predicate Separated(bs: seq<Block>) {
    forall i, j :: 0 <= i < j < |bs| ==> bs[i].End() < bs[j].addr
  }

  ghost predicate Covered(bs: seq<Block>, a: int) {
    exists i :: 0 <= i < |bs| && bs[i].Covers(a)
  }

  ghost predicate CoveredBy(live: set<Block>, a: int) {
    exists b :: b in live && b.Covers(a)
  }

  ghost predicate Apart(b: Block, c: Block) {
    b.End() <= c.addr || c.End() <= b.addr
  }

  ghost predicate ApartFrom(bs: seq<Block>, b: Block) {
    forall i :: 0 <= i < |bs| ==> Apart(bs[i], b)
  }

  // Free blocks and live chunks tile [base, base + size): every address of the
  // region lies in exactly one of them, and no other address in any.
  ghost predicate Tiling(free: seq<Block>, live: set<Block>, base: nat, size: nat) {
    && (forall b {:trigger ApartFrom(free, b)} {:trigger b in live, b.size} :: b in live ==>
          b.size >= NODE_SIZE && ApartFrom(free, b))
    && (forall b, c {:trigger Apart(b, c)} :: b in live && c in live && b != c ==> Apart(b, c))
    && (forall a: int {:trigger Covered(free, a)} {:trigger CoveredBy(live, a)} ::
          base <= a < base + size <==> Covered(free, a) || CoveredBy(live, a))
    && Sum(free) + SumLive(live) == size
  }

  ghost predicate RegionInv(free: seq<Block>, live: set<Block>, base: nat, size: nat) {
    Sized(free) && Separated(free) && Tiling(free, live, base, size)
  }

  // ---- Byte counts

  ghost function Sum(bs: seq<Block>): nat {
    if bs == [] then 0 else bs[0].size + Sum(bs[1..])
  }

  ghost function SumLive(live: set<Block>): nat {
    if live == {} then 0
    else
      var b :| b in live;
      b.size + SumLive(live - {b})
  }

  lemma {:induction false} SumAppend(xs: seq<Block>, ys: seq<Block>)
    ensures Sum(xs + ys) == Sum(xs) + Sum(ys)
  {
    if xs == [] {
      assert xs + ys == ys;
    } else {
      SumAppend(xs[1..], ys);
      assert (xs + ys)[1..] == xs[1..] + ys;
    }
  }

  lemma {:induction false} SumLiveRemove(live: set<Block>, b: Block)
    requires b in live
    ensures SumLive(live) == b.size + SumLive(live - {b})
  {
    var c :| c in live && SumLive(live) == c.size + SumLive(live - {c});
    if c != b {
      SumLiveRemove(live - {c}, b);
      SumLiveRemove(live - {b}, c);
      assert live - {c} - {b} == live - {b} - {c};
    }
  }

  lemma SumLiveAdd(live: set<Block>, b: Block)
    requires b !in live
    ensures SumLive(live + {b}) == b.size + SumLive(live)
  {
    SumLiveRemove(live + {b}, b);
    assert live + {b} - {b} == live;
  }

  // bs with the blocks [lo, hi) replaced by mid.
  function Splice(bs: seq<Block>, lo: nat, hi: nat, mid: seq<Block>): seq<Block>
    requires lo <= hi <= |bs|
  {
    bs[..lo] + mid + bs[hi..]
  }

  lemma SpliceSum(bs: seq<Block>, lo: nat, hi: nat, mid: seq<Block>)
    requires lo <= hi <= |bs|
    ensures Sum(Splice(bs, lo, hi, mid)) + Sum(bs[lo..hi]) == Sum(bs) + Sum(mid)
  {
    SumAppend(bs[..lo] + mid, bs[hi..]);
    SumAppend(bs[..lo], mid);
    SumAppend(bs[..lo], bs[lo..hi]);
    SumAppend(bs[..lo] + bs[lo..hi], bs[hi..]);
    assert bs[..lo] + bs[lo..hi] + bs[hi..] == bs;
  }

  lemma SumOne(b: Block)
    ensures Sum([b]) == b.size
  {
    assert [b][1..] == [];
  }

  lemma CoveredAppend(xs: seq<Block>, ys: seq<Block>, a: int)
    ensures Covered(xs + ys, a) <==> Covered(xs, a) || Covered(ys, a)
  {
    if Covered(xs, a) {
      var i :| 0 <= i < |xs| && xs[i].Covers(a);
      assert (xs + ys)[i].Covers(a);
    }
    if Covered(ys, a) {
      var i :| 0 <= i < |ys| && ys[i].Covers(a);
      assert (xs + ys)[|xs| + i].Covers(a);
    }
  }

  lemma SpliceCovered(bs: seq<Block>, lo: nat, hi: nat, mid: seq<Block>, a: int)
    requires lo <= hi <= |bs|
    ensures Covered(Splice(bs, lo, hi, mid), a) <==> Covered(bs[..lo], a) || Covered(mid, a) || Covered(bs[hi..], a)
    ensures Covered(bs, a) <==> Covered(bs[..lo], a) || Covered(bs[lo..hi], a) || Covered(bs[hi..], a)
  {
    CoveredAppend(bs[..lo] + mid, bs[hi..], a);
    CoveredAppend(bs[..lo], mid, a);
    CoveredAppend(bs[..lo] + bs[lo..hi], bs[hi..], a);
    CoveredAppend(bs[..lo], bs[lo..hi], a);
    assert bs[..lo] + bs[lo..hi] + bs[hi..] == bs;
  }

  lemma CoveredOne(b: Block, a: int)
    ensures Covered([b], a) <==> b.Covers(a)
  {
    if b.Covers(a) {
      assert [b][0].Covers(a);
    }
  }

  // bs' is bs with the blocks [lo, hi) replaced by b.
  ghost predicate Replaced(bs: seq<Block>, bs': seq<Block>, lo: nat, hi: nat, b: Block) {
    && lo <= hi <= |bs| && |bs'| == |bs| + 1 - (hi - lo) && bs'[lo] == b
    && (forall j :: 0 <= j < lo ==> bs'[j] == bs[j])
    && (forall j :: lo < j < |bs'| ==> bs'[j] == bs[j - 1 + (hi - lo)])
  }

  // bs' is bs with b inserted at position k; read backwards, a removal.
  ghost predicate Inserted(bs: seq<Block>, bs': seq<Block>, k: nat, b: Block) {
    Replaced(bs, bs', k, k, b)
  }

  // Replacing by one block keeps the form when that block keeps clear of the rest.
  lemma SpliceReplaces(bs: seq<Block>, lo: nat, hi: nat, b: Block)
    requires lo <= hi <= |bs|
    ensures Replaced(bs, Splice(bs, lo, hi, [b]), lo, hi, b)
  {
  }

  lemma ReplacedForm(bs: seq<Block>, bs': seq<Block>, lo: nat, hi: nat, b: Block)
    requires Sized(bs) && Separated(bs) && b.size >= NODE_SIZE
    requires Replaced(bs, bs', lo, hi, b)
    requires lo > 0 ==> bs[lo - 1].End() < b.addr
    requires hi < |bs| ==> b.End() < bs[hi].addr
    ensures Sized(bs') && Separated(bs')
  {
    forall j | 0 <= j < |bs'|
      ensures bs'[j].size >= NODE_SIZE
      ensures j < lo ==> bs'[j] == bs[j] && bs'[j].End() < b.addr
      ensures j > lo ==> bs'[j] == bs[j - 1 + (hi - lo)] && b.End() < bs'[j].addr
    {
    }
  }

  lemma RemovedForm(bs: seq<Block>, bs': seq<Block>, i: nat)
    requires Sized(bs) && Separated(bs) && i < |bs| && Inserted(bs', bs, i, bs[i])
    ensures Sized(bs') && Separated(bs')
  {
    forall j | 0 <= j < |bs'|
      ensures bs'[j] == bs[if j < i then j else j + 1]
    {
    }
  }

  lemma {:induction false} SumAtLeast(bs: seq<Block>, i: nat)
    requires i < |bs|
    ensures bs[i].size <= Sum(bs)
  {
    if i > 0 {
      SumAtLeast(bs[1..], i - 1);
    }
  }

  // ---- Canonical form

  lemma CoveredTail(bs: seq<Block>, a: int)
    requires bs != [] && Sized(bs) && Separated(bs)
    ensures Covered(bs[1..], a) <==> Covered(bs, a) && bs[0].End() <= a
  {
    if Covered(bs[1..], a) {
      var i :| 0 <= i < |bs[1..]| && bs[1..][i].Covers(a);
      assert bs[i + 1].Covers(a);
    }
    if Covered(bs, a) && bs[0].End() <= a {
      var i :| 0 <= i < |bs| && bs[i].Covers(a);
      assert bs[1..][i - 1].Covers(a);
    }
  }

  lemma SameHead(xs: seq<Block>, ys: seq<Block>)
    requires Sized(xs) && Separated(xs) && Sized(ys) && Separated(ys)
    requires forall a: int :: Covered(xs, a) <==> Covered(ys, a)
    requires xs != []
    ensures ys != [] && ys[0].addr <= xs[0].addr
    ensures xs[0].addr == ys[0].addr ==> ys[0].End() <= xs[0].End()
  {
    assert xs[0].Covers(xs[0].addr);
    assert Covered(ys, xs[0].addr);
    var j :| 0 <= j < |ys| && ys[j].Covers(xs[0].addr);
    var head, e := ys[0], xs[0].End();
    assert !Covered(xs, e);
    assert head.Covers(e) ==> Covered(ys, e);
  }

  // A separated list is determined by the addresses it covers: the free list is
  // the one canonical representation of the free bytes.
  lemma {:induction false} Canonical(xs: seq<Block>, ys: seq<Block>)
    requires Sized(xs) && Separated(xs) && Sized(ys) && Separated(ys)
    requires forall a: int :: Covered(xs, a) <==> Covered(ys, a)
    ensures xs == ys
  {
    if xs == [] {
      if ys != [] {
        SameHead(ys, xs);
      }
    } else {
      SameHead(xs, ys);
      SameHead(ys, xs);
      forall a: int
        ensures Covered(xs[1..], a) <==> Covered(ys[1..], a)
      {
        CoveredTail(xs, a);
        CoveredTail(ys, a);
      }
      Canonical(xs[1..], ys[1..]);
      assert xs == [xs[0]] + xs[1..] && ys == [ys[0]] + ys[1..];
    }
  }

  // ---- Taking a chunk out of block i

  // How many bytes the chunk gets: the whole block when the rest could not
  // hold a node of its own.
  function TakeSize(block: nat, total: nat): (n: nat)
    requires total <= block
    ensures total <= n < total + NODE_SIZE && n <= block
  {
    if block - total >= NODE_SIZE then total else block
  }

  function Taken(bs: seq<Block>, i: nat, total: nat): Block
    requires i < |bs| && total <= bs[i].size
  {
    Block(bs[i].addr, TakeSize(bs[i].size, total))
  }

  function Rest(bs: seq<Block>, i: nat, total: nat): seq<Block>
    requires i < |bs| && total <= bs[i].size
  {
    var n := TakeSize(bs[i].size, total);
    if n < bs[i].size then [Block(bs[i].addr + n, bs[i].size - n)] else []
  }

  function Take(bs: seq<Block>, i: nat, total: nat): seq<Block>
    requires i < |bs| && total <= bs[i].size
  {
    Splice(bs, i, i + 1, Rest(bs, i, total))
  }

  lemma TakeCovered(bs: seq<Block>, i: nat, total: nat, a: int)
    requires Sized(bs) && Separated(bs)
    requires i < |bs| && total <= bs[i].size
    ensures Covered(Take(bs, i, total), a) <==> Covered(bs, a) && !Taken(bs, i, total).Covers(a)
  {
    var rest := Rest(bs, i, total);
    SpliceCovered(bs, i, i + 1, rest, a);
    assert bs[i..i + 1] == [bs[i]];
    CoveredOne(bs[i], a);
    if rest != [] {
      CoveredOne(rest[0], a);
    }
  }

  lemma TakeSum(bs: seq<Block>, i: nat, total: nat)
    requires i < |bs| && total <= bs[i].size
    ensures Sum(Take(bs, i, total)) + Taken(bs, i, total).size == Sum(bs)
  {
    SpliceSum(bs, i, i + 1, Rest(bs, i, total));
    assert bs[i..i + 1] == [bs[i]];
    SumOne(bs[i]);
    RestSum(bs, i, total);
  }

  lemma RestSum(bs: seq<Block>, i: nat, total: nat)
    requires i < |bs| && total <= bs[i].size
    ensures Sum(Rest(bs, i, total)) + Taken(bs, i, total).size == bs[i].size
  {
    var n := TakeSize(bs[i].size, total);
    SumOne(Block(bs[i].addr + n, bs[i].size - n));
  }

  lemma TakeKeepsForm(bs: seq<Block>, i: nat, total: nat)
    requires Sized(bs) && Separated(bs)
    requires i < |bs| && NODE_SIZE <= total <= bs[i].size
    ensures Sized(Take(bs, i, total)) && Separated(Take(bs, i, total))
  {
    var rest := Rest(bs, i, total);
    if rest != [] {
      ReplacedForm(bs, Take(bs, i, total), i, i + 1, rest[0]);
    } else {
      RemovedForm(bs, Take(bs, i, total), i);
    }
  }

  // Whatever keeps apart from the block keeps apart from what is left of it.
  lemma TakeApart(bs: seq<Block>, i: nat, total: nat, b: Block)
    requires Sized(bs) && Separated(bs) && i < |bs| && NODE_SIZE <= total <= bs[i].size
    requires b == Taken(bs, i, total) || ApartFrom(bs, b)
    ensures ApartFrom(Take(bs, i, total), b)
  {
    var bs' := Take(bs, i, total);
    forall j | 0 <= j < |bs'|
      ensures Apart(bs'[j], b)
    {
      var k := if |bs'| == |bs| || j < i then j else j + 1;
      assert bs'[j] == bs[k] || (j == i && bs'[j] == Rest(bs, i, total)[0]);
      assert ApartFrom(bs, b) ==> Apart(bs[k], b);
    }
  }

  lemma TakeKeepsInv(free: seq<Block>, live: set<Block>, base: nat, size: nat, i: nat, total: nat)
    requires RegionInv(free, live, base, size)
    requires i < |free| && NODE_SIZE <= total <= free[i].size
    ensures Taken(free, i, total) !in live
    ensures RegionInv(Take(free, i, total), live + {Taken(free, i, total)}, base, size)
  {
    var free', c := Take(free, i, total), Taken(free, i, total);
    var live' := live + {c};
    TakenApart(free, live, base, size, i, total);
    TakeKeepsForm(free, i, total);
    TakeSum(free, i, total);
    SumLiveAdd(live, c);
    TakeCovers(free, live, base, size, i, total);
    forall b | b in live'
      ensures b.size >= NODE_SIZE && ApartFrom(free', b)
    {
      assert b in live ==> ApartFrom(free, b);
      TakeApart(free, i, total, b);
    }
  }

  lemma TakenApart(free: seq<Block>, live: set<Block>, base: nat, size: nat, i: nat, total: nat)
    requires RegionInv(free, live, base, size)
    requires i < |free| && NODE_SIZE <= total <= free[i].size
    ensures Taken(free, i, total) !in live
    ensures forall b :: b in live ==> Apart(b, Taken(free, i, total))
  {
    forall b | b in live
      ensures Apart(b, Taken(free, i, total)) && b != Taken(free, i, total)
    {
      assert ApartFrom(free, b) && Apart(free[i], b);
    }
  }

  lemma TakeCovers(free: seq<Block>, live: set<Block>, base: nat, size: nat, i: nat, total: nat)
    requires RegionInv(free, live, base, size)
    requires i < |free| && NODE_SIZE <= total <= free[i].size
    ensures forall a: int {:trigger Covered(Take(free, i, total), a)} ::
              base <= a < base + size <==>
              Covered(Take(free, i, total), a) || CoveredBy(live + {Taken(free, i, total)}, a)
  {
    var c := Taken(free, i, total);
    forall a: int
      ensures base <= a < base + size <==> Covered(Take(free, i, total), a) || CoveredBy(live + {c}, a)
    {
      TakeCovered(free, i, total, a);
      TakeLive(live, c, a);
      assert c.Covers(a) ==> free[i].Covers(a) && Covered(free, a);
      assert base <= a < base + size <==> Covered(free, a) || CoveredBy(live, a);
    }
  }

  lemma TakeLive(live: set<Block>, c: Block, a: int)
    ensures CoveredBy(live + {c}, a) <==> CoveredBy(live, a) || c.Covers(a)
  {
    if CoveredBy(live, a) {
      var b :| b in live && b.Covers(a);
      assert b in live + {c};
    }
    if c.Covers(a) {
      assert c in live + {c};
    }
  }

  // ---- Giving a chunk back

  // Position of address x in an ordered list: k blocks end before it, the
  // others begin after.
  ghost predicate Position(bs: seq<Block>, b: Block, k: nat) {
    && k <= |bs|
    && (forall i :: 0 <= i < k ==> bs[i].End() <= b.addr)
    && (forall i :: k <= i < |bs| ==> b.End() <= bs[i].addr)
  }

  // Insertion at k followed by merging with the touching neighbours.
  function Insert(bs: seq<Block>, b: Block, k: nat): seq<Block>
    requires k <= |bs|
  {
    Splice(bs, Lo(bs, b, k), Hi(bs, b, k), [Merged(bs, b, k)])
  }

  function Lo(bs: seq<Block>, b: Block, k: nat): nat
    requires k <= |bs|
  {
    if k > 0 && bs[k - 1].End() == b.addr then k - 1 else k
  }

  function Hi(bs: seq<Block>, b: Block, k: nat): nat
    requires k <= |bs|
  {
    if k < |bs| && b.End() == bs[k].addr then k + 1 else k
  }

  function Merged(bs: seq<Block>, b: Block, k: nat): Block
    requires k <= |bs|
  {
    var lo, hi := Lo(bs, b, k), Hi(bs, b, k);
    Block(if lo < k then bs[lo].addr else b.addr,
          (if lo < k then bs[lo].size else 0) + b.size + (if k < hi then bs[k].size else 0))
  }

  lemma InsertKeepsForm(bs: seq<Block>, b: Block, k: nat)
    requires Sized(bs) && Separated(bs) && Position(bs, b, k) && b.size >= NODE_SIZE
    ensures Sized(Insert(bs, b, k)) && Separated(Insert(bs, b, k))
  {
    MergedGaps(bs, b, k);
    SpliceReplaces(bs, Lo(bs, b, k), Hi(bs, b, k), Merged(bs, b, k));
    ReplacedForm(bs, Insert(bs, b, k), Lo(bs, b, k), Hi(bs, b, k), Merged(bs, b, k));
  }

  // The merged block touches neither of the blocks around it.
  lemma MergedGaps(bs: seq<Block>, b: Block, k: nat)
    requires Sized(bs) && Separated(bs) && Position(bs, b, k) && b.size >= NODE_SIZE
    ensures var lo, hi, m := Lo(bs, b, k), Hi(bs, b, k), Merged(bs, b, k);
            && m.size >= NODE_SIZE
            && (lo > 0 ==> bs[lo - 1].End() < m.addr) && (hi < |bs| ==> m.End() < bs[hi].addr)
  {
  }

  // The blocks that Insert replaces: the neighbours that touch b.
  lemma TouchingNeighbours(bs: seq<Block>, b: Block, k: nat)
    requires k <= |bs|
    ensures var lo, hi := Lo(bs, b, k), Hi(bs, b, k);
            bs[lo..hi] == (if lo < k then [bs[lo]] else []) + (if k < hi then [bs[k]] else [])
  {
  }

  lemma InsertCovered(bs: seq<Block>, b: Block, k: nat, a: int)
    requires k <= |bs|
    ensures Covered(Insert(bs, b, k), a) <==> Covered(bs, a) || b.Covers(a)
  {
    var lo, hi := Lo(bs, b, k), Hi(bs, b, k);
    SpliceCovered(bs, lo, hi, [Merged(bs, b, k)], a);
    CoveredOne(Merged(bs, b, k), a);
    TouchingNeighbours(bs, b, k);
    CoveredAppend(if lo < k then [bs[lo]] else [], if k < hi then [bs[k]] else [], a);
    if lo < k {
      CoveredOne(bs[lo], a);
    }
    if k < hi {
      CoveredOne(bs[k], a);
    }
  }

  lemma InsertSum(bs: seq<Block>, b: Block, k: nat)
    requires k <= |bs|
    ensures Sum(Insert(bs, b, k)) == Sum(bs) + b.size
  {
    var lo, hi := Lo(bs, b, k), Hi(bs, b, k);
    SpliceSum(bs, lo, hi, [Merged(bs, b, k)]);
    SumOne(Merged(bs, b, k));
    TouchingNeighbours(bs, b, k);
    SumAppend(if lo < k then [bs[lo]] else [], if k < hi then [bs[k]] else []);
    if lo < k {
      SumOne(bs[lo]);
    }
    if k < hi {
      SumOne(bs[k]);
    }
  }

  lemma InsertKeepsInv(free: seq<Block>, live: set<Block>, base: nat, size: nat, b: Block, k: nat)
    requires RegionInv(free, live, base, size)
    requires b in live && Position(free, b, k)
    ensures RegionInv(Insert(free, b, k), live - {b}, base, size)
  {
    var free', live' := Insert(free, b, k), live - {b};
    InsertKeepsForm(free, b, k);
    InsertSum(free, b, k);
    SumLiveRemove(live, b);
    InsertCovers(free, live, base, size, b, k);
    forall c | c in live'
      ensures ApartFrom(free', c)
    {
      InsertApart(free, b, k, c);
    }
  }

  lemma InsertCovers(free: seq<Block>, live: set<Block>, base: nat, size: nat, b: Block, k: nat)
    requires RegionInv(free, live, base, size) && b in live && k <= |free|
    ensures forall a: int {:trigger Covered(Insert(free, b, k), a)} ::
              base <= a < base + size <==> Covered(Insert(free, b, k), a) || CoveredBy(live - {b}, a)
  {
    forall a: int
      ensures base <= a < base + size <==> Covered(Insert(free, b, k), a) || CoveredBy(live - {b}, a)
    {
      InsertCovered(free, b, k, a);
      TakeLive(live - {b}, b, a);
      assert live - {b} + {b} == live;
    }
  }

  lemma InsertApart(bs: seq<Block>, b: Block, k: nat, c: Block)
    requires Sized(bs) && Separated(bs) && Position(bs, b, k)
    requires c.size >= NODE_SIZE && b.size >= NODE_SIZE && ApartFrom(bs, c) && Apart(b, c)
    ensures ApartFrom(Insert(bs, b, k), c)
  {
    var bs' := Insert(bs, b, k);
    InsertKeepsForm(bs, b, k);
    forall j | 0 <= j < |bs'|
      ensures Apart(bs'[j], c)
    {
      if !Apart(bs'[j], c) {
        var a := if bs'[j].addr <= c.addr then c.addr else bs'[j].addr;
        assert bs'[j].Covers(a) && c.Covers(a);
        InsertCovered(bs, b, k, a);
      }
    }
  }

  // The position in an ordered list, by counting.
  function Rank(bs: seq<Block>, addr: nat): (k: nat)
    ensures k <= |bs|
  {
    if bs == [] || addr <= bs[0].addr then 0 else 1 + Rank(bs[1..], addr)
  }

  lemma {:induction false} RankIsPosition(bs: seq<Block>, b: Block)
    requires Sized(bs) && Separated(bs) && ApartFrom(bs, b) && b.size > 0
    ensures Position(bs, b, Rank(bs, b.addr))
  {
    if bs == [] {
    } else {
      assert Apart(bs[0], b);
      if bs[0].addr < b.addr {
        forall i | 0 <= i < |bs[1..]|
          ensures Apart(bs[1..][i], b)
        {
          assert Apart(bs[i + 1], b);
        }
        RankIsPosition(bs[1..], b);
        var k := Rank(bs[1..], b.addr);
        assert forall i :: 1 <= i < |bs| ==> bs[i] == bs[1..][i - 1];
      }
    }
  }

  // The list after a chunk is given back.
  function Release(bs: seq<Block>, b: Block): seq<Block> {
    Insert(bs, b, Rank(bs, b.addr))
  }

  lemma ReleaseKeepsInv(free: seq<Block>, live: set<Block>, base: nat, size: nat, b: Block)
    requires RegionInv(free, live, base, size) && b in live
    ensures RegionInv(Release(free, b), live - {b}, base, size)
  {
    RankIsPosition(free, b);
    InsertKeepsInv(free, live, base, size, b, Rank(free, b.addr));
  }

  // ---- The search of find_smallest_node

  // No free block can hold n bytes.
  ghost predicate NoFit(bs: seq<Block>, n: nat) {
    forall k :: 0 <= k < |bs| ==> bs[k].size < n
  }

  ghost predicate IsFirstFit(bs: seq<Block>, n: nat, f: nat) {
    && f < |bs| && bs[f].size >= n
    && (forall k :: 0 <= k < f ==> bs[k].size < n)
  }

  // i is the last fitting block of the scanned range [f, stop): each scanned
  // block is smaller than every fit before it.
  ghost predicate Scanned(bs: seq<Block>, n: nat, i: nat, f: nat, stop: nat) {
    && IsFirstFit(bs, n, f)
    && f <= i < stop <= |bs|
    && bs[i].size >= n
    && (forall j, k :: f <= j < k < stop && bs[j].size >= n ==> bs[k].size < bs[j].size)
    && (forall k :: i < k < stop ==> bs[k].size < n)
  }

  // The scan stops at the first block that is not smaller than the best so far.
  ghost predicate ChosenVia(bs: seq<Block>, n: nat, i: nat, f: nat, stop: nat) {
    Scanned(bs, n, i, f, stop) && (stop < |bs| ==> bs[stop].size >= bs[i].size)
  }

  lemma ScanStep(bs: seq<Block>, n: nat, i: nat, f: nat, stop: nat)
    requires Scanned(bs, n, i, f, stop) && stop < |bs| && bs[stop].size < bs[i].size
    ensures Scanned(bs, n, if bs[stop].size >= n then stop else i, f, stop + 1)
  {
  }

  ghost predicate Chosen(bs: seq<Block>, n: nat, i: nat) {
    exists f: nat, stop: nat :: ChosenVia(bs, n, i, f, stop)
  }

  // The search has one possible outcome.
  lemma ChosenUnique(bs: seq<Block>, n: nat, i: nat, j: nat)
    requires Chosen(bs, n, i) && Chosen(bs, n, j)
    ensures i == j
  {
    var f: nat, s: nat :| ChosenVia(bs, n, i, f, s);
    var g: nat, t: nat :| ChosenVia(bs, n, j, g, t);
    assert f == g;
  }

  // No larger than the first fit, and smallest among the fits it looked at.
  lemma ChosenIsSmallest(bs: seq<Block>, n: nat, i: nat, f: nat, stop: nat)
    requires ChosenVia(bs, n, i, f, stop)
    ensures bs[i].size <= bs[f].size
    ensures forall k :: f <= k < stop && bs[k].size >= n ==> bs[i].size <= bs[k].size
  {
  }

  ghost predicate SmallestFit(bs: seq<Block>, n: nat, m: nat) {
    && m < |bs| && bs[m].size >= n
    && forall k :: 0 <= k < |bs| && bs[k].size >= n ==> bs[m].size <= bs[k].size
  }

  // From the first fit up to m, every block is smaller than the fits before it.
  ghost predicate Descends(bs: seq<Block>, n: nat, f: nat, m: nat) {
    f <= m < |bs| && forall j, k :: f <= j < k <= m && bs[j].size >= n ==> bs[k].size < bs[j].size
  }

  // The search finds a smallest fit of the list if and only if the list descends from
  // the first fit to one.
  lemma FindsSmallestExactly(bs: seq<Block>, n: nat, i: nat, f: nat)
    requires Chosen(bs, n, i) && IsFirstFit(bs, n, f)
    ensures SmallestFit(bs, n, i) <==> exists m: nat :: SmallestFit(bs, n, m) && Descends(bs, n, f, m)
  {
    var g: nat, stop: nat :| ChosenVia(bs, n, i, g, stop);
    assert g == f;
    if SmallestFit(bs, n, i) {
      assert Descends(bs, n, f, i);
    }
    if m: nat :| SmallestFit(bs, n, m) && Descends(bs, n, f, m) {
      assert m < stop;
      assert bs[i].size <= bs[m].size;
    }
  }
}
