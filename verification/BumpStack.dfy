// memory/stack.c: the bump allocator whose top and committed top are moved by atomic
// operations. One event is one atomic operation or one call of ms_commit.

module BumpStack {
  import opened Bits
  import opened Results

  // One call of ms_stack_malloc: the range that its fetch-add took, and whether the
  // call has returned. The index of a call is the order of the fetch-adds.
  datatype Alloc = Alloc(ptr: nat, size: nat, returned: bool) {
    function End(): nat { ptr + size }
  }

  datatype Pc =
    | Idle
    | Added(k: nat)
    | Loaded(k: nat, seen: nat)
    | Committed(k: nat, seen: nat)
    | Ready(k: nat)
    | Trapped
  {
    predicate InCall() { Added? || Loaded? || Committed? || Ready? }
  }

  datatype State = State(base: nat, limit: nat, top: nat, committedTop: nat,
                         committed: set<int>, allocs: seq<Alloc>, pcs: seq<Pc>)

  datatype Event =
    | FetchAdd(t: nat, size: nat, alignment: nat)
    | Load(t: nat)
    | Commit(t: nat, success: bool)
    | Swap(t: nat)
    | Return(t: nat)

  // What a call takes from the stack: alignments above the default get slack.
  function Reserved(size: nat, alignment: nat): nat
    requires 1 <= alignment && size + alignment - 1 < TWO64
  {
    Choose(size, size + alignment - 1, alignment <= 8)
  }

  predicate Within(lo: nat, hi: nat, x: int) {
    lo <= x < hi
  }

  function Bytes(lo: nat, hi: nat): set<int> {
    set x: int | lo <= x < hi && Within(lo, hi, x)
  }

  // ms_commit can only succeed inside the reservation; a failure trips the assertion.
  function Next(s: State, e: Event): Option<State> {
    if e.t >= |s.pcs| then None
    else
      var pc := s.pcs[e.t];
      match e
      case FetchAdd(t, size, alignment) =>
        if pc.Idle? && 1 <= alignment && size + alignment - 1 < TWO64 then
          var n := Reserved(size, alignment);
          Some(s.(top := s.top + n, allocs := s.allocs + [Alloc(s.top, n, false)],
                  pcs := s.pcs[t := Added(|s.allocs|)]))
        else None
      case Load(t) =>
        if pc.Added? && pc.k < |s.allocs| then
          var behind := s.allocs[pc.k].End() > s.committedTop;
          Some(s.(pcs := s.pcs[t := if behind then Loaded(pc.k, s.committedTop) else Ready(pc.k)]))
        else None
      case Commit(t, success) =>
        if pc.Loaded? && pc.k < |s.allocs| then
          var end := s.allocs[pc.k].End();
          if !success then Some(s.(pcs := s.pcs[t := Trapped]))
          else if end <= s.limit then
            Some(s.(committed := s.committed + Bytes(pc.seen, end), pcs := s.pcs[t := Committed(pc.k, pc.seen)]))
          else None
        else None
      case Swap(t) =>
        if pc.Committed? && pc.k < |s.allocs| then
          Some(s.(committedTop := if s.committedTop == pc.seen then s.allocs[pc.k].End() else s.committedTop,
                  pcs := s.pcs[t := Ready(pc.k)]))
        else None
      case Return(t) =>
        if pc.Ready? && pc.k < |s.allocs| then
          Some(s.(allocs := s.allocs[pc.k := s.allocs[pc.k].(returned := true)], pcs := s.pcs[t := Idle]))
        else None
  }

  function Run(s: State, es: seq<Event>): Option<State>
    decreases |es|
  {
    if es == [] then Some(s)
    else
      match Next(s, es[0])
      case None => None
      case Some(s') => Run(s', es[1..])
  }

  // ms_stack_construct
  ghost predicate Initial(s: State) {
    && s.top == s.committedTop == s.base <= s.limit && s.committed == {} && s.allocs == []
    && forall t :: 0 <= t < |s.pcs| ==> s.pcs[t].Idle?
  }

  // ---- What every interleaving keeps

  // Nothing is both taken twice and left out: the ranges tile [base, top) in order.
  ghost predicate Stacked(s: State) {
    && s.base <= s.top
    && (forall k :: 0 <= k < |s.allocs| ==> s.base <= s.allocs[k].ptr && s.allocs[k].End() <= s.top)
    && (forall j, k :: 0 <= j < k < |s.allocs| ==> s.allocs[j].End() <= s.allocs[k].ptr)
  }

  ghost predicate AllCommitted(s: State, lo: int, hi: int) {
    forall x: int :: lo <= x < hi ==> x in s.committed
  }

  ghost predicate CallMatches(s: State, t: nat)
    requires t < |s.pcs|
  {
    var pc := s.pcs[t];
    pc.InCall() ==>
      && pc.k < |s.allocs| && !s.allocs[pc.k].returned
      && (pc.Loaded? || pc.Committed? ==> s.base <= pc.seen <= s.committedTop && pc.seen < s.allocs[pc.k].End())
      && (pc.Committed? ==> AllCommitted(s, s.base, s.allocs[pc.k].End()) && s.allocs[pc.k].End() <= s.limit)
      && (pc.Ready? ==> AllCommitted(s, s.base, s.allocs[pc.k].End()))
  }

  ghost predicate OwnRange(pc: Pc, other: Pc) {
    pc.InCall() && other.InCall() ==> pc.k != other.k
  }

  ghost predicate Inv(s: State) {
    && Stacked(s)
    && s.base <= s.committedTop <= s.limit && AllCommitted(s, s.base, s.committedTop)
    && (forall x :: x in s.committed ==> s.base <= x < s.top && x < s.limit)
    && (forall k :: 0 <= k < |s.allocs| && s.allocs[k].returned ==> AllCommitted(s, s.base, s.allocs[k].End()))
    && (forall t :: 0 <= t < |s.pcs| ==> CallMatches(s, t))
    && (forall t, u :: 0 <= t < u < |s.pcs| ==> OwnRange(s.pcs[t], s.pcs[u]))
  }

  lemma ReservedCovers(size: nat, alignment: nat)
    requires 1 <= alignment && size + alignment - 1 < TWO64
    ensures Reserved(size, alignment) == if alignment <= 8 then size else size + alignment - 1
  {
    ChooseCorrect(size, size + alignment - 1, alignment <= 8);
  }

  // The slack is enough to find an aligned stretch of the requested size, for an
  // alignment above the default.
  lemma SlackHoldsAligned(ptr: nat, size: nat, alignment: nat)
    requires 8 < alignment && size + alignment - 1 < TWO64
    ensures ptr <= RoundUp(ptr, alignment) && RoundUp(ptr, alignment) + size <= ptr + Reserved(size, alignment)
  {
    ReservedCovers(size, alignment);
  }

  lemma StepIsMonotone(s: State, e: Event)
    requires Inv(s) && Next(s, e).Some?
    ensures var s' := Next(s, e).value;
      s'.committedTop >= s.committedTop && s'.committed >= s.committed && s'.top >= s.top && |s'.allocs| >= |s.allocs|
  {
    assert CallMatches(s, e.t);
  }

  lemma StepKeepsStacked(s: State, e: Event)
    requires Inv(s) && Next(s, e).Some?
    ensures Stacked(Next(s, e).value)
  {
  }

  lemma StepKeepsCommitted(s: State, e: Event)
    requires Inv(s) && Next(s, e).Some?
    ensures var s' := Next(s, e).value;
      && s'.base <= s'.committedTop <= s'.limit && AllCommitted(s', s'.base, s'.committedTop)
      && (forall x :: x in s'.committed ==> s'.base <= x < s'.top && x < s'.limit)
      && (forall k :: 0 <= k < |s'.allocs| && s'.allocs[k].returned ==> AllCommitted(s', s'.base, s'.allocs[k].End()))
  {
    assert CallMatches(s, e.t);
  }

  lemma StepKeepsCalls(s: State, e: Event, t: nat)
    requires Inv(s) && Next(s, e).Some? && t < |s.pcs|
    ensures CallMatches(Next(s, e).value, t)
  {
    assert CallMatches(s, e.t) && CallMatches(s, t);
    StepIsMonotone(s, e);
    assert t < e.t ==> OwnRange(s.pcs[t], s.pcs[e.t]);
    assert e.t < t ==> OwnRange(s.pcs[e.t], s.pcs[t]);
  }

  lemma StepKeepsOwnRange(s: State, e: Event, t: nat, u: nat)
    requires Inv(s) && Next(s, e).Some? && t < u < |s.pcs|
    ensures OwnRange(Next(s, e).value.pcs[t], Next(s, e).value.pcs[u])
  {
    assert CallMatches(s, t) && CallMatches(s, u) && OwnRange(s.pcs[t], s.pcs[u]);
  }

  lemma StepKeepsInv(s: State, e: Event)
    requires Inv(s) && Next(s, e).Some?
    ensures Inv(Next(s, e).value)
  {
    var s' := Next(s, e).value;
    StepKeepsStacked(s, e);
    StepKeepsCommitted(s, e);
    forall t | 0 <= t < |s'.pcs| ensures CallMatches(s', t) {
      StepKeepsCalls(s, e, t);
    }
    forall t, u | 0 <= t < u < |s'.pcs| ensures OwnRange(s'.pcs[t], s'.pcs[u]) {
      StepKeepsOwnRange(s, e, t, u);
    }
  }

  lemma {:induction false} RunKeepsInv(s: State, es: seq<Event>)
    requires Inv(s) && Run(s, es).Some?
    ensures var s' := Run(s, es).value;
      Inv(s') && s'.committedTop >= s.committedTop && s'.committed >= s.committed && s'.top >= s.top
    decreases |es|
  {
    if es != [] {
      StepKeepsInv(s, es[0]);
      StepIsMonotone(s, es[0]);
      RunKeepsInv(Next(s, es[0]).value, es[1..]);
    }
  }

  // Any interleaving of any number of threads: the ranges handed out are pairwise
  // disjoint, everything below the committed top is committed, and every range is
  // wholly committed and inside the reservation when its call returns, whether its
  // compare-exchange won or lost.
  lemma AnyInterleaving(s: State, es: seq<Event>)
    requires Initial(s) && Run(s, es).Some?
    ensures var s' := Run(s, es).value;
      && (forall j, k :: 0 <= j < k < |s'.allocs| ==> s'.allocs[j].End() <= s'.allocs[k].ptr)
      && AllCommitted(s', s'.base, s'.committedTop)
      && (forall k :: 0 <= k < |s'.allocs| && s'.allocs[k].returned ==>
            AllCommitted(s', s'.allocs[k].ptr, s'.allocs[k].End()))
      && (forall x :: x in s'.committed ==> s'.base <= x < s'.top && x < s'.limit)
  {
    RunKeepsInv(s, es);
  }

  // The committed top never moves down, and no byte loses its commitment.
  lemma NeverUncommits(s: State, es: seq<Event>, fs: seq<Event>)
    requires Initial(s) && Run(s, es).Some? && Run(Run(s, es).value, fs).Some?
    ensures var mid, s' := Run(s, es).value, Run(Run(s, es).value, fs).value;
      mid.committedTop <= s'.committedTop && mid.committed <= s'.committed
  {
    RunKeepsInv(s, es);
    RunKeepsInv(Run(s, es).value, fs);
  }

  // A lost compare-exchange means that another call has moved the top past what this
  // one saw; a won one moves it to the end of this call's range.
  lemma SwapAdvances(s: State, t: nat)
    requires Inv(s) && Next(s, Swap(t)).Some?
    ensures var k, seen, top := s.pcs[t].k, s.pcs[t].seen, Next(s, Swap(t)).value.committedTop;
      && top > seen
      && (s.committedTop == seen ==> top == s.allocs[k].End())
      && (s.committedTop != seen ==> top == s.committedTop)
  {
    assert CallMatches(s, t);
  }

  lemma {:induction false} RunThen(s: State, es: seq<Event>, mid: State, e: Event) returns (es': seq<Event>, s': State)
    requires Run(s, es) == Some(mid) && Next(mid, e).Some?
    ensures es' == es + [e] && s' == Next(mid, e).value && Run(s, es') == Some(s')
    decreases |es|
  {
    es', s' := es + [e], Next(mid, e).value;
    if es == [] {
      assert es'[1..] == [];
    } else {
      var _, _ := RunThen(Next(s, es[0]).value, es[1..], mid, e);
      assert es'[1..] == es[1..] + [e];
    }
  }

  // A thread traps if and only if one of its commits fails; nothing but its position
  // changes then, and it takes no further step.
  lemma {:induction false} TrapsExactly(s: State, es: seq<Event>, t: nat)
    requires Run(s, es).Some? && t < |s.pcs| == |Run(s, es).value.pcs|
    ensures Run(s, es).value.pcs[t].Trapped? <==> s.pcs[t].Trapped? || Commit(t, false) in es
    decreases |es|
  {
    if es != [] {
      var s' := Next(s, es[0]).value;
      TrapsExactly(s', es[1..], t);
      assert es == [es[0]] + es[1..];
    }
  }

  lemma TrapTouchesNothing(s: State, t: nat)
    requires t < |s.pcs|
    ensures Next(s, Commit(t, false)).Some? ==> Next(s, Commit(t, false)).value == s.(pcs := s.pcs[t := Trapped])
    ensures s.pcs[t].Trapped? ==> forall e: Event :: e.t == t ==> Next(s, e).None?
  {
  }

  // A call that nobody interrupts, inside the reservation: it gets the old top, moves
  // the top by what it reserves, and commits no more than is missing.
  lemma CallAlone(s: State, t: nat, size: nat, alignment: nat) returns (es: seq<Event>, s': State)
    requires Inv(s) && t < |s.pcs| && s.pcs[t].Idle? && 1 <= alignment && size + alignment - 1 < TWO64
    requires s.top + Reserved(size, alignment) <= s.limit
    ensures Run(s, es) == Some(s') && s'.pcs == s.pcs
    ensures var end := s.top + Reserved(size, alignment);
      && s'.top == end && s'.allocs == s.allocs + [Alloc(s.top, end - s.top, true)]
      && s'.committedTop == (if end > s.committedTop then end else s.committedTop)
      && s'.committed == s.committed + Bytes(s.committedTop, end)
  {
    var n := Reserved(size, alignment);
    es, s' := RunThen(s, [], s, FetchAdd(t, size, alignment));
    es, s' := RunThen(s, es, s', Load(t));
    if s.top + n > s.committedTop {
      es, s' := RunThen(s, es, s', Commit(t, true));
      es, s' := RunThen(s, es, s', Swap(t));
    }
    es, s' := RunThen(s, es, s', Return(t));
    assert s'.pcs == s.pcs;
  }
}
