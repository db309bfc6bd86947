// coroutine.c: a scheduler that steps its coroutines from the last to the first and
// fills the slot of a completed one with the last one.

module Coroutines {

  const MAX: nat := 1024
  const BEGIN: nat := 0
  const COMPLETED: nat := 0xffff_ffff

  datatype Coroutine<H, C> = Coroutine(handler: H, context: C, status: nat)

  // What one call of a handler does: to the world outside the scheduler, its new
  // status, and the coroutines it schedules meanwhile.
  datatype Step<W, H, C> = Step(world: W, status: nat, spawned: seq<Spawn<H, C>>)

  type Handlers<!W, !H, !C> = (W, Coroutine<H, C>) -> Step<W, H, C>

  datatype Spawn<H, C> = Spawn(handler: H, context: C)

  // One call as it happened: in which world and among how many coroutines, the
  // coroutine as it was, its new status, and those of the scheduled coroutines that
  // found a slot
  datatype Call<W, H, C> = Call(world: W, count: nat, co: Coroutine<H, C>, status: nat,
                                accepted: seq<Coroutine<H, C>>) {
    // What the scheduler keeps because of this call
    ghost function Left(): multiset<Coroutine<H, C>> {
      multiset(accepted) + (if status == COMPLETED then multiset{} else multiset{co.(status := status)})
    }

    ghost function CountAfter(): int {
      count + |accepted| - (if status == COMPLETED then 1 else 0)
    }
  }

  // The coroutines that find a slot when count are there: as many as fit, in order.
  function Fitting<H, C>(spawned: seq<Spawn<H, C>>, count: nat): (accepted: seq<Coroutine<H, C>>) {
    if spawned == [] || count >= MAX then []
    else [Coroutine(spawned[0].handler, spawned[0].context, BEGIN)] + Fitting(spawned[1..], count + 1)
  }

  lemma {:induction false} FittingIsPrefix<H, C>(spawned: seq<Spawn<H, C>>, count: nat)
    ensures |Fitting(spawned, count)| ==
              if count >= MAX then 0 else if |spawned| <= MAX - count then |spawned| else MAX - count
    ensures forall k :: 0 <= k < |Fitting(spawned, count)| ==>
              Fitting(spawned, count)[k] == Coroutine(spawned[k].handler, spawned[k].context, BEGIN)
  {
    if spawned != [] && count < MAX {
      FittingIsPrefix(spawned[1..], count + 1);
    }
  }

  // ---- What a round should do

  ghost function CallOf<W, H, C>(run: Handlers<W, H, C>, w: W, count: nat, co: Coroutine<H, C>): Call<W, H, C> {
    Call(w, count, co, run(w, co).status, Fitting(run(w, co).spawned, count))
  }

  // The world that the k-th call of a round meets, and how many coroutines there are
  ghost function WorldAt<W, H, C>(run: Handlers<W, H, C>, w: W, calls: seq<Call<W, H, C>>, k: nat): W
    requires k <= |calls|
  {
    if k == 0 then w else run(calls[k - 1].world, calls[k - 1].co).world
  }

  ghost function CountAt<W, H, C>(count: nat, calls: seq<Call<W, H, C>>, k: nat): int
    requires k <= |calls|
  {
    if k == 0 then count else calls[k - 1].CountAfter()
  }

  // The calls are the beginning of a round over entry: one call for each coroutine,
  // from the last to the first, with the status it had at entry, in the world that the
  // call before left.
  ghost predicate Round<W, H, C>(run: Handlers<W, H, C>, w: W, entry: seq<Coroutine<H, C>>, calls: seq<Call<W, H, C>>) {
    |calls| <= |entry| && forall k :: 0 <= k < |calls| ==> RoundAt(run, w, entry, calls, k)
  }

  ghost predicate RoundAt<W, H, C>(run: Handlers<W, H, C>, w: W, entry: seq<Coroutine<H, C>>,
                                   calls: seq<Call<W, H, C>>, k: nat)
    requires k < |calls| <= |entry|
  {
    var count := CountAt(|entry|, calls, k);
    count >= 0 && calls[k] == CallOf(run, WorldAt(run, w, calls, k), count, entry[|entry| - 1 - k])
  }

  ghost function Survivors<W, H, C>(calls: seq<Call<W, H, C>>): multiset<Coroutine<H, C>> {
    if calls == [] then multiset{} else Survivors(calls[..|calls| - 1]) + calls[|calls| - 1].Left()
  }

  lemma RoundStep<W, H, C>(run: Handlers<W, H, C>, w: W, entry: seq<Coroutine<H, C>>,
                           calls: seq<Call<W, H, C>>, call: Call<W, H, C>)
    requires Round(run, w, entry, calls) && |calls| < |entry| && CountAt(|entry|, calls, |calls|) >= 0
    requires var count := CountAt(|entry|, calls, |calls|);
      call == CallOf(run, WorldAt(run, w, calls, |calls|), count, entry[|entry| - 1 - |calls|])
    ensures Round(run, w, entry, calls + [call])
  {
    var more := calls + [call];
    forall k | 0 <= k < |more| ensures RoundAt(run, w, entry, more, k) {
      if k < |calls| {
        assert RoundAt(run, w, entry, calls, k);
      }
    }
  }

  lemma SurvivorsStep<W, H, C>(calls: seq<Call<W, H, C>>, call: Call<W, H, C>)
    ensures Survivors(calls + [call]) == Survivors(calls) + call.Left()
  {
    var more := calls + [call];
    assert more[..|more| - 1] == calls;
  }

  // Wherever a coroutine is that fits, with the status it can have there, a call brings it
  // closer to completion; whatever the call schedules fits and has fewer rounds ahead than
  // the caller; and no other that fits gets further away.
  ghost predicate Settles<W(!new), H(!new), C(!new)>(run: Handlers<W, H, C>, rank: (W, Coroutine<H, C>) -> nat,
                                                     fits: (W, Coroutine<H, C>) -> bool) {
    forall w, c {:trigger SettlesAt(run, rank, fits, w, c)} :: fits(w, c) ==> SettlesAt(run, rank, fits, w, c)
  }

  ghost predicate SettlesAt<W, H(!new), C(!new)>(run: Handlers<W, H, C>, rank: (W, Coroutine<H, C>) -> nat,
                                                 fits: (W, Coroutine<H, C>) -> bool, w: W, c: Coroutine<H, C>) {
    var step := run(w, c);
    && (step.status != COMPLETED ==> Closer(rank, fits, step.world, c.(status := step.status), rank(w, c)))
    && (forall s :: s in step.spawned ==>
          Closer(rank, fits, step.world, Coroutine(s.handler, s.context, BEGIN), rank(w, c)))
    && forall d {:trigger fits(w, d)} :: fits(w, d) ==> fits(step.world, d) && rank(step.world, d) <= rank(w, d)
  }

  ghost predicate Closer<W, H, C>(rank: (W, Coroutine<H, C>) -> nat, fits: (W, Coroutine<H, C>) -> bool,
                                  w: W, c: Coroutine<H, C>, m: nat) {
    fits(w, c) && rank(w, c) < m
  }

  // What the scheduler keeps because of one call
  lemma LeftIsCloser<W(!new), H(!new), C(!new)>(run: Handlers<W, H, C>, rank: (W, Coroutine<H, C>) -> nat,
                                                fits: (W, Coroutine<H, C>) -> bool, call: Call<W, H, C>,
                                                c: Coroutine<H, C>)
    requires SettlesAt(run, rank, fits, call.world, call.co) && c in call.Left()
    requires call == CallOf(run, call.world, call.count, call.co)
    ensures Closer(rank, fits, run(call.world, call.co).world, c, rank(call.world, call.co))
  {
    var step := run(call.world, call.co);
    FittingIsPrefix(step.spawned, call.count);
    if c in multiset(call.accepted) {
      var k :| 0 <= k < |call.accepted| && call.accepted[k] == c;
    }
  }

  lemma {:induction false} RoundLowersRanks<W(!new), H(!new), C(!new)>(run: Handlers<W, H, C>,
      rank: (W, Coroutine<H, C>) -> nat, fits: (W, Coroutine<H, C>) -> bool,
      w: W, entry: seq<Coroutine<H, C>>, calls: seq<Call<W, H, C>>, m: nat)
    requires Settles(run, rank, fits) && Round(run, w, entry, calls)
    requires forall c :: c in multiset(entry) ==> fits(w, c) && rank(w, c) <= m
    ensures var w' := WorldAt(run, w, calls, |calls|);
      && (forall d {:trigger fits(w, d)} :: fits(w, d) ==> fits(w', d) && rank(w', d) <= rank(w, d))
      && (forall c :: c in Survivors(calls) ==> Closer(rank, fits, w', c, m))
    decreases |calls|
  {
    if calls != [] {
      var n := |calls| - 1;
      var last, before := calls[n], calls[..n];
      var w', w'' := WorldAt(run, w, before, n), WorldAt(run, w, calls, n + 1);
      forall k | 0 <= k < n ensures RoundAt(run, w, entry, before, k) {
        assert RoundAt(run, w, entry, calls, k);
      }
      RoundLowersRanks(run, rank, fits, w, entry, before, m);
      assert RoundAt(run, w, entry, calls, n);
      assert WorldAt(run, w, calls, n) == w' == last.world;
      assert last.co in multiset(entry);
      assert fits(w, last.co);
      assert SettlesAt(run, rank, fits, w', last.co);
      forall c | c in Survivors(calls)
        ensures Closer(rank, fits, w'', c, m)
      {
        if c in last.Left() {
          LeftIsCloser(run, rank, fits, last, c);
        } else {
          assert c in Survivors(before) && fits(w', c);
        }
      }
    }
  }

  // ---- The scheduler

  class Scheduler<W(!new), H(!new), C(!new)> {
    const coroutines: array<Coroutine<H, C>>
    var count: nat
    var world: W
    const run: Handlers<W, H, C>

    // Every call of a handler so far
    ghost var history: seq<Call<W, H, C>>

    ghost predicate Valid()
      reads this
    {
      coroutines.Length == MAX && count <= MAX
    }

    // ms_co_scheduler_construct
    constructor (coroutines: array<Coroutine<H, C>>, world: W, run: Handlers<W, H, C>)
      requires coroutines.Length == MAX
      ensures Valid() && count == 0 && history == [] && this.coroutines == coroutines && this.world == world
      ensures this.run == run
    {
      this.coroutines, this.world, this.run, count := coroutines, world, run, 0;
      history := [];
    }

    ghost function Live(): seq<Coroutine<H, C>>
      requires Valid()
      reads this, coroutines
    {
      coroutines[..count]
    }

    // ms_co_schedule: a new coroutine starts last, if a slot is left.
    method Schedule(handler: H, context: C) returns (scheduled: bool)
      requires Valid()
      modifies this`count, coroutines
      ensures Valid()
      ensures scheduled <==> old(count) < 1024
      ensures Live() == if scheduled then old(Live()) + [Coroutine(handler, context, 0)] else old(Live())
    {
      if count < MAX {
        coroutines[count] := Coroutine(handler, context, BEGIN);
        count := count + 1;
        return true;
      }
      scheduled := false;
    }

    method ScheduleAll(spawned: seq<Spawn<H, C>>)
      requires Valid()
      modifies this`count, coroutines
      ensures Valid() && Live() == old(Live()) + Fitting(spawned, old(count))
    {
      var i := 0;
      while i < |spawned|
        invariant 0 <= i <= |spawned| && Valid()
        invariant Live() + Fitting(spawned[i..], count) == old(Live()) + Fitting(spawned, old(count))
      {
        ghost var before := Live();
        var _ := Schedule(spawned[i].handler, spawned[i].context);
        FittingIsPrefix(spawned[i + 1..], MAX);
        assert spawned[i..][1..] == spawned[i + 1..];
        assert Live() + Fitting(spawned[i + 1..], count) == before + Fitting(spawned[i..], |before|);
        i := i + 1;
      }
    }

    // ms_co_execute: one call of the handler, whose result becomes the status.
    method Execute(i: nat) returns (completed: bool)
      requires Valid() && i < count
      modifies this, coroutines
      ensures Valid() && old(count) <= count
      ensures var co, step := old(coroutines[i]), run(old(world), old(coroutines[i]));
        && completed == (step.status == 0xffff_ffff) && world == step.world
        && Live() == old(Live())[i := co.(status := step.status)] + Fitting(step.spawned, old(count))
        && history == old(history) + [CallOf(run, old(world), old(count), co)]
    {
      var co := coroutines[i];
      var step := run(world, co);
      world := step.world;
      ScheduleAll(step.spawned);
      history := history + [CallOf(run, old(world), old(count), co)];
      assert Live()[i] == co;
      coroutines[i] := co.(status := step.status);
      completed := step.status == COMPLETED;
    }

    // remove_coroutine: the last one takes the slot.
    method Remove(i: nat)
      requires Valid() && i < count
      modifies this`count, coroutines
      ensures Valid() && count == old(count) - 1
      ensures Live() == Removed(old(Live()), i)
    {
      count := count - 1;
      coroutines[i] := coroutines[count];
    }

    // ms_co_scheduler_run_once
    method RunOnce() returns (ghost calls: seq<Call<W, H, C>>)
      requires Valid()
      modifies this, coroutines
      ensures Valid()
      ensures |calls| == old(count) && history == old(history) + calls
      ensures Round(run, old(world), old(Live()), calls)
      ensures world == WorldAt(run, old(world), calls, |calls|)
      ensures multiset(Live()) == Survivors(calls)
    {
      ghost var entry := Live();
      calls := [];
      RoundBegins();
      var i: int := count - 1;
      while i >= 0
        invariant i >= -1 && InRound(old(world), old(history), entry, calls, i + 1)
      {
        calls := NextTurn(old(world), old(history), entry, calls, i);
        i := i - 1;
      }
      RoundEnds(old(world), old(history), entry, calls);
    }

    // In the middle of a round, the first left coroutines of entry still to be called
    ghost predicate InRound(w: W, past: seq<Call<W, H, C>>, entry: seq<Coroutine<H, C>>, calls: seq<Call<W, H, C>>,
                            left: nat)
      reads this, coroutines
    {
      && Valid() && left <= count && |calls| + left == |entry|
      && (forall k :: 0 <= k < left ==> Live()[k] == entry[k])
      && history == past + calls && Round(run, w, entry, calls)
      && world == WorldAt(run, w, calls, |calls|) && count == CountAt(|entry|, calls, |calls|)
      && multiset(Live()[left..]) == Survivors(calls)
    }

    lemma RoundBegins()
      requires Valid()
      ensures InRound(world, history, Live(), [], count)
    {
      assert Live()[count..] == [];
    }

    lemma RoundEnds(w: W, past: seq<Call<W, H, C>>, entry: seq<Coroutine<H, C>>, calls: seq<Call<W, H, C>>)
      requires InRound(w, past, entry, calls, 0)
      ensures Valid() && |calls| == |entry| && history == past + calls
      ensures Round(run, w, entry, calls) && world == WorldAt(run, w, calls, |calls|)
      ensures multiset(Live()) == Survivors(calls)
    {
      assert Live()[0..] == Live();
    }

    method NextTurn(ghost w: W, ghost past: seq<Call<W, H, C>>, ghost entry: seq<Coroutine<H, C>>,
                    ghost calls: seq<Call<W, H, C>>, i: nat)
      returns (ghost more: seq<Call<W, H, C>>)
      requires InRound(w, past, entry, calls, i + 1)
      modifies this, coroutines
      ensures InRound(w, past, entry, more, i)
    {
      RoundStep(run, w, entry, calls, CallOf(run, world, count, Live()[i]));
      ghost var call := Turn(i);
      SurvivorsStep(calls, call);
      more := calls + [call];
    }

    // ms_co_scheduler_loop: runs until nothing is left, which takes at most one round
    // more than any coroutine has ahead, with all that it schedules in turn.
    method Loop(ghost rank: (W, Coroutine<H, C>) -> nat, ghost fits: (W, Coroutine<H, C>) -> bool, ghost bound: nat)
      returns (ghost rounds: nat)
      requires Valid() && Settles(run, rank, fits)
      requires forall c :: c in multiset(Live()) ==> fits(world, c) && rank(world, c) <= bound
      modifies this, coroutines
      ensures Valid() && count == 0 && rounds <= bound + 1
    {
      ghost var m: int := bound;
      rounds := 0;
      while count > 0
        invariant Valid() && -1 <= m && rounds + m == bound
        invariant forall c :: c in multiset(Live()) ==> fits(world, c) && rank(world, c) <= m
        decreases m
      {
        assert Live()[0] in multiset(Live());
        ghost var w, entry := world, Live();
        ghost var calls := RunOnce();
        RoundLowersRanks(run, rank, fits, w, entry, calls, m);
        m, rounds := m - 1, rounds + 1;
      }
    }

    // One turn of the loop: the coroutine in slot i is called and, if it completed,
    // replaced by the last one. The slots below keep their coroutines.
    method Turn(i: nat) returns (ghost call: Call<W, H, C>)
      requires Valid() && i < count
      modifies this, coroutines
      ensures Valid() && i <= count
      ensures call == CallOf(run, old(world), old(count), old(Live())[i]) && history == old(history) + [call]
      ensures world == run(old(world), old(Live())[i]).world && count == call.CountAfter()
      ensures forall k :: 0 <= k < i ==> Live()[k] == old(Live())[k]
      ensures multiset(Live()[i..]) == multiset(old(Live())[i + 1..]) + call.Left()
    {
      ghost var live := Live();
      call := CallOf(run, world, count, live[i]);
      var completed := Execute(i);
      if completed {
        Remove(i);
      }
      AfterTurn(live, i, call, Live());
    }
  }

  lemma AfterTurn<W, H, C>(live: seq<Coroutine<H, C>>, i: nat, call: Call<W, H, C>, live': seq<Coroutine<H, C>>)
    requires i < |live| && live[i] == call.co
    requires var called := live[i := call.co.(status := call.status)] + call.accepted;
      live' == if call.status == COMPLETED then Removed(called, i) else called
    ensures |live'| == |live| + |call.accepted| - (if call.status == COMPLETED then 1 else 0) && i <= |live'|
    ensures forall k :: 0 <= k < i ==> live'[k] == live[k]
    ensures multiset(live'[i..]) == multiset(live[i + 1..]) + call.Left()
  {
    AfterCall(live, i, call.co.(status := call.status), call.accepted);
  }

  ghost function Removed<T>(s: seq<T>, i: nat): seq<T>
    requires i < |s|
  {
    s[i := s[|s| - 1]][..|s| - 1]
  }

  // The slots from i on, after the call and after the removal that may follow
  lemma AfterCall<T>(live: seq<T>, i: nat, x: T, accepted: seq<T>)
    requires i < |live|
    ensures var called := live[i := x] + accepted;
      && multiset(called[i..]) == multiset(live[i + 1..]) + multiset(accepted) + multiset{x}
      && multiset(Removed(called, i)[i..]) == multiset(live[i + 1..]) + multiset(accepted)
      && called[..i] == Removed(called, i)[..i] == live[..i]
  {
    var called := live[i := x] + accepted;
    var tail := live[i + 1..] + accepted;
    assert called[i..] == [x] + tail;
    SwapRemove([x] + tail);
    RemovedAt(called, i);
  }

  lemma RemovedAt<T>(s: seq<T>, i: nat)
    requires i < |s|
    ensures Removed(s, i)[i..] == Removed(s[i..], 0) && Removed(s, i)[..i] == s[..i]
  {
  }

  // Moving the last element into the first slot and dropping the end removes the first.
  lemma SwapRemove<T>(s: seq<T>)
    requires s != []
    ensures multiset(Removed(s, 0)) == multiset(s[1..])
  {
    var last := s[|s| - 1];
    if |s| > 1 {
      assert Removed(s, 0) == [last] + s[1..|s| - 1];
      assert s[1..] == s[1..|s| - 1] + [last];
    }
  }
}
