// thread/pool.c and thread/task.c: workers run a forest of tasks by counting
// unsatisfied dependencies. One event is one atomic operation or locked section.

module TaskPool {
  import opened Counting
  import opened Results

  datatype Parent = NoParent | Parent(id: nat)

  // The forest: who is whose parent, how deep each subtree is, and how many tasks
  // the queue can hold.
  datatype Config = Config(parents: seq<Parent>, heights: seq<nat>, capacity: nat, workers: nat)

  // A ring slot holds the copy that was made at enqueue time.
  datatype Slot = Slot(task: nat, deps: nat)

  // Where a worker is in the loop of thread_main
  datatype Pc =
    | Idle
    | Took(slot: nat)
    | Running(slot: nat)
    | Returned(slot: nat)
    | MustEnqueue(task: nat)

  // Where the one call of ms_thread_pool_dispatch for a task is
  datatype Call = NotYet | Loaded | Done

  // store[head..] is the queue; runs, done and zeros record what has happened: how
  // often a handler was started, whether it was counted as finished, and how
  // often a decrement left zero.
  datatype State = State(deps: seq<nat>, calls: seq<Call>, store: seq<Slot>, head: nat, pcs: seq<Pc>,
                         runs: seq<nat>, done: seq<bool>, zeros: seq<nat>)

  datatype Event =
    | DispatchLoad(task: nat)
    | DispatchEnqueue(task: nat)
    | Dequeue(worker: nat)
    | Check(worker: nat)
    | Return(worker: nat)
    | Finish(worker: nat)
    | ReEnqueue(worker: nat)

  // ms_task_queue_enqueue: copies task t, or fails when the ring is full
  function Enqueue(cfg: Config, s: State, t: nat): State
    requires t < |s.deps|
  {
    if |s.store| < s.head + cfg.capacity then s.(store := s.store + [Slot(t, s.deps[t])]) else s
  }

  // One atomic step; None when the event cannot happen.
  function Next(cfg: Config, s: State, e: Event): Option<State>
    requires Shape(cfg, s)
  {
    match e
    case DispatchLoad(t) =>
      if t < |cfg.parents| && s.calls[t] == NotYet then
        Some(s.(calls := s.calls[t := if s.deps[t] == 0 then Loaded else Done]))
      else None
    case DispatchEnqueue(t) =>
      if t < |cfg.parents| && s.calls[t] == Loaded then
        Some(Enqueue(cfg, s, t).(calls := s.calls[t := Done]))
      else None
    case Dequeue(w) =>
      if w < cfg.workers && s.pcs[w] == Idle then
        if s.head < |s.store| then Some(s.(pcs := s.pcs[w := Took(s.head)], head := s.head + 1)) else Some(s)
      else None
    case Check(w) =>
      if w < cfg.workers && s.pcs[w].Took? then
        var slot := s.store[s.pcs[w].slot];
        if slot.deps == 0 then
          Some(s.(pcs := s.pcs[w := Running(s.pcs[w].slot)], runs := s.runs[slot.task := s.runs[slot.task] + 1]))
        else Some(s.(pcs := s.pcs[w := Idle]))
      else None
    case Return(w) =>
      if w < cfg.workers && s.pcs[w].Running? then Some(s.(pcs := s.pcs[w := Returned(s.pcs[w].slot)])) else None
    case Finish(w) =>
      if w < cfg.workers && s.pcs[w].Returned? then
        var t := s.store[s.pcs[w].slot].task;
        var s1 := s.(done := s.done[t := true]);
        match cfg.parents[t]
        case NoParent => Some(s1.(pcs := s.pcs[w := Idle]))
        case Parent(p) =>
          var left := (s.deps[p] + 65535) % 65536;
          Some(s1.(deps := s.deps[p := left],
                   pcs := s.pcs[w := if left == 0 then MustEnqueue(p) else Idle],
                   zeros := if left == 0 then s.zeros[p := s.zeros[p] + 1] else s.zeros))
      else None
    case ReEnqueue(w) =>
      if w < cfg.workers && s.pcs[w].MustEnqueue? then
        Some(Enqueue(cfg, s, s.pcs[w].task).(pcs := s.pcs[w := Idle]))
      else None
  }

  predicate Shape(cfg: Config, s: State) {
    var n := |cfg.parents|;
    && |s.deps| == |s.calls| == |s.runs| == |s.done| == |s.zeros| == n && |s.pcs| == cfg.workers
    && (forall t :: 0 <= t < n && cfg.parents[t].Parent? ==> cfg.parents[t].id < n)
    && s.head <= |s.store|
    && (forall i :: 0 <= i < |s.store| ==> s.store[i].task < n)
    && (forall w :: 0 <= w < |s.pcs| ==>
          match s.pcs[w]
          case Idle => true
          case MustEnqueue(p) => p < n
          case _ => s.pcs[w].slot < |s.store|)
  }

  // Shape is kept by every step, whatever is dispatched.
  lemma NextKeepsShape(cfg: Config, s: State, e: Event)
    requires Shape(cfg, s) && Next(cfg, s, e).Some?
    ensures Shape(cfg, Next(cfg, s, e).value)
  {
  }

  function Run(cfg: Config, s: State, es: seq<Event>): (r: Option<State>)
    requires Shape(cfg, s)
    ensures r.Some? ==> Shape(cfg, r.value)
    decreases |es|
  {
    if es == [] then Some(s)
    else
      match Next(cfg, s, es[0])
      case None => None
      case Some(s') =>
        NextKeepsShape(cfg, s, es[0]);
        Run(cfg, s', es[1..])
  }

  // ---- The setting

  predicate IsChild(cfg: Config, c: nat, p: nat)
    requires c < |cfg.parents|
  {
    cfg.parents[c] == Parent(p)
  }

  ghost predicate Leaf(cfg: Config, t: nat) {
    forall c :: 0 <= c < |cfg.parents| ==> !IsChild(cfg, c, t)
  }

  // A forest of at most capacity tasks.
  ghost predicate Forest(cfg: Config) {
    && |cfg.heights| == |cfg.parents| <= cfg.capacity
    && (forall t :: 0 <= t < |cfg.parents| && cfg.parents[t].Parent? ==>
          cfg.parents[t].id < |cfg.parents| && cfg.heights[t] < cfg.heights[cfg.parents[t].id])
  }

  // The children of p that are not counted as finished.
  ghost function Unfinished(cfg: Config, done: seq<bool>, p: nat): seq<bool>
    requires |done| == |cfg.parents|
  {
    seq(|done|, c requires 0 <= c < |done| => IsChild(cfg, c, p) && !done[c])
  }

  // Nothing dispatched, and every task's counter is its number of children.
  ghost predicate Initial(cfg: Config, s: State) {
    var n := |cfg.parents|;
    && Shape(cfg, s)
    && s.store == [] && s.head == 0 && (forall w :: 0 <= w < |s.pcs| ==> s.pcs[w] == Idle)
    && (forall t :: 0 <= t < n ==> s.calls[t] == NotYet)
    && (forall t :: 0 <= t < n ==> s.runs[t] == 0 && !s.done[t] && s.zeros[t] == 0)
    && (forall t :: 0 <= t < n ==> s.deps[t] == Count(Unfinished(cfg, s.done, t)) <= 65535)
  }

  // A dispatch is in order when its task has no children, or still waits for some.
  ghost predicate InOrder(cfg: Config, s: State, e: Event) {
    e.DispatchLoad? ==> e.task < |s.deps| && (Leaf(cfg, e.task) || s.deps[e.task] > 0)
  }

  // No dispatch is on its way to enqueue a parent.
  ghost predicate NoneLate(cfg: Config, s: State) {
    forall t :: 0 <= t < |s.calls| && s.calls[t] == Loaded ==> Leaf(cfg, t)
  }

  ghost predicate AllInOrder(cfg: Config, s: State, es: seq<Event>)
    requires Shape(cfg, s)
    decreases |es|
  {
    es == [] ||
    (InOrder(cfg, s, es[0]) &&
     match Next(cfg, s, es[0])
     case None => true
     case Some(s') =>
       NextKeepsShape(cfg, s, es[0]);
       AllInOrder(cfg, s', es[1..]))
  }

  // ---- The life of a task

  datatype Stage =
    | Waiting
    | Cleared
    | Owed(w: nat)
    | Queued(slot: nat)
    | Taken(w: nat, slot: nat)
    | Started(w: nat, slot: nat)
    | Over(w: nat, slot: nat)
    | Finished(slot: nat)
  {
    predicate HasSlot() {
      Queued? || Taken? || Started? || Over? || Finished?
    }

    function Rank(): nat {
      match this
      case Waiting => 7
      case Cleared => 6
      case Owed(_) => 6
      case Queued(_) => 5
      case Taken(_, _) => 4
      case Started(_, _) => 3
      case Over(_, _) => 2
      case Finished(_) => 0
    }
  }

  ghost predicate SlotsMatch(s: State, st: seq<Stage>) {
    && (forall i :: 0 <= i < |s.store| ==>
          s.store[i].task < |st| && s.store[i].deps == 0
          && st[s.store[i].task].HasSlot() && st[s.store[i].task].slot == i)
    && (forall t :: 0 <= t < |st| && st[t].HasSlot() ==>
          st[t].slot < |s.store| && s.store[st[t].slot].task == t && (st[t].Queued? <==> st[t].slot >= s.head))
  }

  // The stage that a worker's position stands for
  ghost predicate PcMatches(s: State, st: seq<Stage>, w: nat)
    requires w < |s.pcs|
  {
    match s.pcs[w]
    case Idle => true
    case MustEnqueue(p) => p < |st| && st[p] == Owed(w)
    case Took(i) => i < |s.store| && s.store[i].task < |st| && st[s.store[i].task] == Taken(w, i)
    case Running(i) => i < |s.store| && s.store[i].task < |st| && st[s.store[i].task] == Started(w, i)
    case Returned(i) => i < |s.store| && s.store[i].task < |st| && st[s.store[i].task] == Over(w, i)
  }

  ghost predicate StageMatches(s: State, st: seq<Stage>, t: nat)
    requires t < |st|
  {
    match st[t]
    case Owed(w) => w < |s.pcs| && s.pcs[w] == MustEnqueue(t)
    case Taken(w, i) => w < |s.pcs| && s.pcs[w] == Took(i)
    case Started(w, i) => w < |s.pcs| && s.pcs[w] == Running(i)
    case Over(w, i) => w < |s.pcs| && s.pcs[w] == Returned(i)
    case _ => true
  }

  ghost predicate CallMatches(cfg: Config, s: State, st: seq<Stage>, t: nat)
    requires t < |st| && |st| == |s.calls| == |s.deps|
  {
    if Leaf(cfg, t) then
      (st[t] == Waiting <==> s.calls[t] == NotYet) && (st[t] == Cleared <==> s.calls[t] == Loaded) && !st[t].Owed?
    else (st[t] == Waiting <==> s.deps[t] > 0) && st[t] != Cleared
  }

  ghost predicate HistoryMatches(cfg: Config, s: State, st: seq<Stage>, t: nat)
    requires t < |st| && |st| == |s.runs| == |s.done| == |s.zeros|
  {
    && s.runs[t] == (if st[t].Started? || st[t].Over? || st[t].Finished? then 1 else 0)
    && (s.done[t] <==> st[t].Finished?)
    && s.zeros[t] == (if Leaf(cfg, t) || st[t] == Waiting then 0 else 1)
  }

  // Everything the state says about one task agrees with its stage.
  ghost predicate TaskMatches(cfg: Config, s: State, st: seq<Stage>, t: nat)
    requires t < |st| && |st| == |cfg.parents| == |s.calls| == |s.deps| == |s.runs| == |s.done| == |s.zeros|
  {
    && StageMatches(s, st, t) && CallMatches(cfg, s, st, t) && HistoryMatches(cfg, s, st, t)
    && s.deps[t] == Count(Unfinished(cfg, s.done, t)) <= 65535
  }

  ghost function SlotFlags(st: seq<Stage>): seq<bool> {
    seq(|st|, t requires 0 <= t < |st| => st[t].HasSlot())
  }

  ghost function Ranks(st: seq<Stage>): seq<nat> {
    seq(|st|, t requires 0 <= t < |st| => st[t].Rank())
  }

  ghost predicate Inv(cfg: Config, s: State, st: seq<Stage>) {
    && Forest(cfg) && Shape(cfg, s) && |st| == |cfg.parents|
    && SlotsMatch(s, st)
    && (forall w :: 0 <= w < |s.pcs| ==> PcMatches(s, st, w))
    && (forall t :: 0 <= t < |st| ==> TaskMatches(cfg, s, st, t))
    && Count(SlotFlags(st)) == |s.store|
  }

  ghost function Measure(st: seq<Stage>): nat {
    Total(Ranks(st))
  }

  // ---- Every step keeps the invariant and shortens what is left to do

  lemma StageUpdate(st: seq<Stage>, t: nat, x: Stage)
    requires t < |st|
    ensures Count(SlotFlags(st[t := x])) + (if st[t].HasSlot() then 1 else 0)
            == Count(SlotFlags(st)) + (if x.HasSlot() then 1 else 0)
    ensures Measure(st[t := x]) + st[t].Rank() == Measure(st) + x.Rank()
  {
    assert SlotFlags(st[t := x]) == SlotFlags(st)[t := x.HasSlot()];
    CountUpdate(SlotFlags(st), t, x.HasSlot());
    assert Ranks(st[t := x]) == Ranks(st)[t := x.Rank()];
    TotalUpdate(Ranks(st), t, x.Rank());
  }

  // A task that has no slot yet always finds room in the queue.
  lemma RoomLeft(cfg: Config, s: State, st: seq<Stage>, t: nat)
    requires Inv(cfg, s, st) && t < |st| && !st[t].HasSlot()
    ensures |s.store| < s.head + cfg.capacity
  {
    CountBounds(SlotFlags(st));
    assert !SlotFlags(st)[t];
  }

  lemma LeafReady(cfg: Config, s: State, st: seq<Stage>, t: nat)
    requires Inv(cfg, s, st) && t < |st| && (Leaf(cfg, t) || st[t] != Waiting)
    ensures s.deps[t] == 0
  {
    CountBounds(Unfinished(cfg, s.done, t));
    assert TaskMatches(cfg, s, st, t);
  }

  lemma StepLoad(cfg: Config, s: State, st: seq<Stage>, t: nat) returns (st': seq<Stage>)
    requires Inv(cfg, s, st) && Next(cfg, s, DispatchLoad(t)).Some?
    ensures Inv(cfg, Next(cfg, s, DispatchLoad(t)).value, st')
    ensures if Leaf(cfg, t) then Measure(st') < Measure(st) else st' == st
  {
    var s' := Next(cfg, s, DispatchLoad(t)).value;
    assert TaskMatches(cfg, s, st, t);
    if Leaf(cfg, t) {
      LeafReady(cfg, s, st, t);
      st' := st[t := Cleared];
      StageUpdate(st, t, Cleared);
    } else {
      st' := st;
    }
    forall w' | 0 <= w' < |s'.pcs| ensures PcMatches(s', st', w') { assert PcMatches(s, st, w'); }
    forall t' | 0 <= t' < |st'| ensures TaskMatches(cfg, s', st', t') { assert TaskMatches(cfg, s, st, t'); }
  }

  // Both ways into the queue: task t takes the next slot, and its copy has no
  // dependencies left.
  lemma Enqueued(cfg: Config, s: State, st: seq<Stage>, t: nat) returns (st': seq<Stage>)
    requires Inv(cfg, s, st) && t < |st| && (st[t].Cleared? || st[t].Owed?)
    ensures st' == st[t := Queued(|s.store|)] && Measure(st') < Measure(st)
    ensures SlotsMatch(Enqueue(cfg, s, t), st') && Count(SlotFlags(st')) == |Enqueue(cfg, s, t).store|
    ensures Enqueue(cfg, s, t).store == s.store + [Slot(t, 0)]
  {
    assert TaskMatches(cfg, s, st, t);
    RoomLeft(cfg, s, st, t);
    LeafReady(cfg, s, st, t);
    st' := st[t := Queued(|s.store|)];
    StageUpdate(st, t, Queued(|s.store|));
  }

  lemma StepDispatchEnqueue(cfg: Config, s: State, st: seq<Stage>, t: nat) returns (st': seq<Stage>)
    requires Inv(cfg, s, st) && Next(cfg, s, DispatchEnqueue(t)).Some? && Leaf(cfg, t)
    ensures Inv(cfg, Next(cfg, s, DispatchEnqueue(t)).value, st') && Measure(st') < Measure(st)
  {
    var s' := Next(cfg, s, DispatchEnqueue(t)).value;
    assert TaskMatches(cfg, s, st, t);
    st' := Enqueued(cfg, s, st, t);
    forall w' | 0 <= w' < |s'.pcs| ensures PcMatches(s', st', w') { assert PcMatches(s, st, w'); }
    forall t' | 0 <= t' < |st'| ensures TaskMatches(cfg, s', st', t') { assert TaskMatches(cfg, s, st, t'); }
  }

  lemma StepReEnqueue(cfg: Config, s: State, st: seq<Stage>, w: nat) returns (st': seq<Stage>)
    requires Inv(cfg, s, st) && Next(cfg, s, ReEnqueue(w)).Some?
    ensures Inv(cfg, Next(cfg, s, ReEnqueue(w)).value, st') && Measure(st') < Measure(st)
  {
    var s' := Next(cfg, s, ReEnqueue(w)).value;
    assert PcMatches(s, st, w);
    st' := Enqueued(cfg, s, st, s.pcs[w].task);
    forall w' | 0 <= w' < |s'.pcs| ensures PcMatches(s', st', w') { assert PcMatches(s, st, w'); }
    forall t' | 0 <= t' < |st'| ensures TaskMatches(cfg, s', st', t') { assert TaskMatches(cfg, s, st, t'); }
  }

  lemma StepDequeue(cfg: Config, s: State, st: seq<Stage>, w: nat) returns (st': seq<Stage>)
    requires Inv(cfg, s, st) && Next(cfg, s, Dequeue(w)).Some?
    ensures Inv(cfg, Next(cfg, s, Dequeue(w)).value, st')
    ensures if s.head < |s.store| then Measure(st') < Measure(st) else st' == st
  {
    var s' := Next(cfg, s, Dequeue(w)).value;
    if s.head < |s.store| {
      var t := s.store[s.head].task;
      st' := st[t := Taken(w, s.head)];
      StageUpdate(st, t, Taken(w, s.head));
    } else {
      st' := st;
    }
    forall w' | 0 <= w' < |s'.pcs| ensures PcMatches(s', st', w') { assert PcMatches(s, st, w'); }
    forall t' | 0 <= t' < |st'| ensures TaskMatches(cfg, s', st', t') { assert TaskMatches(cfg, s, st, t'); }
  }

  lemma StepCheck(cfg: Config, s: State, st: seq<Stage>, w: nat) returns (st': seq<Stage>)
    requires Inv(cfg, s, st) && Next(cfg, s, Check(w)).Some?
    ensures Inv(cfg, Next(cfg, s, Check(w)).value, st') && Measure(st') < Measure(st)
  {
    var s' := Next(cfg, s, Check(w)).value;
    assert PcMatches(s, st, w);
    var i := s.pcs[w].slot;
    var t := s.store[i].task;
    st' := st[t := Started(w, i)];
    StageUpdate(st, t, Started(w, i));
    forall w' | 0 <= w' < |s'.pcs| ensures PcMatches(s', st', w') { assert PcMatches(s, st, w'); }
    forall t' | 0 <= t' < |st'| ensures TaskMatches(cfg, s', st', t') { assert TaskMatches(cfg, s, st, t'); }
  }

  lemma StepReturn(cfg: Config, s: State, st: seq<Stage>, w: nat) returns (st': seq<Stage>)
    requires Inv(cfg, s, st) && Next(cfg, s, Return(w)).Some?
    ensures Inv(cfg, Next(cfg, s, Return(w)).value, st') && Measure(st') < Measure(st)
  {
    var s' := Next(cfg, s, Return(w)).value;
    assert PcMatches(s, st, w);
    var i := s.pcs[w].slot;
    var t := s.store[i].task;
    st' := st[t := Over(w, i)];
    StageUpdate(st, t, Over(w, i));
    forall w' | 0 <= w' < |s'.pcs| ensures PcMatches(s', st', w') { assert PcMatches(s, st, w'); }
    forall t' | 0 <= t' < |st'| ensures TaskMatches(cfg, s', st', t') { assert TaskMatches(cfg, s, st, t'); }
  }

  // Finishing t takes it out of its own parent's unfinished children and no other's.
  lemma UnfinishedAfter(cfg: Config, done: seq<bool>, t: nat, p: nat)
    requires |done| == |cfg.parents| && t < |done| && !done[t]
    ensures Count(Unfinished(cfg, done, p)) ==
            Count(Unfinished(cfg, done[t := true], p)) + (if IsChild(cfg, t, p) then 1 else 0)
  {
    var before, after := Unfinished(cfg, done, p), Unfinished(cfg, done[t := true], p);
    assert after == before[t := false];
    CountUpdate(before, t, false);
  }

  // The finished task, and its parent when this was the last child
  ghost function AfterFinish(cfg: Config, s: State, st: seq<Stage>, w: nat, t: nat, i: nat): (st': seq<Stage>)
    requires Shape(cfg, s) && |st| == |cfg.parents| && t < |st|
    ensures |st'| == |st|
  {
    var st1 := st[t := Finished(i)];
    if cfg.parents[t].Parent? && s.deps[cfg.parents[t].id] == 1 then st1[cfg.parents[t].id := Owed(w)] else st1
  }

  // A task with a child that is not counted as finished has not moved yet.
  lemma ParentWaits(cfg: Config, s: State, st: seq<Stage>, t: nat, p: nat)
    requires Inv(cfg, s, st) && t < |st| && cfg.parents[t] == Parent(p) && !s.done[t]
    ensures p < |st| && p != t && st[p] == Waiting && 0 < s.deps[p] <= 65535 && !Leaf(cfg, p) && s.zeros[p] == 0
  {
    assert IsChild(cfg, t, p);
    CountBounds(Unfinished(cfg, s.done, p));
    assert Unfinished(cfg, s.done, p)[t];
    assert TaskMatches(cfg, s, st, p);
  }

  lemma FinishDeps(cfg: Config, s: State, st: seq<Stage>, w: nat, t: nat, p: nat)
    requires Inv(cfg, s, st) && Next(cfg, s, Finish(w)).Some?
    requires s.pcs[w].Returned? && t == s.store[s.pcs[w].slot].task && !s.done[t] && p < |st|
    ensures var s' := Next(cfg, s, Finish(w)).value;
      && s'.deps[p] + (if IsChild(cfg, t, p) then 1 else 0) == s.deps[p]
      && s'.deps[p] == Count(Unfinished(cfg, s'.done, p)) <= 65535
  {
    assert TaskMatches(cfg, s, st, p);
    UnfinishedAfter(cfg, s.done, t, p);
    if cfg.parents[t].Parent? {
      ParentWaits(cfg, s, st, t, cfg.parents[t].id);
    }
  }

  lemma FinishTaskMatches(cfg: Config, s: State, st: seq<Stage>, w: nat, t: nat, i: nat, t': nat)
    requires Inv(cfg, s, st) && Next(cfg, s, Finish(w)).Some?
    requires s.pcs[w] == Returned(i) && t == s.store[i].task && st[t] == Over(w, i) && t' < |st|
    ensures TaskMatches(cfg, Next(cfg, s, Finish(w)).value, AfterFinish(cfg, s, st, w, t, i), t')
  {
    assert TaskMatches(cfg, s, st, t);
    FinishDeps(cfg, s, st, w, t, t');
    if t' == t {
      FinishedMatches(cfg, s, st, w, t, i);
    } else if IsChild(cfg, t, t') {
      ParentMatches(cfg, s, st, w, t, i, t');
    } else {
      OtherMatches(cfg, s, st, w, t, i, t');
    }
  }

  // The stage, calls and history of the task that is finished, of its parent, and of any
  // other task
  lemma FinishedMatches(cfg: Config, s: State, st: seq<Stage>, w: nat, t: nat, i: nat)
    requires Inv(cfg, s, st) && Next(cfg, s, Finish(w)).Some?
    requires s.pcs[w] == Returned(i) && t == s.store[i].task && st[t] == Over(w, i)
    ensures var s', st' := Next(cfg, s, Finish(w)).value, AfterFinish(cfg, s, st, w, t, i);
      StageMatches(s', st', t) && CallMatches(cfg, s', st', t) && HistoryMatches(cfg, s', st', t)
  {
    assert TaskMatches(cfg, s, st, t);
    if cfg.parents[t].Parent? {
      ParentWaits(cfg, s, st, t, cfg.parents[t].id);
    }
  }

  lemma ParentMatches(cfg: Config, s: State, st: seq<Stage>, w: nat, t: nat, i: nat, p: nat)
    requires Inv(cfg, s, st) && Next(cfg, s, Finish(w)).Some?
    requires s.pcs[w] == Returned(i) && t == s.store[i].task && st[t] == Over(w, i) && !s.done[t]
    requires p < |st| && IsChild(cfg, t, p)
    ensures var s', st' := Next(cfg, s, Finish(w)).value, AfterFinish(cfg, s, st, w, t, i);
      StageMatches(s', st', p) && CallMatches(cfg, s', st', p) && HistoryMatches(cfg, s', st', p)
  {
    assert TaskMatches(cfg, s, st, p);
    ParentWaits(cfg, s, st, t, p);
  }

  lemma OtherMatches(cfg: Config, s: State, st: seq<Stage>, w: nat, t: nat, i: nat, u: nat)
    requires Inv(cfg, s, st) && Next(cfg, s, Finish(w)).Some?
    requires s.pcs[w] == Returned(i) && t == s.store[i].task && st[t] == Over(w, i) && !s.done[t]
    requires u < |st| && u != t && !IsChild(cfg, t, u)
    ensures var s', st' := Next(cfg, s, Finish(w)).value, AfterFinish(cfg, s, st, w, t, i);
      StageMatches(s', st', u) && CallMatches(cfg, s', st', u) && HistoryMatches(cfg, s', st', u)
  {
    assert TaskMatches(cfg, s, st, u);
  }

  lemma FinishSlotsMatch(cfg: Config, s: State, st: seq<Stage>, w: nat, t: nat, i: nat)
    requires Inv(cfg, s, st) && Next(cfg, s, Finish(w)).Some?
    requires s.pcs[w] == Returned(i) && t == s.store[i].task && st[t] == Over(w, i) && !s.done[t]
    ensures SlotsMatch(Next(cfg, s, Finish(w)).value, AfterFinish(cfg, s, st, w, t, i))
  {
    SameSlots(s, st, s, st[t := Finished(i)]);
    if cfg.parents[t].Parent? {
      ParentWaits(cfg, s, st, t, cfg.parents[t].id);
    }
    SameSlots(s, st[t := Finished(i)], Next(cfg, s, Finish(w)).value, AfterFinish(cfg, s, st, w, t, i));
  }

  // Slots are matched as long as each task has the slot it had, and is queued if it was.
  lemma SameSlots(s: State, st: seq<Stage>, s': State, st': seq<Stage>)
    requires SlotsMatch(s, st) && s'.store == s.store && s'.head == s.head && |st'| == |st|
    requires forall t :: 0 <= t < |st| ==>
               && (st'[t].HasSlot() <==> st[t].HasSlot())
               && (st[t].HasSlot() ==> st'[t].slot == st[t].slot && (st'[t].Queued? <==> st[t].Queued?))
    ensures SlotsMatch(s', st')
  {
  }

  lemma FinishPcMatches(cfg: Config, s: State, st: seq<Stage>, w: nat, t: nat, i: nat, w': nat)
    requires Inv(cfg, s, st) && Next(cfg, s, Finish(w)).Some? && w' < |s.pcs|
    requires s.pcs[w] == Returned(i) && t == s.store[i].task && st[t] == Over(w, i) && !s.done[t]
    ensures PcMatches(Next(cfg, s, Finish(w)).value, AfterFinish(cfg, s, st, w, t, i), w')
  {
    assert PcMatches(s, st, w');
    if cfg.parents[t].Parent? {
      ParentWaits(cfg, s, st, t, cfg.parents[t].id);
    }
  }

  lemma FinishMeasure(cfg: Config, s: State, st: seq<Stage>, w: nat, t: nat, i: nat)
    requires Inv(cfg, s, st) && t < |st| && st[t] == Over(w, i) && !s.done[t]
    ensures var st' := AfterFinish(cfg, s, st, w, t, i);
      Measure(st') < Measure(st) && Count(SlotFlags(st')) == Count(SlotFlags(st))
  {
    StageUpdate(st, t, Finished(i));
    if cfg.parents[t].Parent? {
      ParentWaits(cfg, s, st, t, cfg.parents[t].id);
      StageUpdate(st[t := Finished(i)], cfg.parents[t].id, Owed(w));
    }
  }

  lemma StepFinish(cfg: Config, s: State, st: seq<Stage>, w: nat) returns (st': seq<Stage>)
    requires Inv(cfg, s, st) && Next(cfg, s, Finish(w)).Some?
    ensures Inv(cfg, Next(cfg, s, Finish(w)).value, st') && Measure(st') < Measure(st)
  {
    var i := s.pcs[w].slot;
    var t := s.store[i].task;
    assert PcMatches(s, st, w);
    assert TaskMatches(cfg, s, st, t);
    st' := AfterFinish(cfg, s, st, w, t, i);
    FinishMeasure(cfg, s, st, w, t, i);
    FinishSlotsMatch(cfg, s, st, w, t, i);
    NextKeepsShape(cfg, s, Finish(w));
    forall w' | 0 <= w' < |s.pcs| ensures PcMatches(Next(cfg, s, Finish(w)).value, st', w') {
      FinishPcMatches(cfg, s, st, w, t, i, w');
    }
    forall t' | 0 <= t' < |st'| ensures TaskMatches(cfg, Next(cfg, s, Finish(w)).value, st', t') {
      FinishTaskMatches(cfg, s, st, w, t, i, t');
    }
  }

  // ---- Whole runs

  // A step that is neither a poll of an empty queue nor a dispatch with nothing to do.
  ghost predicate Effective(cfg: Config, s: State, e: Event) {
    match e
    case Dequeue(_) => s.head < |s.store|
    case DispatchLoad(t) => Leaf(cfg, t)
    case _ => true
  }

  ghost function EffectiveSteps(cfg: Config, s: State, es: seq<Event>): nat
    requires Shape(cfg, s)
    decreases |es|
  {
    if es == [] then 0
    else
      match Next(cfg, s, es[0])
      case None => 0
      case Some(s') =>
        NextKeepsShape(cfg, s, es[0]);
        (if Effective(cfg, s, es[0]) then 1 else 0) + EffectiveSteps(cfg, s', es[1..])
  }

  lemma StepKeepsInv(cfg: Config, s: State, st: seq<Stage>, e: Event) returns (st': seq<Stage>)
    requires Inv(cfg, s, st) && Next(cfg, s, e).Some? && (e.DispatchEnqueue? ==> Leaf(cfg, e.task))
    ensures Inv(cfg, Next(cfg, s, e).value, st')
    ensures if Effective(cfg, s, e) then Measure(st') < Measure(st) else Measure(st') == Measure(st)
  {
    match e
    case DispatchLoad(t) => st' := StepLoad(cfg, s, st, t);
    case DispatchEnqueue(t) => st' := StepDispatchEnqueue(cfg, s, st, t);
    case Dequeue(w) => st' := StepDequeue(cfg, s, st, w);
    case Check(w) => st' := StepCheck(cfg, s, st, w);
    case Return(w) => st' := StepReturn(cfg, s, st, w);
    case Finish(w) => st' := StepFinish(cfg, s, st, w);
    case ReEnqueue(w) => st' := StepReEnqueue(cfg, s, st, w);
  }

  lemma {:induction false} RunKeepsInv(cfg: Config, s: State, st: seq<Stage>, es: seq<Event>) returns (st': seq<Stage>)
    requires Inv(cfg, s, st) && NoneLate(cfg, s) && Run(cfg, s, es).Some? && AllInOrder(cfg, s, es)
    ensures Inv(cfg, Run(cfg, s, es).value, st') && NoneLate(cfg, Run(cfg, s, es).value)
    ensures EffectiveSteps(cfg, s, es) + Measure(st') <= Measure(st)
    decreases |es|
  {
    if es == [] {
      st' := st;
    } else {
      var mid := StepKeepsInv(cfg, s, st, es[0]);
      st' := RunKeepsInv(cfg, Next(cfg, s, es[0]).value, mid, es[1..]);
    }
  }

  lemma InitialTaskMatches(cfg: Config, s: State, st: seq<Stage>, t: nat)
    requires Forest(cfg) && Initial(cfg, s) && t < |cfg.parents| && |st| == |cfg.parents| && st[t] == Waiting
    ensures TaskMatches(cfg, s, st, t)
  {
    CountBounds(Unfinished(cfg, s.done, t));
    if c: nat :| c < |cfg.parents| && IsChild(cfg, c, t) {
      assert Unfinished(cfg, s.done, t)[c];
    }
  }

  lemma FreshStages(n: nat) returns (st: seq<Stage>)
    ensures |st| == n && (forall t :: 0 <= t < n ==> st[t] == Waiting)
    ensures Count(SlotFlags(st)) == 0 && Measure(st) <= 7 * n
  {
    st := seq(n, _ => Waiting);
    CountBounds(SlotFlags(st));
    TotalBounds(Ranks(st), 7);
  }

  lemma InitialInv(cfg: Config, s: State) returns (st: seq<Stage>)
    requires Forest(cfg) && Initial(cfg, s)
    ensures Inv(cfg, s, st) && Measure(st) <= 7 * |cfg.parents|
  {
    st := FreshStages(|cfg.parents|);
    forall t | 0 <= t < |st| ensures TaskMatches(cfg, s, st, t) {
      InitialTaskMatches(cfg, s, st, t);
    }
  }

  // What a state may look like at any moment of any run: counters are exact, no
  // decrement sees zero twice, no handler is started twice, and none is started
  // before the handlers of all its children have returned and been counted.
  ghost predicate Safe(cfg: Config, s: State)
    requires Shape(cfg, s)
  {
    forall t :: 0 <= t < |cfg.parents| ==> SafeTask(cfg, s, t)
  }

  ghost predicate SafeTask(cfg: Config, s: State, t: nat)
    requires Shape(cfg, s) && t < |cfg.parents|
  {
    && s.deps[t] == Count(Unfinished(cfg, s.done, t))
    && s.runs[t] <= 1 && s.zeros[t] <= 1
    && (s.done[t] ==> s.runs[t] == 1)
    && (s.zeros[t] == 1 <==> !Leaf(cfg, t) && s.deps[t] == 0)
    && (s.runs[t] == 1 ==> forall c :: 0 <= c < |cfg.parents| && IsChild(cfg, c, t) ==> s.done[c])
    && (forall w :: 0 <= w < |s.pcs| && s.pcs[w].Running? && s.store[s.pcs[w].slot].task == t ==>
          s.runs[t] == 1 && !s.done[t])
  }

  lemma InvIsSafe(cfg: Config, s: State, st: seq<Stage>)
    requires Inv(cfg, s, st)
    ensures Safe(cfg, s)
  {
    forall t | 0 <= t < |cfg.parents| ensures SafeTask(cfg, s, t) {
      assert TaskMatches(cfg, s, st, t);
      CountBounds(Unfinished(cfg, s.done, t));
      forall c | 0 <= c < |cfg.parents| && IsChild(cfg, c, t) && s.runs[t] == 1 ensures s.done[c] {
        assert !Unfinished(cfg, s.done, t)[c];
      }
      forall w | 0 <= w < |s.pcs| && s.pcs[w].Running? && s.store[s.pcs[w].slot].task == t
        ensures s.runs[t] == 1 && !s.done[t]
      {
        assert PcMatches(s, st, w);
      }
    }
  }

  // Safety and a bound on the work, for every run from an initial state in which
  // parents are not dispatched after their count has reached zero.
  lemma RunIsSafe(cfg: Config, s: State, es: seq<Event>)
    requires Forest(cfg) && Initial(cfg, s) && Run(cfg, s, es).Some? && AllInOrder(cfg, s, es)
    ensures Safe(cfg, Run(cfg, s, es).value)
    ensures EffectiveSteps(cfg, s, es) <= 7 * |cfg.parents|
  {
    var st := InitialInv(cfg, s);
    var st' := RunKeepsInv(cfg, s, st, es);
    InvIsSafe(cfg, Run(cfg, s, es).value, st');
  }

  // Whatever is dispatched and when, the queue never holds more than its capacity, and no
  // handler is started for a copy that was made with unsatisfied dependencies.
  lemma {:induction false} AnyRunIsBounded(cfg: Config, s: State, es: seq<Event>)
    requires Shape(cfg, s) && Bounded(cfg, s) && Run(cfg, s, es).Some?
    ensures Bounded(cfg, Run(cfg, s, es).value)
    decreases |es|
  {
    if es != [] {
      StepIsBounded(cfg, s, es[0]);
      AnyRunIsBounded(cfg, Next(cfg, s, es[0]).value, es[1..]);
    }
  }

  lemma StepIsBounded(cfg: Config, s: State, e: Event)
    requires Shape(cfg, s) && Bounded(cfg, s) && Next(cfg, s, e).Some?
    ensures Shape(cfg, Next(cfg, s, e).value) && Bounded(cfg, Next(cfg, s, e).value)
  {
    NextKeepsShape(cfg, s, e);
    var s' := Next(cfg, s, e).value;
    forall w | 0 <= w < |s'.pcs| && (s'.pcs[w].Running? || s'.pcs[w].Returned?)
      ensures s'.store[s'.pcs[w].slot].deps == 0
    {
      assert s'.pcs[w] != s.pcs[w] ==> e.Check? || e.Return?;
    }
  }

  ghost predicate Bounded(cfg: Config, s: State)
    requires Shape(cfg, s)
  {
    && |s.store| - s.head <= cfg.capacity
    && forall w :: 0 <= w < |s.pcs| && (s.pcs[w].Running? || s.pcs[w].Returned?) ==> s.store[s.pcs[w].slot].deps == 0
  }

  // No task is ever dropped because the queue is full.
  lemma EnqueueSucceeds(cfg: Config, s: State, es: seq<Event>, e: Event)
    requires Forest(cfg) && Initial(cfg, s) && Run(cfg, s, es).Some? && AllInOrder(cfg, s, es)
    requires e.DispatchEnqueue? || e.ReEnqueue?
    ensures var s' := Run(cfg, s, es).value;
      Next(cfg, s', e).Some? ==> |Next(cfg, s', e).value.store| == |s'.store| + 1
  {
    var st := InitialInv(cfg, s);
    var st' := RunKeepsInv(cfg, s, st, es);
    var s' := Run(cfg, s, es).value;
    if Next(cfg, s', e).Some? {
      if e.DispatchEnqueue? {
        assert TaskMatches(cfg, s', st', e.task);
        RoomLeft(cfg, s', st', e.task);
      } else {
        assert PcMatches(s', st', e.worker);
        RoomLeft(cfg, s', st', s'.pcs[e.worker].task);
      }
    }
  }

  ghost predicate Quiet(cfg: Config, s: State)
    requires Shape(cfg, s)
  {
    && s.head == |s.store| && (forall w :: 0 <= w < |s.pcs| ==> s.pcs[w] == Idle)
    && (forall t :: 0 <= t < |cfg.parents| && Leaf(cfg, t) ==> s.calls[t] == Done)
  }

  lemma {:induction false} QuietMeansFinished(cfg: Config, s: State, st: seq<Stage>, t: nat)
    requires Inv(cfg, s, st) && Quiet(cfg, s) && t < |st|
    ensures st[t].Finished?
    decreases cfg.heights[t]
  {
    assert TaskMatches(cfg, s, st, t);
    if !Leaf(cfg, t) {
      forall c | 0 <= c < |st| ensures !Unfinished(cfg, s.done, t)[c] {
        if IsChild(cfg, c, t) {
          QuietMeansFinished(cfg, s, st, c);
          assert TaskMatches(cfg, s, st, c);
        }
      }
      CountBounds(Unfinished(cfg, s.done, t));
    }
  }

  // Once the leaves are dispatched, the queue is empty and the workers idle, every
  // task of the forest has run exactly once.
  lemma QuietMeansAllRan(cfg: Config, s: State, es: seq<Event>)
    requires Forest(cfg) && Initial(cfg, s) && Run(cfg, s, es).Some? && AllInOrder(cfg, s, es)
    ensures var s' := Run(cfg, s, es).value;
      Quiet(cfg, s') ==> forall t :: 0 <= t < |cfg.parents| ==> s'.runs[t] == 1 && s'.done[t] && s'.deps[t] == 0
  {
    var st := InitialInv(cfg, s);
    var st' := RunKeepsInv(cfg, s, st, es);
    var s' := Run(cfg, s, es).value;
    if Quiet(cfg, s') {
      forall t | 0 <= t < |cfg.parents| ensures s'.runs[t] == 1 && s'.done[t] && s'.deps[t] == 0 {
        QuietMeansFinished(cfg, s', st', t);
        assert TaskMatches(cfg, s', st', t);
        LeafReady(cfg, s', st', t);
      }
    }
  }

  // Until then some effective step can be taken ...
  lemma SomeStepLeft(cfg: Config, s: State, st: seq<Stage>) returns (e: Event)
    requires Inv(cfg, s, st) && cfg.workers > 0 && !Quiet(cfg, s)
    ensures Next(cfg, s, e).Some? && InOrder(cfg, s, e) && Effective(cfg, s, e)
    ensures e.DispatchLoad? || e.DispatchEnqueue? ==> Leaf(cfg, e.task)
  {
    e := Dequeue(0);
    if w: nat :| w < |s.pcs| && s.pcs[w] != Idle {
      e := match s.pcs[w]
        case Took(_) => Check(w)
        case Running(_) => Return(w)
        case Returned(_) => Finish(w)
        case _ => ReEnqueue(w);
    } else if s.head == |s.store| {
      var t: nat :| t < |cfg.parents| && Leaf(cfg, t) && s.calls[t] != Done;
      e := if s.calls[t] == NotYet then DispatchLoad(t) else DispatchEnqueue(t);
    }
  }

  // ... so with the bound on effective steps no schedule gets stuck short of running
  // everything.
  lemma NeverStuck(cfg: Config, s: State, es: seq<Event>) returns (e: Event)
    requires Forest(cfg) && Initial(cfg, s) && Run(cfg, s, es).Some? && AllInOrder(cfg, s, es) && cfg.workers > 0
    ensures var s' := Run(cfg, s, es).value;
      !Quiet(cfg, s') ==> Next(cfg, s', e).Some? && InOrder(cfg, s', e) && Effective(cfg, s', e)
  {
    var st := InitialInv(cfg, s);
    st := RunKeepsInv(cfg, s, st, es);
    e := Dequeue(0);
    if !Quiet(cfg, Run(cfg, s, es).value) {
      e := SomeStepLeft(cfg, Run(cfg, s, es).value, st);
    }
  }

  // From any such state, some run in order finishes everything; a dispatcher that has
  // loaded a parent's counter can be kept waiting meanwhile.
  lemma {:induction false} RunToQuiet(cfg: Config, s: State, st: seq<Stage>)
    returns (es: seq<Event>, s': State, st': seq<Stage>)
    requires Inv(cfg, s, st) && cfg.workers > 0
    ensures Run(cfg, s, es) == Some(s') && AllInOrder(cfg, s, es) && Inv(cfg, s', st') && Quiet(cfg, s')
    ensures forall t :: 0 <= t < |s.calls| && !Leaf(cfg, t) ==> s'.calls[t] == s.calls[t]
    decreases Measure(st)
  {
    es, s', st' := [], s, st;
    if !Quiet(cfg, s) {
      var e := SomeStepLeft(cfg, s, st);
      var next := StepKeepsInv(cfg, s, st, e);
      es, s', st' := RunToQuiet(cfg, Next(cfg, s, e).value, next);
      assert ([e] + es)[1..] == es;
      es := [e] + es;
    }
  }

  // ---- A parent dispatched again after its count has reached zero

  lemma {:induction false} RunThen(cfg: Config, s: State, es: seq<Event>, mid: State, e: Event)
    returns (es': seq<Event>, s': State)
    requires Shape(cfg, s) && Shape(cfg, mid) && Run(cfg, s, es) == Some(mid) && Next(cfg, mid, e).Some?
    ensures es' == es + [e] && s' == Next(cfg, mid, e).value
    ensures Shape(cfg, s') && Run(cfg, s, es') == Some(s')
    ensures AllInOrder(cfg, s, es) && InOrder(cfg, mid, e) ==> AllInOrder(cfg, s, es')
    decreases |es|
  {
    es', s' := es + [e], Next(cfg, mid, e).value;
    NextKeepsShape(cfg, mid, e);
    if es == [] {
      assert es'[1..] == [];
    } else {
      NextKeepsShape(cfg, s, es[0]);
      var _, _ := RunThen(cfg, Next(cfg, s, es[0]).value, es[1..], mid, e);
      assert es'[1..] == es[1..] + [e];
    }
  }

  // A dispatcher has read the zero of a parent's counter before anything else
  // enqueues it: everything runs, then the dispatcher enqueues the parent again.
  lemma LateDispatchRunsTwice(cfg: Config, s: State, st: seq<Stage>, p: nat) returns (es: seq<Event>)
    requires Inv(cfg, s, st) && cfg.workers > 0 && p < |cfg.parents| && !Leaf(cfg, p) && s.calls[p] == Loaded
    ensures AllInOrder(cfg, s, es) && Run(cfg, s, es).Some? && Run(cfg, s, es).value.runs[p] == 2
  {
    var s', st';
    es, s', st' := RunToQuiet(cfg, s, st);
    QuietMeansFinished(cfg, s', st', p);
    assert TaskMatches(cfg, s', st', p);
    LeafReady(cfg, s', st', p);
    es, s' := RunThen(cfg, s, es, s', DispatchEnqueue(p));
    es, s' := RunThen(cfg, s, es, s', Dequeue(0));
    es, s' := RunThen(cfg, s, es, s', Check(0));
  }

  // Exactly which dispatches are dangerous: after a run in order, the next dispatch
  // can be followed by a run in order that starts its handler twice if and only if it
  // dispatches a parent whose counter has reached zero.
  lemma DispatchExact(cfg: Config, s: State, es: seq<Event>, p: nat)
    requires Forest(cfg) && Initial(cfg, s) && Run(cfg, s, es).Some? && AllInOrder(cfg, s, es) && cfg.workers > 0
    ensures var s' := Run(cfg, s, es).value;
      Next(cfg, s', DispatchLoad(p)).Some? ==>
        (RunsTwiceAfter(cfg, Next(cfg, s', DispatchLoad(p)).value, p) <==> !Leaf(cfg, p) && s'.deps[p] == 0)
  {
    var st := InitialInv(cfg, s);
    st := RunKeepsInv(cfg, s, st, es);
    var s' := Run(cfg, s, es).value;
    if Next(cfg, s', DispatchLoad(p)).Some? {
      var s1 := Next(cfg, s', DispatchLoad(p)).value;
      var st1 := StepLoad(cfg, s', st, p);
      if !Leaf(cfg, p) && s'.deps[p] == 0 {
        var fs := LateDispatchRunsTwice(cfg, s1, st1, p);
      } else {
        forall fs | AllInOrder(cfg, s1, fs) && Run(cfg, s1, fs).Some? ensures Run(cfg, s1, fs).value.runs[p] < 2 {
          var st2 := RunKeepsInv(cfg, s1, st1, fs);
          InvIsSafe(cfg, Run(cfg, s1, fs).value, st2);
          assert SafeTask(cfg, Run(cfg, s1, fs).value, p);
        }
      }
    }
  }

  ghost predicate RunsTwiceAfter(cfg: Config, s: State, p: nat)
    requires Shape(cfg, s) && p < |cfg.parents|
  {
    exists fs :: AllInOrder(cfg, s, fs) && Run(cfg, s, fs).Some? && Run(cfg, s, fs).value.runs[p] >= 2
  }

  // A parent and its child, and one worker
  lemma ParentAndChild(cfg: Config) returns (s: State)
    requires cfg == Config([NoParent, Parent(0)], [1, 0], 4, 1)
    ensures Forest(cfg) && Initial(cfg, s)
    ensures s == State([1, 0], [NotYet, NotYet], [], 0, [Idle], [0, 0], [false, false], [0, 0])
  {
    s := State([1, 0], [NotYet, NotYet], [], 0, [Idle], [0, 0], [false, false], [0, 0]);
    assert Unfinished(cfg, s.done, 0) == [false, true] && [false, true][1..] == [true];
    assert Unfinished(cfg, s.done, 1) == [false, false] && [false, false][1..] == [false];
  }

  // The child is queued and taken.
  lemma ChildTaken(cfg: Config, s: State) returns (es: seq<Event>, s': State)
    requires cfg == Config([NoParent, Parent(0)], [1, 0], 4, 1)
    requires s == State([1, 0], [NotYet, NotYet], [], 0, [Idle], [0, 0], [false, false], [0, 0])
    ensures Shape(cfg, s) && Run(cfg, s, es) == Some(s') && AllInOrder(cfg, s, es)
    ensures s' == State([1, 0], [NotYet, Done], [Slot(1, 0)], 1, [Took(0)], [0, 0], [false, false], [0, 0])
  {
    es, s' := RunThen(cfg, s, [], s, DispatchLoad(1));
    es, s' := RunThen(cfg, s, es, s', DispatchEnqueue(1));
    es, s' := RunThen(cfg, s, es, s', Dequeue(0));
  }

  // It runs, and its decrement leaves zero.
  lemma ChildEnds(cfg: Config, s: State, es: seq<Event>, mid: State) returns (es': seq<Event>, s': State)
    requires cfg == Config([NoParent, Parent(0)], [1, 0], 4, 1)
    requires Shape(cfg, s) && Shape(cfg, mid) && Run(cfg, s, es) == Some(mid) && AllInOrder(cfg, s, es)
    requires mid == State([1, 0], [NotYet, Done], [Slot(1, 0)], 1, [Took(0)], [0, 0], [false, false], [0, 0])
    ensures Run(cfg, s, es') == Some(s') && AllInOrder(cfg, s, es')
    ensures s' == State([0, 0], [NotYet, Done], [Slot(1, 0)], 1, [MustEnqueue(0)], [0, 1], [false, true], [1, 0])
  {
    es', s' := RunThen(cfg, s, es, mid, Check(0));
    es', s' := RunThen(cfg, s, es', s', Return(0));
    es', s' := RunThen(cfg, s, es', s', Finish(0));
  }

  // A dispatch of the parent is dangerous from now on.
  lemma DispatchAfterZeroRunsTwice() returns (cfg: Config, s: State, es: seq<Event>)
    ensures Forest(cfg) && Initial(cfg, s) && Run(cfg, s, es).Some? && AllInOrder(cfg, s, es)
    ensures var s' := Run(cfg, s, es).value;
      && s'.deps == [0, 0] && Next(cfg, s', DispatchLoad(0)).Some?
      && RunsTwiceAfter(cfg, Next(cfg, s', DispatchLoad(0)).value, 0)
  {
    cfg := Config([NoParent, Parent(0)], [1, 0], 4, 1);
    var s': State;
    s := ParentAndChild(cfg);
    es, s' := ChildTaken(cfg, s);
    es, s' := ChildEnds(cfg, s, es, s');
    assert IsChild(cfg, 1, 0);
    DispatchExact(cfg, s, es, 0);
  }
}
