// file/file.c: the lock-free free list of file descriptors. One event is one atomic
// operation, or one plain read or write of a node's next field.

module FileDescriptors {
  import opened Results

  datatype Link = Null | To(id: nat)

  // Every node's next is the node after it; first is where g_next points.
  ghost predicate Fresh(next: seq<Link>, first: Link) {
    && |next| > 0 && first == To(0)
    && forall i :: 0 <= i < |next| ==> next[i] == if i + 1 < |next| then To(i + 1) else Null
  }

  // ms_file_initialize; next[i] is g_nodes[i].next
  method Initialize(next: array<Link>) returns (first: Link)
    requires next.Length > 0
    modifies next
    ensures Fresh(next[..], first)
  {
    var n := next.Length;
    var i := 0;
    while i < n
      invariant 0 <= i <= n
      invariant forall k :: 0 <= k < i ==> next[k] == To(k + 1)
    {
      next[i] := To(i + 1);
      i := i + 1;
    }
    next[n - 1] := Null;
    first := To(0);
  }

  // The list that starts at first, its head last
  ghost predicate Chained(next: seq<Link>, first: Link, stack: seq<nat>) {
    && (forall i :: 0 <= i < |stack| ==> stack[i] < |next|)
    && (forall i, j {:trigger stack[i], stack[j]} :: 0 <= i < j < |stack| && j == i + 1 ==>
          next[stack[j]] == To(stack[i]))
    && first == Head(stack)
    && (|stack| > 0 ==> next[stack[0]] == Null)
  }

  ghost function Head(stack: seq<nat>): Link {
    if stack == [] then Null else To(stack[|stack| - 1])
  }

  // Where a thread is in ms_fopen or release_file
  datatype Pc =
    | Out
    | PopLoaded(node: Link)
    | PopRead(top: nat, succ: Link)
    | Opening(d: nat)
    | Releasing(d: nat)
    | RelLoaded(d: nat, seen: Link)
    | RelStored(d: nat, seen: Link)
  {
    predicate Popping() { PopLoaded? || PopRead? }

    // Has a node that it means to take off the list
    predicate Aims() { PopRead? || (PopLoaded? && node.To?) }

    predicate HasHand() { Opening? || Releasing? || RelLoaded? || RelStored? }
  }

  datatype State = State(next: seq<Link>, first: Link, pcs: seq<Pc>, held: set<nat>)

  // spurious: a weak compare-exchange may fail although the values agree
  datatype Event =
    | OpenLoad(t: nat)
    | OpenLimit(t: nat)
    | OpenRead(t: nat)
    | OpenSwap(t: nat, spurious: bool)
    | BackendOpen(t: nat, success: bool)
    | Close(t: nat, file: nat)
    | ReleaseLoad(t: nat)
    | ReleaseStore(t: nat)
    | ReleaseSwap(t: nat, spurious: bool)

  function Next(s: State, e: Event): Option<State> {
    if e.t >= |s.pcs| then None
    else
      var pc := s.pcs[e.t];
      match e
      case OpenLoad(t) =>
        if pc.Out? then Some(s.(pcs := s.pcs[t := PopLoaded(s.first)])) else None
      case OpenLimit(t) =>
        if pc == PopLoaded(Null) then Some(s.(pcs := s.pcs[t := Out])) else None
      case OpenRead(t) =>
        if pc.PopLoaded? && pc.node.To? && pc.node.id < |s.next| then
          Some(s.(pcs := s.pcs[t := PopRead(pc.node.id, s.next[pc.node.id])]))
        else None
      case OpenSwap(t, spurious) =>
        if pc.PopRead? then
          if s.first == To(pc.top) && !spurious then Some(s.(first := pc.succ, pcs := s.pcs[t := Opening(pc.top)]))
          else Some(s.(pcs := s.pcs[t := PopLoaded(s.first)]))
        else None
      case BackendOpen(t, success) =>
        if pc.Opening? then
          if success then Some(s.(held := s.held + {pc.d}, pcs := s.pcs[t := Out]))
          else Some(s.(pcs := s.pcs[t := Releasing(pc.d)]))
        else None
      case Close(t, d) =>
        if pc.Out? && d in s.held then Some(s.(held := s.held - {d}, pcs := s.pcs[t := Releasing(d)])) else None
      case ReleaseLoad(t) =>
        if pc.Releasing? then Some(s.(pcs := s.pcs[t := RelLoaded(pc.d, s.first)])) else None
      case ReleaseStore(t) =>
        if pc.RelLoaded? && pc.d < |s.next| then
          Some(s.(next := s.next[pc.d := pc.seen], pcs := s.pcs[t := RelStored(pc.d, pc.seen)]))
        else None
      case ReleaseSwap(t, spurious) =>
        if pc.RelStored? then
          if s.first == pc.seen && !spurious then Some(s.(first := To(pc.d), pcs := s.pcs[t := Out]))
          else Some(s.(pcs := s.pcs[t := RelLoaded(pc.d, s.first)]))
        else None
  }

  function Run(s: State, es: seq<Event>): Option<State>
    decreases |es|
  {
    if es == [] then Some(s)
    else
      match Next(s, es[0])
      case None => None
      case Some(s') => Run(s', es[1..])
  }

  // At most one thread at a time is in the loop of ms_fopen.
  predicate Serial(s: State, e: Event) {
    e.OpenLoad? ==> forall t :: 0 <= t < |s.pcs| ==> !s.pcs[t].Popping()
  }

  predicate AllSerial(s: State, es: seq<Event>)
    decreases |es|
  {
    es == [] || (Serial(s, es[0]) && match Next(s, es[0]) case None => true case Some(s') => AllSerial(s', es[1..]))
  }

  // The same but for thread u, which others may enter the loop beside; u does not enter
  // it again. When there is no thread u, this is Serial.
  predicate Beside(s: State, e: Event, u: nat) {
    e.OpenLoad? ==> e.t != u && forall t :: 0 <= t < |s.pcs| && t != u ==> !s.pcs[t].Popping()
  }

  predicate AllBeside(s: State, es: seq<Event>, u: nat)
    decreases |es|
  {
    es == [] ||
    (Beside(s, es[0], u) && match Next(s, es[0]) case None => true case Some(s') => AllBeside(s', es[1..], u))
  }

  lemma {:induction false} SerialIsBeside(s: State, es: seq<Event>)
    requires AllSerial(s, es) && Run(s, es).Some?
    ensures AllBeside(s, es, |s.pcs|)
    decreases |es|
  {
    if es != [] {
      assert |Next(s, es[0]).value.pcs| == |s.pcs|;
      SerialIsBeside(Next(s, es[0]).value, es[1..]);
    }
  }

  // ---- Where every descriptor is

  datatype Place = Listed(i: nat) | Held | InHand(t: nat)

  ghost predicate PlaceMatches(s: State, stack: seq<nat>, at: seq<Place>, d: nat)
    requires d < |at|
  {
    match at[d]
    case Listed(i) => i < |stack| && stack[i] == d && d !in s.held
    case Held => d in s.held
    case InHand(t) => t < |s.pcs| && s.pcs[t].HasHand() && s.pcs[t].d == d && d !in s.held
  }

  ghost predicate HandMatches(s: State, at: seq<Place>, t: nat)
    requires t < |s.pcs|
  {
    s.pcs[t].HasHand() ==>
      && s.pcs[t].d < |at| && at[s.pcs[t].d] == InHand(t)
      && (s.pcs[t].RelStored? ==> s.pcs[t].d < |s.next| && s.next[s.pcs[t].d] == s.pcs[t].seen)
  }

  // Every descriptor is in exactly one place: on the list, with a caller, or in the
  // hands of one thread.
  ghost predicate Partition(s: State, stack: seq<nat>, at: seq<Place>) {
    && |at| == |s.next| && Chained(s.next, s.first, stack)
    && (forall i :: 0 <= i < |stack| ==> at[stack[i]] == Listed(i))
    && (forall d :: 0 <= d < |at| ==> PlaceMatches(s, stack, at, d))
    && (forall d :: d in s.held ==> d < |at|)
    && (forall t :: 0 <= t < |s.pcs| ==> HandMatches(s, at, t))
  }

  // What a thread in the loop of ms_fopen has read is still so.
  ghost predicate PopMatches(s: State, at: seq<Place>, t: nat)
    requires t < |s.pcs|
  {
    match s.pcs[t]
    case PopLoaded(To(d)) => d < |at| && at[d].Listed?
    case PopRead(d, x) => d < |at| && at[d].Listed? && d < |s.next| && x == s.next[d]
    case _ => true
  }

  // At most one thread aims at a node, and it is not u.
  ghost predicate Inv(s: State, stack: seq<nat>, at: seq<Place>, u: nat) {
    && Partition(s, stack, at)
    && (forall t :: 0 <= t < |s.pcs| ==> PopMatches(s, at, t))
    && (forall t, v :: 0 <= t < v < |s.pcs| ==> !(s.pcs[t].Aims() && s.pcs[v].Aims()))
    && (u < |s.pcs| ==> !s.pcs[u].Aims())
  }

  // A pop that swaps in the true successor takes the head off the list ...
  lemma PopStep(s: State, stack: seq<nat>, at: seq<Place>, t: nat) returns (stack': seq<nat>, at': seq<Place>)
    requires Partition(s, stack, at) && t < |s.pcs| && s.pcs[t].PopRead? && s.first == To(s.pcs[t].top)
    requires s.pcs[t].succ == s.next[s.pcs[t].top]
    ensures Partition(Next(s, OpenSwap(t, false)).value, stack', at')
    ensures stack == stack' + [s.pcs[t].top] && at' == at[s.pcs[t].top := InHand(t)]
  {
    var s' := Next(s, OpenSwap(t, false)).value;
    stack' := stack[..|stack| - 1];
    at' := at[s.pcs[t].top := InHand(t)];
    forall d | 0 <= d < |at'| ensures PlaceMatches(s', stack', at', d) { assert PlaceMatches(s, stack, at, d); }
    forall u | 0 <= u < |s'.pcs| ensures HandMatches(s', at', u) { assert HandMatches(s, at, u); }
  }

  lemma PushStep(s: State, stack: seq<nat>, at: seq<Place>, t: nat) returns (stack': seq<nat>, at': seq<Place>)
    requires Partition(s, stack, at) && t < |s.pcs| && s.pcs[t].RelStored? && s.first == s.pcs[t].seen
    ensures Partition(Next(s, ReleaseSwap(t, false)).value, stack', at')
    ensures stack' == stack + [s.pcs[t].d] && at' == at[s.pcs[t].d := Listed(|stack|)]
  {
    var s' := Next(s, ReleaseSwap(t, false)).value;
    assert HandMatches(s, at, t);
    stack' := stack + [s.pcs[t].d];
    at' := at[s.pcs[t].d := Listed(|stack|)];
    forall d | 0 <= d < |at'| ensures PlaceMatches(s', stack', at', d) { assert PlaceMatches(s, stack, at, d); }
    forall u | 0 <= u < |s'.pcs| ensures HandMatches(s', at', u) { assert HandMatches(s, at, u); }
  }

  lemma HeldStep(s: State, stack: seq<nat>, at: seq<Place>, e: Event) returns (at': seq<Place>)
    requires Partition(s, stack, at) && (e.BackendOpen? || e.Close?) && Next(s, e).Some?
    ensures Partition(Next(s, e).value, stack, at')
    ensures forall d :: 0 <= d < |at'| && at[d].Listed? ==> at'[d] == at[d]
  {
    var s' := Next(s, e).value;
    assert HandMatches(s, at, e.t);
    if e.Close? {
      assert PlaceMatches(s, stack, at, e.file);
    }
    at' := match e
      case BackendOpen(t, true) => at[s.pcs[t].d := Held]
      case Close(t, d) => at[d := InHand(t)]
      case _ => at;
    forall d | 0 <= d < |at'| ensures PlaceMatches(s', stack, at', d) { assert PlaceMatches(s, stack, at, d); }
    forall u | 0 <= u < |s'.pcs| ensures HandMatches(s', at', u) { assert HandMatches(s, at, u); }
  }

  // The remaining events move no descriptor.
  lemma OtherStep(s: State, stack: seq<nat>, at: seq<Place>, e: Event)
    requires Partition(s, stack, at) && Next(s, e).Some? && !e.BackendOpen? && !e.Close?
    requires e.OpenSwap? ==> Next(s, e).value.first == s.first && Next(s, e).value.pcs[e.t].PopLoaded?
    requires e.ReleaseSwap? ==> Next(s, e).value.pcs[e.t].RelLoaded?
    ensures Partition(Next(s, e).value, stack, at)
  {
    var s' := Next(s, e).value;
    assert HandMatches(s, at, e.t);
    forall d | 0 <= d < |at| ensures PlaceMatches(s', stack, at, d) { assert PlaceMatches(s, stack, at, d); }
    forall u | 0 <= u < |s'.pcs| ensures HandMatches(s', at, u) { assert HandMatches(s, at, u); }
  }

  lemma PopKeepsInv(s: State, stack: seq<nat>, at: seq<Place>, u: nat, t: nat)
    returns (stack': seq<nat>, at': seq<Place>)
    requires Inv(s, stack, at, u) && t < |s.pcs| && s.pcs[t].PopRead? && s.first == To(s.pcs[t].top)
    ensures Inv(Next(s, OpenSwap(t, false)).value, stack', at', u)
  {
    var s' := Next(s, OpenSwap(t, false)).value;
    assert PopMatches(s, at, t);
    stack', at' := PopStep(s, stack, at, t);
    forall v | 0 <= v < |s'.pcs| ensures PopMatches(s', at', v) { assert PopMatches(s, at, v); }
  }

  lemma PushKeepsInv(s: State, stack: seq<nat>, at: seq<Place>, u: nat, t: nat)
    returns (stack': seq<nat>, at': seq<Place>)
    requires Inv(s, stack, at, u) && t < |s.pcs| && s.pcs[t].RelStored? && s.first == s.pcs[t].seen
    ensures Inv(Next(s, ReleaseSwap(t, false)).value, stack', at', u)
  {
    var s' := Next(s, ReleaseSwap(t, false)).value;
    stack', at' := PushStep(s, stack, at, t);
    forall v | 0 <= v < |s'.pcs| ensures PopMatches(s', at', v) { assert PopMatches(s, at, v); }
  }

  lemma HeldKeepsInv(s: State, stack: seq<nat>, at: seq<Place>, u: nat, e: Event) returns (at': seq<Place>)
    requires Inv(s, stack, at, u) && (e.BackendOpen? || e.Close?) && Next(s, e).Some?
    ensures Inv(Next(s, e).value, stack, at', u)
  {
    var s' := Next(s, e).value;
    at' := HeldStep(s, stack, at, e);
    forall v | 0 <= v < |s'.pcs| ensures PopMatches(s', at', v) { assert PopMatches(s, at, v); }
  }

  // A load of the head, on entry or after a failed swap
  lemma LoadKeepsInv(s: State, stack: seq<nat>, at: seq<Place>, u: nat, e: Event)
    requires Inv(s, stack, at, u) && Next(s, e).Some? && Beside(s, e, u)
    requires e.OpenLoad? || e.OpenSwap?
    requires Next(s, e).value == s.(pcs := s.pcs[e.t := PopLoaded(s.first)])
    ensures Inv(Next(s, e).value, stack, at, u)
  {
    var s' := Next(s, e).value;
    OtherStep(s, stack, at, e);
    assert PopMatches(s', at, e.t);
    forall v | 0 <= v < |s'.pcs| ensures PopMatches(s', at, v) { assert PopMatches(s, at, v); }
  }

  lemma ReadKeepsInv(s: State, stack: seq<nat>, at: seq<Place>, u: nat, e: Event)
    requires Inv(s, stack, at, u) && Next(s, e).Some? && (e.OpenLimit? || e.OpenRead?)
    ensures Inv(Next(s, e).value, stack, at, u)
  {
    var s' := Next(s, e).value;
    OtherStep(s, stack, at, e);
    forall v | 0 <= v < |s'.pcs| ensures PopMatches(s', at, v) { assert PopMatches(s, at, v); }
  }

  // A release that has not swapped yet, or swaps in vain
  lemma ReleaseKeepsInv(s: State, stack: seq<nat>, at: seq<Place>, u: nat, e: Event)
    requires Inv(s, stack, at, u) && Next(s, e).Some?
    requires e.ReleaseLoad? || e.ReleaseStore? || (e.ReleaseSwap? && Next(s, e).value.pcs[e.t].RelLoaded?)
    ensures Inv(Next(s, e).value, stack, at, u)
  {
    var s' := Next(s, e).value;
    assert HandMatches(s, at, e.t);
    OtherStep(s, stack, at, e);
    forall v | 0 <= v < |s'.pcs| ensures PopMatches(s', at, v) { assert PopMatches(s, at, v); }
  }

  lemma StepKeepsInv(s: State, stack: seq<nat>, at: seq<Place>, u: nat, e: Event)
    returns (stack': seq<nat>, at': seq<Place>)
    requires Inv(s, stack, at, u) && Next(s, e).Some? && Beside(s, e, u)
    ensures Inv(Next(s, e).value, stack', at', u)
  {
    stack', at' := stack, at;
    match e
    case OpenLoad(t) => LoadKeepsInv(s, stack, at, u, e);
    case OpenLimit(t) => ReadKeepsInv(s, stack, at, u, e);
    case OpenRead(t) => ReadKeepsInv(s, stack, at, u, e);
    case OpenSwap(t, spurious) =>
      if s.first == To(s.pcs[t].top) && !spurious {
        stack', at' := PopKeepsInv(s, stack, at, u, t);
      } else {
        LoadKeepsInv(s, stack, at, u, e);
      }
    case BackendOpen(t, success) => at' := HeldKeepsInv(s, stack, at, u, e);
    case Close(t, d) => at' := HeldKeepsInv(s, stack, at, u, e);
    case ReleaseLoad(t) => ReleaseKeepsInv(s, stack, at, u, e);
    case ReleaseStore(t) => ReleaseKeepsInv(s, stack, at, u, e);
    case ReleaseSwap(t, spurious) =>
      if s.first == s.pcs[t].seen && !spurious {
        stack', at' := PushKeepsInv(s, stack, at, u, t);
      } else {
        ReleaseKeepsInv(s, stack, at, u, e);
      }
  }

  lemma {:induction false} RunKeepsInv(s: State, stack: seq<nat>, at: seq<Place>, u: nat, es: seq<Event>)
    returns (stack': seq<nat>, at': seq<Place>)
    requires Inv(s, stack, at, u) && Run(s, es).Some? && AllBeside(s, es, u)
    ensures Inv(Run(s, es).value, stack', at', u)
    decreases |es|
  {
    if es == [] {
      stack', at' := stack, at;
    } else {
      stack', at' := StepKeepsInv(s, stack, at, u, es[0]);
      stack', at' := RunKeepsInv(Next(s, es[0]).value, stack', at', u, es[1..]);
    }
  }

  // After ms_file_initialize, before any call
  ghost predicate Initial(s: State) {
    && Fresh(s.next, s.first) && s.held == {}
    && (forall t :: 0 <= t < |s.pcs| ==> s.pcs[t].Out?)
  }

  lemma Countdown(n: nat) returns (stack: seq<nat>, at: seq<Place>)
    ensures |stack| == |at| == n
    ensures forall i :: 0 <= i < n ==> stack[i] == n - 1 - i && at[i] == Listed(n - 1 - i)
  {
    stack := seq(n, i requires 0 <= i < n => n - 1 - i);
    at := seq(n, i requires 0 <= i < n => Listed(n - 1 - i));
  }

  lemma InitialPlace(s: State, stack: seq<nat>, at: seq<Place>, d: nat)
    requires Initial(s) && |stack| == |at| == |s.next| && d < |at|
    requires stack[|stack| - 1 - d] == d && at[d] == Listed(|stack| - 1 - d)
    ensures PlaceMatches(s, stack, at, d)
  {
  }

  lemma InitialPartition(s: State, stack: seq<nat>, at: seq<Place>)
    requires Initial(s) && |stack| == |at| == |s.next|
    requires forall i :: 0 <= i < |stack| ==> stack[i] == |stack| - 1 - i && at[i] == Listed(|stack| - 1 - i)
    ensures Partition(s, stack, at)
  {
    FreshChain(s.next, s.first, stack);
    forall d | 0 <= d < |at|
      ensures PlaceMatches(s, stack, at, d)
    {
      InitialPlace(s, stack, at, d);
    }
    forall i | 0 <= i < |stack|
      ensures at[stack[i]] == Listed(i)
    {
      assert stack[i] == |stack| - 1 - i;
    }
  }

  lemma InitialInv(s: State) returns (stack: seq<nat>, at: seq<Place>)
    requires Initial(s)
    ensures Inv(s, stack, at, |s.pcs|)
  {
    stack, at := Countdown(|s.next|);
    InitialPartition(s, stack, at);
  }

  lemma FreshChain(next: seq<Link>, first: Link, stack: seq<nat>)
    requires Fresh(next, first) && |stack| == |next|
    requires forall i :: 0 <= i < |stack| ==> stack[i] == |stack| - 1 - i
    ensures Chained(next, first, stack)
  {
    forall i, j | 0 <= i < j < |stack| && j == i + 1
      ensures next[stack[j]] == To(stack[i])
    {
      assert stack[i] == stack[j] + 1;
    }
  }

  lemma SerialInv(s: State, es: seq<Event>) returns (stack: seq<nat>, at: seq<Place>)
    requires Initial(s) && Run(s, es).Some? && AllSerial(s, es)
    ensures Inv(Run(s, es).value, stack, at, |s.pcs|) && |Run(s, es).value.pcs| == |s.pcs|
  {
    SerialIsBeside(s, es);
    RunKeepsSizes(s, es);
    stack, at := InitialInv(s);
    stack, at := RunKeepsInv(s, stack, at, |s.pcs|, es);
  }

  lemma {:induction false} RunKeepsSizes(s: State, es: seq<Event>)
    requires Run(s, es).Some?
    ensures |Run(s, es).value.pcs| == |s.pcs| && |Run(s, es).value.next| == |s.next|
    decreases |es|
  {
    if es != [] {
      RunKeepsSizes(Next(s, es[0]).value, es[1..]);
    }
  }

  ghost predicate OnePlace(s: State, stack: seq<nat>, d: nat) {
    && (d in stack || d in s.held || exists t :: 0 <= t < |s.pcs| && InHandOf(s, d, t))
    && !(d in stack && d in s.held)
    && (forall i, j :: 0 <= i < j < |stack| ==> !(stack[i] == d && stack[j] == d))
    && (forall t :: 0 <= t < |s.pcs| && InHandOf(s, d, t) ==> d !in stack && d !in s.held)
    && (forall t, u :: 0 <= t < |s.pcs| && 0 <= u < |s.pcs| && InHandOf(s, d, t) && InHandOf(s, d, u) ==> t == u)
  }

  ghost predicate InHandOf(s: State, d: nat, t: nat)
    requires t < |s.pcs|
  {
    s.pcs[t].HasHand() && s.pcs[t].d == d
  }

  lemma PartitionIsOnePlace(s: State, stack: seq<nat>, at: seq<Place>, d: nat)
    requires Partition(s, stack, at) && d < |s.next|
    ensures OnePlace(s, stack, d)
  {
    assert PlaceMatches(s, stack, at, d);
    if at[d].InHand? {
      assert InHandOf(s, d, at[d].t);
    }
    forall t | 0 <= t < |s.pcs| && InHandOf(s, d, t) ensures at[d] == InHand(t) {
      assert HandMatches(s, at, t);
    }
  }

  // With pops serialised, and any number of threads releasing: at every moment the
  // list is a proper chain and every descriptor is in exactly one place.
  lemma SerialRunsNeverShare(s: State, es: seq<Event>) returns (stack: seq<nat>)
    requires Initial(s) && Run(s, es).Some? && AllSerial(s, es)
    ensures var s' := Run(s, es).value;
      Chained(s'.next, s'.first, stack) && forall d :: 0 <= d < |s'.next| ==> OnePlace(s', stack, d)
  {
    var at: seq<Place>;
    stack, at := SerialInv(s, es);
    var s' := Run(s, es).value;
    forall d | 0 <= d < |s'.next| ensures OnePlace(s', stack, d) {
      PartitionIsOnePlace(s', stack, at, d);
    }
  }

  // Every descriptor is with a caller or in some thread's hands.
  ghost predicate AllTaken(s: State) {
    forall d :: 0 <= d < |s.next| ==> Taken(s, d)
  }

  ghost predicate Taken(s: State, d: nat) {
    d in s.held || exists t :: 0 <= t < |s.pcs| && InHandOf(s, d, t)
  }

  // The list is empty exactly then.
  lemma EmptyMeansAllTaken(s: State, es: seq<Event>)
    requires Initial(s) && Run(s, es).Some? && AllSerial(s, es)
    ensures Run(s, es).value.first == Null <==> AllTaken(Run(s, es).value)
  {
    var s' := Run(s, es).value;
    var stack := SerialRunsNeverShare(s, es);
    if stack == [] {
      forall d | 0 <= d < |s'.next| ensures Taken(s', d) {
        assert OnePlace(s', stack, d);
      }
    } else {
      var d := stack[|stack| - 1];
      assert OnePlace(s', stack, d);
      assert !Taken(s', d);
    }
  }

  lemma {:induction false} RunPrefix(s: State, es: seq<Event>)
    requires Run(s, es).Some? && es != []
    ensures var n := |es| - 1;
      && Run(s, es[..n]).Some? && Next(Run(s, es[..n]).value, es[n]) == Run(s, es)
      && (AllSerial(s, es) ==> AllSerial(s, es[..n]))
    decreases |es|
  {
    var n := |es| - 1;
    if n > 0 {
      RunPrefix(Next(s, es[0]).value, es[1..]);
      assert es[..n][1..] == es[1..][..n - 1];
    }
  }

  // A thread that goes round the loop of ms_fopen has loaded the head last at event k, on
  // entry or after a failed swap.
  lemma {:induction false} LastLoad(s: State, es: seq<Event>, t: nat) returns (k: nat)
    requires Run(s, es).Some? && t < |s.pcs| && s.pcs[t].Out?
    requires t < |Run(s, es).value.pcs| && Run(s, es).value.pcs[t].PopLoaded?
    ensures k < |es| && es[k].t == t && (es[k].OpenLoad? || es[k].OpenSwap?)
    ensures forall j :: k < j < |es| ==> es[j].t != t
    ensures Run(s, es[..k]).Some? && Run(s, es).value.pcs[t].node == Run(s, es[..k]).value.first
    ensures AllSerial(s, es) ==> AllSerial(s, es[..k])
    decreases |es|
  {
    var n := |es| - 1;
    RunPrefix(s, es);
    RunKeepsSizes(s, es[..n]);
    k := n;
    if es[n].t != t {
      k := LastLoad(s, es[..n], t);
      assert es[..n][..k] == es[..k];
    }
  }

  // The last event of t is event k, and it loaded the head.
  predicate LoadsLast(es: seq<Event>, t: nat, k: nat) {
    k < |es| && es[k].t == t && (es[k].OpenLoad? || es[k].OpenSwap?) && forall j :: k < j < |es| ==> es[j].t != t
  }

  // ms_fopen reports MS_RESULT_RESOURCE_LIMIT, and does not go on to read the node, if and
  // only if every descriptor was with a caller or in some thread's hands when it loaded
  // the head last.
  lemma LimitMeansAllOut(s: State, es: seq<Event>, t: nat)
    requires Initial(s) && Run(s, es).Some? && AllSerial(s, es)
    requires var s' := Run(s, es).value; Next(s', OpenLimit(t)).Some? || Next(s', OpenRead(t)).Some?
    ensures exists k: nat :: LoadsLast(es, t, k)
    ensures forall k: nat :: LoadsLast(es, t, k) ==>
              && Run(s, es[..k]).Some?
              && (Next(Run(s, es).value, OpenLimit(t)).Some? <==> AllTaken(Run(s, es[..k]).value))
              && (Next(Run(s, es).value, OpenRead(t)).Some? <==> !AllTaken(Run(s, es[..k]).value))
  {
    RunKeepsSizes(s, es);
    var k := LastLoad(s, es, t);
    assert LoadsLast(es, t, k);
    assert forall j: nat :: LoadsLast(es, t, j) ==> j == k;
    EmptyMeansAllTaken(s, es[..k]);
    var stack, at := SerialInv(s, es);
    assert PopMatches(Run(s, es).value, at, t);
  }

  // Nobody can give up who is not there.
  lemma LimitNeedsLoad(s: State, t: nat)
    requires Next(s, OpenLimit(t)).Some?
    ensures s.pcs[t] == PopLoaded(Null) && Next(s, OpenLimit(t)).value == s.(pcs := s.pcs[t := Out])
  {
  }

  // ---- One thread on its own, however often its swaps fail

  // The events are t's, and it is in the middle of a call at each of them.
  ghost predicate Alone(s: State, es: seq<Event>, t: nat)
    decreases |es|
  {
    es == [] ||
    (es[0].t == t && t < |s.pcs| && !s.pcs[t].Out? && !s.pcs[t].Opening? &&
     match Next(s, es[0]) case None => false case Some(s') => Alone(s', es[1..], t))
  }

  ghost predicate InOpen(s: State, t: nat) {
    t < |s.pcs| && (s.first.To? ==> s.first.id < |s.next|) &&
    match s.pcs[t]
    case PopLoaded(node) => node == s.first
    case PopRead(top, succ) => s.first == To(top) && succ == s.next[top]
    case _ => false
  }

  ghost predicate InRelease(s: State, d: nat, t: nat) {
    t < |s.pcs| && d < |s.next| &&
    match s.pcs[t]
    case Releasing(x) => x == d
    case RelLoaded(x, seen) => x == d && seen == s.first
    case RelStored(x, seen) => x == d && seen == s.first == s.next[d]
    case _ => false
  }

  // ms_fopen takes the head off the list, or gives up and changes nothing exactly when
  // there is none.
  lemma {:induction false} OpenUndisturbed(s: State, es: seq<Event>, t: nat)
    requires InOpen(s, t) && Alone(s, es, t) && Run(s, es).Some? && t < |Run(s, es).value.pcs|
    requires !Run(s, es).value.pcs[t].Popping()
    ensures Run(s, es).value ==
              if s.first == Null then s.(pcs := s.pcs[t := Out])
              else s.(first := s.next[s.first.id], pcs := s.pcs[t := Opening(s.first.id)])
    decreases |es|
  {
    var s' := Next(s, es[0]).value;
    if s'.pcs[t].Popping() {
      OpenUndisturbed(s', es[1..], t);
      assert s'.pcs[t := Out] == s.pcs[t := Out];
    } else {
      assert es[1..] == [];
    }
  }

  // Releasing puts the descriptor in front of the list.
  lemma {:induction false} ReleaseUndisturbed(s: State, es: seq<Event>, d: nat, t: nat)
    requires InRelease(s, d, t) && Alone(s, es, t) && Run(s, es).Some? && t < |Run(s, es).value.pcs|
    requires !Run(s, es).value.pcs[t].HasHand()
    ensures Run(s, es).value == s.(next := s.next[d := s.first], first := To(d), pcs := s.pcs[t := Out])
    decreases |es|
  {
    var s' := Next(s, es[0]).value;
    if s'.pcs[t].HasHand() {
      ReleaseUndisturbed(s', es[1..], d, t);
      assert s'.next[d := s.first] == s.next[d := s.first] && s'.pcs[t := Out] == s.pcs[t := Out];
    } else {
      assert es[1..] == [];
    }
  }

  // Until it returns, a thread can always go on: lost and spurious swaps only send it
  // round again.
  lemma CallsGoOn(s: State, es: seq<Event>, t: nat)
    requires Initial(s) && Run(s, es).Some? && AllSerial(s, es) && t < |s.pcs| == |Run(s, es).value.pcs|
    ensures var s' := Run(s, es).value;
      match s'.pcs[t]
      case Out => Next(s', OpenLoad(t)).Some? && forall d :: d in s'.held ==> Next(s', Close(t, d)).Some?
      case PopLoaded(_) => Next(s', OpenLimit(t)).Some? || Next(s', OpenRead(t)).Some?
      case PopRead(_, _) => forall spurious :: Next(s', OpenSwap(t, spurious)).Some?
      case Opening(_) => forall success :: Next(s', BackendOpen(t, success)).Some?
      case Releasing(_) => Next(s', ReleaseLoad(t)).Some?
      case RelLoaded(_, _) => Next(s', ReleaseStore(t)).Some?
      case RelStored(_, _) => forall spurious :: Next(s', ReleaseSwap(t, spurious)).Some?
  {
    var stack, at := SerialInv(s, es);
    assert PopMatches(Run(s, es).value, at, t) && HandMatches(Run(s, es).value, at, t);
  }

  // A swap by a pop never succeeds with a stale successor ...
  lemma SerialPopTakesSuccessor(s: State, es: seq<Event>, t: nat)
    requires Initial(s) && Run(s, es).Some? && AllSerial(s, es)
    requires var s' := Run(s, es).value; t < |s'.pcs| && s'.pcs[t].PopRead?
    ensures var s' := Run(s, es).value; s'.pcs[t].top < |s'.next| && s'.pcs[t].succ == s'.next[s'.pcs[t].top]
  {
    var stack, at := SerialInv(s, es);
    assert PopMatches(Run(s, es).value, at, t);
  }

  // ... and that is exactly what keeping the list needs: in any state where every
  // descriptor is in one place, a successful swap keeps it so if and only if the
  // successor read earlier is still the one in the node.
  lemma PopKeepsPartitionExactly(s: State, stack: seq<nat>, at: seq<Place>, t: nat)
    requires Partition(s, stack, at) && t < |s.pcs| && s.pcs[t].PopRead? && s.first == To(s.pcs[t].top)
    ensures (exists stack', at' :: Partition(Next(s, OpenSwap(t, false)).value, stack', at'))
            <==> s.pcs[t].succ == s.next[s.pcs[t].top]
  {
    var s' := Next(s, OpenSwap(t, false)).value;
    if s.pcs[t].succ == s.next[s.pcs[t].top] {
      var stack', at' := PopStep(s, stack, at, t);
    }
    if stack', at' :| Partition(s', stack', at') {
      StaleSuccessorIsCaught(s, stack, at, t, stack', at');
    }
  }

  // Whatever is listed apart from the head stays listed.
  lemma StaysListed(s: State, stack: seq<nat>, at: seq<Place>, t: nat, stack': seq<nat>, at': seq<Place>, d: nat)
    requires Partition(s, stack, at) && t < |s.pcs| && s.pcs[t].PopRead? && s.first == To(s.pcs[t].top)
    requires Partition(Next(s, OpenSwap(t, false)).value, stack', at')
    requires d < |at| && d != s.pcs[t].top
    ensures at[d].Listed? <==> at'[d].Listed?
    ensures at[d].Listed? ==> at[d].i + 1 < |stack|
  {
    var s' := Next(s, OpenSwap(t, false)).value;
    assert PlaceMatches(s, stack, at, d) && PlaceMatches(s', stack', at', d);
    if at[d].InHand? {
      assert HandMatches(s', at', at[d].t);
    }
    if at'[d].InHand? {
      assert HandMatches(s, at, at'[d].t);
    }
  }

  lemma PointsAtOneBelow(s: State, stack: seq<nat>, at: seq<Place>, z: nat, y: nat)
    requires Partition(s, stack, at) && z < |at| && at[z].Listed? && s.next[z] == To(y)
    ensures y < |at| && at[y].Listed? && at[z] == Listed(at[y].i + 1)
  {
    assert PlaceMatches(s, stack, at, z);
    var i := at[z].i;
    assert i > 0 ==> s.next[stack[i]] == To(stack[i - 1]) && at[stack[i - 1]] == Listed(i - 1);
  }

  lemma StaleSuccessorIsCaught(s: State, stack: seq<nat>, at: seq<Place>, t: nat, stack': seq<nat>, at': seq<Place>)
    requires Partition(s, stack, at) && t < |s.pcs| && s.pcs[t].PopRead? && s.first == To(s.pcs[t].top)
    requires Partition(Next(s, OpenSwap(t, false)).value, stack', at')
    ensures s.pcs[t].succ == s.next[s.pcs[t].top]
  {
    var s' := Next(s, OpenSwap(t, false)).value;
    var top := s.pcs[t].top;
    assert HandMatches(s', at', t);
    if |stack| >= 2 {
      var y := stack[|stack| - 2];
      assert s.next[stack[|stack| - 1]] == To(y);
      StaysListed(s, stack, at, t, stack', at', y);
      assert PlaceMatches(s', stack', at', y);
      var j := at'[y].i;
      assert stack[|stack| - 1] == top && stack'[j] == y;
      if j + 1 == |stack'| {
        assert s'.first == To(stack'[j]);
      } else {
        var z := stack'[j + 1];
        assert s'.next[stack'[j + 1]] == To(stack'[j]);
        StaysListed(s, stack, at, t, stack', at', z);
        PointsAtOneBelow(s, stack, at, z, y);
      }
    } else if stack' != [] {
      var z := stack'[|stack'| - 1];
      StaysListed(s, stack, at, t, stack', at', z);
    }
  }

  // ---- Threads that run alone for a while

  lemma {:induction false} RunThen(s: State, es: seq<Event>, u: nat, mid: State, e: Event)
    returns (es': seq<Event>, s': State)
    requires Run(s, es) == Some(mid) && AllBeside(s, es, u) && Next(mid, e).Some? && Beside(mid, e, u)
    ensures es' == es + [e] && s' == Next(mid, e).value && Run(s, es') == Some(s') && AllBeside(s, es', u)
    decreases |es|
  {
    es', s' := es + [e], Next(mid, e).value;
    if es == [] {
      assert es'[1..] == [];
    } else {
      var _, _ := RunThen(Next(s, es[0]).value, es[1..], u, mid, e);
      assert es'[1..] == es[1..] + [e];
    }
  }

  ghost predicate NobodyBut(s: State, u: nat) {
    forall t :: 0 <= t < |s.pcs| && t != u ==> !s.pcs[t].Popping()
  }

  // An ms_fopen that nobody interrupts takes the head of the list.
  lemma OpenAlone(s: State, es: seq<Event>, u: nat, mid: State, t: nat) returns (es': seq<Event>, s': State)
    requires Run(s, es) == Some(mid) && AllBeside(s, es, u) && NobodyBut(mid, u) && t != u
    requires t < |mid.pcs| && mid.pcs[t].Out? && mid.first.To? && mid.first.id < |mid.next|
    ensures Run(s, es') == Some(s') && AllBeside(s, es', u)
    ensures s' == mid.(first := mid.next[mid.first.id], held := mid.held + {mid.first.id})
  {
    es', s' := RunThen(s, es, u, mid, OpenLoad(t));
    es', s' := OpenLoaded(s, es', u, s', t);
    assert s'.pcs == mid.pcs;
  }

  // The same once the thread has loaded the head
  lemma OpenLoaded(s: State, es: seq<Event>, u: nat, mid: State, t: nat) returns (es': seq<Event>, s': State)
    requires Run(s, es) == Some(mid) && AllBeside(s, es, u)
    requires t < |mid.pcs| && mid.pcs[t] == PopLoaded(mid.first) && mid.first.To? && mid.first.id < |mid.next|
    ensures Run(s, es') == Some(s') && AllBeside(s, es', u)
    ensures s' == mid.(first := mid.next[mid.first.id], held := mid.held + {mid.first.id}, pcs := mid.pcs[t := Out])
  {
    es', s' := RunThen(s, es, u, mid, OpenRead(t));
    es', s' := RunThen(s, es', u, s', OpenSwap(t, false));
    es', s' := RunThen(s, es', u, s', BackendOpen(t, true));
    assert s'.pcs == mid.pcs[t := Out];
  }

  // An ms_fclose that nobody interrupts puts the descriptor back at the head.
  lemma CloseAlone(s: State, es: seq<Event>, u: nat, mid: State, t: nat, d: nat) returns (es': seq<Event>, s': State)
    requires Run(s, es) == Some(mid) && AllBeside(s, es, u)
    requires t < |mid.pcs| && mid.pcs[t].Out? && d in mid.held && d < |mid.next|
    ensures Run(s, es') == Some(s') && AllBeside(s, es', u)
    ensures s' == mid.(next := mid.next[d := mid.first], first := To(d), held := mid.held - {d})
  {
    es', s' := RunThen(s, es, u, mid, Close(t, d));
    es', s' := PushAlone(s, es', u, s', t);
    assert s'.pcs == mid.pcs;
  }

  // A thread that has a descriptor in its hands can put it back without interruption.
  lemma PushAlone(s: State, es: seq<Event>, u: nat, mid: State, t: nat) returns (es': seq<Event>, s': State)
    requires Run(s, es) == Some(mid) && AllBeside(s, es, u)
    requires t < |mid.pcs| && mid.pcs[t].HasHand() && mid.pcs[t].d < |mid.next|
    ensures Run(s, es') == Some(s') && AllBeside(s, es', u)
    ensures var d := mid.pcs[t].d;
      s' == mid.(next := mid.next[d := mid.first], first := To(d), pcs := mid.pcs[t := Out])
  {
    var d := mid.pcs[t].d;
    es', s' := es, mid;
    if s'.pcs[t].Opening? {
      es', s' := RunThen(s, es', u, s', BackendOpen(t, false));
    }
    if s'.pcs[t].Releasing? {
      es', s' := RunThen(s, es', u, s', ReleaseLoad(t));
    }
    if s'.pcs[t].RelLoaded? {
      es', s' := RunThen(s, es', u, s', ReleaseStore(t));
    }
    es', s' := SwapFresh(s, es', u, s', t);
    assert s'.pcs == mid.pcs[t := Out] && s'.next == mid.next[d := mid.first];
  }

  // A swap in vain, and then one that sees the head as it is
  lemma SwapFresh(s: State, es: seq<Event>, u: nat, mid: State, t: nat) returns (es': seq<Event>, s': State)
    requires Run(s, es) == Some(mid) && AllBeside(s, es, u)
    requires t < |mid.pcs| && mid.pcs[t].RelStored? && mid.pcs[t].d < |mid.next|
    ensures Run(s, es') == Some(s') && AllBeside(s, es', u)
    ensures var d := mid.pcs[t].d;
      s' == mid.(next := mid.next[d := mid.first], first := To(d), pcs := mid.pcs[t := Out])
  {
    es', s' := RunThen(s, es, u, mid, ReleaseSwap(t, true));
    es', s' := RunThen(s, es', u, s', ReleaseStore(t));
    es', s' := RunThen(s, es', u, s', ReleaseSwap(t, false));
    assert s'.pcs == mid.pcs[t := Out];
  }

  // Opening and closing again leaves the list as it was.
  lemma OpenThenClose(s: State, t: nat, d: nat) returns (es: seq<Event>)
    requires NobodyBut(s, |s.pcs|)
    requires t < |s.pcs| && s.pcs[t].Out? && s.first == To(d) && d < |s.next| && d !in s.held
    ensures Run(s, es) == Some(s)
  {
    var s';
    es, s' := OpenAlone(s, [], |s.pcs|, s, t);
    es, s' := CloseAlone(s, es, |s.pcs|, s', t, d);
    assert s'.next == s.next && s'.held == s.held;
  }

  // ---- Two threads in the loop of ms_fopen at once

  // Some descriptor is lost or in two places.
  ghost predicate Broken(s: State) {
    forall stack, at :: !Partition(s, stack, at)
  }

  ghost predicate BreaksBeside(s: State, u: nat) {
    exists es :: BreaksBy(s, es, u)
  }

  ghost predicate BreaksBy(s: State, es: seq<Event>, u: nat) {
    AllBeside(s, es, u) && Run(s, es).Some? && Broken(Run(s, es).value)
  }

  lemma HeadNotHeld(s: State, stack: seq<nat>, at: seq<Place>)
    requires Partition(s, stack, at)
    ensures s.first.To? ==> s.first.id !in s.held
  {
    assert stack != [] ==> PlaceMatches(s, stack, at, stack[|stack| - 1]);
  }

  lemma HeldHeadBreaks(s: State, d: nat)
    requires s.first == To(d) && d in s.held
    ensures Broken(s)
  {
    forall stack, at
      ensures !Partition(s, stack, at)
    {
      if Partition(s, stack, at) {
        HeadNotHeld(s, stack, at);
      }
    }
  }

  lemma SomewhereElse(s: State, stack: seq<nat>, at: seq<Place>, d: nat)
    requires Partition(s, stack, at) && s.first == Null && d < |s.next|
    ensures d in s.held || exists t :: 0 <= t < |s.pcs| && InHandOf(s, d, t)
  {
    PartitionIsOnePlace(s, stack, at, d);
  }

  lemma NowhereBreaks(s: State, d: nat)
    requires s.first == Null && d < |s.next| && d !in s.held
    requires forall t :: 0 <= t < |s.pcs| ==> !InHandOf(s, d, t)
    ensures Broken(s)
  {
    forall stack, at
      ensures !Partition(s, stack, at)
    {
      if Partition(s, stack, at) {
        SomewhereElse(s, stack, at, d);
      }
    }
  }

  // Thread u comes to hold the head and its successor as they are, whatever it had read.
  lemma Refresh(s: State, es: seq<Event>, u: nat, mid: State) returns (es': seq<Event>, s': State)
    requires Run(s, es) == Some(mid) && AllBeside(s, es, u) && u < |mid.pcs| && mid.pcs[u].Aims()
    requires mid.pcs[u].PopLoaded? ==> mid.pcs[u].node.id < |mid.next|
    requires mid.first.To? && mid.first.id < |mid.next|
    ensures Run(s, es') == Some(s') && AllBeside(s, es', u)
    ensures s' == mid.(pcs := mid.pcs[u := PopRead(mid.first.id, mid.next[mid.first.id])])
  {
    es', s' := es, mid;
    if s'.pcs[u].PopLoaded? {
      es', s' := RunThen(s, es', u, s', OpenRead(u));
    }
    es', s' := RunThen(s, es', u, s', OpenSwap(u, true));
    es', s' := RunThen(s, es', u, s', OpenRead(u));
    assert s'.pcs == mid.pcs[u := PopRead(mid.first.id, mid.next[mid.first.id])];
  }

  // With a second descriptor b on the list: t opens both and closes the first. The swap
  // of u then succeeds with a successor that is open.
  lemma BreakWithListed(s: State, es: seq<Event>, u: nat, mid: State, t: nat, a: nat, b: nat) returns (es': seq<Event>)
    requires Run(s, es) == Some(mid) && AllBeside(s, es, u) && NobodyBut(mid, u)
    requires t < |mid.pcs| && u < |mid.pcs| && t != u && mid.pcs[t].Out? && mid.pcs[u] == PopRead(a, To(b))
    requires a in mid.held && a < |mid.next| && b < |mid.next| && a != b && mid.first == To(b)
    ensures AllBeside(s, es', u) && Run(s, es').Some? && Broken(Run(s, es').value)
  {
    var s';
    es', s' := OpenAlone(s, es, u, mid, t);
    es', s' := CloseAlone(s, es', u, s', t, a);
    es', s' := RunThen(s, es', u, s', OpenSwap(u, false));
    HeldHeadBreaks(s', b);
  }

  // With a second descriptor c that was put back while the first was out: t closes the
  // first on top of it, and the swap of u takes both off the list.
  lemma BreakWithReturned(s: State, es: seq<Event>, u: nat, mid: State, t: nat, a: nat, c: nat)
    returns (es': seq<Event>)
    requires Run(s, es) == Some(mid) && AllBeside(s, es, u)
    requires t < |mid.pcs| && u < |mid.pcs| && t != u && mid.pcs[t].Out? && mid.pcs[u] == PopRead(a, Null)
    requires a in mid.held && a < |mid.next| && c < |mid.next| && a != c && c !in mid.held
    requires forall v :: 0 <= v < |mid.pcs| ==> !InHandOf(mid, c, v)
    ensures AllBeside(s, es', u) && Run(s, es').Some? && Broken(Run(s, es').value)
  {
    var s';
    es', s' := CloseAlone(s, es, u, mid, t, a);
    es', s' := RunThen(s, es', u, s', OpenSwap(u, false));
    forall v | 0 <= v < |s'.pcs|
      ensures !InHandOf(s', c, v)
    {
      assert !InHandOf(mid, c, v);
    }
    NowhereBreaks(s', c);
  }

  // Thread u refreshes and t, which has entered the loop beside it, opens the head.
  lemma StaleHead(s: State, stack: seq<nat>, at: seq<Place>, t: nat, u: nat) returns (es: seq<Event>, s': State, a: nat)
    requires Inv(s, stack, at, |s.pcs|) && t < |s.pcs| && u < |s.pcs| && t != u
    requires s.pcs[u].Aims() && s.pcs[t].Out?
    ensures var s1 := Next(s, OpenLoad(t)).value; AllBeside(s1, es, u) && Run(s1, es) == Some(s')
    ensures stack != [] && a == stack[|stack| - 1] && a < |s.next| && a !in s.held && s.first == To(a)
    ensures s' == s.(first := s.next[a], held := s.held + {a}, pcs := s.pcs[u := PopRead(a, s.next[a])])
  {
    var s1 := Next(s, OpenLoad(t)).value;
    assert PopMatches(s, at, u);
    var target := if s.pcs[u].PopLoaded? then s.pcs[u].node.id else s.pcs[u].top;
    assert PlaceMatches(s, stack, at, target);
    a := stack[|stack| - 1];
    assert PlaceMatches(s, stack, at, a);
    es, s' := Refresh(s1, [], u, s1);
    es, s' := OpenLoaded(s1, es, u, s', t);
    assert s'.pcs == s.pcs[u := PopRead(a, s.next[a])];
  }

  // A descriptor that is open or in some thread's hands is put back.
  lemma PutBack(s1: State, es: seq<Event>, u: nat, s: State, stack: seq<nat>, at: seq<Place>, t: nat, mid: State,
                a: nat, c: nat)
    returns (es': seq<Event>, s': State)
    requires Run(s1, es) == Some(mid) && AllBeside(s1, es, u)
    requires Partition(s, stack, at) && stack == [a] && c < |s.next| && c != a && a < |s.next|
    requires t < |s.pcs| && u < |s.pcs| && t != u && s.pcs[t].Out? && s.pcs[u].Popping()
    requires mid == s.(first := Null, held := s.held + {a}, pcs := s.pcs[u := PopRead(a, Null)])
    ensures Run(s1, es') == Some(s') && AllBeside(s1, es', u)
    ensures |s'.pcs| == |s.pcs| && s'.pcs[t].Out? && s'.pcs[u] == PopRead(a, Null)
    ensures |s'.next| == |s.next| && a in s'.held && c !in s'.held
    ensures forall v :: 0 <= v < |s'.pcs| ==> !InHandOf(s', c, v)
  {
    assert PlaceMatches(s, stack, at, c);
    forall v | 0 <= v < |s.pcs| && InHandOf(s, c, v)
      ensures at[c] == InHand(v)
    {
      assert HandMatches(s, at, v);
    }
    if at[c].Held? {
      es', s' := CloseAlone(s1, es, u, mid, t, c);
    } else {
      es', s' := PushAlone(s1, es, u, mid, at[c].t);
    }
    forall v | 0 <= v < |s'.pcs|
      ensures !InHandOf(s', c, v)
    {
      assert InHandOf(s, c, v) ==> at[c] == InHand(v);
    }
  }

  // Thread t has entered the loop beside u, which aims at a node, and there are two
  // descriptors.
  lemma BesideCanBreak(s: State, stack: seq<nat>, at: seq<Place>, t: nat, u: nat) returns (es: seq<Event>)
    requires Inv(s, stack, at, |s.pcs|) && t < |s.pcs| && u < |s.pcs| && t != u
    requires s.pcs[u].Aims() && NobodyBut(s, u) && s.pcs[t].Out? && |s.next| >= 2
    ensures BreaksBy(Next(s, OpenLoad(t)).value, es, u)
  {
    var s1 := Next(s, OpenLoad(t)).value;
    var s', a;
    es, s', a := StaleHead(s, stack, at, t, u);
    if |stack| >= 2 {
      var b := stack[|stack| - 2];
      assert s.next[stack[|stack| - 1]] == To(b) && at[b] == Listed(|stack| - 2) && at[a] == Listed(|stack| - 1);
      es := BreakWithListed(s1, es, u, s', t, a, b);
    } else {
      var c := if a == 0 then 1 else 0;
      es, s' := PutBack(s1, es, u, s, stack, at, t, s', a, c);
      es := BreakWithReturned(s1, es, u, s', t, a, c);
    }
  }

  // ---- One descriptor

  // With a single descriptor there is nothing to mix up, however many threads are in
  // the loop.
  ghost predicate OneInv(s: State, stack: seq<nat>, at: seq<Place>) {
    && Partition(s, stack, at) && |s.next| == 1 && s.next[0] == Null
    && (forall t :: 0 <= t < |s.pcs| ==> SeesNothing(s.pcs[t]))
  }

  ghost predicate SeesNothing(pc: Pc) {
    match pc
    case PopLoaded(To(d)) => d == 0
    case PopRead(d, x) => d == 0 && x == Null
    case RelLoaded(_, x) => x == Null
    case RelStored(_, x) => x == Null
    case _ => true
  }

  lemma OnlyZeroListed(s: State, stack: seq<nat>, at: seq<Place>)
    requires OneInv(s, stack, at)
    ensures stack != [] ==> at[0].Listed?
  {
    assert stack != [] ==> stack[0] == 0;
  }

  lemma HandMeansEmpty(s: State, stack: seq<nat>, at: seq<Place>, t: nat)
    requires OneInv(s, stack, at) && t < |s.pcs| && s.pcs[t].HasHand()
    ensures stack == [] && s.first == Null
  {
    OnlyZeroListed(s, stack, at);
    assert HandMatches(s, at, t);
  }

  lemma OneStep(s: State, stack: seq<nat>, at: seq<Place>, e: Event) returns (stack': seq<nat>, at': seq<Place>)
    requires OneInv(s, stack, at) && Next(s, e).Some?
    ensures OneInv(Next(s, e).value, stack', at')
  {
    stack', at' := stack, at;
    assert SeesNothing(s.pcs[e.t]);
    if s.pcs[e.t].HasHand() {
      HandMeansEmpty(s, stack, at, e.t);
    }
    if e.OpenSwap? && s.first == To(s.pcs[e.t].top) && !e.spurious {
      stack', at' := PopStep(s, stack, at, e.t);
    } else if e.ReleaseSwap? && s.first == s.pcs[e.t].seen && !e.spurious {
      stack', at' := PushStep(s, stack, at, e.t);
    } else if e.BackendOpen? || e.Close? {
      at' := HeldStep(s, stack, at, e);
    } else {
      OtherStep(s, stack, at, e);
    }
    var s' := Next(s, e).value;
    forall v | 0 <= v < |s'.pcs| ensures SeesNothing(s'.pcs[v]) { assert SeesNothing(s.pcs[v]); }
  }

  lemma {:induction false} OneRun(s: State, stack: seq<nat>, at: seq<Place>, es: seq<Event>)
    returns (stack': seq<nat>, at': seq<Place>)
    requires OneInv(s, stack, at) && Run(s, es).Some?
    ensures OneInv(Run(s, es).value, stack', at')
    decreases |es|
  {
    stack', at' := stack, at;
    if es != [] {
      stack', at' := OneStep(s, stack, at, es[0]);
      stack', at' := OneRun(Next(s, es[0]).value, stack', at', es[1..]);
    }
  }

  // ---- Exactly when a second thread may enter the loop

  // After a serial run, thread t enters the loop beside u. Whatever follows, as long as
  // the threads other than u keep entering one at a time, no descriptor is shared or
  // lost if and only if u has found the list empty or there is only one descriptor.
  lemma EnteringBesideExact(s: State, es: seq<Event>, t: nat, u: nat)
    requires Initial(s) && Run(s, es).Some? && AllSerial(s, es)
    requires var s' := Run(s, es).value;
      t < |s'.pcs| && u < |s'.pcs| && t != u && s'.pcs[t].Out? && s'.pcs[u].Popping() && NobodyBut(s', u)
    ensures var s' := Run(s, es).value;
      BreaksBeside(Next(s', OpenLoad(t)).value, u) <==> s'.pcs[u] != PopLoaded(Null) && |s'.next| >= 2
  {
    var s' := Run(s, es).value;
    var s1 := Next(s', OpenLoad(t)).value;
    var stack, at := SerialInv(s, es);
    if s'.pcs[u] == PopLoaded(Null) {
      var stack1, at1 := StepKeepsInv(s', stack, at, u, OpenLoad(t));
      forall fs | AllBeside(s1, fs, u) && Run(s1, fs).Some?
        ensures !BreaksBy(s1, fs, u)
      {
        var stack2, at2 := RunKeepsInv(s1, stack1, at1, u, fs);
      }
    } else if |s'.next| >= 2 {
      var fs := BesideCanBreak(s', stack, at, t, u);
    } else {
      RunKeepsSizes(s, es);
      OneNeverBreaks(s, es, t, u);
    }
  }

  lemma OneNeverBreaks(s: State, es: seq<Event>, t: nat, u: nat)
    requires Initial(s) && |s.next| == 1 && Run(s, es).Some? && Next(Run(s, es).value, OpenLoad(t)).Some?
    ensures !BreaksBeside(Next(Run(s, es).value, OpenLoad(t)).value, u)
  {
    var stack, at := InitialInv(s);
    stack, at := OneRun(s, stack, at, es);
    stack, at := OneStep(Run(s, es).value, stack, at, OpenLoad(t));
    var s1 := Next(Run(s, es).value, OpenLoad(t)).value;
    forall fs | AllBeside(s1, fs, u) && Run(s1, fs).Some?
      ensures !BreaksBy(s1, fs, u)
    {
      var stack2, at2 := OneRun(s1, stack, at, fs);
    }
  }

  // A serial run of one event, from two descriptors and two threads, after which the
  // second thread had better wait.
  lemma StaleSwapSharesDescriptor() returns (s: State, es: seq<Event>)
    ensures Initial(s) && Run(s, es).Some? && AllSerial(s, es)
    ensures var s' := Run(s, es).value;
      Next(s', OpenLoad(1)).Some? && BreaksBeside(Next(s', OpenLoad(1)).value, 0)
  {
    s := State([To(1), Null], To(0), [Out, Out], {});
    es := [OpenLoad(0)];
    assert Run(Next(s, es[0]).value, []) == Some(Next(s, es[0]).value);
    assert es[1..] == [];
    EnteringBesideExact(s, es, 1, 0);
  }
}
