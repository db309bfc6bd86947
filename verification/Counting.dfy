// Counting and summing over sequences, one entry changed at a time.

module Counting {

  ghost function Count(bs: seq<bool>): nat {
    if bs == [] then 0 else (if bs[0] then 1 else 0) + Count(bs[1..])
  }

  ghost function Total(ns: seq<nat>): nat {
    if ns == [] then 0 else ns[0] + Total(ns[1..])
  }

  lemma {:induction false} CountUpdate(bs: seq<bool>, i: nat, b: bool)
    requires i < |bs|
    ensures Count(bs[i := b]) + (if bs[i] then 1 else 0) == Count(bs) + (if b then 1 else 0)
  {
    if i > 0 {
      CountUpdate(bs[1..], i - 1, b);
      assert bs[i := b][1..] == bs[1..][i - 1 := b];
    } else {
      assert bs[i := b][1..] == bs[1..];
    }
  }

  lemma {:induction false} TotalUpdate(ns: seq<nat>, i: nat, n: nat)
    requires i < |ns|
    ensures Total(ns[i := n]) + ns[i] == Total(ns) + n
  {
    if i > 0 {
      TotalUpdate(ns[1..], i - 1, n);
      assert ns[i := n][1..] == ns[1..][i - 1 := n];
    } else {
      assert ns[i := n][1..] == ns[1..];
    }
  }

  lemma {:induction false} CountBounds(bs: seq<bool>)
    ensures Count(bs) <= |bs|
    ensures Count(bs) == 0 <==> forall i :: 0 <= i < |bs| ==> !bs[i]
    ensures Count(bs) == |bs| <==> forall i :: 0 <= i < |bs| ==> bs[i]
  {
    if bs != [] {
      CountBounds(bs[1..]);
      assert forall i :: 1 <= i < |bs| ==> bs[i] == bs[1..][i - 1];
    }
  }

  lemma {:induction false} TotalBounds(ns: seq<nat>, m: nat)
    requires forall i :: 0 <= i < |ns| ==> ns[i] <= m
    ensures Total(ns) <= m * |ns|
  {
    if ns != [] {
      TotalBounds(ns[1..], m);
    }
  }
}
