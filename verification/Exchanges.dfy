/**
 Reordering an array by exchanging the elements at paired indices, one pair after the other, each pair once.
 */
module Exchanges {

  /** When a pair has its turn; keys are ordered lexicographically. */
  datatype Key = Key(hi: nat, lo: nat, step: nat) {

    predicate Before(that: Key) {
      hi < that.hi || (hi == that.hi && (lo < that.lo || (lo == that.lo && step < that.step)))
    }
  }

  /** `partner` pairs up the indices, and both indices of a pair have the same key. */
  datatype Plan = Plan(partner: seq<nat>, key: seq<Key>) {

    ghost predicate Valid() {
      && |key| == |partner|
      && (forall i :: 0 <= i < |partner| ==> partner[i] < |partner| && partner[partner[i]] == i)
      && forall i :: 0 <= i < |partner| ==> key[partner[i]] == key[i]
    }

    /** Of the pairs whose turn is not before `now` but before `next`, `u` and its partner are the only one. */
    ghost predicate OnlyPair(u: nat, now: Key, next: Key)
      requires Valid()
    {
      && u < |partner| && !key[u].Before(now) && key[u].Before(next) && (now == next || now.Before(next))
      && forall i :: 0 <= i < |partner| && partner[i] != i && !key[i].Before(now) && key[i].Before(next) ==>
           i == u || i == partner[u]
    }

    /** Where the element at index `i` comes from when all turns before `now` are over. */
    ghost function Source(i: nat, now: Key): nat
      requires Valid()
    {
      if i < |partner| && key[i].Before(now) then partner[i] else i
    }
  }

  /** The array when all turns before `now` are over. */
  ghost function After<T>(plan: Plan, before: seq<T>, now: Key): (r: seq<T>)
    requires plan.Valid() && |before| >= |plan.partner|
    ensures |r| == |before|
  {
    seq(|before|, i requires 0 <= i < |before| => before[plan.Source(i, now)])
  }

  /** Exchanges the next pair. */
  method SwapNext<T>(a: array<T>, u: nat, v: nat, ghost plan: Plan, ghost before: seq<T>, ghost now: Key,
        ghost next: Key)
    requires plan.Valid() && |before| >= |plan.partner| && a[..] == After(plan, before, now)
    requires plan.OnlyPair(u, now, next) && v == plan.partner[u]
    modifies a
    ensures a[..] == After(plan, before, next)
  {
    assert forall i :: 0 <= i < |before| ==> a[..][i] == before[plan.Source(i, now)];
    var x := a[u];
    a[u] := a[v];
    a[v] := x;
    forall i | 0 <= i < |before| ensures a[i] == before[plan.Source(i, next)] {
    }
  }

  lemma AfterStart<T>(plan: Plan, a: seq<T>)
    requires plan.Valid() && |a| >= |plan.partner|
    ensures After(plan, a, Key(0, 0, 0)) == a
  {
  }

  /** A turn that no pair has can be left out. */
  lemma AfterSkip<T>(plan: Plan, before: seq<T>, now: Key, next: Key)
    requires plan.Valid() && |before| >= |plan.partner|
    requires forall i :: 0 <= i < |plan.partner| ==> (plan.key[i].Before(now) <==> plan.key[i].Before(next))
    ensures After(plan, before, now) == After(plan, before, next)
  {
  }
}
