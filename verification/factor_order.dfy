/**
  The order in which the client runs the factors of a session: a selection sort by
  priority (misc/pam-module/auth/utils.c, resolve_authctrl_factors).
 */
module FactorOrders {
  import opened AuthTypes
  import opened Collections

  datatype AuthFactor = AuthFactor(authType: Flag, priority: int)

  /** Every number below n exactly once. */
  ghost predicate IsPermutation(order: seq<int>, n: nat) {
    && |order| == n
    && (forall i | 0 <= i < n :: 0 <= order[i] < n)
    && Distinct(order)
  }

  ghost predicate ByPriority(factors: seq<AuthFactor>, order: seq<int>) {
    && IsPermutation(order, |factors|)
    && forall i, j | 0 <= i <= j < |factors| :: factors[order[i]].priority >= factors[order[j]].priority
  }

  function Below(n: nat): (below: set<int>)
    ensures |below| == n && forall i :: i in below <==> 0 <= i < n
  {
    if n == 0 then {} else Below(n - 1) + {n - 1}
  }

  /** No factor is left out of the order. */
  lemma PermutationCovers(order: seq<int>, n: nat, f: nat)
    requires IsPermutation(order, n) && f < n
    ensures f in order
  {
    MembersSize(order);
    SubsetSize(Members(order), Below(n));
    assert f in Below(n);
  }

  /** The scratch array holds the priorities in the order reached so far. */
  ghost predicate Tied(factors: seq<AuthFactor>, factorOrder: seq<int>, order: seq<int>) {
    && IsPermutation(factorOrder, |factors|) && |order| == |factors|
    && forall k | 0 <= k < |factors| :: order[k] == factors[factorOrder[k]].priority
  }

  /** The first i places hold the i largest priorities, in order. */
  ghost predicate Selected(order: seq<int>, i: nat) {
    forall p, q | 0 <= p < i && p <= q < |order| :: order[p] >= order[q]
  }

  function Swap(s: seq<int>, i: nat, j: nat): seq<int>
    requires i < |s| && j < |s|
  {
    s[i := s[j]][j := s[i]]
  }

  lemma SwapKeepsTied(factors: seq<AuthFactor>, factorOrder: seq<int>, order: seq<int>, i: nat, j: nat)
    requires Tied(factors, factorOrder, order) && i <= j < |factors|
    ensures Tied(factors, Swap(factorOrder, i, j), Swap(order, i, j))
  {
  }

  lemma SwapSelects(order: seq<int>, i: nat, j: nat)
    requires i <= j < |order| && Selected(order, i)
    requires forall q | i <= q < |order| :: order[j] >= order[q]
    ensures Selected(Swap(order, i, j), i + 1)
  {
  }

  lemma SelectedIsSorted(factors: seq<AuthFactor>, factorOrder: seq<int>, order: seq<int>)
    requires Tied(factors, factorOrder, order) && Selected(order, if |factors| > 0 then |factors| - 1 else 0)
    ensures ByPriority(factors, factorOrder)
  {
    forall i, j | 0 <= i <= j < |factors|
      ensures factors[factorOrder[i]].priority >= factors[factorOrder[j]].priority
    {
      assert order[i] >= order[j];
    }
  }

  /** The first of the largest elements from i on. */
  method MaxFrom(order: array<int>, i: nat) returns (maxIdx: nat)
    requires i < order.Length
    ensures i <= maxIdx < order.Length
    ensures forall q | i <= q < order.Length :: order[maxIdx] >= order[q]
    ensures forall q | i <= q < maxIdx :: order[q] < order[maxIdx]
  {
    maxIdx := i;
    for j := i + 1 to order.Length
      invariant i <= maxIdx < j
      invariant forall q | i <= q < j :: order[maxIdx] >= order[q]
      invariant forall q | i <= q < maxIdx :: order[q] < order[maxIdx]
    {
      if order[maxIdx] < order[j] {
        maxIdx := j;
      }
    }
  }

  method Exchange(a: array<int>, i: nat, j: nat)
    requires i < a.Length && j < a.Length
    modifies a
    ensures a[..] == Swap(old(a[..]), i, j)
  {
    var tmp := a[i];
    a[i] := a[j];
    a[j] := tmp;
  }

  method ResolveOrder(factors: seq<AuthFactor>) returns (factorOrder: array<int>)
    ensures fresh(factorOrder) && ByPriority(factors, factorOrder[..])
  {
    var length := |factors|;
    factorOrder := new int[length];
    var order := new int[length];
    for i := 0 to length
      invariant forall k | 0 <= k < i :: factorOrder[k] == k && order[k] == factors[k].priority
    {
      order[i] := factors[i].priority;
      factorOrder[i] := i;
    }
    var i := 0;
    while i < length - 1
      invariant 0 <= i <= length
      invariant i == 0 || i <= length - 1
      invariant Tied(factors, factorOrder[..], order[..])
      invariant Selected(order[..], i)
    {
      ghost var factorOrder0, order0 := factorOrder[..], order[..];
      var maxIdx := MaxFrom(order, i);
      Exchange(factorOrder, i, maxIdx);
      Exchange(order, i, maxIdx);
      SwapKeepsTied(factors, factorOrder0, order0, i, maxIdx);
      SwapSelects(order0, i, maxIdx);
      i := i + 1;
    }
    SelectedIsSorted(factors, factorOrder[..], order[..]);
  }

  /** The types of the factors in the order they are run. */
  function Walk(factors: seq<AuthFactor>, order: seq<int>): (walk: seq<Flag>)
    requires forall i | 0 <= i < |order| :: 0 <= order[i] < |factors|
    ensures |walk| == |order| && forall i | 0 <= i < |walk| :: walk[i] == factors[order[i]].authType
  {
    if order == [] then [] else Walk(factors, order[..|order| - 1]) + [factors[order[|order| - 1]].authType]
  }

  /** Factors of different types stay different in the walk, and each one is on it. */
  lemma WalkVisitsEachFactor(factors: seq<AuthFactor>, order: seq<int>)
    requires IsPermutation(order, |factors|)
    requires forall i, j | 0 <= i < j < |factors| :: factors[i].authType != factors[j].authType
    ensures Distinct(Walk(factors, order))
    ensures forall f | f in factors :: f.authType in Walk(factors, order)
  {
    var walk := Walk(factors, order);
    forall f | f in factors ensures f.authType in walk {
      var i :| 0 <= i < |factors| && factors[i] == f;
      PermutationCovers(order, |factors|, i);
      var p :| 0 <= p < |order| && order[p] == i;
      assert walk[p] == f.authType;
    }
  }
}
