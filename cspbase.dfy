/**
  The part of the constraint library that the propagators use: variables with
  current domains and optional assigned values, table constraints over ordered
  scopes, the support test, and the pruning log the search driver restores from.
  Variables and constraints are identified by their index in the CSP.
*/
module CspBase {
  import opened Wrappers

  /** Every value of every domain lies in 0 .. NumValues - 1 (the digits of the grid). */
  const NumValues: nat := 10

  /** A table constraint: an ordered scope of variable indices and its satisfying tuples. */
  datatype Constraint = Constraint(scope: seq<nat>, tuples: set<seq<int>>)

  /** A CSP as the model builder registers it: the domain of each variable, and the constraints in order. */
  datatype Problem = Problem(doms: seq<set<int>>, cons: seq<Constraint>)

  /** A (variable, value) pair removed from a current domain. */
  type Pruning = (nat, int)

  predicate Distinct<T(==)>(s: seq<T>) {
    forall i, j :: 0 <= i < j < |s| ==> s[i] != s[j]
  }

  predicate Increasing(s: seq<nat>) {
    forall i, j :: 0 <= i < j < |s| ==> s[i] < s[j]
  }

  /** Value a is in the current domain of variable v. */
  predicate InDom(doms: seq<set<int>>, v: nat, a: int) {
    v < |doms| && a in doms[v]
  }

  predicate DomainsInRange(doms: seq<set<int>>) {
    forall v, a :: 0 <= v < |doms| && a in doms[v] ==> 0 <= a < NumValues
  }

  predicate ScopeOk(scope: seq<nat>, n: nat) {
    (forall k :: 0 <= k < |scope| ==> scope[k] < n) && Distinct(scope)
  }

  predicate ScopesOk(cons: seq<Constraint>, n: nat) {
    forall ci :: 0 <= ci < |cons| ==> ScopeOk(cons[ci].scope, n)
  }

  predicate WellFormed(p: Problem) {
    DomainsInRange(p.doms) && ScopesOk(p.cons, |p.doms|)
  }

  /**
    The support test has_support: some satisfying tuple carries a at position pos
    and, at every other position, a value in that variable's current domain.
  */
  predicate Supported(doms: seq<set<int>>, c: Constraint, pos: nat, a: int) {
    exists t :: t in c.tuples && |t| == |c.scope| && pos < |t| && t[pos] == a &&
      forall k :: 0 <= k < |t| && k != pos ==> InDom(doms, c.scope[k], t[k])
  }

  /** Generalised arc consistency of one constraint: every remaining value of every scope variable has support. */
  ghost predicate Consistent(doms: seq<set<int>>, c: Constraint) {
    forall p, a {:trigger Supported(doms, c, p, a)} ::
      0 <= p < |c.scope| && InDom(doms, c.scope[p], a) ==> Supported(doms, c, p, a)
  }

  /** d2 is d1 with some values removed. */
  ghost predicate Shrunk(d2: seq<set<int>>, d1: seq<set<int>>) {
    |d2| == |d1| && forall v :: 0 <= v < |d1| ==> d2[v] <= d1[v]
  }

  /** Removing values never creates support. */
  lemma SupportedMono(d1: seq<set<int>>, d2: seq<set<int>>, c: Constraint, pos: nat, a: int)
    requires Shrunk(d2, d1)
    ensures Supported(d2, c, pos, a) ==> Supported(d1, c, pos, a)
  {
    if Supported(d2, c, pos, a) {
      var t :| t in c.tuples && |t| == |c.scope| && pos < |t| && t[pos] == a &&
        forall k :: 0 <= k < |t| && k != pos ==> InDom(d2, c.scope[k], t[k]);
      assert forall k :: 0 <= k < |t| && k != pos ==> InDom(d1, c.scope[k], t[k]);
    }
  }

  /** Support at position pos depends only on the domains at the other positions. */
  lemma SupportedFrame(d1: seq<set<int>>, d2: seq<set<int>>, c: Constraint, pos: nat, a: int)
    requires |d1| == |d2|
    requires forall k :: 0 <= k < |c.scope| && k != pos && c.scope[k] < |d1| ==> d1[c.scope[k]] == d2[c.scope[k]]
    ensures Supported(d1, c, pos, a) <==> Supported(d2, c, pos, a)
  {
    if Supported(d1, c, pos, a) {
      var t :| t in c.tuples && |t| == |c.scope| && pos < |t| && t[pos] == a &&
        forall k :: 0 <= k < |t| && k != pos ==> InDom(d1, c.scope[k], t[k]);
      assert forall k :: 0 <= k < |t| && k != pos ==> InDom(d2, c.scope[k], t[k]);
    }
    if Supported(d2, c, pos, a) {
      var t :| t in c.tuples && |t| == |c.scope| && pos < |t| && t[pos] == a &&
        forall k :: 0 <= k < |t| && k != pos ==> InDom(d2, c.scope[k], t[k]);
      assert forall k :: 0 <= k < |t| && k != pos ==> InDom(d1, c.scope[k], t[k]);
    }
  }

  /** Consistency of a constraint depends only on the domains of its scope. */
  lemma ConsistentFrame(d1: seq<set<int>>, d2: seq<set<int>>, c: Constraint)
    requires |d1| == |d2|
    requires forall k :: 0 <= k < |c.scope| && c.scope[k] < |d1| ==> d1[c.scope[k]] == d2[c.scope[k]]
    ensures Consistent(d1, c) <==> Consistent(d2, c)
  {
    forall p, a | 0 <= p < |c.scope|
      ensures Supported(d1, c, p, a) <==> Supported(d2, c, p, a)
    {
      SupportedFrame(d1, d2, c, p, a);
    }
  }

  /** Indices, in increasing order, of the constraints whose scope mentions v (get_cons_with_var). */
  function ConsWith(cons: seq<Constraint>, v: nat): (r: seq<nat>)
    ensures Increasing(r)
    ensures forall i :: 0 <= i < |r| ==> r[i] < |cons|
    ensures forall ci :: ci in r <==> 0 <= ci < |cons| && v in cons[ci].scope
  {
    if cons == [] then []
    else
      var last := |cons| - 1;
      var r0 := ConsWith(cons[..last], v);
      assert forall ci :: 0 <= ci < last ==> cons[..last][ci] == cons[ci];
      assert forall i :: 0 <= i < |r0| ==> r0[i] < last by {
        forall i | 0 <= i < |r0| ensures r0[i] < last { assert r0[i] in r0; }
      }
      r0 + (if v in cons[last].scope then [last] else [])
  }

  /** The indices 0 .. n - 1 in order (get_all_cons). */
  function AllIndices(n: nat): (r: seq<nat>)
    ensures |r| == n && Increasing(r)
    ensures forall i :: 0 <= i < |r| ==> r[i] < n
    ensures forall ci :: ci in r <==> 0 <= ci < n
  {
    if n == 0 then []
    else
      var r0 := AllIndices(n - 1);
      assert forall i :: 0 <= i < |r0| ==> r0[i] < n - 1 by {
        forall i | 0 <= i < |r0| ensures r0[i] < n - 1 { assert r0[i] in r0; }
      }
      r0 + [n - 1]
  }

  /** Position k of a scope holds an unassigned variable. */
  predicate Unassigned(asg: seq<Option<int>>, scope: seq<nat>, k: nat)
    requires k < |scope|
  {
    scope[k] < |asg| && asg[scope[k]].None?
  }

  /** The scope positions, in order, whose variables are unassigned (get_unasgn_vars). */
  function UnassignedIn(asg: seq<Option<int>>, scope: seq<nat>): (r: seq<nat>)
    ensures forall i :: 0 <= i < |r| ==> r[i] < |scope|
    ensures forall k: nat :: k in r <==> k < |scope| && Unassigned(asg, scope, k)
  {
    if scope == [] then []
    else
      var last := |scope| - 1;
      var r0 := UnassignedIn(asg, scope[..last]);
      assert forall k :: 0 <= k < last ==> scope[..last][k] == scope[k];
      assert forall i :: 0 <= i < |r0| ==> r0[i] in r0 && r0[i] < last;
      r0 + (if Unassigned(asg, scope, last) then [last] else [])
  }

  /** get_unasgn_vars lists the unassigned positions in scope order, each once. */
  lemma {:induction false} UnassignedInOrder(asg: seq<Option<int>>, scope: seq<nat>)
    ensures Increasing(UnassignedIn(asg, scope))
    decreases |scope|
  {
    if scope != [] {
      UnassignedInOrder(asg, scope[..|scope| - 1]);
    }
  }

  /** Every variable of the scope is assigned. */
  predicate AllAssigned(asg: seq<Option<int>>, scope: seq<nat>) {
    forall k :: 0 <= k < |scope| ==> scope[k] < |asg| && asg[scope[k]].Some?
  }

  /** The scope-ordered assigned values of a fully assigned scope. */
  function AssignedTuple(asg: seq<Option<int>>, scope: seq<nat>): (t: seq<int>)
    requires AllAssigned(asg, scope)
    ensures |t| == |scope|
    ensures forall k :: 0 <= k < |scope| ==> asg[scope[k]] == Some(t[k])
  {
    seq(|scope|, k requires 0 <= k < |scope| => asg[scope[k]].value)
  }

  /** A constraint whose variables are all assigned, and whose check on those values fails. */
  predicate FullyAssignedFails(asg: seq<Option<int>>, c: Constraint) {
    AllAssigned(asg, c.scope) && AssignedTuple(asg, c.scope) !in c.tuples
  }

  /** The values of variable v named in a pruning list. */
  function PrunedOf(pruned: seq<Pruning>, v: nat): set<int> {
    set pr | pr in pruned && pr.0 == v :: pr.1
  }

  /**
    The pruning-list contract: no pair twice, every pair was in the domain before,
    and the domains after are those before with exactly the listed pairs removed.
  */
  ghost predicate PruneLog(before: seq<set<int>>, after: seq<set<int>>, pruned: seq<Pruning>) {
    |after| == |before| && Distinct(pruned)
    && (forall pr :: pr in pruned ==> InDom(before, pr.0, pr.1))
    && (forall v :: 0 <= v < |before| ==> after[v] == before[v] - PrunedOf(pruned, v))
  }

  /** The domains before with the values of a pruning list removed: the domains after a prefix of the log. */
  function Minus(before: seq<set<int>>, pruned: seq<Pruning>): seq<set<int>> {
    seq(|before|, v requires 0 <= v < |before| => before[v] - PrunedOf(pruned, v))
  }

  /** A pruning log's domains after are the domains before minus the whole log. */
  lemma PruneLogMinus(before: seq<set<int>>, after: seq<set<int>>, pruned: seq<Pruning>)
    requires PruneLog(before, after, pruned)
    ensures after == Minus(before, pruned)
  {
  }

  /** Pruning one more present value extends a pruning log. */
  lemma PruneLogStep(before: seq<set<int>>, cur: seq<set<int>>, pruned: seq<Pruning>, x: nat, a: int)
    requires PruneLog(before, cur, pruned)
    requires InDom(cur, x, a)
    ensures PruneLog(before, cur[x := cur[x] - {a}], pruned + [(x, a)])
  {
    var p2 := pruned + [(x, a)];
    assert a !in PrunedOf(pruned, x);
    assert (x, a) !in pruned;
    forall v | 0 <= v < |before|
      ensures PrunedOf(p2, v) == PrunedOf(pruned, v) + (if v == x then {a} else {})
    {
      assert forall pr :: pr in p2 <==> pr in pruned || pr == (x, a);
    }
    forall pr | pr in p2 ensures InDom(before, pr.0, pr.1) {
      if pr == (x, a) { assert cur[x] <= before[x]; }
    }
  }

  /** The driver's undo: put every listed value back into its variable's current domain. */
  function Restore(doms: seq<set<int>>, pruned: seq<Pruning>): (r: seq<set<int>>)
    ensures |r| == |doms|
    decreases |pruned|
  {
    if pruned == [] then doms
    else
      var v, a := pruned[0].0, pruned[0].1;
      Restore(if v < |doms| then doms[v := doms[v] + {a}] else doms, pruned[1..])
  }

  lemma {:induction false} RestoreAdds(doms: seq<set<int>>, pruned: seq<Pruning>, v: nat)
    requires v < |doms|
    ensures Restore(doms, pruned)[v] == doms[v] + PrunedOf(pruned, v)
    decreases |pruned|
  {
    if pruned == [] {
      assert PrunedOf(pruned, v) == {};
    } else {
      var x, a := pruned[0].0, pruned[0].1;
      var d := if x < |doms| then doms[x := doms[x] + {a}] else doms;
      RestoreAdds(d, pruned[1..], v);
      assert forall pr :: pr in pruned <==> pr == pruned[0] || pr in pruned[1..];
      assert PrunedOf(pruned, v) == PrunedOf(pruned[1..], v) + (if x == v then {a} else {});
    }
  }

  /** Restoring the pruning list of a call gives back the domains before the call. */
  lemma RestoreUndoesPruning(before: seq<set<int>>, after: seq<set<int>>, pruned: seq<Pruning>)
    requires PruneLog(before, after, pruned)
    ensures Restore(after, pruned) == before
  {
    forall v | 0 <= v < |before| ensures Restore(after, pruned)[v] == before[v] {
      RestoreAdds(after, pruned, v);
      assert PrunedOf(pruned, v) <= before[v];
    }
  }

  /** The sum of the current domain sizes: the measure that bounds propagation. */
  function TotalSize(doms: seq<set<int>>): nat {
    if doms == [] then 0 else |doms[0]| + TotalSize(doms[1..])
  }

  lemma {:induction false} TotalSizeRemove(doms: seq<set<int>>, v: nat, a: int)
    requires InDom(doms, v, a)
    ensures TotalSize(doms[v := doms[v] - {a}]) == TotalSize(doms) - 1
    decreases v
  {
    var d := doms[v := doms[v] - {a}];
    if v == 0 {
      assert d[1..] == doms[1..];
    } else {
      TotalSizeRemove(doms[1..], v - 1, a);
      assert d[1..] == doms[1..][v - 1 := doms[v] - {a}];
    }
  }

  function NoneAssigned(n: nat): (r: seq<Option<int>>)
    ensures |r| == n && forall v :: 0 <= v < n ==> r[v].None?
  {
    seq(n, v => None)
  }

  /**
    The CSP object during search: the constraints and variable count are fixed at
    build time; the current domains shrink by pruning and are restored by the
    driver; the assignment is made by the driver and only read by the propagators.
  */
  class Csp {
    const cons: seq<Constraint>
    const nvars: nat
    var cur: seq<set<int>>
    var asg: seq<Option<int>>

    ghost predicate Valid()
      reads this
    {
      |cur| == nvars && |asg| == nvars && DomainsInRange(cur) && ScopesOk(cons, nvars)
    }

    /** The CSP registered from a built problem, before any assignment. */
    constructor (p: Problem)
      requires WellFormed(p)
      ensures Valid()
      ensures cons == p.cons && nvars == |p.doms| && cur == p.doms
      ensures forall v :: 0 <= v < nvars ==> asg[v].None?
    {
      cons := p.cons;
      nvars := |p.doms|;
      cur := p.doms;
      asg := NoneAssigned(|p.doms|);
    }

    /** prune_value: remove one value from one variable's current domain. */
    method PruneValue(v: nat, a: int)
      requires Valid() && v < nvars
      modifies this`cur
      ensures Valid()
      ensures cur == old(cur)[v := old(cur)[v] - {a}]
    {
      cur := cur[v := cur[v] - {a}];
    }
  }
}
