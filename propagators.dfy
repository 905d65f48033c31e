/**
  The three propagators the backtracking search calls before search (no variable)
  and after each assignment (the variable just assigned), and the
  minimum-remaining-values variable ordering. Each propagator returns whether
  search may continue and the list of (variable, value) pairs it pruned, so the
  driver can restore them when it backtracks.
*/
module Propagators {
  import opened Wrappers
  import opened CspBase

  /** The constraints a call starts from: those on the new variable, or all of them. */
  function Examined(csp: Csp, newVar: Option<nat>): (r: seq<nat>)
    ensures Increasing(r)
    ensures forall i :: 0 <= i < |r| ==> r[i] < |csp.cons|
    ensures forall ci :: ci in r ==> 0 <= ci < |csp.cons|
    ensures newVar.None? ==> forall ci :: 0 <= ci < |csp.cons| ==> ci in r
  {
    if newVar.Some? then ConsWith(csp.cons, newVar.value) else AllIndices(|csp.cons|)
  }

  lemma NoUnassignedMeansAllAssigned(asg: seq<Option<int>>, scope: seq<nat>)
    requires forall k :: 0 <= k < |scope| ==> scope[k] < |asg|
    requires |UnassignedIn(asg, scope)| == 0
    ensures AllAssigned(asg, scope)
  {
    var u := UnassignedIn(asg, scope);
    forall k | 0 <= k < |scope| ensures asg[scope[k]].Some? {
      assert k !in u;
    }
  }

  lemma AssignedTupleUnique(asg: seq<Option<int>>, scope: seq<nat>, vals: seq<int>)
    requires AllAssigned(asg, scope)
    requires |vals| == |scope| && forall m :: 0 <= m < |scope| ==> vals[m] == asg[scope[m]].value
    ensures vals == AssignedTuple(asg, scope)
  {
  }

  /**
    The test plain backtracking applies to one constraint: when none of its
    variables is unassigned, collect the assigned values in scope order and
    check them against the constraint.
  */
  method CheckFullyAssigned(csp: Csp, c: Constraint) returns (fails: bool)
    requires forall k :: 0 <= k < |c.scope| ==> c.scope[k] < |csp.asg|
    ensures fails == FullyAssignedFails(csp.asg, c)
  {
    var asg := csp.asg;
    var unasgn := UnassignedIn(asg, c.scope);
    if |unasgn| != 0 {
      assert !AllAssigned(asg, c.scope) by {
        assert unasgn[0] in unasgn;
      }
      return false;
    }
    NoUnassignedMeansAllAssigned(asg, c.scope);
    var vals: seq<int> := [];
    for k := 0 to |c.scope|
      invariant |vals| == k
      invariant forall m :: 0 <= m < k ==> vals[m] == asg[c.scope[m]].value
    {
      vals := vals + [asg[c.scope[k]].value];
    }
    AssignedTupleUnique(asg, c.scope, vals);
    return vals !in c.tuples;
  }

  /**
    Plain backtracking: no pruning; with a new variable, fail exactly when some
    constraint on it is fully assigned and its check fails.
  */
  method PropBT(csp: Csp, newVar: Option<nat>) returns (ok: bool, pruned: seq<Pruning>)
    requires csp.Valid()
    ensures pruned == []
    ensures newVar.None? ==> ok
    ensures newVar.Some? ==>
      (ok <==> forall ci :: ci in ConsWith(csp.cons, newVar.value) ==> !FullyAssignedFails(csp.asg, csp.cons[ci]))
  {
    if newVar.None? {
      return true, [];
    }
    var cs := ConsWith(csp.cons, newVar.value);
    for i := 0 to |cs|
      invariant forall j :: 0 <= j < i ==> !FullyAssignedFails(csp.asg, csp.cons[cs[j]])
    {
      var fails := CheckFullyAssigned(csp, csp.cons[cs[i]]);
      if fails {
        assert cs[i] in cs;
        return false, [];
      }
    }
    assert forall ci :: ci in cs ==> exists j :: 0 <= j < |cs| && cs[j] == ci;
    return true, [];
  }

  /** A list of increasing positions holding p and not of length one holds another position too. */
  lemma OtherMember(u: seq<nat>, p: nat)
    requires Increasing(u) && p in u
    ensures |u| != 1 ==> exists q :: q in u && q != p
  {
    if |u| != 1 {
      assert u[0] in u && u[1] in u;
      if u[0] != p {
        assert u[0] in u && u[0] != p;
      } else {
        assert u[1] in u && u[1] != p;
      }
    }
  }

  /** Forward checking's target: Some(p) exactly when p is the only scope position left unassigned. */
  function SoleUnassigned(asg: seq<Option<int>>, c: Constraint): (r: Option<nat>)
    ensures r.Some? <==> |UnassignedIn(asg, c.scope)| == 1
    ensures r.Some? ==> r.value < |c.scope| && Unassigned(asg, c.scope, r.value)
    ensures r.Some? ==> forall k :: 0 <= k < |c.scope| && k != r.value ==> !Unassigned(asg, c.scope, k)
  {
    var u := UnassignedIn(asg, c.scope);
    if |u| == 1 then
      assert u[0] in u;
      assert forall k: nat :: k in u ==> k == u[0];
      Some(u[0])
    else
      None
  }

  /** Conversely, a constraint whose scope has exactly one unassigned position has a sole unassigned variable, that one. */
  lemma SoleUnassignedComplete(asg: seq<Option<int>>, c: Constraint, p: nat)
    requires p < |c.scope| && Unassigned(asg, c.scope, p)
    requires forall k :: 0 <= k < |c.scope| && k != p ==> !Unassigned(asg, c.scope, k)
    ensures SoleUnassigned(asg, c) == Some(p)
  {
    var u := UnassignedIn(asg, c.scope);
    UnassignedInOrder(asg, c.scope);
    assert p in u;
    OtherMember(u, p);
  }

  /** A pair forward checking may prune: a value of the sole unassigned variable of an examined constraint, without support there. */
  ghost predicate FcJustified(cons: seq<Constraint>, asg: seq<Option<int>>, examined: seq<nat>, doms: seq<set<int>>, pr: Pruning) {
    exists ci :: ci in examined && 0 <= ci < |cons| && SoleUnassigned(asg, cons[ci]).Some? &&
      var p := SoleUnassigned(asg, cons[ci]).value;
      cons[ci].scope[p] == pr.0 && !Supported(doms, cons[ci], p, pr.1)
  }

  /** After forward checking: a constraint with one unassigned variable supports every value left for it. */
  ghost predicate FcSettled(asg: seq<Option<int>>, doms: seq<set<int>>, c: Constraint) {
    SoleUnassigned(asg, c).Some? ==>
      var p := SoleUnassigned(asg, c).value;
      forall a {:trigger Supported(doms, c, p, a)} :: InDom(doms, c.scope[p], a) ==> Supported(doms, c, p, a)
  }

  /** Pruning an unassigned variable leaves the forward-checking support of any constraint unchanged. */
  lemma FcPruneFrame(asg: seq<Option<int>>, d: seq<set<int>>, c: Constraint, x: nat, val: int, a: int)
    requires SoleUnassigned(asg, c).Some?
    requires x < |asg| && asg[x].None? && x < |d|
    ensures var p := SoleUnassigned(asg, c).value;
      Supported(d, c, p, a) <==> Supported(d[x := d[x] - {val}], c, p, a)
  {
    var p := SoleUnassigned(asg, c).value;
    forall k | 0 <= k < |c.scope| && k != p ensures c.scope[k] != x {
      assert !Unassigned(asg, c.scope, k);
    }
    SupportedFrame(d, d[x := d[x] - {val}], c, p, a);
  }

  lemma FcSettledPrune(asg: seq<Option<int>>, d: seq<set<int>>, c: Constraint, x: nat, val: int)
    requires x < |asg| && asg[x].None? && x < |d|
    requires FcSettled(asg, d, c)
    ensures FcSettled(asg, d[x := d[x] - {val}], c)
  {
    if SoleUnassigned(asg, c).Some? {
      var p := SoleUnassigned(asg, c).value;
      var d2 := d[x := d[x] - {val}];
      forall a | InDom(d2, c.scope[p], a) ensures Supported(d2, c, p, a) {
        FcPruneFrame(asg, d, c, x, val, a);
      }
    }
  }

  lemma FcJustifiedMono(cons: seq<Constraint>, asg: seq<Option<int>>, examined: seq<nat>, d1: seq<set<int>>, d2: seq<set<int>>, pr: Pruning)
    requires Shrunk(d2, d1)
    requires FcJustified(cons, asg, examined, d1, pr)
    ensures FcJustified(cons, asg, examined, d2, pr)
  {
    var ci :| ci in examined && 0 <= ci < |cons| && SoleUnassigned(asg, cons[ci]).Some? &&
      var p := SoleUnassigned(asg, cons[ci]).value;
      cons[ci].scope[p] == pr.0 && !Supported(d1, cons[ci], p, pr.1);
    SupportedMono(d1, d2, cons[ci], SoleUnassigned(asg, cons[ci]).value, pr.1);
  }

  /** The last pair pruned emptied its variable's domain: the propagator's reason to report failure. */
  ghost predicate WipedOut(cur: seq<set<int>>, pruned: seq<Pruning>) {
    |pruned| > 0 && pruned[|pruned| - 1].0 < |cur| && |cur[pruned[|pruned| - 1].0]| == 0
  }

  /** Every listed pair's variable still has a value left. */
  ghost predicate NonEmpty(cur: seq<set<int>>, pruned: seq<Pruning>) {
    forall pr :: pr in pruned ==> pr.0 < |cur| && |cur[pr.0]| > 0
  }

  lemma NonEmptyStep(d: seq<set<int>>, d2: seq<set<int>>, pruned: seq<Pruning>, x: nat, val: int)
    requires NonEmpty(d, pruned)
    requires x < |d| && d2 == d[x := d[x] - {val}] && |d2[x]| > 0
    ensures NonEmpty(d2, pruned + [(x, val)])
  {
  }

  /** What forward checking has established after examining the first i constraints of its list. */
  ghost predicate FcProgress(cons: seq<Constraint>, asg: seq<Option<int>>, examined: seq<nat>,
                             before: seq<set<int>>, cur: seq<set<int>>, pruned: seq<Pruning>, i: nat) {
    && PruneLog(before, cur, pruned)
    && (forall pr :: pr in pruned ==> FcJustified(cons, asg, examined, cur, pr))
    && (forall j :: 0 <= j < i && j < |examined| && examined[j] < |cons| ==> FcSettled(asg, cur, cons[examined[j]]))
  }

  /** Every value below val still in the domain of c's position p has support. */
  ghost predicate FcTried(d: seq<set<int>>, c: Constraint, p: nat, val: int)
    requires p < |c.scope|
  {
    forall a {:trigger Supported(d, c, p, a)} :: 0 <= a < val && InDom(d, c.scope[p], a) ==> Supported(d, c, p, a)
  }

  /** A value left in place was either absent or supported. */
  lemma FcTriedStep(d: seq<set<int>>, c: Constraint, p: nat, val: int)
    requires p < |c.scope| && FcTried(d, c, p, val)
    requires !InDom(d, c.scope[p], val) || Supported(d, c, p, val)
    ensures FcTried(d, c, p, val + 1)
  {
  }

  /** One prune of forward checking keeps its progress and the supports already tested. */
  lemma FcPruneStep(cons: seq<Constraint>, asg: seq<Option<int>>, examined: seq<nat>,
                    before: seq<set<int>>, d: seq<set<int>>, d2: seq<set<int>>, pruned: seq<Pruning>, i: nat,
                    p: nat, x: nat, val: int)
    requires FcProgress(cons, asg, examined, before, d, pruned, i)
    requires i < |examined| && examined[i] < |cons|
    requires SoleUnassigned(asg, cons[examined[i]]) == Some(p) && x == cons[examined[i]].scope[p]
    requires InDom(d, x, val) && !Supported(d, cons[examined[i]], p, val)
    requires FcTried(d, cons[examined[i]], p, val)
    requires d2 == d[x := d[x] - {val}]
    ensures FcProgress(cons, asg, examined, before, d2, pruned + [(x, val)], i)
    ensures FcTried(d2, cons[examined[i]], p, val + 1)
  {
    var c := cons[examined[i]];
    var pruned2 := pruned + [(x, val)];
    PruneLogStep(before, d, pruned, x, val);
    assert Shrunk(d2, d);
    forall pr | pr in pruned2 ensures FcJustified(cons, asg, examined, d2, pr) {
      if pr == (x, val) {
        SupportedMono(d, d2, c, p, val);
        assert examined[i] in examined;
      } else {
        FcJustifiedMono(cons, asg, examined, d, d2, pr);
      }
    }
    forall j | 0 <= j < i && j < |examined| && examined[j] < |cons| ensures FcSettled(asg, d2, cons[examined[j]]) {
      FcSettledPrune(asg, d, cons[examined[j]], x, val);
    }
    forall a | 0 <= a <= val && InDom(d2, x, a) ensures Supported(d2, c, p, a) {
      FcPruneFrame(asg, d, c, x, val, a);
    }
  }

  /** Once every remaining value of the sole unassigned variable has support, one more constraint is settled. */
  lemma FcAdvance(cons: seq<Constraint>, asg: seq<Option<int>>, examined: seq<nat>,
                  before: seq<set<int>>, d: seq<set<int>>, pruned: seq<Pruning>, i: nat, p: nat)
    requires FcProgress(cons, asg, examined, before, d, pruned, i)
    requires DomainsInRange(d)
    requires i < |examined| && examined[i] < |cons|
    requires SoleUnassigned(asg, cons[examined[i]]) == Some(p)
    requires FcTried(d, cons[examined[i]], p, NumValues)
    ensures FcProgress(cons, asg, examined, before, d, pruned, i + 1)
  {
    var c := cons[examined[i]];
    forall a | InDom(d, c.scope[p], a) ensures Supported(d, c, p, a) {
      assert 0 <= a < NumValues;
    }
    assert FcSettled(asg, d, c);
  }

  /**
    One step of forward checking's value loop: prune value val of the sole
    unassigned variable (scope position p of constraint ci) when it has no
    support, and report whether that emptied the variable's domain.
  */
  method FcTry(csp: Csp, ghost examined: seq<nat>, ghost before: seq<set<int>>, ghost i: nat, ci: nat, p: nat, val: int,
               pruned0: seq<Pruning>) returns (emptied: bool, pruned: seq<Pruning>)
    requires csp.Valid()
    requires i < |examined| && examined[i] == ci && ci < |csp.cons|
    requires SoleUnassigned(csp.asg, csp.cons[ci]) == Some(p)
    requires FcProgress(csp.cons, csp.asg, examined, before, csp.cur, pruned0, i)
    requires NonEmpty(csp.cur, pruned0)
    requires FcTried(csp.cur, csp.cons[ci], p, val)
    modifies csp`cur
    ensures csp.Valid()
    ensures FcProgress(csp.cons, csp.asg, examined, before, csp.cur, pruned, i)
    ensures emptied ==> WipedOut(csp.cur, pruned)
    ensures !emptied ==> NonEmpty(csp.cur, pruned) && FcTried(csp.cur, csp.cons[ci], p, val + 1)
  {
    var c := csp.cons[ci];
    var x := c.scope[p];
    ghost var asg := csp.asg;
    if val in csp.cur[x] && !Supported(csp.cur, c, p, val) {
      ghost var d := csp.cur;
      csp.PruneValue(x, val);
      assert asg == csp.asg;
      FcPruneStep(csp.cons, asg, examined, before, d, csp.cur, pruned0, i, p, x, val);
      pruned := pruned0 + [(x, val)];
      if |csp.cur[x]| == 0 {
        return true, pruned;
      }
      NonEmptyStep(d, csp.cur, pruned0, x, val);
    } else {
      FcTriedStep(csp.cur, c, p, val);
      pruned := pruned0;
    }
    return false, pruned;
  }

  /**
    The body of forward checking for one examined constraint whose only
    unassigned variable sits at scope position p: try every value of that
    variable in turn, returning false when its domain empties.
  */
  method FcCheck(csp: Csp, ghost examined: seq<nat>, ghost before: seq<set<int>>, ghost i: nat, ci: nat, p: nat, pruned0: seq<Pruning>)
      returns (ok: bool, pruned: seq<Pruning>)
    requires csp.Valid()
    requires i < |examined| && examined[i] == ci && ci < |csp.cons|
    requires SoleUnassigned(csp.asg, csp.cons[ci]) == Some(p)
    requires FcProgress(csp.cons, csp.asg, examined, before, csp.cur, pruned0, i)
    requires NonEmpty(csp.cur, pruned0)
    modifies csp`cur
    ensures csp.Valid()
    ensures ok ==> FcProgress(csp.cons, csp.asg, examined, before, csp.cur, pruned, i + 1)
    ensures ok ==> NonEmpty(csp.cur, pruned)
    ensures !ok ==> FcProgress(csp.cons, csp.asg, examined, before, csp.cur, pruned, i)
    ensures !ok ==> WipedOut(csp.cur, pruned)
  {
    pruned := pruned0;
    for val := 0 to NumValues
      invariant csp.Valid()
      invariant FcProgress(csp.cons, csp.asg, examined, before, csp.cur, pruned, i)
      invariant NonEmpty(csp.cur, pruned)
      invariant FcTried(csp.cur, csp.cons[ci], p, val)
    {
      var emptied;
      emptied, pruned := FcTry(csp, examined, before, i, ci, p, val, pruned);
      if emptied {
        return false, pruned;
      }
    }
    FcAdvance(csp.cons, csp.asg, examined, before, csp.cur, pruned, i, p);
    return true, pruned;
  }

  /**
    Forward checking: for every examined constraint with exactly one unassigned
    variable, prune that variable's values that have no support; stop with false
    as soon as a domain becomes empty.
  */
  method PropFC(csp: Csp, newVar: Option<nat>) returns (ok: bool, pruned: seq<Pruning>)
    requires csp.Valid()
    modifies csp`cur
    ensures csp.Valid()
    ensures PruneLog(old(csp.cur), csp.cur, pruned)
    ensures !ok ==> WipedOut(csp.cur, pruned)
    ensures ok ==> NonEmpty(csp.cur, pruned)
    ensures forall pr :: pr in pruned ==> FcJustified(csp.cons, csp.asg, Examined(csp, newVar), csp.cur, pr)
    ensures ok ==> forall ci :: ci in Examined(csp, newVar) ==> FcSettled(csp.asg, csp.cur, csp.cons[ci])
  {
    var cons := Examined(csp, newVar);
    ghost var before := csp.cur;
    pruned := [];
    for i := 0 to |cons|
      invariant csp.Valid()
      invariant FcProgress(csp.cons, csp.asg, cons, before, csp.cur, pruned, i)
      invariant NonEmpty(csp.cur, pruned)
    {
      var c := csp.cons[cons[i]];
      var unasgn := UnassignedIn(csp.asg, c.scope);
      if |unasgn| == 1 {
        var p := unasgn[0];
        assert SoleUnassigned(csp.asg, c) == Some(p);
        ok, pruned := FcCheck(csp, cons, before, i, cons[i], p, pruned);
        if !ok {
          return false, pruned;
        }
      } else {
        assert SoleUnassigned(csp.asg, c).None?;
      }
    }
    assert forall ci :: ci in cons ==> exists j :: 0 <= j < |cons| && cons[j] == ci;
    return true, pruned;
  }

  /** The worklist w followed by the constraints of cs, in the order cs lists them, that are not yet on it. */
  function AppendNew(w: seq<nat>, cs: seq<nat>): seq<nat>
    decreases |cs|
  {
    if cs == [] then w
    else
      var r := AppendNew(w, cs[..|cs| - 1]);
      if cs[|cs| - 1] in r then r else r + [cs[|cs| - 1]]
  }

  /** Append to the worklist every constraint of cs not already on it, in the order of cs, keeping FIFO order. */
  method Enqueue(w: seq<nat>, cs: seq<nat>) returns (r: seq<nat>)
    requires Distinct(w)
    ensures r == AppendNew(w, cs)
    ensures Distinct(r)
    ensures |w| <= |r| && r[..|w|] == w
    ensures forall c :: c in r <==> c in w || c in cs
  {
    r := w;
    for k := 0 to |cs|
      invariant r == AppendNew(w, cs[..k])
      invariant Distinct(r)
      invariant |w| <= |r| && r[..|w|] == w
      invariant forall c :: c in r <==> c in w || c in cs[..k]
    {
      assert cs[..k + 1] == cs[..k] + [cs[k]];
      assert cs[..k + 1][..k] == cs[..k];
      if cs[k] !in r {
        r := r + [cs[k]];
      }
    }
    assert cs[..|cs|] == cs;
  }

  /** The constraints GAC must leave consistent: those it started with, and every constraint on a pruned variable. */
  ghost predicate Seen(cons: seq<Constraint>, examined: seq<nat>, pruned: seq<Pruning>, ci: nat)
    requires ci < |cons|
  {
    ci in examined || exists pr :: pr in pruned && pr.0 in cons[ci].scope
  }

  /**
    A pair GAC may prune after the pairs prior: the value has no support in some
    constraint on that variable that GAC can have queued by then, one it started
    from or one on a variable among prior.
  */
  ghost predicate GacJustified(cons: seq<Constraint>, examined: seq<nat>, prior: seq<Pruning>, doms: seq<set<int>>, pr: Pruning) {
    exists ci, p :: 0 <= ci < |cons| && Seen(cons, examined, prior, ci) && 0 <= p < |cons[ci].scope| &&
      cons[ci].scope[p] == pr.0 && !Supported(doms, cons[ci], p, pr.1)
  }

  /**
    Only a queued constraint justifies a prune: with the constraints on variable 2
    as the start, a constraint over variables 0 and 1 alone cannot justify pruning
    variable 0 before anything has been pruned, even though it gives no support.
  */
  lemma UnqueuedCannotJustify()
    ensures var cons := [Constraint([2], {[0]}), Constraint([0, 1], {[0, 0]})];
      ConsWith(cons, 2) == [0] &&
      !Supported([{0, 1}, {0}, {0}], cons[1], 0, 1) &&
      !GacJustified(cons, ConsWith(cons, 2), [], [{0, 1}, {0}, {0}], (0, 1))
  {
    var cons := [Constraint([2], {[0]}), Constraint([0, 1], {[0, 0]})];
    assert 2 in cons[0].scope && 2 !in cons[1].scope;
    assert ConsWith(cons, 2) == [0] by {
      assert forall ci :: ci in ConsWith(cons, 2) <==> ci == 0;
    }
  }

  /** A constraint GAC can have queued stays so as more pairs are pruned. */
  lemma SeenGrows(cons: seq<Constraint>, examined: seq<nat>, l1: seq<Pruning>, l2: seq<Pruning>, ci: nat)
    requires ci < |cons| && Seen(cons, examined, l1, ci)
    requires forall q :: q in l1 ==> q in l2
    ensures Seen(cons, examined, l2, ci)
  {
    if ci !in examined {
      var q :| q in l1 && q.0 in cons[ci].scope;
      assert q in l2;
    }
  }

  lemma GacJustifiedMono(cons: seq<Constraint>, examined: seq<nat>, l1: seq<Pruning>, l2: seq<Pruning>,
                         d1: seq<set<int>>, d2: seq<set<int>>, pr: Pruning)
    requires Shrunk(d2, d1) && forall q :: q in l1 ==> q in l2
    requires GacJustified(cons, examined, l1, d1, pr)
    ensures GacJustified(cons, examined, l2, d2, pr)
  {
    var ci, p :| 0 <= ci < |cons| && Seen(cons, examined, l1, ci) && 0 <= p < |cons[ci].scope| &&
      cons[ci].scope[p] == pr.0 && !Supported(d1, cons[ci], p, pr.1);
    SupportedMono(d1, d2, cons[ci], p, pr.1);
    SeenGrows(cons, examined, l1, l2, ci);
  }

  /**
    The GAC pruning log: the domains shrank by exactly the listed pairs, and each
    pair had no support, when it was pruned, in a constraint GAC can have queued
    by then: support is judged in the domains before minus the pairs listed
    ahead of it, and the constraint is one of examined or one on a variable
    among those pairs.
  */
  ghost predicate GacLog(cons: seq<Constraint>, examined: seq<nat>, before: seq<set<int>>, cur: seq<set<int>>, pruned: seq<Pruning>) {
    PruneLog(before, cur, pruned) &&
    forall i :: 0 <= i < |pruned| ==> GacJustified(cons, examined, pruned[..i], Minus(before, pruned[..i]), pruned[i])
  }

  /** A pair justified when it was pruned is still unsupported in the final domains. */
  lemma GacJustifiedFinal(cons: seq<Constraint>, examined: seq<nat>, before: seq<set<int>>, cur: seq<set<int>>, pruned: seq<Pruning>)
    requires GacLog(cons, examined, before, cur, pruned)
    ensures forall pr :: pr in pruned ==> GacJustified(cons, examined, pruned, cur, pr)
  {
    forall pr | pr in pruned ensures GacJustified(cons, examined, pruned, cur, pr) {
      var i :| 0 <= i < |pruned| && pruned[i] == pr;
      var m := Minus(before, pruned[..i]);
      forall v | 0 <= v < |m| ensures cur[v] <= m[v] {
        assert forall a :: a in PrunedOf(pruned[..i], v) ==> a in PrunedOf(pruned, v) by {
          forall a | a in PrunedOf(pruned[..i], v) ensures a in PrunedOf(pruned, v) {
            var q :| q in pruned[..i] && q.0 == v && q.1 == a;
            assert q in pruned;
          }
        }
      }
      assert forall q :: q in pruned[..i] ==> q in pruned;
      GacJustifiedMono(cons, examined, pruned[..i], pruned, m, cur, pr);
    }
  }

  /** The values sol gives the variables of a scope, in scope order. */
  function ValuesOf(sol: seq<int>, scope: seq<nat>): (t: seq<int>)
    requires forall k :: 0 <= k < |scope| ==> scope[k] < |sol|
    ensures |t| == |scope| && forall k :: 0 <= k < |scope| ==> t[k] == sol[scope[k]]
  {
    seq(|scope|, k requires 0 <= k < |scope| => sol[scope[k]])
  }

  /** sol gives every variable a value of its domain and satisfies every constraint. */
  ghost predicate Solution(cons: seq<Constraint>, doms: seq<set<int>>, sol: seq<int>) {
    && |sol| == |doms|
    && (forall v :: 0 <= v < |sol| ==> sol[v] in doms[v])
    && (forall ci :: 0 <= ci < |cons| ==>
          (forall k :: 0 <= k < |cons[ci].scope| ==> cons[ci].scope[k] < |sol|) &&
          ValuesOf(sol, cons[ci].scope) in cons[ci].tuples)
  }

  /** Within domains that hold a solution, the solution's tuple supports each of its values. */
  lemma SolutionSupported(cons: seq<Constraint>, doms: seq<set<int>>, sol: seq<int>, ci: nat, p: nat)
    requires Solution(cons, doms, sol) && ci < |cons| && p < |cons[ci].scope|
    ensures Supported(doms, cons[ci], p, sol[cons[ci].scope[p]])
  {
    var t := ValuesOf(sol, cons[ci].scope);
    assert forall k :: 0 <= k < |t| && k != p ==> InDom(doms, cons[ci].scope[k], t[k]);
  }

  /** Removing pairs that spare a solution's values leaves it a solution. */
  lemma SolutionMinus(cons: seq<Constraint>, before: seq<set<int>>, l: seq<Pruning>, sol: seq<int>)
    requires Solution(cons, before, sol)
    requires forall q :: q in l ==> q.0 < |sol| && q.1 != sol[q.0]
    ensures Solution(cons, Minus(before, l), sol)
  {
    var m := Minus(before, l);
    forall v | 0 <= v < |sol| ensures sol[v] in m[v] {
      assert sol[v] !in PrunedOf(l, v);
    }
  }

  /** A pair justified after pruning only pairs that spare a solution spares it too. */
  lemma GacStepSpares(cons: seq<Constraint>, examined: seq<nat>, before: seq<set<int>>, l: seq<Pruning>, pr: Pruning, sol: seq<int>)
    requires Solution(cons, before, sol)
    requires forall q :: q in l ==> q.0 < |sol| && q.1 != sol[q.0]
    requires GacJustified(cons, examined, l, Minus(before, l), pr)
    ensures pr.0 < |sol| && pr.1 != sol[pr.0]
  {
    SolutionMinus(cons, before, l, sol);
    var ci, p :| 0 <= ci < |cons| && Seen(cons, examined, l, ci) && 0 <= p < |cons[ci].scope| &&
      cons[ci].scope[p] == pr.0 && !Supported(Minus(before, l), cons[ci], p, pr.1);
    SolutionSupported(cons, Minus(before, l), sol, ci, p);
  }

  /** No pair among the first n of a GAC log removes a value of a solution within the domains before. */
  lemma {:induction false} GacSparesSolutionPrefix(cons: seq<Constraint>, examined: seq<nat>, before: seq<set<int>>, pruned: seq<Pruning>,
                                                   sol: seq<int>, n: nat)
    requires n <= |pruned|
    requires forall i {:trigger pruned[..i]} :: 0 <= i < |pruned| ==>
      GacJustified(cons, examined, pruned[..i], Minus(before, pruned[..i]), pruned[i])
    requires Solution(cons, before, sol)
    ensures forall j :: 0 <= j < n ==> pruned[j].0 < |sol| && pruned[j].1 != sol[pruned[j].0]
  {
    if n > 0 {
      GacSparesSolutionPrefix(cons, examined, before, pruned, sol, n - 1);
      var l := pruned[..n - 1];
      forall q | q in l ensures q.0 < |sol| && q.1 != sol[q.0] {
        var j :| 0 <= j < n - 1 && l[j] == q;
      }
      GacStepSpares(cons, examined, before, l, pruned[n - 1], sol);
    }
  }

  /** GAC loses no solution: a solution within the domains before is still one within the domains after. */
  lemma GacKeepsSolution(cons: seq<Constraint>, examined: seq<nat>, before: seq<set<int>>, cur: seq<set<int>>, pruned: seq<Pruning>,
                         sol: seq<int>)
    requires GacLog(cons, examined, before, cur, pruned) && Solution(cons, before, sol)
    ensures forall pr :: pr in pruned ==> pr.0 < |sol| && pr.1 != sol[pr.0]
    ensures Solution(cons, cur, sol)
  {
    GacSparesSolutionPrefix(cons, examined, before, pruned, sol, |pruned|);
    forall v | 0 <= v < |sol| ensures sol[v] in cur[v] {
      assert sol[v] !in PrunedOf(pruned, v);
    }
  }

  /**
    The GAC worklist invariant: the queue holds distinct constraint indices, each
    (like skip, the one being revised) one GAC started from or one on a pruned
    variable; no pruned variable has an empty domain; and every constraint GAC
    must handle that is not queued (other than skip) is consistent.
  */
  ghost predicate GacQueue(cons: seq<Constraint>, examined: seq<nat>, cur: seq<set<int>>, pruned: seq<Pruning>, w: seq<nat>, skip: int) {
    && Distinct(w) && (forall cj :: cj in w ==> 0 <= cj < |cons| && Seen(cons, examined, pruned, cj))
    && (0 <= skip ==> skip < |cons| && Seen(cons, examined, pruned, skip))
    && NonEmpty(cur, pruned)
    && (forall cj :: 0 <= cj < |cons| && cj != skip && Seen(cons, examined, pruned, cj) && cj !in w ==>
          Consistent(cur, cons[cj]))
  }

  /** Revision of c has checked every value of the positions before p and the values below val at p. */
  ghost predicate RevisedUpTo(d: seq<set<int>>, c: Constraint, p: nat, val: int) {
    && (forall q, a {:trigger Supported(d, c, q, a)} :: 0 <= q < p && q < |c.scope| && InDom(d, c.scope[q], a) ==> Supported(d, c, q, a))
    && (p < |c.scope| ==> forall a {:trigger Supported(d, c, p, a)} :: 0 <= a < val && InDom(d, c.scope[p], a) ==> Supported(d, c, p, a))
  }

  lemma RevisedNextPosition(d: seq<set<int>>, c: Constraint, p: nat)
    requires DomainsInRange(d) && p < |c.scope|
    requires RevisedUpTo(d, c, p, NumValues)
    ensures RevisedUpTo(d, c, p + 1, 0)
  {
    forall q, a | 0 <= q < p + 1 && q < |c.scope| && InDom(d, c.scope[q], a) ensures Supported(d, c, q, a) {
      if q == p {
        assert 0 <= a < NumValues;
      }
    }
  }

  lemma RevisedAll(d: seq<set<int>>, c: Constraint)
    requires RevisedUpTo(d, c, |c.scope|, 0)
    ensures Consistent(d, c)
  {
  }

  /** Pruning a value unsupported in the current domains extends the GAC log and shrinks the total domain size by one. */
  lemma GacPruneStep(cons: seq<Constraint>, examined: seq<nat>, before: seq<set<int>>, d: seq<set<int>>, d2: seq<set<int>>,
                     pruned: seq<Pruning>, ci: nat, p: nat, x: nat, val: int)
    requires GacLog(cons, examined, before, d, pruned)
    requires ci < |cons| && Seen(cons, examined, pruned, ci) && p < |cons[ci].scope| && x == cons[ci].scope[p]
    requires InDom(d, x, val) && !Supported(d, cons[ci], p, val)
    requires d2 == d[x := d[x] - {val}]
    ensures GacLog(cons, examined, before, d2, pruned + [(x, val)])
    ensures TotalSize(d2) < TotalSize(d)
  {
    PruneLogStep(before, d, pruned, x, val);
    TotalSizeRemove(d, x, val);
    PruneLogMinus(before, d, pruned);
    assert GacJustified(cons, examined, pruned, Minus(before, pruned), (x, val));
    JustifiedSnoc(cons, examined, before, pruned, (x, val));
  }

  /** A pair unsupported after the whole log can be appended to a log of pairs each justified when pruned. */
  lemma JustifiedSnoc(cons: seq<Constraint>, examined: seq<nat>, before: seq<set<int>>, pruned: seq<Pruning>, pr: Pruning)
    requires forall i :: 0 <= i < |pruned| ==> GacJustified(cons, examined, pruned[..i], Minus(before, pruned[..i]), pruned[i])
    requires GacJustified(cons, examined, pruned, Minus(before, pruned), pr)
    ensures forall i :: 0 <= i < |pruned + [pr]| ==>
      GacJustified(cons, examined, (pruned + [pr])[..i], Minus(before, (pruned + [pr])[..i]), (pruned + [pr])[i])
  {
    var p2 := pruned + [pr];
    forall i | 0 <= i < |p2| ensures GacJustified(cons, examined, p2[..i], Minus(before, p2[..i]), p2[i]) {
      if i < |pruned| {
        assert p2[..i] == pruned[..i] && p2[i] == pruned[i];
      } else {
        assert p2[..i] == pruned && p2[i] == pr;
      }
    }
  }

  /** After a prune of x, re-queueing the constraints on x restores the worklist invariant; ci is queued again. */
  lemma GacRequeue(cons: seq<Constraint>, examined: seq<nat>, d: seq<set<int>>, d2: seq<set<int>>, pruned: seq<Pruning>,
                   w: seq<nat>, w2: seq<nat>, ci: nat, x: nat, val: int)
    requires GacQueue(cons, examined, d, pruned, w, ci)
    requires ci < |cons| && x in cons[ci].scope
    requires x < |d| && d2 == d[x := d[x] - {val}] && |d2[x]| > 0
    requires Distinct(w2) && forall cj :: cj in w2 <==> cj in w || cj in ConsWith(cons, x)
    ensures GacQueue(cons, examined, d2, pruned + [(x, val)], w2, ci)
    ensures ci in w2
  {
    var pruned2 := pruned + [(x, val)];
    assert forall q :: q in pruned ==> q in pruned2;
    SeenGrows(cons, examined, pruned, pruned2, ci);
    forall cj | cj in w2 ensures 0 <= cj < |cons| && Seen(cons, examined, pruned2, cj) {
      if cj in w {
        SeenGrows(cons, examined, pruned, pruned2, cj);
      } else {
        assert (x, val) in pruned2;
      }
    }
    forall cj | 0 <= cj < |cons| && cj != ci && Seen(cons, examined, pruned2, cj) && cj !in w2
      ensures Consistent(d2, cons[cj])
    {
      assert x !in cons[cj].scope;
      assert Seen(cons, examined, pruned, cj) by {
        if cj !in examined {
          var pr :| pr in pruned2 && pr.0 in cons[cj].scope;
          assert pr in pruned;
        }
      }
      ConsistentFrame(d, d2, cons[cj]);
    }
  }

  /** Popping the head of the queue leaves the invariant with that constraint as the one under revision. */
  lemma GacPop(cons: seq<Constraint>, examined: seq<nat>, d: seq<set<int>>, pruned: seq<Pruning>, w: seq<nat>)
    requires |w| > 0 && GacQueue(cons, examined, d, pruned, w, -1)
    ensures GacQueue(cons, examined, d, pruned, w[1..], w[0])
  {
    assert w[0] in w;
    assert forall cj :: cj in w <==> cj == w[0] || cj in w[1..];
  }

  /** Once the revised constraint is consistent or queued again, no constraint needs to be skipped. */
  lemma GacRejoin(cons: seq<Constraint>, examined: seq<nat>, d: seq<set<int>>, pruned: seq<Pruning>, w: seq<nat>, ci: nat)
    requires ci < |cons| && GacQueue(cons, examined, d, pruned, w, ci)
    requires ci in w || Consistent(d, cons[ci])
    ensures GacQueue(cons, examined, d, pruned, w, -1)
  {
  }

  /**
    One step of revising constraint ci: prune value val of its scope position p
    when it has no support, and then queue every constraint on that variable
    not already queued. The ghost dirty records whether revision has pruned
    (and so re-queued ci); until it has, the queue and the domains are as they
    were when ci was popped. emptied reports a domain wipe-out.
  */
  method GacTry(csp: Csp, ghost examined: seq<nat>, ghost before: seq<set<int>>, ci: nat, p: nat, val: int,
                w0: seq<nat>, pruned0: seq<Pruning>, ghost size0: nat, ghost len0: nat, ghost dirty0: bool)
      returns (emptied: bool, w: seq<nat>, pruned: seq<Pruning>, ghost dirty: bool)
    requires csp.Valid()
    requires ci < |csp.cons| && p < |csp.cons[ci].scope|
    requires GacLog(csp.cons, examined, before, csp.cur, pruned0)
    requires GacQueue(csp.cons, examined, csp.cur, pruned0, w0, ci)
    requires dirty0 ==> ci in w0 && TotalSize(csp.cur) < size0
    requires !dirty0 ==> |w0| == len0 && TotalSize(csp.cur) == size0 && RevisedUpTo(csp.cur, csp.cons[ci], p, val)
    modifies csp`cur
    ensures csp.Valid()
    ensures GacLog(csp.cons, examined, before, csp.cur, pruned)
    ensures emptied ==> WipedOut(csp.cur, pruned)
    ensures !emptied ==> GacQueue(csp.cons, examined, csp.cur, pruned, w, ci)
    ensures !emptied && dirty ==> ci in w && TotalSize(csp.cur) < size0
    ensures !emptied && !dirty ==> |w| == len0 && TotalSize(csp.cur) == size0 && RevisedUpTo(csp.cur, csp.cons[ci], p, val + 1)
  {
    var c := csp.cons[ci];
    var x := c.scope[p];
    emptied, w, pruned, dirty := false, w0, pruned0, dirty0;
    if val in csp.cur[x] && !Supported(csp.cur, c, p, val) {
      ghost var d := csp.cur;
      csp.PruneValue(x, val);
      GacPruneStep(csp.cons, examined, before, d, csp.cur, pruned0, ci, p, x, val);
      pruned := pruned0 + [(x, val)];
      if |csp.cur[x]| == 0 {
        return true, w, pruned, dirty;
      }
      var onX := ConsWith(csp.cons, x);
      w := Enqueue(w0, onX);
      assert c.scope[p] in c.scope;
      GacRequeue(csp.cons, examined, d, csp.cur, pruned0, w0, w, ci, x, val);
      dirty := true;
    }
  }

  /**
    Revise one popped constraint: for every scope position in order and every
    value of its variable, prune the values without support (GacTry).
  */
  method GacRevise(csp: Csp, ghost examined: seq<nat>, ghost before: seq<set<int>>, ci: nat, w0: seq<nat>, pruned0: seq<Pruning>)
      returns (ok: bool, w: seq<nat>, pruned: seq<Pruning>, ghost dirty: bool)
    requires csp.Valid()
    requires ci < |csp.cons|
    requires GacLog(csp.cons, examined, before, csp.cur, pruned0)
    requires GacQueue(csp.cons, examined, csp.cur, pruned0, w0, ci)
    modifies csp`cur
    ensures csp.Valid()
    ensures GacLog(csp.cons, examined, before, csp.cur, pruned)
    ensures !ok ==> WipedOut(csp.cur, pruned)
    ensures ok ==> GacQueue(csp.cons, examined, csp.cur, pruned, w, ci)
    ensures ok && dirty ==> ci in w && TotalSize(csp.cur) < old(TotalSize(csp.cur))
    ensures ok && !dirty ==> |w| == |w0| && TotalSize(csp.cur) == old(TotalSize(csp.cur)) && Consistent(csp.cur, csp.cons[ci])
  {
    ghost var size0 := TotalSize(csp.cur);
    w, pruned, dirty := w0, pruned0, false;
    var c := csp.cons[ci];
    for p := 0 to |c.scope|
      invariant csp.Valid()
      invariant GacLog(csp.cons, examined, before, csp.cur, pruned)
      invariant GacQueue(csp.cons, examined, csp.cur, pruned, w, ci)
      invariant dirty ==> ci in w && TotalSize(csp.cur) < size0
      invariant !dirty ==> |w| == |w0| && TotalSize(csp.cur) == size0 && RevisedUpTo(csp.cur, c, p, 0)
    {
      for val := 0 to NumValues
        invariant csp.Valid()
        invariant GacLog(csp.cons, examined, before, csp.cur, pruned)
        invariant GacQueue(csp.cons, examined, csp.cur, pruned, w, ci)
        invariant dirty ==> ci in w && TotalSize(csp.cur) < size0
        invariant !dirty ==> |w| == |w0| && TotalSize(csp.cur) == size0 && RevisedUpTo(csp.cur, c, p, val)
      {
        var emptied;
        emptied, w, pruned, dirty := GacTry(csp, examined, before, ci, p, val, w, pruned, size0, |w0|, dirty);
        if emptied {
          return false, w, pruned, dirty;
        }
      }
      if !dirty {
        RevisedNextPosition(csp.cur, c, p);
      }
    }
    if !dirty {
      RevisedAll(csp.cur, c);
    }
    return true, w, pruned, dirty;
  }

  /**
    Generalised arc consistency with a FIFO worklist whose entries are distinct:
    pop a constraint, prune every unsupported value of every scope variable, and
    after each prune put back every constraint on that variable not already queued.
  */
  method PropGAC(csp: Csp, newVar: Option<nat>) returns (ok: bool, pruned: seq<Pruning>)
    requires csp.Valid()
    modifies csp`cur
    ensures csp.Valid()
    ensures PruneLog(old(csp.cur), csp.cur, pruned)
    ensures !ok ==> WipedOut(csp.cur, pruned)
    ensures ok ==> NonEmpty(csp.cur, pruned)
    ensures forall i :: 0 <= i < |pruned| ==>
      GacJustified(csp.cons, Examined(csp, newVar), pruned[..i], Minus(old(csp.cur), pruned[..i]), pruned[i])
    ensures forall pr :: pr in pruned ==> GacJustified(csp.cons, Examined(csp, newVar), pruned, csp.cur, pr)
    ensures forall sol {:trigger Solution(csp.cons, csp.cur, sol)} :: Solution(csp.cons, old(csp.cur), sol) ==> Solution(csp.cons, csp.cur, sol)
    ensures ok ==> forall ci :: 0 <= ci < |csp.cons| && Seen(csp.cons, Examined(csp, newVar), pruned, ci) ==>
      Consistent(csp.cur, csp.cons[ci])
    ensures ok && newVar.None? ==> forall ci :: 0 <= ci < |csp.cons| ==> Consistent(csp.cur, csp.cons[ci])
  {
    var w := Examined(csp, newVar);
    ghost var examined := w;
    ghost var before := csp.cur;
    ok, pruned := GacLoop(csp, examined, before, w);
    if newVar.None? {
      assert forall ci :: 0 <= ci < |csp.cons| ==> Seen(csp.cons, examined, pruned, ci);
    }
    GacPostcondition(csp.cons, examined, before, csp.cur, pruned);
  }

  /**
    The worklist loop of GAC, from the queue w0 of starting constraints: it stops
    at the first wipe-out, or once the queue is empty, every constraint it had to
    handle being consistent.
  */
  method GacLoop(csp: Csp, ghost examined: seq<nat>, ghost before: seq<set<int>>, w0: seq<nat>) returns (ok: bool, pruned: seq<Pruning>)
    requires csp.Valid() && csp.cur == before
    requires Distinct(w0) && forall cj :: cj in w0 <==> cj in examined && 0 <= cj < |csp.cons|
    modifies csp`cur
    ensures csp.Valid()
    ensures GacLog(csp.cons, examined, before, csp.cur, pruned)
    ensures !ok ==> WipedOut(csp.cur, pruned)
    ensures ok ==> GacQueue(csp.cons, examined, csp.cur, pruned, [], -1)
  {
    var w := w0;
    pruned := [];
    while |w| > 0
      invariant csp.Valid()
      invariant GacLog(csp.cons, examined, before, csp.cur, pruned)
      invariant GacQueue(csp.cons, examined, csp.cur, pruned, w, -1)
      decreases TotalSize(csp.cur), |w|
    {
      var ci := w[0];
      assert ci in w;
      GacPop(csp.cons, examined, csp.cur, pruned, w);
      ghost var dirty;
      ok, w, pruned, dirty := GacRevise(csp, examined, before, ci, w[1..], pruned);
      if !ok {
        return false, pruned;
      }
      GacRejoin(csp.cons, examined, csp.cur, pruned, w, ci);
    }
    return true, pruned;
  }

  /** What the GAC log gives PropGAC's callers: every pair unsupported in the final domains, and no solution lost. */
  lemma GacPostcondition(cons: seq<Constraint>, examined: seq<nat>, before: seq<set<int>>, cur: seq<set<int>>, pruned: seq<Pruning>)
    requires GacLog(cons, examined, before, cur, pruned)
    ensures forall pr :: pr in pruned ==> GacJustified(cons, examined, pruned, cur, pr)
    ensures forall sol {:trigger Solution(cons, cur, sol)} :: Solution(cons, before, sol) ==> Solution(cons, cur, sol)
  {
    GacJustifiedFinal(cons, examined, before, cur, pruned);
    forall sol | Solution(cons, before, sol) ensures Solution(cons, cur, sol) {
      GacKeepsSolution(cons, examined, before, cur, pruned, sol);
    }
  }

  /**
    The list ord_mrv sorts: a (variable, current domain size) pair for every
    unassigned variable, in variable order.
  */
  method SizeOrdering(csp: Csp) returns (s: seq<(nat, nat)>)
    requires csp.Valid()
    ensures forall k :: 0 <= k < |s| ==> s[k].0 < csp.nvars && csp.asg[s[k].0].None? && s[k].1 == |csp.cur[s[k].0]|
    ensures forall k, m :: 0 <= k < m < |s| ==> s[k].0 < s[m].0
    ensures forall y :: 0 <= y < csp.nvars && csp.asg[y].None? ==> exists k :: 0 <= k < |s| && s[k].0 == y
  {
    var asg, cur, n := csp.asg, csp.cur, csp.nvars;
    s := [];
    for u := 0 to n
      invariant forall k :: 0 <= k < |s| ==> s[k].0 < u && asg[s[k].0].None? && s[k].1 == |cur[s[k].0]|
      invariant forall k, m :: 0 <= k < m < |s| ==> s[k].0 < s[m].0
      invariant forall y :: 0 <= y < u && asg[y].None? ==> exists k :: 0 <= k < |s| && s[k].0 == y
    {
      ghost var prev := s;
      if asg[u].None? {
        s := s + [(u, |cur[u]|)];
      }
      forall y | 0 <= y < u + 1 && asg[y].None?
        ensures exists k :: 0 <= k < |s| && s[k].0 == y
      {
        if y == u {
          assert s[|s| - 1].0 == y;
        } else {
          var k :| 0 <= k < |prev| && prev[k].0 == y;
          assert s[k].0 == y;
        }
      }
    }
  }

  /** The entry a stable sort by size puts first: the earliest entry of minimum size. */
  method FirstMinimum(s: seq<(nat, nat)>) returns (best: nat)
    requires |s| > 0
    ensures best < |s|
    ensures forall m :: 0 <= m < |s| ==> s[best].1 <= s[m].1
    ensures forall m :: 0 <= m < best ==> s[m].1 > s[best].1
  {
    best := 0;
    for k := 1 to |s|
      invariant best < k
      invariant forall m :: 0 <= m < k ==> s[best].1 <= s[m].1
      invariant forall m :: 0 <= m < best ==> s[m].1 > s[best].1
    {
      if s[k].1 < s[best].1 {
        best := k;
      }
    }
  }

  /**
    Minimum remaining values: the first unassigned variable (in variable order)
    whose current domain is smallest among the unassigned variables.
  */
  method OrdMrv(csp: Csp) returns (v: nat)
    requires csp.Valid()
    requires exists u :: 0 <= u < csp.nvars && csp.asg[u].None?
    ensures v < csp.nvars && csp.asg[v].None?
    ensures forall u :: 0 <= u < csp.nvars && csp.asg[u].None? ==> |csp.cur[v]| <= |csp.cur[u]|
    ensures forall u :: 0 <= u < v && csp.asg[u].None? ==> |csp.cur[u]| > |csp.cur[v]|
  {
    var sizeOrdering := SizeOrdering(csp);
    var u0 :| 0 <= u0 < csp.nvars && csp.asg[u0].None?;
    assert exists k :: 0 <= k < |sizeOrdering| && sizeOrdering[k].0 == u0;
    var best := FirstMinimum(sizeOrdering);
    v := sizeOrdering[best].0;
    forall u | 0 <= u < v && csp.asg[u].None? ensures |csp.cur[u]| > |csp.cur[v]| {
      var k :| 0 <= k < |sizeOrdering| && sizeOrdering[k].0 == u;
      assert k < best;
    }
  }
}
