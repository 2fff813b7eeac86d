/** What the state representation promises about its hierarchy: how a
    handler is resolved along the superstate chain, what `Includes` and
    `IsIncludedIn` mean, which triggers are permitted, and which nodes an
    exit or an entry walks through. */
module Hierarchy {
  import opened Wrappers
  import opened Triggers
  import opened Representation

  /** Index `i` is the only behaviour of `bs` whose guard holds. */
  ghost predicate OnlyMet<S, T>(bs: seq<TriggerBehaviour<S, T>>, guards: GuardId -> bool, i: int) {
    0 <= i < |bs| && bs[i].IsGuardConditionMet(guards) &&
    forall j :: 0 <= j < |bs| && j != i ==> !bs[j].IsGuardConditionMet(guards)
  }

  /** Two distinct behaviours of `bs` have guards that hold. */
  ghost predicate TwoMet<S, T>(bs: seq<TriggerBehaviour<S, T>>, guards: GuardId -> bool) {
    exists i, j :: 0 <= i < j < |bs| && bs[i].IsGuardConditionMet(guards) && bs[j].IsGuardConditionMet(guards)
  }

  lemma {:induction false} ActualOfNoneMet<S, T>(bs: seq<TriggerBehaviour<S, T>>, guards: GuardId -> bool)
    requires !AnyMet(bs, guards)
    ensures Actual(bs, guards) == []
  {
    if bs != [] {
      forall j | 0 <= j < |bs[1..]| ensures !bs[1..][j].IsGuardConditionMet(guards) {
        assert bs[1..][j] == bs[j + 1];
      }
      ActualOfNoneMet(bs[1..], guards);
    }
  }

  lemma {:induction false} ActualOfOnlyMet<S, T>(bs: seq<TriggerBehaviour<S, T>>, guards: GuardId -> bool, i: int)
    requires OnlyMet(bs, guards, i)
    ensures Actual(bs, guards) == [bs[i]]
  {
    forall j | 0 <= j < |bs[1..]| && j != i - 1
      ensures !bs[1..][j].IsGuardConditionMet(guards)
    {
      assert bs[1..][j] == bs[j + 1];
    }
    if i == 0 {
      ActualOfNoneMet(bs[1..], guards);
    } else {
      ActualOfOnlyMet(bs[1..], guards, i - 1);
    }
  }

  lemma {:induction false} ActualOfTwoMet<S, T>(bs: seq<TriggerBehaviour<S, T>>, guards: GuardId -> bool, i: int, j: int)
    requires 0 <= i < j < |bs|
    requires bs[i].IsGuardConditionMet(guards) && bs[j].IsGuardConditionMet(guards)
    ensures |Actual(bs, guards)| >= 2
  {
    assert bs[1..][j - 1] == bs[j];
    if i == 0 {
      assert bs[j] in Actual(bs[1..], guards);
    } else {
      assert bs[1..][i - 1] == bs[i];
      ActualOfTwoMet(bs[1..], guards, i - 1, j - 1);
    }
  }

  /** The guards that hold in a list fall in exactly one of three cases:
      none, exactly one, or at least two. */
  lemma MetCases<S, T>(bs: seq<TriggerBehaviour<S, T>>, guards: GuardId -> bool)
    ensures !AnyMet(bs, guards) ==> Actual(bs, guards) == []
    ensures TwoMet(bs, guards) ==> |Actual(bs, guards)| >= 2
    ensures AnyMet(bs, guards) && !TwoMet(bs, guards) ==> exists i :: OnlyMet(bs, guards, i)
    ensures forall i :: OnlyMet(bs, guards, i) ==> Actual(bs, guards) == [bs[i]]
  {
    forall i | OnlyMet(bs, guards, i) ensures Actual(bs, guards) == [bs[i]] {
      ActualOfOnlyMet(bs, guards, i);
    }
    if !AnyMet(bs, guards) {
      ActualOfNoneMet(bs, guards);
    } else if TwoMet(bs, guards) {
      var i, j :| 0 <= i < j < |bs| && bs[i].IsGuardConditionMet(guards) && bs[j].IsGuardConditionMet(guards);
      ActualOfTwoMet(bs, guards, i, j);
    } else {
      var i :| 0 <= i < |bs| && bs[i].IsGuardConditionMet(guards);
      assert OnlyMet(bs, guards, i);
    }
  }

  /** The local lookup fails as "not configured" exactly when the trigger has
      no list, as "no guard met" exactly when no guard holds, as "multiple
      transitions permitted" exactly when two guards hold, and succeeds
      exactly when one guard holds, returning that behaviour. */
  lemma LocalHandlerOutcome<S, T>(node: StateNode<S, T>, t: T, guards: GuardId -> bool)
    ensures TryFindLocalHandler(node, t, guards) == Failure(NotConfigured) <==> t !in node.triggerBehaviours
    ensures TryFindLocalHandler(node, t, guards) == Failure(NoGuardMet) <==>
              t in node.triggerBehaviours && !AnyMet(node.triggerBehaviours[t], guards)
    ensures TryFindLocalHandler(node, t, guards) == Failure(MultipleTransitionsPermitted) <==>
              t in node.triggerBehaviours && TwoMet(node.triggerBehaviours[t], guards)
    ensures TryFindLocalHandler(node, t, guards).Success? <==>
              exists i :: OnlyMet(Behaviours(node, t), guards, i)
    ensures forall i :: OnlyMet(Behaviours(node, t), guards, i) ==>
              TryFindLocalHandler(node, t, guards) == Success(Behaviours(node, t)[i])
  {
    var bs := Behaviours(node, t);
    MetCases(bs, guards);
    if TwoMet(bs, guards) {
      var i, j :| 0 <= i < j < |bs| && bs[i].IsGuardConditionMet(guards) && bs[j].IsGuardConditionMet(guards);
      assert forall k :: !OnlyMet(bs, guards, k);
    }
  }

  /** The local lookup of node `m`. */
  ghost function LocalAt<S, T>(g: StateGraph<S, T>, m: nat, t: T, guards: GuardId -> bool): Result<TriggerBehaviour<S, T>, LocalFailure>
    reads g
    requires m < |g.nodes|
  {
    TryFindLocalHandler(g.nodes[m], t, guards)
  }

  /** Every node of `c` fails its local lookup for `t`. */
  ghost predicate AllFail<S, T>(g: StateGraph<S, T>, c: seq<nat>, t: T, guards: GuardId -> bool)
    reads g
  {
    forall k :: 0 <= k < |c| ==> c[k] < |g.nodes| && LocalAt(g, c[k], t, guards).Failure?
  }

  /** Node `c[k]` is the first node of `c` whose local lookup succeeds, and
      it yields `b`. */
  ghost predicate FirstSuccessAt<S, T>(g: StateGraph<S, T>, c: seq<nat>, t: T, guards: GuardId -> bool, k: int, b: TriggerBehaviour<S, T>)
    reads g
  {
    0 <= k < |c| && c[k] < |g.nodes| && LocalAt(g, c[k], t, guards) == Success(b) &&
    AllFail(g, c[..k], t, guards)
  }

  lemma AllFailCons<S, T>(g: StateGraph<S, T>, n: nat, cp: seq<nat>, t: T, guards: GuardId -> bool)
    requires n < |g.nodes|
    ensures AllFail(g, [n] + cp, t, guards) <==> LocalAt(g, n, t, guards).Failure? && AllFail(g, cp, t, guards)
  {
    var c := [n] + cp;
    if AllFail(g, c, t, guards) {
      assert c[0] == n;
      forall k | 0 <= k < |cp| ensures cp[k] < |g.nodes| && LocalAt(g, cp[k], t, guards).Failure? {
        assert c[k + 1] == cp[k];
      }
    }
    if LocalAt(g, n, t, guards).Failure? && AllFail(g, cp, t, guards) {
      forall k | 0 <= k < |c| ensures c[k] < |g.nodes| && LocalAt(g, c[k], t, guards).Failure? {
        if k > 0 { assert c[k] == cp[k - 1]; }
      }
    }
  }

  lemma FirstSuccessCons<S, T>(g: StateGraph<S, T>, n: nat, cp: seq<nat>, t: T, guards: GuardId -> bool, k: int, b: TriggerBehaviour<S, T>)
    requires n < |g.nodes| && LocalAt(g, n, t, guards).Failure? && FirstSuccessAt(g, cp, t, guards, k, b)
    ensures FirstSuccessAt(g, [n] + cp, t, guards, k + 1, b)
  {
    var c := [n] + cp;
    assert c[..k + 1] == [n] + cp[..k];
    AllFailCons(g, n, cp[..k], t, guards);
  }

  lemma FirstSuccessNotAllFail<S, T>(g: StateGraph<S, T>, c: seq<nat>, t: T, guards: GuardId -> bool, k: int, b: TriggerBehaviour<S, T>)
    requires FirstSuccessAt(g, c, t, guards, k, b)
    ensures !AllFail(g, c, t, guards)
  {
  }

  /** Handler resolution returns the handler of the nearest node on the
      superstate chain (the node itself first) whose local lookup succeeds,
      skipping every node whose lookup fails for whatever reason, and finds
      nothing when every local lookup fails. */
  lemma {:induction false} FindHandlerNearest<S, T>(g: StateGraph<S, T>, n: nat, t: T, guards: GuardId -> bool)
    requires g.Valid() && n < |g.nodes|
    ensures g.TryFindHandler(n, t, guards).None? <==> AllFail(g, g.SuperstateChain(n), t, guards)
    ensures g.TryFindHandler(n, t, guards).Some? ==>
              exists k :: FirstSuccessAt(g, g.SuperstateChain(n), t, guards, k, g.TryFindHandler(n, t, guards).value)
    decreases g.rank[n]
  {
    assert g.NodeValid(n);
    var c := g.SuperstateChain(n);
    var r := g.TryFindHandler(n, t, guards);
    if LocalAt(g, n, t, guards).Success? {
      assert r == Some(LocalAt(g, n, t, guards).value);
      assert c[0] == n && c[..0] == [];
      assert FirstSuccessAt(g, c, t, guards, 0, r.value);
      FirstSuccessNotAllFail(g, c, t, guards, 0, r.value);
    } else {
      match g.nodes[n].superstate {
        case None =>
          assert c == [n] && r.None?;
          assert AllFail(g, c, t, guards);
        case Some(p) =>
          FindHandlerNearest(g, p, t, guards);
          var cp := g.SuperstateChain(p);
          assert c == [n] + cp;
          assert r == g.TryFindHandler(p, t, guards);
          AllFailCons(g, n, cp, t, guards);
          if r.Some? {
            var k :| FirstSuccessAt(g, cp, t, guards, k, r.value);
            FirstSuccessCons(g, n, cp, t, guards, k, r.value);
          }
      }
    }
  }

  /** A node can handle a trigger exactly when some node on its superstate
      chain has a successful local lookup for it. */
  lemma CanHandleIff<S, T>(g: StateGraph<S, T>, n: nat, t: T, guards: GuardId -> bool)
    requires g.Valid() && n < |g.nodes|
    ensures var c := g.SuperstateChain(n);
            g.CanHandle(n, t, guards) <==> exists k :: 0 <= k < |c| && LocalAt(g, c[k], t, guards).Success?
  {
    FindHandlerNearest(g, n, t, guards);
    var c := g.SuperstateChain(n);
    if g.CanHandle(n, t, guards) {
      var k :| FirstSuccessAt(g, c, t, guards, k, g.TryFindHandler(n, t, guards).value);
    }
  }

  /** An ambiguous node is not reported: resolution goes on to its
      superstate, or finds nothing at a root. */
  lemma AmbiguityFallsThrough<S, T>(g: StateGraph<S, T>, n: nat, t: T, guards: GuardId -> bool)
    requires g.Valid() && n < |g.nodes|
    requires t in g.nodes[n].triggerBehaviours && TwoMet(g.nodes[n].triggerBehaviours[t], guards)
    ensures g.nodes[n].superstate.None? ==> !g.CanHandle(n, t, guards)
    ensures g.nodes[n].superstate.Some? ==>
              g.nodes[n].superstate.value < |g.nodes| &&
              g.TryFindHandler(n, t, guards) == g.TryFindHandler(g.nodes[n].superstate.value, t, guards)
  {
    assert g.NodeValid(n);
    LocalHandlerOutcome(g.nodes[n], t, guards);
  }

  /** Some node listed in `c` permits `t` locally. */
  ghost predicate PermittedOnChain<S, T>(g: StateGraph<S, T>, c: seq<nat>, guards: GuardId -> bool, t: T)
    reads g
  {
    exists k :: 0 <= k < |c| && c[k] < |g.nodes| && t in LocalPermittedTriggers(g.nodes[c[k]], guards)
  }

  lemma PermittedOnChainCons<S, T>(g: StateGraph<S, T>, n: nat, cp: seq<nat>, guards: GuardId -> bool, t: T)
    requires n < |g.nodes|
    ensures PermittedOnChain(g, [n] + cp, guards, t) <==>
            t in LocalPermittedTriggers(g.nodes[n], guards) || PermittedOnChain(g, cp, guards, t)
  {
    var c := [n] + cp;
    if PermittedOnChain(g, c, guards, t) {
      var k :| 0 <= k < |c| && c[k] < |g.nodes| && t in LocalPermittedTriggers(g.nodes[c[k]], guards);
      if k > 0 { assert c[k] == cp[k - 1]; }
    }
    if t in LocalPermittedTriggers(g.nodes[n], guards) {
      assert c[0] == n;
    }
    if PermittedOnChain(g, cp, guards, t) {
      var k :| 0 <= k < |cp| && cp[k] < |g.nodes| && t in LocalPermittedTriggers(g.nodes[cp[k]], guards);
      assert c[k + 1] == cp[k];
    }
  }

  /** The permitted triggers of a node are those permitted locally at some
      node of its superstate chain. */
  lemma {:induction false} PermittedTriggersIff<S, T>(g: StateGraph<S, T>, n: nat, guards: GuardId -> bool, t: T)
    requires g.Valid() && n < |g.nodes|
    ensures t in g.PermittedTriggers(n, guards) <==> PermittedOnChain(g, g.SuperstateChain(n), guards, t)
    decreases g.rank[n]
  {
    assert g.NodeValid(n);
    var c := g.SuperstateChain(n);
    match g.nodes[n].superstate {
      case None =>
        assert c == [n] + [];
        PermittedOnChainCons(g, n, [], guards, t);
      case Some(p) =>
        PermittedTriggersIff(g, p, guards, t);
        var cp := g.SuperstateChain(p);
        assert c == [n] + cp;
        PermittedOnChainCons(g, n, cp, guards, t);
    }
  }

  /** A trigger that can be handled is permitted. (The converse fails: a
      trigger whose guards hold twice everywhere is permitted but not
      handled.) */
  lemma CanHandleIsPermitted<S, T>(g: StateGraph<S, T>, n: nat, t: T, guards: GuardId -> bool)
    requires g.Valid() && n < |g.nodes| && g.CanHandle(n, t, guards)
    ensures t in g.PermittedTriggers(n, guards)
  {
    var c := g.SuperstateChain(n);
    CanHandleIff(g, n, t, guards);
    var k :| 0 <= k < |c| && LocalAt(g, c[k], t, guards).Success?;
    LocalSuccessIsPermitted(g.nodes[c[k]], t, guards);
    assert PermittedOnChain(g, c, guards, t);
    PermittedTriggersIff(g, n, guards, t);
  }

  /** A trigger a node handles locally is locally permitted there. */
  lemma LocalSuccessIsPermitted<S, T>(node: StateNode<S, T>, t: T, guards: GuardId -> bool)
    requires TryFindLocalHandler(node, t, guards).Success?
    ensures t in LocalPermittedTriggers(node, guards)
  {
    var b := TryFindLocalHandler(node, t, guards).value;
    var i :| 0 <= i < |node.triggerBehaviours[t]| && node.triggerBehaviours[t][i] == b;
    assert AnyMet(node.triggerBehaviours[t], guards);
  }

  /** Some node listed in `c` has state `s`. */
  ghost predicate StateOnChain<S, T>(g: StateGraph<S, T>, c: seq<nat>, s: S)
    reads g
  {
    exists k :: 0 <= k < |c| && c[k] < |g.nodes| && g.nodes[c[k]].state == s
  }

  lemma StateOnChainCons<S, T>(g: StateGraph<S, T>, n: nat, cp: seq<nat>, s: S)
    requires n < |g.nodes|
    ensures StateOnChain(g, [n] + cp, s) <==> g.nodes[n].state == s || StateOnChain(g, cp, s)
  {
    var c := [n] + cp;
    if StateOnChain(g, c, s) {
      var k :| 0 <= k < |c| && c[k] < |g.nodes| && g.nodes[c[k]].state == s;
      if k > 0 { assert c[k] == cp[k - 1]; }
    }
    if g.nodes[n].state == s {
      assert c[0] == n;
    }
    if StateOnChain(g, cp, s) {
      var k :| 0 <= k < |cp| && cp[k] < |g.nodes| && g.nodes[cp[k]].state == s;
      assert c[k + 1] == cp[k];
    }
  }

  /** A node is included in `s` exactly when `s` is the state of a node on
      its superstate chain. */
  lemma {:induction false} IsIncludedInIff<S, T>(g: StateGraph<S, T>, n: nat, s: S)
    requires g.Valid() && n < |g.nodes|
    ensures g.IsIncludedIn(n, s) <==> StateOnChain(g, g.SuperstateChain(n), s)
    decreases g.rank[n]
  {
    assert g.NodeValid(n);
    var c := g.SuperstateChain(n);
    match g.nodes[n].superstate {
      case None =>
        assert c == [n] + [];
        StateOnChainCons(g, n, [], s);
      case Some(p) =>
        IsIncludedInIff(g, p, s);
        var cp := g.SuperstateChain(p);
        assert c == [n] + cp;
        StateOnChainCons(g, n, cp, s);
    }
  }

  /** A node includes every state that one of its substate entries includes,
      whatever that substate's current superstate is. */
  lemma IncludesThroughSubstate<S, T>(g: StateGraph<S, T>, n: nat, i: nat, s: S)
    requires g.Valid() && n < |g.nodes| && i < |g.nodes[n].substates|
    requires g.NodeValid(n) && g.Includes(g.nodes[n].substates[i], s)
    ensures g.Includes(n, s)
  {
  }

  /** Under consistent links a superstate includes whatever its substate
      includes. */
  lemma IncludesSuperstate<S, T>(g: StateGraph<S, T>, n: nat, s: S)
    requires g.Valid() && g.Consistent() && n < |g.nodes|
    requires g.nodes[n].superstate.Some? && g.Includes(n, s)
    ensures g.nodes[n].superstate.value < |g.nodes| && g.Includes(g.nodes[n].superstate.value, s)
  {
    var p := g.nodes[n].superstate.value;
    assert n in g.nodes[p].substates;
    var i :| 0 <= i < |g.nodes[p].substates| && g.nodes[p].substates[i] == n;
    assert g.NodeValid(p);
    IncludesThroughSubstate(g, p, i, s);
  }

  /** Inclusion climbs the superstate chain: once a node includes `s`, so does
      every node above it. */
  lemma {:induction false} IncludesUpChain<S, T>(g: StateGraph<S, T>, n: nat, s: S, k: nat, j: nat)
    requires g.Valid() && g.Consistent() && n < |g.nodes|
    requires k <= j < |g.SuperstateChain(n)| && g.Includes(g.SuperstateChain(n)[k], s)
    ensures g.Includes(g.SuperstateChain(n)[j], s)
    decreases j - k
  {
    var c := g.SuperstateChain(n);
    if k < j {
      IncludesUpChain(g, n, s, k, j - 1);
      assert g.nodes[c[j - 1]].superstate == Some(c[j]);
      IncludesSuperstate(g, c[j - 1], s);
    }
  }

  /** Every node on the superstate chain of `m` includes the state of `m`. */
  lemma AncestorsIncludeState<S, T>(g: StateGraph<S, T>, m: nat, k: nat)
    requires g.Valid() && g.Consistent() && m < |g.nodes| && k < |g.SuperstateChain(m)|
    ensures g.Includes(g.SuperstateChain(m)[k], g.nodes[m].state)
  {
    IncludesUpChain(g, m, g.nodes[m].state, 0, k);
  }

  /** No two nodes represent the same state, as the machine's registry
      arranges. */
  ghost predicate DistinctStates<S, T>(g: StateGraph<S, T>)
    reads g
  {
    forall i, j :: 0 <= i < |g.nodes| && 0 <= j < |g.nodes| && g.nodes[i].state == g.nodes[j].state ==> i == j
  }

  /** The two membership tests agree in one direction: if `m` lies within
      the state of `a`, then `a` includes the state of `m`. */
  lemma IncludedInThenIncludes<S, T>(g: StateGraph<S, T>, m: nat, a: nat)
    requires g.Valid() && g.Consistent() && DistinctStates(g) && m < |g.nodes| && a < |g.nodes|
    requires g.IsIncludedIn(m, g.nodes[a].state)
    ensures g.Includes(a, g.nodes[m].state)
  {
    var c := g.SuperstateChain(m);
    IsIncludedInIff(g, m, g.nodes[a].state);
    var k :| 0 <= k < |c| && c[k] < |g.nodes| && g.nodes[c[k]].state == g.nodes[a].state;
    AncestorsIncludeState(g, m, k);
  }

  /** The links agree both ways: every node is listed under its superstate,
      and every listed substate names that node as its superstate. A
      `SubstateOf` that moves a state to a different superstate breaks the
      second half, because the previous superstate keeps its entry. */
  ghost predicate TreeLinks<S, T>(nodes: seq<StateNode<S, T>>) {
    LinksConsistent(nodes) &&
    forall p, i :: 0 <= p < |nodes| && 0 <= i < |nodes[p].substates| ==>
      nodes[p].substates[i] < |nodes| && nodes[nodes[p].substates[i]].superstate == Some(p)
  }

  /** The superstate of a node on a chain is on that chain too. */
  lemma ChainContinues<S, T>(g: StateGraph<S, T>, m: nat, c: nat, p: nat)
    requires g.Valid() && m < |g.nodes| && c in g.SuperstateChain(m) && g.nodes[c].superstate == Some(p)
    ensures p in g.SuperstateChain(m)
  {
    var ch := g.SuperstateChain(m);
    var k :| 0 <= k < |ch| && ch[k] == c;
    assert k < |ch| - 1;
    assert g.nodes[ch[k]].superstate == Some(ch[k + 1]);
  }

  /** With links that agree both ways, a node includes only the states of
      nodes below it on their superstate chains. */
  lemma {:induction false} IncludesOnlyDescendants<S, T>(g: StateGraph<S, T>, n: nat, s: S)
    requires g.Valid() && TreeLinks(g.nodes) && n < |g.nodes| && g.Includes(n, s)
    ensures exists m :: 0 <= m < |g.nodes| && g.nodes[m].state == s && n in g.SuperstateChain(m)
    decreases g.bound - g.rank[n]
  {
    assert g.NodeValid(n);
    if g.nodes[n].state == s {
      assert g.SuperstateChain(n)[0] == n;
    } else {
      var subs := g.nodes[n].substates;
      var i :| 0 <= i < |subs| && g.Includes(subs[i], s);
      assert g.NodeValid(subs[i]);
      IncludesOnlyDescendants(g, subs[i], s);
      var m :| 0 <= m < |g.nodes| && g.nodes[m].state == s && subs[i] in g.SuperstateChain(m);
      ChainContinues(g, m, subs[i], n);
    }
  }

  /** With links that agree both ways, `Includes(s)` holds exactly when `s`
      is the state of a node that has `n` on its superstate chain. */
  lemma IncludesIff<S, T>(g: StateGraph<S, T>, n: nat, s: S)
    requires g.Valid() && TreeLinks(g.nodes) && n < |g.nodes|
    ensures g.Includes(n, s) <==>
              exists m :: 0 <= m < |g.nodes| && g.nodes[m].state == s && n in g.SuperstateChain(m)
  {
    if g.Includes(n, s) {
      IncludesOnlyDescendants(g, n, s);
    }
    if exists m :: 0 <= m < |g.nodes| && g.nodes[m].state == s && n in g.SuperstateChain(m) {
      var m :| 0 <= m < |g.nodes| && g.nodes[m].state == s && n in g.SuperstateChain(m);
      var c := g.SuperstateChain(m);
      var k :| 0 <= k < |c| && c[k] == n;
      AncestorsIncludeState(g, m, k);
    }
  }

  /** The other direction, which needs links that agree both ways: if `a`
      includes the state of `m`, then `m` lies within the state of `a`. */
  lemma IncludesThenIncludedIn<S, T>(g: StateGraph<S, T>, m: nat, a: nat)
    requires g.Valid() && TreeLinks(g.nodes) && DistinctStates(g) && m < |g.nodes| && a < |g.nodes|
    requires g.Includes(a, g.nodes[m].state)
    ensures g.IsIncludedIn(m, g.nodes[a].state)
  {
    IncludesOnlyDescendants(g, a, g.nodes[m].state);
    var m' :| 0 <= m' < |g.nodes| && g.nodes[m'].state == g.nodes[m].state && a in g.SuperstateChain(m');
    assert m' == m;
    var c := g.SuperstateChain(m);
    var k :| 0 <= k < |c| && c[k] == a;
    assert StateOnChain(g, c, g.nodes[a].state);
    IsIncludedInIff(g, m, g.nodes[a].state);
  }

  /** With links that agree both ways and one node per state, the two
      membership tests are converse: `a` includes the state of `m` exactly
      when `m` is included in the state of `a`. */
  lemma IncludesConverse<S, T>(g: StateGraph<S, T>, m: nat, a: nat)
    requires g.Valid() && TreeLinks(g.nodes) && DistinctStates(g) && m < |g.nodes| && a < |g.nodes|
    ensures g.Includes(a, g.nodes[m].state) <==> g.IsIncludedIn(m, g.nodes[a].state)
  {
    if g.Includes(a, g.nodes[m].state) {
      IncludesThenIncludedIn(g, m, a);
    }
    if g.IsIncludedIn(m, g.nodes[a].state) {
      IncludedInThenIncludes(g, m, a);
    }
  }

  /** The entry actions that run keep their registration order: running a
      list split in two runs the two halves one after the other. */
  lemma {:induction false} RunnableSplit<T>(a: seq<EntryAction<T>>, b: seq<EntryAction<T>>, trigger: T)
    ensures RunnableEntryActions(a + b, trigger) == RunnableEntryActions(a, trigger) + RunnableEntryActions(b, trigger)
    decreases |b|
  {
    if b == [] {
      assert a + b == a;
    } else {
      var b0, last := b[..|b| - 1], b[|b| - 1];
      assert (a + b)[..|a + b| - 1] == a + b0;
      RunnableSplit(a, b0, trigger);
      assert b[..|b| - 1] == b0;
    }
  }

  /** An action registered with `OnEntryFrom` runs exactly when the
      transition's trigger is its filter; one registered with `OnEntry`
      always runs. */
  lemma RunnableSingle<T>(e: EntryAction<T>, trigger: T)
    ensures RunnableEntryActions([e], trigger) == (if Fires(e, trigger) then [e.action] else [])
  {
    assert [e][..0] == [];
  }

  /** `e` is the longest prefix of the chain `c` whose nodes do not include
      `s`, and every later node of `c` includes `s`. */
  ghost predicate WalkPrefix<S, T>(g: StateGraph<S, T>, c: seq<nat>, e: seq<nat>, s: S)
    reads g
    requires g.Valid() && forall i :: 0 <= i < |c| ==> c[i] < |g.nodes|
  {
    |e| <= |c| && e == c[..|e|] &&
    forall k :: 0 <= k < |c| ==> (k < |e| <==> !g.Includes(c[k], s))
  }

  /** Under consistent links, the nodes of a chain that do not include `s`
      form a prefix of it. */
  lemma ExcludingIsWalkPrefix<S, T>(g: StateGraph<S, T>, n: nat, s: S)
    requires g.Valid() && g.Consistent() && n < |g.nodes|
    ensures WalkPrefix(g, g.SuperstateChain(n), g.Excluding(g.SuperstateChain(n), s), s)
  {
    var c := g.SuperstateChain(n);
    var x := g.Excluding(c, s);
    forall k | 0 <= k < |x| ensures !g.Includes(c[k], s) {
      assert x[k] == c[k];
    }
    forall k | |x| <= k < |c| ensures g.Includes(c[k], s) {
      IncludesUpChain(g, n, s, |x|, k);
    }
  }

  /** A non-reentrant exit walks a prefix of the superstate chain, innermost
      first: exactly the nodes that do not include the destination. */
  lemma ExitWalk<S, T>(g: StateGraph<S, T>, n: nat, tr: Transition<S, T>)
    requires g.Valid() && g.Consistent() && n < |g.nodes| && !tr.IsReentry()
    ensures g.ExitNodes(n, tr) == g.Excluding(g.SuperstateChain(n), tr.destination)
    ensures WalkPrefix(g, g.SuperstateChain(n), g.ExitNodes(n, tr), tr.destination)
  {
    ExcludingIsWalkPrefix(g, n, tr.destination);
  }

  /** A non-reentrant entry walks the same kind of prefix, for the source,
      outermost first. */
  lemma EntryWalk<S, T>(g: StateGraph<S, T>, n: nat, tr: Transition<S, T>)
    requires g.Valid() && g.Consistent() && n < |g.nodes| && !tr.IsReentry()
    ensures g.EntryNodes(n, tr) == Reversed(g.Excluding(g.SuperstateChain(n), tr.source))
    ensures WalkPrefix(g, g.SuperstateChain(n), g.Excluding(g.SuperstateChain(n), tr.source), tr.source)
  {
    ExcludingIsWalkPrefix(g, n, tr.source);
  }
}
