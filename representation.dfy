/** The state representation: one node per state, holding its trigger table,
    its entry and exit actions and its links into the state hierarchy. The
    nodes live in an arena (`StateGraph`) and refer to each other by index. */
module Representation {
  import opened Wrappers
  import opened Triggers

  /** An entry action, optionally restricted to transitions fired by one
      trigger. */
  datatype EntryAction<T> = EntryAction(filter: Option<T>, action: ActionId)

  /** An entry action runs its body when it is unfiltered or when the
      transition's trigger equals its filter. */
  predicate Fires<T(==)>(e: EntryAction<T>, trigger: T) {
    e.filter.None? || e.filter.value == trigger
  }

  /** The actions that running an entry-action list performs for a
      transition fired by `trigger`, in registration order. */
  function RunnableEntryActions<T(==)>(actions: seq<EntryAction<T>>, trigger: T): (r: seq<ActionId>)
    ensures |r| <= |actions|
    ensures forall a :: a in r ==>
              exists i :: 0 <= i < |actions| && actions[i].action == a && Fires(actions[i], trigger)
    ensures forall i :: 0 <= i < |actions| && Fires(actions[i], trigger) ==> actions[i].action in r
  {
    if actions == [] then []
    else
      var init, last := actions[..|actions| - 1], actions[|actions| - 1];
      assert forall i :: 0 <= i < |init| ==> init[i] == actions[i];
      RunnableEntryActions(init, trigger) + (if Fires(last, trigger) then [last.action] else [])
  }

  /** One state's node. */
  datatype StateNode<S, T> = StateNode(
    state: S,
    triggerBehaviours: map<T, seq<TriggerBehaviour<S, T>>>,
    entryActions: seq<EntryAction<T>>,
    exitActions: seq<ActionId>,
    superstate: Option<nat>,
    substates: seq<nat>)

  /** A freshly constructed node: nothing configured, no links. */
  function NewNode<S, T>(state: S): StateNode<S, T> {
    StateNode(state, map[], [], [], None, [])
  }

  /** The behaviours registered for `t`, empty when the key is absent. */
  function Behaviours<S, T>(node: StateNode<S, T>, t: T): seq<TriggerBehaviour<S, T>> {
    if t in node.triggerBehaviours then node.triggerBehaviours[t] else []
  }

  /** The node after `AddTriggerBehaviour(b)`. */
  function AppendBehaviour<S, T>(node: StateNode<S, T>, b: TriggerBehaviour<S, T>): (r: StateNode<S, T>)
    ensures r.triggerBehaviours.Keys == node.triggerBehaviours.Keys + {b.trigger}
    ensures Behaviours(r, b.trigger) == Behaviours(node, b.trigger) + [b]
    ensures forall t :: t in node.triggerBehaviours && t != b.trigger ==>
              r.triggerBehaviours[t] == node.triggerBehaviours[t]
    ensures r.(triggerBehaviours := node.triggerBehaviours) == node
  {
    node.(triggerBehaviours := node.triggerBehaviours[b.trigger := Behaviours(node, b.trigger) + [b]])
  }

  /** Every behaviour sits under the key of its own trigger. */
  ghost predicate KeyedByTrigger<S, T>(node: StateNode<S, T>) {
    forall t :: t in node.triggerBehaviours ==>
      forall b :: b in node.triggerBehaviours[t] ==> b.trigger == t
  }

  /** The behaviours of `bs` whose guard holds in the snapshot, in order: the
      `actual` list of the local lookup. */
  function Actual<S, T>(bs: seq<TriggerBehaviour<S, T>>, guards: GuardId -> bool): (r: seq<TriggerBehaviour<S, T>>)
    ensures |r| <= |bs|
    ensures forall b :: b in r ==> b in bs && b.IsGuardConditionMet(guards)
    ensures forall i :: 0 <= i < |bs| && bs[i].IsGuardConditionMet(guards) ==> bs[i] in r
  {
    if bs == [] then []
    else (if bs[0].IsGuardConditionMet(guards) then [bs[0]] else []) + Actual(bs[1..], guards)
  }

  /** Why a local lookup fails: the key is absent, no guard holds (the
      lookup then fails on `actual.get(0)`), or several guards hold. */
  datatype LocalFailure = NotConfigured | NoGuardMet | MultipleTransitionsPermitted

  /** The local lookup of a handler for `t` in one node. */
  function TryFindLocalHandler<S, T>(node: StateNode<S, T>, t: T, guards: GuardId -> bool): (r: Result<TriggerBehaviour<S, T>, LocalFailure>)
    ensures r.Success? ==> r.value in Behaviours(node, t) && r.value.IsGuardConditionMet(guards)
    ensures r == Failure(NotConfigured) <==> t !in node.triggerBehaviours
    ensures r == Failure(NoGuardMet) <==>
              t in node.triggerBehaviours && |Actual(node.triggerBehaviours[t], guards)| == 0
    ensures r == Failure(MultipleTransitionsPermitted) <==>
              t in node.triggerBehaviours && |Actual(node.triggerBehaviours[t], guards)| > 1
    ensures r.Success? <==> t in node.triggerBehaviours && |Actual(node.triggerBehaviours[t], guards)| == 1
    ensures r.Success? ==> r.value == Actual(node.triggerBehaviours[t], guards)[0]
  {
    if t !in node.triggerBehaviours then Failure(NotConfigured)
    else
      var actual := Actual(node.triggerBehaviours[t], guards);
      if |actual| > 1 then Failure(MultipleTransitionsPermitted)
      else if |actual| == 0 then Failure(NoGuardMet)
      else Success(actual[0])
  }

  /** Some behaviour of `bs` has a guard that holds in the snapshot. */
  predicate AnyMet<S, T>(bs: seq<TriggerBehaviour<S, T>>, guards: GuardId -> bool) {
    exists i :: 0 <= i < |bs| && bs[i].IsGuardConditionMet(guards)
  }

  /** The triggers of one node with at least one behaviour whose guard holds. */
  function LocalPermittedTriggers<S, T>(node: StateNode<S, T>, guards: GuardId -> bool): (r: set<T>)
    ensures forall t :: t in r ==> t in node.triggerBehaviours && AnyMet(node.triggerBehaviours[t], guards)
    ensures forall t :: t in node.triggerBehaviours && AnyMet(node.triggerBehaviours[t], guards) ==> t in r
  {
    set t | t in node.triggerBehaviours.Keys && AnyMet(node.triggerBehaviours[t], guards)
  }

  /** Every node is listed among the substates of its superstate, as
      `SubstateOf` arranges. */
  ghost predicate LinksConsistent<S, T>(nodes: seq<StateNode<S, T>>) {
    forall n :: 0 <= n < |nodes| && nodes[n].superstate.Some? ==>
      nodes[n].superstate.value < |nodes| && n in nodes[nodes[n].superstate.value].substates
  }

  /** Two arenas with the same hierarchy links. */
  ghost predicate SameLinks<S, T>(a: seq<StateNode<S, T>>, b: seq<StateNode<S, T>>) {
    |a| == |b| &&
    forall i :: 0 <= i < |a| ==> a[i].superstate == b[i].superstate && a[i].substates == b[i].substates
  }

  lemma SameLinksConsistent<S, T>(a: seq<StateNode<S, T>>, b: seq<StateNode<S, T>>)
    requires SameLinks(a, b) && LinksConsistent(a)
    ensures LinksConsistent(b)
  {
    forall n | 0 <= n < |b| && b[n].superstate.Some?
      ensures b[n].superstate.value < |b| && n in b[b[n].superstate.value].substates
    {
      assert a[n].superstate == b[n].superstate;
    }
  }

  /** `s` in reverse order. */
  function Reversed<X>(s: seq<X>): (r: seq<X>)
    ensures |r| == |s|
    ensures forall i :: 0 <= i < |s| ==> r[i] == s[|s| - 1 - i]
  {
    if s == [] then [] else Reversed(s[1..]) + [s[0]]
  }

  lemma ReversedCons<X>(x: X, s: seq<X>)
    ensures Reversed([x] + s) == Reversed(s) + [x]
  {
    assert ([x] + s)[1..] == s;
  }

  /** All state representations of one machine. A node's superstate has a
      smaller rank and its substates larger ranks: the hierarchy is acyclic
      in both directions, which is what makes the recursive walks of the
      source terminate. */
  class StateGraph<S(==), T(==)> {
    var nodes: seq<StateNode<S, T>>
    ghost var rank: seq<nat>
    ghost var bound: nat

    ghost predicate NodeValid(n: nat)
      reads this
      requires n < |nodes| && |rank| == |nodes|
    {
      var node := nodes[n];
      rank[n] < bound &&
      (node.superstate.Some? ==>
         node.superstate.value < |nodes| && rank[node.superstate.value] < rank[n]) &&
      (forall i :: 0 <= i < |node.substates| ==>
         node.substates[i] < |nodes| && rank[n] < rank[node.substates[i]]) &&
      KeyedByTrigger(node)
    }

    ghost predicate Valid()
      reads this
    {
      |rank| == |nodes| && forall n :: 0 <= n < |nodes| ==> NodeValid(n)
    }

    ghost predicate Consistent()
      reads this
    {
      LinksConsistent(nodes)
    }

    constructor ()
      ensures Valid() && Consistent()
      ensures nodes == []
    {
      nodes, rank, bound := [], [], 0;
    }

    /** Create the representation of `state` (its constructor), with the rank
        it takes in the hierarchy. */
    method AddState(state: S, ghost r: nat) returns (n: nat)
      requires Valid()
      modifies this
      ensures Valid() && (old(Consistent()) ==> Consistent())
      ensures n == |old(nodes)| && nodes == old(nodes) + [NewNode(state)]
      ensures rank == old(rank) + [r]
    {
      n := |nodes|;
      nodes, rank := nodes + [NewNode(state)], rank + [r];
      bound := if r < bound then bound else r + 1;
      assert NodeValid(n);
      forall m | 0 <= m < n ensures NodeValid(m) {
        assert old(NodeValid(m));
      }
    }

    /** Register `b` at the end of the list for its trigger, creating the
        list when the trigger had none. */
    method AddTriggerBehaviour(n: nat, b: TriggerBehaviour<S, T>)
      requires Valid() && n < |nodes|
      modifies this
      ensures Valid() && (old(Consistent()) ==> Consistent())
      ensures nodes == old(nodes)[n := AppendBehaviour(old(nodes)[n], b)]
      ensures rank == old(rank) && bound == old(bound)
    {
      ghost var before := nodes;
      nodes := nodes[n := AppendBehaviour(nodes[n], b)];
      forall m | 0 <= m < |nodes| ensures NodeValid(m) {
        assert old(NodeValid(m));
      }
      if LinksConsistent(before) {
        SameLinksConsistent(before, nodes);
      }
    }

    /** Register an entry action that runs only for transitions fired by
        `trigger`. */
    method AddEntryActionFrom(n: nat, trigger: T, action: ActionId)
      requires Valid() && n < |nodes|
      modifies this
      ensures Valid() && (old(Consistent()) ==> Consistent())
      ensures nodes == old(nodes)[n := old(nodes)[n].(entryActions := old(nodes)[n].entryActions + [EntryAction(Some(trigger), action)])]
      ensures rank == old(rank) && bound == old(bound)
    {
      ghost var before := nodes;
      nodes := nodes[n := nodes[n].(entryActions := nodes[n].entryActions + [EntryAction(Some(trigger), action)])];
      forall m | 0 <= m < |nodes| ensures NodeValid(m) {
        assert old(NodeValid(m));
      }
      if LinksConsistent(before) {
        SameLinksConsistent(before, nodes);
      }
    }

    /** Register an entry action that runs on every entry. */
    method AddEntryAction(n: nat, action: ActionId)
      requires Valid() && n < |nodes|
      modifies this
      ensures Valid() && (old(Consistent()) ==> Consistent())
      ensures nodes == old(nodes)[n := old(nodes)[n].(entryActions := old(nodes)[n].entryActions + [EntryAction(None, action)])]
      ensures rank == old(rank) && bound == old(bound)
    {
      ghost var before := nodes;
      nodes := nodes[n := nodes[n].(entryActions := nodes[n].entryActions + [EntryAction(None, action)])];
      forall m | 0 <= m < |nodes| ensures NodeValid(m) {
        assert old(NodeValid(m));
      }
      if LinksConsistent(before) {
        SameLinksConsistent(before, nodes);
      }
    }

    /** Register an exit action. */
    method AddExitAction(n: nat, action: ActionId)
      requires Valid() && n < |nodes|
      modifies this
      ensures Valid() && (old(Consistent()) ==> Consistent())
      ensures nodes == old(nodes)[n := old(nodes)[n].(exitActions := old(nodes)[n].exitActions + [action])]
      ensures rank == old(rank) && bound == old(bound)
    {
      ghost var before := nodes;
      nodes := nodes[n := nodes[n].(exitActions := nodes[n].exitActions + [action])];
      forall m | 0 <= m < |nodes| ensures NodeValid(m) {
        assert old(NodeValid(m));
      }
      if LinksConsistent(before) {
        SameLinksConsistent(before, nodes);
      }
    }

    /** Point `n` at superstate `p`, replacing any previous link. */
    method SetSuperstate(n: nat, p: nat)
      requires Valid() && n < |nodes| && p < |nodes| && rank[p] < rank[n]
      modifies this
      ensures Valid()
      ensures nodes == old(nodes)[n := old(nodes)[n].(superstate := Some(p))]
      ensures rank == old(rank) && bound == old(bound)
    {
      nodes := nodes[n := nodes[n].(superstate := Some(p))];
      forall m | 0 <= m < |nodes| ensures NodeValid(m) {
        assert old(NodeValid(m));
      }
    }

    /** Append `c` to the substates of `n`. */
    method AddSubstate(n: nat, c: nat)
      requires Valid() && n < |nodes| && c < |nodes| && rank[n] < rank[c]
      modifies this
      ensures Valid() && (old(Consistent()) ==> Consistent())
      ensures nodes == old(nodes)[n := old(nodes)[n].(substates := old(nodes)[n].substates + [c])]
      ensures rank == old(rank) && bound == old(bound)
    {
      nodes := nodes[n := nodes[n].(substates := nodes[n].substates + [c])];
      forall m | 0 <= m < |nodes| ensures NodeValid(m) {
        assert old(NodeValid(m));
      }
      if old(Consistent()) {
        forall m | 0 <= m < |nodes| && nodes[m].superstate.Some?
          ensures nodes[m].superstate.value < |nodes| && m in nodes[nodes[m].superstate.value].substates
        {
          assert m in old(nodes)[old(nodes)[m].superstate.value].substates;
        }
      }
    }

    /** `n` followed by its superstate, that one's superstate, and so on up to
        the root. */
    ghost function SuperstateChain(n: nat): (c: seq<nat>)
      reads this
      requires Valid() && n < |nodes|
      ensures |c| >= 1 && c[0] == n
      ensures forall i :: 0 <= i < |c| ==> c[i] < |nodes|
      ensures forall i :: 0 <= i < |c| - 1 ==> nodes[c[i]].superstate == Some(c[i + 1])
      ensures nodes[c[|c| - 1]].superstate.None?
      decreases rank[n]
    {
      assert NodeValid(n);
      match nodes[n].superstate
      case None => [n]
      case Some(p) => [n] + SuperstateChain(p)
    }

    /** The handler for `t` at `n`: the local one, or else the superstate's;
        none at a root whose local lookup fails. */
    function TryFindHandler(n: nat, t: T, guards: GuardId -> bool): (r: Option<TriggerBehaviour<S, T>>)
      reads this
      requires Valid() && n < |nodes|
      ensures r.Some? ==> r.value.trigger == t && r.value.IsGuardConditionMet(guards)
      ensures r.Some? ==> exists m :: 0 <= m < |nodes| && r.value in Behaviours(nodes[m], t)
      decreases rank[n]
    {
      assert NodeValid(n);
      match TryFindLocalHandler(nodes[n], t, guards)
      case Success(b) => Some(b)
      case Failure(_) =>
        match nodes[n].superstate
        case None => None
        case Some(p) => TryFindHandler(p, t, guards)
    }

    /** Whether a handler for `t` is found. */
    predicate CanHandle(n: nat, t: T, guards: GuardId -> bool)
      reads this
      requires Valid() && n < |nodes|
      ensures TryFindLocalHandler(nodes[n], t, guards).Success? ==> CanHandle(n, t, guards)
      ensures nodes[n].superstate.None? ==>
                (CanHandle(n, t, guards) <==> TryFindLocalHandler(nodes[n], t, guards).Success?)
    {
      TryFindHandler(n, t, guards).Some?
    }

    /** `s` is the state of `n` or of a node below it in the substate lists. */
    predicate Includes(n: nat, s: S)
      reads this
      requires Valid() && n < |nodes|
      ensures nodes[n].state == s ==> Includes(n, s)
      ensures nodes[n].substates == [] ==> (Includes(n, s) <==> nodes[n].state == s)
      decreases bound - rank[n]
    {
      assert NodeValid(n);
      nodes[n].state == s ||
      exists i :: 0 <= i < |nodes[n].substates| && Includes(nodes[n].substates[i], s)
    }

    /** `s` is the state of `n` or of one of its superstates. */
    predicate IsIncludedIn(n: nat, s: S)
      reads this
      requires Valid() && n < |nodes|
      ensures nodes[n].state == s ==> IsIncludedIn(n, s)
      ensures nodes[n].superstate.None? ==> (IsIncludedIn(n, s) <==> nodes[n].state == s)
      decreases rank[n]
    {
      assert NodeValid(n);
      nodes[n].state == s ||
      (nodes[n].superstate.Some? && IsIncludedIn(nodes[n].superstate.value, s))
    }

    /** The triggers with a guard-true behaviour at `n` or at any superstate. */
    function PermittedTriggers(n: nat, guards: GuardId -> bool): (r: set<T>)
      reads this
      requires Valid() && n < |nodes|
      ensures LocalPermittedTriggers(nodes[n], guards) <= r
      decreases rank[n]
    {
      assert NodeValid(n);
      LocalPermittedTriggers(nodes[n], guards) +
        match nodes[n].superstate
        case None => {}
        case Some(p) => PermittedTriggers(p, guards)
    }

    /** The longest prefix of `c` whose nodes do not include `s`. */
    ghost function Excluding(c: seq<nat>, s: S): (r: seq<nat>)
      reads this
      requires Valid() && forall i :: 0 <= i < |c| ==> c[i] < |nodes|
      ensures |r| <= |c| && r == c[..|r|]
      ensures forall i :: 0 <= i < |r| ==> !Includes(r[i], s)
      ensures |r| < |c| ==> Includes(c[|r|], s)
    {
      if c == [] || Includes(c[0], s) then []
      else [c[0]] + Excluding(c[1..], s)
    }

    /** The nodes whose exit actions leaving `n` by `tr` runs, in order. */
    ghost function ExitNodes(n: nat, tr: Transition<S, T>): seq<nat>
      reads this
      requires Valid() && n < |nodes|
    {
      if tr.IsReentry() then [n] else Excluding(SuperstateChain(n), tr.destination)
    }

    /** The nodes whose entry actions entering `n` by `tr` runs, in order. */
    ghost function EntryNodes(n: nat, tr: Transition<S, T>): seq<nat>
      reads this
      requires Valid() && n < |nodes|
    {
      if tr.IsReentry() then [n] else Reversed(Excluding(SuperstateChain(n), tr.source))
    }

    ghost function ExitActionsAlong(path: seq<nat>): seq<ActionId>
      reads this
      requires forall i :: 0 <= i < |path| ==> path[i] < |nodes|
    {
      if path == [] then [] else nodes[path[0]].exitActions + ExitActionsAlong(path[1..])
    }

    ghost function EntryActionsAlong(path: seq<nat>, trigger: T): seq<ActionId>
      reads this
      requires forall i :: 0 <= i < |path| ==> path[i] < |nodes|
    {
      if path == [] then []
      else
        EntryActionsAlong(path[..|path| - 1], trigger) +
        RunnableEntryActions(nodes[path[|path| - 1]].entryActions, trigger)
    }

    /** The actions that exiting `n` by `tr` runs, in order. */
    ghost function ExitTrace(n: nat, tr: Transition<S, T>): seq<ActionId>
      reads this
      requires Valid() && n < |nodes|
    {
      ExitActionsAlong(ExitNodes(n, tr))
    }

    /** The actions that entering `n` by `tr` runs, in order. */
    ghost function EntryTrace(n: nat, tr: Transition<S, T>): seq<ActionId>
      reads this
      requires Valid() && n < |nodes|
    {
      EntryActionsAlong(EntryNodes(n, tr), tr.trigger)
    }

    /** Run the exit actions of `n`, in registration order. */
    method ExecuteExitActions(n: nat, tr: Transition<S, T>) returns (trace: seq<ActionId>)
      requires Valid() && n < |nodes|
      ensures trace == nodes[n].exitActions
    {
      var actions := nodes[n].exitActions;
      trace := [];
      var i := 0;
      while i < |actions|
        invariant 0 <= i <= |actions|
        invariant trace == actions[..i]
      {
        trace := trace + [actions[i]];
        i := i + 1;
      }
    }

    /** Run the entry actions of `n`, in registration order; a filtered action
        does something only for its own trigger. */
    method ExecuteEntryActions(n: nat, tr: Transition<S, T>) returns (trace: seq<ActionId>)
      requires Valid() && n < |nodes|
      ensures trace == RunnableEntryActions(nodes[n].entryActions, tr.trigger)
    {
      var actions := nodes[n].entryActions;
      trace := [];
      var i := 0;
      while i < |actions|
        invariant 0 <= i <= |actions|
        invariant trace == RunnableEntryActions(actions[..i], tr.trigger)
      {
        if Fires(actions[i], tr.trigger) {
          trace := trace + [actions[i].action];
        }
        assert actions[..i + 1][..i] == actions[..i];
        i := i + 1;
      }
      assert actions[..i] == actions;
    }

    /** One step of the exit walk: the trace of `n` in terms of the trace of
        its superstate. */
    lemma ExitTraceStep(n: nat, tr: Transition<S, T>)
      requires Valid() && n < |nodes|
      ensures tr.IsReentry() ==> ExitTrace(n, tr) == nodes[n].exitActions
      ensures !tr.IsReentry() && Includes(n, tr.destination) ==> ExitTrace(n, tr) == []
      ensures !tr.IsReentry() && !Includes(n, tr.destination) && nodes[n].superstate.None? ==>
                ExitTrace(n, tr) == nodes[n].exitActions
      ensures !tr.IsReentry() && !Includes(n, tr.destination) && nodes[n].superstate.Some? ==>
                nodes[n].superstate.value < |nodes| &&
                ExitTrace(n, tr) == nodes[n].exitActions + ExitTrace(nodes[n].superstate.value, tr)
    {
      assert NodeValid(n);
      var chain := SuperstateChain(n);
      if tr.IsReentry() {
        assert [n][1..] == [];
        assert ExitActionsAlong([n]) == nodes[n].exitActions + ExitActionsAlong([]);
      } else if !Includes(n, tr.destination) {
        var outer := Excluding(chain[1..], tr.destination);
        assert ExitNodes(n, tr) == [n] + outer;
        assert ([n] + outer)[1..] == outer;
        assert ExitTrace(n, tr) == nodes[n].exitActions + ExitActionsAlong(outer);
        match nodes[n].superstate {
          case None =>
            assert chain == [n];
            assert outer == [];
          case Some(p) =>
            assert chain[1..] == SuperstateChain(p);
        }
      }
    }

    lemma ExcludingCons(c: seq<nat>, s: S)
      requires Valid() && |c| > 0 && forall i :: 0 <= i < |c| ==> c[i] < |nodes|
      requires !Includes(c[0], s)
      ensures Excluding(c, s) == [c[0]] + Excluding(c[1..], s)
    {
    }

    lemma EntryActionsAlongSnoc(path: seq<nat>, n: nat, trigger: T)
      requires n < |nodes| && forall i :: 0 <= i < |path| ==> path[i] < |nodes|
      ensures EntryActionsAlong(path + [n], trigger) ==
              EntryActionsAlong(path, trigger) + RunnableEntryActions(nodes[n].entryActions, trigger)
    {
      assert (path + [n])[..|path|] == path;
    }

    /** Entering `n` from outside it runs the entry actions of the outer part
        of its walk, then its own runnable entry actions. */
    lemma EntryTraceOutside(n: nat, tr: Transition<S, T>)
      requires Valid() && n < |nodes| && !tr.IsReentry() && !Includes(n, tr.source)
      ensures EntryTrace(n, tr) ==
              EntryActionsAlong(Reversed(Excluding(SuperstateChain(n)[1..], tr.source)), tr.trigger) +
              RunnableEntryActions(nodes[n].entryActions, tr.trigger)
    {
      var chain := SuperstateChain(n);
      var inner := Excluding(chain[1..], tr.source);
      ExcludingCons(chain, tr.source);
      ReversedCons(n, inner);
      EntryActionsAlongSnoc(Reversed(inner), n, tr.trigger);
    }

    /** One step of the entry walk: the trace of `n` in terms of the trace of
        its superstate. */
    lemma EntryTraceStep(n: nat, tr: Transition<S, T>)
      requires Valid() && n < |nodes|
      ensures tr.IsReentry() ==> EntryTrace(n, tr) == RunnableEntryActions(nodes[n].entryActions, tr.trigger)
      ensures !tr.IsReentry() && Includes(n, tr.source) ==> EntryTrace(n, tr) == []
      ensures !tr.IsReentry() && !Includes(n, tr.source) && nodes[n].superstate.None? ==>
                EntryTrace(n, tr) == RunnableEntryActions(nodes[n].entryActions, tr.trigger)
      ensures !tr.IsReentry() && !Includes(n, tr.source) && nodes[n].superstate.Some? ==>
                nodes[n].superstate.value < |nodes| &&
                EntryTrace(n, tr) == EntryTrace(nodes[n].superstate.value, tr) +
                                     RunnableEntryActions(nodes[n].entryActions, tr.trigger)
    {
      assert NodeValid(n);
      var chain := SuperstateChain(n);
      if tr.IsReentry() {
        assert [n][..0] == [];
        assert EntryActionsAlong([n], tr.trigger) ==
               EntryActionsAlong([], tr.trigger) + RunnableEntryActions(nodes[n].entryActions, tr.trigger);
      } else if Includes(n, tr.source) {
        assert Excluding(chain, tr.source) == [];
      } else {
        EntryTraceOutside(n, tr);
        match nodes[n].superstate {
          case None =>
            assert chain == [n];
            assert Excluding(chain[1..], tr.source) == [];
          case Some(p) =>
            assert chain[1..] == SuperstateChain(p);
        }
      }
    }

    /** Leave `n` by `tr`: a reentry runs only `n`'s exit actions; otherwise,
        unless `n` includes the destination, run `n`'s exit actions and then
        leave its superstate. */
    method Exit(n: nat, tr: Transition<S, T>) returns (trace: seq<ActionId>)
      requires Valid() && n < |nodes|
      ensures trace == ExitTrace(n, tr)
      decreases rank[n]
    {
      assert NodeValid(n);
      ExitTraceStep(n, tr);
      trace := [];
      if tr.IsReentry() {
        trace := ExecuteExitActions(n, tr);
      } else if !Includes(n, tr.destination) {
        trace := ExecuteExitActions(n, tr);
        if nodes[n].superstate.Some? {
          var rest := Exit(nodes[n].superstate.value, tr);
          trace := trace + rest;
        }
      }
    }

    /** Enter `n` by `tr`: a reentry runs only `n`'s entry actions; otherwise,
        unless `n` includes the source, enter the superstate first and then
        run `n`'s entry actions. */
    method Enter(n: nat, tr: Transition<S, T>) returns (trace: seq<ActionId>)
      requires Valid() && n < |nodes|
      ensures trace == EntryTrace(n, tr)
      decreases rank[n]
    {
      assert NodeValid(n);
      EntryTraceStep(n, tr);
      trace := [];
      if tr.IsReentry() {
        trace := ExecuteEntryActions(n, tr);
      } else if !Includes(n, tr.source) {
        if nodes[n].superstate.Some? {
          trace := Enter(nodes[n].superstate.value, tr);
        }
        var own := ExecuteEntryActions(n, tr);
        trace := trace + own;
      }
    }
  }
}
