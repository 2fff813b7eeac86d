/** The fluent configuration of one state: each call registers a trigger
    behaviour, an action or a superstate link on that state's node. The
    chained `return this` of every call is left implicit. */
module Configuration {
  import opened Wrappers
  import opened Triggers
  import opened Representation
  import opened Hierarchy

  /** The only error configuration reports: a plain permit whose destination
      is the configured state itself. */
  datatype ConfigurationError = SelfTransitionIgnoredOrReentrant

  class StateConfiguration<S(==), T(==)> {
    /** The machine's nodes, shared by every configuration of the machine. */
    const graph: StateGraph<S, T>
    /** The node of the state being configured. */
    const representation: nat

    ghost predicate Valid()
      reads graph
    {
      graph.Valid() && representation < |graph.nodes|
    }

    /** The graph now holds `before` with `b` appended to the configured
        node's behaviours, and nothing else changed. */
    ghost predicate Appended(before: seq<StateNode<S, T>>, b: TriggerBehaviour<S, T>)
      reads graph
      requires representation < |before|
    {
      graph.nodes == before[representation := AppendBehaviour(before[representation], b)]
    }

    constructor (graph: StateGraph<S, T>, representation: nat)
      requires graph.Valid() && representation < |graph.nodes|
      ensures this.graph == graph && this.representation == representation
      ensures Valid()
    {
      this.graph := graph;
      this.representation := representation;
    }

    /** A plain permit may not lead back to the configured state. */
    function EnforceNotIdentityTransition(destination: S): (r: Outcome<ConfigurationError>)
      reads graph
      requires Valid()
      ensures r.Fail? <==> destination == graph.nodes[representation].state
    {
      if destination == graph.nodes[representation].state then Fail(SelfTransitionIgnoredOrReentrant) else Pass
    }

    /** Register a fixed-destination behaviour with the given guard. */
    method PublicPermitIf(trigger: T, destination: S, guard: Guard)
      requires Valid()
      modifies graph
      ensures Valid() && (old(graph.Consistent()) ==> graph.Consistent())
      ensures Appended(old(graph.nodes), Transitioning(trigger, guard, destination))
      ensures graph.rank == old(graph.rank) && graph.bound == old(graph.bound)
    {
      graph.AddTriggerBehaviour(representation, Transitioning(trigger, guard, destination));
    }

    /** Register an unguarded fixed-destination behaviour. */
    method PublicPermit(trigger: T, destination: S)
      requires Valid()
      modifies graph
      ensures Valid() && (old(graph.Consistent()) ==> graph.Consistent())
      ensures Appended(old(graph.nodes), Transitioning(trigger, Always, destination))
      ensures graph.rank == old(graph.rank) && graph.bound == old(graph.bound)
    {
      PublicPermitIf(trigger, destination, Always);
    }

    /** Permit a transition to another state; refused, with nothing
        registered, when the destination is the configured state. */
    method Permit(trigger: T, destination: S) returns (r: Outcome<ConfigurationError>)
      requires Valid()
      modifies graph
      ensures Valid() && (old(graph.Consistent()) ==> graph.Consistent())
      ensures r.Fail? <==> destination == old(graph.nodes[representation].state)
      ensures r.Fail? ==> graph.nodes == old(graph.nodes)
      ensures r.Pass? ==> Appended(old(graph.nodes), Transitioning(trigger, Always, destination))
      ensures graph.rank == old(graph.rank) && graph.bound == old(graph.bound)
    {
      r := EnforceNotIdentityTransition(destination);
      if r.Fail? {
        return;
      }
      PublicPermit(trigger, destination);
    }

    /** `Permit` with a guard. */
    method PermitIf(trigger: T, destination: S, guard: Guard) returns (r: Outcome<ConfigurationError>)
      requires Valid()
      modifies graph
      ensures Valid() && (old(graph.Consistent()) ==> graph.Consistent())
      ensures r.Fail? <==> destination == old(graph.nodes[representation].state)
      ensures r.Fail? ==> graph.nodes == old(graph.nodes)
      ensures r.Pass? ==> Appended(old(graph.nodes), Transitioning(trigger, guard, destination))
      ensures graph.rank == old(graph.rank) && graph.bound == old(graph.bound)
    {
      r := EnforceNotIdentityTransition(destination);
      if r.Fail? {
        return;
      }
      PublicPermitIf(trigger, destination, guard);
    }

    /** Permit a transition from the configured state back to itself. */
    method PermitReentry(trigger: T)
      requires Valid()
      modifies graph
      ensures Valid() && (old(graph.Consistent()) ==> graph.Consistent())
      ensures Appended(old(graph.nodes), Transitioning(trigger, Always, old(graph.nodes[representation].state)))
      ensures graph.rank == old(graph.rank) && graph.bound == old(graph.bound)
    {
      PublicPermit(trigger, graph.nodes[representation].state);
    }

    /** `PermitReentry` with a guard. */
    method PermitReentryIf(trigger: T, guard: Guard)
      requires Valid()
      modifies graph
      ensures Valid() && (old(graph.Consistent()) ==> graph.Consistent())
      ensures Appended(old(graph.nodes), Transitioning(trigger, guard, old(graph.nodes[representation].state)))
      ensures graph.rank == old(graph.rank) && graph.bound == old(graph.bound)
    {
      PublicPermitIf(trigger, graph.nodes[representation].state, guard);
    }

    /** Ignore the trigger while the guard holds. */
    method IgnoreIf(trigger: T, guard: Guard)
      requires Valid()
      modifies graph
      ensures Valid() && (old(graph.Consistent()) ==> graph.Consistent())
      ensures Appended(old(graph.nodes), Ignored(trigger, guard))
      ensures graph.rank == old(graph.rank) && graph.bound == old(graph.bound)
    {
      graph.AddTriggerBehaviour(representation, Ignored(trigger, guard));
    }

    /** Ignore the trigger unconditionally. */
    method Ignore(trigger: T)
      requires Valid()
      modifies graph
      ensures Valid() && (old(graph.Consistent()) ==> graph.Consistent())
      ensures Appended(old(graph.nodes), Ignored(trigger, Always))
      ensures graph.rank == old(graph.rank) && graph.bound == old(graph.bound)
    {
      IgnoreIf(trigger, Always);
    }

    /** Register a dynamic behaviour whose selector receives the argument
        array. */
    method PublicPermitDynamicIf(trigger: T, selector: Selector, guard: Guard)
      requires Valid()
      modifies graph
      ensures Valid() && (old(graph.Consistent()) ==> graph.Consistent())
      ensures Appended(old(graph.nodes), Dynamic(trigger, guard, selector))
      ensures graph.rank == old(graph.rank) && graph.bound == old(graph.bound)
    {
      graph.AddTriggerBehaviour(representation, Dynamic(trigger, guard, selector));
    }

    /** `PublicPermitDynamicIf` without a guard. */
    method PublicPermitDynamic(trigger: T, selector: Selector)
      requires Valid()
      modifies graph
      ensures Valid() && (old(graph.Consistent()) ==> graph.Consistent())
      ensures Appended(old(graph.nodes), Dynamic(trigger, Always, selector))
      ensures graph.rank == old(graph.rank) && graph.bound == old(graph.bound)
    {
      PublicPermitDynamicIf(trigger, selector, Always);
    }

    /** A guarded dynamic permit whose zero-argument selector is wrapped so
        that it ignores the argument array. */
    method PermitDynamicIf(trigger: T, selector: SelectorId, guard: Guard)
      requires Valid()
      modifies graph
      ensures Valid() && (old(graph.Consistent()) ==> graph.Consistent())
      ensures Appended(old(graph.nodes), Dynamic(trigger, guard, IgnoringArgs(selector)))
      ensures graph.rank == old(graph.rank) && graph.bound == old(graph.bound)
    {
      PublicPermitDynamicIf(trigger, IgnoringArgs(selector), guard);
    }

    /** An unguarded dynamic permit with a zero-argument selector. */
    method PermitDynamic(trigger: T, selector: SelectorId)
      requires Valid()
      modifies graph
      ensures Valid() && (old(graph.Consistent()) ==> graph.Consistent())
      ensures Appended(old(graph.nodes), Dynamic(trigger, Always, IgnoringArgs(selector)))
      ensures graph.rank == old(graph.rank) && graph.bound == old(graph.bound)
    {
      PermitDynamicIf(trigger, selector, Always);
    }

    /** A guarded dynamic permit for a parameterised trigger: registered under
        the underlying trigger, with a selector over the argument array. */
    method PermitDynamicIfWithParameters(trigger: TriggerWithParameters<T>, selector: SelectorId, guard: Guard)
      requires Valid()
      modifies graph
      ensures Valid() && (old(graph.Consistent()) ==> graph.Consistent())
      ensures Appended(old(graph.nodes), Dynamic(trigger.underlyingTrigger, guard, OverArgs(selector)))
      ensures graph.rank == old(graph.rank) && graph.bound == old(graph.bound)
    {
      PublicPermitDynamicIf(trigger.GetTrigger(), OverArgs(selector), guard);
    }

    /** The unguarded form of `PermitDynamicIfWithParameters`. */
    method PermitDynamicWithParameters(trigger: TriggerWithParameters<T>, selector: SelectorId)
      requires Valid()
      modifies graph
      ensures Valid() && (old(graph.Consistent()) ==> graph.Consistent())
      ensures Appended(old(graph.nodes), Dynamic(trigger.underlyingTrigger, Always, OverArgs(selector)))
      ensures graph.rank == old(graph.rank) && graph.bound == old(graph.bound)
    {
      PermitDynamicIfWithParameters(trigger, selector, Always);
    }

    /** Run `action` on every entry into the configured state. */
    method OnEntry(action: ActionId)
      requires Valid()
      modifies graph
      ensures Valid() && (old(graph.Consistent()) ==> graph.Consistent())
      ensures graph.nodes == old(graph.nodes)[representation :=
                old(graph.nodes)[representation].(entryActions :=
                  old(graph.nodes)[representation].entryActions + [EntryAction(None, action)])]
      ensures graph.rank == old(graph.rank) && graph.bound == old(graph.bound)
    {
      graph.AddEntryAction(representation, action);
    }

    /** Run `action` on entries caused by `trigger` only. */
    method OnEntryFrom(trigger: T, action: ActionId)
      requires Valid()
      modifies graph
      ensures Valid() && (old(graph.Consistent()) ==> graph.Consistent())
      ensures graph.nodes == old(graph.nodes)[representation :=
                old(graph.nodes)[representation].(entryActions :=
                  old(graph.nodes)[representation].entryActions + [EntryAction(Some(trigger), action)])]
      ensures graph.rank == old(graph.rank) && graph.bound == old(graph.bound)
    {
      graph.AddEntryActionFrom(representation, trigger, action);
    }

    /** Run `action` on entries caused by a parameterised trigger: filtered
        on its underlying trigger. */
    method OnEntryFromWithParameters(trigger: TriggerWithParameters<T>, action: ActionId)
      requires Valid()
      modifies graph
      ensures Valid() && (old(graph.Consistent()) ==> graph.Consistent())
      ensures graph.nodes == old(graph.nodes)[representation :=
                old(graph.nodes)[representation].(entryActions :=
                  old(graph.nodes)[representation].entryActions + [EntryAction(Some(trigger.underlyingTrigger), action)])]
      ensures graph.rank == old(graph.rank) && graph.bound == old(graph.bound)
    {
      graph.AddEntryActionFrom(representation, trigger.GetTrigger(), action);
    }

    /** Run `action` on every exit from the configured state. */
    method OnExit(action: ActionId)
      requires Valid()
      modifies graph
      ensures Valid() && (old(graph.Consistent()) ==> graph.Consistent())
      ensures graph.nodes == old(graph.nodes)[representation :=
                old(graph.nodes)[representation].(exitActions :=
                  old(graph.nodes)[representation].exitActions + [action])]
      ensures graph.rank == old(graph.rank) && graph.bound == old(graph.bound)
    {
      graph.AddExitAction(representation, action);
    }

    /** Make the configured state a substate of the node `superstate` (the
        node the machine's lookup returns for the superstate). The previous
        superstate, if any, keeps its substate entry. */
    method SubstateOf(superstate: nat)
      requires Valid() && superstate < |graph.nodes| && graph.rank[superstate] < graph.rank[representation]
      modifies graph
      ensures Valid() && (old(graph.Consistent()) ==> graph.Consistent())
      ensures graph.nodes == old(graph.nodes)
                [representation := old(graph.nodes)[representation].(superstate := Some(superstate))]
                [superstate := old(graph.nodes)[superstate].(substates := old(graph.nodes)[superstate].substates + [representation])]
      ensures graph.rank == old(graph.rank) && graph.bound == old(graph.bound)
      ensures old(TreeLinks(graph.nodes)) && old(graph.nodes[representation].superstate.None?) ==>
                TreeLinks(graph.nodes)
      ensures graph.IsIncludedIn(representation, graph.nodes[superstate].state)
      ensures graph.Includes(superstate, graph.nodes[representation].state)
    {
      ghost var before := graph.nodes;
      graph.SetSuperstate(representation, superstate);
      graph.AddSubstate(superstate, representation);
      if LinksConsistent(before) {
        forall m | 0 <= m < |graph.nodes| && graph.nodes[m].superstate.Some?
          ensures graph.nodes[m].superstate.value < |graph.nodes| &&
                  m in graph.nodes[graph.nodes[m].superstate.value].substates
        {
          if m != representation {
            assert m in before[before[m].superstate.value].substates;
          }
        }
      }
      var subs := graph.nodes[superstate].substates;
      assert subs[|subs| - 1] == representation;
      if TreeLinks(before) && before[representation].superstate.None? {
        forall q, i | 0 <= q < |graph.nodes| && 0 <= i < |graph.nodes[q].substates|
          ensures graph.nodes[q].substates[i] < |graph.nodes| &&
                  graph.nodes[graph.nodes[q].substates[i]].superstate == Some(q)
        {
          if !(q == superstate && i == |subs| - 1) {
            assert graph.nodes[q].substates[i] == before[q].substates[i];
            assert before[q].substates[i] != representation;
          }
        }
      }
      assert graph.Includes(representation, graph.nodes[representation].state);
    }
  }

  /** A behaviour registered for a trigger that had no behaviour with a
      satisfied guard is what the local lookup finds, as long as its own guard
      holds. */
  lemma RegisteredIsFound<S, T>(node: StateNode<S, T>, b: TriggerBehaviour<S, T>, guards: GuardId -> bool)
    requires b.IsGuardConditionMet(guards) && !AnyMet(Behaviours(node, b.trigger), guards)
    ensures TryFindLocalHandler(AppendBehaviour(node, b), b.trigger, guards) == Success(b)
  {
    var bs := Behaviours(node, b.trigger);
    var after := Behaviours(AppendBehaviour(node, b), b.trigger);
    assert after == bs + [b];
    forall j | 0 <= j < |after| && j != |bs| ensures !after[j].IsGuardConditionMet(guards) {
      assert after[j] == bs[j];
    }
    assert OnlyMet(after, guards, |bs|);
    LocalHandlerOutcome(AppendBehaviour(node, b), b.trigger, guards);
  }

  /** Registering a second behaviour whose guard holds next to one whose guard
      holds makes the local lookup ambiguous. */
  lemma SecondMetIsAmbiguous<S, T>(node: StateNode<S, T>, b: TriggerBehaviour<S, T>, guards: GuardId -> bool)
    requires b.IsGuardConditionMet(guards) && AnyMet(Behaviours(node, b.trigger), guards)
    ensures TryFindLocalHandler(AppendBehaviour(node, b), b.trigger, guards) == Failure(MultipleTransitionsPermitted)
  {
    var bs := Behaviours(node, b.trigger);
    var after := AppendBehaviour(node, b);
    assert after.triggerBehaviours[b.trigger] == bs + [b];
    var i :| 0 <= i < |bs| && bs[i].IsGuardConditionMet(guards);
    assert (bs + [b])[i] == bs[i] && (bs + [b])[|bs|] == b;
    assert TwoMet(after.triggerBehaviours[b.trigger], guards);
    LocalHandlerOutcome(after, b.trigger, guards);
  }

  /** Registering a behaviour leaves the lookup of every other trigger as it
      was. */
  lemma OtherTriggersUnaffected<S, T>(node: StateNode<S, T>, b: TriggerBehaviour<S, T>, t: T, guards: GuardId -> bool)
    requires t != b.trigger
    ensures TryFindLocalHandler(AppendBehaviour(node, b), t, guards) == TryFindLocalHandler(node, t, guards)
    ensures t in LocalPermittedTriggers(AppendBehaviour(node, b), guards) <==> t in LocalPermittedTriggers(node, guards)
  {
    var after := AppendBehaviour(node, b);
    assert t in after.triggerBehaviours <==> t in node.triggerBehaviours;
  }

  /** A registered behaviour whose guard holds makes its trigger permitted. */
  lemma RegisteredIsPermitted<S, T>(node: StateNode<S, T>, b: TriggerBehaviour<S, T>, guards: GuardId -> bool)
    requires b.IsGuardConditionMet(guards)
    ensures b.trigger in LocalPermittedTriggers(AppendBehaviour(node, b), guards)
  {
    var after := AppendBehaviour(node, b);
    var bs := after.triggerBehaviours[b.trigger];
    assert bs[|bs| - 1] == b;
    assert AnyMet(bs, guards);
  }

  /** A registered permit, once found, leads to its destination; a
      registered ignore, once found, signals that the trigger is ignored. */
  lemma FoundPermitLeadsToDestination<S, T>(node: StateNode<S, T>, t: T, guard: Guard, d: S, source: S,
                                            args: seq<Conversion.Arg>, selectors: Selectors<S>, guards: GuardId -> bool)
    requires Transitioning(t, guard, d).IsGuardConditionMet(guards)
    requires !AnyMet(Behaviours(node, t), guards)
    ensures var found := TryFindLocalHandler(AppendBehaviour(node, Transitioning(t, guard, d)), t, guards);
            found.Success? && found.value.ResultsInTransitionFrom(source, args, selectors) == Destination(d)
    ensures var found := TryFindLocalHandler(AppendBehaviour(node, Ignored(t, guard)), t, guards);
            found.Success? && found.value.ResultsInTransitionFrom(source, args, selectors) == TriggerIgnored
  {
    RegisteredIsFound(node, Transitioning(t, guard, d), guards);
    RegisteredIsFound(node, Ignored(t, guard), guards);
  }
}
