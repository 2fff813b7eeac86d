/** The three kinds of trigger behaviour, the transition record and the
    parameterised trigger. Guards, destination selectors and actions are
    caller closures; here they are identifiers interpreted by a snapshot that
    the caller supplies at firing time. */
module Triggers {
  import opened Wrappers
  import opened Conversion

  type GuardId = nat
  type SelectorId = nat
  type ActionId = nat

  /** A guard: the always-true guard (`NoGuard`, and the `return true`
      closure that an unguarded permit uses), or a caller predicate. */
  datatype Guard = Always | Custom(id: GuardId)

  /** A dynamic destination selector: a zero-argument selector wrapped so that
      it ignores the argument array, or a selector over the argument array. */
  datatype Selector = IgnoringArgs(id: SelectorId) | OverArgs(id: SelectorId)

  /** What the caller's selector closures return when called at firing time. */
  datatype Selectors<S> = Selectors(nullary: SelectorId -> S, overArgs: (SelectorId, seq<Arg>) -> S)

  /** The outcome of `ResultsInTransitionFrom`: a destination, or the
      `TriggerIgnoredException` that an ignored trigger signals. */
  datatype Destination<S> = Destination(state: S) | TriggerIgnored

  /** A trigger behaviour: a trigger and a guard, both fixed at construction,
      plus what the variant adds (a fixed destination, a selector, or
      nothing for an ignored trigger). */
  datatype TriggerBehaviour<S, T> =
    | Transitioning(trigger: T, guard: Guard, destination: S)
    | Dynamic(trigger: T, guard: Guard, selector: Selector)
    | Ignored(trigger: T, guard: Guard)
  {
    function GetTrigger(): (t: T)
      ensures t == trigger
    {
      trigger
    }

    /** The guard's value in the snapshot taken when the question is asked. */
    predicate IsGuardConditionMet(guards: GuardId -> bool)
      ensures guard.Always? ==> IsGuardConditionMet(guards)
      ensures guard.Custom? ==> (IsGuardConditionMet(guards) <==> guards(guard.id))
    {
      match guard
      case Always => true
      case Custom(id) => guards(id)
    }

    /** The destination this behaviour leads to when fired from `source`
        with `args`. */
    function ResultsInTransitionFrom(source: S, args: seq<Arg>, selectors: Selectors<S>): (r: Destination<S>)
      ensures r.TriggerIgnored? <==> Ignored?
      ensures Transitioning? ==> r == Destination(destination)
      ensures Dynamic? && selector.IgnoringArgs? ==> r == Destination(selectors.nullary(selector.id))
      ensures Dynamic? && selector.OverArgs? ==> r == Destination(selectors.overArgs(selector.id, args))
    {
      match this
      case Transitioning(_, _, destination) => Destination(destination)
      case Dynamic(_, _, selector) => Destination(Select(selector, args, selectors))
      case Ignored(_, _) => TriggerIgnored
    }
  }

  /** Call a selector closure with the argument array. */
  function Select<S>(selector: Selector, args: seq<Arg>, selectors: Selectors<S>): S {
    match selector
    case IgnoringArgs(id) => selectors.nullary(id)
    case OverArgs(id) => selectors.overArgs(id, args)
  }

  /** The guard of every behaviour is read from the snapshot at the time of
      the call: two snapshots that disagree on a caller guard give two
      different answers. */
  lemma GuardReadAtCallTime<S, T>(b: TriggerBehaviour<S, T>, before: GuardId -> bool, after: GuardId -> bool)
    requires b.guard.Custom? && before(b.guard.id) != after(b.guard.id)
    ensures b.IsGuardConditionMet(before) != b.IsGuardConditionMet(after)
    ensures b.IsGuardConditionMet(after) == after(b.guard.id)
  {
  }

  /** The outcome never depends on the source state. */
  lemma ResultIgnoresSource<S, T>(b: TriggerBehaviour<S, T>, s1: S, s2: S, args: seq<Arg>, selectors: Selectors<S>)
    ensures b.ResultsInTransitionFrom(s1, args, selectors) == b.ResultsInTransitionFrom(s2, args, selectors)
  {
  }

  /** A fixed-destination or zero-argument dynamic behaviour does not look at
      the argument array. */
  lemma ResultIgnoresArgs<S, T>(b: TriggerBehaviour<S, T>, source: S, a1: seq<Arg>, a2: seq<Arg>, selectors: Selectors<S>)
    requires b.Transitioning? || b.Ignored? || (b.Dynamic? && b.selector.IgnoringArgs?)
    ensures b.ResultsInTransitionFrom(source, a1, selectors) == b.ResultsInTransitionFrom(source, a2, selectors)
  {
  }

  /** An immutable record of one firing. */
  datatype Transition<S(==), T> = Transition(source: S, destination: S, trigger: T)
  {
    /** A reentry leaves and re-enters the same state. */
    predicate IsReentry()
      ensures IsReentry() <==> source == destination
    {
      source == destination
    }
  }

  /** The identity transition (1, 1) is a reentry; (1, 2) is not. */
  lemma ReentryExamples()
    ensures Transition(1, 1, 0).IsReentry()
    ensures !Transition(1, 2, 0).IsReentry()
  {
  }

  /** A trigger declared with the ordered list of argument types its firings
      must carry. */
  datatype TriggerWithParameters<T> = TriggerWithParameters(underlyingTrigger: T, argumentTypes: seq<TypeId>)
  {
    function GetTrigger(): (t: T)
      ensures t == underlyingTrigger
    {
      underlyingTrigger
    }

    /** Validate an argument array against the declared types; delegates to
        the conversion check and changes nothing. */
    method ValidateParameters(args: seq<Arg>, assignable: Assignable) returns (r: Outcome<ConversionError>)
      ensures r.Pass? <==> Matches(args, argumentTypes, assignable)
      ensures |args| > |argumentTypes| ==> r == Fail(TooManyParameters(|argumentTypes|, |args|))
      ensures |args| <= |argumentTypes| && r.Fail? ==>
                exists k :: 0 <= k < |argumentTypes| &&
                  (forall j :: 0 <= j < k ==> Unpack(args, argumentTypes[j], j, assignable).Success?) &&
                  Unpack(args, argumentTypes[k], k, assignable) == Failure(r.error)
    {
      r := Validate(args, argumentTypes, assignable);
    }
  }
}
