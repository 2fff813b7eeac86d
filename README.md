# stateless4j state-node engine in Dafny

This project models the core of stateless4j, a hierarchical state-machine
library, and proves what that core promises. The core covers:

- the **state representation** (`StateRepresentation`): one node per state. Each node holds:
  - a table from trigger to its list of trigger behaviours;
  - ordered entry actions (optionally filtered by trigger) and ordered exit actions;
  - a superstate link and a substate list.
- the **configuration builder** (`StateConfiguration`), which registers behaviours, actions and superstate links on one node;
- the three **trigger behaviours**: transitioning, dynamic and ignored;
- **parameterised triggers** and the **parameter validation** they delegate to.

## Modules

- `Wrappers` (`wrappers.dfy`): `Option`, `Result` and `Outcome`. A Java method that either returns or throws becomes a function or method returning one of these.
- `Conversion` (`conversion.dfy`): `Unpack` and `Validate`. Java classes are opaque type ids, and `Class.isAssignableFrom` is a caller-supplied relation.
- `Triggers` (`triggers.dfy`): the `TriggerBehaviour` datatype with one constructor per variant, `Transition`, and `TriggerWithParameters`.
  - Guards are ids, read from a snapshot `GuardId -> bool` taken when the question is asked.
  - Selectors are ids, interpreted by the `Selectors` functions the caller supplies at firing time.
  - The `com.googlecode` and `ifesdjeen` copies of a behaviour class map to the same constructor.
- `Representation` (`representation.dfy`): the class `StateGraph`, an arena of `StateNode` values indexed by `nat`.
  - Its methods are the source's mutators.
  - Its functions are the queries: handler lookup, `CanHandle`, `Includes`, `IsIncludedIn`, `PermittedTriggers`.
  - `Exit` and `Enter` are recursive methods returning the trace of action ids they run, proved equal to the specifications `ExitTrace` and `EntryTrace`.
- `Hierarchy` (`hierarchy.dfy`): lemmas on what lookup, membership, permitted triggers and traversal mean along the superstate chain.
- `Configuration` (`configuration.dfy`): the class `StateConfiguration`, one method per builder operation. Each states the exact new node list, with lemmas on what a registered behaviour then does at lookup.
- `Scenarios` (`scenarios.dfy`): small concrete machines built through the configuration methods, with their exact traces and results.

### Acyclicity

The source never checks the hierarchy for cycles. The model assumes acyclicity explicitly:

- Every node has a ghost rank: a superstate ranks lower, and every listed substate ranks higher.
- This rank is the termination measure of the upward walks (`TryFindHandler`, `IsIncludedIn`, `Exit`, `Enter`) and of the downward walk (`Includes`).
- `SubstateOf` requires the new superstate to rank lower than the configured state.

### Link invariants

- `Consistent()` means every node is listed among its superstate's substates. Every configuration step preserves it.
- `TreeLinks` additionally requires every listed substate to point back at the node that lists it. A `SubstateOf` on a state without a superstate keeps it, and so does repeating the same superstate. A `SubstateOf` that moves a state to a different superstate breaks it (see below).

### Behaviour of the code worth knowing

- **Lookup failures.** `TryFindLocalHandler` throws when two or more guards hold for the trigger. `TryFindHandler` catches every exception of the local lookup and retries at the superstate, so an ambiguous node is skipped like an unconfigured one. At a root the retry fails on the null superstate, and `CanHandle` reports `false`. `Hierarchy.AmbiguityFallsThrough` states this.
- **Re-parenting.** `SubstateOf` overwrites the superstate link without checking for an earlier one, and the previous superstate keeps its substate entry.
  - `Includes` then still follows that stale entry. `Scenarios.ReparentLeavesStaleEntry` exhibits it.
  - For this reason, `Includes` is characterised exactly only under `TreeLinks`.

## Model

| member | source | states |
|---|---|---|
| `Conversion.Unpack` | src/main/java/com/googlecode/stateless4j/conversion/ParameterConversion.java:10-22 | Succeeds exactly when the index is within the array and the argument is null or of an assignable class, and then returns that argument unchanged; fails with ArgOfTypeRequiredInPosition(type, index) past the end and with WrongArgType(actual class, index) on an incompatible object |
| `Conversion.Validate` | src/main/java/com/googlecode/stateless4j/conversion/ParameterConversion.java:24-31 | Passes exactly when the counts are equal and every argument is compatible; too many arguments give TooManyParameters(expected, actual); otherwise the reported error is the Unpack error at the lowest failing index |
| `Conversion.ExactClassesMatch` | src/main/java/com/googlecode/stateless4j/conversion/ParameterConversion.java:18-18 | With a reflexive assignability relation, arguments that are null or exactly of the declared classes pass |
| `Triggers.TriggerBehaviour.GetTrigger` | src/main/java/ifesdjeen/stateless4j/triggers/TriggerBehaviour.java:16-18 | Returns the trigger given at construction |
| `Triggers.TriggerBehaviour.ResultsInTransitionFrom` | src/main/java/ifesdjeen/stateless4j/triggers/TriggerBehaviour.java:24-24 | The outcome is "ignored" exactly for the ignored variant; a transitioning behaviour yields its fixed destination, and a dynamic one yields its selector's value (over no arguments or over the argument array) |
| `Triggers.GuardReadAtCallTime` | src/main/java/ifesdjeen/stateless4j/triggers/TriggerBehaviour.java:20-22 | A guard's answer is the caller predicate's value in the snapshot of the call, so two snapshots that disagree give two answers |
| `Triggers.ResultIgnoresSource` | src/main/java/com/googlecode/stateless4j/triggers/DynamicTriggerBehaviour.java:18-20 | No variant's outcome depends on the source state |
| `Triggers.ResultIgnoresArgs` | src/main/java/ifesdjeen/stateless4j/transitions/TransitioningTriggerBehaviour.java:14-16 | Fixed-destination, ignored and zero-argument dynamic behaviours do not look at the argument array |
| `Triggers.TriggerBehaviour.IsGuardConditionMet` | src/main/java/ifesdjeen/stateless4j/triggers/TriggerBehaviour.java:20-22 | A behaviour without a caller guard is always met; one with a caller guard is met exactly when that guard holds in the snapshot |
| `Triggers.Transition.IsReentry` | src/test/java/ifesdjeen/stateless4j/TransitionFixtureTest.java:12-22 | A transition is a reentry exactly when its source and destination are the same state |
| `Triggers.ReentryExamples` | src/test/java/ifesdjeen/stateless4j/TransitionFixtureTest.java:12-22 | The transition (1, 1) is a reentry and (1, 2) is not |
| `Triggers.TriggerWithParameters.GetTrigger` | src/main/java/ifesdjeen/stateless4j/triggers/TriggerWithParameters.java:26-28 | Returns the underlying trigger given at construction |
| `Triggers.TriggerWithParameters.ValidateParameters` | src/main/java/ifesdjeen/stateless4j/triggers/TriggerWithParameters.java:35-37 | Has exactly the outcome of Validate against the declared argument types |
| `Representation.RunnableEntryActions` | src/main/java/com/googlecode/stateless4j/StateRepresentation.java:71-83 | An entry action runs exactly when it is unfiltered or its filter equals the transition's trigger |
| `Representation.AppendBehaviour` | src/main/java/com/googlecode/stateless4j/StateRepresentation.java:121-129 | The behaviour's trigger becomes a key; the behaviour is appended at the end of that trigger's list (empty if the key was absent); every other key and every other field is unchanged |
| `Representation.Actual` | src/main/java/com/googlecode/stateless4j/StateRepresentation.java:53-58 | The list holds exactly the behaviours of the trigger's list whose guards hold |
| `Representation.TryFindLocalHandler` | src/main/java/com/googlecode/stateless4j/StateRepresentation.java:46-69 | Fails as "not configured" exactly when the trigger is not a key; otherwise fails as "no guard met" exactly when no behaviour's guard holds and as "multiple" exactly when two or more hold; succeeds exactly when one holds, returning that behaviour, which is registered for the trigger |
| `Representation.LocalPermittedTriggers` | src/main/java/com/googlecode/stateless4j/StateRepresentation.java:166-176 | A trigger is in the set exactly when it is a key with at least one behaviour whose guard holds |
| `Representation.StateGraph.constructor` | src/main/java/com/googlecode/stateless4j/StateRepresentation.java:13-23 | An empty arena, valid and consistent |
| `Representation.StateGraph.AddState` | src/main/java/com/googlecode/stateless4j/StateRepresentation.java:25-27 | Appends a node for the state with nothing configured and no links, returning its index |
| `Representation.StateGraph.AddTriggerBehaviour` | src/main/java/com/googlecode/stateless4j/StateRepresentation.java:121-129 | Only the given node changes, and it becomes AppendBehaviour of itself; validity and consistency are kept |
| `Representation.StateGraph.AddEntryActionFrom` | src/main/java/com/googlecode/stateless4j/StateRepresentation.java:71-79 | Appends an entry action filtered by the trigger to the given node only |
| `Representation.StateGraph.AddEntryAction` | src/main/java/com/googlecode/stateless4j/StateRepresentation.java:81-83 | Appends an unfiltered entry action to the given node only |
| `Representation.StateGraph.AddExitAction` | src/main/java/com/googlecode/stateless4j/StateRepresentation.java:85-87 | Appends an exit action to the given node only |
| `Representation.StateGraph.SetSuperstate` | src/main/java/com/googlecode/stateless4j/StateRepresentation.java:135-137 | Replaces the node's superstate link and changes nothing else |
| `Representation.StateGraph.AddSubstate` | src/main/java/com/googlecode/stateless4j/StateRepresentation.java:143-145 | Appends the substate to the node's list and changes nothing else; consistency is kept |
| `Representation.StateGraph.TryFindHandler` | src/main/java/com/googlecode/stateless4j/StateRepresentation.java:38-44 | A handler found carries the trigger, its guard holds, and it is registered for the trigger at some node |
| `Representation.StateGraph.CanHandle` | src/main/java/com/googlecode/stateless4j/StateRepresentation.java:29-36 | A node whose local lookup succeeds can handle the trigger; at a root, handling is possible exactly when the local lookup succeeds |
| `Representation.StateGraph.Includes` | src/main/java/com/googlecode/stateless4j/StateRepresentation.java:147-155 | A node includes its own state; a node without substates includes exactly its own state |
| `Representation.StateGraph.IsIncludedIn` | src/main/java/com/googlecode/stateless4j/StateRepresentation.java:157-160 | A node is included in its own state; a root is included in exactly its own state |
| `Representation.StateGraph.PermittedTriggers` | src/main/java/com/googlecode/stateless4j/StateRepresentation.java:162-183 | Contains every trigger permitted locally at the node |
| `Representation.StateGraph.ExecuteExitActions` | src/main/java/com/googlecode/stateless4j/StateRepresentation.java:116-119 | Runs the node's exit actions, all of them, in registration order |
| `Representation.StateGraph.ExecuteEntryActions` | src/main/java/com/googlecode/stateless4j/StateRepresentation.java:110-114 | Runs, in registration order, exactly the node's entry actions that fire for the transition's trigger |
| `Representation.StateGraph.ExitTraceStep` | src/main/java/com/googlecode/stateless4j/StateRepresentation.java:100-108 | On reentry only the node's own exit actions run; nothing runs at a node that includes the destination; otherwise the node's own exit actions run first, then the superstate's exit trace |
| `Representation.StateGraph.EntryTraceStep` | src/main/java/com/googlecode/stateless4j/StateRepresentation.java:89-98 | On reentry only the node's own runnable entry actions run; nothing runs at a node that includes the source; otherwise the superstate's entry trace runs first, then the node's own |
| `Representation.StateGraph.Exit` | src/main/java/com/googlecode/stateless4j/StateRepresentation.java:100-108 | Runs exactly the exit trace: on reentry, only the node's own exit actions; otherwise those of the longest chain prefix whose nodes do not include the destination, innermost first |
| `Representation.StateGraph.Enter` | src/main/java/com/googlecode/stateless4j/StateRepresentation.java:89-98 | Runs exactly the entry trace: on reentry, only the node's own runnable entry actions; otherwise those of the longest chain prefix whose nodes do not include the source, outermost first |
| `Hierarchy.LocalHandlerOutcome` | src/main/java/com/googlecode/stateless4j/StateRepresentation.java:46-69 | Local lookup fails as "not configured" iff the key is absent, as "no guard met" iff no guard holds, and as "multiple" iff two guards hold; it succeeds iff exactly one guard holds, returning that behaviour |
| `Hierarchy.FindHandlerNearest` | src/main/java/com/googlecode/stateless4j/StateRepresentation.java:38-44 | Resolution finds nothing iff every node on the superstate chain fails locally; otherwise it returns the local handler of the first chain node (self first) that succeeds, every earlier node having failed for whatever reason |
| `Hierarchy.CanHandleIff` | src/main/java/com/googlecode/stateless4j/StateRepresentation.java:29-36 | A trigger can be handled iff some node on the superstate chain has a successful local lookup |
| `Hierarchy.AmbiguityFallsThrough` | src/main/java/com/googlecode/stateless4j/StateRepresentation.java:38-44 | A node where two guards hold is skipped: resolution continues at the superstate, or fails at a root |
| `Hierarchy.PermittedTriggersIff` | src/main/java/com/googlecode/stateless4j/StateRepresentation.java:162-183 | A trigger is permitted iff it is permitted locally at some node of the superstate chain |
| `Hierarchy.CanHandleIsPermitted` | src/main/java/com/googlecode/stateless4j/StateRepresentation.java:29-36 | A trigger that can be handled is permitted |
| `Hierarchy.LocalSuccessIsPermitted` | src/main/java/com/googlecode/stateless4j/StateRepresentation.java:162-176 | A trigger a node handles locally is in its local set of permitted triggers |
| `Hierarchy.IsIncludedInIff` | src/main/java/com/googlecode/stateless4j/StateRepresentation.java:157-160 | A node is included in a state iff that state belongs to a node on its superstate chain |
| `Hierarchy.IncludesThroughSubstate` | src/main/java/com/googlecode/stateless4j/StateRepresentation.java:147-155 | A node includes whatever one of its listed substates includes, stale entries included |
| `Hierarchy.IncludesSuperstate` | src/main/java/com/googlecode/stateless4j/StateConfiguration.java:362-367 | With consistent links, a superstate includes whatever its substate includes |
| `Hierarchy.IncludesUpChain` | src/main/java/com/googlecode/stateless4j/StateRepresentation.java:147-155 | With consistent links, once a chain node includes a state, every node above it does too |
| `Hierarchy.AncestorsIncludeState` | src/main/java/com/googlecode/stateless4j/StateRepresentation.java:147-155 | With consistent links, every node on a node's superstate chain includes that node's state |
| `Hierarchy.IncludedInThenIncludes` | src/main/java/com/googlecode/stateless4j/StateRepresentation.java:157-160 | With consistent links and one node per state, if m is included in a's state then a includes m's state |
| `Hierarchy.IncludesOnlyDescendants` | src/main/java/com/googlecode/stateless4j/StateRepresentation.java:147-155 | With two-way links, a node includes only states of nodes having it on their superstate chain |
| `Hierarchy.IncludesIff` | src/main/java/com/googlecode/stateless4j/StateRepresentation.java:147-155 | With two-way links, a node includes a state iff that state belongs to a node having it on its superstate chain |
| `Hierarchy.IncludesThenIncludedIn` | src/main/java/com/googlecode/stateless4j/StateRepresentation.java:147-160 | With two-way links and one node per state, if a includes m's state then m is included in a's state |
| `Hierarchy.IncludesConverse` | src/main/java/com/googlecode/stateless4j/StateRepresentation.java:147-160 | With two-way links and one node per state, a includes m's state iff m is included in a's state |
| `Hierarchy.RunnableSplit` | src/main/java/com/googlecode/stateless4j/StateRepresentation.java:110-114 | The runnable entry actions keep registration order: a list split in two runs its halves one after the other |
| `Hierarchy.RunnableSingle` | src/main/java/com/googlecode/stateless4j/StateRepresentation.java:71-79 | A filtered entry action runs exactly when the transition's trigger is its filter; an unfiltered one always runs |
| `Hierarchy.ExitWalk` | src/main/java/com/googlecode/stateless4j/StateRepresentation.java:100-108 | A non-reentrant exit visits a prefix of the superstate chain, innermost first, and a chain node is visited iff it does not include the destination |
| `Hierarchy.EntryWalk` | src/main/java/com/googlecode/stateless4j/StateRepresentation.java:89-98 | A non-reentrant entry visits the reverse of a prefix of the superstate chain, and a chain node is visited iff it does not include the source |
| `Configuration.StateConfiguration.constructor` | src/main/java/com/googlecode/stateless4j/StateConfiguration.java:32-36 | Holds the given node of the given machine |
| `Configuration.StateConfiguration.EnforceNotIdentityTransition` | src/main/java/com/googlecode/stateless4j/StateConfiguration.java:552-556 | Fails with SelfTransitionIgnoredOrReentrant exactly when the destination is the configured state |
| `Configuration.StateConfiguration.Permit` | src/main/java/com/googlecode/stateless4j/StateConfiguration.java:45-49 | Fails iff the destination is the configured state, and then registers nothing; otherwise appends exactly one always-guarded transitioning behaviour to the configured node |
| `Configuration.StateConfiguration.PermitIf` | src/main/java/com/googlecode/stateless4j/StateConfiguration.java:60-65 | As Permit, with the given guard |
| `Configuration.StateConfiguration.PermitReentry` | src/main/java/com/googlecode/stateless4j/StateConfiguration.java:77-79 | Appends an always-guarded transitioning behaviour to the configured state itself, with no identity check |
| `Configuration.StateConfiguration.PermitReentryIf` | src/main/java/com/googlecode/stateless4j/StateConfiguration.java:93-95 | As PermitReentry, with the given guard |
| `Configuration.StateConfiguration.Ignore` | src/main/java/com/googlecode/stateless4j/StateConfiguration.java:102-104 | Appends one ignored behaviour with the always-true guard |
| `Configuration.StateConfiguration.IgnoreIf` | src/main/java/com/googlecode/stateless4j/StateConfiguration.java:114-117 | Appends one ignored behaviour with the given guard |
| `Configuration.StateConfiguration.PublicPermit` | src/main/java/com/googlecode/stateless4j/StateConfiguration.java:524-532 | Appends one transitioning behaviour with the always-true guard, with no identity check |
| `Configuration.StateConfiguration.PublicPermitIf` | src/main/java/com/googlecode/stateless4j/StateConfiguration.java:534-539 | Appends one transitioning behaviour with the given guard |
| `Configuration.StateConfiguration.PublicPermitDynamic` | src/main/java/com/googlecode/stateless4j/StateConfiguration.java:541-543 | Appends one dynamic behaviour with the always-true guard |
| `Configuration.StateConfiguration.PublicPermitDynamicIf` | src/main/java/com/googlecode/stateless4j/StateConfiguration.java:545-550 | Appends one dynamic behaviour with the given selector and guard, with no identity check |
| `Configuration.StateConfiguration.PermitDynamic` | src/main/java/com/googlecode/stateless4j/StateConfiguration.java:377-380 | Appends one always-guarded dynamic behaviour whose zero-argument selector ignores the arguments |
| `Configuration.StateConfiguration.PermitDynamicIf` | src/main/java/com/googlecode/stateless4j/StateConfiguration.java:438-447 | Appends one dynamic behaviour with the given guard whose zero-argument selector ignores the arguments |
| `Configuration.StateConfiguration.PermitDynamicWithParameters` | src/main/java/com/googlecode/stateless4j/StateConfiguration.java:391-394 | Appends one always-guarded dynamic behaviour, under the underlying trigger, whose selector reads the arguments |
| `Configuration.StateConfiguration.PermitDynamicIfWithParameters` | src/main/java/com/googlecode/stateless4j/StateConfiguration.java:460-470 | Appends one dynamic behaviour with the given guard, under the underlying trigger, whose selector reads the arguments |
| `Configuration.StateConfiguration.OnEntry` | src/main/java/com/googlecode/stateless4j/StateConfiguration.java:141-148 | Appends one unfiltered entry action to the configured node |
| `Configuration.StateConfiguration.OnEntryFrom` | src/main/java/com/googlecode/stateless4j/StateConfiguration.java:175-185 | Appends one entry action filtered by the trigger |
| `Configuration.StateConfiguration.OnEntryFromWithParameters` | src/main/java/com/googlecode/stateless4j/StateConfiguration.java:215-227 | Appends one entry action filtered by the underlying trigger |
| `Configuration.StateConfiguration.OnExit` | src/main/java/com/googlecode/stateless4j/StateConfiguration.java:345-348 | Appends one exit action to the configured node |
| `Configuration.StateConfiguration.SubstateOf` | src/main/java/com/googlecode/stateless4j/StateConfiguration.java:362-367 | Sets the superstate link and appends the configured node to the superstate's substates, nothing else; keeps consistency, keeps two-way links when the state had no superstate, and afterwards each includes the other's state in the two directions |
| `Configuration.RegisteredIsFound` | src/main/java/com/googlecode/stateless4j/StateRepresentation.java:46-69 | A behaviour registered, with its guard holding, for a trigger with no other satisfied guard is what the local lookup returns |
| `Configuration.SecondMetIsAmbiguous` | src/main/java/com/googlecode/stateless4j/StateRepresentation.java:60-62 | Registering a second behaviour whose guard holds makes the local lookup ambiguous |
| `Configuration.OtherTriggersUnaffected` | src/main/java/com/googlecode/stateless4j/StateRepresentation.java:121-129 | Registering a behaviour leaves the lookup and the permission of every other trigger unchanged |
| `Configuration.RegisteredIsPermitted` | src/main/java/com/googlecode/stateless4j/StateRepresentation.java:166-176 | A registered behaviour whose guard holds makes its trigger locally permitted |
| `Configuration.FoundPermitLeadsToDestination` | src/main/java/com/googlecode/stateless4j/StateConfiguration.java:534-539 | A registered permit, once found, leads to its destination; a registered ignore, once found, signals that the trigger is ignored |
| `Scenarios.LeaveSubstateForUnrelated` | src/main/java/com/googlecode/stateless4j/StateRepresentation.java:100-108 | Leaving substate A of S for an unrelated D runs A's exit actions, then S's, then D's entry actions |
| `Scenarios.EnterSubstateFromUnrelated` | src/main/java/com/googlecode/stateless4j/StateRepresentation.java:89-98 | Entering substate A of S from an unrelated D runs S's entry actions, then A's |
| `Scenarios.ReenterSubstate` | src/main/java/com/googlecode/stateless4j/StateRepresentation.java:89-108 | A reentry of A runs only A's own exit and entry actions, never its superstate's |
| `Scenarios.ReparentLeavesStaleEntry` | src/main/java/com/googlecode/stateless4j/StateConfiguration.java:362-367 | After C is moved from superstate P to Q, P still includes C, while C is no longer included in P |
| `Scenarios.DynamicDestinationFromArgument` | src/test/java/ifesdjeen/stateless4j/DynamicTriggerBehaviourTest.java:28-41 | With a selector over one integer argument, the argument 1 validates and leads to B |
| `Scenarios.DynamicDestinationWithoutArguments` | src/test/java/ifesdjeen/stateless4j/DynamicTriggerBehaviourTest.java:13-25 | With a zero-argument selector returning B, firing leads to B |
| `Scenarios.ValidateExamples` | src/main/java/com/googlecode/stateless4j/conversion/ParameterConversion.java:24-31 | Against two integers: an integer then a string fails with WrongArgType at 1, one integer fails with ArgOfTypeRequiredInPosition at 1, three integers fail with TooManyParameters(2, 3), and an integer then a null pass |

## Left out

- The state machine itself is not part of this model: `StateMachine.Fire`, the current state, and the registry behind the `lookup` function of `StateConfiguration`. `SubstateOf` takes the superstate's node directly, which is what the lookup returns.
- Entry arguments: the `Object[]` passed to entry actions is not recorded. A trace lists only the ids of the actions that run.
- Typed overloads: the one-, two- and three-argument overloads of `OnEntryFrom` and `permitDynamicIf` each collapse into one method (`OnEntryFromWithParameters`, `PermitDynamicIfWithParameters`). Their unchecked casts of argument-array elements are generic plumbing and are left out.
- Closure overloads: the `Action`/`Action1` overloads of `OnEntry`, `OnEntryFrom` and `OnExit` only wrap the caller's closure, so each pair is one method.
- Fluent chaining: every builder method returns `this` in Java. The return value is left implicit.
- Guards and selectors are evaluated against a caller-supplied snapshot. A guard whose value changes between two calls within one query, or a closure with side effects, is not modelled.
- Action failures are not modelled: the traces assume every action completes.
- Reflection: `Class.isAssignableFrom` and `getClass` become a caller-supplied relation over class ids. Reflexivity is assumed only where `ExactClassesMatch` says so.
- Set order: `getPermittedTriggers` returns a list copied from a `HashSet`. Its order is unspecified, so the model returns a set.
- Exceptions carry only their fields. Message formatting is left out.
- `actual.get(0)` on an empty list and the `handler == null` check are one failure, `NoGuardMet`. No null behaviour can be registered, because `AddTriggerBehaviour` would fail on its trigger first.
- Cycles: the source does not check the hierarchy for cycles. The model assumes acyclicity through ghost ranks, so a cyclic `SubstateOf` (a non-terminating walk in Java) cannot be expressed.
- `setSuperstate(null)` is never called by the builder and is not modelled.
- `Representation.StateGraph.TryFindHandler`: its own contract only says a found handler carries the trigger, has a met guard and is registered at some node. That it comes from the nearest node on the superstate chain is stated by `Hierarchy.FindHandlerNearest`.
- `Representation.StateGraph.PermittedTriggers`: its own contract only says the local triggers are included. The full characterisation is `Hierarchy.PermittedTriggersIff`.
- `Hierarchy.IncludesIff`: holds only while the links agree both ways. After a state is re-parented, `Includes` also follows the stale substate entry of the old superstate (`Scenarios.ReparentLeavesStaleEntry`).
