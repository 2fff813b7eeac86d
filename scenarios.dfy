/** Small concrete machines, configured through `StateConfiguration` and
    driven through `Enter`, `Exit` and `Validate`, with the outcomes the
    library's behaviour implies for them. States and triggers are
    characters; actions are numbers. */
module Scenarios {
  import opened Wrappers
  import opened Conversion
  import opened Triggers
  import opened Representation
  import opened Hierarchy
  import opened Configuration

  /** The node list of the nested machine: `A` is a substate of `S`; `D` is
      unrelated. `S` has entry action 40 and exit action 20, `A` entry
      action 50 and exit action 10, `D` entry action 30. */
  function NestedNodes(): seq<StateNode<char, char>> {
    [ StateNode('S', map[], [EntryAction(None, 40)], [20], None, [1]),
      StateNode('A', map[], [EntryAction(None, 50)], [10], Some(0), []),
      StateNode('D', map[], [EntryAction(None, 30)], [], None, []) ]
  }

  /** Create the three representations, with `A` ranked below `S`. */
  method CreateStates() returns (g: StateGraph<char, char>)
    ensures fresh(g) && g.Valid() && g.Consistent()
    ensures g.nodes == [NewNode('S'), NewNode('A'), NewNode('D')] && g.rank == [0, 1, 0]
  {
    g := new StateGraph();
    var s := g.AddState('S', 0);
    var a := g.AddState('A', 1);
    var d := g.AddState('D', 0);
  }

  /** Declare `A` a substate of `S`. */
  method NestStates() returns (g: StateGraph<char, char>)
    ensures fresh(g) && g.Valid() && g.Consistent()
    ensures g.nodes == [NewNode('S').(substates := [1]), NewNode('A').(superstate := Some(0)), NewNode('D')]
    ensures g.rank == [0, 1, 0]
  {
    g := CreateStates();
    var confA := new StateConfiguration(g, 1);
    ghost var before := g.nodes;
    confA.SubstateOf(0);
    assert before[0].substates + [1] == [1];
    assert g.nodes[0] == NewNode('S').(substates := [1]);
    assert g.nodes[1] == NewNode('A').(superstate := Some(0));
    assert g.nodes[2] == NewNode('D');
  }

  /** Give `S` its entry and exit actions. */
  method ConfigureSuperstate() returns (g: StateGraph<char, char>)
    ensures fresh(g) && g.Valid() && g.Consistent()
    ensures g.nodes == [NestedNodes()[0], NewNode('A').(superstate := Some(0)), NewNode('D')]
  {
    g := NestStates();
    var confS := new StateConfiguration(g, 0);
    confS.OnEntry(40);
    confS.OnExit(20);
    assert g.nodes[0] == NestedNodes()[0];
  }

  /** Configure the nested machine: its links, then its actions. */
  method BuildNested() returns (g: StateGraph<char, char>)
    ensures fresh(g) && g.Valid() && g.Consistent()
    ensures g.nodes == NestedNodes()
  {
    g := ConfigureSuperstate();
    var confA := new StateConfiguration(g, 1);
    var confD := new StateConfiguration(g, 2);
    confA.OnEntry(50);
    confA.OnExit(10);
    assert g.nodes[1] == NestedNodes()[1];
    confD.OnEntry(30);
    assert g.nodes[0] == NestedNodes()[0];
    assert g.nodes[2] == NestedNodes()[2];
  }

  /** Which states each node of the nested machine includes. */
  lemma NestedMembership(g: StateGraph<char, char>)
    requires g.Valid() && g.nodes == NestedNodes()
    ensures !g.Includes(2, 'A') && !g.Includes(1, 'D') && !g.Includes(0, 'D')
  {
    assert g.nodes[2].substates == [] && g.nodes[1].substates == [];
    assert !g.Includes(1, 'D');
    assert g.nodes[0].substates == [1];
  }

  lemma LeaveSubstateExit(g: StateGraph<char, char>)
    requires g.Valid() && g.nodes == NestedNodes()
    ensures g.ExitTrace(1, Transition('A', 'D', 'x')) == [10, 20]
  {
    var tr := Transition('A', 'D', 'x');
    NestedMembership(g);
    assert g.ExitTrace(0, tr) == [20] by {
      g.ExitTraceStep(0, tr);
    }
    g.ExitTraceStep(1, tr);
  }

  lemma LeaveSubstateEntry(g: StateGraph<char, char>)
    requires g.Valid() && g.nodes == NestedNodes()
    ensures g.EntryTrace(2, Transition('A', 'D', 'x')) == [30]
  {
    var tr := Transition('A', 'D', 'x');
    NestedMembership(g);
    g.EntryTraceStep(2, tr);
    RunnableSingle(EntryAction(None, 30), 'x');
  }

  lemma EnterSubstateExit(g: StateGraph<char, char>)
    requires g.Valid() && g.nodes == NestedNodes()
    ensures g.ExitTrace(2, Transition('D', 'A', 'y')) == []
  {
    NestedMembership(g);
    g.ExitTraceStep(2, Transition('D', 'A', 'y'));
  }

  /** Entering a substate of a root from outside both runs the root's
      runnable entry actions, then the substate's. */
  lemma EnterBelowRoot(g: StateGraph<char, char>, r: nat, n: nat, tr: Transition<char, char>)
    requires g.Valid() && r < |g.nodes| && n < |g.nodes|
    requires g.nodes[n].superstate == Some(r) && g.nodes[r].superstate.None?
    requires !tr.IsReentry() && !g.Includes(n, tr.source) && !g.Includes(r, tr.source)
    ensures g.EntryTrace(n, tr) == RunnableEntryActions(g.nodes[r].entryActions, tr.trigger) +
                                   RunnableEntryActions(g.nodes[n].entryActions, tr.trigger)
  {
    g.EntryTraceStep(r, tr);
    g.EntryTraceStep(n, tr);
  }

  lemma EnterSubstateEntry(g: StateGraph<char, char>)
    requires g.Valid() && g.nodes == NestedNodes()
    ensures g.EntryTrace(1, Transition('D', 'A', 'y')) == [40, 50]
  {
    NestedMembership(g);
    EnterBelowRoot(g, 0, 1, Transition('D', 'A', 'y'));
    RunnableSingle(EntryAction(None, 40), 'y');
    RunnableSingle(EntryAction(None, 50), 'y');
  }

  lemma ReenterSubstateTraces(g: StateGraph<char, char>)
    requires g.Valid() && g.nodes == NestedNodes()
    ensures g.ExitTrace(1, Transition('A', 'A', 'z')) == [10]
    ensures g.EntryTrace(1, Transition('A', 'A', 'z')) == [50]
  {
    var tr := Transition('A', 'A', 'z');
    g.ExitTraceStep(1, tr);
    g.EntryTraceStep(1, tr);
    RunnableSingle(EntryAction(None, 50), 'z');
  }

  /** Leaving `A` for the unrelated `D` runs `A`'s exit actions, then
      `S`'s, then `D`'s entry actions. */
  method LeaveSubstateForUnrelated() returns (exited: seq<ActionId>, entered: seq<ActionId>)
    ensures exited == [10, 20]
    ensures entered == [30]
  {
    var g := BuildNested();
    var tr := Transition('A', 'D', 'x');
    LeaveSubstateExit(g);
    LeaveSubstateEntry(g);
    exited := g.Exit(1, tr);
    entered := g.Enter(2, tr);
  }

  /** Entering `A` from the unrelated `D` runs `S`'s entry actions before
      `A`'s, and `D` runs no exit action of its own. */
  method EnterSubstateFromUnrelated() returns (exited: seq<ActionId>, entered: seq<ActionId>)
    ensures exited == []
    ensures entered == [40, 50]
  {
    var g := BuildNested();
    var tr := Transition('D', 'A', 'y');
    EnterSubstateExit(g);
    EnterSubstateEntry(g);
    exited := g.Exit(2, tr);
    entered := g.Enter(1, tr);
  }

  /** A reentry of `A` runs only `A`'s own actions, never `S`'s. */
  method ReenterSubstate() returns (exited: seq<ActionId>, entered: seq<ActionId>)
    ensures exited == [10]
    ensures entered == [50]
  {
    var g := BuildNested();
    var tr := Transition('A', 'A', 'z');
    ReenterSubstateTraces(g);
    exited := g.Exit(1, tr);
    entered := g.Enter(1, tr);
  }

  /** The node list after `C` is declared a substate of `P` and then of
      `Q`: both list `C` as a substate, and `C` points at `Q`. */
  function ReparentedNodes(): seq<StateNode<char, char>> {
    [ NewNode('P').(substates := [2]),
      NewNode('Q').(substates := [2]),
      NewNode('C').(superstate := Some(1)) ]
  }

  /** Create `P` and `Q`, both ranked above `C`. */
  method CreateUnlinked() returns (g: StateGraph<char, char>)
    ensures fresh(g) && g.Valid()
    ensures g.nodes == [NewNode('P'), NewNode('Q'), NewNode('C')] && g.rank == [0, 0, 1]
  {
    g := new StateGraph();
    var p := g.AddState('P', 0);
    var q := g.AddState('Q', 0);
    var c := g.AddState('C', 1);
  }

  /** Declare `C` a substate of `P`. */
  method LinkUnderP() returns (g: StateGraph<char, char>)
    ensures fresh(g) && g.Valid() && g.rank == [0, 0, 1]
    ensures g.nodes == [NewNode('P').(substates := [2]), NewNode('Q'), NewNode('C').(superstate := Some(0))]
  {
    g := CreateUnlinked();
    var conf := new StateConfiguration(g, 2);
    ghost var unlinked := g.nodes;
    conf.SubstateOf(0);
    assert unlinked[0].substates + [2] == [2];
    assert g.nodes[0] == NewNode('P').(substates := [2]);
    assert g.nodes[1] == NewNode('Q');
    assert g.nodes[2] == NewNode('C').(superstate := Some(0));
  }

  /** Declare `C` a substate of `P`, then of `Q`. */
  method Reparent() returns (g: StateGraph<char, char>)
    ensures fresh(g) && g.Valid()
    ensures g.nodes == ReparentedNodes()
  {
    g := LinkUnderP();
    var conf := new StateConfiguration(g, 2);
    ghost var before := g.nodes;
    conf.SubstateOf(1);
    assert before[1].substates + [2] == [2];
    assert g.nodes[0] == ReparentedNodes()[0];
    assert g.nodes[1] == ReparentedNodes()[1];
    assert g.nodes[2] == ReparentedNodes()[2];
  }

  /** After the move, `P` still includes `C`, but `C` is not included in
      `P`. */
  lemma StaleMembership(g: StateGraph<char, char>)
    requires g.Valid() && g.nodes == ReparentedNodes()
    ensures g.Includes(0, 'C')
    ensures !g.IsIncludedIn(2, 'P')
  {
    assert g.Includes(2, 'C');
    assert g.nodes[0].substates[0] == 2;
    assert !g.IsIncludedIn(1, 'P');
  }

  /** Moving `C` from superstate `P` to superstate `Q`: `P` still includes
      `C` through its old substate entry, although `C` is no longer included
      in `P`. */
  method ReparentLeavesStaleEntry() returns (staleIncludes: bool, includedIn: bool)
    ensures staleIncludes
    ensures !includedIn
  {
    var g := Reparent();
    StaleMembership(g);
    staleIncludes := g.Includes(0, 'C');
    includedIn := g.IsIncludedIn(2, 'P');
  }

  /** The class of integers and the class of strings. */
  const IntClass: TypeId := 0
  const StringClass: TypeId := 1

  /** The selectors of the dynamic examples: selector 0 over no arguments
      yields `B`; selector 0 over an argument array yields `B` when the first
      argument is the integer 1 and `C` otherwise. */
  function ExampleSelectors(): Selectors<char> {
    Selectors(
      id => 'B',
      (id, args) => if |args| > 0 && args[0] == Obj(IntClass, 1) then 'B' else 'C')
  }

  /** A machine with the single state `A`, which permits `x` dynamically
      through selector 0 over the arguments. */
  method ConfigureDynamicOverArgs(x: TriggerWithParameters<char>) returns (g: StateGraph<char, char>, a: nat)
    ensures fresh(g) && g.Valid() && a == 0
    ensures g.nodes == [AppendBehaviour(NewNode('A'), Dynamic(x.underlyingTrigger, Always, OverArgs(0)))]
  {
    g := new StateGraph<char, char>();
    a := g.AddState('A', 0);
    var conf := new StateConfiguration(g, a);
    conf.PermitDynamicWithParameters(x, 0);
  }

  /** `A` permits `X` dynamically through a selector over the trigger's one
      integer argument; firing `X` with 1 from `A` validates, finds that
      behaviour and leads to `B`. */
  method DynamicDestinationFromArgument() returns (valid: Outcome<ConversionError>, dest: Option<Destination<char>>)
    ensures valid == Pass
    ensures dest == Some(Destination('B'))
  {
    var x := TriggerWithParameters('X', [IntClass]);
    var g, a := ConfigureDynamicOverArgs(x);
    var args := [Obj(IntClass, 1)];
    var sameClass: Assignable := (declared, actual) => declared == actual;
    valid := x.ValidateParameters(args, sameClass);
    var noGuards: GuardId -> bool := id => false;
    RegisteredIsFound(NewNode('A'), Dynamic('X', Always, OverArgs(0)), noGuards);
    var handler := g.TryFindHandler(a, 'X', noGuards);
    dest := match handler
      case Some(b) => Some(b.ResultsInTransitionFrom('A', args, ExampleSelectors()))
      case None => None;
  }

  /** `A` permits `X` dynamically through a zero-argument selector; firing
      `X` from `A` leads to `B`. */
  method DynamicDestinationWithoutArguments() returns (dest: Option<Destination<char>>)
    ensures dest == Some(Destination('B'))
  {
    var g := new StateGraph<char, char>();
    var a := g.AddState('A', 0);
    var conf := new StateConfiguration(g, a);
    conf.PermitDynamic('X', 0);
    var noGuards: GuardId -> bool := id => false;
    RegisteredIsFound(NewNode('A'), Dynamic('X', Always, IgnoringArgs(0)), noGuards);
    var handler := g.TryFindHandler(a, 'X', noGuards);
    dest := match handler
      case Some(b) => Some(b.ResultsInTransitionFrom('A', [], ExampleSelectors()))
      case None => None;
  }

  /** Validating against two integers: an integer then a string fails on the
      string at index 1, a single integer misses index 1, and three integers
      are too many. */
  method ValidateExamples() returns (mistyped: Outcome<ConversionError>, short: Outcome<ConversionError>,
                                     long: Outcome<ConversionError>, exact: Outcome<ConversionError>)
    ensures mistyped == Fail(WrongArgType(StringClass, 1))
    ensures short == Fail(ArgOfTypeRequiredInPosition(IntClass, 1))
    ensures long == Fail(TooManyParameters(2, 3))
    ensures exact == Pass
  {
    var sameClass: Assignable := (declared, actual) => declared == actual;
    var twoInts := TriggerWithParameters('t', [IntClass, IntClass]);
    mistyped := twoInts.ValidateParameters([Obj(IntClass, 1), Obj(StringClass, 120)], sameClass);
    short := twoInts.ValidateParameters([Obj(IntClass, 1)], sameClass);
    long := twoInts.ValidateParameters([Obj(IntClass, 1), Obj(IntClass, 2), Obj(IntClass, 3)], sameClass);
    exact := twoInts.ValidateParameters([Obj(IntClass, 1), Null], sameClass);
  }
}
