/** Checking the arguments of a parameterised trigger against the types it
    was declared with (ParameterConversion). */
module Conversion {
  import opened Wrappers

  /** A Java class, identified opaquely. */
  type TypeId = nat

  /** One element of the `Object[]` a trigger is fired with: Java `null`, or
      an object with its runtime class and an opaque payload. */
  datatype Arg = Null | Obj(cls: TypeId, payload: int)

  /** `Class.isAssignableFrom`: `assignable(declared, actual)` holds when a
      value of class `actual` may stand where `declared` is expected. */
  type Assignable = (TypeId, TypeId) -> bool

  /** The three exceptions the conversion can throw, with the fields their
      constructors record. */
  datatype ConversionError =
    | ArgOfTypeRequiredInPosition(argType: TypeId, index: nat)
    | WrongArgType(argType: TypeId, index: nat)
    | TooManyParameters(expected: nat, actual: nat)

  /** A null argument fits every declared type; an object fits when its class
      is assignable to the declared one. */
  predicate Compatible(arg: Arg, argType: TypeId, assignable: Assignable) {
    arg.Null? || assignable(argType, arg.cls)
  }

  /** Fetch the argument at `index`, failing when the array is too short or
      the argument has the wrong class. */
  function Unpack(args: seq<Arg>, argType: TypeId, index: nat, assignable: Assignable): (r: Result<Arg, ConversionError>)
    ensures r.Success? <==> index < |args| && Compatible(args[index], argType, assignable)
    ensures r.Success? ==> r.value == args[index]
    ensures |args| <= index ==> r == Failure(ArgOfTypeRequiredInPosition(argType, index))
    ensures index < |args| && !Compatible(args[index], argType, assignable) ==>
              r == Failure(WrongArgType(args[index].cls, index))
  {
    if |args| <= index then
      Failure(ArgOfTypeRequiredInPosition(argType, index))
    else
      var arg := args[index];
      if arg.Obj? && !assignable(argType, arg.cls) then
        Failure(WrongArgType(arg.cls, index))
      else
        Success(arg)
  }

  /** Every argument is present and fits its declared type. */
  predicate Matches(args: seq<Arg>, expected: seq<TypeId>, assignable: Assignable) {
    |args| == |expected| &&
    forall i :: 0 <= i < |expected| ==> Compatible(args[i], expected[i], assignable)
  }

  /** Validate `args` against `expected`: first the count, then each position
      in order, reporting the first failure. */
  method Validate(args: seq<Arg>, expected: seq<TypeId>, assignable: Assignable) returns (r: Outcome<ConversionError>)
    ensures r.Pass? <==> Matches(args, expected, assignable)
    ensures |args| > |expected| ==> r == Fail(TooManyParameters(|expected|, |args|))
    ensures |args| <= |expected| && r.Fail? ==>
              exists k :: 0 <= k < |expected| &&
                (forall j :: 0 <= j < k ==> Unpack(args, expected[j], j, assignable).Success?) &&
                Unpack(args, expected[k], k, assignable) == Failure(r.error)
  {
    if |args| > |expected| {
      return Fail(TooManyParameters(|expected|, |args|));
    }
    var i := 0;
    while i < |expected|
      invariant 0 <= i <= |expected|
      invariant forall j :: 0 <= j < i ==> Unpack(args, expected[j], j, assignable).Success?
    {
      var u := Unpack(args, expected[i], i, assignable);
      if u.Failure? {
        return Fail(u.error);
      }
      i := i + 1;
    }
    // the last position was unpacked, so no argument is missing
    assert |expected| > 0 ==> Unpack(args, expected[|expected| - 1], |expected| - 1, assignable).Success?;
    return Pass;
  }

  /** `isAssignableFrom` relates every class to itself. */
  ghost predicate Reflexive(assignable: Assignable) {
    forall c :: assignable(c, c)
  }

  /** Under a reflexive relation, arguments that are null or of exactly the
      declared classes pass validation. */
  lemma ExactClassesMatch(args: seq<Arg>, expected: seq<TypeId>, assignable: Assignable)
    requires Reflexive(assignable) && |args| == |expected|
    requires forall i :: 0 <= i < |args| ==> args[i].Null? || args[i].cls == expected[i]
    ensures Matches(args, expected, assignable)
  {
  }
}
