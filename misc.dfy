/** `mapN` of the `core` package: apply a function to arguments that may be
    `null` or `undefined`, passing those through. */
module Misc {

  /** An argument or result that may be `undefined` or `null`. */
  datatype Nullable<T> = Undefined | Null | Defined(value: T)

  /** `args.every((arg) => arg !== undefined)`. */
  predicate NoneUndefined<T>(args: seq<Nullable<T>>)
    ensures NoneUndefined(args) <==> forall i :: 0 <= i < |args| ==> !args[i].Undefined?
  {
    args == [] || (!args[0].Undefined? && NoneUndefined(args[1..]))
  }

  /** `args.every((arg) => arg !== null)`. */
  predicate NoneNull<T>(args: seq<Nullable<T>>)
    ensures NoneNull(args) <==> forall i :: 0 <= i < |args| ==> !args[i].Null?
  {
    args == [] || (!args[0].Null? && NoneNull(args[1..]))
  }

  /** The arguments with their wrappers removed, in order. */
  function Values<T>(args: seq<Nullable<T>>): (r: seq<T>)
    requires forall i :: 0 <= i < |args| ==> args[i].Defined?
    ensures |r| == |args| && forall i :: 0 <= i < |args| ==> r[i] == args[i].value
  {
    seq(|args|, i requires 0 <= i < |args| => args[i].value)
  }

  /** `mapN(fn, ...args)`. */
  function MapN<T, U>(fn: seq<T> -> U, args: seq<Nullable<T>>): (r: Nullable<U>)
    ensures r.Undefined? <==> exists i :: 0 <= i < |args| && args[i].Undefined?
    ensures r.Null? <==> (exists i :: 0 <= i < |args| && args[i].Null?) && forall i :: 0 <= i < |args| ==> !args[i].Undefined?
    ensures r.Defined? <==> forall i :: 0 <= i < |args| ==> args[i].Defined?
  {
    if !NoneUndefined(args) then Undefined
    else if !NoneNull(args) then Null
    else Defined(fn(Values(args)))
  }

  /** When every argument is present, `fn` gets them all, unwrapped and in
      order, and its result is returned; with no arguments it is always
      called. */
  lemma MapNApplies<T, U>(fn: seq<T> -> U, args: seq<Nullable<T>>)
    requires forall i :: 0 <= i < |args| ==> args[i].Defined?
    ensures MapN(fn, args) == Defined(fn(Values(args)))
    ensures MapN(fn, []) == Defined(fn([]))
  {
    assert Values<T>([]) == [];
  }

  /** `undefined` wins over `null`, wherever each appears. */
  lemma UndefinedBeforeNull<T, U>(fn: seq<T> -> U, args: seq<Nullable<T>>, i: nat, j: nat)
    requires i < |args| && j < |args| && args[i].Undefined? && args[j].Null?
    ensures MapN(fn, args) == Undefined
  {}
}
