/**
 * Text validators and their composition (TFBubbleItUpValidation.swift).
 * A validator is a total predicate on strings; validators compose by AND.
 */
module Validation {
  import opened Wrappers

  /** Swift's `Validation = (String) -> Bool`. */
  type Validator = string -> bool

  /** The `v1 |>> v2` operator. */
  function Chain(v1: Validator, v2: Validator): (r: Validator)
    ensures forall s :: r(s) ==> v1(s) && v2(s)
    ensures forall s :: !v1(s) || !v2(s) ==> !r(s)
  {
    s => v1(s) && v2(s)
  }

  /** `combine(v1, v2)`, written separately from `|>>` as in the source. */
  function Combine(v1: Validator, v2: Validator): (r: Validator)
    ensures forall s :: r(s) == Chain(v1, v2)(s)
  {
    text => v1(text) && v2(text)
  }

  /** `testEmptiness()`: the empty string is not valid. */
  function TestEmptiness(): (r: Validator)
    ensures !r("")
    ensures forall s :: |s| > 0 ==> r(s)
  {
    text => text != ""
  }

  /**
   * `v1 |>> v2 |>> ... |>> vn`; `|>>` is declared left-associative,
   * so the chain nests to the left.
   */
  function ChainAll(vs: seq<Validator>): (r: Validator)
    requires |vs| >= 1
    ensures forall s :: r(s) ==> vs[0](s) && vs[|vs| - 1](s)
  {
    if |vs| == 1 then vs[0] else Chain(ChainAll(vs[..|vs| - 1]), vs[|vs| - 1])
  }

  /**
   * `isValid(text)` against the configured `itemValidation`: a missing text
   * or a missing validator counts as valid.
   */
  function IsValid(text: Option<string>, itemValidation: Option<Validator>): (r: bool)
    ensures !r ==> text.Some? && itemValidation.Some?
    ensures text.Some? && itemValidation.Some? ==> r == itemValidation.value(text.value)
  {
    match (text, itemValidation)
    case (Some(t), Some(validation)) => validation(t)
    case _ => true
  }

  lemma ChainAcceptsIffBoth(v1: Validator, v2: Validator, s: string)
    ensures Chain(v1, v2)(s) <==> v1(s) && v2(s)
  {
  }

  lemma CombineIsChain(v1: Validator, v2: Validator)
    ensures forall s :: Combine(v1, v2)(s) == Chain(v1, v2)(s)
  {
  }

  lemma ChainAssociative(a: Validator, b: Validator, c: Validator)
    ensures forall s :: Chain(Chain(a, b), c)(s) == Chain(a, Chain(b, c))(s)
  {
  }

  /** A whole chain accepts a text exactly when every one of its validators does. */
  lemma {:induction false} ChainAllAcceptsIffEvery(vs: seq<Validator>, s: string)
    requires |vs| >= 1
    ensures ChainAll(vs)(s) <==> forall i :: 0 <= i < |vs| ==> vs[i](s)
  {
    if |vs| > 1 {
      var front := vs[..|vs| - 1];
      ChainAllAcceptsIffEvery(front, s);
      assert forall i :: 0 <= i < |front| ==> front[i] == vs[i];
    }
  }

  /** `testEmptiness()` accepts exactly the non-empty strings. */
  lemma EmptinessAcceptsNonEmpty(s: string)
    ensures TestEmptiness()(s) <==> s != ""
  {
  }

  /** Any chain that contains `testEmptiness()` rejects the empty string. */
  lemma ChainWithEmptinessRejectsEmpty(vs: seq<Validator>, i: nat)
    requires i < |vs| && vs[i] == TestEmptiness()
    ensures !ChainAll(vs)("")
  {
    ChainAllAcceptsIffEvery(vs, "");
  }

  lemma IsValidOfNil(itemValidation: Option<Validator>)
    ensures IsValid(None, itemValidation)
  {
  }

  lemma IsValidUnconfigured(text: Option<string>)
    ensures IsValid(text, None)
  {
  }

  lemma IsValidConfigured(t: string, v: Validator)
    ensures IsValid(Some(t), Some(v)) == v(t)
  {
  }
}
