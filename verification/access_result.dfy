/** The tri-state access result of Drupal's access API and its `orIf` combinator.
    Only the decision itself is modelled; cacheability metadata and reasons are not. */
module AccessResult {

  /** `AccessResult::allowed()`, `::forbidden()` and `::neutral()`. */
  datatype Decision = Allow | Deny | Neutral

  /** Strength of a decision: Neutral < Allow < Deny. */
  function Rank(d: Decision): nat {
    match d
    case Neutral => 0
    case Allow => 1
    case Deny => 2
  }

  function Max(x: nat, y: nat): nat {
    if x < y then y else x
  }

  /** `AccessResult::orIf`, whose implementation lives in Drupal core: forbidden if
      either operand is forbidden, else allowed if either is allowed, else neutral.
      Its contract states the same rule as the join of the strength order. */
  function OrIf(a: Decision, b: Decision): (r: Decision)
    ensures Rank(r) == Max(Rank(a), Rank(b))
  {
    if a == Deny || b == Deny then Deny
    else if a == Allow || b == Allow then Allow
    else Neutral
  }

  lemma OrIfNeutralIdentity(d: Decision)
    ensures OrIf(Neutral, d) == d && OrIf(d, Neutral) == d
  {}

  lemma OrIfDenyDominates(d: Decision)
    ensures OrIf(Deny, d) == Deny && OrIf(d, Deny) == Deny
  {}

  lemma OrIfCommutative(a: Decision, b: Decision)
    ensures OrIf(a, b) == OrIf(b, a)
  {}

  lemma OrIfAssociative(a: Decision, b: Decision, c: Decision)
    ensures OrIf(OrIf(a, b), c) == OrIf(a, OrIf(b, c))
  {}

  /** Left fold of `orIf` over `results`, starting from `acc`: the shape of every
      `foreach` loop in the reply access control handler. The contract says the
      outcome only depends on which decisions occur, never on their order. */
  function FoldOrIf(acc: Decision, results: seq<Decision>): (r: Decision)
    ensures r == Deny <==> acc == Deny || Deny in results
    ensures r == Allow <==> acc != Deny && Deny !in results && (acc == Allow || Allow in results)
    ensures r == Neutral <==> acc == Neutral && forall d | d in results :: d == Neutral
    decreases |results|
  {
    if |results| == 0 then acc
    else
      assert results == [results[0]] + results[1..];
      FoldOrIf(OrIf(acc, results[0]), results[1..])
  }

  /** Folding over a concatenation is folding over the parts in turn. */
  lemma FoldOrIfAppend(acc: Decision, xs: seq<Decision>, ys: seq<Decision>)
    ensures FoldOrIf(acc, xs + ys) == FoldOrIf(FoldOrIf(acc, xs), ys)
    decreases |xs|
  {}

  /** The start value is combined like one more result. */
  lemma FoldOrIfStart(acc: Decision, results: seq<Decision>)
    ensures FoldOrIf(acc, results) == OrIf(acc, FoldOrIf(Neutral, results))
    decreases |results|
  {}

  /** Only the set of decisions that occur matters, not their order or number. */
  lemma FoldOrIfSameElements(acc: Decision, xs: seq<Decision>, ys: seq<Decision>)
    requires forall d :: d in xs ==> d in ys
    requires forall d :: d in ys ==> d in xs
    ensures FoldOrIf(acc, xs) == FoldOrIf(acc, ys)
  {}

  /** Reordering the results (any permutation) leaves the fold unchanged. */
  lemma FoldOrIfPermutation(acc: Decision, xs: seq<Decision>, ys: seq<Decision>)
    requires multiset(xs) == multiset(ys)
    ensures FoldOrIf(acc, xs) == FoldOrIf(acc, ys)
  {
    assert Deny in xs <==> Deny in multiset(xs);
    assert Deny in ys <==> Deny in multiset(ys);
    assert Allow in xs <==> Allow in multiset(xs);
    assert Allow in ys <==> Allow in multiset(ys);
  }
}
