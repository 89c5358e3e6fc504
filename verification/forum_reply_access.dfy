/** The extensible access control handler for forum replies: every check starts
    from Neutral and combines, in registration order, the opinions of a fixed list
    of pluggable handlers with `orIf`. Handler discovery through the plugin manager
    is replaced by the handler list given as a parameter. */
module ForumReplyAccess {
  import opened AccessResult

  /** One pluggable access control handler, reduced to its four capabilities.
      E is the reply entity, Op the operation name, A the account, C the create
      context together with the bundle, F the field definition together with the
      field items. */
  datatype Handler<!E, !Op, !A, !C, !F> = Handler(
    applies: (E, Op, A) -> bool,
    checkAccess: (E, Op, A) -> Decision,
    checkCreateAccess: (A, C) -> Decision,
    checkFieldAccess: (Op, F, A) -> Decision)

  /** Some handler that applies to (e, op, a) answers `d` at item level. */
  ghost predicate SomeApplicableAnswers<E, Op, A, C, F>(
    hs: seq<Handler<E, Op, A, C, F>>, e: E, op: Op, a: A, d: Decision)
  {
    exists i :: 0 <= i < |hs| && hs[i].applies(e, op, a) && hs[i].checkAccess(e, op, a) == d
  }

  /** The item-level answers of the handlers that apply, in registration order. */
  function ApplicableResults<E, Op, A, C, F>(
    hs: seq<Handler<E, Op, A, C, F>>, e: E, op: Op, a: A): (rs: seq<Decision>)
    ensures |rs| <= |hs|
    ensures forall d :: d in rs <==> SomeApplicableAnswers(hs, e, op, a, d)
    decreases |hs|
  {
    if |hs| == 0 then []
    else
      var rest := ApplicableResults(hs[1..], e, op, a);
      assert forall d :: SomeApplicableAnswers(hs, e, op, a, d) <==>
        (hs[0].applies(e, op, a) && hs[0].checkAccess(e, op, a) == d) || SomeApplicableAnswers(hs[1..], e, op, a, d) by {
        forall d ensures SomeApplicableAnswers(hs, e, op, a, d) ==>
          (hs[0].applies(e, op, a) && hs[0].checkAccess(e, op, a) == d) || SomeApplicableAnswers(hs[1..], e, op, a, d) {
          if SomeApplicableAnswers(hs, e, op, a, d) {
            var i :| 0 <= i < |hs| && hs[i].applies(e, op, a) && hs[i].checkAccess(e, op, a) == d;
            if i > 0 {
              assert hs[1..][i - 1] == hs[i];
            }
          }
        }
        forall d | SomeApplicableAnswers(hs[1..], e, op, a, d) ensures SomeApplicableAnswers(hs, e, op, a, d) {
          var i :| 0 <= i < |hs[1..]| && hs[1..][i].applies(e, op, a) && hs[1..][i].checkAccess(e, op, a) == d;
          assert hs[i + 1] == hs[1..][i];
        }
      }
      if hs[0].applies(e, op, a) then [hs[0].checkAccess(e, op, a)] + rest else rest
  }

  /** `checkAccess`: skip every handler whose `applies` is false and fold the
      answers of the others. Deny from any applicable handler wins; otherwise Allow
      from any applicable handler; Neutral only when no applicable handler has an
      opinion (in particular when none applies). */
  function CheckAccess<E, Op, A, C, F>(hs: seq<Handler<E, Op, A, C, F>>, e: E, op: Op, a: A): (r: Decision)
    ensures r == Deny <==> SomeApplicableAnswers(hs, e, op, a, Deny)
    ensures r == Allow <==> !SomeApplicableAnswers(hs, e, op, a, Deny) && SomeApplicableAnswers(hs, e, op, a, Allow)
    ensures r == Neutral <==> forall i | 0 <= i < |hs| && hs[i].applies(e, op, a) :: hs[i].checkAccess(e, op, a) == Neutral
  {
    FoldOrIf(Neutral, ApplicableResults(hs, e, op, a))
  }

  /** The create-level answers of all handlers, in registration order. */
  function CreateResults<E, Op, A, C, F>(hs: seq<Handler<E, Op, A, C, F>>, a: A, c: C): (rs: seq<Decision>)
    ensures |rs| == |hs|
    ensures forall i | 0 <= i < |hs| :: rs[i] == hs[i].checkCreateAccess(a, c)
  {
    seq(|hs|, i requires 0 <= i < |hs| => hs[i].checkCreateAccess(a, c))
  }

  /** `checkCreateAccess`: every handler is consulted; `applies` plays no part. */
  function CheckCreateAccess<E, Op, A, C, F>(hs: seq<Handler<E, Op, A, C, F>>, a: A, c: C): (r: Decision)
    ensures r == Deny <==> exists i :: 0 <= i < |hs| && hs[i].checkCreateAccess(a, c) == Deny
    ensures r == Allow <==>
      (forall i | 0 <= i < |hs| :: hs[i].checkCreateAccess(a, c) != Deny) &&
      (exists i :: 0 <= i < |hs| && hs[i].checkCreateAccess(a, c) == Allow)
    ensures r == Neutral <==> forall i | 0 <= i < |hs| :: hs[i].checkCreateAccess(a, c) == Neutral
  {
    var rs := CreateResults(hs, a, c);
    assert forall d :: d in rs <==> exists i :: 0 <= i < |hs| && hs[i].checkCreateAccess(a, c) == d by {
      forall d | d in rs ensures exists i :: 0 <= i < |hs| && hs[i].checkCreateAccess(a, c) == d {
        var i :| 0 <= i < |rs| && rs[i] == d;
        assert hs[i].checkCreateAccess(a, c) == d;
      }
    }
    FoldOrIf(Neutral, rs)
  }

  /** The field-level answers of all handlers, in registration order. */
  function FieldResults<E, Op, A, C, F>(hs: seq<Handler<E, Op, A, C, F>>, op: Op, f: F, a: A): (rs: seq<Decision>)
    ensures |rs| == |hs|
    ensures forall i | 0 <= i < |hs| :: rs[i] == hs[i].checkFieldAccess(op, f, a)
  {
    seq(|hs|, i requires 0 <= i < |hs| => hs[i].checkFieldAccess(op, f, a))
  }

  /** `checkFieldAccess`: every handler is consulted; `applies` plays no part. */
  function CheckFieldAccess<E, Op, A, C, F>(hs: seq<Handler<E, Op, A, C, F>>, op: Op, f: F, a: A): (r: Decision)
    ensures r == Deny <==> exists i :: 0 <= i < |hs| && hs[i].checkFieldAccess(op, f, a) == Deny
    ensures r == Allow <==>
      (forall i | 0 <= i < |hs| :: hs[i].checkFieldAccess(op, f, a) != Deny) &&
      (exists i :: 0 <= i < |hs| && hs[i].checkFieldAccess(op, f, a) == Allow)
    ensures r == Neutral <==> forall i | 0 <= i < |hs| :: hs[i].checkFieldAccess(op, f, a) == Neutral
  {
    var rs := FieldResults(hs, op, f, a);
    assert forall d :: d in rs <==> exists i :: 0 <= i < |hs| && hs[i].checkFieldAccess(op, f, a) == d by {
      forall d | d in rs ensures exists i :: 0 <= i < |hs| && hs[i].checkFieldAccess(op, f, a) == d {
        var i :| 0 <= i < |rs| && rs[i] == d;
        assert hs[i].checkFieldAccess(op, f, a) == d;
      }
    }
    FoldOrIf(Neutral, rs)
  }
}

module ForumReplyAccessProperties {
  import opened AccessResult
  import opened ForumReplyAccess

  /** The handler list `hs` visited in the order of the index list `p`; an index
      may be repeated, so this covers every reordering of the registration. */
  function Reorder<E, Op, A, C, F>(hs: seq<Handler<E, Op, A, C, F>>, p: seq<nat>): (gs: seq<Handler<E, Op, A, C, F>>)
    requires forall i | 0 <= i < |p| :: p[i] < |hs|
    ensures |gs| == |p|
    ensures forall i | 0 <= i < |p| :: gs[i] == hs[p[i]]
  {
    seq(|p|, i requires 0 <= i < |p| => hs[p[i]])
  }

  /** With no handler that applies (an empty list included), `checkAccess` is Neutral. */
  lemma CheckAccessNoneApplies<E, Op, A, C, F>(hs: seq<Handler<E, Op, A, C, F>>, e: E, op: Op, a: A)
    requires forall i | 0 <= i < |hs| :: !hs[i].applies(e, op, a)
    ensures CheckAccess(hs, e, op, a) == Neutral
  {}

  lemma {:induction false} ApplicableResultsAppend<E, Op, A, C, F>(
    xs: seq<Handler<E, Op, A, C, F>>, ys: seq<Handler<E, Op, A, C, F>>, e: E, op: Op, a: A)
    ensures ApplicableResults(xs + ys, e, op, a) == ApplicableResults(xs, e, op, a) + ApplicableResults(ys, e, op, a)
    decreases |xs|
  {
    if |xs| == 0 {
      assert xs + ys == ys;
    } else {
      assert (xs + ys)[0] == xs[0];
      assert (xs + ys)[1..] == xs[1..] + ys;
      ApplicableResultsAppend(xs[1..], ys, e, op, a);
    }
  }

  /** Removing a handler whose `applies` is false changes nothing: the applicable
      answers, and so the item-level result, stay the same. */
  lemma SkippedHandlerIsIrrelevant<E, Op, A, C, F>(hs: seq<Handler<E, Op, A, C, F>>, k: nat, e: E, op: Op, a: A)
    requires k < |hs| && !hs[k].applies(e, op, a)
    ensures ApplicableResults(hs[..k] + hs[k + 1..], e, op, a) == ApplicableResults(hs, e, op, a)
    ensures CheckAccess(hs[..k] + hs[k + 1..], e, op, a) == CheckAccess(hs, e, op, a)
  {
    assert hs == hs[..k] + ([hs[k]] + hs[k + 1..]);
    ApplicableResultsAppend(hs[..k], [hs[k]] + hs[k + 1..], e, op, a);
    ApplicableResultsAppend([hs[k]], hs[k + 1..], e, op, a);
    ApplicableResultsAppend(hs[..k], hs[k + 1..], e, op, a);
    assert ApplicableResults([hs[k]], e, op, a) == [];
  }

  /** A handler put in front of the list is combined first in the create check. */
  lemma CheckCreateAccessCons<E, Op, A, C, F>(h: Handler<E, Op, A, C, F>, hs: seq<Handler<E, Op, A, C, F>>, a: A, c: C)
    ensures CheckCreateAccess([h] + hs, a, c) == OrIf(h.checkCreateAccess(a, c), CheckCreateAccess(hs, a, c))
  {
    var rs := CreateResults(hs, a, c);
    assert CreateResults([h] + hs, a, c) == [h.checkCreateAccess(a, c)] + rs;
    assert ([h.checkCreateAccess(a, c)] + rs)[1..] == rs;
    FoldOrIfStart(h.checkCreateAccess(a, c), rs);
  }

  /** A handler put in front of the list is combined first in the field check. */
  lemma CheckFieldAccessCons<E, Op, A, C, F>(h: Handler<E, Op, A, C, F>, hs: seq<Handler<E, Op, A, C, F>>, op: Op, f: F, a: A)
    ensures CheckFieldAccess([h] + hs, op, f, a) == OrIf(h.checkFieldAccess(op, f, a), CheckFieldAccess(hs, op, f, a))
  {
    var rs := FieldResults(hs, op, f, a);
    assert FieldResults([h] + hs, op, f, a) == [h.checkFieldAccess(op, f, a)] + rs;
    assert ([h.checkFieldAccess(op, f, a)] + rs)[1..] == rs;
    FoldOrIfStart(h.checkFieldAccess(op, f, a), rs);
  }

  /** A handler that does not apply at item level is still consulted by the
      create and field checks, where its answer is combined like any other. */
  lemma CreateAndFieldIgnoreApplies<E, Op, A, C, F>(
    h: Handler<E, Op, A, C, F>, hs: seq<Handler<E, Op, A, C, F>>, e: E, op: Op, a: A, c: C, f: F)
    requires !h.applies(e, op, a)
    ensures CheckAccess([h] + hs, e, op, a) == CheckAccess(hs, e, op, a)
    ensures CheckCreateAccess([h] + hs, a, c) == OrIf(h.checkCreateAccess(a, c), CheckCreateAccess(hs, a, c))
    ensures CheckFieldAccess([h] + hs, op, f, a) == OrIf(h.checkFieldAccess(op, f, a), CheckFieldAccess(hs, op, f, a))
  {
    SkippedHandlerIsIrrelevant([h] + hs, 0, e, op, a);
    assert ([h] + hs)[..0] + ([h] + hs)[1..] == hs;
    CheckCreateAccessCons(h, hs, a, c);
    CheckFieldAccessCons(h, hs, op, f, a);
  }

  /** Each handler of `hs` occurs in the reordered list. */
  lemma ReorderCovers<E, Op, A, C, F>(hs: seq<Handler<E, Op, A, C, F>>, p: seq<nat>, j: nat)
    requires forall i | 0 <= i < |p| :: p[i] < |hs|
    requires forall j | 0 <= j < |hs| :: j in p
    requires j < |hs|
    ensures exists i :: 0 <= i < |p| && Reorder(hs, p)[i] == hs[j]
  {
    assert j in p;
    var i :| 0 <= i < |p| && p[i] == j;
    assert Reorder(hs, p)[i] == hs[j];
  }

  lemma ReorderCheckAccess<E, Op, A, C, F>(hs: seq<Handler<E, Op, A, C, F>>, p: seq<nat>, e: E, op: Op, a: A)
    requires forall i | 0 <= i < |p| :: p[i] < |hs|
    requires forall j | 0 <= j < |hs| :: j in p
    ensures CheckAccess(Reorder(hs, p), e, op, a) == CheckAccess(hs, e, op, a)
  {
    var gs := Reorder(hs, p);
    forall d | SomeApplicableAnswers(hs, e, op, a, d) ensures SomeApplicableAnswers(gs, e, op, a, d) {
      var j :| 0 <= j < |hs| && hs[j].applies(e, op, a) && hs[j].checkAccess(e, op, a) == d;
      ReorderCovers(hs, p, j);
    }
    assert SomeApplicableAnswers(gs, e, op, a, Deny) <==> SomeApplicableAnswers(hs, e, op, a, Deny);
    assert SomeApplicableAnswers(gs, e, op, a, Allow) <==> SomeApplicableAnswers(hs, e, op, a, Allow);
  }

  lemma ReorderCheckCreateAccess<E, Op, A, C, F>(hs: seq<Handler<E, Op, A, C, F>>, p: seq<nat>, a: A, c: C)
    requires forall i | 0 <= i < |p| :: p[i] < |hs|
    requires forall j | 0 <= j < |hs| :: j in p
    ensures CheckCreateAccess(Reorder(hs, p), a, c) == CheckCreateAccess(hs, a, c)
  {
    var gs := Reorder(hs, p);
    var xs, ys := CreateResults(gs, a, c), CreateResults(hs, a, c);
    forall d | d in ys ensures d in xs {
      var j :| 0 <= j < |ys| && ys[j] == d;
      ReorderCovers(hs, p, j);
      var i :| 0 <= i < |p| && gs[i] == hs[j];
      assert xs[i] == d;
    }
    FoldOrIfSameElements(Neutral, xs, ys);
  }

  lemma ReorderCheckFieldAccess<E, Op, A, C, F>(hs: seq<Handler<E, Op, A, C, F>>, p: seq<nat>, op: Op, f: F, a: A)
    requires forall i | 0 <= i < |p| :: p[i] < |hs|
    requires forall j | 0 <= j < |hs| :: j in p
    ensures CheckFieldAccess(Reorder(hs, p), op, f, a) == CheckFieldAccess(hs, op, f, a)
  {
    var gs := Reorder(hs, p);
    var xs, ys := FieldResults(gs, op, f, a), FieldResults(hs, op, f, a);
    forall d | d in ys ensures d in xs {
      var j :| 0 <= j < |ys| && ys[j] == d;
      ReorderCovers(hs, p, j);
      var i :| 0 <= i < |p| && gs[i] == hs[j];
      assert xs[i] == d;
    }
    FoldOrIfSameElements(Neutral, xs, ys);
  }
}
