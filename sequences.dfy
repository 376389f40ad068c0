/**
 * Generic facts about scanning a sequence from the front: the first element
 * that satisfies a test, and the concatenation of what each element
 * contributes. The element tests stay abstract here, so these proofs never
 * look inside them.
 */
module Sequences {
  import opened Wrappers

  /** The index of the first element of `xs` that satisfies `p`, if any. */
  function FirstWhere<T>(xs: seq<T>, p: T -> bool): (r: Option<nat>)
    ensures r.Some? ==> r.value < |xs| && p(xs[r.value])
                        && forall j :: 0 <= j < r.value ==> !p(xs[j])
    ensures r.None? ==> forall j :: 0 <= j < |xs| ==> !p(xs[j])
  {
    if xs == [] then None
    else if p(xs[0]) then Some(0)
    else match FirstWhere(xs[1..], p)
      case None => None
      case Some(i) => Some(i + 1)
  }

  /** The element before which nothing satisfies `p` is the first one that does. */
  lemma FirstWhereAt<T>(xs: seq<T>, p: T -> bool, i: nat)
    requires i < |xs| && p(xs[i])
    requires forall j :: 0 <= j < i ==> !p(xs[j])
    ensures FirstWhere(xs, p) == Some(i)
  {
  }

  /** When nothing satisfies `p` there is no first one. */
  lemma FirstWhereNone<T>(xs: seq<T>, p: T -> bool)
    requires forall j :: 0 <= j < |xs| ==> !p(xs[j])
    ensures FirstWhere(xs, p).None?
  {
  }

  /** Scanning one element further from a prefix in which nothing satisfies `p`. */
  lemma FirstWhereExtend<T>(xs: seq<T>, p: T -> bool, i: nat)
    requires i < |xs| && FirstWhere(xs[..i], p).None?
    ensures p(xs[i]) ==> FirstWhere(xs, p) == Some(i)
    ensures !p(xs[i]) ==> FirstWhere(xs[..i + 1], p).None?
  {
    assert forall j :: 0 <= j < i ==> xs[..i][j] == xs[j];
    if p(xs[i]) {
      FirstWhereAt(xs, p, i);
    } else {
      var ys := xs[..i + 1];
      forall j | 0 <= j < |ys| ensures !p(ys[j]) {
        if j < i {
          assert ys[j] == xs[..i][j];
        } else {
          assert ys[j] == xs[i];
        }
      }
      FirstWhereNone(ys, p);
    }
  }

  /** The contributions `f(x)` of the elements of `xs`, concatenated in order. */
  function Gather<T, U>(xs: seq<T>, f: T -> seq<U>): seq<U>
  {
    if xs == [] then [] else Gather(xs[..|xs| - 1], f) + f(xs[|xs| - 1])
  }

  lemma GatherStep<T, U>(xs: seq<T>, f: T -> seq<U>, i: nat)
    requires i < |xs|
    ensures Gather(xs[..i + 1], f) == Gather(xs[..i], f) + f(xs[i])
  {
    assert xs[..i + 1][..i] == xs[..i];
  }

  /** Gathering a concatenation gathers each part, one after the other. */
  lemma {:induction false} GatherAppend<T, U>(xs: seq<T>, ys: seq<T>, f: T -> seq<U>)
    ensures Gather(xs + ys, f) == Gather(xs, f) + Gather(ys, f)
    decreases |ys|
  {
    if ys == [] {
      assert xs + ys == xs;
    } else {
      var init := ys[..|ys| - 1];
      assert (xs + ys)[..|xs + ys| - 1] == xs + init;
      GatherAppend(xs, init, f);
    }
  }

  /** Every gathered element comes from the contribution of some element. */
  lemma {:induction false} GatherFrom<T, U>(xs: seq<T>, f: T -> seq<U>, k: nat)
    requires k < |Gather(xs, f)|
    ensures exists i :: 0 <= i < |xs| && Gather(xs, f)[k] in f(xs[i])
    decreases |xs|
  {
    var init := xs[..|xs| - 1];
    var last := xs[|xs| - 1];
    if k < |Gather(init, f)| {
      GatherFrom(init, f, k);
      var i :| 0 <= i < |init| && Gather(init, f)[k] in f(init[i]);
      assert init[i] == xs[i];
    } else {
      assert Gather(xs, f)[k] in f(last);
    }
  }
}
