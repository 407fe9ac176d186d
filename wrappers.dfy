/** The usual optional-value datatype, shared by every module of the model. */
module Wrappers {
  datatype Option<+T> = None | Some(value: T)

  /** The present results of `f` over `xs`, in order: a loop that skips the items `f` rejects. */
  function Keep<A, B>(xs: seq<A>, f: A -> Option<B>): (r: seq<B>)
    ensures |r| <= |xs|
  {
    if xs == [] then []
    else
      match f(xs[0])
      case Some(b) => [b] + Keep(xs[1..], f)
      case None => Keep(xs[1..], f)
  }

  /** Keeping over one more item appends that item's result, if any. */
  lemma {:induction false} KeepSnoc<A, B>(xs: seq<A>, x: A, f: A -> Option<B>)
    ensures Keep(xs + [x], f) == Keep(xs, f) + match f(x) case Some(b) => [b] case None => []
  {
    if xs != [] {
      assert (xs + [x])[1..] == xs[1..] + [x];
      KeepSnoc(xs[1..], x, f);
    }
  }

  /** Keeping over a list that starts with `x`: the result for `x`, if any, then the rest. */
  lemma KeepHead<A, B>(x: A, xs: seq<A>, f: A -> Option<B>)
    ensures Keep([x] + xs, f) == (match f(x) case Some(b) => [b] case None => []) + Keep(xs, f)
  {
    assert ([x] + xs)[1..] == xs;
  }

  /** Keeping over a list that starts with an item whose result is present. */
  lemma KeepCons<A, B>(x: A, xs: seq<A>, f: A -> Option<B>)
    requires f(x).Some?
    ensures Keep([x] + xs, f) == [f(x).value] + Keep(xs, f)
  {
    assert ([x] + xs)[1..] == xs;
  }

  /** Every kept result satisfies what every present result of `f` satisfies. */
  lemma {:induction false} KeepAll<A, B>(xs: seq<A>, f: A -> Option<B>, p: B -> bool)
    requires forall x | f(x).Some? :: p(f(x).value)
    ensures forall i | 0 <= i < |Keep(xs, f)| :: p(Keep(xs, f)[i])
  {
    if xs != [] {
      KeepAll(xs[1..], f, p);
    }
  }

  /** Keeping over the first `i + 1` items: the first `i`, then item `i` if its result is present. */
  lemma KeepStep<A, B>(xs: seq<A>, i: nat, f: A -> Option<B>)
    requires i < |xs|
    ensures f(xs[i]).Some? ==> Keep(xs[..i + 1], f) == Keep(xs[..i], f) + [f(xs[i]).value]
    ensures f(xs[i]).None? ==> Keep(xs[..i + 1], f) == Keep(xs[..i], f)
  {
    assert xs[..i + 1] == xs[..i] + [xs[i]];
    KeepSnoc(xs[..i], xs[i], f);
  }
}
