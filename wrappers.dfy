/** Option and Result values standing for Rust's `Option` and `Result`. */
module Wrappers {

  datatype Option<+T> = None | Some(value: T) {
    /** Rust's `unwrap_or_default` / `unwrap_or`. */
    function GetOr(default: T): T {
      match this
      case Some(v) => v
      case None => default
    }
  }

  /** A fallible value; the error carries the message of the program's `eyre!`/`bail!`. */
  datatype Result<+T> = Ok(value: T) | Err(error: string)

  /**
   * What a call of the program can end in: a value, an error returned to the
   * caller, or a panic (`unwrap` of nothing, `unreachable!`), which ends the
   * program instead of returning.
   */
  datatype Outcome<+T> = Done(value: T) | Failed(error: string) | Panicked(reason: string)

  /** `acc` in front of the list an outcome carries; errors and panics pass through. */
  function Prepend<T>(acc: seq<T>, o: Outcome<seq<T>>): (r: Outcome<seq<T>>)
    ensures r.Done? <==> o.Done?
    ensures r.Done? ==> |r.value| == |acc| + |o.value| && r.value[..|acc|] == acc && r.value[|acc|..] == o.value
    ensures !r.Done? ==> r == o
  {
    match o
    case Done(v) => Done(acc + v)
    case Failed(e) => Failed(e)
    case Panicked(m) => Panicked(m)
  }

  /** The lists of two steps run one after the other; the first one to fail or panic decides. */
  function Then<T>(first: Outcome<seq<T>>, rest: Outcome<seq<T>>): (r: Outcome<seq<T>>)
    ensures first.Done? ==> r == Prepend(first.value, rest)
    ensures first.Failed? ==> r == Failed(first.error)
    ensures first.Panicked? ==> r == Panicked(first.reason)
  {
    match first
    case Done(v) => Prepend(v, rest)
    case Failed(e) => Failed(e)
    case Panicked(m) => Panicked(m)
  }

  lemma PrependThen<T>(acc: seq<T>, first: Outcome<seq<T>>, rest: Outcome<seq<T>>)
    ensures Prepend(acc, Then(first, rest)) == Then(Prepend(acc, first), rest)
  {
    if first.Done? && rest.Done? {
      assert acc + (first.value + rest.value) == (acc + first.value) + rest.value;
    }
  }

  lemma PrependPrepend<T>(a: seq<T>, b: seq<T>, o: Outcome<seq<T>>)
    ensures Prepend(a, Prepend(b, o)) == Prepend(a + b, o)
  {
    if o.Done? {
      assert a + (b + o.value) == (a + b) + o.value;
    }
  }

  lemma ThenAssoc<T>(a: Outcome<seq<T>>, b: Outcome<seq<T>>, c: Outcome<seq<T>>)
    ensures Then(a, Then(b, c)) == Then(Then(a, b), c)
  {
    if a.Done? {
      PrependThen(a.value, b, c);
    }
  }

  /** Each `ys[i]` is what `f` makes of `xs[i]`, without error or panic. */
  ghost predicate MadeBy<A, B>(xs: seq<A>, ys: seq<B>, f: A -> Outcome<B>)
    decreases |xs|
  {
    && |xs| == |ys|
    && (xs != [] ==> f(xs[0]) == Done(ys[0]) && MadeBy(xs[1..], ys[1..], f))
  }

  lemma {:induction false} MadeByAt<A, B>(xs: seq<A>, ys: seq<B>, f: A -> Outcome<B>, i: nat)
    requires MadeBy(xs, ys, f) && i < |xs|
    ensures |ys| == |xs| && f(xs[i]) == Done(ys[i])
    decreases i
  {
    if i > 0 {
      MadeByAt(xs[1..], ys[1..], f, i - 1);
    }
  }

  lemma MadeBySingle<A, B>(x: A, y: B, f: A -> Outcome<B>)
    requires f(x) == Done(y)
    ensures MadeBy([x], [y], f)
  {
    assert [x][1..] == [];
  }

  lemma {:induction false} MadeByAppend<A, B>(xs1: seq<A>, ys1: seq<B>, xs2: seq<A>, ys2: seq<B>, f: A -> Outcome<B>)
    requires MadeBy(xs1, ys1, f) && MadeBy(xs2, ys2, f)
    ensures MadeBy(xs1 + xs2, ys1 + ys2, f)
    decreases |xs1|
  {
    if xs1 == [] {
      assert xs1 + xs2 == xs2 && ys1 + ys2 == ys2;
    } else {
      MadeByAppend(xs1[1..], ys1[1..], xs2, ys2, f);
      assert (xs1 + xs2)[1..] == xs1[1..] + xs2;
      assert (ys1 + ys2)[1..] == ys1[1..] + ys2;
    }
  }
}
