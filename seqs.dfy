/** The list shape shared by the collectors: each element of a list
    contributes a (possibly empty) run of outputs, in order.  This is what
    a `forEach` that conditionally pushes, or a `.map(...).filter(...)`
    chain, computes. */
module Seqs {

  function ConcatMap<A, B>(xs: seq<A>, f: A -> seq<B>): seq<B> {
    if xs == [] then [] else ConcatMap(xs[..|xs| - 1], f) + f(xs[|xs| - 1])
  }

  /** The outputs of a concatenation are the outputs of its parts. */
  lemma {:induction false} ConcatMapAppend<A, B>(xs: seq<A>, ys: seq<A>, f: A -> seq<B>)
    ensures ConcatMap(xs + ys, f) == ConcatMap(xs, f) + ConcatMap(ys, f)
  {
    if ys == [] {
      assert xs + ys == xs;
    } else {
      var ys' := ys[..|ys| - 1];
      assert (xs + ys)[..|xs + ys| - 1] == xs + ys';
      ConcatMapAppend(xs, ys', f);
    }
  }

  lemma ConcatMapSingle<A, B>(x: A, f: A -> seq<B>)
    ensures ConcatMap([x], f) == f(x)
  {
    assert [x][..0] == [];
  }

  /** An output is in the result exactly when some input produces it. */
  lemma {:induction false} ConcatMapMembership<A, B>(xs: seq<A>, f: A -> seq<B>, y: B)
    ensures y in ConcatMap(xs, f) <==> exists i :: 0 <= i < |xs| && y in f(xs[i])
  {
    if xs != [] {
      var n := |xs| - 1;
      ConcatMapMembership(xs[..n], f, y);
      assert forall i :: 0 <= i < n ==> xs[..n][i] == xs[i];
    }
  }

  /** When every input yields at most one output, there are at most as many
      outputs as inputs; when none yields any, there are none. */
  lemma {:induction false} ConcatMapLength<A, B>(xs: seq<A>, f: A -> seq<B>)
    requires forall i :: 0 <= i < |xs| ==> |f(xs[i])| <= 1
    ensures |ConcatMap(xs, f)| <= |xs|
    ensures |ConcatMap(xs, f)| == 0 <==> forall i :: 0 <= i < |xs| ==> f(xs[i]) == []
  {
    if xs != [] {
      var n := |xs| - 1;
      assert forall i :: 0 <= i < n ==> xs[..n][i] == xs[i];
      ConcatMapLength(xs[..n], f);
    }
  }

  /** Inputs that yield nothing can be removed without changing the result. */
  lemma ConcatMapSkip<A, B>(xs: seq<A>, x: A, ys: seq<A>, f: A -> seq<B>)
    requires f(x) == []
    ensures ConcatMap(xs + [x] + ys, f) == ConcatMap(xs + ys, f)
  {
    ConcatMapAppend(xs + [x], ys, f);
    ConcatMapAppend(xs, [x], f);
    ConcatMapAppend(xs, ys, f);
    ConcatMapSingle(x, f);
  }

  /** Pointwise equal functions give the same outputs. */
  lemma {:induction false} ConcatMapCongruent<A, B>(xs: seq<A>, f: A -> seq<B>, g: A -> seq<B>)
    requires forall i :: 0 <= i < |xs| ==> f(xs[i]) == g(xs[i])
    ensures ConcatMap(xs, f) == ConcatMap(xs, g)
  {
    if xs != [] {
      var n := |xs| - 1;
      assert forall i :: 0 <= i < n ==> xs[..n][i] == xs[i];
      ConcatMapCongruent(xs[..n], f, g);
    }
  }

  /** m occurs in s starting at position i. */
  predicate OccursAt<T(==)>(s: seq<T>, i: nat, m: seq<T>) {
    i + |m| <= |s| && s[i..i + |m|] == m
  }

  /** One more input processed by a loop that appends each input's outputs
      to a buffer started with `prefix`. */
  lemma ConcatMapExtend<A, B>(prefix: seq<B>, xs: seq<A>, i: nat, f: A -> seq<B>)
    requires i < |xs|
    ensures prefix + ConcatMap(xs[..i + 1], f) == prefix + ConcatMap(xs[..i], f) + f(xs[i])
  {
    assert xs[..i + 1][..i] == xs[..i];
  }

  /** The loop's last step: the whole input has been processed. */
  lemma ConcatMapAll<A, B>(xs: seq<A>, f: A -> seq<B>)
    ensures ConcatMap(xs[..|xs|], f) == ConcatMap(xs, f)
  {
    assert xs[..|xs|] == xs;
  }

  /** No inputs, inside a fixed opening and closing. */
  lemma ConcatMapEmptyWithin<A, B>(head: seq<B>, tail: seq<B>, f: A -> seq<B>)
    ensures head + ConcatMap([], f) + tail == head + tail
  {
    assert head + [] == head;
  }

  lemma OccursAtEnd<T>(a: seq<T>, m: seq<T>)
    ensures OccursAt(a + m, |a|, m)
  {
    assert (a + m)[|a|..|a| + |m|] == m;
  }

  /** What occurs in a sequence still occurs, at the same place, once more
      is appended. */
  lemma OccursAtExtend<T>(s: seq<T>, i: nat, m: seq<T>, z: seq<T>)
    requires OccursAt(s, i, m)
    ensures OccursAt(s + z, i, m)
  {
    assert (s + z)[i..i + |m|] == s[i..i + |m|];
  }

  /** One more input, inside a fixed opening and closing. */
  lemma ConcatMapSnocWithin<A, B>(head: seq<B>, xs: seq<A>, x: A, tail: seq<B>, f: A -> seq<B>)
    ensures head + ConcatMap(xs + [x], f) + tail == head + ConcatMap(xs, f) + f(x) + tail
  {
    assert (xs + [x])[..|xs|] == xs;
  }

  /** A concatenation begins with its first part and ends with its last. */
  lemma FramedBy<T>(a: seq<T>, x: seq<T>, y: seq<T>, b: seq<T>)
    ensures var s := a + x + y + b;
      |s| >= |a| + |b| && s[..|a|] == a && s[|s| - |b|..] == b
  {
  }

  lemma ConcatMapSnoc<A, B>(xs: seq<A>, x: A, f: A -> seq<B>)
    ensures ConcatMap(xs + [x], f) == ConcatMap(xs, f) + f(x)
  {
    assert (xs + [x])[..|xs|] == xs;
  }

  /** The outputs of seven inputs. */
  lemma ConcatMapSeven<A, B>(x1: A, x2: A, x3: A, x4: A, x5: A, x6: A, x7: A, f: A -> seq<B>)
    ensures ConcatMap([x1, x2, x3, x4, x5, x6, x7], f) ==
      f(x1) + f(x2) + f(x3) + f(x4) + f(x5) + f(x6) + f(x7)
  {
    ConcatMapSingle(x1, f);
    ConcatMapSnoc([x1], x2, f);
    assert [x1] + [x2] == [x1, x2];
    ConcatMapSnoc([x1, x2], x3, f);
    assert [x1, x2] + [x3] == [x1, x2, x3];
    ConcatMapSnoc([x1, x2, x3], x4, f);
    assert [x1, x2, x3] + [x4] == [x1, x2, x3, x4];
    ConcatMapSnoc([x1, x2, x3, x4], x5, f);
    assert [x1, x2, x3, x4] + [x5] == [x1, x2, x3, x4, x5];
    ConcatMapSnoc([x1, x2, x3, x4, x5], x6, f);
    assert [x1, x2, x3, x4, x5] + [x6] == [x1, x2, x3, x4, x5, x6];
    ConcatMapSnoc([x1, x2, x3, x4, x5, x6], x7, f);
    assert [x1, x2, x3, x4, x5, x6] + [x7] == [x1, x2, x3, x4, x5, x6, x7];
  }
}
