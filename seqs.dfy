/** Generic sequence operations the data-frame operations are built from. */
module Seqs {

  /** The elements of `xs` that satisfy `p`, in their original order (a boolean mask). */
  function Filter<T>(xs: seq<T>, p: T -> bool): (r: seq<T>)
    ensures |r| <= |xs|
    ensures forall i :: 0 <= i < |r| ==> p(r[i])
  {
    if xs == [] then [] else (if p(xs[0]) then [xs[0]] else []) + Filter(xs[1..], p)
  }

  lemma {:induction false} FilterAppend<T>(xs: seq<T>, ys: seq<T>, p: T -> bool)
    ensures Filter(xs + ys, p) == Filter(xs, p) + Filter(ys, p)
  {
    if xs != [] {
      assert (xs + ys)[0] == xs[0];
      assert (xs + ys)[1..] == xs[1..] + ys;
      FilterAppend(xs[1..], ys, p);
      calc {
        Filter(xs + ys, p);
        (if p(xs[0]) then [xs[0]] else []) + Filter(xs[1..] + ys, p);
        (if p(xs[0]) then [xs[0]] else []) + (Filter(xs[1..], p) + Filter(ys, p));
        ((if p(xs[0]) then [xs[0]] else []) + Filter(xs[1..], p)) + Filter(ys, p);
      }
    } else {
      assert xs + ys == ys;
    }
  }

  /** An element survives the mask exactly when it was there and satisfies `p`. */
  lemma {:induction false} FilterMembership<T>(xs: seq<T>, p: T -> bool, x: T)
    ensures x in Filter(xs, p) <==> x in xs && p(x)
  {
    if xs != [] {
      FilterMembership(xs[1..], p, x);
      assert xs == [xs[0]] + xs[1..];
    }
  }

  /** Masking splits a sequence into the kept and the removed elements, losing none. */
  lemma {:induction false} FilterPartition<T>(xs: seq<T>, p: T -> bool)
    ensures multiset(Filter(xs, p)) + multiset(Filter(xs, Not(p))) == multiset(xs)
  {
    if xs != [] {
      var x, rest := xs[0], xs[1..];
      var kept, dropped := Filter(rest, p), Filter(rest, Not(p));
      FilterPartition(rest, p);
      assert multiset(xs) == multiset([x]) + multiset(rest) by {
        assert xs == [x] + rest;
      }
      if p(x) {
        assert Filter(xs, p) == [x] + kept;
        assert !Not(p)(x);
        assert Filter(xs, Not(p)) == dropped;
        assert multiset([x] + kept) == multiset([x]) + multiset(kept);
      } else {
        assert Not(p)(x);
        assert Filter(xs, p) == kept;
        assert Filter(xs, Not(p)) == [x] + dropped;
        assert multiset([x] + dropped) == multiset([x]) + multiset(dropped);
      }
    }
  }

  /** The complement of a mask. */
  function Not<T>(p: T -> bool): T -> bool
  {
    x => !p(x)
  }

  lemma FilterSubMultiset<T>(xs: seq<T>, p: T -> bool)
    ensures multiset(Filter(xs, p)) <= multiset(xs)
  {
    FilterPartition(xs, p);
  }

  /** A mask that keeps everything is the identity. */
  lemma {:induction false} FilterKeepsAll<T>(xs: seq<T>, p: T -> bool)
    requires forall i :: 0 <= i < |xs| ==> p(xs[i])
    ensures Filter(xs, p) == xs
  {
    if xs != [] {
      FilterKeepsAll(xs[1..], p);
    }
  }

  /** Masking with a stronger predicate keeps a subsequence of what the weaker one keeps. */
  lemma {:induction false} FilterRefines<T>(xs: seq<T>, p: T -> bool, q: T -> bool)
    requires forall i :: 0 <= i < |xs| ==> p(xs[i]) ==> q(xs[i])
    ensures Filter(xs, p) == Filter(Filter(xs, q), p)
  {
    if xs != [] {
      FilterRefines(xs[1..], p, q);
      if q(xs[0]) {
        var fq := Filter(xs, q);
        assert fq == [xs[0]] + Filter(xs[1..], q);
        assert fq[0] == xs[0] && fq[1..] == Filter(xs[1..], q);
        assert Filter(fq, p) == (if p(xs[0]) then [xs[0]] else []) + Filter(fq[1..], p);
      } else {
        assert !p(xs[0]);
        assert Filter(xs, q) == Filter(xs[1..], q);
      }
    }
  }

  /** Masks that agree on every element give the same result. */
  lemma {:induction false} FilterExtensional<T>(xs: seq<T>, p: T -> bool, q: T -> bool)
    requires forall i :: 0 <= i < |xs| ==> p(xs[i]) == q(xs[i])
    ensures Filter(xs, p) == Filter(xs, q)
  {
    if xs != [] {
      FilterExtensional(xs[1..], p, q);
    }
  }

  /** Concatenation of a sequence of sequences, in order. */
  function Flatten<T>(xss: seq<seq<T>>): seq<T>
  {
    if xss == [] then [] else xss[0] + Flatten(xss[1..])
  }

  lemma {:induction false} FlattenAppend<T>(a: seq<seq<T>>, b: seq<seq<T>>)
    ensures Flatten(a + b) == Flatten(a) + Flatten(b)
  {
    if a != [] {
      assert (a + b)[0] == a[0];
      assert (a + b)[1..] == a[1..] + b;
      FlattenAppend(a[1..], b);
    } else {
      assert a + b == b;
    }
  }

  lemma AppendAssoc<T>(a: seq<T>, b: seq<T>, c: seq<T>)
    ensures (a + b) + c == a + (b + c)
  {
  }

  /** A non-empty sequence is its front followed by its last element. */
  lemma InitLast<T>(xs: seq<T>)
    requires xs != []
    ensures xs == xs[..|xs| - 1] + [xs[|xs| - 1]]
  {
  }

  /** How many times `x` occurs in `xs`. */
  function Count<T(==)>(xs: seq<T>, x: T): nat
  {
    if xs == [] then 0 else (if xs[0] == x then 1 else 0) + Count(xs[1..], x)
  }
}
