/**
 * The two per-group statistics the outlier filter aggregates: pandas' `median`
 * (middle of the sorted values, the mean of the two middle ones for an even count),
 * computed exactly over `real`, and the laws of the sample standard deviation
 * (ddof = 1), which the model takes as a parameter. Missing values (pandas' NaN)
 * are `None`.
 */
module Stats {
  import opened Wrappers

  predicate Ascending(s: seq<real>)
  {
    forall i, j :: 0 <= i < j < |s| ==> s[i] <= s[j]
  }

  /** Inserts `x` into an ascending sequence, keeping it ascending. */
  function Insert(x: real, s: seq<real>): (r: seq<real>)
    requires Ascending(s)
    ensures |r| == |s| + 1
    ensures multiset(r) == multiset(s) + multiset{x}
    ensures Ascending(r)
    ensures r[0] == x || (s != [] && r[0] == s[0])
  {
    if s == [] || x <= s[0] then
      AscendingCons(x, s);
      [x] + s
    else
      AscendingTail(s);
      var t := Insert(x, s[1..]);
      assert s[0] <= t[0] by {
        if |s| > 1 {
          assert s[1..][0] == s[1];
        }
      }
      AscendingCons(s[0], t);
      assert s == [s[0]] + s[1..];
      [s[0]] + t
  }

  lemma AscendingTail(s: seq<real>)
    requires Ascending(s) && s != []
    ensures Ascending(s[1..])
  {
    forall i, j | 0 <= i < j < |s[1..]|
      ensures s[1..][i] <= s[1..][j]
    {
      assert s[1..][i] == s[i + 1] && s[1..][j] == s[j + 1];
    }
  }

  /** Putting a value no larger than the head in front keeps a sequence ascending. */
  lemma AscendingCons(h: real, t: seq<real>)
    requires Ascending(t) && (t == [] || h <= t[0])
    ensures Ascending([h] + t)
  {
    var r := [h] + t;
    forall i, j | 0 <= i < j < |r|
      ensures r[i] <= r[j]
    {
      assert r[j] == t[j - 1];
      if i == 0 {
        if j > 1 {
          assert t[0] <= t[j - 1];
        }
      } else {
        assert r[i] == t[i - 1];
      }
    }
  }

  /** The values of `xs` in ascending order. */
  function Sort(xs: seq<real>): (r: seq<real>)
    ensures Ascending(r)
    ensures multiset(r) == multiset(xs)
    ensures |r| == |xs|
  {
    if xs == [] then []
    else
      assert xs == [xs[0]] + xs[1..];
      Insert(xs[0], Sort(xs[1..]))
  }

  /**
   * The middle value of a sorted sequence, or the mean of the two middle values
   * for an even length; of an ascending sequence it lies between the first and
   * the last value.
   */
  function Middle(s: seq<real>): (m: real)
    requires |s| > 0
    ensures Ascending(s) ==> s[0] <= m <= s[|s| - 1]
  {
    var n := |s|;
    var h := n / 2;
    if n % 2 == 1 then
      assert Ascending(s) ==> s[0] <= s[h] <= s[n - 1];
      s[h]
    else
      assert 1 <= h < n;
      assert Ascending(s) ==> s[0] <= s[h - 1] <= s[h] <= s[n - 1];
      (s[h - 1] + s[h]) / 2.0
  }

  /** pandas' median of a series: NaN (None) for an empty series. */
  function Median(xs: seq<real>): (m: Option<real>)
    ensures m.Some? <==> |xs| > 0
  {
    if |xs| == 0 then None else Some(Middle(Sort(xs)))
  }

  /** Every element of the sorted sequence comes from the input. */
  lemma SortedFromInput(xs: seq<real>, i: int)
    requires 0 <= i < |xs|
    ensures Sort(xs)[i] in xs
  {
    var s := Sort(xs);
    assert s[i] in multiset(s);
  }

  /** Every value lies between the ends of any ascending permutation of the values. */
  lemma PermutationExtremes(s: seq<real>, xs: seq<real>, k: int)
    requires Ascending(s) && multiset(s) == multiset(xs) && 0 <= k < |xs|
    ensures |s| == |xs| && s[0] <= xs[k] <= s[|s| - 1]
  {
    assert |s| == |multiset(s)| == |xs|;
    var t := PermutedIndex(s, xs, k);
    AscendingBounds(s, t);
  }

  /** A value of `b` sits at some position of any permutation `a` of it. */
  lemma PermutedIndex(a: seq<real>, b: seq<real>, k: int) returns (t: int)
    requires multiset(a) == multiset(b) && 0 <= k < |b|
    ensures 0 <= t < |a| && a[t] == b[k]
  {
    assert b[k] in multiset(b);
    assert b[k] in a;
    t :| 0 <= t < |a| && a[t] == b[k];
  }

  lemma AscendingBounds(s: seq<real>, t: int)
    requires Ascending(s) && 0 <= t < |s|
    ensures s[0] <= s[t] <= s[|s| - 1]
  {
    if 0 < t {
      assert s[0] <= s[t];
    }
    if t < |s| - 1 {
      assert s[t] <= s[|s| - 1];
    }
  }

  /**
   * The median lies between a smallest and a largest value of the group:
   * it is never below the minimum nor above the maximum.
   */
  lemma MedianWithinRange(xs: seq<real>)
    requires |xs| > 0
    ensures exists i :: 0 <= i < |xs| && xs[i] <= Median(xs).value
                        && forall k :: 0 <= k < |xs| ==> xs[i] <= xs[k]
    ensures exists j :: 0 <= j < |xs| && Median(xs).value <= xs[j]
                        && forall k :: 0 <= k < |xs| ==> xs[k] <= xs[j]
  {
    var s := Sort(xs);
    var i, j := ExtremeIndices(s, xs);
    assert Median(xs).value == Middle(s);
    assert xs[i] <= Median(xs).value <= xs[j];
  }

  /** Where the ends of an ascending permutation of `xs` sit in `xs`: a minimum and a maximum. */
  lemma ExtremeIndices(s: seq<real>, xs: seq<real>) returns (i: int, j: int)
    requires Ascending(s) && multiset(s) == multiset(xs) && |xs| > 0
    ensures |s| == |xs|
    ensures 0 <= i < |xs| && xs[i] == s[0]
    ensures 0 <= j < |xs| && xs[j] == s[|s| - 1]
    ensures forall k :: 0 <= k < |xs| ==> xs[i] <= xs[k] <= xs[j]
  {
    assert |s| == |multiset(s)| == |xs|;
    i := PermutedIndex(xs, s, 0);
    j := PermutedIndex(xs, s, |s| - 1);
    forall k | 0 <= k < |xs|
      ensures xs[i] <= xs[k] <= xs[j]
    {
      PermutationExtremes(s, xs, k);
    }
  }

  /**
   * The median splits the sorted group in halves: the first ⌈n/2⌉ sorted values
   * are at most the median and the last ⌈n/2⌉ at least it.
   */
  lemma MedianSplitsSorted(xs: seq<real>)
    requires |xs| > 0
    ensures forall i :: 0 <= i <= (|xs| - 1) / 2 ==> Sort(xs)[i] <= Median(xs).value
    ensures forall i :: |xs| / 2 <= i < |xs| ==> Median(xs).value <= Sort(xs)[i]
  {
    MiddleSplits(Sort(xs));
  }

  /** The middle of an ascending sequence is at least its first half and at most its second half. */
  lemma MiddleSplits(s: seq<real>)
    requires Ascending(s) && |s| > 0
    ensures forall i :: 0 <= i <= (|s| - 1) / 2 ==> s[i] <= Middle(s)
    ensures forall i :: |s| / 2 <= i < |s| ==> Middle(s) <= s[i]
  {
    var n := |s|;
    var h := n / 2;
    if n % 2 == 1 {
      assert Middle(s) == s[h] && (n - 1) / 2 == h;
    } else {
      assert Middle(s) == (s[h - 1] + s[h]) / 2.0 && (n - 1) / 2 == h - 1;
      assert s[h - 1] <= s[h];
      forall i | 0 <= i <= h - 1
        ensures s[i] <= Middle(s)
      {
        assert s[i] <= s[h - 1];
      }
      forall i | h <= i < n
        ensures Middle(s) <= s[i]
      {
        assert s[h] <= s[i];
      }
    }
  }

  /** A group whose values are all `c` has median `c`. */
  lemma MedianOfConstant(xs: seq<real>, c: real)
    requires |xs| > 0
    requires forall i :: 0 <= i < |xs| ==> xs[i] == c
    ensures Median(xs) == Some(c)
  {
    var s := Sort(xs);
    forall i | 0 <= i < |s|
      ensures s[i] == c
    {
      SortedFromInput(xs, i);
    }
  }

  /** All values of the group are equal. */
  predicate Uniform(xs: seq<real>)
  {
    forall i :: 0 <= i < |xs| ==> xs[i] == xs[0]
  }

  /**
   * What the model relies on about pandas' sample standard deviation (ddof = 1),
   * which needs a square root and is therefore a parameter `std` of the model:
   * it is NaN (None) below two values, never negative, and zero exactly for a group
   * whose values are all equal.
   */
  ghost predicate SampleStdLaws(std: seq<real> -> Option<real>)
  {
    && (forall xs :: std(xs).Some? <==> |xs| >= 2)
    && (forall xs :: std(xs).Some? ==> std(xs).value >= 0.0)
    && (forall xs :: |xs| >= 2 ==> (std(xs) == Some(0.0) <==> Uniform(xs)))
  }

  /** A spread measure that is zero exactly on uniform groups (used to show the laws can be met). */
  function UniformOrUnit(xs: seq<real>): Option<real>
  {
    if |xs| < 2 then None else if Uniform(xs) then Some(0.0) else Some(1.0)
  }

  /** The laws are consistent: some function satisfies them. */
  lemma SampleStdLawsSatisfiable()
    ensures exists std :: SampleStdLaws(std)
  {
    assert SampleStdLaws(UniformOrUnit);
  }
}
