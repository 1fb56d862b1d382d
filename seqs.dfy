/**
  Order-preserving selection over sequences: the `Array.prototype.filter`
  that every list update of the task view is written with.
 */
module Seqs {

  /** The elements of `s` that `keep` accepts, in their order in `s`. */
  function Filter<T>(s: seq<T>, keep: T -> bool): (r: seq<T>)
    ensures |r| <= |s|
    ensures forall k :: 0 <= k < |r| ==> r[k] in s && keep(r[k])
    ensures forall k :: 0 <= k < |s| && keep(s[k]) ==> s[k] in r
  {
    if s == [] then []
    else if keep(s[0]) then [s[0]] + Filter(s[1..], keep)
    else Filter(s[1..], keep)
  }

  /** Filtering distributes over concatenation. */
  lemma {:induction false} FilterAppend<T>(a: seq<T>, b: seq<T>, keep: T -> bool)
    ensures Filter(a + b, keep) == Filter(a, keep) + Filter(b, keep)
  {
    if a == [] {
      assert a + b == b;
    } else {
      assert (a + b)[0] == a[0];
      assert (a + b)[1..] == a[1..] + b;
      FilterAppend(a[1..], b, keep);
    }
  }

  /** A kept element keeps its multiplicity; a dropped one is gone. */
  lemma {:induction false} FilterCount<T>(s: seq<T>, keep: T -> bool, x: T)
    ensures multiset(Filter(s, keep))[x] == if keep(x) then multiset(s)[x] else 0
  {
    if s != [] {
      assert s == [s[0]] + s[1..];
      FilterCount(s[1..], keep, x);
    }
  }

  lemma FilterCounts<T>(s: seq<T>, keep: T -> bool)
    ensures forall x :: multiset(Filter(s, keep))[x] == if keep(x) then multiset(s)[x] else 0
  {
    forall x ensures multiset(Filter(s, keep))[x] == if keep(x) then multiset(s)[x] else 0 {
      FilterCount(s, keep, x);
    }
  }

  /** Filtering with a test that accepts everything in `s` changes nothing. */
  lemma {:induction false} FilterKeepsAll<T>(s: seq<T>, keep: T -> bool)
    requires forall x :: x in s ==> keep(x)
    ensures Filter(s, keep) == s
  {
    if s != [] {
      FilterKeepsAll(s[1..], keep);
    }
  }

  /**
    Two complementary filters split `s` into two parts that together hold
    exactly the elements of `s`.
   */
  lemma FilterSplit<T>(s: seq<T>, keep: T -> bool, drop: T -> bool)
    requires forall x :: drop(x) == !keep(x)
    ensures multiset(Filter(s, keep)) + multiset(Filter(s, drop)) == multiset(s)
    ensures |Filter(s, keep)| + |Filter(s, drop)| == |s|
  {
    FilterCounts(s, keep);
    FilterCounts(s, drop);
    assert multiset(Filter(s, keep)) + multiset(Filter(s, drop)) == multiset(s);
    assert |multiset(Filter(s, keep)) + multiset(Filter(s, drop))| == |multiset(s)|;
  }

  /**
    Where a kept element lands: `s[i]` sits in the filtered sequence right
    after the kept elements that precede it in `s`.
   */
  lemma FilterAt<T>(s: seq<T>, keep: T -> bool, i: nat)
    requires i < |s| && keep(s[i])
    ensures |Filter(s[..i], keep)| < |Filter(s, keep)|
    ensures Filter(s, keep)[|Filter(s[..i], keep)|] == s[i]
  {
    assert s == s[..i] + s[i..];
    FilterAppend(s[..i], s[i..], keep);
    assert s[i..][0] == s[i];
  }

  /**
    Filtering keeps relative order: a kept element has strictly fewer kept
    elements before it than any later position has.
   */
  lemma FilterPrefixGrows<T>(s: seq<T>, keep: T -> bool, i: nat, j: nat)
    requires i < j <= |s| && keep(s[i])
    ensures |Filter(s[..i], keep)| < |Filter(s[..j], keep)|
  {
    assert s[..j][..i] == s[..i];
    FilterAt(s[..j], keep, i);
  }
}
