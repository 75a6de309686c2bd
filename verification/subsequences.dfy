/** Order-preserving selection of elements from a sequence: the positional
    lookup a table offers (`iloc`) and the subsequence relation it yields. */
module Subsequences {

  /** `a` is obtained from `b` by deleting elements and keeping the rest in order. */
  ghost predicate IsSubsequence<T>(a: seq<T>, b: seq<T>)
    decreases |b|
  {
    || a == []
    || (&& b != []
        && (|| (a[0] == b[0] && IsSubsequence(a[1..], b[1..]))
            || IsSubsequence(a, b[1..])))
  }

  /** Every earlier position is strictly smaller than every later one. */
  ghost predicate StrictlyIncreasing(positions: seq<nat>) {
    forall j, k :: 0 <= j < k < |positions| ==> positions[j] < positions[k]
  }

  /** Every position addresses an element of a sequence of length `len`. */
  ghost predicate AllBelow(positions: seq<nat>, len: nat) {
    forall k :: 0 <= k < |positions| ==> positions[k] < len
  }

  /** The elements of `s` at `positions`, in the order the positions are listed. */
  function Select<T>(s: seq<T>, positions: seq<nat>): (r: seq<T>)
    requires AllBelow(positions, |s|)
    ensures |r| == |positions|
    ensures forall k :: 0 <= k < |r| ==> r[k] == s[positions[k]]
  {
    if positions == [] then [] else [s[positions[0]]] + Select(s, positions[1..])
  }

  /** Every sequence is a subsequence of itself. */
  lemma {:induction false} SubsequenceReflexive<T>(s: seq<T>)
    ensures IsSubsequence(s, s)
    decreases |s|
  {
    if s != [] {
      SubsequenceReflexive(s[1..]);
    }
  }

  /** A subsequence of a subsequence is a subsequence. */
  lemma {:induction false} SubsequenceTransitive<T>(a: seq<T>, b: seq<T>, c: seq<T>)
    requires IsSubsequence(a, b) && IsSubsequence(b, c)
    ensures IsSubsequence(a, c)
    decreases |c|
  {
    if a != [] {
      if IsSubsequence(b, c[1..]) {
        SubsequenceTransitive(a, b, c[1..]);
      } else if a[0] == b[0] && IsSubsequence(a[1..], b[1..]) {
        SubsequenceTransitive(a[1..], b[1..], c[1..]);
      } else {
        SubsequenceTransitive(a, b[1..], c[1..]);
      }
    }
  }

  /** A subsequence holds no element, counted with multiplicity, that the sequence lacks. */
  lemma {:induction false} SubsequenceMultiset<T>(a: seq<T>, b: seq<T>)
    requires IsSubsequence(a, b)
    ensures multiset(a) <= multiset(b)
    decreases |b|
  {
    if a != [] {
      assert b == [b[0]] + b[1..];
      if a[0] == b[0] && IsSubsequence(a[1..], b[1..]) {
        SubsequenceMultiset(a[1..], b[1..]);
        assert a == [a[0]] + a[1..];
      } else {
        SubsequenceMultiset(a, b[1..]);
      }
    }
  }

  /** Looking up strictly increasing positions yields a subsequence. */
  lemma {:induction false} SelectIncreasingIsSubsequence<T>(s: seq<T>, positions: seq<nat>)
    requires AllBelow(positions, |s|)
    requires StrictlyIncreasing(positions)
    ensures IsSubsequence(Select(s, positions), s)
    decreases |s|
  {
    var r := Select(s, positions);
    if positions != [] {
      if positions[0] == 0 {
        // the first element is s[0]; the rest are found in s[1..], one position earlier
        var rest := seq(|positions| - 1, k requires 0 <= k < |positions| - 1 => positions[k + 1] - 1);
        SelectIncreasingIsSubsequence(s[1..], rest);
        assert Select(s[1..], rest) == r[1..];
      } else {
        // no element is s[0]; all of them are found in s[1..], one position earlier
        var all := seq(|positions|, k requires 0 <= k < |positions| => positions[k] - 1);
        SelectIncreasingIsSubsequence(s[1..], all);
        assert Select(s[1..], all) == r;
      }
    }
  }
}
