/** Facts about sequences of distinct integers, used for the "bijection onto the grid" arguments. */
module Seqs {

  /** No value occurs twice in `s`. */
  predicate Distinct(s: seq<int>)
  {
    forall i, j :: 0 <= i < j < |s| ==> s[i] != s[j]
  }

  /** Every element of `s` lies in the half-open range [lo, hi). */
  predicate AllIn(s: seq<int>, lo: int, hi: int)
  {
    forall i :: 0 <= i < |s| ==> lo <= s[i] < hi
  }

  /** Pigeonhole: |s| distinct values drawn from a range of exactly |s| integers fill that range. */
  lemma {:induction false} DistinctFillsRange(s: seq<int>, lo: int)
    requires Distinct(s) && AllIn(s, lo, lo + |s|)
    ensures forall v :: lo <= v < lo + |s| ==> v in s
    decreases |s|
  {
    if |s| > 0 {
      var n, last := |s|, s[|s| - 1];
      // Close the gap left by `last`: the other n-1 values, with those above `last`
      // moved down by one, are distinct and lie in [lo, lo + n - 1).
      var u := seq(n - 1, k requires 0 <= k < n - 1 => if s[k] < last then s[k] else s[k] - 1);
      assert Distinct(u) by {
        forall a, b | 0 <= a < b < |u| ensures u[a] != u[b] {
          assert s[a] != s[b] && s[a] != last && s[b] != last;
        }
      }
      assert AllIn(u, lo, lo + (n - 1)) by {
        forall k | 0 <= k < |u| ensures lo <= u[k] < lo + (n - 1) {
          assert s[k] != last;
        }
      }
      DistinctFillsRange(u, lo);
      forall v | lo <= v < lo + n ensures v in s {
        if v < last {
          assert v in u;
          var k :| 0 <= k < |u| && u[k] == v;
          assert s[k] == v;
        } else if v > last {
          assert v - 1 in u;
          var k :| 0 <= k < |u| && u[k] == v - 1;
          assert s[k] == v;
        } else {
          assert s[n - 1] == v;
        }
      }
    }
  }

  /** In a sequence without repetitions every value occurs at most once. */
  lemma {:induction false} DistinctCount(s: seq<int>, v: int)
    requires Distinct(s)
    ensures multiset(s)[v] == if v in s then 1 else 0
    decreases |s|
  {
    if |s| > 0 {
      var t, last := s[..|s| - 1], s[|s| - 1];
      assert s == t + [last];
      assert Distinct(t);
      assert last !in t by {
        forall k | 0 <= k < |t| ensures t[k] != last {
          assert t[k] == s[k];
        }
      }
      DistinctCount(t, v);
    }
  }

  /** Two sequences without repetitions that hold the same values are reorderings of each other. */
  lemma SameElementsSameMultiset(s: seq<int>, t: seq<int>)
    requires Distinct(s) && Distinct(t)
    requires forall v :: v in s <==> v in t
    ensures multiset(s) == multiset(t)
  {
    forall v ensures multiset(s)[v] == multiset(t)[v] {
      DistinctCount(s, v);
      DistinctCount(t, v);
    }
  }

  /** A value found at two indices occurs at least twice in the multiset of the sequence. */
  lemma RepeatCountsTwice(s: seq<int>, i: int, j: int)
    requires 0 <= i < j < |s|
    ensures s[i] == s[j] ==> multiset(s)[s[i]] >= 2
  {
    var pre, post := s[..j], s[j + 1..];
    assert s == pre + [s[j]] + post;
    assert s[i] in pre by {
      assert pre[i] == s[i];
    }
  }
}
