/**
  Sequence notions shared by the diff engine and the script list: positional
  subsequences and order-preserving filtering (the behaviour of a JavaScript
  `Array.prototype.filter`).
 */
module Seqs {

  /** `c` is obtained from `s` by deleting zero or more positions. Equal values
      at different positions are distinct: matching is by position, not by value. */
  predicate IsSubseq<T(==)>(c: seq<T>, s: seq<T>)
    decreases |s|
  {
    || |c| == 0
    || (&& |s| > 0
        && (|| (c[|c| - 1] == s[|s| - 1] && IsSubseq(c[..|c| - 1], s[..|s| - 1]))
            || IsSubseq(c, s[..|s| - 1])))
  }

  /** A prefix one longer is the shorter prefix plus the next element. */
  lemma {:induction false} PrefixSnoc<T>(s: seq<T>, k: nat)
    requires 0 < k <= |s|
    ensures s[..k] == s[..k - 1] + [s[k - 1]]
    ensures s[..k][..k - 1] == s[..k - 1]
  {
  }

  /** Dropping the last element of a subsequence keeps it a subsequence. */
  lemma {:induction false} SubseqDropLast<T>(c: seq<T>, s: seq<T>)
    requires |c| > 0 && IsSubseq(c, s)
    ensures IsSubseq(c[..|c| - 1], s)
    decreases |s|
  {
    var c', s' := c[..|c| - 1], s[..|s| - 1];
    if IsSubseq(c, s') {
      SubseqDropLast(c, s');
    }
    assert IsSubseq(c', s');
  }

  /** Every sequence is a subsequence of itself. */
  lemma {:induction false} SubseqRefl<T>(s: seq<T>)
    ensures IsSubseq(s, s)
    decreases |s|
  {
    if |s| > 0 {
      SubseqRefl(s[..|s| - 1]);
    }
  }

  /** Subsequence is transitive. */
  lemma {:induction false} SubseqTrans<T>(a: seq<T>, b: seq<T>, c: seq<T>)
    requires IsSubseq(a, b) && IsSubseq(b, c)
    ensures IsSubseq(a, c)
    decreases |c|
  {
    if |a| == 0 {
    } else if |b| > 0 && |c| > 0 {
      var a', b', c' := a[..|a| - 1], b[..|b| - 1], c[..|c| - 1];
      if b[|b| - 1] == c[|c| - 1] && IsSubseq(b', c') {
        if a[|a| - 1] == b[|b| - 1] && IsSubseq(a', b') {
          SubseqTrans(a', b', c');
        } else {
          SubseqTrans(a, b', c');
        }
      } else {
        SubseqTrans(a, b, c');
      }
    }
  }

  /** A property of every element holds of every element of a slice. */
  lemma {:induction false} SliceKeeps<T>(s: seq<T>, i: nat, j: nat, p: T -> bool)
    requires i <= j <= |s|
    requires forall k :: 0 <= k < |s| ==> p(s[k])
    ensures forall k :: 0 <= k < j - i ==> p(s[i..j][k])
  {
    forall k | 0 <= k < j - i
      ensures p(s[i..j][k])
    {
      assert s[i..j][k] == s[i + k];
    }
  }

  /** The elements of `s` that satisfy `keep`, in their original order. */
  function Filter<T>(s: seq<T>, keep: T -> bool): (r: seq<T>)
    ensures |r| <= |s|
    ensures forall k :: 0 <= k < |r| ==> r[k] in s && keep(r[k])
    ensures forall k :: 0 <= k < |s| && keep(s[k]) ==> s[k] in r
    decreases |s|
  {
    if |s| == 0 then []
    else
      var init := Filter(s[..|s| - 1], keep);
      if keep(s[|s| - 1]) then init + [s[|s| - 1]] else init
  }

  /** Filtering distributes over concatenation. */
  lemma {:induction false} FilterAppend<T>(a: seq<T>, b: seq<T>, keep: T -> bool)
    ensures Filter(a + b, keep) == Filter(a, keep) + Filter(b, keep)
    decreases |b|
  {
    if |b| == 0 {
      assert a + b == a;
    } else {
      var b' := b[..|b| - 1];
      assert (a + b)[..|a + b| - 1] == a + b';
      FilterAppend(a, b', keep);
    }
  }

  /** A filter keeps an order-preserving subsequence of its input. */
  lemma {:induction false} FilterIsSubseq<T>(s: seq<T>, keep: T -> bool)
    ensures IsSubseq(Filter(s, keep), s)
    decreases |s|
  {
    if |s| > 0 {
      var s' := s[..|s| - 1];
      FilterIsSubseq(s', keep);
      var r := Filter(s, keep);
      if keep(s[|s| - 1]) {
        assert r[..|r| - 1] == Filter(s', keep);
      } else {
        assert r == Filter(s', keep);
        if |r| > 0 {
          assert IsSubseq(r, s');
        }
      }
    }
  }

  /** Filtering twice with the same predicate changes nothing more. */
  lemma {:induction false} FilterIdempotent<T>(s: seq<T>, keep: T -> bool)
    ensures Filter(Filter(s, keep), keep) == Filter(s, keep)
    decreases |s|
  {
    if |s| > 0 {
      var s' := s[..|s| - 1];
      FilterIdempotent(s', keep);
      var init := Filter(s', keep);
      if keep(s[|s| - 1]) {
        FilterAppend(init, [s[|s| - 1]], keep);
        assert Filter([s[|s| - 1]], keep) == [s[|s| - 1]] by {
          assert [s[|s| - 1]][..0] == [];
        }
      }
    }
  }

  /** When every element passes, the filter is the identity. */
  lemma {:induction false} FilterAll<T>(s: seq<T>, keep: T -> bool)
    requires forall k :: 0 <= k < |s| ==> keep(s[k])
    ensures Filter(s, keep) == s
    decreases |s|
  {
    if |s| > 0 {
      FilterAll(s[..|s| - 1], keep);
      assert s[..|s| - 1] + [s[|s| - 1]] == s;
    }
  }

  /** When nothing passes, the filter is empty. */
  lemma {:induction false} FilterNone<T>(s: seq<T>, keep: T -> bool)
    requires forall k :: 0 <= k < |s| ==> !keep(s[k])
    ensures Filter(s, keep) == []
    decreases |s|
  {
    if |s| > 0 {
      FilterNone(s[..|s| - 1], keep);
    }
  }

  /** Filtering a non-empty sequence: its front part, then its last element
      if it passes. */
  lemma {:induction false} FilterSnoc<T>(s: seq<T>, keep: T -> bool)
    requires |s| > 0
    ensures Filter(s, keep) == Filter(s[..|s| - 1], keep) + (if keep(s[|s| - 1]) then [s[|s| - 1]] else [])
  {
  }

  /** Filtering an element followed by more. */
  lemma {:induction false} FilterCons<T>(x: T, s: seq<T>, keep: T -> bool)
    ensures Filter([x] + s, keep) == (if keep(x) then [x] else []) + Filter(s, keep)
  {
    FilterAppend([x], s, keep);
    assert Filter([x], keep) == (if keep(x) then [x] else []) by {
      assert [x][..0] == [];
    }
  }

  /** A prefix of elements that fail contributes nothing to the filter. */
  lemma {:induction false} FilterDropPrefix<T>(s: seq<T>, n: nat, keep: T -> bool)
    requires n <= |s| && forall k :: 0 <= k < n ==> !keep(s[k])
    ensures Filter(s, keep) == Filter(s[n..], keep)
    decreases |s|
  {
    if |s| == n {
      FilterNone(s, keep);
    } else {
      var s' := s[..|s| - 1];
      assert forall k :: 0 <= k < n ==> s'[k] == s[k];
      FilterDropPrefix(s', n, keep);
      assert s[n..][..|s[n..]| - 1] == s'[n..];
    }
  }

  /** When exactly one position passes, the filter is that element alone. */
  lemma {:induction false} FilterSingle<T>(s: seq<T>, keep: T -> bool, k: nat)
    requires k < |s| && keep(s[k])
    requires forall p :: 0 <= p < |s| && p != k ==> !keep(s[p])
    ensures Filter(s, keep) == [s[k]]
    decreases |s|
  {
    var s' := s[..|s| - 1];
    if k == |s| - 1 {
      assert forall p :: 0 <= p < |s'| ==> s'[p] == s[p];
      FilterNone(s', keep);
    } else {
      assert forall p :: 0 <= p < |s'| ==> s'[p] == s[p];
      FilterSingle(s', keep, k);
    }
  }

  /** A filter is empty exactly when nothing passes. */
  lemma {:induction false} FilterEmpty<T>(s: seq<T>, keep: T -> bool)
    ensures Filter(s, keep) == [] <==> forall k :: 0 <= k < |s| ==> !keep(s[k])
  {
    if forall k :: 0 <= k < |s| ==> !keep(s[k]) {
      FilterNone(s, keep);
    }
  }

  /** Filtering first with a weaker predicate does not change a filter with
      a stronger one. */
  lemma {:induction false} FilterWeakerFirst<T>(s: seq<T>, weak: T -> bool, strong: T -> bool)
    requires forall x :: strong(x) ==> weak(x)
    ensures Filter(Filter(s, weak), strong) == Filter(s, strong)
    decreases |s|
  {
    if |s| > 0 {
      var s', x := s[..|s| - 1], s[|s| - 1];
      FilterWeakerFirst(s', weak, strong);
      if weak(x) {
        FilterAppend(Filter(s', weak), [x], strong);
        assert [x][..0] == [];
      }
    }
  }

  /** A filter keeps every copy of an element that passes and no copy of one
      that does not. With `FilterIsSubseq` this fixes the filter exactly. */
  lemma {:induction false} FilterCount<T>(s: seq<T>, keep: T -> bool)
    ensures forall x :: multiset(Filter(s, keep))[x] == if keep(x) then multiset(s)[x] else 0
    decreases |s|
  {
    if |s| > 0 {
      var s' := s[..|s| - 1];
      FilterCount(s', keep);
      assert s == s' + [s[|s| - 1]];
    }
  }

  /** The first kept element with property `bad` is, in the input, the
      first element that is both kept and `bad`. */
  lemma {:induction false} FilterFirst<T>(s: seq<T>, keep: T -> bool, bad: T -> bool, k: nat) returns (p: nat)
    requires k < |Filter(s, keep)| && bad(Filter(s, keep)[k])
    requires forall j :: 0 <= j < k ==> !bad(Filter(s, keep)[j])
    ensures p < |s| && s[p] == Filter(s, keep)[k] && keep(s[p])
    ensures forall j :: 0 <= j < p && keep(s[j]) ==> !bad(s[j])
    decreases |s|
  {
    var init, x := s[..|s| - 1], s[|s| - 1];
    var r := Filter(init, keep);
    if k < |r| {
      assert forall j :: 0 <= j <= k ==> Filter(s, keep)[j] == r[j];
      p := FilterFirst(init, keep, bad, k);
      assert forall j :: 0 <= j <= p ==> s[j] == init[j];
    } else {
      p := |s| - 1;
      forall j | 0 <= j < p && keep(s[j])
        ensures !bad(s[j])
      {
        assert s[j] == init[j] && init[j] in r;
        var m :| 0 <= m < |r| && r[m] == init[j];
        assert Filter(s, keep)[m] == r[m];
      }
    }
  }

  /** Filters with predicates that agree on the elements are equal. */
  lemma {:induction false} FilterCongruent<T>(s: seq<T>, p: T -> bool, q: T -> bool)
    requires forall k :: 0 <= k < |s| ==> p(s[k]) == q(s[k])
    ensures Filter(s, p) == Filter(s, q)
    decreases |s|
  {
    if |s| > 0 {
      FilterCongruent(s[..|s| - 1], p, q);
    }
  }
}
