/** Sequence helpers used to state the traversal and builder contracts. */
module Seqs {

  /** No element occurs twice: `s` has as many different elements as positions. */
  predicate Distinct<T(==)>(s: seq<T>) {
    |Elems(s)| == |s|
  }

  /** The set of the elements of `s`. */
  function Elems<T>(s: seq<T>): set<T> {
    set x | x in s
  }

  /** Appending one element adds it to the elements. */
  lemma ElemsAppend<T>(s: seq<T>, x: T)
    ensures Elems(s + [x]) == Elems(s) + {x}
  {
  }

  /** Appending keeps a sequence duplicate-free exactly when the new element is not already there. */
  lemma DistinctSnoc<T>(s: seq<T>, x: T)
    ensures Distinct(s + [x]) <==> Distinct(s) && x !in s
  {
    ElemsAppend(s, x);
    DistinctPairwise(s);
  }

  /**
   * A sequence has at most as many different elements as positions, and as
   * many exactly when any two positions hold different elements.
   */
  lemma {:induction false} DistinctPairwise<T>(s: seq<T>)
    ensures |Elems(s)| <= |s|
    ensures Distinct(s) <==> forall i, j :: 0 <= i < j < |s| ==> s[i] != s[j]
    decreases |s|
  {
    if s != [] {
      var n := |s| - 1;
      var pre, x := s[..n], s[n];
      DistinctPairwise(pre);
      assert s == pre + [x];
      ElemsAppend(pre, x);
      if x in pre {
        var i :| 0 <= i < n && pre[i] == x;
        assert s[i] == s[n];
      } else {
        assert x !in Elems(pre);
        if Distinct(pre) {
          forall i, j | 0 <= i < j < |s| ensures s[i] != s[j] {
            assert s[i] == pre[i];
            if j < n {
              assert s[j] == pre[j];
            }
          }
        }
        if forall i, j :: 0 <= i < j < |s| ==> s[i] != s[j] {
          forall i, j | 0 <= i < j < n ensures pre[i] != pre[j] {
            assert pre[i] == s[i] && pre[j] == s[j];
          }
        }
      }
    }
  }

  /** Two positions of a duplicate-free sequence hold different elements. */
  lemma DistinctAt<T>(s: seq<T>, i: nat, j: nat)
    requires Distinct(s) && i < |s| && j < |s| && i != j
    ensures s[i] != s[j]
  {
    DistinctPairwise(s);
  }

  /** In a duplicate-free sequence, the element at `n - 1` is not among those before it. */
  lemma DistinctLast<T>(s: seq<T>, n: nat)
    requires Distinct(s) && 0 < n <= |s|
    ensures s[n - 1] !in s[..n - 1]
  {
    DistinctPairwise(s);
    var pre := s[..n - 1];
    forall i | 0 <= i < |pre|
      ensures pre[i] != s[n - 1]
    {
      assert pre[i] == s[i];
    }
  }

  /** Two duplicate-free sequences with no common element concatenate to one. */
  lemma DistinctConcat<T>(a: seq<T>, b: seq<T>)
    requires Distinct(a) && Distinct(b)
    requires forall x :: x in a ==> x !in b
    ensures Distinct(a + b)
  {
    DistinctPairwise(a);
    DistinctPairwise(b);
    forall i, j | 0 <= i < j < |a + b| ensures (a + b)[i] != (a + b)[j] {
      if i < |a| && j >= |a| {
        assert (a + b)[i] in a && (a + b)[j] in b;
      } else if j < |a| {
        assert (a + b)[i] == a[i] && (a + b)[j] == a[j];
      } else {
        assert (a + b)[i] == b[i - |a|] && (a + b)[j] == b[j - |a|];
      }
    }
    DistinctPairwise(a + b);
  }

  /** A proper subset is smaller. */
  lemma SubsetSmaller<T>(a: set<T>, b: set<T>)
    requires a < b
    ensures |a| < |b|
  {
    assert !(b <= a);
    var x :| x in b && x !in a;
    assert a <= b - {x};
    assert |b - {x}| == |b| - 1;
    SubsetNoLarger(a, b - {x});
  }

  /** A subset is no larger. */
  lemma {:induction false} SubsetNoLarger<T>(a: set<T>, b: set<T>)
    requires a <= b
    ensures |a| <= |b|
    decreases |b|
  {
    if a != {} {
      var x :| x in a;
      SubsetNoLarger(a - {x}, b - {x});
    }
  }

  /** Python's `s[::-1]`. */
  function Reverse<T>(s: seq<T>): (r: seq<T>)
    ensures |r| == |s|
    ensures forall i :: 0 <= i < |s| ==> r[i] == s[|s| - 1 - i]
  {
    if s == [] then [] else Reverse(s[1..]) + [s[0]]
  }

  /** The position of the first occurrence of `x` in `s`. */
  function FirstIndex<T(==)>(s: seq<T>, x: T): (i: nat)
    requires x in s
    ensures i < |s| && s[i] == x
    ensures forall j :: 0 <= j < i ==> s[j] != x
  {
    if s[0] == x then 0 else 1 + FirstIndex(s[1..], x)
  }

  /** The first occurrence of every element, in the order of `s`. */
  function Dedup<T(==, !new)>(s: seq<T>): (r: seq<T>)
    ensures Distinct(r)
    ensures forall x :: x in r <==> x in s
    ensures |r| <= |s|
  {
    if s == [] then []
    else
      var d := Dedup(s[..|s| - 1]);
      assert forall x :: x in s <==> x in s[..|s| - 1] || x == s[|s| - 1];
      DistinctSnoc(d, s[|s| - 1]);
      if s[|s| - 1] in d then d else d + [s[|s| - 1]]
  }

  /** `Dedup` keeps first occurrences in their original order. */
  lemma {:induction false} DedupOrder<T(!new)>(s: seq<T>, i: nat, j: nat)
    requires i < j < |Dedup(s)|
    ensures FirstIndex(s, Dedup(s)[i]) < FirstIndex(s, Dedup(s)[j])
  {
    var pre := s[..|s| - 1];
    var d := Dedup(pre);
    var last := s[|s| - 1];
    FirstIndexPrefix(s, pre, Dedup(s)[i]);
    if j < |d| {
      DedupOrder(pre, i, j);
      FirstIndexPrefix(s, pre, Dedup(s)[j]);
    } else {
      assert Dedup(s)[j] == last && last !in pre;
      assert FirstIndex(s, last) == |s| - 1;
    }
  }

  /** The first occurrence in a prefix is the first occurrence in the whole. */
  lemma FirstIndexPrefix<T>(s: seq<T>, pre: seq<T>, x: T)
    requires |pre| <= |s| && pre == s[..|pre|] && x in pre
    ensures x in s && FirstIndex(s, x) == FirstIndex(pre, x)
  {
    var k := FirstIndex(pre, x);
    assert s[k] == x;
  }

  /**
   * The elements of `s` outside `seen`, each once at its first occurrence: what a
   * loop over `s` appends when it skips every element already marked and marks
   * each one it keeps. Its properties are the lemmas below, so that a loop
   * carrying it does not carry their quantifiers.
   */
  function Unseen<T(==)>(s: seq<T>, seen: set<T>): seq<T> {
    if s == [] then []
    else
      var u := Unseen(s[..|s| - 1], seen);
      if s[|s| - 1] in seen || s[|s| - 1] in u then u else u + [s[|s| - 1]]
  }

  /** `Unseen` holds each element of `s` outside `seen`, once, and nothing else. */
  lemma {:induction false} UnseenMembers<T>(s: seq<T>, seen: set<T>)
    ensures Distinct(Unseen(s, seen))
    ensures forall x :: x in Unseen(s, seen) <==> x in s && x !in seen
  {
    if s != [] {
      UnseenMembers(s[..|s| - 1], seen);
      assert forall x :: x in s <==> x in s[..|s| - 1] || x == s[|s| - 1];
      DistinctSnoc(Unseen(s[..|s| - 1], seen), s[|s| - 1]);
    }
  }

  /** One more step of the loop that `Unseen` describes. */
  lemma UnseenStep<T>(s: seq<T>, i: nat, seen: set<T>)
    requires i < |s|
    ensures Unseen(s[..i + 1], seen)
         == if s[i] in seen || s[i] in Unseen(s[..i], seen) then Unseen(s[..i], seen) else Unseen(s[..i], seen) + [s[i]]
  {
    assert s[..i + 1][..i] == s[..i];
  }

  /** An element the loop keeps at step `i` has no earlier occurrence. */
  lemma UnseenFirst<T>(s: seq<T>, i: nat, seen: set<T>)
    requires i < |s| && s[i] !in seen && s[i] !in Unseen(s[..i], seen)
    ensures s[i] !in s[..i]
  {
    UnseenMembers(s[..i], seen);
  }

  /** Step `i` of the loop that `Unseen` describes, when it keeps the element. */
  lemma UnseenKeep<T>(s: seq<T>, i: nat, seen: set<T>)
    requires i < |s| && s[i] !in seen && s[i] !in Unseen(s[..i], seen)
    ensures Unseen(s[..i + 1], seen) == Unseen(s[..i], seen) + [s[i]]
    ensures s[i] !in s[..i]
  {
    UnseenStep(s, i, seen);
    UnseenFirst(s, i, seen);
  }

  /** Step `i` of the loop that `Unseen` describes, when it skips the element. */
  lemma UnseenSkip<T>(s: seq<T>, i: nat, seen: set<T>)
    requires i < |s| && (s[i] in seen || s[i] in Unseen(s[..i], seen))
    ensures Unseen(s[..i + 1], seen) == Unseen(s[..i], seen)
  {
    UnseenStep(s, i, seen);
  }

  /** Concatenation is associative. */
  lemma AppendAssoc<T>(a: seq<T>, b: seq<T>, c: seq<T>)
    ensures a + (b + c) == (a + b) + c
  {
  }

  /** The elements of a concatenation. */
  lemma ElemsConcat<T>(a: seq<T>, b: seq<T>)
    ensures Elems(a + b) == Elems(a) + Elems(b)
  {
  }

  /** With nothing marked yet, the loop keeps exactly the first occurrences. */
  lemma {:induction false} UnseenNothing<T(!new)>(s: seq<T>)
    ensures Unseen(s, {}) == Dedup(s)
  {
    if s != [] {
      UnseenNothing(s[..|s| - 1]);
    }
  }

  /** Reversing keeps the elements, and keeps them distinct. */
  lemma ReverseElems<T>(s: seq<T>)
    ensures forall x :: x in Reverse(s) <==> x in s
    ensures Distinct(s) ==> Distinct(Reverse(s))
  {
    var r := Reverse(s);
    forall x | x in s ensures x in r {
      var i :| 0 <= i < |s| && s[i] == x;
      assert r[|s| - 1 - i] == x;
    }
    if Distinct(s) {
      DistinctPairwise(s);
      forall i, j | 0 <= i < j < |r| ensures r[i] != r[j] {
        assert r[i] == s[|s| - 1 - i] && r[j] == s[|s| - 1 - j];
      }
      DistinctPairwise(r);
    }
  }

  /** The reversal of `s` ends with the reversal of each prefix of `s`. */
  lemma ReversePrefix<T>(s: seq<T>, pre: seq<T>)
    requires |pre| <= |s| && s[..|pre|] == pre
    ensures Reverse(s)[|s| - |pre|..] == Reverse(pre)
  {
    var r := Reverse(s);
    forall k | 0 <= k < |pre| ensures r[|s| - |pre|..][k] == Reverse(pre)[k] {
      assert s[|pre| - 1 - k] == pre[|pre| - 1 - k];
    }
  }

  /** Reversing twice gives the sequence back. */
  lemma ReverseReverse<T>(s: seq<T>)
    ensures Reverse(Reverse(s)) == s
  {
    assert forall i :: 0 <= i < |s| ==> Reverse(Reverse(s))[i] == s[i];
  }
}
