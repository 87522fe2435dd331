// Order-preserving, possibly gappy embedding of one sequence in another.
// Used to say that characters may be repeated on the wire but never lost or reordered.
module Subsequence {

  ghost predicate Subseq<T>(a: seq<T>, b: seq<T>)
    decreases |b|
  {
    a == [] ||
    (b != [] &&
     (Subseq(a, b[..|b| - 1]) ||
      (a[|a| - 1] == b[|b| - 1] && Subseq(a[..|a| - 1], b[..|b| - 1]))))
  }

  lemma SubseqSkip<T>(a: seq<T>, b: seq<T>, x: T)
    requires Subseq(a, b)
    ensures Subseq(a, b + [x])
  {
  }

  lemma SubseqMatch<T>(a: seq<T>, b: seq<T>, x: T)
    requires Subseq(a, b)
    ensures Subseq(a + [x], b + [x])
  {
  }

  lemma {:induction false} SubseqGrowRight<T>(a: seq<T>, b: seq<T>, x: seq<T>)
    requires Subseq(a, b)
    ensures Subseq(a, b + x)
    decreases |x|
  {
    if x == [] {
      assert b + x == b;
    } else {
      SubseqSkip(a, b, x[0]);
      SubseqGrowRight(a, b + [x[0]], x[1..]);
      assert b + [x[0]] + x[1..] == b + x;
    }
  }

  lemma {:induction false} SubseqAppendBoth<T>(a: seq<T>, b: seq<T>, x: seq<T>)
    requires Subseq(a, b)
    ensures Subseq(a + x, b + x)
    decreases |x|
  {
    if x == [] {
      assert a + x == a && b + x == b;
    } else {
      SubseqMatch(a, b, x[0]);
      SubseqAppendBoth(a + [x[0]], b + [x[0]], x[1..]);
      assert a + [x[0]] + x[1..] == a + x && b + [x[0]] + x[1..] == b + x;
    }
  }

  // A subsequence is never longer, and only the whole sequence is as long.
  lemma {:induction false} SubseqLength<T>(a: seq<T>, b: seq<T>)
    requires Subseq(a, b)
    ensures |a| <= |b|
    ensures |a| == |b| ==> a == b
    decreases |b|
  {
    if a != [] {
      var n := |b| - 1;
      if Subseq(a, b[..n]) {
        SubseqLength(a, b[..n]);
      } else {
        SubseqLength(a[..|a| - 1], b[..n]);
        assert a == a[..|a| - 1] + [a[|a| - 1]] && b == b[..n] + [b[n]];
      }
    }
  }
}
