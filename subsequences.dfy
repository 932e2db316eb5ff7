/**
 * Order-preserving subsequences of digit lists and the lexicographic order on lists of
 * equal length.  Both joltage puzzles look for the largest number spelled by n digits
 * of a line taken in their order; `Best` is a reference definition of that choice.
 */
module Subsequences {
  import opened Digits

  /** t is an order-preserving subsequence of s. */
  predicate IsSubseq(t: seq<int>, s: seq<int>)
    decreases |s|
  {
    if t == [] then true
    else if s == [] then false
    else (t[0] == s[0] && IsSubseq(t[1..], s[1..])) || IsSubseq(t, s[1..])
  }

  /** Every sequence is a subsequence of itself. */
  lemma {:induction false} SubseqRefl(s: seq<int>)
    ensures IsSubseq(s, s)
    decreases |s|
  {
    if s != [] {
      SubseqRefl(s[1..]);
    }
  }

  /** A subsequence of a subsequence is a subsequence. */
  lemma {:induction false} SubseqTrans(t: seq<int>, u: seq<int>, s: seq<int>)
    requires IsSubseq(t, u) && IsSubseq(u, s)
    ensures IsSubseq(t, s)
    decreases |s|
  {
    if t != [] {
      assert s != [];
      if u[0] == s[0] && IsSubseq(u[1..], s[1..]) {
        if t[0] == u[0] && IsSubseq(t[1..], u[1..]) {
          SubseqTrans(t[1..], u[1..], s[1..]);
        } else {
          SubseqTrans(t, u[1..], s[1..]);
        }
      } else {
        SubseqTrans(t, u, s[1..]);
      }
    }
  }

  /** A subsequence of s stays one when an entry is put in front of s. */
  lemma SubseqCons(t: seq<int>, c: int, s: seq<int>)
    requires IsSubseq(t, s)
    ensures IsSubseq(t, [c] + s)
  {
    assert ([c] + s)[1..] == s;
  }

  /** Putting the same entry in front of both keeps a subsequence. */
  lemma SubseqConsBoth(t: seq<int>, c: int, s: seq<int>)
    requires IsSubseq(t, s)
    ensures IsSubseq([c] + t, [c] + s)
  {
    assert ([c] + s)[1..] == s && ([c] + t)[1..] == t;
  }

  /** Dropping the first entry of a subsequence keeps a subsequence. */
  lemma {:induction false} SubseqTail(t: seq<int>, s: seq<int>)
    requires t != [] && IsSubseq(t, s)
    ensures IsSubseq(t[1..], s)
    decreases |s|
  {
    if t[0] == s[0] && IsSubseq(t[1..], s[1..]) {
      SubseqCons(t[1..], s[0], s[1..]);
      assert s == [s[0]] + s[1..];
    } else {
      SubseqTail(t, s[1..]);
      SubseqCons(t[1..], s[0], s[1..]);
      assert s == [s[0]] + s[1..];
    }
  }

  /** A subsequence of a suffix of s is a subsequence of s. */
  lemma {:induction false} SubseqDrop(t: seq<int>, s: seq<int>, k: nat)
    requires k <= |s| && IsSubseq(t, s[k..])
    ensures IsSubseq(t, s)
    decreases k
  {
    if k > 0 {
      assert s[k - 1..] == [s[k - 1]] + s[k..];
      SubseqCons(t, s[k - 1], s[k..]);
      SubseqDrop(t, s, k - 1);
    }
  }

  /** A subsequence is never longer, and one of full length is the sequence itself. */
  lemma {:induction false} SubseqLength(t: seq<int>, s: seq<int>)
    requires IsSubseq(t, s)
    ensures |t| <= |s|
    ensures |t| == |s| ==> t == s
    decreases |s|
  {
    if t != [] {
      if t[0] == s[0] && IsSubseq(t[1..], s[1..]) {
        SubseqLength(t[1..], s[1..]);
        if |t| == |s| {
          assert t == [t[0]] + t[1..] && s == [s[0]] + s[1..];
        }
      } else {
        SubseqLength(t, s[1..]);
      }
    }
  }

  /** Every entry of a subsequence of a digit list is a digit. */
  lemma {:induction false} SubseqDigits(t: seq<int>, s: seq<int>)
    requires IsSubseq(t, s) && IsDigitSeq(s)
    ensures IsDigitSeq(t)
    decreases |s|
  {
    if t != [] {
      assert IsDigitSeq(s[1..]) by {
        forall i | 0 <= i < |s| - 1 ensures 0 <= s[1..][i] < 10 {
          assert s[1..][i] == s[i + 1];
        }
      }
      if t[0] == s[0] && IsSubseq(t[1..], s[1..]) {
        SubseqDigits(t[1..], s[1..]);
        forall i | 0 <= i < |t| ensures 0 <= t[i] < 10 {
          if i > 0 {
            assert t[i] == t[1..][i - 1];
          }
        }
      } else {
        SubseqDigits(t, s[1..]);
      }
    }
  }

  /** a comes no later than b in dictionary order (both of the same length). */
  predicate LexLe(a: seq<int>, b: seq<int>)
    requires |a| == |b|
  {
    a == [] || a[0] < b[0] || (a[0] == b[0] && LexLe(a[1..], b[1..]))
  }

  /** Dictionary order is reflexive. */
  lemma {:induction false} LexRefl(a: seq<int>)
    ensures LexLe(a, a)
  {
    if a != [] {
      LexRefl(a[1..]);
    }
  }

  /** Dictionary order is total. */
  lemma {:induction false} LexTotal(a: seq<int>, b: seq<int>)
    requires |a| == |b|
    ensures LexLe(a, b) || LexLe(b, a)
  {
    if a != [] && a[0] == b[0] {
      LexTotal(a[1..], b[1..]);
    }
  }

  /** Dictionary order is antisymmetric. */
  lemma {:induction false} LexAntisym(a: seq<int>, b: seq<int>)
    requires |a| == |b| && LexLe(a, b) && LexLe(b, a)
    ensures a == b
  {
    if a != [] {
      LexAntisym(a[1..], b[1..]);
      assert a == [a[0]] + a[1..] && b == [b[0]] + b[1..];
    }
  }

  /** Dictionary order is transitive. */
  lemma {:induction false} LexTrans(a: seq<int>, b: seq<int>, c: seq<int>)
    requires |a| == |b| == |c| && LexLe(a, b) && LexLe(b, c)
    ensures LexLe(a, c)
  {
    if a != [] && a[0] == b[0] == c[0] {
      LexTrans(a[1..], b[1..], c[1..]);
    }
  }

  /** Putting the same entry in front of both does not change the order. */
  lemma LexCons(x: int, a: seq<int>, b: seq<int>)
    requires |a| == |b|
    ensures LexLe([x] + a, [x] + b) <==> LexLe(a, b)
  {
    assert ([x] + a)[1..] == a && ([x] + b)[1..] == b;
  }

  /** The later of two lists of the same length in dictionary order (the first on a tie). */
  function LexMax(a: seq<int>, b: seq<int>): seq<int>
    requires |a| == |b|
  {
    if LexLe(b, a) then a else b
  }

  /** LexMax is an upper bound of both arguments and is one of them. */
  lemma LexMaxUpper(a: seq<int>, b: seq<int>)
    requires |a| == |b|
    ensures LexLe(a, LexMax(a, b)) && LexLe(b, LexMax(a, b))
    ensures LexMax(a, b) == a || LexMax(a, b) == b
  {
    LexTotal(a, b);
    LexRefl(a);
    LexRefl(b);
  }

  /**
   * The largest subsequence of length n in dictionary order: either it starts with the
   * first entry, followed by the best n-1 of the rest, or it is the best n of the rest.
   */
  function Best(s: seq<int>, n: nat): (r: seq<int>)
    requires n <= |s|
    ensures |r| == n
    decreases |s|
  {
    if n == 0 then []
    else if |s| == n then s
    else LexMax([s[0]] + Best(s[1..], n - 1), Best(s[1..], n))
  }

  /** Best chooses entries of s in their order. */
  lemma {:induction false} BestIsSubseq(s: seq<int>, n: nat)
    requires n <= |s|
    ensures IsSubseq(Best(s, n), s)
    decreases |s|
  {
    if n == 0 {
    } else if |s| == n {
      SubseqRefl(s);
    } else {
      assert s == [s[0]] + s[1..];
      BestIsSubseq(s[1..], n - 1);
      BestIsSubseq(s[1..], n);
      SubseqConsBoth(Best(s[1..], n - 1), s[0], s[1..]);
      SubseqCons(Best(s[1..], n), s[0], s[1..]);
    }
  }

  /** No subsequence of length n comes after Best in dictionary order. */
  lemma {:induction false} BestIsMax(s: seq<int>, n: nat, t: seq<int>)
    requires n <= |s| && |t| == n && IsSubseq(t, s)
    ensures LexLe(t, Best(s, n))
    decreases |s|
  {
    if n == 0 {
    } else if |s| == n {
      SubseqLength(t, s);
      LexRefl(s);
    } else {
      var a, b := [s[0]] + Best(s[1..], n - 1), Best(s[1..], n);
      LexMaxUpper(a, b);
      if t[0] == s[0] && IsSubseq(t[1..], s[1..]) {
        BestIsMax(s[1..], n - 1, t[1..]);
        assert t == [s[0]] + t[1..];
        LexCons(s[0], t[1..], Best(s[1..], n - 1));
        LexTrans(t, a, LexMax(a, b));
      } else {
        BestIsMax(s[1..], n, t);
        LexTrans(t, b, LexMax(a, b));
      }
    }
  }

  /** Of two digit lists of the same length, the later in dictionary order has the larger value. */
  lemma {:induction false} LexValue(a: seq<int>, b: seq<int>)
    requires |a| == |b| && IsDigitSeq(a) && IsDigitSeq(b) && LexLe(a, b)
    ensures Value(a) <= Value(b)
  {
    if a != [] {
      var p := Pow10(|a| - 1);
      ValueFront(a);
      ValueFront(b);
      assert IsDigitSeq(a[1..]) && IsDigitSeq(b[1..]) by {
        forall i | 0 <= i < |a| - 1 ensures 0 <= a[1..][i] < 10 && 0 <= b[1..][i] < 10 {
          assert a[1..][i] == a[i + 1] && b[1..][i] == b[i + 1];
        }
      }
      if a[0] < b[0] {
        ValueBounds(a[1..]);
        ValueBounds(b[1..]);
        MulMono(a[0] + 1, b[0], p);
        assert a[0] * p + p == (a[0] + 1) * p;
      } else {
        LexValue(a[1..], b[1..]);
      }
    }
  }

  /** Multiplying by a non-negative factor keeps the order. */
  lemma MulMono(x: int, y: int, p: nat)
    requires x <= y
    ensures x * p <= y * p
  {
    var d := y - x;
    assert y * p == x * p + d * p;
  }
}
