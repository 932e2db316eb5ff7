/**
 * The largest number made of n of a line's digits, kept in their order, found by a
 * backwards sift.  A window of n digits starts as the last n digits of the line; every
 * earlier digit, from right to left, is offered to the front of the window and pushed
 * in by a chain of swaps that stops at the first slot holding a larger digit.
 */
module JoltageSift {
  import opened Digits
  import opened Subsequences

  /**
   * The swap chain of `sift` for one carried digit: while the carried digit is not
   * smaller than the slot, swap them and carry the old slot value onwards.
   */
  function Push(ans: seq<int>, cur: int): (r: seq<int>)
    ensures |r| == |ans|
  {
    if ans == [] then []
    else if cur < ans[0] then ans
    else [cur] + Push(ans[1..], ans[0])
  }

  /** The first k at which a rises (a[k] < a[k+1]), or the last index when a never rises. */
  function FirstRise(a: seq<int>): (k: nat)
    requires a != []
    ensures k < |a|
  {
    if |a| == 1 || a[0] < a[1] then 0 else 1 + FirstRise(a[1..])
  }

  /** a with the entry at k removed. */
  function RemoveAt(a: seq<int>, k: nat): (r: seq<int>)
    requires k < |a|
    ensures |r| == |a| - 1
  {
    a[..k] + a[k + 1..]
  }

  /**
   * One push either leaves the window alone (the digit is smaller than the front) or
   * puts the digit in front and drops exactly one old digit: the one at the first rise.
   */
  lemma {:induction false} PushShape(a: seq<int>, cur: int)
    requires a != []
    ensures cur < a[0] ==> Push(a, cur) == a
    ensures cur >= a[0] ==> Push(a, cur) == [cur] + RemoveAt(a, FirstRise(a))
  {
    if cur >= a[0] {
      if |a| == 1 {
        assert RemoveAt(a, 0) == [];
      } else if a[0] < a[1] {
        assert Push(a[1..], a[0]) == a[1..];
        assert RemoveAt(a, 0) == a[1..];
      } else {
        var t := a[1..];
        PushShape(t, a[0]);
        var k := FirstRise(t);
        assert FirstRise(a) == 1 + k;
        assert RemoveAt(a, 1 + k) == [a[0]] + RemoveAt(t, k);
      }
    }
  }

  /** The front digit of the window never gets smaller. */
  lemma PushFront(a: seq<int>, cur: int)
    requires a != []
    ensures Push(a, cur)[0] >= a[0]
    ensures Push(a, cur)[0] == if cur < a[0] then a[0] else cur
  {
  }

  /** Dropping one entry keeps a subsequence. */
  lemma {:induction false} RemoveAtSubseq(a: seq<int>, k: nat)
    requires k < |a|
    ensures IsSubseq(RemoveAt(a, k), a)
    decreases |a|
  {
    if k == 0 {
      assert RemoveAt(a, 0) == a[1..];
      SubseqRefl(a[1..]);
    } else {
      assert RemoveAt(a, k) == [a[0]] + RemoveAt(a[1..], k - 1);
      RemoveAtSubseq(a[1..], k - 1);
    }
  }

  /** The window less the digit a push drops: the one at the first rise. */
  function Drop(a: seq<int>): (r: seq<int>)
    requires a != []
    ensures |r| == |a| - 1
  {
    RemoveAt(a, FirstRise(a))
  }

  /** Drop step by step: a rise at the front drops the front; otherwise the front stays. */
  lemma DropRec(a: seq<int>)
    requires |a| >= 2
    ensures a[0] < a[1] ==> Drop(a) == a[1..]
    ensures a[0] >= a[1] ==> Drop(a) == [a[0]] + Drop(a[1..])
  {
    if a[0] >= a[1] {
      assert RemoveAt(a, 1 + FirstRise(a[1..])) == [a[0]] + RemoveAt(a[1..], FirstRise(a[1..]));
    } else {
      assert RemoveAt(a, 0) == a[1..];
    }
  }

  /** Dropping never lowers the front digit. */
  lemma DropFront(a: seq<int>)
    requires |a| >= 2
    ensures Drop(a)[0] >= a[0]
  {
    DropRec(a);
  }

  /** Dropping at the first rise gives a list no smaller than dropping the front. */
  lemma {:induction false} DropAboveTail(a: seq<int>)
    requires a != []
    ensures LexLe(a[1..], Drop(a))
  {
    if |a| == 1 {
    } else {
      DropRec(a);
      if a[0] < a[1] {
        LexRefl(a[1..]);
      } else if a[0] == a[1] {
        DropAboveTail(a[1..]);
        assert a[1..] == [a[1]] + a[1..][1..];
        LexCons(a[0], a[1..][1..], Drop(a[1..]));
      }
    }
  }

  /**
   * Dropping at the first rise from the best n digits gives the best n-1 digits.  This is
   * why the sift is right: when the new digit goes in front, the rest of the window must
   * become the best n-1 digits of what follows.
   */
  lemma {:induction false} DropBest(s: seq<int>, n: nat)
    requires 1 <= n <= |s|
    ensures Drop(Best(s, n)) == Best(s, n - 1)
    decreases |s|
  {
    if n == 1 {
      assert |Drop(Best(s, n))| == 0;
    } else if |s| == n {
      DropBest(s[1..], n - 1);
      DropBestWhole(s);
    } else {
      DropBest(s[1..], n);
      DropBest(s[1..], n - 1);
      DropBestStep(s, n);
    }
  }

  /** DropBest when n is the whole length, given it for the line without its first digit. */
  lemma DropBestWhole(s: seq<int>)
    requires |s| >= 2 && Drop(Best(s[1..], |s| - 1)) == Best(s[1..], |s| - 2)
    ensures Drop(Best(s, |s|)) == Best(s, |s| - 1)
  {
    var t := s[1..];
    assert Best(t, |s| - 1) == t;
    assert Best(s, |s| - 1) == LexMax([s[0]] + Drop(t), t);
    DropRec(s);
    if s[0] < t[0] {
      assert !LexLe(t, [s[0]] + Drop(t));
    } else {
      if s[0] == t[0] {
        DropAboveTail(t);
        assert t == [t[0]] + t[1..];
        LexCons(s[0], t[1..], Drop(t));
      }
      assert LexLe(t, [s[0]] + Drop(t));
    }
  }

  /** DropBest for n shorter than the line, given it for n and n-1 on the rest of the line. */
  lemma DropBestStep(s: seq<int>, n: nat)
    requires 2 <= n < |s|
    requires Drop(Best(s[1..], n)) == Best(s[1..], n - 1)
    requires Drop(Best(s[1..], n - 1)) == Best(s[1..], n - 2)
    ensures Drop(Best(s, n)) == Best(s, n - 1)
  {
    var t := s[1..];
    var x, y, z := Best(t, n), Best(t, n - 1), Best(t, n - 2);
    var a, b := [s[0]] + y, [s[0]] + z;
    assert Best(s, n) == LexMax(a, x);
    assert Best(s, n - 1) == LexMax(b, y);
    if LexLe(x, a) {
      DropBestFront(t, n, s[0]);
    } else {
      DropBestBehind(t, n, s[0]);
    }
  }

  /** The case of DropBestStep where the best n digits start with the first digit c. */
  lemma DropBestFront(t: seq<int>, n: nat, c: int)
    requires 2 <= n <= |t|
    requires Drop(Best(t, n - 1)) == Best(t, n - 2)
    ensures Drop([c] + Best(t, n - 1)) == LexMax([c] + Best(t, n - 2), Best(t, n - 1))
  {
    var y, z := Best(t, n - 1), Best(t, n - 2);
    var a, b := [c] + y, [c] + z;
    DropRec(a);
    assert a[1..] == y;
    if c < y[0] {
      assert !LexLe(y, b);
    } else {
      if c == y[0] {
        BestIsSubseq(t, n - 1);
        SubseqTail(y, t);
        BestIsMax(t, n - 2, y[1..]);
        assert y == [y[0]] + y[1..];
        LexCons(c, y[1..], z);
      }
      assert LexLe(y, b);
    }
  }

  /** The case of DropBestStep where the best n digits are the best n of the rest. */
  lemma DropBestBehind(t: seq<int>, n: nat, c: int)
    requires 2 <= n <= |t|
    requires Drop(Best(t, n)) == Best(t, n - 1)
    requires !LexLe(Best(t, n), [c] + Best(t, n - 1))
    ensures !LexLe(Best(t, n - 1), [c] + Best(t, n - 2))
  {
    var x, y, z := Best(t, n), Best(t, n - 1), Best(t, n - 2);
    BestIsSubseq(t, n);
    SubseqTail(x, t);
    BestIsMax(t, n - 1, x[1..]);
    assert x == [x[0]] + x[1..];
    LexCons(x[0], x[1..], y);
    assert x[0] > c;
    DropFront(x);
  }

  /** Pushing a digit into the best n digits of s gives the best n digits of the longer line. */
  lemma PushBest(s: seq<int>, n: nat, c: int)
    requires n <= |s|
    ensures Push(Best(s, n), c) == Best([c] + s, n)
  {
    if n > 0 {
      var b := Best(s, n);
      assert ([c] + s)[1..] == s;
      assert Best([c] + s, n) == LexMax([c] + Best(s, n - 1), b);
      PushShape(b, c);
      if c < b[0] {
        assert !LexLe(b, [c] + Best(s, n - 1));
      } else {
        DropBest(s, n);
        PushBestAbove(s, n, c);
      }
    }
  }

  /** A digit not below the front of the best n digits, followed by the best n-1, beats them. */
  lemma PushBestAbove(s: seq<int>, n: nat, c: int)
    requires 1 <= n <= |s| && c >= Best(s, n)[0]
    ensures LexLe(Best(s, n), [c] + Best(s, n - 1))
  {
    var b := Best(s, n);
    if c == b[0] {
      BestIsSubseq(s, n);
      SubseqTail(b, s);
      BestIsMax(s, n - 1, b[1..]);
      assert b == [b[0]] + b[1..];
      LexCons(c, b[1..], Best(s, n - 1));
    }
  }

  /**
   * The window after processing the digits at j and beyond (moving right to left):
   * the last n digits to begin with, then one push per earlier digit.
   */
  function SiftFrom(nums: seq<int>, n: nat, j: nat): (r: seq<int>)
    requires n <= |nums| && j <= |nums| - n
    ensures |r| == n
    decreases |nums| - n - j
  {
    if j == |nums| - n then nums[j..] else Push(SiftFrom(nums, n, j + 1), nums[j])
  }

  /** The digits `sift` chooses for a line. */
  function Sifted(nums: seq<int>, n: nat): (r: seq<int>)
    requires n <= |nums|
  {
    SiftFrom(nums, n, 0)
  }

  /** The window is always an order-preserving choice of n digits from the processed suffix. */
  lemma {:induction false} SiftFromSubseq(nums: seq<int>, n: nat, j: nat)
    requires n <= |nums| && j <= |nums| - n
    ensures IsSubseq(SiftFrom(nums, n, j), nums[j..])
    decreases |nums| - n - j
  {
    if j == |nums| - n {
      SubseqRefl(nums[j..]);
    } else {
      var a, c := SiftFrom(nums, n, j + 1), nums[j];
      SiftFromSubseq(nums, n, j + 1);
      assert nums[j..] == [c] + nums[j + 1..];
      if n == 0 {
        assert SiftFrom(nums, n, j) == [];
      } else {
        PushShape(a, c);
        if c < a[0] {
          SubseqCons(a, c, nums[j + 1..]);
        } else {
          var k := FirstRise(a);
          RemoveAtSubseq(a, k);
          SubseqTrans(RemoveAt(a, k), a, nums[j + 1..]);
          SubseqConsBoth(RemoveAt(a, k), c, nums[j + 1..]);
        }
      }
    }
  }

  /** The front of the window never decreases as the scan moves left. */
  lemma SiftFrontGrows(nums: seq<int>, n: nat, j: nat)
    requires 0 < n <= |nums| && j < |nums| - n
    ensures SiftFrom(nums, n, j)[0] >= SiftFrom(nums, n, j + 1)[0]
  {
    PushFront(SiftFrom(nums, n, j + 1), nums[j]);
  }

  /** The window after processing the digits from j on is the best n digits of that suffix. */
  lemma {:induction false} SiftFromIsBest(nums: seq<int>, n: nat, j: nat)
    requires n <= |nums| && j <= |nums| - n
    ensures SiftFrom(nums, n, j) == Best(nums[j..], n)
    decreases |nums| - n - j
  {
    if j < |nums| - n {
      SiftFromIsBest(nums, n, j + 1);
      assert nums[j..] == [nums[j]] + nums[j + 1..];
      PushBest(nums[j + 1..], n, nums[j]);
    }
  }

  /** The chosen digits are n digits of the line, in their order. */
  lemma SiftedSubseq(nums: seq<int>, n: nat)
    requires n <= |nums|
    ensures |Sifted(nums, n)| == n && IsSubseq(Sifted(nums, n), nums)
  {
    SiftFromSubseq(nums, n, 0);
  }

  /**
   * No choice of n digits of the line, kept in order, spells a larger number than the
   * digits `sift` chooses.
   */
  lemma SiftedIsLargest(nums: seq<int>, n: nat, t: seq<int>)
    requires n <= |nums| && IsDigitSeq(nums)
    requires |t| == n && IsSubseq(t, nums)
    ensures Value(t) <= Value(Sifted(nums, n))
  {
    SiftFromIsBest(nums, n, 0);
    assert nums[0..] == nums;
    BestIsMax(nums, n, t);
    SiftedSubseq(nums, n);
    SubseqDigits(t, nums);
    SubseqDigits(Sifted(nums, n), nums);
    LexValue(t, Sifted(nums, n));
  }

  /**
   * `sift`: seed the window with the last n digits, offer every earlier digit from right
   * to left, then read the window as a base-10 number.  Slicing the last n digits panics
   * on a shorter line, hence the precondition.
   */
  method Sift(nums: seq<int>, n: nat) returns (res: int)
    requires |nums| >= n
    ensures res == Value(Sifted(nums, n))
  {
    var back := |nums| - n;
    var ans := new int[n];
    forall i | 0 <= i < n {
      ans[i] := nums[back + i];
    }
    assert ans[..] == nums[back..];
    var j := back;
    while j > 0
      invariant 0 <= j <= back
      invariant ans[..] == SiftFrom(nums, n, j)
    {
      j := j - 1;
      PushInto(ans, nums[j]);
    }
    res := FromDigits(ans[..]);
  }

  /** The inner loop of `sift`: the swap chain on the window, in place. */
  method PushInto(ans: array<int>, c: int)
    modifies ans
    ensures ans[..] == Push(old(ans[..]), c)
  {
    ghost var a := ans[..];
    var cur := c;
    var i := 0;
    while i < ans.Length
      invariant 0 <= i <= ans.Length
      invariant ans[..i] + Push(ans[i..], cur) == Push(a, c)
    {
      if cur < ans[i] {
        break;
      }
      ghost var before := ans[..];
      ghost var carried := cur;
      SwapStep(before, i, cur);
      cur, ans[i] := ans[i], cur;
      assert ans[..i + 1] == before[..i] + [carried];
      assert ans[i + 1..] == before[i + 1..];
      i := i + 1;
    }
    assert ans[..i] + ans[i..] == ans[..];
  }

  /** One swap of the chain: a carried digit not below slot i takes the slot and carries it on. */
  lemma SwapStep(s: seq<int>, i: nat, cur: int)
    requires i < |s| && cur >= s[i]
    ensures s[..i] + Push(s[i..], cur) == (s[..i] + [cur]) + Push(s[i + 1..], s[i])
  {
    assert s[i..][1..] == s[i + 1..];
  }
}
