/**
 * Base-10 values of digit lists, most significant digit first.
 *
 * Three of the puzzles turn a list of digits into a number with the same
 * loop: walk the list from the back, and add `10^i * d` for the i-th digit
 * counted from the end.  `FromDigits` is that loop; `Value` is its meaning.
 */
module Digits {

  /** 10 to the power k. */
  function Pow10(k: nat): (r: nat)
    ensures r >= 1
    ensures k > 0 ==> r >= 10
  {
    if k == 0 then 1 else 10 * Pow10(k - 1)
  }

  /** True when every entry of ds is a decimal digit. */
  predicate IsDigitSeq(ds: seq<int>)
  {
    forall i :: 0 <= i < |ds| ==> 0 <= ds[i] < 10
  }

  /** The base-10 value of ds read most significant digit first; [] has value 0. */
  function Value(ds: seq<int>): int
  {
    if ds == [] then 0 else Value(ds[..|ds| - 1]) * 10 + ds[|ds| - 1]
  }

  /** Splitting a digit list splits its value: the left part is shifted by |b| places. */
  lemma {:induction false} ValueAppend(a: seq<int>, b: seq<int>)
    ensures Value(a + b) == Value(a) * Pow10(|b|) + Value(b)
  {
    if b == [] {
      assert a + b == a;
    } else {
      var b' := b[..|b| - 1];
      assert (a + b)[..|a + b| - 1] == a + b';
      ValueAppend(a, b');
      calc {
        Value(a + b);
        Value(a + b') * 10 + b[|b| - 1];
        (Value(a) * Pow10(|b'|) + Value(b')) * 10 + b[|b| - 1];
        Value(a) * (Pow10(|b'|) * 10) + (Value(b') * 10 + b[|b| - 1]);
        Value(a) * Pow10(|b|) + Value(b);
      }
    }
  }

  /** The first digit weighs 10^(|ds|-1): Value(ds) = Σ ds[i]·10^(|ds|-1-i). */
  lemma {:induction false} ValueFront(ds: seq<int>)
    requires |ds| > 0
    ensures Value(ds) == ds[0] * Pow10(|ds| - 1) + Value(ds[1..])
  {
    var head, tail := [ds[0]], ds[1..];
    assert ds == head + tail;
    ValueAppend(head, tail);
    assert head[..0] == [];
    assert Value(head) == Value([]) * 10 + ds[0];
  }

  /** A list of n digits has a value in [0, 10^n). */
  lemma {:induction false} ValueBounds(ds: seq<int>)
    requires IsDigitSeq(ds)
    ensures 0 <= Value(ds) < Pow10(|ds|)
  {
    if ds != [] {
      var init := ds[..|ds| - 1];
      assert IsDigitSeq(init) by {
        forall i | 0 <= i < |init| ensures 0 <= init[i] < 10 {
          assert init[i] == ds[i];
        }
      }
      ValueBounds(init);
    }
  }

  /** A digit list whose first digit is not 0 has exactly |ds| digits: Value(ds) >= 10^(|ds|-1). */
  lemma {:induction false} ValueLeading(ds: seq<int>)
    requires IsDigitSeq(ds) && |ds| > 0 && ds[0] != 0
    ensures Value(ds) >= Pow10(|ds| - 1)
  {
    var tail := ds[1..];
    ValueFront(ds);
    assert IsDigitSeq(tail) by {
      forall i | 0 <= i < |tail| ensures 0 <= tail[i] < 10 {
        assert tail[i] == ds[i + 1];
      }
    }
    ValueBounds(tail);
    assert ds[0] * Pow10(|ds| - 1) >= Pow10(|ds| - 1);
  }

  /** Quotient and remainder are unique: w * q + r with 0 <= r < w divides into q and r. */
  lemma DivMod(q: int, r: int, w: int)
    requires w > 0 && 0 <= r < w
    ensures (w * q + r) / w == q && (w * q + r) % w == r
  {
    var i := w * q + r;
    var d := q - i / w;
    assert w * d == i % w - r;
    if d > 0 {
      MulGe(d, w);
    } else if d < 0 {
      MulGe(-d, w);
    }
  }

  /** A factor of at least one does not make a non-negative number smaller. */
  lemma MulGe(a: int, b: int)
    requires a >= 1 && b >= 0
    ensures a * b >= b
  {
    assert a * b == b + (a - 1) * b;
  }

  /**
   * The conversion loop: `for (i, n) in ds.iter().rev().enumerate() { res += 10^i * n }`.
   * Integers are unbounded here; the source's u32/u64 overflow is not modelled.
   */
  method FromDigits(ds: seq<int>) returns (res: int)
    ensures res == Value(ds)
  {
    res := 0;
    var i := 0;
    while i < |ds|
      invariant 0 <= i <= |ds|
      invariant res == Value(ds[|ds| - i..])
    {
      var n := ds[|ds| - 1 - i];
      ValueFront(ds[|ds| - 1 - i..]);
      assert ds[|ds| - 1 - i..][1..] == ds[|ds| - i..];
      res := res + Pow10(i) * n;
      i := i + 1;
    }
    assert ds[|ds| - i..] == ds;
  }
}
