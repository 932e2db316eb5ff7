/**
 * Product IDs made of one block of digits written twice ("double" IDs, such as
 * 6464 or 123123).  The input is a comma-separated list of inclusive ranges
 * `low-high`; the answer is the sum of every double ID in every range.
 */
module Doubles {
  import opened Options
  import opened Text

  /** The two bounds of a range. */
  datatype Range<T> = Range(low: T, high: T)

  /** The result of `find_doubles`: the sum, or the error a bound that does not parse raises. */
  datatype Outcome = Ok(sum: int) | InvalidData

  /** The zip loop of `is_double`: false at the first differing pair, true when either side runs out. */
  function PairsMatch(a: string, b: string): bool
  {
    if a == [] || b == [] then true
    else if a[0] != b[0] then false
    else PairsMatch(a[1..], b[1..])
  }

  /** `is_double`: odd-length texts never are; otherwise the halves are compared pair by pair. */
  function IsDouble(x: string): bool
  {
    if |x| % 2 == 1 then false
    else PairsMatch(x[..|x| / 2], x[|x| / 2..])
  }

  /** On texts of equal length the zip loop decides equality. */
  lemma {:induction false} PairsMatchIsEquality(a: string, b: string)
    requires |a| == |b|
    ensures PairsMatch(a, b) <==> a == b
  {
    if a != [] && a[0] == b[0] {
      PairsMatchIsEquality(a[1..], b[1..]);
      if a[1..] == b[1..] {
        assert a == [a[0]] + a[1..] && b == [b[0]] + b[1..];
      }
    }
  }

  /** A text is a double exactly when it has even length and its first half equals its second. */
  lemma IsDoubleIff(x: string)
    ensures IsDouble(x) <==> |x| % 2 == 0 && x[..|x| / 2] == x[|x| / 2..]
    ensures |x| % 2 == 1 ==> !IsDouble(x)
  {
    if |x| % 2 == 0 {
      PairsMatchIsEquality(x[..|x| / 2], x[|x| / 2..]);
    }
  }

  /** The index of the first c in s at or after `from`, if there is one. */
  function FindFrom(s: string, c: char, from: nat): (k: Option<nat>)
    requires from <= |s|
    ensures k.Some? ==> from <= k.value < |s|
    decreases |s| - from
  {
    if from == |s| then None
    else if s[from] == c then Some(from)
    else FindFrom(s, c, from + 1)
  }

  /** The search finds a c with none before it, or reports that there is none. */
  lemma {:induction false} FindFromFirst(s: string, c: char, from: nat)
    requires from <= |s|
    ensures FindFrom(s, c, from).Some? ==> s[FindFrom(s, c, from).value] == c
    ensures FindFrom(s, c, from).Some? ==> forall i :: from <= i < FindFrom(s, c, from).value ==> s[i] != c
    ensures FindFrom(s, c, from).None? ==> forall i :: from <= i < |s| ==> s[i] != c
    decreases |s| - from
  {
    if from < |s| && s[from] != c {
      FindFromFirst(s, c, from + 1);
    }
  }

  /** `split_once(c)`: the text before and after the first c, or None when there is no c. */
  function SplitOnce(input: string, c: char): (r: Option<Range<string>>)
  {
    match FindFrom(input, c, 0)
    case None => None
    case Some(k) => Some(Range(input[..k], input[k + 1..]))
  }

  /** The split point of `split_once` is the first c; the parts are the text on either side. */
  lemma SplitOnceFirst(input: string, c: char)
    ensures SplitOnce(input, c).None? ==> forall i :: 0 <= i < |input| ==> input[i] != c
    ensures SplitOnce(input, c).Some? ==>
      var r := SplitOnce(input, c).value;
      && |r.low| < |input| && input[|r.low|] == c
      && r.low == input[..|r.low|] && r.high == input[|r.low| + 1..]
      && forall i :: 0 <= i < |r.low| ==> input[i] != c
  {
    FindFromFirst(input, c, 0);
  }

  /** `split_once` fails exactly when there is no c; otherwise the parts and c make up the input. */
  lemma SplitOnceSplits(input: string, c: char)
    ensures SplitOnce(input, c).None? <==> c !in input
    ensures SplitOnce(input, c).Some? ==>
      var r := SplitOnce(input, c).value;
      r.low + [c] + r.high == input && c !in r.low
  {
    SplitOnceFirst(input, c);
    var r := SplitOnce(input, c);
    if r.Some? {
      var k := |r.value.low|;
      assert input == input[..k] + [c] + input[k + 1..];
    }
  }

  /** The split that `split_once` finds is the only one with no c on its left. */
  lemma SplitOnceUnique(input: string, c: char, low: string, high: string)
    requires low + [c] + high == input && c !in low
    ensures SplitOnce(input, c) == Some(Range(low, high))
  {
    SplitOnceFirst(input, c);
    assert input[|low|] == c;
    assert input[..|low|] == low && input[|low| + 1..] == high;
  }

  /** A chunk `parse_range` accepts: its trimmed text has a `-` (otherwise `unwrap` panics). */
  predicate HasDash(chunk: string)
  {
    SplitOnce(Trim(chunk), '-').Some?
  }

  /** `parse_range`: the two sides of the first `-`. */
  function ParseRange(input: string): Range<string>
    requires SplitOnce(input, '-').Some?
  {
    SplitOnce(input, '-').value
  }

  /** The skip test of `find_doubles`: both bounds have the same odd length in UTF-8 bytes. */
  predicate Skipped(r: Range<string>)
  {
    Utf8Length(r.high) == Utf8Length(r.low) && Utf8Length(r.high) % 2 != 0
  }

  /** The sum of the x in low..=high whose decimal text is a double; 0 when low > high. */
  function DoubleSum(low: int, high: int): int
    decreases high - low
  {
    if low > high then 0
    else DoubleSum(low, high - 1) + (if IsDouble(IntToString(high)) then high else 0)
  }

  /**
   * What one comma-separated chunk adds to the answer, or the error it raises.  A chunk
   * without `-` makes the source panic; `FindDoubles` excludes it from the chunks it reaches,
   * and here it counts as an error.
   */
  function ChunkTotal(chunk: string): Outcome
  {
    if !HasDash(chunk) then InvalidData
    else
    var r := ParseRange(Trim(chunk));
    if Skipped(r) then Ok(0)
    else
      match (ParseInt(r.low), ParseInt(r.high))
      case (Some(lo), Some(hi)) => Ok(DoubleSum(lo, hi))
      case _ => InvalidData
  }

  /** Adds one chunk's outcome to the running outcome; an error on either side is kept. */
  function Combine(sofar: Outcome, next: Outcome): Outcome
  {
    match sofar
    case InvalidData => InvalidData
    case Ok(s) =>
      match next
      case InvalidData => InvalidData
      case Ok(v) => Ok(s + v)
  }

  /** The outcome of the first k chunks, processed left to right; the first error wins. */
  function TotalUpTo(chunks: seq<string>, k: nat): Outcome
    requires k <= |chunks|
  {
    if k == 0 then Ok(0) else Combine(TotalUpTo(chunks, k - 1), ChunkTotal(chunks[k - 1]))
  }

  /** The answer for a list of chunks. */
  function Total(chunks: seq<string>): Outcome
  {
    TotalUpTo(chunks, |chunks|)
  }

  /** Once the first k chunks fail, the whole list fails. */
  lemma {:induction false} TotalFailsFromPrefix(chunks: seq<string>, k: nat)
    requires k <= |chunks| && TotalUpTo(chunks, k) == InvalidData
    ensures Total(chunks) == InvalidData
    decreases |chunks| - k
  {
    if k < |chunks| {
      assert TotalUpTo(chunks, k + 1) == InvalidData by {
        assert TotalUpTo(chunks, k + 1) == Combine(TotalUpTo(chunks, k), ChunkTotal(chunks[k]));
      }
      TotalFailsFromPrefix(chunks, k + 1);
    }
  }

  /** No x in [low, high] whose decimal text has an odd length L is a double. */
  lemma {:induction false} NoOddDoubles(low: nat, high: int, len: nat)
    requires len % 2 == 1
    requires |NatToString(low)| == len
    requires low <= high ==> |NatToString(high)| == len
    ensures DoubleSum(low, high) == 0
    decreases high - low
  {
    if low <= high {
      NatToStringLengthMono(low, high);
      NatToStringLengthMono(high, high);
      IsDoubleIff(IntToString(high));
      if low <= high - 1 {
        NatToStringLengthMono(low, high - 1);
        NatToStringLengthMono(high - 1, high);
      }
      NoOddDoubles(low, high - 1, len);
    }
  }

  /**
   * The skip loses nothing when both bounds are canonical decimal texts: every number
   * between two bounds of the same odd digit count has that digit count, so none is a double.
   */
  lemma SkipIsSound(chunk: string)
    requires HasDash(chunk)
    requires IsCanonical(ParseRange(Trim(chunk)).low) && IsCanonical(ParseRange(Trim(chunk)).high)
    ensures ChunkTotal(chunk) ==
      Ok(DoubleSum(ParseNat(ParseRange(Trim(chunk)).low), ParseNat(ParseRange(Trim(chunk)).high)))
  {
    var r := ParseRange(Trim(chunk));
    var lo, hi := ParseNat(r.low), ParseNat(r.high);
    ParseIntAccepts(r.low);
    ParseIntAccepts(r.high);
    DigitsUtf8Length(r.low);
    DigitsUtf8Length(r.high);
    if Skipped(r) {
      CanonicalRoundTrip(r.low);
      CanonicalRoundTrip(r.high);
      NoOddDoubles(lo, hi, |r.low|);
    }
  }

  /**
   * The skip test counts bytes, not characters: "\u00E9-1" has ends of two bytes and one,
   * so it is parsed, and fails, although both ends are one character long.
   */
  lemma NonAsciiIsParsed()
    ensures ChunkTotal("\U{00E9}-1") == InvalidData
  {
    assert Trim("\U{00E9}-1") == "\U{00E9}-1" by {
      TrimToken("\U{00E9}-1");
    }
    var r := ParseRange("\U{00E9}-1");
    assert r == Range("\U{00E9}", "1") by {
      SplitOnceUnique("\U{00E9}-1", '-', "\U{00E9}", "1");
    }
    assert Utf8Length(r.low) == 2 && Utf8Length(r.high) == 1;
    assert ParseInt(r.low).None?;
  }

  /** The inner loop of `find_doubles`: the doubles in the inclusive range low..=high. */
  method SumDoubles(low: int, high: int) returns (sum: int)
    ensures sum == DoubleSum(low, high)
  {
    sum := 0;
    var x := low;
    while x <= high
      invariant low <= x && (x <= high + 1 || x == low)
      invariant sum == DoubleSum(low, x - 1)
    {
      if IsDouble(IntToString(x)) {
        sum := sum + x;
      }
      x := x + 1;
    }
  }

  /**
   * The body of the loop in `find_doubles`, for one chunk: split the trimmed text at `-`,
   * skip it when both bounds have the same odd length, parse both bounds (failing on bad
   * text), and add up the doubles in the inclusive range.
   */
  method ChunkSum(chunk: string) returns (res: Outcome)
    requires HasDash(chunk)
    ensures res == ChunkTotal(chunk)
  {
    var range := ParseRange(Trim(chunk));
    if Utf8Length(range.high) == Utf8Length(range.low) && Utf8Length(range.high) % 2 != 0 {
      return Ok(0);
    }
    var low := ParseInt(range.low);
    var high := ParseInt(range.high);
    if low.None? || high.None? {
      return InvalidData;
    }
    var found := SumDoubles(low.value, high.value);
    return Ok(found);
  }

  /**
   * One pass of the loop in `find_doubles`: add chunk k to the sum of the chunks before it,
   * or end the whole answer with the chunk's error.
   */
  method AddChunk(chunks: seq<string>, k: nat, sofar: int) returns (r: Outcome)
    requires k < |chunks| && HasDash(chunks[k]) && TotalUpTo(chunks, k) == Ok(sofar)
    ensures r.InvalidData? ==> Total(chunks) == InvalidData
    ensures r.Ok? ==> TotalUpTo(chunks, k + 1) == r
  {
    var c := ChunkSum(chunks[k]);
    if c.InvalidData? {
      TotalFailsFromPrefix(chunks, k + 1);
      return InvalidData;
    }
    return Ok(sofar + c.sum);
  }

  /**
   * `find_doubles`: the chunks in order, stopping at the first error, summing what each
   * chunk contributes.
   */
  method FindDoubles(chunks: seq<string>) returns (r: Outcome)
    requires forall i :: 0 <= i < |chunks| && TotalUpTo(chunks, i).Ok? ==> HasDash(chunks[i])
    ensures r == Total(chunks)
  {
    var ans := 0;
    var k := 0;
    while k < |chunks|
      invariant 0 <= k <= |chunks|
      invariant TotalUpTo(chunks, k) == Ok(ans)
    {
      var c := AddChunk(chunks, k, ans);
      if c.InvalidData? {
        return InvalidData;
      }
      ans := c.sum;
      k := k + 1;
    }
    return Ok(ans);
  }
}
