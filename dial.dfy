/**
 * A circular dial with positions 0..99 that starts at 50.  Each input line is a
 * direction character and a distance; `L` turns the dial down, every other
 * direction turns it up.  The answer counts how often the dial points at 0,
 * including every pass through 0 in the middle of a turn.
 */
module Dial {
  import opened Options
  import opened Text

  /** The dial's starting position. */
  const Start: int := 50

  /** The number of positions on the dial. */
  const Size: int := 100

  /** One parsed input line: a direction character and a signed distance. */
  datatype Move = Move(dir: char, distance: int)

  /** A line the source can parse: a first character and an integer after it. */
  predicate WellFormed(line: string)
  {
    |line| >= 1 && ParseInt(line[1..]).Some?
  }

  /** Reads a line: `chars.nth(0)` is the direction, the rest parses as an integer. */
  function ParseMove(line: string): Move
    requires WellFormed(line)
  {
    Move(line[0], ParseInt(line[1..]).value)
  }

  /** The text of a move: its direction followed by its distance. */
  function MoveText(m: Move): string
  {
    [m.dir] + IntToString(m.distance)
  }

  /** Parsing the text of a move recovers the move. */
  lemma ParseMoveRoundTrip(m: Move)
    ensures WellFormed(MoveText(m)) && ParseMove(MoveText(m)) == m
  {
    IntRoundTrip(m.distance);
    assert MoveText(m)[1..] == IntToString(m.distance);
  }

  /** The signed amount of a move: `L` turns down, anything else turns up. */
  function Offset(m: Move): int
  {
    if m.dir == 'L' then -m.distance else m.distance
  }

  /** The position after turning by mv from cur (`rem_euclid(100)`). */
  function Turn(cur: int, mv: int): (r: int)
    ensures 0 <= r < Size
  {
    (cur + mv) % Size
  }

  /** Rust's `i64::abs`. */
  function Abs(x: int): nat
  {
    if x < 0 then -x else x
  }

  /** The source's closed form for the number of times a turn from cur by mv reaches 0. */
  function ZeroPasses(cur: int, mv: int): nat
  {
    var raw := cur + mv;
    if raw <= 0 then (if cur == 0 then 0 else 1) + Abs(raw) / Size
    else if raw >= Size then raw / Size
    else 0
  }

  /** Turning one click at a time: how many of n clicks in direction dir (+1 or -1) land on 0. */
  function Clicks(pos: int, dir: int, n: nat): nat
    decreases n
  {
    if n == 0 then 0
    else
      var next := (pos + dir) % Size;
      (if next == 0 then 1 else 0) + Clicks(next, dir, n - 1)
  }

  /** The click-by-click count for a turn by mv. */
  function ClickCount(cur: int, mv: int): nat
  {
    if mv >= 0 then Clicks(cur, 1, mv) else Clicks(cur, -1, -mv)
  }

  /** Floor division by 100 steps up by one exactly at multiples of 100. */
  lemma DivStep(q: int)
    ensures q / Size - (q - 1) / Size == if q % Size == 0 then 1 else 0
  {
    var d, m := q / Size, q % Size;
    assert q == Size * d + m && 0 <= m < Size;
    if m == 0 {
      assert q - 1 == Size * (d - 1) + (Size - 1);
    } else {
      assert q - 1 == Size * d + (m - 1);
    }
  }

  /** Adding one to a position commutes with reduction modulo 100. */
  lemma ModStep(p: int, dir: int)
    ensures (p % Size + dir) % Size == (p + dir) % Size
  {
    var d := p / Size;
    assert p == Size * d + p % Size;
    assert p + dir == Size * d + (p % Size + dir);
  }

  /** Clicking n times up from p lands on 0 once per multiple of 100 in (p, p+n]. */
  lemma {:induction false} ClicksUp(p: int, n: nat)
    ensures Clicks(p % Size, 1, n) == (p + n) / Size - p / Size
    decreases n
  {
    if n > 0 {
      ModStep(p, 1);
      ClicksUp(p + 1, n - 1);
      DivStep(p + 1);
    }
  }

  /** Clicking n times down from p lands on 0 once per multiple of 100 in [p-n, p). */
  lemma {:induction false} ClicksDown(p: int, n: nat)
    ensures Clicks(p % Size, -1, n) == (p - 1) / Size - (p - n - 1) / Size
    decreases n
  {
    if n > 0 {
      ModStep(p, -1);
      ClicksDown(p - 1, n - 1);
      DivStep(p - 1);
    }
  }

  /** For m >= 0, floor((-m-1)/100) = -(m/100) - 1. */
  lemma DivBelowZero(m: int)
    requires m >= 0
    ensures (-m - 1) / Size == -(m / Size) - 1
  {
    var d, r := m / Size, m % Size;
    assert m == Size * d + r;
    assert -m - 1 == Size * (-d - 1) + (Size - 1 - r);
  }

  /** The closed form in `count_zeros` counts exactly the clicks that land on 0. */
  lemma ZeroPassesCountsClicks(cur: int, mv: int)
    requires 0 <= cur < Size
    ensures ZeroPasses(cur, mv) == ClickCount(cur, mv)
  {
    assert cur % Size == cur;
    var raw := cur + mv;
    if mv >= 0 {
      ClicksUp(cur, mv);
    } else {
      ClicksDown(cur, -mv);
      if raw <= 0 {
        DivBelowZero(-raw);
        assert (raw - 1) / Size == -((-raw) / Size) - 1;
      } else {
        assert 0 <= raw - 1 < Size;
      }
    }
  }

  /** The position after each of the moves mvs in turn, from cur. */
  function Position(cur: int, mvs: seq<int>): int
    decreases |mvs|
  {
    if mvs == [] then cur else Position(Turn(cur, mvs[0]), mvs[1..])
  }

  /** The answer for the moves mvs from position cur: the sum of the closed forms. */
  function Passes(cur: int, mvs: seq<int>): nat
    decreases |mvs|
  {
    if mvs == [] then 0 else ZeroPasses(cur, mvs[0]) + Passes(Turn(cur, mvs[0]), mvs[1..])
  }

  /** The reference answer: the click-by-click count over all moves. */
  function ClickTotal(cur: int, mvs: seq<int>): nat
    decreases |mvs|
  {
    if mvs == [] then 0 else ClickCount(cur, mvs[0]) + ClickTotal(Turn(cur, mvs[0]), mvs[1..])
  }

  /** Summing the closed forms is the same as counting every click that lands on 0. */
  lemma {:induction false} PassesCountsClicks(cur: int, mvs: seq<int>)
    requires 0 <= cur < Size
    ensures Passes(cur, mvs) == ClickTotal(cur, mvs)
    decreases |mvs|
  {
    if mvs != [] {
      ZeroPassesCountsClicks(cur, mvs[0]);
      PassesCountsClicks(Turn(cur, mvs[0]), mvs[1..]);
    }
  }

  /** The running answer never decreases: a prefix of the moves never counts more. */
  lemma {:induction false} PassesPrefix(cur: int, mvs: seq<int>, k: nat)
    requires k <= |mvs|
    ensures Passes(cur, mvs[..k]) <= Passes(cur, mvs)
    decreases k
  {
    if k > 0 {
      assert mvs[..k][0] == mvs[0];
      assert mvs[..k][1..] == mvs[1..][..k - 1];
      PassesPrefix(Turn(cur, mvs[0]), mvs[1..], k - 1);
    }
  }

  /** Moving by a prefix and then the next move. */
  lemma {:induction false} PassesSnoc(cur: int, mvs: seq<int>, mv: int)
    ensures Passes(cur, mvs + [mv]) == Passes(cur, mvs) + ZeroPasses(Position(cur, mvs), mv)
    ensures Position(cur, mvs + [mv]) == Turn(Position(cur, mvs), mv)
    decreases |mvs|
  {
    if mvs == [] {
      assert [mv][1..] == [];
    } else {
      assert (mvs + [mv])[0] == mvs[0];
      assert (mvs + [mv])[1..] == mvs[1..] + [mv];
      PassesSnoc(Turn(cur, mvs[0]), mvs[1..], mv);
    }
  }

  /** The signed amounts of the parsed lines. */
  function Offsets(lines: seq<string>): (mvs: seq<int>)
    requires forall i :: 0 <= i < |lines| ==> WellFormed(lines[i])
    ensures |mvs| == |lines|
  {
    if lines == [] then [] else Offsets(lines[..|lines| - 1]) + [Offset(ParseMove(lines[|lines| - 1]))]
  }

  /**
   * `count_zeros`: parse each line, turn the dial, and add the line's zero passes.
   * The dial stays on 0..99, and the total equals the click-by-click count.
   */
  method CountZeros(lines: seq<string>) returns (ans: int)
    requires forall i :: 0 <= i < |lines| ==> WellFormed(lines[i])
    ensures ans == Passes(Start, Offsets(lines))
    ensures ans == ClickTotal(Start, Offsets(lines))
  {
    var cur := Start;
    ans := 0;
    var i := 0;
    while i < |lines|
      invariant 0 <= i <= |lines|
      invariant 0 <= cur < Size
      invariant cur == Position(Start, Offsets(lines[..i]))
      invariant ans == Passes(Start, Offsets(lines[..i]))
    {
      var m := ParseMove(lines[i]);
      var mv := if m.dir == 'L' then -1 * m.distance else m.distance;
      var zeroPasses := 0;
      var raw := cur + mv;
      if raw <= 0 {
        zeroPasses := (if cur == 0 then 0 else 1) + Abs(raw) / Size;
      } else if raw >= Size {
        zeroPasses := raw / Size;
      }
      assert lines[..i + 1][..i] == lines[..i];
      ghost var done := Offsets(lines[..i]);
      assert Offsets(lines[..i + 1]) == done + [mv];
      PassesSnoc(Start, done, mv);
      assert zeroPasses == ZeroPasses(cur, mv);
      assert Position(Start, Offsets(lines[..i + 1])) == Turn(cur, mv) == raw % Size;
      cur := raw % Size;
      ans := ans + zeroPasses;
      i := i + 1;
    }
    assert lines[..i] == lines;
    PassesCountsClicks(Start, Offsets(lines));
  }
}
