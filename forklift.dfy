/**
 * The paper-roll grid.  The input lines are trimmed and read as one run of cells in
 * reading order; cell i sits at row i / width and column i % width, where width is the
 * length of the first (untrimmed) line.  A roll ('@') can be reached by a forklift when
 * fewer than four of the eight surrounding cells inside the grid hold a roll.
 */
module Forklift {
  import opened Options
  import opened Digits
  import opened Text

  /** A grid position, row first. */
  datatype Point = Point(y: int, x: int)

  /** `Point::add`: componentwise sum. */
  function Add(p: Point, q: Point): Point
  {
    Point(p.y + q.y, p.x + q.x)
  }

  /** `EIGHT_CELLS`: down, up, right, left and the four diagonals. */
  const EightCells: seq<Point> :=
    [Point(1, 0), Point(-1, 0), Point(0, 1), Point(0, -1),
     Point(1, 1), Point(1, -1), Point(-1, 1), Point(-1, -1)]

  /** An offset to one of the eight surrounding cells. */
  predicate IsNeighbourOffset(o: Point)
  {
    -1 <= o.y <= 1 && -1 <= o.x <= 1 && o != Point(0, 0)
  }

  /** `EIGHT_CELLS` lists each surrounding cell exactly once. */
  lemma EightCellsAreTheNeighbours()
    ensures |EightCells| == 8
    ensures forall i, j :: 0 <= i < j < |EightCells| ==> EightCells[i] != EightCells[j]
    ensures forall i :: 0 <= i < |EightCells| ==> IsNeighbourOffset(EightCells[i])
    ensures forall o :: IsNeighbourOffset(o) ==> o in EightCells
  {
    forall o | IsNeighbourOffset(o) ensures o in EightCells {
      if o.y == 1 {
        assert o == EightCells[0] || o == EightCells[4] || o == EightCells[5];
      } else if o.y == -1 {
        assert o == EightCells[1] || o == EightCells[6] || o == EightCells[7];
      } else {
        assert o == EightCells[2] || o == EightCells[3];
      }
    }
  }

  /** Absolute value. */
  function Abs(a: int): nat
  {
    if a < 0 then -a else a
  }

  /** Rust's integer `/`: the quotient rounded toward zero. */
  function TruncDiv(a: int, b: int): int
    requires b != 0
  {
    var q := Abs(a) / Abs(b);
    if (a < 0) == (b < 0) then q else -q
  }

  /** Rust's integer `%`: the remainder that goes with `TruncDiv`. */
  function TruncRem(a: int, b: int): int
    requires b != 0
  {
    a - b * TruncDiv(a, b)
  }

  /** On a non-negative dividend and positive divisor, Rust's `/` and `%` are the Euclidean ones. */
  lemma TruncIsEuclid(a: int, b: int)
    requires a >= 0 && b > 0
    ensures TruncDiv(a, b) == a / b && TruncRem(a, b) == a % b
  {
  }

  /** `to_grid` (and `Point::from_index`): row `i / w`, column `i % w`. */
  function ToGrid(i: int, w: int): Point
    requires w != 0
  {
    Point(TruncDiv(i, w), TruncRem(i, w))
  }

  /** `to_index`: `y * w + x % w`. */
  function ToIndex(p: Point, w: int): int
    requires w != 0
  {
    p.y * w + TruncRem(p.x, w)
  }

  /** The point in row q and column r < w has index w * q + r. */
  lemma IndexOf(q: int, r: int, w: int)
    requires w > 0 && 0 <= r < w
    ensures ToIndex(Point(q, r), w) == w * q + r
  {
    DivMod(0, r, w);
    TruncIsEuclid(r, w);
  }

  /** Cell i lies in a column of the grid, and converting back gives i. */
  lemma GridRoundTrip(i: int, w: int)
    requires i >= 0 && w > 0
    ensures ToGrid(i, w) == Point(i / w, i % w)
    ensures 0 <= ToGrid(i, w).x < w && 0 <= ToGrid(i, w).y
    ensures ToIndex(ToGrid(i, w), w) == i
  {
    var q, r := i / w, i % w;
    assert ToGrid(i, w) == Point(q, r) by {
      TruncIsEuclid(i, w);
    }
    assert ToIndex(Point(q, r), w) == i by {
      IndexOf(q, r, w);
    }
  }

  /** A point with a column in the grid has a non-negative index that converts back to it. */
  lemma IndexRoundTrip(p: Point, w: int)
    requires w > 0 && 0 <= p.x < w && 0 <= p.y
    ensures ToIndex(p, w) == w * p.y + p.x >= p.x
    ensures ToGrid(ToIndex(p, w), w) == p
  {
    IndexOf(p.y, p.x, w);
    var i := w * p.y + p.x;
    assert w * p.y >= 0;
    TruncIsEuclid(i, w);
    DivMod(p.y, p.x, w);
  }

  /** Different cells sit at different points. */
  lemma ToGridInjective(i: int, j: int, w: int)
    requires 0 <= i && 0 <= j && w > 0 && i != j
    ensures ToGrid(i, w) != ToGrid(j, w)
  {
    GridRoundTrip(i, w);
    GridRoundTrip(j, w);
  }

  /** `validate_grid(p, (h, w))`: the point itself when it lies inside the h by w grid. */
  function ValidateGrid(p: Point, h: int, w: int): (r: Option<Point>)
    ensures r.Some? <==> 0 <= p.x < w && 0 <= p.y < h
    ensures r.Some? ==> r.value == p
  {
    if p.x >= w || p.x < 0 || p.y >= h || p.y < 0 then None else Some(p)
  }

  /** The cells in reading order: the trimmed lines one after another. */
  function Cells(lines: seq<string>): seq<char>
  {
    if lines == [] then [] else Cells(lines[..|lines| - 1]) + Trim(lines[|lines| - 1])
  }

  /** `width`: the length of the first line before trimming (0 without lines). */
  function Width(lines: seq<string>): int
  {
    if lines == [] then 0 else |lines[0]|
  }

  /** The entry of `points` for cell i: its point when the cell holds a roll. */
  function Entry(c: char, i: int, w: int): Option<Point>
    requires w != 0
  {
    if c == '@' then Some(ToGrid(i, w)) else None
  }

  /** The entry of `rolls` for a cell: `Some(0)` for a roll, `None` otherwise. */
  function RollEntry(c: char): Option<int>
  {
    if c == '@' then Some(0) else None
  }

  /** `points`: one entry per cell, in reading order. */
  function Points(cells: seq<char>, w: int): (ps: seq<Option<Point>>)
    requires w > 0 || cells == []
    ensures |ps| == |cells|
  {
    if cells == [] then []
    else Points(cells[..|cells| - 1], w) + [Entry(cells[|cells| - 1], |cells| - 1, w)]
  }

  /** `rolls`: every cell's point mapped to its roll entry. */
  function Rolls(cells: seq<char>, w: int): map<Point, Option<int>>
    requires w > 0 || cells == []
  {
    if cells == [] then map[]
    else Rolls(cells[..|cells| - 1], w)[ToGrid(|cells| - 1, w) := RollEntry(cells[|cells| - 1])]
  }

  /**
   * `points` is row-major: entry i is `Some` exactly when cell i holds a roll, and then it
   * is the point of cell i.
   */
  lemma {:induction false} PointsAt(cells: seq<char>, w: int)
    requires w > 0 || cells == []
    ensures forall i :: 0 <= i < |cells| ==> Points(cells, w)[i] == Entry(cells[i], i, w)
    ensures forall i :: 0 <= i < |cells| ==> (Points(cells, w)[i].Some? <==> cells[i] == '@')
  {
    if cells != [] {
      var init := cells[..|cells| - 1];
      PointsAt(init, w);
      assert forall i :: 0 <= i < |init| ==> cells[i] == init[i];
    }
  }

  /** `rolls` has exactly the points of the cells as keys. */
  lemma {:induction false} RollsKeys(cells: seq<char>, w: int)
    requires w > 0 || cells == []
    ensures Rolls(cells, w).Keys == set i | 0 <= i < |cells| :: ToGrid(i, w)
  {
    if cells != [] {
      var n := |cells| - 1;
      RollsKeys(cells[..n], w);
      assert (set i | 0 <= i < |cells| :: ToGrid(i, w)) == (set i | 0 <= i < n :: ToGrid(i, w)) + {ToGrid(n, w)};
    }
  }

  /** Each cell's point is mapped to that cell's roll entry: no later cell overwrites it. */
  lemma {:induction false} RollsAt(cells: seq<char>, w: int)
    requires w > 0 || cells == []
    ensures forall i :: 0 <= i < |cells| ==>
      ToGrid(i, w) in Rolls(cells, w) && Rolls(cells, w)[ToGrid(i, w)] == RollEntry(cells[i])
  {
    if cells != [] {
      var n := |cells| - 1;
      var init := cells[..n];
      RollsAt(init, w);
      forall i | 0 <= i < n
        ensures ToGrid(i, w) in Rolls(cells, w) && Rolls(cells, w)[ToGrid(i, w)] == RollEntry(cells[i])
      {
        ToGridInjective(i, n, w);
        assert cells[i] == init[i];
      }
    }
  }

  /** A neighbour inside the grid is looked up in `points`, so its index must exist there. */
  predicate Reachable(points: seq<Option<Point>>, h: int, w: int, q: Point)
  {
    ValidateGrid(q, h, w).Some? ==> ToIndex(q, w) < |points|
  }

  /** The neighbour q is inside the grid and its cell holds a roll. */
  predicate Occupied(points: seq<Option<Point>>, h: int, w: int, q: Point)
    requires Reachable(points, h, w, q)
  {
    ValidateGrid(q, h, w).Some? && (IndexRoundTrip(q, w); points[ToIndex(q, w)].Some?)
  }

  /** Every neighbour of point p listed from `EIGHT_CELLS[k]` on can be looked up. */
  predicate NeighboursReachable(points: seq<Option<Point>>, h: int, w: int, p: Point, k: nat)
  {
    forall j :: k <= j < |EightCells| ==> Reachable(points, h, w, Add(p, EightCells[j]))
  }

  /** Looking up every neighbour of every roll stays inside `points`: the input does not panic. */
  predicate AllReachable(points: seq<Option<Point>>, h: int, w: int)
  {
    forall i :: 0 <= i < |points| && points[i].Some? ==> NeighboursReachable(points, h, w, points[i].value, 0)
  }

  /** The number of occupied neighbours of p among `EIGHT_CELLS[k..]`. */
  function CountFrom(points: seq<Option<Point>>, h: int, w: int, p: Point, k: nat): (c: nat)
    requires k <= |EightCells| && NeighboursReachable(points, h, w, p, k)
    ensures c <= |EightCells| - k
    decreases |EightCells| - k
  {
    if k == |EightCells| then 0
    else (if Occupied(points, h, w, Add(p, EightCells[k])) then 1 else 0) + CountFrom(points, h, w, p, k + 1)
  }

  /** The neighbour count of `forklift`: `filter_map` over `EIGHT_CELLS`, then `count`. */
  function NeighbourCount(points: seq<Option<Point>>, h: int, w: int, p: Point): (c: nat)
    requires NeighboursReachable(points, h, w, p, 0)
    ensures c <= 8
  {
    CountFrom(points, h, w, p, 0)
  }

  /** The offsets from `EIGHT_CELLS[k]` on whose cell holds a roll inside the grid. */
  function OccupiedOffsets(points: seq<Option<Point>>, h: int, w: int, p: Point, k: nat): set<int>
    requires NeighboursReachable(points, h, w, p, 0)
  {
    set j | k <= j < |EightCells| && Occupied(points, h, w, Add(p, EightCells[j]))
  }

  /** The occupied offsets from k are those from k + 1, plus k itself when it is occupied. */
  lemma OccupiedStep(points: seq<Option<Point>>, h: int, w: int, p: Point, k: nat)
    requires k < |EightCells| && NeighboursReachable(points, h, w, p, 0)
    ensures |OccupiedOffsets(points, h, w, p, k)|
      == |OccupiedOffsets(points, h, w, p, k + 1)| + if Occupied(points, h, w, Add(p, EightCells[k])) then 1 else 0
  {
    var here, rest := OccupiedOffsets(points, h, w, p, k), OccupiedOffsets(points, h, w, p, k + 1);
    var added: set<int> := if Occupied(points, h, w, Add(p, EightCells[k])) then {k} else {};
    assert here == rest + added && k !in rest by {
      forall j
        ensures j in here <==> j in rest + added
      {
      }
    }
    assert |rest + added| == |rest| + |added|;
  }

  /** The count is the number of surrounding cells inside the grid that hold a roll. */
  lemma {:induction false} CountIsOccupied(points: seq<Option<Point>>, h: int, w: int, p: Point, k: nat)
    requires k <= |EightCells| && NeighboursReachable(points, h, w, p, 0)
    ensures CountFrom(points, h, w, p, k) == |OccupiedOffsets(points, h, w, p, k)|
    decreases |EightCells| - k
  {
    if k == |EightCells| {
      assert OccupiedOffsets(points, h, w, p, k) == {};
    } else {
      assert CountFrom(points, h, w, p, k + 1) == |OccupiedOffsets(points, h, w, p, k + 1)| by {
        CountIsOccupied(points, h, w, p, k + 1);
      }
      OccupiedStep(points, h, w, p, k);
    }
  }

  /** Entry i of `points` as the `filter` before `removes` sees it: a roll with fewer than four neighbours. */
  function Removal(points: seq<Option<Point>>, h: int, w: int, i: nat): (r: Option<Point>)
    requires i < |points| && AllReachable(points, h, w)
    ensures r.Some? <==> points[i].Some? && NeighbourCount(points, h, w, points[i].value) < 4
    ensures r.Some? ==> r == points[i]
  {
    match points[i]
    case None => None
    case Some(p) => if NeighbourCount(points, h, w, p) < 4 then Some(p) else None
  }

  /** `removes` over the first n entries: the rolls with fewer than four neighbours, in order. */
  function Removes(points: seq<Option<Point>>, h: int, w: int, n: nat): seq<Point>
    requires n <= |points| && AllReachable(points, h, w)
  {
    if n == 0 then []
    else
      var rest := Removes(points, h, w, n - 1);
      match Removal(points, h, w, n - 1)
      case None => rest
      case Some(p) => rest + [p]
  }

  /** Entry n − 1 adds its point to the removals exactly when it is removable. */
  lemma RemovesStep(points: seq<Option<Point>>, h: int, w: int, n: nat)
    requires 0 < n <= |points| && AllReachable(points, h, w)
    ensures |Removes(points, h, w, n)| ==
      |Removes(points, h, w, n - 1)| + if Removal(points, h, w, n - 1).Some? then 1 else 0
  {
  }

  /** At most one point is removed per entry. */
  lemma {:induction false} RemovesLength(points: seq<Option<Point>>, h: int, w: int, n: nat)
    requires n <= |points| && AllReachable(points, h, w)
    ensures |Removes(points, h, w, n)| <= n
  {
    if n > 0 {
      RemovesLength(points, h, w, n - 1);
      RemovesStep(points, h, w, n);
    }
  }

  /** A point is removed exactly when it is a roll with fewer than four neighbours. */
  lemma {:induction false} RemovesMembers(points: seq<Option<Point>>, h: int, w: int, n: nat)
    requires n <= |points| && AllReachable(points, h, w)
    ensures forall p :: p in Removes(points, h, w, n) <==>
      exists i :: 0 <= i < n && Removal(points, h, w, i) == Some(p)
  {
    if n > 0 {
      RemovesMembers(points, h, w, n - 1);
      var rest := Removes(points, h, w, n - 1);
      var r := Removal(points, h, w, n - 1);
      assert Removes(points, h, w, n) == if r.Some? then rest + [r.value] else rest;
      forall p ensures p in Removes(points, h, w, n) <==>
        exists i :: 0 <= i < n && Removal(points, h, w, i) == Some(p)
      {
        if p in Removes(points, h, w, n) && p !in rest {
          assert Removal(points, h, w, n - 1) == Some(p);
        }
        if exists i :: 0 <= i < n && Removal(points, h, w, i) == Some(p) {
          var i :| 0 <= i < n && Removal(points, h, w, i) == Some(p);
          if i < n - 1 {
            assert p in rest;
          }
        }
      }
    }
  }

  /** The indices among the first n entries that hold a roll with fewer than four neighbours. */
  function Removable(points: seq<Option<Point>>, h: int, w: int, n: nat): set<nat>
    requires n <= |points| && AllReachable(points, h, w)
  {
    set i: nat | i < n && Removal(points, h, w, i).Some?
  }

  /** Entry n − 1 joins the removable indices exactly when it is removable itself. */
  lemma RemovableStep(points: seq<Option<Point>>, h: int, w: int, n: nat)
    requires 0 < n <= |points| && AllReachable(points, h, w)
    ensures n - 1 !in Removable(points, h, w, n - 1)
    ensures Removable(points, h, w, n) ==
      Removable(points, h, w, n - 1) + if Removal(points, h, w, n - 1).Some? then {n - 1} else {}
    ensures |Removable(points, h, w, n)| ==
      |Removable(points, h, w, n - 1)| + if Removal(points, h, w, n - 1).Some? then 1 else 0
  {
    var before, after := Removable(points, h, w, n - 1), Removable(points, h, w, n);
    var last: set<nat> := if Removal(points, h, w, n - 1).Some? then {n - 1} else {};
    forall i: nat
      ensures i in after <==> i in before + last
    {
      assert i in after <==> i < n && Removal(points, h, w, i).Some?;
      assert i in before <==> i < n - 1 && Removal(points, h, w, i).Some?;
    }
  }

  /** One point is removed per removable entry, so the count is the number of removable rolls. */
  lemma {:induction false} RemovesCount(points: seq<Option<Point>>, h: int, w: int, n: nat)
    requires n <= |points| && AllReachable(points, h, w)
    ensures |Removes(points, h, w, n)| == |Removable(points, h, w, n)|
  {
    if n > 0 {
      var removed := |Removes(points, h, w, n - 1)|;
      var removable := |Removable(points, h, w, n - 1)|;
      var d := if Removal(points, h, w, n - 1).Some? then 1 else 0;
      assert removed == removable by {
        RemovesCount(points, h, w, n - 1);
      }
      assert |Removes(points, h, w, n)| == removed + d by {
        RemovesStep(points, h, w, n);
      }
      assert |Removable(points, h, w, n)| == removable + d by {
        RemovableStep(points, h, w, n);
      }
    }
  }

  /** `part_1`: the number of rolls a forklift can reach. */
  function Part1(removes: seq<Point>): int
  {
    |removes|
  }

  /** Cells so far plus one row, one cell at a time: the inner loop of the grid build. */
  method ReadRow(points0: seq<Option<Point>>, rolls0: map<Point, Option<int>>, index0: int,
                 ghost done: seq<char>, row: string, width: int)
    returns (points: seq<Option<Point>>, rolls: map<Point, Option<int>>, index: int)
    requires width > 0 || done + row == []
    requires points0 == Points(done, width) && rolls0 == Rolls(done, width) && index0 == |done| - 1
    ensures points == Points(done + row, width) && rolls == Rolls(done + row, width)
    ensures index == |done + row| - 1
  {
    points, rolls, index := points0, rolls0, index0;
    assert done + row[..0] == done;
    for j := 0 to |row|
      invariant points == Points(done + row[..j], width) && rolls == Rolls(done + row[..j], width)
      invariant index == |done| + j - 1
    {
      index := index + 1;
      var point := ToGrid(index, width);
      if row[j] == '@' {
        rolls := rolls[point := Some(0)];
        points := points + [Some(point)];
      } else {
        rolls := rolls[point := None];
        points := points + [None];
      }
      ghost var prefix := done + row[..j];
      assert |prefix| == index;
      ReadStep(prefix, row[j], width);
      assert done + row[..j + 1] == prefix + [row[j]];
    }
    assert row[..|row|] == row;
  }

  /** One more cell adds one entry to `points` and one key to `rolls`. */
  lemma ReadStep(done: seq<char>, c: char, w: int)
    requires w > 0
    ensures Points(done + [c], w) == Points(done, w) + [Entry(c, |done|, w)]
    ensures Rolls(done + [c], w) == Rolls(done, w)[ToGrid(|done|, w) := RollEntry(c)]
  {
    assert (done + [c])[..|done|] == done;
  }

  /** Cells of the first k lines, then the next line. */
  lemma CellsStep(lines: seq<string>, k: nat)
    requires k < |lines|
    ensures Cells(lines[..k + 1]) == Cells(lines[..k]) + Trim(lines[k])
  {
    assert lines[..k + 1][..k] == lines[..k];
  }

  /** The cells of a prefix of the lines start the cells of all the lines. */
  lemma {:induction false} CellsPrefix(lines: seq<string>, k: nat)
    requires k <= |lines|
    ensures |Cells(lines[..k])| <= |Cells(lines)|
    decreases |lines| - k
  {
    if k < |lines| {
      CellsStep(lines, k);
      CellsPrefix(lines, k + 1);
    } else {
      assert lines[..k] == lines;
    }
  }

  /**
   * The grid build of `forklift`: the height is the number of lines, the width the first
   * line's length, and every trimmed character gives one entry of `points` and `rolls`.
   */
  method ReadGrid(lines: seq<string>)
    returns (points: seq<Option<Point>>, rolls: map<Point, Option<int>>, height: int, width: int)
    requires Width(lines) > 0 || Cells(lines) == []
    ensures height == |lines| && width == Width(lines)
    ensures points == Points(Cells(lines), width) && rolls == Rolls(Cells(lines), width)
  {
    points, rolls, width, height := [], map[], 0, 0;
    var index := -1;
    for lineNo := 0 to |lines|
      invariant height == lineNo && width == if lineNo == 0 then 0 else Width(lines)
      invariant Width(lines) > 0 || Cells(lines[..lineNo]) == []
      invariant points == Points(Cells(lines[..lineNo]), Width(lines))
      invariant rolls == Rolls(Cells(lines[..lineNo]), Width(lines))
      invariant index == |Cells(lines[..lineNo])| - 1
    {
      var line := lines[lineNo];
      height := height + 1;
      if lineNo == 0 {
        width := |line|;
      }
      CellsStep(lines, lineNo);
      CellsPrefix(lines, lineNo + 1);
      points, rolls, index := ReadRow(points, rolls, index, Cells(lines[..lineNo]), Trim(line), width);
    }
    assert lines[..|lines|] == lines;
  }

  /**
   * `forklift(reader, part_1)`: build the grid, count each roll's neighbours, keep the rolls
   * with fewer than four, and count them.
   */
  method Forklift(lines: seq<string>) returns (ans: int)
    requires Width(lines) > 0 || Cells(lines) == []
    requires AllReachable(Points(Cells(lines), Width(lines)), |lines|, Width(lines))
    ensures ans == |Removes(Points(Cells(lines), Width(lines)), |lines|, Width(lines), |Cells(lines)|)|
    ensures ans == |Removable(Points(Cells(lines), Width(lines)), |lines|, Width(lines), |Cells(lines)|)|
  {
    var points, rolls, height, width := ReadGrid(lines);
    var removes := Removes(points, height, width, |points|);
    ans := Part1(removes);
    RemovesCount(points, height, width, |points|);
  }

  /** Every trimmed line is exactly as long as the first line, and that is not empty. */
  predicate Rectangular(lines: seq<string>)
  {
    |lines| > 0 && |lines[0]| > 0 && forall i :: 0 <= i < |lines| ==> |Trim(lines[i])| == |lines[0]|
  }

  /** k full rows of w cells fit below row y exactly when y < k. */
  lemma RowFits(y: int, x: int, k: int, w: int)
    requires 0 <= y < k && 0 <= x < w
    ensures w * y + x < w * k
  {
    MulGe(k - y, w);
    assert w * k == w * y + (k - y) * w;
  }

  /** In a rectangular grid there are w cells per line. */
  lemma {:induction false} CellsLength(lines: seq<string>, w: int)
    requires forall i :: 0 <= i < |lines| ==> |Trim(lines[i])| == w
    ensures |Cells(lines)| == w * |lines|
  {
    if lines != [] {
      var n := |lines| - 1;
      assert |Cells(lines[..n])| == w * n by {
        assert forall i :: 0 <= i < n ==> lines[..n][i] == lines[i];
        CellsLength(lines[..n], w);
      }
      assert |Cells(lines)| == |Cells(lines[..n])| + w by {
        assert |Trim(lines[n])| == w;
      }
      MulStep(w, n, |Cells(lines[..n])|, |Cells(lines)|);
    }
  }

  /** One more row of width w adds w cells. */
  lemma MulStep(w: int, n: int, before: int, after: int)
    requires before == w * n && after == before + w
    ensures after == w * (n + 1)
  {
  }

  /** In a rectangular grid, cell `y * w + x` is character x of trimmed line y. */
  lemma {:induction false} RectangularCell(lines: seq<string>, w: int, y: int, x: int)
    requires forall i :: 0 <= i < |lines| ==> |Trim(lines[i])| == w
    requires 0 <= y < |lines| && 0 <= x < w
    ensures w * y + x < |Cells(lines)| && Cells(lines)[w * y + x] == Trim(lines[y])[x]
  {
    var n := |lines| - 1;
    var init := lines[..n];
    CellsLength(lines, w);
    CellsLength(init, w);
    if y < n {
      RowFits(y, x, n, w);
      RectangularCell(init, w, y, x);
    }
  }

  /** In a rectangular grid every neighbour inside the grid has an entry in `points`. */
  lemma ReachableInGrid(points: seq<Option<Point>>, h: int, w: int, q: Point)
    requires w > 0 && |points| == w * h
    ensures Reachable(points, h, w, q)
  {
    if ValidateGrid(q, h, w).Some? {
      IndexRoundTrip(q, w);
      RowFits(q.y, q.x, h, w);
    }
  }

  /** A rectangular grid never panics: every neighbour inside the grid has an entry. */
  lemma RectangularReachable(lines: seq<string>)
    requires Rectangular(lines)
    ensures Width(lines) > 0
    ensures AllReachable(Points(Cells(lines), Width(lines)), |lines|, Width(lines))
  {
    var w := Width(lines);
    var points := Points(Cells(lines), w);
    CellsLength(lines, w);
    forall i, j | 0 <= i < |points| && points[i].Some? && 0 <= j < |EightCells|
      ensures Reachable(points, |lines|, w, Add(points[i].value, EightCells[j]))
    {
      ReachableInGrid(points, |lines|, w, Add(points[i].value, EightCells[j]));
    }
  }
}
