/**
 * The cephalopod maths worksheet (2025 day 6).
 *
 * The worksheet is a block of text: every line but the last is a row of operands, and the
 * last line holds one operator, `+` or `*`, per problem.  Problems stand side by side,
 * separated by columns that are blank in every operand row.  `Math` splits the rows into
 * one `Equation` per operator; `Part1` reads each operand row of a problem as one number,
 * `Part2` reads each column top to bottom as one number, and both fold the numbers with the
 * problem's operator and add up the results.
 */
module Worksheet {
  import opened Options
  import opened Digits
  import opened Text

  datatype Op = Add | Multiply

  /** One problem: its operator and the block of operand characters, one entry per row. */
  datatype Equation = Equation(operator: Op, operands: seq<seq<char>>)

  // ---------------------------------------------------------------------------------------
  // The operator line

  /** The character an operator is written with. */
  function Symbol(op: Op): char
  {
    match op
    case Add => '+'
    case Multiply => '*'
  }

  /** One operator token (its trim is `+` or `*`); None stands for the `unsupported operator` panic. */
  function ParseOperator(token: string): (r: Option<Op>)
    ensures r.Some? ==> Trim(token) == [Symbol(r.value)]
  {
    var t := Trim(token);
    if t == "+" then Some(Add)
    else if t == "*" then Some(Multiply)
    else None
  }

  /** The operators of a list of tokens, in order; None when one of them is not an operator. */
  function OperatorsOf(tokens: seq<string>): (r: Option<seq<Op>>)
    ensures r.Some? <==> forall i :: 0 <= i < |tokens| ==> ParseOperator(tokens[i]).Some?
    ensures r.Some? ==> |r.value| == |tokens|
    ensures r.Some? ==> forall i :: 0 <= i < |tokens| ==> ParseOperator(tokens[i]) == Some(r.value[i])
  {
    if tokens == [] then Some([])
    else
      match (ParseOperator(tokens[0]), OperatorsOf(tokens[1..]))
      case (Some(op), Some(ops)) => Some([op] + ops)
      case _ => None
  }

  /** The operator line: split on whitespace, each token an operator. */
  function ParseOperators(line: string): Option<seq<Op>>
  {
    OperatorsOf(SplitWhitespace(line))
  }

  /** An operator line written the way the puzzle writes one: each symbol followed by a space. */
  function OperatorLine(ops: seq<Op>): (line: string)
    ensures |line| == 2 * |ops|
  {
    seq(2 * |ops|, i requires 0 <= i < 2 * |ops| => if i % 2 == 0 then Symbol(ops[i / 2]) else ' ')
  }

  /** The k-th symbol of an operator line sits at 2k, followed by a space. */
  lemma OperatorLineAt(ops: seq<Op>, k: nat)
    requires k < |ops|
    ensures OperatorLine(ops)[2 * k] == Symbol(ops[k]) && OperatorLine(ops)[2 * k + 1] == ' '
  {
    assert (2 * k) / 2 == k && (2 * k) % 2 == 0 && (2 * k + 1) % 2 == 1;
  }

  /** Each operator's symbol as a one-character token. */
  function SymbolTokens(ops: seq<Op>): (ts: seq<string>)
    ensures |ts| == |ops|
  {
    if ops == [] then [] else [[Symbol(ops[0])]] + SymbolTokens(ops[1..])
  }

  /** A one-character token followed by whitespace is split off as it stands. */
  lemma SplitStep(s: string, c: nat)
    requires c + 1 < |s| && !IsWhitespace(s[c]) && IsWhitespace(s[c + 1])
    requires c + 2 == |s| || !IsWhitespace(s[c + 2])
    ensures SplitWhitespace(s, c) == [[s[c]]] + SplitWhitespace(s, c + 2)
  {
    assert s[c..c + 1] == [s[c]];
    assert SkipWhitespace(s, c) == c;
    assert SkipToken(s, c) == c + 1;
    assert SkipWhitespace(s, c + 1) == c + 2;
    assert SkipWhitespace(s, c + 2) == c + 2;
  }

  /** No operator symbol is whitespace, and a blank is. */
  lemma SymbolIsToken(op: Op)
    ensures !IsWhitespace(Symbol(op)) && IsWhitespace(' ')
  {
  }

  /** From its k-th symbol, an operator line splits off that symbol and goes on two places later. */
  lemma OperatorLineStep(ops: seq<Op>, k: nat)
    requires k < |ops|
    ensures SplitWhitespace(OperatorLine(ops), 2 * k) == [[Symbol(ops[k])]] + SplitWhitespace(OperatorLine(ops), 2 * k + 2)
  {
    OperatorLineAt(ops, k);
    SymbolIsToken(ops[k]);
    if k + 1 < |ops| {
      OperatorLineAt(ops, k + 1);
      SymbolIsToken(ops[k + 1]);
    }
    SplitStep(OperatorLine(ops), 2 * k);
  }

  /** The symbol tokens from the k-th operator on: its own, then the rest. */
  lemma SymbolTokensFrom(ops: seq<Op>, k: nat)
    requires k < |ops|
    ensures SymbolTokens(ops[k..]) == [[Symbol(ops[k])]] + SymbolTokens(ops[k + 1..])
  {
    assert ops[k..][0] == ops[k] && ops[k..][1..] == ops[k + 1..];
  }

  /** Splitting an operator line from its k-th symbol gives the remaining symbols, one token each. */
  lemma {:induction false} SplitOperatorLine(ops: seq<Op>, k: nat)
    requires k <= |ops|
    ensures SplitWhitespace(OperatorLine(ops), 2 * k) == SymbolTokens(ops[k..])
    decreases |ops| - k
  {
    if k < |ops| {
      OperatorLineStep(ops, k);
      SplitOperatorLine(ops, k + 1);
      assert 2 * (k + 1) == 2 * k + 2;
      SymbolTokensFrom(ops, k);
    } else {
      assert 2 * k == |OperatorLine(ops)| && ops[k..] == [];
      SplitAtEnd(OperatorLine(ops));
    }
  }

  /** The operators of their own symbols are the operators themselves. */
  lemma {:induction false} SymbolTokensParse(ops: seq<Op>)
    ensures OperatorsOf(SymbolTokens(ops)) == Some(ops)
  {
    if ops != [] {
      var t := [Symbol(ops[0])];
      assert IsToken(t);
      TrimToken(t);
      assert ParseOperator(t) == Some(ops[0]);
      SymbolTokensParse(ops[1..]);
      var ts := SymbolTokens(ops);
      assert ts[0] == t && ts[1..] == SymbolTokens(ops[1..]);
      assert ops == [ops[0]] + ops[1..];
    }
  }

  /** Parsing an operator line gives back its operators. */
  lemma ParseOperatorLine(ops: seq<Op>)
    ensures ParseOperators(OperatorLine(ops)) == Some(ops)
  {
    SplitOperatorLine(ops, 0);
    assert ops[0..] == ops;
    SymbolTokensParse(ops);
  }

  // ---------------------------------------------------------------------------------------
  // The worksheet lines

  /** Every line but the last is an operand row, kept as its characters. */
  function Operands(lines: seq<string>): seq<seq<char>>
  {
    if lines == [] then [] else lines[..|lines| - 1]
  }

  /** The operators of the last line; a worksheet without lines has none. */
  function Operators(lines: seq<string>): Option<seq<Op>>
  {
    if lines == [] then Some([]) else ParseOperators(lines[|lines| - 1])
  }

  // ---------------------------------------------------------------------------------------
  // Columns

  /** There is a first row, and every row reaches at least as far as it. */
  predicate Wide(rows: seq<seq<char>>)
  {
    |rows| > 0 && forall l :: 0 <= l < |rows| ==> |rows[l]| >= |rows[0]|
  }

  /** The characters at `index`, top to bottom. */
  function Column(rows: seq<seq<char>>, index: nat): seq<char>
    requires forall l :: 0 <= l < |rows| ==> index < |rows[l]|
  {
    seq(|rows|, l requires 0 <= l < |rows| => rows[l][index])
  }

  /**
   * `next_slice(input, index)`: the column at `index`, or None when `index` is past the first
   * row or the column is blank in every row.
   */
  function Slice(rows: seq<seq<char>>, index: nat): Option<seq<char>>
    requires Wide(rows)
  {
    if index >= |rows[0]| then None
    else
      var column := Column(rows, index);
      if forall l :: 0 <= l < |column| ==> column[l] == ' ' then None else Some(column)
  }

  /** A column is a separator exactly when it is past the first row or blank in every row. */
  lemma SliceIsColumn(rows: seq<seq<char>>, index: nat)
    requires Wide(rows)
    ensures Slice(rows, index).None? <==>
      index >= |rows[0]| || forall l :: 0 <= l < |rows| ==> rows[l][index] == ' '
    ensures Slice(rows, index).Some? ==>
      var c := Slice(rows, index).value;
      |c| == |rows| && forall l :: 0 <= l < |rows| ==> c[l] == rows[l][index]
  {
    if index < |rows[0]| {
      var column := Column(rows, index);
      assert forall l :: 0 <= l < |rows| ==> column[l] == rows[l][index];
    }
  }

  /** The loop of `next_slice`: copy the column and note whether every character is a space. */
  method NextSlice(rows: seq<seq<char>>, index: nat) returns (slice: Option<seq<char>>)
    requires Wide(rows)
    ensures slice == Slice(rows, index)
  {
    if index >= |rows[0]| {
      return None;
    }
    var allSpaces := true;
    var tmp: seq<char> := [];
    for level := 0 to |rows|
      invariant |tmp| == level && forall l :: 0 <= l < level ==> tmp[l] == rows[l][index]
      invariant allSpaces <==> forall l :: 0 <= l < level ==> tmp[l] == ' '
    {
      var x := rows[level][index];
      tmp := tmp + [x];
      if x != ' ' {
        allSpaces := false;
      }
    }
    assert tmp == Column(rows, index);
    if allSpaces {
      slice := None;
    } else {
      slice := Some(tmp);
    }
  }

  // ---------------------------------------------------------------------------------------
  // Grouping columns into problems

  /** The end of the run of non-separator columns that starts at `from`. */
  function RunEnd(rows: seq<seq<char>>, from: nat): (e: nat)
    requires Wide(rows)
    ensures from <= e && (e == from || e <= |rows[0]|)
    decreases |rows[0]| - from
  {
    if Slice(rows, from).None? then from else RunEnd(rows, from + 1)
  }

  /** Every column of a run is a `Some`, and the column at its end is a separator. */
  lemma {:induction false} RunEndIsMaximal(rows: seq<seq<char>>, from: nat)
    requires Wide(rows)
    ensures forall k :: from <= k < RunEnd(rows, from) ==> Slice(rows, k).Some?
    ensures Slice(rows, RunEnd(rows, from)).None?
    decreases |rows[0]| - from
  {
    if Slice(rows, from).Some? {
      RunEndIsMaximal(rows, from + 1);
    }
  }

  /** The columns from..to of every row: what `acc` holds after pushing those slices. */
  function Block(rows: seq<seq<char>>, from: nat, to: nat): (b: seq<seq<char>>)
    requires Wide(rows) && from <= to && (to == from || to <= |rows[0]|)
  {
    seq(|rows|, j requires 0 <= j < |rows| =>
      seq(to - from, k requires 0 <= k < to - from => rows[j][from + k]))
  }

  /** A block is the same stretch of every row, so its rows all have the block's width. */
  lemma BlockIsSlice(rows: seq<seq<char>>, from: nat, to: nat)
    requires Wide(rows) && from < to <= |rows[0]|
    ensures |Block(rows, from, to)| == |rows|
    ensures forall j :: 0 <= j < |rows| ==> Block(rows, from, to)[j] == rows[j][from..to]
  {
  }

  /**
   * The problems of `rows` for the operators `ops`, reading from column `index`: each
   * operator takes the run of columns up to the next separator, which is skipped.
   */
  function Equations(rows: seq<seq<char>>, ops: seq<Op>, index: nat): (eqs: seq<Equation>)
    requires ops == [] || Wide(rows)
    ensures |eqs| == |ops|
    decreases |ops|
  {
    if ops == [] then []
    else
      var e := RunEnd(rows, index);
      [Equation(ops[0], Block(rows, index, e))] + Equations(rows, ops[1..], e + 1)
  }

  /** `count` rows, all of the same width. */
  predicate Shaped(block: seq<seq<char>>, count: nat)
  {
    |block| == count && forall j :: 0 <= j < |block| ==> |block[j]| == |block[0]|
  }

  /** The first operator takes the run at `index`; the rest start past its separator. */
  lemma EquationsStep(rows: seq<seq<char>>, ops: seq<Op>, index: nat)
    requires ops != [] && Wide(rows)
    ensures var e := RunEnd(rows, index);
      Equations(rows, ops, index) == [Equation(ops[0], Block(rows, index, e))] + Equations(rows, ops[1..], e + 1)
  {
  }

  /** Problem k > 0 is problem k - 1 of the operators after the first, read past its separator. */
  lemma EquationsTail(rows: seq<seq<char>>, ops: seq<Op>, index: nat, k: nat)
    requires Wide(rows) && 0 < k < |ops|
    ensures Equations(rows, ops, index)[k] == Equations(rows, ops[1..], RunEnd(rows, index) + 1)[k - 1]
  {
    EquationsStep(rows, ops, index);
  }

  /** Every problem has the worksheet's operator, in order, and one row of equal width per operand row. */
  lemma {:induction false} EquationsShaped(rows: seq<seq<char>>, ops: seq<Op>, index: nat)
    requires ops == [] || Wide(rows)
    ensures var eqs := Equations(rows, ops, index);
      forall k :: 0 <= k < |ops| ==> eqs[k].operator == ops[k] && Shaped(eqs[k].operands, |rows|)
    decreases |ops|
  {
    if ops != [] {
      var e := RunEnd(rows, index);
      var eqs := Equations(rows, ops, index);
      var rest := Equations(rows, ops[1..], e + 1);
      assert eqs == [Equation(ops[0], Block(rows, index, e))] + rest;
      EquationsShaped(rows, ops[1..], e + 1);
      assert var eqs' := Equations(rows, ops[1..], e + 1);
        forall k :: 0 <= k < |ops| - 1 ==> eqs'[k].operator == ops[1..][k] && Shaped(eqs'[k].operands, |rows|);
      forall k | 0 <= k < |ops| ensures eqs[k].operator == ops[k] && Shaped(eqs[k].operands, |rows|) {
        if k > 0 {
          assert eqs[k] == rest[k - 1] && ops[k] == ops[1..][k - 1];
        }
      }
    }
  }

  /** The column where the k-th problem starts. */
  function Start(rows: seq<seq<char>>, index: nat, k: nat): nat
    requires Wide(rows)
  {
    if k == 0 then index else RunEnd(rows, Start(rows, index, k - 1)) + 1
  }

  /**
   * The k-th problem takes the maximal run of non-separator columns from its start, and the
   * next problem starts one column past the separator that ends it.
   */
  lemma EquationsAreRuns(rows: seq<seq<char>>, ops: seq<Op>, index: nat, k: nat)
    requires Wide(rows) && k < |ops|
    ensures Equations(rows, ops, index)[k] ==
      Equation(ops[k], Block(rows, Start(rows, index, k), RunEnd(rows, Start(rows, index, k))))
  {
    EquationAt(rows, ops, index, k, Start(rows, index, k));
  }

  /** `EquationsAreRuns` with the start column s of problem k named. */
  lemma {:induction false} EquationAt(rows: seq<seq<char>>, ops: seq<Op>, index: nat, k: nat, s: nat)
    requires Wide(rows) && k < |ops| && s == Start(rows, index, k)
    ensures Equations(rows, ops, index)[k] == Equation(ops[k], Block(rows, s, RunEnd(rows, s)))
    decreases k
  {
    if k == 0 {
      EquationsStep(rows, ops, index);
    } else {
      var e := RunEnd(rows, index);
      var eq := Equation(ops[k], Block(rows, s, RunEnd(rows, s)));
      assert Start(rows, e + 1, k - 1) == s by {
        StartShift(rows, index, k);
      }
      assert Equations(rows, ops[1..], e + 1)[k - 1] == eq by {
        EquationAt(rows, ops[1..], e + 1, k - 1, s);
        assert ops[1..][k - 1] == ops[k];
      }
      EquationsTail(rows, ops, index, k);
    }
  }

  /** Counting problems from the second one on starts past the first separator. */
  lemma {:induction false} StartShift(rows: seq<seq<char>>, index: nat, k: nat)
    requires Wide(rows) && k > 0
    ensures Start(rows, RunEnd(rows, index) + 1, k - 1) == Start(rows, index, k)
    decreases k
  {
    if k > 1 {
      StartShift(rows, index, k - 1);
    }
  }

  /** Pushing one more column onto every row of a block. */
  method PushColumn(acc: seq<seq<char>>, column: seq<char>) returns (next: seq<seq<char>>)
    requires |column| == |acc|
    ensures |next| == |acc|
    ensures forall j :: 0 <= j < |acc| ==> next[j] == acc[j] + [column[j]]
  {
    next := acc;
    for j := 0 to |acc|
      invariant |next| == |acc|
      invariant forall i :: 0 <= i < j ==> next[i] == acc[i] + [column[i]]
      invariant forall i :: j <= i < |acc| ==> next[i] == acc[i]
    {
      next := next[j := next[j] + [column[j]]];
    }
  }

  /** Extending a block by the column at its end. */
  lemma BlockSnoc(rows: seq<seq<char>>, from: nat, to: nat)
    requires Wide(rows) && from <= to < |rows[0]|
    ensures var b, b' := Block(rows, from, to), Block(rows, from, to + 1);
      |b'| == |b| == |rows| && forall j :: 0 <= j < |rows| ==> b'[j] == b[j] + [rows[j][to]]
  {
    var b, b' := Block(rows, from, to), Block(rows, from, to + 1);
    forall j | 0 <= j < |rows| ensures b'[j] == b[j] + [rows[j][to]] {
      assert |b'[j]| == |b[j]| + 1;
    }
  }

  /**
   * The `while let Some(slice) = next_slice(..)` loop of `math`: push columns from `start`
   * until a separator, and return the block and the column past the separator.
   */
  method TakeRun(operands: seq<seq<char>>, start: nat) returns (acc: seq<seq<char>>, index: nat)
    requires Wide(operands)
    ensures acc == Block(operands, start, RunEnd(operands, start))
    ensures index == RunEnd(operands, start) + 1
  {
    index := start;
    acc := seq(|operands|, _ => []);
    var slice := NextSlice(operands, index);
    while slice.Some?
      invariant start <= index && (index == start || index <= |operands[0]|)
      invariant RunEnd(operands, index) == RunEnd(operands, start)
      invariant acc == Block(operands, start, index)
      invariant slice == Slice(operands, index)
      decreases |operands[0]| - index
    {
      BlockSnoc(operands, start, index);
      acc := PushColumn(acc, slice.value);
      index := index + 1;
      slice := NextSlice(operands, index);
    }
    index := index + 1;
  }

  /**
   * The line loop of `math`: every line followed by another is an operand row; the last
   * one is split into operators.
   */
  method ReadLines(lines: seq<string>) returns (operands: seq<seq<char>>, operators: seq<Op>)
    requires Operators(lines).Some?
    ensures operands == Operands(lines) && Some(operators) == Operators(lines)
  {
    operands, operators := [], [];
    for n := 0 to |lines|
      invariant n < |lines| ==> operands == lines[..n] && operators == []
      invariant n == |lines| ==> operands == Operands(lines) && Some(operators) == Operators(lines)
    {
      var vals := lines[n];
      if n + 1 < |lines| {
        operands := operands + [vals];
      } else {
        operators := ParseOperators(lines[n]).value;
      }
    }
  }

  /** The operator loop of `math`: each operator in turn takes the next run of columns. */
  method Group(operands: seq<seq<char>>, operators: seq<Op>) returns (equations: seq<Equation>)
    requires operators == [] || Wide(operands)
    ensures equations == Equations(operands, operators, 0)
  {
    var index: nat := 0;
    equations := [];
    for o := 0 to |operators|
      invariant equations + Equations(operands, operators[o..], index) == Equations(operands, operators, 0)
    {
      EquationsStep(operands, operators[o..], index);
      assert operators[o..][1..] == operators[o + 1..];
      var acc;
      acc, index := TakeRun(operands, index);
      equations := equations + [Equation(operators[o], acc)];
    }
  }

  /**
   * `math(reader, part)`: collect the operand rows and the operators, then give each
   * operator, in order, the columns up to the next separator.  The caller applies `part`
   * to the result.
   */
  method Math(lines: seq<string>) returns (equations: seq<Equation>)
    requires Operators(lines).Some?
    requires Operators(lines).value == [] || Wide(Operands(lines))
    ensures equations == Equations(Operands(lines), Operators(lines).value, 0)
  {
    var operands, operators := ReadLines(lines);
    equations := Group(operands, operators);
  }

  // ---------------------------------------------------------------------------------------
  // Reading numbers and folding them

  /** 2^32: `to_int` computes every term in u32. */
  const U32Limit: int := 0x1_0000_0000

  /** Every power of ten and every digit term `to_int` computes fits in a u32. */
  predicate FitsU32(v: seq<int>)
  {
    |v| <= 10 && forall k :: 0 <= k < |v| ==> Pow10(|v| - 1 - k) * v[k] < U32Limit
  }

  /** `to_int(v)`: the base-10 value of a digit list, most significant digit first. */
  method ToInt(v: seq<int>) returns (res: int)
    requires IsDigitSeq(v) && FitsU32(v)
    ensures res == Value(v)
    ensures 0 <= res < Pow10(|v|)
  {
    ValueBounds(v);
    res := FromDigits(v);
  }

  function Sum(ns: seq<int>): int
  {
    if ns == [] then 0 else Sum(ns[..|ns| - 1]) + ns[|ns| - 1]
  }

  function Product(ns: seq<int>): int
  {
    if ns == [] then 1 else Product(ns[..|ns| - 1]) * ns[|ns| - 1]
  }

  /** The fold of a problem: the sum from 0 or the product from 1. */
  function Apply(op: Op, ns: seq<int>): int
  {
    match op
    case Add => Sum(ns)
    case Multiply => Product(ns)
  }

  /** The number each digit list spells. */
  function Values(nums: seq<seq<int>>): (vs: seq<int>)
    ensures |vs| == |nums| && forall i :: 0 <= i < |nums| ==> vs[i] == Value(nums[i])
  {
    seq(|nums|, i requires 0 <= i < |nums| => Value(nums[i]))
  }

  /** Folding over the first i numbers and then the next one. */
  lemma ApplySnoc(op: Op, nums: seq<seq<int>>, i: nat)
    requires i < |nums|
    ensures Apply(op, Values(nums[..i + 1])) ==
      match op
      case Add => Apply(op, Values(nums[..i])) + Value(nums[i])
      case Multiply => Apply(op, Values(nums[..i])) * Value(nums[i])
  {
    var vs := Values(nums[..i + 1]);
    assert vs[..i] == Values(nums[..i]);
  }

  /** `nums.fold(seed, |acc, x| acc op to_int(x))`. */
  method Fold(op: Op, nums: seq<seq<int>>) returns (r: int)
    requires forall i :: 0 <= i < |nums| ==> IsDigitSeq(nums[i]) && FitsU32(nums[i])
    ensures r == Apply(op, Values(nums))
  {
    r := match op case Add => 0 case Multiply => 1;
    for i := 0 to |nums|
      invariant r == Apply(op, Values(nums[..i]))
    {
      var x := ToInt(nums[i]);
      ApplySnoc(op, nums, i);
      match op
      case Add => r := r + x;
      case Multiply => r := r * x;
    }
    assert nums[..|nums|] == nums;
  }

  /** Part 1 reads each operand row's digits as one number. */
  function RowNumbers(operands: seq<seq<char>>): seq<seq<int>>
  {
    seq(|operands|, j requires 0 <= j < |operands| => DigitValues(operands[j]))
  }

  /** Part 2 reads each column's digits, top to bottom, as one number. */
  function ColumnNumbers(operands: seq<seq<char>>): seq<seq<int>>
    requires Wide(operands)
  {
    seq(|operands[0]|, i requires 0 <= i < |operands[0]| => DigitValues(Column(operands, i)))
  }

  /** The part 1 grand total: each problem's rows read as numbers, folded, and added up. */
  function Total1(eqs: seq<Equation>): int
  {
    if eqs == [] then 0
    else
      var eq := eqs[|eqs| - 1];
      Total1(eqs[..|eqs| - 1]) + Apply(eq.operator, Values(RowNumbers(eq.operands)))
  }

  /** Every problem has a first row that no other row falls short of, as `part_2` indexes them. */
  predicate ColumnsReadable(eqs: seq<Equation>)
  {
    forall e :: 0 <= e < |eqs| ==> Wide(eqs[e].operands)
  }

  /** The part 2 grand total: each problem's columns read as numbers, folded, and added up. */
  function Total2(eqs: seq<Equation>): int
    requires ColumnsReadable(eqs)
  {
    if eqs == [] then 0
    else
      var eq := eqs[|eqs| - 1];
      Total2(eqs[..|eqs| - 1]) + Apply(eq.operator, Values(ColumnNumbers(eq.operands)))
  }

  /** `part_1(eqs)`. */
  method Part1(eqs: seq<Equation>) returns (ans: int)
    requires forall e :: 0 <= e < |eqs| ==>
      forall j :: 0 <= j < |eqs[e].operands| ==> FitsU32(DigitValues(eqs[e].operands[j]))
    ensures ans == Total1(eqs)
  {
    ans := 0;
    for e := 0 to |eqs|
      invariant ans == Total1(eqs[..e])
    {
      var eq := eqs[e];
      var nums := RowNumbers(eq.operands);
      var x := Fold(eq.operator, nums);
      assert eqs[..e + 1][..e] == eqs[..e];
      ans := ans + x;
    }
    assert eqs[..|eqs|] == eqs;
  }

  /** The nested loops of `part_2`: for each column, push the digits found top to bottom. */
  method ReadColumns(operands: seq<seq<char>>) returns (nums: seq<seq<int>>)
    requires Wide(operands)
    ensures nums == ColumnNumbers(operands)
  {
    nums := [];
    for i := 0 to |operands[0]|
      invariant nums == ColumnNumbers(operands)[..i]
    {
      var n := ReadColumn(operands, i);
      nums := nums + [n];
    }
  }

  /** The inner loop of `part_2`: the digits of column i, top to bottom. */
  method ReadColumn(operands: seq<seq<char>>, i: nat) returns (n: seq<int>)
    requires Wide(operands) && i < |operands[0]|
    ensures n == DigitValues(Column(operands, i))
  {
    n := [];
    ghost var column := Column(operands, i);
    for j := 0 to |operands|
      invariant n == DigitValues(column[..j])
    {
      assert column[..j + 1][..j] == column[..j];
      match ToDigit(operands[j][i])
      case Some(v) => n := n + [v];
      case None =>
    }
    assert column[..|operands|] == column;
  }

  /** `part_2(eqs)`. */
  method Part2(eqs: seq<Equation>) returns (ans: int)
    requires ColumnsReadable(eqs)
    requires forall e :: 0 <= e < |eqs| ==>
      forall i :: 0 <= i < |ColumnNumbers(eqs[e].operands)| ==> FitsU32(ColumnNumbers(eqs[e].operands)[i])
    ensures ans == Total2(eqs)
  {
    ans := 0;
    for e := 0 to |eqs|
      invariant ans == Total2(eqs[..e])
    {
      var eq := eqs[e];
      var nums := ReadColumns(eq.operands);
      var x := Fold(eq.operator, nums);
      assert eqs[..e + 1][..e] == eqs[..e];
      ans := ans + x;
    }
    assert eqs[..|eqs|] == eqs;
  }

  // ---------------------------------------------------------------------------------------
  // How the two readings relate

  /** The block turned on its side: row i of the result is column i of `block`. */
  function Transpose(block: seq<seq<char>>): (t: seq<seq<char>>)
    requires Wide(block)
  {
    seq(|block[0]|, i requires 0 <= i < |block[0]| => Column(block, i))
  }

  /** Transposing a block whose rows all have the same non-zero width twice gives it back. */
  lemma TransposeTwice(block: seq<seq<char>>)
    requires Shaped(block, |block|) && |block| > 0 && |block[0]| > 0
    ensures Wide(Transpose(block)) && Transpose(Transpose(block)) == block
  {
    var t := Transpose(block);
    assert forall i :: 0 <= i < |t| ==> |t[i]| == |block|;
    var tt := Transpose(t);
    forall j | 0 <= j < |block| ensures tt[j] == block[j] {
      assert forall i :: 0 <= i < |block[0]| ==> tt[j][i] == t[i][j] == block[j][i];
    }
  }

  /** Reading columns is reading the rows of the transposed block. */
  lemma ColumnsAreTransposedRows(block: seq<seq<char>>)
    requires Wide(block)
    ensures ColumnNumbers(block) == RowNumbers(Transpose(block))
  {
  }

  /** Each problem turned on its side. */
  function TransposeAll(eqs: seq<Equation>): (ts: seq<Equation>)
    requires ColumnsReadable(eqs)
    ensures |ts| == |eqs|
  {
    seq(|eqs|, e requires 0 <= e < |eqs| => Equation(eqs[e].operator, Transpose(eqs[e].operands)))
  }

  /** The part 2 total is the part 1 total of the transposed worksheet. */
  lemma {:induction false} Part2IsTransposedPart1(eqs: seq<Equation>)
    requires ColumnsReadable(eqs)
    ensures Total2(eqs) == Total1(TransposeAll(eqs))
  {
    if eqs != [] {
      var init := eqs[..|eqs| - 1];
      Part2IsTransposedPart1(init);
      assert TransposeAll(eqs)[..|eqs| - 1] == TransposeAll(init);
      ColumnsAreTransposedRows(eqs[|eqs| - 1].operands);
    }
  }

  /** Every problem is a rectangle of at least one row and one column. */
  predicate Rectangular(eqs: seq<Equation>)
  {
    forall e :: 0 <= e < |eqs| ==>
      var block := eqs[e].operands;
      Shaped(block, |block|) && |block| > 0 && |block[0]| > 0
  }

  /** The other way round: on rectangular problems, part 1 is part 2 of the transposed worksheet. */
  lemma Part1IsTransposedPart2(eqs: seq<Equation>)
    requires Rectangular(eqs)
    ensures ColumnsReadable(eqs) && ColumnsReadable(TransposeAll(eqs))
    ensures Total1(eqs) == Total2(TransposeAll(eqs))
  {
    var ts := TransposeAll(eqs);
    forall e | 0 <= e < |eqs|
      ensures Wide(ts[e].operands) && Transpose(ts[e].operands) == eqs[e].operands
    {
      TransposeTwice(eqs[e].operands);
    }
    Part2IsTransposedPart1(ts);
    assert TransposeAll(ts) == eqs;
  }

  /** The part 1 total adds up the problems one by one, so it splits over a concatenation. */
  lemma {:induction false} Total1Append(a: seq<Equation>, b: seq<Equation>)
    ensures Total1(a + b) == Total1(a) + Total1(b)
    decreases |b|
  {
    if b == [] {
      assert a + b == a;
    } else {
      var b' := b[..|b| - 1];
      assert (a + b)[..|a + b| - 1] == a + b';
      Total1Append(a, b');
    }
  }

  /** What `math` produces can be read column by column. */
  lemma EquationsReadable(rows: seq<seq<char>>, ops: seq<Op>, index: nat)
    requires ops == [] || Wide(rows)
    ensures ColumnsReadable(Equations(rows, ops, index))
  {
    EquationsShaped(rows, ops, index);
  }
}
