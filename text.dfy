/**
 * The few pieces of Rust's string library the puzzles lean on: `char::is_whitespace`,
 * `str::trim`, `str::split_whitespace`, `char::to_digit(10)`, `i64::from_str` and
 * `i64::to_string`.  Strings are sequences of Unicode scalar values.
 */
module Text {
  import opened Options
  import opened Digits

  /** Rust's `char::is_whitespace`: the Unicode White_Space property. */
  predicate IsWhitespace(c: char)
  {
    || '\t' <= c <= '\r'
    || c == ' '
    || c == '\U{0085}'
    || c == '\U{00A0}'
    || c == '\U{1680}'
    || '\U{2000}' <= c <= '\U{200A}'
    || c == '\U{2028}'
    || c == '\U{2029}'
    || c == '\U{202F}'
    || c == '\U{205F}'
    || c == '\U{3000}'
  }

  /** The number of bytes UTF-8 spends on c: one for ASCII, up to four. */
  function Utf8Width(c: char): (n: nat)
    ensures 1 <= n <= 4
    ensures n == 1 <==> c as int < 0x80
  {
    if c as int < 0x80 then 1
    else if c as int < 0x800 then 2
    else if c as int < 0x1_0000 then 3
    else 4
  }

  /** Rust's `str::len`: the length of s in UTF-8 bytes. */
  function Utf8Length(s: string): (n: nat)
    ensures |s| <= n <= 4 * |s|
  {
    if s == [] then 0 else Utf8Width(s[0]) + Utf8Length(s[1..])
  }

  /** The byte length is the character count exactly when every character is ASCII. */
  lemma {:induction false} Utf8LengthAscii(s: string)
    ensures Utf8Length(s) == |s| <==> forall i :: 0 <= i < |s| ==> s[i] as int < 0x80
  {
    if s != [] {
      Utf8LengthAscii(s[1..]);
      if s[0] as int < 0x80 {
        assert forall i :: 1 <= i < |s| ==> s[i] == s[1..][i - 1];
      }
    }
  }

  /** Decimal digit text is ASCII, so its byte length is its character count. */
  lemma DigitsUtf8Length(s: string)
    requires IsDigits(s)
    ensures Utf8Length(s) == |s|
  {
    Utf8LengthAscii(s);
  }

  /** The index of the first non-whitespace character of s at or after `from`, or |s|. */
  function SkipWhitespace(s: string, from: nat): (k: nat)
    requires from <= |s|
    ensures from <= k <= |s|
    ensures forall i :: from <= i < k ==> IsWhitespace(s[i])
    ensures k == |s| || !IsWhitespace(s[k])
    decreases |s| - from
  {
    if from < |s| && IsWhitespace(s[from]) then SkipWhitespace(s, from + 1) else from
  }

  /** The index of the first whitespace character of s at or after `from`, or |s|. */
  function SkipToken(s: string, from: nat): (k: nat)
    requires from <= |s|
    ensures from <= k <= |s|
    ensures forall i :: from <= i < k ==> !IsWhitespace(s[i])
    ensures k == |s| || IsWhitespace(s[k])
    decreases |s| - from
  {
    if from < |s| && !IsWhitespace(s[from]) then SkipToken(s, from + 1) else from
  }

  /** Rust's `str::trim_start`: s without its leading whitespace. */
  function TrimStart(s: string): (r: string)
    ensures |r| <= |s|
    ensures r == [] || !IsWhitespace(r[0])
  {
    if s != [] && IsWhitespace(s[0]) then TrimStart(s[1..]) else s
  }

  /** Rust's `str::trim_end`: s without its trailing whitespace. */
  function TrimEnd(s: string): (r: string)
    ensures |r| <= |s|
    ensures r == [] || !IsWhitespace(r[|r| - 1])
  {
    if s != [] && IsWhitespace(s[|s| - 1]) then TrimEnd(s[..|s| - 1]) else s
  }

  /** Rust's `str::trim`: s without its leading and trailing whitespace. */
  function Trim(s: string): string
  {
    TrimEnd(TrimStart(s))
  }

  /** `trim_start` drops a prefix of s, all of it whitespace. */
  lemma {:induction false} TrimStartDrops(s: string)
    ensures TrimStart(s) == s[|s| - |TrimStart(s)|..]
    ensures forall i :: 0 <= i < |s| - |TrimStart(s)| ==> IsWhitespace(s[i])
  {
    if s != [] && IsWhitespace(s[0]) {
      TrimStartDrops(s[1..]);
      forall i | 0 <= i < |s| - |TrimStart(s)| ensures IsWhitespace(s[i]) {
        if i > 0 {
          assert s[i] == s[1..][i - 1];
        }
      }
    }
  }

  /** `trim_end` keeps a prefix of s and drops only whitespace after it. */
  lemma {:induction false} TrimEndKeeps(s: string)
    ensures TrimEnd(s) == s[..|TrimEnd(s)|]
    ensures forall i :: |TrimEnd(s)| <= i < |s| ==> IsWhitespace(s[i])
  {
    if s != [] && IsWhitespace(s[|s| - 1]) {
      var init := s[..|s| - 1];
      TrimEndKeeps(init);
      assert init[..|TrimEnd(init)|] == s[..|TrimEnd(init)|];
      forall i | |TrimEnd(s)| <= i < |s| ensures IsWhitespace(s[i]) {
        if i < |s| - 1 {
          assert s[i] == init[i];
        }
      }
    }
  }

  /**
   * Trimming keeps one slice s[lo..hi] of s: everything outside it is whitespace, and
   * a non-empty result neither starts nor ends with whitespace.
   */
  lemma TrimIsSlice(s: string)
    ensures exists lo, hi ::
      && 0 <= lo <= hi <= |s|
      && Trim(s) == s[lo..hi]
      && (forall i :: 0 <= i < lo ==> IsWhitespace(s[i]))
      && (forall i :: hi <= i < |s| ==> IsWhitespace(s[i]))
    ensures Trim(s) != [] ==> !IsWhitespace(Trim(s)[0]) && !IsWhitespace(Trim(s)[|Trim(s)| - 1])
    ensures Trim(s) == [] ==> forall i :: 0 <= i < |s| ==> IsWhitespace(s[i])
  {
    var t := TrimStart(s);
    TrimStartDrops(s);
    TrimEndKeeps(t);
    var lo := |s| - |t|;
    var hi := lo + |TrimEnd(t)|;
    assert Trim(s) == t[..|TrimEnd(t)|] == s[lo..hi];
    forall i | hi <= i < |s| ensures IsWhitespace(s[i]) {
      assert s[i] == t[i - lo];
    }
    if Trim(s) != [] {
      assert Trim(s)[0] == t[0];
    }
  }

  /** A whitespace-free token is its own trim. */
  lemma TrimToken(t: string)
    requires IsToken(t)
    ensures Trim(t) == t
  {
    assert TrimStart(t) == t;
  }

  /** Trimming twice is trimming once. */
  lemma TrimIdempotent(s: string)
    ensures Trim(Trim(s)) == Trim(s)
  {
    TrimIsSlice(s);
  }

  /** True when s has no whitespace character. */
  predicate IsToken(s: string)
  {
    s != [] && forall i :: 0 <= i < |s| ==> !IsWhitespace(s[i])
  }

  /** The characters of s that are not whitespace, in order. */
  function NonWhitespace(s: string): string
  {
    if s == [] then []
    else (if IsWhitespace(s[0]) then [] else [s[0]]) + NonWhitespace(s[1..])
  }

  /** Concatenation of a list of strings. */
  function Concat(ts: seq<string>): string
  {
    if ts == [] then [] else ts[0] + Concat(ts[1..])
  }

  /** Rust's `str::split_whitespace`: the maximal runs of non-whitespace characters of s[from..]. */
  function SplitWhitespace(s: string, from: nat := 0): (r: seq<string>)
    requires from <= |s|
    ensures forall i :: 0 <= i < |r| ==> IsToken(r[i])
    decreases |s| - from
  {
    var lo := SkipWhitespace(s, from);
    if lo == |s| then []
    else
      var hi := SkipToken(s, lo);
      [s[lo..hi]] + SplitWhitespace(s, hi)
  }

  /** Nothing is left to split at the end of a string. */
  lemma SplitAtEnd(s: string)
    ensures SplitWhitespace(s, |s|) == []
  {
    assert SkipWhitespace(s, |s|) == |s|;
  }

  lemma {:induction false} NonWhitespaceAppend(a: string, b: string)
    ensures NonWhitespace(a + b) == NonWhitespace(a) + NonWhitespace(b)
  {
    if a == [] {
      assert a + b == b;
    } else {
      var head := if IsWhitespace(a[0]) then [] else [a[0]];
      assert (a + b)[0] == a[0];
      assert (a + b)[1..] == a[1..] + b;
      NonWhitespaceAppend(a[1..], b);
      calc {
        NonWhitespace(a + b);
        head + NonWhitespace(a[1..] + b);
        head + (NonWhitespace(a[1..]) + NonWhitespace(b));
        (head + NonWhitespace(a[1..])) + NonWhitespace(b);
      }
    }
  }

  lemma {:induction false} NonWhitespaceAll(s: string, ws: bool)
    requires forall i :: 0 <= i < |s| ==> IsWhitespace(s[i]) == ws
    ensures NonWhitespace(s) == if ws then [] else s
  {
    if s != [] {
      NonWhitespaceAll(s[1..], ws);
    }
  }

  /** Leading whitespace contributes nothing to NonWhitespace. */
  lemma NonWhitespaceSkip(s: string, from: nat, lo: nat)
    requires from <= lo <= |s|
    requires forall i :: from <= i < lo ==> IsWhitespace(s[i])
    ensures NonWhitespace(s[from..]) == NonWhitespace(s[lo..])
  {
    assert s[from..] == s[from..lo] + s[lo..];
    NonWhitespaceAppend(s[from..lo], s[lo..]);
    NonWhitespaceAll(s[from..lo], true);
  }

  /** A token is kept whole by NonWhitespace. */
  lemma NonWhitespaceToken(s: string, lo: nat, hi: nat)
    requires lo <= hi <= |s|
    requires forall i :: lo <= i < hi ==> !IsWhitespace(s[i])
    ensures NonWhitespace(s[lo..]) == s[lo..hi] + NonWhitespace(s[hi..])
  {
    assert s[lo..] == s[lo..hi] + s[hi..];
    NonWhitespaceAppend(s[lo..hi], s[hi..]);
    NonWhitespaceAll(s[lo..hi], false);
  }

  /** split_whitespace loses exactly the whitespace: gluing the tokens back gives the rest of s. */
  lemma {:induction false} SplitWhitespaceKeepsText(s: string, from: nat)
    requires from <= |s|
    ensures Concat(SplitWhitespace(s, from)) == NonWhitespace(s[from..])
    decreases |s| - from
  {
    var lo := SkipWhitespace(s, from);
    NonWhitespaceSkip(s, from, lo);
    if lo == |s| {
      assert s[lo..] == [];
    } else {
      var hi := SkipToken(s, lo);
      var r := SplitWhitespace(s, from);
      assert r == [s[lo..hi]] + SplitWhitespace(s, hi);
      assert r[1..] == SplitWhitespace(s, hi);
      SplitWhitespaceKeepsText(s, hi);
      NonWhitespaceToken(s, lo, hi);
    }
  }

  /** Text made only of whitespace; the empty text counts. */
  predicate Blank(g: string)
  {
    forall i :: 0 <= i < |g| ==> IsWhitespace(g[i])
  }

  /** The text gaps[0] + tokens[0] + gaps[1] + ... + tokens[n - 1] + gaps[n]. */
  function Layout(gaps: seq<string>, tokens: seq<string>): string
    requires |gaps| == |tokens| + 1
    decreases |tokens|
  {
    if tokens == [] then gaps[0] else gaps[0] + tokens[0] + Layout(gaps[1..], tokens[1..])
  }

  /**
   * Tokens laid out between whitespace gaps, with at least one whitespace character between
   * each two tokens (the outer gaps may be empty).
   */
  predicate Spaced(gaps: seq<string>, tokens: seq<string>)
  {
    && |gaps| == |tokens| + 1
    && (forall j :: 0 <= j < |gaps| ==> Blank(gaps[j]))
    && (forall j :: 0 < j < |tokens| ==> gaps[j] != [])
    && (forall j :: 0 <= j < |tokens| ==> IsToken(tokens[j]))
  }

  /** A whitespace run that ends at a token or at the end is exactly what `SkipWhitespace` skips. */
  lemma SkipWhitespaceUnique(s: string, from: nat, k: nat)
    requires from <= k <= |s| && Blank(s[from..k])
    requires k == |s| || !IsWhitespace(s[k])
    ensures SkipWhitespace(s, from) == k
  {
    forall i | from <= i < k
      ensures IsWhitespace(s[i])
    {
      assert s[i] == s[from..k][i - from];
    }
  }

  /** A token that ends at whitespace or at the end is exactly what `SkipToken` skips. */
  lemma SkipTokenUnique(s: string, from: nat, k: nat)
    requires from <= k <= |s| && IsToken(s[from..k])
    requires k == |s| || IsWhitespace(s[k])
    ensures SkipToken(s, from) == k
  {
    forall i | from <= i < k
      ensures !IsWhitespace(s[i])
    {
      assert s[i] == s[from..k][i - from];
    }
  }

  /** The three parts of a text that spells g + t + rest from position `from`. */
  lemma SliceParts(s: string, from: nat, g: string, t: string, rest: string, lo: nat, hi: nat)
    requires from <= |s| && s[from..] == g + t + rest
    requires lo == from + |g| && hi == lo + |t|
    ensures hi <= |s| && s[from..lo] == g && s[lo..hi] == t && s[hi..] == rest
  {
    assert s[from..lo] == s[from..][..|g|];
    assert s[lo..hi] == s[from..][|g|..|g| + |t|];
    assert s[hi..] == s[from..][|g| + |t|..];
  }

  /** The three consecutive slices of a text from position `from`. */
  lemma SliceJoin(s: string, from: nat, lo: nat, hi: nat)
    requires from <= lo <= hi <= |s|
    ensures s[from..] == s[from..lo] + s[lo..hi] + s[hi..]
  {
  }

  /** One step of `split_whitespace`: the first token, then the split after it. */
  lemma SplitAt(s: string, from: nat, lo: nat, hi: nat)
    requires from <= |s| && lo == SkipWhitespace(s, from) < |s| && hi == SkipToken(s, lo)
    ensures SplitWhitespace(s, from) == [s[lo..hi]] + SplitWhitespace(s, hi)
  {
  }

  /** A layout begins with its first gap. */
  lemma LayoutHead(gaps: seq<string>, tokens: seq<string>)
    requires |gaps| == |tokens| + 1
    ensures |gaps[0]| <= |Layout(gaps, tokens)| && Layout(gaps, tokens)[..|gaps[0]|] == gaps[0]
  {
  }

  /** Dropping the first gap and token of spaced tokens leaves spaced tokens. */
  lemma LayoutTail(gaps: seq<string>, tokens: seq<string>)
    requires Spaced(gaps, tokens) && tokens != []
    ensures Spaced(gaps[1..], tokens[1..])
  {
    assert forall j :: 0 < j < |tokens| - 1 ==> gaps[1..][j] == gaps[j + 1];
  }

  /** On a layout, `SkipWhitespace` skips exactly the first gap. */
  lemma LayoutSkipsGap(s: string, from: nat, gaps: seq<string>, tokens: seq<string>, lo: nat)
    requires from <= |s| && Spaced(gaps, tokens) && tokens != [] && s[from..] == Layout(gaps, tokens)
    requires lo == from + |gaps[0]|
    ensures SkipWhitespace(s, from) == lo
  {
    var hi := lo + |tokens[0]|;
    SliceParts(s, from, gaps[0], tokens[0], Layout(gaps[1..], tokens[1..]), lo, hi);
    assert Blank(gaps[0]) && IsToken(tokens[0]) && s[lo] == s[lo..hi][0];
    SkipWhitespaceUnique(s, from, lo);
  }

  /** After the first token of a layout comes whitespace or the end of the text. */
  lemma LayoutTokenEnd(s: string, hi: nat, gaps: seq<string>, tokens: seq<string>)
    requires Spaced(gaps, tokens) && tokens != []
    requires hi <= |s| && s[hi..] == Layout(gaps[1..], tokens[1..])
    ensures hi == |s| || IsWhitespace(s[hi])
  {
    LayoutHead(gaps[1..], tokens[1..]);
    if gaps[1] == [] {
      assert tokens[1..] == [];
    } else {
      assert s[hi] == s[hi..][0] == gaps[1][0];
    }
  }

  /** On a layout, `SkipToken` after the first gap skips exactly the first token. */
  lemma LayoutSkipsToken(s: string, from: nat, gaps: seq<string>, tokens: seq<string>, lo: nat, hi: nat)
    requires from <= |s| && Spaced(gaps, tokens) && tokens != [] && s[from..] == Layout(gaps, tokens)
    requires lo == from + |gaps[0]| && hi == lo + |tokens[0]|
    ensures SkipToken(s, lo) == hi
  {
    assert hi <= |s| && IsToken(s[lo..hi]) && s[hi..] == Layout(gaps[1..], tokens[1..]) by {
      SliceParts(s, from, gaps[0], tokens[0], Layout(gaps[1..], tokens[1..]), lo, hi);
    }
    assert hi == |s| || IsWhitespace(s[hi]) by {
      LayoutTokenEnd(s, hi, gaps, tokens);
    }
    SkipTokenUnique(s, lo, hi);
  }

  /** A whitespace-only rest of the text has no tokens. */
  lemma BlankSplits(s: string, from: nat)
    requires from <= |s| && Blank(s[from..])
    ensures SplitWhitespace(s, from) == []
  {
    assert s[from..|s|] == s[from..];
    SkipWhitespaceUnique(s, from, |s|);
  }

  /** On a layout, `split_whitespace` yields the first token and goes on at the rest of the layout. */
  lemma LayoutStep(s: string, from: nat, gaps: seq<string>, tokens: seq<string>, hi: nat)
    requires from <= |s| && Spaced(gaps, tokens) && tokens != [] && s[from..] == Layout(gaps, tokens)
    requires hi == from + |gaps[0]| + |tokens[0]|
    ensures hi <= |s| && s[hi..] == Layout(gaps[1..], tokens[1..])
    ensures SplitWhitespace(s, from) == [tokens[0]] + SplitWhitespace(s, hi)
  {
    var lo := from + |gaps[0]|;
    assert hi <= |s| && s[lo..hi] == tokens[0] && s[hi..] == Layout(gaps[1..], tokens[1..]) by {
      SliceParts(s, from, gaps[0], tokens[0], Layout(gaps[1..], tokens[1..]), lo, hi);
    }
    assert SkipWhitespace(s, from) == lo by {
      LayoutSkipsGap(s, from, gaps, tokens, lo);
    }
    assert SkipToken(s, lo) == hi by {
      LayoutSkipsToken(s, from, gaps, tokens, lo, hi);
    }
    SplitAt(s, from, lo, hi);
    assert [s[lo..hi]] == [tokens[0]];
  }

  /** Spaced tokens are what `split_whitespace` gives back: the tokens are the maximal runs. */
  lemma {:induction false} LayoutSplits(s: string, from: nat, gaps: seq<string>, tokens: seq<string>)
    requires from <= |s| && Spaced(gaps, tokens) && s[from..] == Layout(gaps, tokens)
    ensures SplitWhitespace(s, from) == tokens
    decreases |tokens|
  {
    if tokens == [] {
      BlankSplits(s, from);
    } else {
      var hi := from + |gaps[0]| + |tokens[0]|;
      assert hi <= |s| && s[hi..] == Layout(gaps[1..], tokens[1..])
        && SplitWhitespace(s, from) == [tokens[0]] + SplitWhitespace(s, hi) by {
        LayoutStep(s, from, gaps, tokens, hi);
      }
      assert SplitWhitespace(s, hi) == tokens[1..] by {
        LayoutTail(gaps, tokens);
        LayoutSplits(s, hi, gaps[1..], tokens[1..]);
      }
      assert tokens == [tokens[0]] + tokens[1..];
    }
  }

  /** The whitespace runs of s[from..] around its tokens: before each token, and after the last. */
  function Gaps(s: string, from: nat): seq<string>
    requires from <= |s|
    decreases |s| - from
  {
    var lo := SkipWhitespace(s, from);
    if lo == |s| then [s[from..]]
    else [s[from..lo]] + Gaps(s, SkipToken(s, lo))
  }

  /** What `SkipWhitespace` skips is whitespace only. */
  lemma SkippedIsBlank(s: string, from: nat)
    requires from <= |s|
    ensures Blank(s[from..SkipWhitespace(s, from)])
  {
    var lo := SkipWhitespace(s, from);
    assert forall i :: 0 <= i < lo - from ==> s[from..lo][i] == s[from + i];
  }

  /** One more gap and token in front of spaced tokens, with whitespace before the old first token. */
  lemma SpacedCons(g: string, t: string, gaps: seq<string>, tokens: seq<string>)
    requires Blank(g) && IsToken(t) && Spaced(gaps, tokens) && (tokens != [] ==> gaps[0] != [])
    ensures Spaced([g] + gaps, [t] + tokens)
    ensures Layout([g] + gaps, [t] + tokens) == g + t + Layout(gaps, tokens)
  {
    var gs, ts := [g] + gaps, [t] + tokens;
    assert gs[1..] == gaps && ts[1..] == tokens;
    assert forall j :: 0 < j < |gs| ==> gs[j] == gaps[j - 1];
    assert forall j :: 0 < j < |ts| ==> ts[j] == tokens[j - 1];
  }

  /** Every text is its tokens laid out between whitespace gaps, as `split_whitespace` sees it. */
  lemma {:induction false} SplitIsLayout(s: string, from: nat)
    requires from <= |s|
    ensures Spaced(Gaps(s, from), SplitWhitespace(s, from))
    ensures Layout(Gaps(s, from), SplitWhitespace(s, from)) == s[from..]
    ensures Gaps(s, from)[0] == s[from..SkipWhitespace(s, from)]
    decreases |s| - from
  {
    var lo := SkipWhitespace(s, from);
    SkippedIsBlank(s, from);
    if lo == |s| {
      assert Gaps(s, from) == [s[from..]] && SplitWhitespace(s, from) == [];
    } else {
      var hi := SkipToken(s, lo);
      var gs, ts := Gaps(s, hi), SplitWhitespace(s, hi);
      assert Gaps(s, from) == [s[from..lo]] + gs;
      assert SplitWhitespace(s, from) == [s[lo..hi]] + ts && IsToken(s[lo..hi]) by {
        SplitAt(s, from, lo, hi);
      }
      assert Spaced(gs, ts) && Layout(gs, ts) == s[hi..] && gs[0] == s[hi..SkipWhitespace(s, hi)] by {
        SplitIsLayout(s, hi);
      }
      assert ts != [] ==> gs[0] != [] by {
        if ts != [] {
          assert hi < |s| && IsWhitespace(s[hi]);
          assert SkipWhitespace(s, hi) > hi;
        }
      }
      assert Spaced([s[from..lo]] + gs, [s[lo..hi]] + ts)
        && Layout([s[from..lo]] + gs, [s[lo..hi]] + ts) == s[from..] by {
        SpacedCons(s[from..lo], s[lo..hi], gs, ts);
        SliceJoin(s, from, lo, hi);
      }
    }
  }

  /** ASCII decimal digit. */
  predicate IsDigit(c: char)
  {
    '0' <= c <= '9'
  }

  /** The character of a decimal digit. */
  function DigitChar(d: nat): (c: char)
    requires d < 10
    ensures IsDigit(c)
  {
    ('0' as int + d) as char
  }

  /** Rust's `char::to_digit(10)`: the value of a decimal digit character, None for anything else. */
  function ToDigit(c: char): (r: Option<int>)
    ensures r.Some? <==> IsDigit(c)
    ensures r.Some? ==> 0 <= r.value < 10 && DigitChar(r.value) == c
  {
    if IsDigit(c) then Some(c as int - '0' as int) else None
  }

  /** True when s is a non-empty string of decimal digits. */
  predicate IsDigits(s: string)
  {
    s != [] && forall i :: 0 <= i < |s| ==> IsDigit(s[i])
  }

  /**
   * The digit values of the digit characters of s, in order; other characters are dropped
   * (`filter_map(|c| c.to_digit(10))`).
   */
  function DigitValues(s: string): (ds: seq<int>)
    ensures IsDigitSeq(ds)
    ensures |ds| <= |s|
    ensures (forall i :: 0 <= i < |s| ==> IsDigit(s[i])) ==>
      |ds| == |s| && forall i :: 0 <= i < |s| ==> DigitChar(ds[i]) == s[i]
  {
    if s == [] then []
    else
      var rest := DigitValues(s[..|s| - 1]);
      match ToDigit(s[|s| - 1])
      case Some(d) => rest + [d]
      case None => rest
  }

  /** The value of a string of decimal digits, most significant first. */
  function ParseNat(s: string): nat
    requires forall i :: 0 <= i < |s| ==> IsDigit(s[i])
  {
    if s == [] then 0
    else
      assert IsDigit(s[|s| - 1]);
      ParseNat(s[..|s| - 1]) * 10 + (s[|s| - 1] as int - '0' as int)
  }

  /** Parsing a digit string is taking the value of its digits. */
  lemma {:induction false} ParseNatIsValue(s: string)
    requires forall i :: 0 <= i < |s| ==> IsDigit(s[i])
    ensures ParseNat(s) == Value(DigitValues(s))
  {
    if s != [] {
      var init := s[..|s| - 1];
      ParseNatIsValue(init);
      var di := DigitValues(init);
      var d := s[|s| - 1] as int - '0' as int;
      assert DigitValues(s) == di + [d];
      assert (di + [d])[..|di|] == di;
    }
  }

  /** A digit string that does not start with 0 has a value of at least 1. */
  lemma {:induction false} ParseNatLeading(s: string)
    requires IsDigits(s) && s[0] != '0'
    ensures ParseNat(s) >= 1
  {
    if |s| > 1 {
      ParseNatLeading(s[..|s| - 1]);
    }
  }

  /** The decimal text of n: no sign, no leading zero (`u64::to_string`). */
  function NatToString(n: nat): (s: string)
    ensures |s| >= 1
    decreases n
  {
    if n < 10 then [DigitChar(n)] else NatToString(n / 10) + [DigitChar(n % 10)]
  }

  /** The text of n is canonical: all digits, with no leading zero unless n is 0. */
  lemma {:induction false} NatToStringCanonical(n: nat)
    ensures IsCanonical(NatToString(n))
    ensures NatToString(n)[0] != '0' || n == 0
    ensures n == 0 ==> NatToString(n) == "0"
    decreases n
  {
    if n >= 10 {
      var t := NatToString(n / 10);
      NatToStringCanonical(n / 10);
      var s := NatToString(n);
      assert s == t + [DigitChar(n % 10)];
      assert forall i :: 0 <= i < |t| ==> s[i] == t[i];
    }
  }

  /** Rust's `i64::to_string`, without the 64-bit bound. */
  function IntToString(x: int): string
  {
    if x < 0 then "-" + NatToString(-x) else NatToString(x)
  }

  /** The value of s when every character of s is a decimal digit (0 for ""), otherwise None. */
  function ParseDigits(s: string): Option<nat>
  {
    if s == [] then Some(0)
    else if !IsDigit(s[|s| - 1]) then None
    else
      match ParseDigits(s[..|s| - 1])
      case None => None
      case Some(v) => Some(v * 10 + (s[|s| - 1] as int - '0' as int))
  }

  /** The checked parse fails exactly on a non-digit, and otherwise agrees with `ParseNat`. */
  lemma {:induction false} ParseDigitsIsParseNat(s: string)
    ensures ParseDigits(s).Some? <==> forall i :: 0 <= i < |s| ==> IsDigit(s[i])
    ensures ParseDigits(s).Some? ==> ParseDigits(s).value == ParseNat(s)
  {
    if s != [] {
      var init := s[..|s| - 1];
      ParseDigitsIsParseNat(init);
      if IsDigit(s[|s| - 1]) && ParseDigits(init).None? {
        var i :| 0 <= i < |init| && !IsDigit(init[i]);
        assert s[i] == init[i];
      }
    }
  }

  /** Rust's `i64::from_str`: an optional `+` or `-`, then one or more digits; overflow is not modelled. */
  function ParseInt(s: string): Option<int>
  {
    if s == [] then None
    else if s[0] == '+' || s[0] == '-' then
      if |s| == 1 then None
      else
        match ParseDigits(s[1..])
        case None => None
        case Some(v) =>
          var w: int := v;
          Some(if s[0] == '-' then -w else w)
    else
      match ParseDigits(s)
      case None => None
      case Some(v) => Some(v as int)
  }

  /** A text with a sign in front parses exactly when the rest is a digit string. */
  lemma ParseSigned(s: string)
    requires |s| >= 2 && (s[0] == '+' || s[0] == '-')
    ensures ParseInt(s).Some? <==> IsDigits(s[1..])
    ensures IsDigits(s[1..]) ==>
      ParseInt(s) == Some(if s[0] == '-' then -(ParseNat(s[1..]) as int) else ParseNat(s[1..]) as int)
  {
    ParseDigitsIsParseNat(s[1..]);
  }

  /** A text without a sign in front parses exactly when it is a digit string. */
  lemma ParseUnsigned(s: string)
    requires s == [] || (s[0] != '+' && s[0] != '-')
    ensures ParseInt(s).Some? <==> IsDigits(s)
    ensures IsDigits(s) ==> ParseInt(s) == Some(ParseNat(s) as int)
  {
    ParseDigitsIsParseNat(s);
  }

  /**
   * `from_str` accepts exactly a digit string, or a sign followed by a digit string,
   * and its value is the digits' value with the sign applied.
   */
  lemma ParseIntAccepts(s: string)
    ensures ParseInt(s).Some? <==>
      (IsDigits(s) || (|s| >= 2 && (s[0] == '+' || s[0] == '-') && IsDigits(s[1..])))
    ensures IsDigits(s) ==> ParseInt(s) == Some(ParseNat(s) as int)
  {
    if |s| >= 1 && (s[0] == '+' || s[0] == '-') {
      assert !IsDigits(s) by {
        assert !IsDigit(s[0]);
      }
      if |s| >= 2 {
        ParseSigned(s);
      }
    } else {
      ParseUnsigned(s);
    }
  }

  /** A canonical decimal text: digits only, and no leading zero unless it is "0". */
  predicate IsCanonical(s: string)
  {
    IsDigits(s) && (s[0] != '0' || |s| == 1)
  }

  /** Reading the canonical text of n gives back n. */
  lemma {:induction false} NatToStringValue(n: nat)
    ensures IsCanonical(NatToString(n)) && ParseNat(NatToString(n)) == n
    decreases n
  {
    var s := NatToString(n);
    NatToStringCanonical(n);
    if n >= 10 {
      NatToStringCanonical(n / 10);
      NatToStringValue(n / 10);
      assert s[..|s| - 1] == NatToString(n / 10);
    } else {
      assert s[..0] == [];
    }
  }

  /** Reading then printing a canonical text gives it back. */
  lemma {:induction false} CanonicalRoundTrip(s: string)
    requires IsCanonical(s)
    ensures NatToString(ParseNat(s)) == s
  {
    if |s| == 1 {
      assert s[..0] == [];
    } else {
      var init, last := s[..|s| - 1], s[|s| - 1];
      assert s == init + [last];
      assert IsCanonical(init);
      CanonicalRoundTrip(init);
      ParseNatLeading(init);
      var u, d := ParseNat(init), last as int - '0' as int;
      assert ParseNat(s) == u * 10 + d;
      DivMod(u, d, 10);
      assert u * 10 + d == 10 * u + d;
      assert NatToString(ParseNat(s)) == NatToString(u) + [DigitChar(d)];
      assert DigitChar(d) == last;
    }
  }

  /** The number of decimal digits of n never shrinks as n grows. */
  lemma {:induction false} NatToStringLengthMono(x: nat, y: nat)
    requires x <= y
    ensures |NatToString(x)| <= |NatToString(y)|
    decreases y
  {
    if x >= 10 {
      NatToStringLengthMono(x / 10, y / 10);
    }
  }

  /** Printing then parsing an integer gives it back. */
  lemma IntRoundTrip(x: int)
    ensures ParseInt(IntToString(x)) == Some(x)
  {
    var n := if x < 0 then -x else x;
    var s := NatToString(n);
    NatToStringCanonical(n);
    NatToStringValue(n);
    if x < 0 {
      var t := IntToString(x);
      assert t == "-" + s && t[1..] == s;
      ParseSigned(t);
    } else {
      assert IsDigit(s[0]);
      ParseUnsigned(s);
    }
  }
}
