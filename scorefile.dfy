/** The text and table logic of src/score_file.rs: rendering a `u32` slice as
    space-separated decimals, parsing such a line back while dropping tokens
    that are not `u32`s, splitting the save file's content into its two
    lines, and the capped high-score table update. Reading and writing the
    file are not part of this model. */
module ScoreFile {
  import opened Wrappers

  /** Rust's `u32`. */
  type U32 = n: nat | n < 0x1_0000_0000

  /** `NB_HIGHSCORES`. */
  const NbHighscores: nat := 5

  // ---------------------------------------------------------------- decimal text

  predicate IsDigit(c: char)
  {
    '0' <= c <= '9'
  }

  predicate AllDigits(s: string)
  {
    forall i :: 0 <= i < |s| ==> IsDigit(s[i])
  }

  function DigitChar(d: nat): (c: char)
    requires d < 10
    ensures IsDigit(c) && c as int - '0' as int == d
  {
    ('0' as int + d) as char
  }

  /** The value of a string of decimal digits, most significant first. */
  function DigitsValue(s: string): nat
    requires AllDigits(s)
  {
    if s == [] then 0 else DigitsValue(s[..|s| - 1]) * 10 + (s[|s| - 1] as int - '0' as int)
  }

  /** `to_string` of an unsigned integer: its decimal digits, no sign, and
      no leading zero except for 0 itself. */
  function ToDecimal(n: nat): (s: string)
    ensures |s| > 0 && AllDigits(s)
    ensures |s| > 1 ==> s[0] != '0'
  {
    if n < 10 then [DigitChar(n)] else ToDecimal(n / 10) + [DigitChar(n % 10)]
  }

  lemma {:induction false} ToDecimalValue(n: nat)
    ensures DigitsValue(ToDecimal(n)) == n
  {
    if n >= 10 {
      var s := ToDecimal(n);
      assert s[..|s| - 1] == ToDecimal(n / 10);
      ToDecimalValue(n / 10);
    }
  }

  /** `str::parse::<u32>`: an optional leading '+', then one or more ASCII
      digits whose value is below 2^32. Anything else, the empty string and a
      lone "+" included, is an error. */
  function ParseU32(s: string): (r: Option<U32>)
    ensures s == "" || s == "+" ==> r.None?
    ensures (exists i :: 0 <= i < |s| && !IsDigit(s[i]) && (i > 0 || s[i] != '+')) ==> r.None?
  {
    var digits := if |s| > 0 && s[0] == '+' then s[1..] else s;
    if |digits| == 0 || !AllDigits(digits) then None
    else if DigitsValue(digits) < 0x1_0000_0000 then Some(DigitsValue(digits))
    else None
  }

  /** A `u32`'s rendering parses back to it. */
  lemma ParseToDecimal(n: U32)
    ensures ParseU32(ToDecimal(n)) == Some(n)
  {
    ToDecimalValue(n);
  }

  /** A token whose last character is a line break never parses. */
  lemma ParseNewline(t: string)
    ensures ParseU32(t + "\n") == None
  {
    var s := t + "\n";
    assert !IsDigit(s[|s| - 1]);
  }

  // ---------------------------------------------------------------- splitting and joining

  /** `str::split` on a one-character separator: the pieces between
      separators, in order, empties included; "" gives [""]. */
  function Split(s: string, sep: char): (r: seq<string>)
    ensures |r| > 0
    ensures forall i :: 0 <= i < |r| ==> sep !in r[i]
    decreases |s|
  {
    if s == [] then [""]
    else if s[0] == sep then [""] + Split(s[1..], sep)
    else
      var t := Split(s[1..], sep);
      [[s[0]] + t[0]] + t[1..]
  }

  /** `join` of a list of strings with a one-character separator. */
  function Join(tokens: seq<string>, sep: char): (s: string)
    decreases |tokens|
  {
    if tokens == [] then ""
    else if |tokens| == 1 then tokens[0]
    else tokens[0] + [sep] + Join(tokens[1..], sep)
  }

  /** A string without the separator is a single token. */
  lemma {:induction false} SplitNoSep(a: string, sep: char)
    requires sep !in a
    ensures Split(a, sep) == [a]
    decreases |a|
  {
    if a != [] {
      SplitNoSep(a[1..], sep);
      assert [a[0]] + a[1..] == a;
    }
  }

  /** A separator after a separator-free prefix ends the first token. */
  lemma {:induction false} SplitAtSep(a: string, sep: char, b: string)
    requires sep !in a
    ensures Split(a + [sep] + b, sep) == [a] + Split(b, sep)
    decreases |a|
  {
    var s := a + [sep] + b;
    if a == [] {
      assert s[1..] == b;
    } else {
      assert s[1..] == a[1..] + [sep] + b;
      SplitAtSep(a[1..], sep, b);
      assert [a[0]] + a[1..] == a;
    }
  }

  /** Splitting undoes joining, for tokens without the separator; text
      without the separator written after the join ends up on the last token. */
  lemma {:induction false} SplitJoin(tokens: seq<string>, sep: char, tail: string)
    requires |tokens| > 0 && forall i :: 0 <= i < |tokens| ==> sep !in tokens[i]
    requires sep !in tail
    ensures Split(Join(tokens, sep) + tail, sep) == tokens[..|tokens| - 1] + [tokens[|tokens| - 1] + tail]
    decreases |tokens|
  {
    if |tokens| == 1 {
      SplitNoSep(tokens[0] + tail, sep);
    } else {
      var rest := tokens[1..];
      SplitJoin(rest, sep, tail);
      assert Join(tokens, sep) + tail == tokens[0] + [sep] + (Join(rest, sep) + tail);
      SplitAtSep(tokens[0], sep, Join(rest, sep) + tail);
      assert tokens[..|tokens| - 1] == [tokens[0]] + rest[..|rest| - 1];
    }
  }

  // ---------------------------------------------------------------- slice_to_string and line_to_slice

  function Decimals(v: seq<U32>): (r: seq<string>)
    ensures |r| == |v| && forall i :: 0 <= i < |v| ==> r[i] == ToDecimal(v[i])
  {
    seq(|v|, i requires 0 <= i < |v| => ToDecimal(v[i]))
  }

  /** `slice_to_string`: the values' decimal renderings joined by single
      spaces. */
  function SliceToString(v: seq<U32>): string
  {
    Join(Decimals(v), ' ')
  }

  /** The `filter_map` of `line_to_slice`: the tokens that parse, in order. */
  function ParseTokens(tokens: seq<string>): (r: seq<U32>)
    ensures |r| <= |tokens|
  {
    if tokens == [] then []
    else match ParseU32(tokens[0])
      case None => ParseTokens(tokens[1..])
      case Some(n) => [n] + ParseTokens(tokens[1..])
  }

  /** `line_to_slice`: split on spaces and keep the tokens that are `u32`s. */
  function LineToSlice(line: string): seq<U32>
  {
    ParseTokens(Split(line, ' '))
  }

  lemma {:induction false} ParseTokensAppend(a: seq<string>, b: seq<string>)
    ensures ParseTokens(a + b) == ParseTokens(a) + ParseTokens(b)
    decreases |a|
  {
    if a != [] {
      assert (a + b)[0] == a[0];
      assert (a + b)[1..] == a[1..] + b;
      ParseTokensAppend(a[1..], b);
    } else {
      assert a + b == b;
    }
  }

  lemma {:induction false} ParseDecimals(v: seq<U32>)
    ensures ParseTokens(Decimals(v)) == v
    decreases |v|
  {
    if v != [] {
      ParseToDecimal(v[0]);
      assert Decimals(v)[1..] == Decimals(v[1..]);
      ParseDecimals(v[1..]);
    }
  }

  /** What `slice_to_string` promises: an empty slice gives ""; otherwise
      the text is the renderings, split exactly at its spaces, so there is no
      leading, trailing or doubled space. */
  lemma SliceToStringTokens(v: seq<U32>)
    ensures v == [] ==> SliceToString(v) == ""
    ensures v != [] ==> Split(SliceToString(v), ' ') == Decimals(v)
  {
    if v != [] {
      var d := Decimals(v);
      DecimalsNoSpace(v);
      SplitJoin(d, ' ', "");
      assert SliceToString(v) + "" == SliceToString(v);
      assert d[|d| - 1] + "" == d[|d| - 1];
      assert d[..|d| - 1] + [d[|d| - 1]] == d;
    }
  }

  lemma DecimalsNoSpace(v: seq<U32>)
    ensures forall i :: 0 <= i < |v| ==> ' ' !in Decimals(v)[i]
  {
    forall i | 0 <= i < |v| ensures ' ' !in Decimals(v)[i] {
      var d := ToDecimal(v[i]);
      assert forall k :: 0 <= k < |d| ==> IsDigit(d[k]);
    }
  }

  /** The serialiser round trip: parsing a rendered slice gives it back. */
  lemma LineRoundTrip(v: seq<U32>)
    ensures LineToSlice(SliceToString(v)) == v
  {
    SliceToStringTokens(v);
    if v == [] {
      assert Split("", ' ') == [""];
    } else {
      ParseDecimals(v);
    }
  }

  /** The same rendering followed by a line break loses its last value: the
      break stays on the last token, which then does not parse. */
  lemma LineWithBreak(v: seq<U32>)
    ensures v == [] ==> LineToSlice(SliceToString(v) + "\n") == []
    ensures v != [] ==> LineToSlice(SliceToString(v) + "\n") == v[..|v| - 1]
  {
    if v == [] {
      assert SliceToString(v) + "\n" == "" + "\n";
      SplitNoSep("" + "\n", ' ');
      ParseNewline("");
    } else {
      var d := Decimals(v);
      var last := d[|d| - 1] + "\n";
      DecimalsNoSpace(v);
      SplitJoin(d, ' ', "\n");
      ParseTokensAppend(d[..|d| - 1], [last]);
      ParseNewline(d[|d| - 1]);
      assert ParseTokens([last]) == [] by {
        assert [last][1..] == [];
      }
      assert d[..|d| - 1] == Decimals(v[..|v| - 1]);
      ParseDecimals(v[..|v| - 1]);
    }
  }

  // ---------------------------------------------------------------- the save file

  /** The content `save_highscores_and_lines` writes: each slice on its own
      line, both lines ended by a line break. */
  function SaveContent(highscores: seq<U32>, lines: seq<U32>): string
  {
    SliceToString(highscores) + "\n" + SliceToString(lines) + "\n"
  }

  /** `splitn(2, "\n")`: the text before the first line break and everything
      after it, or the whole text when there is none. */
  function SplitOnce(s: string): (r: seq<string>)
    ensures 1 <= |r| <= 2
    ensures |r| == 1 <==> '\n' !in s
    ensures |r| == 1 ==> r[0] == s
    ensures |r| == 2 ==> s == r[0] + "\n" + r[1] && '\n' !in r[0]
  {
    if s == [] then [""]
    else if s[0] == '\n' then ["", s[1..]]
    else
      var t := SplitOnce(s[1..]);
      [[s[0]] + t[0]] + t[1..]
  }

  lemma {:induction false} SplitOnceAt(a: string, b: string)
    requires '\n' !in a
    ensures SplitOnce(a + "\n" + b) == [a, b]
    decreases |a|
  {
    var s := a + "\n" + b;
    if a == [] {
      assert s[1..] == b;
    } else {
      assert s[0] == a[0];
      assert s[1..] == a[1..] + "\n" + b;
      SplitOnceAt(a[1..], b);
      assert [a[0]] + a[1..] == a;
    }
  }

  /** The splitting half of `load_highscores_and_lines`, as written: both
      parts of `splitn(2, "\n")` go through `line_to_slice` unchanged, and
      fewer than two parts is `None`. */
  function LoadContent(content: string): (r: Option<(seq<U32>, seq<U32>)>)
    ensures r.Some? <==> '\n' in content
  {
    var parts := SplitOnce(content);
    if |parts| == 2 then Some((LineToSlice(parts[0]), LineToSlice(parts[1]))) else None
  }

  /** Loading what was saved, as written: the high scores come back, but the
      line counts lose their last entry, because the second part still ends
      with the final line break. */
  lemma LoadAfterSave(highscores: seq<U32>, lines: seq<U32>)
    ensures lines == [] ==> LoadContent(SaveContent(highscores, lines)) == Some((highscores, []))
    ensures lines != [] ==> LoadContent(SaveContent(highscores, lines)) == Some((highscores, lines[..|lines| - 1]))
  {
    SaveSplits(highscores, lines);
    LineRoundTrip(highscores);
    LineWithBreak(lines);
  }

  lemma SaveSplits(highscores: seq<U32>, lines: seq<U32>)
    ensures SplitOnce(SaveContent(highscores, lines)) == [SliceToString(highscores), SliceToString(lines) + "\n"]
  {
    SliceNoBreak(highscores);
    assert SaveContent(highscores, lines) == SliceToString(highscores) + "\n" + (SliceToString(lines) + "\n");
    SplitOnceAt(SliceToString(highscores), SliceToString(lines) + "\n");
  }

  lemma {:induction false} JoinNoBreak(tokens: seq<string>)
    requires forall i :: 0 <= i < |tokens| ==> '\n' !in tokens[i]
    ensures '\n' !in Join(tokens, ' ')
    decreases |tokens|
  {
    if |tokens| > 1 {
      JoinNoBreak(tokens[1..]);
    }
  }

  lemma SliceNoBreak(v: seq<U32>)
    ensures '\n' !in SliceToString(v)
  {
    forall i | 0 <= i < |v| ensures '\n' !in Decimals(v)[i] {
      var d := ToDecimal(v[i]);
      assert forall k :: 0 <= k < |d| ==> IsDigit(d[k]);
    }
    JoinNoBreak(Decimals(v));
  }

  /** The loader as intended: the line break that ends the second line is
      removed before parsing it. */
  function LoadContentTrimmed(content: string): (r: Option<(seq<U32>, seq<U32>)>)
    ensures r.Some? <==> '\n' in content
  {
    var parts := SplitOnce(content);
    if |parts| == 2 then
      var second := parts[1];
      var line := if |second| > 0 && second[|second| - 1] == '\n' then second[..|second| - 1] else second;
      Some((LineToSlice(parts[0]), LineToSlice(line)))
    else None
  }

  /** With the trimmed loader, saving and loading is the identity. */
  lemma LoadTrimmedAfterSave(highscores: seq<U32>, lines: seq<U32>)
    ensures LoadContentTrimmed(SaveContent(highscores, lines)) == Some((highscores, lines))
  {
    SaveSplits(highscores, lines);
    var second := SliceToString(lines) + "\n";
    assert second[..|second| - 1] == SliceToString(lines);
    LineRoundTrip(highscores);
    LineRoundTrip(lines);
  }

  // ---------------------------------------------------------------- update_vec

  /** Index of the first entry strictly below `value`. */
  function FirstBelow(v: seq<U32>, value: U32): (r: Option<nat>)
    ensures r.Some? ==> r.value < |v| && v[r.value] < value && forall j :: 0 <= j < r.value ==> value <= v[j]
    ensures r.None? ==> forall j :: 0 <= j < |v| ==> value <= v[j]
  {
    if v == [] then None
    else if value > v[0] then Some(0)
    else match FirstBelow(v[1..], value)
      case None => None
      case Some(i) => Some(i + 1)
  }

  /** The table after `update_vec` and its result: a table shorter than
      NB_HIGHSCORES gets the value appended; a full one has its first entry
      below the value overwritten; otherwise it is unchanged and the result
      is false. */
  function UpdatedTable(v: seq<U32>, value: U32): (bool, seq<U32>)
  {
    if |v| < NbHighscores then (true, v + [value])
    else match FirstBelow(v, value)
      case Some(i) => (true, v[i := value])
      case None => (false, v)
  }

  /** `update_vec`, with the vector passed in and the updated vector
      returned. */
  method UpdateVec(v: seq<U32>, value: U32) returns (updated: bool, v': seq<U32>)
    ensures (updated, v') == UpdatedTable(v, value)
  {
    if |v| < NbHighscores {
      return true, v + [value];
    }
    v' := v;
    for i := 0 to |v'|
      invariant v' == v && forall j :: 0 <= j < i ==> value <= v[j]
    {
      if value > v'[i] {
        v' := v'[i := value];
        FirstBelowAt(v, value, i);
        return true, v';
      }
    }
    updated := false;
  }

  lemma {:induction false} FirstBelowAt(v: seq<U32>, value: U32, i: nat)
    requires i < |v| && v[i] < value && forall j :: 0 <= j < i ==> value <= v[j]
    ensures FirstBelow(v, value) == Some(i)
  {
    if i > 0 {
      FirstBelowAt(v[1..], value, i - 1);
    }
  }

  /** What a table update can do: false exactly when the table is full and
      the value is at most every entry; the length grows by at most one and
      never past NB_HIGHSCORES unless it already was; in a full table only
      the first entry below the value changes, and it becomes the value. */
  lemma UpdatedTableShape(v: seq<U32>, value: U32)
    ensures var (updated, v') := UpdatedTable(v, value);
            (!updated <==> |v| >= NbHighscores && forall j :: 0 <= j < |v| ==> value <= v[j]) &&
            |v| <= |v'| <= |v| + 1 &&
            |v'| <= (if |v| > NbHighscores then |v| else NbHighscores) &&
            (|v| < NbHighscores ==> v' == v + [value]) &&
            (|v| >= NbHighscores ==> |v'| == |v|) &&
            (|v| >= NbHighscores && FirstBelow(v, value).Some? ==>
               forall j :: 0 <= j < |v| ==> v'[j] == if j == FirstBelow(v, value).value then value else v[j])
  {
  }
}
