/**
 String helpers with the semantics of the Python and JavaScript built-ins the
 repository calls: `str.split`, `str.join`, `str.strip`, `str.splitlines`,
 `str.lower`, `str.startswith` / `str.endswith`, and decimal formatting.
 */
module Text {
  import opened Wrappers

  // ---------------------------------------------------------------------
  // Prefixes and suffixes

  predicate StartsWith(s: string, prefix: string) {
    prefix <= s
  }

  predicate EndsWith(s: string, suffix: string) {
    |suffix| <= |s| && s[|s| - |suffix|..] == suffix
  }

  /** `s[:-|suffix|]` when `s.endswith(suffix)`, otherwise `s` unchanged. */
  function DropSuffix(s: string, suffix: string): (r: string)
    ensures EndsWith(s, suffix) ==> r + suffix == s
    ensures !EndsWith(s, suffix) ==> r == s
  {
    if EndsWith(s, suffix) then
      assert s == s[..|s| - |suffix|] + s[|s| - |suffix|..];
      s[..|s| - |suffix|]
    else s
  }

  predicate Contains(s: string, c: char) {
    c in s
  }

  /** True when `needle` occurs in `s` starting at index `k`. */
  predicate OccursAt(s: string, needle: string, k: nat) {
    k + |needle| <= |s| && s[k..k + |needle|] == needle
  }

  // ---------------------------------------------------------------------
  // str.find / str.split(sep) / sep.join(parts)

  /** `s.find(needle, from)` for a non-empty needle: the least index at or after `from`. */
  function FindFrom(s: string, needle: string, from: nat): (r: Option<nat>)
    requires |needle| > 0
    ensures r.Some? ==> from <= r.value && r.value + |needle| <= |s|
    decreases |s| - from
  {
    if from + |needle| > |s| then None
    else if s[from..from + |needle|] == needle then Some(from)
    else FindFrom(s, needle, from + 1)
  }

  /** What `FindFrom` finds is an occurrence, and the first one at or after `from`. */
  lemma {:induction false} FindFromFound(s: string, needle: string, from: nat)
    requires |needle| > 0 && FindFrom(s, needle, from).Some?
    ensures OccursAt(s, needle, FindFrom(s, needle, from).value)
    ensures forall k :: from <= k < FindFrom(s, needle, from).value ==> !OccursAt(s, needle, k)
    decreases |s| - from
  {
    if s[from..from + |needle|] != needle {
      FindFromFound(s, needle, from + 1);
    }
  }

  /** `FindFrom` gives up exactly when no occurrence starts at or after `from`. */
  lemma {:induction false} FindFromNone(s: string, needle: string, from: nat)
    requires |needle| > 0
    ensures FindFrom(s, needle, from).None? <==> forall k :: from <= k ==> !OccursAt(s, needle, k)
    decreases |s| - from
  {
    if from + |needle| <= |s| {
      if s[from..from + |needle|] == needle {
        assert OccursAt(s, needle, from);
      } else {
        FindFromNone(s, needle, from + 1);
        assert !OccursAt(s, needle, from);
      }
    }
  }

  /** Python's `s.split(sep)` for a non-empty separator: left-most, non-overlapping. */
  function Split(s: string, sep: string): (parts: seq<string>)
    requires |sep| > 0
    ensures |parts| >= 1
    decreases |s|
  {
    match FindFrom(s, sep, 0)
    case None => [s]
    case Some(k) => [s[..k]] + Split(s[k + |sep|..], sep)
  }

  /** Python's `sep.join(parts)`. */
  function Join(parts: seq<string>, sep: string): string {
    if |parts| == 0 then ""
    else if |parts| == 1 then parts[0]
    else parts[0] + sep + Join(parts[1..], sep)
  }

  /** `Join` of a non-empty list after one more piece. */
  lemma {:induction false} JoinCons(head: string, tail: seq<string>, sep: string)
    requires |tail| >= 1
    ensures Join([head] + tail, sep) == head + sep + Join(tail, sep)
  {
    assert ([head] + tail)[1..] == tail;
  }

  /** Joining the pieces of a split gives back the original string. */
  lemma {:induction false} JoinSplit(s: string, sep: string)
    requires |sep| > 0
    ensures Join(Split(s, sep), sep) == s
    decreases |s|
  {
    var f := FindFrom(s, sep, 0);
    if f.None? {
      SplitNoMatch(s, sep);
    } else {
      var k := f.value;
      var rest := s[k + |sep|..];
      SplitFound(s, sep);
      FindFromFound(s, sep, 0);
      JoinSplit(rest, sep);
      JoinCons(s[..k], Split(rest, sep), sep);
      MatchAround(s, sep, k);
    }
  }

  lemma {:induction false} SplitNoMatch(s: string, sep: string)
    requires |sep| > 0 && FindFrom(s, sep, 0).None?
    ensures Split(s, sep) == [s]
  {
  }

  /** One unfolding of `Split` at its first separator. */
  lemma {:induction false} SplitFound(s: string, sep: string)
    requires |sep| > 0 && FindFrom(s, sep, 0).Some?
    ensures Split(s, sep) == [s[..FindFrom(s, sep, 0).value]] + Split(s[FindFrom(s, sep, 0).value + |sep|..], sep)
  {
  }

  lemma {:induction false} MatchAround(s: string, sep: string, k: nat)
    requires OccursAt(s, sep, k)
    ensures s == s[..k] + sep + s[k + |sep|..]
  {
    assert s[..k] + s[k..k + |sep|] == s[..k + |sep|];
    assert s[..k + |sep|] + s[k + |sep|..] == s;
  }

  /** No piece of a split contains the separator. */
  lemma {:induction false} SplitPiecesAvoidSeparator(s: string, sep: string)
    requires |sep| > 0
    ensures forall i, k: nat :: 0 <= i < |Split(s, sep)| ==> !OccursAt(Split(s, sep)[i], sep, k)
    decreases |s|
  {
    var f := FindFrom(s, sep, 0);
    if f.None? {
      SplitNoMatch(s, sep);
      FindFromNone(s, sep, 0);
    } else {
      var m := f.value;
      var rest := s[m + |sep|..];
      SplitFound(s, sep);
      FindFromFound(s, sep, 0);
      SplitPiecesAvoidSeparator(rest, sep);
      var parts := Split(s, sep);
      forall i, k: nat | 0 <= i < |parts|
        ensures !OccursAt(parts[i], sep, k)
      {
        if i == 0 {
          PrefixBeforeMatch(s, sep, m, k);
        } else {
          assert parts[i] == Split(rest, sep)[i - 1];
        }
      }
    }
  }

  lemma {:induction false} PrefixBeforeMatch(s: string, sep: string, m: nat, k: nat)
    requires |sep| > 0 && m <= |s|
    requires forall j :: 0 <= j < m ==> !OccursAt(s, sep, j)
    ensures !OccursAt(s[..m], sep, k)
  {
    if k + |sep| <= m {
      assert k < m && !OccursAt(s, sep, k);
      assert s[..m][k..k + |sep|] == s[k..k + |sep|];
    }
  }

  /** Splitting at a character no piece contains undoes joining at it. */
  lemma {:induction false} SplitJoin(parts: seq<string>, c: char)
    requires |parts| >= 1
    requires forall i :: 0 <= i < |parts| ==> c !in parts[i]
    ensures Split(Join(parts, [c]), [c]) == parts
    decreases |parts|
  {
    var s := Join(parts, [c]);
    if |parts| == 1 {
      assert s == parts[0];
      forall k: nat ensures !OccursAt(s, [c], k) {
        if k < |s| {
          assert s[k] in parts[0];
          assert s[k..k + 1] == [s[k]];
        }
      }
      SplitWithoutSeparator(s, [c]);
    } else {
      var p0 := parts[0];
      var tail := parts[1..];
      assert parts == [p0] + tail;
      JoinCons(p0, tail, [c]);
      var n := |p0|;
      assert s[n..n + 1] == [c];
      assert OccursAt(s, [c], n);
      FindFromNone(s, [c], 0);
      FindFromFound(s, [c], 0);
      var v := FindFrom(s, [c], 0).value;
      forall j | 0 <= j < n ensures !OccursAt(s, [c], j) {
        assert s[j..j + 1] == [p0[j]];
        assert p0[j] in p0;
      }
      assert v == n;
      SplitFound(s, [c]);
      assert s[..n] == p0;
      assert s[n + 1..] == Join(tail, [c]);
      SplitJoin(tail, c);
    }
  }

  /** Splitting a string that holds no separator gives the string alone. */
  lemma {:induction false} SplitWithoutSeparator(s: string, sep: string)
    requires |sep| > 0
    requires forall k :: !OccursAt(s, sep, k)
    ensures Split(s, sep) == [s]
  {
    FindFromNone(s, sep, 0);
    SplitNoMatch(s, sep);
  }

  // ---------------------------------------------------------------------
  // Whitespace, str.split(), str.strip()

  /** Python's `str.isspace` for one character: the separators `str.split()` and `str.strip()` use. */
  predicate IsSpace(c: char) {
    || ('\U{9}' <= c <= '\U{D}')
    || ('\U{1C}' <= c <= '\U{20}')
    || c == '\U{85}' || c == '\U{A0}' || c == '\U{1680}'
    || ('\U{2000}' <= c <= '\U{200A}')
    || c == '\U{2028}' || c == '\U{2029}' || c == '\U{202F}' || c == '\U{205F}' || c == '\U{3000}'
  }

  predicate NoSpace(s: string) {
    forall i :: 0 <= i < |s| ==> !IsSpace(s[i])
  }

  /** Length of the leading run of characters that are not whitespace. */
  function WordLength(s: string): (n: nat)
    ensures n <= |s|
    ensures NoSpace(s[..n])
    ensures n < |s| ==> IsSpace(s[n])
  {
    if s == [] || IsSpace(s[0]) then 0
    else
      var n := 1 + WordLength(s[1..]);
      assert s[..n] == [s[0]] + s[1..][..n - 1];
      n
  }

  /** Python's `s.split()` with no argument: the maximal runs of non-whitespace. */
  function Words(s: string): (ws: seq<string>)
    ensures forall i :: 0 <= i < |ws| ==> |ws[i]| > 0 && NoSpace(ws[i])
    decreases |s|
  {
    if s == [] then []
    else if IsSpace(s[0]) then Words(s[1..])
    else
      var n := WordLength(s);
      [s[..n]] + Words(s[n..])
  }

  /** `len(s.split())`, the word budget unit of the chunker. */
  function WordCount(s: string): nat {
    |Words(s)|
  }

  /** A string without whitespace is one word, or none when empty. */
  lemma {:induction false} WordCountNoSpace(s: string)
    requires NoSpace(s)
    ensures WordCount(s) == if s == [] then 0 else 1
  {
    if s != [] {
      var n := WordLength(s);
      assert n == |s|;
      assert s[n..] == [];
      assert Words(s) == [s[..n]] + Words(s[n..]);
    }
  }

  /**
   The span `str.strip` keeps: `[lo, hi)` with every dropped character
   before `lo` or from `hi` on, and the kept span neither starting nor
   ending with one.
   */
  function StripRange(s: string, drop: char -> bool): (p: (nat, nat))
    ensures p.0 <= p.1 <= |s|
    ensures forall i :: 0 <= i < p.0 ==> drop(s[i])
    ensures forall i :: p.1 <= i < |s| ==> drop(s[i])
    ensures p.0 < p.1 ==> !drop(s[p.0]) && !drop(s[p.1 - 1])
    decreases |s|
  {
    if s == [] then (0, 0)
    else if drop(s[|s| - 1]) then StripRange(s[..|s| - 1], drop)
    else (LeadingDropped(s, drop), |s|)
  }

  /** Number of leading characters of `s` satisfying `drop`. */
  function LeadingDropped(s: string, drop: char -> bool): (n: nat)
    ensures n <= |s|
    ensures forall i :: 0 <= i < n ==> drop(s[i])
    ensures n < |s| ==> !drop(s[n])
    decreases |s|
  {
    if s == [] || !drop(s[0]) then 0 else 1 + LeadingDropped(s[1..], drop)
  }

  /** Python's `s.strip()`: leading and trailing whitespace removed. */
  function Strip(s: string): string {
    var p := StripRange(s, IsSpace);
    s[p.0..p.1]
  }

  /** Python's `s.strip(chars)`. */
  function StripChars(s: string, chars: set<char>): string {
    var p := StripRange(s, c => c in chars);
    s[p.0..p.1]
  }

  // ---------------------------------------------------------------------
  // str.splitlines()

  /** The line boundaries of Python's `str.splitlines`. */
  predicate IsLineBreak(c: char) {
    || ('\U{A}' <= c <= '\U{D}')
    || ('\U{1C}' <= c <= '\U{1E}')
    || c == '\U{85}' || c == '\U{2028}' || c == '\U{2029}'
  }

  /** Index of the first line boundary, or `|s|`. */
  function LineEnd(s: string): (n: nat)
    ensures n <= |s|
  {
    if s == [] || IsLineBreak(s[0]) then 0 else 1 + LineEnd(s[1..])
  }

  /** `LineEnd` stops at the first line boundary. */
  lemma {:induction false} LineEndIsFirstBreak(s: string)
    ensures forall i :: 0 <= i < LineEnd(s) ==> !IsLineBreak(s[i])
    ensures LineEnd(s) < |s| ==> IsLineBreak(s[LineEnd(s)])
    decreases |s|
  {
    if s != [] && !IsLineBreak(s[0]) {
      LineEndIsFirstBreak(s[1..]);
      forall i | 0 < i < LineEnd(s) ensures !IsLineBreak(s[i]) {
        assert s[i] == s[1..][i - 1];
      }
    }
  }

  /** Python's `s.splitlines()`: lines without their terminators; `\r\n` is one terminator. */
  function SplitLines(s: string): (lines: seq<string>)
    ensures |lines| == 0 <==> s == []
    decreases |s|, 1
  {
    if s == [] then [] else LinesFrom(s, LineEnd(s))
  }

  /** The lines of `s` when its first line ends at `n`. */
  function LinesFrom(s: string, n: nat): (lines: seq<string>)
    requires n <= |s|
    ensures |lines| >= 1
    decreases |s|, 0
  {
    if n == |s| then [s] else [s[..n]] + SplitLines(s[n + BreakWidth(s, n)..])
  }

  /** No line holds a line boundary. */
  lemma {:induction false} SplitLinesHaveNoBreaks(s: string)
    ensures forall i, j :: 0 <= i < |SplitLines(s)| && 0 <= j < |SplitLines(s)[i]| ==> !IsLineBreak(SplitLines(s)[i][j])
    decreases |s|
  {
    if s != [] {
      var n := LineEnd(s);
      LineEndIsFirstBreak(s);
      if n == |s| {
        SplitLinesSingle(s);
        assert forall j :: 0 <= j < |s| ==> !IsLineBreak(s[j]);
      } else {
        var rest := s[n + BreakWidth(s, n)..];
        SplitLinesAtBreak(s);
        SplitLinesHaveNoBreaks(rest);
        var lines := SplitLines(s);
        forall i, j | 0 <= i < |lines| && 0 <= j < |lines[i]| ensures !IsLineBreak(lines[i][j]) {
          if i > 0 {
            assert lines[i] == SplitLines(rest)[i - 1];
          } else {
            assert lines[0][j] == s[j];
          }
        }
      }
    }
  }

  /** Width of the line boundary at `n`: 2 for `\r\n`, otherwise 1. */
  function BreakWidth(s: string, n: nat): (w: nat)
    requires n < |s|
    ensures 1 <= w <= 2 && n + w <= |s|
    ensures s[n] != '\r' ==> w == 1
  {
    if s[n] == '\r' && n + 1 < |s| && s[n + 1] == '\n' then 2 else 1
  }

  /** Only `\n` separates lines in `s`. */
  predicate OnlyNewlines(s: string) {
    forall i :: 0 <= i < |s| ==> IsLineBreak(s[i]) ==> s[i] == '\n'
  }

  /**
   For text whose only line boundary is `\n`, joining the lines with `\n`
   gives the text back, up to one trailing newline.
   */
  lemma {:induction false} JoinSplitLines(s: string)
    requires OnlyNewlines(s)
    ensures Join(SplitLines(s), "\n") == s || Join(SplitLines(s), "\n") + "\n" == s
    decreases |s|
  {
    if s == [] {
    } else if LineEnd(s) == |s| {
      SplitLinesSingle(s);
    } else {
      var n := LineEnd(s);
      var rest := s[n + 1..];
      LineEndIsFirstBreak(s);
      assert s[n] == '\n';
      assert BreakWidth(s, n) == 1;
      SplitLinesAtBreak(s);
      OnlyNewlinesSuffix(s, n + 1);
      SplitAround(s, n);
      JoinSplitLines(rest);
      var tail := SplitLines(rest);
      var line := s[..n];
      assert s == line + "\n" + rest;
      if tail == [] {
        assert rest == [];
        assert SplitLines(s) == [line];
        assert Join(SplitLines(s), "\n") + "\n" == s;
      } else {
        var j := Join(tail, "\n");
        JoinCons(line, tail, "\n");
        assert Join(SplitLines(s), "\n") == line + "\n" + j;
        if j != rest {
          assert j + "\n" == rest;
          assert line + "\n" + j + "\n" == line + "\n" + (j + "\n");
        }
      }
    }
  }

  /** Text without a line boundary is a single line. */
  lemma {:induction false} SplitLinesSingle(s: string)
    requires s != [] && LineEnd(s) == |s|
    ensures SplitLines(s) == [s]
  {
    assert SplitLines(s) == LinesFrom(s, LineEnd(s));
  }

  /** One step of `splitlines` at the first line boundary. */
  lemma {:induction false} SplitLinesAtBreak(s: string)
    requires s != [] && LineEnd(s) < |s|
    ensures SplitLines(s) == [s[..LineEnd(s)]] + SplitLines(s[LineEnd(s) + BreakWidth(s, LineEnd(s))..])
  {
    assert SplitLines(s) == LinesFrom(s, LineEnd(s));
    LinesFromBreak(s, LineEnd(s));
  }

  lemma {:induction false} LinesFromBreak(s: string, n: nat)
    requires n < |s|
    ensures LinesFrom(s, n) == [s[..n]] + SplitLines(s[n + BreakWidth(s, n)..])
  {
  }

  lemma {:induction false} OnlyNewlinesSuffix(s: string, m: nat)
    requires OnlyNewlines(s) && m <= |s|
    ensures OnlyNewlines(s[m..])
  {
    forall i | 0 <= i < |s[m..]| ensures IsLineBreak(s[m..][i]) ==> s[m..][i] == '\n' {
      assert s[m..][i] == s[m + i];
    }
  }

  lemma {:induction false} SplitAround(s: string, n: nat)
    requires n < |s|
    ensures s == s[..n] + [s[n]] + s[n + 1..]
  {
    assert s[..n] + [s[n]] == s[..n + 1];
    assert s[..n + 1] + s[n + 1..] == s;
  }

  // ---------------------------------------------------------------------
  // Case and numbers

  /**
   `str.lower` / `String.prototype.toLowerCase` restricted to the characters
   whose lower case is a single ASCII letter: A-Z and KELVIN SIGN (U+212A).
   Every other character is left unchanged, which decides membership in the
   all-ASCII tables of this model exactly as the full Unicode mapping does.
   */
  function LowerChar(c: char): char {
    if 'A' <= c <= 'Z' then (c as int + 32) as char
    else if c == '\U{212A}' then 'k'
    else c
  }

  function Lower(s: string): (r: string)
    ensures |r| == |s|
    ensures forall i :: 0 <= i < |s| ==> r[i] == LowerChar(s[i])
  {
    seq(|s|, i requires 0 <= i < |s| => LowerChar(s[i]))
  }

  function DigitChar(d: nat): (c: char)
    requires d < 10
    ensures c as int == '0' as int + d
  {
    ['0', '1', '2', '3', '4', '5', '6', '7', '8', '9'][d]
  }

  /** Python's `str(n)` for a natural number. */
  function NatToString(n: nat): (r: string)
    ensures |r| >= 1
    ensures forall i :: 0 <= i < |r| ==> '0' <= r[i] <= '9'
  {
    if n < 10 then [DigitChar(n)] else NatToString(n / 10) + [DigitChar(n % 10)]
  }

  /** Distinct numbers print differently: `str(n)` has no leading zeros. */
  lemma {:induction false} NatToStringInjective(a: nat, b: nat)
    requires NatToString(a) == NatToString(b)
    ensures a == b
    decreases a
  {
    var ra, rb := NatToString(a), NatToString(b);
    if a >= 10 && b >= 10 {
      assert ra[|ra| - 1] == DigitChar(a % 10) && rb[|rb| - 1] == DigitChar(b % 10);
      assert ra[..|ra| - 1] == NatToString(a / 10) && rb[..|rb| - 1] == NatToString(b / 10);
      NatToStringInjective(a / 10, b / 10);
    }
  }
}
