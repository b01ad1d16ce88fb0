/** The string primitives the core relies on, restricted to ASCII:
    Python's `str.isspace`, `str.isdigit`, `str.split(sep)`, `sep.join`,
    `str.splitlines` (on '\n' only), `str.strip`, the whitespace
    `str.split()`, and `str(n)` for non-negative integers. */
module Text {

  /** `str.isspace` on ASCII: space, \t \n \v \f \r and the separators \x1c-\x1f. */
  predicate IsSpace(c: char) {
    c == ' ' || 9 <= c as int <= 13 || 28 <= c as int <= 31
  }

  predicate IsWordChar(c: char) {
    !IsSpace(c)
  }

  predicate IsDigit(c: char) {
    '0' <= c <= '9'
  }

  /** Every character of `s[lo..hi]` satisfies `p`. */
  predicate AllIn(s: string, lo: nat, hi: nat, p: char -> bool)
    requires lo <= hi <= |s|
  {
    forall k :: lo <= k < hi ==> p(s[k])
  }

  predicate AllSpace(s: string) {
    forall k :: 0 <= k < |s| ==> IsSpace(s[k])
  }

  predicate NoSpace(s: string) {
    forall k :: 0 <= k < |s| ==> !IsSpace(s[k])
  }

  /** `str.isdigit` on ASCII: non-empty and every character a digit. */
  predicate IsDecimal(s: string) {
    |s| > 0 && forall k :: 0 <= k < |s| ==> IsDigit(s[k])
  }

  /** End of the maximal run of `p`-characters starting at `i`. */
  function RunEnd(s: string, i: nat, p: char -> bool): (j: nat)
    requires i <= |s|
    ensures i <= j <= |s|
    ensures AllIn(s, i, j, p)
    ensures j == |s| || !p(s[j])
    decreases |s| - i
  {
    if i < |s| && p(s[i]) then RunEnd(s, i + 1, p) else i
  }

  /** A run is maximal in exactly one place. */
  lemma RunEndExact(s: string, i: nat, j: nat, p: char -> bool)
    requires i <= j <= |s|
    requires AllIn(s, i, j, p)
    requires j == |s| || !p(s[j])
    ensures RunEnd(s, i, p) == j
  {
  }

  // ---------------------------------------------------------------------
  // split / join

  /** `s.split(sep)`: the pieces between separators, empty pieces kept. */
  function Split(s: string, sep: char): (parts: seq<string>)
    ensures |parts| > 0
    ensures forall k :: 0 <= k < |parts| ==> sep !in parts[k]
    decreases |s|
  {
    if |s| == 0 then [""]
    else
      var rest := Split(s[1..], sep);
      if s[0] == sep then [""] + rest
      else [[s[0]] + rest[0]] + rest[1..]
  }

  /** `sep.join(parts)`. */
  function Join(parts: seq<string>, sep: char): string
    decreases |parts|
  {
    if |parts| == 0 then ""
    else if |parts| == 1 then parts[0]
    else parts[0] + [sep] + Join(parts[1..], sep)
  }

  lemma JoinPrependFirst(pre: string, parts: seq<string>, sep: char)
    requires |parts| > 0
    ensures Join([pre + parts[0]] + parts[1..], sep) == pre + Join(parts, sep)
  {
    var ps := [pre + parts[0]] + parts[1..];
    assert ps[1..] == parts[1..];
  }

  lemma {:induction false} JoinSnoc(parts: seq<string>, x: string, sep: char)
    requires |parts| > 0
    ensures Join(parts + [x], sep) == Join(parts, sep) + [sep] + x
    decreases |parts|
  {
    if |parts| == 1 {
      assert (parts + [x])[1..] == [x];
    } else {
      JoinSnoc(parts[1..], x, sep);
      assert (parts + [x])[1..] == parts[1..] + [x];
    }
  }

  /** Joining the pieces of a split gives the string back. */
  lemma {:induction false} JoinSplit(s: string, sep: char)
    ensures Join(Split(s, sep), sep) == s
    decreases |s|
  {
    if |s| > 0 {
      JoinSplit(s[1..], sep);
      var rest := Split(s[1..], sep);
      if s[0] == sep {
        assert ([""] + rest)[1..] == rest;
        assert s == [sep] + s[1..];
      } else {
        JoinPrependFirst([s[0]], rest, sep);
        assert s == [s[0]] + s[1..];
      }
    }
  }

  lemma {:induction false} SplitNoSeparator(s: string, sep: char)
    requires sep !in s
    ensures Split(s, sep) == [s]
    decreases |s|
  {
    if |s| > 0 {
      SplitNoSeparator(s[1..], sep);
      assert s == [s[0]] + s[1..];
    }
  }

  lemma {:induction false} SplitAfterFirst(a: string, b: string, sep: char)
    requires sep !in a
    ensures Split(a + [sep] + b, sep) == [a] + Split(b, sep)
    decreases |a|
  {
    var s := a + [sep] + b;
    if |a| == 0 {
      assert s[1..] == b;
    } else {
      assert s[1..] == a[1..] + [sep] + b;
      SplitAfterFirst(a[1..], b, sep);
      assert a == [a[0]] + a[1..];
    }
  }

  /** Splitting a join gives the pieces back when no piece holds the separator. */
  lemma {:induction false} SplitJoin(parts: seq<string>, sep: char)
    requires |parts| > 0
    requires forall k :: 0 <= k < |parts| ==> sep !in parts[k]
    ensures Split(Join(parts, sep), sep) == parts
    decreases |parts|
  {
    if |parts| == 1 {
      SplitNoSeparator(parts[0], sep);
    } else {
      SplitJoin(parts[1..], sep);
      SplitAfterFirst(parts[0], Join(parts[1..], sep), sep);
      assert [parts[0]] + parts[1..] == parts;
    }
  }

  /** The last piece is empty only when the string ends in the separator. */
  lemma {:induction false} SplitLastPiece(s: string, sep: char)
    requires |s| > 0 && s[|s| - 1] != sep
    ensures Split(s, sep)[|Split(s, sep)| - 1] != ""
    decreases |s|
  {
    if |s| > 1 {
      SplitLastPiece(s[1..], sep);
    }
  }

  /** A join of two or more pieces contains the separator. */
  lemma JoinHasSeparator(parts: seq<string>, sep: char)
    requires |parts| >= 2
    ensures sep in Join(parts, sep)
  {
    assert Join(parts, sep)[|parts[0]|] == sep;
  }

  // ---------------------------------------------------------------------
  // splitlines

  /** `s.splitlines()` with '\n' as the only line terminator: like
      `s.split('\n')`, but a final terminator does not open an empty line. */
  function SplitLines(s: string): (lines: seq<string>)
    ensures forall k :: 0 <= k < |lines| ==> '\n' !in lines[k]
  {
    if |s| == 0 then []
    else
      var parts := Split(s, '\n');
      if parts[|parts| - 1] == "" then parts[..|parts| - 1] else parts
  }

  /** Lines written with a terminating newline each are read back as written. */
  lemma SplitLinesTerminated(lines: seq<string>)
    requires |lines| > 0
    requires forall k :: 0 <= k < |lines| ==> '\n' !in lines[k]
    ensures SplitLines(Join(lines, '\n') + "\n") == lines
  {
    var all := lines + [""];
    JoinSnoc(lines, "", '\n');
    assert Join(all, '\n') == Join(lines, '\n') + "\n";
    assert forall k :: 0 <= k < |all| ==> '\n' !in all[k] by {
      forall k | 0 <= k < |all| ensures '\n' !in all[k] {
        if k < |lines| { assert all[k] == lines[k]; }
      }
    }
    SplitJoin(all, '\n');
    assert all[..|all| - 1] == lines;
  }

  /** Re-joining the lines gives the text back, less a trailing newline. */
  lemma JoinSplitLines(s: string)
    ensures Join(SplitLines(s), '\n') ==
      if |s| > 0 && s[|s| - 1] == '\n' then s[..|s| - 1] else s
  {
    if |s| > 0 {
      var parts := Split(s, '\n');
      var n := |parts|;
      JoinSplit(s, '\n');
      if n == 1 {
        assert s == parts[0];
        if parts[0] != "" {
          assert s[|s| - 1] in parts[0];
        }
      } else {
        JoinSnoc(parts[..n - 1], parts[n - 1], '\n');
        assert parts[..n - 1] + [parts[n - 1]] == parts;
        var front := Join(parts[..n - 1], '\n');
        assert s == front + ['\n'] + parts[n - 1];
        if parts[n - 1] != "" {
          assert s[|s| - 1] == parts[n - 1][|parts[n - 1]| - 1];
          assert s[|s| - 1] in parts[n - 1];
        } else {
          assert s[..|s| - 1] == front;
        }
      }
    }
  }

  /** Splitting a join of newline-free lines gives them back, unless the
      last line is empty (its terminator is then read as trailing). */
  lemma SplitLinesJoin(lines: seq<string>)
    requires forall k :: 0 <= k < |lines| ==> '\n' !in lines[k]
    requires |lines| == 0 || lines[|lines| - 1] != ""
    ensures SplitLines(Join(lines, '\n')) == lines
  {
    if |lines| > 0 {
      var s := Join(lines, '\n');
      if |lines| == 1 {
        assert s == lines[0];
      } else {
        JoinHasSeparator(lines, '\n');
      }
      SplitJoin(lines, '\n');
    }
  }

  // ---------------------------------------------------------------------
  // strip

  /** `s.lstrip()`. */
  function LStrip(s: string): (r: string)
    ensures |r| <= |s| && r == s[|s| - |r|..]
    ensures AllSpace(s[..|s| - |r|])
    ensures |r| == 0 || !IsSpace(r[0])
    decreases |s|
  {
    if |s| > 0 && IsSpace(s[0]) then
      var r := LStrip(s[1..]);
      assert s[..|s| - |r|] == [s[0]] + s[1..][..|s| - 1 - |r|];
      r
    else s
  }

  /** `s.rstrip()`. */
  function RStrip(s: string): (r: string)
    ensures |r| <= |s| && r == s[..|r|]
    ensures AllSpace(s[|r|..])
    ensures |r| == 0 || !IsSpace(r[|r| - 1])
    decreases |s|
  {
    if |s| > 0 && IsSpace(s[|s| - 1]) then
      var r := RStrip(s[..|s| - 1]);
      assert s[|r|..] == s[..|s| - 1][|r|..] + [s[|s| - 1]];
      r
    else s
  }

  /** `s.strip()`. */
  function Strip(s: string): string {
    RStrip(LStrip(s))
  }

  /** A line strips to nothing exactly when it is all whitespace. */
  lemma StripEmptyIff(s: string)
    ensures Strip(s) == "" <==> AllSpace(s)
  {
    var l := LStrip(s);
    var j := |s| - |l|;
    if Strip(s) == "" {
      assert |l| == 0;
      assert s[..j] == s;
    }
  }

  /** The stripped text starts where the leading whitespace ends. */
  lemma StripStartsAtFirstNonSpace(s: string, k: nat)
    requires k < |s| && !IsSpace(s[k]) && AllSpace(s[..k])
    ensures |Strip(s)| > 0 && Strip(s)[0] == s[k]
  {
    var l := LStrip(s);
    var j := |s| - |l|;
    assert l[0] == s[k];
  }

  // ---------------------------------------------------------------------
  // whitespace fields

  /** `s.split()` (equally `s.rsplit()`): the maximal non-whitespace runs. */
  function Fields(s: string): (fs: seq<string>)
    ensures forall k :: 0 <= k < |fs| ==> |fs[k]| > 0 && NoSpace(fs[k])
    ensures |fs| == 0 <==> AllSpace(s)
    decreases |s|
  {
    if |s| == 0 then []
    else if IsSpace(s[0]) then
      var fs := Fields(s[1..]);
      assert AllSpace(s) <==> AllSpace(s[1..]) by {
        if AllSpace(s[1..]) {
          forall k | 0 <= k < |s| ensures IsSpace(s[k]) {
            if k > 0 { assert s[k] == s[1..][k - 1]; }
          }
        }
      }
      fs
    else
      var w := RunEnd(s, 0, IsWordChar);
      [s[..w]] + Fields(s[w..])
  }

  lemma FieldsOfWord(t: string)
    requires |t| > 0 && NoSpace(t)
    ensures Fields(t) == [t]
  {
    RunEndExact(t, 0, |t|, IsWordChar);
    assert t[..|t|] == t;
  }

  /** Fields of a concatenation split cleanly when the right part starts
      with whitespace. */
  lemma {:induction false} FieldsConcat(x: string, y: string)
    requires |y| == 0 || IsSpace(y[0])
    ensures Fields(x + y) == Fields(x) + Fields(y)
    decreases |x|
  {
    if |x| == 0 {
      assert x + y == y;
    } else if IsSpace(x[0]) {
      assert (x + y)[1..] == x[1..] + y;
      FieldsConcat(x[1..], y);
    } else {
      var w := FirstWordOfConcat(x, y);
      FieldsConcat(x[w..], y);
    }
  }

  /** A leading whitespace character adds no field. */
  lemma FieldsAfterSpace(c: char, rest: string)
    requires IsSpace(c)
    ensures Fields([c] + rest) == Fields(rest)
  {
    assert ([c] + rest)[1..] == rest;
  }

  /** The whitespace fields invert a single-space join: the fields of
      words joined by spaces are those words, in order. */
  lemma {:induction false} FieldsOfJoin(words: seq<string>)
    requires forall k :: 0 <= k < |words| ==> |words[k]| > 0 && NoSpace(words[k])
    ensures Fields(Join(words, ' ')) == words
    decreases |words|
  {
    if |words| == 1 {
      FieldsOfWord(words[0]);
    } else if |words| > 1 {
      var rest := Join(words[1..], ' ');
      assert Join(words, ' ') == words[0] + (" " + rest);
      FieldsOfJoin(words[1..]);
      FieldsConcat(words[0], " " + rest);
      FieldsOfWord(words[0]);
      FieldsAfterSpace(' ', rest);
      assert words == [words[0]] + words[1..];
    }
  }

  /** `f` occurs at `i` in `s`, at the start or after whitespace, with
      only whitespace after it. */
  predicate FieldEndsAt(s: string, f: string, i: nat) {
    && i + |f| <= |s| && s[i..i + |f|] == f
    && AllSpace(s[i + |f|..])
    && (i == 0 || IsSpace(s[i - 1]))
  }

  /** A position in a suffix of `s` is one in `s`, when the suffix is
      preceded by whitespace or the field does not start it. */
  lemma ShiftFieldEnd(s: string, k: nat, f: string, i: nat)
    requires 0 < k <= |s| && FieldEndsAt(s[k..], f, i)
    requires i > 0 || IsSpace(s[k - 1])
    ensures FieldEndsAt(s, f, k + i)
  {
    assert s[k + i..k + i + |f|] == s[k..][i..i + |f|];
    assert s[k + i + |f|..] == s[k..][i + |f|..];
    if i > 0 {
      assert s[k + i - 1] == s[k..][i - 1];
    }
  }

  /** Where the last field sits: at the start of the text or after a
      whitespace character, with only whitespace after it. */
  lemma {:induction false} LastFieldPosition(s: string) returns (i: nat)
    requires !AllSpace(s)
    ensures FieldEndsAt(s, Fields(s)[|Fields(s)| - 1], i)
    decreases |s|, 2
  {
    if IsSpace(s[0]) {
      assert Fields(s) == Fields(s[1..]);
      i := LastFieldAfterSpace(s);
    } else {
      i := LastFieldAfterFirstWord(s);
    }
  }

  lemma {:induction false} LastFieldAfterFirstWord(s: string) returns (i: nat)
    requires |s| > 0 && !IsSpace(s[0])
    ensures FieldEndsAt(s, Fields(s)[|Fields(s)| - 1], i)
    decreases |s|, 1
  {
    var w := RunEnd(s, 0, IsWordChar);
    assert Fields(s) == [s[..w]] + Fields(s[w..]);
    if AllSpace(s[w..]) {
      assert s[0..w] == s[..w];
      i := 0;
    } else {
      i := LastFieldAfterWord(s, w);
    }
  }

  lemma {:induction false} LastFieldAfterSpace(s: string) returns (i: nat)
    requires |s| > 0 && IsSpace(s[0]) && !AllSpace(s[1..])
    ensures FieldEndsAt(s, Fields(s[1..])[|Fields(s[1..])| - 1], i)
    decreases |s|, 0
  {
    var i' := LastFieldPosition(s[1..]);
    ShiftFieldEnd(s, 1, Fields(s[1..])[|Fields(s[1..])| - 1], i');
    i := i' + 1;
  }

  lemma {:induction false} LastFieldAfterWord(s: string, w: nat) returns (i: nat)
    requires 0 < w < |s| && IsSpace(s[w]) && !AllSpace(s[w..])
    ensures FieldEndsAt(s, Fields(s[w..])[|Fields(s[w..])| - 1], i)
    decreases |s|, 0
  {
    var rest := s[w..];
    var f := Fields(rest)[|Fields(rest)| - 1];
    var i' := LastFieldPosition(rest);
    assert rest[0] == s[w] && rest[i'] == f[0];
    ShiftFieldEnd(s, w, f, i');
    i := w + i';
  }

  /** Appending text that starts with a space does not extend the first word. */
  lemma FirstWordOfConcat(x: string, y: string) returns (w: nat)
    requires |x| > 0 && !IsSpace(x[0])
    requires |y| == 0 || IsSpace(y[0])
    ensures w == RunEnd(x, 0, IsWordChar) && w == RunEnd(x + y, 0, IsWordChar)
    ensures (x + y)[..w] == x[..w] && (x + y)[w..] == x[w..] + y
  {
    w := RunEnd(x, 0, IsWordChar);
    forall k | 0 <= k < w ensures IsWordChar((x + y)[k]) {
      assert (x + y)[k] == x[k];
    }
    if w < |x| {
      assert (x + y)[w] == x[w];
    } else if |y| > 0 {
      assert (x + y)[w] == y[0];
    }
    RunEndExact(x + y, 0, w, IsWordChar);
    assert (x + y)[..w] == x[..w];
    assert (x + y)[w..] == x[w..] + y;
  }

  // ---------------------------------------------------------------------
  // decimal numerals

  function DigitChar(d: nat): (c: char)
    requires d < 10
    ensures IsDigit(c)
  {
    "0123456789"[d]
  }

  function DigitValue(c: char): nat
    requires IsDigit(c)
  {
    (c as int - '0' as int) as nat
  }

  /** `str(n)` for a non-negative integer: its decimal numeral. */
  function NatToString(n: nat): (s: string)
    ensures IsDecimal(s)
    ensures s[0] != '0' || s == "0"
    decreases n
  {
    if n < 10 then [DigitChar(n)]
    else NatToString(n / 10) + [DigitChar(n % 10)]
  }

  /** The value of a decimal numeral, as `int(s)` reads it. */
  function ParseDecimal(s: string): nat
    requires forall k :: 0 <= k < |s| ==> IsDigit(s[k])
    decreases |s|
  {
    if |s| == 0 then 0
    else 10 * ParseDecimal(s[..|s| - 1]) + DigitValue(s[|s| - 1])
  }

  lemma {:induction false} ParseNatToString(n: nat)
    ensures ParseDecimal(NatToString(n)) == n
    decreases n
  {
    var s := NatToString(n);
    if n < 10 {
      assert s[..0] == "";
    } else {
      ParseNatToString(n / 10);
      assert s[..|s| - 1] == NatToString(n / 10);
    }
  }

  /** `str(n)`'s form: no leading zero unless the numeral is `0`. */
  predicate IsCanonical(s: string) {
    IsDecimal(s) && (s[0] != '0' || s == "0")
  }

  lemma DigitRoundTrip(c: char)
    requires IsDigit(c)
    ensures DigitChar(DigitValue(c)) == c
  {
  }

  /** A numeral without a leading zero denotes a positive number. */
  lemma {:induction false} LeadingDigitPositive(s: string)
    requires IsDecimal(s) && s[0] != '0'
    ensures ParseDecimal(s) > 0
    decreases |s|
  {
    if |s| > 1 {
      LeadingDigitPositive(s[..|s| - 1]);
    }
  }

  /** A canonical numeral is `str` of its value: the value and the form
      together fix the digits. */
  lemma {:induction false} CanonicalNumeralUnique(s: string)
    requires IsCanonical(s)
    ensures s == NatToString(ParseDecimal(s))
    decreases |s|
  {
    var n := ParseDecimal(s);
    if |s| == 1 {
      assert s[..0] == "";
      DigitRoundTrip(s[0]);
    } else {
      var p := s[..|s| - 1];
      assert p[0] == s[0] != '0';
      LeadingDigitPositive(p);
      CanonicalNumeralUnique(p);
      DigitRoundTrip(s[|s| - 1]);
      assert n / 10 == ParseDecimal(p) && n % 10 == DigitValue(s[|s| - 1]);
      assert s == p + [s[|s| - 1]];
    }
  }
}
