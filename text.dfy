/** The handful of Python string operations the two daemons rely on, written
    out over `seq<char>`: substring test (`p in s`), `str.strip()`,
    `str.splitlines()`, `sep.join(...)` / `str.split(sep)` and `str(n)` for a
    natural number. */
module Text {

  /** `p` occurs in `s` starting at index `i`. */
  predicate OccursAt(s: string, p: string, i: int) {
    0 <= i && i + |p| <= |s| && s[i..i + |p|] == p
  }

  /** Python's `p in s` for strings: `p` occurs somewhere in `s`. */
  function Contains(s: string, p: string): (r: bool)
    ensures r <==> exists i :: OccursAt(s, p, i)
    decreases |s|
  {
    if |s| < |p| then false
    else if s[..|p|] == p then
      assert OccursAt(s, p, 0);
      true
    else
      var r := Contains(s[1..], p);
      assert r ==> exists i :: OccursAt(s, p, i) by {
        if r {
          var j :| OccursAt(s[1..], p, j);
          assert s[1..][j..j + |p|] == s[j + 1..j + 1 + |p|];
          assert OccursAt(s, p, j + 1);
        }
      }
      assert (exists i :: OccursAt(s, p, i)) ==> r by {
        if exists i :: OccursAt(s, p, i) {
          var i :| OccursAt(s, p, i);
          assert i != 0;
          assert s[1..][i - 1..i - 1 + |p|] == s[i..i + |p|];
          assert OccursAt(s[1..], p, i - 1);
        }
      }
      r
  }

  /** The characters for which Python's `str.isspace()` holds, i.e. what
      `str.strip()` with no argument removes. */
  predicate IsSpace(c: char) {
    c == ' ' || ('\t' <= c <= '\r') || ('\U{1C}' <= c <= '\U{1F}')
    || c == '\U{85}' || c == '\U{A0}' || c == '\U{1680}'
    || ('\U{2000}' <= c <= '\U{200A}') || c == '\U{2028}' || c == '\U{2029}'
    || c == '\U{202F}' || c == '\U{205F}' || c == '\U{3000}'
  }

  /** The characters `str.splitlines()` treats as line boundaries
      (a `\r` directly followed by `\n` counts once, see SplitLines). */
  predicate IsLineBreak(c: char) {
    c == '\n' || c == '\r' || c == '\U{0B}' || c == '\U{0C}'
    || ('\U{1C}' <= c <= '\U{1E}') || c == '\U{85}' || c == '\U{2028}' || c == '\U{2029}'
  }

  /** `s.lstrip()`: the longest suffix of `s` that does not start with whitespace. */
  function StripStart(s: string): (r: string)
    ensures |r| <= |s| && r == s[|s| - |r|..]
    ensures r == [] || !IsSpace(r[0])
    ensures forall i :: 0 <= i < |s| - |r| ==> IsSpace(s[i])
  {
    if s != [] && IsSpace(s[0]) then StripStart(s[1..]) else s
  }

  /** `s.rstrip()`: the longest prefix of `s` that does not end with whitespace. */
  function StripEnd(s: string): (r: string)
    ensures |r| <= |s| && r == s[..|r|]
    ensures r == [] || !IsSpace(r[|r| - 1])
    ensures forall i :: |r| <= i < |s| ==> IsSpace(s[i])
  {
    if s != [] && IsSpace(s[|s| - 1]) then StripEnd(s[..|s| - 1]) else s
  }

  /** `s.strip()`: `s` without leading and trailing whitespace. The result is
      a slice of `s` with only whitespace outside it and none at its ends,
      which determines it. */
  function Strip(s: string): (r: string)
    ensures |r| <= |s|
    ensures r == [] || (!IsSpace(r[0]) && !IsSpace(r[|r| - 1]))
    ensures exists i, j :: 0 <= i <= j <= |s| && r == s[i..j]
                           && (forall k :: (0 <= k < i || j <= k < |s|) ==> IsSpace(s[k]))
  {
    var t := StripStart(s);
    var r := StripEnd(t);
    var i := |s| - |t|;
    assert r == s[i..i + |r|];
    assert forall k :: i + |r| <= k < |s| ==> s[k] == t[k - i];
    r
  }

  /** `s.splitlines()`: the lines of `s` without their terminators; an empty
      string has no lines and a final terminator does not open a new line. */
  function SplitLines(s: string): (r: seq<string>)
    ensures |r| <= |s|
    ensures forall k :: 0 <= k < |r| ==> NoLineBreak(r[k])
  {
    SplitLinesFrom(s, [])
  }

  predicate NoLineBreak(line: string) {
    forall c :: c in line ==> !IsLineBreak(c)
  }

  /** SplitLines with `cur` the part of the current line already read. */
  function SplitLinesFrom(s: string, cur: string): (r: seq<string>)
    requires NoLineBreak(cur)
    ensures |r| <= |s| + (if cur == [] then 0 else 1)
    ensures forall k :: 0 <= k < |r| ==> NoLineBreak(r[k])
    decreases |s|
  {
    if s == [] then
      (if cur == [] then [] else [cur])
    else if s[0] == '\r' && |s| > 1 && s[1] == '\n' then
      [cur] + SplitLinesFrom(s[2..], [])
    else if IsLineBreak(s[0]) then
      [cur] + SplitLinesFrom(s[1..], [])
    else
      SplitLinesFrom(s[1..], cur + [s[0]])
  }

  /** The only line break in `s`, if any, is `'\n'`. */
  predicate OnlyNewlineBreaks(s: string) {
    forall k :: 0 <= k < |s| && IsLineBreak(s[k]) ==> s[k] == '\n'
  }

  /** Splitting on `'\n'` with the empty part after a final newline dropped;
      an empty string has no parts. */
  function NewlineParts(s: string): seq<string> {
    if s == [] then []
    else
      var parts := Split(s, '\n');
      if s[|s| - 1] == '\n' then parts[..|parts| - 1] else parts
  }

  /** For text whose only line break is `'\n'`, `splitlines()` is `split('\n')`
      without the empty part that a final newline leaves. */
  lemma SplitLinesNewlineOnly(s: string)
    requires OnlyNewlineBreaks(s)
    ensures SplitLines(s) == NewlineParts(s)
  {
    SplitLinesFromNewlineOnly(s, []);
    assert [] + s == s;
  }

  lemma {:induction false} SplitLinesFromNewlineOnly(s: string, cur: string)
    requires OnlyNewlineBreaks(s) && NoLineBreak(cur)
    ensures SplitLinesFrom(s, cur) == NewlineParts(cur + s)
    decreases |s|
  {
    if s == [] {
      assert cur + s == cur;
      if cur != [] {
        assert cur[|cur| - 1] in cur;
        SplitNoSep(cur, '\n');
      }
    } else if s[0] == '\n' {
      var t := s[1..];
      assert SplitLinesFrom(s, cur) == [cur] + SplitLinesFrom(t, []);
      SplitLinesFromNewlineOnly(t, []);
      assert [] + t == t;
      NewlinePartsAfterBreak(cur, t);
      assert cur + s == cur + ['\n'] + t;
    } else {
      assert !IsLineBreak(s[0]);
      assert SplitLinesFrom(s, cur) == SplitLinesFrom(s[1..], cur + [s[0]]);
      SplitLinesFromNewlineOnly(s[1..], cur + [s[0]]);
      assert cur + [s[0]] + s[1..] == cur + s;
    }
  }

  /** A newline-free line, a newline, then `t`: that line, then the parts of `t`. */
  lemma NewlinePartsAfterBreak(cur: string, t: string)
    requires NoLineBreak(cur)
    ensures NewlineParts(cur + ['\n'] + t) == [cur] + NewlineParts(t)
  {
    var u := cur + ['\n'] + t;
    SplitPrefix(cur, t, '\n');
    var rest := Split(t, '\n');
    assert Split(u, '\n') == [cur] + rest;
    if t == [] {
      assert u[|u| - 1] == '\n';
      assert rest == [[]];
    } else {
      assert u[|u| - 1] == t[|t| - 1];
      if t[|t| - 1] == '\n' {
        assert ([cur] + rest)[..|rest|] == [cur] + rest[..|rest| - 1];
      }
    }
  }

  /** `s.split(sep)` has one more part than `s` has separators. */
  lemma {:induction false} SplitCount(s: string, sep: char)
    ensures |Split(s, sep)| == multiset(s)[sep] + 1
    decreases |s|
  {
    if s != [] {
      SplitCount(s[1..], sep);
      assert s == [s[0]] + s[1..];
    }
  }

  /** The number of lines of text whose only line break is `'\n'`: one per
      newline, plus one for an unterminated last line. */
  lemma SplitLinesCount(s: string)
    requires OnlyNewlineBreaks(s)
    ensures |SplitLines(s)| == multiset(s)['\n'] + (if s != [] && s[|s| - 1] != '\n' then 1 else 0)
  {
    SplitLinesNewlineOnly(s);
    SplitCount(s, '\n');
  }

  /** Stripping keeps `'\n'` the only line break and removes a final newline. */
  lemma StripKeepsNewlineOnly(s: string)
    requires OnlyNewlineBreaks(s)
    ensures OnlyNewlineBreaks(Strip(s))
    ensures Strip(s) == [] || Strip(s)[|Strip(s)| - 1] != '\n'
  {
    var r := Strip(s);
    var i, j :| 0 <= i <= j <= |s| && r == s[i..j];
    forall k | 0 <= k < |r| && IsLineBreak(r[k]) ensures r[k] == '\n' {
      assert r[k] == s[i + k];
    }
  }

  /** The stripped text has one line per newline it keeps, plus one, unless
      nothing is left. */
  lemma StrippedLineCount(s: string)
    requires OnlyNewlineBreaks(s)
    ensures var r := Strip(s);
            |SplitLines(r)| == (if r == [] then 0 else multiset(r)['\n'] + 1)
  {
    StripKeepsNewlineOnly(s);
    SplitLinesCount(Strip(s));
  }

  /** `sep.join(parts)` for a one-character separator: the parts in order,
      one separator between each two. */
  function Join(parts: seq<string>, sep: char): (r: string)
    ensures |parts| == 1 ==> r == parts[0]
    ensures parts != [] ==> parts[0] <= r
    decreases |parts|
  {
    if parts == [] then []
    else if |parts| == 1 then parts[0]
    else parts[0] + [sep] + Join(parts[1..], sep)
  }

  /** Joining parts that do not contain the separator puts exactly one
      separator between each two: one fewer than there are parts. */
  lemma {:induction false} JoinSeparatorCount(parts: seq<string>, sep: char)
    requires parts != []
    requires forall k :: 0 <= k < |parts| ==> sep !in parts[k]
    ensures multiset(Join(parts, sep))[sep] == |parts| - 1
    decreases |parts|
  {
    if |parts| > 1 {
      JoinSeparatorCount(parts[1..], sep);
    }
  }

  /** `s.split(sep)` for a one-character separator: always at least one part. */
  function Split(s: string, sep: char): (r: seq<string>)
    ensures |r| >= 1
    decreases |s|
  {
    if s == [] then [[]]
    else
      var rest := Split(s[1..], sep);
      if s[0] == sep then [[]] + rest
      else [[s[0]] + rest[0]] + rest[1..]
  }

  /** Splitting undoes joining when no part contains the separator. */
  lemma {:induction false} SplitJoin(parts: seq<string>, sep: char)
    requires parts != []
    requires forall k :: 0 <= k < |parts| ==> sep !in parts[k]
    ensures Split(Join(parts, sep), sep) == parts
    decreases |parts|
  {
    if |parts| == 1 {
      SplitNoSep(parts[0], sep);
    } else {
      SplitJoin(parts[1..], sep);
      SplitPrefix(parts[0], Join(parts[1..], sep), sep);
    }
  }

  /** A string without the separator splits into itself. */
  lemma {:induction false} SplitNoSep(a: string, sep: char)
    requires sep !in a
    ensures Split(a, sep) == [a]
    decreases |a|
  {
    if a != [] {
      SplitNoSep(a[1..], sep);
      assert [a[0]] + a[1..] == a;
    }
  }

  /** A separator-free first part followed by the separator splits off cleanly. */
  lemma {:induction false} SplitPrefix(a: string, t: string, sep: char)
    requires sep !in a
    ensures Split(a + [sep] + t, sep) == [a] + Split(t, sep)
    decreases |a|
  {
    if a == [] {
      assert a + [sep] + t == [sep] + t;
      assert ([sep] + t)[1..] == t;
    } else {
      SplitPrefix(a[1..], t, sep);
      assert (a + [sep] + t)[1..] == a[1..] + [sep] + t;
      assert [a[0]] + a[1..] == a;
    }
  }

  /** The digit character for 0..9. */
  function Digit(d: nat): (c: char)
    requires d < 10
    ensures '0' <= c <= '9'
  {
    "0123456789"[d]
  }

  /** The number a string of decimal digits denotes, most significant first. */
  function DigitsValue(s: string): int
    decreases |s|
  {
    if s == [] then 0 else DigitsValue(s[..|s| - 1]) * 10 + (s[|s| - 1] as int - '0' as int)
  }

  /** `str(n)` for a natural number: its decimal digits, most significant
      first, without leading zeros, denoting `n`. */
  function Decimal(n: nat): (r: string)
    ensures r != []
    ensures forall c :: c in r ==> '0' <= c <= '9'
    ensures r[0] != '0' || r == "0"
    ensures DigitsValue(r) == n
  {
    if n < 10 then [Digit(n)] else Decimal(n / 10) + [Digit(n % 10)]
  }
}
