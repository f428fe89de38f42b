/** The client whitelist file `/etc/postfix/clients.cidr` as `update_cidr_file`
    writes it: three `#` header lines, a blank line, one `<cidr> OK` line per
    range, and a final newline. ParseWhitelist is a reader for exactly the
    layout Render writes, so that what was written can be checked. */
module Whitelist {
  import opened Common
  import opened Text

  /** The access line for one range. */
  function OkLine(range: string): string {
    range + " OK"
  }

  /** The third header line, reporting how many ranges follow. */
  function CountHeader(n: nat): string {
    "# Total IP ranges: " + Decimal(n)
  }

  /** `content_lines` before joining: the header block, the blank separator,
      the range lines in the given order and a trailing empty element. */
  function ContentLines(generatedAt: string, sourceUrl: string, ranges: seq<string>): (lines: seq<string>)
    ensures |lines| == |ranges| + 5
    ensures lines[0] == "# Generated at " + generatedAt && lines[1] == "# Source: " + sourceUrl
    ensures lines[2] == CountHeader(|ranges|) && lines[3] == "" && lines[|lines| - 1] == ""
    ensures forall k :: 0 <= k < |ranges| ==> lines[4 + k] == OkLine(ranges[k])
  {
    ["# Generated at " + generatedAt, "# Source: " + sourceUrl, CountHeader(|ranges|), ""]
    + seq(|ranges|, k requires 0 <= k < |ranges| => OkLine(ranges[k]))
    + [""]
  }

  /** The text written to the file: `'\n'.join(content_lines)`. */
  function Render(generatedAt: string, sourceUrl: string, ranges: seq<string>): (content: string)
    ensures |content| > 0 && content[|content| - 1] == '\n'
  {
    var lines := ContentLines(generatedAt, sourceUrl, ranges);
    JoinEndsWithEmpty(lines, '\n');
    Join(lines, '\n')
  }

  lemma {:induction false} JoinEndsWithEmpty(parts: seq<string>, sep: char)
    requires |parts| >= 2 && parts[|parts| - 1] == ""
    ensures var s := Join(parts, sep); |s| > 0 && s[|s| - 1] == sep
    decreases |parts|
  {
    if |parts| > 2 {
      JoinEndsWithEmpty(parts[1..], sep);
    }
  }

  /** A range line is some text followed by ` OK`. */
  predicate IsOkLine(line: string) {
    |line| >= 3 && line[|line| - 3..] == " OK"
  }

  /** The whitelist as read back: None unless the text has the layout
      Render produces and the count header agrees with the number of range
      lines; otherwise the ranges, in file order. */
  function ParseWhitelist(content: string): (r: Option<seq<string>>)
    ensures r.Some? ==> |Split(content, '\n')| == |r.value| + 5
  {
    ParseLines(Split(content, '\n'))
  }

  /** ParseWhitelist on the file's lines. */
  function ParseLines(lines: seq<string>): (r: Option<seq<string>>)
    ensures r.Some? ==> |lines| == |r.value| + 5
  {
    if |lines| < 5 || lines[3] != "" || lines[|lines| - 1] != "" then None
    else if lines[0] == [] || lines[0][0] != '#' || lines[1] == [] || lines[1][0] != '#' then None
    else
      var body := lines[4..|lines| - 1];
      if !(forall k :: 0 <= k < |body| ==> IsOkLine(body[k])) then None
      else if lines[2] != CountHeader(|body|) then None
      else Some(seq(|body|, k requires 0 <= k < |body| => body[k][..|body[k]| - 3]))
  }

  /** The generated lines parse back to the ranges they were built from. */
  lemma ParseContentLines(generatedAt: string, sourceUrl: string, ranges: seq<string>)
    ensures ParseLines(ContentLines(generatedAt, sourceUrl, ranges)) == Some(ranges)
  {
    var lines := ContentLines(generatedAt, sourceUrl, ranges);
    assert lines[0] == "# Generated at " + generatedAt;
    assert lines[1] == "# Source: " + sourceUrl;
    var body := lines[4..|lines| - 1];
    assert |body| == |ranges|;
    forall k | 0 <= k < |body| ensures IsOkLine(body[k]) && body[k][..|body[k]| - 3] == ranges[k] {
      assert body[k] == ranges[k] + " OK";
    }
    assert seq(|body|, k requires 0 <= k < |body| => body[k][..|body[k]| - 3]) == ranges;
  }

  /** A piece of header or range text that cannot break the line structure. */
  predicate SingleLine(s: string) {
    '\n' !in s
  }

  /** Reading the written file back gives exactly the ranges written, in
      order; in particular the number of `<cidr> OK` lines is the number of
      ranges, and the count header agrees with it. */
  lemma WhitelistRoundTrip(generatedAt: string, sourceUrl: string, ranges: seq<string>)
    requires SingleLine(generatedAt) && SingleLine(sourceUrl)
    requires forall k :: 0 <= k < |ranges| ==> SingleLine(ranges[k])
    ensures ParseWhitelist(Render(generatedAt, sourceUrl, ranges)) == Some(ranges)
  {
    var lines := ContentLines(generatedAt, sourceUrl, ranges);
    assert Split(Render(generatedAt, sourceUrl, ranges), '\n') == lines by {
      assert forall k :: 0 <= k < |lines| ==> '\n' !in lines[k] by {
        assert '\n' !in Decimal(|ranges|);
        forall k | 0 <= k < |lines| ensures '\n' !in lines[k] {
          if 4 <= k < |lines| - 1 {
            assert lines[k] == ranges[k - 4] + " OK";
          }
        }
      }
      SplitJoin(lines, '\n');
    }
    ParseContentLines(generatedAt, sourceUrl, ranges);
  }
}
