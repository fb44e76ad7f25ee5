/** Fenced data blocks, and how section 4.5 of CommonMark 0.31 reads them back. */
module Fences {
  import opened Text
  import opened LogText

  // ---- writing ----

  /** The number of backticks, or other marks, at the start of `s`. */
  function Lead(s: string, mark: char := '`'): (n: nat)
    ensures n <= |s|
  {
    if s != [] && s[0] == mark then 1 + Lead(s[1..], mark) else 0
  }

  /** The length of the longest run of backticks. */
  function LongestRun(s: string): nat {
    if s == [] then 0
    else if Lead(s) >= LongestRun(s[1..]) then Lead(s) else LongestRun(s[1..])
  }

  /** It is the length of a run, and no run is longer. */
  lemma {:induction false} LongestIs(s: string)
    ensures forall i :: 0 <= i <= |s| ==> Lead(s[i..]) <= LongestRun(s)
    ensures exists i :: 0 <= i <= |s| && Lead(s[i..]) == LongestRun(s)
  {
    assert s[0..] == s && s[|s|..] == "";
    if s != [] {
      var rest := s[1..];
      LongestIs(rest);
      forall i | 0 < i <= |s| ensures s[i..] == rest[i - 1..] {
      }
      if Lead(s) < LongestRun(rest) {
        var i :| 0 <= i <= |rest| && Lead(rest[i..]) == LongestRun(rest);
        assert s[i + 1..] == rest[i..];
      }
    }
  }

  function Ticks(n: nat): string {
    if n == 0 then "" else "`" + Ticks(n - 1)
  }

  function FenceLength(text: string): nat {
    if LongestRun(text) + 1 >= 3 then LongestRun(text) + 1 else 3
  }

  function Fence(text: string, info: string): string {
    var f := Ticks(FenceLength(text));
    f + info + NL + text + NL + f
  }

  // ---- reading ----

  function Spaces(line: string): (n: nat)
    ensures n <= |line|
  {
    if line != [] && line[0] == ' ' then 1 + Spaces(line[1..]) else 0
  }

  predicate Blank(s: string) {
    forall i :: 0 <= i < |s| ==> s[i] == ' ' || s[i] == '\t'
  }

  /** A line that opens a fence of backticks, after which there is no other, or of tildes. */
  predicate OpensWith(line: string, mark: char) {
    var i := Spaces(line);
    var n := Lead(line[i..], mark);
    i <= 3 && n >= 3 && (mark == '`' ==> '`' !in line[i + n..])
  }

  predicate OpensFence(line: string) {
    OpensWith(line, '`') || OpensWith(line, '~')
  }

  /**
    A line that closes a fence of `n` marks: at least as many, indented by at most three spaces,
    and nothing else.
   */
  predicate ClosesFence(line: string, n: nat, mark: char := '`') {
    var i := Spaces(line);
    i <= 3 && Lead(line[i..], mark) >= n && Blank(line[i + Lead(line[i..], mark)..])
  }

  /** A content line loses at most the indentation of the opening fence. */
  function Unindented(line: string, indent: nat): string {
    line[if Spaces(line) < indent then Spaces(line) else indent..]
  }

  datatype Read = Read(info: string, content: seq<string>, rest: seq<string>)

  /** The content up to the closing fence, or to the end when there is none. */
  function Content(lines: seq<string>, n: nat, indent: nat, mark: char := '`'): (r: (seq<string>, seq<string>))
    ensures |r.1| <= |lines|
  {
    if lines == [] then ([], [])
    else if ClosesFence(lines[0], n, mark) then ([], lines[1..])
    else
      var (content, rest) := Content(lines[1..], n, indent, mark);
      ([Unindented(lines[0], indent)] + content, rest)
  }

  /** Reads the fenced block that starts at the first of `lines`. */
  function ReadFence(lines: seq<string>): Option<Read> {
    if lines == [] || !OpensFence(lines[0]) then None
    else
      var mark := if OpensWith(lines[0], '`') then '`' else '~';
      var i := Spaces(lines[0]);
      var n := Lead(lines[0][i..], mark);
      var (content, rest) := Content(lines[1..], n, i, mark);
      Some(Read(Trim(lines[0][i + n..]), content, rest))
  }

  // ---- round trip ----

  lemma {:induction false} TicksLead(n: nat, rest: string)
    requires rest == [] || rest[0] != '`'
    ensures |Ticks(n)| == n && Lead(Ticks(n) + rest) == n
    ensures forall i :: 0 <= i < n ==> Ticks(n)[i] == '`'
  {
    if n == 0 {
      assert Ticks(n) + rest == rest;
    } else {
      assert (Ticks(n) + rest)[1..] == Ticks(n - 1) + rest;
      TicksLead(n - 1, rest);
    }
  }

  /** No line of a text has a longer run than the text, nor starts with more backticks, when it is the first. */
  lemma {:induction false} LinesRuns(text: string)
    ensures forall i :: 0 <= i < |Split(text, NL)| ==> LongestRun(Split(text, NL)[i]) <= LongestRun(text)
    ensures Lead(Split(text, NL)[0]) <= Lead(text)
  {
    if text == [] {
      assert !StartsAt(text, NL, 0);
      assert Split(text, NL) == [text];
    } else {
      LinesRuns(text[1..]);
      assert text == [text[0]] + text[1..];
      SplitCons(text[0], text[1..]);
      var lines := Split(text[1..], NL);
      var first := [text[0]] + lines[0];
      assert first[1..] == lines[0];
    }
  }

  lemma {:induction false} LeadAnywhere(s: string, i: nat)
    requires i <= |s|
    ensures Lead(s[i..]) <= LongestRun(s)
  {
    if i > 0 {
      LeadAnywhere(s[1..], i - 1);
      assert s[i..] == s[1..][i - 1..];
    } else {
      assert s[i..] == s;
    }
  }

  lemma NeverCloses(line: string, n: nat)
    requires LongestRun(line) < n
    ensures !ClosesFence(line, n)
  {
    LeadAnywhere(line, Spaces(line));
  }

  lemma {:induction false} ContentUpTo(lines: seq<string>, last: string, rest: seq<string>, n: nat)
    requires forall i :: 0 <= i < |lines| ==> !ClosesFence(lines[i], n)
    requires ClosesFence(last, n)
    ensures Content(lines + ([last] + rest), n, 0) == (lines, rest)
  {
    var all := lines + ([last] + rest);
    if lines == [] {
      assert all == [last] + rest && all[1..] == rest;
    } else {
      assert all[0] == lines[0] && all[1..] == lines[1..] + ([last] + rest);
      ContentUpTo(lines[1..], last, rest, n);
      assert [lines[0]] + lines[1..] == lines;
      assert Unindented(lines[0], 0) == lines[0];
    }
  }

  lemma RunOnBlank(lines: seq<string>, rest: seq<string>)
    requires lines != []
    ensures RunOn(lines, [""] + rest) == lines + rest
  {
    assert lines[|lines| - 1] + "" == lines[|lines| - 1];
  }

  lemma SplitBefore(text: string, more: string)
    ensures Split(text + NL + more, NL) == Split(text, NL) + Split(more, NL)
  {
    Associate(text, NL, more);
    SplitAppend(text, NL + more);
    RunOnBlank(Split(text, NL), Split(more, NL));
  }

  predicate InfoString(info: string) {
    '`' !in info && '\n' !in info && (info == [] || info[0] != ' ')
  }

  lemma TicksNoNewline(n: nat, info: string)
    requires '\n' !in info
    ensures NoNewline(Ticks(n) + info)
  {
    TicksLead(n, []);
    assert '\n' !in Ticks(n) + info;
  }

  lemma TicksClose(n: nat)
    requires n >= 3
    ensures ClosesFence(Ticks(n), n)
  {
    TicksLead(n, []);
    assert Ticks(n) + [] == Ticks(n);
    assert Ticks(n)[0..] == Ticks(n);
  }

  lemma TicksOpen(n: nat, info: string)
    requires n >= 3 && InfoString(info)
    ensures var line := Ticks(n) + info;
            OpensWith(line, '`') && Spaces(line) == 0 && Lead(line[0..]) == n && line[n..] == info
  {
    TicksLead(n, info);
    var line := Ticks(n) + info;
    assert line[0..] == line && line[0] == '`' && line[n..] == info;
  }

  lemma ThreeParts(open: string, text: string, f: string, after: string)
    requires NoNewline(open) && NoNewline(f)
    ensures Split(open + NL + (text + NL + (f + NL + after)), NL) ==
            [open] + (Split(text, NL) + ([f] + Split(after, NL)))
  {
    var tail := f + NL + after;
    SplitAfterLine(open, text + NL + tail);
    SplitBefore(text, tail);
    SplitAfterLine(f, after);
  }

  lemma FenceParts(f: string, info: string, text: string, after: string)
    ensures f + info + NL + text + NL + f + NL + after == (f + info) + NL + (text + NL + (f + NL + after))
  {
  }

  lemma FenceLines(text: string, info: string, after: string)
    requires InfoString(info)
    ensures var f := Ticks(FenceLength(text));
            Split(Fence(text, info) + NL + after, NL) == [f + info] + (Split(text, NL) + ([f] + Split(after, NL)))
  {
    var n := FenceLength(text);
    var f := Ticks(n);
    TicksNoNewline(n, info);
    TicksNoNewline(n, "");
    assert f + "" == f;
    ThreeParts(f + info, text, f, after);
    FenceParts(f, info, text, after);
  }

  lemma ReadLines(n: nat, info: string, lines: seq<string>, rest: seq<string>)
    requires n >= 3 && InfoString(info)
    requires forall i :: 0 <= i < |lines| ==> !ClosesFence(lines[i], n)
    ensures ReadFence([Ticks(n) + info] + (lines + ([Ticks(n)] + rest))) == Some(Read(Trim(info), lines, rest))
  {
    var tail := lines + ([Ticks(n)] + rest);
    assert ([Ticks(n) + info] + tail)[1..] == tail;
    TicksClose(n);
    TicksOpen(n, info);
    ContentUpTo(lines, Ticks(n), rest, n);
  }

  /**
    Whatever the text, its fence is read back as the text, whole, and what follows the block is
    outside it: no line of the text can close the fence.
   */
  lemma FenceReadBack(text: string, info: string, after: string)
    requires InfoString(info)
    ensures ReadFence(Split(Fence(text, info) + NL + after, NL)) ==
            Some(Read(Trim(info), Split(text, NL), Split(after, NL)))
    ensures Join(Split(text, NL), NL) == text
  {
    var n := FenceLength(text);
    var lines := Split(text, NL);
    JoinSplit(text, NL);
    FenceLines(text, info, after);
    LinesRuns(text);
    forall i | 0 <= i < |lines| ensures !ClosesFence(lines[i], n) {
      NeverCloses(lines[i], n);
    }
    ReadLines(n, info, lines, Split(after, NL));
  }

  // ---- a whole document ----

  /** The contents of the fenced blocks of a document, in order. */
  function Blocks(lines: seq<string>): seq<seq<string>>
    decreases |lines|
  {
    if lines == [] then []
    else match ReadFence(lines)
      case None => Blocks(lines[1..])
      case Some(block) =>
        ReadFenceShorter(lines);
        [block.content] + Blocks(block.rest)
  }

  lemma ReadFenceShorter(lines: seq<string>)
    requires ReadFence(lines).Some?
    ensures |ReadFence(lines).value.rest| < |lines|
  {
  }

  /** Lines of which none opens a fence. */
  predicate NoFence(lines: seq<string>) {
    forall i :: 0 <= i < |lines| ==> !OpensFence(lines[i])
  }

  lemma {:induction false} BlocksAfter(a: seq<string>, b: seq<string>)
    requires NoFence(a)
    ensures Blocks(a + b) == Blocks(b)
  {
    if a == [] {
      assert a + b == b;
    } else {
      assert (a + b)[0] == a[0] && (a + b)[1..] == a[1..] + b;
      BlocksAfter(a[1..], b);
    }
  }

  /** The lines of a fenced text. */
  function FencedLines(text: string, info: string): seq<string> {
    [Ticks(FenceLength(text)) + info] + (Split(text, NL) + [Ticks(FenceLength(text))])
  }

  /** A fenced text reads as one block, and what follows is read on its own. */
  lemma FencedBlock(text: string, info: string, rest: seq<string>)
    requires InfoString(info)
    ensures Blocks(FencedLines(text, info) + rest) == [Split(text, NL)] + Blocks(rest)
  {
    var n, lines := FenceLength(text), Split(text, NL);
    LinesRuns(text);
    forall i | 0 <= i < |lines| ensures !ClosesFence(lines[i], n) {
      NeverCloses(lines[i], n);
    }
    ReadLines(n, info, lines, rest);
    assert FencedLines(text, info) + rest == [Ticks(n) + info] + (lines + ([Ticks(n)] + rest));
  }

  lemma SplitFence(text: string, info: string)
    requires InfoString(info)
    ensures Split(Fence(text, info), NL) == FencedLines(text, info)
  {
    var f := Ticks(FenceLength(text));
    TicksNoNewline(FenceLength(text), info);
    TicksNoNewline(FenceLength(text), "");
    assert f + "" == f;
    TwoParts(f + info, text, f);
    FenceAssociates(f + info, text, f);
  }

  lemma TwoParts(open: string, text: string, f: string)
    requires NoNewline(open) && NoNewline(f)
    ensures Split(open + NL + (text + NL + f), NL) == [open] + (Split(text, NL) + [f])
  {
    SplitAfterLine(open, text + NL + f);
    SplitBefore(text, f);
    SplitLine(f);
  }

  lemma FenceAssociates(open: string, text: string, f: string)
    ensures open + NL + text + NL + f == open + NL + (text + NL + f)
  {
  }
}
