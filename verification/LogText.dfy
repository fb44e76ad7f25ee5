/** The text around the filter: the chunks it reads its lines from, and the log it writes. */
module LogText {
  import opened Text

  const NL := "\n"
  const END := "@@END"
  const SEPARATOR := "\n@@END"

  // ---- splitting at newlines, a character at a time ----

  lemma {:induction false} IndexOfShift(c: char, rest: string, pattern: string, i: nat)
    ensures IndexOf([c] + rest, pattern, i + 1) ==
            match IndexOf(rest, pattern, i) case None => None case Some(k) => Some(k + 1)
    decreases |rest| - i
  {
    var text := [c] + rest;
    if i + |pattern| <= |rest| {
      assert text[i + 1..i + 1 + |pattern|] == rest[i..i + |pattern|];
    }
    if !StartsAt(rest, pattern, i) && i < |rest| {
      IndexOfShift(c, rest, pattern, i + 1);
    }
  }

  /** Prepending a character to a text prepends it to the first line, or starts a new one. */
  function PrependTo(c: char, lines: seq<string>): seq<string>
    requires lines != []
  {
    if c == '\n' then [""] + lines else [[c] + lines[0]] + lines[1..]
  }

  lemma SplitCons(c: char, rest: string)
    ensures Split([c] + rest, NL) == PrependTo(c, Split(rest, NL))
  {
    var text := [c] + rest;
    if c == '\n' {
      assert StartsAt(text, NL, 0);
      assert text[..0] == "" && text[1..] == rest;
    } else {
      assert !StartsAt(text, NL, 0) by {
        assert text[0] == c;
      }
      IndexOfShift(c, rest, NL, 0);
      match IndexOf(rest, NL, 0)
      case None =>
      case Some(k) => SplitLongerLine(c, rest, k);
    }
  }

  lemma SplitLongerLine(c: char, rest: string, k: nat)
    requires IndexOf(rest, NL, 0) == Some(k) && IndexOf([c] + rest, NL, 0) == Some(k + 1) && c != '\n'
    ensures Split([c] + rest, NL) == PrependTo(c, Split(rest, NL))
  {
    var text := [c] + rest;
    IndexOfFirst(rest, NL, 0);
    IndexOfFirst(text, NL, 0);
    assert text[..k + 1] == [c] + rest[..k] && text[k + 2..] == rest[k + 1..];
    var more := Split(rest[k + 1..], NL);
    assert Split(rest, NL) == [rest[..k]] + more && Split(text, NL) == [text[..k + 1]] + more;
    assert ([rest[..k]] + more)[1..] == more;
  }

  /** The lines of `a + b`: the last line of `a` runs on into the first of `b`. */
  function RunOn(a: seq<string>, b: seq<string>): seq<string>
    requires a != [] && b != []
  {
    a[..|a| - 1] + [a[|a| - 1] + b[0]] + b[1..]
  }

  lemma {:induction false} SplitAppend(a: string, b: string)
    ensures Split(a + b, NL) == RunOn(Split(a, NL), Split(b, NL))
  {
    if a == [] {
      assert a + b == b;
      assert Split(a, NL) == [""];
      assert "" + Split(b, NL)[0] == Split(b, NL)[0];
      assert RunOn([""], Split(b, NL)) == Split(b, NL);
    } else {
      var c, rest := a[0], a[1..];
      SplitAppend(rest, b);
      SplitCons(c, rest);
      SplitCons(c, rest + b);
      assert a == [c] + rest && a + b == [c] + (rest + b);
      PrependRunOn(c, Split(rest, NL), Split(b, NL));
    }
  }

  lemma PrependRunOn(c: char, a: seq<string>, b: seq<string>)
    requires a != [] && b != []
    ensures PrependTo(c, RunOn(a, b)) == RunOn(PrependTo(c, a), b)
  {
    if c != '\n' && |a| == 1 {
      assert [c] + (a[0] + b[0]) == ([c] + a[0]) + b[0];
    }
  }

  // ---- the chunk loop ----

  /** The lines of a text: an empty last one, after a final newline, is none. */
  function LinesOf(text: string): seq<string> {
    var parts := Split(text, NL);
    if parts[|parts| - 1] == "" then parts[..|parts| - 1] else parts
  }

  /** The lines, each ended by a newline but perhaps the last, are the text. */
  lemma LinesJoin(text: string)
    ensures text == "" ==> LinesOf(text) == []
    ensures text != "" ==>
              Join(LinesOf(text), NL) + (if text[|text| - 1] == '\n' then NL else "") == text
  {
    var parts := Split(text, NL);
    JoinSplit(text, NL);
    if parts[|parts| - 1] == "" {
      LastEmpty(parts);
      assert |parts| == 1 ==> parts == [""];
    } else {
      LastWritten(parts);
      PartsUnbroken(text);
      assert parts[|parts| - 1] in parts;
    }
  }

  lemma {:induction false} PartsUnbroken(text: string)
    ensures forall p :: p in Split(text, NL) ==> '\n' !in p
    decreases |text|
  {
    IndexOfFirst(text, NL, 0);
    forall k | 0 <= k < |text| ensures StartsAt(text, NL, k) <==> text[k] == '\n' {
      assert text[k..k + 1] == [text[k]];
    }
    match IndexOf(text, NL, 0)
    case None => assert forall k: nat :: k < |text| ==> !StartsAt(text, NL, k);
    case Some(i) => PartsUnbroken(text[i + 1..]);
  }

  lemma {:induction false} LastEmpty(parts: seq<string>)
    requires parts != [] && parts[|parts| - 1] == ""
    ensures |parts| > 1 ==> Join(parts, NL) == Join(parts[..|parts| - 1], NL) + NL
  {
    if |parts| == 2 {
      assert parts[1..] == [""] && parts[..1] == [parts[0]];
      assert Join(parts, NL) == parts[0] + NL + "";
    } else if |parts| > 2 {
      var front := parts[..|parts| - 1];
      LastEmpty(parts[1..]);
      assert parts[1..][..|parts| - 2] == front[1..];
      assert Join(parts, NL) == parts[0] + NL + (Join(front[1..], NL) + NL);
      assert Join(front, NL) == parts[0] + NL + Join(front[1..], NL);
    }
  }

  lemma {:induction false} LastWritten(parts: seq<string>)
    requires parts != [] && parts[|parts| - 1] != ""
    ensures var text, last := Join(parts, NL), parts[|parts| - 1];
            text != "" && text[|text| - 1] == last[|last| - 1]
  {
    if |parts| > 1 {
      LastWritten(parts[1..]);
    }
  }

  lemma ConcatNext(chunks: seq<string>, i: nat)
    requires i < |chunks|
    ensures Concat(chunks[..i + 1]) == Concat(chunks[..i]) + chunks[i]
  {
    assert chunks[..i + 1] == chunks[..i] + [chunks[i]];
    PendingNext(chunks[..i], chunks[i]);
  }

  lemma PendingNext(pending: seq<string>, piece: string)
    ensures Concat(pending + [piece]) == Concat(pending) + piece
    ensures Concat([piece]) == piece
  {
    ConcatAppend(pending, [piece]);
    assert [piece][1..] == [];
    assert Concat([piece]) == piece + "" == piece;
  }

  lemma RunOnMany(fed: seq<string>, open: string, lines: seq<string>)
    requires |lines| >= 2
    ensures RunOn(fed + [open], lines) == fed + [open + lines[0]] + lines[1..|lines| - 1] + [lines[|lines| - 1]]
  {
    assert lines[1..] == lines[1..|lines| - 1] + [lines[|lines| - 1]];
  }

  /**
    The lines fed to the filter, however the input is divided into chunks: `pending` holds the
    pieces of the line that is not terminated yet.
   */
  method FeedChunks(chunks: seq<string>) returns (fed: seq<string>)
    ensures fed == LinesOf(Concat(chunks))
  {
    fed := [];
    var pending: seq<string> := [];
    for i := 0 to |chunks|
      invariant fed + [Concat(pending)] == Split(Concat(chunks[..i]), NL)
    {
      var lines := Split(chunks[i], NL);
      ConcatNext(chunks, i);
      SplitAppend(Concat(chunks[..i]), chunks[i]);
      PendingNext(pending, lines[0]);
      if |lines| == 1 {
        JoinSplit(chunks[i], NL);
        pending := pending + [chunks[i]];
        continue;
      }
      RunOnMany(fed, Concat(pending), lines);
      pending := pending + [lines[0]];
      fed := fed + [Concat(pending)];
      fed := fed + lines[1..|lines| - 1];
      pending := [lines[|lines| - 1]];
      PendingNext([], lines[|lines| - 1]);
    }
    assert chunks[..|chunks|] == chunks;
    var last := Concat(pending);
    if last != "" {
      fed := fed + [last];
    }
  }

  // ---- the written log and its parse ----

  ghost predicate NoNewline(line: string) {
    '\n' !in line
  }

  lemma NoNewlineAt(line: string)
    requires NoNewline(line)
    ensures forall k: nat :: k < |line| ==> line[k] != '\n'
  {
  }

  lemma NewlineAt(text: string, k: nat)
    requires StartsAt(text, NL, k)
    ensures text[k] == '\n'
  {
    assert text[k..k + 1][0] == text[k];
  }

  lemma SplitLine(line: string)
    requires NoNewline(line)
    ensures Split(line, NL) == [line]
  {
    NoNewlineAt(line);
    forall k: nat ensures !StartsAt(line, NL, k) {
      if StartsAt(line, NL, k) {
        NewlineAt(line, k);
      }
    }
    IndexOfFirst(line, NL, 0);
  }

  /** An entry's text, which duplicates are recognised by, determines its lines. */
  lemma {:induction false} SplitJoin(lines: seq<string>)
    requires lines != [] && forall l :: l in lines ==> NoNewline(l)
    ensures Split(Join(lines, NL), NL) == lines
  {
    SplitLine(lines[0]);
    if |lines| > 1 {
      SplitJoin(lines[1..]);
      SplitAfterLine(lines[0], Join(lines[1..], NL));
    }
  }

  lemma SplitAfterLine(line: string, rest: string)
    requires NoNewline(line)
    ensures Split(line + NL + rest, NL) == [line] + Split(rest, NL)
  {
    SplitLine(line);
    SplitCons('\n', rest);
    SplitAppend(line, NL + rest);
    assert ['\n'] + rest == NL + rest;
    assert line + (NL + rest) == line + NL + rest;
    assert line + "" == line;
    assert RunOn([line], [""] + Split(rest, NL)) == [line] + Split(rest, NL);
  }

  /** What the filter writes: every entry, each closed by an end line. */
  function Written(entries: seq<seq<string>>): string {
    if entries == [] then "" else Join(entries[0], NL) + SEPARATOR + NL + Written(entries[1..])
  }

  function StripNewlines(s: string): string {
    if s != [] && s[0] == '\n' then StripNewlines(s[1..]) else s
  }

  datatype Entry = Entry(holder: string, query: string, lines: seq<string>)

  const TAG := "@@caelo/"

  /** The holder named by a tag line: the text up to the next "@@ ". */
  function HolderOf(line: string): Option<string> {
    if !StartsAt(line, TAG, 0) then None
    else match IndexOf(line, "@@ ", |TAG|)
      case None => None
      case Some(i) =>
        IndexOfFirst(line, "@@ ", |TAG|);
        Some(line[|TAG|..i])
  }

  /** A tag names the holder that was written into it. */
  lemma TagNames(name: string, rest: string)
    requires forall k :: 0 <= k < |name| ==> !StartsAt(name + "@@ ", "@@ ", k)
    ensures HolderOf(TAG + name + "@@ " + rest) == Some(name)
  {
    var line := TAG + name + "@@ " + rest;
    var end := |TAG| + |name|;
    assert line[0..8] == TAG && line[end..end + 3] == "@@ " && line[8..end] == name;
    forall k: nat | |TAG| <= k < end ensures !StartsAt(line, "@@ ", k) {
      assert !StartsAt(name + "@@ ", "@@ ", k - 8);
      assert k - 8 + 3 <= |name| + 3 ==> line[k..k + 3] == (name + "@@ ")[k - 8..k - 8 + 3];
    }
    IndexOfIs(line, "@@ ", |TAG|, end);
  }

  const QUERY_TEXT := "Query Text:"

  /** The first line that is not blank, trimmed. */
  function FirstText(lines: seq<string>): string {
    if lines == [] then "" else if Trim(lines[0]) != "" then Trim(lines[0]) else FirstText(lines[1..])
  }

  /** The statement of an entry; one that starts with a newline has its first line below. */
  function QueryOf(lines: seq<string>): string {
    if lines == [] then ""
    else if StartsAt(TrimStart(lines[0]), QUERY_TEXT, 0) then
      var text := Trim(TrimStart(lines[0])[|QUERY_TEXT|..]);
      if text != "" then text else FirstText(lines[1..])
    else QueryOf(lines[1..])
  }

  function ParseChunk(chunk: string): seq<Entry> {
    var lines := Split(StripNewlines(chunk), NL);
    match HolderOf(lines[0])
    case None => []
    case Some(holder) => [Entry(holder, QueryOf(lines), lines[1..])]
  }

  function ParseChunks(chunks: seq<string>): seq<Entry> {
    if chunks == [] then [] else ParseChunk(chunks[0]) + ParseChunks(chunks[1..])
  }

  function ParsePlanLog(text: string): seq<Entry> {
    ParseChunks(Split(text, SEPARATOR))
  }

  /** An entry whose tag names a holder and in which no line but the tag looks like an end line. */
  ghost predicate Writable(entry: seq<string>) {
    && entry != []
    && HolderOf(entry[0]).Some?
    && (forall l :: l in entry ==> NoNewline(l))
    && (forall i :: 0 < i < |entry| ==> !(END <= entry[i]))
  }

  ghost predicate Free(text: string) {
    forall k :: 0 <= k ==> !StartsAt(text, SEPARATOR, k)
  }

  /** A separator starts with a newline and holds no other. */
  lemma SeparatorShape(text: string, k: nat)
    requires StartsAt(text, SEPARATOR, k)
    ensures text[k] == '\n' && text[k + 1..k + 6] == END
    ensures forall j :: k < j < k + 6 ==> text[j] != '\n'
  {
    assert forall j :: k <= j < k + 6 ==> text[j] == text[k..k + 6][j - k];
    assert SEPARATOR[1..] == END;
  }

  lemma JoinStarts(lines: seq<string>)
    requires lines != [] && END <= Join(lines, NL)
    ensures END <= lines[0]
  {
    var text := Join(lines, NL);
    assert forall j :: 0 <= j < 5 ==> text[j] == END[j];
    assert |lines| > 1 ==> text[|lines[0]|] == '\n';
    assert text[..|lines[0]|] == lines[0];
  }

  lemma {:induction false} JoinFree(lines: seq<string>)
    requires lines != [] && forall l :: l in lines ==> NoNewline(l)
    requires forall i :: 0 < i < |lines| ==> !(END <= lines[i])
    ensures Free(Join(lines, NL))
  {
    var text, first := Join(lines, NL), lines[0];
    if |lines| == 1 {
      NoNewlineAt(first);
      forall k: nat ensures !StartsAt(text, SEPARATOR, k) {
        if StartsAt(text, SEPARATOR, k) {
          SeparatorShape(text, k);
        }
      }
    } else {
      var rest := lines[1..];
      JoinFree(rest);
      forall k: nat ensures !StartsAt(text, SEPARATOR, k) {
        if StartsAt(text, SEPARATOR, k) {
          JoinedSeparator(first, Join(rest, NL), k);
          if END <= Join(rest, NL) {
            JoinStarts(rest);
          }
        }
      }
    }
  }

  /** A separator in a joined text opens the second part, or lies in it. */
  lemma JoinedSeparator(first: string, more: string, k: nat)
    requires NoNewline(first) && StartsAt(first + NL + more, SEPARATOR, k)
    ensures k >= |first|
    ensures k == |first| ==> END <= more
    ensures k > |first| ==> StartsAt(more, SEPARATOR, k - |first| - 1)
  {
    var text := first + NL + more;
    SeparatorShape(text, k);
    assert forall j :: 0 <= j < |first| ==> text[j] == first[j] && first[j] in first;
    assert text[|first| + 1..] == more;
    if k == |first| {
      assert more[..5] == text[k + 1..k + 6];
    } else if k > |first| {
      var j := k - |first| - 1;
      assert more[j..j + 6] == text[k..k + 6];
    }
  }

  lemma OccursWithin(text: string, rest: string, k: nat)
    requires StartsAt(text + rest, SEPARATOR, k) && k + 6 <= |text|
    ensures StartsAt(text, SEPARATOR, k)
  {
    assert (text + rest)[k..k + 6] == text[k..k + 6];
  }

  /** A separator after a text free of it is the first one: its newline occurs nowhere else in it. */
  lemma SplitFree(text: string, rest: string)
    requires Free(text)
    ensures Split(text + SEPARATOR + rest, SEPARATOR) == [text] + Split(rest, SEPARATOR)
  {
    var all := text + SEPARATOR + rest;
    assert all[|text|..|text| + 6] == SEPARATOR;
    assert all[|text|] == '\n';
    forall k | 0 <= k < |text| ensures !StartsAt(all, SEPARATOR, k) {
      if StartsAt(all, SEPARATOR, k) {
        SeparatorShape(all, k);
        assert all == text + (SEPARATOR + rest);
        if k + 6 <= |text| {
          OccursWithin(text, SEPARATOR + rest, k);
        }
      }
    }
    IndexOfIs(all, SEPARATOR, 0, |text|);
    assert all[..|text|] == text && all[|text| + 6..] == rest;
  }

  lemma ChunkParsed(entry: seq<string>)
    requires Writable(entry)
    ensures ParseChunk(Join(entry, NL)) == ParseChunk(NL + Join(entry, NL)) == [Shown(entry)]
  {
    var text := Join(entry, NL);
    assert text[0] == entry[0][0] == TAG[0] == '@' by {
      assert entry[0][..8] == TAG;
    }
    assert StripNewlines(text) == text;
    assert (NL + text)[1..] == text;
    assert StripNewlines(NL + text) == StripNewlines(text);
    SplitJoin(entry);
  }

  /** The entry the parse must give back. */
  function Shown(entry: seq<string>): Entry {
    if entry == [] then Entry("", "", [])
    else Entry(match HolderOf(entry[0]) case Some(holder) => holder case None => "", QueryOf(entry), entry[1..])
  }

  lemma ParseEmpty()
    ensures ParsePlanLog("") == ParsePlanLog(NL) == []
  {
    SplitLine("");
    assert forall k: nat :: !StartsAt(NL, SEPARATOR, k) && !StartsAt("", SEPARATOR, k);
    IndexOfFirst(NL, SEPARATOR, 0);
    IndexOfFirst("", SEPARATOR, 0);
    assert Split(NL, SEPARATOR) == [NL] && Split("", SEPARATOR) == [""];
    assert StripNewlines(NL) == StripNewlines(NL[1..]) == "";
    assert ParseChunk(NL) == [] && ParseChunk("") == [];
    assert ParseChunks([NL]) == ParseChunk(NL) + ParseChunks([]);
    assert ParseChunks([""]) == ParseChunk("") + ParseChunks([]);
  }

  lemma FreeAfterNewline(entry: seq<string>)
    requires Writable(entry)
    ensures Free(NL + Join(entry, NL))
  {
    var lines := [""] + entry;
    assert lines[1..] == entry;
    assert Join(lines, NL) == "" + NL + Join(entry, NL) == NL + Join(entry, NL);
    TagIsNoEnd(entry[0]);
    JoinFree(lines);
  }

  lemma TagIsNoEnd(tag: string)
    requires HolderOf(tag).Some?
    ensures !(END <= tag)
  {
    assert tag[..8] == TAG;
    assert tag[2] == TAG[2] != END[2];
  }

  /** What the parse must give back for the written entries. */
  function ShownAll(entries: seq<seq<string>>): seq<Entry> {
    if entries == [] then [] else [Shown(entries[0])] + ShownAll(entries[1..])
  }

  lemma FirstParsed(text: string, entry: seq<string>, rest: string)
    requires Free(text) && ParseChunk(text) == [Shown(entry)]
    ensures ParsePlanLog(text + SEPARATOR + rest) == [Shown(entry)] + ParsePlanLog(rest)
  {
    SplitFree(text, rest);
  }

  lemma Regroup(text: string, more: string)
    ensures text + SEPARATOR + NL + more == text + SEPARATOR + (NL + more)
    ensures NL + (text + SEPARATOR + NL + more) == (NL + text) + SEPARATOR + (NL + more)
  {
  }

  lemma WrittenParsed(entry: seq<string>, more: string)
    requires Writable(entry)
    ensures ParsePlanLog(Join(entry, NL) + SEPARATOR + NL + more) == [Shown(entry)] + ParsePlanLog(NL + more)
    ensures ParsePlanLog(NL + (Join(entry, NL) + SEPARATOR + NL + more)) == [Shown(entry)] + ParsePlanLog(NL + more)
  {
    var text := Join(entry, NL);
    JoinFree(entry);
    FreeAfterNewline(entry);
    ChunkParsed(entry);
    Regroup(text, more);
    FirstParsed(text, entry, NL + more);
    FirstParsed(NL + text, entry, NL + more);
  }

  /** The log round trip, also when read after the newline that ends a previous entry. */
  lemma {:induction false} ParseWritten(entries: seq<seq<string>>)
    requires forall e :: e in entries ==> Writable(e)
    ensures ParsePlanLog(Written(entries)) == ShownAll(entries)
    ensures ParsePlanLog(NL + Written(entries)) == ShownAll(entries)
  {
    if entries == [] {
      ParseEmpty();
      assert NL + "" == NL;
    } else {
      assert entries[0] in entries;
      ParseWritten(entries[1..]);
      WrittenParsed(entries[0], Written(entries[1..]));
    }
  }
}
