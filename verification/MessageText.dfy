/** What the reader of a message finds in it: the changes' texts, each in its own fenced block. */
module MessageText {
  import opened Text
  import opened LogText
  import opened Fences
  import opened Messages

  /** What surrounds a change's text: one line each, of which none opens a fence. */
  predicate OneLined(c: Change, leadIn: string) {
    && '\n' !in leadIn && !OpensFence(leadIn)
    && '\n' !in c.title && '\n' !in c.url && !OpensFence(c.url)
  }

  /** The lines a change takes in a message. */
  function ChangeLines(c: Change, leadIn: string): seq<string> {
    ChangeHead(c, leadIn) + FencedLines(c.userDocs, "markdown")
  }

  lemma {:induction false} DecimalNoNewline(n: nat)
    ensures '\n' !in Decimal(n)
  {
    if n >= 10 {
      DecimalNoNewline(n / 10);
    }
  }

  lemma {:induction false} SplitJoined(parts: seq<string>, last: string)
    requires forall i :: 0 <= i < |parts| ==> NoNewline(parts[i])
    ensures Split(Join(parts + [last], NL), NL) == parts + Split(last, NL)
  {
    if parts == [] {
      assert parts + [last] == [last];
    } else {
      var more := parts[1..] + [last];
      assert parts + [last] == [parts[0]] + more && more != [];
      SplitJoined(parts[1..], last);
      JoinCons(parts[0], more, NL);
      SplitAfterLine(parts[0], Join(more, NL));
      assert parts == [parts[0]] + parts[1..];
    }
  }

  lemma HeadUnbroken(c: Change, leadIn: string)
    requires OneLined(c, leadIn)
    ensures forall i :: 0 <= i < |ChangeHead(c, leadIn)| ==> NoNewline(ChangeHead(c, leadIn)[i])
  {
    DecimalNoNewline(c.number);
    var mark, gap := "### PR #", ": ";
    assert NoNewline(mark) && NoNewline(gap) && NoNewline(leadIn);
    JoinsUnbroken(mark, Decimal(c.number));
    JoinsUnbroken(mark + Decimal(c.number), gap);
    JoinsUnbroken(mark + Decimal(c.number) + gap, c.title);
  }

  lemma JoinsUnbroken(a: string, b: string)
    requires NoNewline(a) && NoNewline(b)
    ensures NoNewline(a + b)
  {
  }

  /** After any text, a change adds its lines. */
  lemma BlockLines(x: string, c: Change, leadIn: string)
    requires OneLined(c, leadIn)
    ensures Split(x + ChangeBlock(c, leadIn), NL) == Split(x, NL) + ChangeLines(c, leadIn)
  {
    var fence := Fence(c.userDocs, "markdown");
    var joined := Join(ChangeHead(c, leadIn) + [fence], NL);
    HeadUnbroken(c, leadIn);
    SplitJoined(ChangeHead(c, leadIn), fence);
    SplitFence(c.userDocs, "markdown");
    SplitBefore(x, joined);
    Associate(x, NL, joined);
  }

  // ---- reading a message ----

  /** What is read of the lines, whatever comes after them. */
  ghost predicate Settled(lines: seq<string>, read: seq<seq<string>>) {
    forall more :: Blocks(lines + more) == read + Blocks(more)
  }

  lemma SettledPlain(lines: seq<string>, read: seq<seq<string>>, plain: seq<string>)
    requires Settled(lines, read) && NoFence(plain)
    ensures Settled(lines + plain, read)
  {
    forall more ensures Blocks(lines + plain + more) == read + Blocks(more) {
      Associate(lines, plain, more);
      BlocksAfter(plain, more);
    }
  }

  lemma SettledFence(lines: seq<string>, read: seq<seq<string>>, text: string)
    requires Settled(lines, read)
    ensures Settled(lines + FencedLines(text, "markdown"), read + [Split(text, NL)])
  {
    forall more
      ensures Blocks(lines + FencedLines(text, "markdown") + more) == read + [Split(text, NL)] + Blocks(more)
    {
      FencedBlock(text, "markdown", more);
      SettledThen(lines, read, FencedLines(text, "markdown"), Split(text, NL), more);
    }
  }

  lemma SettledThen(
    lines: seq<string>, read: seq<seq<string>>, fenced: seq<string>, text: seq<string>, more: seq<string>)
    requires Settled(lines, read) && Blocks(fenced + more) == [text] + Blocks(more)
    ensures Blocks(lines + fenced + more) == read + [text] + Blocks(more)
  {
    Associate(lines, fenced, more);
    Associate(read, [text], Blocks(more));
  }

  lemma OpensNone(line: string)
    requires line == "" || (line[0] != ' ' && line[0] != '`' && line[0] != '~')
    ensures !OpensFence(line)
  {
    assert line[0..] == line;
  }

  lemma SettledChange(lines: seq<string>, read: seq<seq<string>>, c: Change, leadIn: string)
    requires Settled(lines, read) && OneLined(c, leadIn)
    ensures Settled(lines + ChangeLines(c, leadIn), read + [Split(c.userDocs, NL)])
  {
    HeadOpensNone(c, leadIn);
    SettledPlain(lines, read, ChangeHead(c, leadIn));
    SettledFence(lines + ChangeHead(c, leadIn), read, c.userDocs);
    Associate(lines, ChangeHead(c, leadIn), FencedLines(c.userDocs, "markdown"));
  }

  lemma HeadOpensNone(c: Change, leadIn: string)
    requires OneLined(c, leadIn)
    ensures NoFence(ChangeHead(c, leadIn))
  {
    var head := ChangeHead(c, leadIn);
    var heading := "### PR #" + Decimal(c.number) + ": " + c.title;
    assert heading[0] == "### PR #"[0] == '#';
    OpensNone(heading);
    OpensNone("");
    assert head == ["", heading, c.url, "", leadIn];
  }

  /** The texts of the changes `a` to `b`. */
  function TextsOf(changes: seq<Change>, a: nat, b: nat): seq<seq<string>>
    requires a <= b <= |changes|
  {
    if a == b then [] else TextsOf(changes, a, b - 1) + [Split(changes[b - 1].userDocs, NL)]
  }

  /** The blocks are those of the changes. */
  predicate Shows(run: Run, changes: seq<Change>) {
    run.blocks == BlocksOf(changes, run.leadIn) &&
    forall k :: 0 <= k < |changes| ==> OneLined(changes[k], run.leadIn)
  }

  ghost predicate ReadsTo(
    run: Run, changes: seq<Change>, opening: string, read: seq<seq<string>>, a: nat, b: nat)
    requires |run.blocks| == |changes| && a <= b <= |changes|
  {
    Settled(Split(opening + Between(run.blocks, a, b), NL), read + TextsOf(changes, a, b))
  }

  lemma NothingRead(run: Run, changes: seq<Change>, opening: string, read: seq<seq<string>>, a: nat)
    requires |run.blocks| == |changes| && a <= |changes| && Settled(Split(opening, NL), read)
    ensures ReadsTo(run, changes, opening, read, a, a)
  {
    assert opening + "" == opening && read + [] == read;
  }

  lemma ReadsOn(run: Run, changes: seq<Change>, opening: string, read: seq<seq<string>>, a: nat, b: nat)
    requires Shows(run, changes) && a < b <= |changes| && ReadsTo(run, changes, opening, read, a, b - 1)
    ensures ReadsTo(run, changes, opening, read, a, b)
  {
    BlockAdds(
      opening, Between(run.blocks, a, b - 1), run.blocks[b - 1], changes[b - 1], run.leadIn,
      read, TextsOf(changes, a, b - 1));
  }

  lemma BlockAdds(
    opening: string, text: string, block: string, c: Change, leadIn: string,
    read: seq<seq<string>>, texts: seq<seq<string>>)
    requires block == ChangeBlock(c, leadIn) && OneLined(c, leadIn) && Settled(Split(opening + text, NL), read + texts)
    ensures Settled(Split(opening + (text + block), NL), read + (texts + [Split(c.userDocs, NL)]))
  {
    OneMore(opening + text, c, leadIn, read + texts);
    Associate(opening, text, block);
    Associate(read, texts, [Split(c.userDocs, NL)]);
  }

  lemma {:induction false} PartReads(
    run: Run, changes: seq<Change>, opening: string, read: seq<seq<string>>, a: nat, b: nat)
    requires Shows(run, changes) && Settled(Split(opening, NL), read) && a <= b <= |changes|
    ensures ReadsTo(run, changes, opening, read, a, b)
    decreases b
  {
    if a == b {
      NothingRead(run, changes, opening, read, a);
    } else {
      PartReads(run, changes, opening, read, a, b - 1);
      ReadsOn(run, changes, opening, read, a, b);
    }
  }

  lemma OneMore(text: string, c: Change, leadIn: string, read: seq<seq<string>>)
    requires Settled(Split(text, NL), read) && OneLined(c, leadIn)
    ensures Settled(Split(text + ChangeBlock(c, leadIn), NL), read + [Split(c.userDocs, NL)])
  {
    BlockLines(text, c, leadIn);
    SettledChange(Split(text, NL), read, c, leadIn);
  }

  /** The fixed texts open no fence of their own but for the head's release notes, which it closes. */
  ghost predicate Quiet(run: Run, notes: seq<seq<string>>) {
    && Settled(Split(run.head, NL), notes)
    && (forall i :: 0 < i ==> NoFence(Split(Continuation(run, i), NL)))
    && (exists end :: run.closing == NL + end && NoFence(Split(end, NL)))
  }

  lemma ClosingReads(text: string, read: seq<seq<string>>, closing: string, end: string)
    requires Settled(Split(text, NL), read) && closing == NL + end && NoFence(Split(end, NL))
    ensures Settled(Split(text + closing, NL), read)
  {
    SplitBefore(text, end);
    Associate(text, NL, end);
    SettledPlain(Split(text, NL), read, Split(end, NL));
  }

  lemma SettledAlone(lines: seq<string>, read: seq<seq<string>>)
    requires Settled(lines, read)
    ensures Blocks(lines) == read
  {
    assert lines + [] == lines && read + Blocks([]) == read;
  }

  lemma NothingSettled(lines: seq<string>)
    requires NoFence(lines)
    ensures Settled(lines, [])
  {
    forall more ensures Blocks(lines + more) == [] + Blocks(more) {
      BlocksAfter(lines, more);
    }
  }

  /**
    The fenced blocks that a reader finds in each message are exactly the texts of the changes in
    it, whole and in order, after the release notes in the first: no text opens, closes or
    swallows a block of another.
   */
  lemma MessagesReadBack(
    run: Run, changes: seq<Change>, notes: seq<seq<string>>, messages: seq<string>)
    returns (cuts: seq<nat>)
    requires Packs(run, messages) && Shows(run, changes) && Quiet(run, notes)
    ensures Greedy(run, cuts) && |cuts| == |messages| + 1
    ensures forall i :: 0 <= i < |messages| ==>
                          && Ordered(cuts, i, |changes|)
                          && Blocks(Split(messages[i], NL)) ==
                             (if i == 0 then notes else []) + TextsOf(changes, cuts[i], cuts[i + 1])
  {
    cuts :| Greedy(run, cuts) && Renders(run, cuts, messages);
    var end :| run.closing == NL + end && NoFence(Split(end, NL));
    forall i | 0 <= i < |messages|
      ensures Ordered(cuts, i, |changes|)
      ensures Blocks(Split(messages[i], NL)) == (if i == 0 then notes else []) + TextsOf(changes, cuts[i], cuts[i + 1])
    {
      assert Ordered(cuts, i, |run.blocks|);
      MessageReads(run, changes, notes, i, cuts[i], cuts[i + 1], end, i == |messages| - 1);
    }
  }

  lemma MessageReads(
    run: Run, changes: seq<Change>, notes: seq<seq<string>>, i: nat, a: nat, b: nat, end: string, last: bool)
    requires Shows(run, changes) && Quiet(run, notes) && a <= b <= |changes|
    requires run.closing == NL + end && NoFence(Split(end, NL))
    ensures Blocks(Split(Opening(run, i) + Between(run.blocks, a, b) + if last then run.closing else "", NL)) ==
            (if i == 0 then notes else []) + TextsOf(changes, a, b)
  {
    var opening, read := Opening(run, i), if i == 0 then notes else [];
    if i > 0 {
      NothingSettled(Split(opening, NL));
    }
    PartReads(run, changes, opening, read, a, b);
    var text := opening + Between(run.blocks, a, b);
    if last {
      ClosingReads(text, read + TextsOf(changes, a, b), run.closing, end);
      SettledAlone(Split(text + run.closing, NL), read + TextsOf(changes, a, b));
    } else {
      assert text + "" == text;
      SettledAlone(Split(text, NL), read + TextsOf(changes, a, b));
    }
  }

  /** A head that holds the release notes in a fenced block. */
  lemma HeadReads(before: string, notes: string, after: string)
    requires NoFence(Split(before, NL)) && NoFence(Split(after, NL))
    ensures Settled(Split(before + NL + Fence(notes, "markdown") + NL + after, NL), [Split(notes, NL)])
  {
    var fence := Fence(notes, "markdown");
    SplitFence(notes, "markdown");
    SplitBefore(before, fence);
    SplitBefore(before + NL + fence, after);
    NothingSettled(Split(before, NL));
    SettledFence(Split(before, NL), [], notes);
    assert [] + [Split(notes, NL)] == [Split(notes, NL)];
    SettledPlain(Split(before, NL) + FencedLines(notes, "markdown"), [Split(notes, NL)], Split(after, NL));
  }
}
