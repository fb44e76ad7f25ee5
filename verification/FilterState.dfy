/** The stream filter's state as a value, its steps, and what every step keeps. */
module FilterState {
  import opened Text
  import opened PlanLines
  import opened KeepDecision
  import opened LogEntries
  import opened Rings

  // ---- what is held of an entry ----

  /** The head, the filtered middle, the scan block followed at the cut, and the last lines. */
  datatype Held = Held(head: seq<Line>, middle: seq<Line>, indent: int, last: seq<Line>)

  /** One more line: the oldest line of a full ring moves on to the middle, if the analyzer needs it. */
  ghost function Pushed(held: Held, headMax: nat, tailMax: nat, line: Line): Held
    requires tailMax > 0
  {
    if |held.head| < headMax then held.(head := held.head + [line], indent := Track(held.indent, line))
    else if |held.last| < tailMax then held.(last := held.last + [line])
    else
      var oldest := held.last[0];
      Held(held.head, if Keeps(held.indent, oldest) then held.middle + [oldest] else held.middle,
           Track(held.indent, oldest), held.last[1..] + [line])
  }

  /** What one pass over `entry` holds. */
  ghost function HeldOf(entry: seq<Line>, headMax: nat, tailMax: nat): Held
    requires tailMax > 0
  {
    if entry == [] then Held([], [], -1, [])
    else Pushed(HeldOf(entry[..|entry| - 1], headMax, tailMax), headMax, tailMax, entry[|entry| - 1])
  }

  /** The closed form of what is held. */
  ghost function Division(entry: seq<Line>, headMax: nat, tailMax: nat): Held {
    if |entry| <= headMax then Held(entry, [], TrackAll(-1, entry), [])
    else
      var open, out := TrackAll(-1, entry[..headMax]), headMax + Evicted(|entry|, headMax, tailMax);
      Held(entry[..headMax], Kept(open, entry[headMax..out]), TrackAll(open, entry[headMax..out]), entry[out..])
  }

  /**
    After any number of lines the head is the first of them, the ring the last ones in order, and
    the middle exactly the scans and their properties among the lines between.
   */
  lemma {:induction false} HeldIs(entry: seq<Line>, headMax: nat, tailMax: nat)
    requires headMax > 0 && tailMax > 0
    ensures HeldOf(entry, headMax, tailMax) == Division(entry, headMax, tailMax)
  {
    if entry != [] {
      var before, line := entry[..|entry| - 1], entry[|entry| - 1];
      HeldIs(before, headMax, tailMax);
      assert entry == before + [line];
      if |before| < headMax {
        DivisionHead(before, headMax, tailMax, line);
      } else if |before| < headMax + tailMax {
        DivisionTail(before, headMax, tailMax, line);
      } else {
        DivisionEvicts(before, headMax, tailMax, line);
      }
    }
  }

  lemma DivisionHead(before: seq<Line>, headMax: nat, tailMax: nat, line: Line)
    requires |before| < headMax && tailMax > 0
    ensures Pushed(Division(before, headMax, tailMax), headMax, tailMax, line) ==
            Division(before + [line], headMax, tailMax)
  {
    TrackAllAppend(-1, before, [line]);
    assert TrackAll(TrackAll(-1, before), [line]) == Track(TrackAll(-1, before), line);
  }

  lemma DivisionTail(before: seq<Line>, headMax: nat, tailMax: nat, line: Line)
    requires 0 < headMax <= |before| < headMax + tailMax
    ensures Pushed(Division(before, headMax, tailMax), headMax, tailMax, line) ==
            Division(before + [line], headMax, tailMax)
  {
    var next := before + [line];
    assert next[..headMax] == before[..headMax];
    assert |before| == headMax ==> before[..headMax] == before;
    assert next[headMax..] == before[headMax..] + [line];
  }

  lemma DivisionEvicts(before: seq<Line>, headMax: nat, tailMax: nat, line: Line)
    requires headMax > 0 && tailMax > 0 && |before| >= headMax + tailMax
    ensures Pushed(Division(before, headMax, tailMax), headMax, tailMax, line) ==
            Division(before + [line], headMax, tailMax)
  {
    var next, out := before + [line], |before| - tailMax;
    var open, segment, oldest := TrackAll(-1, before[..headMax]), before[headMax..out], before[out];
    assert next[..headMax] == before[..headMax];
    TrackAllAppend(open, segment, [oldest]);
    KeptAppend(open, segment, [oldest]);
    assert TrackAll(TrackAll(open, segment), [oldest]) == Track(TrackAll(open, segment), oldest);
    assert Kept(TrackAll(open, segment), [oldest]) == if Keeps(TrackAll(open, segment), oldest) then [oldest] else [];
    SegmentGrows(before, line, headMax, out);
    WindowMoves(before, line, out);
  }

  lemma SegmentGrows<T>(s: seq<T>, x: T, a: nat, b: nat)
    requires a <= b < |s|
    ensures (s + [x])[a..b + 1] == s[a..b] + [s[b]]
  {
    var t, u := (s + [x])[a..b + 1], s[a..b] + [s[b]];
    forall k | 0 <= k < |t| ensures t[k] == u[k] {
      assert t[k] == (s + [x])[a + k] == s[a + k];
    }
  }

  lemma WindowMoves<T>(s: seq<T>, x: T, b: nat)
    requires b < |s|
    ensures (s + [x])[b + 1..] == s[b..][1..] + [x]
  {
    var t, u := (s + [x])[b + 1..], s[b..][1..] + [x];
    forall k | 0 <= k < |t| ensures t[k] == u[k] {
      assert t[k] == (s + [x])[b + 1 + k];
      assert k < |s| - b - 1 ==> u[k] == s[b..][k + 1] == s[b + 1 + k];
    }
  }

  /** The scan flags after `entry`, whose tag line sets none. */
  ghost function FlagsOf(entry: seq<Line>): Flags {
    if |entry| <= 1 then START else Step(FlagsOf(entry[..|entry| - 1]), entry[|entry| - 1])
  }

  lemma {:induction false} FlagsOfIs(entry: seq<Line>)
    ensures FlagsOf(entry) == Read(START, Body(entry))
  {
    if |entry| > 1 {
      var before, line := entry[..|entry| - 1], entry[|entry| - 1];
      FlagsOfIs(before);
      ReadAppend(START, Body(before), [line]);
      assert Body(entry) == Body(before) + [line];
      assert Read(Read(START, Body(before)), [line]) == Step(Read(START, Body(before)), line);
    }
  }

  /** What is written of an entry, put together from what is held of it. */
  lemma ShortenedIs(entry: seq<Line>, headMax: nat, tailMax: nat)
    requires headMax > 0 && tailMax > 0
    ensures var held, dropped := HeldOf(entry, headMax, tailMax), Evicted(|entry|, headMax, tailMax);
            Shortened(entry, headMax, tailMax) ==
            held.head + (if dropped > 0 then [Mark(dropped)] else []) + held.middle + held.last
  {
    HeldIs(entry, headMax, tailMax);
  }

  // ---- the whole state and its steps ----

  /** The lines held of the entry being read, with the ring as it is stored. */
  datatype Window = Window(head: seq<Line>, tail: seq<Line>, middle: seq<Line>, scanIndent: int, count: nat)

  datatype State = State(seen: set<seq<Line>>, emitted: seq<seq<Line>>, keep: bool, window: Window, flags: Flags)

  const EMPTY := Window([], [], [], -1, 0)
  const FRESH := State({}, [], false, EMPTY, START)

  /** The ring holds as many lines as went into it, up to its size. */
  predicate Shape(w: Window, headMax: nat, tailMax: nat) {
    && headMax > 0 && tailMax > 0
    && |w.head| == (if w.count < headMax then w.count else headMax)
    && |w.tail| == (if w.count - |w.head| < tailMax then w.count - |w.head| else tailMax)
  }

  /** A line leaves the ring: keep it when the analyzer needs it to judge a scan. */
  function Evict(w: Window, line: Line): Window {
    w.(scanIndent := Track(w.scanIndent, line),
       middle := if Keeps(w.scanIndent, line) then w.middle + [line] else w.middle)
  }

  function Push(w: Window, headMax: nat, tailMax: nat, line: Line): Window
    requires Shape(w, headMax, tailMax)
  {
    var v := w.(count := w.count + 1);
    if w.count < headMax then v.(head := w.head + [line], scanIndent := Track(w.scanIndent, line))
    else
      var n := w.count - headMax;
      var u := v.(tail := Insert(w.tail, n, tailMax, line));
      if n < tailMax then u else Evict(u, w.tail[Slot(n, tailMax)])
  }

  function EntryText(w: Window, headMax: nat, tailMax: nat): seq<Line>
    requires Shape(w, headMax, tailMax)
  {
    var dropped := Evicted(w.count, headMax, tailMax);
    w.head + (if dropped > 0 then [Mark(dropped)] else []) + w.middle + Ordered(w.tail, w.count - |w.head|, tailMax)
  }

  function Emit(s: State, text: seq<Line>): State {
    if text in s.seen then s else s.(seen := s.seen + {text}, emitted := s.emitted + [text])
  }

  function Flush(s: State, headMax: nat, tailMax: nat): (t: State)
    requires Shape(s.window, headMax, tailMax)
    ensures Shape(t.window, headMax, tailMax)
  {
    var flags := EndIndexNode(s.flags);
    var t := if s.keep && (flags.hasSeq || flags.fullIndex) then Emit(s, EntryText(s.window, headMax, tailMax)) else s;
    State(t.seen, t.emitted, false, EMPTY, flags.(hasSeq := false, fullIndex := false))
  }

  /** One line of the log. */
  function Next(s: State, headMax: nat, tailMax: nat, raw: Raw): (t: State)
    requires Shape(s.window, headMax, tailMax)
    ensures Shape(t.window, headMax, tailMax)
  {
    match raw
    case OtherTag => Flush(s, headMax, tailMax)
    case Tag(line) =>
      var t := Flush(s, headMax, tailMax);
      t.(keep := true, window := Push(t.window, headMax, tailMax, line))
    case Dropped => s
    case Plan(line) =>
      if s.keep then s.(window := Push(s.window, headMax, tailMax, line), flags := Step(s.flags, line)) else s
  }

  function Run(log: seq<Raw>, headMax: nat, tailMax: nat): (s: State)
    requires headMax > 0 && tailMax > 0
    ensures Shape(s.window, headMax, tailMax)
  {
    if log == [] then FRESH else Next(Run(log[..|log| - 1], headMax, tailMax), headMax, tailMax, log[|log| - 1])
  }

  // ---- what every step keeps ----

  function HeldBy(w: Window, headMax: nat, tailMax: nat): Held
    requires Shape(w, headMax, tailMax)
  {
    Held(w.head, w.middle, w.scanIndent, Ordered(w.tail, w.count - |w.head|, tailMax))
  }

  /** The head, the middle and the ring are what one pass over `entry` holds, and no more. */
  ghost predicate Holds(w: Window, headMax: nat, tailMax: nat, entry: seq<Line>) {
    Shape(w, headMax, tailMax) && w.count == |entry| && HeldBy(w, headMax, tailMax) == HeldOf(entry, headMax, tailMax)
  }

  /** Equal but for the details of an index block that is not being read. */
  predicate SameFlags(f: Flags, g: Flags) {
    && f.hasSeq == g.hasSeq && f.fullIndex == g.fullIndex && f.inIndex == g.inIndex
    && (f.inIndex ==> f == g)
  }

  ghost function Pending(log: seq<Raw>): seq<Line> {
    if Open(log).Some? then Open(log).value else []
  }

  /** What was written is what the filter writes for `entries`. */
  ghost predicate Wrote(s: State, headMax: nat, tailMax: nat, entries: seq<seq<Line>>) {
    s.emitted == Emitted(entries, headMax, tailMax) && s.seen == (set e | e in s.emitted)
  }

  /** The state after `log`. */
  ghost predicate Reads(s: State, headMax: nat, tailMax: nat, log: seq<Raw>) {
    && Holds(s.window, headMax, tailMax, Pending(log))
    && s.keep == Open(log).Some?
    && SameFlags(s.flags, FlagsOf(Pending(log)))
    && Wrote(s, headMax, tailMax, Closed(log))
  }

  lemma PushHeld(w: Window, headMax: nat, tailMax: nat, line: Line)
    requires Shape(w, headMax, tailMax)
    ensures Shape(Push(w, headMax, tailMax, line), headMax, tailMax)
    ensures HeldBy(Push(w, headMax, tailMax, line), headMax, tailMax) ==
            Pushed(HeldBy(w, headMax, tailMax), headMax, tailMax, line)
  {
    if w.count >= headMax {
      InsertOrdered(w.tail, w.count - headMax, tailMax, line);
    }
  }

  lemma PushHolds(w: Window, headMax: nat, tailMax: nat, entry: seq<Line>, line: Line)
    requires Holds(w, headMax, tailMax, entry)
    ensures Holds(Push(w, headMax, tailMax, line), headMax, tailMax, entry + [line])
  {
    PushHeld(w, headMax, tailMax, line);
  }

  lemma TextIs(w: Window, headMax: nat, tailMax: nat, entry: seq<Line>)
    requires Holds(w, headMax, tailMax, entry)
    ensures EntryText(w, headMax, tailMax) == Shortened(entry, headMax, tailMax)
  {
    ShortenedIs(entry, headMax, tailMax);
  }

  /** Closing an entry writes it when the decision keeps it and it is new. */
  lemma FlushWrites(s: State, headMax: nat, tailMax: nat, entries: seq<seq<Line>>, entry: seq<Line>)
    requires Holds(s.window, headMax, tailMax, entry) && SameFlags(s.flags, FlagsOf(entry))
    requires Wrote(s, headMax, tailMax, entries)
    ensures Wrote(Flush(s, headMax, tailMax), headMax, tailMax, if s.keep then entries + [entry] else entries)
  {
    TextIs(s.window, headMax, tailMax, entry);
    FlagsKeep(s.flags, entry);
  }

  lemma FlagsKeep(f: Flags, entry: seq<Line>)
    requires SameFlags(f, FlagsOf(entry))
    ensures Decides(f) <==> KeepsPlan(Body(entry))
  {
    FlagsOfIs(entry);
  }

  lemma FlushReads(s: State, headMax: nat, tailMax: nat, log: seq<Raw>)
    requires Reads(s, headMax, tailMax, log)
    ensures Reads(Flush(s, headMax, tailMax), headMax, tailMax, log + [OtherTag])
  {
    LogAppend(log, OtherTag);
    FlushWrites(s, headMax, tailMax, Closed(log), Pending(log));
  }

  lemma TagReads(s: State, headMax: nat, tailMax: nat, log: seq<Raw>, line: Line)
    requires Reads(s, headMax, tailMax, log)
    ensures Reads(Next(s, headMax, tailMax, Tag(line)), headMax, tailMax, log + [Tag(line)])
  {
    LogAppend(log, Tag(line));
    LogAppend(log, OtherTag);
    FlushReads(s, headMax, tailMax, log);
  }

  lemma PlanReads(s: State, headMax: nat, tailMax: nat, log: seq<Raw>, line: Line)
    requires Reads(s, headMax, tailMax, log) && s.keep
    ensures Reads(Next(s, headMax, tailMax, Plan(line)), headMax, tailMax, log + [Plan(line)])
  {
    LogAppend(log, Plan(line));
    PushHolds(s.window, headMax, tailMax, Pending(log), line);
  }

  /** Every step keeps the state what the log says, whatever the lines are. */
  lemma NextReads(s: State, headMax: nat, tailMax: nat, log: seq<Raw>, raw: Raw)
    requires Reads(s, headMax, tailMax, log)
    ensures Reads(Next(s, headMax, tailMax, raw), headMax, tailMax, log + [raw])
  {
    match raw
    case OtherTag => FlushReads(s, headMax, tailMax, log);
    case Tag(line) => TagReads(s, headMax, tailMax, log, line);
    case Dropped => LogAppend(log, raw);
    case Plan(line) =>
      if s.keep {
        PlanReads(s, headMax, tailMax, log, line);
      } else {
        LogAppend(log, raw);
      }
  }

  /** Over every log, the state is what the log says. */
  lemma {:induction false} RunReads(log: seq<Raw>, headMax: nat, tailMax: nat)
    requires headMax > 0 && tailMax > 0
    ensures Reads(Run(log, headMax, tailMax), headMax, tailMax, log)
  {
    if log != [] {
      RunReads(log[..|log| - 1], headMax, tailMax);
      NextReads(Run(log[..|log| - 1], headMax, tailMax), headMax, tailMax, log[..|log| - 1], log[|log| - 1]);
      assert log == log[..|log| - 1] + [log[|log| - 1]];
    }
  }
}
