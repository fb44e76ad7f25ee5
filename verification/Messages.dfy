/** Packing the changes of a release into chat messages of bounded size. */
module Messages {
  import opened Text
  import opened Fences

  const MAX_MESSAGE_CHARS: nat := 45000

  /** A docs change as it is shown; the title has its white space squeezed. */
  datatype Change = Change(number: nat, title: string, url: string, userDocs: string)

  /** The lines of a change before its text; a blank one first. */
  function ChangeHead(c: Change, leadIn: string): seq<string> {
    ["", "### PR #" + Decimal(c.number) + ": " + c.title, c.url, "", leadIn]
  }

  /** A change as a message shows it; `leadIn` introduces its text. */
  function ChangeBlock(c: Change, leadIn: string): string {
    "\n" + Join(ChangeHead(c, leadIn) + [Fence(c.userDocs, "markdown")], "\n")
  }

  /**
    The fixed texts of a run: the head, what stands before and after the number of a later message,
    what introduces the text of a change, and the closing text.
   */
  datatype Run = Run(
    head: string, before: string, after: string, leadIn: string, closing: string, blocks: seq<string>)

  function BlocksOf(changes: seq<Change>, leadIn: string): seq<string> {
    seq(|changes|, i requires 0 <= i < |changes| => ChangeBlock(changes[i], leadIn))
  }

  function Continuation(run: Run, i: nat): string {
    run.before + Decimal(i) + run.after
  }

  /** What message `i` opens with. */
  function Opening(run: Run, i: nat): string {
    if i == 0 then run.head else Continuation(run, i + 1)
  }

  /** The guard every change must pass. */
  predicate Short(run: Run, k: nat)
    requires k < |run.blocks|
  {
    |Continuation(run, 99)| + |run.blocks[k]| + |run.closing| <= MAX_MESSAGE_CHARS
  }

  /** The length of the first `k` blocks. */
  function Length(blocks: seq<string>, k: nat): nat
    requires k <= |blocks|
  {
    if k == 0 then 0 else Length(blocks, k - 1) + |blocks[k - 1]|
  }

  lemma {:induction false} LengthGrows(blocks: seq<string>, a: nat, b: nat)
    requires a <= b <= |blocks|
    ensures Length(blocks, a) <= Length(blocks, b)
    decreases b
  {
    if a < b {
      LengthGrows(blocks, a, b - 1);
    }
  }

  /** The blocks `a` to `b`, as one text. */
  function Between(blocks: seq<string>, a: nat, b: nat): string
    requires a <= b <= |blocks|
  {
    if a == b then "" else Between(blocks, a, b - 1) + blocks[b - 1]
  }

  lemma {:induction false} BetweenLength(blocks: seq<string>, a: nat, b: nat)
    requires a <= b <= |blocks|
    ensures |Between(blocks, a, b)| == Length(blocks, b) - Length(blocks, a)
    decreases b
  {
    if a < b {
      BetweenLength(blocks, a, b - 1);
    }
  }

  // ---- splits ----

  predicate Ordered(cuts: seq<nat>, i: nat, n: nat)
    requires i + 1 < |cuts|
  {
    cuts[i] <= cuts[i + 1] <= n
  }

  /** A split of the blocks, in order: part `i` holds the blocks from `cuts[i]` to `cuts[i + 1]`. */
  ghost predicate Splits(cuts: seq<nat>, n: nat) {
    && |cuts| >= 2 && cuts[0] == 0 && cuts[|cuts| - 1] == n
    && forall i :: 0 <= i < |cuts| - 1 ==> Ordered(cuts, i, n)
  }

  /** What part `i` would weigh with the blocks `a` to `b` and room kept for the closing text. */
  function Weight(run: Run, i: nat, a: nat, b: nat): int
    requires a <= |run.blocks| && b <= |run.blocks|
  {
    |Opening(run, i)| + Length(run.blocks, b) - Length(run.blocks, a) + |run.closing|
  }

  /** A part holds more than its opening and one block only when that fits; only the first may hold none. */
  predicate Fitted(run: Run, i: nat, a: nat, b: nat)
    requires a <= b <= |run.blocks|
  {
    || (Weight(run, i, a, b) <= MAX_MESSAGE_CHARS && a < b)
    || (i == 0 && a == b == 0)
    || (i > 0 && b == a + 1)
  }

  predicate FittedAt(run: Run, cuts: seq<nat>, i: nat)
    requires i + 1 < |cuts| && Ordered(cuts, i, |run.blocks|)
  {
    Fitted(run, i, cuts[i], cuts[i + 1])
  }

  /** The next block would not have fitted into part `i`. */
  predicate Full(run: Run, cuts: seq<nat>, i: nat)
    requires i + 1 < |cuts| && Ordered(cuts, i, |run.blocks|)
  {
    cuts[i + 1] < |run.blocks| && Weight(run, i, cuts[i], cuts[i + 1] + 1) > MAX_MESSAGE_CHARS
  }

  /** How the greedy loop splits: a part is cut only when it is full. */
  ghost predicate Greedy(run: Run, cuts: seq<nat>) {
    && Splits(cuts, |run.blocks|)
    && (forall i :: 0 <= i < |cuts| - 1 ==> FittedAt(run, cuts, i))
    && (forall i :: 0 <= i < |cuts| - 2 ==> Full(run, cuts, i))
  }

  function Part(run: Run, cuts: seq<nat>, i: nat): string
    requires i + 1 < |cuts| && Ordered(cuts, i, |run.blocks|)
  {
    Opening(run, i) + Between(run.blocks, cuts[i], cuts[i + 1])
  }

  /** Message `i` holds part `i`, in order, and only the last one holds the closing text. */
  ghost predicate Renders(run: Run, cuts: seq<nat>, messages: seq<string>) {
    && Splits(cuts, |run.blocks|) && |messages| == |cuts| - 1
    && forall i :: 0 <= i < |messages| ==>
                     messages[i] == Part(run, cuts, i) + if i == |messages| - 1 then run.closing else ""
  }

  ghost predicate Packs(run: Run, messages: seq<string>) {
    exists cuts :: Greedy(run, cuts) && Renders(run, cuts, messages)
  }

  datatype Outcome = Packed(messages: seq<string>) | TooLong(block: nat)

  method BuildReleaseMessages(run: Run) returns (r: Outcome)
    ensures match r
            case TooLong(k) => k < |run.blocks| && !Short(run, k) && forall j :: 0 <= j < k ==> Short(run, j)
            case Packed(messages) =>
              && (forall k :: 0 <= k < |run.blocks| ==> Short(run, k))
              && if run.blocks == [] then messages == [] else Packs(run, messages)
  {
    if run.blocks == [] {
      return Packed([]);
    }
    var messages := [];
    var current := run.head;
    ghost var cuts: seq<nat> := [0];
    assert run.head + "" == run.head;
    for k := 0 to |run.blocks|
      invariant forall j :: 0 <= j < k ==> Short(run, j)
      invariant Loop(run, cuts, k, messages, current)
      invariant k > 0 ==> Held(run, |messages|, cuts[|messages|], k)
      invariant k == 0 ==> messages == []
    {
      var block := run.blocks[k];
      if |Continuation(run, 99)| + |block| + |run.closing| > MAX_MESSAGE_CHARS {
        return TooLong(k);
      }
      if |current| + |block| + |run.closing| > MAX_MESSAGE_CHARS {
        CutHere(run, cuts, k, messages, current);
        messages := messages + [current];
        current := Continuation(run, |messages| + 1);
        cuts := cuts + [k];
      }
      Advance(run, cuts, k, messages, current);
      current := current + block;
    }
    Finish(run, cuts, messages, current);
    return Packed(messages + [current + run.closing]);
  }

  /** A part that is full and whose text is `text`. */
  predicate Closed(run: Run, cuts: seq<nat>, i: nat, text: string) {
    && i + 1 < |cuts| && Ordered(cuts, i, |run.blocks|)
    && FittedAt(run, cuts, i) && Full(run, cuts, i) && text == Part(run, cuts, i)
  }

  predicate Held(run: Run, i: nat, a: nat, b: nat) {
    a < b <= |run.blocks| && Fitted(run, i, a, b)
  }

  /** The loop has read `k` blocks: all parts but one are closed, and `current` is the text of that one. */
  ghost predicate Loop(run: Run, cuts: seq<nat>, k: nat, messages: seq<string>, current: string) {
    && |cuts| == |messages| + 1 && cuts[0] == 0 && cuts[|messages|] <= k <= |run.blocks|
    && current == Opening(run, |messages|) + Between(run.blocks, cuts[|messages|], k)
    && forall i :: 0 <= i < |messages| ==> Closed(run, cuts, i, messages[i])
  }

  lemma CloseLast(run: Run, cuts: seq<nat>, k: nat, n: nat, current: string)
    requires |cuts| == n + 1 && cuts[n] <= k < |run.blocks|
    requires Fitted(run, n, cuts[n], k)
    requires current == Opening(run, n) + Between(run.blocks, cuts[n], k)
    requires |current| + |run.blocks[k]| + |run.closing| > MAX_MESSAGE_CHARS
    ensures Closed(run, cuts + [k], n, current)
  {
    BetweenLength(run.blocks, cuts[n], k);
    assert (cuts + [k])[n] == cuts[n] && (cuts + [k])[n + 1] == k;
  }

  lemma CutHere(run: Run, cuts: seq<nat>, k: nat, messages: seq<string>, current: string)
    requires Loop(run, cuts, k, messages, current) && k < |run.blocks|
    requires if k == 0 then messages == [] else Held(run, |messages|, cuts[|messages|], k)
    requires |current| + |run.blocks[k]| + |run.closing| > MAX_MESSAGE_CHARS
    ensures Loop(run, cuts + [k], k, messages + [current], Continuation(run, |messages| + 2))
  {
    var n := |messages|;
    CloseLast(run, cuts, k, n, current);
    assert (cuts + [k])[n + 1] == k;
    assert Continuation(run, n + 2) + "" == Continuation(run, n + 2);
    forall i | 0 <= i < n + 1 ensures Closed(run, cuts + [k], i, (messages + [current])[i]) {
      if i < n {
        assert Closed(run, cuts + [k], i, messages[i]);
      }
    }
  }

  lemma Advance(run: Run, cuts: seq<nat>, k: nat, messages: seq<string>, current: string)
    requires Loop(run, cuts, k, messages, current) && k < |run.blocks|
    requires (messages != [] && cuts[|messages|] == k) ||
             |current| + |run.blocks[k]| + |run.closing| <= MAX_MESSAGE_CHARS
    ensures Loop(run, cuts, k + 1, messages, current + run.blocks[k])
    ensures Held(run, |messages|, cuts[|messages|], k + 1)
  {
    var start := cuts[|messages|];
    BetweenLength(run.blocks, start, k);
    var opening, held := Opening(run, |messages|), Between(run.blocks, start, k);
    assert opening + held + run.blocks[k] == opening + (held + run.blocks[k]);
  }

  lemma Finish(run: Run, cuts: seq<nat>, messages: seq<string>, current: string)
    requires Loop(run, cuts, |run.blocks|, messages, current) && Held(run, |messages|, cuts[|messages|], |run.blocks|)
    ensures Packs(run, messages + [current + run.closing])
  {
    var n := |messages|;
    var all := cuts + [|run.blocks|];
    var written := messages + [current + run.closing];
    assert all[n] == cuts[n] && all[n + 1] == |run.blocks|;
    forall i | 0 <= i < n + 1
      ensures Ordered(all, i, |run.blocks|) && FittedAt(run, all, i) && (i < n ==> Full(run, all, i))
      ensures written[i] == Part(run, all, i) + if i == n then run.closing else ""
    {
      if i < n {
        assert Closed(run, all, i, messages[i]);
        assert messages[i] + "" == messages[i];
      }
    }
    assert Splits(all, |run.blocks|);
    assert Greedy(run, all);
    assert Renders(run, all, written);
  }

  // ---- every block once, in order ----

  lemma {:induction false} BetweenJoins(blocks: seq<string>, a: nat, b: nat, c: nat)
    requires a <= b <= c <= |blocks|
    ensures Between(blocks, a, c) == Between(blocks, a, b) + Between(blocks, b, c)
    decreases c
  {
    if b < c {
      BetweenJoins(blocks, a, b, c - 1);
    }
  }

  /**
    Message `i` is the head, or what carries its number counted from 1, then a body, and the closing
    text when it is the last.
   */
  ghost predicate Bodied(run: Run, messages: seq<string>, bodies: seq<string>) {
    && |bodies| == |messages|
    && forall i :: 0 <= i < |messages| ==>
         messages[i] ==
         (if i == 0 then run.head else run.before + Decimal(i + 1) + run.after)
         + bodies[i] + (if i == |messages| - 1 then run.closing else "")
  }

  lemma {:induction false} BodiesUpTo(run: Run, cuts: seq<nat>, k: nat) returns (bodies: seq<string>)
    requires Splits(cuts, |run.blocks|) && k < |cuts|
    ensures |bodies| == k && cuts[k] <= |run.blocks| && Concat(bodies) == Between(run.blocks, 0, cuts[k])
    ensures forall i :: 0 <= i < k ==>
              Ordered(cuts, i, |run.blocks|) && bodies[i] == Between(run.blocks, cuts[i], cuts[i + 1])
  {
    if k == 0 {
      bodies := [];
    } else {
      var front := BodiesUpTo(run, cuts, k - 1);
      assert Ordered(cuts, k - 1, |run.blocks|);
      var body := Between(run.blocks, cuts[k - 1], cuts[k]);
      BetweenJoins(run.blocks, 0, cuts[k - 1], cuts[k]);
      ConcatLast(front, body);
      bodies := front + [body];
    }
  }

  lemma ConcatLast(front: seq<string>, body: string)
    ensures Concat(front + [body]) == Concat(front) + body
  {
    ConcatAppend(front, [body]);
    assert [body][1..] == [];
    assert Concat([body]) == body + "" == body;
  }

  /**
    Together the messages hold every block exactly once, in order, and nothing else but openings and the
    closing text.
   */
  lemma AllBlocksOnce(run: Run, messages: seq<string>) returns (bodies: seq<string>)
    requires Packs(run, messages)
    ensures Bodied(run, messages, bodies) && Concat(bodies) == Between(run.blocks, 0, |run.blocks|)
  {
    var cuts :| Greedy(run, cuts) && Renders(run, cuts, messages);
    bodies := BodiesUpTo(run, cuts, |cuts| - 1);
    forall i | 0 <= i < |messages|
      ensures messages[i] == Opening(run, i) + bodies[i] + if i == |messages| - 1 then run.closing else ""
    {
      assert Ordered(cuts, i, |run.blocks|);
    }
  }

  // ---- a change tells ----

  lemma {:induction false} DecimalDigits(n: nat)
    ensures Decimal(n) != [] && forall i :: 0 <= i < |Decimal(n)| ==> IsDigit(Decimal(n)[i])
  {
    if n >= 10 {
      DecimalDigits(n / 10);
    }
  }

  lemma {:induction false} DecimalTells(m: nat, n: nat)
    requires Decimal(m) == Decimal(n)
    ensures m == n
  {
    var s := Decimal(m);
    DecimalDigits(m / 10);
    DecimalDigits(n / 10);
    if m >= 10 || n >= 10 {
      assert |s| >= 2;
      assert s[..|s| - 1] == Decimal(m / 10) == Decimal(n / 10);
      DecimalTells(m / 10, n / 10);
    }
  }

  /** Text before the first character that is no digit. */
  lemma DigitsTell(a: string, x: string, b: string, y: string)
    requires (forall i :: 0 <= i < |a| ==> IsDigit(a[i])) && (forall i :: 0 <= i < |b| ==> IsDigit(b[i]))
    requires x != [] && !IsDigit(x[0]) && y != [] && !IsDigit(y[0]) && a + x == b + y
    ensures a == b && x == y
  {
    var s := a + x;
    assert s[|a|] == x[0] && s[|b|] == y[0];
    assert forall i :: 0 <= i < |a| ==> s[i] == a[i] && IsDigit(s[i]);
    assert forall i :: 0 <= i < |b| ==> s[i] == b[i] && IsDigit(s[i]);
    assert s[..|a|] == a && s[..|b|] == b && s[|a|..] == x && s[|b|..] == y;
  }

  lemma Stripped(mark: string, a: string, b: string)
    requires mark + a == mark + b
    ensures a == b
  {
    assert (mark + a)[|mark|..] == a && (mark + b)[|mark|..] == b;
  }

  /** The lines before a change's text tell its number, its title and its address. */
  lemma HeadTells(c: Change, d: Change, leadIn: string)
    requires ChangeHead(c, leadIn) == ChangeHead(d, leadIn)
    ensures c.number == d.number && c.title == d.title && c.url == d.url
  {
    var mark, gap := "### PR #", ": ";
    var n, m := Decimal(c.number), Decimal(d.number);
    assert ChangeHead(c, leadIn)[1] == ChangeHead(d, leadIn)[1] && ChangeHead(c, leadIn)[2] == ChangeHead(d, leadIn)[2];
    assert mark + n + gap + c.title == mark + (n + (gap + c.title));
    assert mark + m + gap + d.title == mark + (m + (gap + d.title));
    Stripped(mark, n + (gap + c.title), m + (gap + d.title));
    DecimalDigits(c.number);
    DecimalDigits(d.number);
    DigitsTell(n, gap + c.title, m, gap + d.title);
    DecimalTells(c.number, d.number);
    Stripped(gap, c.title, d.title);
  }

  // ---- the size bound ----

  lemma {:induction false} DecimalGrows(i: nat, j: nat)
    requires i <= j
    ensures 1 <= |Decimal(i)| <= |Decimal(j)|
    decreases j
  {
    if j >= 10 {
      DecimalGrows(if i < 10 then 0 else i / 10, j / 10);
    }
  }

  /** How much longer the number of part `n` is than the two digits the guard allows for. */
  function Extra(n: nat): nat {
    if |Decimal(n)| > 2 then |Decimal(n)| - 2 else 0
  }

  lemma NumberLength(i: nat, n: nat)
    requires i < n
    ensures |Decimal(i + 1)| <= 2 + Extra(n) && (n <= 99 ==> Extra(n) == 0)
  {
    DecimalGrows(i + 1, n);
    if n <= 99 {
      DecimalGrows(n, 99);
    }
  }

  /** Part `i` holds a single block, behind a continuation. */
  predicate Single(run: Run, cuts: seq<nat>, i: nat)
    requires i + 1 < |cuts| && Ordered(cuts, i, |run.blocks|)
  {
    i > 0 && cuts[i + 1] == cuts[i] + 1
  }

  /** What a message weighs: its part, and the closing text when it is the last. */
  function Size(run: Run, cuts: seq<nat>, i: nat): nat
    requires i + 1 < |cuts| && Ordered(cuts, i, |run.blocks|)
  {
    |Part(run, cuts, i)| + if i + 2 == |cuts| then |run.closing| else 0
  }

  /** Only a head alone, or a single block, is ever written without room having been checked for it. */
  lemma SizeFits(run: Run, cuts: seq<nat>, i: nat)
    requires Greedy(run, cuts) && run.blocks != [] && i < |cuts| - 1
    ensures Ordered(cuts, i, |run.blocks|)
    ensures i == 0 ==> (Size(run, cuts, 0) <= MAX_MESSAGE_CHARS <==> |run.head| <= MAX_MESSAGE_CHARS)
    ensures i > 0 && !Single(run, cuts, i) ==> Size(run, cuts, i) <= MAX_MESSAGE_CHARS
    ensures Single(run, cuts, i) ==> |Part(run, cuts, i)| == |Continuation(run, i + 1)| + |run.blocks[cuts[i]]|
  {
    assert Ordered(cuts, i, |run.blocks|) && FittedAt(run, cuts, i);
    BetweenLength(run.blocks, cuts[i], cuts[i + 1]);
  }

  ghost predicate AllFit(messages: seq<string>) {
    forall i :: 0 <= i < |messages| ==> |messages[i]| <= MAX_MESSAGE_CHARS
  }

  /** A message that is neither the first nor the last fits, whatever its number of digits. */
  lemma InnerFits(run: Run, cuts: seq<nat>, i: nat)
    requires Greedy(run, cuts) && run.blocks != [] && 0 < i < |cuts| - 2
    requires Extra(|cuts| - 1) <= |run.closing| && forall k :: 0 <= k < |run.blocks| ==> Short(run, k)
    ensures Ordered(cuts, i, |run.blocks|) && Size(run, cuts, i) <= MAX_MESSAGE_CHARS
  {
    assert Ordered(cuts, i, |run.blocks|);
    SizeFits(run, cuts, i);
    NumberLength(i, |cuts| - 1);
    if Single(run, cuts, i) {
      assert Short(run, cuts[i]);
    }
  }

  /** The last message, alone and behind a number of more than two digits, may not have room for the closing text. */
  ghost predicate LastFits(run: Run, cuts: seq<nat>)
    requires Greedy(run, cuts)
  {
    var last := |cuts| - 2;
    Ordered(cuts, last, |run.blocks|) && Single(run, cuts, last) && last >= 99 ==>
      |Continuation(run, last + 1)| + |run.blocks[cuts[last]]| + |run.closing| <= MAX_MESSAGE_CHARS
  }

  lemma LastFitsIff(run: Run, cuts: seq<nat>)
    requires Greedy(run, cuts) && run.blocks != [] && |cuts| > 2
    requires forall k :: 0 <= k < |run.blocks| ==> Short(run, k)
    ensures Ordered(cuts, |cuts| - 2, |run.blocks|)
    ensures Size(run, cuts, |cuts| - 2) <= MAX_MESSAGE_CHARS <==> LastFits(run, cuts)
  {
    var last := |cuts| - 2;
    assert Ordered(cuts, last, |run.blocks|);
    SizeFits(run, cuts, last);
    NumberLength(last, last + 1);
    if Single(run, cuts, last) {
      assert Short(run, cuts[last]);
    }
  }

  /**
    No message is longer than the limit exactly when the head alone is not and, with a hundred
    messages or more of which the last holds one block, that one has room for the closing text.
    So no message between the first and the last is ever too long.
   */
  lemma AllFitIff(run: Run, cuts: seq<nat>, messages: seq<string>)
    requires run.blocks != [] && Greedy(run, cuts) && Renders(run, cuts, messages)
    requires Extra(|messages|) <= |run.closing| && forall k :: 0 <= k < |run.blocks| ==> Short(run, k)
    ensures AllFit(messages) <==> |run.head| <= MAX_MESSAGE_CHARS && LastFits(run, cuts)
    ensures forall i :: 0 < i < |messages| - 1 ==> |messages[i]| <= MAX_MESSAGE_CHARS
  {
    var n := |messages|;
    forall i | 0 <= i < n ensures Ordered(cuts, i, |run.blocks|) && |messages[i]| == Size(run, cuts, i) {
      assert Ordered(cuts, i, |run.blocks|);
    }
    SizeFits(run, cuts, 0);
    forall i | 0 < i < n - 1 ensures |messages[i]| <= MAX_MESSAGE_CHARS {
      InnerFits(run, cuts, i);
    }
    if n > 1 {
      LastFitsIff(run, cuts);
    }
  }

  /** All parts but the first hold a block, so there is at most one part more than blocks. */
  lemma {:induction false} CutsGrow(run: Run, cuts: seq<nat>, i: nat)
    requires Greedy(run, cuts) && i < |cuts|
    ensures i <= cuts[i] + 1
  {
    if i > 0 {
      CutsGrow(run, cuts, i - 1);
      assert Ordered(cuts, i - 1, |run.blocks|) && FittedAt(run, cuts, i - 1);
      if i == 1 {
        assert cuts[0] == 0;
      }
    }
  }

  /**
    What can be checked before packing: the head fits, and so does the last block alone with the
    closing text, behind the highest number a message can have. Then every message fits.
   */
  lemma AllFitIf(run: Run, messages: seq<string>)
    requires run.blocks != [] && Packs(run, messages)
    requires Extra(|messages|) <= |run.closing| && forall k :: 0 <= k < |run.blocks| ==> Short(run, k)
    requires |run.head| <= MAX_MESSAGE_CHARS
    requires var n := |run.blocks|;
             |Continuation(run, n + 1)| + |run.blocks[n - 1]| + |run.closing| <= MAX_MESSAGE_CHARS
    ensures AllFit(messages)
  {
    var cuts :| Greedy(run, cuts) && Renders(run, cuts, messages);
    LastFitsIf(run, cuts);
    AllFitIff(run, cuts, messages);
  }

  lemma LastFitsIf(run: Run, cuts: seq<nat>)
    requires run.blocks != [] && Greedy(run, cuts)
    requires var n := |run.blocks|;
             |Continuation(run, n + 1)| + |run.blocks[n - 1]| + |run.closing| <= MAX_MESSAGE_CHARS
    ensures LastFits(run, cuts)
  {
    var last, n := |cuts| - 2, |run.blocks|;
    CutsGrow(run, cuts, last + 1);
    DecimalGrows(last + 1, n + 1);
    assert Ordered(cuts, last, n);
  }

  /** So with a head that fits and at most 99 messages, none is longer than the limit. */
  lemma SizeBound(run: Run, messages: seq<string>)
    requires run.blocks != [] && Packs(run, messages) && |messages| <= 99
    requires forall k :: 0 <= k < |run.blocks| ==> Short(run, k)
    ensures AllFit(messages) <==> |run.head| <= MAX_MESSAGE_CHARS
  {
    var cuts :| Greedy(run, cuts) && Renders(run, cuts, messages);
    NumberLength(0, |messages|);
    AllFitIff(run, cuts, messages);
  }

  /** Blocks that just pass the guard, behind a head that leaves no room for one. */
  predicate Tight(run: Run) {
    && |run.blocks| == 99
    && |run.closing| + |Continuation(run, 99)| + 2 <= MAX_MESSAGE_CHARS
    && |Continuation(run, 99)| < |run.head| <= MAX_MESSAGE_CHARS
    && forall k :: 0 <= k < |run.blocks| ==>
         |run.blocks[k]| == MAX_MESSAGE_CHARS - |run.closing| - |Continuation(run, 99)|
  }

  lemma TightPart(run: Run, cuts: seq<nat>, i: nat)
    requires Tight(run) && Greedy(run, cuts) && i < |cuts| - 1
    ensures Ordered(cuts, i, |run.blocks|) && cuts[i + 1] == if i == 0 then 0 else cuts[i] + 1
  {
    assert Ordered(cuts, i, |run.blocks|) && FittedAt(run, cuts, i);
    DecimalGrows(i + 1, i + 1);
    FirstBlocks(run.blocks, cuts[i], cuts[i + 1]);
  }

  lemma FirstBlocks(blocks: seq<string>, a: nat, b: nat)
    requires a <= b <= |blocks|
    ensures a + 1 <= b ==> Length(blocks, b) - Length(blocks, a) >= |blocks[a]|
    ensures a + 2 <= b ==> Length(blocks, b) - Length(blocks, a) >= |blocks[a]| + |blocks[a + 1]|
  {
    if a + 2 <= b {
      LengthGrows(blocks, a + 2, b);
      assert Length(blocks, a + 2) == Length(blocks, a + 1) + |blocks[a + 1]|;
    }
  }

  lemma {:induction false} TightCuts(run: Run, cuts: seq<nat>, i: nat)
    requires Tight(run) && Greedy(run, cuts) && 1 <= i < |cuts|
    ensures cuts[i] == i - 1
  {
    TightPart(run, cuts, i - 1);
    if i > 1 {
      TightCuts(run, cuts, i - 1);
    }
  }

  /** The bound on the number of messages is needed: the hundredth can exceed the limit, though every guard passes. */
  lemma HundredthTooLong(run: Run, messages: seq<string>)
    requires Tight(run) && Packs(run, messages)
    ensures forall k :: 0 <= k < |run.blocks| ==> Short(run, k)
    ensures |messages| == 100 && |messages[99]| == MAX_MESSAGE_CHARS + 1
  {
    var cuts :| Greedy(run, cuts) && Renders(run, cuts, messages);
    TightCuts(run, cuts, |cuts| - 1);
    TightPart(run, cuts, 99);
    TightCuts(run, cuts, 99);
    BetweenLength(run.blocks, 98, 99);
  }

  // ---- the fewest messages ----

  /** Another split that keeps the same room: every part with a block fits, closing text included. */
  ghost predicate Feasible(run: Run, cuts: seq<nat>) {
    && Splits(cuts, |run.blocks|)
    && forall i :: 0 <= i < |cuts| - 1 ==> FeasibleAt(run, cuts, i)
  }

  predicate FeasibleAt(run: Run, cuts: seq<nat>, i: nat)
    requires i + 1 < |cuts| && Ordered(cuts, i, |run.blocks|)
  {
    cuts[i] == cuts[i + 1] || Weight(run, i, cuts[i], cuts[i + 1]) <= MAX_MESSAGE_CHARS
  }

  /** The greedy split is never behind. */
  lemma {:induction false} StaysAhead(run: Run, greedy: seq<nat>, other: seq<nat>, i: nat)
    requires Greedy(run, greedy) && Feasible(run, other)
    requires i < |greedy| - 1 && i < |other|
    ensures other[i] <= greedy[i]
  {
    if i > 0 {
      StaysAhead(run, greedy, other, i - 1);
      assert Ordered(greedy, i - 1, |run.blocks|) && Full(run, greedy, i - 1);
      assert Ordered(other, i - 1, |run.blocks|) && FeasibleAt(run, other, i - 1);
      if other[i] > greedy[i] {
        LengthGrows(run.blocks, greedy[i] + 1, other[i]);
        LengthGrows(run.blocks, other[i - 1], greedy[i - 1]);
      }
    }
  }

  lemma NotYetDone(run: Run, greedy: seq<nat>, other: seq<nat>, i: nat)
    requires Greedy(run, greedy) && Feasible(run, other)
    requires 0 < i < |greedy| - 1 && i < |other|
    ensures other[i] < |run.blocks|
  {
    StaysAhead(run, greedy, other, i);
    assert Ordered(greedy, i - 1, |run.blocks|) && Full(run, greedy, i - 1);
  }

  /** No split in the same order, with the same room kept, uses fewer messages. */
  lemma FewestMessages(run: Run, greedy: seq<nat>, other: seq<nat>)
    requires Greedy(run, greedy) && Feasible(run, other)
    ensures |greedy| <= |other|
  {
    if |greedy| > |other| {
      NotYetDone(run, greedy, other, |other| - 1);
    }
  }
}
