/**
  Policy terms whose literals hold parentheses. The code unwraps a term with its literals in place,
  so those parentheses count; it splits the term with its literals shielded, where they do not.
 */
module PolicyTerms {
  import opened Text
  import opened FilterText
  import opened FilterKey

  // ---- a text and its shadow ----

  /** The text with its literals shielded. */
  function Shadow(s: seq<Sym>): seq<Sym> {
    Shield(Lex(s), 0)
  }

  lemma {:induction false} ShieldPlain(p: seq<Sym>, s: seq<Sym>, n: nat)
    requires NoQuote(p)
    ensures Shield(Lex(p + s), n) == p + Shield(Lex(s), n)
  {
    if p == [] {
      assert p + s == s;
    } else {
      assert p + s == [p[0]] + (p[1..] + s);
      assert NoQuote(p[1..]);
      ShieldPlain(p[1..], s, n);
      LexPlain(p[0], p[1..] + s);
      assert ([Bare(p[0])] + Lex(p[1..] + s))[1..] == Lex(p[1..] + s);
    }
  }

  lemma QuoteOne(x: Sym)
    requires x != QUOTE
    ensures Quote([x]) == [QUOTE, x, QUOTE]
  {
    assert [x][1..] == [];
    assert Doubled([x], QUOTE) == [x];
  }

  lemma {:induction false} ShieldSuffix(s: seq<Sym>, q: seq<Sym>, n: nat)
    requires NoQuote(q)
    ensures Shield(Lex(s + q), n) == Shield(Lex(s), n) + q
    decreases |s|
  {
    if s == [] {
      ShieldPlain(q, [], n);
      assert s + q == q && q + [] == q;
    } else {
      EndBefore(s, q, 1, None);
      var end := if s[0] == QUOTE then LiteralEnd(s, 1, None) else None;
      var e := if end.Some? then end.value else 0;
      var m := if end.Some? then n + 1 else n;
      CutSuffix(s, q, e + 1);
      ShieldSuffix(s[e + 1..], q, m);
      ShieldFirst(s, n, end, e);
      ShieldFirst(s + q, n, end, e);
      Associate([if end.Some? then Ref(n) else s[0]], Shield(Lex(s[e + 1..]), m), q);
    }
  }

  lemma CutSuffix(s: seq<Sym>, q: seq<Sym>, k: nat)
    requires k <= |s|
    ensures (s + q)[k..] == s[k..] + q
  {
  }

  lemma ShieldFirst(s: seq<Sym>, n: nat, end: Option<nat>, e: nat)
    requires s != [] && end == (if s[0] == QUOTE then LiteralEnd(s, 1, None) else None)
    requires e == (if end.Some? then end.value else 0)
    ensures Shield(Lex(s), n) ==
            [if end.Some? then Ref(n) else s[0]] + Shield(Lex(s[e + 1..]), if end.Some? then n + 1 else n)
  {
    ShieldCons(if end.Some? then Quoted(s[..e + 1]) else Bare(s[0]), Lex(s[e + 1..]), n);
  }

  lemma ShieldCons(l: Lexeme, ls: seq<Lexeme>, n: nat)
    ensures Shield([l] + ls, n) ==
            match l case Bare(x) => [x] + Shield(ls, n) case Quoted(_) => [Ref(n)] + Shield(ls, n + 1)
  {
    assert ([l] + ls)[1..] == ls;
  }

  /** Text as it is written: characters only. */
  predicate Chars(s: seq<Sym>) {
    forall x :: x in s ==> x.Ch?
  }

  lemma ShadowAround(p: seq<Sym>, s: seq<Sym>, q: seq<Sym>)
    requires NoQuote(p) && NoQuote(q)
    ensures Shadow(p + s + q) == p + Shadow(s) + q
  {
    ShieldSuffix(p + s, q, 0);
    ShieldPlain(p, s, 0);
  }

  /** A symbol at the end of a text that can open or close, or be blank. */
  predicate Edge(x: Sym) {
    x == OPEN || x == CLOSE || IsBlank(x)
  }

  /** The shadow starts and ends with the same edge as the text, or with none when the text does. */
  lemma ShadowEnds(s: seq<Sym>)
    requires s != [] && Chars(s)
    ensures var t := Shadow(s);
            && t != []
            && (if Edge(s[0]) then t[0] == s[0] else !Edge(t[0]))
            && (if Edge(s[|s| - 1]) then t[|t| - 1] == s[|s| - 1] else !Edge(t[|t| - 1]))
  {
    var end := if s[0] == QUOTE then LiteralEnd(s, 1, None) else None;
    ShieldFirst(s, 0, end, if end.Some? then end.value else 0);
    LastEdge(s, 0);
  }

  lemma {:induction false} LastEdge(s: seq<Sym>, n: nat)
    requires s != [] && Chars(s)
    ensures var t := Shield(Lex(s), n);
            t != [] && if Edge(s[|s| - 1]) then t[|t| - 1] == s[|s| - 1] else !Edge(t[|t| - 1])
    decreases |s|
  {
    var end := if s[0] == QUOTE then LiteralEnd(s, 1, None) else None;
    var e := if end.Some? then end.value else 0;
    var m := if end.Some? then n + 1 else n;
    ShieldFirst(s, n, end, e);
    var rest := s[e + 1..];
    if rest != [] {
      assert forall x :: x in rest ==> x in s;
      LastEdge(rest, m);
      LastOfMore(if end.Some? then Ref(n) else s[0], Shield(Lex(rest), m));
      assert rest[|rest| - 1] == s[|s| - 1];
    } else {
      LiteralCloses(s, 1, None);
      assert Shield(Lex(rest), m) == [];
    }
  }

  lemma LastOfMore(x: Sym, t: seq<Sym>)
    requires t != []
    ensures ([x] + t)[|[x] + t| - 1] == t[|t| - 1]
  {
  }

  /** A match of the literal pattern ends at a quote. */
  lemma {:induction false} LiteralCloses(s: seq<Sym>, j: nat, passed: Option<nat>)
    requires passed.Some? ==> passed.value < |s| && s[passed.value] == QUOTE
    ensures LiteralEnd(s, j, passed).Some? ==> s[LiteralEnd(s, j, passed).value] == QUOTE
    decreases |s| - j
  {
    if j < |s| {
      if s[j] != QUOTE {
        LiteralCloses(s, j + 1, passed);
      } else if j + 1 < |s| && s[j + 1] == QUOTE {
        LiteralCloses(s, j + 2, Some(j));
      }
    }
  }

  // ---- trimming and wrapping ----

  /** What is trimmed: blanks around a text that is empty or ends in no blank. */
  lemma TrimmedBetween(p: seq<Sym>, t: seq<Sym>, q: seq<Sym>)
    requires Blanks(p) && Blanks(q) && (t != [] ==> !IsBlank(t[0]) && !IsBlank(t[|t| - 1]))
    ensures Trimmed(p + t + q) == t
  {
    var s := p + t + q;
    if t == [] {
      assert Blanks(s);
      TrimmedEmpty(s);
    } else {
      var a, b := TrimmedIs(s);
      var end := |p| + |t|;
      assert s[|p|] == t[0] && s[end - 1] == t[|t| - 1];
      assert forall i :: 0 <= i < |p| ==> s[i] == p[i] && p[i] in p;
      assert forall i :: end <= i < |s| ==> s[i] == q[i - end] && q[i - end] in q;
      assert a == |p| && b == end;
    }
  }

  lemma TrimParts(s: seq<Sym>) returns (p: seq<Sym>, q: seq<Sym>)
    ensures s == p + Trimmed(s) + q && Blanks(p) && Blanks(q)
    ensures Trimmed(s) != [] ==> !IsBlank(Trimmed(s)[0]) && !IsBlank(Trimmed(s)[|Trimmed(s)| - 1])
  {
    var a, b := TrimmedIs(s);
    p, q := s[..a], s[b..];
    assert s == p + s[a..b] + q;
    assert forall i :: 0 <= i < |q| ==> q[i] == s[b + i];
    var t := s[a..b];
    assert t != [] ==> t[0] == s[a] && t[|t| - 1] == s[b - 1];
  }

  lemma ShadowTrims(s: seq<Sym>)
    requires Chars(s)
    ensures Trimmed(Shadow(s)) == Shadow(Trimmed(s))
  {
    var p, q := TrimParts(s);
    var t := Trimmed(s);
    ShadowAround(p, t, q);
    if t != [] {
      assert forall x :: x in t ==> x in s;
      ShadowEnds(t);
    }
    TrimmedBetween(p, Shadow(t), q);
  }

  /** The first parenthesis closes at the end exactly when the depth is positive strictly within. */
  lemma WrappedIff(s: seq<Sym>)
    ensures Wrapped(s) <==>
            |s| >= 2 && s[0] == OPEN && Depth(s) == 0 && forall k :: 0 < k < |s| ==> Depth(s[..k]) > 0
  {
    if Wrapped(s) {
      WrappedLong(s);
    }
    if |s| >= 2 && s[0] == OPEN && Depth(s) == 0 && forall k :: 0 < k < |s| ==> Depth(s[..k]) > 0 {
      ClosingMatches(s, 0, 0);
      assert s[..|s|] == s;
    }
  }

  lemma Peel(s: seq<Sym>) returns (inner: seq<Sym>)
    requires Wrapped(s)
    ensures |s| >= 2 && inner == s[1..|s| - 1] && s == [OPEN] + inner + [CLOSE]
  {
    WrappedLong(s);
    inner := s[1..|s| - 1];
  }

  lemma ShadowPeels(inner: seq<Sym>)
    ensures Shadow([OPEN] + inner + [CLOSE]) == [OPEN] + Shadow(inner) + [CLOSE]
  {
    ShadowAround([OPEN], inner, [CLOSE]);
  }

  // ---- stripping too much ----

  /**
    The code takes away a pair that, but for the literals, encloses not the whole of what is left.
    `s` is trimmed.
   */
  predicate Overstrips(s: seq<Sym>)
    decreases |s|
  {
    if !Wrapped(s) then false
    else
      WrappedLong(s);
      var inner := s[1..|s| - 1];
      TrimmedShort(inner);
      !Wrapped(Shadow(s)) || Overstrips(Trimmed(inner))
  }

  /** Unless it does, splitting starts from the text its terms are shielded in, unwrapped. */
  lemma {:induction false} StripsAlike(s: seq<Sym>)
    requires Chars(s) && Trimmed(s) == s && !Overstrips(s)
    ensures Unwrap(Shadow(Strip(s))) == Strip(Shadow(s))
    decreases |s|
  {
    if Wrapped(s) {
      var inner := Peel(s);
      TrimmedShort(inner);
      ShadowPeels(inner);
      var t := Shadow(s);
      assert t[1..|t| - 1] == Shadow(inner);
      ShadowTrims(inner);
      TrimmedTwice(inner);
      TrimmedWithin(inner);
      StripsAlike(Trimmed(inner));
    } else {
      ShadowTrims(s);
    }
  }

  /** Opening parentheses and blanks; their closing counterpart. */
  predicate Openers(p: seq<Sym>) {
    forall x :: x in p ==> x == OPEN || IsBlank(x)
  }

  predicate Closers(q: seq<Sym>) {
    forall x :: x in q ==> x == CLOSE || IsBlank(x)
  }

  /** `s` stands in `t` between parentheses that open and close around it. */
  ghost predicate Nested(p: seq<Sym>, s: seq<Sym>, q: seq<Sym>, t: seq<Sym>) {
    t == p + s + q && Openers(p) && Closers(q)
  }

  lemma NestedTwice(p: seq<Sym>, s: seq<Sym>, q: seq<Sym>, t: seq<Sym>, u: seq<Sym>, r: seq<Sym>, v: seq<Sym>)
    requires Nested(p, s, q, t) && Nested(u, r, v, s)
    ensures Nested(p + u, r, v + q, t)
  {
  }

  /** What is stripped off: nothing, or parentheses of which the outermost are the text's own ends. */
  lemma {:induction false} StripNested(s: seq<Sym>) returns (p: seq<Sym>, q: seq<Sym>)
    ensures Nested(p, Strip(s), q, s)
    ensures Wrapped(s) ==> p != [] && p[0] == OPEN && q != [] && q[|q| - 1] == CLOSE
    decreases |s|
  {
    p, q := [], [];
    if Wrapped(s) {
      var inner := Peel(s);
      TrimmedShort(inner);
      var a, b := TrimParts(inner);
      var u, v := StripNested(Trimmed(inner));
      assert Nested([OPEN], inner, [CLOSE], s) && Nested(a, Trimmed(inner), b, inner);
      NestedTwice([OPEN], inner, [CLOSE], s, a, Trimmed(inner), b);
      NestedTwice([OPEN] + a, Trimmed(inner), b + [CLOSE], s, u, Strip(s), v);
      p, q := [OPEN] + a + u, v + (b + [CLOSE]);
    }
  }

  lemma EdgesNoQuote(p: seq<Sym>, q: seq<Sym>)
    requires Openers(p) && Closers(q)
    ensures NoQuote(p) && NoQuote(q)
  {
  }

  /**
    When it strips too much: what is split then is a part of the text the terms are in, between
    at least one opening and one closing parenthesis of it.
   */
  lemma {:induction false} OverstripsShape(s: seq<Sym>) returns (p: seq<Sym>, q: seq<Sym>)
    requires Chars(s) && Trimmed(s) == s && Overstrips(s)
    ensures Nested(p, Shadow(Strip(s)), q, Strip(Shadow(s)))
    ensures p != [] && p[0] == OPEN && q != [] && q[|q| - 1] == CLOSE
    ensures !Wrapped(Strip(Shadow(s)))
    decreases |s|
  {
    if Wrapped(Shadow(s)) {
      var inner := Peel(s);
      TrimmedShort(inner);
      ShadowPeels(inner);
      var t := Shadow(s);
      assert t[1..|t| - 1] == Shadow(inner);
      ShadowTrims(inner);
      TrimmedTwice(inner);
      TrimmedWithin(inner);
      p, q := OverstripsShape(Trimmed(inner));
    } else {
      p, q := StripNested(s);
      EdgesNoQuote(p, q);
      ShadowAround(p, Strip(s), q);
    }
  }

  // ---- what is split off, counted ----

  /** How many parentheses a text opens, its literals included. */
  function Opens(s: seq<Sym>): nat {
    if s == [] then 0 else Opens(s[..|s| - 1]) + if s[|s| - 1] == OPEN then 1 else 0
  }

  lemma {:induction false} OpensAppend(a: seq<Sym>, b: seq<Sym>)
    ensures Opens(a + b) == Opens(a) + Opens(b)
  {
    if b == [] {
      assert a + b == a;
    } else {
      assert (a + b)[..|a + b| - 1] == a + b[..|b| - 1];
      OpensAppend(a, b[..|b| - 1]);
    }
  }

  /** The same for a shielded text whose literals are put back. */
  function OpensIn(s: seq<Sym>, literals: seq<seq<Sym>>): nat {
    if s == [] then 0 else OpensIn(s[..|s| - 1], literals) + Opens(Restore([s[|s| - 1]], literals))
  }

  lemma {:induction false} OpensInAppend(a: seq<Sym>, b: seq<Sym>, literals: seq<seq<Sym>>)
    ensures OpensIn(a + b, literals) == OpensIn(a, literals) + OpensIn(b, literals)
  {
    if b == [] {
      assert a + b == a;
    } else {
      assert (a + b)[..|a + b| - 1] == a + b[..|b| - 1];
      OpensInAppend(a, b[..|b| - 1], literals);
    }
  }

  lemma {:induction false} RestoreAppend(a: seq<Sym>, b: seq<Sym>, literals: seq<seq<Sym>>)
    ensures Restore(a + b, literals) == Restore(a, literals) + Restore(b, literals)
  {
    FilledAppend(a, b, literals);
    WrittenAppend(Filled(a, literals), Filled(b, literals));
  }

  lemma {:induction false} FilledAppend(a: seq<Sym>, b: seq<Sym>, literals: seq<seq<Sym>>)
    ensures Filled(a + b, literals) == Filled(a, literals) + Filled(b, literals)
  {
    if a == [] {
      assert a + b == b;
    } else {
      assert (a + b)[1..] == a[1..] + b;
      FilledAppend(a[1..], b, literals);
    }
  }

  lemma {:induction false} WrittenAppend(a: seq<Lexeme>, b: seq<Lexeme>)
    ensures Written(a + b) == Written(a) + Written(b)
  {
    if a == [] {
      assert a + b == b;
    } else {
      assert (a + b)[1..] == a[1..] + b;
      WrittenAppend(a[1..], b);
    }
  }

  lemma {:induction false} OpensInIs(s: seq<Sym>, literals: seq<seq<Sym>>)
    ensures OpensIn(s, literals) == Opens(Restore(s, literals))
  {
    if s != [] {
      var front, x := s[..|s| - 1], s[|s| - 1];
      assert s == front + [x];
      OpensInIs(front, literals);
      RestoreAppend(front, [x], literals);
      OpensAppend(Restore(front, literals), Restore([x], literals));
    }
  }

  /** Text without literals or parentheses opens none. */
  lemma {:induction false} OpensNone(s: seq<Sym>, literals: seq<seq<Sym>>)
    requires forall x :: x in s ==> x.Ch? && x != OPEN
    ensures OpensIn(s, literals) == 0
  {
    if s != [] {
      var x := s[|s| - 1];
      assert x in s;
      RestoreChar(x, literals);
      OpensNone(s[..|s| - 1], literals);
    }
  }

  lemma RestoreChar(x: Sym, literals: seq<seq<Sym>>)
    requires x.Ch?
    ensures Restore([x], literals) == [x] && Opens([x]) == if x == OPEN then 1 else 0
  {
    assert [x][1..] == [] && [x][..0] == [];
    assert Filled([x], literals) == [Bare(x)];
    var ls := [Bare(x)];
    assert ls[1..] == [] && Written(ls) == [x] + Written([]) == [x];
    assert Opens([x]) == Opens([]) + if x == OPEN then 1 else 0;
  }

  function OpensAll(pieces: seq<seq<Sym>>, literals: seq<seq<Sym>>): nat {
    if pieces == [] then 0 else OpensIn(pieces[0], literals) + OpensAll(pieces[1..], literals)
  }

  lemma OpensThree(a: seq<Sym>, b: seq<Sym>, c: seq<Sym>, literals: seq<seq<Sym>>)
    ensures OpensIn(a + b + c, literals) == OpensIn(a, literals) + OpensIn(b, literals) + OpensIn(c, literals)
  {
    OpensInAppend(a + b, c, literals);
    OpensInAppend(a, b, literals);
  }

  predicate CharsOnly(separator: seq<Sym>) {
    Plain(separator) && forall i :: 0 <= i < |separator| ==> separator[i].Ch?
  }

  /** No position from `i` to `start` holds a parenthesis or a literal. */
  predicate Skipped(s: seq<Sym>, i: nat, start: nat) {
    forall j :: i <= j < start && j < |s| ==> s[j].Ch? && s[j] != OPEN
  }

  lemma SkippedOpens(s: seq<Sym>, a: nat, b: nat, literals: seq<seq<Sym>>)
    requires a <= b <= |s| && Skipped(s, a, b)
    ensures OpensIn(s[a..], literals) == OpensIn(s[b..], literals)
  {
    assert s[a..] == s[a..b] + s[b..];
    assert forall k :: 0 <= k < b - a ==> s[a..b][k] == s[a + k];
    OpensNone(s[a..b], literals);
    OpensInAppend(s[a..b], s[b..], literals);
  }

  /** Splitting loses no parenthesis. */
  lemma {:induction false} PiecesOpens(
    s: seq<Sym>, separator: seq<Sym>, start: nat, i: nat, depth: int, literals: seq<seq<Sym>>)
    requires CharsOnly(separator) && start <= |s| && i <= |s| && start <= i + |separator| && Skipped(s, i, start)
    ensures OpensAll(Pieces(s, separator, start, i, depth), literals) == OpensIn(s[start..], literals)
    decreases |s| - i
  {
    if i == |s| {
      OpensAllOne(s[start..], literals);
    } else if Weight(s[i]) == 0 && depth == 0 && Occurs(s, separator, i) {
      var next := i + |separator|;
      var rest := Pieces(s, separator, next, i + 1, depth);
      SeparatorSkipped(s, separator, i);
      SkippedPart(s, i, i + 1, next);
      PiecesOpens(s, separator, next, i + 1, depth, literals);
      AddPiece(s, separator, start, i, next, rest, literals);
    } else {
      PiecesOpens(s, separator, start, i + 1, depth + Weight(s[i]), literals);
    }
  }

  lemma AddPiece(
    s: seq<Sym>, separator: seq<Sym>, start: nat, i: nat, next: nat, rest: seq<seq<Sym>>, literals: seq<seq<Sym>>)
    requires CharsOnly(separator) && start <= |s| && Occurs(s, separator, i) && next == i + |separator| && start <= next
    requires OpensAll(rest, literals) == OpensIn(s[next..], literals)
    ensures OpensAll([Slice(s, start, i)] + rest, literals) == OpensIn(s[start..], literals)
  {
    PieceOpens(s, separator, start, i, next, literals);
    OpensAllCons(Slice(s, start, i), rest, literals);
  }

  lemma PieceOpens(s: seq<Sym>, separator: seq<Sym>, start: nat, i: nat, next: nat, literals: seq<seq<Sym>>)
    requires CharsOnly(separator) && start <= |s| && Occurs(s, separator, i) && next == i + |separator| && start <= next
    ensures OpensIn(Slice(s, start, i), literals) + OpensIn(s[next..], literals) == OpensIn(s[start..], literals)
  {
    SeparatorSkipped(s, separator, i);
    if start <= i {
      PieceUpTo(s, start, i, next, literals);
    } else {
      PieceOver(s, start, i, next, literals);
    }
  }

  lemma SkippedPart(s: seq<Sym>, i: nat, a: nat, b: nat)
    requires Skipped(s, i, b) && i <= a
    ensures Skipped(s, a, b)
  {
  }

  lemma PieceOver(s: seq<Sym>, start: nat, i: nat, next: nat, literals: seq<seq<Sym>>)
    requires i < start <= next <= |s| && Skipped(s, i, next)
    ensures OpensIn(Slice(s, start, i), literals) + OpensIn(s[next..], literals) == OpensIn(s[start..], literals)
  {
    SkippedPart(s, i, start, next);
    SkippedOpens(s, start, next, literals);
    assert OpensIn([], literals) == 0;
  }

  lemma PieceUpTo(s: seq<Sym>, start: nat, i: nat, next: nat, literals: seq<seq<Sym>>)
    requires start <= i <= next <= |s| && Skipped(s, i, next)
    ensures OpensIn(Slice(s, start, i), literals) + OpensIn(s[next..], literals) == OpensIn(s[start..], literals)
  {
    SkippedOpens(s, i, next, literals);
    PieceBefore(s, start, i, literals);
  }

  lemma PieceBefore(s: seq<Sym>, start: nat, i: nat, literals: seq<seq<Sym>>)
    requires start <= i <= |s|
    ensures OpensIn(s[start..i], literals) + OpensIn(s[i..], literals) == OpensIn(s[start..], literals)
  {
    OpensInAppend(s[start..i], s[i..], literals);
    assert s[start..] == s[start..i] + s[i..];
  }

  lemma SeparatorSkipped(s: seq<Sym>, separator: seq<Sym>, i: nat)
    requires CharsOnly(separator) && Occurs(s, separator, i)
    ensures Skipped(s, i, i + |separator|)
  {
    forall j | i <= j < i + |separator| ensures s[j].Ch? && s[j] != OPEN {
      assert s[j] == s[i..i + |separator|][j - i] == separator[j - i];
    }
  }

  lemma OpensAllOne(p: seq<Sym>, literals: seq<seq<Sym>>)
    ensures OpensAll([p], literals) == OpensIn(p, literals)
  {
    assert [p][1..] == [];
  }

  lemma OpensAllCons(p: seq<Sym>, pieces: seq<seq<Sym>>, literals: seq<seq<Sym>>)
    ensures OpensAll([p] + pieces, literals) == OpensIn(p, literals) + OpensAll(pieces, literals)
  {
    assert ([p] + pieces)[1..] == pieces;
  }

  lemma TrimmedOpens(p: seq<Sym>, literals: seq<seq<Sym>>)
    ensures OpensIn(Trimmed(p), literals) == OpensIn(p, literals)
  {
    var a, b := TrimParts(p);
    OpensThree(a, Trimmed(p), b, literals);
    OpensNone(a, literals);
    OpensNone(b, literals);
  }

  lemma {:induction false} TermsOpens(pieces: seq<seq<Sym>>, literals: seq<seq<Sym>>)
    ensures OpensAll(Terms(pieces), literals) == OpensAll(pieces, literals)
  {
    if pieces != [] {
      TermsOpens(pieces[1..], literals);
      TrimmedOpens(pieces[0], literals);
      OpensAllCons(Trimmed(pieces[0]), Terms(pieces[1..]), literals);
      assert [] + Terms(pieces[1..]) == Terms(pieces[1..]);
    }
  }

  function OpensOf(texts: seq<seq<Sym>>): nat {
    if texts == [] then 0 else Opens(texts[0]) + OpensOf(texts[1..])
  }

  lemma {:induction false} RestoredOpens(terms: seq<seq<Sym>>, literals: seq<seq<Sym>>)
    ensures OpensOf(RestoreAll(terms, literals)) == OpensAll(terms, literals)
  {
    if terms != [] {
      OpensInIs(terms[0], literals);
      RestoredOpens(terms[1..], literals);
      assert RestoreAll(terms, literals)[1..] == RestoreAll(terms[1..], literals);
    }
  }

  lemma SplitOpens(f: seq<Sym>, literals: seq<seq<Sym>>)
    ensures OpensOf(RestoreAll(SplitTop(f, OR), literals)) == OpensIn(Unwrap(f), literals)
  {
    var s := Unwrap(f);
    PiecesOpens(s, OR, 0, 0, 0, literals);
    assert s[0..] == s;
    TermsOpens(Pieces(s, OR, 0, 0, 0), literals);
    RestoredOpens(SplitTop(f, OR), literals);
  }

  lemma UnwrapOpens(f: seq<Sym>, literals: seq<seq<Sym>>)
    ensures OpensIn(Unwrap(f), literals) <= OpensIn(f, literals)
  {
    var p, q := StripNested(Trimmed(f));
    OpensThree(p, Unwrap(f), q, literals);
    TrimmedOpens(f, literals);
  }

  // ---- what the code judges ----

  /** The OR alternatives of the term, whatever its literals hold. */
  function Intended(rules: Rules, s: seq<Sym>): seq<seq<Sym>> {
    RestoreAll(SplitTop(rules.tidy(Shadow(s)), OR), Literals(s))
  }

  /** There is nothing left to tidy in a term, which has been cleaned before. */
  predicate Tidied(rules: Rules, s: seq<Sym>) {
    rules.tidy(Shadow(s)) == Shadow(s) && rules.tidy(Shadow(Unwrap(s))) == Shadow(Unwrap(s))
  }

  lemma SplitFrom(rules: Rules, s: seq<Sym>)
    requires Chars(s) && Tidied(rules, s)
    ensures var t := Trimmed(s);
            && Alternatives(rules, s) == RestoreAll(SplitTop(Shadow(Strip(t)), OR), Literals(s))
            && Intended(rules, s) == RestoreAll(SplitTop(Shadow(s), OR), Literals(s))
            && Unwrap(Shadow(s)) == Strip(Shadow(t))
            && Chars(t) && Trimmed(t) == t
  {
    UnwrapLiterals(s);
    ShadowTrims(s);
    TrimmedTwice(s);
    TrimmedWithin(s);
  }

  lemma OverstripsLoses(s: seq<Sym>, literals: seq<seq<Sym>>)
    requires Chars(s) && Trimmed(s) == s && Overstrips(s)
    ensures OpensIn(Unwrap(Shadow(Strip(s))), literals) < OpensIn(Strip(Shadow(s)), literals)
  {
    var p, q := OverstripsShape(s);
    var y := Shadow(Strip(s));
    OpensThree(p, y, q, literals);
    UnwrapOpens(y, literals);
    OpensFirst(p, literals);
  }

  lemma OpensFirst(p: seq<Sym>, literals: seq<seq<Sym>>)
    requires p != [] && p[0] == OPEN
    ensures OpensIn(p, literals) >= 1
  {
    var one: seq<Sym> := [OPEN];
    assert p == one + p[1..];
    OpensInAppend(one, p[1..], literals);
    RestoreChar(OPEN, literals);
    assert one[..0] == [] && OpensIn(one, literals) == OpensIn([], literals) + Opens(Restore(one, literals));
  }

  /** The code judges the term's own alternatives exactly when it strips no pair too much. */
  lemma AlternativesIff(rules: Rules, s: seq<Sym>)
    requires Chars(s) && Tidied(rules, s)
    ensures Alternatives(rules, s) == Intended(rules, s) <==> !Overstrips(Trimmed(s))
  {
    var t := Trimmed(s);
    SplitFrom(rules, s);
    if Overstrips(t) {
      OverstripsLoses(t, Literals(s));
      SplitOpens(Shadow(Strip(t)), Literals(s));
      SplitOpens(Shadow(s), Literals(s));
    } else {
      StripsAlike(t);
    }
  }

  /** The text is the policy's own, or reads a session setting. */
  predicate Known(rules: Rules, policy: set<seq<Sym>>, a: seq<Sym>) {
    Unwrap(a) in policy || rules.setting(Generalised(rules, a))
  }

  /** Its alternatives are each the relation's policy, or read a session setting. */
  predicate IsPolicy(rules: Rules, policy: set<seq<Sym>>, s: seq<Sym>) {
    var alternatives := Intended(rules, s);
    |alternatives| > 1 && forall a :: a in alternatives ==> Known(rules, policy, a)
  }

  /** No OR stands within parentheses of the term. */
  ghost predicate Flat(s: seq<Sym>) {
    forall i :: 0 <= i && Occurs(s, OR, i) ==> Depth(s[..i]) == 0
  }

  lemma {:induction false} OpenersDepth(p: seq<Sym>, k: nat)
    requires Openers(p) && p != [] && p[0] == OPEN && 0 < k <= |p|
    ensures Depth(p[..k]) > 0
    decreases k
  {
    assert p[..k][..k - 1] == p[..k - 1] && p[k - 1] in p;
    if k > 1 {
      OpenersDepth(p, k - 1);
    } else {
      assert p[..0] == [];
    }
  }

  lemma {:induction false} ClosersDepth(q: seq<Sym>)
    requires Closers(q)
    ensures Depth(q) <= 0
    ensures q != [] && q[|q| - 1] == CLOSE ==> Depth(q) < 0
  {
    if q != [] {
      assert q[|q| - 1] in q;
      ClosersDepth(q[..|q| - 1]);
    }
  }

  /**
    A balanced text that is not wrapped, between parentheses of its own, is torn: within, it closes what
    it has not opened.
   */
  lemma TornWithin(p: seq<Sym>, y: seq<Sym>, q: seq<Sym>, v: seq<Sym>) returns (j: nat)
    requires Nested(p, y, q, v) && Balanced(v) && !Wrapped(v)
    requires p != [] && p[0] == OPEN && q != [] && q[|q| - 1] == CLOSE
    ensures Depth(p) > 0 && 0 < j <= |y| && Depth(y[..j]) == -Depth(p)
  {
    WrappedIff(v);
    assert v[0] == p[0] && |v| >= 2;
    OpenersDepth(p, |p|);
    assert p[..|p|] == p;
    forall m | 0 < m <= |p| ensures Depth(v[..m]) > 0 {
      OpenersDepth(p, m);
      assert v[..m] == p[..m];
    }
    forall m | |p| + |y| < m < |v| ensures Depth(v[..m]) > 0 {
      var rest := v[m..];
      assert v == v[..m] + rest && rest == q[m - |p| - |y|..];
      DepthAppend(v[..m], rest);
      ClosersDepth(rest);
    }
    var m :| 0 < m < |v| && Depth(v[..m]) <= 0;
    j := m - |p|;
    assert v[..m] == p + y[..j];
    DepthAppend(p, y[..j]);
  }

  /** Text in which every separator is below the depth the split starts from is one piece. */
  lemma {:induction false} OnePiece(s: seq<Sym>, separator: seq<Sym>, start: nat, i: nat, depth: int)
    requires start <= |s| && i <= |s| && depth == Depth(s[..i])
    requires forall k :: i <= k && Occurs(s, separator, k) ==> Depth(s[..k]) != 0
    ensures |Pieces(s, separator, start, i, depth)| == 1
    decreases |s| - i
  {
    if i < |s| {
      assert s[..i + 1][..i] == s[..i];
      OnePiece(s, separator, start, i + 1, depth + Weight(s[i]));
    }
  }

  lemma OneTerm(pieces: seq<seq<Sym>>)
    requires |pieces| == 1
    ensures |Terms(pieces)| <= 1
  {
    assert pieces[1..] == [] && Terms(pieces[1..]) == [];
  }

  /** Where it strips too much of a flat term, nothing is left to split. */
  lemma TornNotSplit(s: seq<Sym>)
    requires Chars(s) && Trimmed(s) == s && Overstrips(s)
    requires Balanced(Strip(Shadow(s))) && Flat(Strip(Shadow(s)))
    ensures |SplitTop(Shadow(Strip(s)), OR)| <= 1
  {
    var p, q := OverstripsShape(s);
    StripTrimmed(s);
    TornOneTerm(p, Shadow(Strip(s)), q, Strip(Shadow(s)));
  }

  lemma TornOneTerm(p: seq<Sym>, y: seq<Sym>, q: seq<Sym>, v: seq<Sym>)
    requires Nested(p, y, q, v) && Balanced(v) && !Wrapped(v) && Flat(v) && Trimmed(y) == y
    requires p != [] && p[0] == OPEN && q != [] && q[|q| - 1] == CLOSE
    ensures |SplitTop(y, OR)| <= 1
  {
    var j := TornWithin(p, y, q, v);
    NotWrapped(y, j);
    forall k | 0 <= k && Occurs(y, OR, k) ensures Depth(y[..k]) != 0 {
      OccursWithin(p, y, q, v, k);
      assert v[..|p| + k] == p + y[..k];
      DepthAppend(p, y[..k]);
    }
    OnePiece(y, OR, 0, 0, 0);
    OneTerm(Pieces(y, OR, 0, 0, 0));
  }

  lemma NotWrapped(y: seq<Sym>, j: nat)
    requires 0 < j <= |y| && Depth(y[..j]) < 0
    ensures !Wrapped(y)
  {
    WrappedIff(y);
    assert y[..|y|] == y;
  }

  lemma StripTrimmed(s: seq<Sym>)
    requires Chars(s) && Trimmed(s) == s
    ensures Trimmed(Shadow(Strip(s))) == Shadow(Strip(s))
  {
    UnwrapTrimmed(s);
    UnwrapWithin(s);
    ShadowTrims(Strip(s));
  }

  lemma OccursWithin(p: seq<Sym>, y: seq<Sym>, q: seq<Sym>, v: seq<Sym>, k: nat)
    requires v == p + y + q && Occurs(y, OR, k)
    ensures Occurs(v, OR, |p| + k)
  {
    assert v[|p| + k..|p| + k + |OR|] == y[k..k + |OR|];
  }

  lemma ShadowBalanced(s: seq<Sym>)
    requires Chars(s) && Balanced(Shadow(s))
    ensures Balanced(Strip(Shadow(Trimmed(s))))
  {
    UnwrapBalanced(Shadow(s));
    ShadowTrims(s);
  }

  /**
    Of the terms whose alternatives are the relation's policy, the code recognises exactly those of
    which it strips no pair too much, those that are known whole, and those of which what is left
    between the wrong parentheses happens to split into known texts.
   */
  lemma RecognisedIff(rules: Rules, policy: set<seq<Sym>>, s: seq<Sym>)
    requires Chars(s) && Tidied(rules, s) && IsPolicy(rules, policy, s)
    ensures IsPolicyTerm(rules, s, policy) <==>
            !Overstrips(Trimmed(s)) || Unwrap(s) in policy || TornIntoKnown(rules, policy, s)
  {
    AlternativesIff(rules, s);
    SplitFrom(rules, s);
  }

  /** The text left between parentheses that do not belong together, split where it can be. */
  function Torn(s: seq<Sym>): seq<seq<Sym>> {
    RestoreAll(SplitTop(Shadow(Unwrap(s)), OR), Literals(s))
  }

  predicate TornIntoKnown(rules: Rules, policy: set<seq<Sym>>, s: seq<Sym>) {
    Overstrips(Trimmed(s)) && |Torn(s)| > 1 && forall a :: a in Torn(s) ==> Known(rules, policy, a)
  }

  /** The last cannot be when no OR stands within parentheses of the term. */
  lemma RecognisedFlatIff(rules: Rules, policy: set<seq<Sym>>, s: seq<Sym>)
    requires Chars(s) && Tidied(rules, s) && IsPolicy(rules, policy, s)
    requires Balanced(Shadow(s)) && Flat(Unwrap(Shadow(s)))
    ensures IsPolicyTerm(rules, s, policy) <==> !Overstrips(Trimmed(s)) || Unwrap(s) in policy
  {
    var t := Trimmed(s);
    RecognisedIff(rules, policy, s);
    SplitFrom(rules, s);
    if Overstrips(t) {
      ShadowBalanced(s);
      TornNotSplit(t);
    }
  }
}
