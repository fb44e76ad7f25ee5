/** Filters whose policy terms the gate takes for the statement's own, because of parentheses inside their literals. */
module HiddenPolicy {
  import opened Text
  import opened FilterText
  import opened FilterKey
  import opened PolicyTerms
  import opened KeyTerms

  // ---- a kept term shows in the key ----

  lemma {:induction false} KeptIn(rules: Rules, terms: seq<seq<Sym>>, policy: set<seq<Sym>>, s: seq<Sym>)
    requires s in terms && Kept(rules, s, policy)
    ensures Generalised(rules, s) in KeptKeys(rules, terms, policy)
  {
    if terms[0] != s {
      KeptIn(rules, terms[1..], policy, s);
    }
  }

  /** The key is not empty when a term is kept that is more than a liveness test. */
  lemma KeptShows(rules: Rules, raw: seq<Sym>, policy: set<seq<Sym>>, s: seq<Sym>)
    requires Trimmed(raw) != [] && s in ExactTerms(rules, raw) && Kept(rules, s, policy)
    requires !rules.live(Unwrap(Generalised(rules, s)))
    ensures Normalised(rules, raw, policy) != []
  {
    KeptIn(rules, ExactTerms(rules, raw), policy, s);
  }

  // ---- the family ----

  const FIRST: seq<Sym> := [QUOTE, OPEN, QUOTE]
  const SECOND: seq<Sym> := [QUOTE, CLOSE, QUOTE]

  /** Text without parentheses, quotes or a word OR. */
  predicate Wordy(p: seq<Sym>) {
    && (forall x :: x in p ==> x.Ch? && x != QUOTE && x != OPEN && x != CLOSE)
    && (forall i :: 0 <= i < |p| ==> !Occurs(p, OR, i))
  }

  /** `p` followed by a literal, in parentheses. */
  function Group(p: seq<Sym>, literal: seq<Sym>): seq<Sym> {
    [OPEN] + p + literal + [CLOSE]
  }

  /** Two alternatives, of which one literal opens a parenthesis and the other closes one. */
  function Twin(p: seq<Sym>, q: seq<Sym>): seq<Sym> {
    Group(p, FIRST) + OR + Group(q, SECOND)
  }

  function TwinShadow(p: seq<Sym>, q: seq<Sym>): seq<Sym> {
    Group(p, [Ref(0)]) + OR + Group(q, [Ref(1)])
  }

  lemma QuotesLex(rest: seq<Sym>)
    requires rest == [] || rest[0] != QUOTE
    ensures Lex(FIRST + rest) == [Quoted(FIRST)] + Lex(rest)
    ensures Lex(SECOND + rest) == [Quoted(SECOND)] + Lex(rest)
  {
    QuoteOne(OPEN);
    QuoteOne(CLOSE);
    LexQuote([OPEN], rest);
    LexQuote([CLOSE], rest);
  }

  lemma {:induction false} LexBare(p: seq<Sym>, rest: seq<Sym>)
    requires NoQuote(p)
    ensures Lex(p + rest) == Bares(p) + Lex(rest)
  {
    if p == [] {
      assert p + rest == rest;
    } else {
      assert p + rest == [p[0]] + (p[1..] + rest);
      assert NoQuote(p[1..]);
      LexBare(p[1..], rest);
      LexPlain(p[0], p[1..] + rest);
      assert Bares(p) == [Bare(p[0])] + Bares(p[1..]);
    }
  }

  function Bares(p: seq<Sym>): seq<Lexeme> {
    seq(|p|, i requires 0 <= i < |p| => Bare(p[i]))
  }

  /** The lexemes of a family member. */
  function TwinLexemes(p: seq<Sym>, q: seq<Sym>): seq<Lexeme> {
    Bares([OPEN] + p) + ([Quoted(FIRST)] + (Bares([CLOSE] + OR + [OPEN] + q) + ([Quoted(SECOND)] + Bares([CLOSE]))))
  }

  lemma TwinLex(p: seq<Sym>, q: seq<Sym>)
    requires Wordy(p) && Wordy(q)
    ensures Lex(Twin(p, q)) == TwinLexemes(p, q)
  {
    var middle := [CLOSE] + OR + [OPEN] + q;
    var end: seq<Sym> := [CLOSE];
    assert Twin(p, q) == ([OPEN] + p) + (FIRST + (middle + (SECOND + end)));
    LexBare([OPEN] + p, FIRST + (middle + (SECOND + end)));
    assert (middle + (SECOND + end))[0] == CLOSE;
    QuotesLex(middle + (SECOND + end));
    LexBare(middle, SECOND + end);
    QuotesLex(end);
    LexBare(end, []);
    assert end + [] == end && Bares(end) + Lex([]) == Bares(end);
  }

  lemma {:induction false} ShieldBares(p: seq<Sym>, ls: seq<Lexeme>, n: nat)
    ensures Shield(Bares(p) + ls, n) == p + Shield(ls, n)
    ensures LiteralsOf(Bares(p) + ls) == LiteralsOf(ls)
  {
    if p == [] {
      assert Bares(p) + ls == ls;
    } else {
      assert Bares(p) + ls == [Bare(p[0])] + (Bares(p[1..]) + ls);
      ShieldBares(p[1..], ls, n);
      ShieldCons(Bare(p[0]), Bares(p[1..]) + ls, n);
      LiteralsCons(Bare(p[0]), Bares(p[1..]) + ls);
    }
  }

  lemma ShieldQuoted(text: seq<Sym>, ls: seq<Lexeme>, n: nat)
    ensures Shield([Quoted(text)] + ls, n) == [Ref(n)] + Shield(ls, n + 1)
    ensures LiteralsOf([Quoted(text)] + ls) == [text] + LiteralsOf(ls)
  {
    ShieldCons(Quoted(text), ls, n);
    LiteralsCons(Quoted(text), ls);
  }

  /** The shield of bare text, a literal and more. */
  lemma ShieldGroup(p: seq<Sym>, text: seq<Sym>, ls: seq<Lexeme>, n: nat)
    ensures Shield(Bares(p) + ([Quoted(text)] + ls), n) == p + ([Ref(n)] + Shield(ls, n + 1))
    ensures LiteralsOf(Bares(p) + ([Quoted(text)] + ls)) == [text] + LiteralsOf(ls)
  {
    ShieldBares(p, [Quoted(text)] + ls, n);
    ShieldQuoted(text, ls, n);
  }

  lemma ShieldEnd(p: seq<Sym>, n: nat)
    ensures Shield(Bares(p), n) == p && LiteralsOf(Bares(p)) == []
  {
    ShieldBares(p, [], n);
    assert Bares(p) + [] == Bares(p) && p + [] == p;
  }

  lemma TwinShielded(p: seq<Sym>, q: seq<Sym>)
    requires Wordy(p) && Wordy(q)
    ensures Shadow(Twin(p, q)) == TwinShadow(p, q)
    ensures Literals(Twin(p, q)) == [FIRST, SECOND]
  {
    TwinLex(p, q);
    var middle := [CLOSE] + OR + [OPEN] + q;
    ShieldEnd([CLOSE], 2);
    ShieldGroup(middle, SECOND, Bares([CLOSE]), 1);
    ShieldGroup([OPEN] + p, FIRST, Bares(middle) + ([Quoted(SECOND)] + Bares([CLOSE])), 0);
    TwinParts(p, q);
  }

  lemma TwinParts(p: seq<Sym>, q: seq<Sym>)
    ensures TwinShadow(p, q) == ([OPEN] + p) + ([Ref(0)] + (([CLOSE] + OR + [OPEN] + q) + ([Ref(1)] + [CLOSE])))
  {
  }

  // ---- how its parentheses count ----

  lemma {:induction false} ClosingSkip(s: seq<Sym>, i: nat, j: nat, depth: int)
    requires i <= j <= |s| && forall m :: i <= m < j ==> Weight(s[m]) == 0
    ensures Closing(s, i, depth) == Closing(s, j, depth)
    decreases j - i
  {
    if i < j {
      ClosingSkip(s, i + 1, j, depth);
    }
  }

  /** Where the parentheses of a family member stand, `a` and `b` being where its literals start. */
  predicate Marked(s: seq<Sym>, a: nat, b: nat) {
    && 0 < a && a + 9 <= b && |s| == b + 4
    && s[0] == OPEN && s[a + 1] == OPEN && s[a + 3] == CLOSE && s[a + 8] == OPEN
    && s[b + 1] == CLOSE && s[b + 3] == CLOSE
    && (forall m :: 0 <= m < |s| && m !in {0, a + 1, a + 3, a + 8, b + 1, b + 3} ==> Weight(s[m]) == 0)
  }

  lemma MarkedWrapped(s: seq<Sym>, a: nat, b: nat)
    requires Marked(s, a, b)
    ensures Wrapped(s)
  {
    ClosingSkip(s, b + 2, b + 3, 1);
    ClosingSkip(s, a + 9, b + 1, 2);
    ClosingSkip(s, a + 4, a + 8, 1);
    ClosingSkip(s, a + 2, a + 3, 2);
    ClosingSkip(s, 1, a + 1, 1);
    assert Closing(s, b + 1, 2) == Closing(s, b + 2, 1) == Some(b + 3);
    assert Closing(s, a + 8, 1) == Closing(s, a + 9, 2);
    assert Closing(s, a + 3, 2) == Closing(s, a + 4, 1);
    assert Closing(s, a + 1, 1) == Closing(s, a + 2, 2);
    assert Closing(s, 0, 0) == Closing(s, 1, 1);
  }

  lemma TwinMarked(p: seq<Sym>, q: seq<Sym>)
    requires Wordy(p) && Wordy(q)
    ensures Marked(Twin(p, q), |p| + 1, |p| + 10 + |q|)
  {
    var s := Twin(p, q);
    var a := |p| + 1;
    var b := a + 9 + |q|;
    var end := [QUOTE, CLOSE, QUOTE, CLOSE];
    var middle := [QUOTE, OPEN, QUOTE, CLOSE, Ch(' '), Ch('O'), Ch('R'), Ch(' '), OPEN];
    assert s == [OPEN] + p + middle + q + end;
    forall m | 0 <= m < |s| && m !in {0, a + 1, a + 3, a + 8, b + 1, b + 3} ensures Weight(s[m]) == 0 {
      if 1 <= m < a {
        assert s[m] == p[m - 1] && p[m - 1] in p;
      } else if a <= m < a + 9 {
        assert s[m] == middle[m - a];
      } else if m < b {
        assert s[m] == q[m - a - 9] && q[m - a - 9] in q;
      } else {
        assert s[m] == end[m - b];
      }
    }
  }

  /** With its literals in place, the first parenthesis closes at the end. */
  lemma TwinWrapped(p: seq<Sym>, q: seq<Sym>)
    requires Wordy(p) && Wordy(q)
    ensures Wrapped(Twin(p, q))
  {
    TwinMarked(p, q);
    MarkedWrapped(Twin(p, q), |p| + 1, |p| + 10 + |q|);
  }

  /** But for them, it does not. */
  lemma ShadowNotWrapped(p: seq<Sym>, q: seq<Sym>)
    requires Wordy(p) && Wordy(q)
    ensures !Wrapped(TwinShadow(p, q))
  {
    var s := TwinShadow(p, q);
    var a := |p| + 1;
    assert forall m :: 1 <= m < a ==> s[m] == p[m - 1] && p[m - 1] in p;
    assert s[0] == OPEN && s[a] == Ref(0) && s[a + 1] == CLOSE && |s| > a + 2;
    ClosingSkip(s, 1, a + 1, 1);
  }

  lemma TwinTrimmed(p: seq<Sym>, q: seq<Sym>)
    ensures Trimmed(Twin(p, q)) == Twin(p, q) && Trimmed(TwinShadow(p, q)) == TwinShadow(p, q)
  {
    EndsTrimmed(Twin(p, q));
    EndsTrimmed(TwinShadow(p, q));
  }

  lemma TwinChars(p: seq<Sym>, q: seq<Sym>)
    requires Wordy(p) && Wordy(q)
    ensures Chars(Twin(p, q))
  {
  }

  lemma TwinOverstripped(p: seq<Sym>, q: seq<Sym>)
    requires Wordy(p) && Wordy(q)
    ensures Overstrips(Trimmed(Twin(p, q)))
  {
    TwinWrapped(p, q);
    ShadowNotWrapped(p, q);
    TwinShielded(p, q);
    TwinTrimmed(p, q);
  }

  // ---- how its shadow splits ----

  function TwoGroups(x: seq<Sym>, y: seq<Sym>): seq<Sym> {
    Bracketed(x) + OR + Bracketed(y)
  }

  lemma TwinGroups(p: seq<Sym>, q: seq<Sym>)
    ensures TwinShadow(p, q) == TwoGroups(p + [Ref(0)], q + [Ref(1)])
  {
  }

  lemma BracketedBalanced(x: seq<Sym>)
    requires Level(x)
    ensures Balanced(Bracketed(x))
  {
    var s := Bracketed(x);
    LevelBalanced(x);
    forall k | 0 <= k <= |s| ensures Depth(s[..k]) == if 0 < k < |s| then 1 else 0 {
      DepthInBrackets(x, k);
    }
    assert s[..|s|] == s;
  }

  lemma DepthInBrackets(x: seq<Sym>, k: nat)
    requires Level(x) && k <= |x| + 2
    ensures Depth(Bracketed(x)[..k]) == if 0 < k < |x| + 2 then 1 else 0
  {
    var s, one := Bracketed(x), [OPEN];
    assert one[..0] == [] && Depth(one) == 1;
    if 0 < k <= |x| + 1 {
      assert s[..k] == one + x[..k - 1];
      DepthAppend(one, x[..k - 1]);
      BlankDepth(x[..k - 1]);
    } else if k == |x| + 2 {
      assert s[..k][..k - 1] == one + x;
      DepthAppend(one, x);
      BlankDepth(x);
    }
  }

  lemma BalancedAppend(a: seq<Sym>, b: seq<Sym>)
    requires Balanced(a) && Balanced(b)
    ensures Balanced(a + b)
  {
    DepthAppend(a, b);
    forall k | 0 <= k <= |a + b| ensures Depth((a + b)[..k]) >= 0 {
      if k <= |a| {
        assert (a + b)[..k] == a[..k];
      } else {
        assert (a + b)[..k] == a + b[..k - |a|];
        DepthAppend(a, b[..k - |a|]);
      }
    }
  }

  lemma TwoGroupsBalanced(x: seq<Sym>, y: seq<Sym>)
    requires Level(x) && Level(y)
    ensures Balanced(TwoGroups(x, y))
  {
    BracketedBalanced(x);
    BracketedBalanced(y);
    LevelBalanced(OR);
    BalancedAppend(Bracketed(x), OR);
    BalancedAppend(Bracketed(x) + OR, Bracketed(y));
  }

  lemma GroupsAt(x: seq<Sym>, y: seq<Sym>)
    ensures var s, n := TwoGroups(x, y), |x| + 2;
            && |s| == n + 4 + |y| + 2
            && GroupAt(s, x, 0) && GroupAt(s, y, n + 4)
            && s[n] == Ch(' ') && s[n + 1] == Ch('O') && s[n + 2] == Ch('R') && s[n + 3] == Ch(' ')
            && s[..n] == Bracketed(x) && s[n + 4..] == Bracketed(y) && s[n..n + 4] == OR
  {
    GroupsParts(Bracketed(x), Bracketed(y));
    BracketedAt(TwoGroups(x, y), x, 0);
    BracketedAt(TwoGroups(x, y), y, |x| + 6);
  }

  lemma GroupsParts(g: seq<Sym>, h: seq<Sym>)
    ensures var s, n := g + OR + h, |g|;
            && |s| == n + 4 + |h| && s[..n] == g && s[n + 4..] == h && s[n..n + 4] == OR
            && s[n] == Ch(' ') && s[n + 1] == Ch('O') && s[n + 2] == Ch('R') && s[n + 3] == Ch(' ')
  {
    var s, n := g + OR + h, |g|;
    assert forall k :: 0 <= k < 4 ==> s[n + k] == OR[k];
  }

  lemma SplitsAtOr(x: seq<Sym>, y: seq<Sym>)
    requires Level(x) && Level(y)
    ensures Pieces(TwoGroups(x, y), OR, 0, 0, 0) == [Bracketed(x), Bracketed(y)]
  {
    var s, n := TwoGroups(x, y), |x| + 2;
    GroupsAt(x, y);
    PiecesGroup(s, OR, 0, 0, x);
    assert Pieces(s, OR, 0, n, 0) == [Slice(s, 0, n)] + Pieces(s, OR, n + 4, n + 1, 0);
    NotOccurs(s, OR, n + 1, 0);
    NotOccurs(s, OR, n + 2, 0);
    NotOccurs(s, OR, n + 3, 1);
    PiecesStep(s, OR, n + 4, n + 1);
    PiecesStep(s, OR, n + 4, n + 2);
    PiecesStep(s, OR, n + 4, n + 3);
    PiecesGroup(s, OR, n + 4, n + 4, y);
  }

  lemma SplitsNowhere(x: seq<Sym>, y: seq<Sym>)
    requires Level(x) && Level(y)
    ensures Pieces(TwoGroups(x, y), AND, 0, 0, 0) == [TwoGroups(x, y)]
  {
    var s, n := TwoGroups(x, y), |x| + 2;
    GroupsAt(x, y);
    PiecesGroup(s, AND, 0, 0, x);
    NotOccurs(s, AND, n, 1);
    NotOccurs(s, AND, n + 1, 0);
    NotOccurs(s, AND, n + 2, 0);
    NotOccurs(s, AND, n + 3, 1);
    PiecesStep(s, AND, 0, n);
    PiecesStep(s, AND, 0, n + 1);
    PiecesStep(s, AND, 0, n + 2);
    PiecesStep(s, AND, 0, n + 3);
    PiecesGroup(s, AND, 0, n + 4, y);
    assert s[0..] == s;
  }

  /** Text that holds no word OR. */
  predicate NoOr(x: seq<Sym>) {
    forall i :: 0 <= i < |x| ==> !Occurs(x, OR, i)
  }

  lemma OrInGroup(s: seq<Sym>, x: seq<Sym>, g: nat, i: nat)
    requires GroupAt(s, x, g) && NoOr(x) && g <= i < g + |x| + 2
    ensures !Occurs(s, OR, i)
  {
    if i == g {
      NotOccurs(s, OR, i, 0);
    } else if i + 4 <= g + 1 + |x| {
      var w := s[i..i + 4];
      assert forall k :: 0 <= k < 4 ==> w[k] == s[g + 1 + (i - g - 1 + k)] == x[i - g - 1 + k];
      assert w == x[i - g - 1..i - g - 1 + 4];
      assert !Occurs(x, OR, i - g - 1);
    } else {
      NotOccurs(s, OR, i, g + |x| + 1 - i);
    }
  }

  lemma TwoGroupsFlat(x: seq<Sym>, y: seq<Sym>)
    requires Level(x) && Level(y) && NoOr(x) && NoOr(y)
    ensures Flat(TwoGroups(x, y))
  {
    var s, n := TwoGroups(x, y), |x| + 2;
    GroupsAt(x, y);
    NotOccurs(s, OR, n + 1, 0);
    NotOccurs(s, OR, n + 2, 0);
    NotOccurs(s, OR, n + 3, 1);
    BracketedBalanced(x);
    forall i | 0 <= i && Occurs(s, OR, i) ensures Depth(s[..i]) == 0 {
      OnlyAt(s, x, y, n, i);
    }
  }

  lemma OnlyAt(s: seq<Sym>, x: seq<Sym>, y: seq<Sym>, n: nat, i: nat)
    requires n == |x| + 2 && |s| == n + 4 + |y| + 2 && GroupAt(s, x, 0) && GroupAt(s, y, n + 4) && NoOr(x) && NoOr(y)
    requires !Occurs(s, OR, n + 1) && !Occurs(s, OR, n + 2) && !Occurs(s, OR, n + 3)
    requires Occurs(s, OR, i)
    ensures i == n
  {
    forall k | 0 <= k < n ensures !Occurs(s, OR, k) {
      OrInGroup(s, x, 0, k);
    }
    forall k | n + 4 <= k < |s| ensures !Occurs(s, OR, k) {
      OrInGroup(s, y, n + 4, k);
    }
  }

  // ---- the alternatives of a family member ----

  lemma WordyGroups(p: seq<Sym>, n: nat)
    requires Wordy(p)
    ensures Level(p + [Ref(n)]) && NoOr(p + [Ref(n)])
  {
    var x := p + [Ref(n)];
    forall i | 0 <= i < |x| ensures Weight(x[i]) == 0 {
      if i < |p| {
        assert x[i] == p[i] && p[i] in p;
      }
    }
    forall i | 0 <= i < |x| ensures !Occurs(x, OR, i) {
      if i + 4 <= |p| {
        assert x[i..i + 4] == p[i..i + 4];
        assert !Occurs(p, OR, i);
      } else if i + 4 <= |x| {
        NotOccurs(x, OR, i, |p| - i);
      }
    }
  }

  lemma {:induction false} RestoreChars(p: seq<Sym>, literals: seq<seq<Sym>>)
    requires Chars(p)
    ensures Restore(p, literals) == p
  {
    if p != [] {
      var front, x := p[..|p| - 1], p[|p| - 1];
      assert p == front + [x] && x in p;
      assert forall y :: y in front ==> y in p;
      RestoreChars(front, literals);
      RestoreChar(x, literals);
      RestoreAppend(front, [x], literals);
    }
  }

  lemma RestoreRef(n: nat, literals: seq<seq<Sym>>)
    requires n < |literals|
    ensures Restore([Ref(n)], literals) == literals[n]
  {
    var ls := [Quoted(literals[n])];
    assert [Ref(n)][1..] == [] && Filled([Ref(n)], literals) == ls;
    assert ls[1..] == [] && Written(ls) == literals[n] + Written([]) == literals[n];
  }

  lemma RestoreGroup(p: seq<Sym>, n: nat, literals: seq<seq<Sym>>)
    requires Chars(p) && n < |literals|
    ensures Restore(Bracketed(p + [Ref(n)]), literals) == Group(p, literals[n])
  {
    RestoreChars([OPEN] + p, literals);
    RestoreRef(n, literals);
    RestoreChars([CLOSE], literals);
    RestoreAppend([OPEN] + p, [Ref(n)], literals);
    RestoreAppend([OPEN] + p + [Ref(n)], [CLOSE], literals);
    assert Bracketed(p + [Ref(n)]) == [OPEN] + p + [Ref(n)] + [CLOSE];
  }

  lemma TermsOfTwo(x: seq<Sym>, y: seq<Sym>)
    ensures Terms([Bracketed(x), Bracketed(y)]) == [Bracketed(x), Bracketed(y)]
  {
    EndsTrimmed(Bracketed(x));
    EndsTrimmed(Bracketed(y));
    var both, last := [Bracketed(x), Bracketed(y)], [Bracketed(y)];
    assert both[1..] == last && last[1..] == [] && Terms(last) == [Bracketed(y)] + Terms([]);
  }

  /** The alternatives meant are the two groups. */
  lemma TwinIntended(rules: Rules, p: seq<Sym>, q: seq<Sym>)
    requires Wordy(p) && Wordy(q) && rules.tidy(TwinShadow(p, q)) == TwinShadow(p, q)
    ensures Intended(rules, Twin(p, q)) == [Group(p, FIRST), Group(q, SECOND)]
  {
    var x, y, literals := p + [Ref(0)], q + [Ref(1)], [FIRST, SECOND];
    TwinShielded(p, q);
    TwinGroups(p, q);
    WordyGroups(p, 0);
    WordyGroups(q, 1);
    TwinTrimmed(p, q);
    ShadowNotWrapped(p, q);
    UnwrapsToItself(TwinShadow(p, q));
    SplitsAtOr(x, y);
    TermsOfTwo(x, y);
    RestoreGroup(p, 0, literals);
    RestoreGroup(q, 1, literals);
    var both := [Bracketed(x), Bracketed(y)];
    assert RestoreAll(both, literals) == [Restore(both[0], literals), Restore(both[1], literals)];
  }

  /** The filter is one term. */
  lemma TwinTerms(rules: Rules, p: seq<Sym>, q: seq<Sym>)
    requires Wordy(p) && Wordy(q) && rules.clean(TwinShadow(p, q)) == TwinShadow(p, q)
    ensures ExactTerms(rules, Twin(p, q)) == [Twin(p, q)]
  {
    var x, y, literals := p + [Ref(0)], q + [Ref(1)], [FIRST, SECOND];
    var f := TwinShadow(p, q);
    TwinShielded(p, q);
    TwinGroups(p, q);
    WordyGroups(p, 0);
    WordyGroups(q, 1);
    TwinTrimmed(p, q);
    ShadowNotWrapped(p, q);
    UnwrapsToItself(f);
    SplitsNowhere(x, y);
    assert [f][1..] == [] && Terms([f]) == [f];
    RestoreTwin(p, q);
    assert RestoreAll([f], literals) == [Restore(f, literals)];
  }

  lemma RestoreTwin(p: seq<Sym>, q: seq<Sym>)
    requires Wordy(p) && Wordy(q)
    ensures Restore(TwinShadow(p, q), [FIRST, SECOND]) == Twin(p, q)
  {
    var literals := [FIRST, SECOND];
    RestoreGroup(p, 0, literals);
    RestoreGroup(q, 1, literals);
    RestoreChars(OR, literals);
    var g, h := Bracketed(p + [Ref(0)]), Bracketed(q + [Ref(1)]);
    RestoreAppend(g + OR, h, literals);
    RestoreAppend(g, OR, literals);
    TwinGroups(p, q);
  }

  /** Both alternatives are policies of the relation. */
  lemma TwinIsPolicy(rules: Rules, quals: seq<seq<Sym>>, p: seq<Sym>, q: seq<Sym>)
    requires Wordy(p) && Wordy(q) && rules.tidy(TwinShadow(p, q)) == TwinShadow(p, q)
    requires Stands(rules, quals, Group(p, FIRST)) && Stands(rules, quals, Group(q, SECOND))
    ensures IsPolicy(rules, PolicyTermsOf(rules, quals), Twin(p, q))
  {
    TwinIntended(rules, p, q);
    StandsKnown(rules, quals, Group(p, FIRST));
    StandsKnown(rules, quals, Group(q, SECOND));
  }

  /** `qual` is a policy of the relation, with nothing in it to clean. */
  predicate Stands(rules: Rules, quals: seq<seq<Sym>>, qual: seq<Sym>) {
    qual in quals && QualText(rules, qual) == qual
  }

  lemma StandsKnown(rules: Rules, quals: seq<seq<Sym>>, qual: seq<Sym>)
    requires Stands(rules, quals, qual)
    ensures Unwrap(qual) in PolicyTermsOf(rules, quals)
  {
    assert qual in PolicyTexts(rules, qual);
  }

  lemma TwinShape(p: seq<Sym>, q: seq<Sym>)
    requires Wordy(p) && Wordy(q)
    ensures Balanced(Shadow(Twin(p, q))) && Flat(Unwrap(Shadow(Twin(p, q))))
  {
    TwinShielded(p, q);
    TwinGroups(p, q);
    WordyGroups(p, 0);
    WordyGroups(q, 1);
    TwoGroupsBalanced(p + [Ref(0)], q + [Ref(1)]);
    TwoGroupsFlat(p + [Ref(0)], q + [Ref(1)]);
    TwinTrimmed(p, q);
    ShadowNotWrapped(p, q);
    UnwrapsToItself(TwinShadow(p, q));
  }

  /**
    A filter whose two alternatives are both policies of the relation, but with an opening
    parenthesis in the literal of one and a closing one in the other's: unless it is a policy
    whole, its term is kept and its key is not empty, as if it were the statement's own.
   */
  lemma PolicyKept(rules: Rules, quals: seq<seq<Sym>>, p: seq<Sym>, q: seq<Sym>)
    requires Wordy(p) && Wordy(q)
    requires Stands(rules, quals, Group(p, FIRST)) && Stands(rules, quals, Group(q, SECOND))
    requires Unwrap(Twin(p, q)) !in PolicyTermsOf(rules, quals)
    requires rules.clean(TwinShadow(p, q)) == TwinShadow(p, q) && Tidied(rules, Twin(p, q))
    requires var key := Generalised(rules, Twin(p, q));
             rules.column(key) && !rules.setting(key) && !rules.live(Unwrap(key))
    ensures IsPolicy(rules, PolicyTermsOf(rules, quals), Twin(p, q))
    ensures Kept(rules, Twin(p, q), PolicyTermsOf(rules, quals))
    ensures Normalised(rules, Twin(p, q), PolicyTermsOf(rules, quals)) != []
  {
    var policy, s := PolicyTermsOf(rules, quals), Twin(p, q);
    TwinShielded(p, q);
    TwinChars(p, q);
    TwinIsPolicy(rules, quals, p, q);
    TwinShape(p, q);
    TwinOverstripped(p, q);
    RecognisedFlatIff(rules, policy, s);
    TwinTerms(rules, p, q);
    TwinTrimmed(p, q);
    KeptShows(rules, s, policy, s);
  }
}
