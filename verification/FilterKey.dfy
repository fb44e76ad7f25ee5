/** The grouping key of a filter: what it keeps of the filter, and which terms it drops as the relation's own policy. */
module FilterKey {
  import opened Text
  import opened FilterText

  const QUOTE := Ch('\'')
  const AND: seq<Sym> := [Ch(' '), Ch('A'), Ch('N'), Ch('D'), Ch(' ')]
  const OR: seq<Sym> := [Ch(' '), Ch('O'), Ch('R'), Ch(' ')]

  // ---- string literals ----

  /** A character outside every literal, or a literal with its quotes. */
  datatype Lexeme = Bare(x: Sym) | Quoted(text: seq<Sym>)

  /**
    Where the literal pattern, past its opening quote, ends its match: at the first quote that is
    not doubled, or, when there is none, at the last doubled one it has passed.
   */
  function LiteralEnd(s: seq<Sym>, j: nat, passed: Option<nat>): (e: Option<nat>)
    requires passed.Some? ==> passed.value < |s|
    ensures e.Some? ==> e == passed || j <= e.value < |s|
    decreases |s| - j
  {
    if j >= |s| then passed
    else if s[j] != QUOTE then LiteralEnd(s, j + 1, passed)
    else if j + 1 < |s| && s[j + 1] == QUOTE then LiteralEnd(s, j + 2, Some(j))
    else Some(j)
  }

  function Lex(s: seq<Sym>): seq<Lexeme>
    decreases |s|
  {
    if s == [] then []
    else
      var end := if s[0] == QUOTE then LiteralEnd(s, 1, None) else None;
      match end
      case None => [Bare(s[0])] + Lex(s[1..])
      case Some(e) => [Quoted(s[..e + 1])] + Lex(s[e + 1..])
  }

  function Written(ls: seq<Lexeme>): seq<Sym> {
    if ls == [] then []
    else (match ls[0] case Bare(x) => [x] case Quoted(text) => text) + Written(ls[1..])
  }

  /** The literals shielded: the `k`-th is written as its number, from `n` on. */
  function Shield(ls: seq<Lexeme>, n: nat): seq<Sym> {
    if ls == [] then []
    else match ls[0]
      case Bare(x) => [x] + Shield(ls[1..], n)
      case Quoted(_) => [Ref(n)] + Shield(ls[1..], n + 1)
  }

  function LiteralsOf(ls: seq<Lexeme>): seq<seq<Sym>> {
    if ls == [] then []
    else (match ls[0] case Bare(_) => [] case Quoted(text) => [text]) + LiteralsOf(ls[1..])
  }

  function Literals(s: seq<Sym>): seq<seq<Sym>> {
    LiteralsOf(Lex(s))
  }

  /** Every literal generalised to a question mark. */
  function Question(ls: seq<Lexeme>): seq<Sym> {
    if ls == [] then []
    else (match ls[0] case Bare(x) => [x] case Quoted(_) => [Ch('?')]) + Question(ls[1..])
  }

  function Filled(text: seq<Sym>, literals: seq<seq<Sym>>): seq<Lexeme> {
    if text == [] then []
    else
      (match text[0]
       case Ch(_) => [Bare(text[0])]
       case Ref(n) => if n < |literals| then [Quoted(literals[n])] else []) + Filled(text[1..], literals)
  }

  /** The shielded text with its literals put back. */
  function Restore(text: seq<Sym>, literals: seq<seq<Sym>>): seq<Sym> {
    Written(Filled(text, literals))
  }

  // ---- the key ----

  /**
    The rewriting rules, which look at no literal: `clean` and `tidy` remove casts and surplus
    blanks, `clean` also the relation's own qualifier; `finish` generalises parameters and numbers.
   */
  datatype Rules = Rules(
    clean: seq<Sym> -> seq<Sym>, tidy: seq<Sym> -> seq<Sym>, finish: seq<Sym> -> seq<Sym>,
    setting: seq<Sym> -> bool, column: seq<Sym> -> bool, live: seq<Sym> -> bool)

  function Generalised(rules: Rules, s: seq<Sym>): seq<Sym> {
    rules.finish(Question(Lex(s)))
  }

  function RestoreAll(terms: seq<seq<Sym>>, literals: seq<seq<Sym>>): (r: seq<seq<Sym>>)
    ensures |r| == |terms|
  {
    seq(|terms|, i requires 0 <= i < |terms| => Restore(terms[i], literals))
  }

  /** The top-level AND terms of a filter, with their literals. */
  function ExactTerms(rules: Rules, raw: seq<Sym>): seq<seq<Sym>> {
    RestoreAll(SplitTop(rules.clean(Shield(Lex(raw), 0)), AND), Literals(raw))
  }

  /** The OR alternatives of a term. */
  function Alternatives(rules: Rules, exact: seq<Sym>): seq<seq<Sym>> {
    var t := Unwrap(exact);
    RestoreAll(SplitTop(rules.tidy(Shield(Lex(t), 0)), OR), Literals(t))
  }

  function IsPolicyTerm(rules: Rules, exact: seq<Sym>, policy: set<seq<Sym>>): bool {
    || Unwrap(exact) in policy
    || var alternatives := Alternatives(rules, exact);
       && |alternatives| > 1
       && forall a :: a in alternatives ==> Unwrap(a) in policy || rules.setting(Generalised(rules, a))
  }

  /** What the relation's policies are known by: each whole, and each of its AND terms. */
  function PolicyTermsOf(rules: Rules, quals: seq<seq<Sym>>): set<seq<Sym>> {
    set q, t | q in quals && t in PolicyTexts(rules, q) :: Unwrap(t)
  }

  function QualText(rules: Rules, qual: seq<Sym>): seq<Sym> {
    Restore(rules.clean(Shield(Lex(qual), 0)), Literals(qual))
  }

  predicate Kept(rules: Rules, exact: seq<Sym>, policy: set<seq<Sym>>) {
    var key := Generalised(rules, exact);
    !rules.setting(key) && rules.column(key) && !IsPolicyTerm(rules, exact, policy)
  }

  function KeptKeys(rules: Rules, terms: seq<seq<Sym>>, policy: set<seq<Sym>>): seq<seq<Sym>> {
    if terms == [] then []
    else
      (if Kept(rules, terms[0], policy) then [Generalised(rules, terms[0])] else []) +
      KeptKeys(rules, terms[1..], policy)
  }

  function JoinKeys(keys: seq<seq<Sym>>): seq<Sym> {
    if keys == [] then []
    else [OPEN] + Unwrap(keys[0]) + [CLOSE] + (if |keys| == 1 then [] else AND + JoinKeys(keys[1..]))
  }

  /** The grouping key, empty when nothing of the statement's own is left. */
  function Normalised(rules: Rules, raw: seq<Sym>, policy: set<seq<Sym>>): seq<Sym> {
    if Trimmed(raw) == [] then []
    else
      var kept := KeptKeys(rules, ExactTerms(rules, raw), policy);
      if forall k :: k in kept ==> rules.live(Unwrap(k)) then [] else JoinKeys(kept)
  }

  // ---- reading literals back ----

  function Quote(v: seq<Sym>): seq<Sym> {
    [QUOTE] + Doubled(v, QUOTE) + [QUOTE]
  }

  ghost predicate IsLiteral(text: seq<Sym>) {
    exists v :: text == Quote(v)
  }

  predicate NoQuote(s: seq<Sym>) {
    QUOTE !in s
  }

  lemma {:induction false} EndsAtQuote(p: seq<Sym>, v: seq<Sym>, rest: seq<Sym>, passed: Option<nat>)
    requires passed.Some? ==> passed.value < |p|
    requires rest == [] || rest[0] != QUOTE
    ensures LiteralEnd(p + (Doubled(v, QUOTE) + ([QUOTE] + rest)), |p|, passed) == Some(|p| + |Doubled(v, QUOTE)|)
    decreases |v|
  {
    var s := p + (Doubled(v, QUOTE) + ([QUOTE] + rest));
    if v == [] {
      assert Doubled(v, QUOTE) + ([QUOTE] + rest) == [QUOTE] + rest;
      assert s[|p|] == QUOTE && (rest != [] ==> s[|p| + 1] == rest[0]);
    } else if v[0] == QUOTE {
      assert s == (p + [QUOTE, QUOTE]) + (Doubled(v[1..], QUOTE) + ([QUOTE] + rest));
      assert s[|p|] == QUOTE && s[|p| + 1] == QUOTE;
      EndsAtQuote(p + [QUOTE, QUOTE], v[1..], rest, Some(|p|));
    } else {
      assert s == (p + [v[0]]) + (Doubled(v[1..], QUOTE) + ([QUOTE] + rest));
      assert s[|p|] == v[0];
      EndsAtQuote(p + [v[0]], v[1..], rest, passed);
    }
  }

  lemma LexQuote(v: seq<Sym>, rest: seq<Sym>)
    requires rest == [] || rest[0] != QUOTE
    ensures Lex(Quote(v) + rest) == [Quoted(Quote(v))] + Lex(rest)
  {
    var s := Quote(v) + rest;
    assert s == [QUOTE] + (Doubled(v, QUOTE) + ([QUOTE] + rest));
    EndsAtQuote([QUOTE], v, rest, None);
    var e := 1 + |Doubled(v, QUOTE)|;
    assert s[..e + 1] == Quote(v) && s[e + 1..] == rest;
  }

  /** Two literals side by side read as one. */
  lemma {:induction false} DoubledJoins(v: seq<Sym>, w: seq<Sym>)
    ensures Doubled(v + w, QUOTE) == Doubled(v, QUOTE) + Doubled(w, QUOTE)
  {
    if v == [] {
      assert v + w == w;
    } else {
      assert (v + w)[1..] == v[1..] + w;
      DoubledJoins(v[1..], w);
    }
  }

  lemma QuotesJoin(a: seq<Sym>, b: seq<Sym>)
    requires IsLiteral(a) && IsLiteral(b)
    ensures IsLiteral(a + b)
  {
    var v :| a == Quote(v);
    var w :| b == Quote(w);
    DoubledJoins(v, [QUOTE] + w);
    assert ([QUOTE] + w)[1..] == w;
    assert a + b == Quote(v + ([QUOTE] + w));
  }

  // ---- lexemes as a filter may hold them ----

  ghost predicate Sound(l: Lexeme) {
    match l case Bare(x) => x != QUOTE case Quoted(text) => IsLiteral(text)
  }

  ghost predicate AllSound(ls: seq<Lexeme>) {
    forall l :: l in ls ==> Sound(l)
  }

  /** What is read of lexemes written down: the same, but that neighbouring literals are one. */
  function Merged(ls: seq<Lexeme>): seq<Lexeme> {
    if ls == [] then []
    else
      var rest := Merged(ls[1..]);
      if ls[0].Quoted? && rest != [] && rest[0].Quoted? then [Quoted(ls[0].text + rest[0].text)] + rest[1..]
      else [ls[0]] + rest
  }

  lemma WrittenCons(l: Lexeme, ls: seq<Lexeme>)
    ensures Written([l] + ls) == (match l case Bare(x) => [x] case Quoted(text) => text) + Written(ls)
  {
    assert ([l] + ls)[1..] == ls;
  }

  lemma LexPlain(x: Sym, rest: seq<Sym>)
    requires x != QUOTE
    ensures Lex([x] + rest) == [Bare(x)] + Lex(rest)
  {
    assert ([x] + rest)[1..] == rest;
  }

  predicate NoNeighbours(ls: seq<Lexeme>) {
    |ls| >= 2 ==> !(ls[0].Quoted? && ls[1].Quoted?) && NoNeighbours(ls[1..])
  }

  lemma WrittenStart(ls: seq<Lexeme>)
    requires AllSound(ls) && (ls != [] ==> ls[0].Bare?)
    ensures Written(ls) == [] || Written(ls)[0] != QUOTE
  {
    assert ls != [] ==> Sound(ls[0]);
  }

  lemma {:induction false} LexApart(ls: seq<Lexeme>)
    requires AllSound(ls) && NoNeighbours(ls)
    ensures Lex(Written(ls)) == ls
  {
    if ls != [] {
      var l, more := ls[0], ls[1..];
      assert Sound(l) && ls == [l] + more;
      LexApart(more);
      match l
      case Bare(x) => LexPlain(x, Written(more));
      case Quoted(text) =>
        var v :| text == Quote(v);
        WrittenStart(more);
        LexQuote(v, Written(more));
    }
  }

  lemma {:induction false} MergedIs(ls: seq<Lexeme>)
    requires AllSound(ls)
    ensures AllSound(Merged(ls)) && NoNeighbours(Merged(ls))
    ensures Written(Merged(ls)) == Written(ls)
  {
    if ls != [] {
      var l, rest := ls[0], Merged(ls[1..]);
      assert Sound(l);
      MergedIs(ls[1..]);
      if l.Quoted? && rest != [] && rest[0].Quoted? {
        assert Sound(rest[0]);
        QuotesJoin(l.text, rest[0].text);
        WrittenCons(Quoted(l.text + rest[0].text), rest[1..]);
        assert rest == [rest[0]] + rest[1..];
      } else {
        WrittenCons(l, rest);
        assert ([l] + rest)[1..] == rest;
      }
    }
  }

  /** What the lexer reads of lexemes written down. */
  lemma LexWritten(ls: seq<Lexeme>)
    requires AllSound(ls)
    ensures Lex(Written(ls)) == Merged(ls) && AllSound(Merged(ls))
  {
    MergedIs(ls);
    LexApart(Merged(ls));
  }

  // ---- values do not matter ----

  /** The same but for the values of literals. */
  predicate SameShape(a: seq<Lexeme>, b: seq<Lexeme>) {
    if a == [] || b == [] then a == b
    else (a[0] == b[0] || (a[0].Quoted? && b[0].Quoted?)) && SameShape(a[1..], b[1..])
  }

  lemma {:induction false} MergedShape(a: seq<Lexeme>, b: seq<Lexeme>)
    requires SameShape(a, b)
    ensures SameShape(Merged(a), Merged(b))
  {
    if a != [] {
      MergedShape(a[1..], b[1..]);
      var x, y := Merged(a[1..]), Merged(b[1..]);
      assert ([a[0]] + x)[1..] == x && ([b[0]] + y)[1..] == y;
    }
  }

  lemma {:induction false} ShapeShown(a: seq<Lexeme>, b: seq<Lexeme>, n: nat)
    requires SameShape(a, b)
    ensures Shield(a, n) == Shield(b, n) && Question(a) == Question(b)
    ensures |LiteralsOf(a)| == |LiteralsOf(b)|
  {
    if a != [] {
      ShapeShown(a[1..], b[1..], if a[0].Quoted? then n + 1 else n);
    }
  }

  /** Generalised and shielded text are the same for filters that differ in values only. */
  lemma SameText(rules: Rules, a: seq<Lexeme>, b: seq<Lexeme>)
    requires AllSound(a) && AllSound(b) && SameShape(a, b)
    ensures Generalised(rules, Written(a)) == Generalised(rules, Written(b))
    ensures Shield(Lex(Written(a)), 0) == Shield(Lex(Written(b)), 0)
    ensures |Literals(Written(a))| == |Literals(Written(b))|
  {
    LexWritten(a);
    LexWritten(b);
    MergedShape(a, b);
    ShapeShown(Merged(a), Merged(b), 0);
  }

  /** Symbols of shielded text: no quote, and only numbers of literals there are. */
  ghost predicate Shielded(text: seq<Sym>, count: nat) {
    forall x :: x in text ==> x != QUOTE && (x.Ref? ==> x.n < count)
  }

  ghost predicate AllLiterals(literals: seq<seq<Sym>>) {
    forall l :: l in literals ==> IsLiteral(l)
  }

  /** Raw text has no shields in it yet. */
  predicate Raw(ls: seq<Lexeme>) {
    forall l :: l in ls && l.Bare? ==> l.x.Ch?
  }

  lemma {:induction false} ShieldIs(ls: seq<Lexeme>, n: nat)
    requires AllSound(ls) && Raw(ls)
    ensures Shielded(Shield(ls, n), n + |LiteralsOf(ls)|) && AllLiterals(LiteralsOf(ls))
  {
    if ls != [] {
      assert Sound(ls[0]) && (ls[0].Bare? ==> ls[0].x.Ch?);
      ShieldIs(ls[1..], if ls[0].Quoted? then n + 1 else n);
    }
  }

  lemma {:induction false} MergedRaw(ls: seq<Lexeme>)
    requires Raw(ls)
    ensures Raw(Merged(ls))
  {
    if ls != [] {
      MergedRaw(ls[1..]);
      assert ls[0] in ls;
    }
  }

  lemma {:induction false} FilledShapes(text: seq<Sym>, a: seq<seq<Sym>>, b: seq<seq<Sym>>)
    requires |a| == |b| && AllLiterals(a) && AllLiterals(b) && Shielded(text, |a|)
    ensures AllSound(Filled(text, a)) && AllSound(Filled(text, b)) && SameShape(Filled(text, a), Filled(text, b))
  {
    if text != [] {
      assert text[0] in text;
      FilledShapes(text[1..], a, b);
      var x, y := Filled(text[1..], a), Filled(text[1..], b);
      match text[0]
      case Ch(_) =>
        assert ([Bare(text[0])] + x)[1..] == x && ([Bare(text[0])] + y)[1..] == y;
      case Ref(n) =>
        assert a[n] in a && b[n] in b;
        assert ([Quoted(a[n])] + x)[1..] == x && ([Quoted(b[n])] + y)[1..] == y;
    }
  }

  // ---- the symbols of terms ----

  ghost predicate Within(small: seq<Sym>, large: seq<Sym>) {
    forall x :: x in small ==> x in large
  }

  lemma TrimmedWithin(s: seq<Sym>)
    ensures Within(Trimmed(s), s)
  {
    var a, b := TrimmedIs(s);
  }

  lemma {:induction false} UnwrapWithin(t: seq<Sym>)
    ensures Within(Unwrap(t), t)
    decreases |t|
  {
    var s := Trimmed(t);
    TrimmedWithin(t);
    TrimmedShort(t);
    if FilterText.Wrapped(s) {
      WrappedLong(s);
      UnwrapWithin(s[1..|s| - 1]);
    }
  }

  ghost predicate AllWithin(pieces: seq<seq<Sym>>, large: seq<Sym>) {
    forall p :: p in pieces ==> Within(p, large)
  }

  lemma {:induction false} PiecesWithin(s: seq<Sym>, separator: seq<Sym>, start: nat, i: nat, depth: int)
    requires start <= |s| && i <= |s|
    ensures AllWithin(Pieces(s, separator, start, i, depth), s)
    decreases |s| - i
  {
    if i < |s| {
      if Weight(s[i]) == 0 && depth == 0 && Occurs(s, separator, i) {
        PiecesWithin(s, separator, i + |separator|, i + 1, depth);
      } else {
        PiecesWithin(s, separator, start, i + 1, depth + Weight(s[i]));
      }
    }
  }

  lemma {:induction false} TermsWithin(pieces: seq<seq<Sym>>, large: seq<Sym>)
    requires AllWithin(pieces, large)
    ensures AllWithin(Terms(pieces), large)
  {
    if pieces != [] {
      assert Within(pieces[0], large);
      TrimmedWithin(pieces[0]);
      TermsWithin(pieces[1..], large);
    }
  }

  lemma SplitWithin(f: seq<Sym>, separator: seq<Sym>)
    ensures AllWithin(SplitTop(f, separator), f)
  {
    var s := Unwrap(f);
    UnwrapWithin(f);
    PiecesWithin(s, separator, 0, 0, 0);
    TermsWithin(Pieces(s, separator, 0, 0, 0), s);
  }

  // ---- same values, same key ----

  /** The rules only remove text, or turn it into blanks. */
  ghost predicate OnlyRemoves(rules: Rules) {
    forall t, x :: x in rules.clean(t) ==> x in t || x == Ch(' ')
  }

  /** The term does not hide a setting: its alternatives, several, do not all read one when its own key shows none. */
  predicate ShowsSetting(rules: Rules, s: seq<Sym>) {
    var alternatives := Alternatives(rules, s);
    |alternatives| > 1 && (forall a :: a in alternatives ==> rules.setting(Generalised(rules, a))) ==>
      rules.setting(Generalised(rules, s))
  }

  ghost predicate AllShow(rules: Rules, terms: seq<seq<Sym>>) {
    forall s :: s in terms ==> ShowsSetting(rules, s)
  }

  lemma NoPolicy(rules: Rules, s: seq<Sym>)
    ensures IsPolicyTerm(rules, s, {}) <==>
            var alternatives := Alternatives(rules, s);
            |alternatives| > 1 && forall a :: a in alternatives ==> rules.setting(Generalised(rules, a))
  {
  }

  /** With no policy, terms of the same key are kept or dropped together. */
  lemma {:induction false} SameKept(rules: Rules, a: seq<seq<Sym>>, b: seq<seq<Sym>>)
    requires |a| == |b| && AllShow(rules, a) && AllShow(rules, b)
    requires forall i :: 0 <= i < |a| ==> Generalised(rules, a[i]) == Generalised(rules, b[i])
    ensures KeptKeys(rules, a, {}) == KeptKeys(rules, b, {})
  {
    if a != [] {
      assert a[0] in a && b[0] in b;
      NoPolicy(rules, a[0]);
      NoPolicy(rules, b[0]);
      SameKept(rules, a[1..], b[1..]);
    }
  }

  /**
    A raw filter that is not blank: one written with some character outside its literals that is no
    blank, or a literal.
   */
  lemma {:induction false} BlankAlike(a: seq<Lexeme>, b: seq<Lexeme>)
    requires AllSound(a) && AllSound(b) && SameShape(a, b)
    ensures Blanks(Written(a)) <==> Blanks(Written(b))
  {
    if a != [] {
      assert Sound(a[0]) && Sound(b[0]);
      BlankAlike(a[1..], b[1..]);
      WrittenBlanks(a);
      WrittenBlanks(b);
    }
  }

  predicate Blanks(s: seq<Sym>) {
    forall x :: x in s ==> IsBlank(x)
  }

  lemma WrittenBlanks(a: seq<Lexeme>)
    requires a != [] && Sound(a[0])
    ensures Blanks(Written(a)) <==> a[0].Bare? && IsBlank(a[0].x) && Blanks(Written(a[1..]))
  {
    if a[0].Quoted? {
      assert a[0].text[0] == QUOTE && QUOTE in a[0].text;
      assert QUOTE in Written(a);
    } else {
      assert a[0].x in Written(a);
      assert forall x :: x in Written(a) <==> x == a[0].x || x in Written(a[1..]);
    }
  }

  lemma TrimmedEmpty(s: seq<Sym>)
    ensures Trimmed(s) == [] <==> Blanks(s)
  {
    var a, b := TrimmedIs(s);
    assert a < b ==> s[a] in s;
  }

  /** With no policy, filters that differ only in the values of their literals have the same key. */
  lemma SameKey(rules: Rules, a: seq<Lexeme>, b: seq<Lexeme>)
    requires OnlyRemoves(rules) && AllSound(a) && AllSound(b) && Raw(a) && Raw(b) && SameShape(a, b)
    requires AllShow(rules, ExactTerms(rules, Written(a))) && AllShow(rules, ExactTerms(rules, Written(b)))
    ensures Normalised(rules, Written(a), {}) == Normalised(rules, Written(b), {})
  {
    BlankAlike(a, b);
    TrimmedEmpty(Written(a));
    TrimmedEmpty(Written(b));
    SameTerms(rules, a, b);
    SameKept(rules, ExactTerms(rules, Written(a)), ExactTerms(rules, Written(b)));
  }

  /** Such filters have the same terms but for the values, so no word inside a literal ever splits one. */
  lemma SameTerms(rules: Rules, a: seq<Lexeme>, b: seq<Lexeme>)
    requires OnlyRemoves(rules) && AllSound(a) && AllSound(b) && Raw(a) && Raw(b) && SameShape(a, b)
    ensures var x, y := ExactTerms(rules, Written(a)), ExactTerms(rules, Written(b));
            |x| == |y| && forall i :: 0 <= i < |x| ==> Generalised(rules, x[i]) == Generalised(rules, y[i])
  {
    SameText(rules, a, b);
    var f := rules.clean(Shield(Lex(Written(a)), 0));
    var p, q := Literals(Written(a)), Literals(Written(b));
    LiteralsSound(a);
    LiteralsSound(b);
    SplitWithin(f, AND);
    var terms := SplitTop(f, AND);
    forall i | 0 <= i < |terms|
      ensures Generalised(rules, Restore(terms[i], p)) == Generalised(rules, Restore(terms[i], q))
    {
      assert Within(terms[i], f);
      FilledShapes(terms[i], p, q);
      SameText(rules, Filled(terms[i], p), Filled(terms[i], q));
    }
  }

  lemma LiteralsSound(a: seq<Lexeme>)
    requires AllSound(a) && Raw(a)
    ensures AllLiterals(Literals(Written(a)))
    ensures Shielded(Shield(Lex(Written(a)), 0), |Literals(Written(a))|)
  {
    LexWritten(a);
    MergedRaw(a);
    ShieldIs(Merged(a), 0);
  }

  // ---- the relation's own policy ----

  function PolicyTexts(rules: Rules, qual: seq<Sym>): seq<seq<Sym>> {
    [QualText(rules, qual)] + ExactTerms(rules, qual)
  }

  method CollectPolicyTerms(rules: Rules, quals: seq<seq<Sym>>) returns (out: set<seq<Sym>>)
    ensures out == PolicyTermsOf(rules, quals)
  {
    out := {};
    for i := 0 to |quals|
      invariant out == PolicyTermsOf(rules, quals[..i])
    {
      LastOf(quals, i);
      PolicyTermsMore(rules, quals[..i], quals[i]);
      out := AddUnwrapped(out, PolicyTexts(rules, quals[i]));
    }
    assert quals[..|quals|] == quals;
  }

  lemma LastOf<T>(s: seq<T>, i: nat)
    requires i < |s|
    ensures s[..i + 1] == s[..i] + [s[i]]
  {
  }

  method AddUnwrapped(before: set<seq<Sym>>, texts: seq<seq<Sym>>) returns (out: set<seq<Sym>>)
    ensures out == before + UnwrappedSet(texts)
  {
    out := before;
    for k := 0 to |texts|
      invariant out == before + UnwrappedSet(texts[..k])
    {
      LastOf(texts, k);
      UnwrappedMore(texts[..k], texts[k]);
      out := out + {Unwrap(texts[k])};
    }
    assert texts[..|texts|] == texts;
  }

  lemma UnwrappedMore(texts: seq<seq<Sym>>, t: seq<Sym>)
    ensures UnwrappedSet(texts + [t]) == UnwrappedSet(texts) + {Unwrap(t)}
  {
    assert forall x :: x in texts + [t] <==> x in texts || x == t;
    assert t in texts + [t];
    forall u | u in UnwrappedSet(texts) ensures u in UnwrappedSet(texts + [t]) {
      var x :| x in texts && Unwrap(x) == u;
      assert x in texts + [t];
    }
  }

  function UnwrappedSet(texts: seq<seq<Sym>>): set<seq<Sym>> {
    set t | t in texts :: Unwrap(t)
  }

  lemma PolicyTermsMore(rules: Rules, quals: seq<seq<Sym>>, qual: seq<Sym>)
    ensures PolicyTermsOf(rules, quals + [qual]) == PolicyTermsOf(rules, quals) + UnwrappedSet(PolicyTexts(rules, qual))
  {
    var more := quals + [qual];
    assert forall q :: q in more <==> q in quals || q == qual;
    forall u | u in PolicyTermsOf(rules, quals) ensures u in PolicyTermsOf(rules, more) {
      var q, t :| q in quals && t in PolicyTexts(rules, q) && Unwrap(t) == u;
      assert q in more;
    }
    forall u | u in UnwrappedSet(PolicyTexts(rules, qual)) ensures u in PolicyTermsOf(rules, more) {
      var t :| t in PolicyTexts(rules, qual) && Unwrap(t) == u;
      assert qual in more;
    }
    forall u | u in PolicyTermsOf(rules, more)
      ensures u in PolicyTermsOf(rules, quals) + UnwrappedSet(PolicyTexts(rules, qual))
    {
      var q, t :| q in more && t in PolicyTexts(rules, q) && Unwrap(t) == u;
    }
  }

  lemma {:induction false} NothingKept(rules: Rules, terms: seq<seq<Sym>>, policy: set<seq<Sym>>)
    requires forall t :: t in terms ==> Unwrap(t) in policy
    ensures KeptKeys(rules, terms, policy) == []
  {
    if terms != [] {
      assert terms[0] in terms;
      NothingKept(rules, terms[1..], policy);
    }
  }

  /** A filter that is one of the relation's policies has nothing of its own: its key is empty. */
  lemma PolicyVanishes(rules: Rules, quals: seq<seq<Sym>>, qual: seq<Sym>)
    requires qual in quals
    ensures Normalised(rules, qual, PolicyTermsOf(rules, quals)) == []
  {
    var policy := PolicyTermsOf(rules, quals);
    var terms := ExactTerms(rules, qual);
    forall t | t in terms ensures Unwrap(t) in policy {
      assert t in PolicyTexts(rules, qual);
    }
    NothingKept(rules, terms, policy);
  }

  // ---- a policy's values count ----

  lemma {:induction false} LiteralsAfter(p: seq<Sym>, s: seq<Sym>)
    requires NoQuote(p)
    ensures Literals(p + s) == Literals(s)
  {
    if p == [] {
      assert p + s == s;
    } else {
      assert p + s == [p[0]] + (p[1..] + s);
      assert NoQuote(p[1..]);
      LiteralsAfter(p[1..], s);
      LexPlain(p[0], p[1..] + s);
    }
  }

  lemma {:induction false} EndBefore(s: seq<Sym>, q: seq<Sym>, j: nat, passed: Option<nat>)
    requires NoQuote(q) && (passed.Some? ==> passed.value < |s|)
    ensures LiteralEnd(s + q, j, passed) == LiteralEnd(s, j, passed)
    decreases |s + q| - j
  {
    if j < |s + q| {
      if j >= |s| {
        assert (s + q)[j] == q[j - |s|];
        EndBefore(s, q, j + 1, passed);
      } else if s[j] != QUOTE {
        EndBefore(s, q, j + 1, passed);
      } else if j + 1 < |s| && s[j + 1] == QUOTE {
        EndBefore(s, q, j + 2, Some(j));
      } else if j + 1 == |s| && q != [] {
        assert (s + q)[j + 1] == q[0];
      }
    }
  }

  lemma {:induction false} LiteralsBefore(s: seq<Sym>, q: seq<Sym>)
    requires NoQuote(q)
    ensures Literals(s + q) == Literals(s)
    decreases |s|
  {
    if s == [] {
      LiteralsAfter(q, []);
      assert s + q == q && q + [] == q;
    } else {
      EndBefore(s, q, 1, None);
      var end := if s[0] == QUOTE then LiteralEnd(s, 1, None) else None;
      var e := if end.Some? then end.value else 0;
      assert (s + q)[..e + 1] == s[..e + 1] && (s + q)[e + 1..] == s[e + 1..] + q;
      LiteralsBefore(s[e + 1..], q);
      FirstLiteral(s, end, e);
      FirstLiteral(s + q, end, e);
    }
  }

  lemma LiteralsCons(l: Lexeme, ls: seq<Lexeme>)
    ensures LiteralsOf([l] + ls) == (match l case Bare(_) => [] case Quoted(text) => [text]) + LiteralsOf(ls)
  {
    assert ([l] + ls)[1..] == ls;
  }

  lemma FirstLiteral(s: seq<Sym>, end: Option<nat>, e: nat)
    requires s != [] && end == (if s[0] == QUOTE then LiteralEnd(s, 1, None) else None)
    requires e == (if end.Some? then end.value else 0)
    ensures Literals(s) == (if end.Some? then [s[..e + 1]] else []) + Literals(s[e + 1..])
  {
    LiteralsCons(if end.Some? then Quoted(s[..e + 1]) else Bare(s[0]), Lex(s[e + 1..]));
  }

  /** `s` stands in `t` between texts without a quote. */
  ghost predicate Around(p: seq<Sym>, s: seq<Sym>, q: seq<Sym>, t: seq<Sym>) {
    t == p + s + q && NoQuote(p) && NoQuote(q)
  }

  lemma AroundTwice(p: seq<Sym>, s: seq<Sym>, q: seq<Sym>, t: seq<Sym>, u: seq<Sym>, r: seq<Sym>, v: seq<Sym>)
    requires Around(p, s, q, t) && Around(u, r, v, s)
    ensures Around(p + u, r, v + q, t)
  {
  }

  lemma TrimmedAround(t: seq<Sym>) returns (p: seq<Sym>, q: seq<Sym>)
    ensures Around(p, Trimmed(t), q, t)
  {
    var a, b := TrimmedIs(t);
    p, q := t[..a], t[b..];
    BlanksNoQuote(p);
    BlanksNoQuote(q);
    assert t == p + t[a..b] + q;
  }

  /** Unwrapping takes no quote away. */
  lemma {:induction false} StripAround(s: seq<Sym>) returns (p: seq<Sym>, q: seq<Sym>)
    ensures Around(p, Strip(s), q, s)
    decreases |s|
  {
    p, q := [], [];
    if FilterText.Wrapped(s) {
      WrappedLong(s);
      var inner := s[1..|s| - 1];
      TrimmedShort(inner);
      assert Around([OPEN], inner, [CLOSE], s);
      var a, b := TrimmedAround(inner);
      AroundTwice([OPEN], inner, [CLOSE], s, a, Trimmed(inner), b);
      var u, v := StripAround(Trimmed(inner));
      p, q := [OPEN] + a + u, v + (b + [CLOSE]);
      AroundTwice([OPEN] + a, Trimmed(inner), b + [CLOSE], s, u, Strip(s), v);
    }
  }

  lemma BlanksNoQuote(s: seq<Sym>)
    requires forall i :: 0 <= i < |s| ==> IsBlank(s[i])
    ensures NoQuote(s)
  {
  }

  lemma UnwrapLiterals(t: seq<Sym>)
    ensures Literals(Unwrap(t)) == Literals(t)
  {
    var a, b := TrimmedAround(t);
    var u, v := StripAround(Trimmed(t));
    var p, q := a + u, v + b;
    AroundTwice(a, Trimmed(t), b, t, u, Unwrap(t), v);
    LiteralsBefore(p + Unwrap(t), q);
    LiteralsAfter(p, Unwrap(t));
  }

  /** Texts that are the same once unwrapped hold the same literals, in order, to the letter. */
  lemma SameLiterals(a: seq<Sym>, b: seq<Sym>)
    requires Unwrap(a) == Unwrap(b)
    ensures Literals(a) == Literals(b)
  {
    UnwrapLiterals(a);
    UnwrapLiterals(b);
  }

  /** `text` is a policy's qual or one of its terms but for enclosing parentheses, with the same literals. */
  ghost predicate PolicyHolds(rules: Rules, quals: seq<seq<Sym>>, text: seq<Sym>) {
    exists q, t ::
      q in quals && t in PolicyTexts(rules, q) && Unwrap(text) == Unwrap(t) && Literals(text) == Literals(t)
  }

  lemma InPolicy(rules: Rules, quals: seq<seq<Sym>>, text: seq<Sym>)
    ensures Unwrap(text) in PolicyTermsOf(rules, quals) <==> PolicyHolds(rules, quals, text)
  {
    if Unwrap(text) in PolicyTermsOf(rules, quals) {
      var q, t :| q in quals && t in PolicyTexts(rules, q) && Unwrap(text) == Unwrap(t);
      SameLiterals(text, t);
    }
  }

  /**
    A term is dropped as the relation's policy exactly when it, or each of at least two OR
    alternatives, is a policy's own text with the same literal values, or, for an alternative,
    reads a session setting.
   */
  lemma DroppedIff(rules: Rules, quals: seq<seq<Sym>>, exact: seq<Sym>)
    ensures IsPolicyTerm(rules, exact, PolicyTermsOf(rules, quals)) <==>
            || PolicyHolds(rules, quals, exact)
            || (|Alternatives(rules, exact)| > 1 &&
                forall a :: a in Alternatives(rules, exact) ==>
                  PolicyHolds(rules, quals, a) || rules.setting(Generalised(rules, a)))
  {
    InPolicy(rules, quals, exact);
    forall a | a in Alternatives(rules, exact)
      ensures Unwrap(a) in PolicyTermsOf(rules, quals) <==> PolicyHolds(rules, quals, a)
    {
      InPolicy(rules, quals, a);
    }
  }
}
