/** Terms with nothing left to tidy hide no session setting, so their keys do not depend on values. */
module TidyTerms {
  import opened Text
  import opened FilterText
  import opened FilterKey
  import opened PolicyTerms

  // ---- parts of a text ----

  ghost predicate PartOf(t: seq<Sym>, f: seq<Sym>) {
    exists x, y :: f == x + t + y
  }

  lemma PartOfPart(t: seq<Sym>, m: seq<Sym>, f: seq<Sym>)
    requires PartOf(t, m) && PartOf(m, f)
    ensures PartOf(t, f)
  {
    var x, y :| m == x + t + y;
    var p, q :| f == p + m + q;
    assert f == (p + x) + t + (y + q);
  }

  lemma SlicePart(f: seq<Sym>, a: nat, b: nat)
    requires a <= b <= |f|
    ensures PartOf(f[a..b], f)
  {
    assert f == f[..a] + f[a..b] + f[b..];
  }

  lemma TrimmedPart(f: seq<Sym>)
    ensures PartOf(Trimmed(f), f)
  {
    var p, q := TrimParts(f);
  }

  lemma UnwrapPart(f: seq<Sym>)
    ensures PartOf(Unwrap(f), f)
  {
    var p, q := StripNested(Trimmed(f));
    TrimmedPart(f);
    PartOfPart(Unwrap(f), Trimmed(f), f);
  }

  ghost predicate AllParts(pieces: seq<seq<Sym>>, f: seq<Sym>) {
    forall p :: p in pieces ==> PartOf(p, f)
  }

  lemma {:induction false} PiecesParts(s: seq<Sym>, separator: seq<Sym>, start: nat, i: nat, depth: int)
    requires start <= |s| && i <= |s|
    ensures AllParts(Pieces(s, separator, start, i, depth), s)
    decreases |s| - i
  {
    if i == |s| {
      SlicePart(s, start, |s|);
      assert s[start..] == s[start..|s|];
    } else if Weight(s[i]) == 0 && depth == 0 && Occurs(s, separator, i) {
      PiecesParts(s, separator, i + |separator|, i + 1, depth);
      if start <= i {
        SlicePart(s, start, i);
      } else {
        SlicePart(s, 0, 0);
        assert s[0..0] == [];
      }
    } else {
      PiecesParts(s, separator, start, i + 1, depth + Weight(s[i]));
    }
  }

  lemma {:induction false} TermsParts(pieces: seq<seq<Sym>>, f: seq<Sym>)
    requires AllParts(pieces, f)
    ensures AllParts(Terms(pieces), f)
  {
    if pieces != [] {
      assert PartOf(pieces[0], f);
      TrimmedPart(pieces[0]);
      PartOfPart(Trimmed(pieces[0]), pieces[0], f);
      TermsParts(pieces[1..], f);
    }
  }

  /** Every term is a part of the text it is split from. */
  lemma SplitParts(f: seq<Sym>, separator: seq<Sym>)
    ensures AllParts(SplitTop(f, separator), f)
  {
    var s := Unwrap(f);
    PiecesParts(s, separator, 0, 0, 0);
    TermsParts(Pieces(s, separator, 0, 0, 0), s);
    UnwrapPart(f);
    forall t | t in SplitTop(f, separator) ensures PartOf(t, f) {
      PartOfPart(t, s, f);
    }
  }

  // ---- shielded text and its lexemes ----

  /** The shielded text of the lexemes, given the literals its numbers stand for. */
  predicate Stands(f: seq<Sym>, ls: seq<Lexeme>, literals: seq<seq<Sym>>) {
    |f| == |ls| &&
    forall i :: 0 <= i < |f| ==>
      match ls[i]
      case Bare(x) => f[i] == x && x.Ch?
      case Quoted(text) => f[i].Ref? && f[i].n < |literals| && literals[f[i].n] == text
  }

  lemma {:induction false} ShieldStands(ls: seq<Lexeme>, before: seq<seq<Sym>>)
    requires Raw(ls)
    ensures Stands(Shield(ls, |before|), ls, before + LiteralsOf(ls))
  {
    if ls != [] {
      assert ls[0] in ls && forall l :: l in ls[1..] ==> l in ls;
      assert ls == [ls[0]] + ls[1..];
      ShieldCons(ls[0], ls[1..], |before|);
      LiteralsCons(ls[0], ls[1..]);
      match ls[0]
      case Bare(x) =>
        ShieldStands(ls[1..], before);
        assert before + LiteralsOf(ls) == before + LiteralsOf(ls[1..]);
        StandsCons(x, ls[0], Shield(ls[1..], |before|), ls[1..], before + LiteralsOf(ls));
      case Quoted(text) =>
        ShieldStands(ls[1..], before + [text]);
        assert before + LiteralsOf(ls) == before + [text] + LiteralsOf(ls[1..]);
        StandsCons(Ref(|before|), ls[0], Shield(ls[1..], |before| + 1), ls[1..], before + LiteralsOf(ls));
    }
  }

  lemma StandsCons(x: Sym, l: Lexeme, f: seq<Sym>, ls: seq<Lexeme>, literals: seq<seq<Sym>>)
    requires Stands(f, ls, literals)
    requires match l
             case Bare(c) => x == c && x.Ch?
             case Quoted(text) => x.Ref? && x.n < |literals| && literals[x.n] == text
    ensures Stands([x] + f, [l] + ls, literals)
  {
  }

  lemma {:induction false} FilledStands(f: seq<Sym>, ls: seq<Lexeme>, literals: seq<seq<Sym>>)
    requires Stands(f, ls, literals)
    ensures Filled(f, literals) == ls
  {
    if f != [] {
      FilledStands(f[1..], ls[1..], literals);
      assert ls == [ls[0]] + ls[1..];
    }
  }

  /** What generalising leaves of shielded text: a question mark for every literal. */
  function Marked(f: seq<Sym>): seq<Sym> {
    seq(|f|, i requires 0 <= i < |f| => if f[i].Ref? then Ch('?') else f[i])
  }

  lemma {:induction false} QuestionStands(f: seq<Sym>, ls: seq<Lexeme>, literals: seq<seq<Sym>>)
    requires Stands(f, ls, literals)
    ensures Question(ls) == Marked(f)
  {
    if f != [] {
      QuestionStands(f[1..], ls[1..], literals);
      assert Marked(f) == Marked(f[..1]) + Marked(f[1..]);
    }
  }

  lemma {:induction false} RawLex(s: seq<Sym>)
    requires Chars(s)
    ensures Raw(Lex(s))
    decreases |s|
  {
    if s != [] {
      var end := if s[0] == QUOTE then LiteralEnd(s, 1, None) else None;
      var e := if end.Some? then end.value else 0;
      assert forall x :: x in s[e + 1..] ==> x in s;
      RawLex(s[e + 1..]);
    }
  }

  lemma LexStands(s: seq<Sym>)
    requires Chars(s)
    ensures Stands(Shadow(s), Lex(s), Literals(s))
  {
    RawLex(s);
    ShieldStands(Lex(s), []);
    assert [] + Literals(s) == Literals(s);
  }

  lemma Divide(s: seq<Sym>, k: nat)
    requires k <= |s|
    ensures s[..k] + s[k..] == s
    ensures k == 1 ==> s[..k] == [s[0]]
  {
  }

  lemma {:induction false} WrittenLex(s: seq<Sym>)
    ensures Written(Lex(s)) == s
    decreases |s|
  {
    if s != [] {
      var end := if s[0] == QUOTE then LiteralEnd(s, 1, None) else None;
      var e := if end.Some? then end.value else 0;
      var l := if end.Some? then Quoted(s[..e + 1]) else Bare(s[0]);
      assert Lex(s) == [l] + Lex(s[e + 1..]);
      WrittenLex(s[e + 1..]);
      WrittenCons(l, Lex(s[e + 1..]));
      Divide(s, e + 1);
    }
  }

  // ---- lexemes of a part ----

  lemma SoundApart(s: seq<Sym>)
    requires AllSound(Lex(s))
    ensures NoNeighbours(Lex(s))
  {
    WrittenLex(s);
    LexWritten(Lex(s));
    MergedIs(Lex(s));
  }

  lemma {:induction false} NeighboursAt(ls: seq<Lexeme>)
    ensures NoNeighbours(ls) <==> forall i, j :: 0 <= i && j == i + 1 < |ls| ==> !(ls[i].Quoted? && ls[j].Quoted?)
  {
    if |ls| >= 2 {
      var more := ls[1..];
      NeighboursAt(more);
      assert forall i :: 0 <= i < |more| ==> more[i] == ls[i + 1];
      if NoNeighbours(ls) {
        forall i, j | 0 <= i && j == i + 1 < |ls| ensures !(ls[i].Quoted? && ls[j].Quoted?) {
          if i > 0 {
            assert more[i - 1] == ls[i] && more[j - 1] == ls[j];
          }
        }
      }
      if forall i, j :: 0 <= i && j == i + 1 < |ls| ==> !(ls[i].Quoted? && ls[j].Quoted?) {
        forall i, j | 0 <= i && j == i + 1 < |more| ensures !(more[i].Quoted? && more[j].Quoted?) {
          assert more[i] == ls[i + 1] && more[j] == ls[j + 1];
        }
      }
    }
  }

  lemma SliceApart(ls: seq<Lexeme>, a: nat, b: nat)
    requires a <= b <= |ls| && NoNeighbours(ls) && AllSound(ls)
    ensures NoNeighbours(ls[a..b]) && AllSound(ls[a..b])
  {
    var part := ls[a..b];
    NeighboursAt(ls);
    NeighboursAt(part);
    forall i, j | 0 <= i && j == i + 1 < |part| ensures !(part[i].Quoted? && part[j].Quoted?) {
      assert part[i] == ls[a + i] && part[j] == ls[a + j];
    }
    assert forall l :: l in part ==> l in ls;
  }

  lemma StandsSlice(f: seq<Sym>, ls: seq<Lexeme>, literals: seq<seq<Sym>>, a: nat, b: nat)
    requires Stands(f, ls, literals) && a <= b <= |f|
    ensures Stands(f[a..b], ls[a..b], literals)
  {
    assert forall i :: 0 <= i < b - a ==> f[a..b][i] == f[a + i] && ls[a..b][i] == ls[a + i];
  }

  lemma StandsReads(t: seq<Sym>, part: seq<Lexeme>, literals: seq<seq<Sym>>)
    requires Stands(t, part, literals) && AllSound(part) && NoNeighbours(part)
    ensures Question(Lex(Restore(t, literals))) == Marked(t)
  {
    FilledStands(t, part, literals);
    LexApart(part);
    QuestionStands(t, part, literals);
  }

  /** A part of the shielded text, its literals put back, reads as that part. */
  lemma PartReads(u: seq<Sym>, x: seq<Sym>, t: seq<Sym>, y: seq<Sym>)
    requires Chars(u) && AllSound(Lex(u)) && Shadow(u) == x + t + y
    ensures Question(Lex(Restore(t, Literals(u)))) == Marked(t)
  {
    var a, b := |x|, |x| + |t|;
    LexStands(u);
    SoundApart(u);
    SliceApart(Lex(u), a, b);
    assert t == Shadow(u)[a..b];
    StandsSlice(Shadow(u), Lex(u), Literals(u), a, b);
    StandsReads(t, Lex(u)[a..b], Literals(u));
  }

  // ---- unwrapping leaves the lexemes sound ----

  /** Every quote of the text is in a literal. */
  ghost predicate SoundText(s: seq<Sym>) {
    QUOTE !in Shadow(s) && AllLiterals(Literals(s))
  }

  lemma {:induction false} LiteralsIn(ls: seq<Lexeme>, text: seq<Sym>)
    ensures text in LiteralsOf(ls) <==> Quoted(text) in ls
  {
    if ls != [] {
      LiteralsIn(ls[1..], text);
    }
  }

  lemma SoundTextIff(s: seq<Sym>)
    requires Chars(s)
    ensures SoundText(s) <==> AllSound(Lex(s))
  {
    var ls, f := Lex(s), Shadow(s);
    LexStands(s);
    forall text ensures text in Literals(s) <==> Quoted(text) in ls {
      LiteralsIn(ls, text);
    }
    if SoundText(s) {
      forall l | l in ls ensures Sound(l) {
        var i :| 0 <= i < |ls| && ls[i] == l;
        assert f[i] in f;
      }
    }
    if AllSound(ls) {
      forall x | x in f ensures x != QUOTE {
        var i :| 0 <= i < |f| && f[i] == x;
        assert ls[i] in ls && Sound(ls[i]);
      }
      forall l | l in Literals(s) ensures IsLiteral(l) {
        assert Quoted(l) in ls && Sound(Quoted(l));
      }
    }
  }

  /** The text around what is left after unwrapping. */
  lemma UnwrapShadow(s: seq<Sym>) returns (p: seq<Sym>, q: seq<Sym>)
    ensures Shadow(s) == p + Shadow(Unwrap(s)) + q
  {
    var a, b := TrimParts(s);
    var u, v := StripNested(Trimmed(s));
    EdgesNoQuote(u, v);
    assert NoQuote(a) && NoQuote(b);
    p, q := a + u, v + b;
    assert s == p + Unwrap(s) + q;
    ShadowAround(p, Unwrap(s), q);
  }

  lemma UnwrapSound(s: seq<Sym>)
    requires Chars(s) && AllSound(Lex(s))
    ensures Chars(Unwrap(s)) && AllSound(Lex(Unwrap(s)))
  {
    UnwrapWithin(s);
    SoundTextIff(s);
    SoundTextIff(Unwrap(s));
    UnwrapLiterals(s);
    var p, q := UnwrapShadow(s);
    assert forall x :: x in Shadow(Unwrap(s)) ==> x in Shadow(s);
  }

  // ---- a term shows what its alternatives show ----

  /** A text that is generalised shows a setting when a part of it does: a call is found where it stands. */
  ghost predicate PartsShow(rules: Rules) {
    forall x, t, y :: rules.setting(rules.finish(t)) ==> rules.setting(rules.finish(x + t + y))
  }

  lemma MarkedParts(x: seq<Sym>, t: seq<Sym>, y: seq<Sym>)
    ensures Marked(x + t + y) == Marked(x) + Marked(t) + Marked(y)
  {
  }

  /** The unwrapped text is tidied already. */
  predicate Tidy(rules: Rules, s: seq<Sym>) {
    rules.tidy(Shadow(Unwrap(s))) == Shadow(Unwrap(s))
  }

  lemma AlternativeShows(rules: Rules, s: seq<Sym>, a: seq<Sym>)
    requires PartsShow(rules) && Tidy(rules, s) && Chars(s) && AllSound(Lex(s))
    requires a in Alternatives(rules, s) && rules.setting(Generalised(rules, a))
    ensures rules.setting(Generalised(rules, s))
  {
    var u := Unwrap(s);
    UnwrapSound(s);
    var terms := SplitTop(Shadow(u), OR);
    var i :| 0 <= i < |terms| && RestoreAll(terms, Literals(u))[i] == a;
    SplitParts(Shadow(u), OR);
    assert PartOf(terms[i], Shadow(u));
    var x, y :| Shadow(u) == x + terms[i] + y;
    PartReads(u, x, terms[i], y);
    ShowsWhole(rules, s, x, terms[i], y);
  }

  lemma ShowsWhole(rules: Rules, s: seq<Sym>, x: seq<Sym>, t: seq<Sym>, y: seq<Sym>)
    requires PartsShow(rules) && Chars(s) && Shadow(Unwrap(s)) == x + t + y
    requires rules.setting(rules.finish(Marked(t)))
    ensures rules.setting(Generalised(rules, s))
  {
    var p, q := UnwrapShadow(s);
    LexStands(s);
    QuestionStands(Shadow(s), Lex(s), Literals(s));
    assert Shadow(s) == (p + x) + t + (y + q);
    MarkedParts(p + x, t, y + q);
  }

  /** A tidied term hides no setting. */
  lemma TidyShows(rules: Rules, s: seq<Sym>)
    requires PartsShow(rules) && Tidy(rules, s) && Chars(s) && AllSound(Lex(s))
    ensures ShowsSetting(rules, s)
  {
    var alternatives := Alternatives(rules, s);
    if |alternatives| > 1 && forall a :: a in alternatives ==> rules.setting(Generalised(rules, a)) {
      assert alternatives[0] in alternatives;
      AlternativeShows(rules, s, alternatives[0]);
    }
  }

  // ---- the terms of a filter ----

  lemma {:induction false} LiteralsChars(s: seq<Sym>)
    requires Chars(s)
    ensures forall l :: l in Literals(s) ==> Chars(l)
    decreases |s|
  {
    if s != [] {
      var end := if s[0] == QUOTE then LiteralEnd(s, 1, None) else None;
      var e := if end.Some? then end.value else 0;
      assert forall x :: x in s[e + 1..] ==> x in s;
      assert forall x :: x in s[..e + 1] ==> x in s;
      LiteralsChars(s[e + 1..]);
      FirstLiteral(s, end, e);
    }
  }

  lemma {:induction false} WrittenChars(ls: seq<Lexeme>)
    requires Raw(ls) && forall text :: Quoted(text) in ls ==> Chars(text)
    ensures Chars(Written(ls))
  {
    if ls != [] {
      assert ls[0] in ls && forall l :: l in ls[1..] ==> l in ls;
      WrittenChars(ls[1..]);
    }
  }

  lemma {:induction false} FilledRaw(text: seq<Sym>, literals: seq<seq<Sym>>)
    requires forall l :: l in literals ==> Chars(l)
    ensures Raw(Filled(text, literals)) && forall t :: Quoted(t) in Filled(text, literals) ==> Chars(t)
  {
    if text != [] {
      FilledRaw(text[1..], literals);
    }
  }

  /** The terms of a well-written filter are well written. */
  lemma TermsSound(rules: Rules, a: seq<Lexeme>)
    requires OnlyRemoves(rules) && AllSound(a) && Raw(a) && Chars(Written(a))
    ensures forall s :: s in ExactTerms(rules, Written(a)) ==> Chars(s) && AllSound(Lex(s))
  {
    var raw := Written(a);
    var f := rules.clean(Shield(Lex(raw), 0));
    LiteralsSound(a);
    LiteralsChars(raw);
    SplitWithin(f, AND);
    var terms := SplitTop(f, AND);
    forall s | s in ExactTerms(rules, raw) ensures Chars(s) && AllSound(Lex(s)) {
      var i :| 0 <= i < |terms| && ExactTerms(rules, raw)[i] == s;
      assert Within(terms[i], f);
      FilledShapes(terms[i], Literals(raw), Literals(raw));
      FilledRaw(terms[i], Literals(raw));
      WrittenChars(Filled(terms[i], Literals(raw)));
      LexWritten(Filled(terms[i], Literals(raw)));
    }
  }

  ghost predicate AllTidy(rules: Rules, terms: seq<seq<Sym>>) {
    forall s :: s in terms ==> Tidy(rules, s)
  }

  /**
    With no policy, and nothing left to tidy in their terms, filters that differ only in the values
    of their literals have the same key.
   */
  lemma SameKeyTidy(rules: Rules, a: seq<Lexeme>, b: seq<Lexeme>)
    requires OnlyRemoves(rules) && PartsShow(rules)
    requires AllSound(a) && AllSound(b) && Raw(a) && Raw(b) && SameShape(a, b)
    requires Chars(Written(a)) && Chars(Written(b))
    requires AllTidy(rules, ExactTerms(rules, Written(a))) && AllTidy(rules, ExactTerms(rules, Written(b)))
    ensures Normalised(rules, Written(a), {}) == Normalised(rules, Written(b), {})
  {
    TermsShow(rules, a);
    TermsShow(rules, b);
    SameKey(rules, a, b);
  }

  lemma TermsShow(rules: Rules, a: seq<Lexeme>)
    requires OnlyRemoves(rules) && PartsShow(rules) && AllSound(a) && Raw(a) && Chars(Written(a))
    requires AllTidy(rules, ExactTerms(rules, Written(a)))
    ensures AllShow(rules, ExactTerms(rules, Written(a)))
  {
    TermsSound(rules, a);
    forall s | s in ExactTerms(rules, Written(a)) ensures ShowsSetting(rules, s) {
      TidyShows(rules, s);
    }
  }
}
