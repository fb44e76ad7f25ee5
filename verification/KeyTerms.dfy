/** The grouping key read back: which terms of the filter it stands for. */
module KeyTerms {
  import opened Text
  import opened Selection
  import opened FilterText
  import opened FilterKey
  import opened PolicyTerms

  /** Text without parentheses. */
  predicate Level(x: seq<Sym>) {
    forall i :: 0 <= i < |x| ==> Weight(x[i]) == 0
  }

  function Bracketed(x: seq<Sym>): seq<Sym> {
    [OPEN] + x + [CLOSE]
  }

  /** `x` stands in `s` at `i`, in parentheses. */
  predicate GroupAt(s: seq<Sym>, x: seq<Sym>, i: nat) {
    i + |x| + 2 <= |s| && s[i] == OPEN && s[i + |x| + 1] == CLOSE && forall k :: 0 <= k < |x| ==> s[i + 1 + k] == x[k]
  }

  lemma BracketedAt(s: seq<Sym>, x: seq<Sym>, i: nat)
    requires i + |x| + 2 <= |s| && s[i..i + |x| + 2] == Bracketed(x)
    ensures GroupAt(s, x, i)
  {
    var g := s[i..i + |x| + 2];
    assert forall k :: 0 <= k < |g| ==> g[k] == s[i + k];
    forall k | 0 <= k < |x| ensures s[i + 1 + k] == x[k] {
      assert g[k + 1] == x[k];
    }
    assert g[0] == OPEN && g[|x| + 1] == CLOSE;
  }

  lemma EndsTrimmed(s: seq<Sym>)
    requires s != [] && !IsBlank(s[0]) && !IsBlank(s[|s| - 1])
    ensures Trimmed(s) == s
  {
    TrimmedBetween([], s, []);
    assert [] + s + [] == s;
  }

  lemma UnwrapsToItself(s: seq<Sym>)
    requires Trimmed(s) == s && !Wrapped(s)
    ensures Unwrap(s) == s
  {
  }

  lemma {:induction false} LevelBalanced(x: seq<Sym>)
    requires Level(x)
    ensures Balanced(x)
  {
    forall k | 0 <= k <= |x| ensures Depth(x[..k]) == 0 {
      BlankDepth(x[..k]);
    }
    assert x[..|x|] == x;
  }

  /** One step at depth 0 over a character that starts no separator. */
  lemma PiecesStep(s: seq<Sym>, separator: seq<Sym>, start: nat, i: nat)
    requires start <= |s| && i < |s| && Weight(s[i]) == 0 && !Occurs(s, separator, i)
    ensures Pieces(s, separator, start, i, 0) == Pieces(s, separator, start, i + 1, 0)
  {
  }

  lemma NotOccurs(s: seq<Sym>, separator: seq<Sym>, i: nat, k: nat)
    requires k < |separator| && i + k < |s| && s[i + k] != separator[k]
    ensures !Occurs(s, separator, i)
  {
    var w := if i + |separator| <= |s| then s[i..i + |separator|] else [];
    assert w != [] ==> w[k] == s[i + k];
  }

  // ---- a balanced group is passed over ----

  lemma DepthNext(x: seq<Sym>, j: nat)
    requires j < |x|
    ensures Depth(x[..j + 1]) == Depth(x[..j]) + Weight(x[j])
  {
    assert x[..j + 1][..j] == x[..j];
  }

  lemma {:induction false} PiecesWithin(s: seq<Sym>, separator: seq<Sym>, start: nat, i: nat, x: seq<Sym>, j: nat)
    requires start <= |s| && GroupAt(s, x, i) && Balanced(x) && j <= |x|
    ensures Pieces(s, separator, start, i + 1, 1) == Pieces(s, separator, start, i + 1 + j, 1 + Depth(x[..j]))
  {
    if j > 0 {
      PiecesWithin(s, separator, start, i, x, j - 1);
      DepthNext(x, j - 1);
      assert s[i + 1 + (j - 1)] == x[j - 1];
      assert Depth(x[..j - 1]) >= 0;
    }
  }

  lemma PiecesPast(s: seq<Sym>, separator: seq<Sym>, start: nat, i: nat, x: seq<Sym>)
    requires start <= |s| && GroupAt(s, x, i) && Balanced(x)
    ensures Pieces(s, separator, start, i, 0) == Pieces(s, separator, start, i + |x| + 2, 0)
  {
    var end := i + |x| + 1;
    PiecesWithin(s, separator, start, i, x, |x|);
    assert x[..|x|] == x;
    assert Pieces(s, separator, start, i, 0) == Pieces(s, separator, start, i + 1, 1);
    assert Pieces(s, separator, start, end, 1) == Pieces(s, separator, start, end + 1, 0);
  }

  lemma {:induction false} ClosingWithin(s: seq<Sym>, x: seq<Sym>, j: nat)
    requires GroupAt(s, x, 0) && Balanced(x) && j <= |x|
    ensures Closing(s, 0, 0) == Closing(s, 1 + j, 1 + Depth(x[..j]))
  {
    if j > 0 {
      ClosingWithin(s, x, j - 1);
      DepthNext(x, j - 1);
      assert s[1 + (j - 1)] == x[j - 1];
      assert Depth(x[..j - 1]) >= 0 && Depth(x[..j]) >= 0;
    } else {
      assert Closing(s, 0, 0) == Closing(s, 1, 1);
    }
  }

  /** The parenthesis that opens a balanced group closes at its end. */
  lemma ClosingGroup(s: seq<Sym>, x: seq<Sym>)
    requires GroupAt(s, x, 0) && Balanced(x)
    ensures Closing(s, 0, 0) == Some(|x| + 1)
  {
    ClosingWithin(s, x, |x|);
    assert x[..|x|] == x;
  }

  /** A group without parentheses in it is passed over. */
  lemma PiecesGroup(s: seq<Sym>, separator: seq<Sym>, start: nat, i: nat, x: seq<Sym>)
    requires start <= |s| && Level(x) && GroupAt(s, x, i)
    ensures Pieces(s, separator, start, i, 0) == Pieces(s, separator, start, i + |x| + 2, 0)
  {
    LevelBalanced(x);
    PiecesPast(s, separator, start, i, x);
  }

  // ---- a key is its terms ----

  function Groups(keys: seq<seq<Sym>>): (gs: seq<seq<Sym>>)
    ensures |gs| == |keys|
  {
    seq(|keys|, i requires 0 <= i < |keys| => Bracketed(Unwrap(keys[i])))
  }

  function Unwrapped(texts: seq<seq<Sym>>): (us: seq<seq<Sym>>)
    ensures |us| == |texts|
  {
    seq(|texts|, i requires 0 <= i < |texts| => Unwrap(texts[i]))
  }

  ghost predicate AllBalanced(keys: seq<seq<Sym>>) {
    forall k :: k in keys ==> Balanced(k)
  }

  /** The first term of a key, and the rest behind AND. */
  lemma KeyParts(keys: seq<seq<Sym>>)
    requires keys != []
    ensures var s, x := JoinKeys(keys), Unwrap(keys[0]);
            && GroupAt(s, x, 0) && s[..|x| + 2] == Bracketed(x)
            && s[|x| + 2..] == if |keys| == 1 then [] else AND + JoinKeys(keys[1..])
  {
    var x := Unwrap(keys[0]);
    var more := if |keys| == 1 then [] else AND + JoinKeys(keys[1..]);
    assert JoinKeys(keys) == Bracketed(x) + more;
    GroupFirst(x, more);
  }

  lemma GroupFirst(x: seq<Sym>, more: seq<Sym>)
    ensures var s := Bracketed(x) + more;
            GroupAt(s, x, 0) && s[..|x| + 2] == Bracketed(x) && s[|x| + 2..] == more
  {
    var g := Bracketed(x);
    var s := g + more;
    assert s[..|g|] == g && s[|g|..] == more && s[0..|x| + 2] == s[..|g|];
    BracketedAt(s, x, 0);
  }

  /** At an AND before a group the text is cut, and the rest of the AND is passed over. */
  lemma PiecesAtAnd(s: seq<Sym>, start: nat, n: nat)
    requires start <= n && n + 5 < |s| && s[n..n + 5] == AND && s[n + 5] == OPEN
    ensures Pieces(s, AND, start, n, 0) == [s[start..n]] + Pieces(s, AND, n + 5, n + 5, 0)
  {
    var w := s[n..n + 5];
    assert forall k :: 0 <= k < 5 ==> w[k] == s[n + k];
    NotOccurs(s, AND, n + 1, 0);
    NotOccurs(s, AND, n + 2, 0);
    NotOccurs(s, AND, n + 3, 0);
    NotOccurs(s, AND, n + 4, 1);
    PiecesStep(s, AND, n + 5, n + 1);
    PiecesStep(s, AND, n + 5, n + 2);
    PiecesStep(s, AND, n + 5, n + 3);
    PiecesStep(s, AND, n + 5, n + 4);
  }

  lemma SuffixParts(s: seq<Sym>, i: nat, x: seq<Sym>, more: seq<Sym>)
    requires i <= |s| && s[i..] == Bracketed(x) + more
    ensures |s| == i + |x| + 2 + |more|
    ensures GroupAt(s, x, i) && s[i..i + |x| + 2] == Bracketed(x) && s[i + |x| + 2..] == more
  {
    var t := s[i..];
    assert t[..|x| + 2] == Bracketed(x) && t[|x| + 2..] == more;
    assert s[i..i + |x| + 2] == t[..|x| + 2] && s[i + |x| + 2..] == t[|x| + 2..];
    BracketedAt(s, x, i);
  }

  lemma AndParts(s: seq<Sym>, n: nat, more: seq<Sym>)
    requires n <= |s| && s[n..] == AND + more
    ensures |s| == n + 5 + |more| && s[n..n + 5] == AND && s[n + 5..] == more
  {
    var t := s[n..];
    assert t[..5] == AND && t[5..] == more;
    assert s[n..n + 5] == t[..5] && s[n + 5..] == t[5..];
  }

  lemma PiecesGroupAnd(s: seq<Sym>, i: nat, x: seq<Sym>, more: seq<Sym>)
    requires i <= |s| && s[i..] == Bracketed(x) + (AND + more) && Balanced(x) && more != [] && more[0] == OPEN
    ensures var n := i + |x| + 7;
            && n <= |s| && s[n..] == more
            && Pieces(s, AND, i, i, 0) == [Bracketed(x)] + Pieces(s, AND, n, n, 0)
  {
    var n := i + |x| + 2;
    SuffixParts(s, i, x, AND + more);
    AndParts(s, n, more);
    assert s[n + 5] == more[0];
    PiecesPast(s, AND, i, i, x);
    PiecesAtAnd(s, i, n);
  }

  lemma PiecesGroupLast(s: seq<Sym>, i: nat, x: seq<Sym>)
    requires i <= |s| && s[i..] == Bracketed(x) && Balanced(x)
    ensures Pieces(s, AND, i, i, 0) == [Bracketed(x)]
  {
    assert s[i..] == Bracketed(x) + [];
    SuffixParts(s, i, x, []);
    PiecesPast(s, AND, i, i, x);
  }

  lemma KeyCons(keys: seq<seq<Sym>>)
    requires keys != []
    ensures JoinKeys(keys) == Bracketed(Unwrap(keys[0])) + (if |keys| == 1 then [] else AND + JoinKeys(keys[1..]))
  {
  }

  lemma KeyOne(keys: seq<seq<Sym>>)
    requires |keys| == 1
    ensures JoinKeys(keys) == Bracketed(Unwrap(keys[0]))
  {
    KeyCons(keys);
    var g := Bracketed(Unwrap(keys[0]));
    assert g + [] == g;
  }

  lemma KeyOpens(keys: seq<seq<Sym>>)
    requires keys != []
    ensures JoinKeys(keys) != [] && JoinKeys(keys)[0] == OPEN
  {
    KeyCons(keys);
  }

  lemma GroupsCons(keys: seq<seq<Sym>>)
    requires keys != []
    ensures Groups(keys) == [Bracketed(Unwrap(keys[0]))] + Groups(keys[1..])
  {
  }

  lemma {:induction false} KeyPieces(s: seq<Sym>, i: nat, keys: seq<seq<Sym>>)
    requires i <= |s| && s[i..] == JoinKeys(keys) && keys != [] && AllBalanced(keys)
    ensures Pieces(s, AND, i, i, 0) == Groups(keys)
    decreases |keys|, 0
  {
    UnwrapBalanced(keys[0]);
    GroupsCons(keys);
    if |keys| == 1 {
      KeyOne(keys);
      PiecesGroupLast(s, i, Unwrap(keys[0]));
    } else {
      KeyCons(keys);
      KeyOpens(keys[1..]);
      KeyPiecesNext(s, i, Unwrap(keys[0]), keys[1..], JoinKeys(keys[1..]));
    }
  }

  lemma {:induction false} KeyPiecesNext(s: seq<Sym>, i: nat, x: seq<Sym>, rest: seq<seq<Sym>>, more: seq<Sym>)
    requires i <= |s| && s[i..] == Bracketed(x) + (AND + more) && Balanced(x)
    requires rest != [] && AllBalanced(rest) && more == JoinKeys(rest) && more != [] && more[0] == OPEN
    ensures Pieces(s, AND, i, i, 0) == [Bracketed(x)] + Groups(rest)
    decreases |rest|, 1
  {
    PiecesGroupAnd(s, i, x, more);
    KeyPieces(s, i + |x| + 7, rest);
  }

  // ---- the key read back ----

  lemma {:induction false} TermsKept(pieces: seq<seq<Sym>>)
    requires forall p :: p in pieces ==> p != [] && Trimmed(p) == p
    ensures Terms(pieces) == pieces
  {
    if pieces != [] {
      assert forall p :: p in pieces[1..] ==> p in pieces;
      TermsKept(pieces[1..]);
      assert pieces[0] in pieces && pieces == [pieces[0]] + pieces[1..];
    }
  }

  lemma BracketedUnwraps(x: seq<Sym>)
    requires Balanced(x) && Trimmed(x) == x && !Wrapped(x)
    ensures Trimmed(Bracketed(x)) == Bracketed(x) && Unwrap(Bracketed(x)) == x
  {
    var s := Bracketed(x);
    EndsTrimmed(s);
    GroupFirst(x, []);
    assert s + [] == s;
    ClosingGroup(s, x);
    assert Wrapped(s) && s[1..|s| - 1] == x;
    assert Strip(s) == Strip(Trimmed(x)) == x;
  }

  lemma UnwrappedIs(k: seq<Sym>)
    requires Balanced(k)
    ensures var x := Unwrap(k); Balanced(x) && Trimmed(x) == x && !Wrapped(x)
  {
    UnwrapBalanced(k);
    UnwrapTrimmed(k);
    UnwrapLayers(k);
  }

  lemma GroupsUnwrap(keys: seq<seq<Sym>>)
    requires AllBalanced(keys)
    ensures Unwrapped(Groups(keys)) == Unwrapped(keys) && Terms(Groups(keys)) == Groups(keys)
  {
    forall i | 0 <= i < |keys|
      ensures Trimmed(Groups(keys)[i]) == Groups(keys)[i] && Unwrap(Groups(keys)[i]) == Unwrap(keys[i])
    {
      UnwrappedIs(keys[i]);
      BracketedUnwraps(Unwrap(keys[i]));
    }
    TermsKept(Groups(keys));
  }

  lemma GroupNotWhole(s: seq<Sym>, x: seq<Sym>)
    requires GroupAt(s, x, 0) && Balanced(x) && |s| > |x| + 2
    ensures !Wrapped(s)
  {
    ClosingGroup(s, x);
  }

  lemma KeyGoesOn(keys: seq<seq<Sym>>)
    requires |keys| > 1
    ensures GroupAt(JoinKeys(keys), Unwrap(keys[0]), 0) && |JoinKeys(keys)| > |Unwrap(keys[0])| + 2
  {
    KeyParts(keys);
  }

  /** A key of several terms is not wrapped: its first parenthesis closes with the first term. */
  lemma KeyNotWrapped(keys: seq<seq<Sym>>)
    requires |keys| > 1 && AllBalanced(keys)
    ensures Unwrap(JoinKeys(keys)) == JoinKeys(keys)
  {
    UnwrapBalanced(keys[0]);
    KeyGoesOn(keys);
    GroupNotWhole(JoinKeys(keys), Unwrap(keys[0]));
    LastCloses(keys);
    EndsTrimmed(JoinKeys(keys));
    UnwrapsToItself(JoinKeys(keys));
  }

  lemma {:induction false} LastCloses(keys: seq<seq<Sym>>)
    requires keys != []
    ensures JoinKeys(keys)[0] == OPEN && JoinKeys(keys)[|JoinKeys(keys)| - 1] == CLOSE
  {
    KeyCons(keys);
    if |keys| == 1 {
      KeyOne(keys);
    } else {
      LastCloses(keys[1..]);
    }
  }

  /** Text that is not empty and that no AND divides outside its parentheses. */
  ghost predicate Undivided(x: seq<Sym>) {
    x != [] && Whole(x, AND)
  }

  lemma {:induction false} PiecesUndivided(x: seq<Sym>, i: nat)
    requires Undivided(x) && i <= |x|
    ensures Pieces(x, AND, 0, i, Depth(x[..i])) == [x]
    decreases |x| - i
  {
    if i == |x| {
      assert x[0..] == x;
    } else {
      DepthNext(x, i);
      assert !TopAt(x, AND, i);
      PiecesUndivided(x, i + 1);
    }
  }

  /**
    A key says which terms it was made of: its top-level terms, unwrapped, are those terms
    unwrapped, in order. A single one must not be divided by an AND itself.
   */
  lemma KeySplits(keys: seq<seq<Sym>>)
    requires keys != [] && AllBalanced(keys) && (|keys| == 1 ==> Undivided(Unwrap(keys[0])))
    ensures Unwrapped(SplitTop(JoinKeys(keys), AND)) == Unwrapped(keys)
  {
    var s := JoinKeys(keys);
    GroupsUnwrap(keys);
    if |keys| == 1 {
      var x := Unwrap(keys[0]);
      UnwrappedIs(keys[0]);
      KeyOne(keys);
      BracketedUnwraps(x);
      assert x[..0] == [];
      PiecesUndivided(x, 0);
      TermsKept([x]);
      UnwrapIdempotent(keys[0]);
    } else {
      KeyNotWrapped(keys);
      assert s[0..] == s;
      KeyPieces(s, 0, keys);
    }
  }

  /** Equal keys agree in the first term, and in what follows it. */
  lemma KeyHeads(a: seq<seq<Sym>>, b: seq<seq<Sym>>)
    requires a != [] && b != [] && AllBalanced(a) && AllBalanced(b) && JoinKeys(a) == JoinKeys(b)
    ensures Unwrap(a[0]) == Unwrap(b[0]) && (|a| == 1 <==> |b| == 1)
    ensures |a| > 1 && |b| > 1 ==> JoinKeys(a[1..]) == JoinKeys(b[1..])
  {
    var s, x, y := JoinKeys(a), Unwrap(a[0]), Unwrap(b[0]);
    UnwrapBalanced(a[0]);
    UnwrapBalanced(b[0]);
    KeyParts(a);
    KeyParts(b);
    ClosingGroup(s, x);
    ClosingGroup(s, y);
    assert Bracketed(x)[1..|x| + 1] == x && Bracketed(y)[1..|y| + 1] == y;
    if |a| > 1 && |b| > 1 {
      AfterAnd(JoinKeys(a[1..]), JoinKeys(b[1..]));
    }
  }

  lemma UnwrappedCons(texts: seq<seq<Sym>>)
    requires texts != []
    ensures Unwrapped(texts) == [Unwrap(texts[0])] + Unwrapped(texts[1..])
  {
  }

  /** Keys that are equal were made of the same terms, up to enclosing parentheses, in the same order. */
  lemma {:induction false} KeyTells(a: seq<seq<Sym>>, b: seq<seq<Sym>>)
    requires AllBalanced(a) && AllBalanced(b) && JoinKeys(a) == JoinKeys(b)
    ensures Unwrapped(a) == Unwrapped(b)
    decreases |a|
  {
    if a == [] || b == [] {
      if a != [] {
        KeyOpens(a);
      }
      if b != [] {
        KeyOpens(b);
      }
    } else {
      KeyHeads(a, b);
      UnwrappedCons(a);
      UnwrappedCons(b);
      if |a| > 1 {
        KeyTells(a[1..], b[1..]);
      }
    }
  }

  lemma AfterAnd(p: seq<Sym>, q: seq<Sym>)
    requires AND + p == AND + q
    ensures p == q
  {
    assert (AND + p)[5..] == p && (AND + q)[5..] == q;
  }

  // ---- the terms a filter is known by ----

  /** The term reads a column and no session setting, and is not the relation's policy. */
  predicate Own(rules: Rules, policy: set<seq<Sym>>, exact: seq<Sym>) {
    var key := Generalised(rules, exact);
    rules.column(key) && !rules.setting(key) && !IsPolicyTerm(rules, exact, policy)
  }

  function OwnTerm(rules: Rules, policy: set<seq<Sym>>, terms: seq<seq<Sym>>): nat -> bool {
    (i: nat) => i < |terms| && Own(rules, policy, terms[i])
  }

  /** `keys` are the statement's own of `terms` from number `from` on, generalised, in order. */
  ghost predicate OwnAt(rules: Rules, policy: set<seq<Sym>>, terms: seq<seq<Sym>>, from: nat, keys: seq<seq<Sym>>) {
    var at := Select(OwnTerm(rules, policy, terms), from, |terms|);
    |at| == |keys| && forall k :: 0 <= k < |at| ==> keys[k] == Generalised(rules, terms[at[k]])
  }

  lemma OwnNext(rules: Rules, policy: set<seq<Sym>>, terms: seq<seq<Sym>>, i: nat, more: seq<seq<Sym>>)
    requires i < |terms| && OwnAt(rules, policy, terms, i + 1, more)
    ensures OwnAt(rules, policy, terms, i,
              (if Own(rules, policy, terms[i]) then [Generalised(rules, terms[i])] else []) + more)
  {
  }

  lemma KeptStep(rules: Rules, policy: set<seq<Sym>>, terms: seq<seq<Sym>>, i: nat)
    requires i < |terms|
    ensures KeptKeys(rules, terms[i..], policy) ==
            (if Own(rules, policy, terms[i]) then [Generalised(rules, terms[i])] else [])
            + KeptKeys(rules, terms[i + 1..], policy)
  {
    assert terms[i..][1..] == terms[i + 1..];
  }

  lemma {:induction false} KeptFrom(rules: Rules, policy: set<seq<Sym>>, terms: seq<seq<Sym>>, i: nat)
    requires i <= |terms|
    ensures OwnAt(rules, policy, terms, i, KeptKeys(rules, terms[i..], policy))
    decreases |terms| - i
  {
    if i < |terms| {
      KeptFrom(rules, policy, terms, i + 1);
      KeptStep(rules, policy, terms, i);
      OwnNext(rules, policy, terms, i, KeptKeys(rules, terms[i + 1..], policy));
    }
  }

  /** The statement's own terms, generalised, are balanced, and no AND divides one once it is unwrapped. */
  ghost predicate Readable(rules: Rules, policy: set<seq<Sym>>, terms: seq<seq<Sym>>) {
    forall t :: t in terms && Own(rules, policy, t) ==>
      Balanced(Generalised(rules, t)) && Undivided(Unwrap(Generalised(rules, t)))
  }

  /** What holds of the keys is what holds of the own terms they are made of. */
  lemma OwnKeys(
    rules: Rules, policy: set<seq<Sym>>, terms: seq<seq<Sym>>, keys: seq<seq<Sym>>, holds: seq<Sym> -> bool)
    requires OwnAt(rules, policy, terms, 0, keys)
    ensures (forall k :: k in keys ==> holds(k)) <==>
            (forall t :: t in terms && Own(rules, policy, t) ==> holds(Generalised(rules, t)))
  {
    var at := Select(OwnTerm(rules, policy, terms), 0, |terms|);
    Selected(OwnTerm(rules, policy, terms), 0, |terms|);
    forall t | t in terms && Own(rules, policy, t) ensures Generalised(rules, t) in keys {
      var i: nat :| i < |terms| && terms[i] == t;
      assert i in at;
      var k :| 0 <= k < |at| && at[k] == i;
      assert keys[k] in keys;
    }
    forall k | k in keys ensures exists t :: t in terms && Own(rules, policy, t) && k == Generalised(rules, t) {
      var i :| 0 <= i < |keys| && keys[i] == k;
      assert terms[at[i]] in terms && at[i] in at;
    }
  }

  /** The key's top-level terms are the statement's own terms, up to enclosing parentheses. */
  ghost predicate SaysTerms(rules: Rules, policy: set<seq<Sym>>, terms: seq<seq<Sym>>, key: seq<Sym>) {
    var at, split := Select(OwnTerm(rules, policy, terms), 0, |terms|), SplitTop(key, AND);
    && |split| == |at|
    && forall k :: 0 <= k < |at| ==> Unwrap(split[k]) == Unwrap(Generalised(rules, terms[at[k]]))
  }

  lemma KeySays(
    rules: Rules, policy: set<seq<Sym>>, terms: seq<seq<Sym>>, keys: seq<seq<Sym>>)
    requires OwnAt(rules, policy, terms, 0, keys) && keys != []
    requires forall k :: k in keys ==> Balanced(k) && Undivided(Unwrap(k))
    ensures SaysTerms(rules, policy, terms, JoinKeys(keys))
  {
    KeySplits(keys);
    var split := SplitTop(JoinKeys(keys), AND);
    forall k | 0 <= k < |keys| ensures Unwrap(split[k]) == Unwrap(keys[k]) {
      assert Unwrapped(split)[k] == Unwrapped(keys)[k];
    }
  }

  /** The key is made of all the own terms, unless it is empty. */
  lemma KeyOf(rules: Rules, raw: seq<Sym>, policy: set<seq<Sym>>) returns (kept: seq<seq<Sym>>)
    ensures var key, terms := Normalised(rules, raw, policy), ExactTerms(rules, raw);
            && OwnAt(rules, policy, terms, 0, kept)
            && (key == [] <==>
                Trimmed(raw) == [] ||
                forall t :: t in terms && Own(rules, policy, t) ==> rules.live(Unwrap(Generalised(rules, t))))
            && (key != [] ==> key == JoinKeys(kept) && kept != [])
  {
    var terms := ExactTerms(rules, raw);
    kept := KeptKeys(rules, terms, policy);
    assert terms[0..] == terms;
    KeptFrom(rules, policy, terms, 0);
    OwnKeys(rules, policy, terms, kept, k => rules.live(Unwrap(k)));
    if kept != [] {
      KeyOpens(kept);
    }
  }

  /**
    What a key stands for: it is empty exactly when the filter is, or when each of the statement's
    own terms is a liveness test; otherwise its top-level terms are those own terms, all of them, in
    order, up to enclosing parentheses.
   */
  lemma KeyReads(rules: Rules, raw: seq<Sym>, policy: set<seq<Sym>>)
    requires Readable(rules, policy, ExactTerms(rules, raw))
    ensures var key, terms := Normalised(rules, raw, policy), ExactTerms(rules, raw);
            && (key == [] <==>
                Trimmed(raw) == [] ||
                forall t :: t in terms && Own(rules, policy, t) ==> rules.live(Unwrap(Generalised(rules, t))))
            && (key != [] ==> SaysTerms(rules, policy, terms, key))
  {
    var kept := KeyOf(rules, raw, policy);
    if kept != [] {
      KeptReadable(rules, policy, ExactTerms(rules, raw), kept);
      KeySays(rules, policy, ExactTerms(rules, raw), kept);
    }
  }

  lemma KeptReadable(
    rules: Rules, policy: set<seq<Sym>>, terms: seq<seq<Sym>>, keys: seq<seq<Sym>>)
    requires OwnAt(rules, policy, terms, 0, keys) && Readable(rules, policy, terms)
    ensures forall k :: k in keys ==> Balanced(k) && Undivided(Unwrap(k))
  {
    OwnKeys(rules, policy, terms, keys, k => Balanced(k) && Undivided(Unwrap(k)));
  }

  /**
    So two filters with the same key, not empty, have the same own terms, up to enclosing
    parentheses, whether an AND divides one or not.
   */
  lemma SameKeySameTerms(
    rules: Rules, a: seq<Sym>, b: seq<Sym>, policyA: set<seq<Sym>>, policyB: set<seq<Sym>>)
    requires OwnBalanced(rules, policyA, ExactTerms(rules, a)) && OwnBalanced(rules, policyB, ExactTerms(rules, b))
    requires Normalised(rules, a, policyA) == Normalised(rules, b, policyB) != []
    ensures var here, there := ExactTerms(rules, a), ExactTerms(rules, b);
            var at := Select(OwnTerm(rules, policyA, here), 0, |here|);
            var bt := Select(OwnTerm(rules, policyB, there), 0, |there|);
            && |at| == |bt|
            && forall k :: 0 <= k < |at| ==>
                 Unwrap(Generalised(rules, here[at[k]])) == Unwrap(Generalised(rules, there[bt[k]]))
  {
    var ks := KeyOf(rules, a, policyA);
    var ls := KeyOf(rules, b, policyB);
    KeptBalanced(rules, policyA, ExactTerms(rules, a), ks);
    KeptBalanced(rules, policyB, ExactTerms(rules, b), ls);
    KeyTells(ks, ls);
    forall k | 0 <= k < |ks| ensures Unwrap(ks[k]) == Unwrap(ls[k]) {
      assert Unwrapped(ks)[k] == Unwrapped(ls)[k];
    }
  }

  ghost predicate OwnBalanced(rules: Rules, policy: set<seq<Sym>>, terms: seq<seq<Sym>>) {
    forall t :: t in terms && Own(rules, policy, t) ==> Balanced(Generalised(rules, t))
  }

  lemma KeptBalanced(
    rules: Rules, policy: set<seq<Sym>>, terms: seq<seq<Sym>>, keys: seq<seq<Sym>>)
    requires OwnAt(rules, policy, terms, 0, keys) && OwnBalanced(rules, policy, terms)
    ensures AllBalanced(keys)
  {
    OwnKeys(rules, policy, terms, keys, k => Balanced(k));
  }
}
