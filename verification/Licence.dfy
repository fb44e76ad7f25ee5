/** The licence expression evaluator, exact against the grammar, and the gate built on it. */
module Licence {
  import opened Text
  import opened Selection

  datatype Token = Open | Close | And | Or | With | Id(name: string)

  /** What a parsing function leaves: a value and the position after it, or an exception. */
  datatype Parse = Parsed(value: bool, next: nat) | Thrown

  // ---- the evaluator ----

  function Unstarred(name: string): string {
    if name != [] && name[|name| - 1] == '*' then name[..|name| - 1] else name
  }

  /** The name is listed, or is a listed one marked as guessed; a name that ends in the mark is never listed itself. */
  predicate OnList(name: string, allowed: seq<string>) {
    || (exists y :: y in allowed && name == y + "*")
    || (name in allowed && (name == [] || name[|name| - 1] != '*'))
  }

  predicate Allowed(name: string, allowed: seq<string>)
    ensures Allowed(name, allowed) <==> OnList(name, allowed)
  {
    StarredIff(name, allowed);
    Unstarred(name) in allowed
  }

  lemma StarredIff(name: string, allowed: seq<string>)
    ensures Unstarred(name) in allowed <==> OnList(name, allowed)
  {
    if name != [] && name[|name| - 1] == '*' {
      assert name == Unstarred(name) + "*";
      forall y | name == y + "*" ensures y == Unstarred(name) {
        assert (y + "*")[..|name| - 1] == y;
      }
    } else {
      forall y: string ensures name != y + "*" {
        assert (y + "*")[|y|] == '*';
      }
    }
  }

  predicate Sees(tokens: seq<Token>, pos: nat, token: Token) {
    pos < |tokens| && tokens[pos] == token
  }

  function ParseOr(tokens: seq<Token>, allowed: seq<string>, pos: nat): (r: Parse)
    ensures r.Parsed? ==> pos < r.next <= |tokens| + 1
    decreases |tokens| - pos, 2
  {
    match ParseAnd(tokens, allowed, pos)
    case Thrown => Thrown
    case Parsed(value, next) => MoreOr(tokens, allowed, value, next)
  }

  function MoreOr(tokens: seq<Token>, allowed: seq<string>, value: bool, pos: nat): (r: Parse)
    requires pos <= |tokens| + 1
    ensures r.Parsed? ==> pos <= r.next <= |tokens| + 1
    decreases |tokens| - pos, 3
  {
    if !Sees(tokens, pos, Or) then Parsed(value, pos)
    else
      match ParseAnd(tokens, allowed, pos + 1)
      case Thrown => Thrown
      case Parsed(more, next) => MoreOr(tokens, allowed, more || value, next)
  }

  function ParseAnd(tokens: seq<Token>, allowed: seq<string>, pos: nat): (r: Parse)
    ensures r.Parsed? ==> pos < r.next <= |tokens| + 1
    decreases |tokens| - pos, 1
  {
    match ParseAtom(tokens, allowed, pos)
    case Thrown => Thrown
    case Parsed(value, next) => MoreAnd(tokens, allowed, value, next)
  }

  function MoreAnd(tokens: seq<Token>, allowed: seq<string>, value: bool, pos: nat): (r: Parse)
    requires pos <= |tokens| + 1
    ensures r.Parsed? ==> pos <= r.next <= |tokens| + 1
    decreases |tokens| - pos, 2
  {
    if !Sees(tokens, pos, And) then Parsed(value, pos)
    else
      match ParseAtom(tokens, allowed, pos + 1)
      case Thrown => Thrown
      case Parsed(more, next) => MoreAnd(tokens, allowed, more && value, next)
  }

  function ParseAtom(tokens: seq<Token>, allowed: seq<string>, pos: nat): (r: Parse)
    ensures r.Parsed? ==> pos < r.next <= |tokens| + 1
    decreases |tokens| - pos, 0
  {
    if pos >= |tokens| then Thrown
    else match tokens[pos]
      case Open =>
        (match ParseOr(tokens, allowed, pos + 1)
         case Thrown => Thrown
         case Parsed(inner, next) => if Sees(tokens, next, Close) then Parsed(inner, next + 1) else Thrown)
      case Id(name) =>
        if Sees(tokens, pos + 1, With) then Parsed(false, pos + 3) else Parsed(Allowed(name, allowed), pos + 1)
      case _ => Thrown
  }

  predicate Satisfies(tokens: seq<Token>, allowed: seq<string>) {
    ParseOr(tokens, allowed, 0) == Parsed(true, |tokens|)
  }

  /** The recursive-descent parser, which evaluates as it reads. */
  class Parser {
    const tokens: seq<Token>
    const allowed: seq<string>
    var pos: nat

    constructor (tokens: seq<Token>, allowed: seq<string>)
      ensures this.tokens == tokens && this.allowed == allowed && pos == 0
    {
      this.tokens := tokens;
      this.allowed := allowed;
      this.pos := 0;
    }

    method Or() returns (r: Option<bool>)
      modifies this
      ensures match ParseOr(tokens, allowed, old(pos))
              case Thrown => r == None
              case Parsed(value, next) => r == Some(value) && pos == next
      decreases |tokens| - pos, 2
    {
      ghost var whole := ParseOr(tokens, allowed, pos);
      r := AndTerms();
      if r == None {
        return;
      }
      while Sees(tokens, pos, Token.Or)
        invariant old(pos) < pos <= |tokens| + 1
        invariant r.Some? && whole == MoreOr(tokens, allowed, r.value, pos)
        decreases |tokens| + 1 - pos
      {
        pos := pos + 1;
        var more := AndTerms();
        if more == None {
          return None;
        }
        r := Some(more.value || r.value);
      }
    }

    method AndTerms() returns (r: Option<bool>)
      modifies this
      ensures match ParseAnd(tokens, allowed, old(pos))
              case Thrown => r == None
              case Parsed(value, next) => r == Some(value) && pos == next
      decreases |tokens| - pos, 1
    {
      ghost var whole := ParseAnd(tokens, allowed, pos);
      r := Atom();
      if r == None {
        return;
      }
      while Sees(tokens, pos, Token.And)
        invariant old(pos) < pos <= |tokens| + 1
        invariant r.Some? && whole == MoreAnd(tokens, allowed, r.value, pos)
        decreases |tokens| + 1 - pos
      {
        pos := pos + 1;
        var more := Atom();
        if more == None {
          return None;
        }
        r := Some(more.value && r.value);
      }
    }

    method Atom() returns (r: Option<bool>)
      modifies this
      ensures match ParseAtom(tokens, allowed, old(pos))
              case Thrown => r == None
              case Parsed(value, next) => r == Some(value) && pos == next
      decreases |tokens| - pos, 0
    {
      var at := pos;
      pos := pos + 1;
      if at >= |tokens| {
        return None;
      }
      match tokens[at] {
        case Open =>
          r := Or();
          if r == None {
            return;
          }
          pos := pos + 1;
          if !Sees(tokens, pos - 1, Close) {
            return None;
          }
        case Id(name) =>
          if Sees(tokens, pos, With) {
            pos := pos + 2;
            return Some(false);
          }
          return Some(Allowed(name, allowed));
        case _ =>
          return None;
      }
    }
  }

  method SatisfiesAllowList(expression: string, allowed: seq<string>) returns (ok: bool)
    ensures ok == Satisfies(Tokenize(expression), allowed)
  {
    var parser := new Parser(Tokenize(expression), allowed);
    var result := parser.Or();
    ok := result == Some(true) && parser.pos == |parser.tokens|;
  }

  // ---- the grammar ----

  datatype OrTree = LastAnd(and: AndTree) | ThenOr(and: AndTree, more: OrTree)
  datatype AndTree = LastAtom(atom: AtomTree) | ThenAnd(atom: AtomTree, more: AndTree)
  datatype AtomTree = Plain(name: string) | Except(name: string, exception: Token) | Group(inner: OrTree)

  function OrYield(t: OrTree): (y: seq<Token>)
    ensures y != []
  {
    match t
    case LastAnd(and) => AndYield(and)
    case ThenOr(and, more) => AndYield(and) + ([Or] + OrYield(more))
  }

  function AndYield(t: AndTree): (y: seq<Token>)
    ensures y != []
  {
    match t
    case LastAtom(atom) => AtomYield(atom)
    case ThenAnd(atom, more) => AtomYield(atom) + ([And] + AndYield(more))
  }

  function AtomYield(t: AtomTree): (y: seq<Token>)
    ensures y != []
  {
    match t
    case Plain(name) => [Id(name)]
    case Except(name, exception) => [Id(name), With, exception]
    case Group(inner) => [Open] + (OrYield(inner) + [Close])
  }

  predicate OrValue(t: OrTree, allowed: seq<string>) {
    match t
    case LastAnd(and) => AndValue(and, allowed)
    case ThenOr(and, more) => AndValue(and, allowed) || OrValue(more, allowed)
  }

  predicate AndValue(t: AndTree, allowed: seq<string>) {
    match t
    case LastAtom(atom) => AtomValue(atom, allowed)
    case ThenAnd(atom, more) => AtomValue(atom, allowed) && AndValue(more, allowed)
  }

  predicate AtomValue(t: AtomTree, allowed: seq<string>) {
    match t
    case Plain(name) => OnList(name, allowed)
    case Except(_, _) => false
    case Group(inner) => OrValue(inner, allowed)
  }

  predicate At(tokens: seq<Token>, pos: nat, y: seq<Token>) {
    pos + |y| <= |tokens| && tokens[pos..pos + |y|] == y
  }

  lemma AtBoth(tokens: seq<Token>, pos: nat, a: seq<Token>, b: seq<Token>)
    ensures At(tokens, pos, a + b) <==> At(tokens, pos, a) && At(tokens, pos + |a|, b)
  {
    if pos + |a| + |b| <= |tokens| {
      var x, y := tokens[pos..pos + |a|], tokens[pos + |a|..pos + |a| + |b|];
      assert tokens[pos..pos + |a + b|] == x + y;
      assert (x + y)[..|a|] == x && (x + y)[|a|..] == y;
      assert (a + b)[..|a|] == a && (a + b)[|a|..] == b;
    }
  }

  lemma AtOne(tokens: seq<Token>, pos: nat, token: Token)
    ensures At(tokens, pos, [token]) <==> Sees(tokens, pos, token)
  {
    if pos < |tokens| {
      assert tokens[pos..pos + 1] == [tokens[pos]];
    }
  }

  lemma AtThen(tokens: seq<Token>, pos: nat, a: seq<Token>, token: Token, b: seq<Token>)
    ensures At(tokens, pos, a + ([token] + b)) <==>
            At(tokens, pos, a) && Sees(tokens, pos + |a|, token) && At(tokens, pos + |a| + 1, b)
  {
    AtBoth(tokens, pos, a, [token] + b);
    AtBoth(tokens, pos + |a|, [token], b);
    AtOne(tokens, pos + |a|, token);
  }

  // ---- what is read derives from the grammar ----

  ghost predicate ReadsOr(tokens: seq<Token>, allowed: seq<string>, pos: nat, t: OrTree, r: Parse) {
    At(tokens, pos, OrYield(t)) && r == Parsed(OrValue(t, allowed), pos + |OrYield(t)|)
  }

  ghost predicate ReadsAnd(tokens: seq<Token>, allowed: seq<string>, pos: nat, t: AndTree, r: Parse) {
    At(tokens, pos, AndYield(t)) && r == Parsed(AndValue(t, allowed), pos + |AndYield(t)|)
  }

  ghost predicate ReadsAtom(tokens: seq<Token>, allowed: seq<string>, pos: nat, t: AtomTree, r: Parse) {
    At(tokens, pos, AtomYield(t)) && r == Parsed(AtomValue(t, allowed), pos + |AtomYield(t)|)
  }

  lemma {:induction false} OrSound(tokens: seq<Token>, allowed: seq<string>, pos: nat) returns (t: OrTree)
    requires var r := ParseOr(tokens, allowed, pos); r.Parsed? && r.next <= |tokens|
    ensures ReadsOr(tokens, allowed, pos, t, ParseOr(tokens, allowed, pos))
    decreases |tokens| - pos, 2
  {
    var first := ParseAnd(tokens, allowed, pos);
    var and := AndSound(tokens, allowed, pos);
    t := MoreOrSound(tokens, allowed, pos, and, first.next);
  }

  lemma {:induction false} MoreOrSound(tokens: seq<Token>, allowed: seq<string>, pos: nat, and: AndTree, mid: nat)
    returns (t: OrTree)
    requires pos < mid <= |tokens| && ReadsAnd(tokens, allowed, pos, and, Parsed(AndValue(and, allowed), mid))
    requires var r := MoreOr(tokens, allowed, AndValue(and, allowed), mid); r.Parsed? && r.next <= |tokens|
    ensures ReadsOr(tokens, allowed, pos, t, MoreOr(tokens, allowed, AndValue(and, allowed), mid))
    decreases |tokens| - mid, 3
  {
    if Sees(tokens, mid, Or) {
      var second := ParseAnd(tokens, allowed, mid + 1);
      MoreOrValue(tokens, allowed, second.value, AndValue(and, allowed), second.next);
      var next := AndSound(tokens, allowed, mid + 1);
      var more := MoreOrSound(tokens, allowed, mid + 1, next, second.next);
      t := ThenOr(and, more);
      ThenOrReads(tokens, allowed, pos, and, more, MoreOr(tokens, allowed, second.value, second.next));
    } else {
      t := LastAnd(and);
    }
  }

  lemma ThenOrReads(tokens: seq<Token>, allowed: seq<string>, pos: nat, and: AndTree, more: OrTree, r: Parse)
    requires At(tokens, pos, AndYield(and)) && Sees(tokens, pos + |AndYield(and)|, Or)
    requires ReadsOr(tokens, allowed, pos + |AndYield(and)| + 1, more, r)
    ensures ReadsOr(tokens, allowed, pos, ThenOr(and, more), Parsed(r.value || AndValue(and, allowed), r.next))
  {
    AtThen(tokens, pos, AndYield(and), Or, OrYield(more));
  }

  lemma ThenAndReads(tokens: seq<Token>, allowed: seq<string>, pos: nat, atom: AtomTree, more: AndTree, r: Parse)
    requires At(tokens, pos, AtomYield(atom)) && Sees(tokens, pos + |AtomYield(atom)|, And)
    requires ReadsAnd(tokens, allowed, pos + |AtomYield(atom)| + 1, more, r)
    ensures ReadsAnd(tokens, allowed, pos, ThenAnd(atom, more), Parsed(r.value && AtomValue(atom, allowed), r.next))
  {
    AtThen(tokens, pos, AtomYield(atom), And, AndYield(more));
  }

  /** The loop only ever adds to its result. */
  lemma {:induction false} MoreOrValue(tokens: seq<Token>, allowed: seq<string>, v: bool, w: bool, pos: nat)
    requires pos <= |tokens| + 1
    ensures MoreOr(tokens, allowed, v || w, pos) ==
            match MoreOr(tokens, allowed, v, pos) case Thrown => Thrown case Parsed(x, next) => Parsed(x || w, next)
    decreases |tokens| + 1 - pos
  {
    if Sees(tokens, pos, Or) {
      var r := ParseAnd(tokens, allowed, pos + 1);
      if r.Parsed? {
        MoreOrValue(tokens, allowed, r.value || v, w, r.next);
      }
    }
  }

  lemma {:induction false} AndSound(tokens: seq<Token>, allowed: seq<string>, pos: nat) returns (t: AndTree)
    requires var r := ParseAnd(tokens, allowed, pos); r.Parsed? && r.next <= |tokens|
    ensures ReadsAnd(tokens, allowed, pos, t, ParseAnd(tokens, allowed, pos))
    decreases |tokens| - pos, 1
  {
    var first := ParseAtom(tokens, allowed, pos);
    var atom := AtomSound(tokens, allowed, pos);
    t := MoreAndSound(tokens, allowed, pos, atom, first.next);
  }

  lemma {:induction false} MoreAndSound(tokens: seq<Token>, allowed: seq<string>, pos: nat, atom: AtomTree, mid: nat)
    returns (t: AndTree)
    requires pos < mid <= |tokens| && ReadsAtom(tokens, allowed, pos, atom, Parsed(AtomValue(atom, allowed), mid))
    requires var r := MoreAnd(tokens, allowed, AtomValue(atom, allowed), mid); r.Parsed? && r.next <= |tokens|
    ensures ReadsAnd(tokens, allowed, pos, t, MoreAnd(tokens, allowed, AtomValue(atom, allowed), mid))
    decreases |tokens| - mid, 2
  {
    if Sees(tokens, mid, And) {
      MoreAndStep(tokens, allowed, AtomValue(atom, allowed), mid);
      var second := ParseAtom(tokens, allowed, mid + 1);
      var next := AtomSound(tokens, allowed, mid + 1);
      var more := MoreAndSound(tokens, allowed, mid + 1, next, second.next);
      t := ThenAnd(atom, more);
      ThenAndReads(tokens, allowed, pos, atom, more, MoreAnd(tokens, allowed, second.value, second.next));
    } else {
      t := LastAtom(atom);
    }
  }

  /** One round of the loop over operands, and what it leaves to the rest. */
  lemma MoreAndStep(tokens: seq<Token>, allowed: seq<string>, value: bool, mid: nat)
    requires Sees(tokens, mid, And)
    requires var r := MoreAnd(tokens, allowed, value, mid); r.Parsed? && r.next <= |tokens|
    ensures var second := ParseAtom(tokens, allowed, mid + 1);
            && second.Parsed? && second.next <= |tokens|
            && var rest := MoreAnd(tokens, allowed, second.value, second.next);
               rest.Parsed? && rest.next <= |tokens| &&
               MoreAnd(tokens, allowed, value, mid) == Parsed(rest.value && value, rest.next)
  {
    var second := ParseAtom(tokens, allowed, mid + 1);
    MoreAndValue(tokens, allowed, second.value, value, second.next);
  }

  lemma {:induction false} MoreAndValue(tokens: seq<Token>, allowed: seq<string>, v: bool, w: bool, pos: nat)
    requires pos <= |tokens| + 1
    ensures MoreAnd(tokens, allowed, v && w, pos) ==
            match MoreAnd(tokens, allowed, v, pos) case Thrown => Thrown case Parsed(x, next) => Parsed(x && w, next)
    decreases |tokens| + 1 - pos
  {
    if Sees(tokens, pos, And) {
      var r := ParseAtom(tokens, allowed, pos + 1);
      if r.Parsed? {
        MoreAndValue(tokens, allowed, r.value && v, w, r.next);
      }
    }
  }

  lemma {:induction false} AtomSound(tokens: seq<Token>, allowed: seq<string>, pos: nat) returns (t: AtomTree)
    requires var r := ParseAtom(tokens, allowed, pos); r.Parsed? && r.next <= |tokens|
    ensures ReadsAtom(tokens, allowed, pos, t, ParseAtom(tokens, allowed, pos))
    decreases |tokens| - pos, 0
  {
    match tokens[pos]
    case Open =>
      var inner := OrSound(tokens, allowed, pos + 1);
      t := Group(inner);
      AtBoth(tokens, pos, [Open], OrYield(inner) + [Close]);
      AtBoth(tokens, pos + 1, OrYield(inner), [Close]);
      AtOne(tokens, pos, Open);
      AtOne(tokens, pos + 1 + |OrYield(inner)|, Close);
    case Id(name) =>
      if Sees(tokens, pos + 1, With) {
        t := Except(name, tokens[pos + 2]);
        assert tokens[pos..pos + 3] == [Id(name), With, tokens[pos + 2]];
      } else {
        t := Plain(name);
        AtOne(tokens, pos, Id(name));
      }
  }

  // ---- what derives from the grammar is read ----

  /** The tokens at which an expression can stop. */
  predicate Ends(tokens: seq<Token>, pos: nat) {
    !Sees(tokens, pos, Or) && EndsAnd(tokens, pos)
  }

  predicate EndsAnd(tokens: seq<Token>, pos: nat) {
    !Sees(tokens, pos, And) && !Sees(tokens, pos, With)
  }

  lemma OrJoins(tokens: seq<Token>, allowed: seq<string>, pos: nat, mid: nat)
    requires var first := ParseAnd(tokens, allowed, pos); first.Parsed? && first.next == mid
    requires Sees(tokens, mid, Or) && ParseOr(tokens, allowed, mid + 1).Parsed?
    ensures var first, rest := ParseAnd(tokens, allowed, pos), ParseOr(tokens, allowed, mid + 1);
            ParseOr(tokens, allowed, pos) == Parsed(rest.value || first.value, rest.next)
  {
    var r := ParseAnd(tokens, allowed, mid + 1);
    MoreOrValue(tokens, allowed, r.value, ParseAnd(tokens, allowed, pos).value, r.next);
  }

  lemma AndJoins(tokens: seq<Token>, allowed: seq<string>, pos: nat, mid: nat)
    requires var first := ParseAtom(tokens, allowed, pos); first.Parsed? && first.next == mid
    requires Sees(tokens, mid, And) && ParseAnd(tokens, allowed, mid + 1).Parsed?
    ensures var first, rest := ParseAtom(tokens, allowed, pos), ParseAnd(tokens, allowed, mid + 1);
            ParseAnd(tokens, allowed, pos) == Parsed(rest.value && first.value, rest.next)
  {
    var r := ParseAtom(tokens, allowed, mid + 1);
    MoreAndValue(tokens, allowed, r.value, ParseAtom(tokens, allowed, pos).value, r.next);
  }

  lemma {:induction false} OrComplete(tokens: seq<Token>, allowed: seq<string>, pos: nat, t: OrTree)
    requires At(tokens, pos, OrYield(t)) && Ends(tokens, pos + |OrYield(t)|)
    ensures ParseOr(tokens, allowed, pos) == Parsed(OrValue(t, allowed), pos + |OrYield(t)|)
    decreases t
  {
    match t
    case LastAnd(and) => AndComplete(tokens, allowed, pos, and);
    case ThenOr(and, more) =>
      var mid := pos + |AndYield(and)|;
      AtThen(tokens, pos, AndYield(and), Or, OrYield(more));
      AndComplete(tokens, allowed, pos, and);
      OrComplete(tokens, allowed, mid + 1, more);
      OrJoins(tokens, allowed, pos, mid);
  }

  lemma {:induction false} AndComplete(tokens: seq<Token>, allowed: seq<string>, pos: nat, t: AndTree)
    requires At(tokens, pos, AndYield(t)) && EndsAnd(tokens, pos + |AndYield(t)|)
    ensures ParseAnd(tokens, allowed, pos) == Parsed(AndValue(t, allowed), pos + |AndYield(t)|)
    decreases t
  {
    match t
    case LastAtom(atom) => AtomComplete(tokens, allowed, pos, atom);
    case ThenAnd(atom, more) =>
      var mid := pos + |AtomYield(atom)|;
      AtThen(tokens, pos, AtomYield(atom), And, AndYield(more));
      AtomComplete(tokens, allowed, pos, atom);
      AndComplete(tokens, allowed, mid + 1, more);
      AndJoins(tokens, allowed, pos, mid);
  }

  lemma {:induction false} AtomComplete(tokens: seq<Token>, allowed: seq<string>, pos: nat, t: AtomTree)
    requires At(tokens, pos, AtomYield(t)) && !Sees(tokens, pos + |AtomYield(t)|, With)
    ensures ParseAtom(tokens, allowed, pos) == Parsed(AtomValue(t, allowed), pos + |AtomYield(t)|)
    decreases t
  {
    match t
    case Plain(name) => AtOne(tokens, pos, Id(name));
    case Except(name, exception) =>
      var y := tokens[pos..pos + 3];
      assert y[0] == tokens[pos] && y[1] == tokens[pos + 1];
    case Group(inner) =>
      AtBoth(tokens, pos, [Open], OrYield(inner) + [Close]);
      AtBoth(tokens, pos + 1, OrYield(inner), [Close]);
      AtOne(tokens, pos, Open);
      AtOne(tokens, pos + 1 + |OrYield(inner)|, Close);
      OrComplete(tokens, allowed, pos + 1, inner);
  }

  // ---- the main results ----

  /** An expression is satisfied exactly when the whole of it derives from the grammar and its tree is true. */
  lemma SatisfiesIff(tokens: seq<Token>, allowed: seq<string>)
    ensures Satisfies(tokens, allowed) <==> exists t :: OrYield(t) == tokens && OrValue(t, allowed)
  {
    if Satisfies(tokens, allowed) {
      var t := OrSound(tokens, allowed, 0);
      assert tokens[0..|OrYield(t)|] == tokens;
      assert OrYield(t) == tokens;
    }
    forall t | OrYield(t) == tokens && OrValue(t, allowed) ensures Satisfies(tokens, allowed) {
      TreeDecides(t, allowed);
    }
  }

  /** And the grammar is unambiguous: every tree of an expression has the value the parser finds. */
  lemma TreeDecides(t: OrTree, allowed: seq<string>)
    ensures Satisfies(OrYield(t), allowed) <==> OrValue(t, allowed)
  {
    var tokens := OrYield(t);
    assert tokens[0..|tokens|] == tokens;
    OrComplete(tokens, allowed, 0, t);
  }

  /** A single id is satisfied exactly when it is on the list. */
  lemma IdSatisfiedIff(name: string, allowed: seq<string>)
    ensures Satisfies([Id(name)], allowed) <==> OnList(name, allowed)
  {
    var and := LastAtom(Plain(name));
    assert OrYield(LastAnd(and)) == AndYield(and) == [Id(name)];
    assert OrValue(LastAnd(and), allowed) == AndValue(and, allowed) == OnList(name, allowed);
    TreeDecides(LastAnd(and), allowed);
  }

  ghost predicate NamesListed(tokens: seq<Token>, allowed: seq<string>) {
    exists k :: 0 <= k < |tokens| && tokens[k].Id? && OnList(tokens[k].name, allowed)
  }

  lemma NamedWithin(a: seq<Token>, b: seq<Token>, c: seq<Token>, allowed: seq<string>)
    requires NamesListed(b, allowed)
    ensures NamesListed(a + b + c, allowed)
  {
    var k :| 0 <= k < |b| && b[k].Id? && OnList(b[k].name, allowed);
    assert (a + b + c)[|a| + k] == b[k];
  }

  lemma {:induction false} OrNamed(t: OrTree, allowed: seq<string>)
    requires OrValue(t, allowed)
    ensures NamesListed(OrYield(t), allowed)
    decreases t
  {
    var and := AndYield(t.and);
    if AndValue(t.and, allowed) {
      AndNamed(t.and, allowed);
      var more := if t.ThenOr? then [Or] + OrYield(t.more) else [];
      NamedWithin([], and, more, allowed);
      assert [] + and + more == OrYield(t);
    } else {
      OrNamed(t.more, allowed);
      NamedWithin(and + [Or], OrYield(t.more), [], allowed);
      assert and + [Or] + OrYield(t.more) + [] == OrYield(t);
    }
  }

  lemma {:induction false} AndNamed(t: AndTree, allowed: seq<string>)
    requires AndValue(t, allowed)
    ensures NamesListed(AndYield(t), allowed)
    decreases t
  {
    var atom := AtomYield(t.atom);
    AtomNamed(t.atom, allowed);
    var more := if t.ThenAnd? then [And] + AndYield(t.more) else [];
    NamedWithin([], atom, more, allowed);
    assert [] + atom + more == AndYield(t);
  }

  lemma {:induction false} AtomNamed(t: AtomTree, allowed: seq<string>)
    requires AtomValue(t, allowed)
    ensures NamesListed(AtomYield(t), allowed)
    decreases t
  {
    if t.Group? {
      OrNamed(t.inner, allowed);
      NamedWithin([Open], OrYield(t.inner), [Close], allowed);
      assert [Open] + OrYield(t.inner) + [Close] == AtomYield(t);
    } else {
      assert AtomYield(t)[0] == Id(t.name);
    }
  }

  /** What is satisfied names a licence on the list; so nothing satisfies an empty one. */
  lemma SatisfiedNames(tokens: seq<Token>, allowed: seq<string>)
    requires Satisfies(tokens, allowed)
    ensures NamesListed(tokens, allowed) && allowed != []
  {
    SatisfiesIff(tokens, allowed);
    var t :| OrYield(t) == tokens && OrValue(t, allowed);
    OrNamed(t, allowed);
  }

  lemma {:induction false} OrMonotone(t: OrTree, few: seq<string>, many: seq<string>)
    requires forall x :: x in few ==> x in many
    ensures OrValue(t, few) ==> OrValue(t, many)
  {
    AndMonotone(t.and, few, many);
    if t.ThenOr? {
      OrMonotone(t.more, few, many);
    }
  }

  lemma {:induction false} AndMonotone(t: AndTree, few: seq<string>, many: seq<string>)
    requires forall x :: x in few ==> x in many
    ensures AndValue(t, few) ==> AndValue(t, many)
  {
    AtomMonotone(t.atom, few, many);
    if t.ThenAnd? {
      AndMonotone(t.more, few, many);
    }
  }

  lemma {:induction false} AtomMonotone(t: AtomTree, few: seq<string>, many: seq<string>)
    requires forall x :: x in few ==> x in many
    ensures AtomValue(t, few) ==> AtomValue(t, many)
  {
    if t.Group? {
      OrMonotone(t.inner, few, many);
    }
  }

  /** Allowing more licences never refuses an expression that was satisfied. */
  lemma Monotone(tokens: seq<Token>, few: seq<string>, many: seq<string>)
    requires (forall x :: x in few ==> x in many) && Satisfies(tokens, few)
    ensures Satisfies(tokens, many)
  {
    SatisfiesIff(tokens, few);
    var t :| OrYield(t) == tokens && OrValue(t, few);
    OrMonotone(t, few, many);
    TreeDecides(t, many);
  }

  // ---- a precedence-aware printer ----

  datatype Expr =
    | Name(name: string)
    | Excepted(name: string, exception: Token)
    | Both(a: Expr, b: Expr)
    | Either(a: Expr, b: Expr)

  predicate Eval(e: Expr, allowed: seq<string>) {
    match e
    case Name(name) => OnList(name, allowed)
    case Excepted(_, _) => false
    case Both(a, b) => Eval(a, allowed) && Eval(b, allowed)
    case Either(a, b) => Eval(a, allowed) || Eval(b, allowed)
  }

  function Show(e: Expr): seq<Token>
    decreases e, 1
  {
    match e
    case Either(a, b) => Show(a) + ([Or] + Show(b))
    case _ => ShowTerm(e)
  }

  /** An alternative is bracketed inside a conjunction. */
  function ShowTerm(e: Expr): seq<Token>
    decreases e, 0
  {
    match e
    case Name(name) => [Id(name)]
    case Excepted(name, exception) => [Id(name), With, exception]
    case Both(a, b) => ShowTerm(a) + ([And] + ShowTerm(b))
    case Either(a, b) => [Open] + (Show(a) + ([Or] + Show(b)) + [Close])
  }

  function JoinOr(t: OrTree, u: OrTree): OrTree {
    match t
    case LastAnd(and) => ThenOr(and, u)
    case ThenOr(and, more) => ThenOr(and, JoinOr(more, u))
  }

  function JoinAnd(t: AndTree, u: AndTree): AndTree {
    match t
    case LastAtom(atom) => ThenAnd(atom, u)
    case ThenAnd(atom, more) => ThenAnd(atom, JoinAnd(more, u))
  }

  lemma {:induction false} JoinOrReads(t: OrTree, u: OrTree, allowed: seq<string>)
    ensures OrYield(JoinOr(t, u)) == OrYield(t) + ([Or] + OrYield(u))
    ensures OrValue(JoinOr(t, u), allowed) <==> OrValue(t, allowed) || OrValue(u, allowed)
  {
    if t.ThenOr? {
      JoinOrReads(t.more, u, allowed);
    }
  }

  lemma {:induction false} JoinAndReads(t: AndTree, u: AndTree, allowed: seq<string>)
    ensures AndYield(JoinAnd(t, u)) == AndYield(t) + ([And] + AndYield(u))
    ensures AndValue(JoinAnd(t, u), allowed) <==> AndValue(t, allowed) && AndValue(u, allowed)
  {
    if t.ThenAnd? {
      JoinAndReads(t.more, u, allowed);
    }
  }

  lemma {:induction false} ShowReads(e: Expr, allowed: seq<string>) returns (t: OrTree)
    ensures OrYield(t) == Show(e) && (OrValue(t, allowed) <==> Eval(e, allowed))
    decreases e, 1
  {
    if e.Either? {
      var a := ShowReads(e.a, allowed);
      var b := ShowReads(e.b, allowed);
      t := JoinOr(a, b);
      JoinOrReads(a, b, allowed);
    } else {
      var and := ShowTermReads(e, allowed);
      t := LastAnd(and);
    }
  }

  lemma {:induction false} ShowTermReads(e: Expr, allowed: seq<string>) returns (t: AndTree)
    ensures AndYield(t) == ShowTerm(e) && (AndValue(t, allowed) <==> Eval(e, allowed))
    decreases e, 0
  {
    match e
    case Name(name) => t := LastAtom(Plain(name));
    case Excepted(name, exception) => t := LastAtom(Except(name, exception));
    case Both(a, b) =>
      var x := ShowTermReads(a, allowed);
      var y := ShowTermReads(b, allowed);
      t := JoinAnd(x, y);
      JoinAndReads(x, y, allowed);
    case Either(a, b) =>
      var x := ShowReads(a, allowed);
      var y := ShowReads(b, allowed);
      JoinOrReads(x, y, allowed);
      t := LastAtom(Group(JoinOr(x, y)));
  }

  /** The evaluator inverts the printer. */
  lemma ShownMeans(e: Expr, allowed: seq<string>)
    ensures Satisfies(Show(e), allowed) <==> Eval(e, allowed)
  {
    var t := ShowReads(e, allowed);
    TreeDecides(t, allowed);
  }

  // ---- from text to tokens ----

  function Padded(s: string): string {
    if s == [] then ""
    else (if s[0] == '(' || s[0] == ')' then [' ', s[0], ' '] else [s[0]]) + Padded(s[1..])
  }

  /** The maximal runs of characters that are no white space; `word` is the one being read. */
  function Words(s: string, word: string): seq<string> {
    if s == [] then Flush(word)
    else if IsSpace(s[0]) then Flush(word) + Words(s[1..], "")
    else Words(s[1..], word + [s[0]])
  }

  function Flush(word: string): seq<string> {
    if word == [] then [] else [word]
  }

  function TokenOf(word: string): Token {
    if word == "(" then Open
    else if word == ")" then Close
    else if word == "AND" then And
    else if word == "OR" then Or
    else if word == "WITH" then With
    else Id(word)
  }

  function TokensOf(words: seq<string>): seq<Token> {
    if words == [] then [] else [TokenOf(words[0])] + TokensOf(words[1..])
  }

  function Tokenize(expression: string): seq<Token> {
    TokensOf(Words(Padded(expression), ""))
  }

  function TextOf(t: Token): string {
    match t
    case Open => "("
    case Close => ")"
    case And => "AND"
    case Or => "OR"
    case With => "WITH"
    case Id(name) => name
  }

  predicate Writable(t: Token) {
    t.Id? ==>
      && t.name != [] && t.name != "AND" && t.name != "OR" && t.name != "WITH"
      && forall i :: 0 <= i < |t.name| ==> !IsSpace(t.name[i]) && t.name[i] != '(' && t.name[i] != ')'
  }

  predicate OneWord(w: string) {
    forall i :: 0 <= i < |w| ==> !IsSpace(w[i]) && w[i] != '(' && w[i] != ')'
  }

  predicate Bracket(t: Token) {
    t.Open? || t.Close?
  }

  predicate Spaces(gap: string) {
    forall i :: 0 <= i < |gap| ==> IsSpace(gap[i])
  }

  /** Tokens written with white space after them; brackets need none, nor do words before one. */
  predicate Spaced(ts: seq<Token>, gaps: seq<string>) {
    && |gaps| == |ts|
    && (forall k :: 0 <= k < |ts| ==> Writable(ts[k]) && Spaces(gaps[k]))
    && (forall k :: 0 <= k < |ts| - 1 && !Bracket(ts[k]) && !Bracket(ts[k + 1]) ==> gaps[k] != "")
  }

  function Written(ts: seq<Token>, gaps: seq<string>): string
    requires |gaps| == |ts|
  {
    if ts == [] then "" else TextOf(ts[0]) + (gaps[0] + Written(ts[1..], gaps[1..]))
  }

  lemma {:induction false} PaddedAppend(a: string, b: string)
    ensures Padded(a + b) == Padded(a) + Padded(b)
  {
    if a == [] {
      assert a + b == b;
    } else {
      assert (a + b)[1..] == a[1..] + b;
      PaddedAppend(a[1..], b);
    }
  }

  lemma {:induction false} PaddedWord(w: string)
    requires OneWord(w) || Spaces(w)
    ensures Padded(w) == w
  {
    if w != [] {
      PaddedWord(w[1..]);
    }
  }

  /** The text ends here, or goes on with white space. */
  predicate Breaks(x: string) {
    x == "" || IsSpace(x[0])
  }

  lemma {:induction false} WordsWord(w: string, rest: string, word: string)
    requires OneWord(w) && Breaks(rest)
    ensures Words(w + rest, word) == Flush(word + w) + Words(rest, "")
  {
    if w == [] {
      assert w + rest == rest && word + w == word;
    } else {
      assert (w + rest)[1..] == w[1..] + rest;
      assert word + [w[0]] + w[1..] == word + w;
      WordsWord(w[1..], rest, word + [w[0]]);
    }
  }

  lemma {:induction false} WordsSpaces(gap: string, rest: string)
    requires Spaces(gap)
    ensures Words(gap + rest, "") == Words(rest, "")
  {
    if gap == [] {
      assert gap + rest == rest;
    } else {
      assert (gap + rest)[1..] == gap[1..] + rest;
      WordsSpaces(gap[1..], rest);
    }
  }

  lemma WordsBracket(c: char, rest: string)
    requires !IsSpace(c)
    ensures Words([' ', c, ' '] + rest, "") == [[c]] + Words(rest, "")
  {
    var s := [' ', c, ' '] + rest;
    var s1 := [c, ' '] + rest;
    var s2 := [' '] + rest;
    assert s[1..] == s1 && s1[1..] == s2 && s2[1..] == rest;
    assert [] + [c] == [c];
    assert Words(s, "") == Words(s1, "") == Words(s2, [c]) == [[c]] + Words(rest, "");
  }

  /** A token, when the padded text breaks after it, is one word. */
  lemma WordsToken(t: Token, rest: string)
    requires Writable(t) && (Bracket(t) || Breaks(Padded(rest)))
    ensures Words(Padded(TextOf(t) + rest), "") == [TextOf(t)] + Words(Padded(rest), "")
  {
    var w := TextOf(t);
    PaddedAppend(w, rest);
    if Bracket(t) {
      assert w[1..] == "" && Padded(w) == [' ', w[0], ' '];
      WordsBracket(w[0], Padded(rest));
      assert [w[0]] == w;
    } else {
      PaddedWord(w);
      WordsWord(w, Padded(rest), "");
      assert "" + w == w;
    }
  }

  lemma GapBreaks(ts: seq<Token>, gaps: seq<string>)
    requires ts != [] && Spaced(ts, gaps) && !Bracket(ts[0])
    ensures Breaks(Padded(gaps[0] + Written(ts[1..], gaps[1..])))
  {
    var rest := Written(ts[1..], gaps[1..]);
    PaddedAppend(gaps[0], rest);
    PaddedWord(gaps[0]);
    if gaps[0] == "" && |ts| > 1 {
      assert Bracket(ts[1]);
      assert TextOf(ts[1]) + (gaps[1] + Written(ts[1..][1..], gaps[1..][1..])) == rest;
      PaddedAppend(TextOf(ts[1]), gaps[1] + Written(ts[1..][1..], gaps[1..][1..]));
      assert TextOf(ts[1])[1..] == "" && Padded(TextOf(ts[1]))[0] == ' ';
    }
  }

  lemma FirstToken(ts: seq<Token>, gaps: seq<string>)
    requires ts != [] && Spaced(ts, gaps)
    ensures Words(Padded(Written(ts, gaps)), "") == [TextOf(ts[0])] + Words(Padded(Written(ts[1..], gaps[1..])), "")
  {
    var rest := Written(ts[1..], gaps[1..]);
    if !Bracket(ts[0]) {
      GapBreaks(ts, gaps);
    }
    WordsToken(ts[0], gaps[0] + rest);
    PaddedAppend(gaps[0], rest);
    PaddedWord(gaps[0]);
    WordsSpaces(gaps[0], Padded(rest));
  }

  lemma TokensCons(t: Token, words: seq<string>)
    requires Writable(t)
    ensures TokensOf([TextOf(t)] + words) == [t] + TokensOf(words)
  {
    assert ([TextOf(t)] + words)[1..] == words;
    if t.Id? {
      assert t.name[0] != '(' && t.name[0] != ')';
      assert t.name != "(" && t.name != ")";
    }
    assert TokenOf(TextOf(t)) == t;
  }

  /** Tokens written out are read back, however they are spaced. */
  lemma {:induction false} TokenizeWritten(ts: seq<Token>, gaps: seq<string>)
    requires Spaced(ts, gaps)
    ensures Tokenize(Written(ts, gaps)) == ts
    decreases ts
  {
    if ts != [] {
      FirstToken(ts, gaps);
      TokensCons(ts[0], Words(Padded(Written(ts[1..], gaps[1..])), ""));
      TokenizeWritten(ts[1..], gaps[1..]);
    }
  }

  /** White space before them changes nothing. */
  lemma TokenizeLed(lead: string, ts: seq<Token>, gaps: seq<string>)
    requires Spaces(lead) && Spaced(ts, gaps)
    ensures Tokenize(lead + Written(ts, gaps)) == ts
  {
    PaddedAppend(lead, Written(ts, gaps));
    PaddedWord(lead);
    WordsSpaces(lead, Padded(Written(ts, gaps)));
    TokenizeWritten(ts, gaps);
  }

  // ---- the gate ----

  datatype Package = Package(name: string, version: string, license: string)

  /** An exception names one package, or every package its pattern matches. */
  datatype NamePattern = Exactly(name: string) | Matching(matches: string -> bool)
  datatype Exception = Exception(name: NamePattern, license: string, versions: Option<seq<string>>)
  datatype Policy = Policy(allowed: seq<string>, exceptions: seq<Exception>, minPackages: nat)

  datatype Failure = TooFew(examined: nat) | Refused(package: Package) | Unused(exception: nat)

  predicate Matches(e: Exception, p: Package) {
    && (match e.name case Exactly(name) => name == p.name case Matching(matches) => matches(p.name))
    && e.license == p.license
    && (e.versions.None? || p.version in e.versions.value)
  }

  /** The first exception, from `k` on, for a package. */
  function FirstMatch(exceptions: seq<Exception>, p: Package, k: nat): (r: Option<nat>)
    ensures match r
            case Some(i) =>
              && k <= i < |exceptions|
              && Matches(exceptions[i], p)
              && forall j :: k <= j < i ==> !Matches(exceptions[j], p)
            case None => forall j :: k <= j < |exceptions| ==> !Matches(exceptions[j], p)
    decreases |exceptions| - k
  {
    if k >= |exceptions| then None
    else if Matches(exceptions[k], p) then Some(k)
    else FirstMatch(exceptions, p, k + 1)
  }

  predicate Licensed(p: Package, policy: Policy) {
    Satisfies(Tokenize(p.license), policy.allowed)
  }

  /** The package needs an exception, and the `k`-th is the first to match it. */
  predicate Uses(p: Package, policy: Policy, k: nat) {
    !Licensed(p, policy) && FirstMatch(policy.exceptions, p, 0) == Some(k)
  }

  predicate IsRefused(p: Package, policy: Policy) {
    !Licensed(p, policy) && FirstMatch(policy.exceptions, p, 0) == None
  }

  ghost predicate InUse(packages: seq<Package>, policy: Policy, k: nat) {
    exists p :: p in packages && Uses(p, policy, k)
  }

  /** What each kind of failure in the report means. */
  ghost predicate Explains(packages: seq<Package>, policy: Policy, f: Failure) {
    match f
    case TooFew(n) => n == |packages| && n < policy.minPackages
    case Refused(p) => p in packages && IsRefused(p, policy)
    case Unused(k) => k < |policy.exceptions| && !InUse(packages, policy, k)
  }

  /** The refusals among the packages, in order. */
  function Refusals(packages: seq<Package>, policy: Policy): seq<Failure> {
    if packages == [] then []
    else
      var p := packages[|packages| - 1];
      Refusals(packages[..|packages| - 1], policy) + if IsRefused(p, policy) then [Refused(p)] else []
  }

  /** The exception has the package's licence, a name for it, and its version where it lists any. */
  predicate Covers(e: Exception, p: Package) {
    && e.license == p.license
    && (e.name.Exactly? ==> e.name.name == p.name)
    && (e.name.Matching? ==> e.name.matches(p.name))
    && (e.versions.Some? ==> p.version in e.versions.value)
  }

  /** The first exception for a package whose licence is not satisfied. */
  predicate FirstFor(exceptions: seq<Exception>, allowed: seq<string>, p: Package, k: nat) {
    && k < |exceptions| && !Satisfies(Tokenize(p.license), allowed) && Covers(exceptions[k], p)
    && forall j :: 0 <= j < k ==> !Covers(exceptions[j], p)
  }

  /** An exception that is the first for no package. */
  ghost function Idle(packages: seq<Package>, policy: Policy): nat -> bool {
    (k: nat) =>
      k < |policy.exceptions| && forall p :: p in packages ==> !FirstFor(policy.exceptions, policy.allowed, p, k)
  }

  lemma UsesIff(p: Package, policy: Policy, k: nat)
    ensures Uses(p, policy, k) <==> FirstFor(policy.exceptions, policy.allowed, p, k)
  {
    assert forall e :: Matches(e, p) <==> Covers(e, p);
  }

  lemma IdleIff(packages: seq<Package>, policy: Policy, k: nat)
    requires k < |policy.exceptions|
    ensures Idle(packages, policy)(k) <==> !InUse(packages, policy, k)
  {
    forall p | p in packages ensures Uses(p, policy, k) <==> FirstFor(policy.exceptions, policy.allowed, p, k) {
      UsesIff(p, policy, k);
    }
  }

  /** The unused exceptions, of the first `k`, in order. */
  function UnusedIn(idle: nat -> bool, k: nat): seq<Failure> {
    if k == 0 then [] else UnusedIn(idle, k - 1) + if idle(k - 1) then [Unused(k - 1)] else []
  }

  /** What the report lists: too small a scan, then the refusals, then the unused exceptions. */
  ghost function Listed(packages: seq<Package>, policy: Policy): seq<Failure> {
    (if |packages| < policy.minPackages then [TooFew(|packages|)] else [])
    + Refusals(packages, policy) + UnusedIn(Idle(packages, policy), |policy.exceptions|)
  }

  lemma {:induction false} RefusalsAre(packages: seq<Package>, policy: Policy)
    ensures forall f :: f in Refusals(packages, policy) <==>
              f.Refused? && f.package in packages && IsRefused(f.package, policy)
  {
    if packages != [] {
      RefusalsAre(packages[..|packages| - 1], policy);
      assert packages == packages[..|packages| - 1] + [packages[|packages| - 1]];
    }
  }

  lemma {:induction false} UnusedAre(idle: nat -> bool, k: nat)
    ensures forall f :: f in UnusedIn(idle, k) <==> f.Unused? && f.exception < k && idle(f.exception)
  {
    if k > 0 {
      UnusedAre(idle, k - 1);
    }
  }

  /** The report lists every failure there is, and no other. */
  lemma ListedAre(packages: seq<Package>, policy: Policy)
    ensures forall f :: f in Listed(packages, policy) <==> Explains(packages, policy, f)
  {
    RefusalsAre(packages, policy);
    UnusedAre(Idle(packages, policy), |policy.exceptions|);
    forall k: nat | k < |policy.exceptions| ensures Idle(packages, policy)(k) <==> !InUse(packages, policy, k) {
      IdleIff(packages, policy, k);
    }
  }

  /** A package whose licence is not satisfied and that no exception covers. */
  ghost function Offending(packages: seq<Package>, policy: Policy): nat -> bool {
    (i: nat) =>
      && i < |packages| && !Satisfies(Tokenize(packages[i].license), policy.allowed)
      && forall e :: e in policy.exceptions ==> !Covers(e, packages[i])
  }

  lemma RefusedIff(p: Package, policy: Policy)
    ensures IsRefused(p, policy) <==>
            && !Satisfies(Tokenize(p.license), policy.allowed)
            && forall e :: e in policy.exceptions ==> !Covers(e, p)
  {
    assert forall e :: Matches(e, p) <==> Covers(e, p);
    match FirstMatch(policy.exceptions, p, 0)
    case Some(i) => assert policy.exceptions[i] in policy.exceptions;
    case None =>
      forall e | e in policy.exceptions ensures !Matches(e, p) {
        var j :| 0 <= j < |policy.exceptions| && policy.exceptions[j] == e;
      }
  }

  ghost predicate RefusedAt(packages: seq<Package>, refused: nat -> bool, k: nat, failures: seq<Failure>)
    requires k <= |packages|
  {
    var at := Select(refused, 0, k);
    |at| == |failures| && forall i :: 0 <= i < |at| ==> failures[i] == Refused(packages[at[i]])
  }

  lemma {:induction false} RefusalsAt(packages: seq<Package>, policy: Policy, refused: nat -> bool, k: nat)
    requires k <= |packages| && forall i: nat :: i < |packages| ==> refused(i) == IsRefused(packages[i], policy)
    ensures RefusedAt(packages, refused, k, Refusals(packages[..k], policy))
  {
    if k > 0 {
      RefusalsAt(packages, policy, refused, k - 1);
      assert packages[..k][..k - 1] == packages[..k - 1];
      SelectLast(refused, 0, k - 1);
    }
  }

  ghost predicate UnusedAt(idle: nat -> bool, k: nat, failures: seq<Failure>) {
    var at := Select(idle, 0, k);
    |at| == |failures| && forall i :: 0 <= i < |at| ==> failures[i] == Unused(at[i])
  }

  lemma {:induction false} UnusedSelects(idle: nat -> bool, k: nat)
    ensures UnusedAt(idle, k, UnusedIn(idle, k))
  {
    if k > 0 {
      UnusedSelects(idle, k - 1);
      SelectLast(idle, 0, k - 1);
    }
  }

  /** The report in order: too small a scan, each offending package where it stands, each idle exception. */
  lemma ListedInOrder(packages: seq<Package>, policy: Policy) returns (refused: seq<Failure>, unused: seq<Failure>)
    ensures Listed(packages, policy) ==
            (if |packages| < policy.minPackages then [TooFew(|packages|)] else []) + refused + unused
    ensures RefusedAt(packages, Offending(packages, policy), |packages|, refused)
    ensures UnusedAt(Idle(packages, policy), |policy.exceptions|, unused)
  {
    refused, unused := Refusals(packages, policy), UnusedIn(Idle(packages, policy), |policy.exceptions|);
    forall i: nat | i < |packages| ensures Offending(packages, policy)(i) == IsRefused(packages[i], policy) {
      RefusedIff(packages[i], policy);
    }
    RefusalsAt(packages, policy, Offending(packages, policy), |packages|);
    UnusedSelects(Idle(packages, policy), |policy.exceptions|);
    assert packages[..|packages|] == packages;
  }

  /** The packages neither allowed nor excepted, and the exceptions that are used. */
  method Judge(packages: seq<Package>, policy: Policy) returns (refusals: seq<Failure>, used: set<nat>)
    ensures refusals == Refusals(packages, policy)
    ensures forall k: nat :: k in used <==> InUse(packages, policy, k)
  {
    refusals, used := [], {};
    for i := 0 to |packages|
      invariant refusals == Refusals(packages[..i], policy)
      invariant forall k: nat :: k in used <==> InUse(packages[..i], policy, k)
    {
      var p := packages[i];
      assert packages[..i + 1][..i] == packages[..i] && packages[..i + 1] == packages[..i] + [p];
      UseStep(packages[..i], p, policy);
      var ok := SatisfiesAllowList(p.license, policy.allowed);
      if ok {
        continue;
      }
      var exception := FirstMatch(policy.exceptions, p, 0);
      if exception.Some? {
        used := used + {exception.value};
        continue;
      }
      refusals := refusals + [Refused(p)];
    }
    assert packages[..|packages|] == packages;
  }

  /** The exceptions, by number, that are not used. */
  method NotUsed(ghost idle: nat -> bool, n: nat, used: set<nat>) returns (failures: seq<Failure>)
    requires forall k: nat :: k < n ==> (idle(k) <==> k !in used)
    ensures failures == UnusedIn(idle, n)
  {
    failures := [];
    for k := 0 to n
      invariant failures == UnusedIn(idle, k)
    {
      if k !in used {
        failures := failures + [Unused(k)];
      }
    }
  }

  method EvaluateLicenses(packages: seq<Package>, policy: Policy) returns (examined: nat, failures: seq<Failure>)
    ensures examined == |packages| && failures == Listed(packages, policy)
  {
    failures := [];
    if |packages| < policy.minPackages {
      failures := [TooFew(|packages|)];
    }
    var refusals, used := Judge(packages, policy);
    forall k: nat | k < |policy.exceptions| ensures Idle(packages, policy)(k) <==> k !in used {
      IdleIff(packages, policy, k);
    }
    var unused := NotUsed(Idle(packages, policy), |policy.exceptions|, used);
    failures := failures + refusals + unused;
    examined := |packages|;
  }

  lemma UseStep(packages: seq<Package>, p: Package, policy: Policy)
    ensures forall k :: InUse(packages + [p], policy, k) <==> InUse(packages, policy, k) || Uses(p, policy, k)
  {
    forall k ensures InUse(packages + [p], policy, k) <==> InUse(packages, policy, k) || Uses(p, policy, k) {
      if InUse(packages, policy, k) {
        var q :| q in packages && Uses(q, policy, k);
        assert q in packages + [p];
      }
      if Uses(p, policy, k) {
        assert p in packages + [p];
      }
    }
  }
}
