/** Parentheses and top-level terms of a filter's text. */
module FilterText {
  import opened Text

  /** A character of a filter, or the place of its string literal number `n`. */
  datatype Sym = Ch(c: char) | Ref(n: nat)

  const OPEN := Ch('(')
  const CLOSE := Ch(')')

  predicate IsBlank(x: Sym) {
    x in {Ch(' '), Ch('\t'), Ch('\n'), Ch('\r')}
  }

  function TrimLeft(s: seq<Sym>): seq<Sym> {
    if s != [] && IsBlank(s[0]) then TrimLeft(s[1..]) else s
  }

  function TrimRight(s: seq<Sym>): seq<Sym> {
    if s != [] && IsBlank(s[|s| - 1]) then TrimRight(s[..|s| - 1]) else s
  }

  function Trimmed(s: seq<Sym>): seq<Sym> {
    TrimRight(TrimLeft(s))
  }

  // ---- depth and balance ----

  function Weight(x: Sym): int {
    if x == OPEN then 1 else if x == CLOSE then -1 else 0
  }

  function Depth(s: seq<Sym>): int {
    if s == [] then 0 else Depth(s[..|s| - 1]) + Weight(s[|s| - 1])
  }

  lemma {:induction false} DepthAppend(a: seq<Sym>, b: seq<Sym>)
    ensures Depth(a + b) == Depth(a) + Depth(b)
  {
    if b == [] {
      assert a + b == a;
    } else {
      assert (a + b)[..|a + b| - 1] == a + b[..|b| - 1];
      DepthAppend(a, b[..|b| - 1]);
    }
  }

  ghost predicate Balanced(s: seq<Sym>) {
    Depth(s) == 0 && forall k :: 0 <= k <= |s| ==> Depth(s[..k]) >= 0
  }

  // ---- closingParen ----

  /** The first index from `j` at which a parenthesis closes `depth` open ones. */
  function Closing(s: seq<Sym>, j: nat, depth: int): (k: Option<nat>)
    requires j <= |s|
    decreases |s| - j
  {
    if j == |s| then None
    else if s[j] == OPEN then Closing(s, j + 1, depth + 1)
    else if s[j] == CLOSE then if depth - 1 == 0 then Some(j) else Closing(s, j + 1, depth - 1)
    else Closing(s, j + 1, depth)
  }

  /** -1 when the parenthesis at `open` is never closed. */
  method ClosingParen(s: seq<Sym>, open: nat) returns (k: int)
    requires open <= |s|
    ensures match Closing(s, open, 0) case Some(c) => k == c case None => k == -1
  {
    var depth, j := 0, open;
    while j < |s|
      invariant open <= j <= |s|
      invariant Closing(s, j, depth) == Closing(s, open, 0)
    {
      if s[j] == OPEN {
        depth := depth + 1;
      } else if s[j] == CLOSE {
        depth := depth - 1;
        if depth == 0 {
          return j;
        }
      }
      j := j + 1;
    }
    return -1;
  }

  /**
    The index found is the one matching the first parenthesis: the text up to it is balanced, and
    no shorter prefix is. When there is none, no prefix is.
   */
  lemma {:induction false} ClosingMatches(s: seq<Sym>, j: nat, depth: int)
    requires j <= |s| && depth == Depth(s[..j]) && (j == 0 ==> s != [] && s[0] == OPEN)
    requires forall k :: 0 < k <= j ==> Depth(s[..k]) > 0
    ensures match Closing(s, j, depth)
            case Some(c) =>
              && j <= c < |s| && s[c] == CLOSE && Depth(s[..c + 1]) == 0
              && forall k :: 0 < k <= c ==> Depth(s[..k]) > 0
            case None => forall k :: 0 < k <= |s| ==> Depth(s[..k]) > 0
    decreases |s| - j
  {
    if j < |s| {
      assert s[..j + 1][..j] == s[..j];
      if !(s[j] == CLOSE && depth == 1) {
        ClosingMatches(s, j + 1, depth + Weight(s[j]));
      }
    }
  }

  // ---- trimming ----

  lemma {:induction false} TrimLeftIs(s: seq<Sym>) returns (k: nat)
    ensures k <= |s| && TrimLeft(s) == s[k..] && forall i :: 0 <= i < k ==> IsBlank(s[i])
    ensures k < |s| ==> !IsBlank(s[k])
  {
    k := 0;
    if s != [] && IsBlank(s[0]) {
      k := TrimLeftIs(s[1..]);
      assert s[1..][k..] == s[k + 1..];
      k := k + 1;
    }
  }

  lemma {:induction false} TrimRightIs(s: seq<Sym>) returns (k: nat)
    ensures k <= |s| && TrimRight(s) == s[..k] && forall i :: k <= i < |s| ==> IsBlank(s[i])
    ensures k > 0 ==> !IsBlank(s[k - 1])
  {
    k := |s|;
    if s != [] && IsBlank(s[|s| - 1]) {
      k := TrimRightIs(s[..|s| - 1]);
      assert s[..|s| - 1][..k] == s[..k];
    }
  }

  /** Trimming takes the text between two runs of blanks. */
  lemma TrimmedIs(s: seq<Sym>) returns (a: nat, b: nat)
    ensures a <= b <= |s| && Trimmed(s) == s[a..b]
    ensures forall i :: 0 <= i < a || b <= i < |s| ==> IsBlank(s[i])
    ensures a < b ==> !IsBlank(s[a]) && !IsBlank(s[b - 1])
  {
    a := TrimLeftIs(s);
    var k := TrimRightIs(s[a..]);
    b := a + k;
    assert s[a..][..k] == s[a..b];
    forall i | b <= i < |s| ensures IsBlank(s[i]) {
      assert s[i] == s[a..][i - a];
    }
  }

  lemma TrimmedTwice(s: seq<Sym>)
    ensures Trimmed(Trimmed(s)) == Trimmed(s)
  {
    var a, b := TrimmedIs(s);
    var t := s[a..b];
    assert t != [] ==> t[0] == s[a] && t[|t| - 1] == s[b - 1];
    assert TrimLeft(t) == t && TrimRight(t) == t;
  }

  lemma {:induction false} BlankDepth(s: seq<Sym>)
    requires forall i :: 0 <= i < |s| ==> Weight(s[i]) == 0
    ensures Depth(s) == 0
  {
    if s != [] {
      BlankDepth(s[..|s| - 1]);
    }
  }

  /** The depth inside a slice counts from the slice's own start. */
  lemma SliceDepth(s: seq<Sym>, a: nat, k: nat)
    requires a <= k <= |s|
    ensures Depth(s[a..k]) == Depth(s[..k]) - Depth(s[..a])
  {
    assert s[..k] == s[..a] + s[a..k];
    DepthAppend(s[..a], s[a..k]);
  }

  lemma PrefixOfSlice<T>(s: seq<T>, a: nat, b: nat, k: nat)
    requires a <= b <= |s| && k <= b - a
    ensures s[a..b][..k] == s[a..a + k]
  {
    var t, u, v := s[a..b], s[a..b][..k], s[a..a + k];
    forall j | 0 <= j < |u| ensures u[j] == v[j] {
      assert u[j] == t[j] == s[a + j];
    }
  }

  lemma SliceBalanced(s: seq<Sym>, a: nat, b: nat)
    requires a <= b <= |s| && Balanced(s) && Depth(s[..a]) == 0 && Depth(s[..b]) == 0
    ensures Balanced(s[a..b])
  {
    SliceDepth(s, a, b);
    var t := s[a..b];
    forall k | 0 <= k <= |t| ensures Depth(t[..k]) >= 0 {
      PrefixOfSlice(s, a, b, k);
      SliceDepth(s, a, a + k);
    }
  }

  lemma TrimmedDepths(s: seq<Sym>, a: nat, b: nat)
    requires a <= b <= |s| && forall i :: 0 <= i < a || b <= i < |s| ==> IsBlank(s[i])
    ensures Depth(s[..a]) == 0 && Depth(s[b..]) == 0 && Depth(s[..b]) == Depth(s)
  {
    BlankDepth(s[..a]);
    BlankDepth(s[b..]);
    assert s == s[..b] + s[b..];
    DepthAppend(s[..b], s[b..]);
  }

  lemma TrimmedBalanced(s: seq<Sym>)
    requires Balanced(s)
    ensures Balanced(Trimmed(s))
  {
    var a, b := TrimmedIs(s);
    TrimmedDepths(s, a, b);
    SliceBalanced(s, a, b);
  }

  // ---- unwrap ----

  /** The first parenthesis of `s` closes at its end. */
  predicate Wrapped(s: seq<Sym>) {
    s != [] && s[0] == OPEN && Closing(s, 0, 0) == Some(|s| - 1)
  }

  lemma {:induction false} TrimmedShort(s: seq<Sym>)
    ensures |Trimmed(s)| <= |s|
  {
    var a, b := TrimmedIs(s);
  }

  lemma WrappedLong(s: seq<Sym>)
    requires Wrapped(s)
    ensures |s| >= 2 && s[|s| - 1] == CLOSE
    ensures forall k :: 0 < k < |s| ==> Depth(s[..k]) > 0
    ensures Depth(s) == 0
  {
    ClosingMatches(s, 0, 0);
    assert s[..|s| - 1 + 1] == s;
  }

  /** The text with every pair of parentheses around the whole of it removed. */
  function Strip(s: seq<Sym>): seq<Sym>
    decreases |s|
  {
    if Wrapped(s) then
      WrappedLong(s);
      TrimmedShort(s[1..|s| - 1]);
      Strip(Trimmed(s[1..|s| - 1]))
    else s
  }

  function Unwrap(t: seq<Sym>): seq<Sym> {
    Strip(Trimmed(t))
  }

  method UnwrapLoop(t: seq<Sym>) returns (s: seq<Sym>)
    ensures s == Unwrap(t)
  {
    s := Trimmed(t);
    while true
      invariant Strip(s) == Unwrap(t)
      decreases |s|
    {
      if s == [] || s[0] != OPEN {
        break;
      }
      var close := ClosingParen(s, 0);
      if close != |s| - 1 {
        break;
      }
      WrappedLong(s);
      TrimmedShort(s[1..|s| - 1]);
      s := Trimmed(s[1..|s| - 1]);
    }
  }

  /** `r` is `t` trimmed, and trimmed again within each of `n` pairs that enclose all the rest. */
  ghost predicate Layers(t: seq<Sym>, r: seq<Sym>, n: nat)
    decreases n
  {
    if n == 0 then r == Trimmed(t)
    else |Trimmed(t)| >= 2 && Wrapped(Trimmed(t)) && Layers(Trimmed(t)[1..|Trimmed(t)| - 1], r, n - 1)
  }

  /** Unwrapping removes only pairs that enclose the whole text, and leaves none that does. */
  lemma {:induction false} UnwrapLayers(t: seq<Sym>)
    ensures exists n: nat :: Layers(t, Unwrap(t), n)
    ensures !Wrapped(Unwrap(t))
    decreases |t|
  {
    var s := Trimmed(t);
    TrimmedShort(t);
    if Wrapped(s) {
      WrappedLong(s);
      var inner := s[1..|s| - 1];
      UnwrapLayers(inner);
      var n: nat :| Layers(inner, Unwrap(inner), n);
      assert Layers(t, Unwrap(t), n + 1);
    } else {
      assert Layers(t, Unwrap(t), 0);
    }
  }

  lemma {:induction false} UnwrapTrimmed(t: seq<Sym>)
    ensures Trimmed(Unwrap(t)) == Unwrap(t)
    decreases |t|
  {
    var s := Trimmed(t);
    TrimmedShort(t);
    if Wrapped(s) {
      WrappedLong(s);
      UnwrapTrimmed(s[1..|s| - 1]);
    } else {
      TrimmedTwice(t);
    }
  }

  lemma UnwrapIdempotent(t: seq<Sym>)
    ensures Unwrap(Unwrap(t)) == Unwrap(t)
  {
    UnwrapTrimmed(t);
    UnwrapLayers(t);
  }

  lemma {:induction false} UnwrapBalanced(t: seq<Sym>)
    requires Balanced(t)
    ensures Balanced(Unwrap(t))
    decreases |t|
  {
    var s := Trimmed(t);
    TrimmedShort(t);
    TrimmedBalanced(t);
    if Wrapped(s) {
      WrappedLong(s);
      var inner := s[1..|s| - 1];
      assert s[..1] == [OPEN] && Depth(s[..1]) == Depth([]) + 1 by {
        assert s[..1][..0] == [];
      }
      assert s == s[..|s| - 1] + [CLOSE] && Depth(s) == Depth(s[..|s| - 1]) - 1;
      SliceDepth(s, 1, |s| - 1);
      forall k | 0 <= k <= |inner| ensures Depth(inner[..k]) >= 0 {
        PrefixOfSlice(s, 1, |s| - 1, k);
        SliceDepth(s, 1, 1 + k);
      }
      UnwrapBalanced(inner);
    }
  }

  // ---- splitTop ----

  predicate Occurs(s: seq<Sym>, separator: seq<Sym>, i: nat) {
    i + |separator| <= |s| && s[i..i + |separator|] == separator
  }

  /** `separator` occurs at `i`, outside every parenthesis. */
  predicate TopAt(s: seq<Sym>, separator: seq<Sym>, i: nat) {
    i <= |s| && Depth(s[..i]) == 0 && Occurs(s, separator, i)
  }

  /** JavaScript's `slice`, empty when the end comes first. */
  function Slice(s: seq<Sym>, a: nat, b: nat): seq<Sym>
    requires a <= |s| && b <= |s|
  {
    if a <= b then s[a..b] else []
  }

  predicate Plain(separator: seq<Sym>) {
    separator != [] && forall i :: 0 <= i < |separator| ==> Weight(separator[i]) == 0
  }

  /** The pieces the loop cuts from `start` on, once it has reached `i` at `depth`. */
  function Pieces(s: seq<Sym>, separator: seq<Sym>, start: nat, i: nat, depth: int): seq<seq<Sym>>
    requires start <= |s| && i <= |s|
    decreases |s| - i
  {
    if i == |s| then [s[start..]]
    else if s[i] == OPEN then Pieces(s, separator, start, i + 1, depth + 1)
    else if s[i] == CLOSE then Pieces(s, separator, start, i + 1, depth - 1)
    else if depth == 0 && Occurs(s, separator, i) then
      [Slice(s, start, i)] + Pieces(s, separator, i + |separator|, i + 1, depth)
    else Pieces(s, separator, start, i + 1, depth)
  }

  /** The pieces trimmed, the empty ones dropped. */
  function Terms(pieces: seq<seq<Sym>>): seq<seq<Sym>> {
    if pieces == [] then []
    else (if Trimmed(pieces[0]) == [] then [] else [Trimmed(pieces[0])]) + Terms(pieces[1..])
  }

  function SplitTop(f: seq<Sym>, separator: seq<Sym>): seq<seq<Sym>> {
    Terms(Pieces(Unwrap(f), separator, 0, 0, 0))
  }

  lemma {:induction false} TermsAppend(a: seq<seq<Sym>>, b: seq<seq<Sym>>)
    ensures Terms(a + b) == Terms(a) + Terms(b)
  {
    if a == [] {
      assert a + b == b;
    } else {
      assert (a + b)[0] == a[0] && (a + b)[1..] == a[1..] + b;
      TermsAppend(a[1..], b);
    }
  }

  method SplitTopLoop(f: seq<Sym>, separator: seq<Sym>) returns (out: seq<seq<Sym>>)
    ensures out == SplitTop(f, separator)
  {
    var s := UnwrapLoop(f);
    var pieces: seq<seq<Sym>> := [];
    var depth, start, i := 0, 0, 0;
    while i < |s|
      invariant 0 <= i <= |s| && 0 <= start <= |s|
      invariant pieces + Pieces(s, separator, start, i, depth) == Pieces(s, separator, 0, 0, 0)
    {
      if s[i] == OPEN {
        depth := depth + 1;
      } else if s[i] == CLOSE {
        depth := depth - 1;
      } else if depth == 0 && Occurs(s, separator, i) {
        pieces := pieces + [Slice(s, start, i)];
        start := i + |separator|;
      }
      i := i + 1;
    }
    pieces := pieces + [s[start..]];
    out := [];
    for k := 0 to |pieces|
      invariant out == Terms(pieces[..k])
    {
      assert pieces[..k + 1] == pieces[..k] + [pieces[k]];
      TermsAppend(pieces[..k], [pieces[k]]);
      var term := Trimmed(pieces[k]);
      if term != [] {
        out := out + [term];
      }
    }
    assert pieces[..|pieces|] == pieces;
  }

  function JoinPieces(pieces: seq<seq<Sym>>, separator: seq<Sym>): seq<Sym> {
    if pieces == [] then []
    else if |pieces| == 1 then pieces[0]
    else pieces[0] + separator + JoinPieces(pieces[1..], separator)
  }

  /** No two top-level separators overlap. */
  ghost predicate Apart(s: seq<Sym>, separator: seq<Sym>) {
    forall i, j :: 0 <= i < j && TopAt(s, separator, i) && TopAt(s, separator, j) ==> i + |separator| <= j
  }

  lemma SeparatorDepth(s: seq<Sym>, separator: seq<Sym>, i: nat)
    requires Plain(separator) && TopAt(s, separator, i)
    ensures Depth(s[..i + |separator|]) == 0
    ensures Weight(s[i]) == 0
  {
    SliceDepth(s, i, i + |separator|);
    BlankDepth(separator);
    assert s[i] == s[i..i + |separator|][0];
  }

  lemma JoinCons(first: seq<Sym>, rest: seq<seq<Sym>>, separator: seq<Sym>)
    requires rest != []
    ensures JoinPieces([first] + rest, separator) == first + separator + JoinPieces(rest, separator)
  {
    assert ([first] + rest)[1..] == rest;
  }

  lemma CutAt(s: seq<Sym>, separator: seq<Sym>, start: nat, i: nat)
    requires start <= i && Occurs(s, separator, i)
    ensures s[start..] == s[start..i] + separator + s[i + |separator|..]
  {
  }

  /** The pieces, joined by the separator, are the text again. */
  lemma {:induction false} PiecesJoin(s: seq<Sym>, separator: seq<Sym>, start: nat, i: nat, depth: int)
    requires Plain(separator) && Apart(s, separator)
    requires start <= |s| && i <= |s| && depth == Depth(s[..i])
    requires forall k :: i <= k < start ==> !TopAt(s, separator, k)
    ensures Pieces(s, separator, start, i, depth) != []
    ensures JoinPieces(Pieces(s, separator, start, i, depth), separator) == s[start..]
    decreases |s| - i
  {
    if i < |s| {
      assert s[..i + 1][..i] == s[..i];
      if Weight(s[i]) == 0 && depth == 0 && Occurs(s, separator, i) {
        assert TopAt(s, separator, i);
        var next := i + |separator|;
        PiecesJoin(s, separator, next, i + 1, depth);
        JoinCons(s[start..i], Pieces(s, separator, next, i + 1, depth), separator);
        CutAt(s, separator, start, i);
      } else {
        PiecesJoin(s, separator, start, i + 1, depth + Weight(s[i]));
      }
    }
  }

  /** A balanced text that no separator divides at the top level. */
  ghost predicate Whole(p: seq<Sym>, separator: seq<Sym>) {
    Balanced(p) && forall k :: 0 <= k ==> !TopAt(p, separator, k)
  }

  lemma SliceOfSlice<T>(s: seq<T>, a: nat, b: nat, k: nat, m: nat)
    requires a <= b <= |s| && k <= m <= b - a
    ensures s[a..b][k..m] == s[a + k..a + m]
  {
    var t, u, v := s[a..b], s[a..b][k..m], s[a + k..a + m];
    forall j | 0 <= j < |u| ensures u[j] == v[j] {
      assert u[j] == t[k + j] == s[a + k + j];
    }
  }

  lemma TopWithin(s: seq<Sym>, separator: seq<Sym>, a: nat, b: nat, k: nat)
    requires a <= b <= |s| && Depth(s[..a]) == 0 && TopAt(s[a..b], separator, k)
    ensures TopAt(s, separator, a + k) && a + k + |separator| <= b
  {
    var p := s[a..b];
    PrefixOfSlice(s, a, b, k);
    SliceDepth(s, a, a + k);
    assert k + |separator| <= |p| == b - a;
    SliceOfSlice(s, a, b, k, k + |separator|);
  }

  lemma SliceWhole(s: seq<Sym>, separator: seq<Sym>, a: nat, b: nat)
    requires a <= b <= |s| && Balanced(s) && Depth(s[..a]) == 0 && Depth(s[..b]) == 0
    requires forall k :: a <= k < b ==> !TopAt(s, separator, k)
    requires Plain(separator)
    ensures Whole(s[a..b], separator)
  {
    SliceBalanced(s, a, b);
    var p := s[a..b];
    forall k: nat ensures !TopAt(p, separator, k) {
      if TopAt(p, separator, k) {
        TopWithin(s, separator, a, b, k);
      }
    }
  }

  lemma NotTop(s: seq<Sym>, separator: seq<Sym>, i: nat)
    requires Plain(separator) && i < |s|
    requires !(Weight(s[i]) == 0 && Depth(s[..i]) == 0 && Occurs(s, separator, i))
    ensures !TopAt(s, separator, i)
  {
    if TopAt(s, separator, i) {
      SeparatorDepth(s, separator, i);
    }
  }

  lemma {:induction false} PiecesWhole(s: seq<Sym>, separator: seq<Sym>, start: nat, i: nat, depth: int)
    requires Plain(separator) && Apart(s, separator) && Balanced(s)
    requires start <= |s| && i <= |s| && depth == Depth(s[..i]) && Depth(s[..start]) == 0
    requires forall k :: i <= k < start || start <= k < i ==> !TopAt(s, separator, k)
    ensures forall p :: p in Pieces(s, separator, start, i, depth) ==> Whole(p, separator)
    decreases |s| - i
  {
    if i == |s| {
      assert s[..|s|] == s && s[start..] == s[start..|s|];
      SliceWhole(s, separator, start, |s|);
    } else {
      assert s[..i + 1][..i] == s[..i];
      if Weight(s[i]) == 0 && depth == 0 && Occurs(s, separator, i) {
        assert TopAt(s, separator, i);
        SeparatorDepth(s, separator, i);
        SliceWhole(s, separator, start, i);
        PiecesWhole(s, separator, i + |separator|, i + 1, depth);
      } else {
        NotTop(s, separator, i);
        PiecesWhole(s, separator, start, i + 1, depth + Weight(s[i]));
      }
    }
  }

  lemma {:induction false} TermsWhole(pieces: seq<seq<Sym>>, separator: seq<Sym>)
    requires Plain(separator) && forall p :: p in pieces ==> Whole(p, separator)
    ensures forall t :: t in Terms(pieces) ==> t != [] && Trimmed(t) == t && Whole(t, separator)
  {
    if pieces != [] {
      TermsWhole(pieces[1..], separator);
      var p := pieces[0];
      var a, b := TrimmedIs(p);
      TrimmedDepths(p, a, b);
      assert Whole(p, separator);
      SliceWhole(p, separator, a, b);
      TrimmedTwice(p);
    }
  }

  /**
    Top-level splitting is structural: on balanced text the pieces joined by the separator are
    the unwrapped text, and each term is a trimmed, balanced piece that no separator divides.
   */
  lemma SplitTopStructure(f: seq<Sym>, separator: seq<Sym>)
    requires Plain(separator) && Balanced(f) && Apart(Unwrap(f), separator)
    ensures JoinPieces(Pieces(Unwrap(f), separator, 0, 0, 0), separator) == Unwrap(f)
    ensures forall t :: t in SplitTop(f, separator) ==> t != [] && Trimmed(t) == t && Whole(t, separator)
  {
    UnwrapBalanced(f);
    PiecesJoin(Unwrap(f), separator, 0, 0, 0);
    PiecesWhole(Unwrap(f), separator, 0, 0, 0);
    TermsWhole(Pieces(Unwrap(f), separator, 0, 0, 0), separator);
  }
}
