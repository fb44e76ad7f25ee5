/** The scan that drops comments and blanks string literals of a migration before it is linted. */
module SqlScanner {
  import opened Text

  const BREAKPOINT := "--> statement-breakpoint"

  /** What one step of the scan has read, and what it writes for it. */
  datatype Token = Token(kind: Kind, text: string, out: string)
  datatype Kind = Dollar | LineComment | BlockComment | Literal | Identifier | Other

  // ---- one step ----

  predicate IdStart(c: char) {
    'a' <= c <= 'z' || 'A' <= c <= 'Z' || c == '_'
  }

  predicate IdChar(c: char) {
    IdStart(c) || IsDigit(c)
  }

  function IdRun(s: string): (n: nat)
    ensures n <= |s|
  {
    if s != [] && IdChar(s[0]) then 1 + IdRun(s[1..]) else 0
  }

  /** The length of the dollar tag `$name$` at the start; the scanner looks at 64 characters. */
  function Tag(s: string): (n: Option<nat>)
    ensures n.Some? ==> 2 <= n.value <= |s|
  {
    if s == [] || s[0] != '$' then None
    else
      var end := 1 + IdRun(s[1..]);
      if end < |s| && s[end] == '$' && (end == 1 || IdStart(s[1])) && end < 64 then Some(end + 1) else None
  }

  predicate Letter(c: char) {
    c == '_' || 'A' <= c <= 'Z' || 'a' <= c <= 'z'
  }

  /** Two dollars, with nothing or a name of letters, underscores and, but for its first, digits between. */
  predicate TagText(t: string) {
    && |t| >= 2 && t[0] == '$' && t[|t| - 1] == '$'
    && (|t| > 2 ==> Letter(t[1]))
    && forall i :: 1 < i < |t| - 1 ==> Letter(t[i]) || '0' <= t[i] <= '9'
  }

  lemma {:induction false} IdRunIs(s: string)
    ensures forall i :: 0 <= i < IdRun(s) ==> IdChar(s[i])
    ensures IdRun(s) < |s| ==> !IdChar(s[IdRun(s)])
  {
    if s != [] && IdChar(s[0]) {
      IdRunIs(s[1..]);
    }
  }

  /** The dollar tag at the start of a text, of at most 64 characters, is there exactly when its text is. */
  lemma TagIs(s: string, n: nat)
    ensures Tag(s) == Some(n) <==> n <= |s| && n <= 64 && TagText(s[..n])
  {
    if s != [] && s[0] == '$' {
      var rest := s[1..];
      IdRunIs(rest);
      var end := 1 + IdRun(rest);
      assert forall i :: 1 <= i < end ==> s[i] == rest[i - 1] && IdChar(s[i]);
      assert end < |s| ==> s[end] == rest[end - 1] && !IdChar(s[end]);
      if n <= |s| && TagText(s[..n]) {
        assert forall i :: 0 <= i < n ==> s[..n][i] == s[i];
        assert forall i :: 1 <= i < n - 1 ==> IdChar(s[i]);
        assert s[n - 1] == '$' && n - 1 == end;
      }
      if Tag(s) == Some(n) {
        assert forall i :: 0 <= i < n ==> s[..n][i] == s[i];
      }
    } else if n <= |s| && n >= 2 {
      assert s[..n][0] == s[0];
    }
  }

  /** The quote closing a literal, from `j` on; a doubled quote does not close it. */
  function Closing(s: string, j: nat, quote: char): (k: Option<nat>)
    ensures k.Some? ==> j <= k.value < |s|
    decreases |s| - j
  {
    if j >= |s| then None
    else if s[j] != quote then Closing(s, j + 1, quote)
    else if j + 1 < |s| && s[j + 1] == quote then Closing(s, j + 2, quote)
    else Some(j)
  }

  function EndOfLine(s: string): (n: nat)
    requires s != []
    ensures n <= |s|
  {
    IndexOfFirst(s, "\n", 0);
    match IndexOf(s, "\n", 0) case None => |s| case Some(i) => i
  }

  function EndOfComment(s: string): (n: nat)
    requires |s| >= 2
    ensures 2 <= n <= |s|
  {
    IndexOfFirst(s, "*/", 2);
    match IndexOf(s, "*/", 2) case None => |s| case Some(i) => i + 2
  }

  function EndOfQuote(s: string, quote: char): (n: nat)
    requires s != []
    ensures 1 <= n <= |s|
  {
    match Closing(s, 1, quote) case None => |s| case Some(i) => i + 1
  }

  /** The token at the start of `s`, inside the dollar-quoted body `body`, if any. */
  function Next(s: string, body: Option<string>): (t: Token)
    requires s != []
    ensures t.text != [] && |t.text| <= |s| && s[..|t.text|] == t.text
  {
    if Tag(s).Some? then Token(Dollar, s[..Tag(s).value], " ")
    else if StartsAt(s, "--", 0) then
      LineNotEmpty(s);
      Token(LineComment, s[..EndOfLine(s)], " ")
    else if StartsAt(s, "/*", 0) then Token(BlockComment, s[..EndOfComment(s)], " ")
    else if s[0] == '\'' then
      var text := s[..EndOfQuote(s, '\'')];
      Token(Literal, text, if body.Some? then text else "''")
    else if s[0] == '"' then
      var text := s[..EndOfQuote(s, '"')];
      Token(Identifier, text, text)
    else Token(Other, [s[0]], [s[0]])
  }

  lemma LineNotEmpty(s: string)
    requires StartsAt(s, "--", 0)
    ensures EndOfLine(s) >= 2
  {
    IndexOfFirst(s, "\n", 0);
    assert s[0] == s[0..2][0] && s[1] == s[0..2][1];
    match IndexOf(s, "\n", 0)
    case None =>
    case Some(i) => assert s[i..i + 1][0] == '\n';
  }

  function After(t: Token, body: Option<string>): Option<string> {
    if t.kind.Dollar? then
      if body.None? then Some(t.text) else if body == Some(t.text) then None else body
    else body
  }

  function Scan(s: string, body: Option<string>): seq<Token>
    decreases |s|
  {
    if s == [] then []
    else
      var t := Next(s, body);
      [t] + Scan(s[|t.text|..], After(t, body))
  }

  function Texts(ts: seq<Token>): string {
    if ts == [] then "" else ts[0].text + Texts(ts[1..])
  }

  function Outs(ts: seq<Token>): string {
    if ts == [] then "" else ts[0].out + Outs(ts[1..])
  }

  /** The dollar-quoted body that is open after `ts`. */
  function BodyAfter(ts: seq<Token>, body: Option<string>): Option<string> {
    if ts == [] then body else BodyAfter(ts[1..], After(ts[0], body))
  }

  /** The text that is scanned. */
  function Prepared(input: string): string {
    Join(Split(input, BREAKPOINT), ";")
  }

  /** Every breakpoint, from the left, is scanned as the end of a statement, and nothing else is changed. */
  lemma PreparedIs(input: string)
    ensures match IndexOf(input, BREAKPOINT, 0)
            case None => Prepared(input) == input
            case Some(i) =>
              && StartsAt(input, BREAKPOINT, i) && (forall k :: 0 <= k < i ==> !StartsAt(input, BREAKPOINT, k))
              && Prepared(input) == input[..i] + ";" + Prepared(input[i + |BREAKPOINT|..])
  {
    IndexOfFirst(input, BREAKPOINT, 0);
    match IndexOf(input, BREAKPOINT, 0)
    case None =>
    case Some(i) =>
      var more := Split(input[i + |BREAKPOINT|..], BREAKPOINT);
      assert ([input[..i]] + more)[1..] == more;
  }

  function Stripped(sql: string): string {
    Outs(Scan(sql, None))
  }

  method ClosingQuote(sql: string, open: nat, quote: char) returns (close: nat)
    requires open < |sql|
    ensures open <= close < |sql|
    ensures close == match Closing(sql, open + 1, quote) case None => |sql| - 1 case Some(i) => i
  {
    var j := open + 1;
    while j < |sql|
      invariant open < j
      invariant Closing(sql, open + 1, quote) == Closing(sql, j, quote)
    {
      if sql[j] == quote {
        if !(j + 1 < |sql| && sql[j + 1] == quote) {
          return j;
        }
        j := j + 2;
      } else {
        j := j + 1;
      }
    }
    return |sql| - 1;
  }

  lemma {:induction false} ClosingShift(sql: string, i: nat, j: nat, quote: char)
    requires i <= |sql|
    ensures Closing(sql, i + j, quote) ==
            match Closing(sql[i..], j, quote) case None => None case Some(k) => Some(i + k)
    decreases |sql| - j
  {
    if i + j < |sql| {
      ClosingShift(sql, i, j + 1, quote);
      ClosingShift(sql, i, j + 2, quote);
    }
  }

  /** The token at a quote that no comment covers. */
  lemma NextQuote(sql: string, i: nat, body: Option<string>)
    requires i < |sql| && sql[i] in {'\'', '"'}
    requires !StartsAt(sql[i..], "--", 0) && !StartsAt(sql[i..], "/*", 0)
    ensures var rest, quote := sql[i..], sql[i];
            var text := sql[i..i + EndOfQuote(rest, quote)];
            Next(rest, body) ==
            if quote == '"' then Token(Identifier, text, text)
            else Token(Literal, text, if body.Some? then text else "''")
  {
    var end := EndOfQuote(sql[i..], sql[i]);
    assert sql[i..][..end] == sql[i..i + end];
  }

  /** One round of the scan's loop: it reads and writes the next token, and always advances. */
  method Step(sql: string, i: nat, body: Option<string>) returns (next: nat, out: string, inside: Option<string>)
    requires i < |sql|
    ensures var t := Next(sql[i..], body); next == i + |t.text| && out == t.out && inside == After(t, body)
    ensures i < next <= |sql|
  {
    var rest := sql[i..];
    inside := body;
    var tag := Tag(rest);
    if tag.Some? {
      var name := rest[..tag.value];
      if body == None {
        inside := Some(name);
      } else if body == Some(name) {
        inside := None;
      }
      return i + tag.value, " ", inside;
    }
    if StartsAt(rest, "--", 0) {
      return i + EndOfLine(rest), " ", inside;
    }
    if StartsAt(rest, "/*", 0) {
      return i + EndOfComment(rest), " ", inside;
    }
    if sql[i] == '\'' || sql[i] == '"' {
      var close := ClosingQuote(sql, i, sql[i]);
      ClosingShift(sql, i, 1, sql[i]);
      assert close + 1 == i + EndOfQuote(rest, rest[0]);
      out := if sql[i] == '"' || body.Some? then sql[i..close + 1] else "''";
      NextQuote(sql, i, body);
      return close + 1, out, inside;
    }
    return i + 1, [sql[i]], inside;
  }

  /** The scan itself, over indices into the whole text. */
  method StripCommentsAndStrings(input: string) returns (out: string)
    ensures out == Stripped(Prepared(input))
  {
    var sql := Prepared(input);
    out := "";
    var body: Option<string> := None;
    var i := 0;
    assert sql[0..] == sql;
    while i < |sql|
      invariant i <= |sql|
      invariant Stripped(sql) == out + Outs(Scan(sql[i..], body))
      decreases |sql| - i
    {
      var next, piece, inside := Step(sql, i, body);
      AppendAgain(out, piece, Outs(Scan(sql[next..], inside)));
      i, out, body := next, out + piece, inside;
    }
  }

  lemma AppendAgain(a: string, b: string, c: string)
    ensures a + (b + c) == a + b + c
  {
  }

  /** The tokens are the whole text, in order, and none is empty. */
  lemma {:induction false} TokensJoin(s: string, body: Option<string>)
    ensures Texts(Scan(s, body)) == s
    ensures forall k :: 0 <= k < |Scan(s, body)| ==> Scan(s, body)[k].text != []
    decreases |s|
  {
    if s != [] {
      var t := Next(s, body);
      var rest := s[|t.text|..];
      TokensJoin(rest, After(t, body));
      assert s == t.text + rest;
    }
  }

  // ---- what each kind of token looks like ----

  predicate Line(text: string) {
    StartsAt(text, "--", 0) && '\n' !in text
  }

  predicate Block(text: string) {
    StartsAt(text, "/*", 0) && IndexOf(text, "*/", 2) == Some(|text| - 2)
  }

  predicate OpenBlock(text: string) {
    StartsAt(text, "/*", 0) && IndexOf(text, "*/", 2) == None
  }

  predicate QuotedBy(text: string, quote: char) {
    text != [] && text[0] == quote && Closing(text, 1, quote) == Some(|text| - 1)
  }

  predicate OpenQuote(text: string, quote: char) {
    text != [] && text[0] == quote && Closing(text, 1, quote) == None
  }

  /** What the token `t` must look like, and what may follow it, for the scan to read it. */
  predicate Fits(t: Token, rest: string, body: Option<string>) {
    match t.kind
    case Dollar => t.out == " " && Tag(t.text) == Some(|t.text|)
    case LineComment => t.out == " " && Line(t.text) && (rest == [] || rest[0] == '\n')
    case BlockComment => t.out == " " && (Block(t.text) || (OpenBlock(t.text) && rest == []))
    case Literal => t.out == (if body.Some? then t.text else "''") && FitsQuote(t.text, rest, '\'')
    case Identifier => t.out == t.text && FitsQuote(t.text, rest, '"')
    case Other => t.out == t.text && |t.text| == 1 && Plain(t.text + rest)
  }

  predicate FitsQuote(text: string, rest: string, quote: char) {
    (QuotedBy(text, quote) && (rest == [] || rest[0] != quote)) || (OpenQuote(text, quote) && rest == [])
  }

  predicate Plain(s: string) {
    s != [] && Tag(s).None? && !StartsAt(s, "--", 0) && !StartsAt(s, "/*", 0) && s[0] != '\'' && s[0] != '"'
  }

  lemma {:induction false} IdRunAppend(p: string, rest: string)
    ensures IdRun(p) < |p| ==> IdRun(p + rest) == IdRun(p)
    ensures IdRun(p) == |p| ==> IdRun(p + rest) == |p| + IdRun(rest)
  {
    if p == [] {
      assert p + rest == rest;
    } else {
      assert (p + rest)[1..] == p[1..] + rest;
      IdRunAppend(p[1..], rest);
    }
  }

  lemma TagFits(p: string, rest: string)
    requires p != []
    ensures Tag(p + rest) == Some(|p|) <==> Tag(p) == Some(|p|)
  {
    assert (p + rest)[1..] == p[1..] + rest;
    IdRunAppend(p[1..], rest);
  }

  lemma LineFits(p: string, rest: string)
    requires StartsAt(p, "--", 0)
    ensures EndOfLine(p + rest) == |p| <==> '\n' !in p && (rest == [] || rest[0] == '\n')
  {
    var x := p + rest;
    IndexOfFirst(x, "\n", 0);
    assert forall k :: 0 <= k < |x| ==> (StartsAt(x, "\n", k) <==> x[k] == '\n');
    assert forall k :: 0 <= k < |p| ==> x[k] == p[k];
    if EndOfLine(x) == |p| {
      forall k | 0 <= k < |p| ensures p[k] != '\n' {
        assert !StartsAt(x, "\n", k);
      }
      if rest != [] {
        assert StartsAt(x, "\n", |p|) && x[|p|] == rest[0];
      }
    }
    if '\n' !in p && rest == [] {
      assert x == p;
      assert forall k :: 0 <= k < |x| ==> x[k] != '\n';
    }
    if '\n' !in p && rest != [] && rest[0] == '\n' {
      assert x[|p|] == '\n';
      IndexOfIs(x, "\n", 0, |p|);
    }
  }

  lemma BlockFits(p: string, rest: string)
    requires StartsAt(p, "/*", 0)
    ensures EndOfComment(p + rest) == |p| <==> Block(p) || (OpenBlock(p) && rest == [])
  {
    var x := p + rest;
    if rest == [] {
      assert x == p;
      IndexOfFirst(p, "*/", 2);
    } else {
      IndexOfFirst(x, "*/", 2);
      IndexOfFirst(p, "*/", 2);
      forall k | 0 <= k && k + 2 <= |p| ensures StartsAt(x, "*/", k) <==> StartsAt(p, "*/", k) {
        assert x[k..k + 2] == p[k..k + 2];
      }
      if Block(p) {
        IndexOfIs(x, "*/", 2, |p| - 2);
      }
      if EndOfComment(x) == |p| {
        IndexOfIs(p, "*/", 2, |p| - 2);
      }
    }
  }

  lemma {:induction false} ClosingAppend(p: string, rest: string, j: nat, quote: char)
    requires j <= |p|
    ensures Closing(p + rest, j, quote) == Some(|p| - 1) <==>
            Closing(p, j, quote) == Some(|p| - 1) && (rest == [] || rest[0] != quote)
    decreases |p| - j
  {
    if j < |p| {
      ClosingAppend(p, rest, j + 1, quote);
      if j + 2 <= |p| {
        ClosingAppend(p, rest, j + 2, quote);
      }
    }
  }

  lemma QuoteFits(p: string, rest: string, quote: char)
    requires p != [] && p[0] == quote
    ensures EndOfQuote(p + rest, quote) == |p| <==> FitsQuote(p, rest, quote)
  {
    if |p| >= 1 {
      ClosingAppend(p, rest, 1, quote);
    }
    if rest == [] {
      assert p + rest == p;
    }
  }

  lemma FitsNext(t: Token, rest: string, body: Option<string>)
    requires t.text != [] && Fits(t, rest, body)
    ensures Next(t.text + rest, body) == t
  {
    var p := t.text;
    match t.kind
    case Dollar => TagFits(p, rest);
    case LineComment => LineFits(p, rest);
    case BlockComment => BlockFits(p, rest);
    case Literal => QuoteStart(p, rest); QuoteFits(p, rest, '\'');
    case Identifier => QuoteStart(p, rest); QuoteFits(p, rest, '"');
    case Other =>
  }

  lemma QuoteStart(p: string, rest: string)
    requires p != [] && (p[0] == '\'' || p[0] == '"')
    ensures !StartsAt(p + rest, "--", 0) && !StartsAt(p + rest, "/*", 0)
  {
    var x := p + rest;
    assert x[0] == p[0];
    if |x| >= 2 {
      assert x[0..2][0] == x[0];
    }
  }

  lemma NextFits(t: Token, rest: string, body: Option<string>)
    requires t.text != [] && Next(t.text + rest, body) == t
    ensures Fits(t, rest, body)
  {
    var p := t.text;
    TagFits(p, rest);
    if t.kind.LineComment? {
      LineNotEmpty(p + rest);
      LineFits(p, rest);
    } else if t.kind.BlockComment? {
      assert |p| == EndOfComment(p + rest);
      BlockFits(p, rest);
    } else if t.kind.Literal? || t.kind.Identifier? {
      QuoteFits(p, rest, p[0]);
    }
  }

  /** The scan reads `t` at the start of a text exactly when `t` fits there. */
  lemma FitsIff(t: Token, rest: string, body: Option<string>)
    requires t.text != []
    ensures Next(t.text + rest, body) == t <==> Fits(t, rest, body)
  {
    if Fits(t, rest, body) {
      FitsNext(t, rest, body);
    }
    if Next(t.text + rest, body) == t {
      NextFits(t, rest, body);
    }
  }

  // ---- contents of comments and literals do not matter ----

  /** `u` is `t`, or the same kind of comment, or of literal outside a body, with other contents. */
  predicate Alike(t: Token, u: Token, body: Option<string>) {
    || t == u
    || (t.kind == u.kind && t.out == u.out && match t.kind
        case LineComment => Line(t.text) && Line(u.text)
        case BlockComment => (Block(t.text) && Block(u.text)) || (OpenBlock(t.text) && OpenBlock(u.text))
        case Literal =>
          && body.None?
          && ((QuotedBy(t.text, '\'') && QuotedBy(u.text, '\'')) ||
               (OpenQuote(t.text, '\'') && OpenQuote(u.text, '\'')))
        case _ => false)
  }

  predicate AllAlike(ts: seq<Token>, us: seq<Token>, body: Option<string>) {
    if ts == [] || us == [] then ts == us
    else Alike(ts[0], us[0], body) && AllAlike(ts[1..], us[1..], After(ts[0], body))
  }

  /** Two texts that agree up to, and including, the first character that can open a comment or literal. */
  predicate Agree(x: string, y: string) {
    if x == [] || y == [] then x == y
    else x[0] == y[0] && (x[0] == '-' || x[0] == '/' || x[0] == '\'' || Agree(x[1..], y[1..]))
  }

  lemma {:induction false} AgreeSame(p: string, x: string, y: string)
    requires Agree(x, y)
    ensures Agree(p + x, p + y)
  {
    if p == [] {
      assert p + x == x && p + y == y;
    } else {
      assert (p + x)[1..] == p[1..] + x && (p + y)[1..] == p[1..] + y;
      AgreeSame(p[1..], x, y);
    }
  }

  lemma OpensAlike(t: Token, u: Token, body: Option<string>)
    requires Alike(t, u, body) && t != u
    ensures t.text != [] && u.text != [] && t.text[0] == u.text[0] && t.text[0] in "-/'"
  {
    StartIs(t.text);
    StartIs(u.text);
  }

  lemma StartIs(p: string)
    ensures StartsAt(p, "--", 0) ==> p[0] == '-'
    ensures StartsAt(p, "/*", 0) ==> p[0] == '/'
  {
    assert StartsAt(p, "--", 0) ==> p[0..2][0] == '-';
    assert StartsAt(p, "/*", 0) ==> p[0..2][0] == '/';
  }

  lemma {:induction false} TextsAgree(ts: seq<Token>, us: seq<Token>, body: Option<string>)
    requires AllAlike(ts, us, body)
    ensures Agree(Texts(ts), Texts(us))
  {
    if ts != [] {
      if ts[0] == us[0] {
        TextsAgree(ts[1..], us[1..], After(ts[0], body));
        AgreeSame(ts[0].text, Texts(ts[1..]), Texts(us[1..]));
      } else {
        OpensAlike(ts[0], us[0], body);
      }
    }
  }

  lemma {:induction false} IdRunAgree(x: string, y: string)
    requires Agree(x, y)
    ensures IdRun(x) == IdRun(y)
    ensures IdRun(x) < |x| <==> IdRun(y) < |y|
    ensures IdRun(x) < |x| ==> x[IdRun(x)] == y[IdRun(x)]
    ensures x[..IdRun(x)] == y[..IdRun(x)]
  {
    if x != [] && IdChar(x[0]) {
      IdRunAgree(x[1..], y[1..]);
      var n := IdRun(x[1..]);
      assert x[..n + 1] == [x[0]] + x[1..][..n] && y[..n + 1] == [y[0]] + y[1..][..n];
    }
  }

  lemma PlainAgree(x: string, y: string)
    requires Agree(x, y) && Plain(x) && x[0] != '-' && x[0] != '/'
    ensures Plain(y)
  {
    IdRunAgree(x[1..], y[1..]);
  }

  lemma PlainFollow(c: char, x: string, y: string)
    requires Agree(x, y) && Plain([c] + x)
    ensures Plain([c] + y)
  {
    if c == '-' || c == '/' {
      DashFollow(c, x);
      DashFollow(c, y);
    } else {
      AgreeSame([c], x, y);
      PlainAgree([c] + x, [c] + y);
    }
  }

  lemma DashFollow(c: char, x: string)
    requires c == '-' || c == '/'
    ensures Plain([c] + x) <==> x == [] || x[0] != if c == '-' then '-' else '*'
  {
    var s := [c] + x;
    assert s[0] == c;
    if x != [] {
      assert s[0..2] == [c, x[0]];
      assert "--" == ['-', '-'] && "/*" == ['/', '*'];
    }
  }

  /** What fits still fits with other contents, here and further on. */
  lemma FitsAlike(t: Token, u: Token, x: string, y: string, body: Option<string>)
    requires Fits(t, x, body) && Alike(t, u, body) && Agree(x, y)
    ensures Fits(u, y, body)
  {
    if t.kind.Other? {
      assert t.text == [t.text[0]];
      PlainFollow(t.text[0], x, y);
    }
  }

  /**
    Replacing the contents of any comments, and of any literals outside dollar-quoted bodies, by
    other well-formed contents: the scan reads the same tokens, but for those contents.
   */
  lemma {:induction false} ScanAlike(ts: seq<Token>, us: seq<Token>, body: Option<string>)
    requires ts == Scan(Texts(ts), body) && AllAlike(ts, us, body)
    ensures Scan(Texts(us), body) == us
  {
    if ts != [] {
      var t, u, x, y := ts[0], us[0], Texts(ts[1..]), Texts(us[1..]);
      ScanFirst(t, ts[1..], body);
      ScanAlike(ts[1..], us[1..], After(t, body));
      TextsAgree(ts[1..], us[1..], After(ts[0], body));
      NextFits(t, x, body);
      FitsAlike(t, u, x, y, body);
      FitsNext(u, y, body);
      assert us == [u] + us[1..];
    }
  }

  lemma ScanFirst(t: Token, ts: seq<Token>, body: Option<string>)
    requires [t] + ts == Scan(t.text + Texts(ts), body)
    ensures t.text != [] && Next(t.text + Texts(ts), body) == t
    ensures ts == Scan(Texts(ts), After(t, body))
  {
    var s := t.text + Texts(ts);
    var rest := Scan(s[|Next(s, body).text|..], After(Next(s, body), body));
    assert ([t] + ts)[0] == t && ([t] + ts)[1..] == ts;
    assert ts == rest;
    assert s[|t.text|..] == Texts(ts);
  }

  lemma {:induction false} OutsAlike(ts: seq<Token>, us: seq<Token>, body: Option<string>)
    requires AllAlike(ts, us, body)
    ensures Outs(ts) == Outs(us)
  {
    if ts != [] {
      OutsAlike(ts[1..], us[1..], After(ts[0], body));
    }
  }

  /** Such a replacement leaves the stripped text unchanged. */
  lemma ContentsInvisible(sql: string, us: seq<Token>)
    requires AllAlike(Scan(sql, None), us, None)
    ensures Stripped(Texts(us)) == Stripped(sql)
  {
    TokensJoin(sql, None);
    ScanAlike(Scan(sql, None), us, None);
    OutsAlike(Scan(sql, None), us, None);
  }

  /** Every token fits where it stands: in particular, a literal inside a body and an identifier are written as read. */
  lemma {:induction false} TokenFits(s: string, body: Option<string>, k: nat)
    requires k < |Scan(s, body)|
    ensures var ts := Scan(s, body); Fits(ts[k], Texts(ts[k + 1..]), BodyAfter(ts[..k], body))
    decreases |s|
  {
    var t := Next(s, body);
    var rest := s[|t.text|..];
    var ts := Scan(s, body);
    var more := Scan(rest, After(t, body));
    assert ts == [t] + more;
    if k == 0 {
      TokensJoin(rest, After(t, body));
      assert ts[1..] == more && s == t.text + rest;
      NextFits(t, rest, body);
    } else {
      TokenFits(rest, After(t, body), k - 1);
      assert ts[k + 1..] == more[k..];
      assert ts[..k][1..] == more[..k - 1] && ts[..k][0] == t;
    }
  }

  // ---- which body is open ----

  /** Token `j` opened the dollar-quoted body that is still open before token `k`: only its own tag closes it. */
  predicate OpenedBy(ts: seq<Token>, j: nat, k: nat)
    decreases k
  {
    && j < k <= |ts|
    && ts[j].kind.Dollar?
    && (forall i: nat :: i < j ==> !OpenedBy(ts, i, j))
    && forall m :: j < m < k ==> !(ts[m].kind.Dollar? && ts[m].text == ts[j].text)
  }

  lemma {:induction false} BodyNext(ts: seq<Token>, t: Token, body: Option<string>)
    ensures BodyAfter(ts + [t], body) == After(t, BodyAfter(ts, body))
  {
    if ts == [] {
      assert [t][1..] == [];
    } else {
      assert (ts + [t])[1..] == ts[1..] + [t];
      BodyNext(ts[1..], t, After(ts[0], body));
    }
  }

  lemma {:induction false} OneOpen(ts: seq<Token>, i: nat, j: nat, k: nat)
    requires OpenedBy(ts, i, k) && OpenedBy(ts, j, k)
    ensures i == j
  {
    if i < j {
      assert OpenedBy(ts, i, j);
    } else if j < i {
      assert OpenedBy(ts, j, i);
    }
  }

  /** What an open body does at one more token. */
  lemma OpenedNext(ts: seq<Token>, j: nat, k: nat)
    requires j < k < |ts|
    ensures OpenedBy(ts, j, k + 1) <==> OpenedBy(ts, j, k) && !(ts[k].kind.Dollar? && ts[k].text == ts[j].text)
  {
  }

  /** The body that is open is the one that the first tag outside every body has opened, until the same tag. */
  lemma {:induction false} BodyIs(ts: seq<Token>, k: nat)
    requires k <= |ts|
    ensures BodyAfter(ts[..k], None).None? <==> forall j: nat :: !OpenedBy(ts, j, k)
    ensures forall j: nat :: OpenedBy(ts, j, k) ==> BodyAfter(ts[..k], None) == Some(ts[j].text)
  {
    if k > 0 {
      var t, body := ts[k - 1], BodyAfter(ts[..k - 1], None);
      BodyIs(ts, k - 1);
      assert ts[..k] == ts[..k - 1] + [t];
      BodyNext(ts[..k - 1], t, None);
      forall j: nat | j < k - 1
        ensures OpenedBy(ts, j, k) <==> OpenedBy(ts, j, k - 1) && !(t.kind.Dollar? && t.text == ts[j].text)
      {
        OpenedNext(ts, j, k - 1);
      }
      assert OpenedBy(ts, k - 1, k) <==> t.kind.Dollar? && body.None?;
      if body.Some? {
        var j: nat :| OpenedBy(ts, j, k - 1);
        assert OpenedBy(ts, j, k) <==> !(t.kind.Dollar? && body == Some(t.text));
        forall i: nat | OpenedBy(ts, i, k) ensures i == j {
          assert OpenedBy(ts, i, k - 1);
          OneOpen(ts, i, j, k - 1);
        }
      }
    }
  }

  lemma AppendThree(a: string, b: string, c: string, d: string)
    ensures a + (b + c + d) == a + b + c + d
  {
  }

  lemma {:induction false} OutsAround(ts: seq<Token>, k: nat)
    requires k < |ts|
    ensures Outs(ts) == Outs(ts[..k]) + ts[k].out + Outs(ts[k + 1..])
  {
    if k == 0 {
      assert "" + ts[0].out == ts[0].out;
    } else {
      OutsAround(ts[1..], k - 1);
      var before, after := ts[..k], ts[k + 1..];
      assert ts[1..][..k - 1] == before[1..] && ts[1..][k..] == after && before[0] == ts[0];
      AppendThree(ts[0].out, Outs(before[1..]), ts[k].out, Outs(after));
    }
  }

  /** What is written for a token: a literal is blanked exactly when no tag before it has opened a body. */
  ghost function WrittenFor(ts: seq<Token>, k: nat): string
    requires k < |ts|
  {
    match ts[k].kind
    case Literal => if exists j: nat :: OpenedBy(ts, j, k) then ts[k].text else "''"
    case Identifier => ts[k].text
    case Other => ts[k].text
    case _ => " "
  }

  /** The stripped text is made of what is written for each token, in its place. */
  lemma StrippedAt(sql: string, k: nat)
    requires k < |Scan(sql, None)|
    ensures var ts := Scan(sql, None);
            Stripped(sql) == Outs(ts[..k]) + WrittenFor(ts, k) + Outs(ts[k + 1..])
  {
    var ts := Scan(sql, None);
    TokenFits(sql, None, k);
    BodyIs(ts, k);
    OutsAround(ts, k);
  }

  // ---- well-formed contents ----

  lemma {:induction false} ClosingDoubled(p: string, v: string, quote: char)
    ensures Closing(p + Doubled(v, quote) + [quote], |p|, quote) == Some(|p| + |Doubled(v, quote)|)
    decreases |v|
  {
    var s := p + Doubled(v, quote) + [quote];
    if v != [] {
      var first := if v[0] == quote then [quote, quote] else [v[0]];
      ClosingDoubled(p + first, v[1..], quote);
      assert s == p + first + Doubled(v[1..], quote) + [quote];
      assert s[|p|] == v[0] && (v[0] == quote ==> s[|p| + 1] == quote);
    }
  }

  /** Every value, its quotes doubled, is well-formed between quotes. */
  lemma DoubledQuoted(v: string, quote: char)
    ensures QuotedBy([quote] + Doubled(v, quote) + [quote], quote)
  {
    ClosingDoubled([quote], v, quote);
  }

  /** And every closed literal holds such a value. */
  lemma {:induction false} QuotedHolds(s: string, j: nat, quote: char) returns (v: string)
    requires j < |s| && Closing(s, j, quote) == Some(|s| - 1)
    ensures s[j..] == Doubled(v, quote) + [quote]
    decreases |s| - j
  {
    if s[j] != quote {
      var w := QuotedHolds(s, j + 1, quote);
      v := [s[j]] + w;
      assert v[1..] == w && s[j..] == [s[j]] + s[j + 1..];
    } else if j + 1 < |s| && s[j + 1] == quote {
      var w := QuotedHolds(s, j + 2, quote);
      v := [quote] + w;
      assert v[1..] == w && s[j..] == [quote, quote] + s[j + 2..];
    } else {
      v := "";
    }
  }

  /** A block comment is well-formed around any contents without the closing mark. */
  lemma BlockContents(a: string)
    requires forall k :: 0 <= k <= |a| ==> !StartsAt(a, "*/", k)
    ensures Block("/*" + a + "*/")
  {
    var s := "/*" + a + "*/";
    assert s[0..2] == "/*" && s[|s| - 2..|s|] == "*/";
    forall k | 2 <= k < |s| - 2 ensures !StartsAt(s, "*/", k) {
      assert !StartsAt(a, "*/", k - 2);
      if k + 2 <= |s| - 2 {
        assert s[k..k + 2] == a[k - 2..k];
      } else {
        assert s[k..k + 2][1] == '*';
      }
    }
    IndexOfIs(s, "*/", 2, |s| - 2);
  }
}
