/** Strings the way the scripts handle them: trimming, decimal numbers, searching, splitting. */
module Text {

  datatype Option<+T> = None | Some(value: T)

  // ---- whitespace and digits ----

  predicate IsSpace(c: char) {
    c == ' ' || c == '\t' || c == '\n' || c == '\r'
  }

  function TrimStart(s: string): string {
    if s != [] && IsSpace(s[0]) then TrimStart(s[1..]) else s
  }

  function TrimEnd(s: string): string {
    if s != [] && IsSpace(s[|s| - 1]) then TrimEnd(s[..|s| - 1]) else s
  }

  function Trim(s: string): string {
    TrimEnd(TrimStart(s))
  }

  lemma {:induction false} TrimStartIs(s: string) returns (a: nat)
    ensures a <= |s| && TrimStart(s) == s[a..] && forall i :: 0 <= i < a ==> IsSpace(s[i])
    ensures a < |s| ==> !IsSpace(s[a])
  {
    a := 0;
    if s != [] && IsSpace(s[0]) {
      a := TrimStartIs(s[1..]);
      assert s[1..][a..] == s[a + 1..];
      a := a + 1;
    }
  }

  lemma {:induction false} TrimEndIs(s: string) returns (b: nat)
    ensures b <= |s| && TrimEnd(s) == s[..b] && forall i :: b <= i < |s| ==> IsSpace(s[i])
    ensures b > 0 ==> !IsSpace(s[b - 1])
  {
    b := |s|;
    if s != [] && IsSpace(s[|s| - 1]) {
      b := TrimEndIs(s[..|s| - 1]);
      assert s[..|s| - 1][..b] == s[..b];
    }
  }

  /** Trimming takes the text between its first and its last character that is no white space. */
  lemma TrimIs(s: string) returns (a: nat, b: nat)
    ensures a <= b <= |s| && Trim(s) == s[a..b]
    ensures forall i :: 0 <= i < a || b <= i < |s| ==> IsSpace(s[i])
    ensures a < b ==> !IsSpace(s[a]) && !IsSpace(s[b - 1])
  {
    a := TrimStartIs(s);
    var k := TrimEndIs(s[a..]);
    b := a + k;
    assert s[a..][..k] == s[a..b];
    forall i | b <= i < |s| ensures IsSpace(s[i]) {
      assert s[i] == s[a..][i - a];
    }
  }

  predicate IsDigit(c: char) {
    '0' <= c <= '9'
  }

  function Digit(d: nat): char
    requires d < 10
  {
    "0123456789"[d]
  }

  /** A number as JavaScript prints it. */
  function Decimal(n: nat): string {
    if n < 10 then [Digit(n)] else Decimal(n / 10) + [Digit(n % 10)]
  }

  // ---- quoting ----

  /** A value as it stands between quotes: its own quotes are doubled. */
  function Doubled<T(==)>(v: seq<T>, quote: T): seq<T> {
    if v == [] then [] else (if v[0] == quote then [quote, quote] else [v[0]]) + Doubled(v[1..], quote)
  }

  // ---- searching ----

  predicate StartsAt(text: string, pattern: string, i: nat) {
    i + |pattern| <= |text| && text[i..i + |pattern|] == pattern
  }

  /** The first index from `from` at which `pattern` occurs. */
  function IndexOf(text: string, pattern: string, from: nat): (i: Option<nat>)
    decreases |text| - from
  {
    if StartsAt(text, pattern, from) then Some(from)
    else if from < |text| then IndexOf(text, pattern, from + 1)
    else None
  }

  /** `IndexOf` is the first occurrence, and misses none. */
  lemma {:induction false} IndexOfFirst(text: string, pattern: string, from: nat)
    ensures match IndexOf(text, pattern, from)
            case Some(i) =>
              && from <= i
              && StartsAt(text, pattern, i)
              && forall k :: from <= k < i ==> !StartsAt(text, pattern, k)
            case None => forall k :: from <= k ==> !StartsAt(text, pattern, k)
    decreases |text| - from
  {
    if !StartsAt(text, pattern, from) && from < |text| {
      IndexOfFirst(text, pattern, from + 1);
    }
  }

  lemma IndexOfIs(text: string, pattern: string, from: nat, i: nat)
    requires from <= i && StartsAt(text, pattern, i)
    requires forall k :: from <= k < i ==> !StartsAt(text, pattern, k)
    ensures IndexOf(text, pattern, from) == Some(i)
  {
    IndexOfFirst(text, pattern, from);
  }

  // ---- splitting and joining ----

  lemma Associate<T>(a: seq<T>, b: seq<T>, c: seq<T>)
    ensures a + b + c == a + (b + c)
  {
  }

  /** `text.split(separator)`. */
  function Split(text: string, separator: string): (parts: seq<string>)
    requires separator != []
    ensures parts != []
    decreases |text|
  {
    match IndexOf(text, separator, 0)
    case None => [text]
    case Some(i) =>
      IndexOfFirst(text, separator, 0);
      [text[..i]] + Split(text[i + |separator|..], separator)
  }

  /** `parts.join(separator)`. */
  function Join(parts: seq<string>, separator: string): string {
    if parts == [] then ""
    else if |parts| == 1 then parts[0]
    else parts[0] + separator + Join(parts[1..], separator)
  }

  function Concat(parts: seq<string>): string {
    if parts == [] then "" else parts[0] + Concat(parts[1..])
  }

  lemma {:induction false} ConcatAppend(a: seq<string>, b: seq<string>)
    ensures Concat(a + b) == Concat(a) + Concat(b)
  {
    if a == [] {
      assert a + b == b;
    } else {
      assert (a + b)[1..] == a[1..] + b;
      ConcatAppend(a[1..], b);
    }
  }

  lemma JoinCons(first: string, rest: seq<string>, separator: string)
    requires rest != []
    ensures Join([first] + rest, separator) == first + separator + Join(rest, separator)
  {
    assert ([first] + rest)[1..] == rest;
  }

  /** The parts hold no separator, and joined by it they are the text again. */
  lemma {:induction false} JoinSplit(text: string, separator: string)
    requires separator != []
    ensures Join(Split(text, separator), separator) == text
    decreases |text|
  {
    match IndexOf(text, separator, 0)
    case None =>
    case Some(i) =>
      IndexOfFirst(text, separator, 0);
      var rest := text[i + |separator|..];
      JoinSplit(rest, separator);
      JoinCons(text[..i], Split(rest, separator), separator);
      assert text == text[..i] + separator + rest;
  }
}
