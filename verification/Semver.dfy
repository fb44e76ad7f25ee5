/** Release versions and their order. */
module Semver {
  import opened Text
  import opened Sorting

  /** `pre` holds the dot-separated identifiers of a pre-release; a stable version has none. */
  datatype Version = Version(major: nat, minor: nat, patch: nat, pre: Option<seq<string>>)
  {
    predicate Stable() {
      pre.None?
    }
  }

  predicate Numeric(x: string) {
    x != [] && forall i :: 0 <= i < |x| ==> IsDigit(x[i])
  }

  function DigitValue(c: char): nat
    requires IsDigit(c)
  {
    c as int - '0' as int
  }

  function Value(x: string): nat
    requires forall i :: 0 <= i < |x| ==> IsDigit(x[i])
  {
    if x == [] then 0 else 10 * Value(x[..|x| - 1]) + DigitValue(x[|x| - 1])
  }

  function CompareIdentifiers(x: string, y: string): int {
    if Numeric(x) && Numeric(y) && Value(x) != Value(y) then Value(x) - Value(y)
    else if Numeric(x) != Numeric(y) then if Numeric(x) then -1 else 1
    else if x != y then if StringLeq(x, y) then -1 else 1
    else 0
  }

  function ComparePre(a: seq<string>, b: seq<string>): int {
    if a == [] && b == [] then 0
    else if a == [] then -1
    else if b == [] then 1
    else if CompareIdentifiers(a[0], b[0]) != 0 then CompareIdentifiers(a[0], b[0])
    else ComparePre(a[1..], b[1..])
  }

  function Compare(a: Version, b: Version): int {
    if a.major != b.major then a.major - b.major
    else if a.minor != b.minor then a.minor - b.minor
    else if a.patch != b.patch then a.patch - b.patch
    else match (a.pre, b.pre)
      case (None, None) => 0
      case (None, Some(_)) => 1
      case (Some(_), None) => -1
      case (Some(p), Some(q)) => ComparePre(p, q)
  }

  // ---- what it says ----

  /** Numeric identifiers by value and below the others, otherwise by text. */
  predicate LowerIdentifier(x: string, y: string) {
    if Numeric(x) && Numeric(y) && Value(x) != Value(y) then Value(x) < Value(y)
    else if Numeric(x) == Numeric(y) then x != y && StringLeq(x, y)
    else Numeric(x)
  }

  /** The first `k` identifiers agree, and the next, or that there is none, decides. */
  predicate LowerFrom(a: seq<string>, b: seq<string>, k: nat) {
    && k <= |a| && k < |b| && a[..k] == b[..k]
    && (k == |a| || (a[k] != b[k] && LowerIdentifier(a[k], b[k])))
  }

  lemma PrefixFirst(a: seq<string>, b: seq<string>, k: nat)
    requires 0 < k <= |a| && k <= |b|
    ensures a[..k] == b[..k] ==> a[0] == b[0]
  {
    assert a[..k][0] == a[0] && b[..k][0] == b[0];
  }

  lemma {:induction false} PreIff(a: seq<string>, b: seq<string>)
    ensures ComparePre(a, b) < 0 <==> exists k: nat :: LowerFrom(a, b, k)
  {
    if a == [] || b == [] {
      assert b != [] && a == [] ==> LowerFrom(a, b, 0);
    } else {
      IdentifiersOrder(a[0], b[0]);
      StringLeqTotal(a[0], b[0]);
      PreIff(a[1..], b[1..]);
      if a[0] != b[0] {
        assert LowerFrom(a, b, 0) <==> LowerIdentifier(a[0], b[0]);
        forall k: nat | 0 < k <= |a| && k <= |b| ensures a[..k] == b[..k] ==> a[0] == b[0] {
          PrefixFirst(a, b, k);
        }
      } else {
        forall k: nat | k <= |a| && k < |b| ensures LowerFrom(a, b, k) <==> k > 0 && LowerFrom(a[1..], b[1..], k - 1) {
          if k > 0 {
            assert a[..k] == [a[0]] + a[1..][..k - 1] && b[..k] == [b[0]] + b[1..][..k - 1];
            assert a[..k][1..] == a[1..][..k - 1] && b[..k][1..] == b[1..][..k - 1];
          }
        }
        if k: nat :| LowerFrom(a[1..], b[1..], k) {
          assert LowerFrom(a, b, k + 1);
        }
      }
    }
  }

  /** The numbers from the left; of equal ones a pre-release is the older, and two go by their identifiers. */
  lemma OlderIff(a: Version, b: Version)
    ensures Compare(a, b) < 0 <==>
            || a.major < b.major
            || (a.major == b.major && a.minor < b.minor)
            || (a.major == b.major && a.minor == b.minor && a.patch < b.patch)
            || (a.major == b.major && a.minor == b.minor && a.patch == b.patch && a.pre.Some?
                && (b.pre.None? || exists k: nat :: LowerFrom(a.pre.value, b.pre.value, k)))
  {
    if a.pre.Some? && b.pre.Some? {
      PreIff(a.pre.value, b.pre.value);
    }
  }

  // ---- a total order ----

  lemma IdentifiersOrder(x: string, y: string)
    ensures CompareIdentifiers(x, y) == 0 <==> x == y
    ensures CompareIdentifiers(x, y) < 0 <==> CompareIdentifiers(y, x) > 0
  {
    StringLeqTotal(x, y);
  }

  lemma IdentifiersTrans(x: string, y: string, z: string)
    requires CompareIdentifiers(x, y) < 0 && CompareIdentifiers(y, z) < 0
    ensures CompareIdentifiers(x, z) < 0
  {
    StringLeqTotal(x, y);
    StringLeqTotal(y, z);
    StringLeqTotal(x, z);
    if StringLeq(x, y) && StringLeq(y, z) {
      StringLeqTrans(x, y, z);
    }
  }

  lemma {:induction false} PreOrder(a: seq<string>, b: seq<string>)
    ensures ComparePre(a, b) == 0 <==> a == b
    ensures ComparePre(a, b) < 0 <==> ComparePre(b, a) > 0
  {
    if a != [] && b != [] {
      IdentifiersOrder(a[0], b[0]);
      PreOrder(a[1..], b[1..]);
      assert a == [a[0]] + a[1..] && b == [b[0]] + b[1..];
    }
  }

  lemma {:induction false} PreTrans(a: seq<string>, b: seq<string>, c: seq<string>)
    requires ComparePre(a, b) < 0 && ComparePre(b, c) < 0
    ensures ComparePre(a, c) < 0
  {
    if a != [] {
      IdentifiersOrder(a[0], b[0]);
      IdentifiersOrder(b[0], c[0]);
      if a[0] == b[0] && b[0] == c[0] {
        PreTrans(a[1..], b[1..], c[1..]);
      } else if a[0] != b[0] && b[0] != c[0] {
        IdentifiersTrans(a[0], b[0], c[0]);
      }
    }
  }

  /** The comparison is antisymmetric, and only equal versions compare equal. */
  lemma CompareOrder(a: Version, b: Version)
    ensures Compare(a, b) == 0 <==> a == b
    ensures Compare(a, b) < 0 <==> Compare(b, a) > 0
  {
    if a.pre.Some? && b.pre.Some? {
      PreOrder(a.pre.value, b.pre.value);
    }
  }

  lemma CompareTrans(a: Version, b: Version, c: Version)
    requires Compare(a, b) < 0 && Compare(b, c) < 0
    ensures Compare(a, c) < 0
  {
    if a.pre.Some? && b.pre.Some? && c.pre.Some? && Compare(a, b) == ComparePre(a.pre.value, b.pre.value) {
      PreOrder(a.pre.value, b.pre.value);
      if ComparePre(b.pre.value, c.pre.value) < 0 {
        PreTrans(a.pre.value, b.pre.value, c.pre.value);
      }
    }
  }

  /** The comparison is a total order. */
  lemma CompareTotal()
    ensures TotalOrder((a: Version, b: Version) => Compare(a, b) <= 0)
  {
    var leq := (a: Version, b: Version) => Compare(a, b) <= 0;
    forall a, b ensures (leq(a, b) || leq(b, a)) && (leq(a, b) && leq(b, a) ==> a == b) {
      CompareOrder(a, b);
    }
    forall a, b, c | leq(a, b) && leq(b, c) ensures leq(a, c) {
      CompareOrder(a, b);
      CompareOrder(b, c);
      if Compare(a, b) < 0 && Compare(b, c) < 0 {
        CompareTrans(a, b, c);
      }
    }
  }

  // ---- the cut's own comparison ----

  /** The pre-release part as text. */
  function PreText(v: Version): string {
    if v.Stable() then "" else Join(v.pre.value, ".")
  }

  /** Numbers first; pre-releases of the same version compare as plain text. */
  function SemverGt(a: Version, b: Version): bool {
    if a.major != b.major then a.major > b.major
    else if a.minor != b.minor then a.minor > b.minor
    else if a.patch != b.patch then a.patch > b.patch
    else if !a.Stable() && b.Stable() then false
    else if a.Stable() && !b.Stable() then true
    else if !a.Stable() && !b.Stable() then PreText(a) != PreText(b) && StringLeq(PreText(b), PreText(a))
    else false
  }

  /** Against a stable version, all that a cut compares with, it is the order itself. */
  lemma SemverGtStable(a: Version, b: Version)
    requires b.Stable()
    ensures SemverGt(a, b) <==> Compare(a, b) > 0
  {
  }

  datatype Kind = Patch | Minor | Major

  function Bump(current: Version, kind: Kind): Version {
    match kind
    case Patch => Version(current.major, current.minor, current.patch + 1, None)
    case Minor => Version(current.major, current.minor + 1, 0, None)
    case Major => Version(current.major + 1, 0, 0, None)
  }

  /** Above `current` by a step of this kind. */
  predicate Beyond(w: Version, current: Version, kind: Kind) {
    match kind
    case Patch => Compare(w, current) > 0
    case Minor => w.major > current.major || (w.major == current.major && w.minor > current.minor)
    case Major => w.major > current.major
  }

  /** A bump is the lowest stable version above the stable one it starts from, by a step of its kind. */
  lemma BumpIsLeast(current: Version, kind: Kind, w: Version)
    requires current.Stable()
    ensures Bump(current, kind).Stable() && Beyond(Bump(current, kind), current, kind)
    ensures w.Stable() && Beyond(w, current, kind) ==> Compare(Bump(current, kind), w) <= 0
  {
  }
}
