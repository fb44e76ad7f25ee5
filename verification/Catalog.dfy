/** Moving the slots of the model catalog to the newest ids their providers serve. */
module Catalog {
  import opened Text
  import Semver

  // ---- versions ----

  /** The value of a run of digits, after `value` has been read. */
  function Number(value: nat, c: char): nat
    requires IsDigit(c)
  {
    10 * value + (c - '0') as nat
  }

  /** Every group of digits of an id, as numbers; `open` is the value of the group being read. */
  function KeyFrom(id: string, open: Option<nat>): seq<nat> {
    if id == [] then (if open.Some? then [open.value] else [])
    else if IsDigit(id[0]) then KeyFrom(id[1..], Some(Number(if open.Some? then open.value else 0, id[0])))
    else (if open.Some? then [open.value] else []) + KeyFrom(id[1..], None)
  }

  function VersionKey(id: string): seq<nat> {
    KeyFrom(id, None)
  }

  lemma {:induction false} RunFrom(d: string, open: Option<nat>, before: string)
    requires d != [] || open.Some?
    requires (forall i :: 0 <= i < |d| ==> IsDigit(d[i])) && (forall i :: 0 <= i < |before| ==> IsDigit(before[i]))
    requires open == if before == [] then None else Some(Semver.Value(before))
    ensures KeyFrom(d, open) == [Semver.Value(before + d)]
    decreases d
  {
    if d == [] {
      assert before + d == before;
    } else {
      var next := before + [d[0]];
      assert next[..|before|] == before && next + d[1..] == before + d;
      RunFrom(d[1..], Some(Semver.Value(next)), next);
    }
  }

  /** A run of digits is one component, its value; with `KeyParts`, an id is as many as it has runs. */
  lemma KeyRun(d: string)
    requires d != [] && forall i :: 0 <= i < |d| ==> IsDigit(d[i])
    ensures VersionKey(d) == [Semver.Value(d)]
  {
    RunFrom(d, None, "");
    assert "" + d == d;
  }

  /** A missing component counts as -1. */
  function Component(key: seq<nat>, i: nat): int {
    if i < |key| then key[i] else -1
  }

  /** The first difference from component `i` on, or 0. */
  function CompareFrom(a: seq<nat>, b: seq<nat>, i: nat): int
    decreases |a| + |b| - i
  {
    if i >= |a| && i >= |b| then 0
    else if Component(a, i) != Component(b, i) then Component(a, i) - Component(b, i)
    else CompareFrom(a, b, i + 1)
  }

  function Compare(a: string, b: string): int {
    CompareFrom(VersionKey(a), VersionKey(b), 0)
  }

  method CompareVersions(a: string, b: string) returns (d: int)
    ensures d == Compare(a, b)
  {
    var ka, kb := VersionKey(a), VersionKey(b);
    var n := if |ka| >= |kb| then |ka| else |kb|;
    for i := 0 to n
      invariant CompareFrom(ka, kb, 0) == CompareFrom(ka, kb, i)
    {
      var difference := Component(ka, i) - Component(kb, i);
      if difference != 0 {
        return difference;
      }
    }
    return 0;
  }

  /** The keys agree before `k`, where `a` has the greater component; a key that goes on is greater. */
  predicate GreaterAt(a: seq<nat>, b: seq<nat>, k: nat) {
    k < |a| && k <= |b| && a[..k] == b[..k] && (k == |b| || a[k] > b[k])
  }

  lemma {:induction false} CompareFromMeans(a: seq<nat>, b: seq<nat>, i: nat)
    requires i <= |a| && i <= |b| && a[..i] == b[..i]
    ensures CompareFrom(a, b, i) > 0 <==> exists k :: GreaterAt(a, b, k)
    ensures CompareFrom(a, b, i) < 0 <==> exists k :: GreaterAt(b, a, k)
    ensures CompareFrom(a, b, i) == 0 <==> a == b
    decreases |a| - i
  {
    if i < |a| && i < |b| && a[i] == b[i] {
      assert a[..i + 1] == a[..i] + [a[i]] && b[..i + 1] == b[..i] + [b[i]];
      CompareFromMeans(a, b, i + 1);
    } else if i == |a| && i == |b| {
      assert a == a[..i] && b == b[..i];
    } else if Component(a, i) > Component(b, i) {
      assert GreaterAt(a, b, i);
    } else {
      assert GreaterAt(b, a, i);
    }
  }

  /**
    What a comparison says: the first component that differs decides, a proper extension is newer, and
    only equal keys tie.
   */
  lemma CompareMeans(a: string, b: string)
    ensures Compare(a, b) > 0 <==> exists k :: GreaterAt(VersionKey(a), VersionKey(b), k)
    ensures Compare(a, b) < 0 <==> exists k :: GreaterAt(VersionKey(b), VersionKey(a), k)
    ensures Compare(a, b) == 0 <==> VersionKey(a) == VersionKey(b)
  {
    CompareFromMeans(VersionKey(a), VersionKey(b), 0);
  }

  lemma GreaterTransitive(a: seq<nat>, b: seq<nat>, c: seq<nat>, i: nat, j: nat)
    requires GreaterAt(a, b, i) && GreaterAt(b, c, j)
    ensures exists k :: GreaterAt(a, c, k)
  {
    var k := if i <= j then i else j;
    assert a[..k] == a[..i][..k] && b[..k] == b[..i][..k];
    assert b[..k] == b[..j][..k] && c[..k] == c[..j][..k];
    if i < j {
      assert b[i] == b[..j][i] && c[i] == c[..j][i];
    } else if j < i {
      assert a[j] == a[..i][j] && b[j] == b[..i][j];
    }
    assert GreaterAt(a, c, k);
  }

  /** The comparison is a total preorder. */
  lemma ComparePreorder(a: string, b: string, c: string)
    ensures Compare(a, a) == 0
    ensures Compare(a, b) > 0 <==> Compare(b, a) < 0
    ensures Compare(a, b) < 0 <==> Compare(b, a) > 0
    ensures Compare(a, b) >= 0 && Compare(b, c) >= 0 ==> Compare(a, c) >= 0
    ensures Compare(a, b) >= 0 && Compare(b, c) > 0 ==> Compare(a, c) > 0
  {
    CompareMeans(a, a);
    CompareMeans(a, b);
    CompareMeans(b, a);
    CompareMeans(b, c);
    CompareMeans(a, c);
    if Compare(a, b) > 0 && Compare(b, c) > 0 {
      var i :| GreaterAt(VersionKey(a), VersionKey(b), i);
      var j :| GreaterAt(VersionKey(b), VersionKey(c), j);
      GreaterTransitive(VersionKey(a), VersionKey(b), VersionKey(c), i, j);
    }
  }

  lemma CompareChain(a: string, b: string, c: string)
    requires Compare(a, b) <= 0 && Compare(b, c) <= 0
    ensures Compare(a, c) <= 0
  {
    ComparePreorder(b, a, c);
    ComparePreorder(c, b, a);
    ComparePreorder(c, a, b);
  }

  // ---- served models ----

  datatype Model = Model(id: string, title: string)

  predicate Dated(id: string) {
    |id| >= 9 && id[|id| - 9] == '-' && forall i :: |id| - 8 <= i < |id| ==> IsDigit(id[i])
  }

  /** An id without its date. */
  function Alias(id: string): string {
    if Dated(id) then id[..|id| - 9] else id
  }

  function Ids(models: seq<Model>): set<string> {
    set m | m in models :: m.id
  }

  function Aliases(models: seq<Model>): set<string> {
    set m | m in models :: Alias(m.id)
  }

  /** The aliases added for the first `k` models: of the dated ones, in order, each alias once. */
  function Added(models: seq<Model>, k: nat): seq<Model>
    requires k <= |models|
  {
    if k == 0 then []
    else
      var before := Added(models, k - 1);
      var alias := Alias(models[k - 1].id);
      before + if alias in Ids(models + before) then [] else [Model(alias, models[k - 1].title)]
  }

  method WithAliases(models: seq<Model>) returns (out: seq<Model>)
    ensures out == models + Added(models, |models|)
  {
    var ids := set m | m in models :: m.id;
    out := models;
    for i := 0 to |models|
      invariant out == models + Added(models, i)
      invariant ids == Ids(out)
    {
      var alias := Alias(models[i].id);
      AddedNext(models, i);
      if alias != models[i].id && alias !in ids {
        ids := ids + {alias};
        IdsAppend(out, Model(alias, models[i].title));
        out := out + [Model(alias, models[i].title)];
      }
    }
  }

  /** The next alias is added when it is another id and not listed yet. */
  lemma AddedNext(models: seq<Model>, i: nat)
    requires i < |models|
    ensures var before, m := models + Added(models, i), models[i];
            models + Added(models, i + 1) ==
            if Alias(m.id) == m.id || Alias(m.id) in Ids(before) then before
            else before + [Model(Alias(m.id), m.title)]
  {
    var before := models + Added(models, i);
    assert models[i] in before;
    assert models[i].id in Ids(before);
  }

  lemma IdsAppend(models: seq<Model>, m: Model)
    ensures Ids(models + [m]) == Ids(models) + {m.id}
    ensures Aliases(models + [m]) == Aliases(models) + {Alias(m.id)}
  {
    assert forall x :: x in models + [m] <==> x in models || x == m;
    assert m in models + [m];
    forall id | id in Ids(models) ensures id in Ids(models + [m]) {
      var x :| x in models && x.id == id;
      assert x in models + [m];
    }
    forall id | id in Aliases(models) ensures id in Aliases(models + [m]) {
      var x :| x in models && Alias(x.id) == id;
      assert x in models + [m];
    }
  }

  /** The ids with the aliases added: what the provider lists, and the alias of everything it lists. */
  lemma {:induction false} AddedIds(models: seq<Model>, k: nat)
    requires k <= |models|
    ensures Ids(models + Added(models, k)) == Ids(models) + Aliases(models[..k])
  {
    if k == 0 {
      assert models + Added(models, k) == models;
    } else {
      AddedIds(models, k - 1);
      assert models[..k] == models[..k - 1] + [models[k - 1]];
      IdsAppend(models[..k - 1], models[k - 1]);
      AddedOne(models, k, models + Added(models, k - 1), Alias(models[k - 1].id));
    }
  }

  lemma AddedOne(models: seq<Model>, k: nat, before: seq<Model>, alias: string)
    requires 0 < k <= |models| && before == models + Added(models, k - 1) && alias == Alias(models[k - 1].id)
    ensures Ids(models + Added(models, k)) == Ids(before) + {alias}
  {
    if alias in Ids(before) {
      assert models + Added(models, k) == before;
    } else {
      IdsAppend(before, Model(alias, models[k - 1].title));
      assert models + Added(models, k) == before + [Model(alias, models[k - 1].title)];
    }
  }

  function Undated(models: seq<Model>): seq<Model> {
    if models == [] then []
    else (if Dated(models[0].id) then [] else [models[0]]) + Undated(models[1..])
  }

  lemma {:induction false} UndatedMembers(models: seq<Model>)
    ensures forall m :: m in Undated(models) <==> m in models && !Dated(m.id)
  {
    if models != [] {
      UndatedMembers(models[1..]);
    }
  }

  /** What slots choose from. */
  function Choices(models: seq<Model>): seq<Model> {
    Undated(models + Added(models, |models|))
  }

  /** An undated id that the provider serves: it lists the id, or a dated snapshot of it. */
  predicate Serves(models: seq<Model>, id: string) {
    !Dated(id) && (id in Ids(models) || id in Aliases(models))
  }

  lemma ChoicesServed(models: seq<Model>)
    ensures forall id :: id in Ids(Choices(models)) <==> Serves(models, id)
  {
    var all := models + Added(models, |models|);
    AddedIds(models, |models|);
    assert models[..|models|] == models;
    UndatedMembers(all);
    forall id ensures id in Ids(Choices(models)) <==> !Dated(id) && id in Ids(all) {
      if !Dated(id) && id in Ids(all) {
        var m :| m in all && m.id == id;
        assert m in Undated(all);
      }
    }
  }

  // ---- the newest match ----

  /** Whether a slot's pattern, given first, matches an id. */
  type Matcher = (string, string) -> bool

  /** The first of the newest matching models: what a stable sort by descending version puts first. */
  function PickNewest(models: seq<Model>, pattern: string, matches: Matcher): Option<Model> {
    if models == [] then None
    else
      var m := models[|models| - 1];
      var before := PickNewest(models[..|models| - 1], pattern, matches);
      if matches(pattern, m.id) && (before.None? || Compare(m.id, before.value.id) > 0) then Some(m) else before
  }

  predicate NoneNewer(models: seq<Model>, pattern: string, matches: Matcher, id: string) {
    forall m :: m in models && matches(pattern, m.id) ==> Compare(m.id, id) <= 0
  }

  lemma {:induction false} NewestIs(models: seq<Model>, pattern: string, matches: Matcher)
    ensures match PickNewest(models, pattern, matches)
            case None => forall m :: m in models ==> !matches(pattern, m.id)
            case Some(n) => n in models && matches(pattern, n.id) && NoneNewer(models, pattern, matches, n.id)
  {
    if models != [] {
      var m := models[|models| - 1];
      var front := models[..|models| - 1];
      NewestIs(front, pattern, matches);
      assert models == front + [m];
      var before := PickNewest(front, pattern, matches);
      ComparePreorder(m.id, m.id, m.id);
      if before.Some? && matches(pattern, m.id) && Compare(m.id, before.value.id) > 0 {
        ComparePreorder(m.id, before.value.id, m.id);
        forall x | x in front && matches(pattern, x.id) ensures Compare(x.id, m.id) <= 0 {
          CompareChain(x.id, before.value.id, m.id);
        }
      }
    }
  }

  // ---- the refresh ----

  datatype Slot = Slot(role: string, pattern: string, id: string, title: string)
  datatype Provider = Provider(name: string, slots: seq<Slot>)
  datatype Change = Change(provider: string, role: string, before: string, after: string, title: string)

  predicate Retired(slot: Slot, choices: seq<Model>) {
    slot.id !in Ids(choices)
  }

  /** Where a slot moves to, if it moves. */
  function Target(slot: Slot, choices: seq<Model>, matches: Matcher): Option<Model> {
    match PickNewest(choices, slot.pattern, matches)
    case None => None
    case Some(newest) =>
      if newest.id == slot.id || (!Retired(slot, choices) && Compare(newest.id, slot.id) <= 0) then None
      else Some(newest)
  }

  function Moved(slot: Slot, choices: seq<Model>, matches: Matcher): Slot {
    match Target(slot, choices, matches)
    case None => slot
    case Some(newest) => slot.(id := newest.id, title := newest.title)
  }

  function MovedSlots(slots: seq<Slot>, choices: seq<Model>, matches: Matcher): (r: seq<Slot>)
    ensures |r| == |slots|
  {
    seq(|slots|, i requires 0 <= i < |slots| => Moved(slots[i], choices, matches))
  }

  function Refreshed(catalog: seq<Provider>, listed: map<string, seq<Model>>, matches: Matcher): (r: seq<Provider>)
    ensures |r| == |catalog|
  {
    seq(|catalog|, i requires 0 <= i < |catalog| => RefreshedProvider(catalog[i], listed, matches))
  }

  function RefreshedProvider(p: Provider, listed: map<string, seq<Model>>, matches: Matcher): Provider {
    if p.name in listed then p.(slots := MovedSlots(p.slots, Choices(listed[p.name]), matches)) else p
  }

  /** The changes reported for the first `k` slots of a provider. */
  function SlotChanges(p: Provider, choices: seq<Model>, matches: Matcher, k: nat): seq<Change>
    requires k <= |p.slots|
  {
    if k == 0 then []
    else
      var slot := p.slots[k - 1];
      SlotChanges(p, choices, matches, k - 1) +
      match Target(slot, choices, matches)
      case None => []
      case Some(newest) => [Change(p.name, slot.role, slot.id, newest.id, newest.title)]
  }

  function Changes(catalog: seq<Provider>, listed: map<string, seq<Model>>, matches: Matcher, k: nat): seq<Change>
    requires k <= |catalog|
  {
    if k == 0 then []
    else
      var p := catalog[k - 1];
      Changes(catalog, listed, matches, k - 1) +
      if p.name in listed then SlotChanges(p, Choices(listed[p.name]), matches, |p.slots|) else []
  }

  /** The slots, by provider and role, of which no choice matches the pattern. */
  function SlotsUnmatched(p: Provider, choices: seq<Model>, matches: Matcher, k: nat): seq<(string, string)>
    requires k <= |p.slots|
  {
    if k == 0 then []
    else
      SlotsUnmatched(p, choices, matches, k - 1) +
      if PickNewest(choices, p.slots[k - 1].pattern, matches).None? then [(p.name, p.slots[k - 1].role)] else []
  }

  function Unmatched(catalog: seq<Provider>, listed: map<string, seq<Model>>, matches: Matcher, k: nat)
    : seq<(string, string)>
    requires k <= |catalog|
  {
    if k == 0 then []
    else
      var p := catalog[k - 1];
      Unmatched(catalog, listed, matches, k - 1) +
      if p.name in listed then SlotsUnmatched(p, Choices(listed[p.name]), matches, |p.slots|) else []
  }

  /** Where a slot moves to, and whether anything matches. */
  method RefreshSlot(slot: Slot, models: seq<Model>, matches: Matcher) returns (target: Option<Model>, matched: bool)
    ensures target == Target(slot, models, matches)
    ensures matched == PickNewest(models, slot.pattern, matches).Some?
  {
    var newest := PickNewest(models, slot.pattern, matches);
    if newest.None? {
      return None, false;
    }
    var retired := !exists m :: m in models && m.id == slot.id;
    var order := CompareVersions(newest.value.id, slot.id);
    if newest.value.id == slot.id || (!retired && order <= 0) {
      return None, true;
    }
    return newest, true;
  }

  method RefreshSlots(p: Provider, listed: seq<Model>, matches: Matcher)
    returns (slots: seq<Slot>, changes: seq<Change>, unmatched: seq<(string, string)>)
    ensures slots == MovedSlots(p.slots, Choices(listed), matches)
    ensures changes == SlotChanges(p, Choices(listed), matches, |p.slots|)
    ensures unmatched == SlotsUnmatched(p, Choices(listed), matches, |p.slots|)
  {
    var all := WithAliases(listed);
    var models := Undated(all);
    slots, changes, unmatched := p.slots, [], [];
    for i := 0 to |p.slots|
      invariant |slots| == |p.slots|
      invariant forall j :: 0 <= j < |slots| ==>
                slots[j] == if j < i then Moved(p.slots[j], models, matches) else p.slots[j]
      invariant changes == SlotChanges(p, models, matches, i)
      invariant unmatched == SlotsUnmatched(p, models, matches, i)
    {
      var slot := slots[i];
      var target, matched := RefreshSlot(slot, models, matches);
      if !matched {
        unmatched := unmatched + [(p.name, slot.role)];
      }
      if target.Some? {
        changes := changes + [Change(p.name, slot.role, slot.id, target.value.id, target.value.title)];
        slots := slots[i := slot.(id := target.value.id, title := target.value.title)];
      }
    }
  }

  method RefreshCatalog(catalog: seq<Provider>, listed: map<string, seq<Model>>, matches: Matcher)
    returns (next: seq<Provider>, changes: seq<Change>, unmatched: seq<(string, string)>)
    ensures next == Refreshed(catalog, listed, matches)
    ensures changes == Changes(catalog, listed, matches, |catalog|)
    ensures unmatched == Unmatched(catalog, listed, matches, |catalog|)
  {
    next, changes, unmatched := catalog, [], [];
    for i := 0 to |catalog|
      invariant |next| == |catalog|
      invariant forall j :: 0 <= j < |next| ==>
                              next[j] == if j < i then RefreshedProvider(catalog[j], listed, matches) else catalog[j]
      invariant changes == Changes(catalog, listed, matches, i)
      invariant unmatched == Unmatched(catalog, listed, matches, i)
    {
      var p := next[i];
      if p.name !in listed {
        continue;
      }
      var slots, moved, missed := RefreshSlots(p, listed[p.name], matches);
      next := next[i := p.(slots := slots)];
      changes, unmatched := changes + moved, unmatched + missed;
    }
  }

  // ---- what a refresh reaches ----

  lemma MovedAbove(slot: Slot, choices: seq<Model>, matches: Matcher)
    requires PickNewest(choices, slot.pattern, matches).Some?
    ensures var newest, after := PickNewest(choices, slot.pattern, matches).value, Moved(slot, choices, matches);
            Compare(newest.id, after.id) <= 0 && after.id in Ids(choices)
  {
    var newest := PickNewest(choices, slot.pattern, matches).value;
    NewestIs(choices, slot.pattern, matches);
    ComparePreorder(newest.id, newest.id, newest.id);
  }

  /** A matched slot ends at a served id, than which no served id that matches is newer. */
  lemma MovedIsNewest(slot: Slot, models: seq<Model>, matches: Matcher, some: string)
    requires Serves(models, some) && matches(slot.pattern, some)
    ensures var after := Moved(slot, Choices(models), matches);
            && Serves(models, after.id)
            && forall id :: Serves(models, id) && matches(slot.pattern, id) ==> Compare(id, after.id) <= 0
  {
    var choices := Choices(models);
    ChoicesServed(models);
    NewestIs(choices, slot.pattern, matches);
    assert some in Ids(choices);
    MovedAbove(slot, choices, matches);
    var newest, after := PickNewest(choices, slot.pattern, matches).value, Moved(slot, choices, matches);
    forall id | Serves(models, id) && matches(slot.pattern, id) ensures Compare(id, after.id) <= 0 {
      assert id in Ids(choices);
      CompareChain(id, newest.id, after.id);
    }
  }

  /** A slot whose id is still served moves only to a newer version. */
  lemma ServedOnlyMovesUp(slot: Slot, models: seq<Model>, matches: Matcher)
    requires Serves(models, slot.id)
    ensures var after := Moved(slot, Choices(models), matches); after == slot || Compare(after.id, slot.id) > 0
  {
    ChoicesServed(models);
  }

  /**
    A slot whose id the provider lists never moves to an older or equal version exactly when that
    id is undated, or nothing matches, or what matches is newer: a dated id counts as retired.
   */
  lemma ListedMovesUpIff(slot: Slot, models: seq<Model>, matches: Matcher)
    requires slot.id in Ids(models)
    ensures var newest := PickNewest(Choices(models), slot.pattern, matches);
            var after := Moved(slot, Choices(models), matches);
            (after == slot || Compare(after.id, slot.id) > 0) <==>
            !Dated(slot.id) || newest.None? || Compare(newest.value.id, slot.id) > 0
  {
    ChoicesServed(models);
    NewestIs(Choices(models), slot.pattern, matches);
    var newest := PickNewest(Choices(models), slot.pattern, matches);
    if newest.Some? {
      assert newest.value.id in Ids(Choices(models));
      ComparePreorder(slot.id, slot.id, slot.id);
    }
  }

  /** A slot that holds a dated id counts as retired, even one the provider lists: it moves to any match. */
  lemma DatedAlwaysMoves(slot: Slot, models: seq<Model>, matches: Matcher, some: string)
    requires Dated(slot.id) && Serves(models, some) && matches(slot.pattern, some)
    ensures var newest := PickNewest(Choices(models), slot.pattern, matches);
            newest.Some? && Moved(slot, Choices(models), matches).id == newest.value.id != slot.id
  {
    ChoicesServed(models);
    NewestIs(Choices(models), slot.pattern, matches);
    assert some in Ids(Choices(models));
    assert PickNewest(Choices(models), slot.pattern, matches).value.id in Ids(Choices(models));
  }

  lemma {:induction false} KeyParts(a: string, c: char, b: string, open: Option<nat>)
    requires !IsDigit(c)
    ensures KeyFrom(a + [c] + b, open) == KeyFrom(a, open) + KeyFrom(b, None)
  {
    var s := a + [c] + b;
    if a == [] {
      assert s[1..] == b;
    } else {
      assert s[0] == a[0] && s[1..] == a[1..] + [c] + b;
      KeyParts(a[1..], c, b, if IsDigit(a[0]) then Some(Number(if open.Some? then open.value else 0, a[0])) else None);
    }
  }

  lemma {:induction false} OpenKey(b: string, open: Option<nat>)
    requires open.Some? || (b != [] && IsDigit(b[0]))
    ensures KeyFrom(b, open) != []
  {
    if b != [] && IsDigit(b[0]) {
      OpenKey(b[1..], Some(Number(if open.Some? then open.value else 0, b[0])));
    }
  }

  /** A snapshot counts as newer than its alias: its date reads as one more component. */
  lemma AliasOlder(id: string)
    requires Dated(id)
    ensures Compare(Alias(id), id) < 0
  {
    var a, b := id[..|id| - 9], id[|id| - 8..];
    assert id == a + ['-'] + b && b[0] == id[|id| - 8];
    KeyParts(a, '-', b, None);
    OpenKey(b, None);
    var k, l := VersionKey(a), VersionKey(id);
    assert l == k + KeyFrom(b, None);
    assert GreaterAt(l, k, |k|);
    CompareMeans(a, id);
  }

  /** So a slot on a snapshot the provider lists, whose alias is the newest match, moves to an older version. */
  lemma SnapshotMovesDown(slot: Slot, models: seq<Model>, matches: Matcher)
    requires Dated(slot.id) && slot.id in Ids(models)
    requires var newest := PickNewest(Choices(models), slot.pattern, matches);
             newest.Some? && newest.value.id == Alias(slot.id)
    ensures var after := Moved(slot, Choices(models), matches);
            after.id == Alias(slot.id) && Compare(after.id, slot.id) < 0
  {
    AliasOlder(slot.id);
    ListedMovesUpIff(slot, models, matches);
    ComparePreorder(Alias(slot.id), slot.id, slot.id);
    ChoicesServed(models);
  }

  /** A slot none of whose served ids match stays as it is, and so does every slot of a provider not listed. */
  lemma UnmatchedStays(slot: Slot, models: seq<Model>, matches: Matcher)
    requires forall id :: Serves(models, id) ==> !matches(slot.pattern, id)
    ensures PickNewest(Choices(models), slot.pattern, matches).None?
    ensures Moved(slot, Choices(models), matches) == slot
  {
    ChoicesServed(models);
    NewestIs(Choices(models), slot.pattern, matches);
    forall m | m in Choices(models) ensures !matches(slot.pattern, m.id) {
      assert m.id in Ids(Choices(models));
    }
  }

  /** And it is reported. */
  lemma {:induction false} UnmatchedReported(p: Provider, models: seq<Model>, matches: Matcher, j: nat, k: nat)
    requires j < k <= |p.slots| && forall id :: Serves(models, id) ==> !matches(p.slots[j].pattern, id)
    ensures (p.name, p.slots[j].role) in SlotsUnmatched(p, Choices(models), matches, k)
    decreases k
  {
    if j == k - 1 {
      UnmatchedStays(p.slots[j], models, matches);
    } else {
      UnmatchedReported(p, models, matches, j, k - 1);
    }
  }

  lemma {:induction false} NoSlotChanges(p: Provider, choices: seq<Model>, matches: Matcher, k: nat)
    requires k <= |p.slots|
    ensures SlotChanges(p.(slots := MovedSlots(p.slots, choices, matches)), choices, matches, k) == []
  {
    if k > 0 {
      NoSlotChanges(p, choices, matches, k - 1);
    }
  }

  lemma {:induction false} NoChanges(catalog: seq<Provider>, listed: map<string, seq<Model>>, matches: Matcher, k: nat)
    requires k <= |catalog|
    ensures Changes(Refreshed(catalog, listed, matches), listed, matches, k) == []
  {
    if k > 0 {
      NoChanges(catalog, listed, matches, k - 1);
      var p := catalog[k - 1];
      if p.name in listed {
        NoSlotChanges(p, Choices(listed[p.name]), matches, |p.slots|);
      }
    }
  }

  /** A second refresh, with the same listings, changes nothing and reports no change. */
  lemma FixedPoint(catalog: seq<Provider>, listed: map<string, seq<Model>>, matches: Matcher)
    ensures var once := Refreshed(catalog, listed, matches);
            Refreshed(once, listed, matches) == once && Changes(once, listed, matches, |once|) == []
  {
    var once := Refreshed(catalog, listed, matches);
    NoChanges(catalog, listed, matches, |catalog|);
    forall i | 0 <= i < |catalog| ensures Refreshed(once, listed, matches)[i] == once[i] {
    }
  }
}
