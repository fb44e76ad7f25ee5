/** What a catalog refresh leaves alone, and what exactly it reports. */
module CatalogReport {
  import opened Text
  import opened Selection
  import opened Catalog

  // ---- the models slots choose from ----

  /** The first model, of those listed, whose alias is this one, when the provider does not list it. */
  ghost function FirstOfAlias(models: seq<Model>): nat -> bool {
    (i: nat) =>
      && i < |models|
      && (forall j :: 0 <= j < |models| ==> models[j].id != Alias(models[i].id))
      && (forall j :: 0 <= j < i ==> Alias(models[j].id) != Alias(models[i].id))
  }

  ghost predicate AddedAt(models: seq<Model>, k: nat, added: seq<Model>)
    requires k <= |models|
  {
    var at := Select(FirstOfAlias(models), 0, k);
    && |at| == |added|
    && forall i :: 0 <= i < |at| ==> added[i] == Model(Alias(models[at[i]].id), models[at[i]].title)
  }

  lemma FirstOfAliasIff(models: seq<Model>, i: nat)
    requires i < |models|
    ensures FirstOfAlias(models)(i) <==> Alias(models[i].id) !in Ids(models + Added(models, i))
  {
    var alias := Alias(models[i].id);
    AddedIds(models, i);
    assert alias in Ids(models) <==> exists j :: 0 <= j < |models| && models[j].id == alias by {
      if j :| 0 <= j < |models| && models[j].id == alias {
        assert models[j] in models;
      }
    }
    assert alias in Aliases(models[..i]) <==> exists j :: 0 <= j < i && Alias(models[j].id) == alias by {
      if j :| 0 <= j < i && Alias(models[j].id) == alias {
        assert models[..i][j] in models[..i];
      }
    }
  }

  lemma AddedStep(models: seq<Model>, i: nat)
    requires i < |models|
    ensures Added(models, i + 1) ==
            Added(models, i) +
            if FirstOfAlias(models)(i) then [Model(Alias(models[i].id), models[i].title)] else []
  {
    FirstOfAliasIff(models, i);
  }

  lemma AddedAtNext(models: seq<Model>, k: nat, added: seq<Model>)
    requires k < |models| && AddedAt(models, k, added)
    ensures AddedAt(models, k + 1,
              added + if FirstOfAlias(models)(k) then [Model(Alias(models[k].id), models[k].title)] else [])
  {
    SelectLast(FirstOfAlias(models), 0, k);
  }

  /** The models added are one for each alias that is not listed, with the title of its first snapshot, in order. */
  lemma {:induction false} AddedAre(models: seq<Model>, k: nat)
    requires k <= |models|
    ensures AddedAt(models, k, Added(models, k))
  {
    if k > 0 {
      AddedAre(models, k - 1);
      AddedStep(models, k - 1);
      AddedAtNext(models, k - 1, Added(models, k - 1));
    }
  }

  /** Model `k` is `n`, and every match before it is older. */
  predicate FirstAt(models: seq<Model>, pattern: string, matches: Matcher, n: Model, k: nat) {
    && k < |models| && models[k] == n
    && forall j :: 0 <= j < k && matches(pattern, models[j].id) ==> Compare(models[j].id, n.id) < 0
  }

  /** Of the newest matches the first is picked. */
  lemma {:induction false} NewestFirst(models: seq<Model>, pattern: string, matches: Matcher) returns (k: nat)
    ensures var n := PickNewest(models, pattern, matches); n.Some? ==> FirstAt(models, pattern, matches, n.value, k)
  {
    k := 0;
    if models != [] {
      var front, m := models[..|models| - 1], models[|models| - 1];
      k := NewestFirst(front, pattern, matches);
      if PickNewest(models, pattern, matches) != PickNewest(front, pattern, matches) {
        k := |front|;
        LastIsNewer(front, m, pattern, matches);
        assert models == front + [m];
      }
    }
  }

  lemma LastIsNewer(front: seq<Model>, m: Model, pattern: string, matches: Matcher)
    requires var before := PickNewest(front, pattern, matches);
             before.Some? ==> Compare(m.id, before.value.id) > 0
    ensures FirstAt(front + [m], pattern, matches, m, |front|)
  {
    NewestIs(front, pattern, matches);
    var before := PickNewest(front, pattern, matches);
    forall j | 0 <= j < |front| && matches(pattern, front[j].id) ensures Compare(front[j].id, m.id) < 0 {
      assert front[j] in front;
      NewerThan(front[j].id, before.value.id, m.id);
    }
  }

  lemma NewerThan(a: string, b: string, c: string)
    requires Compare(a, b) <= 0 && Compare(c, b) > 0
    ensures Compare(a, c) < 0
  {
    ComparePreorder(c, b, a);
    ComparePreorder(a, b, c);
    ComparePreorder(a, c, b);
    ComparePreorder(c, a, b);
    if Compare(c, a) <= 0 {
      CompareChain(c, a, b);
    }
  }

  // ---- the slots ----

  /**
    Of the catalog nothing changes but a slot's id and title, and those only in a provider that is
    listed, to a model that its slots can choose.
   */
  lemma RefreshKeeps(catalog: seq<Provider>, listed: map<string, seq<Model>>, matches: Matcher, i: nat, j: nat)
    requires i < |catalog| && j < |catalog[i].slots|
    ensures |Refreshed(catalog, listed, matches)[i].slots| == |catalog[i].slots|
    ensures var p, q := catalog[i], Refreshed(catalog, listed, matches)[i];
            && q.name == p.name
            && q.slots[j].role == p.slots[j].role && q.slots[j].pattern == p.slots[j].pattern
            && (q.slots[j] == p.slots[j] ||
                (p.name in listed && Model(q.slots[j].id, q.slots[j].title) in Choices(listed[p.name])))
  {
    var p := catalog[i];
    if p.name in listed {
      NewestIs(Choices(listed[p.name]), p.slots[j].pattern, matches);
    }
  }

  // ---- the changes ----

  /** The slots of a provider that hold another id after the refresh. */
  function Moves(p: Provider, q: Provider): nat -> bool {
    (j: nat) => j < |p.slots| && j < |q.slots| && q.slots[j].id != p.slots[j].id
  }

  /** A change for each of the first `k` slots that moved, in order, from the old id to the new one. */
  ghost predicate ChangesAt(p: Provider, q: Provider, k: nat, changes: seq<Change>)
    requires |q.slots| == |p.slots| && k <= |p.slots|
  {
    var at := Select(Moves(p, q), 0, k);
    && |at| == |changes|
    && forall i :: 0 <= i < |at| ==>
         var before, after := p.slots[at[i]], q.slots[at[i]];
         changes[i] == Change(p.name, before.role, before.id, after.id, after.title)
  }

  lemma ChangesAtNext(p: Provider, q: Provider, k: nat, changes: seq<Change>)
    requires |q.slots| == |p.slots| && k < |p.slots| && ChangesAt(p, q, k, changes)
    ensures var before, after := p.slots[k], q.slots[k];
            ChangesAt(p, q, k + 1,
              changes + if before.id == after.id then []
                        else [Change(p.name, before.role, before.id, after.id, after.title)])
  {
    SelectLast(Moves(p, q), 0, k);
  }

  lemma {:induction false} SlotChangesAre(p: Provider, choices: seq<Model>, matches: Matcher, k: nat)
    requires k <= |p.slots|
    ensures ChangesAt(p, p.(slots := MovedSlots(p.slots, choices, matches)), k, SlotChanges(p, choices, matches, k))
  {
    if k > 0 {
      SlotChangesAre(p, choices, matches, k - 1);
      ChangesAtNext(
        p, p.(slots := MovedSlots(p.slots, choices, matches)), k - 1, SlotChanges(p, choices, matches, k - 1));
    }
  }

  /** The slots of a provider whose pattern no id it serves matches. */
  ghost function Misses(p: Provider, models: seq<Model>, matches: Matcher): nat -> bool {
    (j: nat) => j < |p.slots| && forall id :: Serves(models, id) ==> !matches(p.slots[j].pattern, id)
  }

  ghost predicate UnmatchedAt(
    p: Provider, models: seq<Model>, matches: Matcher, k: nat, unmatched: seq<(string, string)>)
    requires k <= |p.slots|
  {
    var at := Select(Misses(p, models, matches), 0, k);
    |at| == |unmatched| && forall i :: 0 <= i < |at| ==> unmatched[i] == (p.name, p.slots[at[i]].role)
  }

  lemma MissesIff(p: Provider, models: seq<Model>, matches: Matcher, j: nat)
    requires j < |p.slots|
    ensures Misses(p, models, matches)(j) <==> PickNewest(Choices(models), p.slots[j].pattern, matches).None?
  {
    NewestIs(Choices(models), p.slots[j].pattern, matches);
    ChoicesServed(models);
    match PickNewest(Choices(models), p.slots[j].pattern, matches)
    case None => UnmatchedServed(models, p.slots[j].pattern, matches);
    case Some(n) => assert n.id in Ids(Choices(models));
  }

  lemma UnmatchedServed(models: seq<Model>, pattern: string, matches: Matcher)
    requires forall m :: m in Choices(models) ==> !matches(pattern, m.id)
    ensures forall id :: Serves(models, id) ==> !matches(pattern, id)
  {
    ChoicesServed(models);
    forall id | Serves(models, id) ensures !matches(pattern, id) {
      assert id in Ids(Choices(models));
    }
  }

  lemma {:induction false} SlotsUnmatchedAre(p: Provider, models: seq<Model>, matches: Matcher, k: nat)
    requires k <= |p.slots|
    ensures UnmatchedAt(p, models, matches, k, SlotsUnmatched(p, Choices(models), matches, k))
  {
    if k > 0 {
      SlotsUnmatchedAre(p, models, matches, k - 1);
      MissesIff(p, models, matches, k - 1);
      SelectLast(Misses(p, models, matches), 0, k - 1);
    }
  }

  // ---- the report ----

  /** `changes` are the changes of the first `k` providers, one provider after the other. */
  ghost predicate ReportsChanges(
    catalog: seq<Provider>, next: seq<Provider>, k: nat, changes: seq<Change>, parts: seq<seq<Change>>)
    requires |next| == |catalog| && k <= |catalog|
  {
    && |parts| == k && changes == Joined(parts)
    && forall i :: 0 <= i < k ==>
         |next[i].slots| == |catalog[i].slots| && ChangesAt(catalog[i], next[i], |catalog[i].slots|, parts[i])
  }

  function Joined<T>(parts: seq<seq<T>>): seq<T> {
    if parts == [] then [] else Joined(parts[..|parts| - 1]) + parts[|parts| - 1]
  }

  lemma JoinedLast<T>(parts: seq<seq<T>>, last: seq<T>)
    ensures Joined(parts + [last]) == Joined(parts) + last
  {
    assert (parts + [last])[..|parts|] == parts;
  }

  lemma {:induction false} NoMoves(p: Provider, k: nat)
    requires k <= |p.slots|
    ensures ChangesAt(p, p, k, [])
  {
    if k > 0 {
      NoMoves(p, k - 1);
      SelectLast(Moves(p, p), 0, k - 1);
    }
  }

  lemma ProviderChanges(p: Provider, listed: map<string, seq<Model>>, matches: Matcher) returns (last: seq<Change>)
    ensures |RefreshedProvider(p, listed, matches).slots| == |p.slots|
    ensures ChangesAt(p, RefreshedProvider(p, listed, matches), |p.slots|, last)
    ensures last == if p.name in listed then SlotChanges(p, Choices(listed[p.name]), matches, |p.slots|) else []
  {
    if p.name in listed {
      last := SlotChanges(p, Choices(listed[p.name]), matches, |p.slots|);
      SlotChangesAre(p, Choices(listed[p.name]), matches, |p.slots|);
    } else {
      last := [];
      NoMoves(p, |p.slots|);
    }
  }

  lemma ReportsNext(
    catalog: seq<Provider>, next: seq<Provider>, k: nat, changes: seq<Change>, parts: seq<seq<Change>>,
    last: seq<Change>)
    requires |next| == |catalog| && k < |catalog| && ReportsChanges(catalog, next, k, changes, parts)
    requires |next[k].slots| == |catalog[k].slots| && ChangesAt(catalog[k], next[k], |catalog[k].slots|, last)
    ensures ReportsChanges(catalog, next, k + 1, changes + last, parts + [last])
  {
    JoinedLast(parts, last);
  }

  /**
    The changes reported are, provider by provider and slot by slot, one for every slot that holds
    another id afterwards, naming the old id and the new one.
   */
  lemma {:induction false} ChangesAre(
    catalog: seq<Provider>, listed: map<string, seq<Model>>, matches: Matcher, k: nat)
    returns (parts: seq<seq<Change>>)
    requires k <= |catalog|
    ensures ReportsChanges(catalog, Refreshed(catalog, listed, matches), k, Changes(catalog, listed, matches, k), parts)
  {
    parts := [];
    if k > 0 {
      var next := Refreshed(catalog, listed, matches);
      parts := ChangesAre(catalog, listed, matches, k - 1);
      var last := ProviderChanges(catalog[k - 1], listed, matches);
      ReportsNext(catalog, next, k - 1, Changes(catalog, listed, matches, k - 1), parts, last);
      parts := parts + [last];
    }
  }

  /** `unmatched` are the slots of the first `k` providers that nothing served matches, one provider after the other. */
  ghost predicate ReportsUnmatched(
    catalog: seq<Provider>, listed: map<string, seq<Model>>, matches: Matcher, k: nat,
    unmatched: seq<(string, string)>, parts: seq<seq<(string, string)>>)
    requires k <= |catalog|
  {
    && |parts| == k && unmatched == Joined(parts)
    && forall i :: 0 <= i < k ==>
         if catalog[i].name in listed then
           UnmatchedAt(catalog[i], listed[catalog[i].name], matches, |catalog[i].slots|, parts[i])
         else parts[i] == []
  }

  lemma UnmatchedNext(
    catalog: seq<Provider>, listed: map<string, seq<Model>>, matches: Matcher, k: nat,
    unmatched: seq<(string, string)>, parts: seq<seq<(string, string)>>, last: seq<(string, string)>)
    requires k < |catalog| && ReportsUnmatched(catalog, listed, matches, k, unmatched, parts)
    requires if catalog[k].name in listed then
               UnmatchedAt(catalog[k], listed[catalog[k].name], matches, |catalog[k].slots|, last)
             else last == []
    ensures ReportsUnmatched(catalog, listed, matches, k + 1, unmatched + last, parts + [last])
  {
    JoinedLast(parts, last);
  }

  /** The slots reported as unmatched are, in order, those whose pattern matches no id their provider serves. */
  lemma {:induction false} UnmatchedAre(
    catalog: seq<Provider>, listed: map<string, seq<Model>>, matches: Matcher, k: nat)
    returns (parts: seq<seq<(string, string)>>)
    requires k <= |catalog|
    ensures ReportsUnmatched(catalog, listed, matches, k, Unmatched(catalog, listed, matches, k), parts)
  {
    parts := [];
    if k > 0 {
      var p := catalog[k - 1];
      parts := UnmatchedAre(catalog, listed, matches, k - 1);
      var last := [];
      if p.name in listed {
        last := SlotsUnmatched(p, Choices(listed[p.name]), matches, |p.slots|);
        SlotsUnmatchedAre(p, listed[p.name], matches, |p.slots|);
      }
      UnmatchedNext(catalog, listed, matches, k - 1, Unmatched(catalog, listed, matches, k - 1), parts, last);
      parts := parts + [last];
    }
  }
}
