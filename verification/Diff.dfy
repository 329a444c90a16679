/**
 * The two comparison loops that the update operations repeat for each kind of owned row: lists
 * compared through an index by key, and named profiles compared with additions allowed.
 */
module Diff {
  import opened Prelude

  // ---------- Lists compared through an index ----------

  /** The item that an index, filled in list order, holds under `k`: the last one with that key. */
  function LastWith<S, K(==)>(stored: seq<S>, key: S -> K, k: K): (r: Option<S>)
    ensures r.Some? ==> r.value in stored && key(r.value) == k
    ensures r.None? ==> forall i :: 0 <= i < |stored| ==> key(stored[i]) != k
  {
    if stored == [] then None
    else if key(stored[|stored| - 1]) == k then Some(stored[|stored| - 1])
    else LastWith(stored[..|stored| - 1], key, k)
  }

  /** Equal lengths, and each wanted item has a stored counterpart under its key. */
  predicate Unchanged<S, R>(
    stored: seq<S>, key: S -> string, wanted: seq<R>, wantedKey: R -> string, same: (R, S) -> bool)
  {
    |stored| == |wanted| &&
    forall i :: 0 <= i < |wanted| ==>
      var x := LastWith(stored, key, wantedKey(wanted[i]));
      x.Some? && same(wanted[i], x.value)
  }

  method ListChanged<S, R>(
    stored: seq<S>, key: S -> string, wanted: seq<R>, wantedKey: R -> string, same: (R, S) -> bool)
    returns (changed: bool)
    ensures changed <==> !Unchanged(stored, key, wanted, wantedKey, same)
  {
    if |stored| != |wanted| {
      return true;
    }
    var existing: map<string, S> := map[];
    for i := 0 to |stored|
      invariant forall k :: k in existing <==> LastWith(stored[..i], key, k).Some?
      invariant forall k :: k in existing ==> LastWith(stored[..i], key, k) == Some(existing[k])
    {
      assert stored[..i + 1][..i] == stored[..i];
      existing := existing[key(stored[i]) := stored[i]];
    }
    assert stored[..|stored|] == stored;
    for i := 0 to |wanted|
      invariant forall j :: 0 <= j < i ==>
        var x := LastWith(stored, key, wantedKey(wanted[j]));
        x.Some? && same(wanted[j], x.value)
    {
      if wantedKey(wanted[i]) !in existing || !same(wanted[i], existing[wantedKey(wanted[i])]) {
        return true;
      }
    }
    return false;
  }

  /**
   * What an unchanged comparison certifies. The views are what a reader sees of a stored and of a
   * wanted item. If the wanted views are pairwise distinct, the two lists agree up to order; against
   * stored items without repetition, they agree if and only if the request repeats nothing.
   */
  lemma UnchangedMeansEqual<S, R, V(!new)>(
    stored: seq<S>, key: S -> string, wanted: seq<R>, wantedKey: R -> string, same: (R, S) -> bool,
    storedView: S -> V, wantedView: R -> V)
    requires Unchanged(stored, key, wanted, wantedKey, same)
    requires forall i, x :: 0 <= i < |wanted| && x in stored && same(wanted[i], x) && key(x) == wantedKey(wanted[i]) ==>
               storedView(x) == wantedView(wanted[i])
    ensures NoDup(MapSeq(wantedView, wanted)) ==>
              multiset(MapSeq(storedView, stored)) == multiset(MapSeq(wantedView, wanted))
    ensures NoDup(MapSeq(storedView, stored)) ==>
              (multiset(MapSeq(storedView, stored)) == multiset(MapSeq(wantedView, wanted)) <==>
               NoDup(MapSeq(wantedView, wanted)))
  {
    var xs, ys := MapSeq(storedView, stored), MapSeq(wantedView, wanted);
    forall y | y in ys
      ensures y in xs
    {
      var i :| 0 <= i < |ys| && ys[i] == y;
      var x := LastWith(stored, key, wantedKey(wanted[i]));
      var j :| 0 <= j < |stored| && stored[j] == x.value;
      assert xs[j] == y;
    }
    if NoDup(ys) {
      Pigeonhole(xs, ys);
    }
    if NoDup(xs) {
      PigeonholeExact(xs, ys);
    }
  }

  // ---------- Profiles compared by name, additions allowed ----------

  /** Item i counts as new: its name is not stored, or an earlier item has already used it up. */
  predicate IsNew<P, R>(stored: map<string, R>, wanted: seq<P>, name: P -> string, i: nat)
    requires i < |wanted|
  {
    name(wanted[i]) !in stored || exists j :: 0 <= j < i && name(wanted[j]) == name(wanted[i])
  }

  function NewItems<P, R>(stored: map<string, R>, wanted: seq<P>, name: P -> string): seq<P> {
    if wanted == [] then [] else
      var last := |wanted| - 1;
      NewItems(stored, wanted[..last], name) + if IsNew(stored, wanted, name, last) then [wanted[last]] else []
  }

  /** Some stored profile is requested with other contents. */
  predicate Altered<P, R>(stored: map<string, R>, wanted: seq<P>, name: P -> string, same: (P, R) -> bool) {
    exists i :: 0 <= i < |wanted| && !IsNew(stored, wanted, name, i) && !same(wanted[i], stored[name(wanted[i])])
  }

  predicate Named<P>(wanted: seq<P>, name: P -> string, k: string) {
    exists i :: 0 <= i < |wanted| && name(wanted[i]) == k
  }

  /** Some stored profile is missing from the request. */
  predicate Dropped<P, R>(stored: map<string, R>, wanted: seq<P>, name: P -> string) {
    exists k :: k in stored && !Named(wanted, name, k)
  }

  lemma TooFewMeansDropped<P, R>(stored: map<string, R>, wanted: seq<P>, name: P -> string)
    requires |stored| > |wanted|
    ensures Dropped(stored, wanted, name)
  {
    var names := MapSeq(name, wanted);
    if !Dropped(stored, wanted, name) {
      forall k | k in stored.Keys
        ensures k in Elements(names)
      {
        var i :| 0 <= i < |wanted| && name(wanted[i]) == k;
        assert names[i] == k;
      }
      SubsetSize(stored.Keys, Elements(names));
      DistinctSize(names);
    }
  }

  lemma {:induction false} SubsetSize<T>(a: set<T>, b: set<T>)
    requires a <= b
    ensures |a| <= |b|
  {
    if a != {} {
      var x :| x in a;
      SubsetSize(a - {x}, b - {x});
    }
  }

  method CompareProfiles<P, R>(stored: map<string, R>, wanted: seq<P>, name: P -> string, same: (P, R) -> bool)
    returns (changed: bool, added: seq<P>)
    ensures changed <==> Altered(stored, wanted, name, same) || Dropped(stored, wanted, name)
    ensures added == if changed then [] else NewItems(stored, wanted, name)
  {
    hide NewItems, Named;
    if |stored| > |wanted| {
      TooFewMeansDropped(stored, wanted, name);
      return true, [];
    }
    NothingCompared(stored, name);
    var existing := stored;
    added := [];
    for i := 0 to |wanted|
      invariant forall k :: k in existing <==> k in stored && !Named(wanted[..i], name, k)
      invariant forall k :: k in existing ==> existing[k] == stored[k]
      invariant added == NewItems(stored, wanted[..i], name)
      invariant forall j :: 0 <= j < i && !IsNew(stored, wanted, name, j) ==>
                  same(wanted[j], stored[name(wanted[j])])
    {
      var p := wanted[i];
      ComparisonStep(stored, wanted, name, i);
      if name(p) in existing {
        if !same(p, existing[name(p)]) {
          return true, [];
        }
        existing := existing - {name(p)};
      } else {
        added := added + [p];
      }
    }
    assert wanted[..|wanted|] == wanted;
    if |existing| > 0 {
      var k :| k in existing.Keys;
      assert k in stored && !Named(wanted, name, k);
      return true, [];
    }
    assert forall k :: k in stored ==> k !in existing;
    return false, added;
  }

  lemma NothingCompared<P, R>(stored: map<string, R>, name: P -> string)
    ensures NewItems(stored, [], name) == [] && forall k :: !Named([], name, k)
  {
  }

  /** What one more item adds to the comparison. */
  lemma ComparisonStep<P, R>(stored: map<string, R>, wanted: seq<P>, name: P -> string, i: nat)
    requires i < |wanted|
    ensures forall k :: Named(wanted[..i + 1], name, k) <==> Named(wanted[..i], name, k) || name(wanted[i]) == k
    ensures IsNew(stored, wanted, name, i) <==> name(wanted[i]) !in stored || Named(wanted[..i], name, name(wanted[i]))
    ensures NewItems(stored, wanted[..i + 1], name) ==
            NewItems(stored, wanted[..i], name) + if IsNew(stored, wanted, name, i) then [wanted[i]] else []
  {
    var before, after := wanted[..i], wanted[..i + 1];
    assert after[..i] == before && after[i] == wanted[i];
    assert before + [wanted[i]] == after;
    NamedStep(before, wanted[i], name);
    IsNewPrefix(stored, wanted, name, i);
  }

  lemma NamedStep<P>(before: seq<P>, p: P, name: P -> string)
    ensures forall k :: Named(before + [p], name, k) <==> Named(before, name, k) || name(p) == k
  {
    var after := before + [p];
    forall k
      ensures Named(after, name, k) <==> Named(before, name, k) || name(p) == k
    {
      if Named(before, name, k) {
        var i :| 0 <= i < |before| && name(before[i]) == k;
        assert after[i] == before[i];
      }
      assert after[|before|] == p;
    }
  }

  lemma IsNewPrefix<P, R>(stored: map<string, R>, wanted: seq<P>, name: P -> string, i: nat)
    requires i < |wanted|
    ensures IsNew(stored, wanted, name, i) <==> name(wanted[i]) !in stored || Named(wanted[..i], name, name(wanted[i]))
    ensures IsNew(stored, wanted, name, i) <==> IsNew(stored, wanted[..i + 1], name, i)
  {
    var before, after := wanted[..i], wanted[..i + 1];
    assert forall j :: 0 <= j < i ==> before[j] == wanted[j] && after[j] == wanted[j];
    assert after[i] == wanted[i];
  }

  /** Together with the stored names, the new items name exactly what the request names. */
  lemma {:induction false} NewItemsNames<P, R>(stored: map<string, R>, wanted: seq<P>, name: P -> string)
    ensures forall k :: k in stored || Named(NewItems(stored, wanted, name), name, k) <==>
            k in stored || Named(wanted, name, k)
  {
    if wanted != [] {
      var last := |wanted| - 1;
      var before := NewItems(stored, wanted[..last], name);
      NewItemsNames(stored, wanted[..last], name);
      NamedStep(wanted[..last], wanted[last], name);
      assert wanted == wanted[..last] + [wanted[last]];
      IsNewPrefix(stored, wanted, name, last);
      if IsNew(stored, wanted, name, last) {
        NamedStep(before, wanted[last], name);
      } else {
        assert NewItems(stored, wanted, name) == before;
      }
    }
  }

  lemma {:induction false} NewItemsAreNamed<P, R>(stored: map<string, R>, wanted: seq<P>, name: P -> string, k: string)
    requires Named(NewItems(stored, wanted, name), name, k)
    ensures Named(wanted, name, k)
  {
    var last := |wanted| - 1;
    NamedStep(wanted[..last], wanted[last], name);
    assert wanted == wanted[..last] + [wanted[last]];
    var before := NewItems(stored, wanted[..last], name);
    NamedStep(before, wanted[last], name);
    if Named(before, name, k) {
      NewItemsAreNamed(stored, wanted[..last], name, k);
    } else {
      assert NewItems(stored, wanted, name) == before + [wanted[last]];
    }
  }

  // ---------- Any order of the new items ----------

  /** The items in the given order, if it is one of these items; every order of them can be given. */
  function Arrange<P(==)>(items: seq<P>, order: seq<P>): (r: seq<P>)
    ensures multiset(r) == multiset(items)
    ensures multiset(order) == multiset(items) ==> r == order
  {
    if multiset(order) == multiset(items) then order else items
  }

  lemma ArrangeKeeps<P(!new)>(items: seq<P>, order: seq<P>, name: P -> string)
    ensures forall p :: p in Arrange(items, order) <==> p in items
    ensures forall k :: Named(Arrange(items, order), name, k) <==> Named(items, name, k)
  {
    var r := Arrange(items, order);
    MultisetMembers(r, items);
    forall k
      ensures Named(r, name, k) <==> Named(items, name, k)
    {
      if Named(r, name, k) {
        var i :| 0 <= i < |r| && name(r[i]) == k;
        assert r[i] in items;
      }
      if Named(items, name, k) {
        var i :| 0 <= i < |items| && name(items[i]) == k;
        assert items[i] in r;
      }
    }
  }

  // ---------- Exactness for requests with distinct names ----------

  predicate DistinctNames<P>(wanted: seq<P>, name: P -> string) {
    forall i, j :: 0 <= i < j < |wanted| ==> name(wanted[i]) != name(wanted[j])
  }

  /** Decides whether the items differ pairwise in both texts, as the profile updates demand. */
  method AllDistinct<P>(ps: seq<P>, name: P -> string, displayName: P -> string) returns (distinct: bool)
    ensures distinct <==> DistinctNames(ps, name) && DistinctNames(ps, displayName)
  {
    var names: set<string>, displayNames: set<string> := {}, {};
    for i := 0 to |ps|
      invariant names == Elements(MapSeq(name, ps[..i])) && displayNames == Elements(MapSeq(displayName, ps[..i]))
      invariant DistinctNames(ps[..i], name) && DistinctNames(ps[..i], displayName)
    {
      var before, after := ps[..i], ps[..i + 1];
      assert after == before + [ps[i]];
      assert MapSeq(name, after) == MapSeq(name, before) + [name(ps[i])];
      assert MapSeq(displayName, after) == MapSeq(displayName, before) + [displayName(ps[i])];
      DistinctStep(ps, name, i);
      DistinctStep(ps, displayName, i);
      if name(ps[i]) in names || displayName(ps[i]) in displayNames {
        return false;
      }
      names, displayNames := names + {name(ps[i])}, displayNames + {displayName(ps[i])};
    }
    assert ps[..|ps|] == ps;
    return true;
  }

  lemma DistinctStep<P>(ps: seq<P>, name: P -> string, i: nat)
    requires i < |ps| && DistinctNames(ps[..i], name)
    ensures name(ps[i]) in MapSeq(name, ps[..i]) ==> !DistinctNames(ps, name)
    ensures name(ps[i]) !in MapSeq(name, ps[..i]) ==> DistinctNames(ps[..i + 1], name)
  {
    var before, after := ps[..i], ps[..i + 1];
    var names := MapSeq(name, before);
    if name(ps[i]) in names {
      var h :| 0 <= h < |names| && names[h] == name(ps[i]);
      assert name(ps[h]) == name(ps[i]);
    } else {
      forall h | 0 <= h < i
        ensures name(after[h]) != name(after[i])
      {
        assert names[h] == name(after[h]);
      }
      forall h, j | 0 <= h < j < |after|
        ensures name(after[h]) != name(after[j])
      {
        if j < i {
          assert after[h] == before[h] && after[j] == before[j];
        }
      }
    }
  }

  /**
   * For distinct names, the comparison reports no change exactly when every stored profile appears
   * in the request with the same contents, and the new items are then the other requested ones.
   */
  lemma ProfileDiffIsExact<P(!new), R>(
    stored: map<string, R>, wanted: seq<P>, name: P -> string, same: (P, R) -> bool)
    requires DistinctNames(wanted, name)
    ensures !(Altered(stored, wanted, name, same) || Dropped(stored, wanted, name)) <==>
            forall k :: k in stored ==>
              exists i :: 0 <= i < |wanted| && name(wanted[i]) == k && same(wanted[i], stored[k])
    ensures forall p :: p in NewItems(stored, wanted, name) <==> p in wanted && name(p) !in stored
  {
    if forall k :: k in stored ==>
         exists i :: 0 <= i < |wanted| && name(wanted[i]) == k && same(wanted[i], stored[k]) {
      forall i | 0 <= i < |wanted| && !IsNew(stored, wanted, name, i)
        ensures same(wanted[i], stored[name(wanted[i])])
      {
        var j :| 0 <= j < |wanted| && name(wanted[j]) == name(wanted[i]) && same(wanted[j], stored[name(wanted[i])]);
        assert i == j;
      }
    }
    if !(Altered(stored, wanted, name, same) || Dropped(stored, wanted, name)) {
      forall k | k in stored
        ensures exists i :: 0 <= i < |wanted| && name(wanted[i]) == k && same(wanted[i], stored[k])
      {
        var i :| 0 <= i < |wanted| && name(wanted[i]) == k;
        assert !IsNew(stored, wanted, name, i);
      }
    }
    NewItemsMembers(stored, wanted, name);
  }

  lemma {:induction false} NewItemsMembers<P(!new), R>(stored: map<string, R>, wanted: seq<P>, name: P -> string)
    requires DistinctNames(wanted, name)
    ensures forall p :: p in NewItems(stored, wanted, name) <==> p in wanted && name(p) !in stored
    ensures DistinctNames(NewItems(stored, wanted, name), name)
  {
    if wanted != [] {
      var last := |wanted| - 1;
      NewItemsMembers(stored, wanted[..last], name);
      assert wanted == wanted[..last] + [wanted[last]];
      var before := NewItems(stored, wanted[..last], name);
      forall i | 0 <= i < |before|
        ensures name(before[i]) != name(wanted[last])
      {
        assert before[i] in wanted[..last];
      }
    }
  }

  lemma LastIsNew<P, R>(stored: map<string, R>, wanted: seq<P>, name: P -> string, i: nat)
    requires i < |wanted| - 1 && name(wanted[i]) == name(wanted[|wanted| - 1])
    ensures NewItems(stored, wanted, name) == NewItems(stored, wanted[..|wanted| - 1], name) + [wanted[|wanted| - 1]]
  {
    assert IsNew(stored, wanted, name, |wanted| - 1);
  }

  lemma NewItemsPrefix<P, R>(stored: map<string, R>, wanted: seq<P>, name: P -> string)
    requires wanted != []
    ensures NewItems(stored, wanted[..|wanted| - 1], name) <= NewItems(stored, wanted, name)
  {
  }

  /** An item of a repeated name is new: if new items have names of their own, so have all. */
  lemma {:induction false} RepeatedIsNew<P(!new), R>(stored: map<string, R>, wanted: seq<P>, name: P -> string)
    requires DistinctNames(NewItems(stored, wanted, name), name)
    requires forall p :: p in NewItems(stored, wanted, name) ==> name(p) !in stored
    ensures DistinctNames(wanted, name)
  {
    hide NewItems, IsNew;
    if wanted != [] {
      var last := |wanted| - 1;
      var before, all := NewItems(stored, wanted[..last], name), NewItems(stored, wanted, name);
      NewItemsPrefix(stored, wanted, name);
      assert forall p :: p in before ==> p in all;
      RepeatedIsNew(stored, wanted[..last], name);
      NewItemsMembers(stored, wanted[..last], name);
      DistinctStep(wanted, name, last);
      assert wanted[..last + 1] == wanted;
      var names := MapSeq(name, wanted[..last]);
      if name(wanted[last]) in names {
        var i :| 0 <= i < |names| && names[i] == name(wanted[last]);
        LastIsNew(stored, wanted, name, i);
        assert wanted[..last][i] in before;
        LastRepeats(before, wanted[i], wanted[last], name);
      }
    }
  }

  lemma LastRepeats<P>(before: seq<P>, p: P, q: P, name: P -> string)
    requires p in before && name(p) == name(q)
    ensures !DistinctNames(before + [q], name)
  {
    var j :| 0 <= j < |before| && before[j] == p;
    assert name((before + [q])[j]) == name((before + [q])[|before|]);
  }
}
