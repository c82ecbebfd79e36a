/**
 What a synchronisation of a titled collection achieves, for every world of collections: one
 collection of the title is left, it holds the expected items that exist, nothing else is touched,
 and doing it again changes nothing.
 */
module CollectionSync {
  import opened AsciiText
  import opened Collections
  import opened Listings

  lemma {:induction false} DroppedConcat(a: seq<CollectionId>, b: seq<CollectionId>, gone: set<CollectionId>)
    ensures Dropped(a + b, gone) == Dropped(a, gone) + Dropped(b, gone)
  {
    if b == [] {
      assert a + b == a;
    } else {
      assert (a + b)[..|a + b| - 1] == a + b[..|b| - 1];
      DroppedConcat(a, b[..|b| - 1], gone);
    }
  }

  lemma {:induction false} DroppedAll(ids: seq<CollectionId>, gone: set<CollectionId>)
    requires Elements(ids) <= gone
    ensures Dropped(ids, gone) == []
  {
    if ids != [] {
      assert ids[|ids| - 1] in Elements(ids);
      DroppedAll(ids[..|ids| - 1], gone);
    }
  }

  lemma OnlyTheFirstSurvives(ids: seq<CollectionId>)
    requires Distinct(ids) && ids != []
    ensures Dropped(ids, Elements(ids[1..])) == [ids[0]]
  {
    var rest := ids[1..];
    assert ids == [ids[0]] + rest;
    assert ids[0] !in Elements(rest);
    DroppedConcat([ids[0]], rest, Elements(rest));
    DroppedAll(rest, Elements(rest));
    assert [ids[0]][..0] == [];
  }

  /** Deleting collections deletes them from the listing of a title and keeps its order. */
  lemma {:induction false} TitledAfterDeletion(order: seq<CollectionId>, boxes: map<CollectionId, Box>, title: string, gone: set<CollectionId>)
    ensures TitledIn(Dropped(order, gone), boxes - gone, title) == Dropped(TitledIn(order, boxes, title), gone)
  {
    if order != [] {
      var front, last := order[..|order| - 1], order[|order| - 1];
      TitledAfterDeletion(front, boxes, title, gone);
      var tail := if last in boxes && SameTitle(boxes[last].name, title) then [last] else [];
      DroppedConcat(TitledIn(front, boxes, title), tail, gone);
      assert tail != [] ==> tail[..0] == [];
      if last !in gone {
        assert Dropped(order, gone)[..|Dropped(order, gone)| - 1] == Dropped(front, gone);
      } else {
        assert Dropped(order, gone) == Dropped(front, gone);
      }
    }
  }

  lemma {:induction false} TitledLooksAtNames(order: seq<CollectionId>, b: map<CollectionId, Box>, c: map<CollectionId, Box>, title: string)
    requires b.Keys == c.Keys && forall id :: id in b ==> b[id].name == c[id].name
    ensures TitledIn(order, b, title) == TitledIn(order, c, title)
  {
    if order != [] {
      TitledLooksAtNames(order[..|order| - 1], b, c, title);
    }
  }

  /** Reconciling touches the members of one collection only, and of those only the given kinds. */
  lemma ReconciledTouchesOneBox(w: World, lib: Library, kinds: set<string>, kept: CollectionId, want: set<ItemId>)
    requires ValidWorld(w) && kept in w.boxes
    ensures var r := Reconciled(w, lib, kinds, kept, want);
      && ValidWorld(r) && r.order == w.order && r.boxes.Keys == w.boxes.Keys
      && (forall id :: id in w.boxes && id != kept ==> r.boxes[id] == w.boxes[id])
      && r.boxes[kept].name == w.boxes[kept].name
      && (forall i :: lib.kind(i) !in kinds ==> (i in r.boxes[kept].members <==> i in w.boxes[kept].members))
  {
  }

  /**
   The items of the given kinds afterwards. Expected items the collection already held stay, whether
   or not they still exist; missing ones are added only when they exist.
   */
  lemma ReconciledMembers(w: World, lib: Library, kinds: set<string>, kept: CollectionId, want: set<ItemId>)
    requires kept in w.boxes
    ensures var current := OfKind(w.boxes[kept].members, lib, kinds);
      OfKind(Reconciled(w, lib, kinds, kept, want).boxes[kept].members, lib, kinds) == current * want + Existing(want, lib, kinds)
  {
    var current := OfKind(w.boxes[kept].members, lib, kinds);
    var after := Reconciled(w, lib, kinds, kept, want).boxes[kept].members;
    assert after == w.boxes[kept].members + Existing(want - current, lib, kinds) - (current - want);
    forall i ensures i in OfKind(after, lib, kinds) <==> i in current * want + Existing(want, lib, kinds) {
    }
  }

  lemma TitledAfterReconciling(w: World, lib: Library, kinds: set<string>, title: string, kept: CollectionId, want: set<ItemId>, gone: set<CollectionId>)
    requires ValidWorld(w) && kept in w.boxes
    ensures Titled(Without(Reconciled(w, lib, kinds, kept, want), gone), title) == Dropped(Titled(w, title), gone)
  {
    var r := Reconciled(w, lib, kinds, kept, want);
    ReconciledTouchesOneBox(w, lib, kinds, kept, want);
    TitledLooksAtNames(w.order, w.boxes, r.boxes, title);
    TitledAfterDeletion(r.order, r.boxes, title, gone);
  }

  // ---- main results ----

  lemma ClearedHasNoTitle(w: World, title: string)
    ensures Titled(Without(w, Elements(Titled(w, title))), title) == []
  {
    var ids := Titled(w, title);
    TitledAfterDeletion(w.order, w.boxes, title, Elements(ids));
    DroppedAll(ids, Elements(ids));
  }

  lemma ClearedHoldsOthers(w: World, title: string)
    requires ValidWorld(w)
    ensures Without(w, Elements(Titled(w, title))).boxes == Others(w, title)
  {
    TitledMembers(w.order, w.boxes, title);
    forall id | id in w.boxes ensures id in Elements(Titled(w, title)) <==> SameTitle(w.boxes[id].name, title) {
      assert id in Elements(w.order);
    }
  }

  /** With nothing expected, no collection of the title is left; the others are as they were. */
  lemma NothingExpectedLeavesNoCollection(w: World, lib: Library, kinds: set<string>, title: string, expected: set<ItemId>, newId: CollectionId)
    requires ValidWorld(w) && Normalized(expected) == {}
    ensures var after := Synced(w, lib, kinds, title, expected, newId);
      && ValidWorld(after) && Titled(after, title) == []
      && after.boxes == Others(w, title)
  {
    ClearedHasNoTitle(w, title);
    ClearedHoldsOthers(w, title);
    WithoutIsValid(w, Elements(Titled(w, title)));
  }

  /** With no collection of the title, one is created exactly when some expected item exists, holding those that do. */
  lemma CreatedExactlyWhenSomethingExists(w: World, lib: Library, kinds: set<string>, title: string, expected: set<ItemId>, newId: CollectionId)
    requires ValidWorld(w) && newId !in w.boxes && Titled(w, title) == [] && Normalized(expected) != {}
    ensures var after := Synced(w, lib, kinds, title, expected, newId);
      var found := Existing(Normalized(expected), lib, kinds);
      && ValidWorld(after)
      && (found == {} <==> after == w)
      && (found != {} ==> after.boxes == w.boxes[newId := Box(title, found)] && Titled(after, title) == [newId])
  {
    var found := Existing(Normalized(expected), lib, kinds);
    NewIsTitledLast(w, newId, Box(title, found), title);
    assert found != {} ==> newId in Synced(w, lib, kinds, title, expected, newId).boxes;
  }

  /**
   With collections of the title, the first in listing order survives alone, and every collection
   of another title is as it was.
   */
  lemma FirstCollectionSurvivesAlone(w: World, lib: Library, kinds: set<string>, title: string, expected: set<ItemId>, newId: CollectionId)
    requires ValidWorld(w) && Titled(w, title) != [] && Normalized(expected) != {}
    ensures var after := Synced(w, lib, kinds, title, expected, newId);
      var kept := Titled(w, title)[0];
      && ValidWorld(after) && Titled(after, title) == [kept] && kept in w.boxes && kept in after.boxes
      && after.boxes[kept].name == w.boxes[kept].name
      && after.boxes.Keys == w.boxes.Keys - Elements(Titled(w, title)[1..])
      && (forall id :: id in w.boxes && !SameTitle(w.boxes[id].name, title) ==> id in after.boxes && after.boxes[id] == w.boxes[id])
  {
    var ids := Titled(w, title);
    var want := Normalized(expected);
    TitledMembers(w.order, w.boxes, title);
    assert ids[0] in ids;
    OnlyTheFirstSurvives(ids);
    TitledAfterReconciling(w, lib, kinds, title, ids[0], want, Elements(ids[1..]));
    ReconciledTouchesOneBox(w, lib, kinds, ids[0], want);
    WithoutIsValid(Reconciled(w, lib, kinds, ids[0], want), Elements(ids[1..]));
    assert forall id :: id in ids[1..] ==> id in ids;
  }

  lemma HeldAddsNothingIff(members: set<ItemId>, want: set<ItemId>, lib: Library, kinds: set<string>)
    ensures var held := OfKind(members, lib, kinds) * want;
      held + Existing(want, lib, kinds) == Existing(want, lib, kinds) <==> held <= lib.items
  {
    var held := OfKind(members, lib, kinds) * want;
    assert forall i :: i in held && i in lib.items ==> i in Existing(want, lib, kinds);
    if held + Existing(want, lib, kinds) == Existing(want, lib, kinds) {
      forall i | i in held ensures i in lib.items {
        assert i in held + Existing(want, lib, kinds);
      }
    }
  }

  /**
   The surviving collection holds exactly the expected items that exist if and only if the expected
   items it already held all exist. Items of other kinds in it are left alone.
   */
  lemma SurvivorHoldsExpectedIff(w: World, lib: Library, kinds: set<string>, title: string, expected: set<ItemId>, newId: CollectionId)
    requires ValidWorld(w) && Titled(w, title) != [] && Normalized(expected) != {}
    ensures var kept := Titled(w, title)[0];
      var want := Normalized(expected);
      var after := Synced(w, lib, kinds, title, expected, newId);
      && kept in w.boxes && kept in after.boxes
      && (OfKind(after.boxes[kept].members, lib, kinds) == Existing(want, lib, kinds)
          <==> OfKind(w.boxes[kept].members, lib, kinds) * want <= lib.items)
      && (forall i :: lib.kind(i) !in kinds ==> (i in after.boxes[kept].members <==> i in w.boxes[kept].members))
  {
    var kept := Titled(w, title)[0];
    var want := Normalized(expected);
    FirstCollectionSurvivesAlone(w, lib, kinds, title, expected, newId);
    ReconciledTouchesOneBox(w, lib, kinds, kept, want);
    ReconciledMembers(w, lib, kinds, kept, want);
    HeldAddsNothingIff(w.boxes[kept].members, want, lib, kinds);
  }

  /** An expected item that has vanished from the library stays in the collection that held it. */
  lemma AVanishedItemStays()
    ensures var w := World(["c"], map["c" := Box("t", {"1"})]);
      var lib := Library({}, i => "Movie");
      var after := Synced(w, lib, {"Movie"}, "t", {"1"}, "n");
      "c" in after.boxes && after.boxes["c"].members == {"1"} && Existing({"1"}, lib, {"Movie"}) == {}
  {
    var w := World(["c"], map["c" := Box("t", {"1"})]);
    var lib := Library({}, i => "Movie");
    assert StripBlanks("1") == "1";
    assert "1" in {"1"} && StripBlanks("1") in Normalized({"1"});
    assert Normalized({"1"}) == {"1"};
    assert Titled(w, "t") == ["c"] by {
      assert w.order[..0] == [];
    }
    assert OfKind({"1"}, lib, {"Movie"}) == {"1"};
    SettledIsLeftAlone(w, lib, {"Movie"}, "t", {"1"}, "n", "c");
  }

  /** A world where the one collection of the title already agrees is left as it is. */
  lemma SettledIsLeftAlone(w: World, lib: Library, kinds: set<string>, title: string, expected: set<ItemId>, newId: CollectionId, kept: CollectionId)
    requires Titled(w, title) == [kept] && kept in w.boxes && Normalized(expected) != {}
    requires var current := OfKind(w.boxes[kept].members, lib, kinds);
      Existing(Normalized(expected), lib, kinds) <= current <= Normalized(expected)
    ensures Synced(w, lib, kinds, title, expected, newId) == w
  {
    var want := Normalized(expected);
    var current := OfKind(w.boxes[kept].members, lib, kinds);
    assert Existing(want - current, lib, kinds) == {};
    assert current - want == {};
    NoChange(w, kept);
    WithoutNone(w);
    assert Elements(Titled(w, title)[1..]) == {};
  }

  lemma HoldingTheFoundIsSettled(
    w: World, lib: Library, kinds: set<string>, title: string, expected: set<ItemId>, newId: CollectionId, kept: CollectionId)
    requires Titled(w, title) == [kept] && kept in w.boxes && Normalized(expected) != {}
    requires w.boxes[kept].members == Existing(Normalized(expected), lib, kinds)
    ensures Synced(w, lib, kinds, title, expected, newId) == w
  {
    var found := Existing(Normalized(expected), lib, kinds);
    assert OfKind(found, lib, kinds) == found;
    SettledIsLeftAlone(w, lib, kinds, title, expected, newId, kept);
  }

  lemma NothingToCreate(w: World, lib: Library, kinds: set<string>, title: string, expected: set<ItemId>, newId: CollectionId)
    requires Titled(w, title) == [] && Normalized(expected) != {} && Existing(Normalized(expected), lib, kinds) == {}
    ensures Synced(w, lib, kinds, title, expected, newId) == w
  {
  }

  lemma CreatedIsSettled(w: World, lib: Library, kinds: set<string>, title: string, expected: set<ItemId>, newId: CollectionId, nextId: CollectionId)
    requires ValidWorld(w) && newId !in w.boxes && Titled(w, title) == [] && Normalized(expected) != {}
    ensures var after := Synced(w, lib, kinds, title, expected, newId);
      Synced(after, lib, kinds, title, expected, nextId) == after
  {
    if Existing(Normalized(expected), lib, kinds) == {} {
      NothingToCreate(w, lib, kinds, title, expected, newId);
      NothingToCreate(w, lib, kinds, title, expected, nextId);
    } else {
      CreatedExactlyWhenSomethingExists(w, lib, kinds, title, expected, newId);
      HoldingTheFoundIsSettled(Synced(w, lib, kinds, title, expected, newId), lib, kinds, title, expected, nextId, newId);
    }
  }

  lemma SurvivorIsSettled(w: World, lib: Library, kinds: set<string>, title: string, expected: set<ItemId>, newId: CollectionId, nextId: CollectionId)
    requires ValidWorld(w) && Titled(w, title) != [] && Normalized(expected) != {}
    ensures var after := Synced(w, lib, kinds, title, expected, newId);
      Synced(after, lib, kinds, title, expected, nextId) == after
  {
    var kept := Titled(w, title)[0];
    FirstCollectionSurvivesAlone(w, lib, kinds, title, expected, newId);
    ReconciledMembers(w, lib, kinds, kept, Normalized(expected));
    SettledIsLeftAlone(Synced(w, lib, kinds, title, expected, newId), lib, kinds, title, expected, nextId, kept);
  }

  /** Synchronising twice is synchronising once. */
  lemma SyncIsIdempotent(
    w: World, lib: Library, kinds: set<string>, title: string, expected: set<ItemId>, newId: CollectionId, nextId: CollectionId)
    requires ValidWorld(w) && newId !in w.boxes
    ensures var after := Synced(w, lib, kinds, title, expected, newId);
      Synced(after, lib, kinds, title, expected, nextId) == after
  {
    if Normalized(expected) == {} {
      var after := Synced(w, lib, kinds, title, expected, newId);
      NothingExpectedLeavesNoCollection(w, lib, kinds, title, expected, newId);
      assert Elements(Titled(after, title)) == {};
      WithoutNone(after);
    } else if Titled(w, title) == [] {
      CreatedIsSettled(w, lib, kinds, title, expected, newId, nextId);
    } else {
      SurvivorIsSettled(w, lib, kinds, title, expected, newId, nextId);
    }
  }

  // ---- attempts that are cut short ----

  /** Any number of attempts in a row, finished or not, keep together what each of them keeps. */
  lemma {:induction false} AttemptsKeep(worlds: seq<World>, lib: Library, kinds: set<string>, title: string, want: set<ItemId>)
    requires worlds != [] && ValidWorld(worlds[0])
    requires forall i :: 0 <= i < |worlds| - 1 ==> Keeps(worlds[i], worlds[i + 1], lib, kinds, title, want)
    ensures Keeps(worlds[0], worlds[|worlds| - 1], lib, kinds, title, want)
  {
    if |worlds| > 1 {
      var front := worlds[..|worlds| - 1];
      assert forall i :: 0 <= i < |front| ==> front[i] == worlds[i];
      AttemptsKeep(front, lib, kinds, title, want);
      assert Keeps(worlds[|worlds| - 2], worlds[|worlds| - 2 + 1], lib, kinds, title, want);
    }
  }

  lemma ReconciledKeeps(w: World, lib: Library, kinds: set<string>, title: string, kept: CollectionId, want: set<ItemId>)
    requires ValidWorld(w) && kept in w.boxes && SameTitle(w.boxes[kept].name, title)
    ensures Keeps(w, Reconciled(w, lib, kinds, kept, want), lib, kinds, title, want)
  {
    var current := OfKind(w.boxes[kept].members, lib, kinds);
    var missing := Existing(want - current, lib, kinds);
    ExtendedKeeps(w, kept, missing, lib, kinds, title, want);
    ReducedKeeps(Extended(w, kept, missing), kept, current - want, lib, kinds, title, want);
  }

  /** A completed synchronisation is an attempt like any other: it keeps what every attempt keeps. */
  lemma SyncKeeps(w: World, lib: Library, kinds: set<string>, title: string, expected: set<ItemId>, newId: CollectionId)
    requires ValidWorld(w) && newId !in w.boxes
    ensures Keeps(w, Synced(w, lib, kinds, title, expected, newId), lib, kinds, title, Normalized(expected))
  {
    var ids, want := Titled(w, title), Normalized(expected);
    TitledMembers(w.order, w.boxes, title);
    if want == {} {
      WithoutKeeps(w, Elements(ids), lib, kinds, title, want);
    } else if ids == [] {
      WithNewKeeps(w, newId, Existing(want, lib, kinds), lib, kinds, title, want);
    } else {
      assert ids[0] in ids;
      ReconciledKeeps(w, lib, kinds, title, ids[0], want);
      RestKeeps(w, Reconciled(w, lib, kinds, ids[0], want), ids, Elements(ids[1..]), lib, kinds, title, want);
    }
  }

  lemma OthersAfterSync(w: World, lib: Library, kinds: set<string>, title: string, expected: set<ItemId>, newId: CollectionId)
    requires ValidWorld(w) && newId !in w.boxes
    ensures ValidWorld(Synced(w, lib, kinds, title, expected, newId))
    ensures Others(Synced(w, lib, kinds, title, expected, newId), title) == Others(w, title)
  {
    SyncKeeps(w, lib, kinds, title, expected, newId);
  }

  /** A completed synchronisation leaves every collection of another title as it was, and makes none. */
  lemma OtherTitlesAreUntouched(w: World, lib: Library, kinds: set<string>, title: string, expected: set<ItemId>, newId: CollectionId)
    requires ValidWorld(w) && newId !in w.boxes
    ensures OtherTitlesUntouched(w.boxes, Synced(w, lib, kinds, title, expected, newId).boxes, title)
  {
    OthersAfterSync(w, lib, kinds, title, expected, newId);
    OthersUntouched(w, Synced(w, lib, kinds, title, expected, newId), title);
  }

  lemma AtMostOneTitled(after: World, title: string)
    requires ValidWorld(after) && |Titled(after, title)| <= 1
    ensures forall a, b :: a in after.boxes && b in after.boxes && SameCore(after.boxes[a].name, title) && SameCore(after.boxes[b].name, title) ==> a == b
  {
    TitledIff(after, title);
  }

  lemma AtMostOneInListing(w: World, lib: Library, kinds: set<string>, title: string, expected: set<ItemId>, newId: CollectionId)
    requires ValidWorld(w) && newId !in w.boxes
    ensures |Titled(Synced(w, lib, kinds, title, expected, newId), title)| <= 1
  {
    if Normalized(expected) == {} {
      NothingExpectedLeavesNoCollection(w, lib, kinds, title, expected, newId);
    } else if Titled(w, title) == [] {
      CreatedExactlyWhenSomethingExists(w, lib, kinds, title, expected, newId);
    } else {
      FirstCollectionSurvivesAlone(w, lib, kinds, title, expected, newId);
    }
  }

  /** It leaves at most one collection of the title. */
  lemma AtMostOneIsLeft(w: World, lib: Library, kinds: set<string>, title: string, expected: set<ItemId>, newId: CollectionId)
    requires ValidWorld(w) && newId !in w.boxes
    ensures var after := Synced(w, lib, kinds, title, expected, newId).boxes;
      forall a, b :: a in after && b in after && SameCore(after[a].name, title) && SameCore(after[b].name, title) ==> a == b
  {
    OthersAfterSync(w, lib, kinds, title, expected, newId);
    AtMostOneInListing(w, lib, kinds, title, expected, newId);
    AtMostOneTitled(Synced(w, lib, kinds, title, expected, newId), title);
  }

  lemma BlanksAreNothing(expected: set<ItemId>)
    requires forall e :: e in expected ==> AllBlank(e)
    ensures Normalized(expected) == {}
  {
    forall e | e in expected ensures StripBlanks(e) == [] {
      assert Spells(e, e, [], []);
      StripFindsCore(e, e, [], []);
    }
  }

  /** None is left when only blank texts are expected. */
  lemma NoneIsLeftForBlanks(w: World, lib: Library, kinds: set<string>, title: string, expected: set<ItemId>, newId: CollectionId)
    requires ValidWorld(w) && forall e :: e in expected ==> AllBlank(e)
    ensures var after := Synced(w, lib, kinds, title, expected, newId).boxes;
      forall id :: id in after ==> !SameCore(after[id].name, title)
  {
    BlanksAreNothing(expected);
    NothingExpectedLeavesNoCollection(w, lib, kinds, title, expected, newId);
    TitledIff(Synced(w, lib, kinds, title, expected, newId), title);
  }

  lemma FavouritesAreAnotherTitle()
    ensures SameTitle("Leaving Soon", "Leaving Soon") && !SameTitle("Favourites", "Leaving Soon")
  {
    assert StripBlanks("Leaving Soon") == "Leaving Soon" && StripBlanks("Favourites") == "Favourites";
    assert |AsciiNormalize("Leaving Soon")| == 12 && |AsciiNormalize("Favourites")| == 10;
  }

  /** With nothing expected, "Leaving Soon" goes and "Favourites" stays. */
  lemma FavouritesSurvive(lib: Library, kinds: set<string>, newId: CollectionId)
    ensures var favourites := Box("Favourites", {"7"});
      Synced(World(["a", "b"], map["a" := Box("Leaving Soon", {}), "b" := favourites]), lib, kinds, "Leaving Soon", {}, newId).boxes
      == map["b" := favourites]
  {
    var w := World(["a", "b"], map["a" := Box("Leaving Soon", {}), "b" := Box("Favourites", {"7"})]);
    FavouritesAreAnotherTitle();
    assert Distinct(w.order) && Elements(w.order) == w.boxes.Keys by {
      assert w.order[0] in Elements(w.order) && w.order[1] in Elements(w.order);
    }
    NothingExpectedLeavesNoCollection(w, lib, kinds, "Leaving Soon", {}, newId);
    assert Others(w, "Leaving Soon") == map["b" := Box("Favourites", {"7"})];
  }

  lemma KeptHoldsNoVanished(w: World, lib: Library, kinds: set<string>, title: string, want: set<ItemId>)
    requires ValidWorld(w) && Titled(w, title) != [] && HoldsNoVanished(w, lib, kinds, title, want)
    ensures var kept := Titled(w, title)[0]; kept in w.boxes && OfKind(w.boxes[kept].members, lib, kinds) * want <= lib.items
  {
    TitledMembers(w.order, w.boxes, title);
    assert Titled(w, title)[0] in Titled(w, title);
  }

  /** One collection of the title, holding exactly `found`. */
  ghost predicate LeavesOne(after: World, lib: Library, kinds: set<string>, title: string, found: set<ItemId>) {
    var left := Titled(after, title);
    |left| == 1 && left[0] in after.boxes && OfKind(after.boxes[left[0]].members, lib, kinds) == found
  }

  lemma HoldsTheFound(after: World, lib: Library, kinds: set<string>, title: string, want: set<ItemId>, id: CollectionId)
    requires Titled(after, title) == [id] && id in after.boxes && after.boxes[id].members == Existing(want, lib, kinds)
    ensures LeavesOne(after, lib, kinds, title, Existing(want, lib, kinds))
  {
    assert OfKind(Existing(want, lib, kinds), lib, kinds) == Existing(want, lib, kinds);
  }

  lemma CreatedIsTheOne(w: World, lib: Library, kinds: set<string>, title: string, expected: set<ItemId>, newId: CollectionId)
    requires ValidWorld(w) && newId !in w.boxes && Titled(w, title) == [] && Normalized(expected) != {}
    ensures var found := Existing(Normalized(expected), lib, kinds);
      var after := Synced(w, lib, kinds, title, expected, newId);
      if found == {} then Titled(after, title) == [] else LeavesOne(after, lib, kinds, title, found)
  {
    var found := Existing(Normalized(expected), lib, kinds);
    var after := Synced(w, lib, kinds, title, expected, newId);
    CreatedExactlyWhenSomethingExists(w, lib, kinds, title, expected, newId);
    if found != {} {
      HoldsTheFound(after, lib, kinds, title, Normalized(expected), newId);
    }
  }

  lemma SurvivorIsTheOne(w: World, lib: Library, kinds: set<string>, title: string, expected: set<ItemId>, newId: CollectionId)
    requires ValidWorld(w) && Titled(w, title) != [] && Normalized(expected) != {}
    requires HoldsNoVanished(w, lib, kinds, title, Normalized(expected))
    ensures LeavesOne(Synced(w, lib, kinds, title, expected, newId), lib, kinds, title, Existing(Normalized(expected), lib, kinds))
  {
    KeptHoldsNoVanished(w, lib, kinds, title, Normalized(expected));
    FirstCollectionSurvivesAlone(w, lib, kinds, title, expected, newId);
    SurvivorHoldsExpectedIff(w, lib, kinds, title, expected, newId);
  }

  /**
   The promise of the service. However many attempts were cut short after the world `w0`, the one that
   completes leaves other titles as they were in `w0`, and, if no collection of the title held a
   vanished item then, either no collection of the title (nothing expected, or nothing to create one
   with) or exactly one, holding exactly the expected items that exist.
   */
  lemma CompletedSyncConverges(
    w0: World, w: World, lib: Library, kinds: set<string>, title: string, expected: set<ItemId>, newId: CollectionId)
    requires ValidWorld(w) && newId !in w.boxes
    requires Keeps(w0, w, lib, kinds, title, Normalized(expected))
    requires HoldsNoVanished(w0, lib, kinds, title, Normalized(expected))
    ensures var found := Existing(Normalized(expected), lib, kinds);
      var after := Synced(w, lib, kinds, title, expected, newId);
      && ValidWorld(after) && Others(after, title) == Others(w0, title)
      && if Normalized(expected) == {} || (Titled(w, title) == [] && found == {}) then Titled(after, title) == []
         else LeavesOne(after, lib, kinds, title, found)
  {
    OthersAfterSync(w, lib, kinds, title, expected, newId);
    if Normalized(expected) == {} {
      NothingExpectedLeavesNoCollection(w, lib, kinds, title, expected, newId);
    } else if Titled(w, title) == [] {
      CreatedIsTheOne(w, lib, kinds, title, expected, newId);
    } else {
      SurvivorIsTheOne(w, lib, kinds, title, expected, newId);
    }
  }
}
