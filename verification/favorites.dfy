/** The favorites list kept in storage (script.js lines 360-432), as values. */
module Favorites {
  import opened Wrappers
  import opened Text
  import opened Seqs
  import opened Api

  /** The list `addToFavorites(id)` writes back: `id` appended unless it is already there. */
  function WithAdded(favorites: seq<string>, id: string): (r: seq<string>)
    ensures id in r
    ensures favorites <= r && |r| <= |favorites| + 1
    ensures r == favorites <==> id in favorites
  {
    if id in favorites then favorites else favorites + [id]
  }

  lemma AddKeepsNoDuplicates(favorites: seq<string>, id: string)
    requires NoDuplicates(favorites)
    ensures NoDuplicates(WithAdded(favorites, id))
  {
  }

  /** Adding the same id twice stores it exactly once. */
  lemma AddTwiceStoresOnce(favorites: seq<string>, id: string)
    requires NoDuplicates(favorites)
    ensures WithAdded(WithAdded(favorites, id), id) == WithAdded(favorites, id)
    ensures multiset(WithAdded(WithAdded(favorites, id), id))[id] == 1
  {
    AddKeepsNoDuplicates(favorites, id);
    NoDuplicatesOccursOnce(WithAdded(favorites, id), id);
  }

  /** `current.filter(x => String(x).trim() !== String(id).trim())`. */
  function WithoutTrimmed(favorites: seq<string>, target: string): (r: seq<string>)
    ensures forall x :: x in r ==> x in favorites && Trim(x) != Trim(target)
    ensures forall x :: x in favorites && Trim(x) != Trim(target) ==> x in r
  {
    Filter(favorites, x => Trim(x) != Trim(target))
  }

  /** The entries that survive a removal keep their relative order. */
  lemma RemoveKeepsOrder(a: seq<string>, b: seq<string>, target: string)
    ensures WithoutTrimmed(a + b, target) == WithoutTrimmed(a, target) + WithoutTrimmed(b, target)
  {
    FilterConcat(a, b, x => Trim(x) != Trim(target));
  }

  /** Only the trimmed form of the target matters: surrounding white space changes nothing. */
  lemma RemoveIgnoresPadding(favorites: seq<string>, target: string, c: char)
    requires IsSpace(c)
    ensures WithoutTrimmed(favorites, [c] + target) == WithoutTrimmed(favorites, target)
    ensures WithoutTrimmed(favorites, target + [c]) == WithoutTrimmed(favorites, target)
  {
    TrimIgnoresPadding(target, c);
    FilterCongruent(favorites, x => Trim(x) != Trim([c] + target), x => Trim(x) != Trim(target));
    FilterCongruent(favorites, x => Trim(x) != Trim(target + [c]), x => Trim(x) != Trim(target));
  }

  lemma RemoveKeepsNoDuplicates(favorites: seq<string>, target: string)
    requires NoDuplicates(favorites)
    ensures NoDuplicates(WithoutTrimmed(favorites, target))
  {
    FilterNoDuplicates(favorites, x => Trim(x) != Trim(target));
  }

  /** Removing an id nothing matches leaves the list as it was. */
  lemma RemoveAbsentIsNoOp(favorites: seq<string>, target: string)
    requires forall x :: x in favorites ==> Trim(x) != Trim(target)
    ensures WithoutTrimmed(favorites, target) == favorites
  {
    FilterKeepsAll(favorites, x => Trim(x) != Trim(target));
  }

  /** The records `loadFavorites` collects: one per id whose lookup succeeds, in stored order. */
  function Resolved(ids: seq<string>, lookup: string -> Option<Meal>): (meals: seq<Meal>)
    ensures |meals| <= |ids|
    ensures forall m :: m in meals ==> exists id :: id in ids && lookup(id) == Some(m)
  {
    if ids == [] then []
    else
      var last := ids[|ids| - 1];
      Resolved(ids[..|ids| - 1], lookup) + (if lookup(last).Some? then [lookup(last).value] else [])
  }

  /** When every lookup succeeds, every id yields its record. */
  lemma {:induction false} ResolvedAllFound(ids: seq<string>, lookup: string -> Option<Meal>)
    requires forall id :: id in ids ==> lookup(id).Some?
    ensures |Resolved(ids, lookup)| == |ids|
    ensures forall n :: 0 <= n < |ids| ==> Resolved(ids, lookup)[n] == lookup(ids[n]).value
  {
    if ids != [] {
      var init, last := ids[..|ids| - 1], ids[|ids| - 1];
      forall id | id in init
        ensures lookup(id).Some?
      {
        var j :| 0 <= j < |init| && init[j] == id;
        assert ids[j] in ids;
      }
      ResolvedAllFound(init, lookup);
      assert last in ids;
      ResolvedFoundLast(ids, lookup);
      var before, all := Resolved(init, lookup), Resolved(ids, lookup);
      forall n | 0 <= n < |ids|
        ensures all[n] == lookup(ids[n]).value
      {
        if n < |init| {
          assert all[n] == before[n] && ids[n] == init[n];
        }
      }
    }
  }

  lemma ResolvedFoundLast(ids: seq<string>, lookup: string -> Option<Meal>)
    requires ids != [] && lookup(ids[|ids| - 1]).Some?
    ensures Resolved(ids, lookup) == Resolved(ids[..|ids| - 1], lookup) + [lookup(ids[|ids| - 1]).value]
  {
  }

  /** An id whose lookup fails contributes nothing. */
  lemma {:induction false} ResolvedSkipsFailures(a: seq<string>, id: string, b: seq<string>, lookup: string -> Option<Meal>)
    requires lookup(id).None?
    ensures Resolved(a + [id] + b, lookup) == Resolved(a + b, lookup)
  {
    if b == [] {
      assert a + [id] + b == a + [id];
      assert (a + [id])[..|a + [id]| - 1] == a;
      assert a + b == a;
    } else {
      var b' := b[..|b| - 1];
      assert (a + [id] + b)[..|a + [id] + b| - 1] == a + [id] + b';
      assert (a + b)[..|a + b| - 1] == a + b';
      ResolvedSkipsFailures(a, id, b', lookup);
    }
  }

  /**
   * The `for (const id of favorites)` loop of `loadFavorites`: one lookup per
   * id, one after the other; `asked` lists the ids looked up, in order.
   */
  method ResolveAll(ids: seq<string>, lookup: string -> Option<Meal>) returns (meals: seq<Meal>, asked: seq<string>)
    ensures meals == Resolved(ids, lookup)
    ensures asked == ids
  {
    meals, asked := [], [];
    for i := 0 to |ids|
      invariant meals == Resolved(ids[..i], lookup)
      invariant asked == ids[..i]
    {
      var meal := lookup(ids[i]);
      asked := asked + [ids[i]];
      if meal.Some? {
        meals := meals + [meal.value];
      }
      assert ids[..i + 1][..i] == ids[..i];
    }
    assert ids[..|ids|] == ids;
  }
}
