/**
 * The data logic of `initialPopulate` and `fetchRecipes` (script.js lines
 * 155-217): the suggestion pool and the merge of two result lists into a
 * JavaScript `Map` keyed by `idMeal`.
 */
module Search {
  import opened Seqs
  import opened Api

  /** `[...general.slice(0, 9), ...naija.slice(0, 6)]`. */
  function SuggestionPool(general: seq<Meal>, naija: seq<Meal>): (r: seq<Meal>)
    ensures |r| == Min(9, |general|) + Min(6, |naija|) && |r| <= 15
    ensures forall n :: 0 <= n < Min(9, |general|) ==> r[n] == general[n]
    ensures forall n :: 0 <= n < Min(6, |naija|) ==> r[Min(9, |general|) + n] == naija[n]
  {
    general[..Min(9, |general|)] + naija[..Min(6, |naija|)]
  }

  /** Position of the first record whose id is `k`, or -1. */
  function FirstIndex(s: seq<Meal>, k: string): (r: int)
    ensures -1 <= r < |s|
    ensures 0 <= r ==> s[r].id == k
    ensures forall j :: 0 <= j < |s| && (r < 0 || j < r) ==> s[j].id != k
  {
    if s == [] then -1
    else if s[0].id == k then 0
    else
      var r := FirstIndex(s[1..], k);
      if r < 0 then -1 else r + 1
  }

  /** Position of the last record with id `k` among the first `n`, or -1. */
  function LastIndexBelow(s: seq<Meal>, k: string, n: nat): (r: int)
    requires n <= |s|
    ensures -1 <= r < n
    ensures 0 <= r ==> s[r].id == k
    ensures forall j :: r < j < n ==> s[j].id != k
  {
    if n == 0 then -1
    else if s[n - 1].id == k then n - 1
    else LastIndexBelow(s, k, n - 1)
  }

  function LastIndex(s: seq<Meal>, k: string): int {
    LastIndexBelow(s, k, |s|)
  }

  /**
   * What `Array.from(map.values())` holds after `map.set(m.idMeal, m)` ran
   * for every record of `arrivals` with a truthy id: one record per distinct
   * truthy id, keyed in the order the ids first arrived, each holding the
   * last record that arrived with its id.
   */
  ghost predicate IsMergeOf(merged: seq<Meal>, arrivals: seq<Meal>) {
    && (forall a, b :: 0 <= a < b < |merged| ==> merged[a].id != merged[b].id)
    && (forall a :: 0 <= a < |merged| ==> HasId(merged[a]))
    && (forall j :: 0 <= j < |arrivals| && HasId(arrivals[j]) ==>
          exists a :: 0 <= a < |merged| && merged[a].id == arrivals[j].id)
    && (forall a :: 0 <= a < |merged| ==>
          0 <= LastIndex(arrivals, merged[a].id) && merged[a] == arrivals[LastIndex(arrivals, merged[a].id)])
    && (forall a, b :: 0 <= a < b < |merged| ==>
          FirstIndex(arrivals, merged[a].id) < FirstIndex(arrivals, merged[b].id))
  }

  /** The Map's keys after the first `i` arrivals: the truthy ids among them. */
  ghost predicate KeysArrived(table: map<string, Meal>, arrivals: seq<Meal>, i: nat) {
    forall k :: k in table <==> k != "" && 0 <= FirstIndex(arrivals, k) < i
  }

  /** Each key holds the last of the first `i` arrivals with that id. */
  ghost predicate LastValues(table: map<string, Meal>, arrivals: seq<Meal>, i: nat)
    requires i <= |arrivals|
  {
    forall k :: k in table ==>
      0 <= LastIndexBelow(arrivals, k, i) && table[k] == arrivals[LastIndexBelow(arrivals, k, i)]
  }

  /** `order` lists exactly the keys, in first-arrival order. */
  ghost predicate KeyOrder(order: seq<string>, table: map<string, Meal>, arrivals: seq<Meal>) {
    && (forall n :: 0 <= n < |order| ==> order[n] in table)
    && (forall k :: k in table ==> k in order)
    && (forall a, b :: 0 <= a < b < |order| ==>
          FirstIndex(arrivals, order[a]) < FirstIndex(arrivals, order[b]))
  }

  /**
   * The state of the Map after the first `i` arrivals: `table` holds the keys
   * and values, `order` the key order.
   */
  ghost predicate Tracks(order: seq<string>, table: map<string, Meal>, arrivals: seq<Meal>, i: nat)
    requires i <= |arrivals|
  {
    KeysArrived(table, arrivals, i) && LastValues(table, arrivals, i) && KeyOrder(order, table, arrivals)
  }

  /** One `map.set(m.idMeal, m)` guarded by `if (m && m.idMeal)`. */
  lemma TracksStep(order: seq<string>, table: map<string, Meal>, arrivals: seq<Meal>, i: nat)
    requires i < |arrivals| && Tracks(order, table, arrivals, i)
    ensures arrivals[i].id == "" ==> Tracks(order, table, arrivals, i + 1)
    ensures arrivals[i].id != "" ==>
      Tracks(if arrivals[i].id in table then order else order + [arrivals[i].id],
             table[arrivals[i].id := arrivals[i]], arrivals, i + 1)
  {
    var m := arrivals[i];
    if m.id == "" {
      KeysSkipFalsy(table, arrivals, i);
      ValuesSkipFalsy(table, arrivals, i);
    } else {
      KeysStep(table, arrivals, i);
      ValuesStep(table, arrivals, i);
      if m.id !in table {
        OrderStepNew(order, table, arrivals, i);
      } else {
        assert table[m.id := m].Keys == table.Keys;
      }
    }
  }

  lemma KeysSkipFalsy(table: map<string, Meal>, arrivals: seq<Meal>, i: nat)
    requires i < |arrivals| && arrivals[i].id == "" && KeysArrived(table, arrivals, i)
    ensures KeysArrived(table, arrivals, i + 1)
  {
    forall k
      ensures k in table <==> k != "" && 0 <= FirstIndex(arrivals, k) < i + 1
    {
      assert FirstIndex(arrivals, k) == i ==> k == "";
    }
  }

  lemma ValuesSkipFalsy(table: map<string, Meal>, arrivals: seq<Meal>, i: nat)
    requires i < |arrivals| && arrivals[i].id == "" && LastValues(table, arrivals, i)
    requires forall k :: k in table ==> k != ""
    ensures LastValues(table, arrivals, i + 1)
  {
    forall k | k in table
      ensures LastIndexBelow(arrivals, k, i + 1) == LastIndexBelow(arrivals, k, i)
    {
    }
  }

  lemma KeysStep(table: map<string, Meal>, arrivals: seq<Meal>, i: nat)
    requires i < |arrivals| && arrivals[i].id != "" && KeysArrived(table, arrivals, i)
    ensures KeysArrived(table[arrivals[i].id := arrivals[i]], arrivals, i + 1)
  {
    var m := arrivals[i];
    forall k
      ensures k in table[m.id := m] <==> k != "" && 0 <= FirstIndex(arrivals, k) < i + 1
    {
      assert FirstIndex(arrivals, k) == i ==> k == m.id;
      assert k == m.id ==> 0 <= FirstIndex(arrivals, k) <= i;
    }
  }

  lemma ValuesStep(table: map<string, Meal>, arrivals: seq<Meal>, i: nat)
    requires i < |arrivals| && LastValues(table, arrivals, i)
    ensures LastValues(table[arrivals[i].id := arrivals[i]], arrivals, i + 1)
  {
    var m := arrivals[i];
    var t := table[m.id := m];
    forall k | k in t
      ensures 0 <= LastIndexBelow(arrivals, k, i + 1) && t[k] == arrivals[LastIndexBelow(arrivals, k, i + 1)]
    {
      if k != m.id {
        assert LastIndexBelow(arrivals, k, i + 1) == LastIndexBelow(arrivals, k, i);
      }
    }
  }

  lemma OrderStepNew(order: seq<string>, table: map<string, Meal>, arrivals: seq<Meal>, i: nat)
    requires i < |arrivals| && KeysArrived(table, arrivals, i) && KeyOrder(order, table, arrivals)
    requires arrivals[i].id != "" && arrivals[i].id !in table
    ensures KeyOrder(order + [arrivals[i].id], table[arrivals[i].id := arrivals[i]], arrivals)
  {
    var m := arrivals[i];
    var o := order + [m.id];
    assert FirstIndex(arrivals, m.id) == i;
    forall a, b | 0 <= a < b < |o|
      ensures FirstIndex(arrivals, o[a]) < FirstIndex(arrivals, o[b])
    {
      if b == |order| {
        assert o[a] in table;
      }
    }
  }

  /** Reading the Map out in key order gives a merge of everything that arrived. */
  lemma TracksDone(order: seq<string>, table: map<string, Meal>, arrivals: seq<Meal>, merged: seq<Meal>)
    requires Tracks(order, table, arrivals, |arrivals|)
    requires |merged| == |order| && forall n :: 0 <= n < |order| ==> merged[n] == table[order[n]]
    ensures IsMergeOf(merged, arrivals)
  {
    forall a | 0 <= a < |merged|
      ensures merged[a].id == order[a] && HasId(merged[a])
      ensures 0 <= LastIndex(arrivals, merged[a].id) && merged[a] == arrivals[LastIndex(arrivals, merged[a].id)]
    {
      assert order[a] in table;
    }
    forall a, b | 0 <= a < b < |merged|
      ensures FirstIndex(arrivals, merged[a].id) < FirstIndex(arrivals, merged[b].id)
      ensures merged[a].id != merged[b].id
    {
      assert FirstIndex(arrivals, order[a]) < FirstIndex(arrivals, order[b]);
    }
    forall j | 0 <= j < |arrivals| && HasId(arrivals[j])
      ensures exists a :: 0 <= a < |merged| && merged[a].id == arrivals[j].id
    {
      var k := arrivals[j].id;
      assert k in table;
      var a :| 0 <= a < |order| && order[a] == k;
      assert merged[a].id == k;
    }
  }

  /**
   * The `forEach` of `fetchRecipes` over `[...fromMealDB, ...fromNaija]`:
   * `order` is the Map's key order and `table` its contents.
   */
  method BuildMap(arrivals: seq<Meal>) returns (order: seq<string>, table: map<string, Meal>)
    ensures Tracks(order, table, arrivals, |arrivals|)
  {
    order, table := [], map[];
    for i := 0 to |arrivals|
      invariant Tracks(order, table, arrivals, i)
    {
      TracksStep(order, table, arrivals, i);
      var m := arrivals[i];
      if m.id != "" {
        if m.id !in table {
          order := order + [m.id];
        }
        table := table[m.id := m];
      }
    }
  }

  /** `Array.from(map.values())` after the `forEach`. */
  method MergeById(arrivals: seq<Meal>) returns (merged: seq<Meal>)
    ensures IsMergeOf(merged, arrivals)
    ensures merged == [] <==> forall j :: 0 <= j < |arrivals| ==> !HasId(arrivals[j])
  {
    var order, table := BuildMap(arrivals);
    assert forall n :: 0 <= n < |order| ==> order[n] in table;
    merged := seq(|order|, n requires 0 <= n < |order| => table[order[n]]);
    TracksDone(order, table, arrivals, merged);
    MergeEmptyIff(merged, arrivals);
  }

  /** A merge is empty exactly when no arrival has a truthy id. */
  lemma MergeEmptyIff(merged: seq<Meal>, arrivals: seq<Meal>)
    requires IsMergeOf(merged, arrivals)
    ensures merged == [] <==> forall j :: 0 <= j < |arrivals| ==> !HasId(arrivals[j])
  {
    if merged != [] {
      assert HasId(arrivals[LastIndex(arrivals, merged[0].id)]);
    }
  }

  /** In general-then-Nigerian order the Nigerian list decides which record is last. */
  lemma LastIndexAppend(general: seq<Meal>, naija: seq<Meal>, k: string)
    ensures LastIndex(general + naija, k) ==
      if 0 <= LastIndex(naija, k) then |general| + LastIndex(naija, k) else LastIndex(general, k)
  {
    LastIndexBelowSuffix(general, naija, k, |naija|);
  }

  lemma {:induction false} LastIndexBelowPrefix(a: seq<Meal>, b: seq<Meal>, k: string, n: nat)
    requires n <= |a|
    ensures LastIndexBelow(a + b, k, n) == LastIndexBelow(a, k, n)
  {
    if n > 0 {
      LastIndexBelowPrefix(a, b, k, n - 1);
    }
  }

  lemma {:induction false} LastIndexBelowSuffix(a: seq<Meal>, b: seq<Meal>, k: string, n: nat)
    requires n <= |b|
    ensures LastIndexBelow(a + b, k, |a| + n) ==
      if 0 <= LastIndexBelow(b, k, n) then |a| + LastIndexBelow(b, k, n) else LastIndex(a, k)
  {
    if n == 0 {
      LastIndexBelowPrefix(a, b, k, |a|);
    } else {
      LastIndexBelowSuffix(a, b, k, n - 1);
    }
  }

  /** In general-then-Nigerian order the general list decides where an id first arrives. */
  lemma {:induction false} FirstIndexAppend(general: seq<Meal>, naija: seq<Meal>, k: string)
    ensures FirstIndex(general + naija, k) ==
      if 0 <= FirstIndex(general, k) then FirstIndex(general, k)
      else if 0 <= FirstIndex(naija, k) then |general| + FirstIndex(naija, k)
      else -1
  {
    if general == [] {
      assert general + naija == naija;
    } else {
      assert (general + naija)[1..] == general[1..] + naija;
      FirstIndexAppend(general[1..], naija, k);
    }
  }

  /**
   * A record the Nigerian list carries overrides the general copy: the merged
   * record for that id is the last Nigerian record with it.
   */
  lemma NigerianCopyWins(merged: seq<Meal>, general: seq<Meal>, naija: seq<Meal>, a: nat)
    requires IsMergeOf(merged, general + naija)
    requires a < |merged| && 0 <= LastIndex(naija, merged[a].id)
    ensures merged[a] == naija[LastIndex(naija, merged[a].id)]
  {
    LastIndexAppend(general, naija, merged[a].id);
  }

  /** Two strictly increasing sequences with the same elements start alike. */
  lemma StrictlySortedSameHead(x: seq<int>, y: seq<int>)
    requires x != [] && y != []
    requires forall a, b :: 0 <= a < b < |x| ==> x[a] < x[b]
    requires forall a, b :: 0 <= a < b < |y| ==> y[a] < y[b]
    requires forall v :: v in x <==> v in y
    ensures x[0] == y[0]
  {
    assert x[0] in x && x[0] in y;
    assert y[0] in y && y[0] in x;
    var a :| 0 <= a < |y| && y[a] == x[0];
    var b :| 0 <= b < |x| && x[b] == y[0];
    assert y[0] <= y[a];
    assert x[0] <= x[b];
  }

  /** Past an equal head, the tails of two such sequences have the same elements. */
  lemma StrictlySortedSameTail(x: seq<int>, y: seq<int>, v: int)
    requires x != [] && y != [] && x[0] == y[0]
    requires forall a, b :: 0 <= a < b < |x| ==> x[a] < x[b]
    requires forall a, b :: 0 <= a < b < |y| ==> y[a] < y[b]
    requires forall v :: v in x <==> v in y
    requires v in x[1..]
    ensures v in y[1..]
  {
    var a :| 1 <= a < |x| && x[a] == v;
    assert v in x;
    var b :| 0 <= b < |y| && y[b] == v;
    assert b != 0;
    assert y[1..][b - 1] == v;
  }

  /** A strictly increasing sequence is determined by its set of elements. */
  lemma {:induction false} StrictlySortedUnique(x: seq<int>, y: seq<int>)
    requires forall a, b :: 0 <= a < b < |x| ==> x[a] < x[b]
    requires forall a, b :: 0 <= a < b < |y| ==> y[a] < y[b]
    requires forall v :: v in x <==> v in y
    ensures x == y
  {
    assert x != [] ==> x[0] in x && x[0] in y;
    assert y != [] ==> y[0] in y && y[0] in x;
    if x != [] && y != [] {
      StrictlySortedSameHead(x, y);
      forall v
        ensures v in x[1..] <==> v in y[1..]
      {
        if v in x[1..] {
          StrictlySortedSameTail(x, y, v);
        }
        if v in y[1..] {
          StrictlySortedSameTail(y, x, v);
        }
      }
      StrictlySortedUnique(x[1..], y[1..]);
      assert x == [x[0]] + x[1..];
      assert y == [y[0]] + y[1..];
    }
  }

  function FirstArrivals(merged: seq<Meal>, arrivals: seq<Meal>): seq<int> {
    seq(|merged|, a requires 0 <= a < |merged| => FirstIndex(arrivals, merged[a].id))
  }

  /** Every merged id arrived, and it first arrived at its `FirstIndex`. */
  lemma MergedIdArrived(merged: seq<Meal>, arrivals: seq<Meal>, a: nat)
    requires IsMergeOf(merged, arrivals) && a < |merged|
    ensures 0 <= FirstIndex(arrivals, merged[a].id)
    ensures HasId(arrivals[FirstIndex(arrivals, merged[a].id)])
  {
    var j := LastIndex(arrivals, merged[a].id);
    assert arrivals[j].id == merged[a].id;
  }

  lemma FirstArrivalsIncluded(m1: seq<Meal>, m2: seq<Meal>, arrivals: seq<Meal>)
    requires IsMergeOf(m1, arrivals) && IsMergeOf(m2, arrivals)
    ensures forall v :: v in FirstArrivals(m1, arrivals) ==> v in FirstArrivals(m2, arrivals)
  {
    var x := FirstArrivals(m1, arrivals);
    forall v | v in x
      ensures v in FirstArrivals(m2, arrivals)
    {
      var a :| 0 <= a < |m1| && x[a] == v;
      FirstArrivalShared(m1, m2, arrivals, a);
    }
  }

  lemma FirstArrivalShared(m1: seq<Meal>, m2: seq<Meal>, arrivals: seq<Meal>, a: nat)
    requires IsMergeOf(m1, arrivals) && IsMergeOf(m2, arrivals) && a < |m1|
    ensures FirstIndex(arrivals, m1[a].id) in FirstArrivals(m2, arrivals)
  {
    MergedIdArrived(m1, arrivals, a);
    var v := FirstIndex(arrivals, m1[a].id);
    assert 0 <= v < |arrivals| && HasId(arrivals[v]);
    var b :| 0 <= b < |m2| && m2[b].id == arrivals[v].id;
    assert FirstArrivals(m2, arrivals)[b] == v;
  }

  /**
   * The merge is fully determined by what arrived: the contract of
   * `MergeById` leaves no freedom in the key set, the key order or the values.
   */
  lemma MergeIsUnique(m1: seq<Meal>, m2: seq<Meal>, arrivals: seq<Meal>)
    requires IsMergeOf(m1, arrivals) && IsMergeOf(m2, arrivals)
    ensures m1 == m2
  {
    var x, y := FirstArrivals(m1, arrivals), FirstArrivals(m2, arrivals);
    FirstArrivalsIncluded(m1, m2, arrivals);
    FirstArrivalsIncluded(m2, m1, arrivals);
    StrictlySortedUnique(x, y);
    forall a | 0 <= a < |m1|
      ensures m1[a] == m2[a]
    {
      assert x[a] == y[a];
      MergedIdArrived(m1, arrivals, a);
      MergedIdArrived(m2, arrivals, a);
    }
  }
}
