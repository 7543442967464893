/**
 * The recipe records returned by the MealDB service and the service itself,
 * reduced to plain inputs (script.js lines 113-153), plus the client-side
 * Nigerian name filter.
 */
module Api {
  import opened Wrappers
  import opened Text
  import opened Seqs

  /**
   * One recipe record. `id` is `idMeal` and `name` is `strMeal`; a missing or
   * null field is the empty string, which is exactly how script.js treats
   * both (`!meal.idMeal`, `m.strMeal || ""`). `ingredients[i - 1]` and
   * `measures[i - 1]` are the fields `strIngredient<i>` and `strMeasure<i>`;
   * a slot past the end of either sequence is absent.
   */
  datatype Meal = Meal(
    id: string,
    name: string,
    ingredients: seq<Option<string>>,
    measures: seq<Option<string>>)

  /** `meal.idMeal` is truthy: the record may become a card or a map key. */
  predicate HasId(m: Meal) {
    m.id != ""
  }

  /** Answer of `filter.php?c=<tag>`: a list, `meals: null`, or a thrown fetch or parse error. */
  datatype CategoryResponse = Listed(meals: seq<Meal>) | NoMeals | Failed

  /**
   * The remote service as it answers during one handler. `searchByName` is
   * `searchMealDBByName` (already fail-soft: an error gives []),
   * `nigerianArea` is the list behind `filter.php?a=Nigerian` (or [] on error),
   * `category` answers the category endpoint and `lookup` is `lookupMealById`
   * (None when not found or on error).
   */
  datatype Service = Service(
    searchByName: string -> seq<Meal>,
    nigerianArea: seq<Meal>,
    category: string -> CategoryResponse,
    lookup: string -> Option<Meal>)

  /** The name test of `searchNigerianByName`: the lowercased name contains the lowercased query. */
  predicate NameMatches(m: Meal, query: string) {
    Contains(ToLower(m.name), ToLower(query))
  }

  /** `searchNigerianByName(query)` applied to the fetched Nigerian list. */
  function NigerianByName(meals: seq<Meal>, query: string): (r: seq<Meal>)
    ensures query == "" ==> r == meals
    ensures query != "" ==> forall m :: m in r <==> m in meals && NameMatches(m, query)
    ensures |r| <= |meals|
  {
    if query == "" then meals else Filter(meals, m => NameMatches(m, query))
  }

  /** The filter keeps the records in the order the service listed them. */
  lemma NigerianByNameKeepsOrder(a: seq<Meal>, b: seq<Meal>, query: string)
    ensures NigerianByName(a + b, query) == NigerianByName(a, query) + NigerianByName(b, query)
  {
    if query != "" {
      FilterConcat(a, b, m => NameMatches(m, query));
    }
  }

  /** The `if (query)` guard is only a shortcut: the name test with an empty query keeps everything. */
  lemma EmptyQueryMatchesAll(meals: seq<Meal>)
    ensures Filter(meals, m => NameMatches(m, "")) == meals
  {
    forall m | m in meals
      ensures NameMatches(m, "")
    {
      assert StartsWith(ToLower(m.name), ToLower(""));
    }
    FilterKeepsAll(meals, m => NameMatches(m, ""));
  }

  /** A query longer than every name finds nothing. This relies on the
      ASCII case mapping of `ToLower`, which keeps lengths; the full Unicode
      `toLowerCase` can lengthen a string (U+0130 becomes two code units). */
  lemma LongQueryMatchesNothing(meals: seq<Meal>, query: string)
    requires query != ""
    requires forall m :: m in meals ==> |m.name| < |query|
    ensures NigerianByName(meals, query) == []
  {
    forall m | m in meals
      ensures !NameMatches(m, query)
    {
      ContainsShorter(ToLower(m.name), ToLower(query));
    }
    FilterKeepsNone(meals, m => NameMatches(m, query));
  }
}
