/** `fetchByMealType` (script.js lines 219-255): meal type to category tags, then one fetch per tag. */
module MealTypes {
  import opened Wrappers
  import opened Seqs
  import opened Api

  /** The fixed category tags behind each value of the meal-type selector. */
  function MealTypeTags(mealType: string): (tags: seq<string>)
    ensures |tags| <= 3
    ensures tags == [] <==> mealType != "Breakfast" && mealType != "Lunch" && mealType != "Dinner"
    ensures mealType == "Breakfast" ==> |tags| == 1
    ensures mealType == "Lunch" || mealType == "Dinner" ==> |tags| == 3
  {
    if mealType == "Breakfast" then ["Breakfast"]
    else if mealType == "Lunch" then ["Chicken", "Beef", "Pasta"]
    else if mealType == "Dinner" then ["Seafood", "Lamb", "Miscellaneous"]
    else []
  }

  /** Adding one category answer to the meals gathered so far; a thrown fetch aborts. */
  function Absorb(acc: Option<seq<Meal>>, response: CategoryResponse): Option<seq<Meal>> {
    match acc
    case None => None
    case Some(meals) =>
      match response
      case Failed => None
      case NoMeals => Some(meals)
      case Listed(more) => Some(meals + more)
  }

  /**
   * The meals of every tag in tag order (`allMeals.concat(data.meals)`), or
   * None when any of the fetches throws.
   */
  function Gathered(tags: seq<string>, category: string -> CategoryResponse): (r: Option<seq<Meal>>)
    ensures r.None? <==> exists n :: 0 <= n < |tags| && category(tags[n]).Failed?
  {
    if tags == [] then Some([])
    else
      var rest := Gathered(tags[1..], category);
      match category(tags[0])
      case Failed => None
      case NoMeals => rest
      case Listed(meals) => if rest.None? then None else Some(meals + rest.value)
  }

  function Join(x: Option<seq<Meal>>, y: Option<seq<Meal>>): Option<seq<Meal>> {
    if x.Some? && y.Some? then Some(x.value + y.value) else None
  }

  /** Gathering splits along the tag list: the results of earlier tags come first. */
  lemma {:induction false} GatheredConcat(t1: seq<string>, t2: seq<string>, category: string -> CategoryResponse)
    ensures Gathered(t1 + t2, category) == Join(Gathered(t1, category), Gathered(t2, category))
  {
    if t1 == [] {
      assert t1 + t2 == t2;
      var b := Gathered(t2, category);
      if b.Some? {
        assert [] + b.value == b.value;
      }
    } else {
      assert (t1 + t2)[1..] == t1[1..] + t2;
      GatheredConcat(t1[1..], t2, category);
      var a, b := Gathered(t1[1..], category), Gathered(t2, category);
      if a.Some? && b.Some? && category(t1[0]).Listed? {
        assert category(t1[0]).meals + (a.value + b.value) == (category(t1[0]).meals + a.value) + b.value;
      }
    }
  }

  lemma GatheredSnoc(tags: seq<string>, tag: string, category: string -> CategoryResponse)
    ensures Gathered(tags + [tag], category) == Absorb(Gathered(tags, category), category(tag))
  {
    GatheredConcat(tags, [tag], category);
    assert [tag][1..] == [];
    assert Gathered([], category) == Some([]);
    match category(tag) {
      case Failed =>
      case NoMeals =>
        assert Gathered([tag], category) == Some([]);
        if Gathered(tags, category).Some? {
          assert Gathered(tags, category).value + [] == Gathered(tags, category).value;
        }
      case Listed(meals) =>
        assert meals + [] == meals;
        assert Gathered([tag], category) == Some(meals);
    }
  }

  /** For Lunch, the Chicken, Beef and Pasta results in that order. */
  lemma LunchInTagOrder(category: string -> CategoryResponse, chicken: seq<Meal>, beef: seq<Meal>, pasta: seq<Meal>)
    requires category("Chicken") == Listed(chicken)
    requires category("Beef") == Listed(beef)
    requires category("Pasta") == Listed(pasta)
    ensures Gathered(MealTypeTags("Lunch"), category) == Some(chicken + beef + pasta)
  {
    var tags := MealTypeTags("Lunch");
    assert tags[1..][1..][1..] == [];
    assert chicken + (beef + (pasta + [])) == chicken + beef + pasta;
  }

  /**
   * The loop of `fetchByMealType`, then `[...allMeals, ...naija.slice(0, 6)]`.
   * None is the `catch` path (the failure notice).
   */
  method FetchByMealType(mealType: string, category: string -> CategoryResponse, naija: seq<Meal>)
    returns (r: Option<seq<Meal>>)
    ensures r.None? <==> exists n :: 0 <= n < |MealTypeTags(mealType)| && category(MealTypeTags(mealType)[n]).Failed?
    ensures r.Some? ==> r.value == Gathered(MealTypeTags(mealType), category).value + naija[..Min(6, |naija|)]
  {
    var tags := MealTypeTags(mealType);
    var allMeals: seq<Meal> := [];
    for i := 0 to |tags|
      invariant Gathered(tags[..i], category) == Some(allMeals)
    {
      GatheredSnoc(tags[..i], tags[i], category);
      assert tags[..i + 1] == tags[..i] + [tags[i]];
      match category(tags[i]) {
        case Failed =>
          return None;
        case NoMeals =>
        case Listed(meals) =>
          allMeals := allMeals + meals;
      }
    }
    assert tags[..|tags|] == tags;
    r := Some(allMeals + naija[..Min(6, |naija|)]);
  }
}
