/** What `displayRecipes` (script.js lines 257-307) puts on the page, without the DOM. */
module Cards {
  import opened Seqs
  import opened Api

  /** The second button of a card: "Favorite" while browsing, "Remove" in the favorites view. */
  datatype Action = Favorite | Remove

  datatype Card = Card(meal: Meal, action: Action)

  /**
   * The content of the recipe grid: the "No meals found." placeholder, a
   * list of cards, the "No favorites saved yet." placeholder, or the failure
   * notice of a `catch` block.
   */
  datatype Screen = NoMealsFound | Grid(cards: seq<Card>) | NoFavoritesYet | LoadFailed

  function ActionFor(viewingFavorites: bool): Action {
    if viewingFavorites then Remove else Favorite
  }

  /** One card per record with a truthy id, in input order. */
  function CardsFor(meals: seq<Meal>, action: Action): (cards: seq<Card>)
    ensures |cards| <= |meals|
    ensures forall c :: c in cards ==> HasId(c.meal) && c.meal in meals && c.action == action
  {
    if meals == [] then []
    else (if HasId(meals[0]) then [Card(meals[0], action)] else []) + CardsFor(meals[1..], action)
  }

  function MealsOf(cards: seq<Card>): seq<Meal> {
    seq(|cards|, n requires 0 <= n < |cards| => cards[n].meal)
  }

  /** `displayRecipes(meals)` with the global flag `viewingFavorites`. */
  function Displayed(meals: seq<Meal>, viewingFavorites: bool): (s: Screen)
    ensures s == NoMealsFound <==> meals == []
    ensures s != NoMealsFound ==> s.Grid? && forall c :: c in s.cards ==> c.action == ActionFor(viewingFavorites)
    ensures s.Grid? ==> MealsOf(s.cards) == Filter(meals, HasId)
  {
    CardsShowValidMealsInOrder(meals, ActionFor(viewingFavorites));
    if meals == [] then NoMealsFound else Grid(CardsFor(meals, ActionFor(viewingFavorites)))
  }

  lemma {:induction false} CardsForConcat(a: seq<Meal>, b: seq<Meal>, action: Action)
    ensures CardsFor(a + b, action) == CardsFor(a, action) + CardsFor(b, action)
  {
    if a == [] {
      assert a + b == b;
    } else {
      assert (a + b)[1..] == a[1..] + b;
      CardsForConcat(a[1..], b, action);
    }
  }

  lemma MealsOfConcat(a: seq<Card>, b: seq<Card>)
    ensures MealsOf(a + b) == MealsOf(a) + MealsOf(b)
  {
    assert |MealsOf(a + b)| == |MealsOf(a) + MealsOf(b)|;
    forall n | 0 <= n < |a + b|
      ensures MealsOf(a + b)[n] == (MealsOf(a) + MealsOf(b))[n]
    {
    }
  }

  /** The cards show exactly the records with a truthy id, in their original order. */
  lemma {:induction false} CardsShowValidMealsInOrder(meals: seq<Meal>, action: Action)
    ensures MealsOf(CardsFor(meals, action)) == Filter(meals, HasId)
  {
    if meals != [] {
      CardsShowValidMealsInOrder(meals[1..], action);
      var head := if HasId(meals[0]) then [Card(meals[0], action)] else [];
      var tail := CardsFor(meals[1..], action);
      assert CardsFor(meals, action) == head + tail;
      MealsOfConcat(head, tail);
      assert MealsOf(head) == if HasId(meals[0]) then [meals[0]] else [];
      assert Filter(meals, HasId) == MealsOf(head) + Filter(meals[1..], HasId);
    }
  }
}
