/**
 * The application state of script.js and the handlers that change it: the
 * stored favorites and accounts, the session marker and the global
 * `viewingFavorites` flag, with each asynchronous handler taken as one
 * sequential step over the answers of the recipe service.
 */
module App {
  import opened Wrappers
  import opened Text
  import opened Seqs
  import opened Api
  import opened Search
  import opened MealTypes
  import opened Cards
  import opened Favorites
  import opened Accounts

  /** What a search leaves on screen: its own results, or the suggestion pool. */
  datatype SearchOutcome = Found(screen: Screen) | Suggested(screen: Screen)

  /** The pool `initialPopulate` shows, from the answers to the two empty queries. */
  function Suggestions(service: Service): (r: seq<Meal>)
    ensures |r| <= 15
  {
    SuggestionPool(service.searchByName(""), NigerianByName(service.nigerianArea, ""))
  }

  /** `[...fromMealDB, ...fromNaija]` of `fetchRecipes(query)`. */
  function Arrivals(service: Service, query: string): seq<Meal> {
    service.searchByName(query) + NigerianByName(service.nigerianArea, query)
  }

  class RecipeFinder {
    /** localStorage "favorites". */
    var favorites: seq<string>
    /** localStorage "users". */
    var users: map<string, string>
    /** localStorage "currentUser". */
    var currentUser: Option<string>
    var viewingFavorites: bool

    ghost predicate Valid()
      reads this
    {
      && NoDuplicates(favorites)
      && WellFormed(users)
      && (currentUser.Some? ==> currentUser.value in users)
    }

    /** A first visit: nothing in storage, browsing mode. */
    constructor ()
      ensures Valid()
      ensures favorites == [] && users == map[] && currentUser == None && !viewingFavorites
    {
      favorites, users, currentUser, viewingFavorites := [], map[], None, false;
    }

    /** `isLoggedIn()`: the session marker is present and truthy. */
    function IsLoggedIn(): (b: bool)
      reads this
      ensures b ==> currentUser.Some?
      ensures Valid() ==> (b <==> currentUser.Some?)
    {
      currentUser.Some? && currentUser.value != ""
    }

    /** The signup button handler. */
    method Signup(rawName: string, rawPassword: string) returns (status: SignupStatus)
      requires Valid()
      modifies this`users
      ensures Valid()
      ensures (status, users) == Accounts.Signup(old(users), rawName, rawPassword)
    {
      var r := Accounts.Signup(users, rawName, rawPassword);
      SignupKeepsAccounts(users, rawName, rawPassword);
      status, users := r.0, r.1;
    }

    /** The login button handler; on success it enters the app through `initialPopulate`. */
    method Login(rawName: string, rawPassword: string, service: Service) returns (entry: Option<Screen>)
      requires Valid()
      modifies this`currentUser, this`viewingFavorites
      ensures Valid()
      ensures entry.None? <==> LoginAs(users, rawName, rawPassword).None?
      ensures entry.None? ==> currentUser == old(currentUser) && viewingFavorites == old(viewingFavorites)
      ensures entry.Some? ==>
        && currentUser == LoginAs(users, rawName, rawPassword)
        && IsLoggedIn() && !viewingFavorites
        && entry.value == Displayed(Suggestions(service), false)
    {
      var name := LoginAs(users, rawName, rawPassword);
      if name.None? {
        return None;
      }
      StartSession(name.value);
      var screen := InitialPopulate(service);
      entry := Some(screen);
    }

    /** `localStorage.setItem("currentUser", name)` for an account that exists. */
    method StartSession(name: string)
      requires Valid() && Registered(users, name)
      modifies this`currentUser
      ensures Valid() && IsLoggedIn()
      ensures currentUser == Some(name)
    {
      currentUser := Some(name);
    }

    /** The logout button handler. */
    method Logout()
      requires Valid()
      modifies this`currentUser
      ensures Valid()
      ensures currentUser == None && !IsLoggedIn()
    {
      currentUser := None;
    }

    /** `displayRecipes(meals)`: one card per record with a truthy id, button chosen by the flag. */
    method DisplayRecipes(meals: seq<Meal>) returns (screen: Screen)
      ensures screen == Displayed(meals, viewingFavorites)
    {
      if meals == [] {
        return NoMealsFound;
      }
      var cards: seq<Card> := [];
      for i := 0 to |meals|
        invariant cards == CardsFor(meals[..i], ActionFor(viewingFavorites))
      {
        CardsForConcat(meals[..i], [meals[i]], ActionFor(viewingFavorites));
        assert meals[..i + 1] == meals[..i] + [meals[i]];
        assert [meals[i]][1..] == [];
        if HasId(meals[i]) {
          cards := cards + [Card(meals[i], if viewingFavorites then Remove else Favorite)];
        }
      }
      assert meals[..|meals|] == meals;
      screen := Grid(cards);
    }

    /** `initialPopulate()`: back to browsing, showing the suggestion pool. */
    method InitialPopulate(service: Service) returns (screen: Screen)
      modifies this`viewingFavorites
      ensures !viewingFavorites
      ensures screen == Displayed(Suggestions(service), false)
    {
      viewingFavorites := false;
      var general := service.searchByName("");
      var naija := NigerianByName(service.nigerianArea, "");
      screen := DisplayRecipes(SuggestionPool(general, naija));
    }

    /**
     * `fetchRecipes(query)`: merge both searches by id; an empty merge falls
     * back to the suggestion pool. `merged` is `Array.from(map.values())`.
     */
    method FetchRecipes(query: string, service: Service) returns (merged: seq<Meal>, outcome: SearchOutcome)
      modifies this`viewingFavorites
      ensures IsMergeOf(merged, Arrivals(service, query))
      ensures merged == [] <==> forall j :: 0 <= j < |Arrivals(service, query)| ==> !HasId(Arrivals(service, query)[j])
      ensures merged == [] ==> outcome == Suggested(Displayed(Suggestions(service), false)) && !viewingFavorites
      ensures merged != [] ==>
        outcome == Found(Displayed(merged, old(viewingFavorites))) && viewingFavorites == old(viewingFavorites)
    {
      var fromMealDB := service.searchByName(query);
      var fromNaija := NigerianByName(service.nigerianArea, query);
      merged := MergeById(fromMealDB + fromNaija);
      if merged == [] {
        var screen := InitialPopulate(service);
        return merged, Suggested(screen);
      }
      var screen := DisplayRecipes(merged);
      outcome := Found(screen);
    }

    /** `handleSearch()`: a trimmed non-empty query searches, an empty one shows suggestions. */
    method HandleSearch(rawQuery: string, service: Service) returns (outcome: SearchOutcome)
      modifies this`viewingFavorites
      ensures !viewingFavorites
      ensures Trim(rawQuery) == "" ==> outcome == Suggested(Displayed(Suggestions(service), false))
      ensures Trim(rawQuery) != "" ==>
        (outcome.Suggested? <==>
          forall j :: 0 <= j < |Arrivals(service, Trim(rawQuery))| ==> !HasId(Arrivals(service, Trim(rawQuery))[j]))
      ensures outcome.Suggested? ==> outcome.screen == Displayed(Suggestions(service), false)
      ensures outcome.Found? ==>
        exists merged :: IsMergeOf(merged, Arrivals(service, Trim(rawQuery))) && outcome.screen == Displayed(merged, false)
    {
      viewingFavorites := false;
      var query := Trim(rawQuery);
      if query != "" {
        var merged;
        merged, outcome := FetchRecipes(query, service);
      } else {
        var screen := InitialPopulate(service);
        outcome := Suggested(screen);
      }
    }

    /** `handleMealTypeFilter()` with `fetchByMealType(type)` for a chosen type. */
    method HandleMealTypeFilter(mealType: string, service: Service) returns (screen: Screen)
      modifies this`viewingFavorites
      ensures !viewingFavorites
      ensures mealType == "" ==> screen == Displayed(Suggestions(service), false)
      ensures mealType != "" && Gathered(MealTypeTags(mealType), service.category).None? ==> screen == LoadFailed
      ensures mealType != "" && Gathered(MealTypeTags(mealType), service.category).Some? ==>
        screen == Displayed(Gathered(MealTypeTags(mealType), service.category).value
                            + service.nigerianArea[..Min(6, |service.nigerianArea|)], false)
    {
      viewingFavorites := false;
      if mealType != "" {
        var meals := FetchByMealType(mealType, service.category, NigerianByName(service.nigerianArea, ""));
        if meals.None? {
          screen := LoadFailed;
        } else {
          screen := DisplayRecipes(meals.value);
        }
      } else {
        screen := InitialPopulate(service);
      }
    }

    /** `addToFavorites(id)`; `added` tells which notice is shown. */
    method AddToFavorites(id: string) returns (added: bool)
      requires Valid()
      modifies this`favorites
      ensures Valid()
      ensures added <==> id !in old(favorites)
      ensures favorites == WithAdded(old(favorites), id)
    {
      AddKeepsNoDuplicates(favorites, id);
      added := id !in favorites;
      if added {
        favorites := favorites + [id];
      }
    }

    /**
     * `loadFavorites()`: switch to the favorites view and look the stored ids
     * up one at a time; `asked` lists the lookups made.
     */
    method LoadFavorites(lookup: string -> Option<Meal>) returns (screen: Screen, asked: seq<string>)
      modifies this`viewingFavorites
      ensures viewingFavorites
      ensures asked == favorites
      ensures screen == if favorites == [] then NoFavoritesYet else Displayed(Resolved(favorites, lookup), true)
    {
      viewingFavorites := true;
      if favorites == [] {
        return NoFavoritesYet, [];
      }
      var meals;
      meals, asked := ResolveAll(favorites, lookup);
      screen := DisplayRecipes(meals);
    }

    /**
     * `removeFromFavorites(id)`: drop every entry equal to `id` once trimmed,
     * then reload the favorites view if it is the one on screen.
     */
    method RemoveFromFavorites(id: string, lookup: string -> Option<Meal>) returns (refreshed: Option<Screen>, asked: seq<string>)
      requires Valid()
      modifies this`favorites, this`viewingFavorites
      ensures Valid()
      ensures favorites == WithoutTrimmed(old(favorites), id)
      ensures viewingFavorites == old(viewingFavorites)
      ensures !viewingFavorites ==> refreshed.None? && asked == []
      ensures viewingFavorites ==>
        && asked == favorites
        && refreshed == Some(if favorites == [] then NoFavoritesYet else Displayed(Resolved(favorites, lookup), true))
    {
      RemoveKeepsNoDuplicates(favorites, id);
      favorites := WithoutTrimmed(favorites, id);
      refreshed, asked := None, [];
      if viewingFavorites {
        var screen;
        screen, asked := LoadFavorites(lookup);
        refreshed := Some(screen);
      }
    }

    /** `handleToggleFavorites()`: leave the favorites view (`showMainView`) or enter it. */
    method HandleToggleFavorites(service: Service) returns (screen: Screen, asked: seq<string>)
      modifies this`viewingFavorites
      ensures viewingFavorites == !old(viewingFavorites)
      ensures old(viewingFavorites) ==> screen == Displayed(Suggestions(service), false) && asked == []
      ensures !old(viewingFavorites) ==>
        && asked == favorites
        && screen == (if favorites == [] then NoFavoritesYet else Displayed(Resolved(favorites, service.lookup), true))
    {
      if viewingFavorites {
        screen := InitialPopulate(service);
        asked := [];
      } else {
        screen, asked := LoadFavorites(service.lookup);
      }
    }
  }

  /**
   * Stored ids ["52772", "52773"] where the lookup of "52773" fails: the
   * favorites view shows exactly one card, for "52772", with a Remove button.
   */
  lemma OneFailedLookupOneCard(lookup: string -> Option<Meal>, meal: Meal)
    requires lookup("52772") == Some(meal) && meal.id == "52772"
    requires lookup("52773") == None
    ensures Displayed(Resolved(["52772", "52773"], lookup), true) == Grid([Card(meal, Remove)])
  {
    var ids := ["52772", "52773"];
    assert ids[..1] == ["52772"];
    assert ids[..1][..0] == [];
    assert Resolved(ids, lookup) == [meal];
    assert [meal][1..] == [];
  }
}
