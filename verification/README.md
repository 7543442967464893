# Recipe Finder client logic, modelled in Dafny

Recipe Finder is a browser page (`script.js`) that keeps a local account
table, lets a logged-in user search TheMealDB together with its Nigerian
cuisine list, filter by meal type, open a recipe's details and bookmark
favorites in `localStorage`. Most of the file is DOM and `fetch` glue. This
project models the data logic inside it, with the remote service's answers
and the browser storage turned into plain inputs and state:

- `Text`: JavaScript's `trim` (its full white-space set), `toLowerCase`
  (ASCII letters) and `includes`.
- `Seqs`: order-preserving `filter` and duplicate-freedom.
- `Api`: the recipe record, the service as a value (`Service`: name search,
  the Nigerian list, category lists, lookup by id) and the client-side
  Nigerian name filter.
- `Search`: the suggestion pool of `initialPopulate` and the `Map` merge of
  `fetchRecipes`. A merge is characterised by `IsMergeOf`: distinct ids, no
  falsy id, every truthy id present, keys in first-arrival order, each value
  the last record that arrived with its key. `MergeIsUnique` shows that this
  characterisation leaves exactly one possible result.
- `MealTypes`: the meal-type to category-tag mapping and the loop that
  concatenates the category results.
- `Cards`: which records become cards in `displayRecipes` and which button
  they carry.
- `Details`: the ingredient lines of `showMealDetails`.
- `Favorites`: add, trimmed remove and the sequential lookups of
  `loadFavorites`, as functions on the stored list.
- `Accounts`: signup and login against the username → password table.
- `App`: class `RecipeFinder` holding `favorites`, `users`, `currentUser`
  and the global `viewingFavorites` flag, with one method per handler.
  Each method's `ensures` ties the new state and the screen to the functions
  above. `Valid()` is preserved: no duplicate favorites, no empty name or
  password in the account table, and the session user is a stored account.

A record's missing or null `idMeal`/`strMeal` is the empty string, since the
code treats every falsy value alike. Ingredient and measure slot `i` are
element `i - 1` of two sequences of optional strings.

Behaviour of `script.js` worth noting:

- A failed login leaves `currentUser` as it was.
- `fetchByMealType` calls `fetch` itself and catches only around the whole
  loop. A thrown fetch abandons the whole filter view and shows the failure
  notice (`Screen.LoadFailed`).
- `Promise.all` keeps its array order, so the merge always sees the general
  list first and the Nigerian list second. The Nigerian copy of a shared id
  therefore always wins (`Search.NigerianCopyWins`).
- When a search finds nothing, the "No meals found" notice is overwritten by
  `initialPopulate`. What stays on screen is the suggestion pool, which the
  model returns as `SearchOutcome.Suggested`.

## Model

| member | source | states |
|---|---|---|
| `Text.TrimStart` | script.js:80 | the result is a suffix of the input, everything dropped is JavaScript white space, and the result does not start with white space |
| `Text.TrimEnd` | script.js:80 | the result is a prefix of the input, everything dropped is white space, and the result does not end with white space |
| `Text.Trim` | script.js:80-81 | `trim()` is never longer than its input and has no white space at either end |
| `Text.TrimKeepsCore` | script.js:80-81 | `trim()` returns a contiguous part of the input with only white space around it |
| `Text.TrimIdempotent` | script.js:383 | trimming a trimmed string changes nothing |
| `Text.TrimIgnoresPadding` | script.js:383-387 | adding white space at either end does not change the trimmed form |
| `Text.ToLower` | script.js:133-134 | `toLowerCase` keeps the length and lowercases each character on its own (ASCII letters) |
| `Text.ContainsAt` | script.js:134 | `includes` finds the query wherever it occurs |
| `Text.ContainsWitness` | script.js:134 | whenever `includes` (`Text.Contains`) holds, the query occurs in the name at the returned position; with `ContainsAt`, `Contains` holds exactly when the query occurs somewhere |
| `Text.ContainsShorter` | script.js:134 | no string includes a longer one |
| `Seqs.Filter` | script.js:134 | `filter` keeps exactly the elements that pass the test, and never adds elements |
| `Seqs.FilterConcat` | script.js:387 | filtering distributes over concatenation, so kept elements stay in their original order |
| `Api.NigerianByName` | script.js:127-141 | an empty query returns the whole Nigerian list; otherwise a record is kept exactly when its lowercased name includes the lowercased query |
| `Api.NigerianByNameKeepsOrder` | script.js:134 | the name filter keeps the service's order |
| `Api.EmptyQueryMatchesAll` | script.js:132-135 | with an empty query the name test would also keep every record, so the `if (query)` guard only skips work |
| `Api.LongQueryMatchesNothing` | script.js:134 | a query longer than every name finds no Nigerian record (ASCII case mapping, which keeps lengths) |
| `Search.SuggestionPool` | script.js:178 | the pool is the first min(9, n) general records followed by the first min(6, m) Nigerian ones, at most 15 in all |
| `Search.BuildMap` | script.js:198-199 | after the `forEach`, the Map's keys are exactly the truthy ids that arrived, each holds the last record with its id, and the key order is first-arrival order |
| `Search.MergeEmptyIff` | script.js:202 | the merged list is empty exactly when no arrival had a truthy id |
| `Search.MergeById` | script.js:197-200 | the Map's values hold distinct ids and no falsy id, contain every truthy id that arrived, take first-arrival order and last-arrival records, and are empty exactly when no record had a truthy id |
| `Search.LastIndexAppend` | script.js:199 | in general-then-Nigerian order, the last record with an id is the last Nigerian one if there is one, else the last general one |
| `Search.FirstIndexAppend` | script.js:199 | in general-then-Nigerian order, an id first arrives at its first general position, else at its first Nigerian one |
| `Search.NigerianCopyWins` | script.js:199 | when both lists carry an id, the merged record is the Nigerian copy |
| `Search.MergeIsUnique` | script.js:198-200 | any two results meeting the merge contract are equal, so the contract describes the Map completely |
| `MealTypes.MealTypeTags` | script.js:221-236 | Breakfast gives 1 tag, Lunch and Dinner give 3 each, and any other value gives none |
| `MealTypes.Gathered` | script.js:238-244 | the category results fail exactly when some tag's fetch throws |
| `MealTypes.GatheredConcat` | script.js:240-243 | results are concatenated in tag order: gathering a split tag list joins the two parts' results |
| `MealTypes.GatheredSnoc` | script.js:240-243 | one more tag adds its list, adds nothing for `meals: null`, or aborts on a throw |
| `MealTypes.LunchInTagOrder` | script.js:224-229 | Lunch shows the Chicken, then Beef, then Pasta results |
| `MealTypes.FetchByMealType` | script.js:238-254 | the failure path is taken exactly when a tag's fetch throws; otherwise the result is the tag results in order, then at most 6 Nigerian records |
| `Cards.CardsFor` | script.js:268-291 | every card is for a record of the input with a truthy id, and carries the given button |
| `Cards.Displayed` | script.js:258-291 | the placeholder appears exactly for an empty input; otherwise the grid shows exactly the records with a truthy id, in input order, and every card's button follows the `viewingFavorites` flag |
| `Cards.CardsForConcat` | script.js:268 | cards are made record by record, in input order |
| `Cards.CardsShowValidMealsInOrder` | script.js:268-269 | the cards show exactly the records with a truthy id, in input order |
| `Details.SlotLine` | script.js:333-337 | a slot gives a line exactly when its ingredient is present and non-blank after trim; the line shows the untrimmed ingredient, and the measure when present, "" when missing |
| `Details.LinesUpTo` | script.js:332-338 | the first n slots give at most n lines, none with a blank ingredient |
| `Details.SlotLinePosition` | script.js:332-338 | each non-blank slot's line comes right after the lines of the slots before it: one line per slot, in slot order |
| `Details.NoLinesIffAllBlank` | script.js:347 | the list is empty ("No ingredients listed") exactly when every slot is blank |
| `Details.IngredientLines` | script.js:331-338 | the loop over slots 1 to 20 yields the slot lines in slot order, at most 20 |
| `Favorites.WithAdded` | script.js:370-379 | the id is stored afterwards, the old list is a prefix of the new one with at most one more entry, and the list is unchanged exactly when the id was already there |
| `Favorites.AddKeepsNoDuplicates` | script.js:372-374 | adding never creates a duplicate |
| `Favorites.AddTwiceStoresOnce` | script.js:370-379 | adding the same id twice equals adding it once and stores it exactly once |
| `Favorites.WithoutTrimmed` | script.js:382-388 | after a remove, no entry's trimmed form equals the trimmed target, and every entry that did not match survives |
| `Favorites.RemoveKeepsOrder` | script.js:387 | the surviving entries keep their relative order |
| `Favorites.RemoveIgnoresPadding` | script.js:383 | white space around the target does not change what is removed |
| `Favorites.RemoveKeepsNoDuplicates` | script.js:387-388 | removing never creates a duplicate |
| `Favorites.RemoveAbsentIsNoOp` | script.js:387 | removing an id that matches nothing leaves the list unchanged |
| `Favorites.Resolved` | script.js:420-424 | the collected records are no more than the ids, and each is the lookup result of a stored id |
| `Favorites.ResolvedAllFound` | script.js:421-423 | when every lookup succeeds, record n is the lookup of id n |
| `Favorites.ResolvedSkipsFailures` | script.js:423 | an id whose lookup fails contributes nothing and does not disturb the others |
| `Favorites.ResolveAll` | script.js:420-424 | the loop looks up each stored id once, in stored order, and collects the successes |
| `Accounts.RegisteredIsMembership` | script.js:85 | in a table built by signups, `users[name]` is truthy exactly when the name is stored |
| `Accounts.Signup` | script.js:79-91 | blank fields give "Please fill all fields" and an existing user gives "User already exists", both leaving the table unchanged; success adds exactly the trimmed pair |
| `Accounts.SignupKeepsAccounts` | script.js:84-87 | a signup never changes an existing account and keeps every name and password non-empty |
| `Accounts.LoginAs` | script.js:93-99 | login succeeds exactly when the trimmed name is registered with exactly the trimmed password |
| `Accounts.SignupThenLogin` | script.js:79-100 | right after a successful signup, logging in with the same credentials succeeds |
| `Accounts.SignupAsWritten` | script.js:84-86 | the handler as written leaves the table unchanged on an error and adds exactly the trimmed pair on success; for a name outside the inherited members it gives exactly the intended check's status and table |
| `Accounts.InheritedNameAlwaysRefused` | script.js:85 | as written, an inherited member's name with a non-blank password is refused as an existing user, whatever the table holds |
| `Accounts.InheritedNameRefused` | script.js:85 | on an empty table, the handler as written refuses "constructor" as an existing user; the intended check accepts it |
| `App.Suggestions` | script.js:172-178 | the suggestion pool holds at most 15 records |
| `App.RecipeFinder.constructor` | script.js:84 | empty storage means no accounts (script.js:84), no favorites (script.js:362), no session (script.js:26) and browsing mode (script.js:13) |
| `App.RecipeFinder.IsLoggedIn` | script.js:25-27 | logged in only with a session marker, and, in a valid state, exactly then |
| `App.RecipeFinder.Signup` | script.js:79-91 | the table afterwards is the one the signup rules give, and the state stays valid |
| `App.RecipeFinder.Login` | script.js:93-104 | bad credentials leave the session and view unchanged; good ones set the session to the trimmed name, switch to browsing and show the suggestion pool |
| `App.RecipeFinder.StartSession` | script.js:100 | storing the session marker for a registered name logs that user in and keeps the state valid |
| `App.RecipeFinder.Logout` | script.js:106-109 | the session marker is cleared, so the user is no longer logged in, and the state stays valid |
| `App.RecipeFinder.DisplayRecipes` | script.js:257-307 | the `forEach` produces the screen `Cards.Displayed` gives for the current flag |
| `App.RecipeFinder.InitialPopulate` | script.js:156-186 | switches to browsing and shows the suggestion pool |
| `App.RecipeFinder.FetchRecipes` | script.js:190-217 | the Map's values are the merge of general-then-Nigerian results; an empty merge shows the suggestion pool, otherwise the merge is shown with the flag unchanged |
| `App.RecipeFinder.HandleSearch` | script.js:449-465 | switches to browsing; a blank query shows suggestions, and a non-blank one falls back to the suggestion pool exactly when no result has a truthy id; found results are a merge of both searches |
| `App.RecipeFinder.HandleMealTypeFilter` | script.js:467-483 | switches to browsing; no type shows suggestions, a failed category fetch shows the failure notice, otherwise the tag results and up to 6 Nigerian records |
| `App.RecipeFinder.AddToFavorites` | script.js:370-379 | the stored list becomes `WithAdded`; the "added" notice appears exactly when the id was absent; no duplicates |
| `App.RecipeFinder.LoadFavorites` | script.js:401-432 | enters the favorites view; an empty list shows "No favorites saved yet." with no lookups; otherwise one lookup per stored id, in order, and cards for the records found |
| `App.RecipeFinder.RemoveFromFavorites` | script.js:382-398 | the stored list becomes `WithoutTrimmed`; the favorites view, when on screen, is reloaded from the new list |
| `App.RecipeFinder.HandleToggleFavorites` | script.js:485-491 | flips the view: leaving favorites shows suggestions, entering them loads the favorites view |
| `App.OneFailedLookupOneCard` | script.js:419-425 | stored ids "52772" and "52773" where "52773" fails to load show exactly one card, for "52772", with a Remove button |

## Left out

- Network access: `fetch`, `res.json()`, URL building and the `console` logging. The service is the `Service` value. Its name search and lookup are already fail-soft. The Nigerian list is whatever was fetched, or empty on error. It is assumed to answer the same way throughout one handler.
- All DOM work: `showSection`, the `innerHTML` templates and loading texts, CSS class toggles, event-listener wiring, the modal's open and close, and the direct `card.remove()` in `removeFromFavorites`. The model keeps only which records get a card and with which button (`Screen`).
- `guard()`, `initAppVariables`, `setupAppEventListeners` and the start-up block at the end of the file. They look up DOM elements, register listeners, route between sections and call `initialPopulate`, which is modelled.
- `showDetailsById` and the modal's other fields (name, thumbnail, category, area and instructions with their defaults). Only the ingredient list is modelled, and the record keeps only id, name and the ingredient and measure slots.
- `alert` notices: they appear as the returned status (`SignupStatus`, `added`, `Option`) only.
- `async` concurrency, `Promise.all`, and the race where a late answer overwrites a newer view. Each handler is one sequential step.
- JSON (de)serialisation of storage: the stored values are fields.
- The `catch` blocks of `initialPopulate`, `fetchRecipes` and `loadFavorites` are not modelled. The helpers they call never throw, so those blocks are not reached. The `catch` of `fetchByMealType` is modelled.
- Null entries inside a service list, and non-array `meals` values.
- App.RecipeFinder.Signup: follows the intended check `Accounts.Signup`, not the handler as written. A name inherited from `Object.prototype`, such as "constructor", signs up here, while script.js:85 refuses it with "User already exists" (see Findings). As a consequence the class can also store a "constructor" account and then log in as it, since the stored own key is a string that script.js:97 can match. The program never reaches that session, because script.js:85 never stores the key and script.js:97 then compares the inherited function with the password and refuses.
- Text.ToLower: lowercases ASCII letters only, not the full Unicode case mapping of `toLowerCase`.
- Api.LongQueryMatchesNothing: holds for the ASCII case mapping only. The full `toLowerCase` can lengthen a name (U+0130 becomes two code units), so in the program a longer query can still match.

## Findings

| source | as written | input that shows it | evidently intended | confidence | as-written member | corrected member |
|---|---|---|---|---|---|---|
| script.js:84-85 | `users[username]` reads a parsed plain object, so members inherited from `Object.prototype` count as existing users | signup as "constructor" with any non-blank password on an empty table is refused with "User already exists" | only accounts stored by earlier signups count as existing | high, not executed | `Accounts.SignupAsWritten`, `Accounts.InheritedNameRefused` | `Accounts.Signup`, `Accounts.SignupThenLogin` |
