/** The ingredient list of `showMealDetails` (script.js lines 327-338). */
module Details {
  import opened Wrappers
  import opened Text
  import opened Api

  /** One `<li>${ingredient} - ${measure || ""}</li>` line. */
  datatype Line = Line(ingredient: string, measure: string)

  /** Field `<name><i>` of a record, for slots numbered from 1; absent outside the sequence. */
  function Slot(fields: seq<Option<string>>, i: nat): Option<string> {
    if 1 <= i <= |fields| then fields[i - 1] else None
  }

  /** The line slot `i` contributes, if its ingredient is truthy and not blank. */
  function SlotLine(meal: Meal, i: nat): (r: Option<Line>)
    ensures r.Some? <==> Slot(meal.ingredients, i).Some? && Trim(Slot(meal.ingredients, i).value) != ""
    ensures r.Some? ==> r.value.ingredient == Slot(meal.ingredients, i).value
    ensures r.Some? && Slot(meal.measures, i).None? ==> r.value.measure == ""
    ensures r.Some? && Slot(meal.measures, i).Some? ==> r.value.measure == Slot(meal.measures, i).value
  {
    var ingredient := Slot(meal.ingredients, i);
    var measure := Slot(meal.measures, i);
    if ingredient.Some? && Trim(ingredient.value) != "" then
      Some(Line(ingredient.value, if measure.Some? then measure.value else ""))
    else None
  }

  /** The lines of slots 1 to `n`, in slot order. */
  function LinesUpTo(meal: Meal, n: nat): (lines: seq<Line>)
    ensures |lines| <= n
    ensures forall l :: l in lines ==> Trim(l.ingredient) != ""
  {
    if n == 0 then []
    else LinesUpTo(meal, n - 1) + (if SlotLine(meal, n).Some? then [SlotLine(meal, n).value] else [])
  }

  lemma {:induction false} LinesUpToGrows(meal: Meal, m: nat, n: nat)
    requires m <= n
    ensures LinesUpTo(meal, m) <= LinesUpTo(meal, n)
  {
    if m < n {
      LinesUpToGrows(meal, m, n - 1);
    }
  }

  /**
   * Every slot with a non-blank ingredient has its line, right after the
   * lines of the slots before it: one line per such slot, in slot order.
   */
  lemma SlotLinePosition(meal: Meal, i: nat, n: nat)
    requires 1 <= i <= n && SlotLine(meal, i).Some?
    ensures |LinesUpTo(meal, i - 1)| < |LinesUpTo(meal, n)|
    ensures LinesUpTo(meal, n)[|LinesUpTo(meal, i - 1)|] == SlotLine(meal, i).value
  {
    LinesUpToGrows(meal, i, n);
  }

  /** A slot with a line makes the list of any longer prefix non-empty. */
  lemma LineMakesNonEmpty(meal: Meal, i: nat, n: nat)
    requires 1 <= i <= n
    ensures SlotLine(meal, i).Some? ==> LinesUpTo(meal, n) != []
  {
    if SlotLine(meal, i).Some? {
      SlotLinePosition(meal, i, n);
    }
  }

  /** When every slot up to `n` is blank, there are no lines. */
  lemma {:induction false} AllBlankNoLines(meal: Meal, n: nat)
    ensures (forall i :: 1 <= i <= n ==> SlotLine(meal, i).None?) ==> LinesUpTo(meal, n) == []
  {
    if n > 0 {
      AllBlankNoLines(meal, n - 1);
    }
  }

  /** The list is empty ("No ingredients listed") exactly when every slot is blank. */
  lemma NoLinesIffAllBlank(meal: Meal, n: nat)
    ensures LinesUpTo(meal, n) == [] <==> forall i :: 1 <= i <= n ==> SlotLine(meal, i).None?
  {
    AllBlankNoLines(meal, n);
    forall i | 1 <= i <= n
      ensures LinesUpTo(meal, n) == [] ==> SlotLine(meal, i).None?
    {
      LineMakesNonEmpty(meal, i, n);
    }
  }

  /** The `for (let i = 1; i <= 20; i++)` loop that builds the ingredient list. */
  method IngredientLines(meal: Meal) returns (lines: seq<Line>)
    ensures |lines| <= 20
    ensures lines == LinesUpTo(meal, 20)
  {
    lines := [];
    for i := 1 to 21
      invariant lines == LinesUpTo(meal, i - 1)
    {
      var ingredient := Slot(meal.ingredients, i);
      var measure := Slot(meal.measures, i);
      if ingredient.Some? && Trim(ingredient.value) != "" {
        lines := lines + [Line(ingredient.value, if measure.Some? then measure.value else "")];
      }
    }
  }
}
