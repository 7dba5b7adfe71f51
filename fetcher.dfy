/** The recipe fetcher (`OnlineRecipeFetcher` in cookbook.py): turns the
    `meals` list of a TheMealDB search response into uniform recipe records.
    The HTTP request itself is not modelled: a request's outcome is a
    `Response`, either a failure of some kind or the decoded JSON body. */
module Fetcher {
  import opened PyText

  /** One match object of the response: field name to string or JSON null.
      A field the object does not carry is absent from the map. */
  type Meal = map<string, Option<string>>

  /** A normalised recipe. `name` and `category` may be `None`, because
      `meal.get(key, default)` passes a field that is present but null
      through unchanged. */
  datatype Record = Record(
    name: Option<string>,
    ingredients: seq<string>,
    instructions: string,
    category: Option<string>)

  /** The exception classes the fetcher tells apart; all of them end in `[]`. */
  datatype Failure = Timeout | ConnectionError | RequestError | UnknownError

  /** What one request yields: a failure, or the body's `meals` field, where
      `None` stands for a falsy body, a missing field or a null list. */
  datatype Response = Failed(failure: Failure) | Body(meals: Option<seq<Meal>>)

  /** TheMealDB carries ingredient and measure fields for slots 1 to 20. */
  const FirstSlot: nat := 1
  const MaxSlots: nat := 20

  const NameKey: string := "strMeal"
  const InstructionsKey: string := "strInstructions"
  const CategoryKey: string := "strCategory"

  const UnknownName: string := "未知食谱"
  const NoInstructions: string := "无详细步骤。"
  const UnknownCategory: string := "未知分类"

  /** `meal.get(key)`: an absent field reads as `None`, like a null one. */
  function Get(meal: Meal, key: string): Option<string>
  {
    if key in meal then meal[key] else None
  }

  /** `meal.get(key, default)`: the default stands in only for an absent
      field; a present null stays `None`. */
  function GetOr(meal: Meal, key: string, default: string): Option<string>
  {
    if key in meal then meal[key] else Some(default)
  }

  /** `f'strIngredient{i}'` */
  function IngredientKey(i: nat): string
  {
    "strIngredient" + Decimal(i)
  }

  /** `f'strMeasure{i}'` */
  function MeasureKey(i: nat): string
  {
    "strMeasure" + Decimal(i)
  }

  /** Distinct slot numbers read distinct ingredient fields. */
  lemma IngredientKeysDistinct(i: nat, j: nat)
    requires i != j
    ensures IngredientKey(i) != IngredientKey(j)
  {
    if IngredientKey(i) == IngredientKey(j) {
      assert IngredientKey(i)[13..] == Decimal(i);
      assert IngredientKey(j)[13..] == Decimal(j);
      DecimalInjective(i, j);
    }
  }

  /** One ingredient line: `f"{measure.strip()} {ingredient.strip()}"` when
      the measure is a non-blank string, else `ingredient.strip()`. */
  function FormatEntry(ingredient: string, measure: Option<string>): string
    requires Strip(ingredient) != []
  {
    if NonBlank(measure) then Strip(measure.value) + " " + Strip(ingredient)
    else Strip(ingredient)
  }

  /** An ingredient line is never empty, has no surrounding whitespace and
      ends with the stripped ingredient; a non-blank measure comes first,
      stripped and followed by one space, and otherwise the line is the
      stripped ingredient alone. */
  lemma FormatEntryShape(ingredient: string, measure: Option<string>)
    requires Strip(ingredient) != []
    ensures var r, ing := FormatEntry(ingredient, measure), Strip(ingredient);
              && |r| >= |ing| > 0
              && r[|r| - |ing|..] == ing
              && !IsSpace(r[0]) && !IsSpace(r[|r| - 1])
    ensures var r, ing := FormatEntry(ingredient, measure), Strip(ingredient);
              NonBlank(measure) ==>
                var m := Strip(measure.value);
                |r| == |m| + 1 + |ing| && r[..|m|] == m && r[|m|] == ' '
    ensures !NonBlank(measure) ==> FormatEntry(ingredient, measure) == Strip(ingredient)
  {
    StripShape(ingredient);
    if measure.Some? {
      StripShape(measure.value);
    }
  }

  /** The ingredient and measure fields of one slot, as `meal.get` reads
      them. */
  datatype Slot = Slot(ingredient: Option<string>, measure: Option<string>)

  /** Slot `i` of a meal, numbered from 1 as in the field names. */
  function SlotAt(meal: Meal, i: nat): Slot
  {
    Slot(Get(meal, IngredientKey(i)), Get(meal, MeasureKey(i)))
  }

  /** Slots 1 to 20 in order: element `k` is slot `k + 1`. */
  function Slots(meal: Meal): seq<Slot>
  {
    seq(MaxSlots, k requires 0 <= k < MaxSlots => SlotAt(meal, k + 1))
  }

  /** The slot contributes an entry: its ingredient is a string holding a
      non-whitespace character (`ingredient and ingredient.strip()`). */
  predicate Filled(slot: Slot)
  {
    NonBlank(slot.ingredient)
  }

  /** The ingredient line of a filled slot. */
  function Entry(slot: Slot): string
    requires Filled(slot)
  {
    NonBlankIsStripNonEmpty(slot.ingredient);
    FormatEntry(slot.ingredient.value, slot.measure)
  }

  /** The entries of the leading run of filled slots: the first slot that is
      not filled ends the list, whatever follows it. */
  function Entries(slots: seq<Slot>): seq<string>
  {
    if slots == [] || !Filled(slots[0]) then []
    else [Entry(slots[0])] + Entries(slots[1..])
  }

  /** The ingredient list of a meal. */
  function Ingredients(meal: Meal): seq<string>
  {
    Entries(Slots(meal))
  }

  lemma {:induction false} EntriesShape(slots: seq<Slot>)
    ensures |Entries(slots)| <= |slots|
    ensures forall k :: 0 <= k < |Entries(slots)| ==> Filled(slots[k])
    ensures forall k :: 0 <= k < |Entries(slots)| ==> Entries(slots)[k] == Entry(slots[k])
    ensures |Entries(slots)| < |slots| ==> !Filled(slots[|Entries(slots)|])
  {
    if slots != [] && Filled(slots[0]) {
      EntriesShape(slots[1..]);
      var r, rest := Entries(slots), Entries(slots[1..]);
      assert r == [Entry(slots[0])] + rest;
      forall k | 0 < k < |r|
        ensures Filled(slots[k]) && r[k] == Entry(slots[k])
      {
        assert slots[1..][k - 1] == slots[k];
      }
    }
  }

  /** `n` is the length of the run of filled slots that starts at slot 1. */
  ghost predicate FilledRun(meal: Meal, n: nat)
  {
    && n <= MaxSlots
    && (forall i: nat :: 1 <= i <= n ==> Filled(SlotAt(meal, i)))
    && (n < MaxSlots ==> !Filled(SlotAt(meal, n + 1)))
  }

  /** The ingredient list has at most 20 entries, entry `j` is the line of
      slot `j + 1`, and its length is the run of filled slots from slot 1:
      a blank or absent slot ends the list even if later slots are filled. */
  lemma IngredientsAreFilledRun(meal: Meal)
    ensures |Ingredients(meal)| <= MaxSlots
    ensures forall j :: 0 <= j < |Ingredients(meal)| ==>
              Filled(SlotAt(meal, j + 1)) && Ingredients(meal)[j] == Entry(SlotAt(meal, j + 1))
    ensures FilledRun(meal, |Ingredients(meal)|)
  {
    var slots := Slots(meal);
    EntriesShape(slots);
    var n := |Ingredients(meal)|;
    forall i: nat | 1 <= i <= n
      ensures Filled(SlotAt(meal, i))
    {
      assert slots[i - 1] == SlotAt(meal, i);
    }
    if n < MaxSlots {
      assert slots[n] == SlotAt(meal, n + 1);
    }
  }

  /** The filled run from slot 1 has only one length, so it fixes the
      length of the ingredient list. */
  lemma FilledRunUnique(meal: Meal, n: nat)
    requires FilledRun(meal, n)
    ensures n == |Ingredients(meal)|
  {
    IngredientsAreFilledRun(meal);
  }

  /** A slot that is not filled cuts the list before it. */
  lemma UnfilledSlotTruncates(meal: Meal, k: nat)
    requires 1 <= k <= MaxSlots && !Filled(SlotAt(meal, k))
    ensures |Ingredients(meal)| < k
  {
    IngredientsAreFilledRun(meal);
  }

  /** The record of one match object, or `None` when building it raises:
      `.replace` on a present but null `strInstructions` fails, and that
      exception discards the whole response. */
  function NormaliseMeal(meal: Meal): (r: Option<Record>)
    ensures r.None? <==> InstructionsKey in meal && meal[InstructionsKey].None?
  {
    var instructions := GetOr(meal, InstructionsKey, NoInstructions);
    if instructions.None? then None
    else Some(Record(
      GetOr(meal, NameKey, UnknownName),
      Ingredients(meal),
      ReplaceCrlf(instructions.value),
      GetOr(meal, CategoryKey, UnknownCategory)))
  }

  /** An absent field gets its placeholder and a present one passes through,
      the instructions only losing the CR of each CR LF. */
  lemma MealRecordFields(meal: Meal)
    requires NormaliseMeal(meal).Some?
    ensures NameKey !in meal ==> NormaliseMeal(meal).value.name == Some(UnknownName)
    ensures NameKey in meal ==> NormaliseMeal(meal).value.name == meal[NameKey]
    ensures CategoryKey !in meal ==> NormaliseMeal(meal).value.category == Some(UnknownCategory)
    ensures CategoryKey in meal ==> NormaliseMeal(meal).value.category == meal[CategoryKey]
    ensures InstructionsKey !in meal ==> NormaliseMeal(meal).value.instructions == NoInstructions
    ensures InstructionsKey in meal ==>
              var s := meal[InstructionsKey].value;
              var t := NormaliseMeal(meal).value.instructions;
              && t == DropCrBeforeLf(s)
              && |t| == |s| - CountCrlf(s)
              && (t == s <==> !HasCrlf(s))
              && (forall c :: c != '\r' ==> multiset(t)[c] == multiset(s)[c])
    ensures NormaliseMeal(meal).value.ingredients == Ingredients(meal)
  {
    if InstructionsKey in meal {
      var s := meal[InstructionsKey].value;
      ReplaceCrlfLength(s);
      ReplaceCrlfIdentity(s);
      ReplaceCrlfDropsOnlyCr(s);
      ReplaceCrlfIsDropCrBeforeLf(s);
    } else {
      assert CountCrlf(NoInstructions) == 0;
      NoCrlfUnchanged(NoInstructions);
    }
  }

  /** The records of a response body: one per match object, in order, or
      none at all when the list is missing or one object makes the
      normaliser raise. */
  function Normalised(meals: Option<seq<Meal>>): seq<Record>
  {
    if meals.None? then []
    else if exists j :: 0 <= j < |meals.value| && NormaliseMeal(meals.value[j]).None? then []
    else seq(|meals.value|, j requires 0 <= j < |meals.value| => NormaliseMeal(meals.value[j]).value)
  }

  /** The records a request yields: none on any failure. */
  function FetchResult(response: Response): seq<Record>
  {
    match response
    case Failed(_) => []
    case Body(meals) => Normalised(meals)
  }

  /** The ingredient loop: walks slots 1 to 20 and stops at the first one
      that is not filled. */
  method BuildIngredients(meal: Meal) returns (ingredients: seq<string>)
    ensures ingredients == Ingredients(meal)
  {
    ingredients := [];
    ghost var slots := Slots(meal);
    var i := FirstSlot;
    while i <= MaxSlots
      invariant 1 <= i <= MaxSlots + 1
      invariant ingredients + Entries(slots[i - 1..]) == Ingredients(meal)
    {
      var ingredient := Get(meal, IngredientKey(i));
      var measure := Get(meal, MeasureKey(i));
      assert slots[i - 1..] == [Slot(ingredient, measure)] + slots[i..];
      if NonBlank(ingredient) {
        NonBlankIsStripNonEmpty(ingredient);
        ingredients := ingredients + [FormatEntry(ingredient.value, measure)];
      } else {
        break;
      }
      i := i + 1;
    }
  }

  /** The loop over the response's match objects. */
  method NormaliseMeals(meals: Option<seq<Meal>>) returns (records: seq<Record>)
    ensures meals.None? ==> records == []
    ensures meals.Some? && (forall j :: 0 <= j < |meals.value| ==> NormaliseMeal(meals.value[j]).Some?) ==>
              |records| == |meals.value|
              && forall j :: 0 <= j < |records| ==> records[j] == NormaliseMeal(meals.value[j]).value
    ensures meals.Some? && (exists j :: 0 <= j < |meals.value| && NormaliseMeal(meals.value[j]).None?) ==>
              records == []
    ensures records == Normalised(meals)
  {
    records := [];
    if meals.None? {
      return;
    }
    var ms := meals.value;
    var i := 0;
    while i < |ms|
      invariant 0 <= i <= |ms|
      invariant forall j :: 0 <= j < i ==> NormaliseMeal(ms[j]).Some?
      invariant |records| == i
      invariant forall j :: 0 <= j < i ==> records[j] == NormaliseMeal(ms[j]).value
    {
      var meal := ms[i];
      var ingredients := BuildIngredients(meal);
      var instructions := GetOr(meal, InstructionsKey, NoInstructions);
      if instructions.None? {
        records := [];
        return;
      }
      records := records + [Record(
        GetOr(meal, NameKey, UnknownName),
        ingredients,
        ReplaceCrlf(instructions.value),
        GetOr(meal, CategoryKey, UnknownCategory))];
      i := i + 1;
    }
  }

  /** `fetch_online_recipes`: the keyword search. Every failure yields no
      records (the error dialog it shows is not modelled). */
  method FetchOnlineRecipes(response: Response) returns (records: seq<Record>)
    ensures response.Failed? ==> records == []
    ensures records == FetchResult(response)
  {
    match response
    case Failed(_) =>
      records := [];
    case Body(meals) =>
      records := NormaliseMeals(meals);
  }

  /** `fetch_online_recipes_by_first_letter`: the same normalisation for
      one letter of the alphabet sweep; failures are swallowed into `[]`. */
  method FetchOnlineRecipesByFirstLetter(response: Response) returns (records: seq<Record>)
    ensures response.Failed? ==> records == []
    ensures records == FetchResult(response)
  {
    match response
    case Failed(_) =>
      records := [];
    case Body(meals) =>
      records := NormaliseMeals(meals);
  }
}
