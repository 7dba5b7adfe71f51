# Online cookbook: recipe normalisation, alphabet sweep and result list

`cookbook.py` is a Tkinter front end to the TheMealDB recipe API. This
project models three parts of it in Dafny and proves what each promises:

- **The normaliser** (`OnlineRecipeFetcher`). It turns every match object
  of a search response into a record with four fields. `name`,
  `instructions` and `category` get placeholders when their field is
  absent. `ingredients` is at most 20 lines built from the numbered
  `strIngredient{i}` / `strMeasure{i}` fields. `instructions` has CR LF
  turned into LF. Any failure yields no records. The code appears twice,
  once for each search, and is modelled once (module `Fetcher`).
- **The alphabet sweep** (`show_all_recipes_from_api`). It runs a
  first-letter search for each of 'a' to 'z' and collects the records in a
  dict keyed by name, so the last record with a name wins. It returns the
  dict's values in first-insertion order (module `Aggregator`).
- **The result list** (`show_recipe_list`). It sorts the records by name
  with Python's stable code-point sort. It lists every record whose name is
  a non-empty string and keeps a name-to-record map for the detail pane
  (module `Presenter`, class `CookbookApp`).

Module `PyText` holds the Python string behaviour these rely on:
- `str.isspace` and `str.strip`;
- `str.replace("\r\n", "\n")`;
- the ordering of `str`;
- `str(int)` inside an f-string.

A JSON object is a `map<string, Option<string>>`. An absent field is
absent from the map; a JSON `null` is `None`. A request's outcome is a
`Response` value, either a failure kind or the body's `meals` list. The
sweep's searches are a function `respond: char -> Response`.

Python semantics kept on purpose:
- `meal.get(key, default)` substitutes the default only for an absent
  field. A field that is present but null stays `None` in the record.
- A present but null `strInstructions` makes `.replace` raise. The
  fetcher's catch-all handler then returns `[]` for the whole response.
- `sorted` with a `None` name among two or more records raises
  `TypeError`. By then the list box and `display_recipes_data` have been
  recreated empty, and they stay empty (`SortRaises`).

## Model

| member | source | states |
|---|---|---|
| PyText.StripShape | cookbook.py:31-33 | `strip()` is empty exactly when the text is all whitespace; otherwise its first and last characters are not whitespace; it is never longer than its input; it is the slice of the text between a whitespace-only prefix and a whitespace-only suffix |
| PyText.NonBlankIsStripNonEmpty | cookbook.py:31 | `v and v.strip()` holds exactly for a string with a non-whitespace character |
| PyText.ReplaceCrlfLength | cookbook.py:40 | the rewrite shortens the text by one character per CR LF pair it replaces |
| PyText.CountCrlfPositive | cookbook.py:40 | a replacement happens exactly when the text contains a CR LF pair |
| PyText.ReplaceCrlfIdentity | cookbook.py:40 | the text is unchanged exactly when it contains no CR LF |
| PyText.ReplaceCrlfDropsOnlyCr | cookbook.py:40 | only carriage returns are removed, one per replacement; every other character keeps its count |
| PyText.ReplaceCrlfIsDropCrBeforeLf | cookbook.py:40 | the left-to-right rewrite equals keeping every character in order except each CR that stands right before an LF |
| PyText.ReplaceCrlfNotIdempotent | cookbook.py:40 | `"\r\r\n"` becomes `"\r\n"`, so the output may still hold CR LF and a second pass changes it again |
| PyText.LexLeTotal | cookbook.py:222 | any two names are comparable under code-point order |
| PyText.LexLeTransitive | cookbook.py:222 | code-point order is transitive |
| PyText.LexLeAntisymmetric | cookbook.py:222 | names that are ordered both ways are equal |
| PyText.Decimal | cookbook.py:29-30 | the rendering of a slot number is non-empty, all decimal digits, one digit exactly below 10, and ends in the last digit |
| PyText.DecimalValue | cookbook.py:29-30 | the rendering of a slot number denotes that number, read most significant digit first, and has no leading zero unless the number is 0 |
| PyText.DecimalInjective | cookbook.py:29-30 | different slot numbers render differently |
| Fetcher.IngredientKeysDistinct | cookbook.py:28-30 | each slot number reads its own `strIngredient` field |
| Fetcher.FormatEntryShape | cookbook.py:33 | an ingredient line is non-empty and has no surrounding whitespace; it ends with the stripped ingredient; with a non-blank measure it is the stripped measure, one space, then the ingredient; otherwise it is the ingredient alone |
| Fetcher.IngredientsAreFilledRun | cookbook.py:26-35 | at most 20 lines; line j comes from slot j+1, which is filled; the count is the run of filled slots from slot 1, so a blank slot ends the list |
| Fetcher.FilledRunUnique | cookbook.py:28-35 | the filled run from slot 1 fixes the number of ingredient lines |
| Fetcher.UnfilledSlotTruncates | cookbook.py:34-35 | an absent or blank ingredient at slot k leaves fewer than k lines, whatever later slots hold |
| Fetcher.BuildIngredients | cookbook.py:26-35 | the slot loop with its `break` builds exactly the ingredient list of the meal |
| Fetcher.NormaliseMeal | cookbook.py:37-42 | normalising a match object fails exactly when `strInstructions` is present and null |
| Fetcher.MealRecordFields | cookbook.py:37-42 | absent name, category and instructions get their placeholders; present ones pass through unchanged, null included; present instructions become exactly the text with each CR that stands before an LF removed, in order, one character shorter per CR LF and unchanged exactly when there is no CR LF; the ingredients are the meal's ingredient list |
| Fetcher.NormaliseMeals | cookbook.py:23-43 | a missing or null `meals` list gives no records; otherwise one record per match object, in order; an object with null instructions discards the whole batch (the same loop is at cookbook.py:69-87) |
| Fetcher.FetchOnlineRecipes | cookbook.py:17-55 | every failure kind yields `[]`; a body yields its normalised records |
| Fetcher.FetchOnlineRecipesByFirstLetter | cookbook.py:64-99 | every failure kind yields `[]`; a body yields its normalised records |
| Aggregator.AsciiLowercaseIsAToZ | cookbook.py:315 | the sweep visits the 26 letters 'a' to 'z' in order |
| Aggregator.ByNameWellFormed | cookbook.py:314-318 | the dict's key order has no repeats and covers exactly the stored keys; each stored record carries its own key as name; there are no more keys than records put |
| Aggregator.ByNameKeys | cookbook.py:318 | the dict's keys are exactly the names that occur among the records |
| Aggregator.ByNameLastWins | cookbook.py:318 | the record stored under a name is the last record with that name |
| Aggregator.ByNameFirstOccurrenceOrder | cookbook.py:318-321 | the values come out in order of each name's first occurrence |
| Aggregator.DedupByName | cookbook.py:314-321 | the result has pairwise distinct names, the same set of names as the input, and is no longer than the input; each record in it is the last record of the input with its name |
| Aggregator.CollectAll | cookbook.py:314-321 | the sweep loop returns the deduplicated values of all records of all 26 searches, with distinct names, the same name set, no more records than received, and each kept record the last one received with its name |
| Presenter.SortByNamePermutes | cookbook.py:222 | sorting keeps the same records, as often as each occurs |
| Presenter.SortByNameSorted | cookbook.py:222 | the sorted list is in ascending code-point order of names |
| Presenter.SortByNameStable | cookbook.py:222 | records with the same name keep their input order |
| Presenter.SortByNameIsTheStableSort | cookbook.py:222 | any arrangement that is sorted and keeps each name's records in input order equals the sort's result |
| Presenter.ListedNamesAreSortedNames | cookbook.py:220-226 | the list box holds the non-empty names of the input, as often as they occur, in ascending code-point order |
| Presenter.DisplayedRecipesMatchList | cookbook.py:219-227 | the map's names are exactly the list box's names; each maps to the last record with that name in sorted order |
| Presenter.ListedNamesDistinct | cookbook.py:220-226 | records with distinct names give a list box with no repeated name |
| Presenter.CookbookApp.constructor | cookbook.py:139-143 | the window starts with no listed names and an empty name map |
| Presenter.CookbookApp.ShowRecipeList | cookbook.py:219-227 | the list box and map are rebuilt from the sorted records; when the sort raises they stay empty and the raise is reported |
| Presenter.CookbookApp.ShowAllRecipesFromApi | cookbook.py:314-329 | the list after the sweep shows the deduplicated records' names, and no name appears twice |

## Left out

- The HTTP request, `raise_for_status` and JSON decoding are not modelled. A request is given as its outcome, a `Response`: either the failure kind or the body's `meals` list. A falsy body, a missing `meals` key (caught as `KeyError`) and a null list all become `Body(None)`, which yields `[]`.
- The error dialogs of `fetch_online_recipes` and the console prints of `fetch_online_recipes_by_first_letter` are not modelled. Only their result `[]` is kept.
- JSON values other than strings and `null` are not modelled: numbers, lists or objects in a field, and a `meals` value that is not a list. Python would raise on `.strip()` or `.replace` for most of these, and the fetcher would return `[]`.
- The Tkinter widgets are not modelled: window layout, labels, titles, scrollbar, loading window, message boxes, the initial message, and `perform_search`. The list box is modelled by the sequence of names it holds and `display_recipes_data` by a map.
- `on_recipe_select` is not modelled.
- `CookbookApp.ShowRecipeList`: the `TypeError` that `sorted` raises is modelled as the `raised` result. It is not modelled as an exception propagating to Tk's callback handler.
- `CookbookApp.ShowAllRecipesFromApi`: both branches at cookbook.py:325-330 call `show_recipe_list` on the same, possibly empty, list, so they are modelled as one call. The message boxes and titles that differ between the branches are not modelled.
- `Presenter.SortKey` maps a `None` name to `""`. That key is only used when the list holds a single record, where `sorted` compares nothing.
- `CookbookApp.constructor`: `__init__` (cookbook.py:105-145) creates neither `recipe_listbox` nor `display_recipes_data`. They first exist in `show_recipe_list` (cookbook.py:211 and 219). The constructor's empty sequence and empty map stand for attributes that do not exist yet.
- Python strings may hold lone surrogates, for example from the JSON escape `"\ud800"`. A Dafny `char` is a Unicode scalar value, so such strings are not modelled. Code-point order and every stated property are the same for the strings that are modelled.
- Concurrency and Tk's event loop are not modelled. Every operation runs to completion in isolation.
