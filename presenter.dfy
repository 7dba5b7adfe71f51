/** The result list of `CookbookApp` (cookbook.py): `show_recipe_list`
    sorts the records by name, puts every non-empty name in the list box and
    keeps a name-to-record map for the detail pane. The Tk widgets are
    modelled by the data they hold: the list box by its sequence of names,
    `display_recipes_data` by a map. */
module Presenter {
  import opened PyText
  import opened Fetcher
  import opened Aggregator

  // ---------------------------------------------------------------------------
  // sorted(recipe_list, key=lambda x: x.get('name', ''))

  /** The sort key. Every record carries a `name` field, so the key is the
      name itself; a `None` name only reaches a sort of at most one record,
      where no two keys are compared, and `""` stands in for it there. */
  function SortKey(r: Record): string
  {
    match r.name
    case Some(s) => s
    case None => ""
  }

  ghost predicate SortedByName(s: seq<Record>)
  {
    forall i, j :: 0 <= i < j < |s| ==> LexLe(SortKey(s[i]), SortKey(s[j]))
  }

  /** Puts `x` before the first record whose key is not smaller than its
      own, so that `x` stays ahead of the records with an equal key. */
  function InsertByName(x: Record, s: seq<Record>): seq<Record>
  {
    if s == [] || LexLe(SortKey(x), SortKey(s[0])) then [x] + s
    else [s[0]] + InsertByName(x, s[1..])
  }

  /** Python's `sorted` by name: a stable sort in code-point order. */
  function SortByName(rs: seq<Record>): seq<Record>
  {
    if rs == [] then [] else InsertByName(rs[0], SortByName(rs[1..]))
  }

  /** The records of `s` whose key is `k`, in order. */
  function WithKey(s: seq<Record>, k: string): seq<Record>
  {
    if s == [] then []
    else (if SortKey(s[0]) == k then [s[0]] else []) + WithKey(s[1..], k)
  }

  lemma {:induction false} InsertByNameCount(x: Record, s: seq<Record>)
    ensures multiset(InsertByName(x, s)) == multiset{x} + multiset(s)
  {
    if s != [] && !LexLe(SortKey(x), SortKey(s[0])) {
      InsertByNameCount(x, s[1..]);
      assert s == [s[0]] + s[1..];
    }
  }

  lemma {:induction false} InsertByNameSorted(x: Record, s: seq<Record>)
    requires SortedByName(s)
    ensures SortedByName(InsertByName(x, s))
  {
    var r := InsertByName(x, s);
    if s == [] || LexLe(SortKey(x), SortKey(s[0])) {
      forall i, j | 0 <= i < j < |r| ensures LexLe(SortKey(r[i]), SortKey(r[j])) {
        if i == 0 && j > 1 {
          LexLeTransitive(SortKey(x), SortKey(s[0]), SortKey(s[j - 1]));
        }
      }
    } else {
      var t := InsertByName(x, s[1..]);
      InsertByNameSorted(x, s[1..]);
      InsertByNameCount(x, s[1..]);
      LexLeTotal(SortKey(x), SortKey(s[0]));
      forall j | 0 <= j < |t| ensures LexLe(SortKey(s[0]), SortKey(t[j])) {
        assert t[j] in multiset(t);
        if t[j] != x {
          assert t[j] in multiset(s[1..]);
          var m :| 0 <= m < |s[1..]| && s[1..][m] == t[j];
          assert s[m + 1] == t[j];
        }
      }
      forall i, j | 0 <= i < j < |r| ensures LexLe(SortKey(r[i]), SortKey(r[j])) {
        if i > 0 {
          assert r[i] == t[i - 1] && r[j] == t[j - 1];
        } else {
          assert r[j] == t[j - 1];
        }
      }
    }
  }

  /** Inserting `x` adds it to the records with its key, ahead of them,
      and changes no other key's records. */
  lemma {:induction false} InsertByNameWithKey(x: Record, s: seq<Record>, k: string)
    ensures WithKey(InsertByName(x, s), k) == WithKey([x], k) + WithKey(s, k)
  {
    if s == [] || LexLe(SortKey(x), SortKey(s[0])) {
      assert ([x] + s)[1..] == s;
    } else {
      InsertByNameWithKey(x, s[1..], k);
      var r := InsertByName(x, s);
      assert r[1..] == InsertByName(x, s[1..]);
      if SortKey(x) == k {
        LexLeReflexive(k);
        assert SortKey(s[0]) != k;
      }
      assert WithKey([x], k) == (if SortKey(x) == k then [x] else []);
    }
  }

  /** The sorted list holds the same records, as often as the input does. */
  lemma {:induction false} SortByNamePermutes(rs: seq<Record>)
    ensures multiset(SortByName(rs)) == multiset(rs)
    ensures |SortByName(rs)| == |rs|
  {
    if rs != [] {
      SortByNamePermutes(rs[1..]);
      InsertByNameCount(rs[0], SortByName(rs[1..]));
      assert rs == [rs[0]] + rs[1..];
    }
  }

  /** The sorted list is in ascending code-point order of names. */
  lemma {:induction false} SortByNameSorted(rs: seq<Record>)
    ensures SortedByName(SortByName(rs))
  {
    if rs != [] {
      SortByNameSorted(rs[1..]);
      InsertByNameSorted(rs[0], SortByName(rs[1..]));
    }
  }

  /** The sort is stable: the records with any one name keep their input
      order. */
  lemma {:induction false} SortByNameStable(rs: seq<Record>, k: string)
    ensures WithKey(SortByName(rs), k) == WithKey(rs, k)
  {
    if rs != [] {
      SortByNameStable(rs[1..], k);
      InsertByNameWithKey(rs[0], SortByName(rs[1..]), k);
      assert WithKey([rs[0]], k) == (if SortKey(rs[0]) == k then [rs[0]] else []);
    }
  }

  /** Sorted order and the order within each name fix the result: any
      sorted arrangement that keeps every name's records in input order is
      the one `SortByName` returns. */
  lemma {:induction false} StableSortIsUnique(a: seq<Record>, b: seq<Record>)
    requires SortedByName(a) && SortedByName(b)
    requires forall k :: WithKey(a, k) == WithKey(b, k)
    ensures a == b
  {
    if a == [] && b == [] {
    } else if a == [] || b == [] {
      // The non-empty one has a record whose key the other lacks.
      var c := if a == [] then b else a;
      WithKeyMember(c, SortKey(c[0]), 0);
      assert false;
    } else {
      var ka, kb := SortKey(a[0]), SortKey(b[0]);
      WithKeyMember(b, kb, 0);
      var p := WithKeyIndex(a, kb);
      WithKeyMember(a, ka, 0);
      var q := WithKeyIndex(b, ka);
      if p > 0 {
        assert LexLe(ka, SortKey(a[p]));
      } else {
        LexLeReflexive(ka);
      }
      if q > 0 {
        assert LexLe(kb, SortKey(b[q]));
      } else {
        LexLeReflexive(kb);
      }
      LexLeAntisymmetric(ka, kb);
      assert WithKey(a, ka)[0] == a[0];
      assert WithKey(b, ka)[0] == b[0];
      assert a[0] == b[0];
      forall k ensures WithKey(a[1..], k) == WithKey(b[1..], k) {
        var wa, wb := WithKey(a, k), WithKey(b, k);
        assert wa == wb;
        assert wa == (if ka == k then [a[0]] else []) + WithKey(a[1..], k);
        assert wb == (if kb == k then [b[0]] else []) + WithKey(b[1..], k);
        if ka == k {
          assert WithKey(a[1..], k) == wa[1..];
          assert WithKey(b[1..], k) == wb[1..];
        } else {
          assert WithKey(a[1..], k) == wa;
          assert WithKey(b[1..], k) == wb;
        }
      }
      StableSortIsUnique(a[1..], b[1..]);
      assert a == [a[0]] + a[1..];
      assert b == [b[0]] + b[1..];
    }
  }

  lemma {:induction false} WithKeyMember(s: seq<Record>, k: string, i: nat)
    requires i < |s| && SortKey(s[i]) == k
    ensures WithKey(s, k) != []
  {
    if i > 0 && SortKey(s[0]) != k {
      WithKeyMember(s[1..], k, i - 1);
    }
  }

  /** The index of a record with key `k` in `s`, given that there is one. */
  lemma {:induction false} WithKeyIndex(s: seq<Record>, k: string) returns (p: nat)
    requires WithKey(s, k) != []
    ensures p < |s| && SortKey(s[p]) == k
  {
    if SortKey(s[0]) == k {
      p := 0;
    } else {
      p := WithKeyIndex(s[1..], k);
      p := p + 1;
    }
  }

  /** `SortByName` is the stable sort: every sorted arrangement of `rs`
      that keeps each name's records in input order equals it. */
  lemma SortByNameIsTheStableSort(rs: seq<Record>, s: seq<Record>)
    requires SortedByName(s)
    requires forall k :: WithKey(s, k) == WithKey(rs, k)
    ensures s == SortByName(rs)
  {
    SortByNameSorted(rs);
    forall k ensures WithKey(s, k) == WithKey(SortByName(rs), k) {
      SortByNameStable(rs, k);
    }
    StableSortIsUnique(s, SortByName(rs));
  }

  // ---------------------------------------------------------------------------
  // The list box and display_recipes_data

  /** `if name:`: the record has a name that is a non-empty string. */
  predicate Listed(r: Record)
  {
    r.name.Some? && r.name.value != ""
  }

  /** The names `show_recipe_list` inserts into the list box for the
      records `s`, in order, duplicates included. */
  function ShownNames(s: seq<Record>): seq<string>
  {
    if s == [] then []
    else (if Listed(s[0]) then [s[0].name.value] else []) + ShownNames(s[1..])
  }

  /** `display_recipes_data` after `display_recipes_data[name] = r` for each
      listed record of `s` in turn, starting from `{}`. */
  function NameIndex(s: seq<Record>): map<string, Record>
  {
    if s == [] then map[]
    else
      var last := s[|s| - 1];
      var m := NameIndex(s[..|s| - 1]);
      if Listed(last) then m[last.name.value := last] else m
  }

  /** `sorted` compares the keys of a list of two or more records; a `None`
      name among them makes the comparison raise `TypeError`. */
  predicate SortRaises(rs: seq<Record>)
  {
    |rs| >= 2 && exists j :: 0 <= j < |rs| && rs[j].name.None?
  }

  /** The list box after `show_recipe_list(rs)`: empty when the sort
      raises (the box was cleared before sorting). */
  function ListedNames(rs: seq<Record>): seq<string>
  {
    if SortRaises(rs) then [] else ShownNames(SortByName(rs))
  }

  /** `display_recipes_data` after `show_recipe_list(rs)`. */
  function DisplayedRecipes(rs: seq<Record>): map<string, Record>
  {
    if SortRaises(rs) then map[] else NameIndex(SortByName(rs))
  }

  lemma {:induction false} ShownNamesAppend(a: seq<Record>, b: seq<Record>)
    ensures ShownNames(a + b) == ShownNames(a) + ShownNames(b)
  {
    if a == [] {
      assert a + b == b;
    } else {
      ShownNamesAppend(a[1..], b);
      assert (a + b)[0] == a[0];
      assert (a + b)[1..] == a[1..] + b;
    }
  }

  /** A name is in the list exactly when some listed record carries it. */
  lemma {:induction false} ShownNamesMembers(s: seq<Record>)
    ensures forall x :: x in ShownNames(s) <==>
              exists j :: 0 <= j < |s| && Listed(s[j]) && s[j].name.value == x
  {
    if s != [] {
      ShownNamesMembers(s[1..]);
      forall x | x in ShownNames(s)
        ensures exists j :: 0 <= j < |s| && Listed(s[j]) && s[j].name.value == x
      {
        if !(Listed(s[0]) && s[0].name.value == x) {
          assert x in ShownNames(s[1..]);
          var j :| 0 <= j < |s[1..]| && Listed(s[1..][j]) && s[1..][j].name.value == x;
          assert s[j + 1] == s[1..][j];
        }
      }
      forall x, j | 0 <= j < |s| && Listed(s[j]) && s[j].name.value == x
        ensures x in ShownNames(s)
      {
        if j > 0 {
          assert s[1..][j - 1] == s[j];
        }
      }
    }
  }

  lemma {:induction false} ShownNamesOfInsert(x: Record, s: seq<Record>)
    ensures multiset(ShownNames(InsertByName(x, s))) == multiset(ShownNames([x])) + multiset(ShownNames(s))
  {
    if s != [] && !LexLe(SortKey(x), SortKey(s[0])) {
      ShownNamesOfInsert(x, s[1..]);
    }
  }

  /** Sorting neither adds nor drops names: the list holds the names of
      the input's listed records, as often as they occur there. */
  lemma {:induction false} ShownNamesOfSort(rs: seq<Record>)
    ensures multiset(ShownNames(SortByName(rs))) == multiset(ShownNames(rs))
  {
    if rs != [] {
      ShownNamesOfSort(rs[1..]);
      ShownNamesOfInsert(rs[0], SortByName(rs[1..]));
    }
  }

  /** Names read off a sorted list of records are in code-point order. */
  lemma {:induction false} ShownNamesSorted(s: seq<Record>)
    requires SortedByName(s)
    ensures forall i, j :: 0 <= i < j < |ShownNames(s)| ==> LexLe(ShownNames(s)[i], ShownNames(s)[j])
  {
    if s != [] {
      ShownNamesSorted(s[1..]);
      ShownNamesMembers(s[1..]);
      var rest := ShownNames(s[1..]);
      if Listed(s[0]) {
        forall j | 0 <= j < |rest| ensures LexLe(s[0].name.value, rest[j]) {
          assert rest[j] in rest;
          var m :| 0 <= m < |s[1..]| && Listed(s[1..][m]) && s[1..][m].name.value == rest[j];
          assert s[m + 1] == s[1..][m];
        }
      }
    }
  }

  /** The list box of a list that sorts without raising: the names of the
      listed records, as often as they occur in the input, in ascending
      code-point order. */
  lemma ListedNamesAreSortedNames(rs: seq<Record>)
    requires !SortRaises(rs)
    ensures forall i, j :: 0 <= i < j < |ListedNames(rs)| ==> LexLe(ListedNames(rs)[i], ListedNames(rs)[j])
    ensures multiset(ListedNames(rs)) == multiset(ShownNames(rs))
  {
    SortByNameSorted(rs);
    ShownNamesSorted(SortByName(rs));
    ShownNamesOfSort(rs);
  }

  /** The map's names are exactly the list box's names, so every entry of
      the list box finds its record when selected. */
  lemma {:induction false} NameIndexKeys(s: seq<Record>)
    ensures forall n :: n in NameIndex(s) <==> n in ShownNames(s)
  {
    if s != [] {
      var init, last := s[..|s| - 1], s[|s| - 1];
      NameIndexKeys(init);
      assert s == init + [last];
      ShownNamesAppend(init, [last]);
    }
  }

  /** Last write wins: a name maps to the last listed record that carries
      it. */
  lemma {:induction false} NameIndexLastWins(s: seq<Record>, j: int)
    requires 0 <= j < |s| && Listed(s[j])
    requires forall l :: j < l < |s| ==> s[l].name != s[j].name
    ensures s[j].name.value in NameIndex(s)
    ensures NameIndex(s)[s[j].name.value] == s[j]
  {
    var init := s[..|s| - 1];
    if j < |s| - 1 {
      assert init[j] == s[j];
      NameIndexLastWins(init, j);
    }
  }

  /** After `show_recipe_list(rs)` the map holds exactly the listed names;
      when the sort does not raise, each maps to the last record with that
      name in sorted order. */
  lemma DisplayedRecipesMatchList(rs: seq<Record>)
    ensures forall n :: n in DisplayedRecipes(rs) <==> n in ListedNames(rs)
    ensures !SortRaises(rs) ==>
              forall j :: 0 <= j < |SortByName(rs)| && Listed(SortByName(rs)[j])
                && (forall l :: j < l < |SortByName(rs)| ==> SortByName(rs)[l].name != SortByName(rs)[j].name)
                ==> SortByName(rs)[j].name.value in DisplayedRecipes(rs)
                    && DisplayedRecipes(rs)[SortByName(rs)[j].name.value] == SortByName(rs)[j]
  {
    if !SortRaises(rs) {
      var s := SortByName(rs);
      NameIndexKeys(s);
      forall j | 0 <= j < |s| && Listed(s[j]) && (forall l :: j < l < |s| ==> s[l].name != s[j].name)
        ensures s[j].name.value in NameIndex(s) && NameIndex(s)[s[j].name.value] == s[j]
      {
        NameIndexLastWins(s, j);
      }
    }
  }

  // ---------------------------------------------------------------------------
  // The application object

  /** The state of `CookbookApp` that the result list keeps. */
  class CookbookApp {
    /** The names in the result list box, top to bottom. */
    var listbox: seq<string>
    /** `display_recipes_data`: the record behind each listed name. */
    var displayRecipesData: map<string, Record>

    constructor ()
      ensures listbox == [] && displayRecipesData == map[]
    {
      listbox := [];
      displayRecipesData := map[];
    }

    /** `show_recipe_list`: clears the list, sorts the records by name and
        lists every record with a non-empty name. `raised` is true when
        `sorted` raises, which leaves the list and the map empty. */
    method ShowRecipeList(recipeList: seq<Record>) returns (raised: bool)
      modifies this
      ensures raised == SortRaises(recipeList)
      ensures listbox == ListedNames(recipeList)
      ensures displayRecipesData == DisplayedRecipes(recipeList)
    {
      listbox := [];
      displayRecipesData := map[];
      raised := false;
      if recipeList == [] {
        return;
      }
      if SortRaises(recipeList) {
        raised := true;
        return;
      }
      var sortedRecipes := SortByName(recipeList);
      var i := 0;
      while i < |sortedRecipes|
        invariant 0 <= i <= |sortedRecipes|
        invariant listbox == ShownNames(sortedRecipes[..i])
        invariant displayRecipesData == NameIndex(sortedRecipes[..i])
      {
        var recipe := sortedRecipes[i];
        var name := recipe.name;
        ShownNamesAppend(sortedRecipes[..i], [recipe]);
        assert sortedRecipes[..i + 1] == sortedRecipes[..i] + [recipe];
        if name.Some? && name.value != "" {
          listbox := listbox + [name.value];
          displayRecipesData := displayRecipesData[name.value := recipe];
        }
        i := i + 1;
      }
      assert sortedRecipes[..i] == sortedRecipes;
    }

    /** `show_all_recipes_from_api`: the alphabet sweep, then the list of
        its records. Since the sweep keeps one record per name, no name is
        listed twice. */
    method ShowAllRecipesFromApi(respond: char -> Response)
      modifies this
      ensures listbox == ListedNames(Values(ByName(Swept(respond))))
      ensures displayRecipesData == DisplayedRecipes(Values(ByName(Swept(respond))))
      ensures forall i, j :: 0 <= i < j < |listbox| ==> listbox[i] != listbox[j]
    {
      var uniqueRecipesList := CollectAll(respond);
      var raised := ShowRecipeList(uniqueRecipesList);
      ListedNamesDistinct(uniqueRecipesList);
    }
  }

  /** Records with pairwise distinct names give a list box without
      repeated names. */
  lemma ListedNamesDistinct(rs: seq<Record>)
    requires forall i, j :: 0 <= i < j < |rs| ==> rs[i].name != rs[j].name
    ensures forall i, j :: 0 <= i < j < |ListedNames(rs)| ==> ListedNames(rs)[i] != ListedNames(rs)[j]
  {
    if !SortRaises(rs) {
      var s := SortByName(rs);
      SortByNamePermutes(rs);
      ShownNamesOfSort(rs);
      ShownNamesDistinct(rs);
      MultisetKeepsDistinct(ShownNames(rs), ShownNames(s));
    }
  }

  lemma {:induction false} ShownNamesDistinct(rs: seq<Record>)
    requires forall i, j :: 0 <= i < j < |rs| ==> rs[i].name != rs[j].name
    ensures forall i, j :: 0 <= i < j < |ShownNames(rs)| ==> ShownNames(rs)[i] != ShownNames(rs)[j]
  {
    if rs != [] {
      ShownNamesDistinct(rs[1..]);
      ShownNamesMembers(rs[1..]);
      var rest := ShownNames(rs[1..]);
      if Listed(rs[0]) {
        forall j | 0 <= j < |rest| ensures rest[j] != rs[0].name.value {
          assert rest[j] in rest;
          var m :| 0 <= m < |rs[1..]| && Listed(rs[1..][m]) && rs[1..][m].name.value == rest[j];
          assert rs[m + 1] == rs[1..][m];
        }
      }
    }
  }

  /** A sequence with the same elements, as often, as one without repeats
      has no repeats either. */
  lemma MultisetKeepsDistinct(a: seq<string>, b: seq<string>)
    requires forall i, j :: 0 <= i < j < |a| ==> a[i] != a[j]
    requires multiset(a) == multiset(b)
    ensures forall i, j :: 0 <= i < j < |b| ==> b[i] != b[j]
  {
    forall i, j | 0 <= i < j < |b|
      ensures b[i] != b[j]
    {
      if b[i] == b[j] {
        var x := b[i];
        CountAtLeastTwo(b, i, j);
        CountAtMostOne(a, x);
      }
    }
  }

  lemma {:induction false} CountAtLeastTwo(b: seq<string>, i: int, j: int)
    requires 0 <= i < j < |b| && b[i] == b[j]
    ensures multiset(b)[b[i]] >= 2
  {
    assert b == b[..i] + [b[i]] + b[i + 1..j] + [b[j]] + b[j + 1..];
  }

  lemma {:induction false} CountAtMostOne(a: seq<string>, x: string)
    requires forall i, j :: 0 <= i < j < |a| ==> a[i] != a[j]
    ensures multiset(a)[x] <= 1
  {
    if a != [] {
      CountAtMostOne(a[1..], x);
      assert a == [a[0]] + a[1..];
      if a[0] == x {
        assert x !in a[1..];
      }
    }
  }
}
