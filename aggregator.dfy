/** The alphabet sweep of `show_all_recipes_from_api` (cookbook.py): one
    first-letter search per letter 'a' to 'z', all records poured into a
    dict keyed by recipe name, and the dict's values returned in Python's
    dict order. The search for a letter is an input: `respond(c)` is what
    the request for letter `c` yields. */
module Aggregator {
  import opened PyText
  import opened Fetcher

  /** `string.ascii_lowercase` */
  const AsciiLowercase: string := "abcdefghijklmnopqrstuvwxyz"

  /** The sweep visits 'a' to 'z' in alphabetical order. */
  lemma AsciiLowercaseIsAToZ()
    ensures |AsciiLowercase| == 26
    ensures forall i :: 0 <= i < |AsciiLowercase| ==> AsciiLowercase[i] as int == 'a' as int + i
  {
  }

  /** A Python dict from recipe name to record: its keys in insertion
      order, and the value stored under each key. */
  datatype Dict = Dict(keys: seq<Option<string>>, table: map<Option<string>, Record>)

  /** `{}` */
  const EmptyDict := Dict([], map[])

  /** `d[k] = v`: a new key goes to the end of the order; a key already
      present keeps its place and takes the new value. */
  function Put(d: Dict, k: Option<string>, v: Record): Dict
  {
    Dict(if k in d.table then d.keys else d.keys + [k], d.table[k := v])
  }

  /** Every key in the order has a value. */
  ghost predicate KeysStored(d: Dict)
  {
    forall i :: 0 <= i < |d.keys| ==> d.keys[i] in d.table
  }

  /** `list(d.values())`: the values in the order their keys were first
      inserted. */
  function Values(d: Dict): seq<Record>
    requires KeysStored(d)
  {
    seq(|d.keys|, i requires 0 <= i < |d.keys| => d.table[d.keys[i]])
  }

  /** The name-keyed dict after `d[r['name']] = r` for each record of `rs`
      in turn, starting from `{}`. */
  function ByName(rs: seq<Record>): (d: Dict)
    ensures KeysStored(d)
  {
    if rs == [] then EmptyDict
    else
      var last := rs[|rs| - 1];
      Put(ByName(rs[..|rs| - 1]), last.name, last)
  }

  /** The dict invariant: the keys in order are distinct and are exactly
      the keys with a value, each stored record carries its own key as
      name, and there are no more keys than records stored. */
  lemma {:induction false} ByNameWellFormed(rs: seq<Record>)
    ensures KeysStored(ByName(rs))
    ensures forall k :: k in ByName(rs).table ==> k in ByName(rs).keys
    ensures forall i, j :: 0 <= i < j < |ByName(rs).keys| ==> ByName(rs).keys[i] != ByName(rs).keys[j]
    ensures forall k :: k in ByName(rs).table ==> ByName(rs).table[k].name == k
    ensures |ByName(rs).keys| <= |rs|
  {
    if rs != [] {
      ByNameWellFormed(rs[..|rs| - 1]);
    }
  }

  /** Storing record `batch[i]` after `received + batch[..i]` is one more
      `Put`. */
  lemma ByNameStep(received: seq<Record>, batch: seq<Record>, i: nat)
    requires i < |batch|
    ensures ByName(received + batch[..i + 1])
            == Put(ByName(received + batch[..i]), batch[i].name, batch[i])
  {
    var rs := received + batch[..i + 1];
    assert rs[|rs| - 1] == batch[i];
    assert rs[..|rs| - 1] == received + batch[..i];
  }

  /** The index of the first record named `k`, or `|rs|` when there is none. */
  function FirstIndex(rs: seq<Record>, k: Option<string>): (p: nat)
    ensures p <= |rs|
    ensures p < |rs| ==> rs[p].name == k
    ensures forall l :: 0 <= l < p ==> rs[l].name != k
  {
    if rs == [] then 0
    else if rs[0].name == k then 0
    else 1 + FirstIndex(rs[1..], k)
  }

  /** Record `j` is the last one of `rs` with its name. */
  ghost predicate LastOfName(rs: seq<Record>, j: int)
  {
    0 <= j < |rs| && forall l :: j < l < |rs| ==> rs[l].name != rs[j].name
  }

  /** `r` is the last record of `rs` with its name. */
  ghost predicate IsLastOfName(rs: seq<Record>, r: Record)
  {
    exists j :: LastOfName(rs, j) && rs[j] == r
  }

  lemma FirstIndexOfPrefix(rs: seq<Record>, x: Record, k: Option<string>)
    requires FirstIndex(rs, k) < |rs|
    ensures FirstIndex(rs + [x], k) == FirstIndex(rs, k)
  {
    var p, q := FirstIndex(rs, k), FirstIndex(rs + [x], k);
    assert (rs + [x])[p] == rs[p];
  }

  /** The dict's keys are exactly the names that occur in `rs`. */
  lemma {:induction false} ByNameKeys(rs: seq<Record>)
    ensures ByName(rs).table.Keys == set j | 0 <= j < |rs| :: rs[j].name
  {
    if rs != [] {
      var init := rs[..|rs| - 1];
      ByNameKeys(init);
      var names := set j | 0 <= j < |rs| :: rs[j].name;
      var initNames := set j | 0 <= j < |init| :: init[j].name;
      assert names == initNames + {rs[|rs| - 1].name} by {
        forall k | k in names ensures k in initNames + {rs[|rs| - 1].name} {
          var j :| 0 <= j < |rs| && rs[j].name == k;
          if j < |init| {
            assert init[j] == rs[j];
          }
        }
        forall k | k in initNames ensures k in names {
          var j :| 0 <= j < |init| && init[j].name == k;
          assert rs[j] == init[j];
        }
      }
    }
  }

  /** Last write wins: the record stored under a name is the last record
      of `rs` that carries it. */
  lemma {:induction false} ByNameLastWins(rs: seq<Record>, j: int)
    requires LastOfName(rs, j)
    ensures rs[j].name in ByName(rs).table
    ensures ByName(rs).table[rs[j].name] == rs[j]
  {
    var init := rs[..|rs| - 1];
    if j < |rs| - 1 {
      assert init[j] == rs[j];
      assert LastOfName(init, j);
      ByNameLastWins(init, j);
    }
  }

  /** Dict order is first-occurrence order: of two keys, the one whose
      name first occurs earlier in `rs` comes first. */
  lemma {:induction false} ByNameFirstOccurrenceOrder(rs: seq<Record>)
    ensures forall a :: 0 <= a < |ByName(rs).keys| ==>
              FirstIndex(rs, ByName(rs).keys[a]) < |rs|
    ensures forall a, b :: 0 <= a < b < |ByName(rs).keys| ==>
              FirstIndex(rs, ByName(rs).keys[a]) < FirstIndex(rs, ByName(rs).keys[b])
  {
    if rs != [] {
      var init, x := rs[..|rs| - 1], rs[|rs| - 1];
      assert rs == init + [x];
      ByNameFirstOccurrenceOrder(init);
      var before, after := ByName(init), ByName(rs);
      forall a | 0 <= a < |before.keys|
        ensures FirstIndex(rs, before.keys[a]) == FirstIndex(init, before.keys[a]) < |rs|
      {
        FirstIndexOfPrefix(init, x, before.keys[a]);
      }
      if x.name !in before.table {
        ByNameKeys(init);
        assert FirstIndex(rs, x.name) == |init|;
      }
    }
  }

  /** `ByName` applied to all of `rs` returns one record per distinct name,
      the last of that name, and never more records than it was given.
      (Their order is the subject of `ByNameFirstOccurrenceOrder`.) */
  lemma DedupByName(rs: seq<Record>)
    ensures KeysStored(ByName(rs))
    ensures var u := Values(ByName(rs));
      && |u| <= |rs|
      && (forall i, j :: 0 <= i < j < |u| ==> u[i].name != u[j].name)
      && (set i | 0 <= i < |u| :: u[i].name) == (set j | 0 <= j < |rs| :: rs[j].name)
    ensures forall i :: 0 <= i < |Values(ByName(rs))| ==> IsLastOfName(rs, Values(ByName(rs))[i])
  {
    ByNameWellFormed(rs);
    var d := ByName(rs);
    var u := Values(d);
    ByNameKeys(rs);
    forall i | 0 <= i < |u| ensures u[i].name == d.keys[i] {
    }
    assert (set i | 0 <= i < |u| :: u[i].name) == d.table.Keys by {
      forall k | k in d.table ensures k in set i | 0 <= i < |u| :: u[i].name {
        var i :| 0 <= i < |d.keys| && d.keys[i] == k;
        assert u[i].name == k;
      }
    }
    forall i | 0 <= i < |u| ensures IsLastOfName(rs, u[i]) {
      var k := d.keys[i];
      assert k in set j | 0 <= j < |rs| :: rs[j].name;
      var j0 :| 0 <= j0 < |rs| && rs[j0].name == k;
      var j := LastWithName(rs, j0);
      ByNameLastWins(rs, j);
      assert LastOfName(rs, j) && u[i] == rs[j];
    }
  }

  /** The last record of `rs` with the name of record `j0`. */
  lemma LastWithName(rs: seq<Record>, j0: int) returns (j: int)
    requires 0 <= j0 < |rs|
    ensures LastOfName(rs, j) && rs[j].name == rs[j0].name
    decreases |rs| - j0
  {
    if l :| j0 < l < |rs| && rs[l].name == rs[j0].name {
      j := LastWithName(rs, l);
    } else {
      j := j0;
    }
  }

  /** What the request for each letter yields, in sweep order. */
  function PerLetter(respond: char -> Response): seq<seq<Record>>
  {
    seq(|AsciiLowercase|, i requires 0 <= i < |AsciiLowercase| => FetchResult(respond(AsciiLowercase[i])))
  }

  /** The concatenation of the batches, in order. */
  function Flatten(batches: seq<seq<Record>>): seq<Record>
  {
    if batches == [] then []
    else Flatten(batches[..|batches| - 1]) + batches[|batches| - 1]
  }

  /** Every record the sweep receives, in the order it receives them. */
  function Swept(respond: char -> Response): seq<Record>
  {
    Flatten(PerLetter(respond))
  }

  /** The sweep loop: `all_recipes[recipe['name']] = recipe` for every
      record of every letter, then `list(all_recipes.values())`. */
  method CollectAll(respond: char -> Response) returns (unique: seq<Record>)
    ensures unique == Values(ByName(Swept(respond)))
    ensures |unique| <= |Swept(respond)|
    ensures forall i, j :: 0 <= i < j < |unique| ==> unique[i].name != unique[j].name
    ensures (set i | 0 <= i < |unique| :: unique[i].name)
            == (set j | 0 <= j < |Swept(respond)| :: Swept(respond)[j].name)
    ensures forall i :: 0 <= i < |unique| ==> IsLastOfName(Swept(respond), unique[i])
  {
    var allRecipes := EmptyDict;
    ghost var batches := PerLetter(respond);
    ghost var received: seq<Record> := [];
    var li := 0;
    while li < |AsciiLowercase|
      invariant 0 <= li <= |AsciiLowercase|
      invariant received == Flatten(batches[..li])
      invariant allRecipes == ByName(received)
    {
      var batch := FetchOnlineRecipesByFirstLetter(respond(AsciiLowercase[li]));
      assert batch == batches[li];
      var ri := 0;
      assert received + batch[..ri] == received;
      while ri < |batch|
        invariant 0 <= ri <= |batch|
        invariant allRecipes == ByName(received + batch[..ri])
      {
        var recipe := batch[ri];
        ByNameStep(received, batch, ri);
        allRecipes := Put(allRecipes, recipe.name, recipe);
        ri := ri + 1;
      }
      assert batch[..ri] == batch;
      assert batches[..li + 1][..li] == batches[..li];
      received := received + batch;
      li := li + 1;
    }
    assert batches[..li] == batches;
    DedupByName(received);
    unique := Values(allRecipes);
  }
}
