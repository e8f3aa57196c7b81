/**
  The recent-searches list of src/lib/storage.ts: a most-recent-first list
  of at most five distinct queries, kept under one browser-storage key.
  The store is an object whose field holds what was last written under the
  key; `Add` rewrites it and `Load` reads it.
*/
module Storage {
  import opened JsValue
  import opened JsText

  /** How many searches the list keeps. */
  const MaxRecentSearches: nat := 5

  /**
    What reading the storage key and decoding it gives: nothing stored (or
    the empty string, which both operations treat the same way), text that
    is not JSON, or a decoded JSON value.
  */
  datatype Persisted = Missing | Corrupt | Parsed(v: Value)

  /** `Str` of each query, as `JSON.stringify` writes the list and `JSON.parse` reads it back. */
  function Strs(xs: seq<string>): (r: seq<Value>)
    ensures |r| == |xs| && forall i | 0 <= i < |xs| :: r[i] == Str(xs[i])
  {
    if |xs| == 0 then [] else [Str(xs[0])] + Strs(xs[1..])
  }

  /** `parsed.filter(item => typeof item === 'string')`: the string elements, in order. */
  function StringsOf(items: seq<Value>): (r: seq<string>)
    ensures |r| <= |items|
    ensures forall s | s in r :: Str(s) in items
  {
    if |items| == 0 then []
    else if items[0].Str? then [items[0].s] + StringsOf(items[1..])
    else StringsOf(items[1..])
  }

  /** The list a stored value stands for: its string elements when it decodes to an array, else nothing. */
  function Previous(p: Persisted): (r: seq<string>)
    ensures !(p.Parsed? && p.v.Arr?) ==> r == []
    ensures p.Parsed? && p.v.Arr? ==> |r| <= |p.v.items| && forall s | s in r :: Str(s) in p.v.items
  {
    match p
    case Parsed(Arr(items)) => StringsOf(items)
    case _ => []
  }

  /** `[query, ...recent.filter(s => s !== query)].slice(0, 5)`. */
  function Updated(recent: seq<string>, query: string): (r: seq<string>)
    ensures 1 <= |r| <= MaxRecentSearches && r[0] == query
    ensures forall s | s in r :: s == query || s in recent
  {
    var moved := [query] + Filter(recent, s => s != query);
    moved[..if |moved| < MaxRecentSearches then |moved| else MaxRecentSearches]
  }

  /** The store behind `addToRecentSearches` and `loadRecentSearches`. */
  class RecentSearchStore {
    /** Whether `window.localStorage` exists. */
    const available: bool
    /** What is stored under the recent-searches key. */
    var saved: Persisted

    constructor(available: bool, saved: Persisted)
      ensures this.available == available && this.saved == saved
    {
      this.available := available;
      this.saved := saved;
    }

    /**
      `addToRecentSearches`: an empty or blank query, or missing storage,
      gives `[]` and writes nothing; otherwise the query moves to the front
      of the stored list, which is written back and returned.
    */
    method Add(query: string) returns (updated: seq<string>)
      modifies this
      ensures AllSpace(query) || !available ==> updated == [] && saved == old(saved)
      ensures !AllSpace(query) && available ==>
        updated == Updated(Previous(old(saved)), query) && saved == Parsed(Arr(Strs(updated)))
      ensures Previous(saved) == (if AllSpace(query) || !available then Previous(old(saved)) else updated)
    {
      TrimEmpty(query);
      if query == "" || Trim(query) == "" {
        return [];
      }
      if !available {
        return [];
      }
      var recentSearches: seq<string> := [];
      if saved != Missing {
        if saved.Parsed? && saved.v.Arr? {
          recentSearches := StringsOf(saved.v.items);
        } else {
          recentSearches := [];
        }
      }
      assert recentSearches == Previous(saved);
      var filtered := Filter(recentSearches, s => s != query);
      var moved := [query] + filtered;
      updated := moved[..if |moved| < MaxRecentSearches then |moved| else MaxRecentSearches];
      assert updated == Updated(recentSearches, query);
      saved := Parsed(Arr(Strs(updated)));
      StoredListReadsBack(updated);
    }

    /** `loadRecentSearches`: the stored list, or `[]` without storage. */
    method Load() returns (searches: seq<string>)
      ensures available ==> searches == Previous(saved)
      ensures !available ==> searches == []
      ensures saved.Missing? || saved.Corrupt? ==> searches == []
      ensures saved.Parsed? && !saved.v.Arr? ==> searches == []
    {
      if !available {
        return [];
      }
      if saved.Missing? {
        return [];
      }
      match saved
      case Parsed(Arr(items)) =>
        searches := StringsOf(items);
      case _ =>
        searches := [];
    }
  }

  // ---------------------------------------------------------------------
  // Properties of the update rule
  // ---------------------------------------------------------------------

  /** The query heads the new list and occurs in it exactly once. */
  lemma {:induction false} UpdatedHead(recent: seq<string>, query: string)
    ensures |Updated(recent, query)| > 0 && Updated(recent, query)[0] == query
    ensures forall i | 1 <= i < |Updated(recent, query)| :: Updated(recent, query)[i] != query
  {
    var filtered := Filter(recent, s => s != query);
    var r := Updated(recent, query);
    forall i | 1 <= i < |r| ensures r[i] != query {
      assert r[i] == filtered[i - 1];
      assert filtered[i - 1] in filtered;
    }
  }

  /**
    The list never grows beyond five, and is as long as it can be: the
    query plus every other previous entry, up to five.
  */
  lemma {:induction false} UpdatedLength(recent: seq<string>, query: string)
    ensures 1 <= |Updated(recent, query)| <= MaxRecentSearches
    ensures var others := |Filter(recent, s => s != query)|;
      |Updated(recent, query)| == if others + 1 < MaxRecentSearches then others + 1 else MaxRecentSearches
  {
  }

  /**
    After the query come the previous entries other than the query itself
    (compared exactly, case included), in their previous order, cut at the
    bound.
  */
  lemma {:induction false} UpdatedRest(recent: seq<string>, query: string)
    ensures var r := Updated(recent, query);
      r[1..] == Filter(recent, s => s != query)[..|r| - 1]
    ensures forall s | s in Updated(recent, query) && s != query :: s in recent
  {
    var filtered := Filter(recent, s => s != query);
    var r := Updated(recent, query);
    assert r[1..] == filtered[..|r| - 1];
    forall s | s in r && s != query ensures s in recent {
      var i :| 0 <= i < |r| && r[i] == s;
      assert filtered[i - 1] in filtered;
    }
  }

  /** A list without repeats stays without repeats. */
  lemma {:induction false} UpdatedNoDuplicates(recent: seq<string>, query: string)
    requires NoDuplicates(recent)
    ensures NoDuplicates(Updated(recent, query))
  {
    var filtered := Filter(recent, s => s != query);
    FilterNoDuplicates(recent, s => s != query);
    var r := Updated(recent, query);
    UpdatedHead(recent, query);
    forall i, j | 0 <= i < j < |r| ensures r[i] != r[j] {
      if i > 0 {
        assert r[i] == filtered[i - 1] && r[j] == filtered[j - 1];
      }
    }
  }

  /** Searching for the same query twice in a row changes nothing the second time. */
  lemma {:induction false} UpdatedIdempotent(recent: seq<string>, query: string)
    ensures Updated(Updated(recent, query), query) == Updated(recent, query)
  {
    var filtered := Filter(recent, s => s != query);
    var r := Updated(recent, query);
    UpdatedHead(recent, query);
    assert r == [r[0]] + r[1..];
    assert Filter(r, s => s != query) == Filter(r[1..], s => s != query);
    FilterAllKept(r[1..], s => s != query);
  }

  /** A stored value that is not a list of searches counts as an empty list and is overwritten by the query alone. */
  lemma {:induction false} UpdatedFromUnusable(p: Persisted, query: string)
    requires !(p.Parsed? && p.v.Arr?)
    ensures Updated(Previous(p), query) == [query]
  {
  }

  /** A query not in the list is put in front of it, and the oldest entry drops off a full list. */
  lemma {:induction false} UpdatedNew(recent: seq<string>, query: string)
    requires query !in recent
    ensures |recent| < MaxRecentSearches ==> Updated(recent, query) == [query] + recent
    ensures |recent| >= MaxRecentSearches ==> Updated(recent, query) == ([query] + recent)[..MaxRecentSearches]
  {
    FilterAllKept(recent, s => s != query);
  }

  /** A query that occurs once in the list moves from its place to the front; nothing else moves. */
  lemma {:induction false} UpdatedExisting(recent: seq<string>, query: string, k: nat)
    requires k < |recent| && recent[k] == query
    requires forall i | 0 <= i < |recent| && i != k :: recent[i] != query
    ensures Updated(recent, query) ==
      ([query] + recent[..k] + recent[k + 1..])[..if |recent| < MaxRecentSearches then |recent| else MaxRecentSearches]
  {
    FilterDropsOne(recent, s => s != query, k);
    assert [query] + (recent[..k] + recent[k + 1..]) == [query] + recent[..k] + recent[k + 1..];
  }

  /** The list after a session of searches, one `Add` after another. */
  function AddAll(recent: seq<string>, queries: seq<string>): seq<string>
    decreases |queries|
  {
    if |queries| == 0 then recent else AddAll(Updated(recent, queries[0]), queries[1..])
  }

  /**
    Over any session that starts from a list of at most five distinct
    searches, the list stays at most five long and without repeats, and
    after at least one search it starts with the latest one.
  */
  lemma {:induction false} AddAllInvariant(recent: seq<string>, queries: seq<string>)
    requires |recent| <= MaxRecentSearches && NoDuplicates(recent)
    ensures |AddAll(recent, queries)| <= MaxRecentSearches && NoDuplicates(AddAll(recent, queries))
    ensures |queries| > 0 ==> |AddAll(recent, queries)| > 0 && AddAll(recent, queries)[0] == queries[|queries| - 1]
    decreases |queries|
  {
    if |queries| > 0 {
      var next := Updated(recent, queries[0]);
      UpdatedLength(recent, queries[0]);
      UpdatedNoDuplicates(recent, queries[0]);
      UpdatedHead(recent, queries[0]);
      AddAllInvariant(next, queries[1..]);
    }
  }

  /** A session split in two: the second part starts from the list the first part leaves. */
  lemma {:induction false} AddAllConcat(recent: seq<string>, first: seq<string>, second: seq<string>)
    ensures AddAll(recent, first + second) == AddAll(AddAll(recent, first), second)
    decreases |first|
  {
    if |first| > 0 {
      assert (first + second)[1..] == first[1..] + second;
      AddAllConcat(Updated(recent, first[0]), first[1..], second);
    } else {
      assert first + second == second;
    }
  }

  /** Adding cat, dog, cat to an empty store: the second "cat" moves back to the front. */
  lemma {:induction false} AddAllExampleReAdd()
    ensures AddAll([], ["cat", "dog", "cat"]) == ["cat", "dog"]
  {
    var qs: seq<string> := ["cat", "dog", "cat"];
    var b: seq<string> := ["dog", "cat"];
    calc {
      AddAll([], qs);
      { UpdatedNew([], "cat"); }
      AddAll(["cat"], qs[1..]);
      { UpdatedNew(["cat"], "dog"); }
      AddAll(b, qs[2..]);
      { UpdatedExisting(b, "cat", 1);
        assert b[..1] == ["dog"] && b[2..] == [];
        assert Updated(b, "cat") == ["cat", "dog"]; }
      AddAll(["cat", "dog"], qs[3..]);
      ["cat", "dog"];
    }
  }

  /** `xs` back to front. */
  function Reversed(xs: seq<string>): (r: seq<string>)
    ensures |r| == |xs| && forall i | 0 <= i < |xs| :: r[i] == xs[|xs| - 1 - i]
  {
    if |xs| == 0 then [] else Reversed(xs[1..]) + [xs[0]]
  }

  /**
    Distinct new searches that all fit go in front one after the other, so
    they end up newest first ahead of the old list.
  */
  lemma {:induction false} AddAllFresh(recent: seq<string>, queries: seq<string>)
    requires NoDuplicates(queries) && |recent| + |queries| <= MaxRecentSearches
    requires forall q | q in queries :: q !in recent
    ensures AddAll(recent, queries) == Reversed(queries) + recent
    decreases |queries|
  {
    if |queries| > 0 {
      var q, rest := queries[0], queries[1..];
      UpdatedNew(recent, q);
      FreshRest(recent, queries);
      AddAllFresh([q] + recent, rest);
      assert Reversed(queries) + recent == Reversed(rest) + ([q] + recent);
    }
  }

  /** After the first fresh search, the others are still fresh and still fit. */
  lemma {:induction false} FreshRest(recent: seq<string>, queries: seq<string>)
    requires |queries| > 0 && NoDuplicates(queries) && |recent| + |queries| <= MaxRecentSearches
    requires forall q | q in queries :: q !in recent
    ensures NoDuplicates(queries[1..]) && |[queries[0]] + recent| + |queries[1..]| <= MaxRecentSearches
    ensures forall x | x in queries[1..] :: x !in [queries[0]] + recent
  {
    var q, rest := queries[0], queries[1..];
    forall i, j | 0 <= i < j < |rest| ensures rest[i] != rest[j] {
      assert rest[i] == queries[i + 1] && rest[j] == queries[j + 1];
    }
    forall x | x in rest ensures x !in [q] + recent {
      var i :| 0 <= i < |rest| && rest[i] == x;
      assert queries[i + 1] == x;
    }
  }

  /** Then bird, fish and owl, none of them in the list yet, go in front one after the other. */
  lemma {:induction false} AddAllExampleNew()
    ensures AddAll(["cat", "dog"], ["bird", "fish", "owl"]) == ["owl", "fish", "bird", "cat", "dog"]
  {
    var qs: seq<string> := ["bird", "fish", "owl"];
    AddAllFresh(["cat", "dog"], qs);
    assert Reversed(qs) == ["owl", "fish", "bird"];
  }

  /**
    Adding cat, dog, cat, bird, fish, owl to an empty store: with five
    distinct searches nothing is evicted, and the re-added "cat" stays
    ahead of "dog".
  */
  lemma {:induction false} AddAllExample()
    ensures AddAll([], ["cat", "dog", "cat", "bird", "fish", "owl"]) == ["owl", "fish", "bird", "cat", "dog"]
  {
    assert ["cat", "dog", "cat", "bird", "fish", "owl"] == ["cat", "dog", "cat"] + ["bird", "fish", "owl"];
    AddAllConcat([], ["cat", "dog", "cat"], ["bird", "fish", "owl"]);
    AddAllExampleReAdd();
    AddAllExampleNew();
  }

  // ---------------------------------------------------------------------
  // Properties of reading the stored value
  // ---------------------------------------------------------------------

  /** A written list reads back as itself: loading right after adding returns what the add returned. */
  lemma {:induction false} StoredListReadsBack(xs: seq<string>)
    ensures Previous(Parsed(Arr(Strs(xs)))) == xs
    ensures StringsOf(Strs(xs)) == xs
  {
    if |xs| > 0 {
      StoredListReadsBack(xs[1..]);
      assert Strs(xs)[1..] == Strs(xs[1..]);
    }
  }

  /**
    Reading keeps exactly the string elements, in order: it distributes
    over concatenation, keeps a string and drops anything else.
  */
  lemma {:induction false} StringsOfAppend(a: seq<Value>, b: seq<Value>)
    ensures StringsOf(a + b) == StringsOf(a) + StringsOf(b)
  {
    if |a| == 0 {
      assert a + b == b;
    } else {
      assert (a + b)[1..] == a[1..] + b;
      StringsOfAppend(a[1..], b);
    }
  }

  lemma {:induction false} StringsOfSingle(v: Value)
    ensures StringsOf([v]) == if v.Str? then [v.s] else []
  {
  }
}
