/**
 * The category store: an insertion-ordered mapping from category name to an
 * ordered list of keywords (a Python dict of lists), the two operations that
 * grow it, and the session object that holds it together with a snapshot of
 * what was last written to the categories file.
 */
module Categories {
  import opened Text

  const Uncategorized: string := "Uncategorized"

  /** One dict item: a category name and its keyword list. */
  type Entry = (string, seq<string>)

  /** The dict's items in iteration (= insertion) order. */
  type Entries = seq<Entry>

  datatype Option<T> = None | Some(value: T)

  function Names(entries: Entries): set<string> {
    set i | 0 <= i < |entries| :: entries[i].0
  }

  /** Dict keys are unique. */
  ghost predicate NamesUnique(entries: Entries) {
    forall i, j :: 0 <= i < j < |entries| ==> entries[i].0 != entries[j].0
  }

  /** No keyword listed twice. Kept apart from `NamesUnique`, whose
      quantifier ranges over the names of entries rather than over the list
      itself, so that each triggers only on its own index terms. */
  ghost predicate Distinct(s: seq<string>) {
    forall i, j :: 0 <= i < j < |s| ==> s[i] != s[j]
  }

  /** Names unique, and no keyword listed twice (exact equality) under one category. */
  ghost predicate WellFormed(entries: Entries) {
    NamesUnique(entries) && forall i :: 0 <= i < |entries| ==> Distinct(entries[i].1)
  }

  /** Position of the dict key `name`. */
  function IndexOf(entries: Entries, name: string): (i: nat)
    requires name in Names(entries)
    ensures i < |entries| && entries[i].0 == name
  {
    if entries[0].0 == name then 0
    else
      assert name in Names(entries[1..]) by {
        var k :| 0 <= k < |entries| && entries[k].0 == name;
        assert entries[1..][k - 1].0 == name;
      }
      1 + IndexOf(entries[1..], name)
  }

  /** `IndexOf` finds the first entry with that name. */
  lemma {:induction false} IndexOfFirst(entries: Entries, name: string)
    requires name in Names(entries)
    ensures forall j :: 0 <= j < IndexOf(entries, name) ==> entries[j].0 != name
  {
    if entries[0].0 != name {
      assert name in Names(entries[1..]) by {
        var k :| 0 <= k < |entries| && entries[k].0 == name;
        assert entries[1..][k - 1].0 == name;
      }
      IndexOfFirst(entries[1..], name);
    }
  }

  /** Two stores with the same names at the same positions find a name at the same position. */
  lemma {:induction false} IndexOfSameNames(a: Entries, b: Entries, name: string)
    requires |a| == |b| && (forall j :: 0 <= j < |a| ==> a[j].0 == b[j].0) && name in Names(a)
    ensures name in Names(b) && IndexOf(a, name) == IndexOf(b, name)
  {
    NamesOfSameNames(a, b);
    if a[0].0 != name {
      assert name in Names(a[1..]) by {
        var k :| 0 <= k < |a| && a[k].0 == name;
        assert a[1..][k - 1].0 == name;
      }
      IndexOfSameNames(a[1..], b[1..], name);
    }
  }

  /** `categories[name]` */
  function KeywordsOf(entries: Entries, name: string): seq<string>
    requires name in Names(entries)
  {
    entries[IndexOf(entries, name)].1
  }

  /** The in-memory effect of `add_keyword_to_category(category, keyword)`
      (main.py:65-71), with its boolean result. The dict lookup runs only
      once the stripped keyword is known to be non-empty; a category that is
      not a key then raises KeyError in the source, hence the precondition. */
  function WithKeyword(entries: Entries, category: string, keyword: string): (r: (bool, Entries))
    requires Strip(keyword) != [] ==> category in Names(entries)
    ensures r.0 <==> Strip(keyword) != [] && Strip(keyword) !in KeywordsOf(entries, category)
    ensures Strip(keyword) == [] ==> r == (false, entries)
    ensures Names(r.1) == Names(entries)
    ensures !r.0 ==> r.1 == entries
  {
    var kw := Strip(keyword);
    if kw == [] then (false, entries)
    else
      var i := IndexOf(entries, category);
      var current := entries[i].1;
      if kw !in current then
        var updated := entries[i := (category, current + [kw])];
        NamesOfSameNames(entries, updated);
        (true, updated)
      else
        (false, entries)
  }

  /** Adding a keyword changes only the keyword list of `category`, which
      gains the stripped keyword at its end exactly when it was added. */
  lemma WithKeywordEffect(entries: Entries, category: string, keyword: string)
    requires Strip(keyword) != [] ==> category in Names(entries)
    ensures var (added, r) := WithKeyword(entries, category, keyword);
      |r| == |entries|
      && (forall j :: 0 <= j < |entries| ==> r[j].0 == entries[j].0)
      && (forall j :: 0 <= j < |entries| && entries[j].0 != category ==> r[j] == entries[j])
      && (category in Names(entries) ==>
           KeywordsOf(r, category)
           == if added then KeywordsOf(entries, category) + [Strip(keyword)] else KeywordsOf(entries, category))
  {
    var (added, r) := WithKeyword(entries, category, keyword);
    if added {
      IndexOfSameNames(entries, r, category);
    }
  }

  /** The in-memory effect of the add-category step (main.py:99-102): a new,
      empty keyword list is appended when the name is non-empty and not yet a key. */
  function WithCategory(entries: Entries, name: string): (r: (bool, Entries))
    ensures r.0 <==> name != "" && name !in Names(entries)
    ensures Names(r.1) == if r.0 then Names(entries) + {name} else Names(entries)
    ensures !r.0 ==> r.1 == entries
  {
    if name != "" && name !in Names(entries) then
      var grown := entries + [(name, [])];
      assert Names(grown) == Names(entries) + {name} by {
        assert grown[|entries|].0 == name;
        forall n | n in Names(grown) ensures n in Names(entries) + {name} {
          var k :| 0 <= k < |grown| && grown[k].0 == n;
          if k < |entries| {
            assert entries[k].0 == n;
          }
        }
        forall n | n in Names(entries) ensures n in Names(grown) {
          var k :| 0 <= k < |entries| && entries[k].0 == n;
          assert grown[k].0 == n;
        }
      }
      (true, grown)
    else (false, entries)
  }

  /** A new category goes last in iteration order with no keywords, and every
      existing category keeps its position and its keyword list. */
  lemma WithCategoryEffect(entries: Entries, name: string)
    ensures var (added, r) := WithCategory(entries, name);
      added ==>
        |r| == |entries| + 1 && r[..|entries|] == entries
        && KeywordsOf(r, name) == []
        && forall other :: other in Names(entries) ==> KeywordsOf(r, other) == KeywordsOf(entries, other)
  {
    var (added, r) := WithCategory(entries, name);
    if added {
      assert r[..|entries|] == entries;
      IndexOfFirst(r, name);
      assert r[|entries|].0 == name;
      forall j | 0 <= j < |entries| ensures r[j].0 != name {
        assert entries[j].0 in Names(entries);
      }
      forall other | other in Names(entries) ensures KeywordsOf(r, other) == KeywordsOf(entries, other) {
        IndexOfPrefix(entries, r, other);
      }
    }
  }

  /** Extending a store at its end does not move the first entry of a name already present. */
  lemma {:induction false} IndexOfPrefix(a: Entries, b: Entries, name: string)
    requires a <= b && name in Names(a)
    ensures name in Names(b) && IndexOf(b, name) == IndexOf(a, name)
  {
    var k :| 0 <= k < |a| && a[k].0 == name;
    assert b[k] == a[k];
    if a[0].0 != name {
      assert name in Names(a[1..]) by {
        assert a[1..][k - 1].0 == name;
      }
      assert a[1..] <= b[1..];
      IndexOfPrefix(a[1..], b[1..], name);
    }
  }

  lemma NamesOfSameNames(a: Entries, b: Entries)
    requires |a| == |b| && forall j :: 0 <= j < |a| ==> a[j].0 == b[j].0
    ensures Names(a) == Names(b)
  {
    forall n | n in Names(a) ensures n in Names(b) {
      var k :| 0 <= k < |a| && a[k].0 == n;
      assert b[k].0 == n;
    }
    forall n | n in Names(b) ensures n in Names(a) {
      var k :| 0 <= k < |b| && b[k].0 == n;
      assert a[k].0 == n;
    }
  }

  /** Adding a keyword leaves every other category's list as it was. */
  lemma WithKeywordOthersUntouched(entries: Entries, category: string, keyword: string, other: string)
    requires (Strip(keyword) != [] ==> category in Names(entries)) && other in Names(entries) && other != category
    ensures KeywordsOf(WithKeyword(entries, category, keyword).1, other) == KeywordsOf(entries, other)
  {
    var r := WithKeyword(entries, category, keyword).1;
    var i := IndexOf(entries, other);
    WithKeywordEffect(entries, category, keyword);
    assert r[i] == entries[i];
    IndexOfSameNames(entries, r, other);
  }

  /** The keyword list of any category `other` after `add_keyword_to_category(category, keyword)`. */
  lemma KeywordsAfterAdd(entries: Entries, category: string, keyword: string, other: string)
    requires (Strip(keyword) != [] ==> category in Names(entries)) && other in Names(entries)
    ensures var (added, r) := WithKeyword(entries, category, keyword);
      KeywordsOf(r, other)
      == if added && other == category then KeywordsOf(entries, other) + [Strip(keyword)] else KeywordsOf(entries, other)
  {
    WithKeywordEffect(entries, category, keyword);
    if other != category {
      WithKeywordOthersUntouched(entries, category, keyword, other);
    }
  }

  /** `add_keyword_to_category` keeps the store well formed. */
  lemma WithKeywordWellFormed(entries: Entries, category: string, keyword: string)
    requires (Strip(keyword) != [] ==> category in Names(entries)) && NamesUnique(entries)
    ensures NamesUnique(WithKeyword(entries, category, keyword).1)
    ensures WellFormed(entries) ==> WellFormed(WithKeyword(entries, category, keyword).1)
  {
    var (added, r) := WithKeyword(entries, category, keyword);
    WithKeywordEffect(entries, category, keyword);
    if added && WellFormed(entries) {
      var i := IndexOf(entries, category);
      var kw := Strip(keyword);
      assert r[i].1 == entries[i].1 + [kw];
      assert Distinct(r[i].1) by {
        forall a, b | 0 <= a < b < |r[i].1| ensures r[i].1[a] != r[i].1[b] {
          if b == |entries[i].1| {
            assert r[i].1[b] == kw;
            assert r[i].1[a] == entries[i].1[a];
          }
        }
      }
    }
  }

  /** The add-category step keeps the store well formed. */
  lemma WithCategoryWellFormed(entries: Entries, name: string)
    requires NamesUnique(entries)
    ensures NamesUnique(WithCategory(entries, name).1)
    ensures WellFormed(entries) ==> WellFormed(WithCategory(entries, name).1)
  {
    var (added, r) := WithCategory(entries, name);
    if added {
      forall i | 0 <= i < |entries| ensures r[i].0 != name {
        assert entries[i].0 in Names(entries);
      }
    }
  }

  /**
   * The session's category dict (`st.session_state.categories`) together with
   * a ghost snapshot of the categories file: `persisted` is what the last
   * `save_categories()` wrote, or what the file held when it was loaded, and
   * None when there is no such file yet.
   */
  class CategoryStore {
    var entries: Entries
    ghost var persisted: Option<Entries>

    /** A Python dict has unique keys. */
    ghost predicate Valid()
      reads this
    {
      NamesUnique(entries)
    }

    /** No categories file exists: the store starts as `{"Uncategorized": []}`
        (main.py:21-24) and nothing has been written. */
    constructor Default()
      ensures Valid() && WellFormed(entries)
      ensures entries == [(Uncategorized, [])] && persisted == None
    {
      entries := [(Uncategorized, [])];
      persisted := None;
    }

    /** The categories file exists and holds `saved` (main.py:17-19); the JSON
        decoding itself is not modelled. */
    constructor Loaded(saved: Entries)
      requires NamesUnique(saved)
      ensures Valid() && entries == saved && persisted == Some(saved)
    {
      entries := saved;
      persisted := Some(saved);
    }

    /** `save_categories()` (main.py:27-29): the file now holds the whole store. */
    method Save()
      modifies this
      ensures entries == old(entries) && persisted == Some(entries)
    {
      persisted := Some(entries);
    }

    /** `add_keyword_to_category(category, keyword)` (main.py:65-71). */
    method AddKeyword(category: string, keyword: string) returns (added: bool)
      requires Valid() && (Strip(keyword) != [] ==> category in Names(entries))
      modifies this
      ensures Valid()
      ensures (added, entries) == WithKeyword(old(entries), category, keyword)
      ensures added ==> persisted == Some(entries)
      ensures !added ==> entries == old(entries) && persisted == old(persisted)
      ensures old(WellFormed(entries)) ==> WellFormed(entries)
    {
      ghost var before := entries;
      WithKeywordWellFormed(before, category, keyword);
      var kw := Strip(keyword);
      if kw == [] {
        return false;
      }
      var i := IndexOf(entries, category);
      var current := entries[i].1;
      if kw !in current {
        entries := entries[i := (category, current + [kw])];
        Save();
        added := true;
      } else {
        added := false;
      }
    }

    /** The add-category step of the dashboard (main.py:99-102). */
    method AddCategory(name: string) returns (added: bool)
      requires Valid()
      modifies this
      ensures Valid()
      ensures (added, entries) == WithCategory(old(entries), name)
      ensures added ==> persisted == Some(entries)
      ensures !added ==> persisted == old(persisted)
      ensures old(WellFormed(entries)) ==> WellFormed(entries)
    {
      WithCategoryWellFormed(entries, name);
      if name != "" {
        if name !in Names(entries) {
          entries := entries + [(name, [])];
          Save();
          added := true;
          return;
        }
      }
      added := false;
    }
  }
}
