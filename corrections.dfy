/**
 * The "Apply Changes" pass of the dashboard (main.py:125-138): every edited
 * row whose category differs from the one shown is re-assigned and its
 * details are offered to the new category as a keyword; the store is saved
 * once afterwards.
 */
module Corrections {
  import opened Text
  import opened Categories
  import opened Classifier

  /** A row of the data editor's result, reduced to the columns the pass reads. */
  datatype EditedRow = EditedRow(details: string, category: string)

  /** The user picked a category other than the one the row holds (main.py:129). */
  predicate Changed(row: Transaction, edit: EditedRow) {
    edit.category != row.category
  }

  /** The store is a dict, the editor has one row per shown row, and every
      category the user switched a row with non-blank details to is a key of
      the store (the select box offers only keys); for blank details
      `add_keyword_to_category` returns before its lookup. */
  ghost predicate Applicable(entries: Entries, rows: seq<Transaction>, edited: seq<EditedRow>) {
    NamesUnique(entries) && |edited| == |rows|
    && forall i :: 0 <= i < |rows| && Changed(rows[i], edited[i]) && Strip(edited[i].details) != [] ==>
         edited[i].category in Names(entries)
  }

  /** The store once the pass has handled the first `n` rows. */
  function LearnedAfter(entries: Entries, rows: seq<Transaction>, edited: seq<EditedRow>, n: nat): (r: Entries)
    requires n <= |rows| && Applicable(entries, rows, edited)
    ensures Names(r) == Names(entries)
  {
    if n == 0 then entries
    else
      var prev := LearnedAfter(entries, rows, edited, n - 1);
      if Changed(rows[n - 1], edited[n - 1]) then
        WithKeyword(prev, edited[n - 1].category, edited[n - 1].details).1
      else
        prev
  }

  /** Learning keeps every category at its position. */
  lemma {:induction false} LearnedAfterKeepsOrder(entries: Entries, rows: seq<Transaction>, edited: seq<EditedRow>, n: nat)
    requires n <= |rows| && Applicable(entries, rows, edited)
    ensures var r := LearnedAfter(entries, rows, edited, n);
      |r| == |entries| && forall j :: 0 <= j < |entries| ==> r[j].0 == entries[j].0
  {
    if n > 0 {
      LearnedAfterKeepsOrder(entries, rows, edited, n - 1);
      var prev := LearnedAfter(entries, rows, edited, n - 1);
      if Changed(rows[n - 1], edited[n - 1]) {
        WithKeywordEffect(prev, edited[n - 1].category, edited[n - 1].details);
      }
    }
  }

  /** Learning keeps keys unique and adds no duplicate keyword. */
  lemma {:induction false} LearnedAfterWellFormed(entries: Entries, rows: seq<Transaction>, edited: seq<EditedRow>, n: nat)
    requires n <= |rows| && Applicable(entries, rows, edited)
    ensures var r := LearnedAfter(entries, rows, edited, n);
      NamesUnique(r) && (WellFormed(entries) ==> WellFormed(r))
  {
    if n > 0 {
      LearnedAfterWellFormed(entries, rows, edited, n - 1);
      var prev := LearnedAfter(entries, rows, edited, n - 1);
      if Changed(rows[n - 1], edited[n - 1]) {
        WithKeywordWellFormed(prev, edited[n - 1].category, edited[n - 1].details);
      }
    }
  }

  /** A pass in which no row changed category learns nothing. */
  lemma {:induction false} NoChangeLearnsNothing(entries: Entries, rows: seq<Transaction>, edited: seq<EditedRow>, n: nat)
    requires n <= |rows| && Applicable(entries, rows, edited)
    requires forall i :: 0 <= i < n ==> !Changed(rows[i], edited[i])
    ensures LearnedAfter(entries, rows, edited, n) == entries
  {
    if n > 0 {
      NoChangeLearnsNothing(entries, rows, edited, n - 1);
    }
  }

  /** Learning never forgets: every category's old keyword list is a prefix of
      its list after the pass. */
  lemma {:induction false} LearningOnlyAppends(entries: Entries, rows: seq<Transaction>, edited: seq<EditedRow>,
                                               n: nat, c: string)
    requires n <= |rows| && Applicable(entries, rows, edited) && c in Names(entries)
    ensures KeywordsOf(entries, c) <= KeywordsOf(LearnedAfter(entries, rows, edited, n), c)
  {
    if n > 0 {
      LearningOnlyAppends(entries, rows, edited, n - 1, c);
      LearnedStepExtends(entries, rows, edited, n, c);
      PrefixTransitive(KeywordsOf(entries, c),
                       KeywordsOf(LearnedAfter(entries, rows, edited, n - 1), c),
                       KeywordsOf(LearnedAfter(entries, rows, edited, n), c));
    }
  }

  /** Handling one row keeps every keyword list as a prefix of the new one. */
  lemma LearnedStepExtends(entries: Entries, rows: seq<Transaction>, edited: seq<EditedRow>, n: nat, c: string)
    requires 0 < n <= |rows| && Applicable(entries, rows, edited) && c in Names(entries)
    ensures KeywordsOf(LearnedAfter(entries, rows, edited, n - 1), c) <= KeywordsOf(LearnedAfter(entries, rows, edited, n), c)
  {
    LearnedStep(entries, rows, edited, n, c);
  }

  lemma PrefixTransitive(a: seq<string>, b: seq<string>, c: seq<string>)
    requires a <= b && b <= c
    ensures a <= c
  {
    assert c[..|a|] == b[..|a|];
  }

  /** The keyword list of `c` after row `n - 1` has been handled. */
  lemma LearnedStep(entries: Entries, rows: seq<Transaction>, edited: seq<EditedRow>, n: nat, c: string)
    requires 0 < n <= |rows| && Applicable(entries, rows, edited) && c in Names(entries)
    ensures var prev := KeywordsOf(LearnedAfter(entries, rows, edited, n - 1), c);
      var e := edited[n - 1];
      KeywordsOf(LearnedAfter(entries, rows, edited, n), c)
      == if Changed(rows[n - 1], e) && e.category == c && Strip(e.details) != [] && Strip(e.details) !in prev
         then prev + [Strip(e.details)]
         else prev
  {
    var prev := LearnedAfter(entries, rows, edited, n - 1);
    if Changed(rows[n - 1], edited[n - 1]) {
      KeywordsAfterAdd(prev, edited[n - 1].category, edited[n - 1].details, c);
    }
  }

  /** Every keyword the pass adds to `c` is the stripped details of a row the
      user switched to `c`. */
  lemma {:induction false} LearnedKeywordsComeFromCorrections(entries: Entries, rows: seq<Transaction>,
                                                              edited: seq<EditedRow>, n: nat, c: string, k: string)
    requires n <= |rows| && Applicable(entries, rows, edited) && c in Names(entries)
    requires k in KeywordsOf(LearnedAfter(entries, rows, edited, n), c) && k !in KeywordsOf(entries, c)
    ensures exists i :: 0 <= i < n && Changed(rows[i], edited[i]) && edited[i].category == c
                        && k == Strip(edited[i].details)
  {
    if n == 0 {
      assert false;
    }
    var i := n - 1;
    LearnedStep(entries, rows, edited, n, c);
    if !(Changed(rows[i], edited[i]) && edited[i].category == c && k == Strip(edited[i].details)) {
      assert k in KeywordsOf(LearnedAfter(entries, rows, edited, n - 1), c);
      LearnedKeywordsComeFromCorrections(entries, rows, edited, n - 1, c, k);
    }
  }

  /** Every correction is learned: after the pass has handled row `i`, the
      stripped details of a row the user switched to `c` are in `c`'s list,
      whether this row added them or an earlier one did. */
  lemma {:induction false} CorrectionsAreLearned(entries: Entries, rows: seq<Transaction>,
                                                 edited: seq<EditedRow>, n: nat, i: nat)
    requires n <= |rows| && Applicable(entries, rows, edited)
    requires i < n && Changed(rows[i], edited[i]) && Strip(edited[i].details) != []
    ensures edited[i].category in Names(entries)
    ensures Strip(edited[i].details) in KeywordsOf(LearnedAfter(entries, rows, edited, n), edited[i].category)
  {
    var c := edited[i].category;
    if n == i + 1 {
      LearnedStep(entries, rows, edited, n, c);
    } else {
      CorrectionsAreLearned(entries, rows, edited, n - 1, i);
      LearnedStepExtends(entries, rows, edited, n, c);
    }
  }

  /** The pass learns and reclassifies: after it, every transaction whose
      normalized details contain the normalized details of a row the user
      switched to `c` (other than "Uncategorized") is put into `c`, unless a
      category later in iteration order also matches it. */
  lemma PassReclassifies(entries: Entries, rows: seq<Transaction>, edited: seq<EditedRow>, i: nat, t: string)
    requires Applicable(entries, rows, edited)
    requires i < |rows| && Changed(rows[i], edited[i]) && Strip(edited[i].details) != []
    requires edited[i].category != Uncategorized
    requires Contains(Normalize(t), Normalize(edited[i].details))
    requires var r := LearnedAfter(entries, rows, edited, |rows|);
      forall j :: IndexOf(r, edited[i].category) < j < |r| ==> !Assigns(r[j], t)
    ensures CategoryFor(LearnedAfter(entries, rows, edited, |rows|), t) == edited[i].category
  {
    var r := LearnedAfter(entries, rows, edited, |rows|);
    var c := edited[i].category;
    var d := edited[i].details;
    LearnedAfterWellFormed(entries, rows, edited, |rows|);
    CorrectionsAreLearned(entries, rows, edited, |rows|, i);
    var k := IndexOf(r, c);
    var kws := r[k].1;
    var p :| 0 <= p < |kws| && kws[p] == Strip(d);
    var lowered := NormalizeAll(kws);
    NormalizeStrip(d);
    assert lowered[p] == Normalize(d);
    AnyKeywordInIff(lowered, Normalize(t));
    assert Assigns(r[k], t);
    assert IsLastMatch(r, t, k);
    LastWriterWins(r, t, k);
  }

  /** The feedback loop pays off: once the details `d` of a row have been
      offered to an existing category `c` (other than "Uncategorized"), every
      transaction whose normalized details contain the normalized `d` is put
      into `c`, unless a category later in iteration order also matches it. */
  lemma LearnedKeywordClassifies(entries: Entries, c: string, d: string, t: string)
    requires NamesUnique(entries) && c in Names(entries) && c != Uncategorized
    requires Strip(d) != []
    requires Contains(Normalize(t), Normalize(d))
    requires forall j :: IndexOf(entries, c) < j < |entries| ==> !Assigns(entries[j], t)
    ensures CategoryFor(WithKeyword(entries, c, d).1, t) == c
  {
    var r := WithKeyword(entries, c, d).1;
    var i := IndexOf(entries, c);
    WithKeywordEffect(entries, c, d);
    assert IndexOf(r, c) == i;
    var kws := r[i].1;
    assert Strip(d) in kws;
    var p :| 0 <= p < |kws| && kws[p] == Strip(d);
    var lowered := NormalizeAll(kws);
    NormalizeStrip(d);
    assert lowered[p] == Normalize(d);
    AnyKeywordInIff(lowered, Normalize(t));
    assert Assigns(r[i], t);
    forall j | i < j < |r| ensures !Assigns(r[j], t) {
      assert entries[j].0 != c;
      assert r[j] == entries[j];
    }
    assert IsLastMatch(r, t, i);
    LastWriterWins(r, t, i);
  }

  /** The Apply Changes pass (main.py:125-138) over the shown rows `rows`
      (`st.session_state.debits_df`) and the editor's result `edited`. */
  method ApplyChanges(rows: array<Transaction>, edited: seq<EditedRow>, store: CategoryStore)
    requires store.Valid() && Applicable(store.entries, rows[..], edited)
    modifies rows, store
    ensures store.Valid()
    ensures forall i :: 0 <= i < rows.Length ==> rows[i] == old(rows[i]).(category := edited[i].category)
    ensures store.entries == LearnedAfter(old(store.entries), old(rows[..]), edited, |edited|)
    ensures store.persisted == Some(store.entries)
    ensures old(WellFormed(store.entries)) ==> WellFormed(store.entries)
  {
    ghost var orig := rows[..];
    ghost var start := store.entries;
    var idx := 0;
    while idx < rows.Length
      invariant 0 <= idx <= rows.Length
      invariant store.Valid()
      invariant WellFormed(start) ==> WellFormed(store.entries)
      invariant store.entries == LearnedAfter(start, orig, edited, idx)
      invariant forall m :: 0 <= m < idx ==> rows[m] == orig[m].(category := edited[m].category)
      invariant forall m :: idx <= m < rows.Length ==> rows[m] == orig[m]
    {
      var newCategory := edited[idx].category;
      if newCategory == rows[idx].category {
        idx := idx + 1;
        continue;
      }
      assert Changed(orig[idx], edited[idx]);
      var details := edited[idx].details;
      assert Names(store.entries) == Names(start);
      assert Strip(details) != [] ==> newCategory in Names(start);
      rows[idx] := rows[idx].(category := newCategory);
      ghost var updated := rows[..];
      var added := store.AddKeyword(newCategory, details);
      assert rows[..] == updated;
      assert store.entries == LearnedAfter(start, orig, edited, idx + 1);
      idx := idx + 1;
    }
    store.Save();
  }
}
