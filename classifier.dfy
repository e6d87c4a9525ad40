/**
 * `categorize_transactions` (main.py:32-49): every row is reset to
 * "Uncategorized", then the categories are visited in dict order and every
 * row whose normalized details contain a normalized keyword of the visited
 * category is overwritten with that category's name.
 */
module Classifier {
  import opened Text
  import opened Categories

  datatype Date = Date(year: int, month: int, day: int)

  /** One ledger row. `amount` is in minor currency units; `direction` is the
      raw "Debit/Credit" column. */
  datatype Transaction = Transaction(
    date: Date,
    details: string,
    amount: int,
    direction: string,
    category: string)

  /** `[keyword.lower().strip() for keyword in keywords]` (main.py:41) */
  function NormalizeAll(keywords: seq<string>): (r: seq<string>)
    ensures |r| == |keywords|
    ensures forall i :: 0 <= i < |keywords| ==> r[i] == Normalize(keywords[i])
  {
    if keywords == [] then [] else [Normalize(keywords[0])] + NormalizeAll(keywords[1..])
  }

  /** `any(keyword in details for keyword in lowered)` (main.py:46) */
  function AnyKeywordIn(lowered: seq<string>, details: string): (r: bool)
  {
    if lowered == [] then false
    else if Contains(details, lowered[0]) then true
    else AnyKeywordIn(lowered[1..], details)
  }

  /** The `any` test holds exactly when some normalized keyword occurs in the details. */
  lemma {:induction false} AnyKeywordInIff(lowered: seq<string>, details: string)
    ensures AnyKeywordIn(lowered, details) <==> exists i :: 0 <= i < |lowered| && Contains(details, lowered[i])
  {
    if lowered != [] {
      AnyKeywordInIff(lowered[1..], details);
      assert forall i :: 1 <= i < |lowered| ==> lowered[i] == lowered[1..][i - 1];
    }
  }

  /** Categories the loop does not skip (main.py:37-38). */
  predicate Eligible(e: Entry) {
    e.0 != Uncategorized && |e.1| > 0
  }

  /** Visiting `e` writes its name into a row with these details. */
  predicate Assigns(e: Entry, details: string) {
    Eligible(e) && AnyKeywordIn(NormalizeAll(e.1), Normalize(details))
  }

  /** Index `i` is the last category, in iteration order, that assigns these details. */
  ghost predicate IsLastMatch(entries: Entries, details: string, i: int) {
    0 <= i < |entries| && Assigns(entries[i], details)
    && forall j :: i < j < |entries| ==> !Assigns(entries[j], details)
  }

  ghost predicate NoneAssigns(entries: Entries, details: string) {
    forall j :: 0 <= j < |entries| ==> !Assigns(entries[j], details)
  }

  /** The category a row with these details ends up with once the loop has
      visited all of `entries`. */
  function CategoryFor(entries: Entries, details: string): string
  {
    if entries == [] then Uncategorized
    else if Assigns(entries[|entries| - 1], details) then entries[|entries| - 1].0
    else CategoryFor(entries[..|entries| - 1], details)
  }

  /** The whole frame after `categorize_transactions`. */
  function Classify(rows: seq<Transaction>, entries: Entries): seq<Transaction>
  {
    seq(|rows|, k requires 0 <= k < |rows| => rows[k].(category := CategoryFor(entries, rows[k].details)))
  }

  /** A row ends as "Uncategorized" exactly when no visited category matches
      it, and otherwise takes the name of the last category that matches. */
  lemma {:induction false} CategoryForCharacterized(entries: Entries, details: string)
    ensures var r := CategoryFor(entries, details);
      (NoneAssigns(entries, details) && r == Uncategorized)
      || (exists i :: IsLastMatch(entries, details, i) && r == entries[i].0)
  {
    if entries != [] {
      var n := |entries| - 1;
      if Assigns(entries[n], details) {
        assert IsLastMatch(entries, details, n);
      } else {
        CategoryForCharacterized(entries[..n], details);
        ExtendByNonMatch(entries, details);
      }
    }
  }

  /** Appending a category that does not match keeps "no match" and "last match". */
  lemma ExtendByNonMatch(entries: Entries, details: string)
    requires entries != [] && !Assigns(entries[|entries| - 1], details)
    ensures var front := entries[..|entries| - 1];
      (NoneAssigns(front, details) ==> NoneAssigns(entries, details))
      && forall i :: IsLastMatch(front, details, i) ==> IsLastMatch(entries, details, i)
  {
  }

  /** Last writer wins: the last category in iteration order that has a
      keyword matching the details is the one the row ends with. */
  lemma LastWriterWins(entries: Entries, details: string, i: int)
    requires IsLastMatch(entries, details, i)
    ensures CategoryFor(entries, details) == entries[i].0
  {
    CategoryForCharacterized(entries, details);
    var j :| IsLastMatch(entries, details, j) && CategoryFor(entries, details) == entries[j].0;
    assert i == j;
  }

  /** A row that no eligible category matches stays "Uncategorized"; and a
      row stays "Uncategorized" only if none matches. */
  lemma UncategorizedIffNoMatch(entries: Entries, details: string)
    ensures CategoryFor(entries, details) == Uncategorized <==> NoneAssigns(entries, details)
  {
    CategoryForCharacterized(entries, details);
  }

  /** Every row gets either "Uncategorized" or the name of a category of the
      store that is neither "Uncategorized" nor empty. */
  lemma CategoryForIsEligibleName(entries: Entries, details: string)
    ensures var r := CategoryFor(entries, details);
      r == Uncategorized || exists i :: 0 <= i < |entries| && Eligible(entries[i]) && entries[i].0 == r
  {
    CategoryForCharacterized(entries, details);
  }

  /** Visiting one more category either overwrites a row with its name or leaves it. */
  lemma CategoryForStep(entries: Entries, c: nat, details: string)
    requires c < |entries|
    ensures CategoryFor(entries[..c + 1], details)
            == if Assigns(entries[c], details) then entries[c].0 else CategoryFor(entries[..c], details)
  {
    assert entries[..c + 1][..c] == entries[..c];
  }

  /** Classification keeps every row, in order, and changes nothing but `category`. */
  lemma ClassifyKeepsRows(rows: seq<Transaction>, entries: Entries)
    ensures |Classify(rows, entries)| == |rows|
    ensures forall k :: 0 <= k < |rows| ==>
      var c := Classify(rows, entries)[k];
      c.date == rows[k].date && c.details == rows[k].details
      && c.amount == rows[k].amount && c.direction == rows[k].direction
  {
  }

  /** The result depends only on the rows' details and the store, not on the
      categories the rows held before. */
  lemma ClassifyDependsOnlyOnDetails(a: seq<Transaction>, b: seq<Transaction>, entries: Entries)
    requires |a| == |b| && forall k :: 0 <= k < |a| ==> a[k].details == b[k].details
    ensures forall k :: 0 <= k < |a| ==> Classify(a, entries)[k].category == Classify(b, entries)[k].category
  {
  }

  /** Classifying an already classified frame changes nothing. */
  lemma ClassifyIdempotent(rows: seq<Transaction>, entries: Entries)
    ensures Classify(Classify(rows, entries), entries) == Classify(rows, entries)
  {
  }

  /** Row `r` is row `o` classified against `entries`. */
  ghost predicate ClassifiedBy(r: Transaction, o: Transaction, entries: Entries) {
    r == o.(category := CategoryFor(entries, o.details))
  }

  /** `categorize_transactions(df)` over the rows of `df`, held in an array
      and updated in place as `df.at[idx, "Category"] = category` does. */
  method Categorize(rows: array<Transaction>, store: CategoryStore)
    modifies rows
    ensures rows[..] == Classify(old(rows[..]), store.entries)
  {
    ghost var orig := rows[..];
    ResetCategories(rows);
    var entries := store.entries;
    assert entries[..0] == [];
    var c := 0;
    while c < |entries|
      invariant 0 <= c <= |entries|
      invariant forall m :: 0 <= m < rows.Length ==> ClassifiedBy(rows[m], orig[m], entries[..c])
    {
      var (name, keywords) := entries[c];
      if name == Uncategorized || |keywords| == 0 {
        forall m | 0 <= m < rows.Length ensures ClassifiedBy(rows[m], orig[m], entries[..c + 1]) {
          CategoryForStep(entries, c, orig[m].details);
        }
        c := c + 1;
        continue;
      }
      var lowered := NormalizeAll(keywords);
      VisitCategory(rows, name, lowered, entries, c, orig);
      c := c + 1;
    }
    assert entries[..c] == entries;
    forall m | 0 <= m < rows.Length ensures rows[m] == Classify(orig, entries)[m] {
      assert ClassifiedBy(rows[m], orig[m], entries);
    }
  }

  /** `df["Category"] = "Uncategorized"` (main.py:33) */
  method ResetCategories(rows: array<Transaction>)
    modifies rows
    ensures forall m :: 0 <= m < rows.Length ==> ClassifiedBy(rows[m], old(rows[m]), [])
  {
    var k := 0;
    while k < rows.Length
      invariant 0 <= k <= rows.Length
      invariant forall m :: 0 <= m < k ==> rows[m] == old(rows[m]).(category := Uncategorized)
      invariant forall m :: k <= m < rows.Length ==> rows[m] == old(rows[m])
    {
      rows[k] := rows[k].(category := Uncategorized);
      k := k + 1;
    }
  }

  /** The inner loop of `categorize_transactions` (main.py:43-47) for the
      visited category `entries[c]`, whose normalized keywords are `lowered`. */
  method VisitCategory(rows: array<Transaction>, name: string, lowered: seq<string>,
                       ghost entries: Entries, ghost c: nat, ghost orig: seq<Transaction>)
    requires c < |entries| && entries[c].0 == name && Eligible(entries[c])
    requires lowered == NormalizeAll(entries[c].1)
    requires |orig| == rows.Length
    requires forall m :: 0 <= m < rows.Length ==> ClassifiedBy(rows[m], orig[m], entries[..c])
    modifies rows
    ensures forall m :: 0 <= m < rows.Length ==> ClassifiedBy(rows[m], orig[m], entries[..c + 1])
  {
    var idx := 0;
    while idx < rows.Length
      invariant 0 <= idx <= rows.Length
      invariant forall m :: 0 <= m < idx ==> ClassifiedBy(rows[m], orig[m], entries[..c + 1])
      invariant forall m :: idx <= m < rows.Length ==> ClassifiedBy(rows[m], orig[m], entries[..c])
    {
      var details := Normalize(rows[idx].details);
      CategoryForStep(entries, c, orig[idx].details);
      if AnyKeywordIn(lowered, details) {
        rows[idx] := rows[idx].(category := name);
      }
      idx := idx + 1;
    }
  }
}
