/**
 * The expense summary (main.py:146-147): the shown rows are grouped by
 * category, `Amount` is summed per group, and the groups are ordered by
 * total, largest first.
 */
module Summary {
  import opened Classifier

  /** One row of `category_totals`: a category and the sum of its amounts. */
  type Total = (string, int)

  /** Sum of `Amount` over the rows in category `c`. */
  function SumFor(rows: seq<Transaction>, c: string): int {
    if rows == [] then 0
    else
      var last := rows[|rows| - 1];
      SumFor(rows[..|rows| - 1], c) + (if last.category == c then last.amount else 0)
  }

  function CategoriesOf(rows: seq<Transaction>): set<string> {
    set i | 0 <= i < |rows| :: rows[i].category
  }

  function NamesOf(ts: seq<Total>): set<string> {
    set i | 0 <= i < |ts| :: ts[i].0
  }

  /** No two groups share a name. It has the shape of `Categories.NamesUnique`
      over a different element type, and is kept separate on purpose so that
      the summary proofs do not instantiate the store's quantifiers. */
  ghost predicate DistinctNames(ts: seq<Total>) {
    forall i, j :: 0 <= i < j < |ts| ==> ts[i].0 != ts[j].0
  }

  /** The total recorded for group `c`, 0 when there is no such group. */
  function TotalOf(ts: seq<Total>, c: string): int {
    if ts == [] then 0
    else if ts[0].0 == c then ts[0].1
    else TotalOf(ts[1..], c)
  }

  /** Adds one row's amount to its group, opening the group at the end when
      the category has not been seen yet. */
  function AddToGroup(ts: seq<Total>, c: string, amount: int): (r: seq<Total>)
    requires DistinctNames(ts)
    ensures DistinctNames(r)
    ensures NamesOf(r) == NamesOf(ts) + {c}
    ensures forall x :: TotalOf(r, x) == TotalOf(ts, x) + (if x == c then amount else 0)
  {
    if ts == [] then
      assert [(c, amount)][0].0 == c;
      assert NamesOf([(c, amount)]) == {c};
      [(c, amount)]
    else if ts[0].0 == c then
      var r := [(c, ts[0].1 + amount)] + ts[1..];
      assert NamesOf(r) == NamesOf(ts) by {
        assert forall i :: 0 <= i < |ts| ==> r[i].0 == ts[i].0;
        assert forall n :: n in NamesOf(ts) ==> exists i :: 0 <= i < |ts| && r[i].0 == n;
      }
      FirstNameNotInRest(ts, c);
      r
    else
      var rest := AddToGroup(ts[1..], c, amount);
      var r := [ts[0]] + rest;
      FirstNameNotInRest(ts, ts[0].0);
      NamesSplit(ts);
      ConsDistinct(ts[0], rest);
      NamesSplit(r);
      assert r[1..] == rest;
      r
  }

  lemma NamesSplit(ts: seq<Total>)
    requires ts != []
    ensures NamesOf(ts) == {ts[0].0} + NamesOf(ts[1..])
  {
    forall n | n in NamesOf(ts) ensures n in {ts[0].0} + NamesOf(ts[1..]) {
      var i :| 0 <= i < |ts| && ts[i].0 == n;
      if i > 0 {
        assert ts[1..][i - 1].0 == n;
      }
    }
    forall n | n in NamesOf(ts[1..]) ensures n in NamesOf(ts) {
      var i :| 0 <= i < |ts| - 1 && ts[1..][i].0 == n;
      assert ts[i + 1].0 == n;
    }
  }

  /** With names distinct, the first entry's name does not recur in the rest. */
  lemma FirstNameNotInRest(ts: seq<Total>, c: string)
    requires DistinctNames(ts) && ts != [] && ts[0].0 == c
    ensures c !in NamesOf(ts[1..])
  {
  }

  /** Putting an entry with a new name in front keeps names distinct. */
  lemma ConsDistinct(x: Total, ts: seq<Total>)
    requires DistinctNames(ts) && x.0 !in NamesOf(ts)
    ensures DistinctNames([x] + ts)
  {
    forall j | 0 <= j < |ts| ensures ts[j].0 != x.0 {
      assert ts[j].0 in NamesOf(ts);
    }
  }

  /** `df.groupby("Category")["Amount"].sum()` (main.py:146), in order of first appearance. */
  function Groups(rows: seq<Transaction>): (r: seq<Total>)
    ensures DistinctNames(r)
    ensures NamesOf(r) == CategoriesOf(rows)
    ensures forall x :: TotalOf(r, x) == SumFor(rows, x)
  {
    if rows == [] then []
    else
      var front := rows[..|rows| - 1];
      var last := rows[|rows| - 1];
      assert CategoriesOf(rows) == CategoriesOf(front) + {last.category} by {
        forall x | x in CategoriesOf(rows) ensures x in CategoriesOf(front) + {last.category} {
          var i :| 0 <= i < |rows| && rows[i].category == x;
          if i < |rows| - 1 {
            assert front[i].category == x;
          }
        }
        forall x | x in CategoriesOf(front) ensures x in CategoriesOf(rows) {
          var i :| 0 <= i < |front| && front[i].category == x;
          assert rows[i].category == x;
        }
      }
      AddToGroup(Groups(front), last.category, last.amount)
  }

  /** Lexicographic order on code points, as Python compares strings. */
  predicate LexLe(a: string, b: string) {
    if a == [] then true
    else if b == [] then false
    else if a[0] != b[0] then a[0] < b[0]
    else LexLe(a[1..], b[1..])
  }

  /** The summary order: larger total first; equal totals by name. */
  predicate Before(x: Total, y: Total) {
    x.1 > y.1 || (x.1 == y.1 && LexLe(x.0, y.0))
  }

  ghost predicate Sorted(ts: seq<Total>) {
    forall i, j :: 0 <= i < j < |ts| ==> Before(ts[i], ts[j])
  }

  /** Puts `x` in front of the first entry it does not come after. */
  function Insert(x: Total, ts: seq<Total>): (r: seq<Total>)
    ensures multiset(r) == multiset(ts) + multiset{x}
  {
    if ts == [] then [x]
    else if Before(x, ts[0]) then [x] + ts
    else
      assert ts == [ts[0]] + ts[1..];
      [ts[0]] + Insert(x, ts[1..])
  }

  /** Inserting adds exactly the name of `x`, and keeps names distinct when it is new. */
  lemma {:induction false} InsertNames(x: Total, ts: seq<Total>)
    ensures NamesOf(Insert(x, ts)) == NamesOf(ts) + {x.0}
    ensures DistinctNames(ts) && x.0 !in NamesOf(ts) ==> DistinctNames(Insert(x, ts))
  {
    var r := Insert(x, ts);
    if ts == [] {
      assert r[0].0 == x.0;
    } else if Before(x, ts[0]) {
      NamesSplit(r);
      assert r[1..] == ts;
      if DistinctNames(ts) && x.0 !in NamesOf(ts) {
        ConsDistinct(x, ts);
      }
    } else {
      var rest := Insert(x, ts[1..]);
      InsertNames(x, ts[1..]);
      NamesSplit(ts);
      NamesSplit(r);
      assert r[1..] == rest;
      if DistinctNames(ts) && x.0 !in NamesOf(ts) {
        FirstNameNotInRest(ts, ts[0].0);
        ConsDistinct(ts[0], rest);
      }
    }
  }

  /** `.sort_values("Amount", ascending=False)` (main.py:147), as an insertion sort. */
  function SortByTotal(ts: seq<Total>): (r: seq<Total>)
    ensures multiset(r) == multiset(ts)
  {
    if ts == [] then []
    else
      assert ts == [ts[0]] + ts[1..];
      Insert(ts[0], SortByTotal(ts[1..]))
  }

  /** Sorting keeps the set of names, and their distinctness. */
  lemma {:induction false} SortByTotalNames(ts: seq<Total>)
    ensures NamesOf(SortByTotal(ts)) == NamesOf(ts)
    ensures DistinctNames(ts) ==> DistinctNames(SortByTotal(ts))
  {
    if ts != [] {
      SortByTotalNames(ts[1..]);
      InsertNames(ts[0], SortByTotal(ts[1..]));
      NamesSplit(ts);
      if DistinctNames(ts) {
        FirstNameNotInRest(ts, ts[0].0);
      }
    }
  }

  /** `category_totals` (main.py:146-147). */
  function Summarize(rows: seq<Transaction>): seq<Total> {
    SortByTotal(Groups(rows))
  }

  lemma {:induction false} LexLeTotal(a: string, b: string)
    ensures LexLe(a, b) || LexLe(b, a)
  {
    if a != [] && b != [] && a[0] == b[0] {
      LexLeTotal(a[1..], b[1..]);
    }
  }

  lemma {:induction false} LexLeTransitive(a: string, b: string, c: string)
    requires LexLe(a, b) && LexLe(b, c)
    ensures LexLe(a, c)
  {
    if a != [] && b != [] && c != [] && a[0] == b[0] && b[0] == c[0] {
      LexLeTransitive(a[1..], b[1..], c[1..]);
    }
  }

  lemma {:induction false} LexLeAntisymmetric(a: string, b: string)
    requires LexLe(a, b) && LexLe(b, a)
    ensures a == b
  {
    if a != [] && b != [] {
      LexLeAntisymmetric(a[1..], b[1..]);
      assert a == [a[0]] + a[1..];
      assert b == [b[0]] + b[1..];
    }
  }

  /** The summary order leaves no choice: of two entries with different
      names, exactly one comes before the other. */
  lemma BeforeDecides(x: Total, y: Total)
    requires x.0 != y.0
    ensures Before(x, y) != Before(y, x)
  {
    LexLeTotal(x.0, y.0);
    if LexLe(x.0, y.0) && LexLe(y.0, x.0) {
      LexLeAntisymmetric(x.0, y.0);
    }
  }

  lemma BeforeTransitive(x: Total, y: Total, z: Total)
    requires Before(x, y) && Before(y, z)
    ensures Before(x, z)
  {
    if x.1 == y.1 && y.1 == z.1 {
      LexLeTransitive(x.0, y.0, z.0);
    }
  }

  lemma {:induction false} InsertSorted(x: Total, ts: seq<Total>)
    requires Sorted(ts)
    ensures Sorted(Insert(x, ts))
  {
    if ts != [] {
      var r := Insert(x, ts);
      if Before(x, ts[0]) {
        forall j | 0 < j < |r| ensures Before(r[0], r[j]) {
          if j > 1 {
            BeforeTransitive(x, ts[0], ts[j - 1]);
          }
        }
      } else {
        var rest := Insert(x, ts[1..]);
        InsertSorted(x, ts[1..]);
        LexLeTotal(x.0, ts[0].0);
        forall j | 0 <= j < |rest| ensures Before(ts[0], rest[j]) {
          assert rest[j] in multiset(ts[1..]) + multiset{x};
          if rest[j] != x {
            assert rest[j] in ts[1..];
          }
        }
      }
    }
  }

  lemma {:induction false} SortByTotalSorted(ts: seq<Total>)
    ensures Sorted(SortByTotal(ts))
  {
    if ts != [] {
      SortByTotalSorted(ts[1..]);
      InsertSorted(ts[0], SortByTotal(ts[1..]));
    }
  }

  /** With distinct names, a group's entry carries that group's total. */
  lemma {:induction false} TotalOfEntry(ts: seq<Total>, i: int)
    requires DistinctNames(ts) && 0 <= i < |ts|
    ensures TotalOf(ts, ts[i].0) == ts[i].1
  {
    if i > 0 {
      TotalOfEntry(ts[1..], i - 1);
    }
  }

  /** The summary has one entry per category occurring in the rows, each
      entry's total is the sum of that category's amounts, and the totals
      never increase down the list (equal totals in name order). */
  lemma SummaryCorrect(rows: seq<Transaction>)
    ensures var s := Summarize(rows);
      DistinctNames(s)
      && NamesOf(s) == CategoriesOf(rows)
      && (forall i :: 0 <= i < |s| ==> s[i].1 == SumFor(rows, s[i].0))
      && (forall i, j :: 0 <= i < j < |s| ==> s[i].1 >= s[j].1)
      && (forall i, j :: 0 <= i < j < |s| && s[i].1 == s[j].1 ==> LexLe(s[i].0, s[j].0))
  {
    var g := Groups(rows);
    var s := Summarize(rows);
    SortByTotalSorted(g);
    SortByTotalNames(g);
    forall i | 0 <= i < |s| ensures s[i].1 == SumFor(rows, s[i].0) {
      assert s[i] in multiset(g);
      var k :| 0 <= k < |g| && g[k] == s[i];
      TotalOfEntry(g, k);
    }
  }
}
