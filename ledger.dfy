/**
 * The transaction ledger `fin` as a value: the per-type totals and the
 * per-category breakdown that `renderFin` computes, the `removeFin` filter,
 * and the two row rewrites that keep rows in step with the taxonomy.
 */
module Ledger {
  import opened Records

  /** What one row adds to the total of rows of type `kind`. */
  function Amount(r: Txn, kind: string): int
  {
    if r.kind == kind then r.value else 0
  }

  /** `fin.filter(r => r.type === kind).reduce((a, b) => a + b.value, 0)`. */
  function KindTotal(rows: seq<Txn>, kind: string): int
  {
    if rows == [] then 0
    else KindTotal(rows[..|rows| - 1], kind) + Amount(rows[|rows| - 1], kind)
  }

  /** What one row adds to the total of category `cat` within type `kind`. */
  function CategoryAmount(r: Txn, kind: string, cat: string): int
  {
    if r.kind == kind && r.category == cat then r.value else 0
  }

  /** The sum of `value` over rows of type `kind` and category `cat`. */
  function CategoryTotal(rows: seq<Txn>, kind: string, cat: string): int
  {
    if rows == [] then 0
    else CategoryTotal(rows[..|rows| - 1], kind, cat) + CategoryAmount(rows[|rows| - 1], kind, cat)
  }

  /** Two ledgers whose rows agree, position by position, on type and value. */
  predicate SameAmounts(a: seq<Txn>, b: seq<Txn>)
  {
    |a| == |b| && forall i :: 0 <= i < |a| ==> a[i].kind == b[i].kind && a[i].value == b[i].value
  }

  /** Totals depend on types and values only: a rewrite that keeps them keeps
      the Entrada and Saída totals. */
  lemma {:induction false} SameAmountsSameTotals(a: seq<Txn>, b: seq<Txn>, kind: string)
    requires SameAmounts(a, b)
    ensures KindTotal(a, kind) == KindTotal(b, kind)
    decreases |a|
  {
    if a != [] {
      var n := |a| - 1;
      assert SameAmounts(a[..n], b[..n]) by {
        forall i | 0 <= i < n ensures a[..n][i].kind == b[..n][i].kind && a[..n][i].value == b[..n][i].value {
          assert a[..n][i] == a[i] && b[..n][i] == b[i];
        }
      }
      SameAmountsSameTotals(a[..n], b[..n], kind);
    }
  }

  /** Appending a row adds its value to the total of its own type only. */
  lemma KindTotalAppend(rows: seq<Txn>, r: Txn, kind: string)
    ensures KindTotal(rows + [r], kind) == KindTotal(rows, kind) + (if r.kind == kind then r.value else 0)
  {
    assert (rows + [r])[..|rows|] == rows;
  }

  // ---------------------------------------------------------------------------
  // removeFin

  /** `fin.filter(r => r.id !== id)`: the rows with another id, in their order. */
  function RemoveById(rows: seq<Txn>, id: int): (r: seq<Txn>)
    ensures |r| <= |rows|
    ensures forall x :: x in r <==> x in rows && x.id != id
  {
    if rows == [] then []
    else (if rows[0].id == id then [] else [rows[0]]) + RemoveById(rows[1..], id)
  }

  /** Filtering distributes over concatenation, so the kept rows stay in their
      original relative order. */
  lemma {:induction false} RemoveByIdAppend(a: seq<Txn>, b: seq<Txn>, id: int)
    ensures RemoveById(a + b, id) == RemoveById(a, id) + RemoveById(b, id)
    decreases |a|
  {
    if a != [] {
      assert (a + b)[0] == a[0];
      assert (a + b)[1..] == a[1..] + b;
      RemoveByIdAppend(a[1..], b, id);
    } else {
      assert a + b == b;
    }
  }

  /** An id that no row carries removes nothing. */
  lemma {:induction false} RemoveByIdAbsent(rows: seq<Txn>, id: int)
    requires forall i :: 0 <= i < |rows| ==> rows[i].id != id
    ensures RemoveById(rows, id) == rows
    decreases |rows|
  {
    if rows != [] {
      RemoveByIdAbsent(rows[1..], id);
      assert [rows[0]] + rows[1..] == rows;
    }
  }

  /** Removing the id of a freshly appended row undoes the append. */
  lemma RemoveUndoesAdd(rows: seq<Txn>, r: Txn)
    requires forall i :: 0 <= i < |rows| ==> rows[i].id != r.id
    ensures RemoveById(rows + [r], r.id) == rows
  {
    RemoveByIdAppend(rows, [r], r.id);
    RemoveByIdAbsent(rows, r.id);
    assert RemoveById([r], r.id) == [];
  }

  // ---------------------------------------------------------------------------
  // Cascading rewrites (the reclassification of rows)

  /** `fin.forEach(r => { if (r.category === from) r.category = to; })`.
      Only `category` changes, and only on rows that named `from`; afterwards no
      row names `from` unless `from == to`. */
  function Recategorize(rows: seq<Txn>, from: string, to: string): (r: seq<Txn>)
    ensures |r| == |rows| && SameAmounts(rows, r)
    ensures forall i :: 0 <= i < |r| ==>
              r[i].(category := rows[i].category) == rows[i]
              && (rows[i].category == from ==> r[i].category == to)
              && (rows[i].category != from ==> r[i] == rows[i])
    ensures from != to ==> forall i :: 0 <= i < |r| ==> r[i].category != from
  {
    seq(|rows|, i requires 0 <= i < |rows| =>
      if rows[i].category == from then rows[i].(category := to) else rows[i])
  }

  /** `fin.forEach(r => { if (r.category === cat && r.subcategory === sub) r.subcategory = to; })`.
      Only `subcategory` changes, and only on rows that named the pair
      (`cat`, `sub`); afterwards no row names that pair unless `to` is `sub`. */
  function Resubcategorize(rows: seq<Txn>, cat: string, sub: string, to: Option<string>): (r: seq<Txn>)
    ensures |r| == |rows| && SameAmounts(rows, r)
    ensures forall i :: 0 <= i < |r| ==>
              r[i].(subcategory := rows[i].subcategory) == rows[i]
              && r[i].category == rows[i].category
              && (rows[i].category == cat && rows[i].subcategory == Some(sub) ==> r[i].subcategory == to)
              && (!(rows[i].category == cat && rows[i].subcategory == Some(sub)) ==> r[i] == rows[i])
    ensures to != Some(sub) ==> forall i :: 0 <= i < |r| ==> !(r[i].category == cat && r[i].subcategory == Some(sub))
  {
    seq(|rows|, i requires 0 <= i < |rows| =>
      if rows[i].category == cat && rows[i].subcategory == Some(sub) then rows[i].(subcategory := to) else rows[i])
  }

  /** A category rename leaves the Entrada and Saída totals as they were. */
  lemma RecategorizeKeepsTotals(rows: seq<Txn>, from: string, to: string, kind: string)
    ensures KindTotal(Recategorize(rows, from, to), kind) == KindTotal(rows, kind)
  {
    SameAmountsSameTotals(rows, Recategorize(rows, from, to), kind);
  }

  /** A subcategory rename or delete leaves the totals as they were. */
  lemma ResubcategorizeKeepsTotals(rows: seq<Txn>, cat: string, sub: string, to: Option<string>, kind: string)
    ensures KindTotal(Resubcategorize(rows, cat, sub, to), kind) == KindTotal(rows, kind)
  {
    SameAmountsSameTotals(rows, Resubcategorize(rows, cat, sub, to), kind);
  }

  /** Renaming `from` to an existing name `to` merges the two categories in
      the breakdown: `to` now totals both, `from` totals nothing, and every
      other category keeps its total. */
  lemma {:induction false} RecategorizeMergesTotals(rows: seq<Txn>, from: string, to: string, kind: string, cat: string)
    requires from != to
    ensures CategoryTotal(Recategorize(rows, from, to), kind, cat) ==
              if cat == to then CategoryTotal(rows, kind, from) + CategoryTotal(rows, kind, to)
              else if cat == from then 0
              else CategoryTotal(rows, kind, cat)
    decreases |rows|
  {
    if rows != [] {
      var n := |rows| - 1;
      assert Recategorize(rows, from, to)[..n] == Recategorize(rows[..n], from, to);
      RecategorizeMergesTotals(rows[..n], from, to, kind, cat);
    }
  }

  // ---------------------------------------------------------------------------
  // The per-category breakdown of the pie chart

  /** The keys of the `byCat` object in insertion order: the categories of rows
      of type `kind`, each at its first appearance. */
  function FirstSeen(rows: seq<Txn>, kind: string): seq<string>
  {
    if rows == [] then []
    else
      var prev := FirstSeen(rows[..|rows| - 1], kind);
      var r := rows[|rows| - 1];
      if r.kind == kind && r.category !in prev then prev + [r.category] else prev
  }

  /** The labels are distinct and are exactly the categories used by rows of
      type `kind`. */
  lemma {:induction false} FirstSeenSpec(rows: seq<Txn>, kind: string)
    ensures NoDuplicates(FirstSeen(rows, kind))
    ensures forall c :: c in FirstSeen(rows, kind) <==>
              exists i :: 0 <= i < |rows| && rows[i].kind == kind && rows[i].category == c
    decreases |rows|
  {
    if rows != [] {
      var n := |rows| - 1;
      FirstSeenSpec(rows[..n], kind);
      forall c ensures c in FirstSeen(rows, kind) <==>
                       exists i :: 0 <= i < |rows| && rows[i].kind == kind && rows[i].category == c
      {
        if c in FirstSeen(rows[..n], kind) {
          var i :| 0 <= i < n && rows[..n][i].kind == kind && rows[..n][i].category == c;
          assert rows[i] == rows[..n][i];
        }
        if exists i :: 0 <= i < |rows| && rows[i].kind == kind && rows[i].category == c {
          var i :| 0 <= i < |rows| && rows[i].kind == kind && rows[i].category == c;
          if i < n { assert rows[..n][i] == rows[i]; }
        }
      }
    }
  }

  /** A category no row of type `kind` uses totals zero. */
  lemma {:induction false} CategoryTotalUnused(rows: seq<Txn>, kind: string, cat: string)
    requires forall i :: 0 <= i < |rows| ==> !(rows[i].kind == kind && rows[i].category == cat)
    ensures CategoryTotal(rows, kind, cat) == 0
    decreases |rows|
  {
    if rows != [] {
      var n := |rows| - 1;
      assert forall i :: 0 <= i < n ==> rows[..n][i] == rows[i];
      CategoryTotalUnused(rows[..n], kind, cat);
    }
  }

  /** The sum of the category totals of `labels`. */
  function SumTotals(labels: seq<string>, rows: seq<Txn>, kind: string): int
  {
    if labels == [] then 0
    else CategoryTotal(rows, kind, labels[0]) + SumTotals(labels[1..], rows, kind)
  }

  lemma {:induction false} SumTotalsAppendRow(labels: seq<string>, rows: seq<Txn>, r: Txn, kind: string)
    requires NoDuplicates(labels)
    ensures SumTotals(labels, rows + [r], kind) ==
              SumTotals(labels, rows, kind) + (if r.kind == kind && r.category in labels then r.value else 0)
    decreases |labels|
  {
    assert (rows + [r])[..|rows|] == rows;
    if labels != [] {
      assert NoDuplicates(labels[1..]) by {
        forall i, j | 0 <= i < j < |labels[1..]| ensures labels[1..][i] != labels[1..][j] {
          assert labels[1..][i] == labels[i + 1] && labels[1..][j] == labels[j + 1];
        }
      }
      SumTotalsAppendRow(labels[1..], rows, r, kind);
      assert r.category in labels <==> r.category == labels[0] || r.category in labels[1..] by {
        assert labels == [labels[0]] + labels[1..];
      }
      assert labels[0] !in labels[1..] by {
        forall j | 0 <= j < |labels[1..]| ensures labels[1..][j] != labels[0] {
          assert labels[1..][j] == labels[j + 1];
        }
      }
    }
  }

  lemma {:induction false} SumTotalsAppendLabel(labels: seq<string>, c: string, rows: seq<Txn>, kind: string)
    ensures SumTotals(labels + [c], rows, kind) == SumTotals(labels, rows, kind) + CategoryTotal(rows, kind, c)
    decreases |labels|
  {
    if labels != [] {
      assert (labels + [c])[1..] == labels[1..] + [c];
      SumTotalsAppendLabel(labels[1..], c, rows, kind);
    } else {
      assert [c][1..] == [];
    }
  }

  /** The pie chart partitions the Saída total: the slices of the breakdown add
      up to the total of the type it is drawn for. */
  lemma {:induction false} BreakdownCoversTotal(rows: seq<Txn>, kind: string)
    ensures SumTotals(FirstSeen(rows, kind), rows, kind) == KindTotal(rows, kind)
    decreases |rows|
  {
    if rows != [] {
      var n := |rows| - 1;
      var p, r := rows[..n], rows[n];
      assert rows == p + [r];
      var prev := FirstSeen(p, kind);
      BreakdownCoversTotal(p, kind);
      FirstSeenSpec(p, kind);
      SumTotalsAppendRow(prev, p, r, kind);
      if r.kind == kind && r.category !in prev {
        SumTotalsAppendLabel(prev, r.category, rows, kind);
        CategoryTotalUnused(p, kind, r.category);
      }
    }
  }

  /** `renderFin`'s accumulation of `byCat` over the Saída rows, returned as
      the chart's `labels` and `values`: one slice per category in order of
      first appearance, each holding that category's Saída total. */
  method CategoryBreakdown(rows: seq<Txn>) returns (labels: seq<string>, values: seq<int>)
    ensures labels == FirstSeen(rows, SAIDA)
    ensures NoDuplicates(labels)
    ensures forall c :: c in labels <==> exists i :: 0 <= i < |rows| && rows[i].kind == SAIDA && rows[i].category == c
    ensures |values| == |labels|
    ensures forall i :: 0 <= i < |labels| ==> values[i] == CategoryTotal(rows, SAIDA, labels[i])
  {
    var byCat: map<string, int> := map[];
    labels := [];
    var i := 0;
    while i < |rows|
      invariant 0 <= i <= |rows|
      invariant labels == FirstSeen(rows[..i], SAIDA)
      invariant forall c :: c in byCat <==> c in labels
      invariant forall c :: c in byCat ==> byCat[c] == CategoryTotal(rows[..i], SAIDA, c)
    {
      var r := rows[i];
      assert rows[..i + 1][..i] == rows[..i];
      if r.kind == SAIDA {
        if r.category !in byCat {
          FirstSeenSpec(rows[..i], SAIDA);
          CategoryTotalUnused(rows[..i], SAIDA, r.category);
          labels := labels + [r.category];
          byCat := byCat[r.category := r.value];
        } else {
          byCat := byCat[r.category := byCat[r.category] + r.value];
        }
      }
      i := i + 1;
    }
    assert rows[..i] == rows;
    FirstSeenSpec(rows, SAIDA);
    values := seq(|labels|, k requires 0 <= k < |labels| => byCat[labels[k]]);
  }
}
