/** `calcular_diferenca_criminalidade`: the year-over-year change of the crime
    index per row of the selected year.

    Both years' rows are re-indexed 0, 1, 2, ... (`reset_index`), so the two
    index columns are aligned by POSITION, not by neighbourhood name. The
    subtraction runs over the union of the two indexes with missing values
    taken as 0, and assigning the result as a column of the current year's
    frame keeps only the positions that frame has. A current-year frame with
    no rows is the exception: it is re-indexed to the whole result, which
    yields one `Blank` row per previous-year row. The table is then sorted by
    the change, largest first. */
module Delta {
  import opened Records
  import Seqs
  import Selection

  /** Value at position `i` of a re-indexed column, 0 where it has no entry
      (`fill_value=0`). */
  function At(col: seq<int>, i: nat): int {
    if i < |col| then col[i] else 0
  }

  /** The `indice_criminalidade` column of a re-indexed frame. */
  function Indices(rs: seq<Record>): (col: seq<int>)
    ensures |col| == |rs|
    ensures forall i :: 0 <= i < |rs| ==> col[i] == rs[i].indice
  {
    if |rs| == 0 then [] else [rs[0].indice] + Indices(rs[1..])
  }

  function Max(a: nat, b: nat): nat { if a < b then b else a }

  /** `a.sub(b, fill_value=0)` for two columns indexed 0..|a|-1 and 0..|b|-1:
      the result is indexed by the union of both, and a position missing from
      one side counts as 0 there. */
  function SubWithFill(a: seq<int>, b: seq<int>): (r: seq<int>)
    ensures |r| == Max(|a|, |b|)
    ensures forall i :: 0 <= i < |r| ==> r[i] == At(a, i) - At(b, i)
    decreases |a| + |b|
  {
    if |a| == 0 && |b| == 0 then []
    else
      var a' := if |a| == 0 then [] else a[1..];
      var b' := if |b| == 0 then [] else b[1..];
      var rest := SubWithFill(a', b');
      assert forall i :: 0 <= i < |rest| ==> At(a, i + 1) == At(a', i) && At(b, i + 1) == At(b', i);
      [At(a, 0) - At(b, 0)] + rest
  }

  /** `frame['col'] = series` on a frame of `n` rows indexed 0..n-1: the
      series is aligned to the frame's index, so positions from `n` on are
      dropped. A frame with no rows is first re-indexed to the series
      (pandas' `_ensure_valid_index`) and so takes all of its positions. */
  function AssignColumn(n: nat, col: seq<int>): (r: seq<int>)
    requires n <= |col|
    ensures n > 0 ==> |r| == n
    ensures n == 0 ==> |r| == |col|
    ensures forall i :: 0 <= i < |r| ==> r[i] == col[i]
  {
    if n == 0 then col else col[..n]
  }

  /** The `(bairro, indice_criminalidade, dif_criminalidade)` table before the
      sort, for the current year's rows `cur` and the previous year's rows
      `prev`, both in file order. */
  function PositionalDelta(cur: seq<Record>, prev: seq<Record>): (r: seq<DeltaRow>)
    ensures |cur| > 0 ==> |r| == |cur|
    ensures |cur| == 0 ==> |r| == |prev|
    ensures forall i :: 0 <= i < |r| && i < |cur| ==>
      r[i].DeltaRow? && r[i].bairro == cur[i].bairro && r[i].indice == cur[i].indice
    ensures forall i :: 0 <= i < |r| && i < |cur| && i < |prev| ==>
      r[i].delta == cur[i].indice - prev[i].indice
    ensures forall i :: |prev| <= i < |r| && i < |cur| ==> r[i].delta == cur[i].indice
    ensures |cur| == 0 ==> forall i :: 0 <= i < |r| ==> r[i] == Blank(-prev[i].indice)
  {
    var dif := AssignColumn(|cur|, SubWithFill(Indices(cur), Indices(prev)));
    seq(|dif|, i requires 0 <= i < |dif| =>
      if i < |cur| then DeltaRow(cur[i].bairro, cur[i].indice, dif[i]) else Blank(dif[i]))
  }

  function DeltaKey(d: DeltaRow): int { d.delta }

  /** The unsorted table for year `y` of the data set `rs`: one row per
      record of year `y` carrying that record's name and index, or, when year
      `y` has no records, one `Blank` row per record of year `y - 1` carrying
      minus its index. */
  function UnsortedYearDelta(rs: seq<Record>, y: int): (r: seq<DeltaRow>)
    ensures |Selection.FilterYear(rs, y)| > 0 ==> |r| == |Selection.FilterYear(rs, y)|
    ensures |Selection.FilterYear(rs, y)| == 0 ==> |r| == |Selection.FilterYear(rs, y - 1)|
    ensures forall d :: d in r && d.DeltaRow? ==>
      exists x :: x in rs && x.ano == y && x.bairro == d.bairro && x.indice == d.indice
    ensures forall d :: d in r && d.Blank? ==>
      && (forall x :: x in rs ==> x.ano != y)
      && (exists x :: x in rs && x.ano == y - 1 && d.delta == -x.indice)
  {
    var cur := Selection.FilterYear(rs, y);
    var prev := Selection.FilterYear(rs, y - 1);
    RowsComeFromCurrent(cur, prev);
    PositionalDelta(cur, prev)
  }

  /** The record at file position `k` of year `y` gives the row at position
      `i`, the number of year-`y` records before it, and is compared with the
      `i`-th record of year `y - 1` in file order (0 when there is none). */
  lemma PositionalRowOfRecord(rs: seq<Record>, y: int, k: nat)
    requires k < |rs| && rs[k].ano == y
    ensures var i := |Selection.FilterYear(rs[..k], y)|;
      && i < |UnsortedYearDelta(rs, y)|
      && UnsortedYearDelta(rs, y)[i]
         == DeltaRow(rs[k].bairro, rs[k].indice, rs[k].indice - At(Indices(Selection.FilterYear(rs, y - 1)), i))
  {
    var cur := Selection.FilterYear(rs, y);
    var prev := Selection.FilterYear(rs, y - 1);
    var i := |Selection.FilterYear(rs[..k], y)|;
    Selection.FilterYearPosition(rs, y, k);
    assert cur[i] == rs[k];
    RowAt(cur, prev, i);
    UnsortedYearDeltaUnfold(rs, y);
  }

  lemma UnsortedYearDeltaUnfold(rs: seq<Record>, y: int)
    ensures UnsortedYearDelta(rs, y)
      == PositionalDelta(Selection.FilterYear(rs, y), Selection.FilterYear(rs, y - 1))
  {
  }

  /** Row `i` of the positional table, for a current year with more than `i`
      rows. */
  lemma RowAt(cur: seq<Record>, prev: seq<Record>, i: nat)
    requires i < |cur|
    ensures i < |PositionalDelta(cur, prev)|
    ensures PositionalDelta(cur, prev)[i]
      == DeltaRow(cur[i].bairro, cur[i].indice, cur[i].indice - At(Indices(prev), i))
  {
  }

  /** `calcular_diferenca_criminalidade(df, y)`: one row per record of year
      `y` (or per record of year `y - 1` when year `y` has none), ordered by
      change, largest first. */
  function YearDelta(rs: seq<Record>, y: int): (r: seq<DeltaRow>)
    ensures |Selection.FilterYear(rs, y)| > 0 ==> |r| == |Selection.FilterYear(rs, y)|
    ensures |Selection.FilterYear(rs, y)| == 0 ==> |r| == |Selection.FilterYear(rs, y - 1)|
    ensures forall i, j :: 0 <= i < j < |r| ==> r[i].delta >= r[j].delta
    ensures multiset(r) == multiset(UnsortedYearDelta(rs, y))
  {
    Seqs.SortDesc(UnsortedYearDelta(rs, y), DeltaKey)
  }

  /** pandas' default sort is not stable, so rows with equal changes may come
      out in another order than `YearDelta` puts them. Any such ordering has
      the same change at every position. */
  lemma DeltaColumnIndependentOfTieBreaking(rs: seq<Record>, y: int, r: seq<DeltaRow>)
    requires forall i, j :: 0 <= i < j < |r| ==> r[i].delta >= r[j].delta
    requires multiset(r) == multiset(UnsortedYearDelta(rs, y))
    ensures |r| == |YearDelta(rs, y)|
    ensures forall i :: 0 <= i < |r| ==> r[i].delta == YearDelta(rs, y)[i].delta
  {
    var t := YearDelta(rs, y);
    assert Seqs.SortedDesc(r, DeltaKey);
    assert Seqs.SortedDesc(t, DeltaKey);
    Seqs.SortedPermutationsAgreeOnKeys(r, t, DeltaKey);
  }

  /** Every named row of the sorted table stands for a record of the
      selected year; the previous year contributes rows only when the
      selected year has none, and then only nameless ones. */
  lemma YearDeltaRowsFromSelectedYear(rs: seq<Record>, y: int)
    ensures forall d :: d in YearDelta(rs, y) && d.DeltaRow? ==>
      exists x :: x in rs && x.ano == y && x.bairro == d.bairro && x.indice == d.indice
    ensures forall d :: d in YearDelta(rs, y) && d.Blank? ==>
      && (forall x :: x in rs ==> x.ano != y)
      && (exists x :: x in rs && x.ano == y - 1 && d.delta == -x.indice)
  {
    var u := UnsortedYearDelta(rs, y);
    forall d | d in YearDelta(rs, y)
      ensures d in u
    {
      assert d in multiset(u);
    }
  }

  /** Each named row of the positional table carries the name and index of a
      current-year row; nameless rows appear only without current-year rows,
      and carry minus a previous-year index. */
  lemma RowsComeFromCurrent(cur: seq<Record>, prev: seq<Record>)
    ensures forall d :: d in PositionalDelta(cur, prev) && d.DeltaRow? ==>
      exists x :: x in cur && x.bairro == d.bairro && x.indice == d.indice
    ensures forall d :: d in PositionalDelta(cur, prev) && d.Blank? ==>
      |cur| == 0 && exists x :: x in prev && d.delta == -x.indice
  {
  }

  /** Rows of the previous year beyond the current year's count change
      nothing when the current year has rows: the table only depends on the
      first `|cur|` previous rows. Without current-year rows every previous
      row adds a row of its own. */
  lemma ExtraPreviousRowsIgnored(cur: seq<Record>, prev: seq<Record>, extra: seq<Record>)
    requires |prev| >= |cur|
    ensures |cur| > 0 ==> PositionalDelta(cur, prev + extra) == PositionalDelta(cur, prev)
    ensures |cur| == 0 ==>
      PositionalDelta(cur, prev + extra) == PositionalDelta(cur, prev) + PositionalDelta(cur, extra)
  {
    if |cur| > 0 {
      ExtraPreviousRowsDropped(cur, prev, extra);
    } else {
      BlankRowsAppend(cur, prev, extra);
    }
  }

  lemma ExtraPreviousRowsDropped(cur: seq<Record>, prev: seq<Record>, extra: seq<Record>)
    requires 0 < |cur| <= |prev|
    ensures PositionalDelta(cur, prev + extra) == PositionalDelta(cur, prev)
  {
    var whole := PositionalDelta(cur, prev + extra);
    var front := PositionalDelta(cur, prev);
    forall i | 0 <= i < |cur|
      ensures whole[i] == front[i]
    {
      assert (prev + extra)[i] == prev[i];
    }
  }

  lemma BlankRowsAppend(cur: seq<Record>, prev: seq<Record>, extra: seq<Record>)
    requires |cur| == 0
    ensures PositionalDelta(cur, prev + extra) == PositionalDelta(cur, prev) + PositionalDelta(cur, extra)
  {
    BlankTable(cur, prev + extra);
    BlankTable(cur, prev);
    BlankTable(cur, extra);
    BlanksAppend(prev, extra);
  }

  lemma BlanksAppend(prev: seq<Record>, extra: seq<Record>)
    ensures Blanks(prev + extra) == Blanks(prev) + Blanks(extra)
  {
    var all := prev + extra;
    forall i | 0 <= i < |all|
      ensures Blanks(all)[i] == (Blanks(prev) + Blanks(extra))[i]
    {
      if i < |prev| {
        assert all[i] == prev[i];
      } else {
        assert all[i] == extra[i - |prev|];
      }
    }
  }

  /** One `Blank` row per previous-year row, carrying minus its index. */
  function Blanks(prev: seq<Record>): seq<DeltaRow> {
    seq(|prev|, i requires 0 <= i < |prev| => Blank(-prev[i].indice))
  }

  lemma BlankTable(cur: seq<Record>, prev: seq<Record>)
    requires |cur| == 0
    ensures PositionalDelta(cur, prev) == Blanks(prev)
  {
  }

  /** Without previous-year rows (the selected year is the first one, or a
      gap in the data), every change equals the current index. */
  lemma NoPreviousYearMeansDeltaIsIndex(rs: seq<Record>, y: int)
    requires forall x :: x in rs ==> x.ano != y - 1
    ensures forall d :: d in YearDelta(rs, y) ==> d.DeltaRow? && d.delta == d.indice
  {
    var u := UnsortedYearDelta(rs, y);
    assert |Selection.FilterYear(rs, y - 1)| == 0;
    forall d | d in YearDelta(rs, y) ensures d.DeltaRow? && d.delta == d.indice {
      assert d in multiset(u);
      assert d in u;
    }
  }

  /** The change the dashboard would show if rows were matched by name: the
      index of the first previous-year row of the same neighbourhood, or 0. */
  function PreviousByName(prev: seq<Record>, bairro: string): (v: int)
    ensures (forall x :: x in prev ==> x.bairro != bairro) ==> v == 0
  {
    if |prev| == 0 then 0
    else if prev[0].bairro == bairro then prev[0].indice
    else PreviousByName(prev[1..], bairro)
  }

  /** A by-name reference table, for comparison with the positional one. */
  function ByNameDelta(cur: seq<Record>, prev: seq<Record>): seq<DeltaRow> {
    seq(|cur|, i requires 0 <= i < |cur| =>
      DeltaRow(cur[i].bairro, cur[i].indice, cur[i].indice - PreviousByName(prev, cur[i].bairro)))
  }

  predicate DistinctNames(rs: seq<Record>) {
    forall i, j :: 0 <= i < j < |rs| ==> rs[i].bairro != rs[j].bairro
  }

  lemma {:induction false} PreviousByNameAt(prev: seq<Record>, i: nat)
    requires i < |prev| && DistinctNames(prev)
    ensures PreviousByName(prev, prev[i].bairro) == prev[i].indice
  {
    if i > 0 {
      assert prev[0].bairro != prev[i].bairro;
      assert prev[1..][i - 1] == prev[i];
      PreviousByNameAt(prev[1..], i - 1);
    }
  }

  /** The positional alignment gives the per-neighbourhood change when both
      years list the same neighbourhoods in the same order. */
  lemma PositionalMatchesByNameWhenAligned(cur: seq<Record>, prev: seq<Record>)
    requires |prev| == |cur| && DistinctNames(prev)
    requires forall i :: 0 <= i < |cur| ==> cur[i].bairro == prev[i].bairro
    ensures PositionalDelta(cur, prev) == ByNameDelta(cur, prev)
  {
    var a := PositionalDelta(cur, prev);
    var b := ByNameDelta(cur, prev);
    forall i | 0 <= i < |cur| ensures a[i] == b[i] {
      PreviousByNameAt(prev, i);
    }
  }

  /** When the previous year lists the neighbourhoods in another order, each
      row is compared against a different neighbourhood. */
  lemma PositionalDiffersFromByNameWhenReordered()
    ensures var cur := [Record("A", 2021, 10), Record("B", 2021, 20)];
      var prev := [Record("B", 2020, 5), Record("A", 2020, 7)];
      && PositionalDelta(cur, prev) == [DeltaRow("A", 10, 5), DeltaRow("B", 20, 13)]
      && ByNameDelta(cur, prev) == [DeltaRow("A", 10, 3), DeltaRow("B", 20, 15)]
  {
  }
}
