/** What the "Variação de Criminalidade" column derives from the
    year-over-year table: the headline metric for the neighbourhood at the
    top of the table, and the counts of large increases and decreases shown
    in the two donut charts. */
module Dashboard {
  import opened Records
  import Seqs
  import Selection
  import Delta
  import NumberFormat

  /** A change counts as large when it is strictly beyond this in either
      direction. */
  const Threshold: int := 50

  /** `df_diferenca[df_diferenca.dif_criminalidade > 50]`. */
  function Increases(t: seq<DeltaRow>): (r: seq<DeltaRow>)
    ensures forall d :: d in r <==> d in t && d.delta > Threshold
    ensures forall d :: multiset(r)[d] == if d.delta > Threshold then multiset(t)[d] else 0
  {
    Seqs.Filter(t, (d: DeltaRow) => d.delta > Threshold)
  }

  /** `df_diferenca[df_diferenca.dif_criminalidade < -50]`. */
  function Decreases(t: seq<DeltaRow>): (r: seq<DeltaRow>)
    ensures forall d :: d in r <==> d in t && d.delta < -Threshold
    ensures forall d :: multiset(r)[d] == if d.delta < -Threshold then multiset(t)[d] else 0
  {
    Seqs.Filter(t, (d: DeltaRow) => d.delta < -Threshold)
  }

  /** No row is both a large increase and a large decrease, and the two
      donut counts together never exceed the number of rows. */
  lemma IncreasesDecreasesDisjoint(t: seq<DeltaRow>)
    ensures forall d :: !(d in Increases(t) && d in Decreases(t))
    ensures |Increases(t)| + |Decreases(t)| <= |t|
  {
    Seqs.FilterDisjointBound(t, (d: DeltaRow) => d.delta > Threshold, (d: DeltaRow) => d.delta < -Threshold);
  }

  /** The donut counts depend only on which rows the table holds, not on
      how the sort ordered them. */
  lemma CountsIgnoreOrder(t: seq<DeltaRow>, u: seq<DeltaRow>)
    requires multiset(t) == multiset(u)
    ensures |Increases(t)| == |Increases(u)|
    ensures |Decreases(t)| == |Decreases(u)|
  {
    Seqs.FilterPermutation(t, u, (d: DeltaRow) => d.delta > Threshold);
    Seqs.FilterPermutation(t, u, (d: DeltaRow) => d.delta < -Threshold);
  }

  /** The `st.metric` arguments: the label (here `heading`), the value and the delta text. */
  datatype Metric = Metric(heading: string, value: string, delta: string)

  /** `'-', '-', ''`: shown for the first year of the data set. */
  const Placeholder: Metric := Metric("-", "-", "")

  /** What `iloc[0]` of a table row puts on the metric: the name, and the
      index and change through `formatar_numero`. A `Blank` row holds NaN as
      its name and index; `NaN > 1000` is false, so `formatar_numero` prints
      it with `str`, as `nan`. */
  function MetricOf(d: DeltaRow): (m: Metric)
    ensures d.DeltaRow? ==>
      m.heading == d.bairro && NumberFormat.ParseShown(m.value) == Some(NumberFormat.Abbreviate(d.indice))
    ensures d.DeltaRow? && d.indice <= 1000 ==> NumberFormat.Canonical(m.value)
    ensures d.DeltaRow? && d.indice > 1000 ==>
      |m.value| >= 3 && m.value[|m.value| - 2..] == " K" && NumberFormat.Canonical(m.value[..|m.value| - 2])
    ensures d.Blank? ==> m.heading == "nan" && m.value == "nan"
    ensures NumberFormat.ParseShown(m.delta) == Some(NumberFormat.Abbreviate(d.delta))
  {
    match d
    case DeltaRow(bairro, indice, delta) =>
      Metric(bairro, NumberFormat.FormatNumber(indice), NumberFormat.FormatNumber(delta))
    case Blank(delta) => Metric("nan", "nan", NumberFormat.FormatNumber(delta))
  }

  /** The headline metric for year `y`. Above the minimum year it shows the
      first row of the sorted table; `iloc[0]` on an empty table raises
      `IndexError`, modelled as `Err`. The table is empty only when neither
      year `y` nor year `y - 1` has records. */
  function TopMetric(rs: seq<Record>, y: int): (r: Result<Metric>)
    ensures !Selection.AboveMinYear(rs, y) ==> r == Ok(Placeholder)
    ensures (Selection.AboveMinYear(rs, y) && |Selection.FilterYear(rs, y)| == 0
             && |Selection.FilterYear(rs, y - 1)| == 0) ==> r.Err?
    ensures (Selection.AboveMinYear(rs, y)
             && (|Selection.FilterYear(rs, y)| > 0 || |Selection.FilterYear(rs, y - 1)| > 0)) ==>
      && r.Ok?
      && (exists d :: d in Delta.UnsortedYearDelta(rs, y)
            && (forall e :: e in Delta.UnsortedYearDelta(rs, y) ==> e.delta <= d.delta)
            && r.value == MetricOf(d))
    ensures (Selection.AboveMinYear(rs, y) && |Selection.FilterYear(rs, y)| == 0
             && |Selection.FilterYear(rs, y - 1)| > 0) ==>
      r.Ok? && r.value.heading == "nan" && r.value.value == "nan"
  {
    if Selection.AboveMinYear(rs, y) then
      var t := Delta.YearDelta(rs, y);
      if |t| == 0 then Err("IndexError: single positional indexer is out-of-bounds")
      else
        Seqs.SortedHeadIsMax(t, Delta.UnsortedYearDelta(rs, y), Delta.DeltaKey);
        Ok(MetricOf(t[0]))
    else
      Ok(Placeholder)
  }

  /** A year without records directly after one with records still gets a
      metric: the table holds one nameless row per earlier record, and the
      first shows minus that record's index. */
  lemma TopMetricForYearWithoutRecords()
    ensures TopMetric([Record("A", 2020, 10)], 2021) == Ok(Metric("nan", "nan", "-10"))
  {
    var rs := [Record("A", 2020, 10)];
    assert Selection.FilterYear(rs, 2021) == [];
    assert Selection.FilterYear(rs, 2020) == rs;
    Delta.UnsortedYearDeltaUnfold(rs, 2021);
    assert Delta.UnsortedYearDelta(rs, 2021) == [Blank(-10)];
    assert Delta.YearDelta(rs, 2021) == [Blank(-10)];
    assert NumberFormat.FormatNumber(-10) == "-10";
    assert MetricOf(Blank(-10)) == Metric("nan", "nan", "-10");
  }

  /** For a year offered in the sidebar the metric never fails, and it shows
      a neighbourhood exactly when an earlier year exists in the data. */
  lemma TopMetricForAvailableYear(rs: seq<Record>, y: int)
    requires y in Selection.AvailableYears(rs)
    ensures TopMetric(rs, y).Ok?
    ensures TopMetric(rs, y) == Ok(Placeholder) <==> forall x :: x in rs ==> x.ano >= y
  {
    Selection.AvailableYearHasRecords(rs, y);
    var r := TopMetric(rs, y);
    if Selection.AboveMinYear(rs, y) {
      assert r.Ok? && |r.value.delta| >= 1;
      assert r != Ok(Placeholder);
    }
  }
}
