/** Choosing a year and the rows of that year: the year list offered in the
    sidebar, the year filter, the ranking by crime index, and the dataset's
    minimum year used to guard the headline metric. */
module Selection {
  import opened Records
  import Seqs

  /** `df[df.ano == y]`: the records of year `y`, in file order. */
  function FilterYear(rs: seq<Record>, y: int): (r: seq<Record>)
    ensures |r| <= |rs|
    ensures forall x :: x in r <==> x in rs && x.ano == y
    ensures forall x :: multiset(r)[x] == if x.ano == y then multiset(rs)[x] else 0
  {
    Seqs.Filter(rs, (x: Record) => x.ano == y)
  }

  /** The record at file position `k` of year `y` is the
      `|FilterYear(rs[..k], y)|`-th record of that year: the filter keeps file
      order, which is what the positional year-over-year alignment relies on. */
  lemma FilterYearPosition(rs: seq<Record>, y: int, k: nat)
    requires k < |rs| && rs[k].ano == y
    ensures |FilterYear(rs[..k], y)| < |FilterYear(rs, y)|
    ensures FilterYear(rs, y)[|FilterYear(rs[..k], y)|] == rs[k]
  {
    Seqs.FilterPosition(rs, (x: Record) => x.ano == y, k);
  }

  function IndexKey(x: Record): int { x.indice }

  /** `df_ano_selecionado.sort_values(by="indice_criminalidade",
      ascending=False)`: the records of year `y`, highest index first. */
  function RankByIndex(rs: seq<Record>, y: int): (r: seq<Record>)
    ensures |r| == |FilterYear(rs, y)|
    ensures forall i, j :: 0 <= i < j < |r| ==> r[i].indice >= r[j].indice
    ensures multiset(r) == multiset(FilterYear(rs, y))
    ensures forall x :: x in r <==> x in rs && x.ano == y
  {
    var sel := FilterYear(rs, y);
    var r := Seqs.SortDesc(sel, IndexKey);
    assert forall x :: x in r <==> x in multiset(sel);
    r
  }

  /** The unstable sort may order records of equal index differently, but
      the column of indices it shows is the same for every such ordering. */
  lemma RankIndicesIndependentOfTieBreaking(rs: seq<Record>, y: int, r: seq<Record>)
    requires forall i, j :: 0 <= i < j < |r| ==> r[i].indice >= r[j].indice
    requires multiset(r) == multiset(FilterYear(rs, y))
    ensures |r| == |RankByIndex(rs, y)|
    ensures forall i :: 0 <= i < |r| ==> r[i].indice == RankByIndex(rs, y)[i].indice
  {
    var t := RankByIndex(rs, y);
    assert Seqs.SortedDesc(r, IndexKey);
    assert Seqs.SortedDesc(t, IndexKey);
    Seqs.SortedPermutationsAgreeOnKeys(r, t, IndexKey);
  }

  /** `df.ano.min()`; `None` for an empty data frame (where pandas yields NaN). */
  function MinYear(rs: seq<Record>): (r: Option<int>)
    ensures r.None? <==> |rs| == 0
    ensures r.Some? ==> exists x :: x in rs && x.ano == r.value
    ensures r.Some? ==> forall x :: x in rs ==> r.value <= x.ano
  {
    if |rs| == 0 then None
    else
      match MinYear(rs[1..])
      case None => Some(rs[0].ano)
      case Some(m) =>
        assert forall x :: x in rs ==> x == rs[0] || x in rs[1..];
        Some(if rs[0].ano < m then rs[0].ano else m)
  }

  /** `ano > df.ano.min()`; a comparison with NaN is false, so an empty data
      frame never passes. The guard holds exactly when some record is from an
      earlier year. */
  predicate AboveMinYear(rs: seq<Record>, y: int)
    ensures AboveMinYear(rs, y) <==> exists x :: x in rs && x.ano < y
  {
    match MinYear(rs)
    case None => false
    case Some(m) => y > m
  }

  /** `df.ano.unique()`: each year once, in order of first appearance. */
  function UniqueYears(rs: seq<Record>): (u: seq<int>)
    ensures forall i, j :: 0 <= i < j < |u| ==> u[i] != u[j]
    ensures forall y :: y in u <==> exists x :: x in rs && x.ano == y
    ensures forall i, j :: 0 <= i < j < |u| ==> FirstAt(rs, u[i]) < FirstAt(rs, u[j])
  {
    if |rs| == 0 then []
    else
      var front := rs[..|rs| - 1];
      var last := rs[|rs| - 1];
      var u := UniqueYears(front);
      assert rs == front + [last];
      assert forall x :: x in rs <==> x in front || x == last;
      FirstAtExtend(front, last);
      forall i | 0 <= i < |u|
        ensures FirstAt(rs, u[i]) == FirstAt(front, u[i]) < |front|
      {
        assert u[i] in u;
      }
      if last.ano in u then u
      else
        FirstAtNew(front, last);
        u + [last.ano]
  }

  /** Position of the first record of year `y`, or `|rs|` when there is none. */
  function FirstAt(rs: seq<Record>, y: int): (k: nat)
    ensures k <= |rs|
    ensures k < |rs| ==> rs[k].ano == y
    ensures forall i :: 0 <= i < k ==> rs[i].ano != y
  {
    if |rs| == 0 then 0
    else if rs[0].ano == y then 0
    else 1 + FirstAt(rs[1..], y)
  }

  /** Appending a record does not move the first appearance of a year that
      already occurs. */
  lemma FirstAtExtend(front: seq<Record>, last: Record)
    ensures forall y :: (exists x :: x in front && x.ano == y) ==>
      FirstAt(front + [last], y) == FirstAt(front, y) < |front|
  {
    forall y | exists x :: x in front && x.ano == y
      ensures FirstAt(front + [last], y) == FirstAt(front, y) < |front|
    {
      var k := FirstAt(front, y);
      assert (front + [last])[k] == front[k];
    }
  }

  /** A year that first occurs in the appended record first appears there. */
  lemma FirstAtNew(front: seq<Record>, last: Record)
    requires !exists x :: x in front && x.ano == last.ano
    ensures FirstAt(front + [last], last.ano) == |front|
  {
    var s := front + [last];
    var k := FirstAt(s, last.ano);
    assert s[|front|].ano == last.ano;
  }

  /** `list(df.ano.unique())[::-1]`: the years offered in the sidebar, most
      recently introduced first. */
  function AvailableYears(rs: seq<Record>): (r: seq<int>)
    ensures forall i, j :: 0 <= i < j < |r| ==> r[i] != r[j]
    ensures forall y :: y in r <==> exists x :: x in rs && x.ano == y
    ensures forall i, j :: 0 <= i < j < |r| ==> FirstAt(rs, r[i]) > FirstAt(rs, r[j])
  {
    Seqs.Reverse(UniqueYears(rs))
  }

  /** A year picked from the sidebar always has at least one record. */
  lemma AvailableYearHasRecords(rs: seq<Record>, y: int)
    requires y in AvailableYears(rs)
    ensures |FilterYear(rs, y)| > 0
  {
  }
}
