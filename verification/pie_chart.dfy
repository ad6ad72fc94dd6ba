/** The pie chart renderer's data reduction: the largest `topN` entries are
    kept and the rest are pooled into one "Other" slice. */
module PieChart {
  import opened Counting

  const OtherLabel := "Other"

  /** The display data of `PieChartRenderer.render`: the distribution itself
      when it has at most `topN` entries, otherwise its first `topN` entries
      followed by "Other" carrying the sum of the remaining counts. */
  function TopNWithOther(d: Distribution, topN: nat): (r: Distribution)
    ensures |d| <= topN ==> r == d
    ensures |d| > topN ==> |r| == topN + 1 && r[..topN] == d[..topN]
    ensures |d| > topN ==> r[topN] == Entry(OtherLabel, Total(d[topN..]))
    ensures Total(r) == Total(d)
  {
    if |d| <= topN then d
    else
      var top, rest := d[..topN], d[topN..];
      var r := top + [Entry(OtherLabel, Total(rest))];
      TotalAppend(top, rest);
      TotalAppend(top, [Entry(OtherLabel, Total(rest))]);
      assert d == top + rest;
      assert r[..topN] == top;
      r
  }

  /** What the renderer hands back: whether a figure was drawn, and the data
      it shows. */
  datatype Rendering = Rendering(hasFigure: bool, display: Distribution)

  /** `PieChartRenderer.render` without the drawing: no figure and the input
      itself for an empty distribution, otherwise a figure of the reduced
      data. */
  function RenderPie(d: Distribution, topN: nat): (r: Rendering)
    ensures r.hasFigure <==> |d| > 0
    ensures |d| == 0 ==> r.display == d
    ensures |d| > 0 ==> r.display == TopNWithOther(d, topN)
    ensures Total(r.display) == Total(d)
  {
    if |d| == 0 then Rendering(false, d)
    else Rendering(true, TopNWithOther(d, topN))
  }

  /** The reduction moves counts only into "Other": every other label
      keeps its count from the first `topN` entries, and "Other" gains the
      counts of all dropped entries, whatever their labels. */
  lemma TopNCounts(d: Distribution, topN: nat, l: string)
    requires |d| > topN
    ensures CountOf(TopNWithOther(d, topN), l)
         == CountOf(d[..topN], l) + (if l == OtherLabel then Total(d[topN..]) else 0)
    ensures CountOf(d, l) == CountOf(d[..topN], l) + CountOf(d[topN..], l)
  {
    var top, rest := d[..topN], d[topN..];
    var other := [Entry(OtherLabel, Total(rest))];
    assert TopNWithOther(d, topN) == top + other;
    CountOfAppend(top, other, l);
    assert other[1..] == [];
    CountOfAppend(top, rest, l);
    assert d == top + rest;
  }

  /** Worked example: A 5, B 3, C 2, D 1 with two slices kept becomes
      A 5, B 3, Other 3. */
  lemma TopNExample()
    ensures TopNWithOther([Entry("A", 5), Entry("B", 3), Entry("C", 2), Entry("D", 1)], 2)
         == [Entry("A", 5), Entry("B", 3), Entry(OtherLabel, 3)]
  {
    var d := [Entry("A", 5), Entry("B", 3), Entry("C", 2), Entry("D", 1)];
    var rest := d[2..];
    assert rest == [Entry("C", 2), Entry("D", 1)];
    assert rest[1..] == [Entry("D", 1)];
    assert rest[1..][1..] == [];
    assert Total(rest[1..]) == 1;
    assert Total(rest) == 3;
  }
}
