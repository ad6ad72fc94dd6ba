/** The main page: one section per question, showing either the free-text
    answers or a chart with its frequency table. */
module MainContent {
  import opened Results
  import opened Strings
  import opened Seqs
  import opened Tables
  import opened Counting
  import opened QuestionParser
  import opened Detectors
  import opened Aggregators
  import opened PieChart
  import opened ChartFactory

  /** The sidebar's display options. */
  datatype DisplayOptions = DisplayOptions(includeBlank: bool, topN: nat)

  /** The range the sidebar's Top-N slider allows. */
  predicate ValidOptions(opts: DisplayOptions) {
    3 <= opts.topN <= 15
  }

  /** A stripped free-text answer worth listing: not empty and not ".". */
  predicate Listable(s: string) {
    s != "" && s != "."
  }

  /** Which cells the free-text listing shows. */
  function ListMask(col: seq<Cell>): (m: seq<bool>)
    ensures |m| == |col|
    ensures forall i :: 0 <= i < |col| ==> (m[i] <==> col[i].Str? && Listable(Trim(col[i].value)))
  {
    seq(|col|, i requires 0 <= i < |col| => col[i].Str? && Listable(Trim(col[i].value)))
  }

  /** `_render_text_question`: the present answers, stripped, without the
      empty ones and ".", in row order. */
  function TextListing(col: seq<Cell>): (answers: seq<string>)
    ensures |answers| <= |col|
    ensures forall k :: 0 <= k < |answers| ==> Listable(answers[k]) && IsTrimmed(answers[k])
  {
    var vs := TrimmedValues(col);
    var m := ListMask(col);
    SelectPicksPositions(vs, m);
    var answers := Select(vs, m);
    var idx := Positions(m);
    assert forall k :: 0 <= k < |answers| ==> answers[k] == Trim(col[idx[k]].value);
    CountTrueAtMost(m);
    answers
  }

  /** The listing holds exactly the stripped answers of the listable cells,
      in row order. */
  lemma TextListingExact(col: seq<Cell>)
    ensures var idx := Positions(ListMask(col));
      && PicksAt(TextListing(col), TrimmedValues(col), idx)
      && forall i :: 0 <= i < |col| ==> (i in idx <==> col[i].Str? && Listable(Trim(col[i].value)))
  {
    var m := ListMask(col);
    SelectPicksPositions(TrimmedValues(col), m);
    forall i | 0 <= i < |col| ensures i in Positions(m) <==> m[i] {
      PositionsExact(m, i);
    }
  }

  /** What a question's section shows under its heading. */
  datatype Body =
    | TextAnswers(answers: seq<string>)
    | NoData
    | Chart(hasFigure: bool, display: Distribution, stats: Distribution)

  /** A question's section: its anchor, its heading and its body. */
  datatype Section = Section(anchor: string, title: string, body: Body)

  /** The body of a question that is not free text: the counts of the
      aggregator the type calls for; nothing to show when there are none;
      otherwise the "pie" renderer's reduced data for the chart and the
      unreduced counts for the table. Looking up "pie" fails as
      `ChartFactory.get` does when it is not registered. */
  function ChartBody(f: Factory, qt: QuestionType, series: seq<Cell>, opts: DisplayOptions)
    : (r: Result<Body, string>)
    ensures var d := Aggregate(GetAggregator(qt == MultiSelect), series, opts.includeBlank);
      && (|d| == 0 ==> r == Success(NoData))
      && (|d| > 0 && "pie" !in f.renderers ==> r == Failure(UnknownChartType("pie")))
      && (|d| > 0 && "pie" in f.renderers ==>
            r.Success? && r.value.Chart? && r.value.hasFigure == Render(f.renderers["pie"], d, opts.topN).hasFigure)
      && (r.Success? && r.value.Chart? ==>
            && r.value.stats == d
            && r.value.display == Render(f.renderers["pie"], d, opts.topN).display
            && Total(r.value.display) == Total(d))
      && (r.Success? ==> r.value.NoData? || r.value.Chart?)
  {
    var d := Aggregate(GetAggregator(qt == MultiSelect), series, opts.includeBlank);
    if |d| == 0 then Success(NoData)
    else
      var renderer :- Get(f, "pie");
      var out := Render(renderer, d, opts.topN);
      Success(Chart(out.hasFigure, out.display, d))
  }

  /** `_render_question`: a section under the question's anchor and
      heading. The type is detected from the column's name and cells;
      free-text questions are listed and never aggregated, the others are
      charted. */
  function RenderQuestion(t: Table, f: Factory, opts: DisplayOptions, q: Question)
    : (r: Result<Section, string>)
    requires WellFormed(t) && q.columnName in t.columns
    ensures r.Success? ==> r.value.anchor == AnchorId(q) && r.value.title == q.displayTitle
    ensures var series := Column(t, q.columnName);
      var qt := DetectQuestionType(q.columnName, series);
      && (qt == Text ==> r.Success? && r.value.body == TextAnswers(TextListing(series)))
      && (qt != Text ==>
            var b := ChartBody(f, qt, series, opts);
            (r.Success? <==> b.Success?) && (r.Success? ==> r.value.body == b.value))
  {
    var series := Column(t, q.columnName);
    var qt := DetectQuestionType(q.columnName, series);
    var body :- if qt == Text then Success(TextAnswers(TextListing(series)))
                else ChartBody(f, qt, series, opts);
    Success(Section(AnchorId(q), q.displayTitle, body))
  }

  /** `MainContentUI.render`: every question in order; the first failure
      stops the page. */
  function RenderAll(t: Table, f: Factory, opts: DisplayOptions, qs: seq<Question>)
    : (r: Result<seq<Section>, string>)
    requires WellFormed(t)
    requires forall k :: 0 <= k < |qs| ==> qs[k].columnName in t.columns
    ensures r.Success? <==> forall k :: 0 <= k < |qs| ==> RenderQuestion(t, f, opts, qs[k]).Success?
    ensures r.Success? ==>
      |r.value| == |qs| && forall k :: 0 <= k < |qs| ==> r.value[k] == RenderQuestion(t, f, opts, qs[k]).value
  {
    var rs := seq(|qs|, k requires 0 <= k < |qs| => RenderQuestion(t, f, opts, qs[k]));
    assert forall k :: 0 <= k < |qs| ==> rs[k] == RenderQuestion(t, f, opts, qs[k]);
    Collect(rs)
  }

  /** With the default factory no question fails: a question that is not
      free text gets a chart exactly when it has counts, and the chart is a
      pie of the counts reduced to the top `topN` plus "Other", beside the
      full counts. */
  lemma DefaultFactoryRendersEveryQuestion(t: Table, opts: DisplayOptions, q: Question)
    requires WellFormed(t) && q.columnName in t.columns
    ensures var r := RenderQuestion(t, CreateDefaultFactory(), opts, q);
      var series := Column(t, q.columnName);
      var qt := DetectQuestionType(q.columnName, series);
      var d := Aggregate(GetAggregator(qt == MultiSelect), series, opts.includeBlank);
      && r.Success?
      && (qt != Text && |d| > 0 ==> r.value.body.Chart?)
      && (qt != Text && |d| == 0 ==> r.value.body == NoData)
      && (r.value.body.Chart? ==>
            && r.value.body.hasFigure
            && r.value.body.display == TopNWithOther(r.value.body.stats, opts.topN)
            && |r.value.body.stats| > 0)
  {
    var f := CreateDefaultFactory();
    var series := Column(t, q.columnName);
    var qt := DetectQuestionType(q.columnName, series);
    if qt != Text {
      var d := Aggregate(GetAggregator(qt == MultiSelect), series, opts.includeBlank);
      if |d| > 0 {
        assert Get(f, "pie") == Success(PieChartRenderer);
      }
    }
  }

  /** With the default factory the whole page renders: one section per
      question, in question order. */
  lemma DefaultFactoryRendersAll(t: Table, opts: DisplayOptions, qs: seq<Question>)
    requires WellFormed(t)
    requires forall k :: 0 <= k < |qs| ==> qs[k].columnName in t.columns
    ensures var r := RenderAll(t, CreateDefaultFactory(), opts, qs);
      r.Success? && |r.value| == |qs|
      && forall k :: 0 <= k < |qs| ==> r.value[k].title == qs[k].displayTitle
  {
    forall k | 0 <= k < |qs| ensures RenderQuestion(t, CreateDefaultFactory(), opts, qs[k]).Success? {
      DefaultFactoryRendersEveryQuestion(t, opts, qs[k]);
    }
  }

  /** With the slider's options a pie never has more than 16 slices. */
  lemma PieSlicesBounded(d: Distribution, opts: DisplayOptions)
    requires ValidOptions(opts)
    ensures |TopNWithOther(d, opts.topN)| <= 16
  {
  }
}
