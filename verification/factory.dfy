/** The chart renderer registry: renderers stored by chart-type key. */
module ChartFactory {
  import opened Results
  import opened Counting
  import opened PieChart
  import opened Detectors

  /** The two renderers of the viewer. */
  datatype Renderer = PieChartRenderer | TextListRenderer

  /** `get_chart_type`. */
  function ChartType(r: Renderer): string {
    match r
    case PieChartRenderer => "pie"
    case TextListRenderer => "text"
  }

  /** `render` without the drawing. The text renderer draws nothing and
      hands its data back as it is. */
  function Render(r: Renderer, d: Distribution, topN: nat): (out: Rendering)
    ensures r.TextListRenderer? ==> !out.hasFigure && out.display == d
    ensures r.PieChartRenderer? ==> out == RenderPie(d, topN)
    ensures Total(out.display) == Total(d)
  {
    match r
    case PieChartRenderer => RenderPie(d, topN)
    case TextListRenderer => Rendering(false, d)
  }

  datatype Factory = Factory(renderers: map<string, Renderer>)

  /** `ChartFactory()`: no renderer registered. */
  function EmptyFactory(): (f: Factory)
    ensures forall key :: key !in f.renderers
  {
    Factory(map[])
  }

  /** `ChartFactory.register`: stores `r` under `key`, replacing any earlier
      renderer with that key and leaving the other keys alone. */
  function Register(f: Factory, key: string, r: Renderer): (g: Factory)
    ensures key in g.renderers && g.renderers[key] == r
    ensures g.renderers.Keys == f.renderers.Keys + {key}
    ensures forall k :: k in f.renderers && k != key ==> g.renderers[k] == f.renderers[k]
  {
    Factory(f.renderers[key := r])
  }

  /** The `ValueError` message of `ChartFactory.get`. */
  function UnknownChartType(key: string): string {
    "Unknown chart type: " + key
  }

  /** `ChartFactory.get`: the renderer under `key`, or the error raised for
      an unregistered key. */
  function Get(f: Factory, key: string): (r: Result<Renderer, string>)
    ensures r.Success? <==> key in f.renderers
    ensures r.Success? ==> r.value == f.renderers[key]
    ensures r.Failure? ==> r.error == UnknownChartType(key)
  {
    if key in f.renderers then Success(f.renderers[key]) else Failure(UnknownChartType(key))
  }

  /** After registering `r` under `key`, `get(key)` returns `r`, even when
      another renderer was registered under `key` before. */
  lemma GetAfterRegister(f: Factory, key: string, r: Renderer)
    ensures Get(Register(f, key, r), key) == Success(r)
  {
  }

  /** Registering under `key` changes nothing for any other key, including
      whether looking it up fails. */
  lemma GetOtherAfterRegister(f: Factory, key: string, r: Renderer, other: string)
    requires other != key
    ensures Get(Register(f, key, r), other) == Get(f, other)
  {
  }

  /** `get_for_question_type`: the "text" renderer for free-text questions,
      the "pie" renderer for everything else. */
  function GetForQuestionType(f: Factory, qt: QuestionType): (r: Result<Renderer, string>)
    ensures qt == Text ==> r == Get(f, "text")
    ensures qt != Text ==> r == Get(f, "pie")
  {
    if qt == Text then Get(f, "text") else Get(f, "pie")
  }

  /** `create_default_factory`: the pie renderer under "pie" and the text
      list renderer under "text", each under its own chart type. */
  function CreateDefaultFactory(): (f: Factory)
    ensures f.renderers.Keys == {"pie", "text"}
    ensures f.renderers["pie"] == PieChartRenderer && f.renderers["text"] == TextListRenderer
    ensures forall key :: key in f.renderers ==> ChartType(f.renderers[key]) == key
  {
    Register(Register(EmptyFactory(), "pie", PieChartRenderer), "text", TextListRenderer)
  }

  /** Every question type finds a renderer in the default factory, and the
      renderer found draws a pie exactly when the question is not free
      text. */
  lemma DefaultFactoryServesEveryType(qt: QuestionType)
    ensures var r := GetForQuestionType(CreateDefaultFactory(), qt);
      r.Success? && (r.value == PieChartRenderer <==> qt != Text)
  {
    var f := CreateDefaultFactory();
    assert "text" in f.renderers && "pie" in f.renderers;
  }
}
