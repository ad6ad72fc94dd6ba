/** The per-respondent view: pick a participant and list their answer to
    every question. The select box is a parameter: `selected` is whatever
    the user picked. */
module ParticipantView {
  import opened Seqs
  import opened Tables
  import opened QuestionParser

  /** The column holding the participant's name. */
  const ParticipantColumn := "참여자"

  /** Shown for a question the participant left unanswered. */
  const NoResponse := "(무응답)"

  /** The participants that appear in the column, each once, in order of
      first appearance: `dropna().unique().tolist()`. */
  function DistinctPresent(col: seq<Cell>): (ps: seq<string>)
    ensures forall p :: p in ps <==> Str(p) in col
    ensures forall k :: 0 <= k < |ps| ==> Str(ps[k]) in col
    ensures forall k, l :: 0 <= k < l < |ps| ==> ps[k] != ps[l]
    decreases |col|
  {
    if |col| == 0 then []
    else
      var n := |col| - 1;
      var front := DistinctPresent(col[..n]);
      PrefixSnoc(col);
      if col[n].Str? && col[n].value !in front then front + [col[n].value] else front
  }

  /** The participants are listed in order of first appearance: of any
      two, the one listed first occurs first in the column. */
  lemma {:induction false} DistinctPresentOrder(col: seq<Cell>, k: nat, l: nat)
    requires k < l < |DistinctPresent(col)|
    ensures FirstIndex(col, Str(DistinctPresent(col)[k])) < FirstIndex(col, Str(DistinctPresent(col)[l]))
    decreases |col|
  {
    var n := |col| - 1;
    var front := DistinctPresent(col[..n]);
    var isNew := col[n].Str? && col[n].value !in front;
    var ps := DistinctPresent(col);
    assert ps == if isNew then front + [col[n].value] else front;
    assert ps[k] == front[k];
    FirstIndexInPrefix(col, n, Str(front[k]));
    if l < |front| {
      assert ps[l] == front[l];
      FirstIndexInPrefix(col, n, Str(front[l]));
      DistinctPresentOrder(col[..n], k, l);
    } else {
      FirstIndexOfNew(col, n);
    }
  }

  /** A value absent from the prefix first occurs where it is appended. */
  lemma FirstIndexOfNew(col: seq<Cell>, n: nat)
    requires n < |col| && col[n] !in col[..n]
    ensures FirstIndex(col, col[n]) == n
  {
  }

  /** A column has no participants exactly when every cell is missing. */
  lemma NoneDistinctIffAllMissing(col: seq<Cell>)
    ensures |DistinctPresent(col)| == 0 <==> forall i :: 0 <= i < |col| ==> col[i].Missing?
  {
    var ps := DistinctPresent(col);
    if |ps| > 0 {
      assert Str(ps[0]) in col;
    } else {
      forall i | 0 <= i < |col| ensures col[i].Missing? {
      }
    }
  }

  /** One line of the answer table: the question's title and the answer. */
  datatype AnswerLine = AnswerLine(question: string, answer: string)

  /** What the view shows. */
  datatype Outcome =
    | NoParticipantColumn
    | NoParticipants
    | NoMatchingRow(participants: seq<string>)
    | Answers(participants: seq<string>, row: nat, lines: seq<AnswerLine>)

  /** A cell as the answer table shows it: the placeholder for a missing
      cell, the text otherwise. */
  function AnswerText(c: Cell): string {
    match c
    case Missing => NoResponse
    case Str(v) => v
  }

  /** The answer table of one row: one line per question, in question
      order. */
  function AnswerLines(row: Row, questions: seq<Question>): (lines: seq<AnswerLine>)
    requires forall k :: 0 <= k < |questions| ==> questions[k].columnName in row
    ensures |lines| == |questions|
    ensures forall k :: 0 <= k < |questions| ==>
      lines[k] == AnswerLine(questions[k].displayTitle, AnswerText(row[questions[k].columnName]))
  {
    seq(|questions|, k requires 0 <= k < |questions| =>
      AnswerLine(questions[k].displayTitle, AnswerText(row[questions[k].columnName])))
  }

  /** `ParticipantView.render` without the widgets. The answers come from
      the first row whose participant cell is the selected name, one line
      per question, in question order. Every question's column must exist
      (a missing one raises in the source). */
  function Lookup(t: Table, questions: seq<Question>, selected: string): (o: Outcome)
    requires WellFormed(t)
    requires forall k :: 0 <= k < |questions| ==> questions[k].columnName in t.columns
    ensures o.NoParticipantColumn? <==> ParticipantColumn !in t.columns
    ensures ParticipantColumn in t.columns ==>
      var col := Column(t, ParticipantColumn);
      && (o.NoParticipants? <==> forall i :: 0 <= i < |col| ==> col[i].Missing?)
      && (!o.NoParticipants? ==> (o.NoMatchingRow? <==> Str(selected) !in col))
      && (o.NoMatchingRow? || o.Answers? ==> o.participants == DistinctPresent(col))
      && (o.Answers? ==> Str(selected) in col && o.row == FirstIndex(col, Str(selected)))
    ensures o.Answers? ==> o.row < |t.rows| && o.lines == AnswerLines(t.rows[o.row], questions)
  {
    if ParticipantColumn !in t.columns then NoParticipantColumn
    else
      var col := Column(t, ParticipantColumn);
      var ps := DistinctPresent(col);
      if |ps| == 0 then
        NoneDistinctIffAllMissing(col);
        NoParticipants
      else if Str(selected) !in col then
        assert Str(ps[0]) in col;
        NoMatchingRow(ps)
      else
        assert Str(ps[0]) in col;
        var i := FirstIndex(col, Str(selected));
        Answers(ps, i, AnswerLines(t.rows[i], questions))
  }

  /** A participant picked from the offered list always has a row, so the
      "no answers" warning cannot be reached through the select box. */
  lemma OfferedParticipantHasAnswers(t: Table, questions: seq<Question>, selected: string)
    requires WellFormed(t) && ParticipantColumn in t.columns
    requires forall k :: 0 <= k < |questions| ==> questions[k].columnName in t.columns
    requires selected in DistinctPresent(Column(t, ParticipantColumn))
    ensures Lookup(t, questions, selected).Answers?
  {
  }

  /** A missing cell is never shown as empty text. */
  lemma MissingIsNeverEmpty(c: Cell)
    ensures c.Missing? ==> AnswerText(c) == NoResponse && AnswerText(c) != ""
    ensures c.Str? ==> AnswerText(c) == c.value
  {
  }
}
