/** Question-type detection: free text, multiple choice or single choice,
    decided from the column title and the column's answers. */
module Detectors {
  import opened Strings
  import opened Tables
  import opened Seqs

  datatype QuestionType = SingleSelect | MultiSelect | Text

  /** Titles asking for contact details are free text. */
  const ContactMarker := "연락처"

  /** Phrases of open-ended prompts ("write down", "in order", "recall",
      "example", "inquiry/complaint", "criterion", "how"). */
  const TextHints := ["적어", "순서대로", "떠올려", "사례", "문의/불만", "기준", "어떻게"]

  /** Titles announcing "at most N choices" are multiple choice. */
  const MaxSelectionsMarker := "최대"

  /** Mean answer length above which a column is free text. */
  const LengthThreshold := 80

  /** `dropna().astype(str).str.strip()`: the stripped texts of the present
      answers, in row order. */
  function PresentTrimmed(col: seq<Cell>): (vs: seq<string>)
    ensures |vs| == CountTrue(PresentMask(col))
    ensures PicksAt(vs, TrimmedValues(col), Positions(PresentMask(col)))
  {
    SelectPicksPositions(TrimmedValues(col), PresentMask(col));
    Select(TrimmedValues(col), PresentMask(col))
  }

  /** Total number of characters. */
  function SumLengths(vs: seq<string>): nat
    decreases |vs|
  {
    if |vs| == 0 then 0 else SumLengths(vs[..|vs| - 1]) + |vs[|vs| - 1]|
  }

  function MeanLength(vs: seq<string>): real
    requires |vs| > 0
  {
    SumLengths(vs) as real / |vs| as real
  }

  /** The length rule: the mean stripped length of the present answers
      exceeds the threshold; a column with no present answer never does. */
  predicate LongAnswers(col: seq<Cell>) {
    var vs := PresentTrimmed(col);
    |vs| > 0 && MeanLength(vs) > LengthThreshold as real
  }

  /** The title rules for free text. */
  predicate TitleMarksText(title: string) {
    Contains(title, ContactMarker) || ContainsAny(title, TextHints)
  }

  /** `is_text_question`. */
  predicate IsTextQuestion(title: string, col: seq<Cell>) {
    TitleMarksText(title) || LongAnswers(col)
  }

  /** Some present answer contains the "|" delimiter. */
  predicate HasPipeValue(col: seq<Cell>) {
    exists i :: 0 <= i < |col| && col[i].Str? && '|' in col[i].value
  }

  /** `is_multi_select`. */
  predicate IsMultiSelect(title: string, col: seq<Cell>) {
    Contains(title, MaxSelectionsMarker) || HasPipeValue(col)
  }

  /** `detect_question_type`: the first rule that fires wins, in the order
      free text, multiple choice, single choice. */
  function DetectQuestionType(title: string, col: seq<Cell>): (qt: QuestionType)
    ensures Contains(title, ContactMarker) ==> qt == Text
    ensures ContainsAny(title, TextHints) ==> qt == Text
    ensures LongAnswers(col) ==> qt == Text
    ensures qt == Text ==> TitleMarksText(title) || LongAnswers(col)
    ensures qt != Text && Contains(title, MaxSelectionsMarker) ==> qt == MultiSelect
    ensures qt != Text && HasPipeValue(col) ==> qt == MultiSelect
    ensures qt == MultiSelect ==> !IsTextQuestion(title, col) && IsMultiSelect(title, col)
    ensures qt == SingleSelect ==> !IsTextQuestion(title, col) && !Contains(title, MaxSelectionsMarker)
    ensures qt == SingleSelect ==> forall i :: 0 <= i < |col| && col[i].Str? ==> '|' !in col[i].value
  {
    if IsTextQuestion(title, col) then Text
    else if IsMultiSelect(title, col) then MultiSelect
    else SingleSelect
  }

  /** A column without any present answer is never free text by length:
      only the title can make it free text, and otherwise detection falls
      through to the choice rules. */
  lemma AllMissingNotLong(title: string, col: seq<Cell>)
    requires forall i :: 0 <= i < |col| ==> col[i].Missing?
    ensures !LongAnswers(col)
    ensures DetectQuestionType(title, col) == Text <==> TitleMarksText(title)
    ensures !TitleMarksText(title) ==>
      DetectQuestionType(title, col) == (if Contains(title, MaxSelectionsMarker) then MultiSelect else SingleSelect)
  {
    CountTrueNone(PresentMask(col));
  }

  /** The mean rule in integer form: the mean of `n` lengths summing to
      `sum` exceeds the threshold exactly when `sum > threshold * n`. */
  lemma MeanAboveIff(sum: nat, n: nat, threshold: nat)
    requires n > 0
    ensures sum as real / n as real > threshold as real <==> sum > threshold * n
  {
    var m := sum as real / n as real;
    assert m * n as real == sum as real;
    assert (threshold * n) as real == threshold as real * n as real;
    if m > threshold as real {
      assert m * n as real > threshold as real * n as real;
    } else {
      assert m * n as real <= threshold as real * n as real;
    }
  }

  /** The length rule in integer form. */
  lemma LongAnswersIntegerForm(col: seq<Cell>)
    ensures LongAnswers(col) <==>
      var vs := PresentTrimmed(col);
      |vs| > 0 && SumLengths(vs) > LengthThreshold * |vs|
  {
    var vs := PresentTrimmed(col);
    if |vs| > 0 {
      MeanAboveIff(SumLengths(vs), |vs|, LengthThreshold);
    }
  }

  /** `is_text_question` in the source's own terms: a contact title, a
      title with one of the hint phrases, or present answers whose stripped
      lengths sum to more than the threshold times their number. */
  lemma IsTextQuestionIff(title: string, col: seq<Cell>)
    ensures IsTextQuestion(title, col) <==>
      || Contains(title, ContactMarker)
      || (exists k :: 0 <= k < |TextHints| && Contains(title, TextHints[k]))
      || (var vs := PresentTrimmed(col); |vs| > 0 && SumLengths(vs) > LengthThreshold * |vs|)
  {
    LongAnswersIntegerForm(col);
  }

  /** `is_multi_select` looks for "|" in the unstripped present answers;
      stripping never adds or removes a "|", so the stripped answers give
      the same verdict. */
  lemma IsMultiSelectOfPresent(title: string, col: seq<Cell>)
    ensures IsMultiSelect(title, col) <==>
      || Contains(title, MaxSelectionsMarker)
      || exists j :: 0 <= j < |PresentTrimmed(col)| && '|' in PresentTrimmed(col)[j]
  {
    var vs, tv, idx := PresentTrimmed(col), TrimmedValues(col), Positions(PresentMask(col));
    if HasPipeValue(col) {
      var i :| 0 <= i < |col| && col[i].Str? && '|' in col[i].value;
      PipeSurvivesTrim(col[i].value);
      assert i in idx;
      var j :| 0 <= j < |idx| && idx[j] == i;
      assert vs[j] == tv[i];
    }
    if exists j :: 0 <= j < |vs| && '|' in vs[j] {
      var j :| 0 <= j < |vs| && '|' in vs[j];
      var i := idx[j];
      assert col[i].Str? && vs[j] == Trim(col[i].value);
      PipeSurvivesTrim(col[i].value);
    }
  }

  /** Worked example: a contact-details title is free text whatever the
      answers are. */
  lemma ContactTitleIsText(col: seq<Cell>)
    ensures DetectQuestionType("연락처(이메일/전화번호)", col) == Text
  {
    var title := "연락처(이메일/전화번호)";
    assert ContactMarker <= title[0..];
  }
}
