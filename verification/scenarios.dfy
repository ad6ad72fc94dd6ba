/** Worked examples of the classification and counting rules on concrete
    columns. */
module Scenarios {
  import opened Strings
  import opened Seqs
  import opened Tables
  import opened Counting
  import opened Detectors
  import opened Aggregators

  const PreferredTimeTitle := "선호 시간대(최대 2개 선택)"
  const Morning := "아침"
  const Evening := "저녁"

  /** Answers "morning|evening", "evening" and one missing cell. */
  function PreferredTimeColumn(): seq<Cell> {
    TwoChoiceColumn(Morning, Evening)
  }

  /** Each `n` lengths of at most `bound` sum to at most `bound * n`. */
  lemma {:induction false} SumLengthsBound(vs: seq<string>, bound: nat)
    requires forall k :: 0 <= k < |vs| ==> |vs[k]| <= bound
    ensures SumLengths(vs) <= bound * |vs|
    decreases |vs|
  {
    if |vs| > 0 {
      SumLengthsBound(vs[..|vs| - 1], bound);
    }
  }

  /** Stripping never lengthens an answer. */
  lemma PresentTrimmedBounded(col: seq<Cell>, bound: nat)
    requires forall i :: 0 <= i < |col| && col[i].Str? ==> |col[i].value| <= bound
    ensures forall k :: 0 <= k < |PresentTrimmed(col)| ==> |PresentTrimmed(col)[k]| <= bound
  {
    var vs := PresentTrimmed(col);
    var all := TrimmedValues(col);
    var m := PresentMask(col);
    SelectPicksPositions(all, m);
    var idx := Positions(m);
    forall k | 0 <= k < |vs| ensures |vs[k]| <= bound {
      var i := idx[k];
      assert vs[k] == all[i] && m[i];
    }
  }

  /** A column whose present answers are at most as long as the threshold
      is not free text by length. */
  lemma ShortAnswersNotLong(col: seq<Cell>)
    requires forall i :: 0 <= i < |col| && col[i].Str? ==> |col[i].value| <= LengthThreshold
    ensures !LongAnswers(col)
  {
    PresentTrimmedBounded(col, LengthThreshold);
    SumLengthsBound(PresentTrimmed(col), LengthThreshold);
    LongAnswersIntegerForm(col);
  }

  /** The title asks for at most two choices and carries no free-text
      marker. */
  lemma PreferredTimeTitleMarkers()
    ensures Contains(PreferredTimeTitle, MaxSelectionsMarker)
    ensures !TitleMarksText(PreferredTimeTitle)
  {
    var title := PreferredTimeTitle;
    assert MaxSelectionsMarker <= title[7..];
    FirstCharAbsent(title, ContactMarker);
    forall k | 0 <= k < |TextHints| ensures !Contains(title, TextHints[k]) {
      FirstCharAbsent(title, TextHints[k]);
    }
  }

  /** The preferred-time question is multiple choice. */
  lemma PreferredTimeIsMultiSelect()
    ensures DetectQuestionType(PreferredTimeTitle, PreferredTimeColumn()) == MultiSelect
  {
    PreferredTimeTitleMarkers();
    ShortAnswersNotLong(PreferredTimeColumn());
  }

  /** A well-formed option: not empty, stripped, free of "|" and not read
      as "no answer". */
  predicate ValidOption(a: string) {
    IsToken(a) && !IsBlankText(a)
  }

  /** A cell holding one option splits into that option. */
  lemma SplitPipeOne(a: string)
    requires ValidOption(a)
    ensures SplitPipe(Str(a)) == [a]
  {
    assert JoinWith([a], '|') == a;
    SplitPipeJoin([a]);
  }

  /** A cell holding two options glued with "|" splits into both. */
  lemma SplitPipeTwo(a: string, b: string)
    requires ValidOption(a) && ValidOption(b)
    ensures SplitPipe(Str(a + "|" + b)) == [a, b]
  {
    var s := a + "|" + b;
    assert [a, b][1..] == [b];
    assert JoinWith([a, b], '|') == s;
    assert s[|a|] == '|';
    SplitPipeJoin([a, b]);
  }

  lemma TokenHitsSnoc(col: seq<Cell>, c: Cell, l: string)
    ensures TokenHits(col + [c], false, l) == TokenHits(col, false, l) + multiset(SplitPipe(c))[l]
    ensures TokenTotal(col + [c]) == TokenTotal(col) + |SplitPipe(c)|
  {
    assert (col + [c])[..|col|] == col;
  }

  /** The reference counts of a three-row column, row by row. */
  lemma TokenHitsThree(c0: Cell, c1: Cell, c2: Cell, l: string)
    ensures TokenHits([c0, c1, c2], false, l)
         == multiset(SplitPipe(c0))[l] + multiset(SplitPipe(c1))[l] + multiset(SplitPipe(c2))[l]
    ensures TokenTotal([c0, c1, c2]) == |SplitPipe(c0)| + |SplitPipe(c1)| + |SplitPipe(c2)|
  {
    var s0: seq<Cell> := [];
    var s1 := s0 + [c0];
    var s2 := s1 + [c1];
    var s3 := s2 + [c2];
    TokenHitsSnoc(s0, c0, l);
    TokenHitsSnoc(s1, c1, l);
    TokenHitsSnoc(s2, c2, l);
    assert s3 == [c0, c1, c2];
  }

  /** The answers "a|b", "b" and a missing cell. */
  function TwoChoiceColumn(a: string, b: string): seq<Cell> {
    [Str(a + "|" + b), Str(b), Missing]
  }

  lemma PairMultiplicities(a: string, b: string)
    requires a != b
    ensures multiset([a, b])[a] == 1 && multiset([a, b])[b] == 1
    ensures multiset([b])[a] == 0 && multiset([b])[b] == 1
  {
  }

  /** The reference counts of a column whose first row chooses `a` and
      `b`, whose second row chooses `b` and whose third is missing. */
  lemma TwoChoiceHits(c0: Cell, c1: Cell, a: string, b: string)
    requires a != b && SplitPipe(c0) == [a, b] && SplitPipe(c1) == [b]
    ensures TokenHits([c0, c1, Missing], false, a) == 1
    ensures TokenHits([c0, c1, Missing], false, b) == 2
    ensures TokenTotal([c0, c1, Missing]) == 3
  {
    PairMultiplicities(a, b);
    TokenHitsThree(c0, c1, Missing, a);
    TokenHitsThree(c0, c1, Missing, b);
  }

  /** Counted without blanks, `b` is chosen twice and `a` once, and the
      missing answer adds nothing. */
  lemma TwoChoiceCounts(a: string, b: string)
    requires ValidOption(a) && ValidOption(b) && a != b
    ensures var d := MultiSelectAggregate(TwoChoiceColumn(a, b), false);
      && CountOf(d, b) == 2
      && CountOf(d, a) == 1
      && Total(d) == 3
  {
    SplitPipeTwo(a, b);
    SplitPipeOne(b);
    TwoChoiceHits(Str(a + "|" + b), Str(b), a, b);
  }

  /** On the preferred-time column "evening" is counted twice and
      "morning" once. */
  lemma PreferredTimeCounts()
    ensures var d := MultiSelectAggregate(PreferredTimeColumn(), false);
      && CountOf(d, Evening) == 2
      && CountOf(d, Morning) == 1
      && Total(d) == 3
  {
    TwoChoiceCounts(Morning, Evening);
  }
}
