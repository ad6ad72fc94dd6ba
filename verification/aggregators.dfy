/** Frequency counting of single-select and multi-select ("|"-separated)
    answers. */
module Aggregators {
  import opened Results
  import opened Strings
  import opened Tables
  import opened Counting
  import opened Seqs

  /** The label under which blank answers are counted when asked to. */
  const BlankLabel := "Blank"

  // --------------------------------------------------------- single select

  /** A present cell whose stripped text is not empty. */
  predicate Answered(c: Cell) {
    c.Str? && Trim(c.value) != ""
  }

  /** Number of answered cells in a column. */
  function AnsweredCount(col: seq<Cell>): nat
    decreases |col|
  {
    if |col| == 0 then 0
    else AnsweredCount(col[..|col| - 1]) + (if Answered(col[|col| - 1]) then 1 else 0)
  }

  /** The label a cell is counted under by the single-select aggregator:
      its stripped text; with `includeBlank`, a missing or blank cell counts
      as "Blank", and without it such a cell is dropped. */
  function SingleLabel(c: Cell, includeBlank: bool): (r: Option<string>)
    ensures includeBlank ==> r.Some?
    ensures !includeBlank ==> (r.Some? <==> Answered(c))
    ensures r.Some? ==> r.value != "" && IsTrimmed(r.value)
    ensures r.Some? && r.value != BlankLabel ==> c.Str? && r.value == Trim(c.value)
    ensures includeBlank && !Answered(c) ==> r == Some(BlankLabel)
    ensures Answered(c) ==> r == Some(Trim(c.value))
  {
    if Answered(c) then Some(Trim(c.value))
    else if includeBlank then Some(BlankLabel)
    else None
  }

  /** Reference count: how many cells of `col` are counted under `l`. */
  function SingleHits(col: seq<Cell>, includeBlank: bool, l: string): nat
    decreases |col|
  {
    if |col| == 0 then 0
    else SingleHits(col[..|col| - 1], includeBlank, l)
         + (if SingleLabel(col[|col| - 1], includeBlank) == Some(l) then 1 else 0)
  }

  /** The labels the cells contribute, in row order. */
  function SingleSelectLabels(col: seq<Cell>, includeBlank: bool): (ls: seq<string>)
    ensures |ls| == if includeBlank then |col| else AnsweredCount(col)
    ensures forall k :: 0 <= k < |ls| ==> ls[k] != "" && IsTrimmed(ls[k])
    decreases |col|
  {
    if |col| == 0 then []
    else
      var n := |col| - 1;
      var front := SingleSelectLabels(col[..n], includeBlank);
      match SingleLabel(col[n], includeBlank)
      case Some(l) => front + [l]
      case None => front
  }

  /** Each label occurs among the labels as often as the cells counted
      under it. */
  lemma {:induction false} SingleSelectLabelsCount(col: seq<Cell>, includeBlank: bool, l: string)
    ensures multiset(SingleSelectLabels(col, includeBlank))[l] == SingleHits(col, includeBlank, l)
    decreases |col|
  {
    if |col| > 0 {
      SingleSelectLabelsCount(col[..|col| - 1], includeBlank, l);
    }
  }

  /** `SingleSelectAggregator.aggregate`: counts of the stripped answers,
      most frequent first. */
  function SingleSelectAggregate(col: seq<Cell>, includeBlank: bool): (d: Distribution)
    ensures NonIncreasing(d) && DistinctLabels(d) && Positive(d)
    ensures forall l :: CountOf(d, l) == SingleHits(col, includeBlank, l)
    ensures Total(d) == if includeBlank then |col| else AnsweredCount(col)
    ensures forall l :: l in Labels(d) ==> l != "" && IsTrimmed(l)
  {
    var ls := SingleSelectLabels(col, includeBlank);
    forall l ensures multiset(ls)[l] == SingleHits(col, includeBlank, l) {
      SingleSelectLabelsCount(col, includeBlank, l);
    }
    var d := ValueCounts(ls);
    assert forall l :: l in Labels(d) ==> l in ls;
    d
  }

  /** A single answer is counted once under its stripped text, whether or
      not blanks are counted. */
  lemma SingleAnswerCounted(l: string, includeBlank: bool)
    requires l != "" && IsTrimmed(l)
    ensures CountOf(SingleSelectAggregate([Str(l)], includeBlank), l) == 1
  {
    TrimIdempotent(l);
    assert [Str(l)][..0] == [];
  }

  /** Without `includeBlank` missing and blank cells are dropped, but an
      answer that literally reads "Blank" is still counted under that
      label. */
  lemma LiteralBlankAnswerCounted()
    ensures CountOf(SingleSelectAggregate([Str(BlankLabel)], false), BlankLabel) == 1
  {
    SingleAnswerCounted(BlankLabel, false);
  }

  // ----------------------------------------------------------- multi select

  /** Python's `s.lower() == "nan"`. */
  predicate IsNanText(s: string) {
    && |s| == 3
    && (s[0] == 'n' || s[0] == 'N')
    && (s[1] == 'a' || s[1] == 'A')
    && (s[2] == 'n' || s[2] == 'N')
  }

  /** Stripped texts that `_split_pipe` reads as "no answer". */
  predicate IsBlankText(s: string) {
    s == "" || IsNanText(s) || s == "."
  }

  /** The stripped, non-empty pieces, in order. */
  function KeepTokens(parts: seq<string>): (ts: seq<string>)
    ensures forall k :: 0 <= k < |ts| ==> ts[k] != "" && IsTrimmed(ts[k])
    ensures (forall j :: 0 <= j < |parts| ==> '|' !in parts[j]) ==> (forall k :: 0 <= k < |ts| ==> '|' !in ts[k])
    ensures |ts| <= |parts|
    decreases |parts|
  {
    if |parts| == 0 then []
    else
      var n := |parts| - 1;
      var front := KeepTokens(parts[..n]);
      var t := Trim(parts[n]);
      PipeSurvivesTrim(parts[n]);
      if t == "" then front else front + [t]
  }

  /** The pieces, each stripped. */
  function TrimAll(parts: seq<string>): (ts: seq<string>)
    ensures |ts| == |parts|
    ensures forall j :: 0 <= j < |parts| ==> ts[j] == Trim(parts[j])
  {
    seq(|parts|, j requires 0 <= j < |parts| => Trim(parts[j]))
  }

  /** Which pieces are not empty once stripped. */
  function NonBlankMask(parts: seq<string>): (m: seq<bool>)
    ensures |m| == |parts|
    ensures forall j :: 0 <= j < |parts| ==> (m[j] <==> Trim(parts[j]) != "")
  {
    seq(|parts|, j requires 0 <= j < |parts| => Trim(parts[j]) != "")
  }

  lemma {:induction false} KeepTokensSelects(parts: seq<string>)
    ensures KeepTokens(parts) == Select(TrimAll(parts), NonBlankMask(parts))
    decreases |parts|
  {
    if |parts| > 0 {
      var n := |parts| - 1;
      KeepTokensSelects(parts[..n]);
      assert TrimAll(parts)[..n] == TrimAll(parts[..n]);
      assert NonBlankMask(parts)[..n] == NonBlankMask(parts[..n]);
    }
  }

  /** The kept tokens are exactly the pieces that are not empty once
      stripped, stripped, in their original order. */
  lemma KeepTokensExact(parts: seq<string>)
    ensures var idx := Positions(NonBlankMask(parts));
      && PicksAt(KeepTokens(parts), TrimAll(parts), idx)
      && forall j :: 0 <= j < |parts| ==> (j in idx <==> Trim(parts[j]) != "")
  {
    var m := NonBlankMask(parts);
    KeepTokensSelects(parts);
    SelectPicksPositions(TrimAll(parts), m);
    forall j | 0 <= j < |parts| ensures j in Positions(m) <==> m[j] {
      PositionsExact(m, j);
    }
  }

  /** `_split_pipe`: the options chosen in one cell. Missing and blank-like
      cells give none; otherwise the text is cut at each "|" and the
      stripped, non-empty pieces are the tokens. */
  function SplitPipe(c: Cell): (tokens: seq<string>)
    ensures forall k :: 0 <= k < |tokens| ==> tokens[k] != "" && IsTrimmed(tokens[k]) && '|' !in tokens[k]
    ensures c.Missing? ==> tokens == []
    ensures c.Str? && IsBlankText(Trim(c.value)) ==> tokens == []
  {
    match c
    case Missing => []
    case Str(v) =>
      var s := Trim(v);
      if IsBlankText(s) then []
      else
        var parts := SplitOn(s, '|');
        KeepTokens(parts)
  }

  lemma {:induction false} KeepTokensOfTokens(ts: seq<string>)
    requires forall k :: 0 <= k < |ts| ==> ts[k] != "" && IsTrimmed(ts[k])
    ensures KeepTokens(ts) == ts
    decreases |ts|
  {
    if |ts| > 0 {
      var n := |ts| - 1;
      KeepTokensOfTokens(ts[..n]);
      TrimIdempotent(ts[n]);
      assert ts == ts[..n] + [ts[n]];
    }
  }

  lemma {:induction false} JoinIsTrimmed(ts: seq<string>, sep: char)
    requires |ts| > 0
    requires forall k :: 0 <= k < |ts| ==> ts[k] != "" && IsTrimmed(ts[k])
    ensures |JoinWith(ts, sep)| > 0
    ensures JoinWith(ts, sep)[0] == ts[0][0]
    ensures JoinWith(ts, sep)[|JoinWith(ts, sep)| - 1] == ts[|ts| - 1][|ts[|ts| - 1]| - 1]
    decreases |ts|
  {
    if |ts| > 1 {
      JoinIsTrimmed(ts[1..], sep);
    }
  }

  /** Round trip: a cell holding options glued with "|" splits back into
      exactly those options. */
  lemma SplitPipeJoin(options: seq<string>)
    requires |options| > 0
    requires forall k :: 0 <= k < |options| ==> options[k] != "" && IsTrimmed(options[k]) && '|' !in options[k]
    requires !IsBlankText(JoinWith(options, '|'))
    ensures SplitPipe(Str(JoinWith(options, '|'))) == options
  {
    var s := JoinWith(options, '|');
    JoinIsTrimmed(options, '|');
    TrimIdempotent(s);
    SplitOnJoin(options, '|');
    KeepTokensOfTokens(options);
  }

  /** A present cell that is not blank-like yields the pieces between its
      `|` delimiters that are not empty once stripped, stripped, in order. */
  lemma SplitPipeExact(v: string)
    requires !IsBlankText(Trim(v))
    ensures var parts := SplitOn(Trim(v), '|');
      var idx := Positions(NonBlankMask(parts));
      && PicksAt(SplitPipe(Str(v)), TrimAll(parts), idx)
      && forall j :: 0 <= j < |parts| ==> (j in idx <==> Trim(parts[j]) != "")
  {
    KeepTokensExact(SplitOn(Trim(v), '|'));
  }

  /** An option: not empty, stripped and free of `|`. */
  predicate IsToken(a: string) {
    a != "" && IsTrimmed(a) && '|' !in a
  }

  /** Whitespace around the delimiter and around the cell is dropped: two
      options with any padding split into the two options. */
  lemma SplitPipePadded(a: string, b: string, p0: string, p1: string, p2: string, p3: string)
    requires IsToken(a) && IsToken(b)
    requires AllSpace(p0) && AllSpace(p1) && AllSpace(p2) && AllSpace(p3)
    ensures SplitPipe(Str(p0 + a + p1 + "|" + p2 + b + p3)) == [a, b]
  {
    var s := p0 + a + p1 + "|" + p2 + b + p3;
    var x, y := a + p1, p2 + b;
    var inner := x + "|" + y;
    PaddedPair(a, b, p0, p1, p2, p3);
    TrimOfPadded(p0, inner, p3);
    NotBlankWithPipe(inner, |x|);
    PieceAfterPipe(x, y);
    TrimOfRightPadded(a, p1);
    TrimOfLeftPadded(p2, b);
    KeepTwo(x, y);
    SplitPipeVia(s, inner, [x, y], [a, b]);
  }

  /** The steps of `_split_pipe` on a present cell, one fact each. */
  lemma SplitPipeVia(v: string, t: string, parts: seq<string>, tokens: seq<string>)
    requires Trim(v) == t && !IsBlankText(t)
    requires SplitOn(t, '|') == parts && KeepTokens(parts) == tokens
    ensures SplitPipe(Str(v)) == tokens
  {
  }

  lemma TrimOfRightPadded(a: string, p: string)
    requires IsTrimmed(a) && AllSpace(p)
    ensures Trim(a + p) == a
  {
    TrimOfPadded("", a, p);
    assert "" + a + p == a + p;
  }

  lemma TrimOfLeftPadded(p: string, b: string)
    requires IsTrimmed(b) && AllSpace(p)
    ensures Trim(p + b) == b
  {
    TrimOfPadded(p, b, "");
    assert p + b + "" == p + b;
  }

  /** An empty or all-whitespace piece between two delimiters is dropped. */
  lemma SplitPipeEmptyPiece(a: string, b: string, q: string)
    requires IsToken(a) && IsToken(b) && AllSpace(q)
    ensures SplitPipe(Str(a + "|" + q + "|" + b)) == [a, b]
  {
    var s := a + "|" + q + "|" + b;
    PipedTriple(a, q, b);
    TrimIdempotent(s);
    NotBlankWithPipe(s, |a|);
    SplitThree(a, q, b);
    TrimIdempotent(a);
    TrimIdempotent(b);
    TrimOfSpaces(q);
    KeepThree(a, q, b);
    SplitPipeVia(s, s, [a, q, b], [a, b]);
  }

  lemma PipedTriple(a: string, q: string, b: string)
    requires IsToken(a) && IsToken(b)
    ensures var s := a + "|" + q + "|" + b;
      IsTrimmed(s) && |a| < |s| && s[|a|] == '|'
  {
    var s := a + "|" + q + "|" + b;
    assert s[0] == a[0] && s[|s| - 1] == b[|b| - 1];
  }

  lemma SplitThree(a: string, q: string, b: string)
    requires '|' !in a && '|' !in q && '|' !in b
    ensures SplitOn(a + "|" + q + "|" + b, '|') == [a, q, b]
  {
    assert a + "|" + q + "|" + b == a + ['|'] + (q + "|" + b);
    SplitOnAfterPiece(a, '|', q + "|" + b);
    PieceAfterPipe(q, b);
    assert [a] + [q, b] == [a, q, b];
  }

  lemma TrimOfSpaces(q: string)
    requires AllSpace(q)
    ensures Trim(q) == ""
  {
    TrimOfPadded(q, "", "");
    assert q + "" + "" == q;
  }

  lemma PaddedPair(a: string, b: string, p0: string, p1: string, p2: string, p3: string)
    requires IsToken(a) && IsToken(b)
    ensures var inner := (a + p1) + "|" + (p2 + b);
      && p0 + a + p1 + "|" + p2 + b + p3 == p0 + inner + p3
      && IsTrimmed(inner)
  {
    var inner := (a + p1) + "|" + (p2 + b);
    assert inner[0] == a[0] && inner[|inner| - 1] == b[|b| - 1];
  }

  /** Text holding a `|` is never blank-like. */
  lemma NotBlankWithPipe(s: string, i: nat)
    requires i < |s| && s[i] == '|'
    ensures !IsBlankText(s)
  {
  }

  /** A pipe-free piece followed by `|` is split off first. */
  lemma PieceAfterPipe(x: string, y: string)
    requires '|' !in x && '|' !in y
    ensures SplitOn(x + "|" + y, '|') == [x, y]
  {
    assert x + "|" + y == x + ['|'] + y;
    SplitOnAfterPiece(x, '|', y);
    SplitOnPlain(y, '|');
  }

  lemma KeepTwo(x: string, y: string)
    requires Trim(x) != "" && Trim(y) != ""
    ensures KeepTokens([x, y]) == [Trim(x), Trim(y)]
  {
    assert [x, y][..1] == [x];
    assert [x][..0] == [];
  }

  lemma KeepThree(x: string, q: string, y: string)
    requires Trim(x) != "" && Trim(q) == "" && Trim(y) != ""
    ensures KeepTokens([x, q, y]) == [Trim(x), Trim(y)]
  {
    assert [x, q, y][..2] == [x, q];
    KeepTwoDropLast(x, q);
  }

  lemma KeepTwoDropLast(x: string, q: string)
    requires Trim(x) != "" && Trim(q) == ""
    ensures KeepTokens([x, q]) == [Trim(x)]
  {
    assert [x, q][..1] == [x];
    assert [x][..0] == [];
  }

  /** What one row adds to the pooled tokens: its options, or a single
      "Blank" when it has none and blanks are counted. */
  function Contribution(c: Cell, includeBlank: bool): (ts: seq<string>)
    ensures includeBlank && |SplitPipe(c)| == 0 ==> ts == [BlankLabel]
    ensures !(includeBlank && |SplitPipe(c)| == 0) ==> ts == SplitPipe(c)
    ensures |ts| == |SplitPipe(c)| + (if includeBlank && |SplitPipe(c)| == 0 then 1 else 0)
    ensures forall k :: 0 <= k < |ts| ==> ts[k] != "" && IsTrimmed(ts[k]) && '|' !in ts[k]
  {
    var parts := SplitPipe(c);
    if |parts| == 0 && includeBlank then
      BlankLabelIsToken();
      [BlankLabel]
    else parts
  }

  /** "Blank" is itself a well-formed option. */
  lemma BlankLabelIsToken()
    ensures IsToken(BlankLabel)
  {
    assert BlankLabel == ['B', 'l', 'a', 'n', 'k'];
  }

  /** Number of options chosen over all rows. */
  function TokenTotal(col: seq<Cell>): nat
    decreases |col|
  {
    if |col| == 0 then 0 else TokenTotal(col[..|col| - 1]) + |SplitPipe(col[|col| - 1])|
  }

  /** Number of rows with no option chosen. */
  function EmptyRows(col: seq<Cell>): nat
    decreases |col|
  {
    if |col| == 0 then 0
    else EmptyRows(col[..|col| - 1]) + (if |SplitPipe(col[|col| - 1])| == 0 then 1 else 0)
  }

  /** Reference count: occurrences of `l` summed over the rows' contributions. */
  function TokenHits(col: seq<Cell>, includeBlank: bool, l: string): nat
    decreases |col|
  {
    if |col| == 0 then 0
    else TokenHits(col[..|col| - 1], includeBlank, l) + multiset(Contribution(col[|col| - 1], includeBlank))[l]
  }

  /** The pooled tokens of all rows, in row order. */
  function MultiSelectTokens(col: seq<Cell>, includeBlank: bool): (ts: seq<string>)
    ensures |ts| == TokenTotal(col) + (if includeBlank then EmptyRows(col) else 0)
    ensures forall l :: multiset(ts)[l] == TokenHits(col, includeBlank, l)
    ensures forall k :: 0 <= k < |ts| ==> ts[k] != "" && IsTrimmed(ts[k]) && '|' !in ts[k]
    decreases |col|
  {
    if |col| == 0 then []
    else
      var n := |col| - 1;
      assert col[..n] == col[..|col| - 1];
      var front := MultiSelectTokens(col[..n], includeBlank);
      var last := Contribution(col[n], includeBlank);
      assert multiset(front + last) == multiset(front) + multiset(last);
      front + last
  }

  /** `MultiSelectAggregator.aggregate`: counts of the pooled options, most
      frequent first; empty when no row contributes anything. */
  function MultiSelectAggregate(col: seq<Cell>, includeBlank: bool): (d: Distribution)
    ensures NonIncreasing(d) && DistinctLabels(d) && Positive(d)
    ensures forall l :: CountOf(d, l) == TokenHits(col, includeBlank, l)
    ensures Total(d) == TokenTotal(col) + (if includeBlank then EmptyRows(col) else 0)
    ensures |d| == 0 <==> Total(d) == 0
    ensures forall l :: l in Labels(d) ==> l != "" && IsTrimmed(l) && '|' !in l
  {
    var ts := MultiSelectTokens(col, includeBlank);
    if |ts| == 0 then []
    else
      var d := ValueCounts(ts);
      assert forall l :: l in Labels(d) ==> l in ts;
      assert d[0].count > 0;
      assert Total(d) >= d[0].count;
      d
  }

  lemma {:induction false} TokensCoverRows(col: seq<Cell>)
    ensures TokenTotal(col) + EmptyRows(col) >= |col|
    decreases |col|
  {
    if |col| > 0 {
      TokensCoverRows(col[..|col| - 1]);
    }
  }

  /** Every row that chose something adds at least one to the total, and
      with blanks counted every row does; a row choosing several options adds
      several, so the total may exceed the number of rows. */
  lemma MultiSelectTotalBounds(col: seq<Cell>, includeBlank: bool)
    ensures Total(MultiSelectAggregate(col, includeBlank)) >= |col| - EmptyRows(col)
    ensures includeBlank ==> Total(MultiSelectAggregate(col, includeBlank)) >= |col|
  {
    TokensCoverRows(col);
  }

  // -------------------------------------------------------------- dispatch

  datatype Aggregator = SingleSelectAggregator | MultiSelectAggregator

  /** `get_aggregator`. */
  function GetAggregator(isMultiSelect: bool): (a: Aggregator)
    ensures a.MultiSelectAggregator? <==> isMultiSelect
  {
    if isMultiSelect then MultiSelectAggregator else SingleSelectAggregator
  }

  /** Either aggregator yields distinct, non-blank labels with positive
      counts in non-increasing order. */
  function Aggregate(a: Aggregator, col: seq<Cell>, includeBlank: bool): (d: Distribution)
    ensures NonIncreasing(d) && DistinctLabels(d) && Positive(d)
    ensures forall l :: l in Labels(d) ==> l != "" && IsTrimmed(l)
    ensures a.SingleSelectAggregator? ==> Total(d) == if includeBlank then |col| else AnsweredCount(col)
    ensures a.MultiSelectAggregator? ==> Total(d) == TokenTotal(col) + (if includeBlank then EmptyRows(col) else 0)
    ensures a.SingleSelectAggregator? ==> forall l :: CountOf(d, l) == SingleHits(col, includeBlank, l)
    ensures a.MultiSelectAggregator? ==> forall l :: CountOf(d, l) == TokenHits(col, includeBlank, l)
  {
    match a
    case SingleSelectAggregator => SingleSelectAggregate(col, includeBlank)
    case MultiSelectAggregator => MultiSelectAggregate(col, includeBlank)
  }
}
