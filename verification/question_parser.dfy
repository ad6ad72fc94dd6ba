/** Question extraction: every non-metadata column becomes a numbered
    question with a display title "Q<id>. <title>". */
module QuestionParser {
  import opened Results
  import opened Strings
  import opened Seqs

  datatype Question = Question(id: nat, columnName: string, displayTitle: string)

  /** `Question.anchor_id`: "q" followed by the id in decimal. */
  function AnchorId(q: Question): (a: string)
    ensures |a| >= 2 && a[0] == 'q'
    ensures AllDigits(a[1..]) && DigitsValue(a[1..]) == q.id
    ensures a[1] == '0' ==> q.id == 0 && |a| == 2
  {
    var a := "q" + NatToString(q.id);
    assert a[1..] == NatToString(q.id);
    a
  }

  /** The contract of `AnchorId` leaves one answer: "q" + `str(id)`. */
  lemma AnchorIdIsDecimal(q: Question, a: string)
    requires |a| >= 2 && a[0] == 'q'
    requires AllDigits(a[1..]) && DigitsValue(a[1..]) == q.id
    requires a[1] == '0' ==> |a| == 2
    ensures a == "q" + NatToString(q.id)
  {
    NatToStringUnique(a[1..], q.id);
  }

  /** Different ids give different anchors. */
  lemma AnchorIdInjective(q1: Question, q2: Question)
    requires q1.id != q2.id
    ensures AnchorId(q1) != AnchorId(q2)
  {
  }

  /** The parser's metadata columns: `meta_cols or META_COLS`, so that an
      absent or empty set falls back to the default. */
  function EffectiveMetaColumns(metaCols: Option<set<string>>, defaultMeta: set<string>): (m: set<string>)
    ensures metaCols.None? ==> m == defaultMeta
    ensures metaCols.Some? && metaCols.value == {} ==> m == defaultMeta
    ensures metaCols.Some? && metaCols.value != {} ==> m == metaCols.value
  {
    match metaCols
    case Some(cols) => if cols == {} then defaultMeta else cols
    case None => defaultMeta
  }

  // ----------------------------------------------------------- Q-prefixes

  /** Where the text after a leading `\s*Q\d+\.` starts, if the title has
      such a head (the digits are ASCII). */
  function QPrefixEnd(title: string): (e: Option<nat>)
    ensures e.Some? ==> e.value <= |title|
  {
    QHeadAt(title, LeadingSpaces(title))
  }

  /** Where the text after "Q<digits>." starts when that head begins at
      position `a`. */
  function QHeadAt(title: string, a: nat): (e: Option<nat>)
    requires a <= |title|
    ensures e.Some? ==> e.value <= |title|
  {
    if a < |title| && title[a] == 'Q' then
      var d := DigitRun(title[a + 1..]);
      if d > 0 && a + 1 + d < |title| && title[a + 1 + d] == '.' then Some(a + d + 2) else None
    else None
  }

  /** `_strip_existing_q_prefix`: drops one leading "Q<digits>." with the
      whitespace around it, then strips. */
  function StripQPrefix(title: string): (r: string)
    ensures IsTrimmed(r)
    ensures |r| <= |title|
  {
    match QPrefixEnd(title)
    case Some(e) => Trim(title[e..])
    case None => Trim(title)
  }

  /** `title` is whitespace `pre`, then "Q", the digits `ds` and ".", then
      `rest`: the pattern `^\s*Q\d+\.` matches its head. */
  predicate NumberedHead(title: string, pre: string, ds: string, rest: string) {
    AllSpace(pre) && |ds| > 0 && AllDigits(ds) && title == pre + "Q" + ds + "." + rest
  }

  /** The head is found exactly when the title has one, and it ends right
      after its ".". */
  lemma QPrefixEndIff(title: string)
    ensures QPrefixEnd(title).Some? <==> exists pre, ds, rest :: NumberedHead(title, pre, ds, rest)
    ensures forall pre, ds, rest :: NumberedHead(title, pre, ds, rest) ==>
      QPrefixEnd(title) == Some(|pre| + |ds| + 2) && title[|pre| + |ds| + 2..] == rest
  {
    forall pre, ds, rest | NumberedHead(title, pre, ds, rest)
      ensures QPrefixEnd(title) == Some(|pre| + |ds| + 2) && title[|pre| + |ds| + 2..] == rest
    {
      NumberedHeadEnd(pre, ds, rest);
    }
    if QPrefixEnd(title).Some? {
      var pre, ds, rest := QPrefixEndSplit(title);
    }
  }

  /** A found head, cut into its parts. */
  lemma QPrefixEndSplit(title: string) returns (pre: string, ds: string, rest: string)
    requires QPrefixEnd(title).Some?
    ensures NumberedHead(title, pre, ds, rest)
  {
    var a := LeadingSpaces(title);
    assert QPrefixEnd(title) == QHeadAt(title, a);
    var d := DigitRun(title[a + 1..]);
    pre, ds, rest := title[..a], title[a + 1..a + 1 + d], title[a + d + 2..];
    assert forall i :: 0 <= i < d ==> ds[i] == title[a + 1..][i];
    SplitHead(title, a, d);
  }

  lemma SplitHead(title: string, a: nat, d: nat)
    requires a + d + 2 <= |title| && title[a] == 'Q' && title[a + 1 + d] == '.'
    ensures title == title[..a] + "Q" + title[a + 1..a + 1 + d] + "." + title[a + d + 2..]
  {
    SplitInThree(title, a, a + d + 2);
    var mid := title[a..a + d + 2];
    assert mid == "Q" + title[a + 1..a + 1 + d] + ".";
  }

  /** Where the head of whitespace, "Q", digits and "." ends. */
  lemma NumberedHeadEnd(pre: string, digits: string, rest: string)
    requires AllSpace(pre)
    requires |digits| > 0 && AllDigits(digits)
    ensures var title := pre + "Q" + digits + "." + rest;
      QPrefixEnd(title) == Some(|pre| + |digits| + 2) && title[|pre| + |digits| + 2..] == rest
  {
    var title := pre + "Q" + digits + "." + rest;
    HeadLayout(pre, digits, rest);
    LeadingSpacesOf(pre, ['Q'] + (digits + ("." + rest)));
    DigitRunOf(digits, "." + rest);
    QPrefixEndAt(title, |pre|, |digits|);
  }

  /** Where the parts of whitespace, "Q", digits, "." and rest sit. */
  lemma HeadLayout(pre: string, digits: string, rest: string)
    ensures var title := pre + "Q" + digits + "." + rest;
      && title == pre + (['Q'] + (digits + ("." + rest)))
      && |pre| < |title| && title[|pre|] == 'Q'
      && title[|pre| + 1..] == digits + ("." + rest)
      && title[|pre| + 1 + |digits|] == '.'
      && title[|pre| + |digits| + 2..] == rest
  {
  }

  /** On a title with a numbered head, the stripped form is the rest of the
      title, stripped. */
  lemma StripQPrefixOfNumbered(pre: string, digits: string, rest: string)
    requires AllSpace(pre)
    requires |digits| > 0 && AllDigits(digits)
    ensures StripQPrefix(pre + "Q" + digits + "." + rest) == Trim(rest)
  {
    NumberedHeadEnd(pre, digits, rest);
  }

  lemma QPrefixEndAt(title: string, a: nat, d: nat)
    requires a < |title| && LeadingSpaces(title) == a && title[a] == 'Q'
    requires DigitRun(title[a + 1..]) == d && d > 0 && a + 1 + d < |title| && title[a + 1 + d] == '.'
    ensures QPrefixEnd(title) == Some(a + d + 2)
  {
    assert QPrefixEnd(title) == QHeadAt(title, a);
  }

  /** A title without a numbered head is only stripped. */
  lemma StripQPrefixOfPlain(title: string)
    requires !exists pre, ds, rest :: NumberedHead(title, pre, ds, rest)
    ensures StripQPrefix(title) == Trim(title)
  {
    QPrefixEndIff(title);
  }

  /** The display title of the question numbered `id` over `column`. */
  function DisplayTitle(id: nat, column: string): string {
    "Q" + NatToString(id) + ". " + StripQPrefix(column)
  }

  /** Stripping the prefix of a display title gives back the stripped
      column title, so relabelling an already-labelled column is stable. */
  lemma DisplayTitleRoundTrip(id: nat, column: string)
    ensures StripQPrefix(DisplayTitle(id, column)) == StripQPrefix(column)
  {
    var t := StripQPrefix(column);
    DisplayTitleShape(id, column);
    StripQPrefixOfNumbered("", NatToString(id), " " + t);
    TrimOfSpaced(t);
  }

  /** The display title is "Q", the digits of the id, and the rest. */
  lemma DisplayTitleShape(id: nat, column: string)
    ensures DisplayTitle(id, column) == "Q" + (NatToString(id) + (". " + StripQPrefix(column)))
    ensures DisplayTitle(id, column) == "" + "Q" + NatToString(id) + "." + (" " + StripQPrefix(column))
  {
    var n, t := NatToString(id), StripQPrefix(column);
    Regroup("Q", n, t);
  }

  lemma Regroup(q: string, n: string, t: string)
    ensures q + n + ". " + t == q + (n + (". " + t))
    ensures q + n + ". " + t == "" + q + n + "." + (" " + t)
  {
  }

  lemma TrimOfSpaced(t: string)
    requires IsTrimmed(t)
    ensures Trim(" " + t) == t
  {
    var pre := " ";
    assert AllSpace(pre) by { assert IsSpace(pre[0]); }
    assert pre + t + [] == pre + t;
    TrimOfPadded(pre, t, []);
  }

  /** The id can be read back from the display title: the digits after its
      leading "Q". */
  lemma DisplayTitleNumber(id: nat, column: string)
    ensures var title := DisplayTitle(id, column);
      |title| > 1 && title[0] == 'Q' &&
      var d := DigitRun(title[1..]);
      DigitsValue(title[1..][..d]) == id
  {
    var digits, rest := NatToString(id), ". " + StripQPrefix(column);
    DisplayTitleShape(id, column);
    DropConcat("Q", digits + rest);
    DigitRunOf(digits, rest);
    TakeConcat(digits, rest);
  }

  /** Different ids give different display titles. */
  lemma DisplayTitleInjective(i: nat, a: string, j: nat, b: string)
    ensures i != j ==> DisplayTitle(i, a) != DisplayTitle(j, b)
  {
    DisplayTitleNumber(i, a);
    DisplayTitleNumber(j, b);
  }

  // --------------------------------------------------------------- parsing

  function QuestionMask(columns: seq<string>, metaCols: set<string>): (m: seq<bool>)
    ensures |m| == |columns|
    ensures forall i :: 0 <= i < |columns| ==> (m[i] <==> columns[i] !in metaCols)
  {
    seq(|columns|, i requires 0 <= i < |columns| => columns[i] !in metaCols)
  }

  /** The columns that are questions, in table order. */
  function QuestionColumns(columns: seq<string>, metaCols: set<string>): (qc: seq<string>)
    ensures forall c :: c in qc ==> c in columns && c !in metaCols
  {
    var qc := Select(columns, QuestionMask(columns, metaCols));
    SelectPicksPositions(columns, QuestionMask(columns, metaCols));
    qc
  }

  /** The question columns are exactly the non-metadata columns, in their
      original order. */
  lemma QuestionColumnsExact(columns: seq<string>, metaCols: set<string>)
    ensures var idx := Positions(QuestionMask(columns, metaCols));
      && PicksAt(QuestionColumns(columns, metaCols), columns, idx)
      && forall i :: 0 <= i < |columns| ==> (i in idx <==> columns[i] !in metaCols)
  {
    var m := QuestionMask(columns, metaCols);
    SelectPicksPositions(columns, m);
    forall i | 0 <= i < |columns| ensures i in Positions(m) <==> columns[i] !in metaCols {
      PositionsExact(m, i);
    }
  }

  /** Display titles are pairwise distinct. */
  predicate TitlesDistinct(qs: seq<Question>) {
    forall k, l :: 0 <= k < l < |qs| ==> qs[k].displayTitle != qs[l].displayTitle
  }

  /** `QuestionParser.parse`: the question columns numbered densely from 1
      in column order, each titled "Q<id>. " plus its stripped title. */
  function Parse(columns: seq<string>, metaCols: set<string>): (qs: seq<Question>)
    ensures |qs| == |QuestionColumns(columns, metaCols)|
    ensures forall k :: 0 <= k < |qs| ==> qs[k].id == k + 1
    ensures forall k :: 0 <= k < |qs| ==> qs[k].columnName == QuestionColumns(columns, metaCols)[k]
    ensures forall k :: 0 <= k < |qs| ==> qs[k].displayTitle == DisplayTitle(qs[k].id, qs[k].columnName)
    ensures TitlesDistinct(qs)
  {
    var qc := QuestionColumns(columns, metaCols);
    var qs := seq(|qc|, k requires 0 <= k < |qc| => Question(k + 1, qc[k], DisplayTitle(k + 1, qc[k])));
    NumberedTitlesDistinct(qs);
    qs
  }

  /** Questions numbered 1, 2, ... carry pairwise different titles. */
  lemma NumberedTitlesDistinct(qs: seq<Question>)
    requires forall k :: 0 <= k < |qs| ==> qs[k].id == k + 1
    requires forall k :: 0 <= k < |qs| ==> qs[k].displayTitle == DisplayTitle(qs[k].id, qs[k].columnName)
    ensures TitlesDistinct(qs)
  {
    forall k, l | 0 <= k < l < |qs| ensures qs[k].displayTitle != qs[l].displayTitle {
      DisplayTitleInjective(qs[k].id, qs[k].columnName, qs[l].id, qs[l].columnName);
    }
  }

  /** `get_column_map`: display title to column name; a later question wins
      a title clash, as in a dict comprehension. */
  function ColumnMap(qs: seq<Question>): (m: map<string, string>)
    ensures forall k :: 0 <= k < |qs| ==> qs[k].displayTitle in m
    ensures TitlesDistinct(qs) ==> |m| == |qs|
    ensures TitlesDistinct(qs) ==> forall k :: 0 <= k < |qs| ==> m[qs[k].displayTitle] == qs[k].columnName
    ensures forall t :: t in m ==> exists k :: 0 <= k < |qs| && qs[k].displayTitle == t
    decreases |qs|
  {
    if |qs| == 0 then map[]
    else
      var n := |qs| - 1;
      var front := ColumnMap(qs[..n]);
      ColumnMapStep(qs[..n], qs[n], front);
      PrefixSnoc(qs);
      front[qs[n].displayTitle := qs[n].columnName]
  }

  /** One step of the dictionary comprehension: adding the last question's
      title to the map of the earlier ones. */
  lemma ColumnMapStep(init: seq<Question>, last: Question, front: map<string, string>)
    requires forall k :: 0 <= k < |init| ==> init[k].displayTitle in front
    requires TitlesDistinct(init) ==> |front| == |init|
    requires TitlesDistinct(init) ==> forall k :: 0 <= k < |init| ==> front[init[k].displayTitle] == init[k].columnName
    requires forall t :: t in front ==> exists k :: 0 <= k < |init| && init[k].displayTitle == t
    ensures var qs, m := init + [last], front[last.displayTitle := last.columnName];
      && (forall k :: 0 <= k < |qs| ==> qs[k].displayTitle in m)
      && (TitlesDistinct(qs) ==> |m| == |qs|)
      && (TitlesDistinct(qs) ==> forall k :: 0 <= k < |qs| ==> m[qs[k].displayTitle] == qs[k].columnName)
      && (forall t :: t in m ==> exists k :: 0 <= k < |qs| && qs[k].displayTitle == t)
  {
    var qs := init + [last];
    assert forall k :: 0 <= k < |init| ==> qs[k] == init[k];
    assert qs[|init|] == last;
    if TitlesDistinct(qs) {
      assert TitlesDistinct(init);
      assert last.displayTitle !in front;
    }
  }

  /** Parsing relabelled columns, whose names are the display titles,
      reproduces the same titles (provided no title is a metadata name). */
  lemma ReparseIsStable(columns: seq<string>, metaCols: set<string>)
    ensures var qs := Parse(columns, metaCols);
      var relabelled := seq(|qs|, k requires 0 <= k < |qs| => qs[k].displayTitle);
      (forall k :: 0 <= k < |qs| ==> qs[k].displayTitle !in metaCols) ==>
        var again := Parse(relabelled, metaCols);
        |again| == |qs| && forall k :: 0 <= k < |qs| ==> again[k].displayTitle == qs[k].displayTitle
  {
    var qs := Parse(columns, metaCols);
    var relabelled := seq(|qs|, k requires 0 <= k < |qs| => qs[k].displayTitle);
    if forall k :: 0 <= k < |qs| ==> qs[k].displayTitle !in metaCols {
      AllQuestionColumns(relabelled, metaCols);
      var again := Parse(relabelled, metaCols);
      forall k | 0 <= k < |qs| ensures again[k].displayTitle == qs[k].displayTitle {
        RetitledQuestion(qs[k], again[k]);
      }
    }
  }

  lemma RetitledQuestion(q: Question, r: Question)
    requires q.displayTitle == DisplayTitle(q.id, q.columnName)
    requires r.id == q.id && r.columnName == q.displayTitle
    requires r.displayTitle == DisplayTitle(r.id, r.columnName)
    ensures r.displayTitle == q.displayTitle
  {
    DisplayTitleIdempotent(q.id, q.columnName);
  }

  /** With no metadata column present, every column is a question. */
  lemma AllQuestionColumns(columns: seq<string>, metaCols: set<string>)
    requires forall i :: 0 <= i < |columns| ==> columns[i] !in metaCols
    ensures QuestionColumns(columns, metaCols) == columns
  {
    SelectAllKept(columns, QuestionMask(columns, metaCols));
  }

  /** Re-titling a display title under the same number changes nothing. */
  lemma DisplayTitleIdempotent(id: nat, column: string)
    ensures DisplayTitle(id, DisplayTitle(id, column)) == DisplayTitle(id, column)
  {
    DisplayTitleRoundTrip(id, column);
  }
}
