/** Preprocessing of the response table before analysis: dropping test
    responses, and chaining preprocessors into a pipeline. */
module Preprocessor {
  import opened Results
  import opened Strings
  import opened Seqs
  import opened Tables

  /** The two preprocessors of the viewer. */
  datatype Preprocessor =
    | TestResponseFilter(contactColumn: string, keywords: seq<string>)
    | PreprocessorPipeline(stages: seq<Preprocessor>)

  /** `TestResponseFilter.__init__`: `exclude_keywords or DEFAULT`, so an
      absent or empty keyword list falls back to the default list. */
  function NewTestResponseFilter(contactColumn: string, keywords: Option<seq<string>>,
                                 defaultKeywords: seq<string>): (p: Preprocessor)
    ensures p.TestResponseFilter? && p.contactColumn == contactColumn
    ensures keywords.Some? && |keywords.value| > 0 ==> p.keywords == keywords.value
    ensures keywords.None? || |keywords.value| == 0 ==> p.keywords == defaultKeywords
  {
    match keywords
    case Some(kws) => TestResponseFilter(contactColumn, if |kws| == 0 then defaultKeywords else kws)
    case None => TestResponseFilter(contactColumn, defaultKeywords)
  }

  /** `str.contains("|".join(keywords))` with every keyword taken literally:
      one of the keywords occurs in the text. The alternation of no keywords
      is the empty pattern, which occurs in every text. */
  predicate MatchesKeywords(text: string, keywords: seq<string>) {
    |keywords| == 0 || ContainsAny(text, keywords)
  }

  /** A single keyword matches exactly the texts that contain it. */
  lemma MatchesKeywordsSingle(text: string, kw: string)
    ensures MatchesKeywords(text, [kw]) <==> Contains(text, kw)
  {
    if Contains(text, kw) {
      assert Contains(text, [kw][0]);
    }
  }

  /** Joining two non-empty keyword lists with "|" matches a text exactly
      when either list does: the alternation is a disjunction. */
  lemma MatchesKeywordsConcat(text: string, a: seq<string>, b: seq<string>)
    requires |a| > 0 && |b| > 0
    ensures MatchesKeywords(text, a + b) <==> MatchesKeywords(text, a) || MatchesKeywords(text, b)
  {
    var ab := a + b;
    if MatchesKeywords(text, ab) {
      var k :| 0 <= k < |ab| && Contains(text, ab[k]);
      if k < |a| {
        assert ab[k] == a[k];
      } else {
        assert ab[k] == b[k - |a|];
      }
    }
    if MatchesKeywords(text, a) {
      var k :| 0 <= k < |a| && Contains(text, a[k]);
      assert ab[k] == a[k];
    }
    if MatchesKeywords(text, b) {
      var k :| 0 <= k < |b| && Contains(text, b[k]);
      assert ab[|a| + k] == b[k];
    }
  }

  /** A keyword found in a text is still found when the text is extended on
      either side: matching is a substring search, not a whole-text test. */
  lemma MatchesKeywordsExtended(text: string, keywords: seq<string>, pre: string, post: string)
    requires MatchesKeywords(text, keywords)
    ensures MatchesKeywords(pre + text + post, keywords)
  {
    if |keywords| > 0 {
      var k :| 0 <= k < |keywords| && Contains(text, keywords[k]);
      var i :| 0 <= i <= |text| && keywords[k] <= text[i..];
      var s := pre + text + post;
      assert s[|pre| + i..] == text[i..] + post;
      assert Contains(s, keywords[k]);
    }
  }

  /** A row is a test response when its contact cell, as text ("nan" when
      missing), matches the keyword pattern. */
  predicate IsTestRow(row: Row, contactColumn: string, keywords: seq<string>)
    requires contactColumn in row
  {
    MatchesKeywords(CellText(row[contactColumn]), keywords)
  }

  /** `~mask`: the rows to keep. */
  function KeepMask(t: Table, contactColumn: string, keywords: seq<string>): (m: seq<bool>)
    requires WellFormed(t) && contactColumn in t.columns
    ensures |m| == |t.rows|
    ensures forall i :: 0 <= i < |t.rows| ==> (m[i] <==> !IsTestRow(t.rows[i], contactColumn, keywords))
  {
    seq(|t.rows|, i requires 0 <= i < |t.rows| => !IsTestRow(t.rows[i], contactColumn, keywords))
  }

  /** `TestResponseFilter.process`: the table unchanged when it has no
      contact column; otherwise the rows that are not test responses, in
      their original order and renumbered from 0. */
  function FilterTestResponses(t: Table, contactColumn: string, keywords: seq<string>): (r: Table)
    requires WellFormed(t)
    ensures WellFormed(r) && r.columns == t.columns
    ensures IsSubseq(r.rows, t.rows)
    ensures contactColumn !in t.columns ==> r == t
    ensures contactColumn in t.columns ==>
      forall i :: 0 <= i < |r.rows| ==> !IsTestRow(r.rows[i], contactColumn, keywords)
  {
    if contactColumn !in t.columns then
      SubseqReflexive(t.rows);
      t
    else
      var m := KeepMask(t, contactColumn, keywords);
      var rows := Select(t.rows, m);
      SelectIsSubseq(t.rows, m);
      SelectPicksPositions(t.rows, m);
      assert forall i :: 0 <= i < |rows| ==> rows[i] in t.rows;
      Table(t.columns, rows)
  }

  /** The filter removes exactly the test responses: the kept rows are the
      input rows at the positions whose contact text matches no keyword,
      in order. */
  lemma FilterTestResponsesExact(t: Table, contactColumn: string, keywords: seq<string>)
    requires WellFormed(t) && contactColumn in t.columns
    ensures var idx := Positions(KeepMask(t, contactColumn, keywords));
      && PicksAt(FilterTestResponses(t, contactColumn, keywords).rows, t.rows, idx)
      && forall i :: 0 <= i < |t.rows| ==>
           (i in idx <==> !IsTestRow(t.rows[i], contactColumn, keywords))
  {
    var m := KeepMask(t, contactColumn, keywords);
    SelectPicksPositions(t.rows, m);
    forall i | 0 <= i < |t.rows| ensures i in Positions(m) <==> m[i] {
      PositionsExact(m, i);
    }
  }

  /** `DataPreprocessor.process`. Every preprocessor keeps the columns and
      returns an order-preserving subsequence of the rows. */
  function Process(p: Preprocessor, t: Table): (r: Table)
    requires WellFormed(t)
    ensures WellFormed(r) && r.columns == t.columns
    ensures IsSubseq(r.rows, t.rows)
    ensures p.TestResponseFilter? ==> r == FilterTestResponses(t, p.contactColumn, p.keywords)
    ensures p.PreprocessorPipeline? ==> r == RunStages(p.stages, t)
    decreases p
  {
    match p
    case TestResponseFilter(c, kws) => FilterTestResponses(t, c, kws)
    case PreprocessorPipeline(stages) => RunStages(stages, t)
  }

  /** `PreprocessorPipeline.process`: each stage in turn on the previous
      stage's output; no stages leave the table as it is. */
  function RunStages(stages: seq<Preprocessor>, t: Table): (r: Table)
    requires WellFormed(t)
    ensures |stages| == 0 ==> r == t
    ensures WellFormed(r) && r.columns == t.columns
    ensures IsSubseq(r.rows, t.rows)
    decreases stages
  {
    if |stages| == 0 then
      SubseqReflexive(t.rows);
      t
    else
      var mid := Process(stages[0], t);
      var r := RunStages(stages[1..], mid);
      SubseqTransitive(r.rows, mid.rows, t.rows);
      r
  }

  /** Running `a + b` is running `a`, then `b` on its result. */
  lemma {:induction false} RunStagesAppend(a: seq<Preprocessor>, b: seq<Preprocessor>, t: Table)
    requires WellFormed(t)
    ensures RunStages(a + b, t) == RunStages(b, RunStages(a, t))
    decreases |a|
  {
    if |a| > 0 {
      assert (a + b)[0] == a[0];
      assert (a + b)[1..] == a[1..] + b;
      RunStagesAppend(a[1..], b, Process(a[0], t));
    } else {
      assert a + b == b;
    }
  }

  /** A one-stage pipeline behaves like its stage. */
  lemma SingleStagePipeline(p: Preprocessor, t: Table)
    requires WellFormed(t)
    ensures Process(PreprocessorPipeline([p]), t) == Process(p, t)
  {
    var mid := Process(p, t);
    assert [p][1..] == [];
    assert RunStages([p], t) == RunStages([], mid);
  }
}
