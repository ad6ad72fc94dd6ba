/** Frequency distributions and pandas' `value_counts()`: the labels of a
    sequence with their number of occurrences, most frequent first. */
module Counting {

  /** One bar of a distribution: an answer label and how often it occurred. */
  datatype Entry = Entry(name: string, count: nat)

  /** A distribution, in display order. */
  type Distribution = seq<Entry>

  /** Sum of all counts. */
  function Total(d: Distribution): nat
    decreases |d|
  {
    if |d| == 0 then 0 else d[0].count + Total(d[1..])
  }

  /** Sum of the counts of the entries labelled `l`. */
  function CountOf(d: Distribution, l: string): nat
    decreases |d|
  {
    if |d| == 0 then 0 else (if d[0].name == l then d[0].count else 0) + CountOf(d[1..], l)
  }

  /** The labels that have an entry. */
  function Labels(d: Distribution): set<string>
    decreases |d|
  {
    if |d| == 0 then {} else {d[0].name} + Labels(d[1..])
  }

  /** No label has two entries. */
  predicate DistinctLabels(d: Distribution)
    decreases |d|
  {
    |d| == 0 || (d[0].name !in Labels(d[1..]) && DistinctLabels(d[1..]))
  }

  /** Counts never increase along the distribution. */
  predicate NonIncreasing(d: Distribution)
    decreases |d|
  {
    |d| <= 1 || (d[0].count >= d[1].count && NonIncreasing(d[1..]))
  }

  /** Every entry has a positive count. */
  predicate Positive(d: Distribution) {
    forall i :: 0 <= i < |d| ==> d[i].count > 0
  }

  lemma {:induction false} TotalAppend(a: Distribution, b: Distribution)
    ensures Total(a + b) == Total(a) + Total(b)
    decreases |a|
  {
    if |a| == 0 {
      assert a + b == b;
    } else {
      assert (a + b)[1..] == a[1..] + b;
      TotalAppend(a[1..], b);
    }
  }

  lemma {:induction false} CountOfAppend(a: Distribution, b: Distribution, l: string)
    ensures CountOf(a + b, l) == CountOf(a, l) + CountOf(b, l)
    decreases |a|
  {
    if |a| == 0 {
      assert a + b == b;
    } else {
      assert (a + b)[1..] == a[1..] + b;
      CountOfAppend(a[1..], b, l);
    }
  }

  lemma {:induction false} LabelsAt(d: Distribution, l: string)
    ensures l in Labels(d) <==> exists i :: 0 <= i < |d| && d[i].name == l
    decreases |d|
  {
    if |d| > 0 {
      LabelsAt(d[1..], l);
      if exists i :: 0 <= i < |d| && d[i].name == l {
        var i :| 0 <= i < |d| && d[i].name == l;
        if i > 0 { assert d[1..][i - 1].name == l; }
      }
      if exists i :: 0 <= i < |d[1..]| && d[1..][i].name == l {
        var i :| 0 <= i < |d[1..]| && d[1..][i].name == l;
        assert d[i + 1].name == l;
      }
    }
  }

  /** Distinct labels, stated on positions. */
  lemma {:induction false} DistinctLabelsPairs(d: Distribution)
    requires DistinctLabels(d)
    ensures forall i, j :: 0 <= i < j < |d| ==> d[i].name != d[j].name
    decreases |d|
  {
    if |d| > 0 {
      DistinctLabelsPairs(d[1..]);
      LabelsAt(d[1..], d[0].name);
      forall i, j | 0 <= i < j < |d| ensures d[i].name != d[j].name {
        if i > 0 {
          assert d[i] == d[1..][i - 1] && d[j] == d[1..][j - 1];
        } else {
          assert d[j] == d[1..][j - 1];
        }
      }
    }
  }

  /** Non-increasing counts, stated on positions. */
  lemma {:induction false} NonIncreasingPairs(d: Distribution)
    requires NonIncreasing(d)
    ensures forall i, j :: 0 <= i < j < |d| ==> d[i].count >= d[j].count
    decreases |d|
  {
    if |d| > 1 {
      NonIncreasingPairs(d[1..]);
      forall i, j | 0 <= i < j < |d| ensures d[i].count >= d[j].count {
        assert d[j] == d[1..][j - 1];
        if i > 0 {
          assert d[i] == d[1..][i - 1];
        } else if j > 1 {
          assert d[1] == d[1..][0];
        }
      }
    }
  }

  /** With distinct labels, an entry's count is its label's whole count. */
  lemma {:induction false} CountOfDistinct(d: Distribution, i: nat)
    requires DistinctLabels(d) && i < |d|
    ensures CountOf(d, d[i].name) == d[i].count
    decreases |d|
  {
    if i > 0 {
      assert d[i] == d[1..][i - 1];
      CountOfDistinct(d[1..], i - 1);
      LabelsAt(d[1..], d[0].name);
    } else {
      CountOfAbsent(d[1..], d[0].name);
    }
  }

  lemma {:induction false} CountOfAbsent(d: Distribution, l: string)
    requires l !in Labels(d)
    ensures CountOf(d, l) == 0
    decreases |d|
  {
    if |d| > 0 {
      CountOfAbsent(d[1..], l);
    }
  }

  /** For positive counts, a label has an entry exactly when its count is
      positive. */
  lemma {:induction false} LabelsArePositiveCounts(d: Distribution, l: string)
    requires Positive(d)
    ensures l in Labels(d) <==> CountOf(d, l) > 0
    decreases |d|
  {
    if |d| > 0 {
      assert Positive(d[1..]) by {
        forall i | 0 <= i < |d[1..]| ensures d[1..][i].count > 0 {
          assert d[1..][i] == d[i + 1];
        }
      }
      LabelsArePositiveCounts(d[1..], l);
    }
  }

  /** Counts one more occurrence of `x`: its entry goes up by one, or a new
      entry `(x, 1)` is appended when `x` has none yet. */
  function Bump(d: Distribution, x: string): (r: Distribution)
    ensures Total(r) == Total(d) + 1
    ensures forall l :: CountOf(r, l) == CountOf(d, l) + (if l == x then 1 else 0)
    ensures Labels(r) == Labels(d) + {x}
    ensures DistinctLabels(d) ==> DistinctLabels(r)
    decreases |d|
  {
    if |d| == 0 then [Entry(x, 1)]
    else if d[0].name == x then
      var r := [Entry(x, d[0].count + 1)] + d[1..];
      assert r[1..] == d[1..];
      r
    else
      var tail := Bump(d[1..], x);
      var r := [d[0]] + tail;
      assert r[1..] == tail;
      r
  }

  lemma {:induction false} BumpPositive(d: Distribution, x: string)
    requires Positive(d)
    ensures Positive(Bump(d, x))
    decreases |d|
  {
    if |d| > 0 && d[0].name != x {
      var r := Bump(d, x);
      assert Positive(d[1..]) by {
        forall i | 0 <= i < |d[1..]| ensures d[1..][i].count > 0 {
          assert d[1..][i] == d[i + 1];
        }
      }
      BumpPositive(d[1..], x);
      forall i | 0 <= i < |r| ensures r[i].count > 0 {
        if i > 0 { assert r[i] == Bump(d[1..], x)[i - 1]; }
      }
    }
  }

  /** Occurrence counts of `xs`, labels in first-appearance order. */
  function Tally(xs: seq<string>): (d: Distribution)
    ensures DistinctLabels(d) && Positive(d)
    ensures Total(d) == |xs|
    ensures forall l :: CountOf(d, l) == multiset(xs)[l]
    ensures Labels(d) == set x | x in xs
    decreases |xs|
  {
    if |xs| == 0 then []
    else
      var n := |xs| - 1;
      assert xs == xs[..n] + [xs[n]];
      BumpPositive(Tally(xs[..n]), xs[n]);
      Bump(Tally(xs[..n]), xs[n])
  }

  /** Places `e` before the first entry whose count is at most `e`'s: an
      entry inserted this way stays ahead of equal counts that follow it. */
  function Insert(s: Distribution, e: Entry): (r: Distribution)
    ensures |r| == |s| + 1
    ensures multiset(r) == multiset(s) + multiset{e}
    ensures r[0] == e || (|s| > 0 && r[0] == s[0])
    ensures NonIncreasing(s) ==> NonIncreasing(r)
    decreases |s|
  {
    if |s| == 0 || e.count >= s[0].count then
      var r := [e] + s;
      assert r[1..] == s;
      r
    else
      var tail := Insert(s[1..], e);
      var r := [s[0]] + tail;
      assert r[1..] == tail;
      assert s == [s[0]] + s[1..];
      r
  }

  /** Inserting adds `e`'s count to its label and to the total. */
  lemma {:induction false} InsertCounts(s: Distribution, e: Entry, l: string)
    ensures CountOf(Insert(s, e), l) == CountOf(s, l) + (if l == e.name then e.count else 0)
    ensures Total(Insert(s, e)) == Total(s) + e.count
    decreases |s|
  {
    var r := Insert(s, e);
    if |s| == 0 || e.count >= s[0].count {
      assert r[1..] == s;
    } else {
      InsertCounts(s[1..], e, l);
      assert r[1..] == Insert(s[1..], e);
    }
  }

  /** Inserting adds `e`'s label, and keeps labels distinct when it is new. */
  lemma {:induction false} InsertLabels(s: Distribution, e: Entry)
    ensures Labels(Insert(s, e)) == Labels(s) + {e.name}
    ensures DistinctLabels(s) && e.name !in Labels(s) ==> DistinctLabels(Insert(s, e))
    decreases |s|
  {
    var r := Insert(s, e);
    if |s| == 0 || e.count >= s[0].count {
      assert r[1..] == s;
    } else {
      InsertLabels(s[1..], e);
      assert r[1..] == Insert(s[1..], e);
    }
  }

  /** Stable insertion sort by descending count. */
  function SortByCount(d: Distribution): (r: Distribution)
    ensures NonIncreasing(r)
    ensures |r| == |d|
    ensures multiset(r) == multiset(d)
    decreases |d|
  {
    if |d| == 0 then []
    else
      var rest := SortByCount(d[1..]);
      assert d == [d[0]] + d[1..];
      Insert(rest, d[0])
  }

  /** Sorting keeps every label's count and the total. */
  lemma {:induction false} SortByCountCounts(d: Distribution, l: string)
    ensures CountOf(SortByCount(d), l) == CountOf(d, l)
    ensures Total(SortByCount(d)) == Total(d)
    decreases |d|
  {
    if |d| > 0 {
      SortByCountCounts(d[1..], l);
      InsertCounts(SortByCount(d[1..]), d[0], l);
    }
  }

  /** Sorting keeps the labels, and keeps them distinct. */
  lemma {:induction false} SortByCountLabels(d: Distribution)
    ensures Labels(SortByCount(d)) == Labels(d)
    ensures DistinctLabels(d) ==> DistinctLabels(SortByCount(d))
    decreases |d|
  {
    if |d| > 0 {
      SortByCountLabels(d[1..]);
      InsertLabels(SortByCount(d[1..]), d[0]);
    }
  }

  /** pandas' `value_counts()`: one entry per distinct value, carrying its
      number of occurrences, most frequent first. Ties keep first-appearance
      order here; pandas does not promise a tie order. */
  function ValueCounts(xs: seq<string>): (d: Distribution)
    ensures NonIncreasing(d) && DistinctLabels(d) && Positive(d)
    ensures Total(d) == |xs|
    ensures forall l :: CountOf(d, l) == multiset(xs)[l]
    ensures Labels(d) == set x | x in xs
  {
    var t := Tally(xs);
    var d := SortByCount(t);
    SortByCountLabels(t);
    forall l ensures CountOf(d, l) == multiset(xs)[l] {
      SortByCountCounts(t, l);
    }
    SortByCountCounts(t, "");
    assert Positive(d) by {
      forall i | 0 <= i < |d| ensures d[i].count > 0 {
        assert d[i] in multiset(t);
      }
    }
    d
  }
}
