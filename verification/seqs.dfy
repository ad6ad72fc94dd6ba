/** Selecting elements of a sequence by a boolean mask: the shape of
    pandas' `frame[mask]` and of a filtering list comprehension. */
module Seqs {

  /** A non-empty sequence is its prefix followed by its last element. */
  lemma PrefixSnoc<T>(s: seq<T>)
    requires |s| > 0
    ensures s[..|s| - 1] + [s[|s| - 1]] == s
  {
  }

  lemma TakeConcat<T>(a: seq<T>, b: seq<T>)
    ensures (a + b)[..|a|] == a
  {
  }

  lemma DropConcat<T>(a: seq<T>, b: seq<T>)
    ensures (a + b)[|a|..] == b
  {
  }

  /** Number of `true` entries of a mask. */
  function CountTrue(keep: seq<bool>): nat
    decreases |keep|
  {
    if |keep| == 0 then 0
    else CountTrue(keep[..|keep| - 1]) + (if keep[|keep| - 1] then 1 else 0)
  }

  predicate StrictlyIncreasing(idx: seq<nat>) {
    forall k, l :: 0 <= k < l < |idx| ==> idx[k] < idx[l]
  }

  /** `r` is made of the elements of `s` at the positions `idx`, in that
      order, and `idx` is strictly increasing: `r` is an order-preserving
      subsequence of `s`. */
  predicate PicksAt<T(==)>(r: seq<T>, s: seq<T>, idx: seq<nat>) {
    && |r| == |idx|
    && StrictlyIncreasing(idx)
    && (forall k :: 0 <= k < |idx| ==> idx[k] < |s| && r[k] == s[idx[k]])
  }

  /** The elements of `s` whose mask entry is `true`, in their original order. */
  function Select<T>(s: seq<T>, keep: seq<bool>): (r: seq<T>)
    requires |keep| == |s|
    ensures |r| == CountTrue(keep)
    ensures forall x :: x in r ==> x in s
    decreases |s|
  {
    if |s| == 0 then []
    else
      var n := |s| - 1;
      Select(s[..n], keep[..n]) + (if keep[n] then [s[n]] else [])
  }

  /** A mask without `true` entries selects nothing. */
  lemma {:induction false} CountTrueNone(m: seq<bool>)
    requires forall i :: 0 <= i < |m| ==> !m[i]
    ensures CountTrue(m) == 0
    decreases |m|
  {
    if |m| > 0 {
      CountTrueNone(m[..|m| - 1]);
    }
  }

  /** A mask has at most as many `true` entries as it is long. */
  lemma {:induction false} CountTrueAtMost(m: seq<bool>)
    ensures CountTrue(m) <= |m|
    decreases |m|
  {
    if |m| > 0 {
      CountTrueAtMost(m[..|m| - 1]);
    }
  }

  /** The positions whose mask entry is `true`, in increasing order. */
  function Positions(keep: seq<bool>): (idx: seq<nat>)
    ensures |idx| == CountTrue(keep)
    ensures StrictlyIncreasing(idx)
    ensures forall k :: 0 <= k < |idx| ==> idx[k] < |keep| && keep[idx[k]]
    ensures forall i :: 0 <= i < |keep| && keep[i] ==> i in idx
    decreases |keep|
  {
    if |keep| == 0 then []
    else
      var n := |keep| - 1;
      Positions(keep[..n]) + (if keep[n] then [n] else [])
  }

  /** A mask that keeps everything selects the whole sequence. */
  lemma {:induction false} SelectAllKept<T>(s: seq<T>, keep: seq<bool>)
    requires |keep| == |s|
    requires forall i :: 0 <= i < |keep| ==> keep[i]
    ensures Select(s, keep) == s
    decreases |s|
  {
    if |s| > 0 {
      var n := |s| - 1;
      SelectAllKept(s[..n], keep[..n]);
      assert s == s[..n] + [s[n]];
    }
  }

  /** Selection by a mask keeps exactly the masked-in positions, in order. */
  lemma {:induction false} SelectPicksPositions<T>(s: seq<T>, keep: seq<bool>)
    requires |keep| == |s|
    ensures PicksAt(Select(s, keep), s, Positions(keep))
    decreases |s|
  {
    if |s| > 0 {
      var n := |s| - 1;
      SelectPicksPositions(s[..n], keep[..n]);
      var r0, idx0 := Select(s[..n], keep[..n]), Positions(keep[..n]);
      PicksAtPrefix(r0, s, idx0, n);
      if keep[n] {
        assert Select(s, keep) == r0 + [s[n]] && Positions(keep) == idx0 + [n];
        PicksAtSnoc(r0, s, idx0, n);
      } else {
        assert Select(s, keep) == r0 + [] == r0 && Positions(keep) == idx0 + [] == idx0;
      }
    }
  }

  /** Picks from a prefix are picks from the whole sequence, below the
      prefix's end. */
  lemma PicksAtPrefix<T>(r: seq<T>, s: seq<T>, idx: seq<nat>, n: nat)
    requires n <= |s| && PicksAt(r, s[..n], idx)
    ensures PicksAt(r, s, idx)
    ensures forall k :: 0 <= k < |idx| ==> idx[k] < n
  {
    forall k | 0 <= k < |idx| ensures r[k] == s[idx[k]] {
      assert s[..n][idx[k]] == s[idx[k]];
    }
  }

  /** Picking one more element, beyond all earlier picks. */
  lemma PicksAtSnoc<T>(r: seq<T>, s: seq<T>, idx: seq<nat>, n: nat)
    requires n < |s| && PicksAt(r, s, idx)
    requires forall k :: 0 <= k < |idx| ==> idx[k] < n
    ensures PicksAt(r + [s[n]], s, idx + [n])
  {
    var idx' := idx + [n];
    assert forall k :: 0 <= k < |idx| ==> idx'[k] == idx[k];
  }

  /** A position outside `Positions(keep)` is one the mask drops. */
  lemma PositionsExact(keep: seq<bool>, i: nat)
    requires i < |keep|
    ensures i in Positions(keep) <==> keep[i]
  {
    var idx := Positions(keep);
    if i in idx {
      var k :| 0 <= k < |idx| && idx[k] == i;
    }
  }

  /** `r` can be obtained from `s` by deleting elements: an order-preserving
      subsequence. */
  predicate IsSubseq<T(==)>(r: seq<T>, s: seq<T>)
    decreases |s|
  {
    if |r| == 0 then true
    else if |s| == 0 then false
    else
      || IsSubseq(r, s[..|s| - 1])
      || (r[|r| - 1] == s[|s| - 1] && IsSubseq(r[..|r| - 1], s[..|s| - 1]))
  }

  lemma {:induction false} SubseqReflexive<T>(s: seq<T>)
    ensures IsSubseq(s, s)
    decreases |s|
  {
    if |s| > 0 {
      SubseqReflexive(s[..|s| - 1]);
    }
  }

  lemma {:induction false} SubseqTransitive<T>(a: seq<T>, b: seq<T>, c: seq<T>)
    requires IsSubseq(a, b) && IsSubseq(b, c)
    ensures IsSubseq(a, c)
    decreases |c|
  {
    if |a| > 0 {
      var b', c' := b[..|b| - 1], c[..|c| - 1];
      if IsSubseq(b, c') {
        SubseqTransitive(a, b, c');
      } else if IsSubseq(a, b') {
        SubseqTransitive(a, b', c');
      } else {
        SubseqTransitive(a[..|a| - 1], b', c');
      }
    }
  }

  /** Selection by a mask gives a subsequence. */
  lemma {:induction false} SelectIsSubseq<T>(s: seq<T>, keep: seq<bool>)
    requires |keep| == |s|
    ensures IsSubseq(Select(s, keep), s)
    decreases |s|
  {
    if |s| > 0 {
      var n := |s| - 1;
      SelectIsSubseq(s[..n], keep[..n]);
      var front := Select(s[..n], keep[..n]);
      assert s[..|s| - 1] == s[..n];
      if keep[n] {
        assert (front + [s[n]])[..|front|] == front;
      } else {
        assert Select(s, keep) == front;
      }
    }
  }

  /** The position of the first occurrence of `x` in `s`. */
  function FirstIndex<T(==)>(s: seq<T>, x: T): (i: nat)
    requires x in s
    ensures i < |s| && s[i] == x
    ensures forall j :: 0 <= j < i ==> s[j] != x
    decreases |s|
  {
    if s[0] == x then 0 else 1 + FirstIndex(s[1..], x)
  }

  /** An element that already occurs in a prefix has its first occurrence
      there. */
  lemma FirstIndexInPrefix<T>(s: seq<T>, n: nat, x: T)
    requires n <= |s| && x in s[..n]
    ensures x in s && FirstIndex(s, x) == FirstIndex(s[..n], x)
  {
    var i := FirstIndex(s[..n], x);
    assert s[i] == s[..n][i];
    assert forall j :: 0 <= j < i ==> s[j] == s[..n][j];
  }
}
