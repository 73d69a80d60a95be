/** Order-preserving filtering of sequences: the shape shared by the
    "collect the failing clauses" and "collect the unmet requirements" loops. */
module Sequences {

  /** The elements of s that satisfy keep, in their original order. */
  function Kept<T>(s: seq<T>, keep: T -> bool): (r: seq<T>)
    ensures |r| <= |s|
    ensures forall x :: x in r ==> x in s && keep(x)
    decreases |s|
  {
    if s == [] then []
    else Kept(s[..|s| - 1], keep) + (if keep(s[|s| - 1]) then [s[|s| - 1]] else [])
  }

  /** The positions in s of the elements Kept retains, in increasing order. */
  function KeptIndices<T>(s: seq<T>, keep: T -> bool): seq<nat>
    decreases |s|
  {
    if s == [] then []
    else KeptIndices(s[..|s| - 1], keep) + (if keep(s[|s| - 1]) then [|s| - 1] else [])
  }

  predicate StrictlyIncreasing(idx: seq<nat>) {
    forall j, k :: 0 <= j < k < |idx| ==> idx[j] < idx[k]
  }

  /** r lists, in the order of s, exactly the elements of s that satisfy keep,
      and idx gives the position in s of each of them. */
  ghost predicate Selects<T>(s: seq<T>, keep: T -> bool, r: seq<T>, idx: seq<nat>) {
    |idx| == |r| &&
    StrictlyIncreasing(idx) &&
    (forall j :: 0 <= j < |idx| ==> idx[j] < |s| && r[j] == s[idx[j]]) &&
    (forall i :: 0 <= i < |s| ==> (i in idx <==> keep(s[i])))
  }

  /** Kept(s, keep) is exactly the subsequence of s at the positions whose
      element satisfies keep: one entry per such position, none for the
      others, in the order of s. */
  lemma {:induction false} KeptIsSubsequence<T>(s: seq<T>, keep: T -> bool)
    ensures Selects(s, keep, Kept(s, keep), KeptIndices(s, keep))
    decreases |s|
  {
    if s != [] {
      var n := |s| - 1;
      var p := s[..n];
      KeptIsSubsequence(p, keep);
      if keep(s[n]) {
        KeptStepKept(s, keep);
      } else {
        KeptStepDropped(s, keep);
      }
    }
  }

  /** The inductive step of KeptIsSubsequence when the last element is kept. */
  lemma KeptStepKept<T>(s: seq<T>, keep: T -> bool)
    requires s != [] && keep(s[|s| - 1])
    requires var p := s[..|s| - 1]; Selects(p, keep, Kept(p, keep), KeptIndices(p, keep))
    ensures Selects(s, keep, Kept(s, keep), KeptIndices(s, keep))
  {
    var n := |s| - 1;
    var p := s[..n];
    assert s == p + [s[n]];
    SelectsSnocKept(p, keep, Kept(p, keep), KeptIndices(p, keep), s[n]);
  }

  /** Extending s by an element keep accepts extends the selection by it. */
  lemma SelectsSnocKept<T>(p: seq<T>, keep: T -> bool, r: seq<T>, idx: seq<nat>, x: T)
    requires keep(x) && Selects(p, keep, r, idx)
    ensures Selects(p + [x], keep, r + [x], idx + [|p|])
  {
    var s, r', idx' := p + [x], r + [x], idx + [|p|];
    forall j | 0 <= j < |idx'|
      ensures idx'[j] < |s| && r'[j] == s[idx'[j]]
    {
      if j < |idx| {
        assert idx'[j] == idx[j] && r'[j] == r[j] && s[idx[j]] == p[idx[j]];
      }
    }
    forall i | 0 <= i < |s|
      ensures i in idx' <==> keep(s[i])
    {
      if i < |p| {
        assert s[i] == p[i];
        assert i in idx' <==> i in idx;
      }
    }
  }

  /** The inductive step of KeptIsSubsequence when the last element is dropped. */
  lemma KeptStepDropped<T>(s: seq<T>, keep: T -> bool)
    requires s != [] && !keep(s[|s| - 1])
    requires var p := s[..|s| - 1]; Selects(p, keep, Kept(p, keep), KeptIndices(p, keep))
    ensures Selects(s, keep, Kept(s, keep), KeptIndices(s, keep))
  {
    var n := |s| - 1;
    var p := s[..n];
    assert s == p + [s[n]];
    SelectsSnocDropped(p, keep, Kept(p, keep), KeptIndices(p, keep), s[n]);
  }

  /** Extending s by an element keep rejects leaves the selection as it is. */
  lemma SelectsSnocDropped<T>(p: seq<T>, keep: T -> bool, r: seq<T>, idx: seq<nat>, x: T)
    requires !keep(x) && Selects(p, keep, r, idx)
    ensures Selects(p + [x], keep, r, idx)
  {
    var s := p + [x];
    forall j | 0 <= j < |idx|
      ensures idx[j] < |s| && r[j] == s[idx[j]]
    {
      assert s[idx[j]] == p[idx[j]];
    }
    forall i | 0 <= i < |s|
      ensures i in idx <==> keep(s[i])
    {
      if i < |p| {
        assert s[i] == p[i];
      } else {
        assert forall j :: 0 <= j < |idx| ==> idx[j] < |p|;
      }
    }
  }

  /** Kept retains every element of s that satisfies keep. */
  lemma KeptComplete<T>(s: seq<T>, keep: T -> bool, x: T)
    requires x in s && keep(x)
    ensures x in Kept(s, keep)
  {
    KeptIsSubsequence(s, keep);
    var i :| 0 <= i < |s| && s[i] == x;
    var idx := KeptIndices(s, keep);
    var j :| 0 <= j < |idx| && idx[j] == i;
    assert Kept(s, keep)[j] == x;
  }

  /** Kept retains nothing exactly when no element satisfies keep. */
  lemma KeptEmptyIff<T>(s: seq<T>, keep: T -> bool)
    ensures Kept(s, keep) == [] <==> forall x :: x in s ==> !keep(x)
  {
    if exists x :: x in s && keep(x) {
      var x :| x in s && keep(x);
      KeptComplete(s, keep, x);
    }
  }

  /** Kept on a sequence extended by one element: the step a loop takes. */
  lemma KeptSnoc<T>(s: seq<T>, keep: T -> bool, x: T)
    ensures Kept(s + [x], keep) == Kept(s, keep) + (if keep(x) then [x] else [])
  {
    assert (s + [x])[..|s|] == s;
  }

  /** Kept on a prefix extended by the next element. */
  lemma KeptPrefixStep<T>(s: seq<T>, keep: T -> bool, n: nat)
    requires n < |s|
    ensures Kept(s[..n + 1], keep) == Kept(s[..n], keep) + (if keep(s[n]) then [s[n]] else [])
  {
    assert s[..n + 1] == s[..n] + [s[n]];
    KeptSnoc(s[..n], keep, s[n]);
  }
}
