/** `removeTo(removeTo, isIncludeSelf)`: a loop over registry indices that
    removes each fragment it visits and stops after the target only when
    `isIncludeSelf` holds. The source walks the ascending Kotlin range
    `(fragments.size - 1)..0`; the descending `(fragments.size - 1) downTo 0`
    is the traversal the operation evidently intends. Both are modelled. */
module RemoveToLoop {
  import opened Fragments

  /** What the loop ends with: the recorded steps, or the index whose lookup
      threw IndexOutOfBoundsException (the transaction is then never committed). */
  datatype Outcome = Done(ops: seq<Op>) | IndexOutOfBounds(index: int)

  /** The Kotlin range `lo..hi`: ascending, and empty when `lo > hi`. */
  function Ascending(lo: int, hi: int): (r: seq<int>)
    decreases hi - lo
    ensures |r| == if lo <= hi then hi - lo + 1 else 0
    ensures forall k :: 0 <= k < |r| ==> r[k] == lo + k
  {
    if lo > hi then [] else [lo] + Ascending(lo + 1, hi)
  }

  /** The Kotlin progression `hi downTo lo`: descending, and empty when `hi < lo`. */
  function Descending(hi: int, lo: int): (r: seq<int>)
    decreases hi - lo
    ensures |r| == if lo <= hi then hi - lo + 1 else 0
    ensures forall k :: 0 <= k < |r| ==> r[k] == hi - k
  {
    if hi < lo then [] else [hi] + Descending(hi - 1, lo)
  }

  /** The loop body of `removeTo` run over the indices `idx` in order. */
  function RemoveLoop(fs: seq<Frag>, target: Frag, includeSelf: bool, idx: seq<int>): Outcome
  {
    if idx == [] then Done([])
    else
      var i := idx[0];
      if !(0 <= i < |fs|) then IndexOutOfBounds(i)
      else if fs[i] == target && includeSelf then Done([Remove(fs[i])])
      else Then([Remove(fs[i])], RemoveLoop(fs, target, includeSelf, idx[1..]))
  }

  /** `o` with the steps `ops` recorded before it. */
  function Then(ops: seq<Op>, o: Outcome): (r: Outcome)
    ensures r.Done? == o.Done?
  {
    match o
    case Done(rest) => Done(ops + rest)
    case IndexOutOfBounds(i) => o
  }

  /** `removeTo` as the source writes it: the ascending range `(size - 1)..0`. */
  function RemoveToAsWritten(fs: seq<Frag>, target: Frag, includeSelf: bool): Outcome
  {
    RemoveLoop(fs, target, includeSelf, Ascending(|fs| - 1, 0))
  }

  /** `removeTo` over `(size - 1) downTo 0`, from the most recent fragment back. */
  function RemoveToDescending(fs: seq<Frag>, target: Frag, includeSelf: bool): Outcome
  {
    RemoveLoop(fs, target, includeSelf, Descending(|fs| - 1, 0))
  }

  /** As written, the loop body runs once for a one-fragment registry, never
      for a larger one, and indexes -1 on an empty one. */
  lemma RemoveToAsWrittenCases(fs: seq<Frag>, target: Frag, includeSelf: bool)
    ensures |fs| >= 2 ==> RemoveToAsWritten(fs, target, includeSelf) == Done([])
    ensures |fs| == 1 ==> RemoveToAsWritten(fs, target, includeSelf) == Done([Remove(fs[0])])
    ensures |fs| == 0 ==> RemoveToAsWritten(fs, target, includeSelf) == IndexOutOfBounds(-1)
  {
    if |fs| == 1 {
      var idx := Ascending(|fs| - 1, 0);
      assert idx == [0] && idx[1..] == [];
      assert RemoveLoop(fs, target, includeSelf, idx[1..]) == Done([]);
      assert [Remove(fs[0])] + [] == [Remove(fs[0])];
    }
  }

  /** Registry [f1, f2, f3] and removeTo(f2, true): as written nothing is
      removed, while the descending traversal removes f3 and then f2. On an
      empty registry the source throws, while the descending traversal commits
      an empty transaction. */
  lemma RemoveToAsWrittenCounterexample()
    ensures var f1, f2, f3 := Frag(1, "A", "A", true), Frag(2, "B", "B", true), Frag(3, "C", "C", true);
      && RemoveToAsWritten([f1, f2, f3], f2, true) == Done([])
      && RemoveToDescending([f1, f2, f3], f2, true) == Done([Remove(f3), Remove(f2)])
      && RemoveToAsWritten([], f2, true) == IndexOutOfBounds(-1)
      && RemoveToDescending([], f2, true) == Done([])
  {
    var f1, f2, f3 := Frag(1, "A", "A", true), Frag(2, "B", "B", true), Frag(3, "C", "C", true);
    var fs := [f1, f2, f3];
    assert Descending(2, 0) == [2] + Descending(1, 0);
    assert Descending(1, 0)[1..] == Descending(0, 0);
    assert RemoveLoop(fs, f2, true, Descending(1, 0)) == Done([Remove(f2)]);
  }

  /** The last index of `t` in `s`. */
  function LastIndex(s: seq<Frag>, t: Frag): (k: nat)
    requires t in s
    ensures k < |s| && s[k] == t
    ensures forall j :: k < j < |s| ==> s[j] != t
  {
    var i := |s| - 1;
    if s[i] == t then i
    else
      assert s == s[..i] + [s[i]];
      LastIndex(s[..i], t)
  }

  /** Where the descending removal stops: at the last occurrence of the
      target when `includeSelf` holds and the target is registered, else at 0. */
  function StopIndex(fs: seq<Frag>, target: Frag, includeSelf: bool): (k: nat)
    ensures k <= |fs|
  {
    if includeSelf && target in fs then LastIndex(fs, target) else 0
  }

  /** The descending traversal never throws; it removes the fragments from the
      most recently registered one back to the stop index, one remove per
      fragment, and nothing else. */
  lemma RemoveToDescendingSpec(fs: seq<Frag>, target: Frag, includeSelf: bool)
    ensures RemoveToDescending(fs, target, includeSelf).Done?
    ensures var ops := RemoveToDescending(fs, target, includeSelf).ops;
      var k := StopIndex(fs, target, includeSelf);
      && |ops| == |fs| - k
      && forall j :: 0 <= j < |ops| ==> ops[j] == Remove(fs[|fs| - 1 - j])
  {
    DescendingPrefix(fs, target, includeSelf, |fs|);
    assert fs[..|fs|] == fs;
  }

  /** The descending loop started at index `n - 1`. */
  lemma {:induction false} DescendingPrefix(fs: seq<Frag>, target: Frag, includeSelf: bool, n: nat)
    requires n <= |fs|
    ensures RemoveLoop(fs, target, includeSelf, Descending(n - 1, 0)).Done?
    ensures var ops := RemoveLoop(fs, target, includeSelf, Descending(n - 1, 0)).ops;
      && |ops| == n - StopIndex(fs[..n], target, includeSelf)
      && forall j :: 0 <= j < |ops| ==> ops[j] == Remove(fs[n - 1 - j])
  {
    if n > 0 {
      DescendingStep(fs, target, includeSelf, n);
      StopIndexStep(fs, target, includeSelf, n);
      if !(fs[n - 1] == target && includeSelf) {
        DescendingPrefix(fs, target, includeSelf, n - 1);
      }
    }
  }

  /** One iteration of the descending loop at index `n - 1`. */
  lemma DescendingStep(fs: seq<Frag>, target: Frag, includeSelf: bool, n: nat)
    requires 0 < n <= |fs|
    ensures RemoveLoop(fs, target, includeSelf, Descending(n - 1, 0))
         == if fs[n - 1] == target && includeSelf then Done([Remove(fs[n - 1])])
            else Then([Remove(fs[n - 1])], RemoveLoop(fs, target, includeSelf, Descending(n - 2, 0)))
  {
    var idx := Descending(n - 1, 0);
    assert idx[0] == n - 1 && idx[1..] == Descending(n - 2, 0);
  }

  /** Where the loop over the first `n` fragments stops, from where the loop
      over the first `n - 1` does. */
  lemma StopIndexStep(fs: seq<Frag>, target: Frag, includeSelf: bool, n: nat)
    requires 0 < n <= |fs|
    ensures StopIndex(fs[..n], target, includeSelf)
         == if fs[n - 1] == target && includeSelf then n - 1 else StopIndex(fs[..n - 1], target, includeSelf)
  {
    var last, p := fs[n - 1], fs[..n - 1];
    assert fs[..n] == p + [last];
    if last == target && includeSelf {
      assert LastIndex(fs[..n], target) == n - 1;
    } else if includeSelf && target in p {
      assert target in fs[..n];
      LastIndexSnoc(p, last, target);
    } else if includeSelf {
      assert target !in fs[..n];
    }
  }

  lemma LastIndexSnoc(p: seq<Frag>, x: Frag, t: Frag)
    requires t in p && x != t
    ensures LastIndex(p + [x], t) == LastIndex(p, t)
  {
    assert (p + [x])[..|p|] == p;
  }
}
