/** Fragments, the fragment manager's registry lookup, and the operations a
    fragment transaction records. A transaction is the sequence of operations
    it was given, in order; nothing here applies them. */
module Fragments {

  datatype Option<T> = None | Some(value: T)

  /** One fragment as the registry sees it: its identity, the class name its
      default tag is derived from, the tag it was added under, and whether the
      platform currently reports it as added. Two values are the same fragment
      exactly when they are equal, which stands for Kotlin's identity
      comparison of fragments. */
  datatype Frag = Frag(id: nat, className: string, tag: string, isAdded: bool)

  /** One step recorded on a fragment transaction. */
  datatype Op =
    | Add(containerId: int, frag: Frag, tag: string)
    | Remove(frag: Frag)
    | Hide(frag: Frag)
    | Show(frag: Frag)
    | Replace(containerId: int, frag: Frag, tag: string)
    | AddToBackStack(name: string)
    | SetTransition(transit: int)

  /** The four kinds of step that act on a single fragment. */
  datatype Action = Adds | Removes | Hides | Shows

  predicate Performs(op: Op, a: Action)
  {
    match a
    case Adds => op.Add?
    case Removes => op.Remove?
    case Hides => op.Hide?
    case Shows => op.Show?
  }

  /** The fragments that the steps of kind `a` in `ops` act on, in order. */
  function Affected(ops: seq<Op>, a: Action): seq<Frag>
  {
    if ops == [] then []
    else (if Performs(ops[0], a) then [ops[0].frag] else []) + Affected(ops[1..], a)
  }

  lemma AffectedOne(op: Op, a: Action)
    ensures Affected([op], a) == if Performs(op, a) then [op.frag] else []
  {
    assert [op][1..] == [];
  }

  lemma {:induction false} AffectedAppend(x: seq<Op>, y: seq<Op>, a: Action)
    ensures Affected(x + y, a) == Affected(x, a) + Affected(y, a)
  {
    if x == [] {
      assert x + y == y;
    } else {
      var head := if Performs(x[0], a) then [x[0].frag] else [];
      assert (x + y)[0] == x[0];
      assert (x + y)[1..] == x[1..] + y;
      AffectedAppend(x[1..], y, a);
      assert Affected(x + y, a) == head + Affected(x[1..] + y, a);
      assert Affected(x, a) == head + Affected(x[1..], a);
    }
  }

  /** The platform's findFragmentByTag over the registry `fs`: the most
      recently registered fragment under `tag`, or None when there is none. */
  function FindByTag(fs: seq<Frag>, tag: string): Option<Frag>
  {
    if fs == [] then None
    else if fs[|fs| - 1].tag == tag then Some(fs[|fs| - 1])
    else FindByTag(fs[..|fs| - 1], tag)
  }

  /** The lookup finds nothing exactly when no registered fragment carries
      `tag`; otherwise it finds a registered fragment carrying `tag` after
      which no other one does. */
  lemma {:induction false} FindByTagSpec(fs: seq<Frag>, tag: string)
    ensures FindByTag(fs, tag).None? <==> forall f :: f in fs ==> f.tag != tag
    ensures FindByTag(fs, tag).Some? ==>
      exists i :: 0 <= i < |fs| && fs[i] == FindByTag(fs, tag).value && fs[i].tag == tag &&
                  forall j :: i < j < |fs| ==> fs[j].tag != tag
  {
    if fs != [] && fs[|fs| - 1].tag != tag {
      var p := fs[..|fs| - 1];
      FindByTagSpec(p, tag);
      assert fs == p + [fs[|fs| - 1]];
      if FindByTag(p, tag).Some? {
        var i :| 0 <= i < |p| && p[i] == FindByTag(p, tag).value && p[i].tag == tag &&
                 forall j :: i < j < |p| ==> p[j].tag != tag;
        assert fs[i] == p[i];
      }
    }
  }

  /** The elements of `s`, in order, other than the one `skip` holds. */
  function Others(s: seq<Frag>, skip: Option<Frag>): seq<Frag>
  {
    if s == [] then []
    else
      var last := s[|s| - 1];
      Others(s[..|s| - 1], skip) + (if Some(last) == skip then [] else [last])
  }

  /** Others keeps exactly the elements of `s` other than `skip`, and all of
      `s` when there is nothing to skip. */
  lemma {:induction false} OthersSpec(s: seq<Frag>, skip: Option<Frag>)
    ensures forall f :: f in Others(s, skip) <==> f in s && Some(f) != skip
    ensures skip.None? ==> Others(s, skip) == s
  {
    if s != [] {
      var p, last := s[..|s| - 1], s[|s| - 1];
      OthersSpec(p, skip);
      assert s == p + [last];
    }
  }

  /** One hide step per element of `s`, as a loop over `s` records them. */
  function HideOps(s: seq<Frag>): seq<Op>
  {
    if s == [] then [] else HideOps(s[..|s| - 1]) + [Hide(s[|s| - 1])]
  }

  /** The hide steps for `s` are one per element, in the order of `s`. */
  lemma {:induction false} HideOpsSpec(s: seq<Frag>)
    ensures |HideOps(s)| == |s|
    ensures forall i :: 0 <= i < |s| ==> HideOps(s)[i] == Hide(s[i])
  {
    if s != [] {
      HideOpsSpec(s[..|s| - 1]);
    }
  }

  /** One remove step per element of `s`, as a loop over `s` records them. */
  function RemoveOps(s: seq<Frag>): seq<Op>
  {
    if s == [] then [] else RemoveOps(s[..|s| - 1]) + [Remove(s[|s| - 1])]
  }

  /** The remove steps for `s` are one per element, in the order of `s`. */
  lemma {:induction false} RemoveOpsSpec(s: seq<Frag>)
    ensures |RemoveOps(s)| == |s|
    ensures forall i :: 0 <= i < |s| ==> RemoveOps(s)[i] == Remove(s[i])
  {
    if s != [] {
      RemoveOpsSpec(s[..|s| - 1]);
    }
  }

  /** Hiding one more fragment extends the run of hide steps by one step. */
  lemma HideOpsSnoc(s: seq<Frag>, x: Frag)
    ensures HideOps(s + [x]) == HideOps(s) + [Hide(x)]
  {
    assert (s + [x])[..|s|] == s;
  }

  /** Others over one more element: that element is kept unless it is `skip`. */
  lemma OthersSnoc(s: seq<Frag>, i: nat, skip: Option<Frag>)
    requires i < |s|
    ensures Others(s[..i + 1], skip) == Others(s[..i], skip) + (if Some(s[i]) == skip then [] else [s[i]])
  {
    var t := s[..i + 1];
    assert t[..i] == s[..i] && t[i] == s[i];
  }

  /** A run of hide steps hides exactly its fragments and does nothing else. */
  lemma {:induction false} AffectedHideOps(s: seq<Frag>, a: Action)
    ensures Affected(HideOps(s), a) == if a == Hides then s else []
  {
    if s != [] {
      var p := s[..|s| - 1];
      AffectedHideOps(p, a);
      AffectedAppend(HideOps(p), [Hide(s[|s| - 1])], a);
      assert s == p + [s[|s| - 1]];
    }
  }

  /** A run of remove steps removes exactly its fragments and does nothing else. */
  lemma {:induction false} AffectedRemoveOps(s: seq<Frag>, a: Action)
    ensures Affected(RemoveOps(s), a) == if a == Removes then s else []
  {
    if s != [] {
      var p := s[..|s| - 1];
      AffectedRemoveOps(p, a);
      AffectedAppend(RemoveOps(p), [Remove(s[|s| - 1])], a);
      assert s == p + [s[|s| - 1]];
    }
  }
}
