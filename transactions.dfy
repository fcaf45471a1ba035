/** The transaction each FragmentManager helper records, as a function of the
    registry it reads before committing and of its arguments, and what each
    such transaction does. */
module Transactions {
  import opened Fragments

  /** The fragment `add` must take out first: the one registered under `tag`,
      if there is one and it is added. */
  function Collision(reg: seq<Frag>, tag: string): (r: Option<Frag>)
    ensures r.Some? <==> FindByTag(reg, tag).Some? && FindByTag(reg, tag).value.isAdded
    ensures r.Some? ==> r == FindByTag(reg, tag) && r.value in reg && r.value.tag == tag && r.value.isAdded
  {
    FindByTagSpec(reg, tag);
    var found := FindByTag(reg, tag);
    if found.Some? && found.value.isAdded then found else None
  }

  /** `add(addFragment, containerId, isHide, isAddStack, tag)`. */
  function AddOps(reg: seq<Frag>, f: Frag, containerId: int, isHide: bool, isAddStack: bool, tag: string): seq<Op>
  {
    CollisionOps(reg, tag) + [Add(containerId, f, tag)] + HideIf(isHide, f) + BackStackIf(isAddStack, tag)
  }

  /** The remove an add records first, when the tag is taken by an added fragment. */
  function CollisionOps(reg: seq<Frag>, tag: string): seq<Op>
  {
    match Collision(reg, tag)
    case Some(prior) => [Remove(prior)]
    case None => []
  }

  /** The hide an add records when asked to hide the new fragment. */
  function HideIf(isHide: bool, f: Frag): seq<Op>
  {
    if isHide then [Hide(f)] else []
  }

  /** The back-stack entry an add records when asked to push one. */
  function BackStackIf(isAddStack: bool, tag: string): seq<Op>
  {
    if isAddStack then [AddToBackStack(tag)] else []
  }

  /** A single add records the remove of an added fragment already under its
      tag first, then the add, then the hide and the back-stack entry when asked
      for them, the back-stack entry last. */
  lemma AddTransaction(reg: seq<Frag>, f: Frag, containerId: int, isHide: bool, isAddStack: bool, tag: string)
    ensures var ops := AddOps(reg, f, containerId, isHide, isAddStack, tag);
      && |ops| == (if Collision(reg, tag).Some? then 2 else 1) + (if isHide then 1 else 0) + (if isAddStack then 1 else 0)
      && (Collision(reg, tag).Some? ==> ops[0] == Remove(Collision(reg, tag).value) && ops[1] == Add(containerId, f, tag))
      && (Collision(reg, tag).None? ==> ops[0] == Add(containerId, f, tag))
      && (AddToBackStack(tag) in ops <==> isAddStack)
      && (isAddStack ==> ops[|ops| - 1] == AddToBackStack(tag))
  {
  }

  /** The fragment an add removes first, as a list of at most one. */
  function CollisionList(reg: seq<Frag>, tag: string): seq<Frag>
  {
    match Collision(reg, tag)
    case Some(prior) => [prior]
    case None => []
  }

  /** What a single add does to fragments: it adds exactly `f`, removes
      exactly the added fragment already under `tag` if there is one, hides
      `f` exactly when asked to, and shows nothing. */
  lemma AddOpsAffected(reg: seq<Frag>, f: Frag, containerId: int, isHide: bool, isAddStack: bool, tag: string, a: Action)
    ensures Affected(AddOps(reg, f, containerId, isHide, isAddStack, tag), a)
         == (if a == Removes then CollisionList(reg, tag) else [])
          + (if a == Adds then [f] else [])
          + (if a == Hides && isHide then [f] else [])
  {
    var r, add := CollisionOps(reg, tag), [Add(containerId, f, tag)];
    var h, s := HideIf(isHide, f), BackStackIf(isAddStack, tag);
    AffectedAppend(r, add, a);
    AffectedAppend(r + add, h, a);
    AffectedAppend(r + add + h, s, a);
    CollisionAffected(reg, tag, a);
    AffectedOne(Add(containerId, f, tag), a);
    HideIfAffected(isHide, f, a);
    BackStackIfAffected(isAddStack, tag, a);
  }

  lemma CollisionAffected(reg: seq<Frag>, tag: string, a: Action)
    ensures Affected(CollisionOps(reg, tag), a) == if a == Removes then CollisionList(reg, tag) else []
  {
    if Collision(reg, tag).Some? {
      AffectedOne(Remove(Collision(reg, tag).value), a);
    }
  }

  lemma HideIfAffected(isHide: bool, f: Frag, a: Action)
    ensures Affected(HideIf(isHide, f), a) == if a == Hides && isHide then [f] else []
  {
    if isHide {
      AffectedOne(Hide(f), a);
    }
  }

  lemma BackStackIfAffected(isAddStack: bool, tag: string, a: Action)
    ensures Affected(BackStackIf(isAddStack, tag), a) == []
  {
    if isAddStack {
      AffectedOne(AddToBackStack(tag), a);
    }
  }

  /** Every fragment of `s` is registered in `reg` and added. */
  predicate AllAddedIn(s: seq<Frag>, reg: seq<Frag>)
  {
    forall g :: g in s ==> g in reg && g.isAdded
  }

  /** `s` with the element at `k` left out; all of `s` when `k` is no index of it. */
  function AllBut(s: seq<Frag>, k: int): (r: seq<Frag>)
    ensures |r| == if 0 <= k < |s| then |s| - 1 else |s|
  {
    if 0 <= k < |s| then s[..k] + s[k + 1..] else s
  }

  lemma AllButLast(s: seq<Frag>, k: int)
    requires s != []
    ensures var i := |s| - 1;
      AllBut(s, k) == AllBut(s[..i], k) + (if k != i then [s[i]] else [])
  {
    var i := |s| - 1;
    if 0 <= k < i {
      assert s[..i][..k] == s[..k];
      assert s[..i][k + 1..] + [s[i]] == s[k + 1..];
    } else if k != i {
      assert s == s[..i] + [s[i]];
    }
  }

  /** The steps of `blocks`, one block after another. */
  function Flatten<T>(blocks: seq<seq<T>>): seq<T>
  {
    if blocks == [] then [] else Flatten(blocks[..|blocks| - 1]) + blocks[|blocks| - 1]
  }

  /** One more block extends the flattened steps by that block. */
  lemma FlattenSnoc<T>(blocks: seq<seq<T>>, i: nat)
    requires i < |blocks|
    ensures Flatten(blocks[..i + 1]) == Flatten(blocks[..i]) + blocks[i]
  {
    assert blocks[..i + 1][..i] == blocks[..i];
  }

  /** Blocks that each add one fragment of `xs`, in order, add `xs`. */
  lemma {:induction false} FlattenAdds(blocks: seq<seq<Op>>, xs: seq<Frag>)
    requires |blocks| == |xs|
    requires forall i :: 0 <= i < |blocks| ==> Affected(blocks[i], Adds) == [xs[i]]
    ensures Affected(Flatten(blocks), Adds) == xs
  {
    if blocks != [] {
      var n := |blocks| - 1;
      FlattenAdds(blocks[..n], xs[..n]);
      AffectedAppend(Flatten(blocks[..n]), blocks[n], Adds);
      assert xs == xs[..n] + [xs[n]];
    }
  }

  /** Blocks that each hide their fragment of `xs` except block `k`, which
      hides nothing, hide all of `xs` but the element at `k`. */
  lemma {:induction false} FlattenHides(blocks: seq<seq<Op>>, xs: seq<Frag>, k: int)
    requires |blocks| == |xs|
    requires forall i :: 0 <= i < |blocks| ==> Affected(blocks[i], Hides) == if i != k then [xs[i]] else []
    ensures Affected(Flatten(blocks), Hides) == AllBut(xs, k)
  {
    if blocks != [] {
      var n := |blocks| - 1;
      FlattenHides(blocks[..n], xs[..n], k);
      AffectedAppend(Flatten(blocks[..n]), blocks[n], Hides);
      AllButLast(xs, k);
    }
  }

  /** Blocks none of which performs `a` perform no `a` together. */
  lemma {:induction false} FlattenNone(blocks: seq<seq<Op>>, a: Action)
    requires forall i :: 0 <= i < |blocks| ==> Affected(blocks[i], a) == []
    ensures Affected(Flatten(blocks), a) == []
  {
    if blocks != [] {
      var n := |blocks| - 1;
      FlattenNone(blocks[..n], a);
      AffectedAppend(Flatten(blocks[..n]), blocks[n], a);
    }
  }

  /** Blocks that each perform `a` on the fragments `xs[i]` perform `a` on
      those fragments one block after another. */
  lemma {:induction false} FlattenAffected(blocks: seq<seq<Op>>, xs: seq<seq<Frag>>, a: Action)
    requires |blocks| == |xs|
    requires forall i :: 0 <= i < |blocks| ==> Affected(blocks[i], a) == xs[i]
    ensures Affected(Flatten(blocks), a) == Flatten(xs)
  {
    if blocks != [] {
      var n := |blocks| - 1;
      FlattenAffected(blocks[..n], xs[..n], a);
      AffectedAppend(Flatten(blocks[..n]), blocks[n], a);
    }
  }

  /** Lists of registered, added fragments stay so when put one after another. */
  lemma {:induction false} FlattenAllAdded(xs: seq<seq<Frag>>, reg: seq<Frag>)
    requires forall i :: 0 <= i < |xs| ==> AllAddedIn(xs[i], reg)
    ensures AllAddedIn(Flatten(xs), reg)
  {
    if xs != [] {
      FlattenAllAdded(xs[..|xs| - 1], reg);
    }
  }

  /** For each element of `list`, the fragment its add removes first: the added
      fragment the lookup finds under the element's class name, if any. */
  function AddListCollisions(reg: seq<Frag>, list: seq<Frag>): (r: seq<seq<Frag>>)
    ensures |r| == |list|
  {
    seq(|list|, i requires 0 <= i < |list| => CollisionList(reg, list[i].className))
  }

  /** The single add the list add performs for each element of `list`: under
      the element's class name, hidden unless its index is `showIndex`, without
      a back-stack entry. */
  function AddListBlocks(reg: seq<Frag>, list: seq<Frag>, containerId: int, showIndex: int): (r: seq<seq<Op>>)
    ensures |r| == |list|
  {
    seq(|list|, i requires 0 <= i < |list| => AddOps(reg, list[i], containerId, showIndex != i, false, list[i].className))
  }

  /** `add(addList, containerId, showIndex)`: the single adds of the elements,
      in index order, in one transaction. */
  function AddListOps(reg: seq<Frag>, list: seq<Frag>, containerId: int, showIndex: int): seq<Op>
  {
    Flatten(AddListBlocks(reg, list, containerId, showIndex))
  }

  /** The list add's block for element `i`: the remove of the added fragment
      already under the element's class name, if any, then the element's add,
      then its hide unless `i` is `showIndex`; never a back-stack entry. */
  lemma AddListBlock(reg: seq<Frag>, list: seq<Frag>, containerId: int, showIndex: int, i: int)
    requires 0 <= i < |list|
    ensures var x := list[i];
      AddListBlocks(reg, list, containerId, showIndex)[i]
      == CollisionOps(reg, x.className) + [Add(containerId, x, x.className)] + (if showIndex != i then [Hide(x)] else [])
  {
    var x := list[i];
    assert BackStackIf(false, x.className) == [];
  }

  /** A list add adds every element in order, hides every element except the
      one at `showIndex` (all of them when `showIndex` is out of range), shows
      nothing, and removes only fragments that are registered and added. */
  lemma AddListTransaction(reg: seq<Frag>, list: seq<Frag>, containerId: int, showIndex: int)
    ensures var ops := AddListOps(reg, list, containerId, showIndex);
      && Affected(ops, Adds) == list
      && Affected(ops, Hides) == AllBut(list, showIndex)
      && Affected(ops, Shows) == []
      && Affected(ops, Removes) == Flatten(AddListCollisions(reg, list))
      && AllAddedIn(Affected(ops, Removes), reg)
  {
    var blocks := AddListBlocks(reg, list, containerId, showIndex);
    forall i | 0 <= i < |blocks|
      ensures Affected(blocks[i], Adds) == [list[i]]
      ensures Affected(blocks[i], Hides) == if i != showIndex then [list[i]] else []
      ensures Affected(blocks[i], Shows) == []
      ensures Affected(blocks[i], Removes) == AddListCollisions(reg, list)[i]
      ensures AllAddedIn(AddListCollisions(reg, list)[i], reg)
    {
      var x := list[i];
      AddOpsAffected(reg, x, containerId, showIndex != i, false, x.className, Adds);
      AddOpsAffected(reg, x, containerId, showIndex != i, false, x.className, Hides);
      AddOpsAffected(reg, x, containerId, showIndex != i, false, x.className, Shows);
      AddOpsAffected(reg, x, containerId, showIndex != i, false, x.className, Removes);
    }
    FlattenAdds(blocks, list);
    FlattenHides(blocks, list, showIndex);
    FlattenNone(blocks, Shows);
    FlattenAffected(blocks, AddListCollisions(reg, list), Removes);
    FlattenAllAdded(AddListCollisions(reg, list), reg);
  }

  /** `showHide(showFragment, *hideFragment, transaction)`. */
  function ShowHideOps(show: Frag, hides: seq<Frag>, transaction: int): seq<Op>
  {
    [SetTransition(transaction), Show(show)] + HideOps(Others(hides, Some(show)))
  }

  /** showHide sets the transition, shows `show`, then hides every other hide
      argument in order and never `show` itself; it adds and removes nothing. */
  lemma {:induction false} ShowHideTransaction(show: Frag, hides: seq<Frag>, transaction: int)
    ensures var ops := ShowHideOps(show, hides, transaction);
      && ops[0] == SetTransition(transaction)
      && ops[1] == Show(show)
      && Affected(ops, Shows) == [show]
      && Affected(ops, Hides) == Others(hides, Some(show))
      && show !in Affected(ops, Hides)
      && (forall h :: h in hides && h != show ==> h in Affected(ops, Hides))
      && Affected(ops, Adds) == []
      && Affected(ops, Removes) == []
  {
    var head := [SetTransition(transaction), Show(show)];
    var rest := Others(hides, Some(show));
    OthersSpec(hides, Some(show));
    forall a: Action
      ensures Affected(ShowHideOps(show, hides, transaction), a)
           == (if a == Shows then [show] else []) + (if a == Hides then rest else [])
    {
      AffectedAppend(head, HideOps(rest), a);
      AffectedHideOps(rest, a);
      assert head[1..] == [Show(show)];
      assert Affected(head, a) == (if a == Shows then [show] else []);
    }
  }

  /** The first two steps of `switch`: the transition, then showing the added
      fragment found under the class tag, or adding `show` when there is none. */
  function SwitchHead(reg: seq<Frag>, show: Frag, containerId: int, transaction: int): seq<Op>
  {
    var found := FindByTag(reg, show.className);
    [SetTransition(transaction)]
    + if found.Some? && found.value.isAdded then [Show(found.value)]
      else [Add(containerId, show, show.className)]
  }

  /** `switch(showFragment, containerId, transaction)`. The hide loop skips the
      fragment the lookup returned, whether or not it is added. */
  function SwitchOps(reg: seq<Frag>, show: Frag, containerId: int, transaction: int): seq<Op>
  {
    SwitchHead(reg, show, containerId, transaction)
    + HideOps(Others(reg, FindByTag(reg, show.className)))
  }

  /** switch shows the added fragment under the class tag or else adds `show`,
      and hides every registered fragment except the one the lookup found;
      when the lookup found nothing, it hides all of them. It removes nothing. */
  lemma {:induction false} SwitchTransaction(reg: seq<Frag>, show: Frag, containerId: int, transaction: int)
    ensures var ops := SwitchOps(reg, show, containerId, transaction);
      var found := FindByTag(reg, show.className);
      && ops[0] == SetTransition(transaction)
      && (found.Some? && found.value.isAdded ==>
            ops[1] == Show(found.value) && Affected(ops, Shows) == [found.value] && Affected(ops, Adds) == [])
      && (!(found.Some? && found.value.isAdded) ==>
            ops[1] == Add(containerId, show, show.className) && Affected(ops, Adds) == [show] && Affected(ops, Shows) == [])
      && Affected(ops, Hides) == Others(reg, found)
      && (found.None? ==> Affected(ops, Hides) == reg)
      && (found.Some? ==> found.value !in Affected(ops, Hides))
      && (forall f :: f in reg && Some(f) != found ==> f in Affected(ops, Hides))
      && Affected(ops, Removes) == []
  {
    var found := FindByTag(reg, show.className);
    OthersSpec(reg, found);
    SwitchOpsAffected(reg, show, containerId, transaction, Adds);
    SwitchOpsAffected(reg, show, containerId, transaction, Removes);
    SwitchOpsAffected(reg, show, containerId, transaction, Hides);
    SwitchOpsAffected(reg, show, containerId, transaction, Shows);
  }

  /** What switch does, one kind of step at a time: it shows the added lookup
      result or else adds `show`, and hides the registered fragments other than
      the lookup result. */
  lemma SwitchOpsAffected(reg: seq<Frag>, show: Frag, containerId: int, transaction: int, a: Action)
    ensures var found := FindByTag(reg, show.className);
      Affected(SwitchOps(reg, show, containerId, transaction), a)
      == (if found.Some? && found.value.isAdded
          then (if a == Shows then [found.value] else [])
          else (if a == Adds then [show] else []))
       + (if a == Hides then Others(reg, found) else [])
  {
    var head := SwitchHead(reg, show, containerId, transaction);
    var rest := Others(reg, FindByTag(reg, show.className));
    AffectedAppend(head, HideOps(rest), a);
    AffectedHideOps(rest, a);
    AffectedAppend([head[0]], [head[1]], a);
    assert head == [head[0]] + [head[1]];
    AffectedOne(head[0], a);
    AffectedOne(head[1], a);
  }

  /** `replace(fragment, containerId, isAddStack, tag)`. */
  function ReplaceOps(f: Frag, containerId: int, isAddStack: bool, tag: string): (r: seq<Op>)
  {
    [Replace(containerId, f, tag)] + if isAddStack then [AddToBackStack(tag)] else []
  }

  /** replace records the replacement under `tag` and, only if asked, the
      back-stack entry after it; it adds, removes, hides and shows nothing. */
  lemma {:induction false} ReplaceTransaction(f: Frag, containerId: int, isAddStack: bool, tag: string, a: Action)
    ensures var ops := ReplaceOps(f, containerId, isAddStack, tag);
      && ops[0] == Replace(containerId, f, tag)
      && |ops| == (if isAddStack then 2 else 1)
      && (AddToBackStack(tag) in ops <==> isAddStack)
      && Affected(ops, a) == []
  {
    var s: seq<Op> := if isAddStack then [AddToBackStack(tag)] else [];
    AffectedAppend([Replace(containerId, f, tag)], s, a);
  }
}
