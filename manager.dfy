/** The FragmentManager extension helpers. The platform's fragment manager is
    reduced to what the helpers observe and cause: the registry of fragments
    they read, and the log of committed transactions. A helper begins a
    transaction, records its steps, and commits it; committing appends the
    steps to the log and applies nothing, so every read inside one helper
    sees the registry as it was before the call. */
module Manager {
  import opened Fragments
  import opened Transactions
  import opened RemoveToLoop

  class FragmentManager {
    /** The fragments the platform reports (`fragments`), in registry order. */
    var fragments: seq<Frag>
    /** Every committed transaction, oldest first. */
    var commits: seq<seq<Op>>

    constructor (registry: seq<Frag>)
      ensures fragments == registry && commits == []
    {
      fragments := registry;
      commits := [];
    }

    /** `getFmFragments()`. */
    function GetFmFragments(): seq<Frag>
      reads this
    {
      fragments
    }

    /** `getTop()`: null on an empty registry, else its last fragment. */
    function GetTop(): (r: Option<Frag>)
      reads this
      ensures r.None? <==> fragments == []
      ensures r.Some? ==> r.value in fragments && r.value == fragments[|fragments| - 1]
    {
      var frg := GetFmFragments();
      if frg == [] then None else Some(frg[|frg| - 1])
    }

    /** `findFragment<T>()`: the tag lookup under T's class name `className`. */
    function FindFragment(className: string): (r: Option<Frag>)
      reads this
      ensures r.Some? ==> r.value in fragments && r.value.tag == className
      ensures r.None? <==> forall f :: f in fragments ==> f.tag != className
    {
      FindByTagSpec(fragments, className);
      FindByTag(fragments, className)
    }

    /** `commit()` of a transaction holding the steps `ft`. */
    method Commit(ft: seq<Op>)
      modifies this`commits
      ensures commits == old(commits) + [ft]
    {
      commits := commits + [ft];
    }

    /** The steps one add records on the transaction `ft`: the remove of an
        added fragment already under `tag`, the add, and the hide and the
        back-stack entry when asked for. The single add and the list add both
        record these. */
    method RecordAdd(ft: seq<Op>, addFragment: Frag, containerId: int, isHide: bool, isAddStack: bool, tag: string)
      returns (r: seq<Op>)
      ensures r == ft + AddOps(fragments, addFragment, containerId, isHide, isAddStack, tag)
    {
      r := ft;
      var fragmentByTag := FindByTag(fragments, tag);
      if fragmentByTag.Some? && fragmentByTag.value.isAdded {
        r := r + [Op.Remove(fragmentByTag.value)];
      }
      r := r + [Op.Add(containerId, addFragment, tag)];
      if isHide {
        r := r + [Op.Hide(addFragment)];
      }
      if isAddStack {
        r := r + [Op.AddToBackStack(tag)];
      }
    }

    /** `add(addFragment, containerId, isHide, isAddStack, tag)`; the source's
        default tag is `addFragment.className`. */
    method Add(addFragment: Frag, containerId: int, isHide: bool, isAddStack: bool, tag: string)
      modifies this`commits
      ensures fragments == old(fragments)
      ensures commits == old(commits) + [AddOps(fragments, addFragment, containerId, isHide, isAddStack, tag)]
    {
      var ft := RecordAdd([], addFragment, containerId, isHide, isAddStack, tag);
      assert ft == AddOps(fragments, addFragment, containerId, isHide, isAddStack, tag);
      Commit(ft);
    }

    /** `add(addList, containerId, showIndex)`. */
    method AddList(addList: seq<Frag>, containerId: int, showIndex: int)
      modifies this`commits
      ensures fragments == old(fragments)
      ensures commits == old(commits) + [AddListOps(fragments, addList, containerId, showIndex)]
    {
      var ft: seq<Op> := [];
      ghost var blocks := AddListBlocks(fragments, addList, containerId, showIndex);
      for i := 0 to |addList|
        invariant commits == old(commits)
        invariant ft == Flatten(blocks[..i])
      {
        var addFragment := addList[i];
        ft := RecordAdd(ft, addFragment, containerId, showIndex != i, false, addFragment.className);
        FlattenSnoc(blocks, i);
      }
      assert blocks[..|addList|] == blocks;
      Commit(ft);
    }

    /** `hide(hideFragment)`, and `hide(vararg hideFragment)`, which forwards to it. */
    method Hide(hideFragment: seq<Frag>)
      modifies this`commits
      ensures fragments == old(fragments)
      ensures commits == old(commits) + [HideOps(hideFragment)]
    {
      var ft: seq<Op> := [];
      for i := 0 to |hideFragment|
        invariant ft == HideOps(hideFragment[..i])
      {
        ft := ft + [Op.Hide(hideFragment[i])];
        assert hideFragment[..i + 1][..i] == hideFragment[..i];
      }
      assert hideFragment[..|hideFragment|] == hideFragment;
      Commit(ft);
    }

    /** `show(showFragment)`. */
    method Show(showFragment: Frag)
      modifies this`commits
      ensures fragments == old(fragments)
      ensures commits == old(commits) + [[Op.Show(showFragment)]]
    {
      var ft: seq<Op> := [];
      ft := ft + [Op.Show(showFragment)];
      assert ft == [Op.Show(showFragment)];
      Commit(ft);
    }

    /** `remove(vararg removeFragment)`. */
    method Remove(removeFragment: seq<Frag>)
      modifies this`commits
      ensures fragments == old(fragments)
      ensures commits == old(commits) + [RemoveOps(removeFragment)]
    {
      var ft: seq<Op> := [];
      for i := 0 to |removeFragment|
        invariant ft == RemoveOps(removeFragment[..i])
      {
        ft := ft + [Op.Remove(removeFragment[i])];
        assert removeFragment[..i + 1][..i] == removeFragment[..i];
      }
      assert removeFragment[..|removeFragment|] == removeFragment;
      Commit(ft);
    }

    /** `removeTo(removeTo, isIncludeSelf)` as written: the loop walks the
        ascending range `(fragments.size - 1)..0`. When the lookup throws, the
        transaction is dropped uncommitted and the index is reported. */
    method RemoveTo(removeTo: Frag, isIncludeSelf: bool) returns (outcome: Outcome)
      modifies this`commits
      ensures fragments == old(fragments)
      ensures outcome == RemoveToAsWritten(fragments, removeTo, isIncludeSelf)
      ensures commits == if outcome.Done? then old(commits) + [outcome.ops] else old(commits)
    {
      var ft: seq<Op> := [];
      var fs := GetFmFragments();
      var i := |fs| - 1;
      while i <= 0
        invariant commits == old(commits)
        invariant RemoveToAsWritten(fs, removeTo, isIncludeSelf)
               == Then(ft, RemoveLoop(fs, removeTo, isIncludeSelf, Ascending(i, 0)))
        decreases 1 - i
      {
        ghost var idx := Ascending(i, 0);
        assert idx[0] == i && idx[1..] == Ascending(i + 1, 0);
        if !(0 <= i < |fs|) {
          return IndexOutOfBounds(i);
        }
        var fragment := fs[i];
        if fragment == removeTo && isIncludeSelf {
          ft := ft + [Op.Remove(fragment)];
          break;
        }
        ThenAssociates(ft, [Op.Remove(fragment)], RemoveLoop(fs, removeTo, isIncludeSelf, idx[1..]));
        ft := ft + [Op.Remove(fragment)];
        i := i + 1;
      }
      Commit(ft);
      outcome := Done(ft);
    }

    /** `removeTo` with the traversal the source evidently intends,
        `(fragments.size - 1) downTo 0`: it never throws, and removes the
        fragments from the most recent one back to where it stops. */
    method RemoveToDescendingOrder(removeTo: Frag, isIncludeSelf: bool)
      modifies this`commits
      ensures fragments == old(fragments)
      ensures RemoveToDescending(fragments, removeTo, isIncludeSelf).Done?
      ensures commits == old(commits) + [RemoveToDescending(fragments, removeTo, isIncludeSelf).ops]
    {
      var ft: seq<Op> := [];
      var fs := GetFmFragments();
      var i := |fs| - 1;
      RemoveToDescendingSpec(fs, removeTo, isIncludeSelf);
      while i >= 0
        invariant -1 <= i < |fs|
        invariant commits == old(commits)
        invariant RemoveToDescending(fs, removeTo, isIncludeSelf)
               == Then(ft, RemoveLoop(fs, removeTo, isIncludeSelf, Descending(i, 0)))
      {
        ghost var idx := Descending(i, 0);
        assert idx[0] == i && idx[1..] == Descending(i - 1, 0);
        var fragment := fs[i];
        if fragment == removeTo && isIncludeSelf {
          ft := ft + [Op.Remove(fragment)];
          break;
        }
        ThenAssociates(ft, [Op.Remove(fragment)], RemoveLoop(fs, removeTo, isIncludeSelf, idx[1..]));
        ft := ft + [Op.Remove(fragment)];
        i := i - 1;
      }
      assert ft + [] == ft;
      Commit(ft);
    }

    /** `removeAll()`: no transaction at all on an empty registry. */
    method RemoveAll()
      modifies this`commits
      ensures fragments == old(fragments)
      ensures fragments == [] ==> commits == old(commits)
      ensures fragments != [] ==> commits == old(commits) + [RemoveOps(fragments)]
    {
      var frg := GetFmFragments();
      if frg == [] {
        return;
      }
      var ft: seq<Op> := [];
      for i := 0 to |frg|
        invariant ft == RemoveOps(frg[..i])
      {
        ft := ft + [Op.Remove(frg[i])];
        assert frg[..i + 1][..i] == frg[..i];
      }
      assert frg[..|frg|] == frg;
      Commit(ft);
    }

    /** `showHide(showFragment, *hideFragment, transaction)`. */
    method ShowHide(showFragment: Frag, hideFragment: seq<Frag>, transaction: int)
      modifies this`commits
      ensures fragments == old(fragments)
      ensures commits == old(commits) + [ShowHideOps(showFragment, hideFragment, transaction)]
    {
      var ft: seq<Op> := [Op.SetTransition(transaction)];
      ft := ft + [Op.Show(showFragment)];
      ghost var head := ft;
      for i := 0 to |hideFragment|
        invariant commits == old(commits)
        invariant ft == head + HideOps(Others(hideFragment[..i], Some(showFragment)))
      {
        var fragment := hideFragment[i];
        HideOthersStep(head, hideFragment, i, Some(showFragment));
        if fragment != showFragment {
          ft := ft + [Op.Hide(fragment)];
        }
      }
      assert hideFragment[..|hideFragment|] == hideFragment;
      assert head == [Op.SetTransition(transaction), Op.Show(showFragment)];
      assert ft == ShowHideOps(showFragment, hideFragment, transaction);
      Commit(ft);
    }

    /** `replace(fragment, containerId, isAddStack, tag)`; the source's default
        tag is `fragment.className`. */
    method Replace(fragment: Frag, containerId: int, isAddStack: bool, tag: string)
      modifies this`commits
      ensures fragments == old(fragments)
      ensures commits == old(commits) + [ReplaceOps(fragment, containerId, isAddStack, tag)]
    {
      var ft: seq<Op> := [];
      ft := ft + [Op.Replace(containerId, fragment, tag)];
      if isAddStack {
        ft := ft + [Op.AddToBackStack(tag)];
      }
      assert ft == ReplaceOps(fragment, containerId, isAddStack, tag);
      Commit(ft);
    }

    /** `switch(showFragment, containerId, transaction)`. */
    method Switch(showFragment: Frag, containerId: int, transaction: int)
      modifies this`commits
      ensures fragments == old(fragments)
      ensures commits == old(commits) + [SwitchOps(fragments, showFragment, containerId, transaction)]
    {
      var ft: seq<Op> := [Op.SetTransition(transaction)];
      var tag := showFragment.className;
      var fragmentByTag := FindByTag(fragments, tag);
      if fragmentByTag.Some? && fragmentByTag.value.isAdded {
        ft := ft + [Op.Show(fragmentByTag.value)];
      } else {
        ft := ft + [Op.Add(containerId, showFragment, tag)];
      }
      assert ft == SwitchHead(fragments, showFragment, containerId, transaction);
      var all := GetFmFragments();
      ghost var head := ft;
      for i := 0 to |all|
        invariant commits == old(commits)
        invariant ft == head + HideOps(Others(all[..i], fragmentByTag))
      {
        var tempF := all[i];
        HideOthersStep(head, all, i, fragmentByTag);
        if Some(tempF) != fragmentByTag {
          ft := ft + [Op.Hide(tempF)];
        }
      }
      assert all[..|all|] == all;
      Commit(ft);
    }
  }

  /** One more turn of a loop that records, after `head`, a hide of each
      element of `s` other than `skip`. */
  lemma HideOthersStep(head: seq<Op>, s: seq<Frag>, i: nat, skip: Option<Frag>)
    requires i < |s|
    ensures Some(s[i]) == skip ==>
      head + HideOps(Others(s[..i + 1], skip)) == head + HideOps(Others(s[..i], skip))
    ensures Some(s[i]) != skip ==>
      head + HideOps(Others(s[..i + 1], skip)) == head + HideOps(Others(s[..i], skip)) + [Hide(s[i])]
  {
    var o := Others(s[..i], skip);
    OthersSnoc(s, i, skip);
    if Some(s[i]) != skip {
      HideOpsSnoc(o, s[i]);
      assert head + (HideOps(o) + [Hide(s[i])]) == head + HideOps(o) + [Hide(s[i])];
    } else {
      assert o + [] == o;
    }
  }

  /** Recording `x` and then `y` before an outcome is recording `x + y`. */
  lemma ThenAssociates(x: seq<Op>, y: seq<Op>, o: Outcome)
    ensures Then(x, Then(y, o)) == Then(x + y, o)
  {
    if o.Done? {
      assert x + (y + o.ops) == (x + y) + o.ops;
    }
  }

  /** `FragmentActivity.switchFragment(showFragment, containerId, transaction)`:
      switch on the activity's support fragment manager. */
  method SwitchFragment(supportFragmentManager: FragmentManager, showFragment: Frag, containerId: int, transaction: int)
    modifies supportFragmentManager
    ensures supportFragmentManager.fragments == old(supportFragmentManager.fragments)
    ensures supportFragmentManager.commits
         == old(supportFragmentManager.commits)
            + [SwitchOps(supportFragmentManager.fragments, showFragment, containerId, transaction)]
  {
    supportFragmentManager.Switch(showFragment, containerId, transaction);
  }

  /** `Fragment.hide()`: a hide through the fragment's manager, and nothing
      when the fragment has none. */
  method FragmentHide(fm: FragmentManager?, f: Frag)
    modifies fm
    ensures fm != null ==> fm.fragments == old(fm.fragments)
    ensures fm != null ==> fm.commits == old(fm.commits) + [HideOps([f])]
  {
    if fm != null {
      fm.Hide([f]);
    }
  }

  /** `Fragment.show()`: a show through the fragment's manager, and nothing
      when the fragment has none. */
  method FragmentShow(fm: FragmentManager?, f: Frag)
    modifies fm
    ensures fm != null ==> fm.fragments == old(fm.fragments)
    ensures fm != null ==> fm.commits == old(fm.commits) + [[Show(f)]]
  {
    if fm != null {
      fm.Show(f);
    }
  }

  /** `Fragment.remove()`: a remove through the fragment's manager, and
      nothing when the fragment has none. */
  method FragmentRemove(fm: FragmentManager?, f: Frag)
    modifies fm
    ensures fm != null ==> fm.fragments == old(fm.fragments)
    ensures fm != null ==> fm.commits == old(fm.commits) + [RemoveOps([f])]
  {
    if fm != null {
      fm.Remove([f]);
    }
  }

  /** `Fragment.showHide(*hideFragment, transaction)`: showHide with `f` as the
      fragment to show, and nothing when `f` has no manager. */
  method FragmentShowHide(fm: FragmentManager?, f: Frag, hideFragment: seq<Frag>, transaction: int)
    modifies fm
    ensures fm != null ==> fm.fragments == old(fm.fragments)
    ensures fm != null ==> fm.commits == old(fm.commits) + [ShowHideOps(f, hideFragment, transaction)]
  {
    if fm != null {
      fm.ShowHide(f, hideFragment, transaction);
    }
  }
}
