# FragmentManager transaction helpers

This project models the fragment-transaction helpers of the KAHelpers Kotlin
library: the `FragmentManager` extension functions `add` (one fragment and a
list), `hide`, `show`, `remove`, `removeTo`, `removeAll`, `showHide`,
`replace`, `switch`, `getTop`, `getFmFragments` and `findFragment`. It also
models the `Fragment` and `FragmentActivity` one-liners that forward to them.

Each helper reads the fragment manager's registry and starts a transaction. It
records steps on the transaction (add, remove, hide, show, replace,
addToBackStack, setTransition) and then commits it. The platform fragment
manager is not part of this model. It is reduced to what the helpers observe
and cause:

- `Fragments.Frag` is a fragment: an identity, the class name its default tag
  comes from, the tag it is registered under, and its `isAdded` flag. Equal
  values stand for the same fragment, as Kotlin's `==`/`!=` on fragments
  compares identity.
- `Fragments.Op` is one recorded step. A transaction is a `seq<Op>`.
- `Manager.FragmentManager` is a class with two fields:
  - `fragments`, the registry the platform reports;
  - `commits`, the log of committed transactions.

  `Commit` appends a transaction to the log and applies nothing. So every read
  inside one helper sees the registry as it was before the call, and no
  helper changes `fragments`.
- `Fragments.FindByTag` is the platform's `findFragmentByTag`. It returns the
  most recently registered fragment under the tag, or nothing.

Each imperative helper is a method of `FragmentManager`. It builds the
transaction step by step, with the same branches and loops as the source. It
is proved to commit exactly one transaction, equal to a specification function
of the registry and the arguments. There are two exceptions: `removeAll` commits
nothing on an empty registry, and the as-written `removeTo` commits nothing when
its loop throws. The specification functions are `AddOps`, `AddListOps`, `HideOps`,
`RemoveOps`, `ShowHideOps`, `ReplaceOps` and `SwitchOps`. Lemmas then state what
each transaction does. `Fragments.Affected(ops, a)` lists, in order, the
fragments that the steps of one kind (`Adds`, `Removes`, `Hides`, `Shows`)
act on.

`removeTo` loops over `(fragments.size - 1)..0`, which in Kotlin is an
*ascending* range. It is modelled as written (`RemoveToLoop.RemoveToAsWritten`,
`Manager.FragmentManager.RemoveTo`):

- The body never runs for two or more fragments.
- It runs once for one fragment.
- It reads index -1 of an empty registry, which throws before the commit. The
  model returns that as `IndexOutOfBounds(-1)` and leaves the log unchanged.

The evident intent, `(fragments.size - 1) downTo 0`, is modelled beside it
(`RemoveToDescending`, `RemoveToDescendingOrder`); see "## Findings".

The loop body removes every fragment it visits. It stops only when it reaches
the target and `isIncludeSelf` holds. So, even when descending, `removeTo(F2,
false)` over `[F1, F2, F3]` removes all three fragments, not only `F3`.

## Model

| member | source | states |
|---|---|---|
| Fragments.FindByTagSpec | kotlinextensions/src/main/java/com/crazylegend/kotlinextensions/activity/ActivityExtensions.kt:254 | the tag lookup finds nothing exactly when no registered fragment carries the tag; otherwise it finds a registered fragment carrying the tag, and no fragment registered after it carries that tag |
| Fragments.HideOpsSpec | kotlinextensions/src/main/java/com/crazylegend/kotlinextensions/activity/ActivityExtensions.kt:290-296 | the hide loop records one hide per argument, the i-th step hiding the i-th argument |
| Fragments.AffectedHideOps | kotlinextensions/src/main/java/com/crazylegend/kotlinextensions/activity/ActivityExtensions.kt:290-296 | the hide loop hides exactly its arguments, in order, and adds, removes and shows nothing |
| Fragments.RemoveOpsSpec | kotlinextensions/src/main/java/com/crazylegend/kotlinextensions/activity/ActivityExtensions.kt:306-312 | the remove loop records one remove per argument, the i-th step removing the i-th argument |
| Fragments.AffectedRemoveOps | kotlinextensions/src/main/java/com/crazylegend/kotlinextensions/activity/ActivityExtensions.kt:306-312 | the remove loop removes exactly its arguments, in order, and adds, hides and shows nothing |
| Fragments.OthersSpec | kotlinextensions/src/main/java/com/crazylegend/kotlinextensions/activity/ActivityExtensions.kt:349-353 | the loop filter `fragment != showFragment` keeps exactly the fragments other than the skipped one, and keeps all of them when nothing is skipped |
| Transactions.Collision | kotlinextensions/src/main/java/com/crazylegend/kotlinextensions/activity/ActivityExtensions.kt:254-257 | `add` removes a fragment first exactly when the lookup under the tag finds one and it is added; that fragment is the lookup's result, is registered and carries the tag |
| Transactions.AddTransaction | kotlinextensions/src/main/java/com/crazylegend/kotlinextensions/activity/ActivityExtensions.kt:248-263 | a single add records the remove of the colliding fragment first when there is one, then the add, then a hide only if `isHide` and a back-stack entry only if `isAddStack`, the entry last; the length counts exactly these steps |
| Transactions.AddOpsAffected | kotlinextensions/src/main/java/com/crazylegend/kotlinextensions/activity/ActivityExtensions.kt:253-260 | a single add adds exactly the new fragment, removes exactly the colliding added fragment if any, hides the new fragment exactly when `isHide`, and shows nothing |
| Transactions.AddListTransaction | kotlinextensions/src/main/java/com/crazylegend/kotlinextensions/activity/ActivityExtensions.kt:266-282 | a list add adds every element in index order, hides every element except the one at `showIndex` (all of them when it is out of range), shows nothing, and removes, element by element, exactly the added fragment found under that element's class name, each of them registered and added |
| Transactions.AddListBlock | kotlinextensions/src/main/java/com/crazylegend/kotlinextensions/activity/ActivityExtensions.kt:270-280 | the steps for element `i` are the remove of the added fragment under its class name if any, then its add, then its hide unless `i` is `showIndex`, with no back-stack entry |
| Transactions.ShowHideTransaction | kotlinextensions/src/main/java/com/crazylegend/kotlinextensions/activity/ActivityExtensions.kt:342-356 | showHide sets the transition, then shows the fragment; it hides every other hide argument in order and never the shown fragment; it adds and removes nothing |
| Transactions.SwitchTransaction | kotlinextensions/src/main/java/com/crazylegend/kotlinextensions/activity/ActivityExtensions.kt:372-391 | switch sets the transition; it then shows the added fragment under the class tag, or else adds the new fragment under that tag; it hides every registered fragment except the lookup's result (all of them when the lookup returns null) and removes nothing |
| Transactions.SwitchOpsAffected | kotlinextensions/src/main/java/com/crazylegend/kotlinextensions/activity/ActivityExtensions.kt:375-389 | switch shows exactly the added lookup result or else adds exactly the new fragment, hides exactly the registered fragments other than the lookup result in registry order, and removes nothing |
| Transactions.ReplaceTransaction | kotlinextensions/src/main/java/com/crazylegend/kotlinextensions/activity/ActivityExtensions.kt:359-369 | replace records the replacement, then a back-stack entry only if `isAddStack`; it adds, removes, hides and shows nothing |
| RemoveToLoop.Ascending | kotlinextensions/src/main/java/com/crazylegend/kotlinextensions/activity/ActivityExtensions.kt:318 | the Kotlin range `lo..hi` counts up from `lo` and is empty when `lo > hi` |
| RemoveToLoop.Descending | kotlinextensions/src/main/java/com/crazylegend/kotlinextensions/activity/ActivityExtensions.kt:318 | the progression `hi downTo lo` counts down from `hi` and is empty when `hi < lo` |
| RemoveToLoop.RemoveToAsWrittenCases | kotlinextensions/src/main/java/com/crazylegend/kotlinextensions/activity/ActivityExtensions.kt:315-327 | as written, removeTo records nothing for two or more fragments, removes the only fragment of a one-fragment registry whatever the target, and reads index -1 of an empty registry |
| RemoveToLoop.RemoveToAsWrittenCounterexample | kotlinextensions/src/main/java/com/crazylegend/kotlinextensions/activity/ActivityExtensions.kt:318 | on `[F1, F2, F3]` with target F2 and `isIncludeSelf`, the ascending loop removes nothing while the descending one removes F3 then F2; on an empty registry the ascending loop throws and the descending one does not |
| RemoveToLoop.RemoveToDescendingSpec | kotlinextensions/src/main/java/com/crazylegend/kotlinextensions/activity/ActivityExtensions.kt:315-327 | the descending removeTo never throws; it removes the fragments from the last registered one back to the target's last position when `isIncludeSelf` holds and the target is registered, and otherwise all of them, one remove per fragment |
| Manager.FragmentManager.GetTop | kotlinextensions/src/main/java/com/crazylegend/kotlinextensions/activity/ActivityExtensions.kt:393-396 | getTop is null exactly on an empty registry, and otherwise the last registered fragment |
| Manager.FragmentManager.FindFragment | kotlinextensions/src/main/java/com/crazylegend/kotlinextensions/activity/ActivityExtensions.kt:402-404 | findFragment is the tag lookup under the class name: it finds nothing exactly when no registered fragment carries that tag, and otherwise a registered fragment carrying it |
| Manager.FragmentManager.Commit | kotlinextensions/src/main/java/com/crazylegend/kotlinextensions/activity/ActivityExtensions.kt:262 | commit appends the transaction to the log |
| Manager.FragmentManager.RecordAdd | kotlinextensions/src/main/java/com/crazylegend/kotlinextensions/activity/ActivityExtensions.kt:254-260 | the steps one add appends to a transaction are those of `AddOps` over the registry |
| Manager.FragmentManager.Add | kotlinextensions/src/main/java/com/crazylegend/kotlinextensions/activity/ActivityExtensions.kt:248-263 | add commits exactly one transaction, the single-add steps, and leaves the registry unchanged |
| Manager.FragmentManager.AddList | kotlinextensions/src/main/java/com/crazylegend/kotlinextensions/activity/ActivityExtensions.kt:266-282 | the list add commits exactly one transaction: the single add of each element in index order, hidden unless at `showIndex` |
| Manager.FragmentManager.Hide | kotlinextensions/src/main/java/com/crazylegend/kotlinextensions/activity/ActivityExtensions.kt:285-296 | hide commits exactly one transaction of one hide per argument, also when there are no arguments |
| Manager.FragmentManager.Show | kotlinextensions/src/main/java/com/crazylegend/kotlinextensions/activity/ActivityExtensions.kt:299-303 | show commits exactly one transaction holding only the show |
| Manager.FragmentManager.Remove | kotlinextensions/src/main/java/com/crazylegend/kotlinextensions/activity/ActivityExtensions.kt:306-312 | remove commits exactly one transaction of one remove per argument, also when there are no arguments |
| Manager.FragmentManager.RemoveTo | kotlinextensions/src/main/java/com/crazylegend/kotlinextensions/activity/ActivityExtensions.kt:315-327 | removeTo as written returns the as-written outcome; it commits the recorded steps once when the loop ends, and commits nothing when the loop throws |
| Manager.FragmentManager.RemoveToDescendingOrder | kotlinextensions/src/main/java/com/crazylegend/kotlinextensions/activity/ActivityExtensions.kt:315-327 | the corrected removeTo always commits exactly one transaction, the descending removal |
| Manager.FragmentManager.RemoveAll | kotlinextensions/src/main/java/com/crazylegend/kotlinextensions/activity/ActivityExtensions.kt:330-339 | removeAll commits nothing on an empty registry, and otherwise one transaction removing every registered fragment in registry order |
| Manager.FragmentManager.ShowHide | kotlinextensions/src/main/java/com/crazylegend/kotlinextensions/activity/ActivityExtensions.kt:342-356 | showHide commits exactly one transaction, the showHide steps |
| Manager.FragmentManager.Replace | kotlinextensions/src/main/java/com/crazylegend/kotlinextensions/activity/ActivityExtensions.kt:359-369 | replace commits exactly one transaction, the replace steps |
| Manager.FragmentManager.Switch | kotlinextensions/src/main/java/com/crazylegend/kotlinextensions/activity/ActivityExtensions.kt:372-391 | switch commits exactly one transaction, the switch steps over the registry as it was before the call |
| Manager.SwitchFragment | kotlinextensions/src/main/java/com/crazylegend/kotlinextensions/activity/ActivityExtensions.kt:225-229 | switchFragment commits the switch steps on the activity's support fragment manager |
| Manager.FragmentHide | kotlinextensions/src/main/java/com/crazylegend/kotlinextensions/activity/ActivityExtensions.kt:231-233 | Fragment.hide commits a hide of the fragment through its manager, and does nothing without one |
| Manager.FragmentShow | kotlinextensions/src/main/java/com/crazylegend/kotlinextensions/activity/ActivityExtensions.kt:235-237 | Fragment.show commits a show of the fragment through its manager, and does nothing without one |
| Manager.FragmentRemove | kotlinextensions/src/main/java/com/crazylegend/kotlinextensions/activity/ActivityExtensions.kt:239-241 | Fragment.remove commits a remove of the fragment through its manager, and does nothing without one |
| Manager.FragmentShowHide | kotlinextensions/src/main/java/com/crazylegend/kotlinextensions/activity/ActivityExtensions.kt:243-246 | Fragment.showHide commits showHide with the fragment as the one shown, and does nothing without a manager |

## Left out

- Applying committed transactions is left out because it happens inside the platform fragment manager. This covers the back stack, transition animations and the asynchronous commit. The model records steps and commits and never changes the registry. So it cannot state properties about the registry after a commit, such as "exactly one fragment is visible after `switch`" or "never two added fragments under one tag".
- `FindByTag` searches one registry from its most recent entry. The platform searches its added fragments and then its active ones; that split is platform-internal and is not modelled.
- `getFmFragments` is modelled as `Manager.FragmentManager.GetFmFragments`, which returns the `fragments` field. It has no contract of its own.
- Tags derived from `::class.java.name` are given by `Frag.className`. The `@IdRes` container id and the `transaction` transition style are passed through as plain integers.
- Fragment identity is modelled as equality of the whole `Frag` value. The model assumes one fragment is seen with the same tag and `isAdded` flag wherever it appears in one call; it does not relate two values with the same `id` and different fields.
- `hide(vararg)` forwards to `hide(List)`, so both are `Manager.FragmentManager.Hide` over a sequence.
- Window and view calls are left out because they are platform UI side effects: keyboard, status and navigation bar colours, fullscreen flags, background colour and bottom-bar visibility.
- Activity and intent plumbing is left out because it only calls the platform: `restart`, `restartApplication`, `startActivityForResult`, `launchActivity`, `newIntent`, `alert`.
- `getDisplayDensity` and `getStatusBarHeight` are left out because they read display metrics from the platform.
- The `sleepDuration` property is left out because it is system-settings I/O.
- ProtectedPermissions.kt is not part of this model. It is a thin wrapper over platform permission services.
- IntentConstants.kt is not part of this model. It holds only string constants.
- DBresult.kt is not part of this model. It declares a result type with no operations.
- Manager.FragmentManager.RemoveTo: reports the exception as an `Outcome` value instead of throwing it.

## Findings

| source | as written | input that shows it | evidently intended | confidence | as-written member | corrected member |
|---|---|---|---|---|---|---|
| kotlinextensions/src/main/java/com/crazylegend/kotlinextensions/activity/ActivityExtensions.kt:318 | `for (i in (fragments.size - 1)..0)` is an ascending range: empty for two or more fragments, and starting at -1 for none | registry `[F1, F2, F3]`, `removeTo(F2, true)`: an empty transaction is committed instead of removing F3 and F2; an empty registry throws on index -1 | `(fragments.size - 1) downTo 0`, which removes from the most recent fragment back to the target | high; not executed | RemoveToLoop.RemoveToAsWrittenCounterexample | RemoveToLoop.RemoveToDescendingSpec |
