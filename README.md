# TFBubbleItUp core, modelled in Dafny

TFBubbleItUp is an iOS "bubble" tag-input view: the user types tokens, each
committed token becomes a bubble, and bubbles can be edited, validated and
deleted one by one. This project models the part of it that is logic rather
than drawing:

- **Validation** (`validation.dfy`, module `Validation`): validators are total
  predicates on strings; `|>>` and `combine` compose them by AND;
  `testEmptiness` rejects the empty string; `isValid` treats a missing text or
  a missing configured validator as valid.
- **Configuration** (`configuration.dfy`): the four settings that steer
  behaviour — `numberOfItems` (`unlimited` or `quantity(n)`),
  `skipOnWhitespace`, `skipOnReturnKey`, `itemValidation`. The source keeps
  them in mutable static fields; here every operation takes a `Config`, so it
  may differ from call to call just as in the source.
- **The list controller** (`bubble_view.dfy`, class
  `BubbleView.BubbleItUpView`): a `seq<Item>` field that each operation
  updates in place, a log of delegate notifications (`events`) and a log of
  the first-responder calls it makes on cells (`responderCalls`). Pure
  functions next to the class state what each policy does to a list
  (`WithItemAdded`, `WithCaret`, `WithoutFirst`, `RemoveAt`, ...), and the
  methods are proved against them.
- **Properties** (`bubble_view_properties.dfy`): what the projections mean,
  round trips, and the invariants the insertion, caret and commit policies
  keep.
- **The cell** (`bubble_cell.dfy`, class `BubbleCell.Cell`): the text, the
  requested mode and the shown style of one bubble, its mode transitions,
  and the two text-field decisions (`ShouldChangeCharacters`, `ShouldReturn`)
  as functions returning whether UIKit may proceed and which controller
  intent fires.

A cell intent is a controller method taking the cell's index; "the cell at
index i shows text t" is `items[i].text == t`, and every cell an operation
addresses is taken to be on screen.

Behaviour of the code that the model keeps as written:

- The capacity tests compare the total item count (a trailing empty editor
  included) with `==` (TFBubbleItUpView.swift lines 190, 298, 421). Once the
  list is longer than the quantity, `addStringItem` never refuses again
  (`PastQuantityNeverRefuses`). With `quantity(0)` an add on the empty list is
  refused, but a tap appends an editor and adds are then accepted
  (`ZeroQuantityEscapedByTap`). For every other quantity the add, caret and
  commit policies keep `count <= n`; `setStringItems` has no gate at all.
- `replaceLastInvalidOrInsertItemText` overwrites the first item whose text
  equals the last item's text (line 164), so with a duplicate an earlier item
  changes and the last keeps its rejected text (`ReplaceTargetOnDuplicate`).
  Its `switchToNext` step runs in `addStringItem`'s completion, which never
  runs when the add is refused.
- `willDisplay` clears the focus flag on a copy of the item, so the list keeps
  the flag set (`WillDisplay` ensures `items == old(items)`).
- `setMode` stores the requested mode even when the shown style is forced to
  edit by an empty text.
- "No two neighbouring empty items" holds only as far as the add, caret and
  commit policies go (`*KeepsNoAdjacentEditors`); `setStringItems`,
  `didChangeText`, `replaceItemsTextAtPosition` and removals can break it.

## Model

| member | source | states |
|---|---|---|
| Validation.Chain | Pod/Classes/TFBubbleItUpValidation.swift:15-17 | the chained validator accepts only texts both validators accept, and rejects every text either one rejects |
| Validation.Combine | Pod/Classes/TFBubbleItUpValidation.swift:37-39 | `combine(v1, v2)` agrees with the chaining operator on every string |
| Validation.TestEmptiness | Pod/Classes/TFBubbleItUpValidation.swift:22-26 | rejects "" and accepts every non-empty string |
| Validation.ChainAll | Pod/Classes/TFBubbleItUpValidation.swift:13-17 | a text the left-nested chain accepts passes its first and its last validator |
| Validation.IsValid | Pod/Classes/TFBubbleItUpValidation.swift:41-47 | false only for a present text under a configured validator, and then exactly that validator's verdict |
| Configuration.DefaultConfig | Pod/Classes/TFBubbleItUpViewConfiguration.swift:86-95 | unlimited items, no validator (so every text is valid), a space commits, return resigns |
| Validation.ChainAcceptsIffBoth | Pod/Classes/TFBubbleItUpValidation.swift:13-17 | the chain of `v1` and `v2` (`Chain`, the source's infix chaining operator) accepts a text iff both validators accept it |
| Validation.CombineIsChain | Pod/Classes/TFBubbleItUpValidation.swift:37-39 | `combine(v1, v2)` agrees with the chain of `v1` and `v2` on every string |
| Validation.ChainAssociative | Pod/Classes/TFBubbleItUpValidation.swift:13-17 | chaining is associative: `Chain(Chain(a, b), c)` and `Chain(a, Chain(b, c))` agree on every string |
| Validation.ChainAllAcceptsIffEvery | Pod/Classes/TFBubbleItUpValidation.swift:13-17 | a left-nested chain of `v1 ... vn` accepts a text iff every `vi` does |
| Validation.EmptinessAcceptsNonEmpty | Pod/Classes/TFBubbleItUpValidation.swift:21-26 | `testEmptiness()` accepts exactly the non-empty strings |
| Validation.ChainWithEmptinessRejectsEmpty | Pod/Classes/TFBubbleItUpValidation.swift:22-26 | any chain containing `testEmptiness()` rejects "" |
| Validation.IsValidOfNil | Pod/Classes/TFBubbleItUpValidation.swift:41-47 | `isValid(nil)` is true whatever validator is configured |
| Validation.IsValidUnconfigured | Pod/Classes/TFBubbleItUpValidation.swift:43-47 | `isValid(t)` is true when no validator is configured |
| Validation.IsValidConfigured | Pod/Classes/TFBubbleItUpValidation.swift:43-44 | with validator `v`, `isValid(t)` equals `v(t)` |
| BubbleView.NeedPreciseNumberOfItems | Pod/Classes/TFBubbleItUpView.swift:547-554 | nil exactly when unlimited, otherwise the configured quantity |
| BubbleView.AtCapacity | Pod/Classes/TFBubbleItUpView.swift:190 | the optional comparison `count == needPreciseNumberOfItems()` holds iff the configuration is a quantity equal to the count |
| BubbleView.AddRefused | Pod/Classes/TFBubbleItUpView.swift:190-193 | `addStringItem` refuses iff the configured quantity equals the count and the list is empty or its last text is non-empty |
| BubbleView.FocusesLast | Pod/Classes/TFBubbleItUpView.swift:298 | `selectLastPossible` focuses the last cell iff the list is non-empty and its last text is empty, invalid under the configured validator, or the count equals the configured quantity |
| BubbleView.CommitAppends | Pod/Classes/TFBubbleItUpView.swift:407-435 | an append by `createAndSwitchToNewCell` needs an in-range non-empty cell, a count other than the configured quantity, and a non-empty last text |
| BubbleView.LastIsInvalid | Pod/Classes/TFBubbleItUpView.swift:162 | the overwrite branch is taken iff the list is non-empty and its last text fails `isTextValid` |
| BubbleView.IsTextValid | Pod/Classes/TFBubbleItUpView.swift:319-325 | `isTextValid(t)` agrees with `isValid(t)` of the validation module |
| BubbleView.StringItems | Pod/Classes/TFBubbleItUpView.swift:118-122 | `stringItems()` has only non-empty strings and is no longer than the list |
| BubbleView.ValidStrings | Pod/Classes/TFBubbleItUpView.swift:124-128 | every string of `validStrings()` is non-empty and passes `isValid` |
| BubbleView.FirstIndexWithText | Pod/Classes/TFBubbleItUpView.swift:219-225 | `index(where:)` by text: the least position holding the text, nil iff none does |
| BubbleView.RemoveAt | Pod/Classes/TFBubbleItUpView.swift:227 | `remove(at: i)`: one shorter, items before `i` kept, items after shifted down |
| BubbleView.WithoutFirst | Pod/Classes/TFBubbleItUpView.swift:219-237 | list unchanged when no item has the text, one shorter when some does |
| BubbleView.WithItemAdded | Pod/Classes/TFBubbleItUpView.swift:195-216 | accepted add: the trailing editor takes the text (count kept, flag kept) or an unflagged item is appended; last text is the added text; earlier items untouched |
| BubbleView.WithCaret | Pod/Classes/TFBubbleItUpView.swift:297-317 | caret policy: list unchanged when the last cell is focused, else one new `("", true)` appended; never empty afterwards |
| BubbleView.ReplaceTarget | Pod/Classes/TFBubbleItUpView.swift:162-167 | the overwritten position holds the last item's text and is the first such position |
| BubbleView.BubbleItUpView.constructor | Pod/Classes/TFBubbleItUpView.swift:35-52 | a new view has no items and has sent nothing |
| BubbleView.BubbleItUpView.SetItems | Pod/Classes/TFBubbleItUpView.swift:90-103 | the list becomes the given items |
| BubbleView.BubbleItUpView.SetStringItems | Pod/Classes/TFBubbleItUpView.swift:105-116 | item k becomes `(texts[k], false)`, same length, nothing else changes |
| BubbleView.BubbleItUpView.ReplaceItemsTextAtPosition | Pod/Classes/TFBubbleItUpView.swift:134-158 | throws `outOfBounds` with nothing changed iff position outside [0, count); otherwise only that item's text changes, and its cell resigns when `resign` |
| BubbleView.BubbleItUpView.ReplaceLastInvalidOrInsertItemText | Pod/Classes/TFBubbleItUpView.swift:160-185 | rejected last text: the first item with that text is overwritten and resigns; otherwise `addStringItem`; then `selectLastPossible` when `switchToNext`, except after a refused add |
| BubbleView.BubbleItUpView.AddStringItem | Pod/Classes/TFBubbleItUpView.swift:187-217 | refuses, changing nothing, iff at capacity with no trailing editor; otherwise the list is `WithItemAdded` and an overwritten editor resigns |
| BubbleView.BubbleItUpView.RemoveStringItem | Pod/Classes/TFBubbleItUpView.swift:219-238 | true iff some item has the text; exactly the first such item is removed |
| BubbleView.BubbleItUpView.BecomeFirstResponder | Pod/Classes/TFBubbleItUpView.swift:240-245 | returns true after applying the caret policy |
| BubbleView.BubbleItUpView.SelectLastPossible | Pod/Classes/TFBubbleItUpView.swift:297-317 | focuses the last cell when it is empty, invalid or the list is at capacity; otherwise appends `("", true)` (also on an empty list) |
| BubbleView.BubbleItUpView.WillDisplay | Pod/Classes/TFBubbleItUpView.swift:340-347 | a flagged item's cell becomes first responder; the list, flag included, is unchanged |
| BubbleView.BubbleItUpView.DidChangeText | Pod/Classes/TFBubbleItUpView.swift:380-390 | in range: only that item's text changes and `didChange` is reported; out of range: nothing happens |
| BubbleView.BubbleItUpView.CreateAndSwitchToNewCell | Pod/Classes/TFBubbleItUpView.swift:407-448 | nothing for an empty cell; at capacity the cell resigns; else an empty last editor is focused or `("", true)` is appended |
| BubbleView.BubbleItUpView.EditingDidEnd | Pod/Classes/TFBubbleItUpView.swift:450-481 | empty text in range: exactly that item is removed and `didDelete(text, i, -1)` reported; non-empty: list unchanged and `didFinish(text, i)` reported |
| BubbleView.BubbleItUpView.ShouldDeleteCellInFrontOfCell | Pod/Classes/TFBubbleItUpView.swift:483-510 | nothing at index 0 or past the end; otherwise exactly item `i-1` is removed and `didDelete("", i, i-1)` reported |
| BubbleView.BubbleItUpView.RemoveItemAtIndex | Pod/Classes/TFBubbleItUpView.swift:529-545 | throws `outOfBounds` with nothing changed iff index outside [0, count); otherwise removes exactly that item |
| BubbleViewProperties.StringItemsAreNonEmptyTexts | Pod/Classes/TFBubbleItUpView.swift:118-122 | `stringItems()` is the item texts, in order, with the empty strings removed |
| BubbleViewProperties.StringItemsMembers | Pod/Classes/TFBubbleItUpView.swift:121 | a string is in `stringItems()` iff it is non-empty and some item carries it |
| BubbleViewProperties.SetStringItemsRoundTrip | Pod/Classes/TFBubbleItUpView.swift:105-122 | after `setStringItems(xs)`, `stringItems()` is `xs` without empties, and `xs` itself when none is empty |
| BubbleViewProperties.ValidStringsFilterStringItems | Pod/Classes/TFBubbleItUpView.swift:124-128 | `validStrings()` is `stringItems()` filtered by `isValid` |
| BubbleViewProperties.ValidStringsSubsequenceOfStringItems | Pod/Classes/TFBubbleItUpView.swift:119-128 | `validStrings()` is a subsequence of `stringItems()` |
| BubbleViewProperties.ValidStringsUnconfigured | Pod/Classes/TFBubbleItUpView.swift:127 | with no validator `validStrings()` equals `stringItems()` |
| BubbleViewProperties.ValidStringsEqualIffAllValid | Pod/Classes/TFBubbleItUpView.swift:124-128 | `validStrings() == stringItems()` iff every non-empty item passes the validator |
| BubbleViewProperties.StringItemsOfRemoveAt | Pod/Classes/TFBubbleItUpView.swift:535 | removing item `i` drops exactly its text from `stringItems()` |
| BubbleViewProperties.FocusLossDeletionKeepsStrings | Pod/Classes/TFBubbleItUpView.swift:457-463 | deleting an empty item on focus loss leaves `stringItems()` unchanged |
| BubbleViewProperties.AddThenRemoveRoundTrip | Pod/Classes/TFBubbleItUpView.swift:188-237 | adding a text no item carries, then removing it, restores `stringItems()` |
| BubbleViewProperties.UnlimitedNeverRefuses | Pod/Classes/TFBubbleItUpView.swift:188-193 | with unlimited capacity `addStringItem` never refuses |
| BubbleViewProperties.AddKeepsWithinCapacity | Pod/Classes/TFBubbleItUpView.swift:188-216 | an accepted add keeps `count <= n` |
| BubbleViewProperties.CaretKeepsWithinCapacity | Pod/Classes/TFBubbleItUpView.swift:297-317 | the caret policy keeps `count <= n` for every quantity but zero |
| BubbleViewProperties.CommitKeepsWithinCapacity | Pod/Classes/TFBubbleItUpView.swift:421-436 | a commit keeps `count <= n` |
| BubbleViewProperties.PastQuantityNeverRefuses | Pod/Classes/TFBubbleItUpView.swift:190 | once `count > n`, adds are never refused and the list stays past `n` |
| BubbleViewProperties.ZeroQuantityEscapedByTap | Pod/Classes/TFBubbleItUpView.swift:297-307 | with `quantity(0)` an add on [] is refused, but after a tap the list exceeds 0 and an add is accepted |
| BubbleViewProperties.AddKeepsNoAdjacentEditors | Pod/Classes/TFBubbleItUpView.swift:195-205 | an accepted add never creates two neighbouring empty items |
| BubbleViewProperties.CaretKeepsNoAdjacentEditors | Pod/Classes/TFBubbleItUpView.swift:298-307 | the caret policy never creates two neighbouring empty items |
| BubbleViewProperties.CommitKeepsNoAdjacentEditors | Pod/Classes/TFBubbleItUpView.swift:427-435 | a commit never creates two neighbouring empty items |
| BubbleViewProperties.CaretEndsAtFocusableItem | Pod/Classes/TFBubbleItUpView.swift:298 | after the caret policy the last item is empty, invalid or at capacity |
| BubbleViewProperties.ReplaceTargetIsLastIffUnique | Pod/Classes/TFBubbleItUpView.swift:162-167 | the last item is the one overwritten iff its text occurs nowhere earlier |
| BubbleViewProperties.ReplaceTargetOnDuplicate | Pod/Classes/TFBubbleItUpView.swift:164 | on `[bad, ok, bad]` position 0 is overwritten, not the last |
| BubbleCell.SettledMode | Pod/Classes/TFBubbleItUpViewCell.swift:145 | never edit; view iff `isValid(text)` |
| BubbleCell.ShouldChangeCharacters | Pod/Classes/TFBubbleItUpViewCell.swift:150-165 | commit iff space with `skipOnWhitespace` and valid text; delete-previous iff deletion on empty text; a space with `skipOnWhitespace` is never let through; otherwise allowed iff mode is edit; allowing fires no intent |
| BubbleCell.ShouldReturn | Pod/Classes/TFBubbleItUpViewCell.swift:167-182 | always false; commit iff `skipOnReturnKey` and valid text; resign iff not `skipOnReturnKey` |
| BubbleCell.Cell.constructor | Pod/Classes/TFBubbleItUpViewCell.swift:42-89 | a new cell has empty text, mode view but (because the text is empty) style edit, and is not first responder |
| BubbleCell.Cell.SetMode | Pod/Classes/TFBubbleItUpViewCell.swift:91-121 | stores the requested mode; the style is edit for empty text, the requested mode otherwise |
| BubbleCell.Cell.BecomeFirstResponder | Pod/Classes/TFBubbleItUpViewCell.swift:130-136 | returns true; the cell is first responder in edit mode |
| BubbleCell.Cell.ResignFirstResponder | Pod/Classes/TFBubbleItUpViewCell.swift:138-141 | returns true; the cell is no longer first responder, mode unchanged |
| BubbleCell.Cell.ConfigureWithItem | Pod/Classes/TFBubbleItUpViewCell.swift:143-146 | text becomes the item's; mode view iff `isValid`, else invalid |
| BubbleCell.Cell.EditingChanged | Pod/Classes/TFBubbleItUpViewCell.swift:186-189 | forwards the text (or "" for nil) to the controller's `didChangeText` |
| BubbleCell.Cell.EditingDidBegin | Pod/Classes/TFBubbleItUpViewCell.swift:191-193 | mode becomes edit |
| BubbleCell.Cell.EditingDidEnd | Pod/Classes/TFBubbleItUpViewCell.swift:195-200 | mode view iff `isValid(text)`, else invalid; then the text (or "" for nil) goes to the controller's `editingDidEnd` |
| BubbleCell.OnlyEditModeAcceptsTyping | Pod/Classes/TFBubbleItUpViewCell.swift:157-161 | a cell not in edit mode lets no keystroke through |
| BubbleCell.SpaceCommitsOrIsSwallowed | Pod/Classes/TFBubbleItUpViewCell.swift:152-156 | with `skipOnWhitespace` a space is never let through; it commits iff the text is valid |
| BubbleCell.DefaultConfigurationDecisions | Pod/Classes/TFBubbleItUpViewCell.swift:150-182 | with the default settings a space always commits and return always resigns |

## Left out

- `testEmailAddress`: a regular expression evaluated through `NSPredicate`, a foreign call whose `\w` depends on Unicode tables. Validators are arbitrary functions here, so the e-mail validator is one possible `Validator`.
- Layout and sizing (`sizeForItemAt`, `intrinsicContentSize`, `minimumHeight`, `needUpdateLayout`, the cell's `intrinsicContentSize`): floating-point geometry and UIKit text measurement.
- Animation and batching (`performBatchUpdates`, `CATransaction`, `UIView.animate`, completion blocks): list changes take effect at once and completions run at once. Where a completion depends on a cell being on screen (the overwrite branch of `addStringItem`, `replaceItemsTextAtPosition`), the cell is taken to be on screen.
- Cells off screen: `cellForItem(at:)` returning nil and `indexPath(for:)` returning nil are not modelled. Every intent takes the cell's index; `createAndSwitchToNewCell` treats an index outside the list as "no index path".
- Gesture handling (`gestureRecognizer(_:shouldReceive:)`, the tap recognizer): a tap on the empty area is a call to `SelectLastPossible`.
- Styling: colours, fonts, corner radii, keyboard settings. `setMode`'s styling is reduced to the `style` field.
- The placeholder label, `setPlaceholderText`, `customInit`, `prepareForInterfaceBuilder`, the cell's constraints, and the data-source callbacks `cellForItemAt`, `numberOfItemsInSection`, `numberOfSections`.
- The committing cell's own `setMode(.view)` inside `createAndSwitchToNewCell` is `Cell.SetMode`; the controller model does not hold cell objects.
- Cell decisions are functions that name the intent; carrying an intent out is the matching controller method (`CreateAndSwitchToNewCell`, `ShouldDeleteCellInFrontOfCell`) or `Cell.ResignFirstResponder`.
- The delegate is always present and implements the optional `bubbleItUpViewDidChange` (TFBubbleItUpView.swift:30), so every `DidChange` event is one the source would deliver; notifications are appended to `events`, not delivered to callbacks. The `print` on an out-of-bounds removal and the `assertionFailure` for a cell without index path are not modelled.
- `setStringItems` counts its items in a local variable it never reads; that counter is not modelled.
- BubbleView.FirstIndexWithText compares texts as sequences of code points (Dafny's `==` on strings), not by Swift's canonical equivalence of `String ==`: "\u00e9" and "e\u0301" are equal in Swift and different here. The same holds for BubbleView.WithoutFirst, BubbleView.ReplaceTarget, BubbleView.BubbleItUpView.RemoveStringItem and BubbleView.BubbleItUpView.ReplaceLastInvalidOrInsertItemText, which find their position through it; Unicode normalisation is outside the model.
- BubbleCell.Cell.ResignFirstResponder only clears the flag. In UIKit, resigning a focused text field fires its editing-did-end event, which the cell routes to `editingDidEnd` (TFBubbleItUpViewCell.swift:74-76, 195-200): the cell settles its mode and the controller reports `didFinishEditingBubble` or deletes an empty item. The model does not chain that follow-up; a caller runs `Cell.EditingDidEnd` itself.
- BubbleView.BubbleItUpView.AddStringItem, BubbleView.BubbleItUpView.ReplaceItemsTextAtPosition and BubbleView.BubbleItUpView.CreateAndSwitchToNewCell record `Resign` in `responderCalls` and leave `events` unchanged. The follow-up editing-did-end of the resigned cell (mode change, `didFinishEditingBubble`, or removal of an empty item with `didDeleteBubbles`) is not chained, so the return-key path to `didFinishEditingBubble` is the composition of these methods with `Cell.EditingDidEnd`, not one call. Likewise a `Become` call does not chain the cell's editing-did-begin.
