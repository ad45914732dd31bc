/**
 * The bubble list controller (TFBubbleItUpView.swift): an ordered list of
 * items, each a text plus a "become first responder" flag, and the
 * operations that insert, overwrite, remove and focus them.
 *
 * A cell intent names the cell by its index in the list; "the cell at
 * index i shows text t" is `items[i].text == t`, and every cell an
 * operation addresses is taken to be on screen.
 */
module BubbleView {
  import opened Wrappers
  import opened Validation
  import opened Configuration

  /** `TFBubbleItem`. */
  datatype Item = Item(text: string, becomeFirstResponder: bool)

  datatype DataSourceOperationError = OutOfBounds

  /** What a throwing operation did: it completed, or it threw before changing anything. */
  datatype Outcome = Done | Thrown(error: DataSourceOperationError)

  /** Notifications to the embedding application (`TFBubbleItUpViewDelegate`). */
  datatype Event =
    | DidFinishEditingBubble(text: string, index: int)
    | DidDeleteBubbles(text: string, actualIndex: int, otherIndex: int)
    | DidChange(text: string, index: int)

  /** A first-responder call the controller makes on the cell at an index. */
  datatype ResponderCall = Become(index: int) | Resign(index: int)

  function Last(items: seq<Item>): Item
    requires items != []
  {
    items[|items| - 1]
  }

  /** `needPreciseNumberOfItems()`: the configured quantity, or nil when unlimited. */
  function NeedPreciseNumberOfItems(cfg: Config): (r: Option<int>)
    ensures r.None? <==> cfg.numberOfItems.Unlimited?
    ensures r.Some? ==> cfg.numberOfItems == Quantity(r.value)
  {
    match cfg.numberOfItems
    case Unlimited => None
    case Quantity(value) => Some(value)
  }

  /**
   * Swift's `items.count == needPreciseNumberOfItems()`: an equality
   * between an Int and an optional Int, false when unlimited.
   */
  predicate AtCapacity(count: int, cfg: Config)
    ensures AtCapacity(count, cfg) <==> cfg.numberOfItems == Quantity(count)
  {
    NeedPreciseNumberOfItems(cfg) == Some(count)
  }

  /** `isTextValid(text)`: the configured validator, or true when there is none. */
  function IsTextValid(text: string, cfg: Config): (r: bool)
    ensures r == IsValid(Some(text), cfg.itemValidation)
  {
    match cfg.itemValidation
    case Some(validation) => validation(text)
    case None => true
  }

  /** `stringItems()`: the texts of the non-empty items, in order. */
  function StringItems(items: seq<Item>): (r: seq<string>)
    ensures |r| <= |items|
    ensures forall k :: 0 <= k < |r| ==> r[k] != ""
  {
    if items == [] then []
    else (if items[0].text != "" then [items[0].text] else []) + StringItems(items[1..])
  }

  /** `validStrings()`: the texts of the items that are non-empty and pass `isValid`, in order. */
  function ValidStrings(items: seq<Item>, cfg: Config): (r: seq<string>)
    ensures |r| <= |items|
    ensures forall k :: 0 <= k < |r| ==> r[k] != "" && IsValid(Some(r[k]), cfg.itemValidation)
  {
    if items == [] then []
    else
      (if items[0].text != "" && IsValid(Some(items[0].text), cfg.itemValidation) then [items[0].text] else [])
      + ValidStrings(items[1..], cfg)
  }

  /** Swift's `index(where: { $0.text == text })`: the first position holding `text`. */
  function FirstIndexWithText(items: seq<Item>, text: string): (r: Option<nat>)
    ensures r.Some? ==> r.value < |items| && items[r.value].text == text
    ensures r.Some? ==> forall k :: 0 <= k < r.value ==> items[k].text != text
    ensures r.None? <==> forall k :: 0 <= k < |items| ==> items[k].text != text
  {
    if items == [] then None
    else if items[0].text == text then Some(0)
    else match FirstIndexWithText(items[1..], text)
      case None => None
      case Some(k) => Some(k + 1)
  }

  /** Swift's `remove(at: i)`. */
  function RemoveAt(items: seq<Item>, i: nat): (r: seq<Item>)
    requires i < |items|
    ensures |r| == |items| - 1
    ensures forall k :: 0 <= k < i ==> r[k] == items[k]
    ensures forall k :: i <= k < |r| ==> r[k] == items[k + 1]
  {
    items[..i] + items[i + 1..]
  }

  /** The list after `removeStringItem(text)`: the first item with that text is gone. */
  function WithoutFirst(items: seq<Item>, text: string): (r: seq<Item>)
    ensures (forall k :: 0 <= k < |items| ==> items[k].text != text) ==> r == items
    ensures (exists k :: 0 <= k < |items| && items[k].text == text) ==> |r| == |items| - 1
  {
    match FirstIndexWithText(items, text)
    case None => items
    case Some(i) => RemoveAt(items, i)
  }

  /** The last item exists and holds an empty text: the trailing editor. */
  predicate EndsWithEditor(items: seq<Item>) {
    items != [] && Last(items).text == ""
  }

  /**
   * `addStringItem` refuses: the item count equals the configured quantity
   * and the last item is not an empty editor (an empty list has no last
   * text, and Swift's `nil != ""` holds).
   */
  predicate AddRefused(items: seq<Item>, cfg: Config)
    ensures AddRefused(items, cfg) <==>
      cfg.numberOfItems == Quantity(|items|) && (items == [] || items[|items| - 1].text != "")
  {
    AtCapacity(|items|, cfg) && !EndsWithEditor(items)
  }

  /**
   * The list after an accepted `addStringItem(text)`: the trailing editor
   * takes the text, or an unflagged item is appended.
   */
  function WithItemAdded(items: seq<Item>, text: string): (r: seq<Item>)
    ensures |r| == if EndsWithEditor(items) then |items| else |items| + 1
    ensures r != [] && Last(r).text == text
    ensures Last(r).becomeFirstResponder == (EndsWithEditor(items) && Last(items).becomeFirstResponder)
    ensures forall k :: 0 <= k < |items| - 1 ==> r[k] == items[k]
    ensures !EndsWithEditor(items) ==> r[..|items|] == items
  {
    if EndsWithEditor(items) then items[|items| - 1 := Last(items).(text := text)]
    else items + [Item(text, false)]
  }

  /** The first-responder calls of an accepted `addStringItem`: the overwritten editor resigns. */
  function AddCalls(items: seq<Item>): seq<ResponderCall> {
    if EndsWithEditor(items) then [Resign(|items| - 1)] else []
  }

  /**
   * `selectLastPossible` focuses the last cell rather than adding one: the
   * last item is empty, or invalid, or the list is at capacity.
   */
  predicate FocusesLast(items: seq<Item>, cfg: Config)
    ensures FocusesLast(items, cfg) ==> items != []
    ensures FocusesLast(items, cfg) <==>
      items != [] &&
      (items[|items| - 1].text == "" || !IsValid(Some(items[|items| - 1].text), cfg.itemValidation) ||
       cfg.numberOfItems == Quantity(|items|))
  {
    items != [] && (Last(items).text == "" || !IsTextValid(Last(items).text, cfg) || AtCapacity(|items|, cfg))
  }

  /**
   * The list after `selectLastPossible`: unchanged when it focuses the last
   * cell, otherwise with a new empty editor flagged to take focus.
   */
  function WithCaret(items: seq<Item>, cfg: Config): (r: seq<Item>)
    ensures r != []
    ensures FocusesLast(items, cfg) ==> r == items
    ensures !FocusesLast(items, cfg) ==> |r| == |items| + 1 && r[..|items|] == items && Last(r) == Item("", true)
  {
    if FocusesLast(items, cfg) then items else items + [Item("", true)]
  }

  function CaretCalls(items: seq<Item>, cfg: Config): seq<ResponderCall> {
    if FocusesLast(items, cfg) then [Become(|items| - 1)] else []
  }

  /**
   * `createAndSwitchToNewCell` from the cell at `index` appends a new
   * editor: the cell is non-empty, the list is not at capacity, and the
   * last item is not already an empty editor.
   */
  predicate CommitAppends(items: seq<Item>, index: int, cfg: Config)
    ensures CommitAppends(items, index, cfg) ==> 0 <= index < |items| && items[index].text != ""
    ensures CommitAppends(items, index, cfg) ==>
      cfg.numberOfItems != Quantity(|items|) && items != [] && items[|items| - 1].text != ""
  {
    0 <= index < |items| && items[index].text != "" && !AtCapacity(|items|, cfg) && !EndsWithEditor(items)
  }

  /** `replaceLastInvalidOrInsertItemText` overwrites: a validator is set and rejects the last text. */
  predicate LastIsInvalid(items: seq<Item>, cfg: Config)
    ensures LastIsInvalid(items, cfg) <==>
      items != [] && !IsValid(Some(items[|items| - 1].text), cfg.itemValidation)
  {
    cfg.itemValidation.Some? && items != [] && !cfg.itemValidation.value(Last(items).text)
  }

  /**
   * The position `replaceLastInvalidOrInsertItemText` overwrites: the
   * first item whose text equals the last item's text.
   */
  function ReplaceTarget(items: seq<Item>): (p: nat)
    requires items != []
    ensures p < |items| && items[p].text == Last(items).text
    ensures forall k :: 0 <= k < p ==> items[k].text != Last(items).text
  {
    FirstIndexWithText(items, Last(items).text).value
  }

  class BubbleItUpView {
    /** The bubbles, in display order. */
    var items: seq<Item>
    /** Notifications sent to the delegate, oldest first. */
    var events: seq<Event>
    /** First-responder calls made on cells, oldest first. */
    var responderCalls: seq<ResponderCall>

    constructor ()
      ensures items == [] && events == [] && responderCalls == []
    {
      items := [];
      events := [];
      responderCalls := [];
    }

    /** `setItems`: replaces the whole list. */
    method SetItems(newItems: seq<Item>)
      modifies this
      ensures items == newItems
      ensures events == old(events) && responderCalls == old(responderCalls)
    {
      items := newItems;
    }

    /** `setStringItems`: one unflagged item per text, in order. */
    method SetStringItems(texts: seq<string>)
      modifies this
      ensures |items| == |texts|
      ensures forall k :: 0 <= k < |texts| ==> items[k] == Item(texts[k], false)
      ensures events == old(events) && responderCalls == old(responderCalls)
    {
      var bubbleItems: seq<Item> := [];
      for k := 0 to |texts|
        invariant |bubbleItems| == k
        invariant forall j :: 0 <= j < k ==> bubbleItems[j] == Item(texts[j], false)
      {
        bubbleItems := bubbleItems + [Item(texts[k], false)];
      }
      SetItems(bubbleItems);
    }

    /**
     * `replaceItemsTextAtPosition`: throws `outOfBounds` outside
     * [0, count); otherwise only that item's text changes, and the cell
     * resigns when asked to.
     */
    method ReplaceItemsTextAtPosition(position: int, text: string, resign: bool) returns (r: Outcome)
      modifies this
      ensures r.Thrown? <==> position < 0 || position >= |old(items)|
      ensures r.Thrown? ==> items == old(items) && responderCalls == old(responderCalls)
      ensures r.Done? ==> items == old(items)[position := old(items)[position].(text := text)]
      ensures r.Done? ==> responderCalls == old(responderCalls) + (if resign then [Resign(position)] else [])
      ensures events == old(events)
    {
      if position < 0 || position >= |items| {
        return Thrown(OutOfBounds);
      }
      items := items[position := items[position].(text := text)];
      if resign {
        responderCalls := responderCalls + [Resign(position)];
      }
      r := Done;
    }

    /**
     * `replaceLastInvalidOrInsertItemText`: when a validator rejects the
     * last text, the first item carrying that text is overwritten (and its
     * cell resigns); otherwise the text goes through `addStringItem`. With
     * `switchToNext`, `selectLastPossible` follows, except after a refused add
     * (whose completion never runs).
     */
    method ReplaceLastInvalidOrInsertItemText(text: string, switchToNext: bool, cfg: Config)
      modifies this
      ensures LastIsInvalid(old(items), cfg) ==>
        var p := ReplaceTarget(old(items));
        var replaced := old(items)[p := old(items)[p].(text := text)];
        && items == (if switchToNext then WithCaret(replaced, cfg) else replaced)
        && responderCalls == old(responderCalls) + [Resign(p)] + (if switchToNext then CaretCalls(replaced, cfg) else [])
      ensures !LastIsInvalid(old(items), cfg) && AddRefused(old(items), cfg) ==>
        items == old(items) && responderCalls == old(responderCalls)
      ensures !LastIsInvalid(old(items), cfg) && !AddRefused(old(items), cfg) ==>
        var added := WithItemAdded(old(items), text);
        && items == (if switchToNext then WithCaret(added, cfg) else added)
        && responderCalls == old(responderCalls) + AddCalls(old(items)) + (if switchToNext then CaretCalls(added, cfg) else [])
      ensures events == old(events)
    {
      if cfg.itemValidation.Some? && items != [] && !cfg.itemValidation.value(Last(items).text) {
        var position := FirstIndexWithText(items, Last(items).text);
        var r := ReplaceItemsTextAtPosition(position.value, text, true);
        if switchToNext {
          SelectLastPossible(cfg);
        }
      } else {
        var added := AddStringItem(text, cfg);
        if added && switchToNext {
          SelectLastPossible(cfg);
        }
      }
    }

    /**
     * `addStringItem`: refuses only at capacity without a trailing editor;
     * otherwise the trailing editor takes the text (and resigns) or a new
     * item is appended.
     */
    method AddStringItem(text: string, cfg: Config) returns (added: bool)
      modifies this
      ensures added == !AddRefused(old(items), cfg)
      ensures items == if added then WithItemAdded(old(items), text) else old(items)
      ensures responderCalls == old(responderCalls) + (if added then AddCalls(old(items)) else [])
      ensures events == old(events)
    {
      if AtCapacity(|items|, cfg) && (items == [] || Last(items).text != "") {
        return false;
      }
      if items != [] && Last(items).text == "" {
        items := items[|items| - 1 := Last(items).(text := text)];
        responderCalls := responderCalls + [Resign(|items| - 1)];
      } else {
        items := items + [Item(text, false)];
      }
      added := true;
    }

    /** `removeStringItem`: removes the first item with that text, if any. */
    method RemoveStringItem(text: string) returns (removed: bool)
      modifies this
      ensures removed <==> exists k :: 0 <= k < |old(items)| && old(items)[k].text == text
      ensures items == WithoutFirst(old(items), text)
      ensures events == old(events) && responderCalls == old(responderCalls)
    {
      var index := FirstIndexWithText(items, text);
      if index.None? {
        return false;
      }
      items := RemoveAt(items, index.value);
      removed := true;
    }

    /** `becomeFirstResponder` of the whole view: selects the last possible cell. */
    method BecomeFirstResponder(cfg: Config) returns (ok: bool)
      modifies this
      ensures ok
      ensures items == WithCaret(old(items), cfg)
      ensures responderCalls == old(responderCalls) + CaretCalls(old(items), cfg)
      ensures events == old(events)
    {
      SelectLastPossible(cfg);
      ok := true;
    }

    /**
     * `selectLastPossible`, the virtual caret (also what a tap on the empty
     * area does): focus the last cell when it is empty, invalid or the list
     * is full; otherwise append an empty editor flagged to take focus.
     */
    method SelectLastPossible(cfg: Config)
      modifies this
      ensures items == WithCaret(old(items), cfg)
      ensures responderCalls == old(responderCalls) + CaretCalls(old(items), cfg)
      ensures events == old(events)
    {
      if items != [] && (Last(items).text == "" || !IsTextValid(Last(items).text, cfg) || AtCapacity(|items|, cfg)) {
        responderCalls := responderCalls + [Become(|items| - 1)];
      } else {
        items := items + [Item("", true)];
      }
    }

    /**
     * `willDisplay`: a flagged item's cell becomes first responder. The flag
     * is cleared on a copy of the item, so the list keeps it set.
     */
    method WillDisplay(index: nat)
      requires index < |items|
      modifies this
      ensures items == old(items)
      ensures responderCalls == old(responderCalls) + (if items[index].becomeFirstResponder then [Become(index)] else [])
      ensures events == old(events)
    {
      var item := items[index];
      if item.becomeFirstResponder {
        responderCalls := responderCalls + [Become(index)];
        item := item.(becomeFirstResponder := false);
      }
    }

    /** `didChangeText` from the cell at `index`: the item takes the typed text and the delegate hears of it. */
    method DidChangeText(index: nat, text: string)
      modifies this
      ensures index < |old(items)| ==>
        items == old(items)[index := old(items)[index].(text := text)] && events == old(events) + [DidChange(text, index)]
      ensures index >= |old(items)| ==> items == old(items) && events == old(events)
      ensures responderCalls == old(responderCalls)
    {
      if index < |items| {
        items := items[index := items[index].(text := text)];
      } else {
        return;
      }
      events := events + [DidChange(text, index)];
    }

    /**
     * `createAndSwitchToNewCell` from the cell at `index` (commit): nothing
     * for an empty cell; at capacity the cell resigns; otherwise an empty
     * last editor takes focus, or a new flagged editor is appended.
     */
    method CreateAndSwitchToNewCell(index: int, cfg: Config)
      modifies this
      ensures items == if CommitAppends(old(items), index, cfg) then old(items) + [Item("", true)] else old(items)
      ensures !(0 <= index < |old(items)|) || old(items)[index].text == "" ==>
        responderCalls == old(responderCalls)
      ensures 0 <= index < |old(items)| && old(items)[index].text != "" && AtCapacity(|old(items)|, cfg) ==>
        responderCalls == old(responderCalls) + [Resign(index)]
      ensures 0 <= index < |old(items)| && old(items)[index].text != "" && !AtCapacity(|old(items)|, cfg) ==>
        responderCalls == old(responderCalls) + (if EndsWithEditor(old(items)) then [Become(|old(items)| - 1)] else [])
      ensures events == old(events)
    {
      if !(0 <= index < |items|) {
        return;
      }
      if items[index].text == "" {
        return;
      }
      if AtCapacity(|items|, cfg) {
        responderCalls := responderCalls + [Resign(index)];
        return;
      }
      var newIndex := |items| - 1;
      if items[newIndex].text == "" {
        responderCalls := responderCalls + [Become(newIndex)];
      } else {
        items := items + [Item("", true)];
      }
    }

    /**
     * `editingDidEnd` from the cell at `index` with its final text: an empty
     * text deletes the item (when in range), a non-empty one is reported
     * as finished.
     */
    method EditingDidEnd(index: nat, text: string)
      modifies this
      ensures text == "" && index < |old(items)| ==>
        items == RemoveAt(old(items), index) && events == old(events) + [DidDeleteBubbles(text, index, -1)]
      ensures text == "" && index >= |old(items)| ==> items == old(items) && events == old(events)
      ensures text != "" ==> items == old(items) && events == old(events) + [DidFinishEditingBubble(text, index)]
      ensures responderCalls == old(responderCalls)
    {
      if text == "" {
        if index >= |items| {
          return;
        }
        items := RemoveAt(items, index);
        events := events + [DidDeleteBubbles(text, index, -1)];
      } else {
        events := events + [DidFinishEditingBubble(text, index)];
      }
    }

    /**
     * `shouldDeleteCellInFrontOfCell` (backspace on an empty cell at
     * `index`): removes the item before it, unless it is the first.
     */
    method ShouldDeleteCellInFrontOfCell(index: nat)
      modifies this
      ensures index == 0 || index > |old(items)| ==> items == old(items) && events == old(events)
      ensures 0 < index <= |old(items)| ==>
        items == RemoveAt(old(items), index - 1) && events == old(events) + [DidDeleteBubbles("", index, index - 1)]
      ensures responderCalls == old(responderCalls)
    {
      if index == 0 {
        return;
      }
      var previousItemIndex := index - 1;
      var r := RemoveItemAtIndex(previousItemIndex);
      if r.Done? {
        events := events + [DidDeleteBubbles("", index, previousItemIndex)];
      }
    }

    /** `removeItemAtIndex`: throws `outOfBounds` outside [0, count), otherwise removes that item. */
    method RemoveItemAtIndex(index: int) returns (r: Outcome)
      modifies this
      ensures r.Thrown? <==> index < 0 || index >= |old(items)|
      ensures r.Thrown? ==> items == old(items)
      ensures r.Done? ==> items == RemoveAt(old(items), index)
      ensures events == old(events) && responderCalls == old(responderCalls)
    {
      if |items| <= index || index < 0 {
        return Thrown(OutOfBounds);
      }
      items := RemoveAt(items, index);
      r := Done;
    }
  }
}
