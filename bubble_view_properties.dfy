/**
 * Properties of the bubble list controller: what the projections mean, the
 * round trips between operations, and the invariants the insertion, caret
 * and commit policies keep.
 */
module BubbleViewProperties {
  import opened Wrappers
  import opened Validation
  import opened Configuration
  import opened BubbleView

  /** Reference definition: the non-empty strings of a list, in order. */
  function WithoutEmpty(texts: seq<string>): seq<string> {
    if texts == [] then []
    else (if texts[0] != "" then [texts[0]] else []) + WithoutEmpty(texts[1..])
  }

  /** Reference definition: the strings of a list that pass `isValid`, in order. */
  function KeepValid(texts: seq<string>, cfg: Config): seq<string> {
    if texts == [] then []
    else (if IsValid(Some(texts[0]), cfg.itemValidation) then [texts[0]] else []) + KeepValid(texts[1..], cfg)
  }

  /** `sub` is `full` with some elements dropped, order kept. */
  predicate IsSubsequence(sub: seq<string>, full: seq<string>)
    decreases |full|
  {
    sub == [] ||
    (full != [] &&
      ((sub[0] == full[0] && IsSubsequence(sub[1..], full[1..])) || IsSubsequence(sub, full[1..])))
  }

  /** The capacity bound: with `quantity(n)`, at most n items. */
  predicate WithinCapacity(items: seq<Item>, cfg: Config) {
    match cfg.numberOfItems
    case Unlimited => true
    case Quantity(n) => |items| <= n
  }

  /** No two neighbouring items are both empty. */
  predicate NoAdjacentEditors(items: seq<Item>) {
    forall k :: 0 <= k < |items| - 1 ==> items[k].text != "" || items[k + 1].text != ""
  }

  // ---------------------------------------------------------------- projections

  lemma {:induction false} StringItemsConcat(a: seq<Item>, b: seq<Item>)
    ensures StringItems(a + b) == StringItems(a) + StringItems(b)
  {
    if a != [] {
      assert (a + b)[0] == a[0];
      assert (a + b)[1..] == a[1..] + b;
      StringItemsConcat(a[1..], b);
    } else {
      assert a + b == b;
    }
  }

  /** `stringItems()` is the item texts with the empty strings removed. */
  lemma {:induction false} StringItemsAreNonEmptyTexts(items: seq<Item>)
    ensures StringItems(items) == WithoutEmpty(seq(|items|, k requires 0 <= k < |items| => items[k].text))
  {
    var texts := seq(|items|, k requires 0 <= k < |items| => items[k].text);
    if items != [] {
      StringItemsAreNonEmptyTexts(items[1..]);
      assert texts[1..] == seq(|items[1..]|, k requires 0 <= k < |items[1..]| => items[1..][k].text);
    }
  }

  /** A text occurs in `stringItems()` iff some item carries it and it is not empty. */
  lemma {:induction false} StringItemsMembers(items: seq<Item>, s: string)
    ensures s in StringItems(items) <==> s != "" && exists k :: 0 <= k < |items| && items[k].text == s
  {
    if items != [] {
      StringItemsMembers(items[1..], s);
      if exists k :: 0 <= k < |items[1..]| && items[1..][k].text == s {
        var k :| 0 <= k < |items[1..]| && items[1..][k].text == s;
        assert items[k + 1].text == s;
      }
      if exists k :: 0 <= k < |items| && items[k].text == s {
        var k :| 0 <= k < |items| && items[k].text == s;
        if k > 0 {
          assert items[1..][k - 1].text == s;
        }
      }
    }
  }

  /**
   * After `setStringItems(texts)` the projection is `texts` without its
   * empty strings, and exactly `texts` when none is empty.
   */
  lemma {:induction false} SetStringItemsRoundTrip(items: seq<Item>, texts: seq<string>)
    requires |items| == |texts|
    requires forall k :: 0 <= k < |texts| ==> items[k] == Item(texts[k], false)
    ensures StringItems(items) == WithoutEmpty(texts)
    ensures (forall k :: 0 <= k < |texts| ==> texts[k] != "") ==> StringItems(items) == texts
  {
    if texts != [] {
      SetStringItemsRoundTrip(items[1..], texts[1..]);
      if forall k :: 0 <= k < |texts| ==> texts[k] != "" {
        assert forall k :: 0 <= k < |texts[1..]| ==> texts[1..][k] == texts[k + 1];
        assert [texts[0]] + texts[1..] == texts;
      }
    }
  }

  /** `validStrings()` is `stringItems()` filtered by `isValid`. */
  lemma {:induction false} ValidStringsFilterStringItems(items: seq<Item>, cfg: Config)
    ensures ValidStrings(items, cfg) == KeepValid(StringItems(items), cfg)
  {
    if items != [] {
      ValidStringsFilterStringItems(items[1..], cfg);
      KeepValidConcat(if items[0].text != "" then [items[0].text] else [], StringItems(items[1..]), cfg);
    }
  }

  lemma {:induction false} KeepValidConcat(a: seq<string>, b: seq<string>, cfg: Config)
    ensures KeepValid(a + b, cfg) == KeepValid(a, cfg) + KeepValid(b, cfg)
  {
    if a != [] {
      assert (a + b)[0] == a[0];
      assert (a + b)[1..] == a[1..] + b;
      KeepValidConcat(a[1..], b, cfg);
    } else {
      assert a + b == b;
    }
  }

  lemma {:induction false} KeepValidIsSubsequence(texts: seq<string>, cfg: Config)
    ensures IsSubsequence(KeepValid(texts, cfg), texts)
  {
    if texts != [] {
      KeepValidIsSubsequence(texts[1..], cfg);
      var kept := KeepValid(texts, cfg);
      if IsValid(Some(texts[0]), cfg.itemValidation) {
        assert kept == [texts[0]] + KeepValid(texts[1..], cfg);
        assert kept[0] == texts[0] && kept[1..] == KeepValid(texts[1..], cfg);
        assert IsSubsequence(kept[1..], texts[1..]);
      } else {
        assert kept == KeepValid(texts[1..], cfg);
      }
    }
  }

  /** `validStrings()` is a subsequence of `stringItems()`. */
  lemma ValidStringsSubsequenceOfStringItems(items: seq<Item>, cfg: Config)
    ensures IsSubsequence(ValidStrings(items, cfg), StringItems(items))
  {
    ValidStringsFilterStringItems(items, cfg);
    KeepValidIsSubsequence(StringItems(items), cfg);
  }

  /** Without a validator, `validStrings()` and `stringItems()` agree. */
  lemma {:induction false} ValidStringsUnconfigured(items: seq<Item>, cfg: Config)
    requires cfg.itemValidation.None?
    ensures ValidStrings(items, cfg) == StringItems(items)
  {
    if items != [] {
      ValidStringsUnconfigured(items[1..], cfg);
    }
  }

  lemma {:induction false} KeepValidAllIff(texts: seq<string>, cfg: Config)
    ensures KeepValid(texts, cfg) == texts <==> forall k :: 0 <= k < |texts| ==> IsValid(Some(texts[k]), cfg.itemValidation)
    ensures |KeepValid(texts, cfg)| <= |texts|
  {
    if texts != [] {
      KeepValidAllIff(texts[1..], cfg);
      if forall k :: 0 <= k < |texts| ==> IsValid(Some(texts[k]), cfg.itemValidation) {
        assert forall k :: 0 <= k < |texts[1..]| ==> texts[1..][k] == texts[k + 1];
        assert [texts[0]] + texts[1..] == texts;
      }
      if KeepValid(texts, cfg) == texts {
        assert IsValid(Some(texts[0]), cfg.itemValidation);
        assert KeepValid(texts[1..], cfg) == texts[1..];
        forall k | 0 < k < |texts|
          ensures IsValid(Some(texts[k]), cfg.itemValidation)
        {
          assert texts[1..][k - 1] == texts[k];
        }
      }
    }
  }

  /**
   * `validStrings()` equals `stringItems()` exactly when every non-empty
   * item passes the validator.
   */
  lemma ValidStringsEqualIffAllValid(items: seq<Item>, cfg: Config)
    ensures ValidStrings(items, cfg) == StringItems(items)
        <==> forall k :: 0 <= k < |items| && items[k].text != "" ==> IsValid(Some(items[k].text), cfg.itemValidation)
  {
    var strings := StringItems(items);
    ValidStringsFilterStringItems(items, cfg);
    KeepValidAllIff(strings, cfg);
    if forall k :: 0 <= k < |items| && items[k].text != "" ==> IsValid(Some(items[k].text), cfg.itemValidation) {
      forall j | 0 <= j < |strings|
        ensures IsValid(Some(strings[j]), cfg.itemValidation)
      {
        StringItemsMembers(items, strings[j]);
      }
    }
    if ValidStrings(items, cfg) == strings {
      forall k | 0 <= k < |items| && items[k].text != ""
        ensures IsValid(Some(items[k].text), cfg.itemValidation)
      {
        StringItemsMembers(items, items[k].text);
      }
    }
  }

  // ---------------------------------------------------------------- removal

  /** Removing an item drops exactly its text (if non-empty) from `stringItems()`. */
  lemma StringItemsOfRemoveAt(items: seq<Item>, i: nat)
    requires i < |items|
    ensures StringItems(RemoveAt(items, i)) == StringItems(items[..i]) + StringItems(items[i + 1..])
    ensures StringItems(items) == StringItems(items[..i]) + StringItems(items[i..])
    ensures StringItems(items[i..]) == (if items[i].text != "" then [items[i].text] else []) + StringItems(items[i + 1..])
  {
    assert items == items[..i] + items[i..];
    StringItemsConcat(items[..i], items[i..]);
    StringItemsConcat(items[..i], items[i + 1..]);
    assert items[i..][0] == items[i] && items[i..][1..] == items[i + 1..];
  }

  /** Focus loss on an empty cell (`editingDidEnd` with "") leaves `stringItems()` as it was. */
  lemma FocusLossDeletionKeepsStrings(items: seq<Item>, i: nat)
    requires i < |items| && items[i].text == ""
    ensures StringItems(RemoveAt(items, i)) == StringItems(items)
  {
    StringItemsOfRemoveAt(items, i);
    assert StringItems(items[i..]) == StringItems(items[i + 1..]);
  }

  /**
   * Round trip: adding a text that no item carries and then removing it
   * restores `stringItems()`, whether the add was accepted or refused.
   */
  lemma AddThenRemoveRoundTrip(items: seq<Item>, text: string, cfg: Config)
    requires forall k :: 0 <= k < |items| ==> items[k].text != text
    ensures var after := if AddRefused(items, cfg) then items else WithItemAdded(items, text);
      StringItems(WithoutFirst(after, text)) == StringItems(items)
  {
    if !AddRefused(items, cfg) {
      var after := WithItemAdded(items, text);
      var n := |after| - 1;
      assert FirstIndexWithText(after, text) == Some(n) by {
        assert forall k :: 0 <= k < n ==> after[k] == items[k];
      }
      if EndsWithEditor(items) {
        assert RemoveAt(after, n) == items[..n];
        FocusLossDeletionKeepsStrings(items, n);
        assert RemoveAt(items, n) == items[..n];
      } else {
        assert RemoveAt(after, n) == items;
      }
    }
  }

  // ---------------------------------------------------------------- capacity

  /** An unlimited view never refuses an add. */
  lemma UnlimitedNeverRefuses(items: seq<Item>, cfg: Config)
    requires cfg.numberOfItems.Unlimited?
    ensures !AddRefused(items, cfg)
  {
  }

  /** An accepted add keeps the capacity bound. */
  lemma AddKeepsWithinCapacity(items: seq<Item>, text: string, cfg: Config)
    requires WithinCapacity(items, cfg) && !AddRefused(items, cfg)
    ensures WithinCapacity(WithItemAdded(items, text), cfg)
  {
  }

  /** The caret policy keeps the capacity bound for every quantity but zero. */
  lemma CaretKeepsWithinCapacity(items: seq<Item>, cfg: Config)
    requires WithinCapacity(items, cfg) && cfg.numberOfItems != Quantity(0)
    ensures WithinCapacity(WithCaret(items, cfg), cfg)
  {
  }

  /** A commit keeps the capacity bound. */
  lemma CommitKeepsWithinCapacity(items: seq<Item>, index: int, cfg: Config)
    requires WithinCapacity(items, cfg)
    ensures WithinCapacity(if CommitAppends(items, index, cfg) then items + [Item("", true)] else items, cfg)
  {
  }

  /**
   * The capacity test is `==`: once the list is longer than the quantity,
   * `addStringItem` never refuses again and every add lengthens or keeps
   * the list.
   */
  lemma PastQuantityNeverRefuses(items: seq<Item>, text: string, cfg: Config)
    requires cfg.numberOfItems.Quantity? && |items| > cfg.numberOfItems.n
    ensures !AddRefused(items, cfg)
    ensures |WithItemAdded(items, text)| > cfg.numberOfItems.n
  {
  }

  /**
   * With `quantity(0)` an add on the empty list is refused, but a tap
   * (`selectLastPossible`) appends an editor, after which the list exceeds
   * the quantity and adds are accepted.
   */
  lemma ZeroQuantityEscapedByTap(cfg: Config, text: string)
    requires cfg.numberOfItems == Quantity(0)
    ensures AddRefused([], cfg)
    ensures WithCaret([], cfg) == [Item("", true)]
    ensures !WithinCapacity(WithCaret([], cfg), cfg)
    ensures !AddRefused(WithCaret([], cfg), cfg)
    ensures WithItemAdded(WithCaret([], cfg), text) == [Item(text, true)]
  {
  }

  // ---------------------------------------------------------------- editors

  lemma AddKeepsNoAdjacentEditors(items: seq<Item>, text: string)
    requires NoAdjacentEditors(items)
    ensures NoAdjacentEditors(WithItemAdded(items, text))
  {
    var r := WithItemAdded(items, text);
    if EndsWithEditor(items) && |items| >= 2 {
      assert items[|items| - 2].text != "";
      assert r[|items| - 2] == items[|items| - 2];
    }
  }

  lemma CaretKeepsNoAdjacentEditors(items: seq<Item>, cfg: Config)
    requires NoAdjacentEditors(items)
    ensures NoAdjacentEditors(WithCaret(items, cfg))
  {
    var r := WithCaret(items, cfg);
    if !FocusesLast(items, cfg) && items != [] {
      assert r[|items| - 1] == Last(items);
    }
  }

  lemma CommitKeepsNoAdjacentEditors(items: seq<Item>, index: int, cfg: Config)
    requires NoAdjacentEditors(items)
    ensures NoAdjacentEditors(if CommitAppends(items, index, cfg) then items + [Item("", true)] else items)
  {
    if CommitAppends(items, index, cfg) {
      var r := items + [Item("", true)];
      assert r[|items| - 1] == Last(items);
    }
  }

  /**
   * After the caret policy the last item is an editor the user can type
   * into: an empty one, an invalid one, or the one at capacity.
   */
  lemma CaretEndsAtFocusableItem(items: seq<Item>, cfg: Config)
    ensures var r := WithCaret(items, cfg);
      Last(r).text == "" || !IsTextValid(Last(r).text, cfg) || AtCapacity(|r|, cfg)
  {
  }

  // ---------------------------------------------------------------- replace

  /**
   * `replaceLastInvalidOrInsertItemText` overwrites the last item only when
   * its text occurs nowhere earlier; if it does, an earlier item is
   * overwritten and the last keeps its rejected text.
   */
  lemma ReplaceTargetIsLastIffUnique(items: seq<Item>)
    requires items != []
    ensures ReplaceTarget(items) == |items| - 1
        <==> forall k :: 0 <= k < |items| - 1 ==> items[k].text != Last(items).text
  {
  }

  /** A concrete list where the duplicate earlier text is the one overwritten. */
  lemma ReplaceTargetOnDuplicate()
    ensures ReplaceTarget([Item("bad", false), Item("ok", false), Item("bad", false)]) == 0
  {
    var items := [Item("bad", false), Item("ok", false), Item("bad", false)];
    assert items[0].text == Last(items).text;
  }
}
