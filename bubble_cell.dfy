/**
 * One bubble (TFBubbleItUpViewCell.swift): a text field with a mode in
 * {edit, view, invalid}, the two keystroke decisions it makes, and the
 * notifications it forwards to the controller.
 */
module BubbleCell {
  import opened Wrappers
  import opened Validation
  import opened Configuration
  import BubbleView

  /** `TFBubbleItUpViewCellMode`; also used for the style a cell shows. */
  datatype Mode = Edit | View | Invalid

  /** The controller operation a keystroke or the return key asks for. */
  datatype Intent =
    | NoIntent
    | CreateAndSwitchToNewCell
    | ShouldDeleteCellInFrontOfCell
    | ResignFirstResponder

  /** A text-field delegate answer: whether UIKit may proceed, and the intent fired. */
  datatype Decision = Decision(allow: bool, intent: Intent)

  /** The mode a cell settles in after configuration or focus loss. */
  function SettledMode(text: Option<string>, cfg: Config): (m: Mode)
    ensures m != Edit
    ensures m == View <==> IsValid(text, cfg.itemValidation)
  {
    if IsValid(text, cfg.itemValidation) then View else Invalid
  }

  /**
   * `textField(_:shouldChangeCharactersIn:replacementString:)` for a cell
   * with the given text and mode.
   */
  function ShouldChangeCharacters(replacement: string, text: Option<string>, mode: Mode, cfg: Config): (d: Decision)
    ensures d.allow ==> d.intent == NoIntent && mode == Edit
    ensures d.intent == CreateAndSwitchToNewCell
        <==> replacement == " " && cfg.skipOnWhitespace && IsValid(text, cfg.itemValidation)
    ensures d.intent == ShouldDeleteCellInFrontOfCell
        <==> replacement == "" && text == Some("")
    ensures d.intent != ResignFirstResponder
    ensures replacement == " " && cfg.skipOnWhitespace ==> !d.allow
    ensures d.intent == NoIntent && !(replacement == " " && cfg.skipOnWhitespace) ==> d.allow == (mode == Edit)
  {
    if replacement == " " && cfg.skipOnWhitespace && IsValid(text, cfg.itemValidation) then
      Decision(false, CreateAndSwitchToNewCell)
    else if replacement == " " && cfg.skipOnWhitespace then
      Decision(false, NoIntent)
    else if replacement == "" && text == Some("") then
      Decision(false, ShouldDeleteCellInFrontOfCell)
    else
      Decision(mode == Edit, NoIntent)
  }

  /** `textFieldShouldReturn` for a cell with the given text. */
  function ShouldReturn(text: Option<string>, cfg: Config): (d: Decision)
    ensures !d.allow
    ensures d.intent == CreateAndSwitchToNewCell <==> cfg.skipOnReturnKey && IsValid(text, cfg.itemValidation)
    ensures d.intent == ResignFirstResponder <==> !cfg.skipOnReturnKey
    ensures d.intent != ShouldDeleteCellInFrontOfCell
  {
    if cfg.skipOnReturnKey then
      if !IsValid(text, cfg.itemValidation) then Decision(false, NoIntent)
      else Decision(false, CreateAndSwitchToNewCell)
    else
      Decision(false, ResignFirstResponder)
  }

  class Cell {
    /** The text field's text (UIKit's optional `String?`). */
    var text: Option<string>
    /** The mode last requested through `setMode`. */
    var mode: Mode
    /** The style the cell shows: edit for an empty text, the requested mode otherwise. */
    var style: Mode
    /** Whether the text field is first responder. */
    var firstResponder: bool

    /**
     * `init(frame:)` and `commonInit`: a fresh text field, whose text UIKit
     * starts as the empty string, then `setMode(.view)`, which therefore
     * shows the editing style.
     */
    constructor ()
      ensures text == Some("") && mode == View && style == Edit && !firstResponder
    {
      text := Some("");
      mode := View;
      style := View;
      firstResponder := false;
      new;
      SetMode(View);
    }

    /**
     * `setMode`: stores the requested mode, but a cell with empty text is
     * styled for editing whatever was requested.
     */
    method SetMode(m: Mode)
      modifies this
      ensures mode == m
      ensures style == if text == Some("") then Edit else m
      ensures text == old(text) && firstResponder == old(firstResponder)
    {
      var applied := m;
      if text == Some("") {
        applied := Edit;
      }
      style := applied;
      mode := m;
    }

    method BecomeFirstResponder() returns (ok: bool)
      modifies this
      ensures ok && firstResponder
      ensures mode == Edit && style == Edit
      ensures text == old(text)
    {
      firstResponder := true;
      SetMode(Edit);
      ok := true;
    }

    method ResignFirstResponder() returns (ok: bool)
      modifies this
      ensures ok && !firstResponder
      ensures text == old(text) && mode == old(mode) && style == old(style)
    {
      firstResponder := false;
      ok := true;
    }

    /** `configureWithItem`: show the item's text, classified as view or invalid. */
    method ConfigureWithItem(item: BubbleView.Item, cfg: Config)
      modifies this
      ensures text == Some(item.text)
      ensures mode == SettledMode(Some(item.text), cfg)
      ensures style == if item.text == "" then Edit else mode
      ensures firstResponder == old(firstResponder)
    {
      text := Some(item.text);
      SetMode(SettledMode(text, cfg));
    }

    /** `editingDidBegin`. */
    method EditingDidBegin()
      modifies this
      ensures mode == Edit && style == Edit
      ensures text == old(text) && firstResponder == old(firstResponder)
    {
      SetMode(Edit);
    }

    /** `editingChanged`: forwards the text (or "" when nil) to the controller as `didChangeText`. */
    method EditingChanged(view: BubbleView.BubbleItUpView, index: nat)
      modifies view
      ensures var t := text.GetOr("");
        && (index < |old(view.items)| ==>
              view.items == old(view.items)[index := old(view.items)[index].(text := t)]
              && view.events == old(view.events) + [BubbleView.DidChange(t, index)])
        && (index >= |old(view.items)| ==> view.items == old(view.items) && view.events == old(view.events))
      ensures view.responderCalls == old(view.responderCalls)
    {
      view.DidChangeText(index, text.GetOr(""));
    }

    /**
     * `editingDidEnd`: settle in view or invalid, then forward the text (or
     * "" when nil) to the controller's `editingDidEnd`.
     */
    method EditingDidEnd(view: BubbleView.BubbleItUpView, index: nat, cfg: Config)
      modifies this, view
      ensures mode == SettledMode(old(text), cfg)
      ensures style == if old(text) == Some("") then Edit else mode
      ensures text == old(text) && firstResponder == old(firstResponder)
      ensures var t := old(text).GetOr("");
        && (t == "" && index < |old(view.items)| ==>
              view.items == BubbleView.RemoveAt(old(view.items), index)
              && view.events == old(view.events) + [BubbleView.DidDeleteBubbles(t, index, -1)])
        && (t == "" && index >= |old(view.items)| ==> view.items == old(view.items) && view.events == old(view.events))
        && (t != "" ==> view.items == old(view.items) && view.events == old(view.events) + [BubbleView.DidFinishEditingBubble(t, index)])
      ensures view.responderCalls == old(view.responderCalls)
    {
      SetMode(SettledMode(text, cfg));
      view.EditingDidEnd(index, text.GetOr(""));
    }
  }

  /** Typing is only ever let through into a cell in edit mode. */
  lemma OnlyEditModeAcceptsTyping(replacement: string, text: Option<string>, mode: Mode, cfg: Config)
    requires mode != Edit
    ensures !ShouldChangeCharacters(replacement, text, mode, cfg).allow
  {
  }

  /** A space with `skipOnWhitespace` never reaches the text; it commits only valid text. */
  lemma SpaceCommitsOrIsSwallowed(text: Option<string>, mode: Mode, cfg: Config)
    requires cfg.skipOnWhitespace
    ensures var d := ShouldChangeCharacters(" ", text, mode, cfg);
      !d.allow && (d.intent == CreateAndSwitchToNewCell || d.intent == NoIntent)
      && (d.intent == NoIntent <==> !IsValid(text, cfg.itemValidation))
  {
  }

  /** With the default configuration (no validator) a space always commits and return always resigns. */
  lemma DefaultConfigurationDecisions(text: Option<string>, mode: Mode)
    ensures ShouldChangeCharacters(" ", text, mode, DefaultConfig()).intent == CreateAndSwitchToNewCell
    ensures ShouldReturn(text, DefaultConfig()).intent == ResignFirstResponder
  {
  }
}
