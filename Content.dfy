/**
 * The content script's event handling: the Shift-drag selection, the
 * single overlay (loading or loaded), its remembered position, its
 * outside-click dismissal and its right-button drag.
 *
 * The DOM is abstracted: the overlay is a node identity with a mode and a
 * position; event listeners are identities in a registration list; what the
 * page computes (the text and rectangle of a range, `caretRangeFromPoint`,
 * viewport and scroll) is supplied with each event as a `Page`.
 */
module Content {
  import opened Wrappers
  import opened Text
  import opened Messages
  import Formatter

  datatype Pos = Pos(top: int, left: int)
  datatype Rect = Rect(top: int, left: int, bottom: int, right: int)

  /** A point in the document: a container node and an offset in it (a collapsed range). */
  datatype Caret = Caret(container: nat, offset: nat)

  /** A range of the document from `start` to `end`. */
  datatype Range = Range(start: Caret, end: Caret)

  datatype Mode = Loading | Loaded(html: string)

  /** An element with the overlay's id: its identity, its mode (class) and its `style.top`/`style.left`. */
  datatype Overlay = Overlay(node: nat, mode: Mode, pos: Pos)

  /** An active right-button drag of the overlay element `node`, with the pointer's offset from its corner. */
  datatype Drag = Drag(node: nat, offsetX: int, offsetY: int)

  /**
   * What the page answers when asked: viewport size and scroll, the text and
   * bounding rectangle of a range, and `caretRangeFromPoint` (which may give
   * nothing, or be missing altogether).
   */
  datatype Page = Page(
    innerWidth: nat, innerHeight: nat, scrollX: int, scrollY: int,
    textOf: Range -> string, rectOf: Range -> Rect, caretAt: (int, int) -> Option<Caret>)

  /** The position just below a rectangle, in document coordinates. */
  function Below(rect: Rect, page: Page): Pos {
    Pos(rect.bottom + page.scrollY + 8, rect.left + page.scrollX)
  }

  /**
   * Where a new overlay goes: the remembered position if there is one, else
   * below the current selection, else the middle of the viewport.
   */
  function Placement(last: Option<Pos>, selection: Option<Range>, page: Page): (p: Pos)
    ensures last.Some? ==> p == last.value
    ensures last.None? && selection.Some? ==> p == Below(page.rectOf(selection.value), page)
    ensures last.None? && selection.None? ==> p == Pos(page.innerHeight / 2, page.innerWidth / 2)
  {
    if last.Some? then last.value
    else if selection.Some? then Below(page.rectOf(selection.value), page)
    else Pos(page.innerHeight / 2, page.innerWidth / 2)
  }

  /** `removeEventListener`: drops every registration of `h`. */
  function Unregister(listeners: seq<nat>, h: nat): (r: seq<nat>)
    ensures h !in r
    ensures forall x :: x in r <==> x in listeners && x != h
  {
    if listeners == [] then []
    else (if listeners[0] == h then [] else [listeners[0]]) + Unregister(listeners[1..], h)
  }

  /** `window.getSelection().toString()`: the selected text, or "" without a selection. */
  function SelectionString(selection: Option<Range>, page: Page): string {
    if selection.Some? then page.textOf(selection.value) else ""
  }

  /** Without a selection there is no text to translate. */
  lemma NoSelectionNoText(selection: Option<Range>, page: Page)
    ensures selection.None? ==> Trim(SelectionString(selection, page)) == []
  {
  }

  /** Sets the style position of element `node`, which shows only if the element is still in the document. */
  function MoveNode(overlays: seq<Overlay>, node: nat, pos: Pos): (r: seq<Overlay>)
    ensures |r| == |overlays|
    ensures forall i :: 0 <= i < |r| ==>
      r[i] == if overlays[i].node == node then overlays[i].(pos := pos) else overlays[i]
  {
    if overlays == [] then []
    else [if overlays[0].node == node then overlays[0].(pos := pos) else overlays[0]] + MoveNode(overlays[1..], node, pos)
  }

  /** The listener list a registered (or absent) outside-click handler accounts for. */
  function HandlerList(handler: Option<nat>): seq<nat> {
    if handler.Some? then [handler.value] else []
  }

  class ContentScript {
    /** `selectingShift`, `anchorNode`/`anchorOffset` */
    var selectingShift: bool
    var anchor: Option<Caret>
    /** The page's native selection (`window.getSelection()` with a range, or none). */
    var selection: Option<Range>
    /** The elements carrying the overlay id, in document order. */
    var overlays: seq<Overlay>
    /** `lastPopupPos` */
    var lastPopupPos: Option<Pos>
    /** `outsideHandler`, and the capture-phase `mousedown` listeners registered on the document. */
    var outsideHandler: Option<nat>
    var mousedownListeners: seq<nat>
    /** The drag in progress, if the right button went down on a loaded overlay. */
    var drag: Option<Drag>
    /** The messages sent with `chrome.runtime.sendMessage`, oldest first. */
    var sent: seq<RuntimeMessage>
    /** Source of fresh identities for elements and handler closures. */
    var nextId: nat

    /**
     * At most one overlay exists, at most one outside-click handler is
     * registered and it is the one `outsideHandler` names, a shown overlay
     * has its handler, a position is remembered whenever an overlay is
     * shown, and identities in use are below `nextId`.
     */
    ghost predicate Valid()
      reads this
    {
      && |overlays| <= 1
      && mousedownListeners == HandlerList(outsideHandler)
      && (overlays != [] ==> outsideHandler.Some?)
      && (overlays != [] ==> lastPopupPos.Some?)
      && (overlays != [] ==> overlays[0].node < nextId)
      && (outsideHandler.Some? ==> outsideHandler.value < nextId)
      && (drag.Some? ==> drag.value.node < nextId)
    }

    constructor ()
      ensures Valid()
      ensures !selectingShift && anchor == None && selection == None
      ensures overlays == [] && lastPopupPos == None && outsideHandler == None && drag == None && sent == []
    {
      selectingShift, anchor, selection := false, None, None;
      overlays, lastPopupPos := [], None;
      outsideHandler, mousedownListeners := None, [];
      drag, sent, nextId := None, [], 0;
    }

    /**
     * `attachOutsideClick`: unregisters the previous handler, if any, then
     * registers a fresh one and remembers it.
     */
    method AttachOutsideClick()
      modifies this
      ensures outsideHandler == Some(old(nextId)) && nextId == old(nextId) + 1
      ensures mousedownListeners ==
        (if old(outsideHandler).Some? then Unregister(old(mousedownListeners), old(outsideHandler).value)
         else old(mousedownListeners)) + [old(nextId)]
      ensures selectingShift == old(selectingShift) && anchor == old(anchor) && selection == old(selection)
      ensures overlays == old(overlays) && lastPopupPos == old(lastPopupPos) && drag == old(drag) && sent == old(sent)
    {
      if outsideHandler.Some? {
        mousedownListeners := Unregister(mousedownListeners, outsideHandler.value);
      }
      var h := nextId;
      nextId := nextId + 1;
      outsideHandler := Some(h);
      mousedownListeners := mousedownListeners + [h];
    }

    /** Removes the overlay element, if any, and appends `mode` at the placement; then attaches the outside-click handler. */
    method Show(mode: Mode, page: Page)
      requires Valid()
      modifies this
      ensures Valid()
      ensures var pos := Placement(old(lastPopupPos), old(selection), page);
        overlays == [Overlay(old(nextId), mode, pos)] && lastPopupPos == Some(pos)
      ensures outsideHandler == Some(old(nextId) + 1) && outsideHandler.value !in old(mousedownListeners)
      ensures mousedownListeners == [outsideHandler.value] && nextId == old(nextId) + 2
      ensures selectingShift == old(selectingShift) && anchor == old(anchor) && selection == old(selection)
      ensures drag == old(drag) && sent == old(sent)
    {
      if overlays != [] {
        overlays := overlays[1..];
      }
      var pos := Placement(lastPopupPos, selection, page);
      var node := nextId;
      nextId := nextId + 1;
      overlays := overlays + [Overlay(node, mode, pos)];
      lastPopupPos := Some(pos);
      if outsideHandler.Some? {
        assert Unregister(mousedownListeners, outsideHandler.value) == [];
      }
      AttachOutsideClick();
    }

    /** `showLoadingOverlay` */
    method ShowLoadingOverlay(page: Page)
      requires Valid()
      modifies this
      ensures Valid()
      ensures var pos := Placement(old(lastPopupPos), old(selection), page);
        overlays == [Overlay(old(nextId), Loading, pos)] && lastPopupPos == Some(pos)
      ensures outsideHandler == Some(old(nextId) + 1)
      ensures mousedownListeners == [outsideHandler.value] && nextId == old(nextId) + 2
      ensures selectingShift == old(selectingShift) && anchor == old(anchor) && selection == old(selection)
      ensures drag == old(drag) && sent == old(sent)
    {
      Show(Loading, page);
    }

    /** `showOverlay(content)`: the loaded overlay holds `buildHtml(content)` and can be dragged. */
    method ShowOverlay(content: string, page: Page)
      requires Valid()
      modifies this
      ensures Valid()
      ensures var pos := Placement(old(lastPopupPos), old(selection), page);
        overlays == [Overlay(old(nextId), Loaded(Formatter.Formatted(content)), pos)] && lastPopupPos == Some(pos)
      ensures outsideHandler == Some(old(nextId) + 1)
      ensures mousedownListeners == [outsideHandler.value] && nextId == old(nextId) + 2
      ensures selectingShift == old(selectingShift) && anchor == old(anchor) && selection == old(selection)
      ensures drag == old(drag) && sent == old(sent)
    {
      var html := Formatter.BuildHtml(content);
      Show(Loaded(html), page);
    }

    /** `handleTranslateRequest`: shows the spinner, then sends the selection's text untrimmed, or "" without a selection. */
    method HandleTranslateRequest(page: Page)
      requires Valid()
      modifies this
      ensures Valid()
      ensures var pos := Placement(old(lastPopupPos), old(selection), page);
        overlays == [Overlay(old(nextId), Loading, pos)] && lastPopupPos == Some(pos)
      ensures sent == old(sent) + [SelectedText(SelectionString(old(selection), page))]
      ensures outsideHandler == Some(old(nextId) + 1) && mousedownListeners == [outsideHandler.value]
      ensures selectingShift == old(selectingShift) && anchor == old(anchor) && selection == old(selection)
      ensures drag == old(drag) && nextId == old(nextId) + 2
    {
      ShowLoadingOverlay(page);
      if selection.None? {
        sent := sent + [SelectedText("")];
        return;
      }
      var text := page.textOf(selection.value);
      sent := sent + [SelectedText(text)];
    }

    /** The content script's `runtime.onMessage` listener. */
    method OnMessage(message: TabMessage, page: Page)
      requires Valid()
      modifies this
      ensures Valid()
      ensures message.Translate? ==>
        sent == old(sent) + [SelectedText(SelectionString(old(selection), page))]
      ensures message.DisplayTranslation? ==> sent == old(sent)
      ensures var pos := Placement(old(lastPopupPos), old(selection), page);
        var mode := if message.Translate? then Loading else Loaded(Formatter.Formatted(message.translation));
        overlays == [Overlay(old(nextId), mode, pos)] && lastPopupPos == Some(pos)
      ensures outsideHandler == Some(old(nextId) + 1) && mousedownListeners == [outsideHandler.value]
      ensures selectingShift == old(selectingShift) && anchor == old(anchor) && selection == old(selection)
      ensures drag == old(drag) && nextId == old(nextId) + 2
    {
      match message
      case Translate => HandleTranslateRequest(page);
      case DisplayTranslation(t) => ShowOverlay(t, page);
    }

    /** Shift key-down: starts tracking when idle, forgetting the anchor and the native selection. */
    method KeyDown(key: string)
      requires Valid()
      modifies this
      ensures Valid()
      ensures if key == "Shift" && !old(selectingShift)
        then selectingShift && anchor == None && selection == None
        else selectingShift == old(selectingShift) && anchor == old(anchor) && selection == old(selection)
      ensures overlays == old(overlays) && lastPopupPos == old(lastPopupPos) && drag == old(drag)
      ensures outsideHandler == old(outsideHandler) && mousedownListeners == old(mousedownListeners)
      ensures sent == old(sent) && nextId == old(nextId)
    {
      if key == "Shift" && !selectingShift {
        selectingShift := true;
        anchor := None;
        selection := None;
      }
    }

    /**
     * The two `mousemove` listeners. While tracking, the caret under the
     * pointer (if any) extends the selection from the anchor, which the first
     * caret fixes. While dragging, the dragged element and the remembered
     * position follow the pointer, keeping the offset taken at mouse-down.
     */
    method MouseMove(clientX: int, clientY: int, page: Page)
      requires Valid()
      modifies this
      ensures Valid()
      ensures var caret := page.caretAt(clientX, clientY);
        if old(selectingShift) && caret.Some? then
          && anchor == (if old(anchor).Some? then old(anchor) else caret)
          && selection == Some(Range(anchor.value, caret.value))
        else anchor == old(anchor) && selection == old(selection)
      ensures old(anchor).Some? ==> anchor == old(anchor)
      ensures old(drag).Some? ==>
        var p := Pos(clientY - old(drag).value.offsetY, clientX - old(drag).value.offsetX);
        lastPopupPos == Some(p) && overlays == MoveNode(old(overlays), old(drag).value.node, p)
      ensures old(drag).None? ==> lastPopupPos == old(lastPopupPos) && overlays == old(overlays)
      ensures selectingShift == old(selectingShift) && drag == old(drag)
      ensures outsideHandler == old(outsideHandler) && mousedownListeners == old(mousedownListeners)
      ensures sent == old(sent) && nextId == old(nextId)
    {
      if selectingShift {
        var caret := page.caretAt(clientX, clientY);
        if caret.Some? {
          if anchor.None? {
            anchor := caret;
          }
          selection := Some(Range(anchor.value, caret.value));
        }
      }
      if drag.Some? {
        var newLeft := clientX - drag.value.offsetX;
        var newTop := clientY - drag.value.offsetY;
        overlays := MoveNode(overlays, drag.value.node, Pos(newTop, newLeft));
        lastPopupPos := Some(Pos(newTop, newLeft));
      }
    }

    /**
     * Shift key-up: stops tracking; when the selection's trimmed text is not
     * empty, places the spinner below the selection and sends the text; the
     * native selection is cleared in every case.
     */
    method KeyUp(key: string, page: Page)
      requires Valid()
      modifies this
      ensures Valid()
      ensures selection == (if key == "Shift" && old(selectingShift) then None else old(selection))
      ensures selectingShift == (if key == "Shift" then false else old(selectingShift))
      ensures var text := Trim(SelectionString(old(selection), page));
        if key == "Shift" && old(selectingShift) && text != [] then
          && sent == old(sent) + [SelectedText(text)]
          && var pos := Below(page.rectOf(old(selection).value), page);
             && overlays == [Overlay(old(nextId), Loading, pos)] && lastPopupPos == Some(pos)
             && outsideHandler == Some(old(nextId) + 1) && mousedownListeners == [outsideHandler.value]
             && nextId == old(nextId) + 2
        else
          && sent == old(sent) && overlays == old(overlays) && lastPopupPos == old(lastPopupPos)
          && outsideHandler == old(outsideHandler) && mousedownListeners == old(mousedownListeners)
          && nextId == old(nextId)
      ensures drag == old(drag) && anchor == old(anchor)
    {
      if key == "Shift" && selectingShift {
        selectingShift := false;
        NoSelectionNoText(selection, page);
        ReleaseSelection(Trim(SelectionString(selection, page)), page);
      }
    }

    /**
     * The part of the Shift key-up that follows the end of tracking, given
     * the selection's trimmed text: a non-empty text places the spinner below
     * the selection and is sent; the selection is cleared in every case.
     */
    method ReleaseSelection(text: string, page: Page)
      requires Valid()
      requires selection.None? ==> text == []
      modifies this
      ensures Valid()
      ensures selection == None && selectingShift == old(selectingShift)
      ensures if text != [] then
          && sent == old(sent) + [SelectedText(text)]
          && var pos := Below(page.rectOf(old(selection).value), page);
             && overlays == [Overlay(old(nextId), Loading, pos)] && lastPopupPos == Some(pos)
             && outsideHandler == Some(old(nextId) + 1) && mousedownListeners == [outsideHandler.value]
             && nextId == old(nextId) + 2
        else
          && sent == old(sent) && overlays == old(overlays) && lastPopupPos == old(lastPopupPos)
          && outsideHandler == old(outsideHandler) && mousedownListeners == old(mousedownListeners)
          && nextId == old(nextId)
      ensures drag == old(drag) && anchor == old(anchor)
    {
      var rect := if selection.Some? then Some(page.rectOf(selection.value)) else None;
      if text != [] {
        if rect.Some? {
          lastPopupPos := Some(Below(rect.value, page));
        }
        ShowLoadingOverlay(page);
        sent := sent + [SelectedText(text)];
      }
      selection := None;
    }

    /**
     * A `mousedown`. First the outside-click handler (capture phase): with no
     * overlay left it only unregisters itself; a press outside the overlay
     * removes it and unregisters the handler; a press inside changes nothing.
     * Then, on a loaded overlay, a right-button press starts a drag.
     */
    method MouseDown(button: int, onOverlay: bool, clientX: int, clientY: int)
      requires Valid()
      modifies this
      ensures Valid()
      ensures var inside := onOverlay && old(overlays) != [];
        if old(outsideHandler).Some? && !inside then
          overlays == [] && outsideHandler == None && mousedownListeners == []
        else overlays == old(overlays) && outsideHandler == old(outsideHandler) && mousedownListeners == old(mousedownListeners)
      ensures var inside := onOverlay && old(overlays) != [];
        if inside && old(overlays)[0].mode.Loaded? && button == 2 then
          var o := old(overlays)[0];
          drag == Some(Drag(o.node, clientX - o.pos.left, clientY - o.pos.top))
        else drag == old(drag)
      ensures lastPopupPos == old(lastPopupPos) && sent == old(sent) && nextId == old(nextId)
      ensures selectingShift == old(selectingShift) && anchor == old(anchor) && selection == old(selection)
    {
      var inside := onOverlay && overlays != [];
      if outsideHandler.Some? {
        assert Unregister(mousedownListeners, outsideHandler.value) == [];
        if overlays == [] {
          mousedownListeners := Unregister(mousedownListeners, outsideHandler.value);
          outsideHandler := None;
        } else if !inside {
          overlays := overlays[1..];
          mousedownListeners := Unregister(mousedownListeners, outsideHandler.value);
          outsideHandler := None;
        }
      }
      if inside && overlays[0].mode.Loaded? && button == 2 {
        var o := overlays[0];
        drag := Some(Drag(o.node, clientX - o.pos.left, clientY - o.pos.top));
      }
    }

    /** A `mouseup` ends the drag. */
    method MouseUp()
      requires Valid()
      modifies this
      ensures Valid()
      ensures drag == None
      ensures overlays == old(overlays) && lastPopupPos == old(lastPopupPos) && outsideHandler == old(outsideHandler)
      ensures mousedownListeners == old(mousedownListeners) && nextId == old(nextId) && sent == old(sent)
      ensures selectingShift == old(selectingShift) && anchor == old(anchor) && selection == old(selection)
    {
      drag := None;
    }

    /** The user selects something (or nothing) in the page by ordinary means. */
    method UserSelects(range: Option<Range>)
      requires Valid()
      modifies this
      ensures Valid()
      ensures selection == range
      ensures overlays == old(overlays) && lastPopupPos == old(lastPopupPos) && outsideHandler == old(outsideHandler)
      ensures mousedownListeners == old(mousedownListeners) && nextId == old(nextId)
      ensures selectingShift == old(selectingShift) && anchor == old(anchor) && drag == old(drag) && sent == old(sent)
    {
      selection := range;
    }

    /** The page's own scripts remove the overlay element; the handler stays registered. */
    method PageRemovesOverlay()
      requires Valid()
      modifies this
      ensures Valid()
      ensures overlays == []
      ensures outsideHandler == old(outsideHandler) && mousedownListeners == old(mousedownListeners)
      ensures lastPopupPos == old(lastPopupPos) && drag == old(drag) && sent == old(sent) && nextId == old(nextId)
      ensures selectingShift == old(selectingShift) && anchor == old(anchor) && selection == old(selection)
    {
      overlays := [];
    }
  }

  // -----------------------------------------------------------------------
  // Scenarios: what a caller can conclude from the contracts alone

  /** A right-button drag moves the loaded overlay by exactly the pointer's travel and remembers the result. */
  method DragMovesByDelta(c: ContentScript, content: string, page: Page, x0: int, y0: int, x1: int, y1: int)
    requires c.Valid()
    modifies c
    ensures c.Valid()
    ensures var start := Placement(old(c.lastPopupPos), old(c.selection), page);
      var moved := Pos(start.top + (y1 - y0), start.left + (x1 - x0));
      |c.overlays| == 1 && c.overlays[0].pos == moved && c.lastPopupPos == Some(moved)
  {
    c.ShowOverlay(content, page);
    c.MouseDown(2, true, x0, y0);
    c.MouseMove(x1, y1, page);
    c.MouseUp();
  }

  /** An outside click dismisses the overlay; a second one finds nothing to do. */
  method SecondOutsideClickIsNoOp(c: ContentScript, content: string, page: Page, button: int, x: int, y: int)
    requires c.Valid()
    modifies c
    ensures c.Valid()
    ensures c.overlays == [] && c.outsideHandler == None && c.mousedownListeners == []
  {
    c.ShowOverlay(content, page);
    c.MouseDown(button, false, x, y);
    assert c.overlays == [] && c.outsideHandler == None;
    c.MouseDown(button, false, x, y);
  }

  /** The overlay keeps its place from loading to loaded. */
  method LoadedWhereLoading(c: ContentScript, content: string, page: Page)
    requires c.Valid()
    modifies c
    ensures c.Valid()
    ensures var pos := Placement(old(c.lastPopupPos), old(c.selection), page);
      |c.overlays| == 1 && c.overlays[0].pos == pos && c.overlays[0].mode.Loaded?
  {
    c.ShowLoadingOverlay(page);
    c.ShowOverlay(content, page);
  }

  /** A Shift press and release with a blank selection shows nothing and sends nothing. */
  method BlankShiftSelection(c: ContentScript, page: Page)
    requires c.Valid() && !c.selectingShift
    modifies c
    ensures c.Valid()
    ensures c.sent == old(c.sent) && c.overlays == old(c.overlays) && c.selection == None
  {
    c.KeyDown("Shift");
    c.KeyUp("Shift", page);
  }

  /**
   * When the page itself has removed the overlay, the next press anywhere
   * only unregisters the stale handler, and the script is back to having
   * neither overlay nor handler.
   */
  method VanishedOverlayClick(c: ContentScript, page: Page, button: int, onOverlay: bool, x: int, y: int)
    requires c.Valid()
    modifies c
    ensures c.Valid()
    ensures c.overlays == [] && c.outsideHandler == None && c.mousedownListeners == []
    ensures c.lastPopupPos.Some? && c.drag == old(c.drag)
  {
    c.ShowLoadingOverlay(page);
    c.PageRemovesOverlay();
    c.MouseDown(button, onOverlay, x, y);
  }

  /** With a range selected by ordinary means, the toolbar command sends that range's text untrimmed. */
  method CommandSendsSelection(c: ContentScript, range: Range, page: Page)
    requires c.Valid()
    modifies c
    ensures c.Valid()
    ensures c.sent == old(c.sent) + [SelectedText(page.textOf(range))]
    ensures |c.overlays| == 1 && c.overlays[0].mode == Loading
  {
    c.UserSelects(Some(range));
    c.OnMessage(Translate, page);
  }
}
