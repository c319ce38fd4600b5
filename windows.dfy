/**
  Gwen's movable window (Gwen::Controls::WindowControl): its own fields
  m_Modal and m_bDeleteOnClose, the colour of its title, and the handles of
  its title bar and close button. Everything the window does to the
  control tree goes through the base-class operations of ControlTree.Arena.
 */
module Windows {
  import opened ControlTree

  /** The skin's two title colours, Window.TitleActive and Window.TitleInactive. */
  datatype TitleColor = TitleActive | TitleInactive

  /** The calls DestroyModal makes when the window has an overlay. */
  function ModalTeardownCalls(w: Handle, overlay: Option<Handle>, canvas: Handle): seq<Call> {
    match overlay
    case None => []
    case Some(m) => [SetParentCall(w, canvas), DelayedDeleteCall(m)]
  }

  /** The calls CloseButtonPressed makes, in order. */
  function CloseCalls(w: Handle, overlay: Option<Handle>, canvas: Handle, deleteOnClose: bool): seq<Call> {
    ModalTeardownCalls(w, overlay, canvas) +
    [WindowClosedCall(w), SetHiddenCall(w, true)] +
    (if deleteOnClose then [DelayedDeleteCall(w)] else [])
  }

  /** No call after position i moves a control to another parent. */
  predicate NoReparentAfter(calls: seq<Call>, i: nat) {
    forall j :: i < j < |calls| ==> !IsReparent(calls[j])
  }

  predicate IsReparent(c: Call) {
    c.SetParentCall?
  }

  /** The children map after MakeModal: the window leaves its parent, the new
      overlay m goes on top of the canvas's children and holds the window alone. */
  function Overlaid(children: map<Handle, seq<Handle>>, parent: map<Handle, Handle>, w: Handle, canvas: Handle, m: Handle): map<Handle, seq<Handle>>
    requires canvas in children
  {
    var d := Detach(children, parent, w);
    d[canvas := d[canvas] + [m]][m := [w]]
  }

  /** Creating the overlay under the canvas and then moving the window onto it
      gives the children map Overlaid describes. */
  lemma OverlayChildren(children: map<Handle, seq<Handle>>, parent: map<Handle, Handle>, canvas: Handle, w: Handle, m: Handle)
    requires canvas in children && w in parent && parent[w] in children
    requires m !in children && m != w
    ensures Moved(children[canvas := children[canvas] + [m]][m := []], parent[m := canvas], w, m) ==
            Overlaid(children, parent, w, canvas, m)
  {
    var none: seq<Handle> := [];
    var c1: map<Handle, seq<Handle>> := children[canvas := children[canvas] + [m]][m := none];
    var d: map<Handle, seq<Handle>> := Detach(children, parent, w);
    var d1: map<Handle, seq<Handle>> := Detach(c1, parent[m := canvas], w);
    var q := parent[w];
    if q == canvas {
      RemoveAppend(children[canvas], m, w);
    }
    var e: map<Handle, seq<Handle>> := d[canvas := d[canvas] + [m]];
    assert d1 == e[m := none];
    assert q != m && d1[m] == none && none + [w] == [w];
    assert Moved(c1, parent[m := canvas], w, m) == d1[m := [w]];
    assert e[m := none][m := [w]] == e[m := [w]];
  }

  /** The children map after adding the window under p, the title bar under
      the window and the close button under the title bar, one at a time. */
  lemma TitleBarChildren(c0: map<Handle, seq<Handle>>, p: Handle, w: Handle, bar: Handle, close: Handle)
    requires p in c0 && w !in c0 && bar !in c0 && close !in c0
    requires bar != w && close != w && close != bar
    ensures var c1 := c0[p := c0[p] + [w]][w := []];
            var c2 := c1[w := c1[w] + [bar]][bar := []];
            c2[bar := c2[bar] + [close]][close := []] ==
            c0[p := c0[p] + [w]][w := [bar]][bar := [close]][close := []]
  {
    var none: seq<Handle> := [];
    assert none + [bar] == [bar] && none + [close] == [close];
  }

  /** Closing a window fires its closed event exactly once. */
  lemma CloseFiresClosedOnce(w: Handle, overlay: Option<Handle>, canvas: Handle, deleteOnClose: bool, calls: seq<Call>)
    requires calls == CloseCalls(w, overlay, canvas, deleteOnClose)
    ensures multiset(calls)[WindowClosedCall(w)] == 1
  {
    var front := ModalTeardownCalls(w, overlay, canvas);
    var back := if deleteOnClose then [DelayedDeleteCall(w)] else [];
    assert multiset(front)[WindowClosedCall(w)] == 0;
    assert multiset(back)[WindowClosedCall(w)] == 0;
    assert multiset(calls) == multiset(front) + multiset([WindowClosedCall(w), SetHiddenCall(w, true)]) + multiset(back);
  }

  /** Closing queues the window for deletion iff deleteOnClose is set, and
      queues nothing but the window and its overlay. */
  lemma CloseQueuesWindowAndOverlay(w: Handle, overlay: Option<Handle>, canvas: Handle, deleteOnClose: bool, calls: seq<Call>)
    requires overlay.Some? ==> overlay.value != w
    requires calls == CloseCalls(w, overlay, canvas, deleteOnClose)
    ensures DelayedDeleteCall(w) in calls <==> deleteOnClose
    ensures forall c :: DelayedDeleteCall(c) in calls ==> c == w || overlay == Some(c)
  {
    var front := ModalTeardownCalls(w, overlay, canvas);
    if deleteOnClose {
      assert calls == front + [WindowClosedCall(w), SetHiddenCall(w, true), DelayedDeleteCall(w)];
    } else {
      assert calls == front + [WindowClosedCall(w), SetHiddenCall(w, true)];
    }
  }

  /** The window is hidden right after the closed event, and no control is
      reparented after it: the overlay is gone before the listeners run. */
  lemma CloseHidesAfterClosedEvent(w: Handle, overlay: Option<Handle>, canvas: Handle, deleteOnClose: bool, calls: seq<Call>)
    requires calls == CloseCalls(w, overlay, canvas, deleteOnClose)
    ensures exists i :: 0 <= i < |calls| - 1 &&
              calls[i] == WindowClosedCall(w) && calls[i + 1] == SetHiddenCall(w, true) &&
              NoReparentAfter(calls, i)
  {
    var i := |ModalTeardownCalls(w, overlay, canvas)|;
    assert calls[i] == WindowClosedCall(w) && calls[i + 1] == SetHiddenCall(w, true) && NoReparentAfter(calls, i);
  }

  class WindowControl {
    const arena: Arena
    const id: Handle
    const titleBar: Handle
    const closeButton: Handle
    /** m_Modal: the overlay while the window is modal. */
    var modal: Option<Handle>
    /** m_bDeleteOnClose */
    var deleteOnClose: bool
    /** The text colour of the title label. */
    var titleColor: TitleColor

    ghost predicate Valid()
      reads this, arena
    {
      && arena.Valid()
      && IsWindow(arena.kind, id)
      && id in arena.parent && arena.parent[id] in arena.children
      && closeButton in arena.kind && closeButton != id
      && (modal.Some? ==> modal.value != id)
    }

    /** The children of the window's parent, bottom to top. */
    ghost function Siblings(): seq<Handle>
      reads this, arena
      requires Valid()
    {
      arena.children[arena.parent[id]]
    }

    /** No other window lies above this one among its siblings. */
    ghost predicate OnTop()
      reads this, arena
      requires Valid()
    {
      TopWindow(Siblings(), arena.kind) == Some(id)
    }

    /** A new window under parentHandle, with its title bar and the close button
        on it; it starts non-modal, on top and with the close button shown. */
    constructor (a: Arena, parentHandle: Handle)
      requires a.Valid() && parentHandle in a.kind && parentHandle in a.children
      modifies a
      ensures Valid() && arena == a
      ensures modal == None && !deleteOnClose && titleColor == TitleInactive
      ensures id !in old(a.kind) && titleBar !in old(a.kind) && closeButton !in old(a.kind)
      ensures id != titleBar && id != closeButton && titleBar != closeButton
      ensures OnTop()
      ensures a.kind == old(a.kind)[id := Window][titleBar := Plain][closeButton := Plain]
      ensures a.parent == old(a.parent)[id := parentHandle][titleBar := id][closeButton := titleBar]
      ensures a.children == old(a.children)[parentHandle := old(a.children)[parentHandle] + [id]]
                              [id := [titleBar]][titleBar := [closeButton]][closeButton := []]
      ensures a.hidden == old(a.hidden) && id !in a.hidden && closeButton !in a.hidden
      ensures a.drawsBackground == old(a.drawsBackground) && a.deleteQueue == old(a.deleteQueue)
      ensures a.log == old(a.log) + [BringToFrontCall(id)]
    {
      modal := None;
      deleteOnClose := false;
      titleColor := TitleInactive;
      ghost var children0, siblings0 := a.children, a.children[parentHandle];
      var w := a.NewControl(parentHandle, Window);
      var bar := a.NewControl(w, Plain);
      var close := a.NewControl(bar, Plain);
      TitleBarChildren(children0, parentHandle, w, bar, close);
      ghost var siblings := a.children[parentHandle];
      FrontedLast(a.children, a.parent, w, siblings0);
      a.BringToFront(w);
      FrontWindowIsTop(siblings, a.kind, w);
      arena := a;
      id, titleBar, closeButton := w, bar, close;
    }

    /** Puts the window on a new overlay attached to the canvas; nothing happens
        when the window already is modal. */
    method MakeModal(drawBackground: bool)
      requires Valid()
      modifies this`modal, arena
      ensures Valid()
      ensures old(modal).Some? ==> modal == old(modal) && unchanged(arena)
      ensures old(modal).None? ==>
        && modal.Some? && modal.value !in old(arena.kind)
        && arena.kind == old(arena.kind)[modal.value := Overlay]
        && arena.parent == old(arena.parent)[modal.value := arena.canvas][id := modal.value]
        && arena.children == Overlaid(old(arena.children), old(arena.parent), id, arena.canvas, modal.value)
        && arena.drawsBackground == (if drawBackground then old(arena.drawsBackground) + {modal.value}
                                     else old(arena.drawsBackground) - {modal.value})
        && arena.hidden == old(arena.hidden) && arena.deleteQueue == old(arena.deleteQueue)
        && arena.log == old(arena.log) + [SetParentCall(id, modal.value)]
        && OnTop()
    {
      if modal.Some? {
        return;
      }

      ghost var children, parent := arena.children, arena.parent;
      var m := arena.NewControl(arena.canvas, Overlay);
      modal := Some(m);
      arena.SetParent(id, m);
      arena.SetShouldDrawBackground(m, drawBackground);
      OverlayChildren(children, parent, arena.canvas, id, m);
      OnlyWindowIsTop([id], arena.kind, id);
    }

    /** Returns the window to the canvas (not to the parent it had before
        MakeModal) and queues the overlay for deletion; nothing happens when
        the window is not modal. */
    method DestroyModal()
      requires Valid()
      modifies this`modal, arena
      ensures Valid() && modal == None
      ensures old(modal).None? ==> unchanged(arena)
      ensures old(modal).Some? ==>
        && arena.parent == old(arena.parent)[id := arena.canvas]
        && arena.children == Moved(old(arena.children), old(arena.parent), id, arena.canvas)
        && arena.deleteQueue == old(arena.deleteQueue) + [old(modal).value]
        && arena.kind == old(arena.kind) && arena.hidden == old(arena.hidden)
        && arena.drawsBackground == old(arena.drawsBackground)
        && arena.log == old(arena.log) + ModalTeardownCalls(id, old(modal), arena.canvas)
    {
      if modal.None? {
        return;
      }

      // The original parent is not known: assume it is the canvas.
      arena.SetParent(id, arena.canvas);
      arena.DelayedDelete(modal.value);
      modal := None;
    }

    /** The destructor: tears the overlay down, if there is one. */
    method Destroy()
      requires Valid()
      modifies this`modal, arena
      ensures Valid() && modal == None
      ensures old(modal).None? ==> unchanged(arena)
      ensures old(modal).Some? ==>
        && arena.parent == old(arena.parent)[id := arena.canvas]
        && arena.children == Moved(old(arena.children), old(arena.parent), id, arena.canvas)
        && arena.deleteQueue == old(arena.deleteQueue) + [old(modal).value]
        && arena.kind == old(arena.kind) && arena.hidden == old(arena.hidden)
        && arena.drawsBackground == old(arena.drawsBackground)
        && arena.log == old(arena.log) + ModalTeardownCalls(id, old(modal), arena.canvas)
    {
      DestroyModal();
    }

    /** Scans the siblings from the top, skipping controls that are not windows;
        the first window met decides. */
    method IsOnTop() returns (top: bool)
      requires Valid()
      ensures top <==> OnTop()
    {
      var siblings := arena.children[arena.parent[id]];
      var i := |siblings|;
      assert siblings[..i] == siblings;
      while i > 0
        invariant 0 <= i <= |siblings|
        invariant TopWindow(siblings, arena.kind) == TopWindow(siblings[..i], arena.kind)
      {
        var c := siblings[i - 1];
        assert siblings[..i][..i - 1] == siblings[..i - 1];

        if !IsWindow(arena.kind, c) {
          i := i - 1;
          continue;
        }

        return c == id;
      }

      return false;
    }

    /** The title is drawn in the active colour exactly when the window is on top. */
    method Render() returns (hasFocus: bool)
      requires Valid()
      modifies this`titleColor
      ensures hasFocus <==> OnTop()
      ensures titleColor == if hasFocus then TitleActive else TitleInactive
    {
      hasFocus := IsOnTop();

      if hasFocus {
        titleColor := TitleActive;
      } else {
        titleColor := TitleInactive;
      }
    }

    /** Shows the close button iff the window is closable. */
    method SetClosable(closeable: bool)
      requires Valid()
      modifies arena
      ensures Valid()
      ensures (closeButton in arena.hidden) == !closeable
      ensures arena.hidden == if closeable then old(arena.hidden) - {closeButton} else old(arena.hidden) + {closeButton}
      ensures arena.kind == old(arena.kind) && arena.parent == old(arena.parent) && arena.children == old(arena.children)
      ensures arena.deleteQueue == old(arena.deleteQueue) && arena.drawsBackground == old(arena.drawsBackground)
      ensures arena.log == old(arena.log) + [SetHiddenCall(closeButton, !closeable)]
    {
      arena.SetHidden(closeButton, !closeable);
    }

    /** Showing a window first brings it to the front; hiding it keeps the z-order. */
    method SetHidden(hidden: bool)
      requires Valid()
      modifies arena
      ensures Valid()
      ensures arena.hidden == if hidden then old(arena.hidden) + {id} else old(arena.hidden) - {id}
      ensures arena.kind == old(arena.kind) && arena.parent == old(arena.parent)
      ensures arena.deleteQueue == old(arena.deleteQueue) && arena.drawsBackground == old(arena.drawsBackground)
      ensures hidden ==> arena.children == old(arena.children)
      ensures hidden ==> arena.log == old(arena.log) + [SetHiddenCall(id, true)]
      ensures !hidden ==> arena.children == Fronted(old(arena.children), old(arena.parent), id) && OnTop()
      ensures !hidden ==> arena.log == old(arena.log) + [BringToFrontCall(id), SetHiddenCall(id, false)]
    {
      if !hidden {
        arena.BringToFront(id);
        FrontWindowIsTop(old(arena.children)[arena.parent[id]], arena.kind, id);
      }

      arena.SetHidden(id, hidden);
    }

    /** Any interaction with the window brings it to the front. */
    method Touch()
      requires Valid()
      modifies arena
      ensures Valid() && OnTop()
      ensures arena.children == Fronted(old(arena.children), old(arena.parent), id)
      ensures arena.kind == old(arena.kind) && arena.parent == old(arena.parent) && arena.hidden == old(arena.hidden)
      ensures arena.deleteQueue == old(arena.deleteQueue) && arena.drawsBackground == old(arena.drawsBackground)
      ensures arena.log == old(arena.log) + [BringToFrontCall(id)]
    {
      arena.BringToFront(id);
      FrontWindowIsTop(old(arena.children)[arena.parent[id]], arena.kind, id);
    }

    /** The close button's handler: tear the overlay down, tell the listeners,
        hide the window and, if asked to, queue it for deletion. */
    method CloseButtonPressed()
      requires Valid()
      modifies this`modal, arena
      ensures Valid() && modal == None
      ensures arena.hidden == old(arena.hidden) + {id}
      ensures arena.log == old(arena.log) + CloseCalls(id, old(modal), arena.canvas, deleteOnClose)
      ensures arena.deleteQueue == old(arena.deleteQueue) +
                (if old(modal).Some? then [old(modal).value] else []) +
                (if deleteOnClose then [id] else [])
      ensures old(modal).Some? ==>
        && arena.parent == old(arena.parent)[id := arena.canvas]
        && arena.children == Moved(old(arena.children), old(arena.parent), id, arena.canvas)
      ensures old(modal).None? ==> arena.parent == old(arena.parent) && arena.children == old(arena.children)
      ensures arena.kind == old(arena.kind) && arena.drawsBackground == old(arena.drawsBackground)
    {
      ghost var log0 := arena.log;
      ghost var teardown := ModalTeardownCalls(id, modal, arena.canvas);
      ghost var tail: seq<Call> := if deleteOnClose then [DelayedDeleteCall(id)] else [];
      DestroyModal();
      arena.FireWindowClosed(id);
      SetHidden(true);

      if deleteOnClose {
        arena.DelayedDelete(id);
      }

      assert arena.log == log0 + teardown + [WindowClosedCall(id)] + [SetHiddenCall(id, true)] + tail;
      assert arena.log == log0 + (teardown + [WindowClosedCall(id), SetHiddenCall(id, true)] + tail);
    }
  }
}
