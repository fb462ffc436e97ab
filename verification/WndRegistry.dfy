/**
 * The handle registry and window lifecycle of `Wnd` (WndLib.cpp): the
 * library's map from window handles to `Wnd` objects, the pending-object slot
 * that private-class creation hands to `StaticWndProc`, subclassing, and the
 * teardown on `WM_NCDESTROY`, together with `Dlg::StaticDlgProc`.
 *
 * The world is explicit state.  Objects are named by identities; deleting
 * one removes it from `objs`, so a later use of its identity is a
 * `DanglingObject` fault rather than undefined behaviour.  Windows are named
 * by handles and carry what the library reads and writes through
 * `GetWindowLongPtr`/`SetWindowLongPtr`: the current window procedure, the
 * class procedure, the `Wnd *` in extra slot 0 and the `DWLP_USER` slot of
 * a dialog.  An object's own `WndProc` is user code and is recorded as an
 * event only.
 */
module WndRegistry {
  import opened Wrappers
  import opened WindowTree

  type ObjId = nat

  /** The window procedures the library distinguishes. */
  datatype Proc =
    | StaticProc          // Wnd::StaticWndProc, the procedure of the library's own classes
    | SubclassProc        // Wnd::SubclassWndProc, installed by Attach(hwnd, true)
    | DialogProc          // the dialog manager's, which calls Dlg::StaticDlgProc
    | OtherProc(id: nat)  // any procedure the library does not know

  /** The fields of a `Wnd` the registry uses. */
  datatype Obj = Obj(hwnd: Handle, prevproc: Option<Proc>, selfDestruct: bool)

  datatype Window = Window(proc: Proc, classProc: Proc, slot: Option<ObjId>, dlgUser: Option<ObjId>)

  /**
   * `wndMap` is `Wnd::wndMap`; a key mapped to `None` is the NULL entry that
   * `FindWnd`'s `operator[]` inserts.  `creating` is `creatingWnd`.
   */
  datatype World = World(wndMap: map<Handle, Option<ObjId>>, objs: map<ObjId, Obj>, windows: map<Handle, Window>, creating: Option<ObjId>)

  datatype Fault = DanglingObject(id: ObjId)

  /** The messages whose handling differs. */
  datatype Msg = InitDialog(param: Option<ObjId>) | Destroy | NcDestroy | OtherMsg

  /** What a delivery did, in order. */
  datatype Event =
    | RanWndProc(o: ObjId)   // the object's virtual WndProc was called
    | RanDefault(h: Handle)  // ::DefWindowProc, for a subclassed window with no owner
    | RanForeign(h: Handle)  // a procedure outside the library
    | Deleted(o: ObjId)      // SelfDestruct deleted the object

  /** The owner `FindWnd` reports for `h`, with no entry reading as NULL. */
  function Lookup(w: World, h: Handle): Option<ObjId>
  {
    if h in w.wndMap then w.wndMap[h] else None
  }

  /** Two worlds whose registries answer every lookup alike. */
  ghost predicate SameLookups(w1: World, w2: World)
  {
    forall h :: Lookup(w1, h) == Lookup(w2, h)
  }

  // ---------------------------------------------------------------------
  // Map, Unmap, FindWnd

  /** `Wnd::Map`: `wndMap[hwnd] = wnd`, replacing any earlier owner. */
  function Map(w: World, h: Handle, o: ObjId): (r: World)
    ensures Lookup(r, h) == Some(o)
    ensures forall k :: k != h ==> Lookup(r, k) == Lookup(w, k)
    ensures r.objs == w.objs && r.windows == w.windows && r.creating == w.creating
  {
    w.(wndMap := w.wndMap[h := Some(o)])
  }

  /**
   * `Wnd::Unmap`: erases the entry keyed by the object's CURRENT handle,
   * whichever object that entry names.
   */
  function Unmap(w: World, o: ObjId): (r: World)
    requires o in w.objs
    ensures Lookup(r, w.objs[o].hwnd) == None
    ensures forall k :: k != w.objs[o].hwnd ==> Lookup(r, k) == Lookup(w, k)
    ensures r.objs == w.objs && r.windows == w.windows && r.creating == w.creating
  {
    w.(wndMap := w.wndMap - {w.objs[o].hwnd})
  }

  /** An object that merely shares a handle with the owner removes the owner's entry when it is unmapped. */
  lemma UnmapDropsOtherOwner(w: World, o: ObjId, owner: ObjId)
    requires o in w.objs && Lookup(w, w.objs[o].hwnd) == Some(owner) && owner != o
    ensures Lookup(Unmap(w, o), w.objs[o].hwnd) == None
  {
  }

  /**
   * `Wnd::FindWnd`: the owner of `h`, or NULL.  `operator[]` inserts a NULL
   * entry for an unknown handle, which changes the map but no answer.
   */
  function FindWnd(w: World, h: Handle): (r: (World, Option<ObjId>))
    ensures r.1 == Lookup(w, h)
    ensures SameLookups(r.0, w)
    ensures h in r.0.wndMap
    ensures r.0.objs == w.objs && r.0.windows == w.windows && r.0.creating == w.creating
  {
    if h in w.wndMap then (w, w.wndMap[h]) else (w.(wndMap := w.wndMap[h := None]), None)
  }

  /** After `Map(h, o)` the lookup of `h` finds `o` until `h` is mapped again or unmapped. */
  lemma MapThenFind(w: World, h: Handle, o: ObjId, k: Handle, p: ObjId)
    requires k != h
    ensures FindWnd(Map(w, h, o), h).1 == Some(o)
    ensures FindWnd(Map(Map(w, h, o), k, p), h).1 == Some(o)
    ensures FindWnd(Map(Map(w, h, o), h, p), h).1 == Some(p)
  {
  }

  // ---------------------------------------------------------------------
  // Objects

  /** `Wnd::Construct`: no window, no previous procedure, no self-destruction. */
  function Construct(w: World, o: ObjId): (r: World)
    requires o !in w.objs
    ensures o in r.objs && r.objs[o].hwnd == NULL && r.objs[o].prevproc == None && !r.objs[o].selfDestruct
    ensures SameLookups(r, w) && r.windows == w.windows
  {
    w.(objs := w.objs[o := Obj(NULL, None, false)])
  }

  function SetSelfDestruct(w: World, o: ObjId, value: bool): (r: World)
    requires o in w.objs
    ensures o in r.objs && r.objs[o].selfDestruct == value && r.objs[o].hwnd == w.objs[o].hwnd
    ensures r.objs[o].prevproc == w.objs[o].prevproc && r.objs.Keys == w.objs.Keys
    ensures forall p :: p in w.objs && p != o ==> r.objs[p] == w.objs[p]
    ensures r.wndMap == w.wndMap && r.windows == w.windows && r.creating == w.creating
  {
    w.(objs := w.objs[o := w.objs[o].(selfDestruct := value)])
  }

  /** `delete wnd`: `~Wnd` unmaps by the current handle, then the object is gone. */
  function Delete(w: World, o: ObjId): (r: World)
    requires o in w.objs
    ensures o !in r.objs && r.objs == w.objs - {o}
    ensures Lookup(r, w.objs[o].hwnd) == None
    ensures r.windows == w.windows
  {
    var unmapped := Unmap(w, o);
    unmapped.(objs := unmapped.objs - {o})
  }

  function SetHWnd(w: World, o: ObjId, h: Handle): (r: World)
    requires o in w.objs
    ensures o in r.objs && r.objs[o].hwnd == h && SameLookups(r, w)
  {
    w.(objs := w.objs[o := w.objs[o].(hwnd := h)])
  }

  /** Where `Wnd::WndProc` sends what a derived class does not handle. */
  datatype Fallback = CallPrevious(p: Proc) | CallDefault

  /** `Wnd::WndProc`: the saved procedure of a subclassed window, else the default window procedure. */
  function BaseWndProc(obj: Obj): (f: Fallback)
    ensures f.CallPrevious? <==> obj.prevproc.Some?
  {
    match obj.prevproc
    case Some(p) => CallPrevious(p)
    case None => CallDefault
  }

  // ---------------------------------------------------------------------
  // Attach and Detach

  function SetProc(w: World, h: Handle, p: Proc): (r: World)
    requires h in w.windows
    ensures h in r.windows && r.windows[h] == w.windows[h].(proc := p)
    ensures forall k :: k != h ==> (k in r.windows <==> k in w.windows)
    ensures forall k :: k != h && k in w.windows ==> r.windows[k] == w.windows[k]
    ensures SameLookups(r, w) && r.objs == w.objs && r.creating == w.creating
  {
    w.(windows := w.windows[h := w.windows[h].(proc := p)])
  }

  /**
   * `Wnd::Detach`: a subclassed window gets its saved procedure back if
   * `SubclassWndProc` is still the current one, and its class procedure
   * otherwise; the saved procedure is forgotten and the object unmapped.
   * The old handle is returned.
   */
  function Detach(w: World, o: ObjId): (r: (World, Handle))
    requires o in w.objs
    ensures var h := w.objs[o].hwnd;
      && r.1 == h
      && o in r.0.objs && r.0.objs[o] == w.objs[o].(prevproc := None)
      && (forall p :: p != o && p in w.objs ==> p in r.0.objs && r.0.objs[p] == w.objs[p])
      && r.0.objs.Keys == w.objs.Keys
      && Lookup(r.0, h) == None
      && (forall k :: k != h ==> Lookup(r.0, k) == Lookup(w, k))
      && r.0.windows.Keys == w.windows.Keys
      && (forall k :: k in w.windows && k != h ==> r.0.windows[k] == w.windows[k])
      && (h in w.windows && w.objs[o].prevproc.None? ==> r.0.windows[h] == w.windows[h])
      && (h in w.windows && w.objs[o].prevproc.Some? ==>
            r.0.windows[h].proc == (if w.windows[h].proc == SubclassProc then w.objs[o].prevproc.value else w.windows[h].classProc))
      && r.0.creating == w.creating
  {
    var obj := w.objs[o];
    var h := obj.hwnd;
    var restored :=
      if obj.prevproc.Some? && h in w.windows then
        SetProc(w, h, if w.windows[h].proc == SubclassProc then obj.prevproc.value else w.windows[h].classProc)
      else w;
    var cleared := restored.(objs := restored.objs[o := obj.(prevproc := None)]);
    (Unmap(cleared, o), h)
  }

  /**
   * `Wnd::Attach(hwnd, subclass)`: detach first; map `hwnd` to the object
   * only when no object owns it yet; adopt the handle; when subclassing, save
   * the window's current procedure and install `SubclassWndProc`.  (Reading
   * the procedure of a handle that is not a window yields NULL, and setting it
   * does nothing.)
   */
  function Attach(w: World, o: ObjId, h: Handle, subclass: bool): (r: World)
    requires o in w.objs && h != NULL
    ensures o in r.objs && r.objs[o].hwnd == h && r.objs.Keys == w.objs.Keys
    ensures r.windows.Keys == w.windows.Keys
    ensures var detached := Detach(w, o).0;
      && detached.windows.Keys == w.windows.Keys
      && (Lookup(detached, h).None? ==> Lookup(r, h) == Some(o))
      && (Lookup(detached, h).Some? ==> Lookup(r, h) == Lookup(detached, h))
      && (forall k :: k != h ==> Lookup(r, k) == Lookup(detached, k))
      && (subclass && h in w.windows ==>
            r.windows[h].proc == SubclassProc && r.objs[o].prevproc == Some(detached.windows[h].proc))
      && (!subclass ==> r.objs[o].prevproc == None && r.windows == detached.windows)
      && r.creating == w.creating
  {
    var detached := Detach(w, o).0;
    var adopted := Adopt(detached, o, h);
    if subclass then Subclass(adopted, o, h) else adopted
  }

  /** Attach's middle: map the handle if nobody owns it, and take it as the object's handle. */
  function Adopt(w: World, o: ObjId, h: Handle): (r: World)
    requires o in w.objs
    ensures o in r.objs && r.objs[o] == w.objs[o].(hwnd := h) && r.objs.Keys == w.objs.Keys
    ensures Lookup(w, h).None? ==> Lookup(r, h) == Some(o)
    ensures Lookup(w, h).Some? ==> Lookup(r, h) == Lookup(w, h)
    ensures forall k :: k != h ==> Lookup(r, k) == Lookup(w, k)
    ensures r.windows == w.windows && r.creating == w.creating
  {
    var (found, owner) := FindWnd(w, h);
    var mapped := if owner.None? then Map(found, h, o) else found;
    SetHWnd(mapped, o, h)
  }

  /** Attach's subclassing: save the window's procedure in the object and install `SubclassWndProc`. */
  function Subclass(w: World, o: ObjId, h: Handle): (r: World)
    requires o in w.objs
    ensures o in r.objs && r.objs[o].hwnd == w.objs[o].hwnd && r.objs.Keys == w.objs.Keys
    ensures r.windows.Keys == w.windows.Keys
    ensures h in w.windows ==> r.windows[h].proc == SubclassProc && r.objs[o].prevproc == Some(w.windows[h].proc)
    ensures h !in w.windows ==> r.objs[o].prevproc == None && r.windows == w.windows
    ensures SameLookups(r, w) && r.creating == w.creating
  {
    if h in w.windows then
      var withPrev := w.(objs := w.objs[o := w.objs[o].(prevproc := Some(w.windows[h].proc))]);
      SetProc(withPrev, h, SubclassProc)
    else w.(objs := w.objs[o := w.objs[o].(prevproc := None)])
  }

  /** A detached object that subclasses an unowned window and detaches again leaves the window and the registry as they were. */
  lemma AttachDetachRoundTrip(w: World, o: ObjId, h: Handle)
    requires o in w.objs && w.objs[o].hwnd == NULL && w.objs[o].prevproc == None
    requires h != NULL && h in w.windows && w.windows[h].proc != SubclassProc
    requires Lookup(w, h) == None && Lookup(w, NULL) == None
    ensures var after := Detach(Attach(w, o, h, true), o).0;
      && after.windows == w.windows
      && SameLookups(after, w)
      && after.objs[o] == w.objs[o].(hwnd := h)
  {
    var attached := Attach(w, o, h, true);
    var after := Detach(attached, o).0;
    assert attached.windows[h].proc == SubclassProc;
    assert after.windows[h] == w.windows[h];
    assert after.windows == w.windows;
  }

  /** Subclassing sends unhandled messages to the procedure the window had; after detaching they go to the default procedure. */
  lemma SubclassFallback(w: World, o: ObjId, h: Handle)
    requires o in w.objs && w.objs[o].prevproc == None && h != NULL && h in w.windows && h != w.objs[o].hwnd
    ensures BaseWndProc(Attach(w, o, h, true).objs[o]) == CallPrevious(w.windows[h].proc)
    ensures BaseWndProc(Detach(Attach(w, o, h, true), o).0.objs[o]) == CallDefault
  {
  }

  // ---------------------------------------------------------------------
  // Message delivery

  /** `SelfDestruct` if the flag is set; the object is known to be alive. */
  function MaybeSelfDestruct(w: World, o: ObjId): (r: (World, seq<Event>))
    requires o in w.objs
    ensures w.objs[o].selfDestruct ==> o !in r.0.objs && r.1 == [Deleted(o)]
    ensures !w.objs[o].selfDestruct ==> r.0 == w && r.1 == []
  {
    if w.objs[o].selfDestruct then (Delete(w, o), [Deleted(o)]) else (w, [])
  }

  /**
   * `Wnd::StaticWndProc`: the object in slot 0, or else the pending object,
   * which is taken (clearing the slot), mapped, stored in slot 0 and given
   * the handle.  With neither, the message is dropped.  After the object's
   * `WndProc`, `WM_NCDESTROY` unmaps the object and, if it self-destructs,
   * deletes it.
   */
  function StaticWndProc(w: World, h: Handle, m: Msg): (r: Result<(World, seq<Event>), Fault>)
    requires h in w.windows
    ensures r.Success? ==> r.value.0.windows.Keys == w.windows.Keys
    ensures r.Success? && w.windows[h].slot.None? && w.creating.Some? ==>
      var o := w.creating.value;
      && r.value.0.creating == None
      && r.value.0.windows[h].slot == Some(o)
      && |r.value.1| >= 1 && r.value.1[0] == RanWndProc(o)
      && (m != NcDestroy ==> Lookup(r.value.0, h) == Some(o) && o in r.value.0.objs && r.value.0.objs[o].hwnd == h)
    ensures r.Success? && w.windows[h].slot.None? && w.creating.None? ==> r.value == (w, [])
    ensures r.Success? && w.windows[h].slot.Some? ==> r.value.0.creating == w.creating
    ensures r.Success? && r.value.1 != [] ==>
      && r.value.1[0].RanWndProc?
      && var o := r.value.1[0].o;
      && (r.value.1 == [RanWndProc(o)] || (m == NcDestroy && r.value.1 == [RanWndProc(o), Deleted(o)] && o !in r.value.0.objs))
  {
    var bound: (World, Option<ObjId>) :-
      if w.windows[h].slot.Some? then Success((w, w.windows[h].slot))
      else if w.creating.None? then Success((w, None))
      else
        var o := w.creating.value;
        if o !in w.objs then Failure(DanglingObject(o))
        else
          var taken := Map(w.(creating := None), h, o);
          var stored := taken.(windows := taken.windows[h := taken.windows[h].(slot := Some(o))]);
          Success((SetHWnd(stored, o, h), Some(o)));
    var (w1, wnd) := bound;
    if wnd.None? then Success((w1, []))
    else
      var o := wnd.value;
      if o !in w1.objs then Failure(DanglingObject(o))
      else if m == NcDestroy then
        var unmapped := Unmap(w1, o);
        var (w2, deleted) := MaybeSelfDestruct(unmapped, o);
        Success((w2, [RanWndProc(o)] + deleted))
      else Success((w1, [RanWndProc(o)]))
  }

  /**
   * `Wnd::SubclassWndProc`: the owner found for the handle gets the message,
   * with the same `WM_NCDESTROY` teardown; a handle with no owner goes to
   * `::DefWindowProc`.
   */
  function SubclassWndProc(w: World, h: Handle, m: Msg): (r: Result<(World, seq<Event>), Fault>)
    ensures r.Success? ==> r.value.0.windows == w.windows && r.value.0.creating == w.creating
    ensures Lookup(w, h).None? ==> r.Success? && r.value.1 == [RanDefault(h)] && SameLookups(r.value.0, w)
    ensures Lookup(w, h).Some? && Lookup(w, h).value in w.objs ==>
      var o := Lookup(w, h).value;
      && r.Success? && |r.value.1| >= 1 && r.value.1[0] == RanWndProc(o)
      && (m != NcDestroy ==> r.value.1 == [RanWndProc(o)] && SameLookups(r.value.0, w))
      && (m == NcDestroy && w.objs[o].hwnd == h ==> Lookup(r.value.0, h) == None)
      && (m == NcDestroy && w.objs[o].selfDestruct ==> r.value.1 == [RanWndProc(o), Deleted(o)] && o !in r.value.0.objs)
  {
    var (w1, owner) := FindWnd(w, h);
    if owner.None? then Success((w1, [RanDefault(h)]))
    else
      var o := owner.value;
      if o !in w1.objs then Failure(DanglingObject(o))
      else if m == NcDestroy then
        var unmapped := Unmap(w1, o);
        var (w2, deleted) := MaybeSelfDestruct(unmapped, o);
        Success((w2, [RanWndProc(o)] + deleted))
      else Success((w1, [RanWndProc(o)]))
  }

  /**
   * `Dlg::StaticDlgProc`.  `WM_INITDIALOG` carries the `Dlg` (a NULL one
   * ends the message there), which is mapped, given the handle and stored
   * as the dialog's `DWLP_USER`.  Every message then goes to that object, if
   * any: `WM_DESTROY` unmaps it first; after `WM_NCDESTROY` its handle is
   * cleared, it is unmapped again (now under NULL) and it may self-destruct.
   */
  function StaticDlgProc(w: World, h: Handle, m: Msg): (r: Result<(World, seq<Event>), Fault>)
    requires h in w.windows
    ensures r.Success? ==> r.value.0.windows.Keys == w.windows.Keys && r.value.0.creating == w.creating
    ensures m == InitDialog(None) ==> r == Success((w, []))
    ensures m.InitDialog? && m.param.Some? && m.param.value in w.objs ==>
      var o := m.param.value;
      && r.Success? && r.value.1 == [RanWndProc(o)]
      && Lookup(r.value.0, h) == Some(o) && o in r.value.0.objs && r.value.0.objs[o].hwnd == h && r.value.0.windows[h].dlgUser == Some(o)
    ensures !m.InitDialog? && w.windows[h].dlgUser.Some? && w.windows[h].dlgUser.value in w.objs ==>
      var o := w.windows[h].dlgUser.value;
      && r.Success? && |r.value.1| >= 1 && r.value.1[0] == RanWndProc(o)
      && (m == Destroy && w.objs[o].hwnd == h ==> Lookup(r.value.0, h) == None)
      && (m == NcDestroy && !w.objs[o].selfDestruct ==> o in r.value.0.objs && r.value.0.objs[o].hwnd == NULL)
      && (m == NcDestroy && w.objs[o].selfDestruct ==> o !in r.value.0.objs && r.value.1 == [RanWndProc(o), Deleted(o)])
    ensures !m.InitDialog? && w.windows[h].dlgUser.None? ==> r == Success((w, []))
  {
    if m == InitDialog(None) then Success((w, []))
    else
      var w1 :-
        if m.InitDialog? then
          var o := m.param.value;
          if o !in w.objs then Failure(DanglingObject(o))
          else
            var adopted := SetHWnd(Map(w, h, o), o, h);
            Success(adopted.(windows := adopted.windows[h := adopted.windows[h].(dlgUser := Some(o))]))
        else Success(w);
      var wnd := w1.windows[h].dlgUser;
      if wnd.None? then Success((w1, []))
      else
        var o := wnd.value;
        if o !in w1.objs then Failure(DanglingObject(o))
        else
          var w2 := if m == Destroy then Unmap(w1, o) else w1;
          if m == NcDestroy then
            var cleared := Unmap(SetHWnd(w2, o, NULL), o);
            var (w3, deleted) := MaybeSelfDestruct(cleared, o);
            Success((w3, [RanWndProc(o)] + deleted))
          else Success((w2, [RanWndProc(o)]))
  }

  /** A message sent to a window goes to the procedure installed on it. */
  function Deliver(w: World, h: Handle, m: Msg): (r: Result<(World, seq<Event>), Fault>)
    requires h in w.windows
    ensures r.Success? ==> r.value.0.windows.Keys == w.windows.Keys
  {
    match w.windows[h].proc
    case StaticProc => StaticWndProc(w, h, m)
    case SubclassProc => SubclassWndProc(w, h, m)
    case DialogProc => StaticDlgProc(w, h, m)
    case OtherProc(_) => Success((w, [RanForeign(h)]))
  }

  /** `::DestroyWindow(h)`: `WM_DESTROY`, then `WM_NCDESTROY`, then the window is gone. */
  function DestroyWindowOs(w: World, h: Handle): (r: Result<(World, seq<Event>), Fault>)
    requires h in w.windows
    ensures r.Success? ==> h !in r.value.0.windows
    ensures r.Success? ==> forall k :: k != h ==> (k in r.value.0.windows <==> k in w.windows)
  {
    var (w1, e1) :- Deliver(w, h, Destroy);
    var (w2, e2) :- Deliver(w1, h, NcDestroy);
    Success((w2.(windows := w2.windows - {h}), e1 + e2))
  }

  // ---------------------------------------------------------------------
  // DestroyWindow

  /**
   * `Wnd::DestroyWindow` as written: after `::DestroyWindow`, which may
   * already have deleted a self-destructing object during `WM_NCDESTROY`,
   * it unmaps the object and clears its saved procedure.  The `BOOL` result
   * is whether there was a window to destroy.
   */
  function DestroyWindowAsWritten(w: World, o: ObjId): (r: Result<(World, bool), Fault>)
    requires o in w.objs
    ensures r.Success? ==> o in r.value.0.objs && r.value.0.objs[o].prevproc == None
    ensures r.Success? ==> r.value.1 == (w.objs[o].hwnd in w.windows) && w.objs[o].hwnd !in r.value.0.windows
  {
    var h := w.objs[o].hwnd;
    var (w1, ok) :- if h in w.windows then
        var (destroyed, _) :- DestroyWindowOs(w, h);
        Success((destroyed, true))
      else Success((w, false));
    if o !in w1.objs then Failure(DanglingObject(o))
    else
      var unmapped := Unmap(w1, o);
      Success((unmapped.(objs := unmapped.objs[o := unmapped.objs[o].(prevproc := None)]), ok))
  }

  /**
   * `Wnd::DestroyWindow` as intended: the object is touched afterwards only
   * if it still exists.  It never faults unless the messages themselves do,
   * and leaves no window, and no saved procedure or mapping for a surviving
   * object.
   */
  function DestroyWindow(w: World, o: ObjId): (r: Result<(World, bool), Fault>)
    requires o in w.objs
    ensures w.objs[o].hwnd !in w.windows ==> r.Success?
    ensures w.objs[o].hwnd in w.windows && DestroyWindowOs(w, w.objs[o].hwnd).Success? ==> r.Success?
    ensures r.Success? ==> r.value.1 == (w.objs[o].hwnd in w.windows) && w.objs[o].hwnd !in r.value.0.windows
    ensures r.Success? && o in r.value.0.objs ==>
      r.value.0.objs[o].prevproc == None && Lookup(r.value.0, r.value.0.objs[o].hwnd) == None
  {
    var h := w.objs[o].hwnd;
    var (w1, ok) :- if h in w.windows then
        var (destroyed, _) :- DestroyWindowOs(w, h);
        Success((destroyed, true))
      else Success((w, false));
    if o !in w1.objs then Success((w1, ok))
    else
      var unmapped := Unmap(w1, o);
      Success((unmapped.(objs := unmapped.objs[o := unmapped.objs[o].(prevproc := None)]), ok))
  }

  /** A self-destructing object attached to window 7 of the library's own class, nothing else in the world. */
  function SelfDestructingWorld(): World
  {
    World(map[7 := Some(1)], map[1 := Obj(7, None, true)], map[7 := Window(StaticProc, StaticProc, Some(1), None)], None)
  }

  /** Destroying the window deletes the object during `WM_NCDESTROY`, and the code as written then uses it. */
  lemma DestroyWindowUsesDeletedObject()
    ensures DestroyWindowAsWritten(SelfDestructingWorld(), 1) == Failure(DanglingObject(1))
    ensures DestroyWindow(SelfDestructingWorld(), 1).Success?
    ensures 1 !in DestroyWindow(SelfDestructingWorld(), 1).value.0.objs
  {
    var w := SelfDestructingWorld();
    var (w1, e1) := StaticWndProc(w, 7, Destroy).value;
    assert w1 == w;
    var (w2, e2) := StaticWndProc(w1, 7, NcDestroy).value;
    assert 1 !in w2.objs;
  }

  // ---------------------------------------------------------------------
  // CreateIndirect

  /**
   * What the system answers while `CreateIndirect` runs: whether the class
   * is already registered and with which procedure, the procedure the
   * virtual `GetWndClass` puts in a class it registers (`StaticWndProc`
   * unless a subclass overrides it), whether registering it works, the handle the new window gets, whether the window procedure was
   * reached during creation, and whether `CreateWindowEx` returned the
   * window (it returns NULL when `WM_NCCREATE` or `WM_CREATE` refuses, after
   * the window has received `WM_NCDESTROY`).
   */
  datatype CreateOracle = CreateOracle(
    ownInstance: bool, registered: Option<Proc>, wndClassProc: Proc, registerOk: bool,
    hwnd: Handle, reached: bool, created: bool)

  predicate OracleOk(w: World, c: CreateOracle)
  {
    c.hwnd != NULL && c.hwnd !in w.windows && (c.created ==> c.reached)
  }

  /** The procedure of the class the window is created with. */
  function ClassProc(c: CreateOracle): Proc
  {
    if c.registered.Some? then c.registered.value else c.wndClassProc
  }

  /** The class exists when creation starts: it belongs to another instance, was registered already, or registering it worked. */
  predicate ClassReady(c: CreateOracle)
  {
    !c.ownInstance || c.registered.Some? || c.registerOk
  }

  /** `CreateIndirect` attaches after creation unless the class is the library's own, whose procedure binds the object itself. */
  predicate AttachesAfterwards(c: CreateOracle)
  {
    !(c.ownInstance && ClassProc(c) == StaticProc)
  }

  /**
   * `Wnd::CreateIndirect`, from the class check on.  For a class of the
   * library's own the object is left in `creatingWnd` for `StaticWndProc`
   * to take on the first message; creation fails if the slot is still set
   * afterwards, and the slot is then LEFT set, or if no window came back,
   * in which case the procedure has already taken the object and torn the
   * window down.  For any other class the window is created and then
   * attached.
   */
  function CreateIndirect(w: World, o: ObjId, c: CreateOracle, subclass: bool): (r: Result<(World, bool), Fault>)
    requires o in w.objs && OracleOk(w, c)
    ensures c.ownInstance && c.registered.None? && !c.registerOk ==> r == Success((w, false))
    ensures r.Success? && r.value.1 ==> c.created && c.hwnd in r.value.0.windows && o in r.value.0.objs && r.value.0.objs[o].hwnd == c.hwnd
    ensures r.Success? && r.value.1 && !AttachesAfterwards(c) ==>
      && r.value.0.creating == None && Lookup(r.value.0, c.hwnd) == Some(o) && r.value.0.windows[c.hwnd].slot == Some(o)
    ensures AttachesAfterwards(c) && !c.created ==> r == Success((w, false))
    ensures AttachesAfterwards(c) && ClassReady(c) && c.created ==>
      && r.Success? && r.value.1
      && var made := r.value.0;
      && made.creating == w.creating
      && (Lookup(w, c.hwnd).None? ==> Lookup(made, c.hwnd) == Some(o))
      && (subclass ==> made.windows[c.hwnd].proc == SubclassProc)
      && (w.objs[o].hwnd != c.hwnd ==>
            made.objs[o].prevproc == (if subclass then Some(ClassProc(c)) else None) &&
            made.windows[c.hwnd].proc == (if subclass then SubclassProc else ClassProc(c)))
    ensures !AttachesAfterwards(c) && (c.registered.Some? || c.registerOk) && !c.reached ==>
      r == Success((w.(creating := Some(o)), false))
    ensures !AttachesAfterwards(c) && (c.registered.Some? || c.registerOk) && c.reached && c.created ==>
      r.Success? && r.value.1
  {
    if c.ownInstance && c.registered.None? && !c.registerOk then Success((w, false))
    else if AttachesAfterwards(c) then
      if !c.created then Success((w, false))
      else
        var withWindow := w.(windows := w.windows[c.hwnd := Window(ClassProc(c), ClassProc(c), None, None)]);
        Success((Attach(withWindow, o, c.hwnd, subclass), true))
    else
      var pending := w.(creating := Some(o));
      if !c.reached then Success((pending, false))
      else
        var withWindow := pending.(windows := pending.windows[c.hwnd := Window(StaticProc, StaticProc, None, None)]);
        var (w1, _) :- StaticWndProc(withWindow, c.hwnd, OtherMsg);
        var w2 :-
          if c.created then Success(w1)
          else
            var (torn, _) :- StaticWndProc(w1, c.hwnd, NcDestroy);
            Success(torn.(windows := torn.windows - {c.hwnd}));
        if w2.creating.Some? then Success((w2, false))
        else if !c.created then Success((w2, false))
        else Success((w2, true))
  }

  /**
   * When `CreateWindowEx` refuses a window of the library's own class after
   * its procedure ran, the procedure has already taken the object: the slot
   * is clear, the window and its mapping are gone, and a self-destructing
   * object has been deleted.  The result is false.
   */
  lemma CreationRefusedAfterProcedure(w: World, o: ObjId, c: CreateOracle, subclass: bool)
    requires o in w.objs && OracleOk(w, c)
    requires !AttachesAfterwards(c) && (c.registered.Some? || c.registerOk) && c.reached && !c.created
    ensures var r := CreateIndirect(w, o, c, subclass);
      && r.Success? && !r.value.1
      && r.value.0.creating == None && c.hwnd !in r.value.0.windows && Lookup(r.value.0, c.hwnd) == None
      && (w.objs[o].selfDestruct <==> o !in r.value.0.objs)
  {
  }

  // ---------------------------------------------------------------------
  // The registry invariant

  /**
   * The registry agrees with the objects: a handle mapped to an object is
   * the handle that object records (so each object is mapped under one
   * handle at most, and only live objects are mapped), and the object
   * waiting in `creatingWnd` is mapped under none.
   */
  ghost predicate Coherent(w: World)
  {
    && (forall h :: h in w.wndMap && w.wndMap[h].Some? ==> w.wndMap[h].value in w.objs && w.objs[w.wndMap[h].value].hwnd == h)
    && (w.creating.Some? ==> forall h :: h in w.wndMap ==> w.wndMap[h] != w.creating)
  }

  /** An object no handle maps to and that is not waiting in `creatingWnd`: a freshly constructed one, or one detached since. */
  ghost predicate Unbound(w: World, o: ObjId)
  {
    w.creating != Some(o) && forall h :: h in w.wndMap ==> w.wndMap[h] != Some(o)
  }

  /** In a coherent registry the only entry that can name an object is the one under its own handle. */
  lemma OnlyOwnHandle(w: World, o: ObjId, h: Handle)
    requires Coherent(w) && o in w.objs && Lookup(w, h) == Some(o)
    ensures h == w.objs[o].hwnd
  {
  }

  /** So an object not found under its own handle is found under none. */
  lemma NothingMapsTo(w: World, o: ObjId)
    requires Coherent(w) && o in w.objs && Lookup(w, w.objs[o].hwnd) != Some(o)
    ensures forall h :: h in w.wndMap ==> w.wndMap[h] != Some(o)
  {
  }

  lemma UnmapCoherent(w: World, o: ObjId)
    requires Coherent(w) && o in w.objs
    ensures Coherent(Unmap(w, o))
    ensures Lookup(Unmap(w, o), w.objs[o].hwnd) != Some(o)
  {
  }

  lemma DeleteCoherent(w: World, o: ObjId)
    requires Coherent(w) && o in w.objs
    ensures Coherent(Delete(w, o))
  {
    UnmapCoherent(w, o);
    NothingMapsTo(Unmap(w, o), o);
  }

  lemma MaybeSelfDestructCoherent(w: World, o: ObjId)
    requires Coherent(w) && o in w.objs
    ensures Coherent(MaybeSelfDestruct(w, o).0)
  {
    if w.objs[o].selfDestruct {
      DeleteCoherent(w, o);
    }
  }

  /** Binding an object no handle maps to under a new handle keeps the registry coherent. */
  lemma BindCoherent(w: World, h: Handle, o: ObjId)
    requires Coherent(w) && o in w.objs && Unbound(w, o)
    ensures Coherent(SetHWnd(Map(w, h, o), o, h))
  {
  }

  /** `StaticWndProc` keeps the registry coherent, whatever the message. */
  lemma StaticWndProcCoherent(w: World, h: Handle, m: Msg)
    requires h in w.windows && Coherent(w) && StaticWndProc(w, h, m).Success?
    ensures Coherent(StaticWndProc(w, h, m).value.0)
  {
    var w1: World, o: ObjId;
    if w.windows[h].slot.Some? {
      w1, o := w, w.windows[h].slot.value;
    } else if w.creating.None? {
      return;
    } else {
      o := w.creating.value;
      var cleared := w.(creating := None);
      BindCoherent(cleared, h, o);
      var taken := Map(cleared, h, o);
      var stored := taken.(windows := taken.windows[h := taken.windows[h].(slot := Some(o))]);
      w1 := SetHWnd(stored, o, h);
      assert w1.wndMap == SetHWnd(taken, o, h).wndMap && w1.objs == SetHWnd(taken, o, h).objs;
    }
    if m == NcDestroy {
      UnmapCoherent(w1, o);
      MaybeSelfDestructCoherent(Unmap(w1, o), o);
    }
  }

  /** `SubclassWndProc` keeps the registry coherent, whatever the message. */
  lemma SubclassWndProcCoherent(w: World, h: Handle, m: Msg)
    requires Coherent(w) && SubclassWndProc(w, h, m).Success?
    ensures Coherent(SubclassWndProc(w, h, m).value.0)
  {
    var (w1, owner) := FindWnd(w, h);
    assert Coherent(w1);
    if owner.Some? && m == NcDestroy {
      UnmapCoherent(w1, owner.value);
      MaybeSelfDestructCoherent(Unmap(w1, owner.value), owner.value);
    }
  }

  /**
   * What the dialog manager's messages must satisfy for `StaticDlgProc` to
   * keep the registry coherent: `WM_INITDIALOG` carries an unbound dialog
   * object, and `WM_NCDESTROY` comes after the `WM_DESTROY` that unmapped
   * the dialog's object.
   */
  ghost predicate DialogOrder(w: World, h: Handle, m: Msg)
    requires h in w.windows
  {
    && (m.InitDialog? && m.param.Some? ==> Unbound(w, m.param.value))
    && (m == NcDestroy && w.windows[h].dlgUser.Some? && w.windows[h].dlgUser.value in w.objs ==>
          Lookup(w, w.objs[w.windows[h].dlgUser.value].hwnd) != w.windows[h].dlgUser)
  }

  /** `StaticDlgProc` keeps the registry coherent for messages in the dialog manager's order. */
  lemma StaticDlgProcCoherent(w: World, h: Handle, m: Msg)
    requires h in w.windows && Coherent(w) && DialogOrder(w, h, m) && StaticDlgProc(w, h, m).Success?
    ensures Coherent(StaticDlgProc(w, h, m).value.0)
  {
    if m == InitDialog(None) {
      return;
    }
    var w1: World;
    if m.InitDialog? {
      var o := m.param.value;
      BindCoherent(w, h, o);
      var adopted := SetHWnd(Map(w, h, o), o, h);
      w1 := adopted.(windows := adopted.windows[h := adopted.windows[h].(dlgUser := Some(o))]);
      assert Coherent(w1);
    } else {
      w1 := w;
    }
    var wnd := w1.windows[h].dlgUser;
    if wnd.Some? && wnd.value in w1.objs {
      var o := wnd.value;
      if m == Destroy {
        UnmapCoherent(w1, o);
      } else if m == NcDestroy {
        var moved := SetHWnd(w1, o, NULL);
        NothingMapsTo(w1, o);
        assert Coherent(moved);
        UnmapCoherent(moved, o);
        MaybeSelfDestructCoherent(Unmap(moved, o), o);
      }
    }
  }

  /** Every delivery in the order the system makes it keeps the registry coherent. */
  lemma DeliverCoherent(w: World, h: Handle, m: Msg)
    requires h in w.windows && Coherent(w) && Deliver(w, h, m).Success?
    requires w.windows[h].proc == DialogProc ==> DialogOrder(w, h, m)
    ensures Coherent(Deliver(w, h, m).value.0)
  {
    match w.windows[h].proc
    case StaticProc => StaticWndProcCoherent(w, h, m);
    case SubclassProc => SubclassWndProcCoherent(w, h, m);
    case DialogProc => StaticDlgProcCoherent(w, h, m);
    case OtherProc(_) =>
  }

  /** `::DestroyWindow` keeps the registry coherent: its `WM_DESTROY` unmaps a dialog's object before its `WM_NCDESTROY`. */
  lemma DestroyWindowOsCoherent(w: World, h: Handle)
    requires h in w.windows && Coherent(w) && DestroyWindowOs(w, h).Success?
    ensures Coherent(DestroyWindowOs(w, h).value.0)
  {
    DeliverCoherent(w, h, Destroy);
    var w1 := Deliver(w, h, Destroy).value.0;
    if w.windows[h].proc == DialogProc {
      assert Deliver(w, h, Destroy) == StaticDlgProc(w, h, Destroy);
      var user := w.windows[h].dlgUser;
      if user.Some? && user.value in w.objs {
        assert w1 == Unmap(w, user.value);
      } else {
        assert w1 == w;
      }
      assert DialogOrder(w1, h, NcDestroy);
    }
    assert w1.windows[h].proc == w.windows[h].proc;
    DeliverCoherent(w1, h, NcDestroy);
  }

  /** The corrected `DestroyWindow` keeps the registry coherent. */
  lemma DestroyWindowCoherent(w: World, o: ObjId)
    requires o in w.objs && Coherent(w) && DestroyWindow(w, o).Success?
    ensures Coherent(DestroyWindow(w, o).value.0)
  {
    var h := w.objs[o].hwnd;
    var w1 := w;
    if h in w.windows {
      DestroyWindowOsCoherent(w, h);
      w1 := DestroyWindowOs(w, h).value.0;
    }
    if o in w1.objs {
      UnmapCoherent(w1, o);
    }
  }

  /** `Detach` keeps the registry coherent and leaves no handle mapped to the object. */
  lemma DetachCoherent(w: World, o: ObjId)
    requires o in w.objs && Coherent(w)
    ensures Coherent(Detach(w, o).0)
    ensures forall h :: h in Detach(w, o).0.wndMap ==> Detach(w, o).0.wndMap[h] != Some(o)
  {
    var r := Detach(w, o).0;
    assert forall p :: p in r.objs ==> r.objs[p].hwnd == w.objs[p].hwnd;
    forall h | h in r.wndMap
      ensures r.wndMap[h] == Lookup(w, h) || r.wndMap[h] == None
    {
      assert Lookup(r, h) == r.wndMap[h];
    }
  }

  /** `Adopt` keeps the registry coherent for an unbound object. */
  lemma AdoptCoherent(w: World, o: ObjId, h: Handle)
    requires o in w.objs && Coherent(w) && Unbound(w, o)
    ensures Coherent(Adopt(w, o, h))
  {
    var (found, owner) := FindWnd(w, h);
    assert found.wndMap.Keys == w.wndMap.Keys + {h};
    assert forall k :: k in found.wndMap ==> found.wndMap[k] == Lookup(w, k);
    assert Coherent(found) && Unbound(found, o);
    if owner.None? {
      BindCoherent(found, h, o);
    }
  }

  /** `Attach` keeps the registry coherent for an object that is not waiting in `creatingWnd`. */
  lemma AttachCoherent(w: World, o: ObjId, h: Handle, subclass: bool)
    requires o in w.objs && h != NULL && Coherent(w) && w.creating != Some(o)
    ensures Coherent(Attach(w, o, h, subclass))
  {
    DetachCoherent(w, o);
    var detached := Detach(w, o).0;
    AdoptCoherent(detached, o, h);
    var adopted := Adopt(detached, o, h);
    if subclass {
      var r := Subclass(adopted, o, h);
      assert r.wndMap == adopted.wndMap && r.creating == adopted.creating;
      assert forall p :: p in r.objs ==> p in adopted.objs && r.objs[p].hwnd == adopted.objs[p].hwnd;
    }
  }

  /** Creating a window for an unbound object keeps the registry coherent, whichever way creation goes. */
  lemma CreateIndirectCoherent(w: World, o: ObjId, c: CreateOracle, subclass: bool)
    requires o in w.objs && OracleOk(w, c) && Coherent(w) && Unbound(w, o)
    requires CreateIndirect(w, o, c, subclass).Success?
    ensures Coherent(CreateIndirect(w, o, c, subclass).value.0)
  {
    if c.ownInstance && c.registered.None? && !c.registerOk {
    } else if AttachesAfterwards(c) {
      if c.created {
        var withWindow := w.(windows := w.windows[c.hwnd := Window(ClassProc(c), ClassProc(c), None, None)]);
        AttachCoherent(withWindow, o, c.hwnd, subclass);
      }
    } else {
      var pending := w.(creating := Some(o));
      if c.reached {
        var withWindow := pending.(windows := pending.windows[c.hwnd := Window(StaticProc, StaticProc, None, None)]);
        assert Coherent(withWindow);
        StaticWndProcCoherent(withWindow, c.hwnd, OtherMsg);
        var w1 := StaticWndProc(withWindow, c.hwnd, OtherMsg).value.0;
        if !c.created {
          StaticWndProcCoherent(w1, c.hwnd, NcDestroy);
        }
      }
    }
  }

  /**
   * The life of a window of the library's own class: created for `o`, then
   * destroyed.  `o`'s `WndProc` sees `WM_DESTROY` and `WM_NCDESTROY`, and a
   * self-destructing object is deleted only after the second; the handle is
   * unmapped afterwards; the corrected `DestroyWindow` succeeds, while the
   * code as written faults exactly when the object self-destructs.
   */
  lemma OwnClassLifecycle(w: World, o: ObjId, c: CreateOracle, subclass: bool)
    requires o in w.objs && OracleOk(w, c)
    requires !AttachesAfterwards(c) && (c.registered.Some? || c.registerOk) && c.created
    ensures CreateIndirect(w, o, c, subclass).Success? && CreateIndirect(w, o, c, subclass).value.1
    ensures var made := CreateIndirect(w, o, c, subclass).value.0;
      && DestroyWindowOs(made, c.hwnd).Success?
      && var (gone, events) := DestroyWindowOs(made, c.hwnd).value;
      && events == [RanWndProc(o), RanWndProc(o)] + (if w.objs[o].selfDestruct then [Deleted(o)] else [])
      && Lookup(gone, c.hwnd) == None
      && (w.objs[o].selfDestruct <==> o !in gone.objs)
    ensures var made := CreateIndirect(w, o, c, subclass).value.0;
      && DestroyWindow(made, o).Success? && Lookup(DestroyWindow(made, o).value.0, c.hwnd) == None
      && (DestroyWindowAsWritten(made, o).Failure? <==> w.objs[o].selfDestruct)
  {
    var made := CreateIndirect(w, o, c, subclass).value.0;
    assert made.objs[o].hwnd == c.hwnd && made.windows[c.hwnd].proc == StaticProc && made.windows[c.hwnd].slot == Some(o);
    assert made.objs[o].selfDestruct == w.objs[o].selfDestruct;
    var (w1, e1) := StaticWndProc(made, c.hwnd, Destroy).value;
    assert w1 == made && e1 == [RanWndProc(o)];
  }
}
