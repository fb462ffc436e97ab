/**
 * The message tables the `WND_WM_*` macros of WndLib.h generate, and the
 * fixed dispatch of `Dlg::WndProc` and `Dlg::EndDialog` (WndLib.cpp).
 *
 * A table is the sequence of entries written between `WND_WM_BEGIN` and
 * `WND_WM_END`.  Handlers are user code: what one returns is given as a
 * function of the entry's position and the message, and so is what the
 * base class's `WndProc` returns.
 */
module MessageMap {
  import opened Wrappers

  const WM_NOTIFY: int := 0x004E
  const WM_INITDIALOG: int := 0x0110
  const WM_COMMAND: int := 0x0111

  const IDOK: int := 1
  const IDCANCEL: int := 2
  const BN_CLICKED: int := 0

  const TRUE: int := 1
  const FALSE: int := 0

  /**
   * A message as the tables see it: its number, the low and high words of
   * its `WPARAM` (for `WM_COMMAND`, the control id and the notification
   * code), and for `WM_NOTIFY` the `code` of the `NMHDR` its `LPARAM` points to.
   */
  datatype Message = Message(msg: int, loWord: int, hiWord: int, notifyCode: int)

  /** One line of a message table. */
  datatype Entry =
    | OnMessage(msg: int)         // WND_WM(msg, handler)
    | OnCommand(id: int)          // WND_WM_COMMAND(id, handler)
    | OnNotify(code: int)         // WND_WM_NOTIFY(code, handler)

  /** The condition each macro tests. */
  predicate Matches(e: Entry, m: Message)
  {
    match e
    case OnMessage(msg) => m.msg == msg
    case OnCommand(id) => m.msg == WM_COMMAND && m.loWord == id
    case OnNotify(code) => m.msg == WM_NOTIFY && m.notifyCode == code
  }

  /** The positions of the entries that would accept `m`. */
  function Matching(table: seq<Entry>, m: Message): set<nat>
  {
    set i: nat | i < |table| && Matches(table[i], m)
  }

  /**
   * `WmDispatch` from position `from` on: the first entry that accepts the
   * message, or none.  The generated code is a chain of `if`s, each returning
   * on a match, ended by `return false`.
   */
  function DispatchFrom(table: seq<Entry>, m: Message, from: nat): (r: Option<nat>)
    requires from <= |table|
    ensures r.Some? ==> from <= r.value < |table| && Matches(table[r.value], m)
    ensures r.Some? ==> forall j :: from <= j < r.value ==> !Matches(table[j], m)
    ensures r.None? ==> forall j :: from <= j < |table| ==> !Matches(table[j], m)
    decreases |table| - from
  {
    if from == |table| then None
    else if Matches(table[from], m) then Some(from)
    else DispatchFrom(table, m, from + 1)
  }

  function WmDispatch(table: seq<Entry>, m: Message): Option<nat>
  {
    DispatchFrom(table, m, 0)
  }

  /** The entry `WmDispatch` runs is the earliest one that accepts the message, and it runs one exactly when some entry accepts. */
  lemma DispatchIsFirstMatch(table: seq<Entry>, m: Message)
    ensures WmDispatch(table, m).None? <==> Matching(table, m) == {}
    ensures WmDispatch(table, m).Some? ==>
      WmDispatch(table, m).value in Matching(table, m) &&
      forall i :: i in Matching(table, m) ==> WmDispatch(table, m).value <= i
  {
    var r := WmDispatch(table, m);
    if r.Some? {
      assert r.value in Matching(table, m);
    }
  }

  /** Entries appended after a table only see the messages the table lets through. */
  lemma {:induction false} DispatchAppend(first: seq<Entry>, second: seq<Entry>, m: Message, from: nat)
    requires from <= |first|
    ensures DispatchFrom(first + second, m, from) ==
      match DispatchFrom(first, m, from)
      case Some(i) => Some(i)
      case None => match DispatchFrom(second, m, 0) case Some(j) => Some(|first| + j) case None => None
    decreases |first| - from
  {
    if from == |first| {
      DispatchShift(first, second, m, 0);
    } else {
      assert (first + second)[from] == first[from];
      if !Matches(first[from], m) {
        DispatchAppend(first, second, m, from + 1);
      }
    }
  }

  lemma {:induction false} DispatchShift(first: seq<Entry>, second: seq<Entry>, m: Message, from: nat)
    requires from <= |second|
    ensures DispatchFrom(first + second, m, |first| + from) ==
      match DispatchFrom(second, m, from) case Some(j) => Some(|first| + j) case None => None
    decreases |second| - from
  {
    if from < |second| {
      assert (first + second)[|first| + from] == second[from];
      DispatchShift(first, second, m, from + 1);
    }
  }

  /** `WND_WM_COMMAND` accepts a command by its id alone, whatever the notification code. */
  lemma CommandIgnoresHighWord(table: seq<Entry>, id: int, hi1: int, hi2: int, notifyCode: int)
    ensures WmDispatch(table, Message(WM_COMMAND, id, hi1, notifyCode)) == WmDispatch(table, Message(WM_COMMAND, id, hi2, notifyCode))
  {
    forall from | 0 <= from <= |table|
      ensures DispatchFrom(table, Message(WM_COMMAND, id, hi1, notifyCode), from) == DispatchFrom(table, Message(WM_COMMAND, id, hi2, notifyCode), from)
    {
      SameVerdictSameDispatch(table, Message(WM_COMMAND, id, hi1, notifyCode), Message(WM_COMMAND, id, hi2, notifyCode), from);
    }
  }

  /** Two messages every entry treats alike are dispatched alike. */
  lemma {:induction false} SameVerdictSameDispatch(table: seq<Entry>, m1: Message, m2: Message, from: nat)
    requires from <= |table|
    requires forall e :: Matches(e, m1) == Matches(e, m2)
    ensures DispatchFrom(table, m1, from) == DispatchFrom(table, m2, from)
    decreases |table| - from
  {
    if from < |table| {
      SameVerdictSameDispatch(table, m1, m2, from + 1);
    }
  }

  /**
   * The `WndProc` that `WND_WM_BEGIN` generates: the matched entry's handler
   * when `WmDispatch` finds one, and the base class's `WndProc` exactly when
   * it does not.
   */
  function WndProc(table: seq<Entry>, m: Message, handler: (nat, Message) -> int, base: Message -> int): (r: int)
    ensures Matching(table, m) == {} ==> r == base(m)
    ensures forall i :: i in Matching(table, m) && (forall j :: j in Matching(table, m) ==> i <= j) ==> r == handler(i, m)
  {
    DispatchIsFirstMatch(table, m);
    match WmDispatch(table, m)
    case Some(i) => handler(i, m)
    case None => base(m)
  }

  // ---------------------------------------------------------------------
  // Dlg

  /** What `Dlg::WndProc` does besides returning. */
  datatype DlgAction = NoAction | CentreAndClamp | CallOnOK | CallOnCancel

  /** A button click from the control `id`. */
  predicate ClickedFrom(m: Message, id: int)
  {
    m.msg == WM_COMMAND && m.loWord == id && m.hiWord == BN_CLICKED
  }

  /**
   * `Dlg::WndProc`: `WM_INITDIALOG` centres the dialog on its parent and
   * clamps it to the desktop; a click on IDOK or IDCANCEL calls `OnOK` or
   * `OnCancel`.  The dialog procedure returns TRUE exactly when one of these
   * ran, so the dialog manager does its default processing otherwise.
   */
  function DlgWndProc(m: Message): (r: (int, DlgAction))
    ensures r.0 == TRUE <==> r.1 != NoAction
    ensures r.0 == TRUE || r.0 == FALSE
    ensures r.1 == CentreAndClamp <==> m.msg == WM_INITDIALOG
    ensures r.1 == CallOnOK <==> ClickedFrom(m, IDOK)
    ensures r.1 == CallOnCancel <==> ClickedFrom(m, IDCANCEL)
  {
    if m.msg == WM_INITDIALOG then (TRUE, CentreAndClamp)
    else if m.msg == WM_COMMAND && m.loWord == IDOK then
      if m.hiWord == BN_CLICKED then (TRUE, CallOnOK) else (FALSE, NoAction)
    else if m.msg == WM_COMMAND && m.loWord == IDCANCEL then
      if m.hiWord == BN_CLICKED then (TRUE, CallOnCancel) else (FALSE, NoAction)
    else (FALSE, NoAction)
  }

  /**
   * The part of a `Dlg` that `EndDialog` touches.  `endedWith` is the code a
   * modal dialog was asked to end with through `::EndDialog`.
   */
  datatype DlgState = DlgState(modeless: bool, visible: bool, result: int, endedWith: Option<int>)

  /**
   * `Dlg::EndDialog(result)`.  A modeless dialog is hidden (if it was
   * visible) and keeps `result` for `GetResult`; the call succeeds.  A modal
   * dialog is ended by the dialog manager, whose answer `endOk` is returned.
   */
  function EndDialog(d: DlgState, result: int, endOk: bool): (r: (DlgState, bool))
    ensures d.modeless ==> r.1 && !r.0.visible && r.0.result == result && r.0.endedWith == d.endedWith
    ensures !d.modeless ==> r.1 == endOk && r.0.visible == d.visible && r.0.result == d.result
    ensures !d.modeless && endOk ==> r.0.endedWith == Some(result)
    ensures r.0.modeless == d.modeless
  {
    if d.modeless then (d.(visible := false, result := result), true)
    else (d.(endedWith := if endOk then Some(result) else d.endedWith), endOk)
  }

  /**
   * A click on OK or Cancel ends the dialog with that button's id, through
   * `OnOK`/`OnCancel` and `EndDialog`: a modeless dialog is left hidden with
   * the id as its result.
   */
  function DlgCommand(d: DlgState, m: Message, endOk: bool): (r: (int, DlgState))
  {
    var proc := DlgWndProc(m);
    if proc.1 == CallOnOK then (proc.0, EndDialog(d, IDOK, endOk).0)
    else if proc.1 == CallOnCancel then (proc.0, EndDialog(d, IDCANCEL, endOk).0)
    else (proc.0, d)
  }

  lemma ButtonsEndModelessDialog(d: DlgState, lo: int, endOk: bool)
    requires d.modeless && (lo == IDOK || lo == IDCANCEL)
    ensures var r := DlgCommand(d, Message(WM_COMMAND, lo, BN_CLICKED, 0), endOk);
      r.0 == TRUE && !r.1.visible && r.1.result == lo
  {
  }

  /** Any other notification from the OK or Cancel button leaves the dialog as it was. */
  lemma OtherNotificationsIgnored(d: DlgState, lo: int, hi: int, endOk: bool)
    requires hi != BN_CLICKED
    ensures DlgCommand(d, Message(WM_COMMAND, lo, hi, 0), endOk) == (FALSE, d)
  {
  }
}
