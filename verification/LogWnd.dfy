/**
 * `LogWnd` (LogWnd.cpp): a window whose rich-edit control collects coloured
 * log lines.  `Log` queues an entry; `ProcessQueue` drains the queue in order
 * into the control, normalising line breaks to CR LF and writing in pieces of
 * at most 255 characters, then shows the window according to the most
 * urgent entry.
 *
 * The edit control's contents are a sequence of cells, each a character with
 * the colour it was written in.  Whether the window is visible, and whether
 * `Log` runs on the window's thread, are given.
 */
module LogWnd {
  import opened Wrappers
  import opened WindowTree
  import opened TCharStrings

  const CR: int := 13
  const LF: int := 10

  /** `TCHAR buf[256]` holds 255 characters and a terminator. */
  const RAW_CHUNK: nat := 255

  // ShowWindow commands
  const SW_HIDE: int := 0
  const SW_SHOWNORMAL: int := 1
  const SW_SHOWNOACTIVATE: int := 4

  /** `LogWnd::ShowCommand`, in increasing urgency. */
  datatype ShowCommand = NoChange | ShowInBackground | ShowInForeground | Alert

  function Urgency(c: ShowCommand): nat
  {
    match c
    case NoChange => 0
    case ShowInBackground => 1
    case ShowInForeground => 2
    case Alert => 3
  }

  /** A queued `LogEntry`: its text as given to `Log`, colour and show command. */
  datatype Entry = Entry(text: seq<int>, colour: int, show: ShowCommand)

  datatype Cell = Cell(unit: int, colour: int)

  /**
   * The state of a log window: the queued entries, head first; whether the
   * user closed it; the edit control's contents; the colour of the current
   * character format.
   */
  datatype LogState = LogState(queue: seq<Entry>, userDidClose: bool, text: seq<Cell>, colour: int)

  /** A new `LogWnd`: an empty queue, and the user has not closed it. */
  function NewLogWnd(text: seq<Cell>, colour: int): (w: LogState)
    ensures w.queue == [] && !w.userDidClose
  {
    LogState([], false, text, colour)
  }

  // ---------------------------------------------------------------------
  // Text

  /** `s` written in `colour`. */
  function Paint(s: seq<int>, colour: int): (r: seq<Cell>)
    ensures |r| == |s|
  {
    if |s| == 0 then [] else [Cell(s[0], colour)] + Paint(s[1..], colour)
  }

  /** Each character keeps its place and takes the colour. */
  lemma {:induction false} PaintAt(s: seq<int>, colour: int, k: nat)
    requires k < |s|
    ensures Paint(s, colour)[k] == Cell(s[k], colour)
    decreases k
  {
    if k > 0 {
      PaintAt(s[1..], colour, k - 1);
    }
  }

  lemma {:induction false} PaintAppend(a: seq<int>, b: seq<int>, colour: int)
    ensures Paint(a + b, colour) == Paint(a, colour) + Paint(b, colour)
    decreases |a|
  {
    if |a| == 0 {
      assert a + b == b;
    } else {
      assert (a + b)[1..] == a[1..] + b;
      PaintAppend(a[1..], b, colour);
    }
  }

  /** The pieces joined together. */
  function Concat(pieces: seq<seq<int>>): seq<int>
  {
    if |pieces| == 0 then [] else Concat(pieces[..|pieces| - 1]) + pieces[|pieces| - 1]
  }

  /** Without line-break characters. */
  predicate Plain(s: seq<int>)
  {
    forall k :: 0 <= k < |s| ==> s[k] != CR && s[k] != LF
  }

  /** What the log shows for `s`: every CR dropped and every LF written as CR LF. */
  function Expand(s: seq<int>): seq<int>
  {
    if |s| == 0 then []
    else (if s[0] == CR then [] else if s[0] == LF then [CR, LF] else [s[0]]) + Expand(s[1..])
  }

  lemma {:induction false} ExpandAppend(a: seq<int>, b: seq<int>)
    ensures Expand(a + b) == Expand(a) + Expand(b)
    decreases |a|
  {
    if |a| == 0 {
      assert a + b == b;
    } else {
      assert (a + b)[1..] == a[1..] + b;
      ExpandAppend(a[1..], b);
    }
  }

  lemma {:induction false} ExpandPlain(s: seq<int>)
    requires Plain(s)
    ensures Expand(s) == s
    decreases |s|
  {
    if |s| > 0 {
      ExpandPlain(s[1..]);
    }
  }

  /** Every CR is followed by an LF and every LF preceded by a CR. */
  predicate Paired(e: seq<int>)
  {
    (forall k :: 0 <= k < |e| && e[k] == CR ==> k + 1 < |e| && e[k + 1] == LF) &&
    (forall k :: 0 <= k < |e| && e[k] == LF ==> k > 0 && e[k - 1] == CR)
  }

  lemma PairedConcat(a: seq<int>, b: seq<int>)
    requires Paired(a) && Paired(b)
    ensures Paired(a + b)
  {
    assert forall k :: 0 <= k < |a + b| ==> (a + b)[k] == if k < |a| then a[k] else b[k - |a|];
  }

  /** The expanded text has only CR LF pairs as line breaks: no lone CR and no lone LF. */
  lemma {:induction false} ExpandPairsBreaks(s: seq<int>)
    ensures Paired(Expand(s))
    decreases |s|
  {
    if |s| > 0 {
      ExpandPairsBreaks(s[1..]);
      var head := if s[0] == CR then [] else if s[0] == LF then [CR, LF] else [s[0]];
      assert Paired(head);
      PairedConcat(head, Expand(s[1..]));
    }
  }

  /**
   * `AppendEditControlRaw(string, length)`: the `length` characters are
   * copied through a 256-character buffer, at most 255 at a time, each piece
   * appended at the end of the control in the current colour.  `lstrcpyn`
   * stops at a NUL, so a piece is what precedes any NUL in its span.
   */
  method AppendEditControlRaw(text: seq<Cell>, colour: int, s: seq<int>) returns (text': seq<Cell>, pieces: seq<seq<int>>)
    ensures text' == text + Paint(Concat(pieces), colour)
    ensures forall k :: 0 <= k < |pieces| ==> |pieces[k]| <= RAW_CHUNK
    ensures IsText(s) ==> Concat(pieces) == s && Chunked(pieces)
  {
    text' := text;
    pieces := [];
    var p := 0;
    while p != |s|
      invariant p <= |s|
      invariant text' == text + Paint(Concat(pieces), colour)
      invariant forall k :: 0 <= k < |pieces| ==> |pieces[k]| <= RAW_CHUNK
      invariant IsText(s) ==> Concat(pieces) == s[..p] && Chunked(pieces) && (p < |s| ==> AllFull(pieces))
    {
      var length := |s| - p;
      var thistime := if length >= RAW_CHUNK + 1 then RAW_CHUNK else length;
      var piece := Text(s[p..p + thistime]);
      PaintAppend(Concat(pieces), piece, colour);
      ConcatSnoc(pieces, piece);
      if IsText(s) {
        RawStep(s, p, thistime, pieces);
      }
      pieces := pieces + [piece];
      text' := text' + Paint(piece, colour);
      p := p + thistime;
    }
  }

  /** Every piece is non-empty and all but the last are full. */
  predicate Chunked(pieces: seq<seq<int>>)
  {
    forall k :: 0 <= k < |pieces| ==> 0 < |pieces[k]| && (k < |pieces| - 1 ==> |pieces[k]| == RAW_CHUNK)
  }

  predicate AllFull(pieces: seq<seq<int>>)
  {
    forall k :: 0 <= k < |pieces| ==> |pieces[k]| == RAW_CHUNK
  }

  lemma ConcatSnoc(pieces: seq<seq<int>>, piece: seq<int>)
    ensures Concat(pieces + [piece]) == Concat(pieces) + piece
  {
    assert (pieces + [piece])[..|pieces|] == pieces;
  }

  /** One round of the copy loop on text without a NUL: the piece is the span itself, full unless it is the last. */
  lemma RawStep(s: seq<int>, p: nat, t: nat, pieces: seq<seq<int>>)
    requires IsText(s) && 0 < t <= RAW_CHUNK && p + t <= |s| && (t < RAW_CHUNK ==> p + t == |s|)
    requires Concat(pieces) == s[..p] && Chunked(pieces) && (p < |s| ==> AllFull(pieces))
    ensures Text(s[p..p + t]) == s[p..p + t]
    ensures Concat(pieces) + s[p..p + t] == s[..p + t]
    ensures Chunked(pieces + [s[p..p + t]])
    ensures p + t < |s| ==> AllFull(pieces + [s[p..p + t]])
  {
    TextOfText(s[p..p + t]);
    assert s[..p] + s[p..p + t] == s[..p + t];
  }

  /**
   * `AppendEditControl(string)`: the string up to its NUL is split at line
   * breaks; each run between breaks is appended raw, each LF becomes a raw
   * CR LF and each CR is dropped.  `appends` are the raw appends, in order.
   */
  method AppendEditControl(text: seq<Cell>, colour: int, buffer: seq<int>) returns (text': seq<Cell>, appends: seq<seq<int>>)
    ensures text' == text + Paint(Expand(Text(buffer)), colour)
    ensures Concat(appends) == Expand(Text(buffer))
    ensures RawAppends(appends)
  {
    text', appends := AppendLines(text, colour, Text(buffer));
  }

  /** The loop of `AppendEditControl` over the `lstrlen` characters of its string. */
  method AppendLines(text: seq<Cell>, colour: int, s: seq<int>) returns (text': seq<Cell>, appends: seq<seq<int>>)
    requires IsText(s)
    ensures text' == text + Paint(Expand(s), colour)
    ensures Concat(appends) == Expand(s)
    ensures RawAppends(appends)
  {
    text' := text;
    appends := [];
    var i := 0;
    while true
      invariant i <= |s|
      invariant text' == text + Paint(Concat(appends), colour)
      invariant Concat(appends) == Expand(s[..i])
      invariant RawAppends(appends)
      decreases |s| - i
    {
      var start := i;
      i := FindBreak(s, start);
      var run := s[start..i];
      ExpandRun(s, start, i);
      if i != start {
        assert IsText(run);
        text', appends := AppendPiece(text, colour, text', appends, run);
      }
      if i == |s| {
        break;
      }
      ExpandBreak(s, i);
      if s[i] == LF {
        text', appends := AppendPiece(text, colour, text', appends, [CR, LF]);
      }
      i := i + 1;
    }
    assert s[..|s|] == s;
  }

  /** `while (string != end && *string != '\n' && *string != '\r') string++;` */
  method FindBreak(s: seq<int>, start: nat) returns (i: nat)
    requires start <= |s|
    ensures start <= i <= |s|
    ensures forall k :: start <= k < i ==> s[k] != CR && s[k] != LF
    ensures i < |s| ==> s[i] == CR || s[i] == LF
  {
    i := start;
    while i < |s| && s[i] != LF && s[i] != CR
      invariant start <= i <= |s|
      invariant forall k :: start <= k < i ==> s[k] != CR && s[k] != LF
    {
      i := i + 1;
    }
  }

  /** Each raw append is a CR LF pair or a non-empty run without line breaks. */
  predicate RawAppends(appends: seq<seq<int>>)
  {
    forall k :: 0 <= k < |appends| ==> appends[k] != [] && (appends[k] == [CR, LF] || Plain(appends[k]))
  }

  /** One `AppendEditControlRaw` call of `AppendEditControl`, recorded in `appends`. */
  method AppendPiece(text: seq<Cell>, colour: int, before: seq<Cell>, appends: seq<seq<int>>, x: seq<int>)
    returns (after: seq<Cell>, appends': seq<seq<int>>)
    requires before == text + Paint(Concat(appends), colour)
    requires RawAppends(appends) && IsText(x) && x != [] && (x == [CR, LF] || Plain(x))
    ensures after == text + Paint(Concat(appends'), colour)
    ensures Concat(appends') == Concat(appends) + x
    ensures RawAppends(appends')
  {
    var pieces;
    after, pieces := AppendEditControlRaw(before, colour, x);
    Appended(text, before, appends, x, colour);
    appends' := appends + [x];
  }

  /** Appending one more piece to the control extends the joined appends by it. */
  lemma Appended(text: seq<Cell>, before: seq<Cell>, appends: seq<seq<int>>, x: seq<int>, colour: int)
    requires before == text + Paint(Concat(appends), colour)
    requires RawAppends(appends) && x != [] && (x == [CR, LF] || Plain(x))
    ensures before + Paint(x, colour) == text + Paint(Concat(appends + [x]), colour)
    ensures Concat(appends + [x]) == Concat(appends) + x
    ensures RawAppends(appends + [x])
  {
    ConcatSnoc(appends, x);
    PaintAppend(Concat(appends), x, colour);
  }

  /** A run without line breaks is shown as it is. */
  lemma ExpandRun(s: seq<int>, start: nat, i: nat)
    requires start <= i <= |s|
    requires forall k :: start <= k < i ==> s[k] != CR && s[k] != LF
    ensures Plain(s[start..i])
    ensures Expand(s[..i]) == Expand(s[..start]) + s[start..i]
  {
    ExpandPlain(s[start..i]);
    ExpandAppend(s[..start], s[start..i]);
    assert s[..start] + s[start..i] == s[..i];
  }

  /** A CR adds nothing and an LF adds CR LF. */
  lemma ExpandBreak(s: seq<int>, i: nat)
    requires i < |s| && (s[i] == CR || s[i] == LF)
    ensures Expand(s[..i + 1]) == Expand(s[..i]) + (if s[i] == LF then [CR, LF] else [])
  {
    ExpandAppend(s[..i], [s[i]]);
    assert s[..i] + [s[i]] == s[..i + 1];
  }

  // ---------------------------------------------------------------------
  // Queue

  /** What one entry adds to the control: its text up to any NUL, expanded, in its colour. */
  function Shown(e: Entry): seq<Cell>
  {
    Paint(Expand(Text(e.text)), e.colour)
  }

  /** What draining `queue` adds to the control: each entry as shown, head first. */
  function Rendered(queue: seq<Entry>): seq<Cell>
  {
    if |queue| == 0 then [] else Rendered(queue[..|queue| - 1]) + Shown(queue[|queue| - 1])
  }

  /** Draining one more entry adds what it shows and raises the urgency to its command if that is higher. */
  lemma DrainStep(base: seq<Cell>, queue: seq<Entry>, i: nat, text: seq<Cell>, text': seq<Cell>, highest: ShowCommand, highest': ShowCommand)
    requires i < |queue|
    requires text == base + Rendered(queue[..i]) && highest == Highest(queue[..i])
    requires text' == text + Shown(queue[i])
    requires highest' == if Urgency(queue[i].show) > Urgency(highest) then queue[i].show else highest
    ensures text' == base + Rendered(queue[..i + 1]) && highest' == Highest(queue[..i + 1])
  {
    assert queue[..i + 1][..i] == queue[..i];
  }

  /** Draining two batches one after the other shows the same as draining them together: order is kept across batches. */
  lemma {:induction false} RenderedAppend(a: seq<Entry>, b: seq<Entry>)
    ensures Rendered(a + b) == Rendered(a) + Rendered(b)
    decreases |b|
  {
    if |b| == 0 {
      assert a + b == a;
    } else {
      var ab := a + b;
      var front := b[..|b| - 1];
      var last := Shown(b[|b| - 1]);
      assert ab[..|ab| - 1] == a + front;
      assert ab[|ab| - 1] == b[|b| - 1];
      assert Rendered(ab) == Rendered(a + front) + last;
      assert Rendered(b) == Rendered(front) + last;
      RenderedAppend(a, front);
    }
  }

  /**
   * The visibility policy at the end of `ProcessQueue`: the `ShowWindow`
   * command given to the frame, if any, and whether the window is brought to
   * the foreground.
   */
  function ShowPolicy(visible: bool, userDidClose: bool, highest: ShowCommand): (r: (Option<int>, bool))
    // a visible window is left as it is, and no change never shows anything
    ensures visible || highest == NoChange ==> r.0.None?
    // a window the user closed comes back only for an alert
    ensures userDidClose && highest != Alert ==> r.0.None?
    // otherwise a hidden window is shown for any command that asks for it
    ensures !visible && !userDidClose && highest != NoChange ==> r.0.Some?
    // an alert always shows a hidden window, activated, and takes the foreground
    ensures !visible && highest == Alert ==> r.0 == Some(SW_SHOWNORMAL)
    ensures highest == Alert ==> r.1
    // nothing else takes the foreground
    ensures highest != Alert ==> !r.1
    // the window is shown without activation exactly for a background command
    ensures r.0.Some? ==> r.0.value in {SW_SHOWNORMAL, SW_SHOWNOACTIVATE}
    ensures r.0.Some? ==> (r.0.value == SW_SHOWNOACTIVATE <==> highest == ShowInBackground)
  {
    var show :=
      if !visible && (highest == Alert || (Urgency(highest) >= Urgency(ShowInBackground) && !userDidClose))
      then Some(if highest == ShowInBackground then SW_SHOWNOACTIVATE else SW_SHOWNORMAL)
      else None;
    (show, highest == Alert)
  }

  /** A window the user closed comes back only for an alert. */
  lemma ClosedStaysHidden(highest: ShowCommand)
    ensures ShowPolicy(false, true, highest).0.Some? <==> highest == Alert
  {
  }

  /** An entry that asks for no change never shows a hidden window; an alert always does, and takes the foreground. */
  lemma NoChangeNeverShowsAlertAlwaysDoes(visible: bool, userDidClose: bool)
    ensures ShowPolicy(visible, userDidClose, NoChange) == (None, false)
    ensures ShowPolicy(false, userDidClose, Alert) == (Some(SW_SHOWNORMAL), true)
  {
  }

  /** A more urgent command never shows less: whatever a command shows or brings forward, a more urgent one does too. */
  lemma ShowPolicyMonotone(visible: bool, userDidClose: bool, a: ShowCommand, b: ShowCommand)
    requires Urgency(a) <= Urgency(b)
    ensures ShowPolicy(visible, userDidClose, a).0.Some? ==> ShowPolicy(visible, userDidClose, b).0.Some?
    ensures ShowPolicy(visible, userDidClose, a).1 ==> ShowPolicy(visible, userDidClose, b).1
    ensures ShowPolicy(visible, userDidClose, a).0 == Some(SW_SHOWNORMAL) ==> ShowPolicy(visible, userDidClose, b).0 == Some(SW_SHOWNORMAL)
  {
  }

  /** The most urgent show command in `queue`, or no change when it is empty. */
  function Highest(queue: seq<Entry>): (h: ShowCommand)
    ensures forall i :: 0 <= i < |queue| ==> Urgency(queue[i].show) <= Urgency(h)
    ensures h == NoChange || exists i :: 0 <= i < |queue| && queue[i].show == h
  {
    if |queue| == 0 then NoChange
    else
      var front := Highest(queue[..|queue| - 1]);
      assert forall i :: 0 <= i < |queue| - 1 ==> queue[..|queue| - 1][i] == queue[i];
      if Urgency(queue[|queue| - 1].show) > Urgency(front) then queue[|queue| - 1].show else front
  }

  /**
   * `ProcessQueue()`: every queued entry, head first, is written into the
   * control in its colour, and the most urgent show command among them (no
   * change when the queue was empty) decides the visibility.
   */
  method ProcessQueue(w: LogState, visible: bool) returns (r: LogState, highest: ShowCommand, show: Option<int>, foreground: bool)
    ensures r.queue == [] && r.userDidClose == w.userDidClose
    ensures r.text == w.text + Rendered(w.queue)
    ensures highest == Highest(w.queue)
    ensures (show, foreground) == ShowPolicy(visible, w.userDidClose, highest)
  {
    highest := NoChange;
    var text := w.text;
    var colour := w.colour;
    var i := 0;
    while i < |w.queue|
      invariant i <= |w.queue|
      invariant text == w.text + Rendered(w.queue[..i])
      invariant highest == Highest(w.queue[..i])
    {
      var e := w.queue[i];
      colour := e.colour;
      var before, higher := text, highest;
      if Urgency(e.show) > Urgency(highest) {
        highest := e.show;
      }
      var appends;
      text, appends := AppendEditControl(text, colour, e.text);
      assert text == before + Shown(e);
      DrainStep(w.text, w.queue, i, before, text, higher, highest);
      i := i + 1;
    }
    assert w.queue[..i] == w.queue;
    r := LogState([], w.userDidClose, text, colour);
    show, foreground := ShowPolicy(visible, w.userDidClose, highest).0, ShowPolicy(visible, w.userDidClose, highest).1;
  }

  /**
   * `Log(text, colour, showCommand)`: the entry joins the tail of the queue.
   * On the window's thread the queue is drained at once; from another thread
   * a `WM_USER` is posted and `OnUser` drains it later.
   */
  method Log(w: LogState, text: seq<int>, colour: int, showCommand: ShowCommand, onWindowThread: bool, visible: bool)
    returns (r: LogState, posted: bool, show: Option<int>, foreground: bool)
    ensures r.userDidClose == w.userDidClose
    ensures !onWindowThread ==> posted && r == w.(queue := w.queue + [Entry(text, colour, showCommand)]) && show.None? && !foreground
    ensures onWindowThread ==> !posted && r.queue == [] && r.text == w.text + Rendered(w.queue + [Entry(text, colour, showCommand)])
  {
    var queued := w.(queue := w.queue + [Entry(text, colour, showCommand)]);
    if !onWindowThread {
      return queued, true, None, false;
    }
    var highest;
    r, highest, show, foreground := ProcessQueue(queued, visible);
    posted := false;
  }

  /** Entries logged from another thread show up in the order they were logged once the posted message drains them. */
  method LogThenDrain(w: LogState, entries: seq<Entry>, visible: bool) returns (r: LogState)
    ensures r.queue == [] && r.text == w.text + Rendered(w.queue) + Rendered(entries)
  {
    var cur := w;
    var i := 0;
    while i < |entries|
      invariant i <= |entries|
      invariant cur.queue == w.queue + entries[..i] && cur.text == w.text
    {
      var posted, show, foreground;
      cur, posted, show, foreground := Log(cur, entries[i].text, entries[i].colour, entries[i].show, false, visible);
      assert entries[..i + 1] == entries[..i] + [entries[i]];
      i := i + 1;
    }
    assert entries[..i] == entries;
    var highest, show, foreground;
    r, highest, show, foreground := ProcessQueue(cur, visible);
    RenderedAppend(w.queue, entries);
  }

  // ---------------------------------------------------------------------
  // Visibility

  /** `OnClose`: the frame is hidden and the window remembers that the user closed it. */
  function OnClose(w: LogState): (r: (LogState, int))
    ensures r.0.userDidClose && r.1 == SW_HIDE
    ensures r.0.queue == w.queue && r.0.text == w.text
  {
    (w.(userDidClose := true), SW_HIDE)
  }

  /** After the user closes the window, later messages show it again only if one is an alert. */
  lemma ClosedWindowAlertsOnly(w: LogState, visible: bool)
    ensures var closed := OnClose(w).0;
      ShowPolicy(false, closed.userDidClose, ShowInForeground).0.None? &&
      ShowPolicy(false, closed.userDidClose, Alert).0.Some?
  {
  }

  /** `IsVisible()`: the window exists and is visible. */
  function IsVisible(hwnd: Handle, windowVisible: bool): (r: bool)
    ensures r ==> hwnd != NULL
  {
    hwnd != NULL && windowVisible
  }

  /**
   * `SetVisible(visible, inBackground)`: the `ShowWindow` command issued, if
   * any.  A command is issued exactly when the requested visibility differs
   * from the current one.
   */
  function SetVisible(hwnd: Handle, windowVisible: bool, visible: bool, inBackground: bool): (r: Option<int>)
    ensures r.Some? <==> visible != IsVisible(hwnd, windowVisible)
    ensures r.Some? && !visible ==> r.value == SW_HIDE
    ensures r.Some? && visible ==> r.value == (if inBackground then SW_SHOWNOACTIVATE else SW_SHOWNORMAL)
  {
    if visible then
      if !IsVisible(hwnd, windowVisible) then Some(if inBackground then SW_SHOWNOACTIVATE else SW_SHOWNORMAL) else None
    else if IsVisible(hwnd, windowVisible) then Some(SW_HIDE) else None
  }

  /**
   * The window's visibility after `ShowFrame` issues `cmd`, if anything:
   * `SW_HIDE` hides it and every other `ShowWindow` command leaves it shown.
   */
  function Applied(windowVisible: bool, cmd: Option<int>): (v: bool)
    ensures cmd.None? ==> v == windowVisible
    ensures cmd == Some(SW_HIDE) ==> !v
    ensures cmd.Some? && cmd.value != SW_HIDE ==> v
  {
    match cmd
    case None => windowVisible
    case Some(c) => c != SW_HIDE
  }

  /**
   * Asking twice for the same visibility issues at most one command: once
   * the first command is applied the window has the visibility asked for,
   * and the second request finds nothing to change.
   */
  lemma SetVisibleSettles(hwnd: Handle, windowVisible: bool, visible: bool, inBackground: bool)
    requires hwnd != NULL
    ensures SetVisible(hwnd, visible, visible, inBackground).None?
    ensures var after := Applied(windowVisible, SetVisible(hwnd, windowVisible, visible, inBackground));
      IsVisible(hwnd, after) == visible && SetVisible(hwnd, after, visible, inBackground).None?
  {
  }
}
