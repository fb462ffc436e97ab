/**
 * `StatusBarWnd::OnMenuSelect` (WndLib.cpp): while the user moves through a
 * menu, the first part of the status bar shows the help string of the
 * highlighted item; when the menu closes, the text shown before the menu
 * opened comes back.
 *
 * The status bar's first part is its `text`; the string table the item ids
 * are looked up in is a map from id to the resource's units.
 */
module StatusBar {
  import opened Wrappers

  const NEWLINE: int := 10

  /** `WM_MENUSELECT` with these flags and a NULL menu means the menu closed. */
  const MENU_CLOSED: bv16 := 0xFFFF
  const MF_POPUP: bv16 := 0x0010
  const MF_SEPARATOR: bv16 := 0x0800

  /** The stack buffer `GetText` and `LoadString` fill, in TCHARs. */
  const LOAD_BUFFER: nat := 512

  /**
   * `_menuSelecting`, `_prevText` (what was shown when the menu opened) and
   * the text of the first part.
   */
  datatype Bar = Bar(selecting: bool, prevText: seq<int>, text: seq<int>)

  /** A `WM_MENUSELECT`: the item id and flags of its `WPARAM`, and whether its menu handle is NULL. */
  datatype MenuSelect = MenuSelect(item: nat, flags: bv16, menuNull: bool)

  /** `GetText` wrote the bar's text and its terminator past the end of the stack buffer. */
  datatype BarFault = TextOverrun

  /** A freshly constructed status bar showing `text`. */
  function NewBar(text: seq<int>): (b: Bar)
    ensures !b.selecting && b.text == text
  {
    Bar(false, [], text)
  }

  predicate Closes(m: MenuSelect)
  {
    m.flags == MENU_CLOSED && m.menuNull
  }

  /** The units of a string up to its first NUL or newline, as the `while (*ptr2 && *ptr2 != '\n')` walk cuts them. */
  function FirstLine(s: seq<int>): (r: seq<int>)
    ensures r <= s
    ensures forall k :: 0 <= k < |r| ==> r[k] != 0 && r[k] != NEWLINE
    ensures |r| < |s| ==> s[|r|] == 0 || s[|r|] == NEWLINE
  {
    if |s| == 0 || s[0] == 0 || s[0] == NEWLINE then []
    else [s[0]] + FirstLine(s[1..])
  }

  /** What `LoadString` copies into the 512-unit buffer: at most 511 units, nothing when there is no such string. */
  function Loaded(strings: map<nat, seq<int>>, item: nat): (r: seq<int>)
    ensures |r| < LOAD_BUFFER
    ensures item in strings ==> r <= strings[item]
    ensures item in strings && |strings[item]| < LOAD_BUFFER ==> r == strings[item]
  {
    if item !in strings then []
    else if |strings[item]| < LOAD_BUFFER then strings[item]
    else strings[item][..LOAD_BUFFER - 1]
  }

  /**
   * The help text for a highlighted item: empty for a popup or a separator or
   * when no string is loaded, otherwise the loaded string's first line.
   */
  function HelpText(strings: map<nat, seq<int>>, m: MenuSelect): (r: seq<int>)
    ensures m.flags & MF_POPUP != 0 || m.flags & MF_SEPARATOR != 0 || m.item !in strings ==> r == []
    ensures forall k :: 0 <= k < |r| ==> r[k] != 0 && r[k] != NEWLINE
    ensures m.item in strings ==> r <= strings[m.item] && |r| < LOAD_BUFFER
    ensures m.flags & MF_POPUP == 0 && m.flags & MF_SEPARATOR == 0 && m.item in strings && |r| < |strings[m.item]| ==>
      |r| == LOAD_BUFFER - 1 || strings[m.item][|r|] == 0 || strings[m.item][|r|] == NEWLINE
  {
    if m.flags & MF_POPUP != 0 || m.flags & MF_SEPARATOR != 0 then []
    else
      var loaded := Loaded(strings, m.item);
      if |loaded| == 0 then [] else FirstLine(loaded)
  }

  /**
   * `OnMenuSelect`.  The first message of a menu session saves the text
   * shown; a close ends the session and puts the saved text back unless it
   * is empty; any other message shows the item's help text.  Saving copies
   * the text with its terminator into the 512-unit stack buffer with no
   * bound, so a text of 512 units or more overruns it.
   */
  function OnMenuSelect(b: Bar, strings: map<nat, seq<int>>, m: MenuSelect): (r: Result<Bar, BarFault>)
    ensures r.Failure? <==> !b.selecting && |b.text| >= LOAD_BUFFER
    ensures r.Success? ==> (r.value.selecting <==> !Closes(m))
    ensures r.Success? ==> r.value.prevText == if b.selecting then b.prevText else b.text
    ensures r.Success? && Closes(m) && |r.value.prevText| > 0 ==> r.value.text == r.value.prevText
    ensures r.Success? && Closes(m) && |r.value.prevText| == 0 ==> r.value.text == b.text
    ensures r.Success? && !Closes(m) ==> r.value.text == HelpText(strings, m)
  {
    if !b.selecting && |b.text| >= LOAD_BUFFER then Failure(TextOverrun)
    else
      var saved := if b.selecting then b.prevText else b.text;
      if Closes(m) then Success(Bar(false, saved, if |saved| > 0 then saved else b.text))
      else Success(Bar(true, saved, HelpText(strings, m)))
  }

  /** The status bar after a sequence of `WM_MENUSELECT` messages, or the first overrun. */
  function Run(b: Bar, strings: map<nat, seq<int>>, ms: seq<MenuSelect>): Result<Bar, BarFault>
  {
    if |ms| == 0 then Success(b)
    else
      var prev :- Run(b, strings, ms[..|ms| - 1]);
      OnMenuSelect(prev, strings, ms[|ms| - 1])
  }

  /** Within a session the saved text stays the one shown before it began, and the help text of the latest item is shown. */
  lemma {:induction false} SelectingKeepsSaved(b: Bar, strings: map<nat, seq<int>>, ms: seq<MenuSelect>)
    requires !b.selecting && |b.text| < LOAD_BUFFER && |ms| > 0
    requires forall i :: 0 <= i < |ms| ==> !Closes(ms[i])
    ensures Run(b, strings, ms) == Success(Bar(true, b.text, HelpText(strings, ms[|ms| - 1])))
  {
    var front := ms[..|ms| - 1];
    if |front| > 0 {
      assert forall i :: 0 <= i < |front| ==> front[i] == ms[i];
      SelectingKeepsSaved(b, strings, front);
    }
  }

  /** A whole menu session, however many items were highlighted, puts back the text shown before it. */
  lemma SessionRestoresText(b: Bar, strings: map<nat, seq<int>>, ms: seq<MenuSelect>, close: MenuSelect)
    requires !b.selecting && 0 < |b.text| < LOAD_BUFFER
    requires forall i :: 0 <= i < |ms| ==> !Closes(ms[i])
    requires Closes(close)
    ensures Run(b, strings, ms + [close]) == Success(Bar(false, b.text, b.text))
  {
    assert (ms + [close])[..|ms|] == ms;
    if |ms| > 0 {
      SelectingKeepsSaved(b, strings, ms);
    }
  }

  /**
   * When the status bar was empty before the menu opened, closing the menu
   * leaves the last item's help text showing, since only a non-empty saved
   * text is put back.
   */
  lemma EmptyTextKeepsLastHelp(b: Bar, strings: map<nat, seq<int>>, ms: seq<MenuSelect>, close: MenuSelect)
    requires !b.selecting && |b.text| == 0 && |ms| > 0
    requires forall i :: 0 <= i < |ms| ==> !Closes(ms[i])
    requires Closes(close)
    ensures Run(b, strings, ms + [close]) == Success(Bar(false, [], HelpText(strings, ms[|ms| - 1])))
  {
    assert (ms + [close])[..|ms|] == ms;
    SelectingKeepsSaved(b, strings, ms);
  }

  /** Popup and separator items clear the help area. */
  lemma PopupsAndSeparatorsShowNothing(b: Bar, strings: map<nat, seq<int>>, m: MenuSelect)
    requires !m.menuNull && (m.flags & MF_POPUP != 0 || m.flags & MF_SEPARATOR != 0)
    ensures b.selecting || |b.text| < LOAD_BUFFER ==>
      OnMenuSelect(b, strings, m).Success? && OnMenuSelect(b, strings, m).value.text == [] &&
      OnMenuSelect(b, strings, m).value.selecting
  {
  }

  /**
   * A text of 512 units or more showing when a menu session starts overruns
   * the stack buffer at the first message, so no sequence of messages gets
   * past it.
   */
  lemma {:induction false} LongTextOverruns(b: Bar, strings: map<nat, seq<int>>, ms: seq<MenuSelect>)
    requires !b.selecting && |b.text| >= LOAD_BUFFER && |ms| > 0
    ensures Run(b, strings, ms) == Failure(TextOverrun)
  {
    if |ms| > 1 {
      LongTextOverruns(b, strings, ms[..|ms| - 1]);
    }
  }
}
