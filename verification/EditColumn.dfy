/**
 * `EditWnd::GetColumnNumber` (WndLib.cpp): the display column of the caret in
 * an edit control, counting a tab as a jump to the next tab stop.
 *
 * The edit control is an oracle: its answers (the caret line's length, the
 * units `EM_GETLINE` leaves in the buffer and how many it reports, and the
 * caret's offset within the line) are parameters.  The buffer is given as
 * all the units it holds, including any past the copied line, because the
 * walk reads as far as the caret offset says.
 */
module EditColumn {
  import opened Wrappers
  import opened Align

  const TAB: int := 9

  /** The stack buffer used for lines short enough. */
  const STACK_BUFFER: nat := 256

  function Abs(x: int): nat { if x < 0 then -x else x }

  /**
   * The column after a tab at column `col`: `do ++colnum; while (colnum % tab)`
   * stops on the first multiple of the tab width past `col`, which is
   * `col + 1` rounded up to the width.  A negative width behaves as its
   * magnitude, since only whether the remainder is zero matters.
   */
  function TabStop(col: nat, tab: int): (r: nat)
    requires tab != 0
    ensures col < r <= col + Abs(tab)
    ensures r % Abs(tab) == 0
  {
    AlignPtr(col + 1, Abs(tab))
  }

  /** A multiple of `m` has remainder zero. */
  lemma MultipleHasZeroRem(x: int, m: int, k: int)
    requires m != 0 && x == m * k
    ensures x % m == 0
  {
    assert x == m * (x / m) + x % m;
    if m > 0 {
      assert m * (k - x / m) == x % m;
      SmallMultipleIsZero(m, k - x / m);
    } else {
      assert (-m) * (x / m - k) == x % m;
      SmallMultipleIsZero(-m, x / m - k);
    }
  }

  /** Whether `x % tab` is zero does not depend on the sign of `tab`. */
  lemma RemSignFree(x: int, tab: int)
    requires tab != 0
    ensures (x % tab == 0) == (x % Abs(tab) == 0)
  {
    if tab < 0 {
      if x % tab == 0 {
        assert x == tab * (x / tab);
        MultipleHasZeroRem(x, -tab, -(x / tab));
      }
      if x % -tab == 0 {
        assert x == (-tab) * (x / -tab);
        assert x == tab * -(x / -tab);
        MultipleHasZeroRem(x, tab, -(x / -tab));
      }
    }
  }

  /** No tab stop lies strictly between a column and its next tab stop. */
  lemma TabStopIsNext(col: nat, tab: int, c: int)
    requires tab != 0 && col < c < TabStop(col, tab)
    ensures c % Abs(tab) != 0
  {
    var m, r := Abs(tab), TabStop(col, tab);
    if c % m == 0 {
      assert c == m * (c / m);
      assert r == m * (r / m);
      assert r - c == m * (r / m - c / m);
      SmallMultipleIsZero(m, r / m - c / m);
    }
  }

  /** One character's effect on the column. */
  function Advance(col: nat, c: int, tab: int): nat
    requires tab != 0
  {
    if c == TAB then TabStop(col, tab) else col + 1
  }

  /** The column reached after `text`, read from the start of the line. */
  function Columns(text: seq<int>, tab: int): nat
    requires tab != 0
  {
    if |text| == 0 then 0
    else Advance(Columns(text[..|text| - 1], tab), text[|text| - 1], tab)
  }

  /** Every character takes at least one column and at most a tab width. */
  lemma {:induction false} ColumnsBounds(text: seq<int>, tab: int)
    requires tab != 0
    ensures |text| <= Columns(text, tab) <= |text| * Abs(tab)
  {
    if |text| > 0 {
      var n, m := |text|, Abs(tab);
      var before := Columns(text[..n - 1], tab);
      ColumnsBounds(text[..n - 1], tab);
      assert before + 1 <= Columns(text, tab) <= before + m;
      assert (n - 1) * m + m == n * m;
    }
  }

  /** Without tabs the column is the character count. */
  lemma {:induction false} ColumnsWithoutTabs(text: seq<int>, tab: int)
    requires tab != 0 && TAB !in text
    ensures Columns(text, tab) == |text|
  {
    if |text| > 0 {
      assert text[|text| - 1] in text;
      assert text[..|text| - 1] <= text;
      ColumnsWithoutTabs(text[..|text| - 1], tab);
    }
  }

  /** Right after a tab the caret is on a tab stop. */
  lemma AfterTabOnStop(text: seq<int>, tab: int)
    requires tab != 0 && |text| > 0 && text[|text| - 1] == TAB
    ensures Columns(text, tab) % Abs(tab) == 0
  {
  }

  /** `colnum % tab` with a tab width of 0: C's division by zero. */
  datatype ColumnFault = DivideByZero

  /**
   * `GetColumnNumber(tab)`.  The line is read into the stack buffer when
   * `LineLength + 4` is below 255 units and into a heap buffer of
   * `LineLength + 5` otherwise.  The result is -1 when the stack-buffer read
   * reports 256 or more units, or when the caret offset is past
   * `LineLength + 4`; otherwise it is the column after the first `charnum`
   * units of the buffer.  The tab width is used only when a tab is met, so
   * a width of 0 faults there and nowhere else.
   */
  method GetColumnNumber(lineLength: int, buffer: seq<int>, copied: int, charnum: int, tab: int) returns (r: Result<int, ColumnFault>)
    requires 0 <= charnum
    requires |buffer| == if lineLength + 4 < STACK_BUFFER - 1 then STACK_BUFFER else lineLength + 5
    ensures lineLength + 4 < STACK_BUFFER - 1 && copied >= STACK_BUFFER ==> r == Success(-1)
    ensures !(lineLength + 4 < STACK_BUFFER - 1 && copied >= STACK_BUFFER) && charnum > lineLength + 4 ==> r == Success(-1)
    ensures !(lineLength + 4 < STACK_BUFFER - 1 && copied >= STACK_BUFFER) && charnum <= lineLength + 4 ==>
      && charnum <= |buffer|
      && (tab != 0 ==> r == Success(Columns(buffer[..charnum], tab)))
      && (tab == 0 ==> (r.Failure? <==> TAB in buffer[..charnum]))
      && (tab == 0 && TAB !in buffer[..charnum] ==> r == Success(charnum))
  {
    var len := lineLength + 4;
    if len < STACK_BUFFER - 1 && copied >= STACK_BUFFER {
      return Success(-1);
    }
    if charnum > len {
      return Success(-1);
    }
    var colnum: nat := 0;
    var p := 0;
    while p != charnum
      invariant p <= charnum
      invariant tab != 0 ==> colnum == Columns(buffer[..p], tab)
      invariant tab == 0 ==> colnum == p && TAB !in buffer[..p]
    {
      if buffer[p] == TAB {
        if tab == 0 {
          assert buffer[p] in buffer[..charnum];
          return Failure(DivideByZero);
        }
        var start := colnum;
        colnum := colnum + 1;
        RemSignFree(colnum, tab);
        while colnum % tab != 0
          invariant start < colnum <= TabStop(start, tab)
          invariant (colnum % tab == 0) == (colnum % Abs(tab) == 0)
          decreases TabStop(start, tab) - colnum
        {
          colnum := colnum + 1;
          RemSignFree(colnum, tab);
        }
        if colnum < TabStop(start, tab) {
          TabStopIsNext(start, tab, colnum);
        }
      } else {
        colnum := colnum + 1;
      }
      assert buffer[..p + 1] == buffer[..p] + [buffer[p]];
      p := p + 1;
    }
    assert buffer[..p] == buffer[..charnum];
    return Success(colnum);
  }
}
