/**
 * The Stopwatch example (Examples/Stopwatch/Stopwatch.cpp): the start/stop/
 * reset state machine over the millisecond clock `timeGetTime`, the text
 * the display shows for an elapsed time, and the layout `OnSize` computes
 * for the two buttons and the time area.
 *
 * The clock is a parameter of every operation that reads it, and whether
 * `SetTimer` succeeds is given.  Clock readings and elapsed times are
 * `DWORD`s, so their differences wrap modulo 2^32.
 */
module Stopwatch {
  import opened CInt
  import opened Geometry

  // ---------------------------------------------------------------------
  // Start, stop and reset

  /** `_timerRunning`, `_startTime` and `_elapsed`. */
  datatype Watch = Watch(running: bool, startTime: dword, elapsed: dword)

  /** `StopwatchWnd()`: stopped at zero; the start time is not set until the first start. */
  function NewWatch(startTime: dword): (w: Watch)
    ensures !w.running && w.elapsed == 0
  {
    Watch(false, startTime, 0)
  }

  /** `GetElapsedSeconds` at clock reading `now`: the frozen time when stopped, the time since the start when running. */
  function Elapsed(w: Watch, now: dword): (e: dword)
    ensures !w.running ==> e == w.elapsed
    ensures w.running ==> (e + w.startTime) % TWO_32 == now
  {
    if w.running then SubU32(now, w.startTime) else w.elapsed
  }

  /**
   * `OnStartStop` at clock reading `now`.  A stopped watch starts only if
   * `SetTimer` succeeds (`timerOk`), with its start moved back by the time
   * already elapsed; a running one stops, freezing the elapsed time.
   */
  function StartStop(w: Watch, now: dword, timerOk: bool): (r: Watch)
    ensures !w.running && !timerOk ==> r == w
    ensures !w.running && timerOk ==> r.running && r.elapsed == w.elapsed && Elapsed(r, now) == w.elapsed
    ensures w.running ==> !r.running && r.startTime == w.startTime && r.elapsed == Elapsed(w, now)
  {
    if !w.running then
      if timerOk then Watch(true, SubU32(now, w.elapsed), w.elapsed) else w
    else
      Watch(false, w.startTime, SubU32(now, w.startTime))
  }

  /** `OnReset`: stopped, at zero, whatever the state was. */
  function Reset(w: Watch): (r: Watch)
    ensures !r.running && r.elapsed == 0
    ensures forall now: dword :: Elapsed(r, now) == 0
  {
    w.(running := false, elapsed := 0)
  }

  /** `SetStartButtonText`: the start button offers to stop exactly while the watch runs. */
  function StartButtonText(w: Watch): (t: string)
    ensures t == "&Stop" <==> w.running
    ensures t == "&Start" <==> !w.running
  {
    if w.running then "&Stop" else "&Start"
  }

  /** Subtracting from a start moved back by `e` adds `e` back: the heart of the wrap-around arithmetic. */
  lemma SubShifted(t1: dword, t2: dword, e: dword)
    ensures SubU32(t2, SubU32(t1, e)) == AddU32(e, SubU32(t2, t1))
  {
  }

  /**
   * A run from `t1` to `t2` adds `t2 - t1`, modulo 2^32, to the elapsed time,
   * and the watch reads the same total while running just before it stops.
   */
  lemma StartStopAccumulates(w: Watch, t1: dword, t2: dword, timerOk: bool)
    requires !w.running
    ensures var started := StartStop(w, t1, true);
      Elapsed(started, t2) == AddU32(w.elapsed, SubU32(t2, t1)) &&
      StartStop(started, t2, timerOk) == Watch(false, started.startTime, AddU32(w.elapsed, SubU32(t2, t1)))
  {
    SubShifted(t1, t2, w.elapsed);
  }

  /** Stopping freezes the time: the stopped watch reads at every later moment what it read when stopped. */
  lemma StopFreezes(w: Watch, now: dword, later: dword, timerOk: bool)
    requires w.running
    ensures Elapsed(StartStop(w, now, timerOk), later) == Elapsed(w, now)
  {
  }

  // ---------------------------------------------------------------------
  // The time display

  /** The four fields of a displayed time: hours, minutes, seconds and hundredths. */
  datatype Clock = Clock(hh: int, mm: int, ss: int, hs: int)

  /**
   * The fields `FormatTime` computes, as written: the milliseconds are cast
   * to a signed `int` before the first division, so from 2^31 ms on the
   * hundredths come out negative.  The later fields are taken from the
   * unsigned quotient and are unaffected.
   */
  function FieldsAsWritten(ms: dword): (c: Clock)
    ensures -100 < c.hs < 100 && 0 <= c.ss < 60 && 0 <= c.mm < 60 && c.hh >= 0
    ensures c.hs < 0 ==> ms >= TWO_31
  {
    var hs := Rem(Quot(ToInt32(ms), 10), 100);
    var seconds := ms / 1000;
    var ss := Rem(ToInt32(seconds), 60);
    var minutes := seconds / 60;
    var mm := Rem(ToInt32(minutes), 60);
    var hh := ToInt32(minutes / 60);
    Clock(hh, mm, ss, hs)
  }

  /** 2^31 + 50 ms, about 24.9 days, shows -59 hundredths. */
  lemma NegativeHundredths()
    ensures FieldsAsWritten(TWO_31 + 50).hs == -59
  {
  }

  /** The hundredths of a second a clock stands for. */
  function Hundredths(c: Clock): int
  {
    ((c.hh * 60 + c.mm) * 60 + c.ss) * 100 + c.hs
  }

  /**
   * The fields with the hundredths taken from the unsigned count, as for
   * the other fields.
   */
  function Fields(ms: dword): (c: Clock)
    ensures 0 <= c.hs < 100 && 0 <= c.ss < 60 && 0 <= c.mm < 60 && c.hh >= 0
    ensures ms / 10 == Hundredths(c)
    ensures c.hh == 0 <==> ms < 3600000
  {
    var tenths := ms / 10;
    var hs := tenths % 100;
    var seconds := ms / 1000;
    DivModUnique(ms, 1000, tenths / 100, hs * 10 + ms % 10);
    assert tenths == seconds * 100 + hs;
    var ss := seconds % 60;
    var minutes := seconds / 60;
    var mm := minutes % 60;
    var hh := minutes / 60;
    assert seconds == minutes * 60 + ss;
    assert minutes == hh * 60 + mm;
    Clock(hh, mm, ss, hs)
  }

  /** Below 2^31 ms the source's fields are the corrected ones. */
  lemma FieldsAgreeBelowHalfRange(ms: dword)
    requires ms < TWO_31
    ensures FieldsAsWritten(ms) == Fields(ms)
  {
  }

  predicate IsDigits(s: string)
  {
    forall k :: 0 <= k < |s| ==> '0' <= s[k] <= '9'
  }

  function Digit(d: nat): (c: char)
    requires d < 10
    ensures '0' <= c <= '9' && c as int - '0' as int == d
  {
    ('0' as int + d) as char
  }

  /** `%d` of a non-negative number. */
  function Decimal(n: nat): (s: string)
    ensures |s| >= 1 && IsDigits(s)
    ensures n < 10 ==> |s| == 1
    ensures n >= 10 ==> |s| >= 2
  {
    if n < 10 then [Digit(n)] else Decimal(n / 10) + [Digit(n % 10)]
  }

  /** `%02d`: at least two digits, zero-padded. */
  function Pad2(n: nat): (s: string)
    ensures |s| >= 2 && IsDigits(s)
    ensures n < 100 ==> |s| == 2
  {
    if n < 10 then ['0'] + Decimal(n) else Decimal(n)
  }

  /** The number a string of decimal digits denotes. */
  function ValueOf(s: string): nat
    requires IsDigits(s)
  {
    if |s| == 0 then 0 else ValueOf(s[..|s| - 1]) * 10 + (s[|s| - 1] as int - '0' as int)
  }

  lemma {:induction false} ValueOfDecimal(n: nat)
    ensures ValueOf(Decimal(n)) == n
  {
    if n >= 10 {
      var s := Decimal(n);
      assert s[..|s| - 1] == Decimal(n / 10);
      ValueOfDecimal(n / 10);
    }
  }

  /** `%02d` prints the number, and only it. */
  lemma ValueOfPad2(n: nat)
    ensures ValueOf(Pad2(n)) == n
  {
    ValueOfDecimal(n);
    if n < 10 {
      var s := Pad2(n);
      assert s[..1] == ['0'];
      assert ValueOf(s[..1]) == ValueOf([]) * 10 + 0;
    }
  }

  /** `mm:ss.hs`. */
  function MinutesSeconds(c: Clock): (t: string)
    requires 0 <= c.hs < 100 && 0 <= c.ss < 60 && 0 <= c.mm < 60
    ensures |t| == 8 && t[2] == ':' && t[5] == '.'
  {
    Pad2(c.mm) + [':'] + Pad2(c.ss) + ['.'] + Pad2(c.hs)
  }

  /** A clock as `FormatTime` prints it: `mm:ss.hs` when there are no hours, `hh:mm:ss.hs` otherwise. */
  function Display(c: Clock): (t: string)
    requires 0 <= c.hs < 100 && 0 <= c.ss < 60 && 0 <= c.mm < 60 && c.hh >= 0
    ensures |t| >= 8 && t[|t| - 6] == ':' && t[|t| - 3] == '.'
    ensures c.hh == 0 <==> |t| == 8
    ensures |t| > 8 ==> |t| >= 11 && t[|t| - 9] == ':'
  {
    if c.hh == 0 then MinutesSeconds(c)
    else Pad2(c.hh) + [':'] + MinutesSeconds(c)
  }

  /**
   * `FormatTime(ms)`: `mm:ss.hs` under an hour, `hh:mm:ss.hs` from an hour
   * on, each field `%02d`.
   */
  function FormatTime(ms: dword): (t: string)
    ensures |t| >= 8 && t[|t| - 6] == ':' && t[|t| - 3] == '.'
    ensures ms < 3600000 <==> |t| == 8
    ensures |t| > 8 ==> |t| >= 11 && t[|t| - 9] == ':'
  {
    Display(Fields(ms))
  }

  /** `%02d` of a signed field: a negative number prints a minus sign and then its digits. */
  function SignedPad2(n: int): (s: string)
    ensures |s| >= 2
    ensures n >= 0 ==> IsDigits(s) && ValueOf(s) == n
    ensures n < 0 ==> s[0] == '-' && IsDigits(s[1..]) && ValueOf(s[1..]) == -n
  {
    if n >= 0 then
      ValueOfPad2(n);
      Pad2(n)
    else
      ValueOfDecimal(-n);
      assert (['-'] + Decimal(-n))[1..] == Decimal(-n);
      ['-'] + Decimal(-n)
  }

  /**
   * `FormatTime(ms)` as the source writes it: the as-written fields, each
   * printed with `%02d`, so that from 2^31 ms on the hundredths can show a
   * minus sign.
   */
  function FormatTimeAsWritten(ms: dword): (t: string)
    ensures |t| >= 8
    ensures FieldsAsWritten(ms).hs < 0 ==> !Displayed(t)
  {
    var c := FieldsAsWritten(ms);
    var hs := SignedPad2(c.hs);
    var tail := Pad2(c.mm) + [':'] + Pad2(c.ss) + ['.'] + hs;
    var t := if c.hh == 0 then tail else Pad2(c.hh) + [':'] + tail;
    assert t[|t| - |hs|..] == hs;
    t
  }

  /** Below 2^31 ms the display as written is the corrected one. */
  lemma FormatTimeAgreesBelowHalfRange(ms: dword)
    requires ms < TWO_31
    ensures FormatTimeAsWritten(ms) == FormatTime(ms)
  {
    FieldsAgreeBelowHalfRange(ms);
  }

  /** 2^31 + 50 ms is displayed, as written, with `-59` hundredths, which no reading of a display can give back. */
  lemma NegativeHundredthsDisplayed()
    ensures var t := FormatTimeAsWritten(TWO_31 + 50); t[|t| - 3..] == "-59" && !Displayed(t)
  {
    NegativeHundredths();
    var c := FieldsAsWritten(TWO_31 + 50);
    assert Decimal(59) == [Digit(5), Digit(9)];
    assert SignedPad2(c.hs) == "-59";
  }

  /** `mm:ss.hs`: three two-digit groups separated by `:` and `.`. */
  predicate TailDisplayed(u: string)
  {
    && |u| == 8 && u[2] == ':' && u[5] == '.'
    && IsDigits(u[..2]) && IsDigits(u[3..5]) && IsDigits(u[6..])
  }

  /** `hh:`: at least two digits and a `:`. */
  predicate HoursDisplayed(h: string)
  {
    |h| >= 3 && h[|h| - 1] == ':' && IsDigits(h[..|h| - 1])
  }

  /** A string laid out as a display: the last eight characters are `mm:ss.hs`, and anything before them is `hh:`. */
  predicate Displayed(t: string)
  {
    |t| >= 8 && TailDisplayed(t[|t| - 8..]) && (|t| == 8 || HoursDisplayed(t[..|t| - 8]))
  }

  /** Reading a display back: its digit groups from the right are hundredths, seconds, minutes and hours. */
  function ReadBack(t: string): Clock
    requires Displayed(t)
  {
    var h := t[..|t| - 8];
    var u := t[|t| - 8..];
    Clock(if h == [] then 0 else ValueOf(h[..|h| - 1]), ValueOf(u[..2]), ValueOf(u[3..5]), ValueOf(u[6..]))
  }

  /** `mm:ss.hs` reads back as the clock's minutes, seconds and hundredths. */
  lemma MinutesSecondsReadBack(c: Clock)
    requires 0 <= c.hs < 100 && 0 <= c.ss < 60 && 0 <= c.mm < 60
    ensures var u := MinutesSeconds(c);
      TailDisplayed(u) && ValueOf(u[..2]) == c.mm && ValueOf(u[3..5]) == c.ss && ValueOf(u[6..]) == c.hs
  {
    var u := MinutesSeconds(c);
    assert u[..2] == Pad2(c.mm);
    assert u[3..5] == Pad2(c.ss);
    assert u[6..] == Pad2(c.hs);
    ValueOfPad2(c.hs);
    ValueOfPad2(c.ss);
    ValueOfPad2(c.mm);
  }

  /** A display without hours reads back as its clock. */
  lemma ShortDisplayReadsBack(c: Clock)
    requires 0 <= c.hs < 100 && 0 <= c.ss < 60 && 0 <= c.mm < 60 && c.hh == 0
    ensures Displayed(Display(c)) && ReadBack(Display(c)) == c
  {
    var t := Display(c);
    assert t[..|t| - 8] == [] && t[|t| - 8..] == MinutesSeconds(c);
    MinutesSecondsReadBack(c);
  }

  /** A display with hours reads back as its clock, the hours being the digits before `mm:ss.hs`. */
  lemma LongDisplayReadsBack(c: Clock)
    requires 0 <= c.hs < 100 && 0 <= c.ss < 60 && 0 <= c.mm < 60 && c.hh > 0
    ensures Displayed(Display(c)) && ReadBack(Display(c)) == c
  {
    var head := Pad2(c.hh) + [':'];
    var t := Display(c);
    assert t == head + MinutesSeconds(c);
    assert t[..|t| - 8] == head && t[|t| - 8..] == MinutesSeconds(c);
    assert head[..|head| - 1] == Pad2(c.hh);
    MinutesSecondsReadBack(c);
    ValueOfPad2(c.hh);
  }

  /** Every clock a display can show reads back as itself. */
  lemma DisplayReadsBack(c: Clock)
    requires 0 <= c.hs < 100 && 0 <= c.ss < 60 && 0 <= c.mm < 60 && c.hh >= 0
    ensures Displayed(Display(c)) && ReadBack(Display(c)) == c
  {
    if c.hh == 0 {
      ShortDisplayReadsBack(c);
    } else {
      LongDisplayReadsBack(c);
    }
  }

  /**
   * The display reads back as the elapsed time to the hundredth: the digit
   * groups of `FormatTime(ms)`, read from the right, are the hundredths,
   * seconds, minutes and (when present) hours of `ms`.
   */
  lemma FormatTimeReadsBack(ms: dword)
    ensures var t := FormatTime(ms); Displayed(t) && ReadBack(t) == Fields(ms) && Hundredths(ReadBack(t)) == ms / 10
  {
    DisplayReadsBack(Fields(ms));
  }

  // ---------------------------------------------------------------------
  // Layout

  /** The rectangles `OnSize` places: the two buttons and the area the time is drawn in. */
  datatype Layout = Layout(start: Rect, reset: Rect, time: Rect)

  function Min(a: int, b: int): int { if a <= b then a else b }

  /**
   * `OnSize` for a client rectangle `client`: buttons a quarter of the width
   * (at most 160) by a fifth of the height (at most 60), a gap of 1/25 of
   * the height, the pair centred across the top, the time area below them.
   */
  function OnSize(client: Rect): (l: Layout)
    ensures Width(l.start) == Width(l.reset) == Min(Quot(Width(client), 4), 160)
    ensures Height(l.start) == Height(l.reset) == Min(Quot(Height(client), 5), 60)
  {
    var cx := Width(client);
    var cy := Height(client);
    var gap := Quot(cy, 25);
    var bw := Min(Quot(cx, 4), 160);
    var bh := Min(Quot(cy, 5), 60);
    var left := client.left + Quot(cx - (bw * 2 + gap), 2);
    var top := client.top + gap;
    var start := Rect(left, top, left + bw, top + bh);
    var reset := Rect(start.left + bw + gap, top, start.right + bw + gap, top + bh);
    Layout(start, reset, Rect(gap, start.bottom + gap, client.right - gap, client.bottom - gap))
  }

  /**
   * The buttons sit side by side a gap apart, a gap below the top, and
   * centred: the space left of the pair and right of it differ by at most
   * one pixel.  The time area starts a gap below them and stops a gap short
   * of the right and bottom edges.
   */
  lemma OnSizeArrangement(client: Rect)
    ensures var l := OnSize(client); var gap := Quot(Height(client), 25);
      l.reset == Offset(l.start, Width(l.start) + gap, 0) &&
      l.start.top == client.top + gap &&
      -1 <= (client.right - l.reset.right) - (l.start.left - client.left) <= 1 &&
      l.time.top == l.start.bottom + gap && l.time.left == gap &&
      l.time.right == client.right - gap && l.time.bottom == client.bottom - gap
  {
    var cx := Width(client);
    var gap := Quot(Height(client), 25);
    var bw := Min(Quot(cx, 4), 160);
    HalfSplit(cx - (bw * 2 + gap));
  }
}
