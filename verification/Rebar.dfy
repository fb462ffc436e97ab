/**
 * `RebarWnd::InsertBar` and `RebarWnd::Rearrange` (WndLib.cpp): how a
 * toolbar becomes a rebar band — the band's style and mask bits chosen from
 * the `REBAR_INSERTBAR_*` flags, its sizes, and the id taken from a counter
 * that starts at 50.
 *
 * The rebar control is an oracle: whether `RB_INSERTBAND` succeeds is a
 * parameter, and the toolbar's button size and the right edge of its last
 * button are given.
 */
module Rebar {
  import opened Wrappers
  import opened WindowTree

  // REBAR_INSERTBAR_* (WndLib.h)
  const INSERTBAR_SPLIT: bv32 := 1
  const INSERTBAR_HIDDEN: bv32 := 2
  const INSERTBAR_GRIPPER: bv32 := 4
  const INSERTBAR_NO_DYNAMIC_SIZE: bv32 := 8

  // Band styles (commctrl.h)
  const RBBS_BREAK: bv32 := 0x0001
  const RBBS_HIDDEN: bv32 := 0x0008
  const RBBS_GRIPPERALWAYS: bv32 := 0x0080
  const RBBS_NOGRIPPER: bv32 := 0x0100

  // REBARBANDINFO mask bits (commctrl.h)
  const RBBIM_STYLE: bv32 := 0x0001
  const RBBIM_TEXT: bv32 := 0x0004
  const RBBIM_IMAGE: bv32 := 0x0008
  const RBBIM_CHILD: bv32 := 0x0010
  const RBBIM_CHILDSIZE: bv32 := 0x0020
  const RBBIM_SIZE: bv32 := 0x0040
  const RBBIM_ID: bv32 := 0x0100
  const RBBIM_IDEALSIZE: bv32 := 0x0200
  const RBBIM_HEADERSIZE: bv32 := 0x0800

  /** The id of the first band a rebar inserts. */
  const FIRST_BAND_ID: nat := 50

  /** The width a band gets without dynamic sizing, and its header width then. */
  const FIXED_WIDTH: int := 16384
  const FIXED_HEADER: int := 8

  /** The fields of `REBARBANDINFO` that `InsertBar` sets. */
  datatype Band = Band(
    mask: bv32, style: bv32, id: nat, image: int, text: Option<seq<int>>, child: Handle,
    cyMinChild: int, cyChild: int, cyMaxChild: int,
    cx: int, cxMinChild: int, cxIdeal: int, cyIntegral: int, cxHeader: int)

  /** `_nextBandId` and the bands in the control, in index order. */
  datatype RebarState = RebarState(nextBandId: nat, bands: seq<Band>)

  function NewRebar(): (r: RebarState)
    ensures r.nextBandId == FIRST_BAND_ID && r.bands == []
  {
    RebarState(50, [])
  }

  /** The band style for the insert flags. */
  function BandStyle(flags: bv32): (s: bv32)
    ensures s & RBBS_BREAK != 0 <==> flags & INSERTBAR_SPLIT != 0
    ensures s & RBBS_HIDDEN != 0 <==> flags & INSERTBAR_HIDDEN != 0
    ensures s & RBBS_GRIPPERALWAYS != 0 <==> flags & INSERTBAR_GRIPPER != 0
    ensures s & RBBS_NOGRIPPER != 0 <==> flags & INSERTBAR_GRIPPER == 0
    ensures s & !(RBBS_BREAK | RBBS_HIDDEN | RBBS_GRIPPERALWAYS | RBBS_NOGRIPPER) == 0
  {
    (if flags & INSERTBAR_SPLIT != 0 then RBBS_BREAK else 0)
    | (if flags & INSERTBAR_HIDDEN != 0 then RBBS_HIDDEN else 0)
    | (if flags & INSERTBAR_GRIPPER != 0 then RBBS_GRIPPERALWAYS else RBBS_NOGRIPPER)
  }

  /** The fields the band declares valid. */
  function BandMask(flags: bv32, hasTitle: bool): (m: bv32)
    ensures m & (RBBIM_STYLE | RBBIM_CHILD | RBBIM_CHILDSIZE | RBBIM_ID | RBBIM_IMAGE) == RBBIM_STYLE | RBBIM_CHILD | RBBIM_CHILDSIZE | RBBIM_ID | RBBIM_IMAGE
    ensures m & RBBIM_TEXT != 0 <==> hasTitle
    ensures m & RBBIM_SIZE != 0 <==> flags & INSERTBAR_NO_DYNAMIC_SIZE != 0
    ensures m & RBBIM_IDEALSIZE != 0 <==> flags & INSERTBAR_NO_DYNAMIC_SIZE != 0
    ensures m & RBBIM_HEADERSIZE != 0 <==> flags & INSERTBAR_NO_DYNAMIC_SIZE != 0
    ensures m & !(RBBIM_STYLE | RBBIM_CHILD | RBBIM_CHILDSIZE | RBBIM_ID | RBBIM_IMAGE | RBBIM_TEXT | RBBIM_SIZE | RBBIM_IDEALSIZE | RBBIM_HEADERSIZE) == 0
  {
    (RBBIM_STYLE | RBBIM_CHILD | RBBIM_CHILDSIZE | RBBIM_ID | RBBIM_IMAGE)
    | (if hasTitle then RBBIM_TEXT else 0)
    | (if flags & INSERTBAR_NO_DYNAMIC_SIZE != 0 then RBBIM_SIZE | RBBIM_IDEALSIZE | RBBIM_HEADERSIZE else 0)
  }

  /**
   * The band `InsertBar` builds for a toolbar `bar` whose buttons are
   * `buttonHeight` high and whose last button ends at `lastRight` (the
   * button width when the toolbar has no buttons).
   */
  function MakeBand(id: nat, bar: Handle, title: Option<seq<int>>, flags: bv32, buttonHeight: int, lastRight: int): (b: Band)
    ensures b.id == id && b.child == bar && b.text == title && b.image == -1
    ensures b.style == BandStyle(flags) && b.mask == BandMask(flags, title.Some?)
    ensures b.cyMinChild == b.cyChild == b.cyMaxChild == buttonHeight && b.cyIntegral == 1
    ensures b.cxMinChild == lastRight
    ensures flags & INSERTBAR_NO_DYNAMIC_SIZE == 0 ==> b.cx == b.cxIdeal == lastRight + 16 && b.cxHeader == 0
    ensures flags & INSERTBAR_NO_DYNAMIC_SIZE != 0 ==> b.cx == b.cxIdeal == FIXED_WIDTH && b.cxHeader == FIXED_HEADER
  {
    var fixed := flags & INSERTBAR_NO_DYNAMIC_SIZE != 0;
    Band(BandMask(flags, title.Some?), BandStyle(flags), id, -1, title, bar,
      buttonHeight, buttonHeight, buttonHeight,
      if fixed then FIXED_WIDTH else lastRight + 16, lastRight,
      if fixed then FIXED_WIDTH else lastRight + 16, 1,
      if fixed then FIXED_HEADER else 0)
  }

  /**
   * `InsertBar(bar, title, flags)`.  The band goes at the end of the rebar.
   * When the control refuses it the result is -1 and nothing changes;
   * otherwise the result is the band's id and the counter moves on, and the
   * new band is the one handed to `MaximizeBand` (the third component), so
   * the last band on its line is left aligned.
   * `lastItemRight` is the right edge of the last button, or none when the
   * toolbar has no buttons.
   */
  function InsertBar(r: RebarState, bar: Handle, title: Option<seq<int>>, flags: bv32,
                     buttonWidth: int, buttonHeight: int, lastItemRight: Option<int>, insertOk: bool): (res: (RebarState, int, Option<nat>))
    ensures !insertOk ==> res == (r, -1, None)
    ensures insertOk ==> res.2 == Some(|res.0.bands| - 1) && res.0.bands[res.2.value].id == res.1
    ensures insertOk ==> res.1 == r.nextBandId && res.0.nextBandId == r.nextBandId + 1
    ensures insertOk ==> |res.0.bands| == |r.bands| + 1 && res.0.bands[..|r.bands|] == r.bands
    ensures insertOk ==> res.0.bands[|r.bands|].id == res.1 && res.0.bands[|r.bands|].child == bar
    ensures insertOk ==> res.0.bands[|r.bands|].style == BandStyle(flags)
  {
    var refused: int := -1;
    if !insertOk then (r, refused, None)
    else
      var lastRight := if lastItemRight.Some? then lastItemRight.value else buttonWidth;
      var band := MakeBand(r.nextBandId, bar, title, flags, buttonHeight, lastRight);
      assert (r.bands + [band])[..|r.bands|] == r.bands;
      var id: int := r.nextBandId;
      (RebarState(r.nextBandId + 1, r.bands + [band]), id, Some(|r.bands|))
  }

  /** Every band's id is its index plus 50, and the counter is the next such id. */
  predicate IdsByPosition(r: RebarState)
  {
    r.nextBandId == FIRST_BAND_ID + |r.bands| &&
    forall i :: 0 <= i < |r.bands| ==> r.bands[i].id == FIRST_BAND_ID + i
  }

  /** Inserting keeps band ids tied to positions, whether or not the control accepts the band. */
  lemma InsertKeepsIds(r: RebarState, bar: Handle, title: Option<seq<int>>, flags: bv32,
                       buttonWidth: int, buttonHeight: int, lastItemRight: Option<int>, insertOk: bool)
    requires IdsByPosition(r)
    ensures IdsByPosition(InsertBar(r, bar, title, flags, buttonWidth, buttonHeight, lastItemRight, insertOk).0)
  {
    var r' := InsertBar(r, bar, title, flags, buttonWidth, buttonHeight, lastItemRight, insertOk).0;
    if insertOk {
      forall i | 0 <= i < |r'.bands|
        ensures r'.bands[i].id == FIRST_BAND_ID + i
      {
        if i < |r.bands| {
          assert r'.bands[i] == r'.bands[..|r.bands|][i];
        }
      }
    }
  }

  /** Hence no two bands of a rebar share an id. */
  lemma IdsDistinct(r: RebarState, i: int, j: int)
    requires IdsByPosition(r) && 0 <= i < j < |r.bands|
    ensures r.bands[i].id < r.bands[j].id
  {
  }

  predicate Hidden(b: Band)
  {
    b.style & RBBS_HIDDEN != 0
  }

  /**
   * `Rearrange`: the indices of the bands it maximizes, in order — exactly
   * the bands that are not hidden.
   */
  function Rearrange(bands: seq<Band>): (maximized: seq<nat>)
    ensures forall k :: 0 <= k < |maximized| ==> maximized[k] < |bands| && !Hidden(bands[maximized[k]])
    ensures forall i :: 0 <= i < |bands| && !Hidden(bands[i]) ==> i in maximized
    ensures forall k, l :: 0 <= k < l < |maximized| ==> maximized[k] < maximized[l]
  {
    MaximizedFrom(bands, 0)
  }

  /** The loop of `Rearrange` from band `i` on: each band not hidden is maximized, in index order. */
  function MaximizedFrom(bands: seq<Band>, i: nat): (m: seq<nat>)
    requires i <= |bands|
    ensures forall k :: 0 <= k < |m| ==> i <= m[k] < |bands| && !Hidden(bands[m[k]])
    ensures forall j :: i <= j < |bands| && !Hidden(bands[j]) ==> j in m
    ensures forall k, l :: 0 <= k < l < |m| ==> m[k] < m[l]
    decreases |bands| - i
  {
    if i == |bands| then []
    else
      var rest := MaximizedFrom(bands, i + 1);
      if !Hidden(bands[i]) then [i] + rest else rest
  }

  /** A band inserted with `REBAR_INSERTBAR_HIDDEN` is left alone by `Rearrange`; any other is maximized. */
  lemma HiddenBandsNotMaximized(r: RebarState, bar: Handle, title: Option<seq<int>>, flags: bv32,
                                buttonWidth: int, buttonHeight: int, lastItemRight: Option<int>)
    ensures var r' := InsertBar(r, bar, title, flags, buttonWidth, buttonHeight, lastItemRight, true).0;
      |r.bands| in Rearrange(r'.bands) <==> flags & INSERTBAR_HIDDEN == 0
  {
    var r' := InsertBar(r, bar, title, flags, buttonWidth, buttonHeight, lastItemRight, true).0;
    var m := Rearrange(r'.bands);
    if |r.bands| in m {
      var k :| 0 <= k < |m| && m[k] == |r.bands|;
    }
  }
}
