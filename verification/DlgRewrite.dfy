/**
 * The font rewrite that `Dlg::DoDlg` performs on a dialog resource before
 * handing it to the dialog manager, written as the walk the C++ code does:
 * one input cursor, one output cursor, runs of words copied until their NUL,
 * the old font block skipped and a new one written, then `count` items copied
 * with each item's fixed header 4-aligned against its own buffer.
 *
 * The walk is then related to the independent reader of `DlgFormat`: it
 * succeeds exactly when the template parses, and its output is the
 * serialization of the parsed template with the new font put in.
 */
module DlgRewrite {
  import opened Wrappers
  import opened Align
  import opened DlgFormat

  // ---------------------------------------------------------------------
  // What the rewrite means

  /** The font block the rewrite writes: the point size truncated to a `WORD`, weight, italic and charset all zero. */
  function NewFont(name: seq<int>, pointSize: nat, extended: bool): (f: Font)
    requires NoNul(name)
    ensures FontOk(f, extended) && f.face == name && f.pointSize == pointSize % 0x1_0000
  {
    if extended then ExtendedFont(pointSize % 0x1_0000, 0, 0, 0, name)
    else LegacyFont(pointSize % 0x1_0000, name)
  }

  /** `t` with DS_SETFONT forced on and its font, present or not, replaced by the new one. */
  function WithFont(t: Template, name: seq<int>, pointSize: nat): (r: Template)
    requires HeadOk(t) && NoNul(name)
    ensures HeadOk(r) && ItemCount(r) == ItemCount(t)
    ensures WellFormed(t) ==> WellFormed(r)
  {
    t.(fixed := SetFontStyle(t.fixed, t.extended), font := Some(NewFont(name, pointSize, t.extended)))
  }

  // ---------------------------------------------------------------------
  // The walk

  /** `while (0 != (*output++ = *wordptr++))`: a run of words copied up to and including its NUL word. */
  function CopyRun(s: seq<byte>): (r: Result<(seq<byte>, seq<byte>), TemplateError>)
    ensures r.Success? ==> s == r.value.0 + r.value.1
    decreases |s|
  {
    if |s| < 2 then Failure(TruncatedInput)
    else if WordAt(s, 0) == 0 then Success((s[..2], s[2..]))
    else
      var tail :- CopyRun(s[2..]);
      Success((s[..2] + tail.0, tail.1))
  }

  /** An item's class or title: the marker and its ordinal, or a NUL-terminated run. */
  function CopyField(s: seq<byte>): (r: Result<(seq<byte>, seq<byte>), TemplateError>)
    ensures r.Success? ==> s == r.value.0 + r.value.1
  {
    if |s| < 2 then Failure(TruncatedInput)
    else if WordAt(s, 0) == ORDINAL_MARKER then
      if |s| < 4 then Failure(TruncatedInput) else Success((s[..4], s[4..]))
    else CopyRun(s)
  }

  /** How the dialog header's menu and class references are copied. */
  datatype HeaderCopy =
    | AsWritten   // as plain NUL-terminated runs, the way the source copies them
    | Corrected   // like item fields, honouring the ordinal form

  function CopyHeaderField(s: seq<byte>, how: HeaderCopy): (r: Result<(seq<byte>, seq<byte>), TemplateError>)
    ensures r.Success? ==> s == r.value.0 + r.value.1
  {
    match how
    case AsWritten => CopyRun(s)
    case Corrected => CopyField(s)
  }

  /** Steps past an existing font block: the point size (and, extended, weight, italic and charset), then the face name. */
  function SkipFont(s: seq<byte>, extended: bool): (r: Result<seq<byte>, TemplateError>)
    ensures r.Success? ==> |r.value| < |s|
  {
    if |s| < 2 then Failure(TruncatedInput)
    else if !extended then
      var face :- CopyRun(s[2..]);
      Success(face.1)
    else
      var afterPoint := s[2..];
      if |afterPoint| < 4 then Failure(TruncatedInput)
      else
        var afterWeight := afterPoint[2..];
        var face :- CopyRun(afterWeight[2..]);
        Success(face.1)
  }

  /** `style |= DS_SETFONT` on the low style byte: bit 6 set, the bits below and above it kept. */
  function SetFontBit(b: byte): (r: byte)
    ensures HasFontBit(r)
    ensures r as int % DS_SETFONT == b as int % DS_SETFONT
    ensures r as int / (2 * DS_SETFONT) == b as int / (2 * DS_SETFONT)
  {
    if HasFontBit(b) then b else (b as int + DS_SETFONT) as byte
  }

  /** The fixed header copied with DS_SETFONT or-ed into its style. */
  function SetFontStyle(fixed: seq<byte>, extended: bool): (r: seq<byte>)
    requires |fixed| == HeaderSize(extended)
    ensures |r| == |fixed|
  {
    fixed[StyleOffset(extended) := SetFontBit(fixed[StyleOffset(extended)])]
  }

  /** The font block written after the title: the point size truncated to a WORD, zero weight, italic and charset when extended, then the face name. */
  function FontBlock(name: seq<int>, pointSize: nat, extended: bool): (r: seq<byte>)
    requires NoNul(name)
  {
    EncodeWord(pointSize % 0x1_0000) + ((if extended then [0, 0, 0, 0] else []) + EncodeString(name))
  }

  /** The item's length-prefixed extra data: the length word is written back and that many bytes copied. */
  function CopyExtra(s: seq<byte>): (r: Result<(seq<byte>, seq<byte>), TemplateError>)
    ensures r.Success? ==> |s| == |r.value.0| + |r.value.1|
  {
    if |s| < 2 then Failure(TruncatedInput)
    else
      var n := WordAt(s, 0);
      var data := s[2..];
      if |data| < n then Failure(TruncatedInput)
      else Success((EncodeWord(n) + data[..n], data[n..]))
  }

  /**
   * One item: the input cursor at absolute offset `inPos` and the output
   * cursor at `outPos` are each aligned to 4 in their own buffer, the fixed
   * header copied, then class, title and extra data.  The output padding is
   * written as zeros.
   */
  function CopyItem(s: seq<byte>, inPos: nat, outPos: nat, extended: bool): (r: Result<(seq<byte>, seq<byte>), TemplateError>)
    ensures r.Success? ==> |r.value.1| < |s|
    ensures r.Success? ==> |r.value.0| >= PadLength(outPos) + ItemHeaderSize(extended)
  {
    if |s| < PadLength(inPos) then Failure(TruncatedInput)
    else
      var body := s[PadLength(inPos)..];
      if |body| < ItemHeaderSize(extended) then Failure(TruncatedInput)
      else
        var cls :- CopyField(body[ItemHeaderSize(extended)..]);
        var title :- CopyField(cls.1);
        var extra :- CopyExtra(title.1);
        Success((Zeros(PadLength(outPos)) + (body[..ItemHeaderSize(extended)] + (cls.0 + (title.0 + extra.0))), extra.1))
  }

  /** The output offset reached after writing `out` from offset `outPos`. */
  function Written(outPos: nat, out: seq<byte>): nat
  {
    outPos + |out|
  }

  /** `while (count--)`: exactly `count` items, in input order. */
  function CopyItems(s: seq<byte>, inPos: nat, outPos: nat, extended: bool, count: nat): (r: Result<(seq<byte>, seq<byte>), TemplateError>)
    ensures r.Success? ==> |r.value.1| <= |s|
    ensures count == 0 ==> r == Success(([], s))
    ensures r.Success? && count > 0 ==> |r.value.0| >= ItemHeaderSize(extended)
    decreases count
  {
    if count == 0 then Success(([], s))
    else
      var first :- CopyItem(s, inPos, outPos, extended);
      var later :- CopyItems(first.1, Consumed(inPos, s, first.1), Written(outPos, first.0), extended, count - 1);
      Success((first.0 + later.0, later.1))
  }

  /** The header, menu, class, title and new font block, with the input left after the old font block. */
  function RewriteHead(s: seq<byte>, name: seq<int>, pointSize: nat, how: HeaderCopy): (r: Result<(seq<byte>, seq<byte>), TemplateError>)
    requires NoNul(name)
    ensures r.Success? ==> |r.value.1| <= |s|
    ensures |s| < 4 ==> r.Failure?
    ensures r.Success? ==> |s| >= HeaderSize(WordAt(s, 2) == ORDINAL_MARKER) && |r.value.0| >= HeaderSize(WordAt(s, 2) == ORDINAL_MARKER)
  {
    if |s| < 4 then Failure(TruncatedInput)
    else
      var extended := WordAt(s, 2) == ORDINAL_MARKER;
      if |s| < HeaderSize(extended) then Failure(TruncatedInput)
      else
        var menu :- CopyHeaderField(s[HeaderSize(extended)..], how);
        var cls :- CopyHeaderField(menu.1, how);
        var title :- CopyRun(cls.1);
        var afterFont :- if HasFontBit(s[StyleOffset(extended)]) then SkipFont(title.1, extended) else Success(title.1);
        var head := SetFontStyle(s[..HeaderSize(extended)], extended) + (menu.0 + (cls.0 + (title.0 + FontBlock(name, pointSize, extended))));
        Success((head, afterFont))
  }

  /** `s` ends in `t`. */
  predicate SuffixOf(t: seq<byte>, s: seq<byte>)
  {
    |t| <= |s| && t == s[|s| - |t|..]
  }

  /** A tail of a tail is a tail. */
  lemma SuffixTrans(u: seq<byte>, t: seq<byte>, s: seq<byte>)
    requires SuffixOf(u, t) && SuffixOf(t, s)
    ensures SuffixOf(u, s)
  {
    assert s[|s| - |t|..][|t| - |u|..] == s[|s| - |u|..];
  }

  /** What follows a prefix is a tail. */
  lemma SuffixOfConcat(a: seq<byte>, b: seq<byte>)
    ensures SuffixOf(b, a + b)
  {
    assert (a + b)[|a|..] == b;
  }

  /** Dropping a prefix leaves a tail. */
  lemma SuffixOfDrop(s: seq<byte>, k: nat)
    requires k <= |s|
    ensures SuffixOf(s[k..], s)
  {
  }

  /** The data left after an item's extra data is a tail of its input. */
  lemma CopyExtraLeavesSuffix(s: seq<byte>)
    ensures CopyExtra(s).Success? ==> SuffixOf(CopyExtra(s).value.1, s)
  {
    if CopyExtra(s).Success? {
      SuffixOfDrop(s, 2);
      SuffixOfDrop(s[2..], WordAt(s, 0));
      SuffixTrans(CopyExtra(s).value.1, s[2..], s);
    }
  }

  /** A copied pair of strings leaves a tail of its input. */
  lemma CopiedLeavesSuffix(s: seq<byte>, r: Result<(seq<byte>, seq<byte>), TemplateError>)
    requires r.Success? ==> s == r.value.0 + r.value.1
    ensures r.Success? ==> SuffixOf(r.value.1, s)
  {
    if r.Success? {
      SuffixOfConcat(r.value.0, r.value.1);
    }
  }

  /** Copying an item reads a prefix of its input: what is left is the input's tail. */
  lemma CopyItemLeavesSuffix(s: seq<byte>, inPos: nat, outPos: nat, extended: bool)
    ensures CopyItem(s, inPos, outPos, extended).Success? ==> SuffixOf(CopyItem(s, inPos, outPos, extended).value.1, s)
  {
    if CopyItem(s, inPos, outPos, extended).Success? {
      var body := s[PadLength(inPos)..];
      var fields := body[ItemHeaderSize(extended)..];
      var cls := CopyField(fields).value;
      var title := CopyField(cls.1).value;
      SuffixOfDrop(s, PadLength(inPos));
      SuffixOfDrop(body, ItemHeaderSize(extended));
      CopiedLeavesSuffix(fields, CopyField(fields));
      CopiedLeavesSuffix(cls.1, CopyField(cls.1));
      CopyExtraLeavesSuffix(title.1);
      SuffixTrans(fields, body, s);
      SuffixTrans(cls.1, fields, s);
      SuffixTrans(title.1, cls.1, s);
      SuffixTrans(CopyExtra(title.1).value.1, title.1, s);
    }
  }

  /** Stepping past a font block leaves a tail of its input. */
  lemma SkipFontLeavesSuffix(s: seq<byte>, extended: bool)
    ensures SkipFont(s, extended).Success? ==> SuffixOf(SkipFont(s, extended).value, s)
  {
    if SkipFont(s, extended).Success? {
      var face := if extended then s[6..] else s[2..];
      assert face == s[|s| - |face|..];
      CopiedLeavesSuffix(face, CopyRun(face));
      SuffixTrans(SkipFont(s, extended).value, face, s);
    }
  }

  /** Rewriting the header reads a prefix of the template: what is left for the items is the template's tail. */
  lemma RewriteHeadLeavesSuffix(s: seq<byte>, name: seq<int>, pointSize: nat, how: HeaderCopy)
    requires NoNul(name)
    ensures RewriteHead(s, name, pointSize, how).Success? ==> SuffixOf(RewriteHead(s, name, pointSize, how).value.1, s)
  {
    if RewriteHead(s, name, pointSize, how).Success? {
      var extended := WordAt(s, 2) == ORDINAL_MARKER;
      var fields := s[HeaderSize(extended)..];
      var menu := CopyHeaderField(fields, how).value;
      var cls := CopyHeaderField(menu.1, how).value;
      var title := CopyRun(cls.1).value;
      SuffixOfDrop(s, HeaderSize(extended));
      CopiedLeavesSuffix(fields, CopyHeaderField(fields, how));
      CopiedLeavesSuffix(menu.1, CopyHeaderField(menu.1, how));
      CopiedLeavesSuffix(cls.1, CopyRun(cls.1));
      SuffixTrans(menu.1, fields, s);
      SuffixTrans(cls.1, menu.1, s);
      SuffixTrans(title.1, cls.1, s);
      if HasFontBit(s[StyleOffset(extended)]) {
        SkipFontLeavesSuffix(title.1, extended);
        SuffixTrans(SkipFont(title.1, extended).value, title.1, s);
      }
    }
  }

  /** The whole rewritten template; the output starts 4-aligned, as the allocation does. */
  function RewriteWith(s: seq<byte>, name: seq<int>, pointSize: nat, how: HeaderCopy): (r: Result<seq<byte>, TemplateError>)
    requires NoNul(name)
  {
    var head :- RewriteHead(s, name, pointSize, how);
    var extended := WordAt(s, 2) == ORDINAL_MARKER;
    var items :- CopyItems(head.1, Consumed(0, s, head.1), |head.0|, extended, WordAt(s, CountOffset(extended)));
    Success(head.0 + items.0)
  }

  function Rewrite(s: seq<byte>, name: seq<int>, pointSize: nat): Result<seq<byte>, TemplateError>
    requires NoNul(name)
  {
    RewriteWith(s, name, pointSize, Corrected)
  }

  function RewriteAsWritten(s: seq<byte>, name: seq<int>, pointSize: nat): Result<seq<byte>, TemplateError>
    requires NoNul(name)
  {
    RewriteWith(s, name, pointSize, AsWritten)
  }
}
