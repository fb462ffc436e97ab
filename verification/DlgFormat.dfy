/**
 * The packed dialog-template resource layout that `Dlg::DoDlg` rewrites:
 * a legacy `DLGTEMPLATE` (18-byte header, 18-byte items) or an extended
 * `DLGTEMPLATEEX` (26-byte header, 24-byte items), little-endian 16-bit
 * words, every item starting on a 4-byte boundary.
 *
 * This module is the reference reading of that layout. Each `Parse...`
 * function consumes a prefix of the bytes it is given and returns what it
 * decoded together with the bytes that remain, as a cursor walking the
 * resource would leave them; each `Encode...` function lays a value out
 * again. `DlgRoundTrip` proves the two inverse and `DlgRewriteProofs` proves the
 * font rewriter against them.
 *
 * Item alignment is relative to the start of the template, which is
 * assumed 4-aligned (resources and `GlobalAlloc` blocks are), so the
 * parsers that skip padding take the absolute offset `pos` of their first
 * byte.
 */
module DlgFormat {
  import opened Wrappers
  import opened Align

  newtype byte = b: int | 0 <= b < 256

  /** `DS_SETFONT`, bit 6 of the lowest byte of the style `DWORD`. */
  const DS_SETFONT: int := 0x40
  /** The first word of an ordinal `sz_Or_Ord`, and the extended-template signature. */
  const ORDINAL_MARKER: int := 0xFFFF

  datatype TemplateError = TruncatedInput

  /** `sizeof(DLGTEMPLATEEX)` is 26 and `sizeof(DLGTEMPLATE)` is 18 (both packed to 2). */
  function HeaderSize(extended: bool): nat { if extended then 26 else 18 }
  /** `sizeof(DLGITEMTEMPLATEEX)` is 24 and `sizeof(DLGITEMTEMPLATE)` is 18. */
  function ItemHeaderSize(extended: bool): nat { if extended then 24 else 18 }
  /** Offset of the style `DWORD`: after `dlgVer, signature, helpID, exStyle` when extended. */
  function StyleOffset(extended: bool): nat { if extended then 12 else 0 }
  /** Offset of `cDlgItems` / `cdit`. */
  function CountOffset(extended: bool): nat { if extended then 16 else 8 }

  // ---------------------------------------------------------------------
  // Words and strings

  function WordAt(s: seq<byte>, i: nat): (w: int)
    requires i + 2 <= |s|
    ensures 0 <= w < 0x1_0000
  {
    s[i] as int + 256 * s[i + 1] as int
  }

  function EncodeWord(w: int): (r: seq<byte>)
    requires 0 <= w < 0x1_0000
    ensures |r| == 2 && WordAt(r, 0) == w
  {
    [(w % 256) as byte, (w / 256) as byte]
  }

  /** The code units of a NUL-terminated UTF-16 string, terminator excluded. */
  predicate NoNul(u: seq<int>)
  {
    forall k :: 0 <= k < |u| ==> 0 < u[k] < 0x1_0000
  }

  function EncodeString(u: seq<int>): (r: seq<byte>)
    requires NoNul(u)
    ensures |r| == 2 * |u| + 2
  {
    if |u| == 0 then [0, 0] else EncodeWord(u[0]) + EncodeString(u[1..])
  }

  /** A NUL-terminated string: its units, and what follows the terminator. */
  function ParseString(s: seq<byte>): (r: Result<(seq<int>, seq<byte>), TemplateError>)
    ensures r.Success? ==> NoNul(r.value.0) && |s| == 2 * |r.value.0| + 2 + |r.value.1|
  {
    if |s| < 2 then Failure(TruncatedInput)
    else if WordAt(s, 0) == 0 then Success(([], s[2..]))
    else
      var rest :- ParseString(s[2..]);
      Success(([WordAt(s, 0)] + rest.0, rest.1))
  }

  // ---------------------------------------------------------------------
  // sz_Or_Ord fields

  /** A menu, class or title reference: `0xFFFF` and a 16-bit ordinal, or a string. */
  datatype Field = Ordinal(id: int) | Name(units: seq<int>)

  predicate FieldOk(f: Field)
  {
    match f
    case Ordinal(id) => 0 <= id < 0x1_0000
    case Name(u) => NoNul(u) && (|u| == 0 || u[0] != ORDINAL_MARKER)
  }

  function EncodeField(f: Field): (r: seq<byte>)
    requires FieldOk(f)
    ensures |r| % 2 == 0 && |r| >= 2
  {
    match f
    case Ordinal(id) => EncodeWord(ORDINAL_MARKER) + EncodeWord(id)
    case Name(u) => EncodeString(u)
  }

  function ParseField(s: seq<byte>): (r: Result<(Field, seq<byte>), TemplateError>)
    ensures r.Success? ==> FieldOk(r.value.0) && |s| == |EncodeField(r.value.0)| + |r.value.1|
  {
    if |s| < 2 then Failure(TruncatedInput)
    else if WordAt(s, 0) == ORDINAL_MARKER then
      if |s| < 4 then Failure(TruncatedInput)
      else Success((Ordinal(WordAt(s, 2)), s[4..]))
    else
      var str :- ParseString(s);
      Success((Name(str.0), str.1))
  }

  // ---------------------------------------------------------------------
  // Font block

  /** Present only when the style has `DS_SETFONT`; the extended form adds weight, italic and charset. */
  datatype Font =
    | LegacyFont(pointSize: int, face: seq<int>)
    | ExtendedFont(pointSize: int, weight: int, italic: byte, charset: byte, face: seq<int>)

  predicate FontOk(f: Font, extended: bool)
  {
    && 0 <= f.pointSize < 0x1_0000
    && NoNul(f.face)
    && (f.ExtendedFont? <==> extended)
    && (f.ExtendedFont? ==> 0 <= f.weight < 0x1_0000)
  }

  function EncodeFont(f: Font, extended: bool): (r: seq<byte>)
    requires FontOk(f, extended)
  {
    match f
    case LegacyFont(pt, face) => EncodeWord(pt) + EncodeString(face)
    case ExtendedFont(pt, w, it, cs, face) => EncodeWord(pt) + (EncodeWord(w) + ([it, cs] + EncodeString(face)))
  }

  function ParseFont(s: seq<byte>, extended: bool): (r: Result<(Font, seq<byte>), TemplateError>)
    ensures r.Success? ==> FontOk(r.value.0, extended) && |s| == |EncodeFont(r.value.0, extended)| + |r.value.1|
  {
    if |s| < 2 then Failure(TruncatedInput)
    else if !extended then
      var face :- ParseString(s[2..]);
      Success((LegacyFont(WordAt(s, 0), face.0), face.1))
    else
      var afterPoint := s[2..];
      if |afterPoint| < 4 then Failure(TruncatedInput)
      else
        var afterWeight := afterPoint[2..];
        var face :- ParseString(afterWeight[2..]);
        Success((ExtendedFont(WordAt(s, 0), WordAt(afterPoint, 0), afterWeight[0], afterWeight[1], face.0), face.1))
  }

  // ---------------------------------------------------------------------
  // Items

  /** One control: its fixed header, class and title references, and the extra-data blob. */
  datatype Item = Item(fixed: seq<byte>, cls: Field, title: Field, extra: seq<byte>)

  predicate ItemOk(it: Item, extended: bool)
  {
    && |it.fixed| == ItemHeaderSize(extended)
    && FieldOk(it.cls) && FieldOk(it.title)
    && |it.extra| < 0x1_0000
  }

  predicate ItemsOk(items: seq<Item>, extended: bool)
  {
    forall k :: 0 <= k < |items| ==> ItemOk(items[k], extended)
  }

  /** The extra-data length word counts bytes, and the count may be odd. */
  function EncodeExtra(extra: seq<byte>): (r: seq<byte>)
    requires |extra| < 0x1_0000
  {
    EncodeWord(|extra|) + extra
  }

  function ParseExtra(s: seq<byte>): (r: Result<(seq<byte>, seq<byte>), TemplateError>)
    ensures r.Success? ==> |r.value.0| < 0x1_0000 && |s| == 2 + |r.value.0| + |r.value.1|
  {
    if |s| < 2 then Failure(TruncatedInput)
    else
      var n := WordAt(s, 0);
      var data := s[2..];
      if |data| < n then Failure(TruncatedInput)
      else Success((data[..n], data[n..]))
  }

  /** An item laid out from a 4-aligned offset. */
  function EncodeItem(it: Item, extended: bool): (r: seq<byte>)
    requires ItemOk(it, extended)
    ensures |r| >= ItemHeaderSize(extended) + 6
  {
    it.fixed + (EncodeField(it.cls) + (EncodeField(it.title) + EncodeExtra(it.extra)))
  }

  /** How many bytes of padding bring offset `pos` to the next multiple of 4. */
  function PadLength(pos: nat): (n: nat)
    ensures n < 4 && (pos + n) % 4 == 0
  {
    AlignPtr(pos, 4) - pos
  }

  /** An item whose padding starts at absolute offset `pos`; the padding bytes are skipped unread. */
  function ParseItem(s: seq<byte>, pos: nat, extended: bool): (r: Result<(Item, seq<byte>), TemplateError>)
    ensures r.Success? ==> ItemOk(r.value.0, extended)
    ensures r.Success? ==> |s| == PadLength(pos) + |EncodeItem(r.value.0, extended)| + |r.value.1|
  {
    if |s| < PadLength(pos) then Failure(TruncatedInput)
    else
      var body := s[PadLength(pos)..];
      if |body| < ItemHeaderSize(extended) then Failure(TruncatedInput)
      else
        var cls :- ParseField(body[ItemHeaderSize(extended)..]);
        var title :- ParseField(cls.1);
        var extra :- ParseExtra(title.1);
        Success((Item(body[..ItemHeaderSize(extended)], cls.0, title.0, extra.0), extra.1))
  }

  /** The absolute offset reached after consuming `s` down to `rest`, starting at `pos`. */
  function Consumed(pos: nat, s: seq<byte>, rest: seq<byte>): nat
    requires |rest| <= |s|
  {
    pos + (|s| - |rest|)
  }

  function ParseItems(s: seq<byte>, pos: nat, extended: bool, count: nat): (r: Result<(seq<Item>, seq<byte>), TemplateError>)
    ensures r.Success? ==> |r.value.0| == count && ItemsOk(r.value.0, extended) && |r.value.1| <= |s|
    decreases count
  {
    if count == 0 then Success(([], s))
    else
      var first :- ParseItem(s, pos, extended);
      var rest :- ParseItems(first.1, Consumed(pos, s, first.1), extended, count - 1);
      Success(([first.0] + rest.0, rest.1))
  }

  function Zeros(n: nat): (r: seq<byte>)
    ensures |r| == n
  {
    seq(n, _ => 0 as byte)
  }

  /** The absolute offset at which an item laid out after offset `pos` ends. */
  function ItemEnd(pos: nat, it: Item, extended: bool): nat
    requires ItemOk(it, extended)
  {
    AlignPtr(pos, 4) + |EncodeItem(it, extended)|
  }

  /** A run of items laid out from absolute offset `pos`, each preceded by zero padding. */
  function ItemsBytes(pos: nat, items: seq<Item>, extended: bool): (r: seq<byte>)
    requires ItemsOk(items, extended)
    decreases |items|
  {
    if |items| == 0 then []
    else
      Zeros(PadLength(pos)) + (EncodeItem(items[0], extended) + ItemsBytes(ItemEnd(pos, items[0], extended), items[1..], extended))
  }

  // ---------------------------------------------------------------------
  // Whole template

  datatype Template = Template(
    extended: bool,
    fixed: seq<byte>,
    menu: Field,
    cls: Field,
    title: seq<int>,
    font: Option<Font>,
    items: seq<Item>)

  predicate HasFontBit(b: byte)
  {
    (b as int / DS_SETFONT) % 2 == 1
  }

  /** Everything a decoded template can hold, except that the item count need not match yet. */
  predicate HeadOk(t: Template)
  {
    && |t.fixed| == HeaderSize(t.extended)
    && (WordAt(t.fixed, 2) == ORDINAL_MARKER <==> t.extended)
    && (HasFontBit(t.fixed[StyleOffset(t.extended)]) <==> t.font.Some?)
    && (t.font.Some? ==> FontOk(t.font.value, t.extended))
    && FieldOk(t.menu) && FieldOk(t.cls) && NoNul(t.title)
  }

  function ItemCount(t: Template): int
    requires HeadOk(t)
  {
    WordAt(t.fixed, CountOffset(t.extended))
  }

  predicate WellFormed(t: Template)
  {
    && HeadOk(t)
    && ItemCount(t) == |t.items|
    && ItemsOk(t.items, t.extended)
  }

  function FontBytes(t: Template): seq<byte>
    requires HeadOk(t)
  {
    if t.font.Some? then EncodeFont(t.font.value, t.extended) else []
  }

  /** Everything before the first item. */
  function SerializeHead(t: Template): (r: seq<byte>)
    requires HeadOk(t)
  {
    t.fixed + (EncodeField(t.menu) + (EncodeField(t.cls) + (EncodeString(t.title) + FontBytes(t))))
  }

  function Serialize(t: Template): (r: seq<byte>)
    requires WellFormed(t)
  {
    var head := SerializeHead(t);
    head + ItemsBytes(|head|, t.items, t.extended)
  }

  /** Decodes everything before the first item; the template returned has no items yet. */
  function ParseHead(s: seq<byte>): (r: Result<(Template, seq<byte>), TemplateError>)
    ensures r.Success? ==> HeadOk(r.value.0) && r.value.0.items == []
    ensures r.Success? ==> |s| == |SerializeHead(r.value.0)| + |r.value.1|
    ensures r.Success? ==> r.value.0.fixed == s[..|r.value.0.fixed|]
  {
    if |s| < 4 then Failure(TruncatedInput)
    else
      var extended := WordAt(s, 2) == ORDINAL_MARKER;
      var h := HeaderSize(extended);
      if |s| < h then Failure(TruncatedInput)
      else
        var menu :- ParseField(s[h..]);
        var cls :- ParseField(menu.1);
        var title :- ParseString(cls.1);
        var font :-
          if HasFontBit(s[StyleOffset(extended)]) then
            var f :- ParseFont(title.1, extended);
            Success((Some(f.0), f.1))
          else Success((None, title.1));
        Success((Template(extended, s[..h], menu.0, cls.0, title.0, font.0, []), font.1))
  }

  /** Decodes a template, returning the bytes after its last item. */
  function ParseTemplate(s: seq<byte>): (r: Result<(Template, seq<byte>), TemplateError>)
    ensures r.Success? ==> WellFormed(r.value.0) && |r.value.1| <= |s|
  {
    var head :- ParseHead(s);
    var t := head.0;
    var items :- ParseItems(head.1, Consumed(0, s, head.1), t.extended, ItemCount(t));
    Success((t.(items := items.0), items.1))
  }
}
