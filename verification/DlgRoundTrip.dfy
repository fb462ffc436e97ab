/**
 * The dialog-template parsers and encoders are inverse.
 *
 * The `...Encode` lemmas: decoding an encoding followed by anything gives
 * back the value encoded and exactly the bytes that followed it. The
 * `...Decode` lemmas: whatever a parser accepts is the encoding of what it
 * returned followed by what it left. Together they give `ParseSerialize`,
 * `ParseTemplate(Serialize(t) + rest) == Success((t, rest))`.
 */
module DlgRoundTrip {
  import opened Wrappers
  import opened Align
  import opened DlgFormat

  /** The two halves of a concatenation. */
  lemma Halves(a: seq<byte>, b: seq<byte>)
    ensures (a + b)[..|a|] == a && (a + b)[|a|..] == b
  {
  }

  lemma Assoc(a: seq<byte>, b: seq<byte>, c: seq<byte>)
    ensures (a + b) + c == a + (b + c)
  {
  }

  /** An encoded font followed by `rest`, with the concatenation nested to the right. */
  lemma EncodeFontThen(f: Font, extended: bool, rest: seq<byte>)
    requires FontOk(f, extended)
    ensures f.LegacyFont? ==> EncodeFont(f, extended) + rest == EncodeWord(f.pointSize) + (EncodeString(f.face) + rest)
    ensures f.ExtendedFont? ==>
      (EncodeFont(f, extended) + rest
       == EncodeWord(f.pointSize) + (EncodeWord(f.weight) + ([f.italic, f.charset] + (EncodeString(f.face) + rest))))
  {
    var pt, face := EncodeWord(f.pointSize), EncodeString(f.face);
    if f.ExtendedFont? {
      var w, ic := EncodeWord(f.weight), [f.italic, f.charset];
      Assoc(pt, w + (ic + face), rest);
      Assoc(w, ic + face, rest);
      Assoc(ic, face, rest);
    } else {
      Assoc(pt, face, rest);
    }
  }

  lemma EncodeItemThen(it: Item, extended: bool, rest: seq<byte>)
    requires ItemOk(it, extended)
    ensures EncodeItem(it, extended) + rest
      == it.fixed + (EncodeField(it.cls) + (EncodeField(it.title) + (EncodeExtra(it.extra) + rest)))
  {
    var c, t, e := EncodeField(it.cls), EncodeField(it.title), EncodeExtra(it.extra);
    Assoc(it.fixed, c + (t + e), rest);
    Assoc(c, t + e, rest);
    Assoc(t, e, rest);
  }

  lemma SerializeHeadThen(t: Template, rest: seq<byte>)
    requires HeadOk(t)
    ensures SerializeHead(t) + rest
      == t.fixed + (EncodeField(t.menu) + (EncodeField(t.cls) + (EncodeString(t.title) + (FontBytes(t) + rest))))
  {
    var m, c, ti, f := EncodeField(t.menu), EncodeField(t.cls), EncodeString(t.title), FontBytes(t);
    Assoc(t.fixed, m + (c + (ti + f)), rest);
    Assoc(m, c + (ti + f), rest);
    Assoc(c, ti + f, rest);
    Assoc(ti, f, rest);
  }

  lemma EncodeWordSplit(s: seq<byte>)
    requires |s| >= 2
    ensures s == EncodeWord(WordAt(s, 0)) + s[2..]
  {
    assert s[..2] == EncodeWord(WordAt(s, 0));
    assert s == s[..2] + s[2..];
  }

  // ---------------------------------------------------------------------
  // Strings

  lemma {:induction false} ParseStringEncode(u: seq<int>, rest: seq<byte>)
    requires NoNul(u)
    ensures ParseString(EncodeString(u) + rest) == Success((u, rest))
  {
    var s := EncodeString(u) + rest;
    if |u| == 0 {
      assert s[2..] == rest;
    } else {
      assert s == EncodeWord(u[0]) + (EncodeString(u[1..]) + rest);
      assert s[2..] == EncodeString(u[1..]) + rest;
      ParseStringEncode(u[1..], rest);
      assert [u[0]] + u[1..] == u;
    }
  }

  lemma {:induction false} ParseStringDecode(s: seq<byte>)
    requires ParseString(s).Success?
    ensures s == EncodeString(ParseString(s).value.0) + ParseString(s).value.1
  {
    var r := ParseString(s).value;
    EncodeWordSplit(s);
    if WordAt(s, 0) != 0 {
      ParseStringDecode(s[2..]);
      assert r.0[1..] == ParseString(s[2..]).value.0;
    }
  }

  // ---------------------------------------------------------------------
  // Fields, fonts, extra data

  lemma ParseFieldEncode(f: Field, rest: seq<byte>)
    requires FieldOk(f)
    ensures ParseField(EncodeField(f) + rest) == Success((f, rest))
  {
    var s := EncodeField(f) + rest;
    match f
    case Ordinal(id) =>
      assert s == EncodeWord(ORDINAL_MARKER) + (EncodeWord(id) + rest);
      assert s[2..4] == EncodeWord(id);
      assert s[4..] == rest;
    case Name(u) =>
      assert s[..2] == EncodeString(u)[..2];
      ParseStringEncode(u, rest);
  }

  lemma ParseFieldDecode(s: seq<byte>)
    requires ParseField(s).Success?
    ensures s == EncodeField(ParseField(s).value.0) + ParseField(s).value.1
  {
    if WordAt(s, 0) == ORDINAL_MARKER {
      EncodeWordSplit(s);
      EncodeWordSplit(s[2..]);
    } else {
      ParseStringDecode(s);
    }
  }

  /** `ParseFont` unfolded. */
  lemma FontSteps(s: seq<byte>, extended: bool, f: Font, rest: seq<byte>)
    requires FontOk(f, extended) && |s| >= 2 && WordAt(s, 0) == f.pointSize
    requires !extended ==> ParseString(s[2..]) == Success((f.face, rest))
    requires extended ==> |s[2..]| >= 4 && WordAt(s[2..], 0) == f.weight
    requires extended ==> s[2..][2..][0] == f.italic && s[2..][2..][1] == f.charset
    requires extended ==> ParseString(s[2..][2..][2..]) == Success((f.face, rest))
    ensures ParseFont(s, extended) == Success((f, rest))
  {
  }

  lemma ParseFontEncode(f: Font, extended: bool, rest: seq<byte>)
    requires FontOk(f, extended)
    ensures ParseFont(EncodeFont(f, extended) + rest, extended) == Success((f, rest))
  {
    var s := EncodeFont(f, extended) + rest;
    var afterFace := EncodeString(f.face) + rest;
    ParseStringEncode(f.face, rest);
    EncodeFontThen(f, extended, rest);
    if extended {
      var afterWeight := [f.italic, f.charset] + afterFace;
      var afterPoint := EncodeWord(f.weight) + afterWeight;
      Halves(EncodeWord(f.pointSize), afterPoint);
      Halves(EncodeWord(f.weight), afterWeight);
      Halves([f.italic, f.charset], afterFace);
    } else {
      Halves(EncodeWord(f.pointSize), afterFace);
    }
    FontSteps(s, extended, f, rest);
  }

  lemma ParseFontDecode(s: seq<byte>, extended: bool)
    requires ParseFont(s, extended).Success?
    ensures s == EncodeFont(ParseFont(s, extended).value.0, extended) + ParseFont(s, extended).value.1
  {
    var r := ParseFont(s, extended).value;
    EncodeWordSplit(s);
    var afterPoint := s[2..];
    if extended {
      EncodeWordSplit(afterPoint);
      var afterWeight := afterPoint[2..];
      var face := ParseString(afterWeight[2..]).value;
      assert r.0.face == face.0 && r.1 == face.1;
      assert afterWeight == [afterWeight[0], afterWeight[1]] + afterWeight[2..];
      ParseStringDecode(afterWeight[2..]);
    } else {
      var face := ParseString(afterPoint).value;
      assert r.0.face == face.0 && r.1 == face.1;
      ParseStringDecode(afterPoint);
    }
    EncodeFontThen(r.0, extended, r.1);
  }

  lemma ParseExtraEncode(extra: seq<byte>, rest: seq<byte>)
    requires |extra| < 0x1_0000
    ensures ParseExtra(EncodeExtra(extra) + rest) == Success((extra, rest))
  {
    var s := EncodeExtra(extra) + rest;
    assert s == EncodeWord(|extra|) + (extra + rest);
    Halves(EncodeWord(|extra|), extra + rest);
    Halves(extra, rest);
  }

  lemma ParseExtraDecode(s: seq<byte>)
    requires ParseExtra(s).Success?
    ensures s == EncodeExtra(ParseExtra(s).value.0) + ParseExtra(s).value.1
  {
    var data := s[2..];
    EncodeWordSplit(s);
    assert data == data[..WordAt(s, 0)] + data[WordAt(s, 0)..];
  }

  // ---------------------------------------------------------------------
  // Items

  /** `ParseItem` unfolded: how an item reads once its parts are known to read. */
  lemma ItemSteps(s: seq<byte>, pos: nat, extended: bool, it: Item, body: seq<byte>, afterCls: seq<byte>, afterTitle: seq<byte>, rest: seq<byte>)
    requires |s| >= PadLength(pos) && body == s[PadLength(pos)..]
    requires |body| >= ItemHeaderSize(extended) && it.fixed == body[..ItemHeaderSize(extended)]
    requires ParseField(body[ItemHeaderSize(extended)..]) == Success((it.cls, afterCls))
    requires ParseField(afterCls) == Success((it.title, afterTitle))
    requires ParseExtra(afterTitle) == Success((it.extra, rest))
    ensures ParseItem(s, pos, extended) == Success((it, rest))
  {
  }

  lemma ParseItemEncode(pad: seq<byte>, pos: nat, it: Item, extended: bool, rest: seq<byte>)
    requires ItemOk(it, extended) && |pad| == PadLength(pos)
    ensures ParseItem(pad + (EncodeItem(it, extended) + rest), pos, extended) == Success((it, rest))
  {
    var afterTitle := EncodeExtra(it.extra) + rest;
    var afterCls := EncodeField(it.title) + afterTitle;
    var afterFixed := EncodeField(it.cls) + afterCls;
    var body := it.fixed + afterFixed;
    var s := pad + (EncodeItem(it, extended) + rest);
    assert EncodeItem(it, extended) + rest == body;
    Halves(pad, body);
    Halves(it.fixed, afterFixed);
    ParseFieldEncode(it.cls, afterCls);
    ParseFieldEncode(it.title, afterTitle);
    ParseExtraEncode(it.extra, rest);
    ItemSteps(s, pos, extended, it, body, afterCls, afterTitle, rest);
  }

  lemma ParseItemDecode(s: seq<byte>, pos: nat, extended: bool)
    requires ParseItem(s, pos, extended).Success?
    ensures
      var r := ParseItem(s, pos, extended).value;
      s == s[..PadLength(pos)] + (EncodeItem(r.0, extended) + r.1)
  {
    var r := ParseItem(s, pos, extended).value;
    var body := s[PadLength(pos)..];
    var h := ItemHeaderSize(extended);
    var cls := ParseField(body[h..]).value;
    var title := ParseField(cls.1).value;
    var extra := ParseExtra(title.1).value;
    assert r.0 == Item(body[..h], cls.0, title.0, extra.0) && r.1 == extra.1;
    ParseFieldDecode(body[h..]);
    ParseFieldDecode(cls.1);
    ParseExtraDecode(title.1);
    EncodeItemThen(r.0, extended, r.1);
    assert s == s[..PadLength(pos)] + body;
    assert body == body[..h] + body[h..];
  }

  /** `ParseItems` unfolded once. */
  lemma ItemsStep(s: seq<byte>, pos: nat, extended: bool, items: seq<Item>, afterFirst: seq<byte>, rest: seq<byte>)
    requires |items| > 0 && |afterFirst| <= |s|
    requires ParseItem(s, pos, extended) == Success((items[0], afterFirst))
    requires ParseItems(afterFirst, Consumed(pos, s, afterFirst), extended, |items| - 1) == Success((items[1..], rest))
    ensures ParseItems(s, pos, extended, |items|) == Success((items, rest))
  {
    ConsSplit(items);
  }

  lemma ConsSplit<T>(items: seq<T>)
    requires |items| > 0
    ensures [items[0]] + items[1..] == items
  {
  }

  /** `ItemsBytes` of a non-empty list, unfolded once and followed by `rest`. */
  lemma ItemsBytesThen(pos: nat, items: seq<Item>, extended: bool, rest: seq<byte>)
    requires |items| > 0 && ItemsOk(items, extended)
    ensures
      var next := ItemEnd(pos, items[0], extended);
      var tail := ItemsBytes(next, items[1..], extended) + rest;
      && ItemsBytes(pos, items, extended) + rest
         == Zeros(PadLength(pos)) + (EncodeItem(items[0], extended) + tail)
      && Consumed(pos, ItemsBytes(pos, items, extended) + rest, tail) == next
  {
    var pad, enc := Zeros(PadLength(pos)), EncodeItem(items[0], extended);
    var later := ItemsBytes(ItemEnd(pos, items[0], extended), items[1..], extended);
    Assoc(pad, enc + later, rest);
    Assoc(enc, later, rest);
  }

  /** One item in front of a list that is already known to read back. */
  lemma ItemsEncodeStep(pos: nat, items: seq<Item>, extended: bool, rest: seq<byte>)
    requires |items| > 0 && ItemsOk(items, extended)
    requires
      var next := ItemEnd(pos, items[0], extended);
      ParseItems(ItemsBytes(next, items[1..], extended) + rest, next, extended, |items[1..]|) == Success((items[1..], rest))
    ensures ParseItems(ItemsBytes(pos, items, extended) + rest, pos, extended, |items|) == Success((items, rest))
  {
    var next := ItemEnd(pos, items[0], extended);
    var tail := ItemsBytes(next, items[1..], extended) + rest;
    var s := ItemsBytes(pos, items, extended) + rest;
    ItemsBytesThen(pos, items, extended, rest);
    ParseItemEncode(Zeros(PadLength(pos)), pos, items[0], extended, tail);
    ItemsStep(s, pos, extended, items, tail, rest);
  }

  lemma {:induction false} ParseItemsEncode(pos: nat, items: seq<Item>, extended: bool, rest: seq<byte>)
    requires ItemsOk(items, extended)
    ensures ParseItems(ItemsBytes(pos, items, extended) + rest, pos, extended, |items|) == Success((items, rest))
    decreases |items|
  {
    if |items| == 0 {
      assert ItemsBytes(pos, items, extended) + rest == rest;
    } else {
      ParseItemsEncode(ItemEnd(pos, items[0], extended), items[1..], extended, rest);
      ItemsEncodeStep(pos, items, extended, rest);
    }
  }

  // ---------------------------------------------------------------------
  // Templates

  /** `ParseHead` unfolded: how a head reads once its parts are known to read. */
  lemma HeadSteps(s: seq<byte>, t: Template, afterMenu: seq<byte>, afterCls: seq<byte>, afterTitle: seq<byte>, rest: seq<byte>)
    requires HeadOk(t) && t.items == [] && |s| >= |t.fixed| && s[..|t.fixed|] == t.fixed
    requires ParseField(s[|t.fixed|..]) == Success((t.menu, afterMenu))
    requires ParseField(afterMenu) == Success((t.cls, afterCls))
    requires ParseString(afterCls) == Success((t.title, afterTitle))
    requires t.font.None? ==> rest == afterTitle
    requires t.font.Some? ==> ParseFont(afterTitle, t.extended) == Success((t.font.value, rest))
    ensures ParseHead(s) == Success((t, rest))
  {
    assert s[2] == t.fixed[2] && s[3] == t.fixed[3];
    assert s[StyleOffset(t.extended)] == t.fixed[StyleOffset(t.extended)];
  }

  lemma ParseHeadEncode(t: Template, rest: seq<byte>)
    requires HeadOk(t) && t.items == []
    ensures ParseHead(SerializeHead(t) + rest) == Success((t, rest))
  {
    var afterTitle := FontBytes(t) + rest;
    var afterCls := EncodeString(t.title) + afterTitle;
    var afterMenu := EncodeField(t.cls) + afterCls;
    var afterFixed := EncodeField(t.menu) + afterMenu;
    var s := SerializeHead(t) + rest;
    SerializeHeadThen(t, rest);
    Halves(t.fixed, afterFixed);
    ParseFieldEncode(t.menu, afterMenu);
    ParseFieldEncode(t.cls, afterCls);
    ParseStringEncode(t.title, afterTitle);
    if t.font.Some? {
      ParseFontEncode(t.font.value, t.extended, rest);
    } else {
      assert afterTitle == rest;
    }
    HeadSteps(s, t, afterMenu, afterCls, afterTitle, rest);
  }

  lemma ParseHeadDecode(s: seq<byte>)
    requires ParseHead(s).Success?
    ensures s == SerializeHead(ParseHead(s).value.0) + ParseHead(s).value.1
  {
    var r := ParseHead(s).value;
    var t := r.0;
    var h := |t.fixed|;
    var menu := ParseField(s[h..]).value;
    var cls := ParseField(menu.1).value;
    var title := ParseString(cls.1).value;
    assert t.menu == menu.0 && t.cls == cls.0 && t.title == title.0;
    ParseFieldDecode(s[h..]);
    ParseFieldDecode(menu.1);
    ParseStringDecode(cls.1);
    if t.font.Some? {
      assert ParseFont(title.1, t.extended) == Success((t.font.value, r.1));
      ParseFontDecode(title.1, t.extended);
    } else {
      assert title.1 == r.1 && FontBytes(t) + r.1 == r.1;
    }
    SerializeHeadThen(t, r.1);
    assert s == s[..h] + s[h..];
  }

  /** `ParseTemplate` unfolded. */
  lemma TemplateSteps(s: seq<byte>, t: Template, afterHead: seq<byte>, rest: seq<byte>)
    requires WellFormed(t)
    requires ParseHead(s) == Success((t.(items := []), afterHead))
    requires |afterHead| <= |s|
    requires ParseItems(afterHead, Consumed(0, s, afterHead), t.extended, |t.items|) == Success((t.items, rest))
    ensures ParseTemplate(s) == Success((t, rest))
  {
    assert t.(items := []).(items := t.items) == t;
  }

  /** Parsing a serialized well-formed template gives it back, and exactly the bytes after it. */
  lemma ParseSerialize(t: Template, rest: seq<byte>)
    requires WellFormed(t)
    ensures ParseTemplate(Serialize(t) + rest) == Success((t, rest))
  {
    var head := SerializeHead(t);
    var tail := ItemsBytes(|head|, t.items, t.extended) + rest;
    var s := Serialize(t) + rest;
    Assoc(head, ItemsBytes(|head|, t.items, t.extended), rest);
    assert SerializeHead(t.(items := [])) == head;
    ParseHeadEncode(t.(items := []), tail);
    assert Consumed(0, s, tail) == |head|;
    ParseItemsEncode(|head|, t.items, t.extended, rest);
    TemplateSteps(s, t, tail, rest);
  }
}
