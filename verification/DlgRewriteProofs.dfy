/**
 * The font rewriter against the reference reading of the layout.
 *
 * Piece by piece, each copying step of `DlgRewrite` accepts exactly what the
 * matching `DlgFormat` parser accepts, leaves the same remainder, and writes
 * the encoding of what that parser returned. Put together:
 * `Rewrite(s, name, pt)` succeeds iff `ParseTemplate(s)` does, and then it is
 * `Serialize(WithFont(t, name, pt))` for the template `t` that was parsed;
 * reading the output back gives `WithFont(t, name, pt)`, and the output fits
 * the buffer `Dlg::DoDlg` allocates for it.
 */
module DlgRewriteProofs {
  import opened Wrappers
  import opened Align
  import opened DlgFormat
  import opened DlgRoundTrip
  import opened DlgRewrite

  // ---------------------------------------------------------------------
  // Runs, fields, fonts and extra data

  lemma WordPrefix(s: seq<byte>)
    requires |s| >= 2
    ensures s[..2] == EncodeWord(WordAt(s, 0))
  {
  }

  /** Copying a NUL-terminated run is reading a string and writing it back. */
  lemma {:induction false} CopyRunIsString(s: seq<byte>)
    ensures CopyRun(s).Success? <==> ParseString(s).Success?
    ensures CopyRun(s).Success? ==>
      CopyRun(s).value == (EncodeString(ParseString(s).value.0), ParseString(s).value.1)
    decreases |s|
  {
    if |s| >= 2 {
      WordPrefix(s);
      if WordAt(s, 0) != 0 {
        CopyRunIsString(s[2..]);
        if ParseString(s[2..]).Success? {
          var u := ParseString(s).value.0;
          assert u[1..] == ParseString(s[2..]).value.0;
        }
      }
    }
  }

  /** Copying an item field is reading a field and writing it back. */
  lemma CopyFieldIsField(s: seq<byte>)
    ensures CopyField(s).Success? <==> ParseField(s).Success?
    ensures CopyField(s).Success? ==>
      CopyField(s).value == (EncodeField(ParseField(s).value.0), ParseField(s).value.1)
  {
    if |s| >= 2 {
      if WordAt(s, 0) == ORDINAL_MARKER {
        if |s| >= 4 {
          WordPrefix(s);
          WordPrefix(s[2..]);
          assert s[..4] == s[..2] + s[2..][..2];
        }
      } else {
        CopyRunIsString(s);
      }
    }
  }

  /** Skipping the old font block stops exactly where reading it stops. */
  lemma SkipFontIsFont(s: seq<byte>, extended: bool)
    ensures SkipFont(s, extended).Success? <==> ParseFont(s, extended).Success?
    ensures SkipFont(s, extended).Success? ==> SkipFont(s, extended).value == ParseFont(s, extended).value.1
  {
    if |s| >= 2 {
      if !extended {
        CopyRunIsString(s[2..]);
      } else if |s[2..]| >= 4 {
        CopyRunIsString(s[2..][2..][2..]);
      }
    }
  }

  lemma CopyExtraIsExtra(s: seq<byte>)
    ensures CopyExtra(s).Success? <==> ParseExtra(s).Success?
    ensures CopyExtra(s).Success? ==>
      CopyExtra(s).value == (EncodeExtra(ParseExtra(s).value.0), ParseExtra(s).value.1)
  {
  }

  /** The font block written is the encoding of the new font. */
  lemma FontBlockIsFont(name: seq<int>, pointSize: nat, extended: bool)
    requires NoNul(name)
    ensures FontBlock(name, pointSize, extended) == EncodeFont(NewFont(name, pointSize, extended), extended)
  {
    var pt, face := EncodeWord(pointSize % 0x1_0000), EncodeString(name);
    if extended {
      assert EncodeWord(0) == [0, 0];
      assert [0, 0] + ([0 as byte, 0 as byte] + face) == [0, 0, 0, 0] + face;
    } else {
      assert [] + face == face;
    }
  }

  // ---------------------------------------------------------------------
  // Items

  /** Copying one item is reading it and writing it back, padded to 4 in the output buffer. */
  lemma CopyItemIsItem(s: seq<byte>, inPos: nat, outPos: nat, extended: bool)
    ensures CopyItem(s, inPos, outPos, extended).Success? <==> ParseItem(s, inPos, extended).Success?
    ensures CopyItem(s, inPos, outPos, extended).Success? ==>
      var p := ParseItem(s, inPos, extended).value;
      CopyItem(s, inPos, outPos, extended).value == (Zeros(PadLength(outPos)) + EncodeItem(p.0, extended), p.1)
  {
    if |s| >= PadLength(inPos) {
      var body := s[PadLength(inPos)..];
      var h := ItemHeaderSize(extended);
      if |body| >= h {
        CopyFieldIsField(body[h..]);
        if ParseField(body[h..]).Success? {
          var cls := ParseField(body[h..]).value;
          CopyFieldIsField(cls.1);
          if ParseField(cls.1).Success? {
            CopyExtraIsExtra(ParseField(cls.1).value.1);
          }
        }
      }
    }
  }

  /** `ItemsBytes` of a list with a known first item. */
  lemma ItemsBytesCons(pos: nat, it: Item, later: seq<Item>, extended: bool)
    requires ItemOk(it, extended) && ItemsOk(later, extended)
    ensures ItemsOk([it] + later, extended)
    ensures ItemsBytes(pos, [it] + later, extended)
      == (Zeros(PadLength(pos)) + EncodeItem(it, extended)) + ItemsBytes(ItemEnd(pos, it, extended), later, extended)
  {
    var items := [it] + later;
    assert items[0] == it && items[1..] == later;
    Assoc(Zeros(PadLength(pos)), EncodeItem(it, extended), ItemsBytes(ItemEnd(pos, it, extended), later, extended));
  }

  /** What copying items should produce: the layout of the items read, or the same failure. */
  function LaidOut(r: Result<(seq<Item>, seq<byte>), TemplateError>, outPos: nat, extended: bool): Result<(seq<byte>, seq<byte>), TemplateError>
    requires r.Success? ==> ItemsOk(r.value.0, extended)
  {
    if r.Success? then Success((ItemsBytes(outPos, r.value.0, extended), r.value.1)) else Failure(r.error)
  }

  /** The input offset and output offset after the first item, once it is known to read. */
  function NextIn(s: seq<byte>, inPos: nat, extended: bool): nat
    requires ParseItem(s, inPos, extended).Success?
  {
    Consumed(inPos, s, ParseItem(s, inPos, extended).value.1)
  }

  function NextOut(s: seq<byte>, inPos: nat, outPos: nat, extended: bool): nat
    requires ParseItem(s, inPos, extended).Success?
  {
    ItemEnd(outPos, ParseItem(s, inPos, extended).value.0, extended)
  }

  /** One copied item in front of `count - 1` that are already known to copy as they read. */
  lemma CopyItemsStep(s: seq<byte>, inPos: nat, outPos: nat, extended: bool, count: nat,
                      afterFirst: seq<byte>, nextIn: nat, nextOut: nat, remaining: nat)
    requires count > 0 && ParseItem(s, inPos, extended).Success?
    requires afterFirst == ParseItem(s, inPos, extended).value.1 && remaining == count - 1
    requires nextIn == NextIn(s, inPos, extended) && nextOut == NextOut(s, inPos, outPos, extended)
    requires CopyItems(afterFirst, nextIn, nextOut, extended, remaining)
      == LaidOut(ParseItems(afterFirst, nextIn, extended, remaining), nextOut, extended)
    ensures CopyItems(s, inPos, outPos, extended, count) == LaidOut(ParseItems(s, inPos, extended, count), outPos, extended)
  {
    CopyItemIsItem(s, inPos, outPos, extended);
    var p := ParseItem(s, inPos, extended).value;
    assert Written(outPos, Zeros(PadLength(outPos)) + EncodeItem(p.0, extended)) == nextOut;
    var later := ParseItems(afterFirst, nextIn, extended, remaining);
    if later.Success? {
      ItemsBytesCons(outPos, p.0, later.value.0, extended);
    }
  }

  lemma CopyItemsFail(s: seq<byte>, inPos: nat, outPos: nat, extended: bool, count: nat)
    requires count > 0 && ParseItem(s, inPos, extended).Failure? && CopyItem(s, inPos, outPos, extended).Failure?
    ensures CopyItems(s, inPos, outPos, extended, count) == LaidOut(ParseItems(s, inPos, extended, count), outPos, extended)
  {
    OneError(ParseItem(s, inPos, extended).error, CopyItem(s, inPos, outPos, extended).error);
  }

  lemma OneError(a: TemplateError, b: TemplateError)
    ensures a == b
  {
    match a case TruncatedInput =>
    match b case TruncatedInput =>
  }

  /** Copying `count` items is reading them and laying them out again from the output offset. */
  lemma {:induction false} CopyItemsIsItems(s: seq<byte>, inPos: nat, outPos: nat, extended: bool, count: nat)
    ensures CopyItems(s, inPos, outPos, extended, count) == LaidOut(ParseItems(s, inPos, extended, count), outPos, extended)
    decreases count
  {
    if count == 0 {
      assert ItemsBytes(outPos, [], extended) == [];
    } else {
      if ParseItem(s, inPos, extended).Success? {
        var afterFirst, nextIn, nextOut, remaining := ParseItem(s, inPos, extended).value.1, NextIn(s, inPos, extended), NextOut(s, inPos, outPos, extended), count - 1;
        CopyItemsIsItems(afterFirst, nextIn, nextOut, extended, remaining);
        CopyItemsStep(s, inPos, outPos, extended, count, afterFirst, nextIn, nextOut, remaining);
      } else {
        CopyItemIsItem(s, inPos, outPos, extended);
        CopyItemsFail(s, inPos, outPos, extended, count);
      }
    }
  }

  // ---------------------------------------------------------------------
  // Header

  /** What rewriting the head should produce: the parsed head with the new font, laid out, or the same failure. */
  function HeadLaidOut(r: Result<(Template, seq<byte>), TemplateError>, name: seq<int>, pointSize: nat): Result<(seq<byte>, seq<byte>), TemplateError>
    requires r.Success? ==> HeadOk(r.value.0)
    requires NoNul(name)
  {
    if r.Success? then Success((SerializeHead(WithFont(r.value.0, name, pointSize)), r.value.1)) else Failure(r.error)
  }

  /** Rewriting the header, menu, class, title and font is reading them and laying them out with the new font. */
  lemma RewriteHeadIsHead(s: seq<byte>, name: seq<int>, pointSize: nat)
    requires NoNul(name)
    ensures RewriteHead(s, name, pointSize, Corrected) == HeadLaidOut(ParseHead(s), name, pointSize)
  {
    if |s| >= 4 {
      var extended := WordAt(s, 2) == ORDINAL_MARKER;
      var h := HeaderSize(extended);
      if |s| >= h {
        CopyFieldIsField(s[h..]);
        if ParseField(s[h..]).Success? {
          var menu := ParseField(s[h..]).value;
          CopyFieldIsField(menu.1);
          if ParseField(menu.1).Success? {
            var cls := ParseField(menu.1).value;
            CopyRunIsString(cls.1);
            if ParseString(cls.1).Success? && HasFontBit(s[StyleOffset(extended)]) {
              SkipFontIsFont(ParseString(cls.1).value.1, extended);
            }
          }
        }
      }
    }
    if ParseHead(s).Success? {
      var t := ParseHead(s).value.0;
      FontBlockIsFont(name, pointSize, t.extended);
    } else if RewriteHead(s, name, pointSize, Corrected).Failure? {
      OneError(RewriteHead(s, name, pointSize, Corrected).error, ParseHead(s).error);
    }
  }

  // ---------------------------------------------------------------------
  // Whole template

  /** The parsed header's kind and item count are read from the input where the rewrite reads them. */
  lemma HeadFacts(s: seq<byte>)
    requires ParseHead(s).Success?
    ensures
      var t := ParseHead(s).value.0;
      && |s| >= 4
      && t.extended == (WordAt(s, 2) == ORDINAL_MARKER)
      && ItemCount(t) == WordAt(s, CountOffset(t.extended))
  {
    var t := ParseHead(s).value.0;
    var k := CountOffset(t.extended);
    assert t.fixed[k] == s[k] && t.fixed[k + 1] == s[k + 1];
  }

  /** The items part of the rewrite, once the head is known to rewrite as it reads. */
  lemma RewriteStep(s: seq<byte>, name: seq<int>, pointSize: nat, t: Template, afterHead: seq<byte>, headOut: seq<byte>,
                    count: nat, inPos: nat, outPos: nat)
    requires NoNul(name)
    requires ParseHead(s) == Success((t, afterHead))
    requires headOut == SerializeHead(WithFont(t, name, pointSize))
    requires RewriteHead(s, name, pointSize, Corrected) == Success((headOut, afterHead))
    requires t.extended == (WordAt(s, 2) == ORDINAL_MARKER) && count == ItemCount(t) && count == WordAt(s, CountOffset(t.extended))
    requires inPos == Consumed(0, s, afterHead) && outPos == |headOut|
    requires CopyItems(afterHead, inPos, outPos, t.extended, count) == LaidOut(ParseItems(afterHead, inPos, t.extended, count), outPos, t.extended)
    ensures Rewrite(s, name, pointSize).Success? <==> ParseTemplate(s).Success?
    ensures ParseTemplate(s).Success? ==>
      Rewrite(s, name, pointSize).value == Serialize(WithFont(ParseTemplate(s).value.0, name, pointSize))
  {
    if ParseItems(afterHead, inPos, t.extended, count).Success? {
      var items := ParseItems(afterHead, inPos, t.extended, count).value.0;
      var full := t.(items := items);
      assert WithFont(full, name, pointSize) == WithFont(t, name, pointSize).(items := items);
      assert SerializeHead(WithFont(full, name, pointSize)) == headOut;
    }
  }

  /** The rewrite succeeds exactly on the templates that parse, and writes the parsed template back with the new font. */
  lemma RewriteIsSerialize(s: seq<byte>, name: seq<int>, pointSize: nat)
    requires NoNul(name)
    ensures Rewrite(s, name, pointSize).Success? <==> ParseTemplate(s).Success?
    ensures ParseTemplate(s).Success? ==>
      Rewrite(s, name, pointSize).value == Serialize(WithFont(ParseTemplate(s).value.0, name, pointSize))
  {
    RewriteHeadIsHead(s, name, pointSize);
    if ParseHead(s).Success? {
      HeadFacts(s);
      var t, afterHead := ParseHead(s).value.0, ParseHead(s).value.1;
      var headOut := SerializeHead(WithFont(t, name, pointSize));
      var count, inPos, outPos := ItemCount(t), Consumed(0, s, afterHead), |headOut|;
      CopyItemsIsItems(afterHead, inPos, outPos, t.extended, count);
      RewriteStep(s, name, pointSize, t, afterHead, headOut, count, inPos, outPos);
    }
  }

  /** Reading the rewritten template gives the parsed template with the new font, and nothing after it. */
  lemma ParseRewrite(s: seq<byte>, name: seq<int>, pointSize: nat)
    requires NoNul(name) && ParseTemplate(s).Success?
    ensures Rewrite(s, name, pointSize).Success?
    ensures ParseTemplate(Rewrite(s, name, pointSize).value) == Success((WithFont(ParseTemplate(s).value.0, name, pointSize), []))
  {
    RewriteIsSerialize(s, name, pointSize);
    var w := WithFont(ParseTemplate(s).value.0, name, pointSize);
    ParseSerialize(w, []);
    assert Serialize(w) + [] == Serialize(w);
  }

  // ---------------------------------------------------------------------
  // Size of the output

  /** The length of a non-empty layout, unfolded once. */
  lemma ItemsBytesLengthStep(pos: nat, items: seq<Item>, extended: bool, next: nat, tail: seq<Item>)
    requires |items| > 0 && ItemsOk(items, extended)
    requires next == ItemEnd(pos, items[0], extended) && tail == items[1..]
    ensures ItemsOk(tail, extended)
    ensures |ItemsBytes(pos, items, extended)| == PadLength(pos) + |EncodeItem(items[0], extended)| + |ItemsBytes(next, tail, extended)|
  {
  }

  /** A read of items that, when it succeeds, consumed exactly the bytes of their layout from `pos`. */
  predicate Measured(r: Result<(seq<Item>, seq<byte>), TemplateError>, s: seq<byte>, pos: nat, extended: bool)
    requires r.Success? ==> ItemsOk(r.value.0, extended)
  {
    r.Success? ==> |s| == |ItemsBytes(pos, r.value.0, extended)| + |r.value.1|
  }

  /** `ParseItemsLength` for one item in front of a run already measured. */
  lemma ParseItemsLengthStep(s: seq<byte>, pos: nat, extended: bool, count: nat,
                             afterFirst: seq<byte>, nextIn: nat, remaining: nat)
    requires count > 0 && ParseItem(s, pos, extended).Success?
    requires afterFirst == ParseItem(s, pos, extended).value.1 && remaining == count - 1
    requires nextIn == NextIn(s, pos, extended)
    requires Measured(ParseItems(afterFirst, nextIn, extended, remaining), afterFirst, nextIn, extended)
    ensures Measured(ParseItems(s, pos, extended, count), s, pos, extended)
  {
    var it := ParseItem(s, pos, extended).value.0;
    assert nextIn == ItemEnd(pos, it, extended);
    var later := ParseItems(afterFirst, nextIn, extended, remaining);
    if later.Success? {
      ItemsBytesCons(pos, it, later.value.0, extended);
    }
  }

  /** The items read from `s` occupy as many bytes as their layout from the same offset. */
  lemma {:induction false} ParseItemsLength(s: seq<byte>, pos: nat, extended: bool, count: nat)
    ensures Measured(ParseItems(s, pos, extended, count), s, pos, extended)
    decreases count
  {
    if count == 0 {
      assert ItemsBytes(pos, [], extended) == [];
    } else if ParseItem(s, pos, extended).Success? {
      var afterFirst, nextIn, remaining := ParseItem(s, pos, extended).value.1, NextIn(s, pos, extended), count - 1;
      ParseItemsLength(afterFirst, nextIn, extended, remaining);
      ParseItemsLengthStep(s, pos, extended, count, afterFirst, nextIn, remaining);
    }
  }

  lemma PadByResidue(p: nat, q: nat)
    requires p % 4 == q % 4
    ensures PadLength(p) == PadLength(q)
  {
  }

  lemma ItemEndByResidue(p: nat, q: nat, it: Item, extended: bool)
    requires ItemOk(it, extended)
    ensures ItemEnd(p, it, extended) % 4 == ItemEnd(q, it, extended) % 4
  {
    var n := |EncodeItem(it, extended)|;
    assert ItemEnd(p, it, extended) == AlignPtr(p, 4) + n;
    assert ItemEnd(q, it, extended) == AlignPtr(q, 4) + n;
    AlignedEndByResidue(p, q, n);
  }

  lemma AlignedEndByResidue(p: nat, q: nat, n: nat)
    ensures (AlignPtr(p, 4) + n) % 4 == (AlignPtr(q, 4) + n) % 4
  {
    AddAligned(AlignPtr(p, 4), n);
    AddAligned(AlignPtr(q, 4), n);
  }

  lemma AddAligned(a: nat, n: nat)
    requires a % 4 == 0
    ensures (a + n) % 4 == n % 4
  {
  }

  /** The layout's length depends on its start offset only modulo 4. */
  lemma {:induction false} ItemsBytesLengthByResidue(p: nat, q: nat, items: seq<Item>, extended: bool)
    requires ItemsOk(items, extended) && p % 4 == q % 4
    ensures |ItemsBytes(p, items, extended)| == |ItemsBytes(q, items, extended)|
    decreases |items|
  {
    if |items| > 0 {
      PadByResidue(p, q);
      ItemEndByResidue(p, q, items[0], extended);
      var np, nq, tail := ItemEnd(p, items[0], extended), ItemEnd(q, items[0], extended), items[1..];
      ItemsBytesLengthStep(p, items, extended, np, tail);
      ItemsBytesLengthStep(q, items, extended, nq, tail);
      ItemsBytesLengthByResidue(np, nq, tail, extended);
    }
  }

  /** Laid out from a different offset, the items take at most 3 more bytes: only the first padding can differ. */
  lemma ItemsBytesLengthShift(p: nat, q: nat, items: seq<Item>, extended: bool)
    requires ItemsOk(items, extended)
    ensures |ItemsBytes(q, items, extended)| <= |ItemsBytes(p, items, extended)| + 3
  {
    if |items| > 0 {
      ItemEndByResidue(p, q, items[0], extended);
      var np, nq, tail := ItemEnd(p, items[0], extended), ItemEnd(q, items[0], extended), items[1..];
      ItemsBytesLengthStep(p, items, extended, np, tail);
      ItemsBytesLengthStep(q, items, extended, nq, tail);
      ItemsBytesLengthByResidue(np, nq, tail, extended);
    }
  }

  /** Putting in the new font lengthens the head by at most the new font block. */
  lemma HeadGrowth(t: Template, name: seq<int>, pointSize: nat)
    requires HeadOk(t) && NoNul(name)
    ensures |SerializeHead(WithFont(t, name, pointSize))| <= |SerializeHead(t)| + 2 * |name| + 8
  {
    FontBlockIsFont(name, pointSize, t.extended);
  }

  /** `TemplateLength` once the head is read and its items measured. */
  lemma TemplateLengthStep(s: seq<byte>, t: Template, afterHead: seq<byte>, count: nat, inPos: nat)
    requires ParseHead(s) == Success((t, afterHead))
    requires count == ItemCount(t) && inPos == Consumed(0, s, afterHead)
    requires Measured(ParseItems(afterHead, inPos, t.extended, count), afterHead, inPos, t.extended)
    ensures ParseTemplate(s).Success? ==> |s| == |Serialize(ParseTemplate(s).value.0)| + |ParseTemplate(s).value.1|
  {
    var r := ParseItems(afterHead, inPos, t.extended, count);
    if r.Success? {
      var full := t.(items := r.value.0);
      assert ParseTemplate(s) == Success((full, r.value.1));
      assert SerializeHead(full) == SerializeHead(t);
      assert inPos == |SerializeHead(t)|;
      assert Serialize(full) == SerializeHead(t) + ItemsBytes(inPos, r.value.0, t.extended);
    } else {
      assert ParseTemplate(s).Failure?;
    }
  }

  /** A template read from `s` used exactly as many bytes as its serialization, padding included. */
  lemma TemplateLength(s: seq<byte>)
    requires ParseTemplate(s).Success?
    ensures |s| == |Serialize(ParseTemplate(s).value.0)| + |ParseTemplate(s).value.1|
  {
    var t, afterHead := ParseHead(s).value.0, ParseHead(s).value.1;
    var count, inPos := ItemCount(t), Consumed(0, s, afterHead);
    ParseItemsLength(afterHead, inPos, t.extended, count);
    TemplateLengthStep(s, t, afterHead, count, inPos);
  }

  /** The growth of a serialization when the new font is put in. */
  lemma SerializeGrowth(t: Template, name: seq<int>, pointSize: nat)
    requires WellFormed(t) && NoNul(name)
    ensures |Serialize(WithFont(t, name, pointSize))| <= |Serialize(t)| + 2 * |name| + 11
  {
    var w := WithFont(t, name, pointSize);
    HeadGrowth(t, name, pointSize);
    ItemsBytesLengthShift(|SerializeHead(t)|, |SerializeHead(w)|, t.items, t.extended);
  }

  /**
   * The rewritten template fits the `size + lstrlen(fontName) * 4 + 16` bytes
   * `Dlg::DoDlg` allocates for it, `size` being the resource's size: it is at
   * most the input's size plus the new font block plus 3 bytes of padding.
   */
  lemma RewriteFits(s: seq<byte>, name: seq<int>, pointSize: nat)
    requires NoNul(name) && Rewrite(s, name, pointSize).Success?
    ensures |Rewrite(s, name, pointSize).value| <= |s| + 2 * |name| + 11
    ensures |Rewrite(s, name, pointSize).value| <= |s| + 4 * |name| + 16
  {
    RewriteIsSerialize(s, name, pointSize);
    TemplateLength(s);
    SerializeGrowth(ParseTemplate(s).value.0, name, pointSize);
  }
}
