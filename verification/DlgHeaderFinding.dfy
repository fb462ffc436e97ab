/**
 * The dialog header's menu and class references are copied by `Dlg::DoDlg`
 * as NUL-terminated runs of words.  Both may instead be in ordinal form, the
 * word `0xFFFF` followed by a 16-bit id, and then the run does not stop after
 * the two words: it goes on until the next zero word, swallowing whatever
 * follows.  The items' class and title references are copied correctly, with
 * the ordinal form honoured; the header's are not.
 *
 * This module shows where the two copies agree (names, and the ordinal 0),
 * that they disagree on every other ordinal, and a concrete template that
 * reads but cannot be rewritten as written.
 */
module DlgHeaderFinding {
  import opened Wrappers
  import opened DlgFormat
  import opened DlgRewrite
  import opened DlgRewriteProofs

  /** The references a plain run copy gets right: a name, or an ordinal whose id is the zero word. */
  predicate CopiesAsRun(f: Field)
  {
    !(f.Ordinal? && f.id != 0)
  }

  lemma CopyRunNonEmpty(s: seq<byte>)
    requires CopyRun(s).Success?
    ensures |CopyRun(s).value.0| >= 2
  {
  }

  /** A reference that reads is copied the same way by the run copy and the field copy exactly when the run copy gets it right. */
  lemma CopyRunOnField(s: seq<byte>)
    requires ParseField(s).Success?
    ensures CopyRun(s) == CopyField(s) <==> CopiesAsRun(ParseField(s).value.0)
  {
    if WordAt(s, 0) == ORDINAL_MARKER {
      var afterMarker := s[2..];
      assert WordAt(afterMarker, 0) == WordAt(s, 2);
      if WordAt(s, 2) == 0 {
        assert CopyRun(afterMarker) == Success((afterMarker[..2], afterMarker[2..]));
        assert s[..2] + afterMarker[..2] == s[..4];
        assert afterMarker[2..] == s[4..];
      } else if CopyRun(s).Success? {
        var tail := CopyRun(afterMarker[2..]);
        assert CopyRun(afterMarker) == Success((afterMarker[..2] + tail.value.0, tail.value.1));
        CopyRunNonEmpty(afterMarker[2..]);
        assert |CopyRun(s).value.0| > 4;
      }
    }
  }

  /** Where a header that reads finds its menu and class references. */
  lemma HeadFields(s: seq<byte>)
    requires ParseHead(s).Success?
    ensures
      var t := ParseHead(s).value.0;
      var afterHeader := s[HeaderSize(t.extended)..];
      && t.extended == (WordAt(s, 2) == ORDINAL_MARKER)
      && ParseField(afterHeader).Success? && ParseField(afterHeader).value.0 == t.menu
      && ParseField(ParseField(afterHeader).value.1).Success?
      && ParseField(ParseField(afterHeader).value.1).value.0 == t.cls
  {
  }

  /** When both header references copy the same either way, so does the whole head. */
  lemma HeadCopiesAgree(s: seq<byte>, name: seq<int>, pointSize: nat, afterHeader: seq<byte>, afterMenu: seq<byte>)
    requires NoNul(name) && |s| >= 4 && |s| >= HeaderSize(WordAt(s, 2) == ORDINAL_MARKER)
    requires afterHeader == s[HeaderSize(WordAt(s, 2) == ORDINAL_MARKER)..]
    requires CopyField(afterHeader).Success? && CopyRun(afterHeader) == CopyField(afterHeader)
    requires afterMenu == CopyField(afterHeader).value.1 && CopyRun(afterMenu) == CopyField(afterMenu)
    ensures RewriteHead(s, name, pointSize, AsWritten) == RewriteHead(s, name, pointSize, Corrected)
  {
  }

  /** With a menu and class the run copy gets right, the rewrite as written produces what the corrected rewrite does. */
  lemma AsWrittenAgrees(s: seq<byte>, name: seq<int>, pointSize: nat)
    requires NoNul(name) && ParseHead(s).Success?
    requires CopiesAsRun(ParseHead(s).value.0.menu) && CopiesAsRun(ParseHead(s).value.0.cls)
    ensures RewriteAsWritten(s, name, pointSize) == Rewrite(s, name, pointSize)
  {
    HeadFields(s);
    var afterHeader := s[HeaderSize(ParseHead(s).value.0.extended)..];
    CopyRunOnField(afterHeader);
    CopyFieldIsField(afterHeader);
    var afterMenu := CopyField(afterHeader).value.1;
    CopyRunOnField(afterMenu);
    HeadCopiesAgree(s, name, pointSize, afterHeader, afterMenu);
  }

  /** A menu given by a nonzero ordinal is never copied correctly as written, whatever follows it. */
  lemma OrdinalMenuMisread(s: seq<byte>, name: seq<int>, pointSize: nat)
    requires NoNul(name) && ParseHead(s).Success? && !CopiesAsRun(ParseHead(s).value.0.menu)
    ensures CopyHeaderField(s[HeaderSize(ParseHead(s).value.0.extended)..], AsWritten)
         != CopyHeaderField(s[HeaderSize(ParseHead(s).value.0.extended)..], Corrected)
  {
    CopyRunOnField(s[HeaderSize(ParseHead(s).value.0.extended)..]);
  }

  /** A legacy template with no font and no items whose menu is ordinal 5, followed by an empty class and title. */
  function OrdinalMenuTemplate(): (s: seq<byte>)
    ensures |s| == 26
  {
    Zeros(18) + ([0xFF, 0xFF, 5, 0] + ([0, 0] + [0, 0]))
  }

  /** The header is legacy, with no font and no items. */
  lemma OrdinalMenuHeader()
    ensures
      var s := OrdinalMenuTemplate();
      && WordAt(s, 2) == 0 && WordAt(s, 8) == 0 && !HasFontBit(s[0])
      && s[18..] == [0xFF, 0xFF, 5, 0, 0, 0, 0, 0]
  {
    var s := OrdinalMenuTemplate();
    assert s[0] == 0 && s[2] == 0 && s[3] == 0 && s[8] == 0 && s[9] == 0;
  }

  /** The template reads, with its menu given by ordinal 5. */
  lemma OrdinalMenuTemplateReads()
    ensures ParseTemplate(OrdinalMenuTemplate()).Success?
    ensures ParseTemplate(OrdinalMenuTemplate()).value.0.menu == Ordinal(5)
  {
    OrdinalMenuHeader();
    var empty: seq<byte>, title: seq<byte>, cls: seq<byte>, menu: seq<byte> := [], [0, 0], [0, 0, 0, 0], [0xFF, 0xFF, 5, 0, 0, 0, 0, 0];
    assert title[2..] == empty && cls[2..] == title && menu[4..] == cls;
    assert ParseString(title) == Success(([], empty));
    assert ParseField(cls) == Success((Name([]), title));
    assert ParseField(menu) == Success((Ordinal(5), cls));
  }

  /** Copied as a run, the menu `0xFFFF 5` swallows the class's terminator, and the title then runs off the end. */
  lemma OrdinalMenuRunsOff()
    ensures RewriteAsWritten(OrdinalMenuTemplate(), [], 8).Failure?
  {
    OrdinalMenuHeader();
    var empty: seq<byte>, title: seq<byte>, cls: seq<byte>, menu: seq<byte> := [], [0, 0], [0, 0, 0, 0], [0xFF, 0xFF, 5, 0, 0, 0, 0, 0];
    var afterId: seq<byte> := [5, 0, 0, 0, 0, 0];
    assert title[..2] == title && title[2..] == empty;
    assert cls[..2] == title && cls[2..] == title;
    assert afterId[..2] == [5, 0] && afterId[2..] == cls;
    assert menu[..2] == [0xFF, 0xFF] && menu[2..] == afterId;
    assert CopyRun(empty).Failure?;
    assert CopyRun(title) == Success((title, empty));
    assert CopyRun(cls) == Success((title, title));
    assert CopyRun(afterId).value.1 == title;
    assert CopyRun(menu).value.1 == title;
  }

  /** The template reads and rewrites correctly, but the rewrite as written fails on it. */
  lemma AsWrittenMisreadsOrdinalMenu()
    ensures ParseTemplate(OrdinalMenuTemplate()).Success?
    ensures ParseTemplate(OrdinalMenuTemplate()).value.0.menu == Ordinal(5)
    ensures Rewrite(OrdinalMenuTemplate(), [], 8).Success?
    ensures RewriteAsWritten(OrdinalMenuTemplate(), [], 8).Failure?
  {
    OrdinalMenuTemplateReads();
    RewriteIsSerialize(OrdinalMenuTemplate(), [], 8);
    OrdinalMenuRunsOff();
  }
}
