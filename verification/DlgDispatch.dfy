/**
 * How `Dlg::DoDlg` (WndLib.cpp) chooses between creating a dialog from its
 * resource by name and creating it from a rewritten copy of the template,
 * and what `Create`, `CreateSetFont`, `DoModal` and `DoModalSetFont` make of
 * its result.
 *
 * The resource lookup, the dialog manager's modal result and the window a
 * modeless creation returns are oracles.  A template the rewrite cannot
 * read is reported as the rewrite's error: the C++ code would read past it.
 *
 * Every operation takes the `HeaderCopy` of the rewrite it runs: `AsWritten`
 * is the code as it stands, which copies the header's menu and class as
 * plain runs, and `Corrected` honours their ordinal form.  The two agree
 * unless the menu or class is a nonzero ordinal.
 */
module DlgDispatch {
  import opened Wrappers
  import opened WindowTree
  import opened DlgFormat
  import opened DlgRewrite
  import opened DlgRewriteProofs
  import opened DlgHeaderFinding

  /** `IDCANCEL`. */
  const IDCANCEL: int := 2

  /** The dialog manager call made. */
  datatype DialogCall =
    | DialogBoxByName
    | CreateDialogByName
    | DialogBoxIndirect(template: seq<byte>)
    | CreateDialogIndirect(template: seq<byte>)

  /** `DoDlg`'s result, the `_modeless` flag after it, the call made (if any) and `*result_out` (if set). */
  datatype Outcome = Outcome(ok: bool, modeless: bool, call: Option<DialogCall>, result: Option<int>)

  /**
   * `DoDlg(parent, fontName, fontPointSize, modal, &result)`.  A point size
   * of 0 means the template is used as it is, by name.  Otherwise the
   * resource must be found (`resource`), and the rewritten template with
   * the new font is handed over instead.  A modal dialog always succeeds and
   * reports the dialog's result; a modeless one succeeds when a window was
   * created.
   */
  function DoDlg(how: HeaderCopy, modeless: bool, fontName: seq<int>, pointSize: nat, modal: bool,
                 resource: Option<seq<byte>>, dialogResult: int, created: Handle): (r: Result<Outcome, TemplateError>)
    requires NoNul(fontName)
    ensures pointSize == 0 ==> r.Success? && r.value.call.Some? && !r.value.call.value.DialogBoxIndirect? && !r.value.call.value.CreateDialogIndirect?
    ensures pointSize > 0 && resource.None? ==> r == Success(Outcome(false, modeless, None, None))
    ensures pointSize > 0 && resource.Some? ==> (r.Success? <==> RewriteWith(resource.value, fontName, pointSize, how).Success?)
    ensures pointSize > 0 && resource.Some? && how == Corrected ==> (r.Success? <==> ParseTemplate(resource.value).Success?)
    ensures r.Success? && r.value.call.Some? ==>
      (r.value.modeless <==> !modal) &&
      (modal ==> r.value.ok && r.value.result == Some(dialogResult)) &&
      (!modal ==> r.value.ok == (created != NULL) && r.value.result.None?)
    ensures r.Success? && r.value.call.None? ==> !r.value.ok
  {
    if pointSize != 0 then
      if resource.None? then Success(Outcome(false, modeless, None, None))
      else
        RewriteIsSerialize(resource.value, fontName, pointSize);
        var template :- RewriteWith(resource.value, fontName, pointSize, how);
        if modal then Success(Outcome(true, false, Some(DialogBoxIndirect(template)), Some(dialogResult)))
        else Success(Outcome(created != NULL, true, Some(CreateDialogIndirect(template)), None))
    else if modal then Success(Outcome(true, false, Some(DialogBoxByName), Some(dialogResult)))
    else Success(Outcome(created != NULL, true, Some(CreateDialogByName), None))
  }

  /** Off nonzero menu and class ordinals, `DoDlg` as written does what the corrected one does. */
  lemma DoDlgAgrees(modeless: bool, fontName: seq<int>, pointSize: nat, modal: bool,
                    s: seq<byte>, dialogResult: int, created: Handle)
    requires NoNul(fontName) && ParseHead(s).Success?
    requires CopiesAsRun(ParseHead(s).value.0.menu) && CopiesAsRun(ParseHead(s).value.0.cls)
    ensures DoDlg(AsWritten, modeless, fontName, pointSize, modal, Some(s), dialogResult, created)
         == DoDlg(Corrected, modeless, fontName, pointSize, modal, Some(s), dialogResult, created)
  {
    AsWrittenAgrees(s, fontName, pointSize);
  }

  /** A template whose menu is ordinal 5 makes `DoDlg` as written fail, while the corrected one shows the dialog. */
  lemma DoDlgMisreadsOrdinalMenu(modeless: bool, modal: bool, dialogResult: int, created: Handle)
    ensures DoDlg(AsWritten, modeless, [], 8, modal, Some(OrdinalMenuTemplate()), dialogResult, created).Failure?
    ensures DoDlg(Corrected, modeless, [], 8, modal, Some(OrdinalMenuTemplate()), dialogResult, created).Success?
  {
    AsWrittenMisreadsOrdinalMenu();
  }

  /**
   * What the dialog manager receives when the font is replaced, with the
   * corrected header copy: the resource's template with the new font, which
   * fits the `size + lstrlen(fontName) * 4 + 16` bytes allocated for it.
   */
  lemma IndirectTemplate(modeless: bool, fontName: seq<int>, pointSize: nat, modal: bool,
                         s: seq<byte>, dialogResult: int, created: Handle)
    requires NoNul(fontName) && pointSize > 0 && ParseTemplate(s).Success?
    ensures var r := DoDlg(Corrected, modeless, fontName, pointSize, modal, Some(s), dialogResult, created);
      r.Success? && r.value.call.Some? &&
      (modal ==> r.value.call.value.DialogBoxIndirect?) && (!modal ==> r.value.call.value.CreateDialogIndirect?) &&
      ParseTemplate(r.value.call.value.template) == Success((WithFont(ParseTemplate(s).value.0, fontName, pointSize), [])) &&
      |r.value.call.value.template| <= |s| + 4 * |fontName| + 16
  {
    ParseRewrite(s, fontName, pointSize);
    RewriteFits(s, fontName, pointSize);
  }

  /**
   * The same as written, for the templates the code handles: a menu and
   * class that are names or the ordinal 0.
   */
  lemma IndirectTemplateAsWritten(modeless: bool, fontName: seq<int>, pointSize: nat, modal: bool,
                                  s: seq<byte>, dialogResult: int, created: Handle)
    requires NoNul(fontName) && pointSize > 0 && ParseTemplate(s).Success? && ParseHead(s).Success?
    requires CopiesAsRun(ParseHead(s).value.0.menu) && CopiesAsRun(ParseHead(s).value.0.cls)
    ensures var r := DoDlg(AsWritten, modeless, fontName, pointSize, modal, Some(s), dialogResult, created);
      r.Success? && r.value.call.Some? &&
      (modal ==> r.value.call.value.DialogBoxIndirect?) && (!modal ==> r.value.call.value.CreateDialogIndirect?) &&
      ParseTemplate(r.value.call.value.template) == Success((WithFont(ParseTemplate(s).value.0, fontName, pointSize), [])) &&
      |r.value.call.value.template| <= |s| + 4 * |fontName| + 16
  {
    DoDlgAgrees(modeless, fontName, pointSize, modal, s, dialogResult, created);
    IndirectTemplate(modeless, fontName, pointSize, modal, s, dialogResult, created);
  }

  /** `Create` and `CreateSetFont`: a modeless dialog; the result is whether it was created. */
  function Create(how: HeaderCopy, modeless: bool, fontName: seq<int>, pointSize: nat, resource: Option<seq<byte>>, created: Handle): (r: Result<(bool, bool), TemplateError>)
    requires NoNul(fontName)
    ensures r.Success? && r.value.0 ==> created != NULL && r.value.1
  {
    var o :- DoDlg(how, modeless, fontName, pointSize, false, resource, 0, created);
    Success((o.ok, o.modeless))
  }

  /** `DoModal` and `DoModalSetFont`: the dialog's result, or `IDCANCEL` when `DoDlg` fails. */
  function DoModal(how: HeaderCopy, modeless: bool, fontName: seq<int>, pointSize: nat, resource: Option<seq<byte>>, dialogResult: int): (r: Result<int, TemplateError>)
    requires NoNul(fontName)
    ensures r.Success? ==> r.value == dialogResult || r.value == IDCANCEL
  {
    var o :- DoDlg(how, modeless, fontName, pointSize, true, resource, dialogResult, NULL);
    if !o.ok then Success(IDCANCEL) else Success(o.result.value)
  }

  /**
   * A modal dialog whose resource cannot be found is cancelled; any other
   * that gets to the dialog manager returns the dialog's own result.  With
   * the corrected header copy, every template that reads gets there.
   */
  lemma DoModalCancelsOnlyWithoutResource(how: HeaderCopy, modeless: bool, fontName: seq<int>, pointSize: nat, resource: Option<seq<byte>>, dialogResult: int)
    requires NoNul(fontName)
    ensures pointSize > 0 && resource.None? ==> DoModal(how, modeless, fontName, pointSize, resource, dialogResult) == Success(IDCANCEL)
    ensures (pointSize == 0 || resource.Some?) && DoModal(how, modeless, fontName, pointSize, resource, dialogResult).Success? ==>
      DoModal(how, modeless, fontName, pointSize, resource, dialogResult) == Success(dialogResult)
    ensures how == Corrected && (pointSize == 0 || (resource.Some? && ParseTemplate(resource.value).Success?)) ==>
      DoModal(how, modeless, fontName, pointSize, resource, dialogResult) == Success(dialogResult)
  {
  }
}
