# WndLib in Dafny

WndLib is a small C++ library that wraps the Win32 window API. Its pieces are
a `Wnd` base class bound to an `HWND`, a `Dlg` class for dialog boxes,
message-map macros, and helpers such as `LogWnd`, `RegistryKey`, `VerInfo`,
`ImageList`, `RebarWnd` and `StatusBarWnd`. This project models the library's
sequential logic as pure Dafny functions over immutable state and proves what
that logic promises. The Stopwatch example application is modelled too.

What is modelled, module by module:

- **DlgFormat, DlgRewrite, DlgRewriteProofs, DlgRoundTrip, DlgHeaderFinding, DlgDispatch.**
  `Dlg::DoDlg` rewrites a `DLGTEMPLATE` / `DLGTEMPLATEEX` resource so that it uses a new font.
  - The model works on bytes. It has an independent parser and serializer for the template layout, proved to be inverses.
  - The rewriter is proved equal to "parse, replace the font, serialize". This gives: header and items preserved, font replaced, output within the allocated buffer.
  - `DoDlg`'s choice between the by-name and the indirect dialog calls is modelled, as are `Create` and `DoModal`.
- **WndRegistry, Routing, MessageMap.**
  - The handle registry `wndMap` and the pending `creatingWnd` slot.
  - `Attach`/`Detach` with subclassing, `DestroyWindow`, the `CreateIndirect` arbiter, and `StaticWndProc`, `SubclassWndProc` and `Dlg::StaticDlgProc` delivery, including `WM_NCDESTROY` teardown.
  - The `WND_WM_*` first-match dispatch, `Dlg::WndProc`/`EndDialog`, and `FilterMessage`'s walk up the parent chain.
- **Align, CInt, Geometry, TCharStrings, WindowTree, EditColumn, StatusBar, Rebar, ImageList.**
  - `AlignPtr`, C's truncating division and 32-bit wrap-around, `CentreWindow`, `ClampToDesktop` and the font pixel height.
  - `TCharStringCopy`/`Append`, `IsAncestorOfWindow` and `ShowFrame`'s top-level window.
  - Tab expansion in `GetColumnNumber`, the status bar's menu-help state machine, `RebarWnd::InsertBar`/`Rearrange`, and `ImageList` handle ownership.
- **LogWnd.** The message queue and its drain, the show policy, CR/LF normalisation, 255-character chunking, `OnClose` and `SetVisible`.
- **RegistryKey, RegistryValues.**
  - The shared reference count across construction, copy, assignment, `Open`, `Close` and destruction.
  - The buffered `QueryValue`, the `GetDWORD`/`GetString` type filters, and the sizes `SetDWORD`/`SetString` store.
- **Stopwatch, VerInfo.**
  - The stopwatch's start/stop/reset machine over a wrapping millisecond clock, `FormatTime`, and the `OnSize` layout.
  - `VerInfo::Read`'s version unpacking and string queries.

**The operating system as oracles.** Everything the operating system decides is an oracle given as a parameter:
- window creation and the window each handle belongs to;
- resource lookup;
- registry answers;
- the clock;
- the version resource;
- whether `SetTimer` succeeds.

Undefined behaviour in the C++ becomes a `Failure` result: reading past a template, using a deleted object, a double free, or copying a status bar text of 512 units or more into `OnMenuSelect`'s stack buffer.

**Where the code and the design description disagree, the model follows the code.**
- `CreateIndirect` leaves `creatingWnd` set when creation fails before `StaticWndProc` ran (WndLib.cpp:833-838).
- The template rewriter has no error for an unknown signature or an oversized output. A template it cannot read is reported as truncated, since the C++ would read past it.
- WndLib.h:976-984 still declares a linked-list `WndMapping` and a `bool Attach`. The model follows the `std::map` registry and `void Attach` of WndLib.cpp.

## Model

| member | source | states |
|---|---|---|
| Align.AlignPtr | WndLib.h:192-196 | the aligned offset is a multiple of the boundary, at least the input and less than input plus boundary |
| Align.AlignPtrIdempotent | WndLib.h:193-196 | aligning an aligned offset changes nothing, and an offset already on the boundary is returned as it is |
| CInt.Quot | WndLib.cpp:381-382 | C's `/` truncates toward zero: the remainder left over has the sign of the dividend and is smaller than the divisor |
| CInt.Rem | WndLib.cpp:381-382 | C's `%` has the dividend's sign and magnitude below the divisor |
| CInt.SubU32 | Examples/Stopwatch/Stopwatch.cpp:255-259 | `DWORD` subtraction wraps: adding the subtrahend back gives the minuend modulo 2^32, and the result is `a - b` or `a - b + 2^32` |
| CInt.AddU32 | Examples/Stopwatch/Stopwatch.cpp:255-259 | `DWORD` addition is the sum, less 2^32 exactly when the sum overflows |
| CInt.ToInt32 | Examples/Stopwatch/Stopwatch.cpp:349 | the `(int)` cast keeps values below 2^31, lands in the signed range and agrees with the `DWORD` modulo 2^32 |
| CInt.HalfSplit | WndLib.cpp:381-382 | halving a span with truncating division leaves two parts that differ by at most one |
| Geometry.CentreSpan | WndLib.cpp:381-382 | the child's margins on either side differ by at most one, the far one the larger when the child fits |
| Geometry.CentreWindow | WndLib.cpp:369-385 | the child is centred in its parent's rectangle, or in the work area when there is no parent, on both axes |
| Geometry.CentreWindowStable | WndLib.cpp:369-385 | centring a window that is already centred leaves it where it is |
| Geometry.ClampToDesktop | WndLib.cpp:387-408 | size is kept; the window ends inside the work area on each axis where it fits and at its left/top edge where it does not; a window already inside does not move |
| Geometry.ClampToDesktopIdempotent | WndLib.cpp:387-408 | clamping a clamped window changes nothing |
| Geometry.FontPixelHeight | WndLib.cpp:475 | the height is `(decipoints * dpi + 320) / 720`, characterised by its quotient bounds |
| Geometry.FontPixelHeightMonotone | WndLib.cpp:475 | a larger point size never gives a smaller pixel height |
| Geometry.TenPointsAt96Dpi | WndLib.cpp:475 | an illustration of the formula: 10 points at 96 dpi are 13 pixels |
| TCharStrings.Text | WndLib.cpp:181-199 | the string a buffer holds is its prefix before the first NUL, and the buffer has a NUL right after it when it is shorter |
| TCharStrings.TextOfTerminated | WndLib.cpp:181-199 | a NUL-free string followed by a terminator reads back as itself whatever follows |
| TCharStrings.Copy | WndLib.cpp:181-199 | a zero-size buffer fails and receives nothing; otherwise the copy succeeds exactly when the source is shorter than the buffer, always writes a terminator and holds the longest prefix that fits |
| TCharStrings.Append | WndLib.cpp:201-209 | fails without writing when the existing text fills the buffer; succeeds exactly when both texts fit with the terminator; otherwise the result lies between the existing text and the concatenation |
| WindowTree.Ancestors | WndLib.cpp:410-423 | the parent chain starts at the window's parent, has no NULL before its end and ends at NULL |
| WindowTree.AncestorTransitive | WndLib.cpp:410-423 | an ancestor of an ancestor is an ancestor |
| WindowTree.IsAncestorOfWindow | WndLib.cpp:410-423 | true exactly when the parent is the child itself or on its parent chain; a NULL parent is always reported as an ancestor |
| WindowTree.TopLevel | LogWnd.cpp:354-367 | the top-level window has no parent, is the window or one of its ancestors, and is not NULL for a real window |
| WindowTree.ShowFrameTarget | LogWnd.cpp:354-367 | `ShowFrame` acts on the log window's top-level ancestor, and on nothing when the window has no handle |
| EditColumn.TabStop | WndLib.cpp:1677-1693 | after a tab the column moves to the next multiple of the tab width, by at least one and at most the width |
| EditColumn.TabStopIsNext | WndLib.cpp:1677-1693 | no tab stop lies strictly between a column and the stop a tab moves it to |
| EditColumn.ColumnsBounds | WndLib.cpp:1677-1693 | a line of n characters spans at least n and at most n times the tab width columns |
| EditColumn.ColumnsWithoutTabs | WndLib.cpp:1677-1693 | without tabs every character is one column |
| EditColumn.AfterTabOnStop | WndLib.cpp:1677-1693 | text ending in a tab ends on a tab stop |
| EditColumn.GetColumnNumber | WndLib.cpp:1633-1699 | -1 when the line did not fit the stack buffer or the caret lies past the copied line; otherwise the column count of the text before the caret; a tab width of 0 faults with a division by zero exactly when a tab lies before the caret, and a line without tabs then counts one column per character |
| MessageMap.DispatchFrom | WndLib.h:504-548 | the entry chosen matches, no earlier entry does, and no entry matches when none is chosen |
| MessageMap.DispatchIsFirstMatch | WndLib.h:504-548 | `WmDispatch` returns false exactly when no entry matches, and otherwise runs the lowest-numbered matching entry |
| MessageMap.DispatchAppend | WndLib.h:504-548 | a table followed by another dispatches to the first table's match if there is one, else to the second's |
| MessageMap.CommandIgnoresHighWord | WndLib.h:529-535 | `WND_WM_COMMAND` entries see only the low word of `wparam`: the notification code in the high word does not change the dispatch |
| MessageMap.WndProc | WndLib.h:512-519 | the base class `WndProc` runs exactly when nothing matched, otherwise the first matching handler's result is returned |
| MessageMap.DlgWndProc | WndLib.cpp:1511-1543 | `WM_INITDIALOG` centres and clamps, a click on `IDOK`/`IDCANCEL` calls `OnOK`/`OnCancel`, and TRUE is returned exactly when one of these happened |
| MessageMap.EndDialog | WndLib.cpp:1555-1566 | a modeless dialog hides itself and records the result; a modal one hands it to the dialog manager and reports that call's success |
| MessageMap.ButtonsEndModelessDialog | WndLib.cpp:1545-1566 | clicking OK or Cancel in a modeless dialog hides it with that button's id as its result |
| MessageMap.OtherNotificationsIgnored | WndLib.cpp:1511-1543 | command notifications other than `BN_CLICKED` leave the dialog untouched and return FALSE |
| Routing.ChainOwners | WndLib.cpp:341-367 | the objects consulted along the parent chain are the target's own object, if it has one, then those of its ancestors in order |
| Routing.FilterMessage | WndLib.cpp:341-367 | the objects consulted are a prefix of the chain's owners stopping at the first filter; the message is handled exactly when some owner on the chain filters it or the target's own object pre-translates it; the registry lookups are unchanged |
| WndRegistry.Map | WndLib.cpp:929-933 | the handle maps to the object afterwards, overwriting any earlier binding, and every other handle keeps its binding |
| WndRegistry.Unmap | WndLib.cpp:935-942 | the entry under the object's current handle is erased, and every other entry is kept |
| WndRegistry.UnmapDropsOtherOwner | WndLib.cpp:935-942 | `Unmap` erases the entry for the object's handle even when it names another object |
| WndRegistry.FindWnd | WndLib.cpp:944-948 | returns the mapped owner or nothing; the lookup may add an empty entry but changes no binding |
| WndRegistry.MapThenFind | WndLib.cpp:929-948 | after `Map(h, o)`, `FindWnd(h)` finds `o`; mapping another handle does not disturb it; mapping `h` again replaces it |
| WndRegistry.Construct | WndLib.cpp:632-637 | a new object has no window, no saved procedure and does not self-destruct |
| WndRegistry.SetSelfDestruct | WndLib.h:566-572 | only the object's self-destruct flag changes: its handle and saved procedure, every other object, the registry, the windows and the pending slot are kept |
| WndRegistry.Delete | WndLib.cpp:639-647 | the destructor unmaps the object's handle and the object is gone |
| WndRegistry.SetHWnd | WndLib.cpp:668-671 | `SetHWnd` changes only the object's handle, not the registry |
| WndRegistry.BaseWndProc | WndLib.cpp:909-917 | unhandled messages go to the saved procedure exactly when the object subclassed its window, otherwise to the default procedure |
| WndRegistry.Detach | WndLib.cpp:673-695 | returns the old handle; restores the saved procedure only if `SubclassWndProc` is still installed, else installs the class procedure; clears the saved procedure and unmaps; nothing else changes |
| WndRegistry.Attach | WndLib.cpp:649-666 | detaches first, maps the handle only if no object owns it yet, and when subclassing saves the current procedure and installs `SubclassWndProc` |
| WndRegistry.Adopt | WndLib.cpp:649-666 | the handle is taken and mapped to the object unless another object already owns it |
| WndRegistry.Subclass | WndLib.cpp:649-666 | subclassing a live window saves its procedure and installs `SubclassWndProc`, leaving the registry alone |
| WndRegistry.AttachDetachRoundTrip | WndLib.cpp:649-695 | attaching with subclassing and then detaching restores every window procedure and registry entry, and leaves only the handle recorded |
| WndRegistry.SubclassFallback | WndLib.cpp:649-695 | a subclassed object falls back to the window's previous procedure, and after `Detach` to the default procedure |
| WndRegistry.MaybeSelfDestruct | WndLib.cpp:851-884 | a self-destructing object is deleted, any other kept unchanged |
| WndRegistry.StaticWndProc | WndLib.cpp:851-884 | the first message to a window claims the pending object: it is bound to the window, the slot cleared and its `WndProc` run; `WM_NCDESTROY` runs the object's `WndProc` before deleting a self-destructing object |
| WndRegistry.SubclassWndProc | WndLib.cpp:950-970 | an unmapped window gets the default procedure; a mapped one runs its object's `WndProc`, and on `WM_NCDESTROY` the object is unmapped and deleted only after its `WndProc` returned if it self-destructs |
| WndRegistry.StaticDlgProc | WndLib.cpp:1468-1509 | `WM_INITDIALOG` attaches the dialog object named in its parameter; later messages go to that object; `WM_NCDESTROY` detaches it and deletes it if it self-destructs |
| WndRegistry.DestroyWindowOs | WndLib.cpp:697-706 | destroying a window removes it and no other window is modelled as destroyed: its `WndProc` sees `WM_DESTROY` and `WM_NCDESTROY`, and a self-destructing object is deleted; child and owned windows are not modelled |
| WndRegistry.DestroyWindowAsWritten | WndLib.cpp:697-706 | as written, a successful run leaves the object alive with no saved procedure and the window gone |
| WndRegistry.DestroyWindow | WndLib.cpp:697-706 | corrected: succeeds whenever the system call does; the window is gone; an object that survives is unmapped and has no saved procedure |
| WndRegistry.DestroyWindowUsesDeletedObject | WndLib.cpp:697-706 | for a self-destructing object the code as written touches the deleted object, while the corrected version succeeds and the object is gone |
| WndRegistry.CreateIndirect | WndLib.cpp:776-849 | a failed class registration returns false and changes nothing; when the window procedure was never reached the pending slot stays set; for a window attached afterwards (the class procedure, from the registered class or from `GetWndClass`, is not `StaticWndProc`), no window gives false with nothing changed, and a window gives true with the object bound unless the handle was already owned, and `SubclassWndProc` installed exactly when subclassing; an own-class success means the window exists, is bound to the object and the slot is cleared |
| WndRegistry.CreationRefusedAfterProcedure | WndLib.cpp:776-849 | when the window procedure ran but the window was refused, `CreateIndirect` reports false, the slot is cleared, the window is gone, nothing maps its handle, and a self-destructing object has been deleted |
| WndRegistry.StaticWndProcCoherent | WndLib.cpp:851-884 | `StaticWndProc` keeps the registry coherent: every mapped object exists and holds the handle it is mapped under, and the pending object is mapped nowhere |
| WndRegistry.SubclassWndProcCoherent | WndLib.cpp:950-970 | `SubclassWndProc` keeps the registry coherent, including the `WM_NCDESTROY` unmap and delete |
| WndRegistry.StaticDlgProcCoherent | WndLib.cpp:1468-1509 | `StaticDlgProc` keeps the registry coherent when `WM_INITDIALOG` names an unbound object and `WM_NCDESTROY` comes after its own teardown |
| WndRegistry.DeliverCoherent | WndLib.cpp:851-884 | delivering a message through whichever procedure the window has keeps the registry coherent |
| WndRegistry.DestroyWindowOsCoherent | WndLib.cpp:697-706 | destroying a window keeps the registry coherent |
| WndRegistry.DestroyWindowCoherent | WndLib.cpp:697-706 | the corrected `Wnd::DestroyWindow` keeps the registry coherent |
| WndRegistry.AttachCoherent | WndLib.cpp:649-695 | `Attach` keeps the registry coherent for an object that is not pending |
| WndRegistry.CreateIndirectCoherent | WndLib.cpp:776-849 | `CreateIndirect` for an unbound object keeps the registry coherent |
| WndRegistry.OwnClassLifecycle | WndLib.cpp:697-849 | creating a window of the library's own class and destroying it runs the object's `WndProc` for `WM_DESTROY` and `WM_NCDESTROY`, leaves the handle unmapped, deletes the object exactly when it self-destructs, and the code as written then fails exactly for a self-destructing object |
| DlgFormat.ParseTemplate | WndLib.cpp:54-98 | a template that reads successfully is well formed and consumes at most the input |
| DlgRoundTrip.ParseSerialize | WndLib.cpp:54-98 | serializing a well-formed template and reading it back gives the template and the following bytes unchanged |
| DlgRoundTrip.ParseHeadDecode | WndLib.cpp:54-98 | whatever header reads successfully is exactly the serialization of what was read, followed by the rest |
| DlgRoundTrip.ParseItemsEncode | WndLib.cpp:54-98 | item records laid out with 4-byte padding read back as the same records, in order |
| DlgRewrite.NewFont | WndLib.cpp:1307-1327 | the new font has the given face name and the point size truncated to a `WORD`; weight, italic and charset are 0 |
| DlgRewrite.WithFont | WndLib.cpp:1307-1327 | replacing the font keeps a well-formed template well formed and keeps the item count |
| DlgRewrite.CopyRun | WndLib.cpp:1259-1268 | a run copy splits its input into the copied words and the rest |
| DlgRewrite.CopyField | WndLib.cpp:1346-1370 | a field copy splits its input into the copied field and the rest |
| DlgRewrite.SkipFont | WndLib.cpp:1270-1305 | skipping an existing font block consumes at least one byte |
| DlgRewrite.CopyItem | WndLib.cpp:1330-1430 | copying one item consumes at least one byte and writes at least the output padding and the fixed item header; `CopyItemsIsItems` states what it writes |
| DlgRewrite.CopyItems | WndLib.cpp:1330-1430 | copying no items writes nothing and consumes nothing; otherwise at least one fixed item header is written and no more than the input is consumed; `CopyItemsIsItems` states what it writes |
| DlgRewrite.RewriteHead | WndLib.cpp:1232-1327 | an input shorter than the header fails; a success has read a whole fixed header and writes at least one; `RewriteHeadIsHead` states what it writes |
| DlgRewrite.CopyItemLeavesSuffix | WndLib.cpp:1335-1378 | copying an item reads a prefix of its input: the input left is the input's tail |
| DlgRewrite.RewriteHeadLeavesSuffix | WndLib.cpp:1232-1327 | rewriting the header reads a prefix of the template, under either header copy: the input left for the items is the template's tail |
| DlgRewrite.SetFontBit | WndLib.cpp:1232-1254 | or-ing in `DS_SETFONT` sets that bit and changes no other bit of the style byte |
| DlgRewriteProofs.RewriteHeadIsHead | WndLib.cpp:1232-1327 | the rewritten header is the parsed header with `DS_SETFONT` set and the new font block |
| DlgRewriteProofs.CopyItemsIsItems | WndLib.cpp:1330-1430 | the items written are exactly the parsed items laid out again from the output offset, with the padding bytes taken as zero |
| DlgRewriteProofs.RewriteIsSerialize | WndLib.cpp:1232-1430 | the rewrite itself (`Rewrite`, that is `RewriteWith` with the corrected header copy) succeeds exactly when the template reads, and its output is the serialization of the parsed template with the font replaced, with the padding bytes taken as zero |
| DlgRewriteProofs.ParseRewrite | WndLib.cpp:1232-1430 | the rewritten template reads back as the original with only the font changed: same header fields, same items, in order |
| DlgRewriteProofs.RewriteFits | WndLib.cpp:1220-1221 | the rewritten template never exceeds the `size + 4 * lstrlen(fontName) + 16` bytes allocated for it |
| DlgHeaderFinding.CopyRunOnField | WndLib.cpp:1258-1264 | copying a header field as a zero-terminated run agrees with copying it as a field exactly when the field is not an ordinal with a non-zero id |
| DlgHeaderFinding.AsWrittenAgrees | WndLib.cpp:1258-1264 | when menu and class are not such ordinals, the rewrite as written equals the corrected one |
| DlgHeaderFinding.OrdinalMenuMisread | WndLib.cpp:1258-1264 | for a menu given by ordinal, the run copy reads a different field than the field copy |
| DlgHeaderFinding.AsWrittenMisreadsOrdinalMenu | WndLib.cpp:1258-1264 | a concrete template with menu ordinal 5 reads correctly and is rewritten by the corrected code, but the code as written runs off its end |
| DlgDispatch.DoDlg | WndLib.cpp:1210-1466 | over either copy of the header: point size 0 uses the template by name; a missing resource fails without a dialog; otherwise the dialog is shown exactly when that copy rewrites the template, which for the corrected copy is exactly when the template reads; modal dialogs report the dialog's result, modeless ones whether a window was created |
| DlgDispatch.DoDlgAgrees | WndLib.cpp:1210-1466 | when the header's menu and class are not ordinals with a non-zero id, `DoDlg` as written gives the same result as the corrected one |
| DlgDispatch.DoDlgMisreadsOrdinalMenu | WndLib.cpp:1258-1264 | for a template whose menu is an ordinal, `DoDlg` as written fails where the corrected one shows the dialog |
| DlgDispatch.IndirectTemplate | WndLib.cpp:1432-1447 | corrected: the dialog manager receives the resource's template with the new font, and it fits the allocation |
| DlgDispatch.IndirectTemplateAsWritten | WndLib.cpp:1432-1447 | as written, for a template whose menu and class are not ordinals, the dialog manager receives the template with the new font |
| DlgDispatch.Create | WndLib.cpp:1176-1186 | over either copy of the header, a modeless dialog reports success only when a window was created |
| DlgDispatch.DoModal | WndLib.cpp:1188-1208 | over either copy of the header, the result is the dialog's own result or `IDCANCEL` |
| DlgDispatch.DoModalCancelsOnlyWithoutResource | WndLib.cpp:1188-1208 | a missing resource for a font change gives `IDCANCEL`; any successful run gives the dialog's result; with the corrected copy a readable template, or no font change, always gives the dialog's result |
| StatusBar.FirstLine | WndLib.cpp:2320-2364 | the help text stops at the first NUL or newline and contains neither |
| StatusBar.HelpText | WndLib.cpp:2320-2364 | popups, separators and unknown items show nothing; otherwise the first line of the item's string as `LoadString` truncates it |
| StatusBar.OnMenuSelect | WndLib.cpp:2320-2364 | the first message of a session faults exactly when the bar's text is 512 units or more, since `GetText` copies it unbounded into the 512-unit stack buffer; otherwise the first selection saves the bar's text, closing the menu restores the saved text unless it was empty, and during the session the bar shows the item's help |
| StatusBar.SelectingKeepsSaved | WndLib.cpp:2320-2364 | during a menu session that started on a text that fits the buffer, the text saved at its start is kept and the bar shows the last item's help |
| StatusBar.SessionRestoresText | WndLib.cpp:2320-2364 | a session that started on non-empty text that fits the buffer ends showing that text again |
| StatusBar.EmptyTextKeepsLastHelp | WndLib.cpp:2320-2364 | a session that started on empty text leaves the last help text showing |
| StatusBar.PopupsAndSeparatorsShowNothing | WndLib.cpp:2320-2364 | selecting a popup or separator blanks the bar |
| StatusBar.LongTextOverruns | WndLib.cpp:2322-2334 | a session that starts on a text of 512 units or more overruns the stack buffer at its first message, whatever follows |
| Rebar.NewRebar | WndLib.cpp:2181-2184 | a new rebar has no bands and its next band id is the first one |
| Rebar.BandStyle | WndLib.cpp:2235-2298 | each `REBAR_INSERTBAR_*` flag sets exactly its band style bit, no gripper flag gives `RBBS_NOGRIPPER`, and no other bit is set |
| Rebar.BandMask | WndLib.cpp:2235-2298 | the mask always has style, child, child size, id and image; text exactly with a title; size, ideal size and header exactly for a fixed-size band; nothing else |
| Rebar.MakeBand | WndLib.cpp:2235-2298 | the band carries the id, bar, title, style and mask, the button height, and the dynamic or fixed widths as the flags say |
| Rebar.InsertBar | WndLib.cpp:2235-2298 | a failed insert returns -1, changes nothing and maximizes nothing; a successful one appends one band with the next id and that id's style, keeping the earlier bands, and maximizes the new last band |
| Rebar.InsertKeepsIds | WndLib.cpp:2297 | band ids keep increasing with position across inserts |
| Rebar.IdsDistinct | WndLib.cpp:2297 | no two bands share an id |
| Rebar.Rearrange | WndLib.cpp:2218-2233 | every visible band is maximized, no hidden band is, each at most once, in band order |
| Rebar.HiddenBandsNotMaximized | WndLib.cpp:2218-2298 | a band inserted with `REBAR_INSERTBAR_HIDDEN` is skipped by `Rearrange`, and any other inserted band is maximized |
| ImageList.NewImageList | WndLib.h:2141-2147 | a new image list owns nothing |
| ImageList.Destroy | WndLib.h:2183-2190 | only a non-NULL handle is destroyed, once, and the list then owns NULL; destroying a handle no longer live is a double free |
| ImageList.DestroySafe | WndLib.h:2183-2190 | a list that owns its handle can always be destroyed, and keeps ownership |
| ImageList.DestroyIdempotent | WndLib.h:2183-2190 | destroying twice is destroying once |
| ImageList.Attach | WndLib.h:2153-2157 | `Attach` destroys the handle it owned before taking the new one |
| ImageList.Detach | WndLib.h:2158-2163 | `Detach` returns the owned handle, leaves the list owning NULL and destroys nothing |
| ImageList.Acquire | WndLib.h:2177-2182 | `Create`, `LoadImage`, `Merge` and `LoadBitmap` destroy the old handle and then own what was created, succeeding exactly when it is not NULL |
| ImageList.AcquireReleasesOld | WndLib.h:2233-2245 | after creating a new list the old handle has been destroyed exactly once and ownership holds |
| ImageList.StepKeepsOwnership | WndLib.h:2137-2311 | every permitted call keeps the list owning a live handle or NULL |
| ImageList.NoDoubleFree | WndLib.h:2137-2311 | every run of calls, each permitted in the state the previous ones left, never double-frees, and the list ends owning NULL once destroyed |
| ImageList.SelfAttachDangles | WndLib.h:2153-2157 | attaching the owned handle to its own list destroys it and leaves the list holding a dead handle |
| LogWnd.NewLogWnd | LogWnd.cpp:18-22 | a new log window has an empty queue and has not been closed by the user |
| LogWnd.ExpandPairsBreaks | LogWnd.cpp:144-170 | after normalisation every line feed is preceded by a carriage return and every carriage return followed by a line feed |
| LogWnd.AppendEditControlRaw | LogWnd.cpp:172-204 | the text is appended in pieces of at most 255 characters whose concatenation is the text |
| LogWnd.AppendEditControl | LogWnd.cpp:144-170 | the edit control receives the text with every CR removed and every LF replaced by CR LF, in non-empty appends |
| LogWnd.AppendLines | LogWnd.cpp:144-170 | the line-splitting loop appends exactly the normalised text |
| LogWnd.RenderedAppend | LogWnd.cpp:254-294 | draining two queues one after the other renders their entries in order |
| LogWnd.Highest | LogWnd.cpp:254-294 | the highest show command is at least as urgent as every queued command and is one of them, or no-change for an empty queue |
| LogWnd.ProcessQueue | LogWnd.cpp:254-294 | the queue is drained in FIFO order onto the text and left empty, and the window is shown as the policy says for the most urgent command |
| LogWnd.Log | LogWnd.cpp:215-236 | on another thread the entry is queued at the tail and a message posted; on the window thread the queue is drained at once |
| LogWnd.LogThenDrain | LogWnd.cpp:248-252 | entries logged from other threads appear in order after the ones already queued when the queue is drained |
| LogWnd.ShowPolicy | LogWnd.cpp:278-293 | a visible window or no-change shows nothing; a window the user closed is shown only for an alert; a hidden window not closed is shown for any command; an alert always shows a hidden window normally and comes forward, nothing else does; `SW_SHOWNOACTIVATE` exactly for show-in-background |
| LogWnd.ShowPolicyMonotone | LogWnd.cpp:254-293 | a more urgent command shows the window whenever a less urgent one does, comes forward whenever it does, and shows it normally whenever it does |
| LogWnd.ClosedStaysHidden | LogWnd.cpp:278-293 | once the user has closed the window only an alert shows it |
| LogWnd.NoChangeNeverShowsAlertAlwaysDoes | LogWnd.cpp:278-293 | no-change never shows the window; an alert always shows it normally and brings it forward |
| LogWnd.OnClose | LogWnd.cpp:137-142 | closing hides the window and remembers that the user closed it, keeping queue and text |
| LogWnd.ClosedWindowAlertsOnly | LogWnd.cpp:137-142 | after `OnClose` a show-in-foreground no longer shows the window but an alert does |
| LogWnd.IsVisible | LogWnd.cpp:349-352 | a window without a handle is never visible |
| LogWnd.SetVisible | LogWnd.cpp:330-347 | a show or hide is issued exactly when the visibility differs; hiding uses `SW_HIDE`, showing no-activate or normal as asked |
| LogWnd.SetVisibleSettles | LogWnd.cpp:330-352 | from any starting visibility of a window with a handle, applying the command `SetVisible` issues gives the window the visibility asked for, and asking again issues nothing |
| RegistryKey.Construct | RegistryKey.cpp:5-9 | a default-constructed key is not open |
| RegistryKey.Open | RegistryKey.cpp:44-53 | `Open` closes the old key; success opens the key with a fresh count of 1; failure leaves it not open |
| RegistryKey.CopyConstruct | RegistryKey.cpp:17-21 | a copy holds the same key and count as its source |
| RegistryKey.Increment | RegistryKey.cpp:27-28 | incrementing a freed counter faults; a live one goes up by one, every other counter, the objects and the closed keys are kept |
| RegistryKey.Assign | RegistryKey.cpp:23-37 | self-assignment does nothing; otherwise the target ends up holding the source's key and count |
| RegistryKey.Destruct | RegistryKey.cpp:39-42 | the destructor removes the object |
| RegistryKey.Close | RegistryKey.cpp:65-77 | `Close` leaves the object not open; the key is closed exactly when the count was 1, otherwise the count drops by one; other objects are untouched |
| RegistryKey.CloseCounted | RegistryKey.cpp:65-77 | closing keeps every live count equal to the number of objects holding it |
| RegistryKey.OpenCounted | RegistryKey.cpp:44-53 | opening keeps every live count equal to the number of objects holding it |
| RegistryKey.AssignCounted | RegistryKey.cpp:23-37 | assignment keeps every live count equal to the number of objects holding it |
| RegistryKey.ConstructCounted | RegistryKey.cpp:5-9 | construction keeps every count equal to its holders |
| RegistryKey.OpenFreshOrClosed | RegistryKey.cpp:44-53 | after a successful `Open` the object is the only holder of its count; after a failed one it is not open |
| RegistryKey.AssignSharedIsHarmless | RegistryKey.cpp:23-37 | assigning between two holders of the same count changes nothing |
| RegistryKey.CloseSharedKeepsKey | RegistryKey.cpp:65-77 | closing one of two holders of a key keeps the key open for the other |
| RegistryKey.StepCounted | RegistryKey.cpp:5-77 | every constructor, assignment, `Open`, `Close` and destructor call keeps each count equal to its holders |
| RegistryValues.Query | RegistryKey.cpp:79-99 | a query answers exactly when the value exists and fits the buffer given, with its type, size and, when a buffer was given, its bytes |
| RegistryValues.QueryValueAsWritten | RegistryKey.cpp:110-125 | as written, a missing value reads as nothing, the buffer is one `TCHAR` longer than the first size, and the terminator can miss the buffer only when the value grew between the two queries |
| RegistryValues.GrowingValueOverruns | RegistryKey.cpp:110-125 | a value that grows between the two queries makes the terminator land past the buffer |
| RegistryValues.StableValueFits | RegistryKey.cpp:110-125 | a value that does not change between the queries is read within the buffer |
| RegistryValues.QueryValue | RegistryKey.cpp:110-125 | corrected: the read succeeds exactly when the value did not grow; the buffer is one `TCHAR` longer than the first size and holds the terminator |
| RegistryValues.QueryValueTerminated | RegistryKey.cpp:110-125 | the buffer read as `TCHAR`s is the value's text followed by a NUL |
| RegistryValues.QueryValueAgrees | RegistryKey.cpp:110-125 | whenever the value does not grow, the code as written and the corrected one agree |
| RegistryValues.GetDWORD | RegistryKey.cpp:136-149 | corrected: the error value comes back unless the value exists with type `REG_DWORD` |
| RegistryValues.GetDWORDAsWritten | RegistryKey.cpp:136-149 | as written, an overrun of the buffer is passed on, a missing value gives the error value, any other result comes from a `REG_DWORD` value, and for a stable value the result is the corrected one |
| RegistryValues.GetDWORDSubAsWritten | RegistryKey.cpp:127-134 | as written, an unopenable subkey gives 0 and an openable one forwards to `GetDWORD` |
| RegistryValues.MissingSubkeyReadsZero | RegistryKey.cpp:127-134 | a missing subkey reads as 0 rather than the error value, indistinguishable from a stored 0 |
| RegistryValues.GetDWORDSub | RegistryKey.cpp:127-134 | corrected: a missing subkey gives the error value |
| RegistryValues.GetDWORDSubFailsToErrorValue | RegistryKey.cpp:127-134 | with the correction, anything other than the error value comes from a `REG_DWORD` value in an opened subkey |
| RegistryValues.GetString | RegistryKey.cpp:174-186 | corrected: a string comes back exactly for `REG_SZ` and `REG_EXPAND_SZ` values, and is a NUL-free prefix of the buffer read |
| RegistryValues.GetStringAsWritten | RegistryKey.cpp:174-186 | as written, it faults exactly when the buffered query does; a missing value gives no string; a string comes only from `REG_SZ` or `REG_EXPAND_SZ`; for a stable value the result is the corrected one |
| RegistryValues.GrowingStringOverruns | RegistryKey.cpp:174-186 | a string that grows between the two queries overruns the buffer as written, while the corrected read gives no string |
| RegistryValues.GetStringWithinData | RegistryKey.cpp:174-186 | the string returned lies within the stored data |
| RegistryValues.SetDWORD | RegistryKey.cpp:160-163 | a `DWORD` is stored as four bytes of type `REG_DWORD` |
| RegistryValues.SetString | RegistryKey.cpp:216-219 | a string is stored with its terminator, `(len + 1) * sizeof(TCHAR)` bytes |
| RegistryValues.DwordRoundTrip | RegistryKey.cpp:136-163 | a `DWORD` stored with `SetDWORD` reads back with `GetDWORD` |
| RegistryValues.StringRoundTrip | RegistryKey.cpp:174-219 | a string stored with `SetString` reads back with `GetString` |
| RegistryValues.TypeFilters | RegistryKey.cpp:136-186 | a value of any other type reads as no string and as the error value |
| RegistryValues.UnitsOfEncoded | RegistryKey.cpp:216-219 | the bytes stored for a string decode back into its `TCHAR`s |
| RegistryValues.DwordOfEncoded | RegistryKey.cpp:136-163 | the four bytes of a stored `DWORD` decode back into it |
| Stopwatch.NewWatch | Examples/Stopwatch/Stopwatch.cpp:103-108 | a new stopwatch is stopped at zero |
| Stopwatch.Elapsed | Examples/Stopwatch/Stopwatch.cpp:363-370 | a stopped watch reads its frozen time; a running one the time since its start, modulo 2^32 |
| Stopwatch.StartStop | Examples/Stopwatch/Stopwatch.cpp:248-270 | starting without a timer does nothing; starting moves the start back by the elapsed time so the reading continues; stopping freezes the current reading |
| Stopwatch.StartStopAccumulates | Examples/Stopwatch/Stopwatch.cpp:248-270 | a run from t1 to t2 adds t2 - t1 modulo 2^32 to the elapsed time |
| Stopwatch.StopFreezes | Examples/Stopwatch/Stopwatch.cpp:248-270 | after stopping the watch reads the same at every later moment |
| Stopwatch.StartButtonText | Examples/Stopwatch/Stopwatch.cpp:272-278 | the button offers "Stop" exactly while the watch runs |
| Stopwatch.Reset | Examples/Stopwatch/Stopwatch.cpp:280-301 | reset leaves the watch stopped, reading zero at every moment |
| Stopwatch.NegativeHundredths | Examples/Stopwatch/Stopwatch.cpp:349 | as written, 2^31 + 50 ms shows -59 hundredths |
| Stopwatch.Fields | Examples/Stopwatch/Stopwatch.cpp:347-355 | corrected: each field is in range, together they make up the elapsed hundredths, and there are hours exactly from one hour on |
| Stopwatch.FieldsAgreeBelowHalfRange | Examples/Stopwatch/Stopwatch.cpp:347-355 | below 2^31 ms the code as written computes the corrected fields |
| Stopwatch.FieldsAsWritten | Examples/Stopwatch/Stopwatch.cpp:347-355 | as written, seconds and minutes lie in 0..59 and hours are non-negative, but the hundredths lie in -99..99 and are negative only from 2^31 ms on |
| Stopwatch.FormatTime | Examples/Stopwatch/Stopwatch.cpp:357-360 | corrected: the display ends in `mm:ss.hs`, and has a leading `hh:` exactly from one hour on |
| Stopwatch.DisplayReadsBack | Examples/Stopwatch/Stopwatch.cpp:357-360 | every clock's display is well laid out and reads back as that clock |
| Stopwatch.FormatTimeReadsBack | Examples/Stopwatch/Stopwatch.cpp:347-360 | corrected: the digit groups of the display read back as the fields of the elapsed time, and hence as the elapsed hundredths |
| Stopwatch.SignedPad2 | Examples/Stopwatch/Stopwatch.cpp:357-360 | `%02d` gives at least two characters: the digits of a non-negative number, or a minus sign followed by the digits of its magnitude |
| Stopwatch.FormatTimeAsWritten | Examples/Stopwatch/Stopwatch.cpp:347-360 | as written, the display has at least eight characters, and negative hundredths make it one that is not a well-laid-out clock |
| Stopwatch.FormatTimeAgreesBelowHalfRange | Examples/Stopwatch/Stopwatch.cpp:347-360 | below 2^31 ms the display as written is the corrected display |
| Stopwatch.NegativeHundredthsDisplayed | Examples/Stopwatch/Stopwatch.cpp:347-360 | as written, 2^31 + 50 ms is displayed ending in `-59`, which does not read back as a clock |
| Stopwatch.OnSize | Examples/Stopwatch/Stopwatch.cpp:178-215 | both buttons are a quarter of the width, at most 160, by a fifth of the height, at most 60 |
| Stopwatch.OnSizeArrangement | Examples/Stopwatch/Stopwatch.cpp:178-215 | the buttons sit a gap apart, a gap below the top and centred to within one pixel; the time area starts a gap below them with a gap on the other sides |
| VerInfo.NewInfo | VerInfo.cpp:9-13 | a new `VerInfo` has four version numbers of -1 and empty strings |
| VerInfo.Unpack | VerInfo.cpp:43-46 | each of the four version numbers is a 16-bit value |
| VerInfo.PackUnpack | VerInfo.cpp:43-46 | each pair of version numbers packs back into its `DWORD` |
| VerInfo.HexNumberOfHex4 | VerInfo.cpp:61-77 | `%04x` prints exactly the number it is given |
| VerInfo.StringPathInjective | VerInfo.cpp:61-77 | different translations or names query different paths |
| VerInfo.CopyString | VerInfo.cpp:64-79 | a string not found leaves the field; one found replaces it up to its NUL, and one of 1024 units or more overflows the field |
| VerInfo.Read | VerInfo.cpp:15-85 | size 0 or an unreadable block gives false and changes nothing; otherwise true, with the version replaced only when the root block was found and the strings only when there is a translation |
| VerInfo.ReadVersion | VerInfo.cpp:38-47 | the version numbers read pack back into the fixed file info's two words |
| VerInfo.NoRootBlockKeepsMinusOne | VerInfo.cpp:38-85 | without a root block a fresh `VerInfo` still reads successfully with its version left at -1 |
| VerInfo.ReadTitle | VerInfo.cpp:60-65 | the title is what the `FileDescription` query for the module's translation finds, or unchanged |
| VerInfo.ReadCurrentModule | VerInfo.cpp:87-96 | an empty module path or one that filled the buffer gives false; otherwise the module's file is read |

## Left out

- The ANSI build: the font name converted with `MultiByteToWideChar` (WndLib.cpp:1321-1324). Only the UNICODE path is modelled.
- `GetDPIScale`, because it is floating point.
- The control wrapper classes, `ListViewWnd` and `TreeViewWnd`. They forward to the control and have no logic of their own.
- Common dialogs, icons, `EasyCreateFont` apart from its pixel height, `SetClientAreaSize`, and RichEdit probing. These are operating system effects.
- `CriticalSection`, the `Interlocked*` atomicity (the reference count is modelled sequentially), `LogWnd::Log`'s `PostMessage` wake-up (its effect is only queueing), `WaitForUserToClose` and `PumpMessages`. This is concurrency machinery.
- `RegistryKey` `EnumKey`/`EnumValue`, `DeleteKey`/`DeleteValue` and key creation. These are buffer-growing loops and calls driven by API return codes.
- The subkey overloads of `QueryValue`, `GetString`, `SetDWORD` and `SetString`. They open the subkey and forward. Only `GetDWORD`'s is modelled, because it differs.
- `ByteArray::Resize`. It is assumed to allocate exactly the size asked for.
- The `StatusBarWnd` window text. It is a parameter of the model, not read from a control.
- `ImageList` forwarders other than those that replace the handle.
- `RebarWnd::Create` and `SetBarInfo`. These are operating system calls.
- Stopwatch drawing and fonts: `CreateBigFont`, `Draw`, `OnCreate`, `OnTimer`, `WinMain`. Also the log line `OnReset` writes.
- `Dlg::DoModal`'s `SetHWnd(NULL)` after the dialog ends. The model returns the result only.
- The default procedure `Wnd` passes unhandled messages to is modelled as one fallback, `CallDefault`, whichever `_defWindowProc` is in use.
- Rebar.InsertBar: band ids are unbounded naturals, so the `DWORD` wrap of the id counter after 2^32 inserts is not modelled. `MaximizeBand` is modelled as the index it is given, not as its effect on the control's layout.
- DlgDispatch.DoDlg: the font name must contain no NUL, as a C string cannot, and a NULL font name is not modelled.
- EditColumn.GetColumnNumber: requires a non-negative caret offset. For a negative one the C++ reads before the buffer.
- DlgRewriteProofs.RewriteIsSerialize: the alignment padding between items is written as zero bytes, while the C++ leaves those bytes of its `GMEM_FIXED` buffer unwritten; the byte equality holds with the padding taken as zero, and `ParseRewrite` does not depend on those bytes.
- DlgRewriteProofs.CopyItemsIsItems: the same zero padding as `RewriteIsSerialize`.
- WndRegistry.DestroyWindowOs: only the window destroyed is modelled. The child and owned windows the system destroys with it, and their `WM_DESTROY`/`WM_NCDESTROY` teardown, are not.
- LogWnd.SetVisibleSettles: `ShowFrame` acts on the top-level frame; the model takes the log window to be shown exactly when its frame is, so `SW_HIDE` hides it and every other command shows it.
- Geometry.FontPixelHeight: the C `int` product `decipoints * dpi` can overflow; the model uses unbounded integers.
- VerInfo.Read: a string of 1024 units or more is reported as a fault, because `lstrcpy` would overflow the field.

## Findings

| source | as written | input that shows it | evidently intended | confidence | as-written member | corrected member |
|---|---|---|---|---|---|---|
| WndLib.cpp:1258-1264 | the header's menu and class are copied as zero-terminated word runs | a template whose menu is the ordinal `0xFFFF, 5`: the run copy does not stop after the ordinal and runs past the header | copy them as `sz_Or_Ord` fields, as the item loop does (1348-1357) | not executed | DlgDispatch.DoDlgMisreadsOrdinalMenu | DlgRewriteProofs.ParseRewrite |
| Examples/Stopwatch/Stopwatch.cpp:349 | the millisecond count is cast to `int` before `/ 10` | ms = 2^31 + 50 shows -59 hundredths | take the hundredths from the unsigned count, like the other fields | not executed | Stopwatch.NegativeHundredthsDisplayed | Stopwatch.FormatTimeReadsBack |
| WndLib.cpp:697-706 | `Wnd::DestroyWindow` calls `Unmap(this)` and clears `_prevproc` after `::DestroyWindow`, which may have deleted `this` | an object with `_selfDestruct` set | do not touch the object after the system call | not executed | WndRegistry.DestroyWindowUsesDeletedObject | WndRegistry.DestroyWindow |
| RegistryKey.cpp:127-134 | `GetDWORD(subkey, value, errorValue)` returns `false`, that is 0, when the subkey cannot be opened | a missing subkey with error value 7 reads 0 | return `errorValue` | not executed | RegistryValues.MissingSubkeyReadsZero | RegistryValues.GetDWORDSub |
| RegistryKey.cpp:110-125 | the buffer is sized from the first query, but the terminator goes at the size the second query reports | a `REG_SZ` value that grows from 4 to 6 bytes between the two queries | fail, or re-size, when the second size exceeds the first | not executed; assumes `ByteArray::Resize` allocates exactly the size asked for | RegistryValues.GrowingStringOverruns | RegistryValues.QueryValue |
