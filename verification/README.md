# cwiclui core in Dafny

A model of the core of cwiclui, a C++ text-mode UI toolkit. Widgets and
windows describe themselves as *drawlists*, which are binary command streams.
A terminal screen service replays those drawlists onto cell surfaces,
composites the windows, and sends only the changed cells to the terminal as
escape sequences. It also turns terminal input bytes back into key events.
Settings live in a tree of keys that is read from and written to INI files.

The modules follow the program's structure:

| module | models |
|---|---|
| `Ints`, `Wrappers` | the fixed-width integer types, with 16- and 32-bit wrap-around written out; `Option`/`Result` |
| `UiDefs` | `uidefs.h`: offsets, sizes, points, rectangles and their clipping, RGBA colours, key modifiers, window types |
| `Drawlist` | `draw.h`: the command writer, the validator, the dispatcher, and the graphic extension |
| `TermSurface`, `Utf8` | `termscr.h`: cells, attribute bits and the cell surface, with the UTF-8 codec a cell uses for wide characters |
| `RenderTarget` | `termscr.cc` `Draw_*`: replaying a drawlist onto a window's surface |
| `DiffRender` | `termscr.cc` `draw_window` and `reset`: the escape-sequence output, modelled as terminal operations and interpreted against a modelled terminal |
| `Compositor` | `termscr.cc` `position_window`, `unregister_window` and the redraw of all windows |
| `DrawSync` | `termscr.cc` `draw` and `on_event`: coalescing redraws onto vertical-sync events |
| `InputDecoder` | `termscr.cc` `match_escape_sequence` and `parse_keycodes` |
| `CStr` | the C-string operations the settings code relies on (`strcmp`, `strrchr`, space trimming, NUL-separated lists) |
| `SettingsKey` | `settings.h`/`settings.cc` `SettingsKey`: a sorted entry list with typed getters and setters, subtract, merge and validity |
| `Settings`, `Ini` | `settings.cc` `Settings`: the ordered key tree, `match`, `create_all_paths`, and INI reading and writing |
| `Widgets`, `CWidgets` | `widget.h`/`widget.cc` and `cwidgets.h`/`cwidgets.cc`: the widget tree, focus, key routing, size hints, and each control's text and key handling |

Stateful C++ objects become immutable datatypes. Each operation takes the
old state and returns the new one. Messages a widget or window would send
become returned values: `Reply` flags, call lists and terminal-operation
sequences. Integers are unbounded. Where the source relies on a 16- or
32-bit width (`coord_t`, `dim_t`, `key_t`, `color_t`, the packed widget
selection), the wrap-around is written out.

## Model

| member | source | states |
|---|---|---|
| UiDefs.SizeOf | uidefs.h:44 | building a `Size` from two coordinates keeps them when they are in the 16-bit range |
| UiDefs.TranslateRoundTrip | uidefs.h:66-69 | subtracting an offset undoes adding it, with the 16-bit wrap of `coord_t` |
| UiDefs.Translate | uidefs.h:66 | adding an offset to a point; `UiDefs.TranslateRoundTrip` and `UiDefs.DifferenceRoundTrip` state what it means |
| UiDefs.DifferenceRoundTrip | uidefs.h:66-71 | `q + (p - q) == p` for every pair of points, wrap included |
| UiDefs.EmptyIffCoversNothing | uidefs.h:98 | `empty()` holds exactly when the rectangle covers no cell |
| UiDefs.ContainsIffCovers | uidefs.h:101-103 | the unsigned-difference test of `contains` is interval membership for a rectangle whose far edges fit the coordinate range |
| UiDefs.Contains | uidefs.h:101-103 | the unsigned-difference test; `UiDefs.ContainsIffCovers` states that it is interval membership |
| UiDefs.MoveBy | uidefs.h:105 | `move_by` keeps the size and translates the origin |
| UiDefs.Clip | uidefs.h:108-115 | the clipped rectangle lies inside the clipping one |
| UiDefs.ClipIsIntersection | uidefs.h:108-115 | a cell is in `a.clip(r)` exactly when it is in both `a` and `r` |
| UiDefs.ClipWithinUnchanged | uidefs.h:108-115 | clipping a rectangle already inside leaves it unchanged |
| UiDefs.ClipIdempotent | uidefs.h:108-115 | clipping twice is clipping once |
| UiDefs.RGBAChannels | uidefs.h:129-130 | the four channels read back from a packed RGBA value are red, green, blue and alpha |
| UiDefs.RGBPackedAgrees | uidefs.h:131-136 | packing `0xRRGGBB` with the byte swap gives the same colour as passing the channels |
| UiDefs.KModMiddleRightVanish | uidefs.h:223-224 | as written, the Middle and Right mouse modifiers are both zero (see Findings) |
| UiDefs.KModBitsDistinct | uidefs.h:216-226 | with the shift restored, the seven modifiers are distinct non-zero bits inside the modifier mask |
| UiDefs.SplitKey | uidefs.h:225-232 | a key code splits into a modifier part and a key part that are disjoint and together give the code back |
| UiDefs.TypeRangesEnumerated | uidefs.h:384-416 | `is_parented`, `is_decoless` and `is_popup` admit exactly the listed window types, and popups are parented and decoration-less |
| Ints.WrapI16 | uidefs.h:14 | storing into `coord_t` keeps a value that fits and otherwise changes it by a multiple of 65536 |
| Ints.WrapU16 | uidefs.h:15 | storing into `dim_t` keeps a value that fits and otherwise changes it by a multiple of 65536 |
| Ints.WrapI16Congruent | uidefs.h:14 | values congruent modulo 65536 are stored as the same `coord_t` |
| TermSurface.SetBit | termscr.cc:623-633 | `set_bit` gives the bit the new value and keeps the other seven |
| TermSurface.GetBit | termscr.cc:271-272 | reading one attribute bit; `TermSurface.SetBit` states that it reads back what `set_bit` wrote |
| TermSurface.AssignByte | termscr.h:40 | assigning a `char` sets the first byte, zeroes the second and keeps the rest |
| TermSurface.AssignChar | termscr.h:41-46 | a character below `GChar::Last` is stored as a byte; anything else as a UTF-8 sequence, whose lead byte is at least 0xC0 |
| TermSurface.AssignCharReadsBack | termscr.h:41-46 | a stored character can be read back, either as its byte or by decoding the cell's UTF-8 |
| TermSurface.IsAscii | termscr.h:49 | `is_ascii` is a printable first byte; `DiffRender.Substitute` states that such a cell is sent unchanged |
| TermSurface.Set | termscr.h:72-77 | writing one cell changes that cell and no other |
| TermSurface.Blank | termscr.h:71-79 | `resize` then `clear` gives a surface of the new size whose every cell is the default cell |
| TermSurface.SetInside | termscr.h:72-77 | writing a cell inside a rectangle leaves every cell outside it alone |
| Utf8.SeqLen | termscr.cc:503-505 | the length announced by a lead byte matches its marker class, and a byte below 0xC0 stands alone |
| Utf8.Encode | termscr.h:41-46 | an encoding announces its own length in its lead byte, and ASCII encodes as itself |
| Utf8.EncodeRoundTrip | termscr.cc:503-507 | decoding an encoded character in any context gives it back and consumes exactly its bytes |
| Utf8.EncodeAllRoundTrip | termscr.cc:503-507 | decoding a concatenation of encodings gives the characters back |
| Utf8.AsciiDecodesToItself | termscr.cc:503-507 | a pure ASCII byte string decodes to itself |
| Drawlist.WriteCmd | draw.h:93-106 | a written command is one 4-aligned frame with the opcode, `a1` and the arguments; a payload of more than 65535 words writes nothing |
| Drawlist.PackAlignmentRoundTrip | draw.h:107-108 | dispatch (`a1 & 3`, `a1 >> 2`) recovers both alignments from the packed byte |
| Drawlist.Encode | draw.h:97-165 | a writer call whose arguments fit the 16-bit word count is one whole frame with its opcode, parameter byte and arguments; a call whose arguments do not fit writes nothing |
| Drawlist.FitsExactly | draw.h:97-104 | only a string can overflow the word count: text fits exactly up to 262135 bytes and edit text up to 262131, and every other call always fits |
| Drawlist.Kept | draw.h:100-101 | the calls the writer does not drop, never more than were written, and all of them when every call fits |
| Drawlist.KeptFits | draw.h:100-101 | every call kept fits and is one of the calls written |
| Drawlist.EncodeAll | draw.h:93-165 | a writer's stream is a sequence of whole frames |
| Drawlist.ValidateWith | draw.h:173-186 | validation reports a length no longer than the stream |
| Drawlist.ValidateWithAligned | draw.h:173-186 | validation stops on a command boundary, so the reported length is 4-aligned |
| Drawlist.ValidateNext | draw.h:176-183 | a command whose declared size fits and that its checker agrees with advances validation by exactly its length; any other command ends validation where it starts |
| Drawlist.ValidateLoop | draw.h:173-186 | the loop of `validate_with_func` computes that length, and the prefix it measures consists of accepted commands |
| Drawlist.ValidateWholeIffAccepted | draw.h:173-186 | the whole stream validates exactly when every command in it is accepted |
| Drawlist.ValidateAppend | draw.h:173-186 | validation of a concatenation continues where an accepted prefix ends |
| Drawlist.ValidatedPrefixAccepted | draw.h:173-186 | the measured prefix consists of accepted commands |
| Drawlist.ValidateIsLongestAcceptedPrefix | draw.h:173-186 | no longer prefix consists of accepted commands |
| Drawlist.ValidateCmd | draw.h:187-211 | the checker validates no more than the payload, and accepts an unknown opcode on its declared length |
| Drawlist.Validate | draw.h:214-215 | `validate` reports a 4-aligned prefix length |
| Drawlist.ValidateAcceptsUnknown | draw.h:208-209 | a command with an opcode beyond the base set passes on its declared length, and validation goes on after it |
| Drawlist.BaseCallValidates | draw.h:187-211 | the base checker accepts the arguments of every base call that fits, and the validator accepts every byte one base writer call produces |
| Drawlist.DispatchCmd | draw.h:236-261 | dispatch makes one sink call for a known opcode and none for an unknown one |
| Drawlist.BaseCallDispatches | draw.h:236-261 | dispatching what a base writer call produced gives exactly that call back, or nothing when its arguments did not fit |
| Drawlist.DispatchSkipsUnknown | draw.h:236-261 | an unknown command produces no call, and dispatch goes on after it |
| Drawlist.DispatchOnePerCommand | draw.h:224-233 | dispatch makes at most one call per whole command, and exactly one when every opcode is known |
| Drawlist.DispatchAppend | draw.h:224-233 | dispatching a concatenation of whole-command streams concatenates the calls |
| Drawlist.Dispatch | draw.h:224-233 | the base dispatcher; `Drawlist.DispatchOnePerCommand` and `Drawlist.WriteValidateDispatch` state what it gives |
| Drawlist.DispatchGraphic | draw.h:333-350 | the graphic dispatcher; `Drawlist.GraphicWriteValidateDispatch` states what it gives |
| Drawlist.WriteValidateDispatch | draw.h:93-266 | writing any sequence of base calls gives a stream that validates whole and dispatches back to the calls that fit, in order |
| Drawlist.GraphicValidateCmdAsWritten | draw.h:318-329 | as written, the graphic checker never measures more than the payload, and it answers nothing for opcodes whose signature lookup reads past the table (see Findings) |
| Drawlist.GraphicValidateAsWrittenRanges | draw.h:325-328 | as written, base opcodes pass on their declared length, opcodes 20 to 36 read past the three signatures, and only opcodes 17 to 19 and from 37 get the corrected checker's answer |
| Drawlist.GraphicValidateAcceptsShortText | draw.h:325-327 | as written, the graphic checker accepts a whole Text command whose string overruns its payload, while the base validator and the corrected graphic validator reject it |
| Drawlist.GraphicValidateCmd | draw.h:318-329 | with base opcodes handed to the base checker, the graphic checker agrees with it below `Cmd::Last` and accepts unknown opcodes on length |
| Drawlist.GraphicValidateAgreesOnBase | draw.h:318-333 | the corrected graphic validator measures every stream exactly as the base validator does |
| Drawlist.GraphicDispatchCmd | draw.h:338-346 | graphic dispatch handles its own three opcodes, passes base opcodes to the base dispatcher and ignores the rest |
| Drawlist.GraphicCallRoundTrip | draw.h:293-346 | every graphic writer call (`define_color`, `palette`, `palette3`) fits, is accepted by the corrected graphic checker and is dispatched back to itself |
| Drawlist.GraphicWriteValidateDispatch | draw.h:282-350 | any sequence of base and graphic calls validates whole under the corrected graphic checker and dispatches back, through the graphic drawlist, to the calls that fit |
| Drawlist.GraphicEncodeRoundTrip | draw.h:282-350 | one written call is accepted whole by the corrected graphic checker and dispatched back by the graphic drawlist, or leaves nothing when it did not fit |
| RenderTarget.Reset | termscr.cc:590-597 | the window part of `Draw_reset`: the full interior viewport, the default pen at the origin, a hidden caret and a blank surface |
| RenderTarget.OnResize | termscr.cc:599-605 | on resize the window takes the new area and a viewport covering it |
| RenderTarget.SetFeature | termscr.cc:623-633 | enabling or disabling a feature sets its attribute bit, and nothing else in the window changes |
| RenderTarget.MoveTo | termscr.cc:635-637 | the pen moves to the point relative to the viewport origin, and nothing else changes |
| RenderTarget.MoveBy | termscr.cc:638 | moving back by the same offset returns the old pen, and nothing else changes |
| RenderTarget.SetViewport | termscr.cc:639-644 | the new viewport covers exactly the cells in both the request and the interior, and the pen goes to its origin |
| RenderTarget.MaskColor | termscr.cc:646-653 | a colour is masked into the palette size of the screen's depth, and colours already in range are kept |
| RenderTarget.ClipColor | termscr.cc:646-653 | below 16 colours the bright half sets the given attribute; the default colour passes unmasked; other attributes are kept |
| RenderTarget.BrightTextIsBold | termscr.cc:646-656 | on an 8-colour terminal a bright text colour becomes its base colour in bold |
| RenderTarget.BrightFillIsBlink | termscr.cc:646-658 | on an 8-colour terminal a bright fill colour becomes its base colour with blink |
| RenderTarget.CellFromChar | termscr.h:152 | the pen cell with only the character replaced |
| RenderTarget.DrawChar | termscr.cc:660-665 | the character's cell is written only when the pen is inside the viewport, no other cell changes, and the pen advances one column |
| RenderTarget.BarCell | termscr.cc:667-687 | a blank takes the pen's background and attributes; any other character its foreground plus its attributes |
| RenderTarget.PaintRect | termscr.cc:667-687 | every cell in the rectangle gets its bar cell, and nothing outside changes |
| RenderTarget.PaintRectLoop | termscr.cc:675-686 | the nested row and column loops compute that painted surface |
| RenderTarget.CharBar | termscr.cc:667-687 | the part of the rectangle at the pen that is inside the viewport is painted; the rest of the window is unchanged |
| RenderTarget.Bar | termscr.cc:833-834 | a bar of blanks paints only inside the viewport and keeps the pen |
| RenderTarget.Clear | termscr.cc:776-780 | every viewport cell is blanked with the pen's background, and the pen goes to the viewport origin |
| RenderTarget.LineRect | termscr.cc:782-811 | the line is one cell thick and as long as the offset |
| RenderTarget.Line | termscr.cc:782-811 | the line's cells inside the viewport get the line character; the pen ends at the line's end |
| RenderTarget.Box | termscr.cc:813-831 | a box paints only inside the viewport and keeps the pen colour and caret |
| RenderTarget.BoxReturnsPen | termscr.cc:813-831 | the four sides drawn clockwise bring the pen back to where it started |
| RenderTarget.FindNewline | termscr.cc:713-715 | the result is the first newline at or after the start, or the end when there is none |
| RenderTarget.WideText | termscr.cc:700-701 | the character buffer has one slot per byte of the string |
| RenderTarget.WriteRow | termscr.cc:745-751 | the characters land on their cells of the row, and every other cell is unchanged |
| RenderTarget.TextLine | termscr.cc:716-754 | drawing one line of text changes nothing outside the viewport |
| RenderTarget.TextLines | termscr.cc:713-754 | drawing the lines of a text from a given line on changes nothing outside the viewport |
| RenderTarget.EditText | termscr.cc:689-767 | `Draw_edit_text` paints only inside the viewport and keeps the pen colour |
| RenderTarget.SingleLineText | termscr.cc:689-767 | a single ASCII line that fits lands character by character on the pen's row, the pen moves past it and the caret goes to character `cp` |
| RenderTarget.FittingLine | termscr.cc:716-754 | a line starting inside the viewport and fitting it is written whole, with the caret at character `cp` |
| RenderTarget.RowVisible | termscr.cc:719 | the unsigned row test is interval membership in the viewport |
| RenderTarget.Text | termscr.cc:769-774 | `Draw_text` paints only inside the viewport and leaves the caret where it was |
| RenderTarget.Panel | termscr.cc:836-871 | every panel type paints only inside the viewport and keeps the pen colour and caret |
| RenderTarget.Apply | draw.h:236-261 | every drawlist call keeps the window valid, and every call but reset and viewport paints only inside the viewport |
| RenderTarget.ScreenDraw | termscr.cc:873-878 | replaying a drawlist onto a reset window keeps it valid and keeps its area |
| RenderTarget.Run | termscr.cc:873-878 | replaying a drawlist call by call keeps the window valid and its area |
| RenderTarget.RunPaintsInsideViewport | termscr.cc:873-878 | a drawlist that neither resets nor sets the viewport leaves every cell outside the viewport as it was |
| RenderTarget.RunKeepsViewportInside | termscr.cc:639-644 | whatever a drawlist does, the viewport stays inside the window's interior |
| DiffRender.Digits | termscr.cc:318-320 | `%u` writes at least one byte, and only decimal digits |
| DiffRender.DigitsRoundTrip | termscr.cc:318-320 | the digits `%u` writes read back as the number |
| DiffRender.ResetBytes | termscr.cc:24-37 | the reset writes SI, `ESC[0;39;49m`, `ESC[H` and `ESC[J`, byte for byte |
| DiffRender.Serialize | termscr.cc:24-37 | text is written as it is, and every other operation but a shift and an empty SGR starts with the CSI introducer |
| DiffRender.ScreenReset | termscr.cc:127-135 | `reset` leaves a valid blank cache of the same size, with the caret state unchanged, and emits the reset sequence |
| DiffRender.ResetOpsEffect | termscr.cc:127-135 | on any terminal the reset sequence puts the cursor home, selects the default pen and erases every cell |
| DiffRender.ResetSyncs | termscr.cc:127-135 | whatever the terminal showed, after a reset it is in step with the compositor's cache |
| DiffRender.CaretState | termscr.cc:137-143 | `caret_state` records the new visibility and emits a sequence exactly when the visibility changes |
| DiffRender.Substitute | termscr.cc:244-255 | a printable ASCII cell is kept; a graphic character becomes its alternate-set symbol with the alternate-set bit; a control character becomes `?` blinking grey on red |
| DiffRender.AssignCharDrawable | termscr.h:41-46 | every character the render target stores gives a cell the renderer can display |
| DiffRender.AttrCode | termscr.cc:261-272 | an attribute gets one code exactly when it changed, and that code is never a colour selector |
| DiffRender.AttrParams | termscr.cc:268-272 | the attribute codes are empty exactly when none of bold, italic, underline, blink and reverse changed |
| DiffRender.AttrParamsReach | termscr.cc:261-272 | the attribute codes take the terminal's pen to the new cell's attributes and keep the alternate-set bit |
| DiffRender.ColorParams | termscr.cc:275-302 | a colour change produces one to three parameters, and none when the colour is unchanged |
| DiffRender.SgrParams | termscr.cc:258-302 | the SGR parameters are empty exactly when the attributes and both colours agree |
| DiffRender.SgrReachesCur | termscr.cc:258-330 | with corrected bright offsets, the SGR sequence takes a terminal showing the last cell's rendition to the new cell's in every attribute and both colours |
| DiffRender.BrightColorAsWrittenMisreads | termscr.cc:289-293 | as written, bright text colour 10 is sent as code 100, which selects a background (see Findings) |
| DiffRender.BrightColorCorrected | termscr.cc:289-293 | with the offset corrected, the same colour is sent as 92, bright green text |
| DiffRender.RewriteCells | termscr.cc:308-315 | the corrected reprint candidates are the skipped cells of the same row, in order |
| DiffRender.RewriteCount | termscr.cc:310-315 | reprinting stops at the first skipped cell that cannot be reprinted in the current rendition |
| DiffRender.ReprintShowsSame | termscr.cc:310-315 | reprinting cells the terminal already shows, in the current pen, changes nothing but the cursor |
| DiffRender.MoveEffect | termscr.cc:304-322 | with the earlier cells finished, the corrected cursor movement moves the cursor to the cell and changes nothing on the screen |
| DiffRender.Move | termscr.cc:304-322 | the cursor movement to a cell; `DiffRender.MoveEffect` states where it leaves the terminal's cursor |
| DiffRender.Rendition | termscr.cc:324-334 | nothing is sent exactly when the two renditions agree, and what is sent is only SGR and shift operations |
| DiffRender.RenditionEffect | termscr.cc:324-334 | the corrected rendition change takes the terminal's pen from the last cell's to the new cell's |
| DiffRender.CellStep | termscr.cc:241-347 | drawing one changed cell keeps the cache valid, its size and the caret state |
| DiffRender.CellStepSynced | termscr.cc:241-347 | one changed cell drawn by the corrected renderer keeps the terminal in step with the cache and leaves the rest of the screen alone |
| DiffRender.NextCell | termscr.cc:349-355 | the loop moves to the next column, or to the start of the next row at the window's right edge |
| DiffRender.Visit | termscr.cc:241-347 | drawing one cell, changed or not, keeps the cache valid, its size and the caret state |
| DiffRender.DrawFrom | termscr.cc:238-356 | the cell loop from a given cell keeps the cache valid, its size and the caret state |
| DiffRender.CaretStep | termscr.cc:357-364 | placing the caret changes neither the cache nor the last rendition |
| DiffRender.CaretStepSynced | termscr.cc:357-364 | placing the caret keeps the terminal in step |
| DiffRender.DrawWindowAsWritten | termscr.cc:228-368 | `draw_window` as written keeps the cache valid and its size |
| DiffRender.DrawWindow | termscr.cc:228-368 | the corrected `draw_window` keeps the cache valid and its size |
| DiffRender.DrawWindowShowsWindow | termscr.cc:228-368 | after the corrected `draw_window` the terminal shows every cell of the window, as substituted for display, and is still in step with the cache, which is unchanged outside the window |
| DiffRender.DrawFromDone | termscr.cc:238-356 | the cell loop, as written or corrected, leaves every window cell in the cache |
| DiffRender.DrawWindowIdempotent | termscr.cc:228-368 | drawing the same window again at once sends nothing and changes nothing |
| DiffRender.RewriteIgnoresColoursAsWritten | termscr.cc:312 | as written, an unchanged cell with another background is reprinted in the current colours, and the terminal no longer matches the cache (see Findings) |
| DiffRender.RewriteColoursCorrected | termscr.cc:312 | comparing colours too, the same move becomes a skip |
| DiffRender.RewriteCrossesRowAsWritten | termscr.cc:308-311 | as written, a one-column move at the start of a window row reprints the previous row's last cell outside the window (see Findings) |
| DiffRender.RewriteRowCorrected | termscr.cc:308-311 | limiting the reprint to the same row, the same move becomes a skip |
| Compositor.FindWindow | termscr.cc:201 | the result is the first window with that id, or none when no window has it |
| Compositor.Half | termscr.cc:218 | C++ division by two, truncating toward zero for negative values |
| Compositor.PositionWindow | termscr.cc:198-223 | the area returned always lies inside the screen and is already clipped to it |
| Compositor.ToplevelCentred | termscr.cc:214-218 | a toplevel window that fits is centred horizontally and placed against the bottom of the screen |
| Compositor.ZeroSizeFillsScreen | termscr.cc:208-212 | a toplevel window asking for no size gets the whole screen |
| Compositor.ChildAtParentOffset | termscr.cc:205-207 | a child window other than a dialog keeps its size at its offset from its parent when that lies on the screen |
| Compositor.DialogCentredOnParent | termscr.cc:214-218 | a dialog no larger than its parent is centred across the parent and put against its bottom edge |
| Compositor.DrawAll | termscr.cc:193-194 | drawing every window in order, with `draw_window` as written or corrected, keeps the cache valid and its size |
| Compositor.DrawAllSynced | termscr.cc:193-194 | with the corrected `draw_window`, drawing the windows in order keeps the terminal in step, and the topmost window is shown whole |
| Compositor.RedrawAll | termscr.cc:185-196 | the reset and redraw after unregistering, with `draw_window` as written or corrected, keeps the cache valid and its size |
| Compositor.RedrawAllSynced | termscr.cc:185-196 | with the corrected `draw_window`, whatever the terminal showed, the reset and redraw leave it in step, with the topmost window on top |
| DrawSync.Draw | termscr.cc:880-889 | a draw starts exactly when none is in progress and the window is in use, and then clears the pending flag; otherwise it only marks a draw pending |
| DrawSync.OnEvent | termscr.cc:569-579 | an unused window ignores every event; the use flag never changes |
| DrawSync.InvPreserved | termscr.cc:569-579 | drawing and event handling keep the invariant that a pending draw of a window in use always has a frame in progress whose sync will start it |
| DrawSync.OneFrameInFlight | termscr.cc:569-579 | a draw starts only when no frame is in flight, or from a sync that ends one with a draw pending |
| DrawSync.DrawsCoalesce | termscr.cc:569-579 | any number of draw requests during a frame leave one pending draw, and the sync that ends the frame starts exactly one and is not passed on |
| DrawSync.DrawN | termscr.cc:880-889 | draw requests in a row; `DrawSync.DrawsCoalesce` states that during a frame they leave one pending draw |
| DrawSync.SyncWithoutPending | termscr.cc:573-578 | with no draw pending, the sync ends the frame and is passed on to the owner |
| DrawSync.OtherEventsForwarded | termscr.cc:573-578 | other events, and syncs outside a frame, are passed on and change nothing |
| DrawSync.CountBusy | termscr.cc:397-398 | the number of windows in a frame or with a draw pending, zero exactly when no window is |
| DrawSync.Syncs | termscr.cc:399 | sync events delivered to one window keep its use flag |
| DrawSync.SyncAllAsWritten | termscr.cc:396-399 | as written, every window but the topmost keeps its flags after the sync loop (see Findings) |
| DrawSync.SyncAllCorrected | termscr.cc:396-399 | with each busy window given its own sync, every window has one result |
| DrawSync.SyncAllCorrectedEndsFrames | termscr.cc:396-399 | with each busy window given its own sync, every window in use ends its frame: nothing stays pending, and a window is drawing again exactly when it had a draw pending |
| DrawSync.SyncAllAgreesWhenOnlyTopBusy | termscr.cc:396-399 | when no window below the topmost is busy, the loop as written and the corrected one agree |
| DrawSync.SyncAllAsWrittenStrands | termscr.cc:396-399 | as written, a lower window in a frame never gets its sync, so its frame never ends and its next draw is only marked pending, while the idle top window passes a sync on to its owner |
| InputDecoder.ModifiersAgree | uidefs.h:218-220 | the decoder's Ctrl and Alt values are the toolkit's modifier bits |
| InputDecoder.TableShape | termscr.cc:427-478 | every escape table entry is two to four bytes long |
| InputDecoder.IsPrefix | termscr.cc:483-490 | the inner loop answers whether the entry is a prefix of the input, failing past its end |
| InputDecoder.MatchEscapeSequence | termscr.cc:422-493 | the answer is the first entry, in table order, that is a prefix of the input, or none when no entry is |
| InputDecoder.FirstMatch | termscr.cc:480-492 | the reference for that search: a matching entry with no earlier match, or no match at all |
| InputDecoder.FirstMatchIs | termscr.cc:480-492 | an entry that matches with no earlier entry matching is the decoder's answer |
| InputDecoder.DecodeOne | termscr.cc:500-536 | one loop iteration consumes between one byte and the whole buffer, or the loop stops |
| InputDecoder.DecodeStops | termscr.cc:503-524 | the loop stops exactly at an incomplete character, or at an unknown escape in a full buffer |
| InputDecoder.EscapeOutcomes | termscr.cc:518-530 | after ESC the key is a table entry with its length, a wait in a full buffer, Alt plus a printable byte, or Escape |
| InputDecoder.CtrlLetters | termscr.cc:516-517 | control bytes other than backspace, tab and newline are Ctrl plus the matching letter |
| InputDecoder.ParseFrom | termscr.cc:500-538 | as written, the bytes left are a suffix of the buffer, and at most one key is produced per byte consumed |
| InputDecoder.HeldSkip | termscr.cc:503-507 | the bytes the loop has already skipped when it stops: none for an incomplete character, otherwise the whole character (the ESC) |
| InputDecoder.ParseFromCorrected | termscr.cc:500-538 | the loop keeping a held escape whole leaves a suffix of the buffer and produces at most one key per byte consumed |
| InputDecoder.ParseKeysAgree | termscr.cc:507-537 | the loop as written and the corrected loop produce the same keys, and their leftovers differ only by the skipped ESC of a held escape |
| InputDecoder.UnfilledAgree | termscr.cc:523-524 | when the read did not fill the buffer, the two loops are the same |
| InputDecoder.ParseCorrectedStopsAtHold | termscr.cc:500-538 | the corrected loop leaves nothing, or a buffer at whose start decoding stops |
| InputDecoder.ParseKeycodes | termscr.cc:495-540 | nothing is read while no window is mapped on top; otherwise the keys are those of the corrected loop, and what is left is nothing, an incomplete character, or the bytes after an escape held in a full buffer, whose ESC is lost |
| InputDecoder.ParseStopsAtHold | termscr.cc:500-538 | as written, what is left is nothing, an incomplete character, or the bytes after an escape that the table could not complete in a full buffer |
| InputDecoder.ParseStep | termscr.cc:500-538 | parsing is one decoded key followed by the parse of the rest |
| InputDecoder.CharacterDecodes | termscr.cc:503-507 | a character from U+0080 up arrives whole as its own key code, and the rest follows |
| InputDecoder.PartialCharacterKept | termscr.cc:503-505 | the leading bytes of a multi-byte character are all kept for the next read |
| InputDecoder.UpArrowDecodes | termscr.cc:518-522 | `ESC [ A` is the Up key whether or not the buffer is full |
| InputDecoder.SplitUpArrowAsWritten | termscr.cc:507-537 | as written, an Up arrow split after `ESC [` by a full read loses the ESC, and the next read yields the keys `[` and `A` (see Findings) |
| InputDecoder.SplitUpArrow | termscr.cc:523-524 | with the ESC kept, an Up arrow split after `ESC [` by a full read is held whole and completed by the next read |
| InputDecoder.SplitUpArrowUnfilled | termscr.cc:525-528 | the same two bytes from a read that did not fill the buffer are taken as Alt+`[` |
| CStr.LessIrreflexive | settings.h:25 | no string compares below itself under `strcmp` |
| CStr.LessAsymmetric | settings.h:25 | two strings never compare below each other both ways |
| CStr.LessTotal | settings.h:25 | two different strings compare one way or the other, so `strcmp` orders names and paths totally |
| CStr.LessTransitive | settings.h:25 | the `strcmp` order is transitive |
| CStr.PrefixNotLess | settings.cc:340-345 | a string never sorts before its own prefix, so `match` can start at the lower bound |
| CStr.PrefixBlockEnds | settings.cc:340-345 | the strings starting with a prefix are contiguous in `strcmp` order, so `match` may stop at the first one that does not |
| CStr.Find | settings.cc:479 | `memchr`/`strchr` gives the first position of the byte, or none when it is absent |
| CStr.FindLast | settings.h:105 | `strrchr` gives the last position of the byte, or none when it is absent |
| CStr.SkipSpaces | settings.cc:424 | the first loop of `trim_spaces` stops at the first byte that is not a blank, passing only blanks |
| CStr.DropSpaces | settings.cc:425 | the second loop drops only trailing blanks and never passes the start |
| CStr.TrimBounds | settings.cc:421-427 | the trimmed part starts and ends with no blank, and only blanks are cut off either side |
| CStr.Trim | settings.cc:421-427 | `trim_spaces` over a whole string gives a string with no blank at either end and no longer than the input; `CStr.TrimBounds` states that only blanks are cut and `CStr.TrimPadded` that padding comes off exactly |
| CStr.TrimPadded | settings.cc:418-427 | trimming a trimmed string padded with blanks gives it back |
| CStr.SplitOfJoin | cwidgets.cc:175-179 | splitting NUL-terminated items gives the items back, as `zstr::cii` walks them |
| CStr.LinesOfJoin | settings.cc:449-456 | splitting newline-terminated lines gives them back, as `read_ini`'s loop visits them |
| SettingsKey.FindEntry | settings.cc:71-72 | `get_entry` gives the first entry with the name, or none when no entry has it |
| SettingsKey.Lookup | settings.cc:71-72 | `get_entry` on a key: an entry found has the name, and none is found only when no entry has it |
| SettingsKey.SortedFind | settings.cc:71-72 | in a sorted key every entry is the one its name finds |
| SettingsKey.InsertionPoint | settings.cc:169-173 | the scan stops at the first entry whose name is not below the new name, passing only smaller names |
| SettingsKey.InsertionPointFinds | settings.cc:169-173 | in a sorted key an existing entry with the name sits at the insertion point, and every later name is above it |
| SettingsKey.SetEntry | settings.cc:164-196 | the result holds only old entries or the named one, and keeps every entry with another name |
| SettingsKey.SetEntryLookup | settings.cc:164-196 | the entries stay sorted; the name finds the new value, or nothing when none is given; every other name finds what it found before; the count grows only for a new name and shrinks only for a deleted one |
| SettingsKey.SetEntryAsWritten | settings.cc:164-196 | `set_entry` as written keeps only old entries or the named one, and every entry with another name (see Findings) |
| SettingsKey.SetEntryAsWrittenLookup | settings.cc:164-196 | as written, the entries stay sorted, every other name finds what it found, and the name finds nothing when no value is given, else the value with a description that is erased when none is given, kept when one is given for an existing entry, and taken for a new one |
| SettingsKey.SetEntryRulesAgree | settings.cc:190-195 | the written and the corrected rule differ only for an existing entry, and only in its description: when none is given, or when a different one is given |
| SettingsKey.SetEntryDescriptionAsWritten | settings.cc:193-194 | as written, updating a value without a description erases the old description, and a new description is dropped |
| SettingsKey.SetEntryDescriptionCorrected | settings.cc:191-194 | corrected, the old description is kept when none is given and replaced when one is |
| SettingsKey.DeleteEntry | settings.h:174-175 | deleting keeps the key sorted, the name finds nothing afterwards, and every other name is unaffected |
| SettingsKey.GetEntryStr | settings.cc:82-88 | a missing entry reads as the empty string |
| SettingsKey.GetEntryStrOr | settings.cc:90-96 | a missing entry reads as the default |
| SettingsKey.GetEntryInt | settings.cc:73-74 | a missing entry reads as the default |
| SettingsKey.IndexOf | settings.h:43-44 | `zstr::index` gives the first position of the value among the names, or the not-found value |
| SettingsKey.FormatLong | settings.cc:198-203 | `%ld` prints at least one character; `SettingsKey.AtolFormat` states that `atol` reads it back |
| SettingsKey.GetEntryEnum | settings.cc:79-80 | a missing entry reads as the default |
| SettingsKey.GetEntryBool | settings.cc:77-78 | a missing entry reads as the default |
| SettingsKey.SetEntryStr | settings.cc:212-215 | the entries stay sorted and other names keep their entries; the empty string deletes the entry, any other string is stored with no description |
| SettingsKey.SetEntryStrOr | settings.cc:217-220 | the same, with the default value deleting the entry instead of the empty string |
| SettingsKey.SetEntryInt | settings.cc:198-203 | the entries stay sorted and other names keep their entries; the default deletes the entry, any other number is stored in decimal, with the description as `set_entry` as written leaves it |
| SettingsKey.SetEntryEnum | settings.cc:222-225 | the entries stay sorted and other names keep their entries; the default enumerator deletes the entry, any other is stored as its name with no description |
| SettingsKey.SetEntryBool | settings.h:170-171 | the entries stay sorted and other names keep their entries; the default deletes the entry, any other value is stored as `true` or `false` with no description |
| SettingsKey.SetEntryArray | settings.cc:227-237 | the entries stay sorted and other names keep their entries; the array is always stored, as its `[`-separated text, with no description |
| SettingsKey.AtolFormat | settings.h:41 | `atol` reads back what `%ld` printed, negative numbers included |
| SettingsKey.Atol | settings.h:41 | `atol`; `SettingsKey.AtolFormat` states that it reads back every number `%ld` printed |
| SettingsKey.BoolValue | settings.h:40 | `bool_value`; `SettingsKey.BoolRoundTrip` states that it reads back what `set_entry_bool` stored |
| SettingsKey.IntRoundTrip | settings.cc:198-203 | `get_entry_int` after `set_entry_int` gives the value back, whatever the default |
| SettingsKey.StrRoundTrip | settings.cc:212-215 | `get_entry_str` after `set_entry_str` gives the string back |
| SettingsKey.StrOrRoundTrip | settings.cc:217-220 | the same with a default, whatever the default |
| SettingsKey.EnumRoundTrip | settings.cc:222-225 | `get_entry_enum` after `set_entry_enum` gives the enumerator back |
| SettingsKey.BoolRoundTrip | settings.h:170-171 | `get_entry_bool` after `set_entry_bool` gives the value back, whatever the default |
| SettingsKey.ArrayText | settings.cc:227-237 | the stored array text ends in `]` |
| SettingsKey.GetEntryArray | settings.cc:114-137 | `get_entry_array` with the scan resuming at the separator; `SettingsKey.ArrayRoundTrip` states that it reads back what `set_entry_array` stored |
| SettingsKey.GetEntryArrayAsWritten | settings.cc:114-137 | `get_entry_array` as written; `SettingsKey.ArrayLosesByteAsWritten` states the input it misreads (see Findings) |
| SettingsKey.ArrayRoundTrip | settings.cc:114-137 | with the scan resuming at the separator, `get_entry_array` gives back the array `set_entry_array` stored |
| SettingsKey.ArrayLosesByteAsWritten | settings.cc:125-132 | as written, `[ab,cd]` reads back as `ab` and `d` (see Findings) |
| SettingsKey.SubtractEntries | settings.cc:39-46 | subtracting keeps only entries that were there |
| SettingsKey.SubtractStep | settings.cc:41-44 | one pass of `subtract`'s loop keeps the entries sorted, and what the remaining passes leave of a name is what all of them leave |
| SettingsKey.SubtractLookup | settings.cc:39-46 | after `subtract` the entries stay sorted, and a name is gone exactly when the other key gives it the same value |
| SettingsKey.Subtract | settings.cc:39-46 | `subtract` keeps the path, file name and time and only entries it had; for sorted keys the entries stay sorted, and a name finds nothing exactly when the other key holds it with the same value, otherwise what it found before |
| SettingsKey.MergeLookup | settings.cc:48-57 | after merging, the entries stay sorted, a name of the other key finds its value with the description `set_entry` as written leaves, and every other name what it found |
| SettingsKey.MergeLookupAll | settings.cc:48-57 | the same for every name at once |
| SettingsKey.Merge | settings.cc:48-57 | `merge` keeps the path, takes the other key's file name when it has one and the later of the two times, and for sorted keys keeps the entries sorted with every name finding the merged entry |
| SettingsKey.Name | settings.h:105 | `name()` is the part of the path after its last `/`, or the whole path |
| SettingsKey.Strings | settings.cc:14-21 | a key is stored as its path, its file name, then three strings per entry |
| SettingsKey.PackedKeyValid | settings.cc:59-69 | every key packs into a block `is_valid` accepts, and the block unpacks to the key |
| SettingsKey.ValidBlockPacks | settings.cc:59-69 | a block `is_valid` accepts is exactly the packing of the key it holds |
| Settings.OrderedIsValid | settings.cc:294-300 | the store's strict order is what `is_valid` checks, together with no two neighbours sharing a path |
| Settings.IsValid | settings.cc:294-300 | `is_valid`; `Settings.OrderedIsValid` states it is the store's strict order less neighbours sharing a path |
| Settings.FindKey | settings.h:244-245 | the first key with the path, or none when no key has it |
| Settings.GetKey | settings.h:244-245 | a key found has the path, and none is found only when no key has it |
| Settings.OrderedFind | settings.h:244-245 | in an ordered store `get_key` finds every key by its path |
| Settings.LowerBound | settings.cc:304 | `lower_bound` is the first key whose path is not below the given one |
| Settings.LowerBoundFinds | settings.cc:304-305 | in an ordered store a key with the path sits at the lower bound, and every later path is above it |
| Settings.SetKey | settings.cc:320-327 | `set_key` replaces a key or inserts one |
| Settings.SetKeyLookup | settings.cc:320-327 | after `set_key` the store is ordered, the path finds the new key and every other path finds what it found before |
| Settings.MergeKey | settings.cc:302-309 | `merge_key` replaces a key or inserts one |
| Settings.MergeKeyLookup | settings.cc:302-309 | after `merge_key` the path finds the merge of the old key and the new one, and nothing else changes |
| Settings.SetKeysLookup | settings.h:237-238 | after `set_keys` every path of the other store finds its key, and every other path what it found before |
| Settings.SetKeys | settings.h:237-238 | `set_keys`, one `set_key` per key; `Settings.SetKeysLookup` states its effect |
| Settings.MergeAllLookup | settings.h:233-234 | after `merge`, every path of the other store finds the merge of both keys, and every other path what it found before |
| Settings.MergeAll | settings.h:233-234 | `merge`, one `merge_key` per key; `Settings.MergeAllLookup` states its effect |
| Settings.CreateKey | settings.cc:369-381 | the position returned holds a key with the path |
| Settings.CreateKeyLookup | settings.cc:369-381 | an existing key is left alone; otherwise the new key, with the first key's file name and time, is added in order and nothing else changes |
| Settings.DeleteKey | settings.cc:384-390 | the count returned is the number of keys whose path starts with the given one, and exactly those are removed: such a path finds nothing afterwards, every other path finds what it found, and the order is kept |
| Settings.UnprefixedLookup | settings.cc:384-390 | after deleting, paths starting with the given one find nothing and every other path finds what it found before |
| Settings.UnprefixedCount | settings.cc:384-390 | the number of keys removed is the number of keys whose path starts with the given one |
| Settings.SelectFrom | settings.cc:338-357 | the reference for `match`: exactly the keys on the path and within the depth |
| Settings.MatchFrom | settings.cc:340-356 | `match`'s loop; `Settings.MatchFromSelects` states that from the lower bound it selects what the reference selects |
| Settings.Match | settings.cc:338-357 | `match`; `Settings.MatchSelects` states that it gives exactly the keys on the path within the depth |
| Settings.MatchFromSelects | settings.cc:340-356 | the loop, started at the lower bound, selects what the reference selects |
| Settings.MatchSelects | settings.cc:338-357 | `match` into an empty store gives exactly the keys on the path within the depth, in order |
| Settings.SelectOrdered | settings.cc:338-357 | the matched keys keep the store's order |
| Settings.DirSize | settings.cc:397-398 | the directory part ends at the path's last `/`, or is empty without one |
| Settings.CreateAllPathsAsWritten | settings.cc:392-412 | as written, every original key is kept (see Findings) |
| Settings.CreateAllPathsAsWrittenMissesParent | settings.cc:403 | as written, `a/b.c` passes for the directory of `a/b/d`, which is left without its parent `a/b` |
| Settings.CreateAllPaths | settings.cc:392-412 | the corrected pass keeps the store ordered |
| Settings.CreateAllPathsSpec | settings.cc:392-412 | the corrected pass keeps every key as it was and leaves no key without its parent |
| Settings.CreateAllPathsCorrected | settings.cc:392-412 | corrected, the example's missing parent `a/b` is created |
| Ini.DescText | settings.cc:473-478 | the corrected description text of a `#` line always exists |
| Ini.OpenKey | settings.cc:460-471 | a header makes its key current and keeps the gathered description |
| Ini.AddEntry | settings.cc:479-486 | an entry line, stored by `set_entry` as written, keeps the current key and clears the gathered description |
| Ini.EntryLine | settings.cc:479-486 | a `name=value` line stores that entry in the current key |
| Ini.HeaderLine | settings.cc:460-471 | a `[path]` line opens the key it names |
| Ini.DescLine | settings.cc:473-478 | corrected, a `# text` line adds its text to the gathered description; `Ini.ReadLineRulesAgree` carries it to `read_ini` as written for a non-empty text |
| Ini.ReadLine | settings.cc:450-488 | corrected, reading a line never fails |
| Ini.ReadLines | settings.cc:449-488 | corrected, reading lines never fails |
| Ini.ReadIni | settings.cc:438-490 | corrected, `read_ini` always completes |
| Ini.ReadIniEmpty | settings.cc:440-445 | reading into an empty store starts from the root key alone, with the file's name and time |
| Ini.DescLines | settings.cc:505-508 | every description line is written behind `# ` |
| Ini.DescPieces | settings.cc:501-508 | the description cut at its newlines, no piece holding one |
| Ini.EntryLines | settings.cc:499-510 | an entry's description lines then `name=value`; `Ini.WriteReadIni` states that reading them back restores the entry |
| Ini.KeyLines | settings.cc:495-510 | the lines of the printed keys; `Ini.KeysRead` states that reading them appends every printed key |
| Ini.WriteIni | settings.cc:492-514 | `write_ini`; `Ini.WriteReadIni` states that `read_ini` gives back what it printed |
| Ini.DescRead | settings.cc:473-478 | corrected, reading back the `#` lines of a description adds the whole description |
| Ini.KeysRead | settings.cc:438-514 | corrected, reading the lines of ordered keys appends every printed key to the store |
| Ini.WriteReadIni | settings.cc:438-514 | with the corrected description reader, `read_ini` of what `write_ini` printed gives back the root key and every printed key with its entries, values and descriptions, under the file's name and time |
| Ini.DescOverrunAsWritten | settings.cc:474-478 | as written, the line `# ` gives a copy length of -1; corrected it is an empty description line (see Findings) |
| Ini.WriteIniBlankDescLine | settings.cc:500-509 | `write_ini` prints `# ` for an empty line inside a description |
| Ini.ReadIniBlankDescAsWritten | settings.cc:474-478 | as written, `read_ini` fails on what `write_ini` printed for a description with an empty line |
| Ini.ReadIniBlankDescCorrected | settings.cc:438-514 | corrected, the same text reads back the key and its described entry |
| Ini.ReadLineRulesAgree | settings.cc:473-478 | inside a key, a line that trims to a lone `#` followed by a blank stops `read_ini` as written; every other line reads exactly as the corrected reader reads it |
| Ini.ReadLinesRulesAgree | settings.cc:449-488 | over lines none of which is such a bare `#`, the as-written and corrected loops give the same result |
| Ini.DescPiecesFilled | settings.cc:501-508 | a writable description without an empty line is printed as lines that each hold text ending in a non-blank |
| Ini.KeyLinesNotBare | settings.cc:495-510 | keys whose descriptions have no empty line print no bare `#` line |
| Ini.WriteReadIniAsWritten | settings.cc:438-514 | `read_ini` as written gives back what `write_ini` printed, exactly as the corrected reader does, whenever no description has an empty line |
| Widgets.WidgetById | widget.cc:28-38 | a widget found by id has that id, and `wid_None` finds nothing |
| Widgets.WidgetByIdFirst | widget.cc:28-38 | `widget_by_id` finds the first widget with the id in preorder |
| Widgets.NewWidget | cwidgets.cc:318-331 | the factory keeps the layout, leaves the widget childless, unfocused and unforced, and makes it focusable exactly for the focusable control types |
| Widgets.AddRun | widget.cc:40-51 | the entries taken are exactly the run deeper than the parent's level, and every widget made has one area per child |
| Widgets.AddWidgets | widget.cc:40-51 | new children follow the existing ones, with one area per child, and the entries taken are exactly the deeper run |
| Widgets.AddRunFlattens | widget.cc:40-51 | every entry of the run becomes exactly one widget, and the tree flattens back to the entries in preorder |
| Widgets.DrawOrder | widget.cc:134-142 | drawing starts with the widget itself |
| Widgets.DrawOrderNoStack | widget.cc:134-142 | without a Stack, drawing visits every widget in preorder |
| Widgets.StackDrawsSelected | widget.cc:137-141 | a Stack draws itself and the subtree of its selected child, or nothing more when the selection is past the end |
| Widgets.FocusIds | widget.cc:151-152 | the neighbour search considers exactly the drawn widgets that have an id and can take focus |
| Widgets.FocusNeighborsFor | widget.cc:165-178 | `get_focus_neighbors_for(wid)` over the drawn focusable widgets; `Widgets.NeighborsFirst`, `Widgets.NeighborsLast`, `Widgets.NeighborsNext`, `Widgets.NeighborsPrev` and `Widgets.NoFocusableNeighbors` state the four neighbours and the wrap-around |
| Widgets.NeighborsFirst | widget.cc:147-178 | `first` is the lowest focusable id, or none when there is none |
| Widgets.NeighborsLast | widget.cc:147-178 | `last` is the highest focusable id, or none when there is none |
| Widgets.NeighborsNext | widget.cc:147-178 | `next` is the lowest focusable id above the given one, wrapping around to `first` |
| Widgets.NeighborsPrev | widget.cc:147-178 | `prev` is the highest focusable id below the given one, wrapping around to `last` |
| Widgets.NoFocusableNeighbors | widget.cc:165-178 | with no focusable widget drawn, every neighbour is `wid_None` |
| Widgets.NextThenPrev | widget.cc:147-178 | from a focusable id, the previous of the next is the id itself |
| Widgets.PrevThenNext | widget.cc:147-178 | from a focusable id, the next of the previous is the id itself |
| Widgets.FocusCycle | widget.h:136-137 | `next_focus` and `prev_focus` undo each other on a focusable drawn widget, when no drawn focusable id is `wid_None` or `wid_Last` |
| Widgets.NextFocus | widget.h:136 | `next_focus`; `Widgets.FocusCycle` and `Widgets.NeighborsNext` state what it selects |
| Widgets.PrevFocus | widget.h:137 | `prev_focus`; `Widgets.FocusCycle` and `Widgets.NeighborsPrev` state what it selects |
| Widgets.FocusIff | widget.cc:180-190 | after `focus(id)` a widget is focused exactly when its subtree holds a focusable widget with the id |
| Widgets.FocusOnlyFlags | widget.cc:180-190 | `focus` changes nothing but focus flags |
| Widgets.Focus | widget.cc:180-190 | `focus(id)`; `Widgets.FocusIff` and `Widgets.FocusOnlyFlags` state its effect |
| Widgets.FirstFocused | widget.cc:204 | the first focused child, or none exactly when no child is focused |
| Widgets.KeyRoute | widget.cc:195-209 | a key event reaches only widgets that can take focus |
| Widgets.BaseOnKey | widget.cc:211-218 | only a childless focusable widget with an id returns an unused key, and it returns the key it got |
| Widgets.RouteOnlyLastReturns | widget.cc:195-218 | along the focus path, only the last widget can return an unused key |
| Widgets.FocusRouteEnds | widget.cc:180-209 | after `focus(id)`, key events end at the widget with that id |
| Widgets.MeasureTextSpec | widget.cc:70-82 | the measured height is the number of lines and the width the longest line |
| Widgets.MeasureJoined | widget.cc:70-82 | measuring newline-terminated lines counts each of them and fits the longest |
| Widgets.MeasureText | widget.cc:70-82 | `measure_text`; `Widgets.MeasureTextSpec` states its result |
| Widgets.CountW | widget.h:102 | the count of horizontally expandable children is zero exactly when none is |
| Widgets.MaxHintW | widget.cc:102-106 | the widest child hint, which some child has, or 0 without children |
| Widgets.CountH | widget.cc:98-99 | the count of vertically expandable children is at most their number and zero exactly when none is |
| Widgets.MaxHintH | widget.cc:102-106 | the tallest child hint, which some child has, or 0 without children |
| Widgets.SetSizeHints | widget.h:157-158 | `set_size_hints` is ignored once the hints are forced, and changes nothing else |
| Widgets.SetForcedSizeHints | widget.h:104-105 | forced hints are set and pinned |
| Widgets.ComputeSizeHints | widget.cc:84-108 | a childless widget is unchanged; otherwise unless forced the hints are the largest child hints, and the expandable children are counted in a byte each way |
| Widgets.ComputeIdempotent | widget.cc:84-108 | computing the size hints a second time changes nothing |
| Widgets.ForcedHintsStick | widget.h:104-105 | forced hints survive a later `set_size_hints` and the size computation |
| Widgets.SetSelectionAt | widget.h:106-108 | `set_selection(f)` selects the one-item range from `f` and changes nothing else |
| Widgets.SetStackSelection | widget.h:112 | selecting a child records its index and id; an index past the last child is ignored |
| Widgets.StackSelectionDraws | widget.h:112 | after selecting a child of a Stack, drawing shows that child's subtree and no other |
| CWidgets.LabelSetText | cwidgets.cc:13-17 | a label stores its text; unless its hints are forced they become its measured text, and forced hints are kept; nothing else changes |
| CWidgets.OneLineHints | cwidgets.cc:13-55 | a one-line text gives a label its length, a button four more for `[ ` and ` ]`, a checkbox five more for `[x]` and two blanks, all one row high |
| CWidgets.ButtonSetText | cwidgets.cc:25-30 | a button stores its text; unless its hints are forced they become the measured text four columns wider, for `[ ` and ` ]`, and forced hints are kept; nothing else changes |
| CWidgets.CheckboxSetText | cwidgets.cc:50-55 | a checkbox stores its text; unless its hints are forced they become the measured text five columns wider, for `[x]` and two blanks, and forced hints are kept; nothing else changes |
| CWidgets.CheckboxKey | cwidgets.cc:57-65 | keys other than Enter and Space go to the base handler unchanged |
| CWidgets.CheckboxToggles | cwidgets.cc:57-65 | Enter flips a checkbox between off and on and reports it, and flipping twice restores it |
| CWidgets.RadioboxSelects | cwidgets.cc:57-65 | Enter always turns a radio box on, and reports only when it was off |
| CWidgets.ClipLeft | cwidgets.cc:100-104 | a cursor left of the view scrolls it to the cursor, one column early for the `<` mark |
| CWidgets.ShrinkFc | cwidgets.cc:108-109 | the view is scrolled back as far as the text still fits |
| CWidgets.PosclipVisible | cwidgets.cc:98-111 | with the cursor on the text, the cursor is in view and no column past the end is scrolled in |
| CWidgets.PosclipFits | cwidgets.cc:98-111 | a text shorter than the box is never scrolled |
| CWidgets.PosclipIdempotent | cwidgets.cc:98-111 | clipping again at the same cursor changes nothing |
| CWidgets.Posclip | cwidgets.cc:98-111 | `posclip`; `CWidgets.PosclipVisible`, `CWidgets.PosclipFits` and `CWidgets.PosclipIdempotent` state its effect |
| CWidgets.EditSetText | cwidgets.cc:113-119 | new text puts the cursor at its end with the edit box invariant holding |
| CWidgets.EditResize | cwidgets.cc:92-96 | a resize keeps text and cursor and restores the invariant for the new width |
| CWidgets.EditKey | cwidgets.cc:121-148 | an unhandled key changes nothing; a handled key reports a selection exactly when the cursor moved, and the selection follows the cursor |
| CWidgets.EditKeyValid | cwidgets.cc:98-148 | every key keeps the edit box invariant: cursor on the text, in view, and a scrolled view showing no column past the one after the end |
| CWidgets.EditNavigation | cwidgets.cc:124-131 | Left, Right, Home and End move the cursor as named and never change the text |
| CWidgets.EditInsert | cwidgets.cc:137-138 | a printable key is inserted at the cursor, which moves past it |
| CWidgets.InsertThenBackspace | cwidgets.cc:133-138 | Backspace right after inserting restores the text and the cursor |
| CWidgets.EditDelete | cwidgets.cc:135-136 | Delete erases the character at the cursor and leaves the cursor where it is |
| CWidgets.ClipSel | cwidgets.h:75-76 | the selection is limited to the last item and kept when already on one; with no items it becomes 0xFFFF |
| CWidgets.SetN | cwidgets.h:76 | `set_n` records the item count and clips the selection start to it: below the count, kept when already on an item, 0xFFFF with no items, and nothing else changes |
| CWidgets.ItemBoxSetText | cwidgets.cc:171-229 | setting NUL-terminated items counts them, keeps the selection on one and sizes the box to the widest item |
| CWidgets.SelboxSetText | cwidgets.cc:171-182 | a selection box stores its text; `CWidgets.ItemBoxSetText` states the item count, the selection and the size |
| CWidgets.ListboxSetText | cwidgets.cc:218-229 | a list box stores its text; `CWidgets.ItemBoxSetText` states the item count, the selection and the size |
| CWidgets.ItemMove | cwidgets.cc:184-240 | a move keeps the item count, stays on an item, and is reported exactly when the selection changed; otherwise the base handler gets the key |
| CWidgets.SelboxKey | cwidgets.cc:184-193 | `h` or Left selects the previous item and `l` or Right the next, each reported |
| CWidgets.ListboxKey | cwidgets.cc:231-240 | `k` or Up selects the previous item and `j` or Down the next, each reported |
| CWidgets.SelboxLeftRight | cwidgets.cc:184-193 | Right then Left, or Left then Right, returns to the same item |
| CWidgets.ListboxUpDown | cwidgets.cc:231-240 | Down then Up, or Up then Down, returns to the same item |
| CWidgets.ProgressBounds | cwidgets.cc:309-313 | the filled width stays within the bar, fills it only at `ProgressMax`, and grows with the progress |
| CWidgets.ProgressFill | cwidgets.cc:312 | the filled width; `CWidgets.ProgressBounds` states its bounds |

## Left out

- Terminal I/O is not modelled: termios setup, signals, timers, and the read and write loops (`termscr.cc:79-172`, `termscr.cc:373-420`). The output of `draw_window` is a sequence of terminal operations, serialised by `DiffRender.Serialize` and interpreted against a modelled terminal.
- The vertical-sync timer and the output flush that precede the sync loop (`termscr.cc:373-395`) are left out. `DrawSync` models the loop itself from the point where the output buffer is empty.
- Message glue is left out: `register_window`, `Screen_open`, `on_new_screen_info` and screen-info replies. Their only effect on the model is the window list and the screen size, which are parameters.
- Reading and writing raw bytes of the character set is not modelled: the DEL character 127 in a cell (`DiffRender.AssignCharDrawable` excludes it), and characters at or above U+200000, which need more than four UTF-8 bytes.
- Wide characters are not modelled. Every character takes one cell, as the renderer assumes.
- The cell's `z` byte is carried but never written, as in the source.
- `PanelType::FocusedEditbox` is not modelled. `Draw_panel` uses it (`termscr.cc:845`), but the panel enumeration in `draw.h` does not define it, so there is no opcode argument to model.
- Coordinates are assumed to stay below 0x8000. `position_window` clips to the screen, and the renderer's cursor arithmetic assumes it.
- The floating-point settings `get_entry_float` and `set_entry_float` are not modelled, because the model has no floating point. (The two-argument `set_entry_float` in `settings.h:162-163` forwards to `set_entry_int`.)
- SettingsKey.SetEntryEnum: the enumerator must be a valid index into the names, because `zstr::at` past the end is outside the source's contract.
- SettingsKey.AtolFormat: `atol` overflow is not modelled. Integers are unbounded, and `%ld` of a `long` always reads back.
- The binary stream form of a `SettingsKey` (`read`/`write`, `settings.cc:252-289`) is modelled only through its strings (`SettingsKey.Strings`) and `is_valid`. The byte alignment and stream layout are not modelled.
- `read_ini_file` (`settings.cc:430-436`) is left out because it is file I/O; `read_ini` is modelled on the text. `extract_match_from` (`settings.cc:359-367`) is not part of this model.
- Settings.CreateAllPaths: inserts each missing parent at its ordered position by lookup. The `emplace_hint` placement and iterator stepping of the source are not modelled.
- The debug `assert`s in `set_entry`, the `SettingsKey` constructor, `draw_window` and the palette writers (`draw.h:295-311`) are not modelled as checks. The palette bounds those asserts check are part of `Drawlist.Writable` instead. Where they state an invariant, it is a precondition or a proved property instead.
- `read_ini` keeps the address of the current key. The model keeps its path, which names the same key because keys are never removed while reading.
- Layout is not modelled: alignment fields, child areas, `resize` and `on_resize` geometry, and the HBox, VBox and GroupFrame overrides of `compute_size_hints` and `on_resize`. HBox, VBox and GroupFrame declare these overrides (`cwidgets.h:107-108`, `cwidgets.h:117-118`, `cwidgets.h:147-148`), but neither `widget.cc` nor `cwidgets.cc` defines them, so the model uses the base rule for every container.
- Drawlist contents are not modelled: each widget's `on_draw`, and the text `Editbox` draws. The widget model covers which widgets draw (`Widgets.DrawOrder`), not what they write.
- The `report_*` messages are modelled as `Reply` flags: modified, selection changed, key returned.
- Non-key events are passed to every child, which the model does not follow. Only key routing is modelled.
- `replace_widget` (`widget.cc:53-66`) is not part of this model.
- The Listbox `_top` field is used only when drawing and is not modelled.
- The window classes (`window.h`/`window.cc`) and the dialogs (`cdlgs.h`/`cdlgs.cc`) are not part of this model.
- `zstr::cii` items are NUL-separated, and a final NUL starts no further item (`CWidgets.Items`).
- In `clip_sel`, `min` of a `dim_t` and `_n-1` is computed in `int`, so no items gives -1, which `set_selection` stores as 0xFFFF.
- The drawlist argument checks use a signature checker written in the model. `Msg::validate_signature` is not part of this model, so its string layout is assumed: a 32-bit length including the terminator, then the bytes, then padding to 4. Byte order is little-endian.
- Compositor.DrawAllSynced: the terminal is proved in step only with the corrected `draw_window`. As written, the reprint of skipped cells ignores colours and can reach into the previous row (`DiffRender.RewriteIgnoresColoursAsWritten`, `DiffRender.RewriteCrossesRowAsWritten`), so the terminal can drift from the cache, and no in-step property is claimed for the program as written.
- Compositor.RedrawAllSynced: the same holds for the redraw after unregistering. Only the corrected `draw_window` is proved to leave the terminal in step; `Compositor.RedrawAll` with `draw_window` as written is proved only to keep the cache valid.
- RenderTarget.Reset: models only the window's own `reset()` (`termscr.cc:590-597`). `Draw_reset` (`termscr.cc:617-621`) also resets the whole terminal screen (`termscr.cc:127-135`): its cell cache, cursor position and last rendition, and it emits the reset sequence. That screen reset is modelled separately as `DiffRender.ScreenReset` and used by `Compositor.RedrawAll`, but it is not sequenced from drawlist replay, because the window model holds no terminal screen.
- Drawlist.GraphicValidateCmdAsWritten: for opcodes 20 to 36, `zstr::at` reads past the three graphic signatures into memory the model does not have, so the model answers `None` there instead of a length.
- CWidgets.ProgressBounds: holds only for a selection up to `ProgressMax` (1024). Above that the source's multiplication can overflow, and that case is not modelled.
- CWidgets.EditKeyValid: requires a text shorter than 0x7FFF, because beyond that the `coord_t` cursor wraps.
- CWidgets.PosclipVisible: requires a box at least two columns wide. A one-column box scrolls the cursor out of view, as the source does.
- CWidgets.EditKey: requires `EditValid`, the class invariant. Without it the cursor can index outside the text, which the source leaves undefined.

## Findings

| source | as written | input that shows it | evidently intended | confidence | as-written member | corrected member |
|---|---|---|---|---|---|---|
| settings.cc:125-132 | `ai = send+1` is followed by `++ai` at the top of the loop, skipping the first byte of every later element | `set_entry_array` of `ab`, `cd` stores `[ab,cd]`, which reads back as `ab`, `d` | resume at the separator (`ai = send`) so every element reads back whole | not executed | SettingsKey.ArrayLosesByteAsWritten | SettingsKey.ArrayRoundTrip |
| uidefs.h:223 | `Middle = Left<1` is a comparison, so Middle is 0, and Right = Middle<<1 is 0 too | `KMod::Middle` and `KMod::Right` both equal 0 | `Left<<1`, giving distinct modifier bits | not executed | UiDefs.KModMiddleRightVanish | UiDefs.KModBitsDistinct |
| settings.cc:193-194 | the description is replaced when the new one is empty and kept when a new one is given, the opposite of the comment; the typed setters, `merge` and `read_ini` all go through this rule | updating entry `w` (description `width`) with value `2` and no description erases `width`; with description `columns`, `columns` is dropped | keep the old description when the new one is empty, replace it otherwise | not executed | SettingsKey.SetEntryDescriptionAsWritten | SettingsKey.SetEntryDescriptionCorrected |
| draw.h:325-328 | the graphic validator subtracts `Cmd::Last` from the 8-bit opcode, so every base opcode wraps to 239..255 and is accepted on its declared length alone; and opcodes 20..36 pass the unknown-command test and look up a signature past the three in the table | a Text command whose string length overruns its payload is accepted by the graphic validator and rejected by the base one; opcode 20 reads a signature that does not exist | hand base opcodes to the base validator and accept every opcode from `Graphic::Cmd::Last` on its declared length | not executed | Drawlist.GraphicValidateAcceptsShortText | Drawlist.GraphicValidateAgreesOnBase |
| termscr.cc:279, termscr.cc:293 | bright colours 8-15 are sent as `100+c` (background) and `90+c` (text) | text colour 10 is sent as SGR 100, a background code | `100+c-8` and `90+c-8` | not executed | DiffRender.BrightColorAsWrittenMisreads | DiffRender.BrightColorCorrected |
| termscr.cc:312 | the reprint of skipped cells compares only attributes with the current rendition, not colours | skipping over a cell with another background reprints it in the current colours, and the terminal no longer matches the cache | compare colours too | not executed | DiffRender.RewriteIgnoresColoursAsWritten | DiffRender.RewriteColoursCorrected |
| termscr.cc:308-311 | the reprint takes the cells before the current one in the window surface, which reach into the previous row | with a window at screen column 1, stepping the cursor from column 0 to column 1 on the window's second row reprints the first row's last cell at column 0, outside the window | reprint only cells of the same row | not executed | DiffRender.RewriteCrossesRowAsWritten | DiffRender.RewriteRowCorrected |
| settings.cc:403 | the parent test compares the previous path's first bytes, not the whole directory name | after `a/b.c`, the key `a/b/d` passes the test, so its parent `a/b` is never created | look the parent up | not executed | Settings.CreateAllPathsAsWrittenMissesParent | Settings.CreateAllPathsCorrected |
| settings.cc:474-478 | the blank after `#` is skipped even when it is the trailing blank already trimmed away, giving a copy length of -1 | `write_ini` prints `# ` for the empty line of the description `a`, empty line, `b`, and `read_ini` rejects that text | skip the blank only inside the trimmed line | not executed | Ini.ReadIniBlankDescAsWritten | Ini.ReadIniBlankDescCorrected |
| termscr.cc:507-537 | `is.skip(cb)` consumes the ESC before the full-buffer `break`, and the erase after the loop drops it with the bytes decoded | a full read ending in `ESC [`, followed by a read of `A`, gives the keys `[` and `A` instead of Up | leave the ESC in the buffer so the sequence completes on the next read | not executed | InputDecoder.SplitUpArrowAsWritten | InputDecoder.SplitUpArrow |
| termscr.cc:396-399 | the loop over busy windows sends `c_vsync_event` to `_windows.back()` once per busy window, not to the window `w` it tests | a lower window in a frame under an idle top window never sees a sync, so its frame never ends and its next draw is only marked pending | `w->on_event (c_vsync_event)` | medium; not executed | DrawSync.SyncAllAsWrittenStrands | DrawSync.SyncAllCorrectedEndsFrames |
