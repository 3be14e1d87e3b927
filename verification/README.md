# Verified models of the Deck software

This project models the parts of the repository where much state or a subtle algorithm has to
agree with a simple promise, and proves the promise for every input and every run. Each module
has the form of the code it models: classes over arrays and fields with loops where the source
updates in place, functions and lemmas for what those steps mean.

`dafny verify dfyconfig.toml` checks everything.

## The modules

**The terminal engine** (`Cells`, `TermSpec`, `TermLaws`, `TermRuns`, `Lines`, `Damage`, `Refresh`,
`Machine`, `Reverse`, `VTerm`). fbterm reaches rows through an indirection array, scrolls lazily, remembers one
dirty interval a row and keeps rows that scroll off in a ring. `TermSpec` says what every action
means for plain rows; the class `VTerm` does what the source does, and `Input` shows that after
any series of actions the display shows exactly those rows. Whether the display accepts a row
move is nondeterministic. `Damage` holds the invariant: the columns of a row outside its dirty
interval equal the display row the pending scroll will bring it from, or the whole row is dirty.
`Refresh` says what an update leaves on the display whether that holds or not.
`TermLaws` says cell by cell and register by register what each action leaves, and what a printed text
looks like, without the operations `TermSpec` is made of; `TermRuns` proves properties of whole runs.

**Text selection** (`Selection`): the mouse flips cells in whatever view of the history there is,
and the paging keys move the view. As long as no selection stands when the view moves, the cells
flipped are the selection (`TrackAllInPlace`), and resetting it gives the text back.

**NES battery memory** (`NesSram`): a run-length code whose tag is the rarest byte.

**The panel** (`Framebuffer`): scaling, rotation and partial publishing of frames.

**Sound** (`Resampler`, `AudioQueue`): the fixed-point resampler and the queue shared by two
threads, as any interleaving of their locked steps.

**UTF-8** (`Utf8`, `Utf8Decoder`): the menu's validator, the terminal's decoder and the encoder of
selected text, against section 3 of RFC 3629.

**The palette file** (`Palette`), **game data** (`Tap`, `Rom`), **the catalog, the menu's list and
the upload store** (`CatalogEntry`, `CatalogFile`, `CatalogSort`, `Manifest`, `RomStore`): printers,
parsers and validators, and that what one program writes the other accepts. `RomStore.MenuLoads`
puts them together: after any series of uploads the menu loads its own games and every upload.

**Controllers** (`Joypads`, `InputGuard`): which gamepad is which player, and the guard against
bursts of edges. **Glyphs** (`Glyphs`): drawing pre-rotated, clipped glyphs.

`Basics` and `Sorting` hold what several modules share.

## Where a promise holds only under a condition

- A scroll of the whole margin region by its height or more is added to the pending scroll although
  nothing moves. By itself that is harmless (`Refresh.SkipAlone`), but the next scroll of the region
  then leaves old rows on the display (`Refresh.SkipThenScroll`); only for regions of one row it never
  does (`Refresh.SkipHarmless`). No action of the terminal asks for such a scroll of more rows.
- A line feed on a screen of one row records the row but does not move it
  (`TermRuns.LineFeedExtendsDocument`).
- Incremental selection equals full reselection unless a backward selection that reaches position 0
  is dragged there again, below position 0 (`Selection.DragIsDifference`).
- A selection is taken back at its positions on the screen. After the paging keys moved the view
  these are other rows, and the original text comes back exactly if the view is the one it was
  selected in (`Selection.ResetAfterMove`).
- A text with U+009B passes the menu's check but ends the terminal's decoding
  (`Utf8Decoder.AcceptedIsHeard`).
- The upload store writes a catalog without checking the limits its readers have. A game keeps it
  readable exactly if its line and the whole file are within them (`RomStore.NextReadable`); a game
  in a long directory loses the whole catalog (`RomStore.LongRootLosesAll`), in a short one none does
  (`RomStore.ShortRootStorable`, `RomStore.MenuLoads`).
- The menu loads the uploads behind its own games only if the built-in file ends its last line
  (`Manifest.CombinedLoads`, `Manifest.UnendedSpoils`).
- The buffer for selected text has no room for the terminating zero exactly if every cell selected
  holds a unit of 0x800 or above (`Utf8Decoder.BufferFits`, `Utf8Decoder.LinesOverrun`).
- A settings icon of 63 or 64 characters is valid, but its quotes make the token too long, and the
  file is refused (`Palette.AnyIconLayoutParses`).
- The palette printer does not check the reader's size limit either, but at the length of the
  dashboard's list it is never reached (`Palette.RoundTrip`).
- In the resampler a product may pass 32 bits. The model wraps it around in two's
  complement and shows that the result is exact all the same; the C++ standard leaves such a
  product undefined.

## Model

| member | source | states |
|---|---|---|
| VTermEngine.VTerm.Input | terminal/fbterm/src/lib/vterm.cpp:280-415 | From any idle state: after any series of actions, with every row move accelerated or refused as the display likes, every cell of the display shows the character and attributes those actions mean, in inverse or not, and the view is back at the screen |
| VTermEngine.VTerm.Update | terminal/fbterm/src/lib/vterm.cpp:483-518 | Whatever is owed: repaints the dirty intervals on the glass the row move leaves, and owes nothing afterwards; if the glass lagged no more than was owed, it then shows exactly the screen, and the text is untouched |
| VTermEngine.VTerm.PayScroll | terminal/fbterm/src/lib/vterm.cpp:487-509 | Moves exactly the rows that stay in the region on the glass, or marks exactly those; a row tied to what the glass still shows of it stays so |
| VTermEngine.VTerm.ScrollRegion | terminal/fbterm/src/lib/vterm.cpp:597-648 | For every num: refines moving the rows of a region, blanking the vacated rows, leaving all others alone and recording what leaves the top; says what is owed afterwards, and keeps the display payable unless all of a margin region of several rows was asked for |
| VTermEngine.VTerm.Renumber | terminal/fbterm/src/lib/vterm.cpp:619-647 | The renumbering of rows, with the dirty intervals that travel or are made whole, has the effect of moving the rows themselves |
| VTermEngine.VTerm.RecycleLine | terminal/fbterm/src/lib/vterm.cpp:643-645 | Clearing a vacated row writes only the line that now backs it: no other row and no line of history |
| VTermEngine.VTerm.HistoryScroll | terminal/fbterm/src/lib/vterm.cpp:750-777 | The ring afterwards holds the last rows of history followed by the first num rows of the screen |
| VTermEngine.VTerm.HistoryDisplay | terminal/fbterm/src/lib/vterm.cpp:779-824 | A relative move of num goes to the old start plus num, held to the oldest row and to the screen; an absolute one to num, or to the screen if it is negative or beyond; the display then shows history followed by screen from that row on, whether or not the rows moved and only the new ones were repainted |
| VTermEngine.VTerm.ShiftView | terminal/fbterm/src/lib/vterm.cpp:797-817 | An accepted move followed by repainting only the newly exposed rows shows the whole new window |
| VTermEngine.VTerm.Expose | terminal/fbterm/src/lib/vterm.cpp:537-577 | Repaints exactly the rectangle, clipped to the screen, run of equal attributes by run |
| VTermEngine.VTerm.DrawRuns | terminal/fbterm/src/lib/vterm.cpp:553-576 | Cutting a row into runs of equal attributes draws every cell of it once and as it is |
| VTermEngine.VTerm.Inverse | terminal/fbterm/src/lib/vterm.cpp:579-595 | Flips exactly the cells in reading order between the corners, wherever their rows lie in memory |
| VTermEngine.VTerm.InverseShown | terminal/fbterm/src/lib/shell.cpp:408-430 | Flipping and repainting only those rows leaves the display showing the flipped text |
| VTermEngine.VTerm.ClearArea | terminal/fbterm/src/lib/vterm.cpp:680-697 | Blanks the rectangle, clipped, and marks enough of it for the next update |
| VTermEngine.VTerm.ShiftText | terminal/fbterm/src/lib/vterm.cpp:650-678 | Slides part of a row by num either way, blanks the gap and marks the row |
| VTermEngine.VTerm.ChangedLine | terminal/fbterm/src/lib/vterm.cpp:699-708 | The dirty interval grows to cover the changed columns and never shrinks |
| VTermEngine.VTerm.MoveCursor | terminal/fbterm/src/lib/vterm.cpp:710-716 | The cursor is kept on the screen and nothing else changes |
| VTermEngine.VTerm.Lf | terminal/fbterm/src/lib/vterm_action.cpp:31-37 | Moves down, or scrolls the margin region at its bottom; carriage return in that mode |
| VTermEngine.VTerm.IndexUp | terminal/fbterm/src/lib/vterm_action.cpp:132-136 | Moves up, or scrolls the margin region back at its top |
| VTermEngine.VTerm.Print | terminal/fbterm/src/lib/vterm.cpp:417-468 | The cell under the cursor gets the character, or U+FFFD above U+FFFF, with the pen and its colour substitutions; nothing else changes but the cursor, one further; past the last column it is the Print of TermLaws.PrintsPastEnd |
| VTermEngine.VTerm.ShiftChars | terminal/fbterm/src/lib/vterm_action.cpp:245-268 | Inserts or deletes characters: a shift of the rest of the row, or a clear if it is not longer |
| VTermEngine.VTerm.EraseChar | terminal/fbterm/src/lib/vterm_action.cpp:270-281 | Blanks n cells from the cursor, as far as the row goes |
| VTermEngine.VTerm.ShiftLines | terminal/fbterm/src/lib/vterm_action.cpp:283-307 | Inserts or deletes lines down to the bottom margin, or clears them if n reaches it |
| VTermEngine.VTerm.EraseLine | terminal/fbterm/src/lib/vterm_action.cpp:309-322 | Blanks the row from, to or around the cursor |
| VTermEngine.VTerm.EraseDisplay | terminal/fbterm/src/lib/vterm_action.cpp:324-339 | Blanks the screen from, to or around the cursor |
| VTermEngine.VTerm.PaintAll | terminal/fbterm/src/lib/vterm_action.cpp:341-352 | Every cell of the screen becomes the given one and every row is marked |
| VTermEngine.VTerm.SetMargins | terminal/fbterm/src/lib/vterm_action.cpp:354-370 | Pays a pending scroll first, so that the display still matches after the region it was for is replaced; the cursor is moved into the margins |
| VTermEngine.VTerm.SetInverse | terminal/fbterm/src/lib/vterm_action.cpp:420-425 | Switching the inverse screen marks every row, since every cell looks different |
| VTermEngine.VTerm.Reset | terminal/fbterm/src/lib/vterm.cpp:131-161 | Initial registers, blank screen, and the history kept |
| Machine.ScrollReady | terminal/fbterm/src/lib/vterm.cpp:597-648 | A scroll of any region, of one row or of many, keeps the tie between every row and the place the pending scroll will bring it from, unless all of a margin region of several rows was asked for |
| Machine.ScrollStands | terminal/fbterm/src/lib/vterm.cpp:626-647 | Renumbering and recycled lines leave the rows scrolled and the history as it was |
| Refresh.UpdateShows | terminal/fbterm/src/lib/vterm.cpp:483-518 | A coherent glass shows exactly the screen after update, whether it took the row move or not |
| Refresh.MoveKeepsCoherent | terminal/fbterm/src/lib/vterm.cpp:487-509 | The row move, or the marking that replaces it, pays the whole pending scroll |
| Refresh.SkipAlone | terminal/fbterm/src/lib/vterm.cpp:617-626 | A scroll by all of the margin region moves nothing but counts as pending; by itself that does no harm, update drops it |
| Refresh.SkipThenScroll | terminal/fbterm/src/lib/vterm.cpp:597-648 | After it a scroll by k leaves the old rows on the glass: update shows the screen exactly if every row that kept text looks like the row k further on did |
| Refresh.SkipHarmless | terminal/fbterm/src/lib/vterm.cpp:597-648 | So such a skipped scroll is harmless, whatever is on the screen and scrolls next, exactly for regions of one row |
| Machine.LineOfView | terminal/fbterm/src/lib/vterm.cpp:826-834 | The line get_line finds for row y of the view holds row visual_start_line + y of history followed by screen |
| Cells.WindowIsSlice | terminal/fbterm/src/lib/vterm.cpp:826-834 | A view is the rows of history followed by screen from its start on |
| Machine.ViewMoves | terminal/fbterm/src/lib/vterm.cpp:803-816 | Two windows of the same text share their rows at the offset the view is moved by |
| Damage.FastScrollKeepsCoherent | terminal/fbterm/src/lib/vterm.cpp:615-645 | Intervals that travel with their rows stay right with the pending scroll increased, for every earlier pending scroll in either direction |
| Damage.SlowScrollKeepsCoherent | terminal/fbterm/src/lib/vterm.cpp:635-637 | A scroll of another region is right with every moved row marked whole, whatever is pending |
| Damage.OneRowKeepsCoherent | terminal/fbterm/src/lib/vterm.cpp:488-489 | Whatever becomes pending for a region of one row is never moved and does no harm |
| Damage.MoveRowsPays | terminal/fbterm/src/lib/vterm.cpp:490-501 | The row move pays the whole pending scroll |
| Damage.RefusedMovePays | terminal/fbterm/src/lib/vterm.cpp:501-507 | So does marking the displaced rows |
| Lines.RenumberedPermuted | terminal/fbterm/src/lib/vterm.cpp:626-633 | The row numbers stay a permutation of the lines after the history |
| Lines.RenumberedBacks | terminal/fbterm/src/lib/vterm.cpp:626-646 | The renumbered lines, vacated ones cleared, back the scrolled rows |
| Lines.PushRow | terminal/fbterm/src/lib/vterm.cpp:755-772 | Storing a line in the ring keeps the last rows, oldest first, across the wrap-around |
| Lines.SaveOne | terminal/fbterm/src/lib/vterm.cpp:755-772 | One round of history_scroll records the row and leaves the screen as it was |
| Lines.SlotIsModulo | terminal/fbterm/src/lib/vterm.cpp:833 | The ring index is the one the source computes with a modulo |
| TermRuns.HistoryIsLog | terminal/fbterm/src/lib/vterm.cpp:750-777 | After any run the history is the last history_lines rows of everything that ever scrolled off |
| TermRuns.LineFeedExtendsDocument | terminal/fbterm/src/lib/vterm_action.cpp:31-37 | A line feed at the bottom of an unrestricted screen adds one blank row to history followed by screen, exactly if the screen has more than one row or that row is blank |
| TermRuns.OutsideRegionKept | terminal/fbterm/src/lib/vterm.cpp:626-646 | Scrolling leaves the rows outside its region alone |
| TermRuns.OutsideMarginsKept | terminal/fbterm/src/lib/vterm_action.cpp:31-37 | Line feeds both ways leave the rows outside the margins alone |
| TermRuns.ScrollUndone | terminal/fbterm/src/lib/vterm.cpp:626-646 | Scrolling a region and back loses only the rows pushed out |
| TermRuns.CharsUndone | terminal/fbterm/src/lib/vterm_action.cpp:245-268 | Inserting characters and deleting as many loses only what fell off the row |
| TermLaws.Prints | terminal/fbterm/src/lib/vterm.cpp:455-466 | A step that prints with the cursor on the screen: the character in the cell under it, U+FFFD above U+FFFF, the pen with a colour in place of underlining or half intensity; every other cell and register as before, the cursor one column further |
| TermLaws.PrintsPastEnd | terminal/fbterm/src/lib/vterm.cpp:424-442 | With the cursor past the last column it prints in the last column, or with wrapping on after a next-line step, in column 0 |
| TermLaws.PrintsText | terminal/fbterm/src/lib/vterm.cpp:417-468 | Any text that fits, printed from the top left corner with wrapping on, stands in the cells in reading order, the other cells as they were, the cursor just behind it |
| TermLaws.NewTerminalPrints | terminal/fbterm/src/lib/vterm.cpp:417-468 | On a new terminal character k of such a text is in column k % width of row k / width in the default attributes, and all other cells are blank |
| TermLaws.LfFeeds | terminal/fbterm/src/lib/vterm_action.cpp:31-37 | Above the bottom margin a line feed only moves the cursor; otherwise exactly the rows between the margins move up, the last one is erased, and the top row of the screen goes to the history |
| TermLaws.NextLineFeeds | terminal/fbterm/src/lib/vterm_action.cpp:121-125 | A next line is a line feed with the cursor in column 0 afterwards |
| TermLaws.IndexUpFeeds | terminal/fbterm/src/lib/vterm_action.cpp:132-136 | Below the top margin only the cursor moves up; otherwise exactly the rows between the margins move down |
| TermLaws.ErasesLine | terminal/fbterm/src/lib/vterm_action.cpp:309-322 | Exactly the cells of the row from the cursor on, up to it, or all of them are erased: spaces in the colours and blinking of the pen, otherwise default |
| TermLaws.ErasesDisplay | terminal/fbterm/src/lib/vterm_action.cpp:324-339 | The same for the whole screen in reading order |
| TermLaws.ErasesChars | terminal/fbterm/src/lib/vterm_action.cpp:270-281 | Exactly n cells from the cursor on, at least one, are erased, as far as the row goes |
| TermLaws.InsertsChars | terminal/fbterm/src/lib/vterm_action.cpp:245-256 | The rest of the row from the cursor on moves right by n, at least one; the gap is erased |
| TermLaws.DeletesChars | terminal/fbterm/src/lib/vterm_action.cpp:258-268 | The rest of the row from the cursor on moves left by n, at least one; the end is erased |
| TermLaws.InsertsLines | terminal/fbterm/src/lib/vterm_action.cpp:283-294 | The rows from the cursor to the bottom margin move down by n; below the margin nothing happens |
| TermLaws.DeletesLines | terminal/fbterm/src/lib/vterm_action.cpp:296-307 | They move up by n; rows deleted at the top of the screen go to the history unless n reaches the margin |
| TermLaws.CursorMovesInRow | terminal/fbterm/src/lib/vterm_action.cpp:138-162 | Carriage return, backspace, left, right and column: the column asked for, held within the screen |
| TermLaws.CursorMovesUp | terminal/fbterm/src/lib/vterm_action.cpp:164-175 | Up by n, not above the top row |
| TermLaws.CursorMovesDown | terminal/fbterm/src/lib/vterm_action.cpp:177-188 | Down by n, in 16 bits, not below the last row |
| TermLaws.CursorIsPlaced | terminal/fbterm/src/lib/vterm_action.cpp:216-243 | Row and column counted from one; from the top margin in origin mode, but not if only the row is given |
| TermLaws.CursorComesBack | terminal/fbterm/src/lib/vterm_action.cpp:99-119 | Whatever happens in between, restoring brings the saved cursor and pen back and changes nothing else |
| TermLaws.ModeSet | terminal/fbterm/src/lib/vterm_action.cpp:400-451 | Each mode action changes its mode alone |
| TermLaws.InverseSet | terminal/fbterm/src/lib/vterm_action.cpp:420-425 | The inverse screen is a mode like that |
| TermLaws.PenSet | terminal/fbterm/src/lib/vterm_action.cpp:613-622 | A colour in place of underlining or half intensity is set if it is below eight |
| TermLaws.MarginsTake | terminal/fbterm/src/lib/vterm_action.cpp:354-370 | The margins are the rows given, the whole screen where none or too large; a cursor outside goes to the nearer margin |
| TermLaws.ScreenAligned | terminal/fbterm/src/lib/vterm_action.cpp:341-352 | Every cell becomes an E with the looks of new text |
| TermLaws.NewIsFresh | terminal/fbterm/src/lib/vterm.cpp:131-161 | A new terminal is blank in the default attributes, the cursor at the top left, the margins open, wrapping on and the other modes off |
| TermLaws.ResetIsFresh | terminal/fbterm/src/lib/vterm.cpp:131-161 | A reset one too, with its history kept |
| TermLaws.PagesBack | terminal/fbterm/src/lib/vterm.cpp:779-795 | Paging by num and back returns to the same view exactly if the first move stayed inside the limits, or was cut short at the end the view already stood at |
| Machine.ViewDisplays | terminal/fbterm/src/lib/vterm.cpp:826-834 | A view that starts at a row displays history followed by screen from that row on, cell by cell |
| Reverse.FlippedTwice | terminal/fbterm/src/lib/vterm.cpp:579-595 | Flipping two sets of cells one after the other flips those in exactly one of them |
| Reverse.OnlyReverseFlips | terminal/fbterm/src/lib/vterm.cpp:579-595 | Exactly the cells at the given positions have their reverse bit turned around; characters and other attributes stay |
| Reverse.SpanRepaintedIsView | terminal/fbterm/src/lib/shell.cpp:421-429 | The three rectangles repainted cover all cells of a span in reading order |
| Selection.DragIsDifference | terminal/fbterm/src/lib/shell.cpp:235-268 | The spans a drag flips are the difference between the old and the new selection, in 32-bit arithmetic, exactly unless a backward selection that reaches position 0 is dragged to position 0 again |
| Selection.Shell.MiddleTextSelect | terminal/fbterm/src/lib/shell.cpp:235-268 | A drag flips, in the view there is, exactly the spans between the old end and the new one, on the display too |
| Selection.Shell.StartTextSelect | terminal/fbterm/src/lib/shell.cpp:227-233 | A press flips exactly the cell under the mouse and makes it the selection |
| Selection.Shell.ResetTextSelect | terminal/fbterm/src/lib/shell.cpp:326-333 | The selection is flipped once more in the view there is now; the original attributes are back if the cells flipped so far are those the selection stands for in it |
| Selection.Shell.HistoryScroll | terminal/fbterm/src/fbshellman.cpp:89-94 | The paging keys show another window of the history and leave the selection and its flips as they are |
| Selection.Shell.Drag | terminal/fbterm/src/lib/shell.cpp:190-212 | Any series of presses, moves, releases and pages: the display shows the text with exactly the cells flipped that were flipped an odd number of times; if the view never moved under a selection, those are the cells from where the last drag started to where it stands |
| Selection.Shell.ReadyRead | terminal/fbterm/src/lib/shell.cpp:326-333 | Output takes the selection back first; the terminal then shows what the actions mean for the text that leaves, which is the text without the selection if the view did not move under it |
| Selection.TrackAllInPlace | terminal/fbterm/src/lib/shell.cpp:190-212 | Over any series of events that does not move the view under a selection, the cells flipped are exactly the selection as it is tracked |
| Selection.PressAndDrag | terminal/fbterm/src/lib/shell.cpp:227-268 | A press and any number of moves leave exactly the cells from the one pressed to the last one flipped |
| Selection.ResetAfterMove | terminal/fbterm/src/lib/shell.cpp:326-333 | Selecting in one view and resetting in another gives the original text back exactly if the two views are the same |
| NesSram.RoundTrip | src/nes_sram.h:11-83 | Decoding an encoding with the original length gives the original, for every non-empty input |
| NesSram.CutRefused | src/nes_sram.h:65-81 | An encoding cut short anywhere is refused |
| NesSram.RarestIsRare | src/nes_sram.h:22-26 | The rarest of the 256 byte values occurs at most n/256 times |
| NesSram.EncodingSize | src/nes_sram.h:7-55 | An encoding has at most 1 + n + 2 * (n/256) bytes |
| NesSram.OneRunIs | src/nes_sram.h:28-53 | Up to 256 equal bytes are written as the tag and themselves if fewer than four, and as the tag twice, the byte and their number less one otherwise |
| NesSram.Encode | src/nes_sram.h:11-55 | Succeeds exactly if the input is not empty and its encoding fits the capacity; writes the encoding and nothing beyond the capacity |
| NesSram.Decode | src/nes_sram.h:57-83 | Succeeds exactly if the code stands for that many bytes; writes them and nothing beyond |
| NesSram.FindTag | src/nes_sram.h:18-26 | The tag is the least byte value that occurs least often |
| NesSram.SaveAndLoad | src/nes_sram.h:7-83 | With the advertised capacity saving never fails, what is written is the encoding, and decoding that much of the file restores the memory |
| Framebuffer.ComputeScaledLayout | src/deck_runtime.cpp:54-79 | Exists exactly for sizes that fit the safe area; its scale is the largest whole one that fits, and the picture is centred in the safe area |
| Framebuffer.EachPixelShown | src/deck_runtime.cpp:263-280 | Each source pixel fills its square of the panel, turned a quarter |
| Framebuffer.MarginsAreBlack | src/deck_runtime.cpp:282-299 | The safe border and everything beyond the logical screen stay black |
| Framebuffer.PanelTellsImage | src/deck_runtime.cpp:263-280 | Pictures of one size that look the same on the panel are the same |
| Framebuffer.ChannelsKept | src/deck_runtime.cpp:81-87 | For all bytes the panel word has the upper five bits of red, six of green and five of blue, whatever the top byte |
| Framebuffer.HeldIsShown | src/deck_runtime.cpp:304-416 | A panel that holds the picture of a source shows each of its pixels in the square of that pixel |
| Framebuffer.DeckFramebuffer.DrawByRows | src/deck_runtime.cpp:354-378 | The row-sequential drawing builds the whole panel picture of the source |
| Framebuffer.DeckFramebuffer.DrawByPixels | src/deck_runtime.cpp:324-330 | So does drawing pixel by pixel: both leave the same staging frame |
| Framebuffer.DeckFramebuffer.DrawScaledPixel | src/deck_runtime.cpp:263-280 | Draws exactly the square of one source pixel |
| Framebuffer.DeckFramebuffer.BeginFrame | src/deck_runtime.cpp:236-261 | Leaves black outside the picture in both buffers, clearing only when the size changes |
| Framebuffer.DeckFramebuffer.PublishFrame | src/deck_runtime.cpp:282-299 | Copies exactly the rectangle of the picture |
| Framebuffer.DeckFramebuffer.Present | src/deck_runtime.cpp:304-416 | Accepts exactly sizes up to 1248 by 448 with rows that do not overlap and a palette if one is needed; every panel word in the square of pixel (x, y) then has the upper five, six and five bits of its red, green and blue, from the pixel or its palette entry, or is the given word; black around the picture |
| Framebuffer.DeckFramebuffer.PresentAll | src/deck_runtime.cpp:304-416 | Over any series of frames of any sizes and formats live memory shows every pixel of the last accepted one in its square, and black around it |
| AudioQueue.Accounted | src/deck_runtime.cpp:584-650 | Over any interleaving the delivered samples are accepted ones in their order; until the writer fails accepted = delivered + in flight + dropped + queued and the queue is the newest of what was accepted |
| AudioQueue.NothingDropped | src/deck_runtime.cpp:584-650 | If none was dropped, delivered, in flight and queued samples one after the other are all that was accepted |
| AudioQueue.DeckAudio.Enqueue | src/deck_runtime.cpp:617-650 | The queue keeps the newest of what it held and what comes, across the wrap-around of the ring; drops are counted |
| AudioQueue.DeckAudio.Take | src/deck_runtime.cpp:587-605 | The worker takes the oldest samples, a chunk at most |
| AudioQueue.DeckAudio.Write | src/deck_runtime.cpp:607-613 | The chunk reaches the device, or the writer fails and the queue is emptied |
| AudioQueue.DeckAudio.Interleave | src/deck_runtime.cpp:584-650 | The ring does what the abstract line says over every interleaving of the two threads |
| AudioQueue.DeckAudio.WriteMono | src/deck_runtime.cpp:699-735 | Queues the resampled samples; over any series of calls the frames handed on * source rate + remainder = input frames * output rate, and as many as came if the rates are the same |
| Resampler.NoDrift | src/deck_runtime.cpp:705-708 | Over any run of calls output frames * source rate + remainder = input frames * output rate |
| AudioQueue.MonoIsDue | src/deck_runtime.cpp:702-709 | A call queues as many frames as are due for all frames so far less those due before it |
| Resampler.SplitDoesNotMatter | src/deck_runtime.cpp:705-708 | How the frames are split into calls makes no difference to how many come out |
| Resampler.PositionInRange | src/deck_runtime.cpp:715-731 | Positions never pass the last sample and fall short of the ideal ones by less than a unit a frame |
| Resampler.InterpolateExact | src/deck_runtime.cpp:725-729 | The interpolation is exact and lies between its samples although the product may overflow 32 bits, because narrowing undoes the wrap-around |
| Resampler.BetweenNeighbours | src/deck_runtime.cpp:719-730 | Every output frame lies between the source samples around its position |
| Resampler.KeepsAscending | src/deck_runtime.cpp:715-732 | A rising signal stays rising |
| Resampler.SamplesInterpolated | src/deck_runtime.cpp:715-731 | Output frame i is the sample before position i * step plus the difference to the next one times the 16-bit fraction, rounded down |
| Resampler.OneIsHeld | src/deck_runtime.cpp:712-713 | A single frame on either side is the first sample, held |
| Resampler.SameCountIsSame | src/deck_runtime.cpp:715-731 | As many output frames as input frames are the input |
| Resampler.Resample | src/deck_runtime.cpp:711-733 | The loop, which accumulates its position, computes the frame at every multiple of the step |
| Utf8.AcceptsExactly | src/menu_text.cpp:24-70 | A text is accepted exactly if it is the encoding of at most so many printable scalar values, and not empty unless that is allowed |
| Utf8.ValidUtf8Text | src/menu_text.cpp:24-70 | The loop decides acceptance |
| Utf8.EncodingIsRead | src/menu_text.cpp:31-61 | A scalar encoded as RFC 3629 says is read as that scalar |
| Utf8.ReadIsEncoding | src/menu_text.cpp:31-61 | Nothing else is read as a scalar: no overlong form, no surrogate |
| Utf8Decoder.MachineReads | terminal/fbterm/src/lib/vterm.cpp:304-370 | For every byte string the byte-at-a-time machine gives what a reading of the whole text gives, also from the middle of a sequence |
| Utf8Decoder.InterruptedStep | terminal/fbterm/src/lib/vterm.cpp:329-336 | A sequence cut short gives one replacement character and the byte that cuts it is read afresh |
| Utf8Decoder.EncodedReads | terminal/fbterm/src/lib/vterm.cpp:304-370 | Encoded codes are read as those codes, surrogates and the two non-characters replaced |
| Utf8Decoder.ScalarsRead | terminal/fbterm/src/lib/vterm.cpp:304-370 | Every text of scalar values without the two non-characters is decoded as itself |
| Utf8Decoder.AcceptedIsHeard | terminal/fbterm/src/lib/vterm.cpp:304-410 | A text the menu accepts reaches the terminal as its characters exactly if no U+009B stands before its last one: that code starts an escape sequence |
| Utf8Decoder.AcceptedNotHeard | src/menu_text.cpp:62-63 | A text with U+009B that is accepted and not heard to the end |
| Utf8Decoder.Decoder.Input | terminal/fbterm/src/lib/vterm.cpp:296-375 | The decoder loop over its three fields is that machine |
| Utf8Decoder.Utf16ToUtf8 | terminal/fbterm/src/lib/shell.cpp:270-289 | Writes every code unit in its shortest form and a terminating zero |
| Utf8Decoder.BufferFits | terminal/fbterm/src/lib/shell.cpp:299-322 | In the three bytes a cell that the caller allocates, the text and its zero fit exactly if some cell has no unit of its own or some unit is below 0x800 |
| Utf8Decoder.LinesOverrun | terminal/fbterm/src/lib/shell.cpp:299-322 | A selection of box-drawing characters fills those bytes and leaves no room for the zero |
| Utf8Decoder.SelectionReadsBack | terminal/fbterm/src/lib/shell.cpp:270-289 | What is written decodes to the same units, surrogates and the two non-characters replaced |
| Palette.RoundTrip | uploader/palette.go:182-288 | A valid palette is read back from what is printed exactly if the file is within the size limit, and with up to 26 roles it always is |
| Palette.AnyLayoutParses | uploader/palette.go:182-275 | Any order of the roles, any white space between tokens and either case of the digits give the same palette (schema version 2) |
| Palette.AnyIconLayoutParses | uploader/palette.go:182-275 | A file of schema version 3 is read as the same palette exactly if the name of its icon has at most 62 characters, although 64 are valid; otherwise it is refused |
| Palette.IconTokensParse | uploader/palette.go:230-240 | With any valid icon the token list of version 3 parses to the palette |
| Palette.LaidTokens | uploader/palette.go:182-219 | Tokens are read back from any text in which words are kept apart |
| Palette.TokensParse | uploader/palette.go:221-275 | The token list of a palette, its roles in any order, parses to it in canonical form |
| Palette.NormalizedStays | uploader/palette.go:112-125 | A normalised colour is its own normal form |
| Palette.NormalizedIsSame | uploader/palette.go:112-125 | Exactly a number sign and six hexadecimal digits are a colour, and its normal form has the same digits without small letters |
| Palette.PaletteTokens | uploader/palette.go:182-219 | The scanner gives the tokens exactly if the file, every word and the number of tokens at a word are within their limits |
| Palette.ParsePaletteOverride | uploader/palette.go:221-275 | The parser loop decides and gives the palette of both schema versions |
| Palette.EncodePaletteOverride | uploader/palette.go:277-288 | The printer loop writes the token list with its fixed layout |
| Palette.SaveAndLoad | uploader/palette.go:338-346 | Saving refuses an invalid palette, and a saved one is loaded back |
| Tap.TapesAreBlocks | uploader/rom.go:120-147 | The accepted byte strings are exactly the series of one or more blocks of 2 to 65535 bytes with zero checksum, framed by their length, up to 8 MiB |
| Tap.OneSplit | uploader/rom.go:125-142 | A tape splits into blocks in only one way |
| Tap.GoodIsEven | uploader/rom.go:132-139 | A block is good exactly if it has 2 to 65535 bytes and every bit is set in an even number of them |
| Tap.TapesJoin | src/menu_catalog.cpp:196-236 | After a tape exactly the tapes make a tape again, as long as the whole is within 8 MiB |
| Tap.ValidateZX | uploader/rom.go:120-171 | The uploader accepts exactly the tapes |
| Tap.ValidateTape | src/menu_catalog.cpp:196-236 | The menu accepts exactly the same byte strings |
| Rom.Checksum | uploader/rom.go:107-110 | The checksum that counts down in eight bits is the one that makes the header, a one for every byte and itself add up to a multiple of 256 |
| Rom.OneChecksum | uploader/rom.go:107-113 | No other checksum does |
| Rom.ValidateGameBoy | uploader/rom.go:103-118 | The uploader accepts exactly the images with the logo, a balanced header and, if asked for, the colour flag |
| Rom.ValidateRom | uploader/rom.go:149-169 | The uploader accepts exactly the playable data of a system up to its limit |
| Rom.MenuValidates | src/menu_catalog.cpp:150-243 | The menu accepts exactly the playable data |
| CatalogEntry.TitleAccepted | uploader/rom.go:56-66 | The menu accepts every title the uploader accepts |
| CatalogEntry.SlugIsId | uploader/rom.go:68-85 | A slug is empty or a valid identifier of at most 32 characters |
| CatalogEntry.SlugKeeps | uploader/rom.go:68-85 | The letters and digits of a slug are the first ones of the title in order; two of them stand together if they did in the title and otherwise have one hyphen between them; none is left out before 32 characters are reached |
| CatalogEntry.CleanIsSlug | uploader/rom.go:68-85 | Letters, digits and single hyphens between them, at most 32, are their own slug |
| CatalogEntry.PlacesAreAll | uploader/rom.go:72-73 | The places compared are those of all letters and digits and of nothing else |
| CatalogEntry.Slugify | uploader/rom.go:68-85 | The loop builds a text with the first letters and digits of the title in order, hyphens between them exactly where something else stood, none left out before 32 characters are reached |
| CatalogEntry.IdentifierValid | uploader/rom.go:374-378 | The identifier of an upload is never cut and passes valid_id |
| CatalogEntry.IdShape | src/menu_catalog.cpp:37-54 | valid_id accepts exactly letters, digits and single hyphens between them, up to 48 |
| CatalogFile.CatalogRoundTrip | uploader/rom.go:229-278 | A catalog written is read back exactly if no field holds a tab or a line end, no line starts with a number sign or ends with a carriage return, there are at most 64 games, no line over 4096 bytes and at most 65536 bytes; beyond the limits it is refused as a whole |
| CatalogFile.ReadCatalog | uploader/rom.go:249-269 | The scanner loop gives what the file lists |
| CatalogFile.WriteCatalog | uploader/rom.go:272-278 | The writer loop gives the lines of all games |
| CatalogFile.ParsedFielded | uploader/rom.go:249-269 | Whatever a catalog holds, the entries read have no tab and no line end in any field |
| Manifest.LoadManifest | src/menu_catalog.cpp:246-391 | The loop gives the games of a file exactly if it is within 65536 bytes and every line within 4096, all lines but blank ones, comments and one header in front are games the menu takes, no identifier and no path repeats, and there are 1 to 64 |
| Manifest.CheckGame | src/menu_catalog.cpp:303-357 | A line is taken exactly if its five fields pass the checks and its data is there and playable |
| Manifest.ColorsAre | src/menu_catalog.cpp:64-119 | A colour is taken exactly if it is six hexadecimal digits for a colour of the cube of six levels, of the dark basic ones, light grey or one of the 24 greys |
| Manifest.SplitTabs | src/menu_text.cpp:94-106 | The splitting loop gives the fields |
| Manifest.UploadsLoad | src/menu_catalog.cpp:246-391 | The catalog of uploads by itself is loaded as its games exactly if it is not empty, within the limits and without repeats |
| Manifest.CombinedLoads | deploy/menu/deck-menu-launcher:293-305 | The built-in file with the catalog of uploads behind it is loaded as the games of both exactly if the whole is within the limits and no game repeats one of the other; otherwise it is refused |
| Manifest.UnendedSpoils | deploy/menu/deck-menu-launcher:295-295 | If the built-in file does not end its last line, the games of both are never loaded |
| Manifest.BaseRead | uploader/rom.go:249-269 | The uploader reads a file that the menu takes as the same games, after the header if it has one |
| CatalogSort.SortSorts | uploader/rom.go:394-399 | In the sorted catalog the systems are in dictionary order, and the titles of one system too |
| Basics.TextLessMeans | uploader/rom.go:394-399 | Dictionary order: the first byte in which two texts differ is less, or one is the beginning of the other |
| CatalogSort.SortIsStable | uploader/rom.go:394-399 | Games that compare equal keep their order and none is lost |
| RomStore.NewEntryTaken | uploader/rom.go:374-392 | Every game added passes the checks the menu makes on a line, and its line says what it is |
| RomStore.NewEntryIs | uploader/rom.go:374-392 | A game has the title and system of its request, the identifier upload-system-slug and the file root/system/slug with the extension of its system |
| RomStore.SameNames | uploader/rom.go:384-389 | Two games clash exactly if they are for one system and their titles have one slug |
| RomStore.ShortRootStorable | uploader/rom.go:237-270 | Below a directory of at most 600 bytes the catalog of up to 64 games is always read back |
| RomStore.NextReadable | uploader/rom.go:393-400 | One more game keeps a readable catalog readable exactly if its line is within 4096 bytes and the file then within 65536 |
| RomStore.LongLineLosesAll | uploader/rom.go:339-403 | A first game with a longer line is added all the same, and from then on nothing is listed and nothing can be added |
| RomStore.LongRootLosesAll | uploader/rom.go:339-403 | Below a directory of 4020 bytes a title of 64 letters does that |
| RomStore.StaysCatalogued | uploader/rom.go:384-399 | Adding a game that clashes with none keeps identifiers and paths unique over both catalogs, and at most 64 games |
| RomStore.AddedAllKeeps | uploader/rom.go:345-410 | After any series of requests: no game of the menu or the uploads repeats another, 64 at most, every upload has a line the menu takes and playable data in its file, the uploads are ordered, and no data was lost or changed |
| RomStore.SortedOnce | uploader/rom.go:393-399 | Sorting after every addition gives the order of sorting once all that were let in, as they came |
| RomStore.NewIsOrderly | uploader/rom.go:339-343 | A store without uploads starts that way with any file the menu loads |
| RomStore.OrderlyLoads | deploy/menu/deck-menu-launcher:293-305 | Behind a file that the menu takes and that ends its last line such uploads are loaded too, exactly if the whole is within the limits |
| RomStore.MenuLoads | deploy/menu/deck-menu-launcher:293-305 | Below a short enough directory the menu loads, after any series of requests, the games it was built with and behind them every upload |
| RomStore.ProgramAndUploads | deploy/menu/deck-menu-launcher:293-305 | For a list of any one program of the Deck and a new store below any directory of at most 600 bytes that holds with no further condition |
| RomStore.TerminalTaken | src/menu_catalog.cpp:393-401 | The terminal is such a program |
| RomStore.Store.Add | uploader/rom.go:345-410 | Says exactly which requests succeed; on success the sorted catalog has the new game and the tree its data, otherwise nothing changed |
| RomStore.Store.AddAll | uploader/rom.go:345-410 | Over any series of requests the store holds the uploads and files that adding the admitted ones one after the other gives |
| RomStore.Store.Entries | uploader/rom.go:339-343 | Lists the uploads unless the file is beyond its limits |
| Joypads.ScanKeeps | src/joypad_input.cpp:374-416 | A scan moves no connected player, and no descriptor and no device is lost or doubled |
| Joypads.AttachKeeps | src/joypad_input.cpp:305-323 | Attaching a candidate to a player without a gamepad changes no other player and loses or doubles no descriptor and no device |
| Joypads.FindsOldPort | src/joypad_input.cpp:374-411 | A player who lost a gamepad has one at the same port again after a scan exactly if more arrived there than earlier players were waiting for |
| Joypads.ComesBack | src/joypad_input.cpp:374-385 | A player whose gamepad goes away and whose port is remembered has the one at that port after the next scan, exactly if it finds more there than earlier players wait for |
| Joypads.NoneTurnedAway | src/joypad_input.cpp:399-416 | No gamepad is closed while a player has none |
| Joypads.PlayersGetFree | src/joypad_input.cpp:330-370 | After a scan a connected player has what he had; another has nothing new, or a supported gamepad that opened and was nobody's, and the remembered port is the one it names or else its path |
| Joypads.FreeGetsPlayer | src/joypad_input.cpp:374-411 | Every such gamepad is a player's afterwards, unless all players have one |
| Joypads.FirstScanInOrder | src/joypad_input.cpp:252-257 | At the first scan the players stand at the ports found in their order, at one port in that of the paths: an earlier player never has a gamepad that comes after that of a later one |
| Joypads.FirstScanTakesFirst | src/joypad_input.cpp:387-397 | And no gamepad left over comes before one that found a player |
| Joypads.OrderedIsInOrder | src/joypad_input.cpp:372 | The candidates are sorted by port and then by path |
| Joypads.OnePlayerADevice | src/joypad_input.cpp:244-250 | After any series of scans and disconnects no device is the gamepad of two players |
| Joypads.Gamepads.Discover | src/joypad_input.cpp:330-370 | The loop over the directory gives the gamepads that are not in use and can be opened |
| Joypads.Gamepads.ScanGamepads | src/joypad_input.cpp:325-417 | The loops over the directory, the players and the candidates are those phases; afterwards the open descriptors are those of the players, and all others were closed, none while a player has no gamepad |
| Joypads.Gamepads.CloseGamepad | src/joypad_input.cpp:259-273 | Closes one descriptor and keeps the port if it is to be remembered |
| InputGuard.WindowsHold | src/deck_menu.cpp:2690-2703 | If any thirteen accepted edges span a second, no window of a second holds more than twelve |
| InputGuard.BurstsHeld | src/deck_menu.cpp:2685-2722 | After any run, suspensions and recoveries included, no window of a second holds more than twelve of the edges let through |
| InputGuard.AllPassExactly | src/deck_menu.cpp:2690-2703 | A new guard lets every edge of a run through exactly if no thirteen of them in a row come within a second |
| InputGuard.MenuControllerInputGuard.AcceptEdge | src/deck_menu.cpp:2690-2703 | An edge passes exactly if the guard is not suspended and fewer than twelve passed in the last second; otherwise the guard is suspended |
| InputGuard.MenuControllerInputGuard.RecoverIfQuiet | src/deck_menu.cpp:2705-2714 | A suspended guard recovers exactly at a check a second or more after the last edge |
| InputGuard.MenuControllerInputGuard.Run | src/deck_menu.cpp:2685-2722 | Over any run of edges and checks the guard lets through, and is suspended, exactly as the step on its state says |
| Glyphs.RotateClipCommute | terminal/fbterm/src/screen.cpp:306-329 | Rotating and then clipping picks the same glyph pixel as clipping and then rotating, for all four rotations |
| Glyphs.RectIsImage | terminal/fbterm/src/screen.cpp:338-370 | The rotated rectangle holds exactly the rotated points |
| Glyphs.RotatesBack | terminal/fbterm/src/screen.cpp:372-396 | Rotation is one to one between a field and the rotated field |
| Glyphs.QuarterTurns | terminal/fbterm/src/screen.cpp:372-396 | A turn by 90 degrees takes the top left corner to the top right and rows down; the other turns are two and three of them |
| Glyphs.ClipCovers | terminal/fbterm/src/screen.cpp:286-300 | The clipped rectangle holds exactly the pixels of the visible cell that the glyph has |
| Glyphs.MakeGlyph | terminal/fbterm/src/font.cpp:351-382 | The pixmap is the rotated picture of the rows that reach into the cell; no glyph exactly if none does |
| Glyphs.Screen.FillRect | terminal/fbterm/src/screen.cpp:253-266 | Fills exactly the visible part of a rectangle |
| Glyphs.Screen.DrawGlyph | terminal/fbterm/src/screen.cpp:268-336 | Every visible pixel of the cell shows its pixel of the upright bitmap, or the background, and no other pixel changes |

## Left out

- Terminal: escape-sequence parsing, charset tables, tab stops, insert mode, double-width cells, the cursor overlay, palette, LED and bell requests; the engine is driven by the actions these lead to, and colours by an action that sets the pen.
- Terminal: resizing after the first size; width and height are at most 32767, since counts pass through 16-bit signed numbers, and the history lines and rows together at most 65536.
- Terminal: the text block is modelled as an array of lines, each a row of cells with code and attributes together, instead of two flat arrays indexed by line times width; pending_scroll is an unbounded integer.
- Terminal: a row move is taken to move the rows or to refuse; a window that is not active and reports success without drawing is not modelled.
- Selection: word selection on a double click, and copying the text; dragging below position 0 is excluded by Allowed and covered by DragIsDifference.
- Selection.Shell.MiddleTextSelect: does not model the drag that steps below position 0, because the source then reads its table of lines at rows beyond the screen, whose contents are not defined.
- Selection.Shell.Drag: excludes series with that drag, for the same reason.
- Utf8Decoder.Utf16ToUtf8: requires room for the text and its zero, which the caller's buffer has exactly under the condition of BufferFits.
- Panel: mapping the device, the Wayland path, the exit hint; memory is addressed by row and column instead of by row times stride, and the map size is a whole number of words.
- Sound: opening and closing the device, volume, the stereo mix and the square wave; 64-bit sizes are unbounded; after the writer fails the lost queue is not accounted.
- UTF-8: what an escape sequence does with the bytes after it; the decoder is modelled while none is under way.
- Palette: the tab-separated palette, file handling and the dashboard's fixed list of names; the roles are any list of distinct names that make tokens.
- Palette.SaveAndLoad: with at most 26 roles; the dashboard has 22.
- Catalog: file-system durability and races; reading the upload, lower-casing the title and whether the catalog file can be written are inputs of a request, and the directory for games is a clean absolute path with room for names.
- Catalog: unpacking ZIP archives, and the data of a game as a file: the files there are map paths to contents, links and unreadable files are none of them; the error messages are not modelled.
- Catalog: which built-in file the launcher picks, and its fall-back when the joined file is refused; the file the uploader reads and the one the menu is given are the same.
- Joypads: events and button states; the directory lists event devices only, and whether one opens, is a gamepad of the supported kind and where it stands are facts about it. Sorting is modelled by its result.
- InputGuard: times are milliseconds that do not go back; they are unbounded integers.
- Glyphs: font lookup and rendering, unpacking one-bit bitmaps, the panning offset of the display and blending of colours.
- The CHIP-8, libretro and music players, network service, menu drawing and option parsing: other components, or network and presentation code.
