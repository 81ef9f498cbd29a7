# VtNetCore.Avalonia terminal control, modelled in Dafny

This project models the logic of the Avalonia terminal control `VirtualTerminalControl` in
VtNetCore.Avalonia. The control draws the screen of a VtNetCore terminal engine and turns
pointer, wheel and data events into view, selection and raw-text state. The model covers
these parts:

- **Colour resolution** (`attributes.dfy`, module `Attributes`). It holds the 16-entry
  palette. A cell's foreground and background brushes are chosen by the XOR of three flags:
  global reverse video, the cell's reverse flag, and whether the cell is selected. RGB
  overrides win over the palette, and only the foreground-colour role is shifted by 8 when
  bright. Brushes from the palette are shared objects. An RGB brush is a fresh object each
  time. So `SameBrush` (the source's reference `==`) holds only between palette brushes with
  the same index.
- **Cell coordinates** (`positions.dfy`, module `Positions`). `ToPosition` maps a pixel to a
  cell; only the upper bounds are clamped. A left-button drag builds an ordered
  `TextRange`.
- **The two span passes of Render** (`spans.dfy`, module `Spans`). The background pass merges
  cells with the same brush object. The text pass also requires equal underscore, reverse,
  bright and blink flags, and it collects each cell's character and combining characters.
  Both passes are loops proved against a span-by-span definition. Lemmas show that:
  - the spans tile the line and cover each column exactly once;
  - every cell of a span has the span's brush and flags;
  - adjacent spans could not have been merged;
  - the layout is unique;
  - the text spans spell the line.
- **Blink timing** (`timing.dfy`, module `Timing`). This is Euclid's algorithm as a loop, the
  timer interval `Math.Min(150, GCD(600, 300))`, and the blink phase test. The test shows
  blinking text while the phase is below `BlinkHideMs` (300 ms) and hides it for the other
  600 ms, the length of `BlinkShowMs`. That is the reverse of what the two names suggest; it
  is what the code does, and the model keeps it.
- **Raw-text growth** (`rawtext.dfy`, module `RawTextGrowth`). This is the capacity policy
  of the raw-text buffer.
- **The control** (`control.dfy`, module `Control`, class `TerminalControl`). The class has
  these fields: `ViewTop`, `TextSelection`, `MousePressedAt`, `Selecting`, `MouseOver`, the
  cell and grid sizes, and the `_rawText` array with its length, cached string and dirty
  flag. The handlers are methods with `modifies` clauses. The class invariant `Valid()` says
  that:
  - the length stays inside the array;
  - the cache is current when the dirty flag is clear;
  - a drag in progress always has a selection;
  - every selection is ordered;
  - the cell sizes are non-zero.

The host supplies inputs as parameters: pointer pixels and buttons, the wheel delta, the
engine's top row and change flag, its lines and cursor state, the connection state, the
measured glyph and grid sizes, and the elapsed time in milliseconds. The model takes four
things from the engine as assumptions, because they are not part of this model:
- `TextPosition` equality is value equality.
- `TextPosition <=` is row-major order.
- `TextRange.Within` is the closed row-major interval between start and end.
- `TextRange` inequality is value inequality. `PointerMoved` asks for a redraw only when the
  new drag range differs from the selection in value.

Three behaviours of the code are easy to miss, and the model keeps them:
- A forward drag selects `[anchor, pos - 1 column]` but a backward drag selects
  `[pos, anchor]`, so the two directions are not symmetric (`Positions.DragAsymmetry`).
- `ToPosition` does not raise negative coordinates to 0 (`Positions.ToPositionNoLowerClamp`).
- A view scrolled back into the history does not keep its place. The follow rule in
  `OnDataReceived` moves the view whenever the top row moved and the old top row is at or
  below the view. A wheel scroll always leaves the view at or above the top row, so any
  output that moves the top row brings the view back to it (`Control.ScrolledBackViewJumps`,
  `Control.ScrolledViewAlwaysFollows`).

## Model

| member | source | states |
|---|---|---|
| Attributes.SameBrush | VtNetCore.Avalonia/VirtualTerminalControl.xaml.cs:501 | two brushes are the same object exactly when they are the same palette brush; RGB brushes are never shared |
| Attributes.ToByte | VtNetCore.Avalonia/VirtualTerminalControl.xaml.cs:668 | the unchecked byte cast keeps the value mod 256, in [0, 256) |
| Attributes.SolidBrush | VtNetCore.Avalonia/VirtualTerminalControl.xaml.cs:668 | an RGB override becomes a fresh, fully opaque brush whose red, green and blue are the override's components cast to bytes (equal to them when they are already in [0, 256)) |
| Attributes.ForegroundRole | VtNetCore.Avalonia/VirtualTerminalControl.xaml.cs:692-700 | the foreground-colour role is the RGB override when present; otherwise a palette index below 16, congruent to the colour code mod 8, and at least 8 exactly when bright |
| Attributes.BackgroundRole | VtNetCore.Avalonia/VirtualTerminalControl.xaml.cs:672-675 | the background-colour role is the RGB override when present, otherwise the palette index equal to the colour code, never bright-shifted |
| Attributes.Flip | VtNetCore.Avalonia/VirtualTerminalControl.xaml.cs:656 | the roles are exchanged exactly when an odd number of reverse video, the cell's reverse flag and invert are set |
| Attributes.GetBackgroundBrush | VtNetCore.Avalonia/VirtualTerminalControl.xaml.cs:654-677 | a background brush is a palette index in [0,16) or an opaque RGB brush |
| Attributes.GetForegroundBrush | VtNetCore.Avalonia/VirtualTerminalControl.xaml.cs:679-702 | a foreground brush is a palette index in [0,16) or an opaque RGB brush |
| Attributes.ResolvedRoles | VtNetCore.Avalonia/VirtualTerminalControl.xaml.cs:654-702 | without a flip each resolver returns its own role; with a flip the roles are exchanged |
| Attributes.ResolutionDuality | VtNetCore.Avalonia/VirtualTerminalControl.xaml.cs:654-702 | the background brush with invert equals the foreground brush with !invert, and vice versa |
| Attributes.ToggleOneSwapsRoles | VtNetCore.Avalonia/VirtualTerminalControl.xaml.cs:656 | toggling any one of reverse video, the cell's reverse flag or invert exchanges the two brushes |
| Attributes.ToggleTwoRestoresRoles | VtNetCore.Avalonia/VirtualTerminalControl.xaml.cs:681 | toggling any two of the three flags leaves both brushes unchanged |
| Attributes.PaletteShape | VtNetCore.Avalonia/VirtualTerminalControl.xaml.cs:42-60 | the table has 16 opaque entries and each bright entry is at least as light as its base entry |
| Positions.DragSelection | VtNetCore.Avalonia/VirtualTerminalControl.xaml.cs:262-277 | the drag range is ordered; a forward drag starts at the anchor and ends one column before the pointer, and a backward drag runs from the pointer to the anchor |
| Positions.DragSelectionCovers | VtNetCore.Avalonia/VirtualTerminalControl.xaml.cs:262-277 | a forward drag covers exactly the cells in [anchor, pos) and a backward drag exactly those in [pos, anchor] |
| Positions.DragAsymmetry | VtNetCore.Avalonia/VirtualTerminalControl.xaml.cs:262-277 | dragging p1 to p2 and p2 to p1 select different ranges: the later cell is in only one of them |
| Positions.FloorDiv | VtNetCore.Avalonia/VirtualTerminalControl.xaml.cs:744 | the floor of x / d for either sign of d, as Math.Floor of the quotient |
| Positions.ToPosition | VtNetCore.Avalonia/VirtualTerminalControl.xaml.cs:742-753 | the column and row never exceed columns - 1 and rows - 1; below the cap they are the floor quotients, and the cap applies only when the quotient reaches it |
| Positions.ToPositionInGrid | VtNetCore.Avalonia/VirtualTerminalControl.xaml.cs:742-753 | with positive cell sizes, a non-negative pixel maps into the grid |
| Positions.ToPositionContains | VtNetCore.Avalonia/VirtualTerminalControl.xaml.cs:742-753 | a pixel inside the grid maps to the cell whose pixel box contains it |
| Positions.ToPositionNoLowerClamp | VtNetCore.Avalonia/VirtualTerminalControl.xaml.cs:744-750 | a pixel left of or above the grid gives a negative column or row |
| Spans.Selected | VtNetCore.Avalonia/VirtualTerminalControl.xaml.cs:498 | a cell is selected exactly when there is a selection and the cell lies between its start and end in row-major order, both included |
| Spans.BackgroundAt | VtNetCore.Avalonia/VirtualTerminalControl.xaml.cs:499 | the background brush of a cell is a palette brush below 16 or an RGB brush |
| Spans.ForegroundAt | VtNetCore.Avalonia/VirtualTerminalControl.xaml.cs:545 | the foreground brush of a cell is a palette brush below 16 or an RGB brush |
| Spans.CellBrushRoles | VtNetCore.Avalonia/VirtualTerminalControl.xaml.cs:498-499 | a cell's two brushes are its own colour roles when an even number of reverse video, its reverse flag and its selection are set, and exchanged when an odd number are |
| Spans.CellText | VtNetCore.Avalonia/VirtualTerminalControl.xaml.cs:547 | a cell contributes its character followed by its combining characters |
| Spans.BackgroundJoins | VtNetCore.Avalonia/VirtualTerminalControl.xaml.cs:501 | the background pass merges column c into the span of c - 1 exactly when both cells give the same palette brush |
| Spans.ForegroundJoins | VtNetCore.Avalonia/VirtualTerminalControl.xaml.cs:548-555 | the text pass merges column c into the span of c - 1 exactly when both cells give the same palette brush and agree on underscore, reverse, bright and blink |
| Spans.LineText | VtNetCore.Avalonia/VirtualTerminalControl.xaml.cs:547 | the characters of columns [s, e) have at least one character per cell |
| Spans.RunOf | VtNetCore.Avalonia/VirtualTerminalControl.xaml.cs:545-587 | a text run has the last cell's brush and flags and at least one character per cell; it is drawn iff the cell does not blink or the phase shows blinking text, underlined exactly when drawn and underscored; a blinking cell in the hidden phase is neither drawn nor underlined |
| Spans.BackgroundSpans | VtNetCore.Avalonia/VirtualTerminalControl.xaml.cs:495-518 | the background loop builds the span-by-span background layout of the whole line |
| Spans.TextSpans | VtNetCore.Avalonia/VirtualTerminalControl.xaml.cs:540-593 | the text loop builds the span-by-span text layout; each span carries its cells' characters and its drawn and underlined flags |
| Spans.BackgroundRunsIsLayout | VtNetCore.Avalonia/VirtualTerminalControl.xaml.cs:495-518 | the built background spans are exactly the spans that tile the line, each joined inside and split at its start |
| Spans.TextRunsIsLayout | VtNetCore.Avalonia/VirtualTerminalControl.xaml.cs:540-593 | the built text spans are exactly the spans that tile the line, each joined inside and split at its start |
| Spans.TilesOrdered | VtNetCore.Avalonia/VirtualTerminalControl.xaml.cs:496-518 | the spans of a tiling are in column order and inside the line |
| Spans.TilesCover | VtNetCore.Avalonia/VirtualTerminalControl.xaml.cs:496-518 | every column lies in exactly one span |
| Spans.BackgroundSpanUniform | VtNetCore.Avalonia/VirtualTerminalControl.xaml.cs:499-505 | every cell of a background span has the span's brush, and a span of several cells uses a palette brush |
| Spans.TextSpanUniform | VtNetCore.Avalonia/VirtualTerminalControl.xaml.cs:545-587 | every cell of a text span has its brush and flags; a span is drawn iff it does not blink or the blink phase shows it, and underlined iff drawn and underscored |
| Spans.BackgroundLayoutUnique | VtNetCore.Avalonia/VirtualTerminalControl.xaml.cs:495-518 | a line has only one background layout |
| Spans.TextLayoutUnique | VtNetCore.Avalonia/VirtualTerminalControl.xaml.cs:540-593 | a line has only one text layout |
| Spans.LineTextSplit | VtNetCore.Avalonia/VirtualTerminalControl.xaml.cs:547 | the characters of [a, c) are those of [a, b) followed by those of [b, c) |
| Spans.TextSpansSpellLine | VtNetCore.Avalonia/VirtualTerminalControl.xaml.cs:547 | the texts of the spans, one after another, are every character and combining character of the line in order |
| Timing.Gcd | VtNetCore.Avalonia/VirtualTerminalControl.xaml.cs:27-40 | with b != 0 the result is the positive greatest common divisor of a and b; with b == 0 the division fails |
| Timing.GcdUnique | VtNetCore.Avalonia/VirtualTerminalControl.xaml.cs:27-40 | two greatest common divisors of one pair are equal |
| Timing.DefaultDurationsGcd | VtNetCore.Avalonia/VirtualTerminalControl.xaml.cs:18-19 | the gcd of the 600 ms show and 300 ms hide durations is 300 |
| Timing.BlinkTimerInterval | VtNetCore.Avalonia/VirtualTerminalControl.xaml.cs:132 | the blink timer ticks every 150 ms |
| Timing.BlinkVisibleAsWritten | VtNetCore.Avalonia/VirtualTerminalControl.xaml.cs:458-463 | the test as written is the phase test applied to the millisecond component (elapsed mod 1000), so it agrees with the whole-time test only during the first second |
| Timing.BlinkVisible | VtNetCore.Avalonia/VirtualTerminalControl.xaml.cs:458-463 | the corrected test shows blinking text during the first 300 ms of the first cycle, and every later time behaves as the same time one 900 ms cycle earlier |
| Timing.BlinkAsWrittenNotPeriodic | VtNetCore.Avalonia/VirtualTerminalControl.xaml.cs:458-463 | the phase test as written hides at 300 ms but shows at 1200 ms, one cycle later |
| Timing.BlinkPeriodic | VtNetCore.Avalonia/VirtualTerminalControl.xaml.cs:458-463 | the corrected phase test repeats every 900 ms cycle |
| Timing.BlinkPhase | VtNetCore.Avalonia/VirtualTerminalControl.xaml.cs:458-463 | in every cycle the corrected test shows blinking text exactly during the first 300 ms |
| RawTextGrowth.GrowAsWritten | VtNetCore.Avalonia/VirtualTerminalControl.xaml.cs:448-449 | the source's check-and-resize keeps the capacity exactly when the batch fits and otherwise adds one step of 1,000,000; the batch then fits whenever it is within one step of the capacity |
| RawTextGrowth.GrowAsWrittenOverflows | VtNetCore.Avalonia/VirtualTerminalControl.xaml.cs:448-452 | one enlargement of an empty buffer cannot hold a batch of 1,000,001 characters |
| RawTextGrowth.GrownCapacity | VtNetCore.Avalonia/VirtualTerminalControl.xaml.cs:448-449 | the grown capacity holds the batch; it adds whole steps of 1,000,000 and stops at the first one that fits |
| RawTextGrowth.GrownCapacityAgrees | VtNetCore.Avalonia/VirtualTerminalControl.xaml.cs:448-449 | when one step suffices, the grown capacity is the source's |
| RawTextGrowth.GrownCapacityFits | VtNetCore.Avalonia/VirtualTerminalControl.xaml.cs:448 | a buffer with room is not enlarged |
| Control.WheelRows | VtNetCore.Avalonia/VirtualTerminalControl.xaml.cs:233 | the rows scrolled are delta / 40 truncated toward zero |
| Control.WheelRowsOdd | VtNetCore.Avalonia/VirtualTerminalControl.xaml.cs:233 | opposite wheel deltas scroll opposite row counts |
| Control.ScrolledViewTop | VtNetCore.Avalonia/VirtualTerminalControl.xaml.cs:231-238 | after a scroll the view top is in [0, topRow]; it is the moved view when that is in range, and each out-of-range side is clamped to its bound |
| Control.SmallScrollKeepsView | VtNetCore.Avalonia/VirtualTerminalControl.xaml.cs:233 | a wheel delta below one row does not move a view that is in range |
| Control.ScrollDirection | VtNetCore.Avalonia/VirtualTerminalControl.xaml.cs:233-238 | a positive delta never moves the view down and a negative one never moves it up |
| Control.FollowedViewTop | VtNetCore.Avalonia/VirtualTerminalControl.xaml.cs:432-433 | when the top row moved and the old top row was at or below the view, the view top becomes the new top row; otherwise it stays |
| Control.FollowingViewKeepsFollowing | VtNetCore.Avalonia/VirtualTerminalControl.xaml.cs:432-433 | a view showing the old top row moves to the new top row |
| Control.ScrolledBackViewJumps | VtNetCore.Avalonia/VirtualTerminalControl.xaml.cs:432-433 | a view above the old top row, scrolled back into the history, jumps to the new top row once the top row moves |
| Control.ScrolledViewAlwaysFollows | VtNetCore.Avalonia/VirtualTerminalControl.xaml.cs:229-242 | after any wheel scroll, output that moves the top row moves the view to it |
| Control.ViewStaysIff | VtNetCore.Avalonia/VirtualTerminalControl.xaml.cs:432-433 | the view stays exactly when the top row did not move, the view was below the old top row, or the view already was the new top row |
| Control.CursorScreenRow | VtNetCore.Avalonia/VirtualTerminalControl.xaml.cs:601 | the cursor's screen row is its row offset by topRow - viewTop; it is its own row when the view is at the top row |
| Control.FollowedCursorOnItsRow | VtNetCore.Avalonia/VirtualTerminalControl.xaml.cs:432-433 | after output with the view following, the cursor is drawn on its own row |
| Control.ButtonCode | VtNetCore.Avalonia/VirtualTerminalControl.xaml.cs:323-326 | the button code is 0 iff left is held, 1 iff right without left, and 2 otherwise |
| Control.PressReport | VtNetCore.Avalonia/VirtualTerminalControl.xaml.cs:318-329 | a press report exists iff connected and on the grid, with the cell, the button code and the modifiers |
| Control.ReleaseReport | VtNetCore.Avalonia/VirtualTerminalControl.xaml.cs:359-365 | a release report exists iff connected and on the grid, with the cell and the modifiers |
| Control.DragRange | VtNetCore.Avalonia/VirtualTerminalControl.xaml.cs:260-277 | no range without an anchor or on the anchor itself; otherwise the ordered drag range |
| Control.Resize | VtNetCore.Avalonia/VirtualTerminalControl.xaml.cs:449 | the grown array is fresh and keeps the old elements first |
| Control.Append | VtNetCore.Avalonia/VirtualTerminalControl.xaml.cs:451-452 | the copy loop puts the incoming characters right after the old prefix |
| Control.TerminalControl.constructor | VtNetCore.Avalonia/VirtualTerminalControl.xaml.cs:82-134 | a new control has nothing measured (-1), view top 0, no selection or anchor, the pointer over (0,0), an empty buffer in a new array of its own, and a 150 ms blink interval |
| Control.TerminalControl.PointerCell | VtNetCore.Avalonia/VirtualTerminalControl.xaml.cs:247-248 | the cell under the pointer never passes the last column or row; with measured cells and a non-negative pixel it is on the grid, and inside the grid it is the column whose pixels contain x |
| Control.TerminalControl.ApplyTextFormat | VtNetCore.Avalonia/VirtualTerminalControl.xaml.cs:712-729 | the cell size is taken over; the grid changes and a resize is reported exactly when its size differs |
| Control.TerminalControl.PointerMoved | VtNetCore.Avalonia/VirtualTerminalControl.xaml.cs:245-295 | a move onto the same cell changes nothing; otherwise the pointer cell is recorded, and a left drag selects the drag range and redraws exactly when the range differs |
| Control.TerminalControl.PointerLeave | VtNetCore.Avalonia/VirtualTerminalControl.xaml.cs:297-305 | no cell is under the pointer and the control redraws |
| Control.TerminalControl.PointerPressed | VtNetCore.Avalonia/VirtualTerminalControl.xaml.cs:307-330 | left anchors the drag at the buffer cell; else right requests a paste; the press report follows the guard |
| Control.TerminalControl.PointerReleased | VtNetCore.Avalonia/VirtualTerminalControl.xaml.cs:332-366 | a release without left ends a drag and hands back its range, or else drops the selection and redraws; the release report follows the guard |
| Control.TerminalControl.ScrollWheel | VtNetCore.Avalonia/VirtualTerminalControl.xaml.cs:229-242 | the view top becomes the clamped scrolled value, and the control redraws exactly when it changed |
| Control.TerminalControl.ProcessRawText | VtNetCore.Avalonia/VirtualTerminalControl.xaml.cs:442-456 | the length grows by the batch; the contents are the old contents followed by the batch; the capacity follows the growth policy; the array is the old one or a new one, never one the caller holds; the cache is marked stale |
| Control.TerminalControl.RawText | VtNetCore.Avalonia/VirtualTerminalControl.xaml.cs:104-119 | returns every character recorded so far and clears the dirty flag |
| Control.TerminalControl.DataReceived | VtNetCore.Avalonia/VirtualTerminalControl.xaml.cs:419-440 | on a change, the batch is appended, the view follows the top row by the follow rule, and the control redraws; otherwise nothing changes |
| Control.TerminalControl.BackgroundPass | VtNetCore.Avalonia/VirtualTerminalControl.xaml.cs:478-521 | a null line is skipped but still takes a row; line i is drawn as buffer row viewTop + i with its background layout |
| Control.TerminalControl.TextPass | VtNetCore.Avalonia/VirtualTerminalControl.xaml.cs:524-597 | a null line is skipped but still takes a row; line i is drawn as buffer row viewTop + i with its text layout |
| Control.TerminalControl.Paint | VtNetCore.Avalonia/VirtualTerminalControl.xaml.cs:471-617 | the frame is filled with the cursor attribute's background, then both passes run, then a visible cursor is boxed on its screen row, filled when focused |
| Control.TerminalControl.Render | VtNetCore.Avalonia/VirtualTerminalControl.xaml.cs:465-624 | Render applies the text format first, then paints the fill, both passes (null lines skipped, line i as row viewTop + i) with the blink phase of the elapsed time, and the cursor box on its screen row |

## Left out

- Drawing geometry is left out. That covers `Rect` coordinates and the `+ 0.9` fudge, the
  0.6 background opacity, the double-width and double-height scaling, `FormattedText`, and
  the `AnnotateView` debug overlay. A span keeps only its columns and its brush or text.
- Paint order within a pass is not modelled. The frame records what each pass draws, line
  by line, and the background pass comes before the text pass.
- Font measurement and grid sizing use floating point. The measured glyph size and the
  grid size it yields are parameters of `ApplyTextFormat`. A zero-sized glyph is excluded.
- Cell sizes, pointer pixels and the wheel delta are modelled as integers, not as the
  source's doubles.
- The Ctrl+wheel font-size zoom is left out because it is floating point.
- Concurrency is not modelled: the locks, the `DispatcherTimer`, the `Task.Run` sends and
  the asynchronous clipboard. Only the sequential effect of each handler is kept.
- `PasteClipboard`/`PasteText` appear only as the paste request that `PointerPressed`
  returns. Reading the clipboard and sending it as UTF-8 are foreign calls.
- The engine is not part of this model. That covers `VirtualTerminalController` and
  `DataConsumer`: `GetLines`, `GetText`, `MousePress` and `MouseRelease`, `ResizeView`,
  `Push`, `ClearChanges`, and the engine's `RawText`. Their inputs and outputs are
  parameters and results.
- The `SetTerminalWindowSize` notice is not modelled. It is folded into the `resized` result.
- `OnKeyDown`, `OnTextInput`, `OnGotFocus`/`OnLostFocus`, `OnSendData`,
  `OnWindowTitleChanged` and `OnLog` are left out because they are thin dispatch to the
  engine or the connection.
- `Connected`, `ConnectTo` and `Disconnect` are wrappers over `IConnection`. The connection
  state is a parameter.
- Debug output (`DebugMouse`, `DebugSelect`, `ViewDebugging`) is left out.
- `TerminalIdleSince` is left out because it is a clock read.
- `Timing.Gcd`: works on unbounded integers. It does not model the overflow of `Math.Abs`
  on `long.MinValue`.
- `Timing.BlinkVisible`: the elapsed time is a whole number of milliseconds passed in by the
  caller. In the source each span reads the clock separately; here one phase is used per
  frame.
- `Control.TerminalControl.Render`: paints with the corrected blink test `Timing.BlinkVisible`,
  not the test at line 462 (see Findings). At 1200 ms the source draws blinking text; this
  model hides it.
- `Control.TerminalControl.ProcessRawText`: grows the array by as many steps as the batch
  needs (`RawTextGrowth.GrownCapacity`). The source grows it once and fails with an index out
  of range for a batch larger than the free space plus 1,000,000 (see Findings). The model
  does not capture that failure.
- `Control.TerminalControl.PointerReleased`: returns the captured range rather than the
  text, because `GetText` belongs to the engine.

## Findings

| source | as written | input that shows it | evidently intended | confidence | as-written member | corrected member |
|---|---|---|---|---|---|---|
| VtNetCore.Avalonia/VirtualTerminalControl.xaml.cs:462 | the phase is the `Milliseconds` component (0-999) of the elapsed time, reduced mod the 900 ms cycle | elapsed 1200 ms: the component is 200, so the text shows, though 1200 mod 900 = 300 is in the hidden part; 300 ms hides and 1200 ms shows, one cycle apart | the total elapsed milliseconds reduced mod 900, so the test repeats every cycle | not executed | Timing.BlinkAsWrittenNotPeriodic | Timing.BlinkPeriodic |
| VtNetCore.Avalonia/VirtualTerminalControl.xaml.cs:448-452 | the array is enlarged by 1,000,000 slots once, whatever the batch size | an empty buffer and a batch of 1,000,001 characters: after one enlargement the copy loop indexes past the end of the array, and the bounds check throws an IndexOutOfRangeException | enlarge until the batch fits | not executed | RawTextGrowth.GrowAsWrittenOverflows | RawTextGrowth.GrownCapacity |
