/**
 * The two span passes that Render runs over each terminal line: a background pass that
 * merges cells painted with the same brush object, and a text pass that also requires the
 * same underscore, reverse, bright and blink flags and collects the characters to draw.
 * Pixel geometry is left out: a span is the half-open column run [start, end).
 */
module Spans {
  import opened Wrappers
  import opened Attributes
  import opened Positions

  /** One grid cell of a line as the engine hands it out. */
  datatype Cell = Cell(ch: char, combining: string, attributes: TerminalAttribute)

  type Line = seq<Cell>

  /** A run of columns [start, end) painted one way. */
  datatype Span<T> = Span(start: nat, end: nat, paint: T)

  /** The flags that, besides the brush, must agree for two cells to share a text span. */
  datatype Style = Style(underscore: bool, reverse: bool, bright: bool, blink: bool)

  /** What a text span draws: its brush, its flags, its characters, whether it is drawn this
   * frame and whether it is underlined. */
  datatype TextRun = TextRun(brush: Brush, style: Style, text: string, drawn: bool, underlined: bool)

  /** What a pass knows about the line it walks: its buffer row, the global reverse-video
   * mode and the current selection. */
  datatype RowContext = RowContext(row: int, reverseVideo: bool, selection: Option<TextRange>)

  /** Whether cell (column, row) is inside the current selection; no selection selects nothing. */
  function Selected(selection: Option<TextRange>, column: int, row: int): (selected: bool)
    ensures selection.None? ==> !selected
    ensures selection.Some? ==> (selected <==>
      PosLe(selection.value.start, TextPosition(column, row)) &&
      PosLe(TextPosition(column, row), selection.value.end))
  {
    selection.Some? && Within(selection.value, column, row)
  }

  function StyleOf(a: TerminalAttribute): Style {
    Style(a.underscore, a.reverse, a.bright, a.blink)
  }

  /** The background brush of column c: the cell's background role, exchanged with its
   * foreground role by reverse video, the cell's reverse flag and selection. */
  function BackgroundAt(line: Line, ctx: RowContext, c: nat): (b: Brush)
    requires c < |line|
    ensures b.Palette? ==> b.index < PaletteSize
  {
    GetBackgroundBrush(ctx.reverseVideo, line[c].attributes, Selected(ctx.selection, c, ctx.row))
  }

  /** The foreground brush of column c: the cell's foreground role, exchanged with its
   * background role by reverse video, the cell's reverse flag and selection. */
  function ForegroundAt(line: Line, ctx: RowContext, c: nat): (b: Brush)
    requires c < |line|
    ensures b.Palette? ==> b.index < PaletteSize
  {
    GetForegroundBrush(ctx.reverseVideo, line[c].attributes, Selected(ctx.selection, c, ctx.row))
  }

  /** The two brushes of a cell are its two colour roles, exchanged exactly when an odd number
   * of reverse video, the cell's reverse flag and selection are set. */
  lemma CellBrushRoles(line: Line, ctx: RowContext, c: nat)
    requires c < |line|
    ensures var a := line[c].attributes;
      var flips := (if ctx.reverseVideo then 1 else 0) + (if a.reverse then 1 else 0) +
        (if Selected(ctx.selection, c, ctx.row) then 1 else 0);
      (flips % 2 == 0 ==> BackgroundAt(line, ctx, c) == BackgroundRole(a) && ForegroundAt(line, ctx, c) == ForegroundRole(a)) &&
      (flips % 2 == 1 ==> BackgroundAt(line, ctx, c) == ForegroundRole(a) && ForegroundAt(line, ctx, c) == BackgroundRole(a))
  {
    ResolvedRoles(ctx.reverseVideo, line[c].attributes, Selected(ctx.selection, c, ctx.row));
  }

  /** Whether the background pass carries the span of column c - 1 on into column c. */
  function BackgroundJoins(line: Line, ctx: RowContext, c: int): (joins: bool)
    ensures joins <==> (
      0 < c < |line| && BackgroundAt(line, ctx, c).Palette? &&
      BackgroundAt(line, ctx, c) == BackgroundAt(line, ctx, c - 1))
  {
    0 < c < |line| && SameBrush(BackgroundAt(line, ctx, c), BackgroundAt(line, ctx, c - 1))
  }

  /** Whether the text pass carries the span of column c - 1 on into column c. */
  function ForegroundJoins(line: Line, ctx: RowContext, c: int): (joins: bool)
    ensures joins <==> (
      0 < c < |line| && ForegroundAt(line, ctx, c).Palette? &&
      ForegroundAt(line, ctx, c) == ForegroundAt(line, ctx, c - 1) &&
      line[c].attributes.underscore == line[c - 1].attributes.underscore &&
      line[c].attributes.reverse == line[c - 1].attributes.reverse &&
      line[c].attributes.bright == line[c - 1].attributes.bright &&
      line[c].attributes.blink == line[c - 1].attributes.blink)
  {
    0 < c < |line| &&
    SameBrush(ForegroundAt(line, ctx, c), ForegroundAt(line, ctx, c - 1)) &&
    StyleOf(line[c].attributes) == StyleOf(line[c - 1].attributes)
  }

  /** A cell's character followed by its combining characters. */
  function CellText(cell: Cell): (text: string)
    ensures |text| == 1 + |cell.combining|
    ensures text[0] == cell.ch && text[1..] == cell.combining
  {
    [cell.ch] + cell.combining
  }

  function LineText(line: Line, s: nat, e: nat): (text: string)
    requires s <= e <= |line|
    ensures |text| >= e - s
    decreases e - s
  {
    if s == e then "" else LineText(line, s, e - 1) + CellText(line[e - 1])
  }

  /** The texts of a sequence of text spans, one after the other. */
  function SpanTexts(spans: seq<Span<TextRun>>): string {
    if spans == [] then "" else SpanTexts(spans[..|spans| - 1]) + spans[|spans| - 1].paint.text
  }

  ghost predicate BackgroundJoinedThrough(line: Line, ctx: RowContext, s: nat, e: nat) {
    forall c :: s < c < e ==> BackgroundJoins(line, ctx, c)
  }

  ghost predicate ForegroundJoinedThrough(line: Line, ctx: RowContext, s: nat, e: nat) {
    forall c :: s < c < e ==> ForegroundJoins(line, ctx, c)
  }

  /** One background span: not empty, inside the line, painted with the brush of its last cell,
   * merging every cell that continues its predecessor and starting at a cell that does not. */
  ghost predicate BackgroundSpanOk(line: Line, ctx: RowContext, x: Span<Brush>) {
    x.start < x.end <= |line| &&
    x.paint == BackgroundAt(line, ctx, x.end - 1) &&
    BackgroundJoinedThrough(line, ctx, x.start, x.end) &&
    !BackgroundJoins(line, ctx, x.start)
  }

  /** One text span: as for the background, with the text pass's joins, drawing RunOf its columns. */
  ghost predicate TextSpanOk(line: Line, ctx: RowContext, showBlink: bool, x: Span<TextRun>) {
    x.start < x.end <= |line| &&
    x.paint == RunOf(line, ctx, showBlink, x.start, x.end) &&
    ForegroundJoinedThrough(line, ctx, x.start, x.end) &&
    !ForegroundJoins(line, ctx, x.start)
  }

  /** The background spans of columns [0, upto), built span by span as the pass closes them. */
  ghost predicate BackgroundRuns(line: Line, ctx: RowContext, spans: seq<Span<Brush>>, upto: nat)
    decreases |spans|
  {
    if spans == [] then upto == 0
    else
      var x := spans[|spans| - 1];
      x.end == upto && BackgroundSpanOk(line, ctx, x) &&
      BackgroundRuns(line, ctx, spans[..|spans| - 1], x.start)
  }

  /** The text spans of columns [0, upto), built span by span as the pass closes them. */
  ghost predicate TextRuns(line: Line, ctx: RowContext, showBlink: bool, spans: seq<Span<TextRun>>, upto: nat)
    decreases |spans|
  {
    if spans == [] then upto == 0
    else
      var x := spans[|spans| - 1];
      x.end == upto && TextSpanOk(line, ctx, showBlink, x) &&
      TextRuns(line, ctx, showBlink, spans[..|spans| - 1], x.start)
  }

  /** The text run drawn for columns [s, e): brush and flags of the last cell, the cells'
   * characters, hidden when blinking in the hidden phase, underlined when drawn and underscored. */
  function RunOf(line: Line, ctx: RowContext, showBlink: bool, s: nat, e: nat): (r: TextRun)
    requires s < e <= |line|
    ensures r.brush == ForegroundAt(line, ctx, e - 1) && r.style == StyleOf(line[e - 1].attributes)
    ensures |r.text| >= e - s
    ensures r.drawn <==> !line[e - 1].attributes.blink || showBlink
    ensures r.underlined <==> r.drawn && line[e - 1].attributes.underscore
    ensures line[e - 1].attributes.blink && !showBlink ==> !r.drawn && !r.underlined
  {
    var a := line[e - 1].attributes;
    var drawn := !a.blink || showBlink;
    TextRun(ForegroundAt(line, ctx, e - 1), StyleOf(a), LineText(line, s, e), drawn, drawn && a.underscore)
  }

  /** The background pass of Render over one line. */
  method BackgroundSpans(line: Line, ctx: RowContext) returns (spans: seq<Span<Brush>>)
    ensures BackgroundRuns(line, ctx, spans, |line|)
  {
    spans := [];
    var column := 0;
    var spanStart := 0;
    while column < |line|
      invariant 0 <= spanStart <= column <= |line|
      invariant spanStart < column ==> column < |line|
      invariant BackgroundRuns(line, ctx, spans, spanStart)
      invariant column < |line| ==> BackgroundJoinedThrough(line, ctx, spanStart, column + 1)
      invariant !BackgroundJoins(line, ctx, spanStart)
    {
      var backgroundColor := BackgroundAt(line, ctx, column);
      if column < |line| - 1 && SameBrush(BackgroundAt(line, ctx, column + 1), backgroundColor) {
        assert BackgroundJoins(line, ctx, column + 1);
        column := column + 1;
      } else {
        assert !BackgroundJoins(line, ctx, column + 1);
        var spans' := spans + [Span(spanStart, column + 1, backgroundColor)];
        assert spans'[..|spans|] == spans;
        spans := spans';
        column := column + 1;
        spanStart := column;
      }
    }
  }

  /** The text pass of Render over one line; showBlink is the blink phase when spans are drawn. */
  /** Closing the text span [s, e) extends the runs built so far from s to e. */
  lemma TextRunsSnoc(line: Line, ctx: RowContext, showBlink: bool, spans: seq<Span<TextRun>>, s: nat, e: nat)
    requires s < e <= |line|
    requires TextRuns(line, ctx, showBlink, spans, s)
    requires ForegroundJoinedThrough(line, ctx, s, e) && !ForegroundJoins(line, ctx, s)
    ensures TextRuns(line, ctx, showBlink, spans + [Span(s, e, RunOf(line, ctx, showBlink, s, e))], e)
  {
    var spans' := spans + [Span(s, e, RunOf(line, ctx, showBlink, s, e))];
    assert spans'[..|spans|] == spans;
  }

  method TextSpans(line: Line, ctx: RowContext, showBlink: bool) returns (spans: seq<Span<TextRun>>)
    ensures TextRuns(line, ctx, showBlink, spans, |line|)
  {
    spans := [];
    var column := 0;
    var spanStart := 0;
    var toDisplay := "";
    while column < |line|
      invariant 0 <= spanStart <= column <= |line|
      invariant spanStart < column ==> column < |line|
      invariant TextRuns(line, ctx, showBlink, spans, spanStart)
      invariant column < |line| ==> ForegroundJoinedThrough(line, ctx, spanStart, column + 1)
      invariant !ForegroundJoins(line, ctx, spanStart)
      invariant toDisplay == LineText(line, spanStart, column)
    {
      var foregroundColor := ForegroundAt(line, ctx, column);
      toDisplay := toDisplay + CellText(line[column]);
      assert toDisplay == LineText(line, spanStart, column + 1);
      if column < |line| - 1 &&
         SameBrush(ForegroundAt(line, ctx, column + 1), foregroundColor) &&
         line[column + 1].attributes.underscore == line[column].attributes.underscore &&
         line[column + 1].attributes.reverse == line[column].attributes.reverse &&
         line[column + 1].attributes.bright == line[column].attributes.bright &&
         line[column + 1].attributes.blink == line[column].attributes.blink
      {
        assert ForegroundJoins(line, ctx, column + 1);
        column := column + 1;
      } else {
        assert !ForegroundJoins(line, ctx, column + 1);
        var a := line[column].attributes;
        var drawn := !a.blink || (a.blink && showBlink);
        var run := TextRun(foregroundColor, StyleOf(a), toDisplay, drawn, drawn && a.underscore);
        assert run == RunOf(line, ctx, showBlink, spanStart, column + 1);
        TextRunsSnoc(line, ctx, showBlink, spans, spanStart, column + 1);
        spans := spans + [Span(spanStart, column + 1, run)];
        column := column + 1;
        spanStart := column;
        toDisplay := "";
      }
    }
  }

  // Properties of the layouts the two passes produce.

  /** The spans cut [0, n) into consecutive, non-empty, non-overlapping runs. */
  ghost predicate Tiles<T>(spans: seq<Span<T>>, n: nat) {
    (|spans| == 0 <==> n == 0) &&
    (|spans| > 0 ==> spans[0].start == 0 && spans[|spans| - 1].end == n) &&
    (forall k :: 0 <= k < |spans| ==> spans[k].start < spans[k].end) &&
    (forall j, k :: 0 <= j && k == j + 1 && k < |spans| ==> spans[j].end == spans[k].start)
  }

  /** The background layout stated span by span rather than built up. */
  ghost predicate IsBackgroundLayout(line: Line, ctx: RowContext, spans: seq<Span<Brush>>, n: nat) {
    Tiles(spans, n) && forall k :: 0 <= k < |spans| ==> BackgroundSpanOk(line, ctx, spans[k])
  }

  /** The text layout stated span by span rather than built up. */
  ghost predicate IsTextLayout(line: Line, ctx: RowContext, showBlink: bool, spans: seq<Span<TextRun>>, n: nat) {
    Tiles(spans, n) && forall k :: 0 <= k < |spans| ==> TextSpanOk(line, ctx, showBlink, spans[k])
  }

  /** Appending a non-empty span that starts where a tiling ends extends the tiling. */
  lemma TilesSnoc<T>(init: seq<Span<T>>, x: Span<T>)
    requires Tiles(init, x.start) && x.start < x.end
    ensures Tiles(init + [x], x.end)
  {
    var spans := init + [x];
    assert forall k :: 0 <= k < |init| ==> spans[k] == init[k];
  }

  /** Dropping the last span of a tiling leaves a tiling of the columns before it. */
  lemma TilesInit<T>(spans: seq<Span<T>>, n: nat)
    requires Tiles(spans, n) && spans != []
    ensures Tiles(spans[..|spans| - 1], spans[|spans| - 1].start)
  {
    var init := spans[..|spans| - 1];
    assert forall k :: 0 <= k < |init| ==> init[k] == spans[k];
    if |init| > 0 {
      assert spans[|init| - 1].end == spans[|init|].start;
    }
  }

  lemma {:induction false} BackgroundRunsToLayout(line: Line, ctx: RowContext, spans: seq<Span<Brush>>, n: nat)
    requires BackgroundRuns(line, ctx, spans, n)
    ensures IsBackgroundLayout(line, ctx, spans, n)
    decreases |spans|
  {
    if spans != [] {
      var init := spans[..|spans| - 1];
      var x := spans[|spans| - 1];
      BackgroundRunsToLayout(line, ctx, init, x.start);
      TilesSnoc(init, x);
      assert spans == init + [x];
      assert forall k :: 0 <= k < |init| ==> init[k] == spans[k];
    }
  }

  lemma {:induction false} BackgroundLayoutToRuns(line: Line, ctx: RowContext, spans: seq<Span<Brush>>, n: nat)
    requires IsBackgroundLayout(line, ctx, spans, n)
    ensures BackgroundRuns(line, ctx, spans, n)
    decreases |spans|
  {
    if spans != [] {
      var init := spans[..|spans| - 1];
      TilesInit(spans, n);
      assert forall k :: 0 <= k < |init| ==> init[k] == spans[k];
      BackgroundLayoutToRuns(line, ctx, init, spans[|spans| - 1].start);
    }
  }

  /** The spans the background pass builds are exactly the span-by-span layout. */
  lemma BackgroundRunsIsLayout(line: Line, ctx: RowContext, spans: seq<Span<Brush>>, n: nat)
    ensures BackgroundRuns(line, ctx, spans, n) <==> IsBackgroundLayout(line, ctx, spans, n)
  {
    if BackgroundRuns(line, ctx, spans, n) {
      BackgroundRunsToLayout(line, ctx, spans, n);
    }
    if IsBackgroundLayout(line, ctx, spans, n) {
      BackgroundLayoutToRuns(line, ctx, spans, n);
    }
  }

  lemma {:induction false} TextRunsToLayout(line: Line, ctx: RowContext, showBlink: bool, spans: seq<Span<TextRun>>, n: nat)
    requires TextRuns(line, ctx, showBlink, spans, n)
    ensures IsTextLayout(line, ctx, showBlink, spans, n)
    decreases |spans|
  {
    if spans != [] {
      var init := spans[..|spans| - 1];
      var x := spans[|spans| - 1];
      TextRunsToLayout(line, ctx, showBlink, init, x.start);
      TilesSnoc(init, x);
      assert spans == init + [x];
      assert forall k :: 0 <= k < |init| ==> init[k] == spans[k];
    }
  }

  lemma {:induction false} TextLayoutToRuns(line: Line, ctx: RowContext, showBlink: bool, spans: seq<Span<TextRun>>, n: nat)
    requires IsTextLayout(line, ctx, showBlink, spans, n)
    ensures TextRuns(line, ctx, showBlink, spans, n)
    decreases |spans|
  {
    if spans != [] {
      var init := spans[..|spans| - 1];
      TilesInit(spans, n);
      assert forall k :: 0 <= k < |init| ==> init[k] == spans[k];
      TextLayoutToRuns(line, ctx, showBlink, init, spans[|spans| - 1].start);
    }
  }

  /** The spans the text pass builds are exactly the span-by-span layout. */
  lemma TextRunsIsLayout(line: Line, ctx: RowContext, showBlink: bool, spans: seq<Span<TextRun>>, n: nat)
    ensures TextRuns(line, ctx, showBlink, spans, n) <==> IsTextLayout(line, ctx, showBlink, spans, n)
  {
    if TextRuns(line, ctx, showBlink, spans, n) {
      TextRunsToLayout(line, ctx, showBlink, spans, n);
    }
    if IsTextLayout(line, ctx, showBlink, spans, n) {
      TextLayoutToRuns(line, ctx, showBlink, spans, n);
    }
  }

  /** Earlier spans of a tiling lie wholly before later ones, and all of them inside [0, n). */
  lemma {:induction false} TilesOrdered<T>(spans: seq<Span<T>>, n: nat)
    requires Tiles(spans, n)
    ensures forall k :: 0 <= k < |spans| ==> spans[k].end <= n
    ensures forall j, k :: 0 <= j < k < |spans| ==> spans[j].end <= spans[k].start
    decreases |spans|
  {
    if spans != [] {
      var init := spans[..|spans| - 1];
      var x := spans[|spans| - 1];
      TilesInit(spans, n);
      TilesOrdered(init, x.start);
      assert forall k :: 0 <= k < |init| ==> init[k] == spans[k];
    }
  }

  /** Every column of [0, n) lies in exactly one span of a tiling. */
  lemma {:induction false} TilesCover<T>(spans: seq<Span<T>>, n: nat, c: nat)
    requires Tiles(spans, n) && c < n
    ensures exists k :: 0 <= k < |spans| && spans[k].start <= c < spans[k].end
    ensures forall j, k ::
      (0 <= j < |spans| && 0 <= k < |spans| &&
       spans[j].start <= c < spans[j].end && spans[k].start <= c < spans[k].end) ==> j == k
    decreases |spans|
  {
    TilesOrdered(spans, n);
    var init := spans[..|spans| - 1];
    var x := spans[|spans| - 1];
    if c < x.start {
      TilesInit(spans, n);
      TilesCover(init, x.start, c);
      var k :| 0 <= k < |init| && init[k].start <= c < init[k].end;
      assert spans[k] == init[k];
    } else {
      assert spans[|spans| - 1].start <= c < spans[|spans| - 1].end;
    }
  }

  /** Inside a background span every cell has the span's brush, and a span of more than one
   * cell is painted from the palette: a direct RGB brush is a fresh object and never merges. */
  lemma BackgroundSpanUniform(line: Line, ctx: RowContext, x: Span<Brush>)
    requires BackgroundSpanOk(line, ctx, x)
    ensures forall c :: x.start <= c < x.end ==> BackgroundAt(line, ctx, c) == x.paint
    ensures x.end - x.start > 1 ==> x.paint.Palette?
  {
    forall c | x.start <= c < x.end
      ensures BackgroundAt(line, ctx, c) == x.paint
    {
      BackgroundJoinedSame(line, ctx, x.start, x.end, c);
    }
    if x.end - x.start > 1 {
      assert BackgroundJoins(line, ctx, x.end - 1);
    }
  }

  lemma {:induction false} BackgroundJoinedSame(line: Line, ctx: RowContext, s: nat, e: nat, c: nat)
    requires s <= c < e <= |line| && BackgroundJoinedThrough(line, ctx, s, e)
    ensures BackgroundAt(line, ctx, c) == BackgroundAt(line, ctx, e - 1)
    decreases e - c
  {
    if c < e - 1 {
      assert BackgroundJoins(line, ctx, c + 1);
      BackgroundJoinedSame(line, ctx, s, e, c + 1);
    }
  }

  lemma {:induction false} ForegroundJoinedSame(line: Line, ctx: RowContext, s: nat, e: nat, c: nat)
    requires s <= c < e <= |line| && ForegroundJoinedThrough(line, ctx, s, e)
    ensures ForegroundAt(line, ctx, c) == ForegroundAt(line, ctx, e - 1)
    ensures StyleOf(line[c].attributes) == StyleOf(line[e - 1].attributes)
    decreases e - c
  {
    if c < e - 1 {
      assert ForegroundJoins(line, ctx, c + 1);
      ForegroundJoinedSame(line, ctx, s, e, c + 1);
    }
  }

  /** Inside a text span every cell has the span's brush and flags; a span of more than one
   * cell is drawn with a palette brush; the span is drawn exactly when it does not blink or
   * the blink phase shows it, and underlined exactly when drawn and underscored. */
  lemma TextSpanUniform(line: Line, ctx: RowContext, showBlink: bool, x: Span<TextRun>)
    requires TextSpanOk(line, ctx, showBlink, x)
    ensures forall c :: x.start <= c < x.end ==>
      ForegroundAt(line, ctx, c) == x.paint.brush && StyleOf(line[c].attributes) == x.paint.style
    ensures x.end - x.start > 1 ==> x.paint.brush.Palette?
    ensures x.paint.drawn <==> !x.paint.style.blink || showBlink
    ensures x.paint.underlined <==> x.paint.drawn && x.paint.style.underscore
  {
    forall c | x.start <= c < x.end
      ensures ForegroundAt(line, ctx, c) == x.paint.brush && StyleOf(line[c].attributes) == x.paint.style
    {
      ForegroundJoinedSame(line, ctx, x.start, x.end, c);
    }
    if x.end - x.start > 1 {
      assert ForegroundJoins(line, ctx, x.end - 1);
    }
  }

  /** The pass is deterministic in what it promises: a line has exactly one background layout. */
  lemma {:induction false} BackgroundLayoutUnique(line: Line, ctx: RowContext, a: seq<Span<Brush>>, b: seq<Span<Brush>>, n: nat)
    requires BackgroundRuns(line, ctx, a, n) && BackgroundRuns(line, ctx, b, n)
    ensures a == b
    decreases |a|
  {
    if a != [] && b != [] {
      var x, y := a[|a| - 1], b[|b| - 1];
      BackgroundLayoutUnique(line, ctx, a[..|a| - 1], b[..|b| - 1], x.start);
      assert a == a[..|a| - 1] + [x] && b == b[..|b| - 1] + [y];
    }
  }

  /** A line has exactly one text layout. */
  lemma {:induction false} TextLayoutUnique(line: Line, ctx: RowContext, showBlink: bool, a: seq<Span<TextRun>>, b: seq<Span<TextRun>>, n: nat)
    requires TextRuns(line, ctx, showBlink, a, n) && TextRuns(line, ctx, showBlink, b, n)
    ensures a == b
    decreases |a|
  {
    if a != [] && b != [] {
      var x, y := a[|a| - 1], b[|b| - 1];
      TextLayoutUnique(line, ctx, showBlink, a[..|a| - 1], b[..|b| - 1], x.start);
      assert a == a[..|a| - 1] + [x] && b == b[..|b| - 1] + [y];
    }
  }

  lemma {:induction false} LineTextSplit(line: Line, a: nat, b: nat, c: nat)
    requires a <= b <= c <= |line|
    ensures LineText(line, a, c) == LineText(line, a, b) + LineText(line, b, c)
    decreases c - b
  {
    if b < c {
      LineTextSplit(line, a, b, c - 1);
    }
  }

  /** The text spans together draw every character of the line once, in order. */
  lemma {:induction false} TextSpansSpellLine(line: Line, ctx: RowContext, showBlink: bool, spans: seq<Span<TextRun>>, n: nat)
    requires TextRuns(line, ctx, showBlink, spans, n)
    ensures n <= |line|
    ensures SpanTexts(spans) == LineText(line, 0, n)
    decreases |spans|
  {
    if spans != [] {
      var x := spans[|spans| - 1];
      TextSpansSpellLine(line, ctx, showBlink, spans[..|spans| - 1], x.start);
      LineTextSplit(line, 0, x.start, n);
    }
  }
}
