/**
 * The session of state.go: the scroll state machine of UIController, the reading of one
 * message, the bookkeeping of the []byte branch of State.Update (buffer, line offsets,
 * index), key handling, the visible window of View and the truncation of printLines.
 */
module Session {
  import opened ByteOrder
  import opened Types
  import opened Indexer
  import opened Handlers

  /** How many lines the view shows. */
  const ShowLineCount := 10

  function Max(a: int, b: int): int {
    if a < b then b else a
  }

  function Min(a: int, b: int): int {
    if a < b then a else b
  }

  // ---------------------------------------------------------------------------
  // UIController.Scroll

  /**
   * The scrollIndex after Scroll(delta, h): -1 is tail mode. Moving up (delta 1) out of tail
   * mode jumps close to the end; any other move steps by -delta and falls back to tail mode
   * when it leaves the range 0..h - ShowLineCount.
   */
  function Scrolled(scrollIndex: int, delta: int, h: int): (r: int)
    ensures r >= -1
    ensures scrollIndex == -1 && delta == 1 ==> r == Max(0, h - ShowLineCount - 2)
    ensures !(scrollIndex == -1 && delta == 1) ==> r == -1 || 0 <= r <= h - ShowLineCount
  {
    if scrollIndex == -1 && delta == 1 then
      Max(0, h - ShowLineCount - 2)
    else
      var s := scrollIndex - delta;
      var s := if s < 0 then -1 else s;
      if s > h - ShowLineCount then -1 else s
  }

  /** A scroll lands inside the range a view over h lines can start at, or in tail mode. */
  ghost predicate InRange(scrollIndex: int, h: int) {
    scrollIndex == -1 || 0 <= scrollIndex <= Max(0, h - ShowLineCount)
  }

  /** Every scroll over h lines, from any state, lands in range for h. */
  lemma ScrolledInRange(scrollIndex: int, delta: int, h: int)
    ensures InRange(Scrolled(scrollIndex, delta, h), h)
  {
  }

  /** Staying in range as more lines arrive. */
  lemma InRangeGrows(scrollIndex: int, h: int, h': int)
    requires InRange(scrollIndex, h) && h <= h'
    ensures InRange(scrollIndex, h')
  {
  }

  /** One step up from a position above the top of the range goes back to tail mode. */
  lemma UpFromTopIsTail(h: int)
    ensures Scrolled(0, 1, h) == -1
  {
  }

  /** One step down from the last position of the range goes back to tail mode. */
  lemma DownPastEndIsTail(h: int)
    requires h >= ShowLineCount
    ensures Scrolled(h - ShowLineCount, -1, h) == -1
  {
  }

  /** As written, moving down (delta -1) in tail mode over at least a screen of lines jumps to the top. */
  lemma DownFromTailGoesToTop(h: int)
    requires h >= ShowLineCount
    ensures Scrolled(-1, -1, h) == 0
  {
  }

  /** Inside the range, up and down move by one line and undo each other. */
  lemma UpDownUndo(scrollIndex: int, h: int)
    requires 1 <= scrollIndex <= h - ShowLineCount
    ensures Scrolled(scrollIndex, 1, h) == scrollIndex - 1
    ensures Scrolled(Scrolled(scrollIndex, 1, h), -1, h) == scrollIndex
  {
  }

  /** The scroll position and the terminal size. */
  class UIController {
    var scrollIndex: int
    var width: int
    var height: int

    /** initClog starts in tail mode with no size yet. */
    constructor ()
      ensures scrollIndex == -1 && width == 0 && height == 0
    {
      scrollIndex := -1;
      width := 0;
      height := 0;
    }

    /** UIController.Scroll. */
    method Scroll(delta: int, scrollableHeight: int)
      modifies this
      ensures scrollIndex == Scrolled(old(scrollIndex), delta, scrollableHeight)
      ensures scrollIndex >= -1
      ensures width == old(width) && height == old(height)
    {
      if scrollIndex == -1 && delta == 1 {
        scrollIndex := scrollableHeight - ShowLineCount - 2;
        if scrollIndex < 0 {
          scrollIndex := 0;
        }
        return;
      }
      scrollIndex := scrollIndex - delta;
      if scrollIndex < 0 {
        scrollIndex := -1;
      }
      if scrollIndex > scrollableHeight - ShowLineCount {
        scrollIndex := -1;
      }
    }

    /** UIController.ScrollBottom: back to tail mode. */
    method ScrollBottom()
      modifies this
      ensures scrollIndex == -1
      ensures width == old(width) && height == old(height)
    {
      scrollIndex := -1;
    }
  }

  // ---------------------------------------------------------------------------
  // ReadCmd: what one read of the child's output turns into

  /** The three outcomes of reader.ReadLine. */
  datatype ReadOutcome = ReadOk(line: Bytes) | ReadEof | ReadFailed(reason: Bytes)

  /** "failed to read: " */
  const FailedPrefix: Bytes := [102, 97, 105, 108, 101, 100, 32, 116, 111, 32, 114, 101, 97, 100, 58, 32]

  /**
   * The message ReadCmd delivers: the line with '\n' put back, the error text, or none at end
   * of input (the session quits). reason is the formatted error, outside this model.
   */
  function NextMessage(r: ReadOutcome): (msg: Option<Bytes>)
    ensures r.ReadEof? <==> msg.None?
    ensures msg.Some? ==> |msg.value| > 0
    ensures r.ReadOk? ==> msg == Some(r.line + [Newline])
    ensures r.ReadFailed? ==> msg.Some? && |msg.value| >= |FailedPrefix| && msg.value[..|FailedPrefix|] == FailedPrefix
  {
    match r
    case ReadOk(line) => Some(line + [Newline])
    case ReadEof => None
    case ReadFailed(reason) => Some(FailedPrefix + reason)
  }

  /** The failure text does not start with '{', so a session whose first read fails parses text. */
  lemma FailedReadParsesText(reason: Bytes)
    ensures DefineParseStrategy(NextMessage(ReadFailed(reason)).value) == Text
  {
  }

  // ---------------------------------------------------------------------------
  // The line table

  /**
   * ls tile the buffer 0..size: each line is non-empty and starts where the previous one
   * ended, the first at 0, the last ending at size.
   */
  ghost predicate Contiguous(ls: seq<Line>, size: int)
    decreases |ls|
  {
    if ls == [] then size == 0
    else
      var last := ls[|ls| - 1];
      && last.startOffset < last.endOffset == size
      && Contiguous(ls[..|ls| - 1], last.startOffset)
  }

  /** Tiling lines lie in the buffer 0..size. */
  lemma {:induction false} ContiguousBounds(ls: seq<Line>, size: int)
    requires Contiguous(ls, size)
    ensures size >= 0
    ensures forall k | 0 <= k < |ls| :: 0 <= ls[k].startOffset < ls[k].endOffset <= size
    decreases |ls|
  {
    if ls != [] {
      var init := ls[..|ls| - 1];
      ContiguousBounds(init, ls[|ls| - 1].startOffset);
      assert forall k | 0 <= k < |init| :: init[k] == ls[k];
    }
  }

  /** Tiling lines do not overlap, so their offsets strictly increase. */
  lemma {:induction false} ContiguousOrdered(ls: seq<Line>, size: int)
    requires Contiguous(ls, size)
    ensures forall i, j | 0 <= i < j < |ls| :: ls[i].endOffset <= ls[j].startOffset
    ensures StrictlyAscending(ls)
    decreases |ls|
  {
    if ls != [] {
      var n := |ls|;
      var init := ls[..n - 1];
      ContiguousOrdered(init, ls[n - 1].startOffset);
      ContiguousBounds(init, ls[n - 1].startOffset);
      assert forall k | 0 <= k < n - 1 :: init[k] == ls[k];
      assert forall i | 0 <= i < n - 1 :: ls[i].endOffset <= ls[n - 1].startOffset;
    }
  }

  /** A window of a tiling of buf lies in buf. */
  lemma WindowInBuffer(buf: Bytes, ls: seq<Line>, start: int, end: int)
    requires Contiguous(ls, |buf|) && 0 <= start <= end <= |ls|
    ensures InBuffer(buf, ls[start..end])
  {
    ContiguousBounds(ls, |buf|);
    var w := ls[start..end];
    forall k | 0 <= k < |w|
      ensures 0 <= w[k].startOffset <= w[k].endOffset <= |buf|
    {
      assert w[k] == ls[start + k];
    }
  }

  /** Every indexed line is one of ls and none starts after size. */
  ghost predicate IndexFits(m: KeyMap, ls: seq<Line>, size: int) {
    LinesBelow(m, size) && LinesIn(m, ls)
  }

  /**
   * One ingested message of size bytes keeps the session invariants: the new line tiles the
   * buffer after the old ones, and the index stays ordered, below the buffer end and made of
   * session lines.
   */
  lemma IngestKeeps(ls: seq<Line>, bufSize: int, m: KeyMap, fields: seq<Field>, size: int)
    requires Contiguous(ls, bufSize) && IndexFits(m, ls, bufSize) && size > 0
    ensures var ln := Line(bufSize, bufSize + size);
      var m' := IndexSpec(m, fields, ln);
      && Contiguous(ls + [ln], bufSize + size)
      && IndexFits(m', ls + [ln], bufSize + size)
      && AscendingMap(m')
  {
    var ln := Line(bufSize, bufSize + size);
    IndexKeepsLinesAscending(m, fields, ln);
    LinesBelowGrows(IndexSpec(m, fields, ln), bufSize, bufSize + size);
    IndexAddsOnlyItsLine(m, fields, ln, ls);
    assert (ls + [ln])[..|ls|] == ls;
  }

  /** LinesBelow only weakens as the bound grows. */
  lemma LinesBelowGrows(m: KeyMap, a: int, b: int)
    requires LinesBelow(m, a) && a <= b
    ensures LinesBelow(m, b)
  {
    forall k | k in m
      ensures LeavesBelow(m[k], b)
    {
      assert LeavesBelow(m[k], a);
    }
  }

  // ---------------------------------------------------------------------------
  // printLines

  /**
   * How printLines shows one line of buf: verbatim when it fits the width, else cut short
   * and closed with '\n'.
   */
  function RenderLine(buf: Bytes, ln: Line, width: int): (r: Bytes)
    requires 0 <= ln.startOffset <= ln.endOffset <= |buf| && width >= 0
    ensures |r| == if ln.endOffset - ln.startOffset > width then width + 2 else ln.endOffset - ln.startOffset
    ensures forall k | 0 <= k < Min(ln.endOffset - ln.startOffset, width + 1) :: r[k] == buf[ln.startOffset + k]
    ensures ln.endOffset - ln.startOffset > width ==> r[|r| - 1] == Newline
  {
    var size := ln.endOffset - ln.startOffset;
    if size > width then buf[ln.startOffset..ln.endOffset - (size - width - 1)] + [Newline]
    else buf[ln.startOffset..ln.endOffset]
  }

  /** Every line lies in buf. */
  ghost predicate InBuffer(buf: Bytes, ls: seq<Line>) {
    forall k | 0 <= k < |ls| :: 0 <= ls[k].startOffset <= ls[k].endOffset <= |buf|
  }

  /** The output of printLines: the rendered lines one after another. */
  function Render(buf: Bytes, ls: seq<Line>, width: int): Bytes
    requires InBuffer(buf, ls) && width >= 0
    decreases |ls|
  {
    if ls == [] then []
    else Render(buf, ls[..|ls| - 1], width) + RenderLine(buf, ls[|ls| - 1], width)
  }

  /** A line no longer than the width is printed byte for byte. */
  lemma RenderShortLine(buf: Bytes, ln: Line, width: int)
    requires 0 <= ln.startOffset <= ln.endOffset <= |buf| && width >= 0
    requires ln.endOffset - ln.startOffset <= width
    ensures RenderLine(buf, ln, width) == buf[ln.startOffset..ln.endOffset]
  {
  }

  /** A longer line is printed as its first width + 1 bytes and a '\n'. */
  lemma RenderLongLine(buf: Bytes, ln: Line, width: int)
    requires 0 <= ln.startOffset <= ln.endOffset <= |buf| && width >= 0
    requires ln.endOffset - ln.startOffset > width
    ensures RenderLine(buf, ln, width) == buf[ln.startOffset..ln.startOffset + width + 1] + [Newline]
    ensures |RenderLine(buf, ln, width)| == width + 2
  {
  }

  /**
   * As written, a line of exactly width characters and its '\n' is longer than the width, so
   * it is printed whole with a second '\n' after it.
   */
  lemma RenderFullWidthLine(buf: Bytes, ln: Line, width: int)
    requires 0 <= ln.startOffset <= ln.endOffset <= |buf| && width >= 0
    requires ln.endOffset - ln.startOffset == width + 1
    ensures RenderLine(buf, ln, width) == buf[ln.startOffset..ln.endOffset] + [Newline]
  {
  }

  /** printLines: append the rendering of each line to a cleared output buffer. */
  method PrintLines(buf: Bytes, l: seq<Line>, width: int) returns (out: Bytes)
    requires InBuffer(buf, l) && width >= 0
    ensures out == Render(buf, l, width)
  {
    out := [];
    for i := 0 to |l|
      invariant out == Render(buf, l[..i], width)
    {
      var ln := l[i];
      var end := ln.endOffset;
      var size := ln.endOffset - ln.startOffset;
      if size > width {
        end := end - (size - width - 1);
      }
      out := out + buf[ln.startOffset..end];
      if size > width {
        out := out + [Newline];
      }
      assert l[..i + 1][..i] == l[..i];
    }
    assert l[..|l|] == l;
  }

  // ---------------------------------------------------------------------------
  // View's window

  /**
   * The lines View shows: scrollIndex..scrollIndex + ShowLineCount cut at lineCount when
   * scrolled, the last ShowLineCount lines in tail mode.
   */
  function Window(scrollIndex: int, lineCount: int): (w: (int, int))
    requires lineCount >= 0 && InRange(scrollIndex, lineCount)
    ensures 0 <= w.0 <= w.1 <= lineCount
    ensures scrollIndex == -1 ==> w.1 == lineCount
    ensures scrollIndex > -1 ==> w.0 == scrollIndex
  {
    if scrollIndex > -1 then
      var start := if scrollIndex < 0 then 0 else scrollIndex;
      var end := if start + ShowLineCount > lineCount then lineCount else start + ShowLineCount;
      (start, end)
    else
      var start := lineCount - ShowLineCount;
      var start := if start < 0 then 0 else start;
      (start, lineCount)
  }

  /** In range, the window always holds min(ShowLineCount, lineCount) lines, scrolled or not. */
  lemma WindowIsFull(scrollIndex: int, lineCount: int)
    requires lineCount >= 0 && InRange(scrollIndex, lineCount)
    ensures var w := Window(scrollIndex, lineCount);
      w.1 - w.0 == Min(ShowLineCount, lineCount)
  {
  }

  /** The "Scroll: start to end of lineCount" footer of View. */
  function Footer(start: int, lineCount: int): (f: (int, int, int))
    ensures f.0 == start && f.2 == lineCount
    ensures lineCount >= 0 ==> f.0 <= f.1 <= f.0 + ShowLineCount
    ensures lineCount >= ShowLineCount ==> f.1 == f.0 + ShowLineCount
  {
    (start, start + Min(ShowLineCount, lineCount), lineCount)
  }

  /** In range, the footer names exactly the window shown. */
  lemma FooterMatchesWindow(scrollIndex: int, lineCount: int)
    requires lineCount >= 0 && InRange(scrollIndex, lineCount)
    ensures var w := Window(scrollIndex, lineCount);
      Footer(w.0, lineCount) == (w.0, w.1, lineCount)
  {
    WindowIsFull(scrollIndex, lineCount);
  }

  // ---------------------------------------------------------------------------
  // State

  /** The keys the session reacts to; everything else is ignored. */
  datatype Key = Up | Down | Quit | Escape | OtherKey

  /** A session: the raw buffer, its line table, the parser chosen at start, the index and the view. */
  class State {
    var buf: Bytes
    var bufSize: int
    var lines: seq<Line>
    var lineCount: int
    var strategy: Strategy
    var lastFields: seq<Field>
    var index: MapIndexer
    var ui: UIController

    ghost predicate Valid()
      reads this, index, index.keys.Values, ui
    {
      Tiled() && Indexed() && Scrollable()
    }

    /** The counters match the buffer and the line table, whose lines tile the buffer. */
    ghost predicate Tiled()
      reads this
    {
      && bufSize == |buf|
      && lineCount == |lines|
      && Contiguous(lines, bufSize)
    }

    /** The index is well formed and holds only session lines, none starting past the buffer end. */
    ghost predicate Indexed()
      reads this, index, index.keys.Values
    {
      index.Valid() && IndexFits(index.contents, lines, bufSize)
    }

    /** The scroll position is in range for the lines there are. */
    ghost predicate Scrollable()
      reads this, ui
    {
      InRange(ui.scrollIndex, lineCount) && ui.width >= 0
    }

    /**
     * initClog followed by Init: empty buffer, lines and index, tail mode, and the parser
     * picked from the first message.
     */
    constructor (first: Bytes)
      requires |first| > 0
      ensures Valid()
      ensures buf == [] && lines == [] && lineCount == 0 && lastFields == []
      ensures strategy == DefineParseStrategy(first)
      ensures index.contents == map[] && ui.scrollIndex == -1
      ensures fresh(index) && fresh(ui)
    {
      buf := [];
      bufSize := 0;
      lines := [];
      lineCount := 0;
      strategy := DefineParseStrategy(first);
      lastFields := [];
      index := new MapIndexer();
      ui := new UIController();
    }

    /**
     * The []byte branch of Update: parse the message, index its fields under the line
     * {bufSize, bufSize + |msg|}, record that line and append the bytes to the buffer.
     * json stands for jsonHandler.
     */
    method Ingest(msg: Bytes, json: Bytes -> seq<Field>)
      requires Valid() && |msg| > 0
      modifies this, index, index.keys.Values
      ensures Valid()
      ensures var ln := Line(old(bufSize), old(bufSize) + |msg|);
        && lines == old(lines) + [ln]
        && index.contents == IndexSpec(old(index.contents), lastFields, ln)
      ensures strategy == Json ==> lastFields == json(msg)
      ensures strategy == Text ==> lastFields == TextFields(msg)
      ensures buf == old(buf) + msg && bufSize == old(bufSize) + |msg| && lineCount == old(lineCount) + 1
      ensures strategy == old(strategy) && index == old(index) && ui == old(ui)
      ensures ui.scrollIndex == old(ui.scrollIndex)
    {
      var fields := Parsed(strategy, json, msg);
      Store(msg, fields);
    }

    /**
     * Keep fields as the last parsed ones, index them under the line
     * {bufSize, bufSize + |msg|}, record that line and append the bytes to the buffer.
     * Update indexes first; the indexer reads none of the session's own fields, so doing
     * the bookkeeping first and indexing last reaches the same state.
     */
    method Store(msg: Bytes, fields: seq<Field>)
      requires Valid() && |msg| > 0
      modifies this, index, index.keys.Values
      ensures Valid()
      ensures var ln := Line(old(bufSize), old(bufSize) + |msg|);
        && lines == old(lines) + [ln]
        && index.contents == IndexSpec(old(index.contents), fields, ln)
      ensures buf == old(buf) + msg && bufSize == old(bufSize) + |msg| && lineCount == old(lineCount) + 1
      ensures strategy == old(strategy) && lastFields == fields && index == old(index) && ui == old(ui)
    {
      var size := |msg|;
      var start := bufSize;
      var ix := index;
      IngestKeeps(lines, start, ix.contents, fields, size);
      lastFields := fields;
      lines := lines + [Line(start, start + size)];
      lineCount := lineCount + 1;
      bufSize := start + size;
      buf := buf + msg;
      assert Tiled();
      ix.Index(fields, start, size);
      assert Tiled();
    }

    /** The tea.KeyMsg branch of Update; the result says whether the session quits. */
    method HandleKey(key: Key) returns (quit: bool)
      requires Valid()
      modifies ui
      ensures Valid()
      ensures quit <==> key == Quit
      ensures key == Up ==> ui.scrollIndex == Scrolled(old(ui.scrollIndex), 1, lineCount)
      ensures key == Down ==> ui.scrollIndex == Scrolled(old(ui.scrollIndex), -1, lineCount)
      ensures key == Escape ==> ui.scrollIndex == -1
      ensures key == Quit || key == OtherKey ==> ui.scrollIndex == old(ui.scrollIndex)
      ensures ui.width == old(ui.width) && ui.height == old(ui.height)
    {
      quit := false;
      match key
      case Up =>
        ui.Scroll(1, lineCount);
        ScrolledInRange(old(ui.scrollIndex), 1, lineCount);
      case Down =>
        ui.Scroll(-1, lineCount);
        ScrolledInRange(old(ui.scrollIndex), -1, lineCount);
      case Quit =>
        quit := true;
      case Escape =>
        ui.ScrollBottom();
      case OtherKey =>
    }

    /** The tea.WindowSizeMsg branch of Update. */
    method Resize(width: int, height: int)
      requires Valid() && width >= 0
      modifies ui
      ensures Valid()
      ensures ui.width == width && ui.height == height && ui.scrollIndex == old(ui.scrollIndex)
    {
      ui.width, ui.height := width, height;
    }

    /**
     * View: the window of lines to show, their rendering and the footer numbers.
     */
    method View() returns (start: int, end: int, out: Bytes, footer: (int, int, int))
      requires Valid()
      ensures (start, end) == Window(ui.scrollIndex, lineCount)
      ensures end - start == Min(ShowLineCount, lineCount)
      ensures InBuffer(buf, lines[start..end]) && out == Render(buf, lines[start..end], ui.width)
      ensures footer == (start, end, lineCount)
    {
      var si, count, width := ui.scrollIndex, lineCount, ui.width;
      if si > -1 {
        start := si;
        if start < 0 {
          start := 0;
        }
        end := start + ShowLineCount;
        if end > count {
          end := count;
        }
      } else {
        start := count - ShowLineCount;
        if start < 0 {
          start := 0;
        }
        end := count;
      }
      assert (start, end) == Window(si, count);
      WindowIsFull(si, count);
      footer := Footer(start, count);
      assert footer == (start, end, count);
      var shown := lines[start..end];
      WindowInBuffer(buf, lines, start, end);
      ghost var b := buf;
      out := PrintLines(buf, shown, width);
      assert si == ui.scrollIndex && count == lineCount && width == ui.width && shown == lines[start..end] && b == buf;
    }
  }
}
