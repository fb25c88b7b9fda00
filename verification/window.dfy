/**
 The window: one buffer shown through a viewport of `width` x `height` cells,
 a scroll offset (the buffer column and line shown in the top-left cell), a
 cursor, and the sticky column the cursor returns to after vertical moves.

 Every operation is a pure function from the window before to the window
 after. Preconditions are what the editor needs to avoid a panic (an index
 past the rope, an unsigned subtraction below zero); the invariants a
 well-behaved window keeps (`CursorInLine`, `Visible`) are stated as facts
 the operations preserve, not demanded of their callers. The one exception is
 typing a terminator with `insert_char`: the cursor is left past the end of
 the line it just split, so only `Visible` survives that.
 */
module Windows {
  import opened Rope

  /** A terminal dimension: the window's size is a pair of `u16`. */
  type U16 = x: int | 0 <= x < 0x1_0000

  /** A buffer position: column within a line, and line. */
  datatype Point = Point(col: nat, line: nat)

  datatype Window = Window(
    buffer: seq<char>,
    width: U16,
    height: U16,
    scroll: Point,
    cursor: Point,
    stickyCol: nat)

  function Min(a: nat, b: nat): nat {
    if a <= b then a else b
  }

  /** The cursor is on an existing line, at most one past its last content character. */
  predicate CursorInLine(w: Window) {
    w.cursor.line < LineCount(w.buffer) && w.cursor.col <= ContentLen(w.buffer, w.cursor.line)
  }

  /** The cursor's line is one of the `height` lines the viewport shows. */
  predicate Visible(w: Window) {
    1 <= w.height && w.scroll.line <= w.cursor.line < w.scroll.line + w.height
  }

  predicate Valid(w: Window) {
    CursorInLine(w) && Visible(w)
  }

  /** Buffer offset of the cursor. */
  function CursorOffset(w: Window): nat
    requires w.cursor.line < LineCount(w.buffer)
  {
    LineStart(w.buffer, w.cursor.line) + w.cursor.col
  }

  /** The line `move_cursor_up(n)` aims for: `n` lines up, stopping at the first line. */
  function UpTarget(line: nat, n: nat): nat {
    if n > line then 0 else line - n
  }

  // ---------------------------------------------------------------------------
  // Construction and queries

  /** `Window::new`: an empty buffer, everything at the origin. */
  function NewWindow(width: U16, height: U16): (r: Window)
    ensures r.buffer == [] && LineCount(r.buffer) == 1 && r.width == width && r.height == height
    ensures r.cursor == Point(0, 0) && r.scroll == Point(0, 0) && r.stickyCol == 0
    ensures 1 <= height ==> Valid(r)
  {
    Window([], width, height, Point(0, 0), Point(0, 0), 0)
  }

  /** `set_buffer`: the new text is shown from its start with the cursor at the origin. */
  function SetBuffer(w: Window, b: seq<char>): (r: Window)
    ensures r.buffer == b && r.width == w.width && r.height == w.height
    ensures r.cursor == Point(0, 0) && r.scroll == Point(0, 0) && r.stickyCol == 0
    ensures CursorOffset(r) == 0
    ensures 1 <= w.height ==> Valid(r)
  {
    Window(b, w.width, w.height, Point(0, 0), Point(0, 0), 0)
  }

  /** `rel_cursor_pos`: the cursor relative to the scroll offset, each part
      truncated to `u16`. The subtraction is unsigned, so the cursor may not be
      left of or above the scroll offset. */
  function RelCursorPos(w: Window): (r: (U16, U16))
    requires w.scroll.col <= w.cursor.col && w.scroll.line <= w.cursor.line
    ensures w.cursor.col - w.scroll.col < 0x1_0000 ==> r.0 == w.cursor.col - w.scroll.col
    ensures w.cursor.line - w.scroll.line < 0x1_0000 ==> r.1 == w.cursor.line - w.scroll.line
    ensures Visible(w) ==> r.1 < w.height
  {
    ((w.cursor.col - w.scroll.col) % 0x1_0000, (w.cursor.line - w.scroll.line) % 0x1_0000)
  }

  /** The `height` lines from the scroll line on (fewer near the end of the
      buffer), as the rope's `lines_at(scroll).take(height)` yields them. */
  function VisibleLines(w: Window): (r: seq<seq<char>>)
    requires w.scroll.line <= LineCount(w.buffer)
    ensures |r| == Min(w.height, LineCount(w.buffer) - w.scroll.line)
    ensures forall j :: 0 <= j < |r| ==> r[j] == Line(w.buffer, w.scroll.line + j)
  {
    var n := Min(w.height, LineCount(w.buffer) - w.scroll.line);
    seq(n, j requires 0 <= j < n => Line(w.buffer, w.scroll.line + j))
  }

  /** `visible_lines_from(row)`: the shown lines from screen row `row` down.
      The row count is a `u16` subtraction, so `row` may not exceed the height. */
  function VisibleLinesFrom(w: Window, row: U16): (r: seq<seq<char>>)
    requires row <= w.height
    requires w.scroll.line + row <= LineCount(w.buffer)
    ensures |r| == Min(w.height - row, LineCount(w.buffer) - (w.scroll.line + row))
    ensures forall j :: 0 <= j < |r| ==> r[j] == Line(w.buffer, w.scroll.line + row + j)
  {
    var n := Min(w.height - row, LineCount(w.buffer) - (w.scroll.line + row));
    seq(n, j requires 0 <= j < n => Line(w.buffer, w.scroll.line + row + j))
  }

  /** The lines shown from a screen row down are the tail of all shown lines. */
  lemma VisibleLinesFromIsSuffix(w: Window, row: U16)
    requires row <= w.height
    requires w.scroll.line + row <= LineCount(w.buffer)
    ensures |VisibleLinesFrom(w, row)| + row == |VisibleLines(w)|
    ensures forall j :: 0 <= j < |VisibleLinesFrom(w, row)| ==>
              VisibleLinesFrom(w, row)[j] == VisibleLines(w)[row + j]
  {
    var all := VisibleLines(w);
    var from := VisibleLinesFrom(w, row);
    forall j | 0 <= j < |from|
      ensures from[j] == all[row + j]
    {
      assert from[j] == Line(w.buffer, w.scroll.line + (row + j));
    }
  }

  // ---------------------------------------------------------------------------
  // Cursor motion

  /** `adjust_cursor_x`: pull the column back to the line's last column. */
  function AdjustCol(w: Window): (r: Window)
    requires w.cursor.line < LineCount(w.buffer)
    ensures r == w.(cursor := r.cursor) && r.cursor.line == w.cursor.line
    ensures r.cursor.col <= LastCol(w.buffer, w.cursor.line) && r.cursor.col <= w.cursor.col
    ensures r.cursor.col == w.cursor.col || r.cursor.col == LastCol(w.buffer, w.cursor.line)
    ensures CursorInLine(r)
  {
    w.(cursor := w.cursor.(col := Min(LastCol(w.buffer, w.cursor.line), w.cursor.col)))
  }

  /** `move_cursor_down(n)`. */
  function MoveCursorDown(w: Window, n: nat): (r: Window)
    requires w.cursor.line < LineCount(w.buffer)
    ensures r.buffer == w.buffer && r.width == w.width && r.height == w.height
    ensures r.stickyCol == w.stickyCol && r.scroll.col == w.scroll.col
    ensures w.cursor.line <= r.cursor.line < LineCount(w.buffer)
    ensures r.cursor.line == w.cursor.line + n
            || (r.cursor.line == LineCount(w.buffer) - 1 && w.cursor.line + n > r.cursor.line)
    ensures r.cursor.col == Min(w.stickyCol, LastCol(w.buffer, r.cursor.line))
    ensures r.cursor.line >= w.scroll.line + w.height ==>
              r.scroll.line == w.scroll.line + (r.cursor.line - (w.scroll.line + w.height) + 1)
    ensures r.cursor.line < w.scroll.line + w.height ==> r.scroll == w.scroll
    ensures CursorInLine(r)
    ensures Visible(w) ==> Visible(r)
  {
    var target := Min(w.cursor.line + n, LineCount(w.buffer) - 1);
    var bottom := w.scroll.line + w.height;
    var scroll := if target >= bottom then w.scroll.(line := w.scroll.line + (target - bottom + 1)) else w.scroll;
    AdjustCol(w.(scroll := scroll, cursor := Point(w.stickyCol, target)))
  }

  /** `move_cursor_up(n)`. The rope is only asked about the target line. */
  function MoveCursorUp(w: Window, n: nat): (r: Window)
    requires UpTarget(w.cursor.line, n) < LineCount(w.buffer)
    ensures r.buffer == w.buffer && r.width == w.width && r.height == w.height
    ensures r.stickyCol == w.stickyCol && r.scroll.col == w.scroll.col
    ensures n <= w.cursor.line ==> r.cursor.line == w.cursor.line - n
    ensures n > w.cursor.line ==> r.cursor.line == 0
    ensures r.cursor.col == Min(w.stickyCol, LastCol(w.buffer, r.cursor.line))
    ensures r.cursor.line < w.scroll.line ==> r.scroll.line == r.cursor.line
    ensures r.cursor.line >= w.scroll.line ==> r.scroll == w.scroll
    ensures CursorInLine(r)
    ensures Visible(w) ==> Visible(r)
  {
    var target := UpTarget(w.cursor.line, n);
    var scroll := if target < w.scroll.line then w.scroll.(line := target) else w.scroll;
    AdjustCol(w.(scroll := scroll, cursor := Point(w.stickyCol, target)))
  }

  /** `move_cursor_left(n)`: saturates at column 0 and remembers the new column. */
  function MoveCursorLeft(w: Window, n: nat): (r: Window)
    ensures r.buffer == w.buffer && r.width == w.width && r.height == w.height && r.scroll == w.scroll
    ensures r.cursor.line == w.cursor.line
    ensures n <= w.cursor.col ==> r.cursor.col == w.cursor.col - n
    ensures n > w.cursor.col ==> r.cursor.col == 0
    ensures r.stickyCol == r.cursor.col
    ensures CursorInLine(w) ==> CursorInLine(r)
    ensures Visible(w) ==> Visible(r)
  {
    var col := if n > w.cursor.col then 0 else w.cursor.col - n;
    w.(cursor := w.cursor.(col := col), stickyCol := col)
  }

  /** `move_cursor_right(n)`: stops at the line's last column and remembers the new column. */
  function MoveCursorRight(w: Window, n: nat): (r: Window)
    requires w.cursor.line < LineCount(w.buffer)
    ensures r.buffer == w.buffer && r.width == w.width && r.height == w.height && r.scroll == w.scroll
    ensures r.cursor.line == w.cursor.line
    ensures r.cursor.col == Min(w.cursor.col + n, LastCol(w.buffer, w.cursor.line))
    ensures r.stickyCol == r.cursor.col
    ensures CursorInLine(r)
    ensures Visible(w) ==> Visible(r)
  {
    var moved := AdjustCol(w.(cursor := w.cursor.(col := w.cursor.col + n)));
    moved.(stickyCol := moved.cursor.col)
  }

  // ---------------------------------------------------------------------------
  // Resize

  /** After scrolling by `rel - size + 1` where `rel` is the truncated distance
      `d`, the truncated distance is `size - 1`. */
  lemma ScrollToLastCell(d: nat, size: nat)
    ensures 1 <= size <= d % 0x1_0000 ==>
              d - (d % 0x1_0000 - size + 1) >= 0
              && (d - (d % 0x1_0000 - size + 1)) % 0x1_0000 == size - 1
  {
    if 1 <= size <= d % 0x1_0000 {
      var q := d / 0x1_0000;
      assert d - (d % 0x1_0000 - size + 1) == 0x1_0000 * q + (size - 1);
      assert (0x1_0000 * q + (size - 1)) % 0x1_0000 == size - 1;
    }
  }

  /** `resize(width, height)`: the new size; the scroll offset moves right or
      down by exactly what the cursor's relative position exceeds it by. */
  function Resize(w: Window, width: U16, height: U16): (r: Window)
    requires w.scroll.col <= w.cursor.col && w.scroll.line <= w.cursor.line
    ensures r.buffer == w.buffer && r.cursor == w.cursor && r.stickyCol == w.stickyCol
    ensures r.width == width && r.height == height
    ensures RelCursorPos(w).1 >= height ==> r.scroll.line == w.scroll.line + (RelCursorPos(w).1 - height + 1)
    ensures RelCursorPos(w).1 < height ==> r.scroll.line == w.scroll.line
    ensures RelCursorPos(w).0 >= width ==> r.scroll.col == w.scroll.col + (RelCursorPos(w).0 - width + 1)
    ensures RelCursorPos(w).0 < width ==> r.scroll.col == w.scroll.col
  {
    var rel := RelCursorPos(w);
    var line := if rel.1 >= height then w.scroll.line + (rel.1 - height + 1) else w.scroll.line;
    var col := if rel.0 >= width then w.scroll.col + (rel.0 - width + 1) else w.scroll.col;
    w.(scroll := Point(col, line), width := width, height := height)
  }

  /** After a resize to a non-empty size the cursor is inside the viewport:
      its relative position is below the new size, and when the viewport had
      to scroll to reach it the cursor ends on the last row or column. */
  lemma ResizeShowsCursor(w: Window, width: U16, height: U16)
    requires w.scroll.col <= w.cursor.col && w.scroll.line <= w.cursor.line
    requires 1 <= width && 1 <= height
    ensures Resize(w, width, height).scroll.col <= w.cursor.col
    ensures Resize(w, width, height).scroll.line <= w.cursor.line
    ensures RelCursorPos(Resize(w, width, height)).0 < width
    ensures RelCursorPos(Resize(w, width, height)).1 < height
    ensures RelCursorPos(w).0 >= width ==> RelCursorPos(Resize(w, width, height)).0 == width - 1
    ensures RelCursorPos(w).1 >= height ==> RelCursorPos(Resize(w, width, height)).1 == height - 1
  {
    var r := Resize(w, width, height);
    ScrollToLastCell(w.cursor.line - w.scroll.line, height);
    ScrollToLastCell(w.cursor.col - w.scroll.col, width);
  }

  /** Resizing keeps a valid window valid, provided the new height is not zero. */
  lemma ResizeKeepsValid(w: Window, width: U16, height: U16)
    requires w.scroll.col <= w.cursor.col && w.scroll.line <= w.cursor.line
    requires Valid(w) && 1 <= height
    ensures Valid(Resize(w, width, height))
  {
    var d := w.cursor.line - w.scroll.line;
    assert d < 0x1_0000;
    ScrollToLastCell(d, height);
  }

  // ---------------------------------------------------------------------------
  // The cursor left of the viewport

  /** As written, a resize can scroll right to reach the cursor, and a later
      left move takes the cursor back past the new scroll column, since
      `move_cursor_left` never scrolls. The cursor is then left of the
      viewport, and the next `rel_cursor_pos` (from `resize` or from drawing)
      subtracts the scroll column from a smaller column. */
  lemma LeftOfViewportAfterResize(w: Window)
    requires w.scroll == Point(0, 0) && w.cursor == Point(100, 0)
    ensures Resize(w, 50, 24).scroll.col == 51
    ensures MoveCursorLeft(Resize(w, 50, 24), 60).cursor.col == 40
    ensures MoveCursorLeft(Resize(w, 50, 24), 60).cursor.col < MoveCursorLeft(Resize(w, 50, 24), 60).scroll.col
  {
  }

  /** The same happens without a left move: after the same resize, a move down
      onto a line shorter than the scroll column clamps the cursor to the left
      of the viewport, since vertical moves never change the scroll column. */
  lemma LeftOfViewportAfterMoveDown(w: Window)
    requires w.scroll == Point(0, 0) && w.cursor == Point(100, 0) && w.stickyCol == 100
    requires 2 <= LineCount(w.buffer) && LastCol(w.buffer, 1) < 51
    ensures Resize(w, 50, 24).scroll.col == 51
    ensures MoveCursorDown(Resize(w, 50, 24), 1).cursor == Point(LastCol(w.buffer, 1), 1)
    ensures MoveCursorDown(Resize(w, 50, 24), 1).cursor.col < MoveCursorDown(Resize(w, 50, 24), 1).scroll.col
  {
  }

  /** A left move that keeps the cursor in view: like `move_cursor_left`, and
      when the new column is left of the scroll column the viewport scrolls
      left to it, as `move_cursor_up` does for lines. */
  function MoveCursorLeftInView(w: Window, n: nat): (r: Window)
    ensures r.cursor == MoveCursorLeft(w, n).cursor && r.stickyCol == r.cursor.col
    ensures r.buffer == w.buffer && r.width == w.width && r.height == w.height
    ensures r.scroll.line == w.scroll.line
    ensures r.scroll.col <= r.cursor.col
    ensures w.scroll.col <= r.cursor.col ==> r == MoveCursorLeft(w, n)
    ensures r.cursor.col < w.scroll.col ==> r.scroll.col == r.cursor.col
  {
    var moved := MoveCursorLeft(w, n);
    if moved.cursor.col < w.scroll.col then moved.(scroll := moved.scroll.(col := moved.cursor.col)) else moved
  }

  /** With the corrected left move, a left move after a resize to a
      non-empty size leaves the cursor at or right of the scroll offset, so
      the relative position is defined again. */
  lemma InViewAfterResize(w: Window, width: U16, height: U16, n: nat)
    requires w.scroll.col <= w.cursor.col && w.scroll.line <= w.cursor.line
    requires 1 <= width && 1 <= height
    ensures MoveCursorLeftInView(Resize(w, width, height), n).scroll.col
            <= MoveCursorLeftInView(Resize(w, width, height), n).cursor.col
    ensures MoveCursorLeftInView(Resize(w, width, height), n).scroll.line
            <= MoveCursorLeftInView(Resize(w, width, height), n).cursor.line
  {
    ResizeShowsCursor(w, width, height);
  }

  // ---------------------------------------------------------------------------
  // Editing

  /** `insert_char(c)`: insert at the cursor and step the cursor right. The
      sticky column is left alone. */
  function InsertChar(w: Window, c: char): (r: Window)
    requires w.cursor.line < LineCount(w.buffer)
    requires CursorOffset(w) <= |w.buffer|
    ensures r.buffer == InsertAt(w.buffer, CursorOffset(w), c)
    ensures r.cursor == Point(w.cursor.col + 1, w.cursor.line)
    ensures r.scroll == w.scroll && r.width == w.width && r.height == w.height && r.stickyCol == w.stickyCol
    ensures LineCount(r.buffer) == LineCount(w.buffer) + (if IsTerminator(c) then 1 else 0)
    ensures r.cursor.line < LineCount(r.buffer)
    ensures CursorOffset(r) == CursorOffset(w) + 1
    ensures Visible(w) ==> Visible(r)
  {
    var p := CursorOffset(w);
    var b := InsertAt(w.buffer, p, c);
    LineCountInsert(w.buffer, p, c);
    LineStartOfPrefix(w.buffer, b, w.cursor.line);
    w.(buffer := b, cursor := Point(w.cursor.col + 1, w.cursor.line))
  }

  /** Typing an ordinary character inside a line keeps the cursor inside the
      (one character longer) line. */
  lemma InsertCharInLine(w: Window, c: char)
    requires CursorInLine(w) && !IsTerminator(c)
    ensures CursorOffset(w) <= |w.buffer|
    ensures CursorInLine(InsertChar(w, c))
    ensures ContentLen(InsertChar(w, c).buffer, w.cursor.line) == ContentLen(w.buffer, w.cursor.line) + 1
  {
    InsertInLine(w.buffer, w.cursor.line, CursorOffset(w), c);
    var r := InsertChar(w, c);
    assert r.buffer == InsertAt(w.buffer, CursorOffset(w), c);
    assert r.cursor == Point(w.cursor.col + 1, w.cursor.line);
  }

  /** `insert_enter`: split the line at the cursor and put the cursor at the
      start of the new line, scrolling down if that line was below the viewport. */
  function InsertEnter(w: Window): (r: Window)
    requires w.cursor.line < LineCount(w.buffer)
    requires CursorOffset(w) <= |w.buffer|
    ensures r.buffer == InsertAt(w.buffer, CursorOffset(w), '\n')
    ensures LineCount(r.buffer) == LineCount(w.buffer) + 1
    ensures r.cursor == Point(0, w.cursor.line + 1)
    ensures r.stickyCol == w.stickyCol && r.width == w.width && r.height == w.height
    ensures r.scroll.col == w.scroll.col
    ensures w.cursor.line + 1 >= w.scroll.line + w.height ==>
              r.scroll.line == w.cursor.line + 2 - w.height
    ensures w.cursor.line + 1 < w.scroll.line + w.height ==> r.scroll == w.scroll
    ensures CursorInLine(r)
    ensures Visible(w) ==> Visible(r)
  {
    var typed := InsertChar(w, '\n');
    var down := MoveCursorDown(typed, 1);
    down.(cursor := down.cursor.(col := 0))
  }

  /** After a line break inside a line, the new line starts just after the break. */
  lemma InsertEnterSplitsLine(w: Window)
    requires CursorInLine(w)
    ensures CursorOffset(w) <= |w.buffer|
    ensures LineStart(InsertEnter(w).buffer, w.cursor.line) == LineStart(w.buffer, w.cursor.line)
    ensures ContentLen(InsertEnter(w).buffer, w.cursor.line) == w.cursor.col
    ensures LineStart(InsertEnter(w).buffer, w.cursor.line + 1) == CursorOffset(w) + 1
  {
    InsertBreak(w.buffer, w.cursor.line, CursorOffset(w), '\n');
    assert InsertEnter(w).buffer == InsertAt(w.buffer, CursorOffset(w), '\n');
  }

  /** The buffer offset `backspace` removes: the character before the cursor. */
  function BackspaceOffset(w: Window): nat
    requires w.cursor.line < LineCount(w.buffer)
    requires w.cursor != Point(0, 0)
  {
    assert w.cursor.line > 0 ==> 0 < LineStart(w.buffer, w.cursor.line);
    CursorOffset(w) - 1
  }

  /** `backspace`: remove the character before the cursor. The cursor goes
      where that character was, one line up when the removed character ended
      the previous line. At the very start of the buffer nothing happens. */
  function Backspace(w: Window): (r: Window)
    requires w.cursor.line < LineCount(w.buffer)
    requires CursorOffset(w) <= |w.buffer|
    ensures w.cursor == Point(0, 0) ==> r == w
    ensures w.cursor != Point(0, 0) ==> r.buffer == RemoveAt(w.buffer, BackspaceOffset(w))
    ensures r.cursor.line < LineCount(r.buffer)
    ensures r.cursor.line <= w.cursor.line <= r.cursor.line + 1
    ensures r.stickyCol == w.stickyCol && r.width == w.width && r.height == w.height
    ensures r.scroll.col == w.scroll.col
    ensures Visible(w) ==> Visible(r)
  {
    if w.cursor == Point(0, 0) then w
    else
      var k := BackspaceOffset(w);
      var b := RemoveAt(w.buffer, k);
      LineCountRemove(w.buffer, k);
      var newLine := CharToLine(b, k);
      var moved := if newLine != w.cursor.line then MoveCursorUp(w.(buffer := b), 1) else w.(buffer := b);
      assert Visible(w) ==> Visible(moved);
      CharToLineBounds(b, k);
      moved.(cursor := moved.cursor.(col := k - LineStart(b, newLine)))
  }

  /** Inside a line, backspace steps the cursor back over the removed
      character; at a line start it joins the line to the previous one and puts
      the cursor where the previous line's content ended. Either way the cursor
      sits where the removed character was. */
  lemma BackspaceInLine(w: Window)
    requires CursorInLine(w) && w.cursor != Point(0, 0)
    ensures CursorOffset(w) <= |w.buffer|
    ensures IsTerminator(w.buffer[BackspaceOffset(w)]) <==> w.cursor.col == 0
    ensures w.cursor.col > 0 ==> Backspace(w).cursor == Point(w.cursor.col - 1, w.cursor.line)
    ensures w.cursor.col == 0 ==>
              Backspace(w).cursor == Point(ContentLen(w.buffer, w.cursor.line - 1), w.cursor.line - 1)
    ensures LineStart(Backspace(w).buffer, Backspace(w).cursor.line) + Backspace(w).cursor.col
            == BackspaceOffset(w)
    ensures CursorInLine(Backspace(w))
  {
    if w.cursor.col > 0 {
      BackspaceMidLine(w);
    } else {
      BackspaceAtLineStart(w);
    }
  }

  /** Backspace after the first column removes a character of the line. */
  lemma BackspaceMidLine(w: Window)
    requires CursorInLine(w) && w.cursor.col > 0
    ensures CursorOffset(w) <= |w.buffer|
    ensures !IsTerminator(w.buffer[BackspaceOffset(w)])
    ensures Backspace(w).cursor == Point(w.cursor.col - 1, w.cursor.line)
    ensures LineStart(Backspace(w).buffer, Backspace(w).cursor.line) + Backspace(w).cursor.col
            == BackspaceOffset(w)
    ensures CursorInLine(Backspace(w))
  {
    var s := w.buffer;
    var i := w.cursor.line;
    var k := BackspaceOffset(w);
    BackspaceShape(w);
    CharToLineBounds(RemoveAt(s, k), k);
    assert k + 1 == LineStart(s, i) + w.cursor.col;
    RemoveInLine(s, i, k);
  }

  /** Backspace in the first column removes the previous line's terminator. */
  lemma BackspaceAtLineStart(w: Window)
    requires CursorInLine(w) && w.cursor.col == 0 && w.cursor.line > 0
    ensures CursorOffset(w) <= |w.buffer|
    ensures IsTerminator(w.buffer[BackspaceOffset(w)])
    ensures Backspace(w).cursor == Point(ContentLen(w.buffer, w.cursor.line - 1), w.cursor.line - 1)
    ensures LineStart(Backspace(w).buffer, Backspace(w).cursor.line) + Backspace(w).cursor.col
            == BackspaceOffset(w)
    ensures CursorInLine(Backspace(w))
  {
    var s := w.buffer;
    var i := w.cursor.line;
    var k := BackspaceOffset(w);
    var b := RemoveAt(s, k);
    BackspaceShape(w);
    assert k + 1 == LineStart(s, i);
    RemoveLineBreak(s, i, k);
    var r := Backspace(w);
    assert r.buffer == b && r.cursor.line == i - 1;
    JoinedCursor(b, i - 1, k, r.cursor.col);
  }

  /** A cursor put on the offset `k` of line `j`, where `k` is on that line,
      is a cursor within the line's content. */
  lemma JoinedCursor(b: seq<char>, j: nat, k: nat, col: nat)
    requires k <= |b| && CharToLine(b, k) == j && LineStart(b, j) + col == k
    ensures j < LineCount(b) && col <= ContentLen(b, j)
  {
    CharToLineBounds(b, k);
  }

  /** Where `Backspace` puts the cursor, in terms of the removed offset. */
  lemma BackspaceShape(w: Window)
    requires w.cursor.line < LineCount(w.buffer)
    requires CursorOffset(w) <= |w.buffer|
    requires w.cursor != Point(0, 0)
    ensures BackspaceOffset(w) < |w.buffer|
    ensures Backspace(w).buffer == RemoveAt(w.buffer, BackspaceOffset(w))
    ensures CharToLine(Backspace(w).buffer, BackspaceOffset(w)) != w.cursor.line ==>
              Backspace(w).cursor.line == UpTarget(w.cursor.line, 1)
    ensures CharToLine(Backspace(w).buffer, BackspaceOffset(w)) == w.cursor.line ==>
              Backspace(w).cursor.line == w.cursor.line && Backspace(w).scroll == w.scroll
    ensures LineStart(Backspace(w).buffer, CharToLine(Backspace(w).buffer, BackspaceOffset(w)))
            + Backspace(w).cursor.col == BackspaceOffset(w)
  {
  }

  /** `delete`: remove the character under the cursor (if there is one) and
      pull the cursor back onto the line. */
  function Delete(w: Window): (r: Window)
    requires w.cursor.line < LineCount(w.buffer)
    ensures CursorOffset(w) < |w.buffer| ==> r.buffer == RemoveAt(w.buffer, CursorOffset(w))
    ensures CursorOffset(w) >= |w.buffer| ==> r.buffer == w.buffer
    ensures r.cursor.line == w.cursor.line && w.cursor.line < LineCount(r.buffer)
    ensures LineStart(r.buffer, w.cursor.line) == LineStart(w.buffer, w.cursor.line)
    ensures r.cursor.col == Min(w.cursor.col, LastCol(r.buffer, w.cursor.line))
    ensures r.scroll == w.scroll && r.stickyCol == w.stickyCol && r.width == w.width && r.height == w.height
    ensures CursorInLine(r)
    ensures Visible(w) ==> Visible(r)
  {
    var k := CursorOffset(w);
    if k < |w.buffer| then
      RemoveAfterLineStart(w.buffer, w.cursor.line, k);
      AdjustCol(w.(buffer := RemoveAt(w.buffer, k)))
    else
      AdjustCol(w)
  }

  /** Inside a line, delete shortens the line by one and leaves the cursor
      where it was, unless it was on the last character of the buffer's last
      line; at the end of a line's content it joins the next line on. */
  lemma DeleteInLine(w: Window)
    requires CursorInLine(w) && CursorOffset(w) < |w.buffer|
    ensures IsTerminator(w.buffer[CursorOffset(w)]) <==> w.cursor.col == ContentLen(w.buffer, w.cursor.line)
    ensures LineCount(Delete(w).buffer) + (if w.cursor.col == ContentLen(w.buffer, w.cursor.line) then 1 else 0)
            == LineCount(w.buffer)
    ensures w.cursor.col < ContentLen(w.buffer, w.cursor.line) ==>
              ContentLen(Delete(w).buffer, w.cursor.line) + 1 == ContentLen(w.buffer, w.cursor.line)
    ensures w.cursor.col < ContentLen(w.buffer, w.cursor.line)
            && (w.cursor.col + 1 < ContentLen(w.buffer, w.cursor.line) || w.cursor.line + 1 < LineCount(w.buffer))
            ==> Delete(w).cursor == w.cursor
  {
    var s := w.buffer;
    var i := w.cursor.line;
    var k := CursorOffset(w);
    var b := RemoveAt(s, k);
    assert Delete(w).buffer == b;
    LineCountRemove(s, k);
    if w.cursor.col < ContentLen(s, i) {
      RemoveInLine(s, i, k);
      assert LastCol(b, i) >= ContentLen(b, i) || LastCol(b, i) + 1 == ContentLen(b, i);
    } else {
      LineLayout(s, i);
    }
  }


  // ---------------------------------------------------------------------------
  // How the operations compose

  /** Moving down `a` then `b` lines is moving down `a + b` lines, scroll offset included. */
  lemma MoveDownTwice(w: Window, a: nat, b: nat)
    requires w.cursor.line < LineCount(w.buffer)
    ensures MoveCursorDown(w, a).cursor.line < LineCount(w.buffer)
    ensures MoveCursorDown(MoveCursorDown(w, a), b) == MoveCursorDown(w, a + b)
  {
    var once := MoveCursorDown(w, a);
    var twice := MoveCursorDown(once, b);
    var whole := MoveCursorDown(w, a + b);
    assert twice.cursor.line == whole.cursor.line;
    assert twice.scroll == whole.scroll;
  }

  /** Moving up `a` then `b` lines is moving up `a + b` lines, scroll offset included. */
  lemma MoveUpTwice(w: Window, a: nat, b: nat)
    requires UpTarget(w.cursor.line, a) < LineCount(w.buffer)
    ensures UpTarget(MoveCursorUp(w, a).cursor.line, b) < LineCount(w.buffer)
    ensures UpTarget(w.cursor.line, a + b) < LineCount(w.buffer)
    ensures MoveCursorUp(MoveCursorUp(w, a), b) == MoveCursorUp(w, a + b)
  {
    var once := MoveCursorUp(w, a);
    var twice := MoveCursorUp(once, b);
    var whole := MoveCursorUp(w, a + b);
    assert twice.cursor.line == whole.cursor.line;
    assert twice.scroll == whole.scroll;
  }

  /** Down then up by the same count returns to the starting line, at the
      sticky column clamped to that line, when the way down is not cut short
      by the end of the buffer. */
  lemma DownThenUp(w: Window, n: nat)
    requires w.cursor.line + n < LineCount(w.buffer)
    ensures MoveCursorUp(MoveCursorDown(w, n), n).cursor
            == Point(Min(w.stickyCol, LastCol(w.buffer, w.cursor.line)), w.cursor.line)
  {
  }

  /** The sticky column: after a horizontal move, going down a line (perhaps a
      shorter one, which pulls the cursor left) and back up puts the cursor
      back on the column it left from. */
  lemma StickyColumnRestored(w: Window, n: nat)
    requires w.cursor.line + 1 < LineCount(w.buffer)
    ensures MoveCursorUp(MoveCursorDown(MoveCursorRight(w, n), 1), 1).cursor == MoveCursorRight(w, n).cursor
  {
    var r := MoveCursorRight(w, n);
    DownThenUp(r, 1);
  }

  /** A cursor inside its line is at an offset on that line. */
  lemma CursorOnItsLine(w: Window)
    requires CursorInLine(w)
    ensures CursorOffset(w) <= |w.buffer|
    ensures CharToLine(w.buffer, CursorOffset(w)) == w.cursor.line
  {
    CharToLineWithin(w.buffer, w.cursor.line, w.cursor.col);
  }

  /** Backspace undoes typing an ordinary character inside a line, exactly. */
  lemma InsertThenBackspace(w: Window, c: char)
    requires CursorInLine(w) && !IsTerminator(c)
    ensures CursorOffset(w) <= |w.buffer|
    ensures Backspace(InsertChar(w, c)) == w
  {
    var s := w.buffer;
    var i := w.cursor.line;
    var p := CursorOffset(w);
    InsertInLine(s, i, p, c);
    var typed := InsertChar(w, c);
    assert typed.buffer == InsertAt(s, p, c);
    assert BackspaceOffset(typed) == p;
    var back := Backspace(typed);
    assert back.buffer == s by {
      BackspaceShape(typed);
      RemoveAfterInsert(s, p, c);
    }
    CursorOnItsLine(w);
    assert back.cursor == w.cursor && back.scroll == w.scroll by {
      BackspaceShape(typed);
    }
  }

  /** Backspace at the start of the line a line break just made joins the
      line back: buffer and cursor are as before the break. */
  lemma EnterThenBackspace(w: Window)
    requires CursorInLine(w)
    ensures CursorOffset(w) <= |w.buffer|
    ensures Backspace(InsertEnter(w)).buffer == w.buffer
    ensures Backspace(InsertEnter(w)).cursor == w.cursor
  {
    var s := w.buffer;
    var i := w.cursor.line;
    var p := CursorOffset(w);
    CursorOnItsLine(w);
    InsertEnterSplitsLine(w);
    var split := InsertEnter(w);
    assert split.buffer == InsertAt(s, p, '\n');
    assert BackspaceOffset(split) == p;
    RemoveAfterInsert(s, p, '\n');
    BackspaceShape(split);
  }

  // ---------------------------------------------------------------------------
  // Worked examples

  /** Enter in the middle of `"ab"` splits it into `"a\n"` and `"b"` with the
      cursor at the start of the second line. */
  lemma EnterSplitsExample()
    ensures InsertEnter(Window("ab", 80, 24, Point(0, 0), Point(1, 0), 1)).buffer == "a\nb"
    ensures InsertEnter(Window("ab", 80, 24, Point(0, 0), Point(1, 0), 1)).cursor == Point(0, 1)
  {
    var s := "ab";
    assert Count(s, 2) == 0;
    LineStartUnique(s, 0, 0);
    var w := Window(s, 80, 24, Point(0, 0), Point(1, 0), 1);
    assert InsertAt(s, 1, '\n') == "a\nb";
  }

  /** Backspace at the start of the second line of `"ab\ncd"` joins the lines
      into `"abcd"` with the cursor after `b`. */
  lemma BackspaceJoinsExample(w: Window)
    requires w.buffer == "ab\ncd" && w.cursor == Point(0, 1)
    ensures w.cursor.line < LineCount(w.buffer)
    ensures Backspace(w).buffer == "abcd" && Backspace(w).cursor == Point(2, 0)
  {
    JoinExampleLines();
    BackspaceAtLineStart(w);
    assert BackspaceOffset(w) == 2;
  }

  /** The line layout of `"ab\ncd"`. */
  lemma JoinExampleLines()
    ensures LineCount("ab\ncd") == 2 && LineStart("ab\ncd", 1) == 3 && ContentLen("ab\ncd", 0) == 2
    ensures RemoveAt("ab\ncd", 2) == "abcd"
  {
    var s := "ab\ncd";
    assert LineCount(s) == 2 by {
      assert Count(s, 5) == 1;
    }
    assert LineStart(s, 1) == 3 by {
      assert Count(s, 3) == 1;
      LineStartUnique(s, 1, 3);
    }
    assert ContentLen(s, 0) == 2 by {
      LineStartUnique(s, 0, 0);
      ContentEndUnique(s, 0, 2);
    }
    assert RemoveAt(s, 2) == "abcd";
  }
}
