# awrevim core in Dafny

A model of the core of awrevim, a small modal text editor. The core has three parts:

- **The window** (`window.dfy`, module `Windows`) is the cursor and viewport engine. A window holds:
  - a buffer;
  - a `u16` size;
  - a scroll offset;
  - a cursor `(col, line)`;
  - the sticky column `cursor_x_saved`.

  It covers the vertical and horizontal motions, the column clamp `adjust_cursor_x`, `resize`, and the editing operations `insert_char`, `insert_enter`, `backspace` and `delete`. Every operation is a pure function from the window before to the window after.
- **The buffer** (`rope.dfy`, module `Rope`) models the rope as a `seq<char>`. It defines the rope queries the window uses:
  - `len_lines`, modelled as one more than the number of terminators;
  - `line_to_char`;
  - `line(i).len_chars()`;
  - `char_to_line`.

  A line ends after one of the seven single-character terminators that `is_newline` lists. The lemmas there describe how one insert or remove moves line starts and line lengths.
- **The ex bar** (`ex.dfy`, module `Ex`) is the one-line command editor. It is driven one key event at a time (`keys.dfy`, module `Keys`). Each key returns `StillEditing`, `Aborted` or `Finished(text)`.
- **The key map** (`commands.dfy`, module `Commands`) covers:
  - the exact-match table from key events to motions;
  - the ten default bindings;
  - the six motion actions, including the half-page distance, applied directly to a window.

Preconditions state only what the editor needs to avoid a panic: an index past the rope, or an unsigned subtraction below zero. Two window invariants are stated as facts the operations preserve, not demanded of callers:
- `CursorInLine`: the cursor is on an existing line, at most one column past the line's content.
- `Visible`: the cursor's line is inside the viewport.

The one exception is `insert_char` with a terminator. It leaves the cursor one column past the line it has just split, so `InsertChar` keeps only `Visible`, and `InsertCharInLine` gives `CursorInLine` only for other characters. `insert_enter` restores both invariants.

## Model

| member | source | states |
|---|---|---|
| Windows.NewWindow | src/window.rs:13-21 | A new window has an empty (one-line) buffer and the given size. The cursor, scroll offset and sticky column are all zero. With a non-zero height it starts with the cursor in its line and on screen. |
| Windows.SetBuffer | src/window.rs:43-48 | A new buffer is shown from its start: cursor, scroll offset and sticky column are reset to zero, the cursor offset is 0, and the size is kept. |
| Windows.RelCursorPos | src/window.rs:39-41 | The position relative to the scroll offset is the plain difference whenever it fits in `u16`. A visible cursor's row is below the height. |
| Windows.VisibleLines | src/window.rs:31-33 | The shown lines are `min(height, lines left)` consecutive lines of the buffer, starting at the scroll line. |
| Windows.VisibleLinesFrom | src/window.rs:35-37 | From screen row `row` down, the shown lines are the buffer lines starting at `scroll + row`, at most `height - row` of them. It requires `row <= height`. |
| Windows.VisibleLinesFromIsSuffix | src/window.rs:31-37 | The lines shown from a row down are exactly the tail of all shown lines, starting at that row. |
| Windows.AdjustCol | src/window.rs:78-92 | Only the column changes. The new column is the old one or the line's last column, whichever is smaller, so it never grows and stays within the line. |
| Windows.MoveCursorDown | src/window.rs:50-63 | The cursor lands on `min(line + n, last line)`, at `min(sticky column, last column)`. The scroll line grows by exactly `target - (scroll + height) + 1` when the target is below the viewport, and is unchanged otherwise. A visible cursor stays visible. |
| Windows.MoveCursorUp | src/window.rs:65-76 | The cursor lands on `max(0, line - n)`, at `min(sticky column, last column)`. The scroll line becomes the target when the target is above the viewport, and is unchanged otherwise. A visible cursor stays visible. |
| Windows.MoveCursorLeft | src/window.rs:94-97 | The column decreases by `n`, saturating at 0, and the sticky column becomes the new column. The line, buffer and scroll offset are unchanged. |
| Windows.MoveCursorRight | src/window.rs:99-103 | The column becomes exactly `min(col + n, last column)`, and the sticky column follows it. The line, buffer and scroll offset are unchanged. |
| Windows.Resize | src/window.rs:105-114 | The size becomes the new size and the cursor never moves. Each scroll component grows by exactly `rel - size + 1` when the relative position is at least the new size, and is unchanged otherwise. |
| Windows.ResizeShowsCursor | src/window.rs:105-114 | After a resize to a non-zero size, the relative cursor position is below the new size. When scrolling was needed, the cursor ends on the last row or column. |
| Windows.ResizeKeepsValid | src/window.rs:105-114 | A valid window stays valid after resizing to a non-zero height. |
| Windows.LeftOfViewportAfterResize | src/window.rs:94-111 | As written, `resize(50, 24)` on a cursor in column 100 scrolls to column 51, and `move_cursor_left(60)` then leaves the cursor in column 40, left of the scroll column. |
| Windows.LeftOfViewportAfterMoveDown | src/window.rs:50-111 | As written, the same resize followed by `move_cursor_down(1)` onto a line whose last column is below 51 clamps the cursor to that column, left of the scroll column 51, because vertical moves keep the scroll column. |
| Windows.MoveCursorLeftInView | src/window.rs:94-97 | Corrected left move: the cursor and sticky column move as `move_cursor_left` moves them, and the scroll column is pulled back to the cursor when the cursor passes it. It equals the as-written move whenever the cursor stays in view. |
| Windows.InViewAfterResize | src/window.rs:105-114 | After a resize to a non-empty size, the corrected left move leaves the cursor at or right of the scroll offset, so the relative position is defined. |
| Windows.InsertChar | src/window.rs:116-120 | The character goes in at `line_to_char(line) + col`. The cursor steps one column right on the same line, and nothing else changes. The line count grows exactly when a terminator was typed. |
| Windows.InsertCharInLine | src/window.rs:116-120 | Typing a non-terminator inside a line lengthens that line by one and keeps the cursor inside it. |
| Windows.InsertEnter | src/window.rs:122-126 | Enter inserts `'\n'` at the cursor, adds exactly one line, and puts the cursor at column 0 of the next line. The viewport scrolls so that line becomes the bottom row if it was below the viewport. |
| Windows.InsertEnterSplitsLine | src/window.rs:122-126 | After Enter, the cursor's old line keeps its start and ends at the old column. The new line starts right after the inserted break. |
| Windows.Backspace | src/window.rs:128-142 | At `(0, 0)` nothing changes. Otherwise exactly the character before the cursor is removed, and the cursor line drops by at most one. The scroll column, the sticky column and visibility are preserved. |
| Windows.BackspaceInLine | src/window.rs:133-141 | The removed character is a terminator iff the cursor was in column 0. Inside a line the cursor steps back one column. At a line start it moves to the end of the previous line's content. The cursor ends where the removed character was. |
| Windows.BackspaceMidLine | src/window.rs:133-141 | Backspace past column 0 removes a non-terminator and steps the cursor back one column on the same line. |
| Windows.BackspaceAtLineStart | src/window.rs:133-141 | Backspace in column 0 removes the previous line's terminator and puts the cursor at the end of that line's content. |
| Windows.Delete | src/window.rs:144-150 | The character under the cursor is removed when the offset is inside the buffer, and nothing is removed otherwise. The line and scroll offset are kept. The column becomes exactly `min(col, last column)` of the line after the removal, which drops one column on any non-empty line. |
| Windows.DeleteInLine | src/window.rs:144-150 | The removed character is a terminator iff the cursor was at the end of the line's content, and then the line count drops by one. Otherwise the line is one shorter and the cursor stays put, except on the last character of the buffer's unterminated last line. |
| Windows.MoveDownTwice | src/window.rs:50-63 | Moving down `a` then `b` lines equals moving down `a + b` lines, scroll offset included. |
| Windows.MoveUpTwice | src/window.rs:65-76 | Moving up `a` then `b` lines equals moving up `a + b` lines, scroll offset included. |
| Windows.DownThenUp | src/window.rs:50-76 | Down then up by `n` returns to the starting line, at the sticky column clamped to it, when the buffer has room below. |
| Windows.StickyColumnRestored | src/window.rs:50-103 | After a horizontal move, going down a line and back up restores the cursor to the column it had. |
| Windows.InsertThenBackspace | src/window.rs:116-142 | Backspace exactly undoes typing a non-terminator inside a line, leaving the whole window as it was. |
| Windows.EnterThenBackspace | src/window.rs:122-142 | Backspace right after Enter restores both the buffer and the cursor. |
| Windows.EnterSplitsExample | src/window.rs:122-126 | Enter in the middle of `"ab"` gives `"a\nb"`, with the cursor at `(0, 1)`. |
| Windows.BackspaceJoinsExample | src/window.rs:128-142 | Backspace at the start of the second line of `"ab\ncd"` gives `"abcd"`, with the cursor at `(2, 0)`. |
| Ex.NewExBar | src/ex.rs:17-22 | A new bar has empty text and its cursor at 0. |
| Ex.Clear | src/ex.rs:88-91 | Whatever the bar held, afterwards the text is empty and the cursor is 0. |
| Ex.HandleKey | src/ex.rs:32-86 | One clause per branch:<br>• A key with any modifier is ignored, and so is every unhandled key code.<br>• A character is inserted at the cursor and the cursor advances.<br>• The result is `Finished` iff the key was Enter; it carries the whole text and leaves the bar empty.<br>• The result is `Aborted` iff the key was Esc, or Backspace on empty text; the bar is then untouched.<br>• Backspace removes the character before the cursor; Delete removes the one under it and never moves the cursor.<br>• Left and Right step the cursor, clamped to `[0, \|text\|]`.<br>• The cursor stays within the text. |
| Ex.TypeText | src/ex.rs:38-42 | Typing any sequence of characters keeps the cursor within the text. |
| Ex.TypeTextInserts | src/ex.rs:38-42 | Typing `s` places `s` in the text at the cursor and leaves the cursor just after it. |
| Ex.TypeThenEnter | src/ex.rs:38-48 | Typing `s` into an empty bar and pressing Enter finishes with exactly `s` and leaves the bar empty. |
| Ex.CharThenBackspace | src/ex.rs:38-56 | Backspace undoes typing one character. |
| Ex.RightThenLeft | src/ex.rs:69-82 | Left undoes Right when the cursor was not at the end of the text. |
| Ex.BackspaceOnEmptyAborts | src/ex.rs:49-51 | Backspace in an empty bar aborts it and leaves it empty. |
| Ex.WriteCommandExample | src/ex.rs:43-48 | Enter on the text `w foo` finishes with `w foo`. |
| Commands.NewMapping | src/commands.rs:15-19 | A new map binds no event. |
| Commands.GetMapping | src/commands.rs:21-23 | Lookup finds an action iff the event is bound, and then it finds the bound action. |
| Commands.InsertMapping | src/commands.rs:25-27 | After binding `e` to `a`, looking up `e` gives `a`, whatever was bound before. |
| Commands.InsertMappingKeepsOthers | src/commands.rs:25-27 | Binding `e` leaves the binding of every other event unchanged. |
| Commands.InsertMappingTwice | src/commands.rs:25-27 | Binding the same event twice keeps only the second binding. |
| Commands.InsertNomodMapping | src/commands.rs:29-34 | It is exactly `InsertMapping` with the code and an empty modifier set. |
| Commands.NomodDefaults | src/commands.rs:38-47 | The first eight default bindings map `h`/Left, `j`/Down, `k`/Up and `l`/Right, with no modifiers, to left, down, up and right. |
| Commands.NomodDefaultsTable | src/commands.rs:38-47 | The first eight bindings bind the unmodified motion keys to their motions and nothing else. |
| Commands.DefaultMappings | src/commands.rs:37-53 | The default table binds the eight motion keys, plus Ctrl-d to half-down and Ctrl-u to half-up. |
| Commands.DefaultMappingsTable | src/commands.rs:37-53 | Lookup in the default table agrees, for every key event, with an independent decision on code and modifiers. So plain `d`, plain `u`, Ctrl-j and any other combination are unbound. |
| Commands.DefaultMappingsSize | src/commands.rs:37-53 | The default table's keys are exactly the ten listed events, so it has exactly ten entries. |
| Commands.HalfPage | src/commands.rs:72-73 | The half-page distance is `ceil(height / 2)` for every height below 65535. At 65535 the `u16` sum wraps and the distance is 0. |
| Commands.Apply | src/commands.rs:55-81 | Each action is the corresponding window motion: by 1, or by the half-page distance of the window's height. The buffer and size are unchanged, and a cursor in its line and on screen stays so. |
| Commands.ApplyStickyColumn | src/commands.rs:55-69 | Vertical actions keep the sticky column, and horizontal ones set it to the new column. |
| Commands.HalfDownThenHalfUp | src/commands.rs:71-81 | Half a page down then half a page up returns to the starting line when the buffer has room below. |
| Commands.CtrlDExample | src/commands.rs:49-75 | In the default table Ctrl-d is bound to half-down. In a 24-row window with room below, it moves the cursor 12 lines down. |

## Left out

- Terminal and file I/O are not modelled:
  - raw mode, drawing, reading events and reading files in `src/main.rs`;
  - the main loop's hard-coded quit on `q`, which is checked before the key map is consulted.
- The main loop's `RVim` has no `current_window_mut`, yet the key-map actions call it. So the actions are applied directly to a window (`Commands.Apply`), not through an editor value.
- The `Mode` enum in `src/commands.rs` has two variants and is never used, so it is not modelled. No other modes or ex commands exist in the modelled code.
- The rope is not modelled:
  - its balanced-tree representation;
  - its treatment of `"\r\n"` as one line break.

  The buffer is a flat sequence, and each of the seven terminators ends a line on its own.
- Source types are replaced by plain values:
  - The ex bar's rope is modelled as its text, a `seq<char>`.
  - The `fmt::Write` formatting on Enter is modelled as returning that text.
  - `fn(&mut RVim)` values are modelled as an `Action` enum.
  - The `HashMap` is modelled as a `map`.
- Key modifiers are modelled as a record of three flags (shift, control, alt), the modifier bits the key map and the ex bar test.
- `usize` is modelled as an unbounded `nat`, so no overflow of cursor, scroll or offset arithmetic is modelled. `u16` sizes are a bounded subtype. The `as u16` truncation in `rel_cursor_pos` is written out.
- Windows.Resize: the `u16` sums `rely - height + 1` and `relx - width + 1` can overflow only when the relative position is 65535 and the new size is 0. The model then adds 65536 to the scroll line or column, where the source would panic or wrap.
- The cursor on the line one past the end, which ropey's `line_to_char` accepts, is not modelled. Every window operation that asks the rope about the cursor's line requires `cursor.line < LineCount`, and every operation keeps that true. `MoveCursorUp` asks only about its target line and requires only that. `MoveCursorLeft`, `Resize`, `SetBuffer` and `RelCursorPos` need nothing of the kind.
- Commands.Apply: requires `cursor.line < LineCount` for every action, including `MoveLeft`, which the source does not need. This excludes no reachable window, since every operation keeps that bound.
- Windows.RelCursorPos: requires the cursor not to be left of or above the scroll offset, because the source's unsigned subtraction would panic. The section "Findings" shows the source can reach that state.
- No horizontal visibility invariant is claimed. No operation but `resize` changes the scroll column. After a resize has scrolled right, any operation that lowers the cursor column can leave the cursor left of the viewport: a left move, a backspace, the column clamp after a delete, or a vertical move onto a shorter line.
- Windows.DeleteInLine: the claim that the cursor stays put excludes one case. That case is deleting the last character of an unterminated last line: there the column clamp, which drops one column from every non-empty line, pulls the cursor back one.
- Ex.HandleKey: Esc returns `Aborted` and leaves the text and cursor as they were, following the code.
- Ex.HandleKey: a character typed with Shift held carries a non-empty modifier set, so the bar ignores it, following the code.
- Commands.HalfPage: the source computes `(height + 1) / 2` in `u16`. That wraps only at height 65535, where the model gives 0 as the wrapped sum does. A debug build would panic there instead.

## Findings

| source | as written | input that shows it | evidently intended | confidence | as-written member | corrected member |
|---|---|---|---|---|---|---|
| src/window.rs:94-97, 105-111 | `move_cursor_left` never scrolls, but `resize` can scroll right to reach the cursor. A later left move can then put the cursor left of the scroll column, and the next `rel_cursor_pos` (src/window.rs:40) subtracts below zero, which panics in a debug build. | Cursor `(100, 0)` and scroll `(0, 0)`; `resize(50, 24)` sets the scroll column to 51; `move_cursor_left(60)` puts the cursor in column 40 | A left move past the scroll column scrolls left to the cursor, as `move_cursor_up` does for lines, so a left move never leaves the cursor left of the viewport | high; not executed | Windows.LeftOfViewportAfterResize | Windows.MoveCursorLeftInView |

The other operations that lower the column reach the same state. `Windows.LeftOfViewportAfterMoveDown` shows it for a vertical move onto a short line, and backspace and the clamp after a delete do it in the same way. The corrected member covers only the left move. The key map and the rest of the window model keep the as-written `MoveCursorLeft`, since that is what the editor does. `MoveCursorLeftInView` agrees with it whenever the cursor stays in view. `Windows.InViewAfterResize` proves that the corrected move keeps the relative position defined after any resize to a non-empty size.
