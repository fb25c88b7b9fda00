/**
 The ex bar: the one-line editor the command line uses. It holds the text
 typed so far and a cursor index into it, and is driven one key event at a
 time; each key either leaves it editing, aborts it, or finishes it with the
 typed command.
 */
module Ex {
  import opened Keys
  import opened Rope

  datatype ExBar = ExBar(text: seq<char>, cursorIndex: nat)

  datatype ExResult = StillEditing | Aborted | Finished(command: seq<char>)

  /** The cursor sits on a character of the text or just after its end. */
  predicate Valid(bar: ExBar) {
    bar.cursorIndex <= |bar.text|
  }

  /** `ExBar::new`: empty text, cursor at the start. */
  function NewExBar(): (r: ExBar)
    ensures r.text == [] && r.cursorIndex == 0
    ensures Valid(r)
  {
    ExBar([], 0)
  }

  /** `clear`: forget the text, whatever it was. */
  function Clear(bar: ExBar): (r: ExBar)
    ensures r.text == [] && r.cursorIndex == 0
    ensures Valid(r)
  {
    NewExBar()
  }

  /** `handle_key`: the new bar and what the key did. The rope insert and
      remove panic on an index past the text, hence the requirement that the
      cursor stay within it, which every key preserves. */
  function HandleKey(bar: ExBar, key: KeyEvent): (r: (ExBar, ExResult))
    requires Valid(bar)
    ensures Valid(r.0)
    // a key with any modifier is ignored
    ensures key.modifiers != NoModifiers ==> r == (bar, StillEditing)
    // typing inserts at the cursor and steps past the new character
    ensures key.modifiers == NoModifiers && key.code.Char? ==>
              r.0.text == bar.text[..bar.cursorIndex] + [key.code.c] + bar.text[bar.cursorIndex..]
              && r.0.cursorIndex == bar.cursorIndex + 1 && r.1 == StillEditing
    // Enter hands over the whole text and clears the bar
    ensures r.1.Finished? <==> key == Plain(Enter)
    ensures r.1.Finished? ==> r.1.command == bar.text && r.0 == NewExBar()
    // Escape, or Backspace on empty text, aborts without touching the bar
    ensures r.1 == Aborted <==> key == Plain(Esc) || (key == Plain(Backspace) && bar.text == [])
    ensures r.1 == Aborted ==> r.0 == bar
    // Backspace removes the character before the cursor, if there is one
    ensures key == Plain(Backspace) && bar.text != [] && bar.cursorIndex == 0 ==> r == (bar, StillEditing)
    ensures key == Plain(Backspace) && 0 < bar.cursorIndex ==>
              r.0.text == bar.text[..bar.cursorIndex - 1] + bar.text[bar.cursorIndex..]
              && r.0.cursorIndex == bar.cursorIndex - 1 && r.1 == StillEditing
    // Delete removes the character under the cursor, if there is one, and never moves the cursor
    ensures key == Plain(Delete) ==> r.0.cursorIndex == bar.cursorIndex && r.1 == StillEditing
    ensures key == Plain(Delete) && bar.cursorIndex < |bar.text| ==>
              r.0.text == bar.text[..bar.cursorIndex] + bar.text[bar.cursorIndex + 1..]
    ensures key == Plain(Delete) && bar.cursorIndex == |bar.text| ==> r.0 == bar
    // Left and Right step the cursor, stopping at either end of the text
    ensures key == Plain(Left) ==>
              r.0.text == bar.text && r.1 == StillEditing
              && r.0.cursorIndex == (if bar.cursorIndex == 0 then 0 else bar.cursorIndex - 1)
    ensures key == Plain(Right) ==>
              r.0.text == bar.text && r.1 == StillEditing
              && r.0.cursorIndex == (if bar.cursorIndex == |bar.text| then bar.cursorIndex else bar.cursorIndex + 1)
    // every other key is ignored
    ensures key.modifiers == NoModifiers && !Handled(key.code) ==> r == (bar, StillEditing)
  {
    if key.modifiers != NoModifiers then (bar, StillEditing)
    else
      match key.code
      case Char(c) => (ExBar(InsertAt(bar.text, bar.cursorIndex, c), bar.cursorIndex + 1), StillEditing)
      case Enter => (Clear(bar), Finished(bar.text))
      case Backspace =>
        if |bar.text| == 0 then (bar, Aborted)
        else if bar.cursorIndex == 0 then (bar, StillEditing)
        else (ExBar(RemoveAt(bar.text, bar.cursorIndex - 1), bar.cursorIndex - 1), StillEditing)
      case Delete =>
        if bar.cursorIndex < |bar.text| then (bar.(text := RemoveAt(bar.text, bar.cursorIndex)), StillEditing)
        else (bar, StillEditing)
      case Left => (if bar.cursorIndex > 0 then bar.(cursorIndex := bar.cursorIndex - 1) else bar, StillEditing)
      case Right => (if bar.cursorIndex < |bar.text| then bar.(cursorIndex := bar.cursorIndex + 1) else bar, StillEditing)
      case Esc => (bar, Aborted)
      case _ => (bar, StillEditing)
  }

  /** The key codes the bar reacts to. */
  predicate Handled(code: KeyCode) {
    code.Char? || code in {Enter, Backspace, Delete, Left, Right, Esc}
  }

  // ---------------------------------------------------------------------------
  // Key sequences

  /** The bar after typing each character of `s` in turn. */
  function TypeText(bar: ExBar, s: seq<char>): (r: ExBar)
    requires Valid(bar)
    ensures Valid(r)
    decreases |s|
  {
    if s == [] then bar else TypeText(HandleKey(bar, Plain(Char(s[0]))).0, s[1..])
  }

  /** Typing `s` puts it into the text at the cursor and leaves the cursor
      just after it. */
  lemma {:induction false} TypeTextInserts(bar: ExBar, s: seq<char>)
    requires Valid(bar)
    ensures TypeText(bar, s).text == bar.text[..bar.cursorIndex] + s + bar.text[bar.cursorIndex..]
    ensures TypeText(bar, s).cursorIndex == bar.cursorIndex + |s|
    decreases |s|
  {
    if s != [] {
      var next := HandleKey(bar, Plain(Char(s[0]))).0;
      TypeTextInserts(next, s[1..]);
      var i := bar.cursorIndex;
      var t := bar.text;
      assert next.text[..i + 1] == t[..i] + [s[0]];
      assert next.text[i + 1..] == t[i..];
      assert [s[0]] + s[1..] == s;
    }
  }

  /** Typing a command into an empty bar and pressing Enter finishes with
      exactly that command and leaves the bar empty. */
  lemma TypeThenEnter(s: seq<char>)
    ensures HandleKey(TypeText(NewExBar(), s), Plain(Enter)) == (NewExBar(), Finished(s))
  {
    TypeTextInserts(NewExBar(), s);
    assert TypeText(NewExBar(), s).text == s by {
      var e: seq<char> := [];
      assert e[..0] + s + e[0..] == s;
    }
  }

  /** Backspace undoes typing a character. */
  lemma CharThenBackspace(bar: ExBar, c: char)
    requires Valid(bar)
    ensures HandleKey(HandleKey(bar, Plain(Char(c))).0, Plain(Backspace)) == (bar, StillEditing)
  {
    var typed := HandleKey(bar, Plain(Char(c))).0;
    var back := HandleKey(typed, Plain(Backspace)).0;
    var i := bar.cursorIndex;
    assert back.text == bar.text by {
      assert typed.text[..i] == bar.text[..i];
      assert typed.text[i + 1..] == bar.text[i..];
    }
  }

  /** Left undoes Right, unless Right was stopped at the end of the text. */
  lemma RightThenLeft(bar: ExBar)
    requires Valid(bar) && bar.cursorIndex < |bar.text|
    ensures HandleKey(HandleKey(bar, Plain(Right)).0, Plain(Left)) == (bar, StillEditing)
  {
  }

  /** Backspace in an empty bar aborts it and leaves it empty. */
  lemma BackspaceOnEmptyAborts()
    ensures HandleKey(NewExBar(), Plain(Backspace)) == (NewExBar(), Aborted)
  {
  }

  /** Typing `w foo` and pressing Enter finishes with the command `w foo`. */
  lemma WriteCommandExample()
    ensures HandleKey(ExBar("w foo", 5), Plain(Enter)) == (NewExBar(), Finished("w foo"))
  {
  }
}
