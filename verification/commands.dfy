/**
 Normal-mode key bindings: an exact-match table from key events to cursor
 motions, the default table, and what each motion does to a window.
 */
module Commands {
  import opened Keys
  import opened Rope
  import opened Windows

  /** The motions a key can be bound to. */
  datatype Action = MoveLeft | MoveDown | MoveUp | MoveRight | HalfDown | HalfUp

  datatype Option<T> = None | Some(value: T)

  /** A key map. Lookup is by the whole event: key code and modifier set. */
  datatype Mapping = Mapping(maps: map<KeyEvent, Action>)

  /** `Mapping::new`: nothing bound. */
  function NewMapping(): (r: Mapping)
    ensures forall e: KeyEvent :: GetMapping(r, e) == None
  {
    Mapping(map[])
  }

  /** `get_mapping`: the action bound to exactly this event, if any. */
  function GetMapping(m: Mapping, e: KeyEvent): (r: Option<Action>)
    ensures r.Some? <==> e in m.maps
    ensures r.Some? ==> r.value == m.maps[e]
  {
    if e in m.maps then Some(m.maps[e]) else None
  }

  /** `insert_mapping`: bind `e` to `a`, replacing any earlier binding of `e`
      and leaving every other event's binding as it was. */
  function InsertMapping(m: Mapping, e: KeyEvent, a: Action): (r: Mapping)
    ensures GetMapping(r, e) == Some(a)
  {
    Mapping(m.maps[e := a])
  }

  /** Binding `e` leaves the binding of every other event as it was. */
  lemma InsertMappingKeepsOthers(m: Mapping, e: KeyEvent, a: Action, other: KeyEvent)
    requires other != e
    ensures GetMapping(InsertMapping(m, e, a), other) == GetMapping(m, other)
  {
  }

  /** `insert_nomod_mapping`: bind the key code pressed without modifiers. */
  function InsertNomodMapping(m: Mapping, code: KeyCode, a: Action): (r: Mapping)
    ensures r == InsertMapping(m, KeyEvent(code, NoModifiers), a)
    ensures GetMapping(r, KeyEvent(code, NoModifiers)) == Some(a)
  {
    Mapping(m.maps[KeyEvent(code, NoModifiers) := a])
  }

  /** Binding the same event twice keeps only the second binding. */
  lemma InsertMappingTwice(m: Mapping, e: KeyEvent, a: Action, b: Action)
    ensures InsertMapping(InsertMapping(m, e, a), e, b) == InsertMapping(m, e, b)
  {
    assert InsertMapping(InsertMapping(m, e, a), e, b).maps == InsertMapping(m, e, b).maps;
  }

  /** The first eight bindings of `default_mappings`: the motions on
      `h j k l` and the arrow keys, pressed without modifiers. */
  function NomodDefaults(): (r: Mapping)
    ensures GetMapping(r, Plain(Char('h'))) == Some(MoveLeft) && GetMapping(r, Plain(Left)) == Some(MoveLeft)
    ensures GetMapping(r, Plain(Char('j'))) == Some(MoveDown) && GetMapping(r, Plain(Down)) == Some(MoveDown)
    ensures GetMapping(r, Plain(Char('k'))) == Some(MoveUp) && GetMapping(r, Plain(Up)) == Some(MoveUp)
    ensures GetMapping(r, Plain(Char('l'))) == Some(MoveRight) && GetMapping(r, Plain(Right)) == Some(MoveRight)
  {
    var m := NewMapping();
    var m := InsertNomodMapping(m, Char('h'), MoveLeft);
    var m := InsertNomodMapping(m, Char('j'), MoveDown);
    var m := InsertNomodMapping(m, Char('k'), MoveUp);
    var m := InsertNomodMapping(m, Char('l'), MoveRight);
    var m := InsertNomodMapping(m, Left, MoveLeft);
    var m := InsertNomodMapping(m, Down, MoveDown);
    var m := InsertNomodMapping(m, Up, MoveUp);
    InsertNomodMapping(m, Right, MoveRight)
  }

  /** `default_mappings`: vi motions on `h j k l` and the arrow keys, and
      half-page scrolling on Ctrl-d and Ctrl-u. */
  function DefaultMappings(): (r: Mapping)
    ensures GetMapping(r, Plain(Char('h'))) == Some(MoveLeft) && GetMapping(r, Plain(Left)) == Some(MoveLeft)
    ensures GetMapping(r, Plain(Char('j'))) == Some(MoveDown) && GetMapping(r, Plain(Down)) == Some(MoveDown)
    ensures GetMapping(r, Plain(Char('k'))) == Some(MoveUp) && GetMapping(r, Plain(Up)) == Some(MoveUp)
    ensures GetMapping(r, Plain(Char('l'))) == Some(MoveRight) && GetMapping(r, Plain(Right)) == Some(MoveRight)
    ensures GetMapping(r, Ctrl(Char('d'))) == Some(HalfDown) && GetMapping(r, Ctrl(Char('u'))) == Some(HalfUp)
  {
    var m := NomodDefaults();
    var m := InsertMapping(m, Ctrl(Char('d')), HalfDown);
    InsertMapping(m, Ctrl(Char('u')), HalfUp)
  }

  /** The default bindings written as a decision on the event: which action,
      if any, each key code and modifier combination selects. */
  function DefaultAction(e: KeyEvent): Option<Action> {
    if e.modifiers == NoModifiers then
      match e.code
      case Char('h') => Some(MoveLeft)
      case Char('j') => Some(MoveDown)
      case Char('k') => Some(MoveUp)
      case Char('l') => Some(MoveRight)
      case Left => Some(MoveLeft)
      case Down => Some(MoveDown)
      case Up => Some(MoveUp)
      case Right => Some(MoveRight)
      case _ => None
    else if e.modifiers == Ctrl(Null).modifiers then
      match e.code
      case Char('d') => Some(HalfDown)
      case Char('u') => Some(HalfUp)
      case _ => None
    else None
  }

  /** Lookup in the default table is exact: every event gets the action the
      decision above selects, so any other key or modifier combination, such
      as plain `d`, plain `u` or Ctrl-j, is unbound. */
  lemma DefaultMappingsTable(e: KeyEvent)
    ensures GetMapping(DefaultMappings(), e) == DefaultAction(e)
  {
    NomodDefaultsTable(e);
  }

  /** The first eight bindings select the unmodified motions and nothing else. */
  lemma NomodDefaultsTable(e: KeyEvent)
    ensures GetMapping(NomodDefaults(), e) == if e.modifiers == NoModifiers then DefaultAction(e) else None
  {
  }

  /** The ten events the default table binds. */
  const DefaultKeys: set<KeyEvent> := {
    Plain(Char('h')), Plain(Char('j')), Plain(Char('k')), Plain(Char('l')),
    Plain(Left), Plain(Down), Plain(Up), Plain(Right),
    Ctrl(Char('d')), Ctrl(Char('u'))
  }

  /** The default table has exactly ten entries. */
  lemma DefaultMappingsSize()
    ensures DefaultMappings().maps.Keys == DefaultKeys
    ensures |DefaultMappings().maps| == 10
  {
    forall e | e in DefaultMappings().maps.Keys
      ensures e in DefaultKeys
    {
      DefaultMappingsTable(e);
    }
    assert |DefaultKeys| == 10;
  }

  // ---------------------------------------------------------------------------
  // Actions

  /** Half a screen: `(height + 1) / 2` computed in `u16`, so the sum wraps to
      zero at the largest height. */
  function HalfPage(height: U16): (r: nat)
    ensures height < 0xFFFF ==> height <= 2 * r <= height + 1
    ensures height == 0xFFFF ==> r == 0
  {
    ((height + 1) % 0x1_0000) / 2
  }

  /** Run a bound action on the window: one step in its direction, or half a
      screen up or down. */
  function Apply(a: Action, w: Window): (r: Window)
    requires w.cursor.line < LineCount(w.buffer)
    ensures r.buffer == w.buffer && r.width == w.width && r.height == w.height
    ensures r.cursor.line < LineCount(r.buffer)
    ensures a == MoveLeft ==> r == MoveCursorLeft(w, 1)
    ensures a == MoveRight ==> r == MoveCursorRight(w, 1)
    ensures a == MoveDown ==> r == MoveCursorDown(w, 1)
    ensures a == MoveUp ==> r == MoveCursorUp(w, 1)
    ensures a == HalfDown ==> r == MoveCursorDown(w, HalfPage(w.height))
    ensures a == HalfUp ==> r == MoveCursorUp(w, HalfPage(w.height))
    ensures CursorInLine(w) ==> CursorInLine(r)
    ensures Visible(w) ==> Visible(r)
  {
    match a
    case MoveLeft => MoveCursorLeft(w, 1)
    case MoveDown => MoveCursorDown(w, 1)
    case MoveUp => MoveCursorUp(w, 1)
    case MoveRight => MoveCursorRight(w, 1)
    case HalfDown => MoveCursorDown(w, HalfPage(w.height))
    case HalfUp => MoveCursorUp(w, HalfPage(w.height))
  }

  /** Vertical actions keep the sticky column and horizontal ones replace it
      with the new column. */
  lemma ApplyStickyColumn(a: Action, w: Window)
    requires w.cursor.line < LineCount(w.buffer)
    ensures a in {MoveDown, MoveUp, HalfDown, HalfUp} ==> Apply(a, w).stickyCol == w.stickyCol
    ensures a in {MoveLeft, MoveRight} ==> Apply(a, w).stickyCol == Apply(a, w).cursor.col
  {
  }

  /** Half a page down and half a page up return to the starting line, when
      the way down is not cut short by the end of the buffer. */
  lemma HalfDownThenHalfUp(w: Window)
    requires w.cursor.line + HalfPage(w.height) < LineCount(w.buffer)
    ensures Apply(HalfUp, Apply(HalfDown, w)).cursor.line == w.cursor.line
  {
  }

  /** Ctrl-d on a window of height 24 moves the cursor 12 lines down when the
      buffer is long enough. */
  lemma CtrlDExample(w: Window)
    requires w.height == 24 && w.cursor.line + 12 < LineCount(w.buffer)
    ensures GetMapping(DefaultMappings(), Ctrl(Char('d'))) == Some(HalfDown)
    ensures Apply(HalfDown, w).cursor.line == w.cursor.line + 12
  {
  }
}
