/** The input side of the terminal front end: the board events the control
    loop reacts to, and how one polled terminal event becomes one of them. */
module Events {
  import opened Wrappers

  /** A 16-bit terminal coordinate or size. */
  type U16 = x: nat | x < 0x1_0000

  /** What the control loop reacts to. */
  datatype BoardEvent =
    | MouseClick(x: U16, y: U16)
    | Exit
    | Resized(x: U16, y: U16)
    | Pause
    | Speed(increase: bool)

  // The terminal's events, keeping only what the mapping inspects: mouse
  // event kinds are listed in full, while key codes and event kinds the
  // mapping does not name are folded into an `Other…` case.

  datatype MouseButton = Left | Right | Middle

  datatype MouseEventKind =
    | Down(button: MouseButton)
    | Up(button: MouseButton)
    | Drag(button: MouseButton)
    | Moved
    | ScrollDown
    | ScrollUp
    | ScrollLeft
    | ScrollRight

  datatype MouseEvent = MouseEvent(kind: MouseEventKind, column: U16, row: U16, modifiers: nat)

  datatype KeyCode = Char(c: char) | OtherKey(code: nat)

  datatype KeyEvent = KeyEvent(code: KeyCode, modifiers: nat)

  datatype Event =
    | Key(key: KeyEvent)
    | Mouse(mouse: MouseEvent)
    | Resize(columns: U16, rows: U16)
    | OtherEvent(id: nat)

  /** What polling the terminal and then reading from it produced. */
  datatype Polled =
    | PollFailed         // `poll` returned an error
    | NoEvent            // `poll` timed out
    | ReadFailed         // `poll` reported an event, `read` returned an error
    | Read(event: Event)

  /** A press or a drag with the left button. */
  predicate IsLeftPress(kind: MouseEventKind)
  {
    kind == Down(Left) || kind == Drag(Left)
  }

  /** The terminal delivered a key event carrying character `ch`. */
  predicate KeyPressed(polled: Polled, ch: char)
  {
    polled.Read? && polled.event.Key? && polled.event.key.code == Char(ch)
  }

  /** `handle_events`: a failed poll or read is "no event", never an error. */
  function HandleEvents(polled: Polled): (r: Option<BoardEvent>)
    ensures !polled.Read? ==> r == None
    ensures (r.Some? && r.value.MouseClick?) <==>
      polled.Read? && polled.event.Mouse? && IsLeftPress(polled.event.mouse.kind)
    ensures r.Some? && r.value.MouseClick? ==>
      r.value.x == polled.event.mouse.column && r.value.y == polled.event.mouse.row
    ensures r == Some(Exit) <==> KeyPressed(polled, 'q')
    ensures r == Some(Pause) <==> KeyPressed(polled, ' ')
    ensures r == Some(Speed(true)) <==> KeyPressed(polled, '+')
    ensures r == Some(Speed(false)) <==> KeyPressed(polled, '-')
    ensures (r.Some? && r.value.Resized?) <==> polled.Read? && polled.event.Resize?
    ensures r.Some? && r.value.Resized? ==>
      r.value.x == polled.event.columns && r.value.y == polled.event.rows
  {
    match polled
    case PollFailed => None
    case NoEvent => None
    case ReadFailed => None
    case Read(event) =>
      match event
      case Mouse(MouseEvent(kind, x, y, _)) =>
        if IsLeftPress(kind) then Some(MouseClick(x, y)) else None
      case Key(KeyEvent(Char('q'), _)) => Some(Exit)
      case Key(KeyEvent(Char(' '), _)) => Some(Pause)
      case Key(KeyEvent(Char('+'), _)) => Some(Speed(true))
      case Key(KeyEvent(Char('-'), _)) => Some(Speed(false))
      case Resize(x, y) => Some(Resized(x, y))
      case _ => None
  }

  /** A terminal event that the mapping turns into `e`. */
  function TerminalEventFor(e: BoardEvent): Polled
  {
    match e
    case MouseClick(x, y) => Read(Mouse(MouseEvent(Down(Left), x, y, 0)))
    case Exit => Read(Key(KeyEvent(Char('q'), 0)))
    case Resized(x, y) => Read(Resize(x, y))
    case Pause => Read(Key(KeyEvent(Char(' '), 0)))
    case Speed(increase) => Read(Key(KeyEvent(Char(if increase then '+' else '-'), 0)))
  }

  /** Every board event can be produced by the terminal. */
  lemma EveryBoardEventIsReachable(e: BoardEvent)
    ensures HandleEvents(TerminalEventFor(e)) == Some(e)
  {}

  /** Modifier keys never change what a key event maps to. */
  lemma ModifiersAreIgnored(code: KeyCode, m: nat, m': nat)
    ensures HandleEvents(Read(Key(KeyEvent(code, m)))) == HandleEvents(Read(Key(KeyEvent(code, m'))))
  {}
}
