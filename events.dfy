/** Bytes read from the terminal and the structured events the external decoder
    produces from them. The decoder itself is not modelled: the loop receives it
    as a function value of type `Decoder`. */
module Events {

  newtype byte = b: int | 0 <= b < 256

  /** The escape byte 0x1B that introduces every terminal escape sequence. */
  const ESC: byte := 0x1B

  /** Size of the stack buffer each read fills. */
  const BUFFER_SIZE: nat := 4096

  datatype Option<+T> = None | Some(value: T)

  /** The key that drives the quit protocol. Named keys (arrows, function keys, ...)
      are told apart only by name: the model never looks inside them. */
  datatype KeyCode = Char(c: char) | Named(name: string)

  datatype KeyEventKind = Press | Repeat | Release

  /** A key event; modifiers and lock state are not inspected by the loop and are left out. */
  datatype KeyEvent = KeyEvent(code: KeyCode, kind: KeyEventKind)

  datatype Event =
    | Key(key: KeyEvent)
    | Mouse
    | FocusGained
    | FocusLost
    | Paste(text: string)
    | Resize(cols: nat, rows: nat)

  /** What the external parser returns: a parse error, or success carrying an
      optional event (success without an event means "not a complete event"). */
  datatype ParseOutcome = Parsed(event: Option<Event>) | ParseError

  /** The external event parser, passed in as a value. */
  type Decoder = seq<byte> -> ParseOutcome

  /** `.ok().flatten()`: a parse error and a successful parse without an event
      both become None; only a parsed event survives. */
  function Collapse(p: ParseOutcome): (r: Option<Event>)
    ensures r.Some? <==> p.Parsed? && p.event.Some?
    ensures r.Some? ==> r == p.event
  {
    match p
    case ParseError => None
    case Parsed(e) => e
  }

  /** A key-press event, the only kind of event the quit protocol reacts to. */
  predicate IsPress(ev: Option<Event>)
  {
    ev.Some? && ev.value.Key? && ev.value.key.kind == Press
  }
}
