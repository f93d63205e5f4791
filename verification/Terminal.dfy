/**
 The terminal of kernel/tty/TTY.cpp as a value: a ring of ten screens of output, the screen memory,
 the output position and the top of the window.
 */
module Terminal {

  const ROWS: nat := 25
  const COLS: nat := 80
  /** `screen_size()` */
  const SCREEN: nat := 2000
  /** `out_buf_size()` */
  const RING: nat := 20000

  /** A character with its colours. */
  type Cell = nat
  /** VGA_BLANK_CHARACTER */
  const BLANK: Cell := 0x0F20

  /** A character as the source's signed `char` stores it. */
  type Code = c: int | -128 <= c < 128 witness 0

  datatype Tty = Tty(ring: seq<Cell>, screen: seq<Cell>, pos: nat, top: nat)

  ghost predicate Sized(t: Tty) {
    |t.ring| == RING && |t.screen| == SCREEN
  }

  function Row(pos: nat): nat {
    pos / COLS
  }

  /** `set_and_inc_buffer_pos`, `count` times. */
  function PutMany(ring: seq<Cell>, pos: nat, cell: Cell, count: nat): (r: seq<Cell>)
    requires |ring| == RING
    ensures |r| == RING
    decreases count
  {
    if count == 0 then ring else PutMany(ring[pos % RING := cell], pos + 1, cell, count - 1)
  }

  /** Where a character is written: the ring, the position, and the range that `print` will refresh. */
  datatype Cursor = Cursor(ring: seq<Cell>, pos: nat, low: nat, high: nat)

  function Min(a: nat, b: nat): nat {
    if a <= b then a else b
  }

  function Max(a: nat, b: nat): nat {
    if a >= b then a else b
  }

  /** Line 26: how far a tab moves. */
  function TabWidth(column: nat): nat
    requires column < COLS
  {
    Min((column + 8) / 8 * 8, COLS) - column
  }

  /** Lines 16-48: one character. */
  function WriteCode(w: Cursor, c: Code): (r: Cursor)
    requires |w.ring| == RING
    ensures |r.ring| == RING
  {
    var column := w.pos % COLS;
    if c == 8 && column > 0 then w.(low := Min(w.pos, w.low), pos := w.pos - 1)
    else if c == 9 then
      var pos' := w.pos + TabWidth(column);
      Cursor(PutMany(w.ring, w.pos, 0, TabWidth(column)), pos', w.low, Max(w.high, pos'))
    else if c == 13 then w.(low := Min(w.pos, w.low), pos := w.pos - column)
    else if c == 10 then
      var pos' := (w.pos + COLS) / COLS * COLS;
      w.(pos := pos', high := Max(w.high, pos'))
    else if c >= 32 then
      Cursor(PutMany(w.ring, w.pos, 0x0F00 + c, 1), w.pos + 1, w.low, Max(w.high, w.pos + 1))
    else w
  }

  function WriteCodes(w: Cursor, str: seq<Code>): (r: Cursor)
    requires |w.ring| == RING
    ensures |r.ring| == RING
    decreases |str|
  {
    if str == [] then w else WriteCodes(WriteCode(w, str[0]), str[1..])
  }

  /** `print(top, low, high - low)`: the cells low..high-1 of the ring go to the screen. */
  function Print(ring: seq<Cell>, screen: seq<Cell>, top: nat, low: nat, high: nat): (r: seq<Cell>)
    requires |ring| == RING && |screen| == SCREEN
    ensures |r| == SCREEN
  {
    seq(SCREEN, i requires 0 <= i < SCREEN => if low <= top + i < high then ring[(top + i) % RING] else screen[i])
  }

  /** `write` */
  function Write(t: Tty, str: seq<Code>): (r: Tty)
    requires |t.ring| == RING && |t.screen| == SCREEN
    ensures |r.ring| == RING && |r.screen| == SCREEN
  {
    var w := WriteCodes(Cursor(t.ring, t.pos, t.pos, t.pos), str);
    if w.high < t.top + SCREEN then
      Tty(w.ring, Print(w.ring, t.screen, t.top, w.low, w.high), w.pos, t.top)
    else
      var end := (w.high + COLS) / COLS * COLS;
      var top := if end >= SCREEN then end - SCREEN else 0;
      var ring := PutMany(w.ring, w.high, BLANK, end - w.high);
      Tty(ring, Print(ring, t.screen, top, top, top + SCREEN), w.pos, top)
  }

  /** Lines 72-83: the first position that is still in the ring, at the start of a row. */
  function TopLimit(pos: nat): nat {
    if pos < RING then 0
    else
      var limit := pos + 1 - RING;
      if limit % COLS != 0 then (limit / COLS + 1) * COLS else limit
  }

  function MoveWindow(t: Tty, top: nat): (r: Tty)
    requires |t.ring| == RING && |t.screen| == SCREEN
    ensures |r.ring| == RING && |r.screen| == SCREEN
  {
    if top != t.top then t.(top := top, screen := Print(t.ring, t.screen, top, top, top + SCREEN)) else t
  }

  /** `scroll_up` */
  function ScrollUp(t: Tty, lines: nat): (r: Tty)
    requires |t.ring| == RING && |t.screen| == SCREEN
    ensures |r.ring| == RING && |r.screen| == SCREEN
  {
    var limit := TopLimit(t.pos);
    MoveWindow(t, if t.top > COLS * lines && t.top - COLS * lines >= limit then t.top - COLS * lines else limit)
  }

  /** Lines 105-112: how far down the window may go. */
  function BottomLimit(pos: nat): nat {
    var row := pos - pos % COLS;
    if pos < RING - SCREEN then row else row - (ROWS - 1) * COLS
  }

  /** `scroll_down` */
  function ScrollDown(t: Tty, lines: nat): (r: Tty)
    requires |t.ring| == RING && |t.screen| == SCREEN
    ensures |r.ring| == RING && |r.screen| == SCREEN
  {
    var limit := BottomLimit(t.pos);
    MoveWindow(t, if t.top < 0xFFFF_FFFF - COLS * lines
               && t.top + COLS * lines <= limit then t.top + COLS * lines else limit)
  }

  /** `clear` */
  function Cleared(): (r: Tty)
    ensures |r.ring| == RING && |r.screen| == SCREEN
  {
    Tty(seq(RING, i => BLANK), seq(SCREEN, i => BLANK), 0, 0)
  }
}
