/**
 The terminal looks like a window onto a log of all output, as long as nothing is written while the row of the output
 position is below the window; what exactly goes wrong otherwise, and when, is stated here too.
 */
module Scrollback {
  import opened Terminal

  /** All output ever written, by position; what was never written is blank. */
  type Log = map<nat, Cell>

  function At(log: Log, p: nat): Cell {
    if p in log then log[p] else BLANK
  }

  predicate Within(pos: nat, count: nat, p: nat) {
    pos <= p < pos + count
  }

  function LogPut(log: Log, pos: nat, cell: Cell, count: nat): Log {
    log + map p: nat | p < pos + count && Within(pos, count, p) :: cell
  }

  /** What was written, and where the next character goes; no ring and no window are involved. */
  datatype Output = Output(log: Log, pos: nat)

  /** What a character adds to a log at position `pos`; no ring and no window are involved. */
  function LogCode(log: Log, pos: nat, c: Code): Log {
    if c == 9 then LogPut(log, pos, 0, TabWidth(pos % COLS))
    else if c >= 32 then LogPut(log, pos, 0x0F00 + c, 1)
    else log
  }

  /** Where a character moves the output position. */
  function PosAfter(pos: nat, c: Code): nat {
    if c == 8 && pos % COLS > 0 then pos - 1
    else if c == 9 then pos + TabWidth(pos % COLS)
    else if c == 13 then pos - pos % COLS
    else if c == 10 then (pos / COLS + 1) * COLS
    else if c >= 32 then pos + 1
    else pos
  }

  function Emit(o: Output, c: Code): Output {
    Output(LogCode(o.log, o.pos, c), PosAfter(o.pos, c))
  }

  function EmitAll(o: Output, str: seq<Code>): Output
    decreases |str|
  {
    if str == [] then o else EmitAll(Emit(o, str[0]), str[1..])
  }

  /** The log changed to `cell` from `start` to `end`, and nowhere else. */
  ghost predicate Stores(log: Log, log': Log, start: nat, end: nat, cell: Cell) {
    forall p: nat :: At(log', p) == if start <= p < end then cell else At(log, p)
  }

  /** Position `p` is the least multiple of `d` past `pos`. */
  predicate NextStop(pos: nat, p: nat, d: nat)
    requires d > 0
  {
    p % d == 0 && pos < p <= pos + d
  }

  /**
   What each character means: a printable one is stored in white on black, a tab clears up to the next multiple of 8, a
   newline and a return go to the start of the next row and of this one, a backspace goes left inside the row, and
   nothing else does anything.
   */
  lemma CharacterMeans(o: Output, c: Code)
    ensures var o' := Emit(o, c);
            && (c == 9 ==> NextStop(o.pos, o'.pos, 8) && Stores(o.log, o'.log, o.pos, o'.pos, 0))
            && (c >= 32 ==> o'.pos == o.pos + 1 && Stores(o.log, o'.log, o.pos, o.pos + 1, 15 * 256 + c))
            && (c == 10 ==> NextStop(o.pos, o'.pos, 80))
            && (c == 13 ==> o'.pos % 80 == 0 && o'.pos <= o.pos < o'.pos + 80)
            && (c == 8 ==> o'.pos == if o.pos % 80 == 0 then o.pos else o.pos - 1)
            && (c < 32 && c !in [8, 9, 10, 13] ==> o' == o)
            && (c < 32 && c != 9 ==> o'.log == o.log)
  {
    Rows(o.pos);
    TabStops(o.pos);
    if c == 9 {
      PutStores(o.log, o.pos, 0, TabWidth(o.pos % COLS));
    } else if c >= 32 {
      PutStores(o.log, o.pos, 0x0F00 + c, 1);
    }
  }

  lemma PutStores(log: Log, pos: nat, cell: Cell, count: nat)
    ensures Stores(log, LogPut(log, pos, cell, count), pos, pos + count, cell)
  {
    assert forall p: nat :: Within(pos, count, p) <==> pos <= p < pos + count;
  }

  /** A tab ends at the least multiple of 8 past the column, which the end of the row is too. */
  lemma TabStops(pos: nat)
    ensures NextStop(pos, pos + TabWidth(pos % COLS), 8)
    ensures pos % COLS + TabWidth(pos % COLS) <= COLS
  {
    var row, column := pos / COLS, pos % COLS;
    assert pos == row * COLS + column;
    assert row * COLS == 8 * (row * 10);
  }

  /** Nothing was written below the current row. */
  ghost predicate Fresh(o: Output) {
    forall p :: p in o.log ==> p < (Row(o.pos) + 1) * COLS
  }

  /** The positions below this one are, or may be, in the ring. */
  function High(pos: nat): nat {
    Max((Row(pos) + 1) * COLS, RING)
  }

  /** The ring holds the log's cells from `low` to `high`. */
  ghost predicate Holds(ring: seq<Cell>, log: Log, low: nat, high: nat) {
    |ring| == RING && forall p: nat :: low <= p < high ==> ring[p % RING] == At(log, p)
  }

  ghost predicate Shows(screen: seq<Cell>, log: Log, top: nat) {
    |screen| == SCREEN && forall i :: 0 <= i < SCREEN ==> screen[i] == At(log, top + i)
  }

  /** The window starts at a row, not below the output position, and lies inside the part that the ring still holds. */
  ghost predicate Placed(pos: nat, top: nat) {
    top % COLS == 0 && top <= Row(pos) * COLS && High(pos) - RING <= top && top + SCREEN <= High(pos)
  }

  /** The screen is the window at `top` of the output, and the ring can show every window that scrolling can reach. */
  ghost predicate Refines(t: Tty, o: Output) {
    && Sized(t) && t.pos == o.pos
    && Placed(t.pos, t.top)
    && Holds(t.ring, o.log, High(t.pos) - RING, High(t.pos))
    && Shows(t.screen, o.log, t.top)
  }

  /** The screen is what a full redraw would give. */
  predicate UpToDate(t: Tty)
    requires |t.ring| == RING && |t.screen| == SCREEN
  {
    t.screen == Print(t.ring, t.screen, t.top, t.top, t.top + SCREEN)
  }

  // ----- the ring

  lemma Slots(p: nat, q: nat)
    requires p < q < p + RING
    ensures p % RING != q % RING
  {
  }

  lemma {:induction false} PutManyAt(ring: seq<Cell>, pos: nat, cell: Cell, count: nat, low: nat, q: nat)
    requires |ring| == RING && low <= pos && pos + count <= low + RING && low <= q < low + RING
    ensures PutMany(ring, pos, cell, count)[q % RING] == if pos <= q < pos + count then cell else ring[q % RING]
    decreases count
  {
    if count > 0 {
      PutManyAt(ring[pos % RING := cell], pos + 1, cell, count - 1, low, q);
      if q < pos {
        Slots(q, pos);
      } else if pos < q {
        Slots(pos, q);
      }
    }
  }

  /** A full redraw shows the log. */
  lemma RedrawShows(ring: seq<Cell>, screen: seq<Cell>, log: Log, low: nat, high: nat, top: nat)
    requires Holds(ring, log, low, high) && |screen| == SCREEN && low <= top && top + SCREEN <= high
    ensures Shows(Print(ring, screen, top, top, top + SCREEN), log, top)
  {
  }

  /** The screen shows the output exactly if the ring holds it and the screen is up to date. */
  lemma RefinesIff(t: Tty, o: Output)
    requires Sized(t) && t.pos == o.pos && Placed(t.pos, t.top)
    ensures Refines(t, o) <==> UpToDate(t) && Holds(t.ring, o.log, High(t.pos) - RING, High(t.pos))
  {
    var redraw := Print(t.ring, t.screen, t.top, t.top, t.top + SCREEN);
    if Holds(t.ring, o.log, High(t.pos) - RING, High(t.pos)) {
      RedrawShows(t.ring, t.screen, o.log, High(t.pos) - RING, High(t.pos), t.top);
      if Shows(t.screen, o.log, t.top) {
        assert forall i :: 0 <= i < SCREEN ==> t.screen[i] == redraw[i];
      }
    }
  }

  // ----- what the slots of the ring hold

  /**
   The ring holds in the slot of position `p` the last thing that was stored there: what was written at `p`, or else
   at the same place of an earlier round.  Below `bound` nothing is missing from the log.
   */
  function Slot(log: Log, bound: nat, p: nat): Cell
    requires bound >= RING
  {
    if p < bound || p in log then At(log, p) else Slot(log, bound, p - RING)
  }

  ghost predicate SlotHolds(ring: seq<Cell>, log: Log, bound: nat, high: nat) {
    && |ring| == RING && bound >= RING && high >= RING
    && forall p: nat :: high - RING <= p < high ==> ring[p % RING] == Slot(log, bound, p)
  }

  lemma {:induction false} SlotFrame(log: Log, bound: nat, pos: nat, cell: Cell, count: nat, p: nat)
    requires bound >= RING && p < pos
    ensures Slot(LogPut(log, pos, cell, count), bound, p) == Slot(log, bound, p)
    decreases p
  {
    if p >= bound && p !in log {
      SlotFrame(log, bound, pos, cell, count, p - RING);
    }
  }

  /** Storing in ring and log together. */
  lemma PutSlots(ring: seq<Cell>, log: Log, bound: nat, high: nat, pos: nat, cell: Cell, count: nat)
    requires SlotHolds(ring, log, bound, high) && high <= pos + RING && pos + count <= high
    ensures SlotHolds(PutMany(ring, pos, cell, count), LogPut(log, pos, cell, count), bound, high)
  {
    var ring', log' := PutMany(ring, pos, cell, count), LogPut(log, pos, cell, count);
    forall p: nat | high - RING <= p < high
      ensures ring'[p % RING] == Slot(log', bound, p)
    {
      PutManyAt(ring, pos, cell, count, high - RING, p);
      if !Within(pos, count, p) && p >= bound && p !in log {
        SlotFrame(log, bound, pos, cell, count, p - RING);
      }
    }
  }

  /** New rows take over the slots of old ones. */
  lemma GrowSlots(ring: seq<Cell>, log: Log, bound: nat, high: nat, high': nat)
    requires SlotHolds(ring, log, bound, high) && bound <= high <= high' <= high + RING
    requires forall p :: p in log ==> p < high
    ensures SlotHolds(ring, log, bound, high')
  {
    forall p: nat | high' - RING <= p < high'
      ensures ring[p % RING] == Slot(log, bound, p)
    {
      if p >= high {
        SameSlot(p);
        assert Slot(log, bound, p) == Slot(log, bound, p - RING);
      }
    }
  }

  lemma SameSlot(p: nat)
    requires p >= RING
    ensures p % RING == (p - RING) % RING
  {
  }

  // ----- a string in one call

  lemma Rows(pos: nat)
    ensures Row(pos) * COLS <= pos < (Row(pos) + 1) * COLS
    ensures pos % COLS == pos - Row(pos) * COLS
    ensures (pos + COLS) / COLS * COLS == (Row(pos) + 1) * COLS
  {
  }

  lemma TabStays(column: nat)
    requires column < COLS
    ensures 0 < TabWidth(column) && column + TabWidth(column) <= COLS
  {
  }

  /** The position stays in its row, or moves to the start of the next. */
  lemma PosMoves(pos: nat, c: Code)
    ensures var pos' := PosAfter(pos, c);
            Row(pos') == Row(pos) || (Row(pos') == Row(pos) + 1 && pos' == (Row(pos) + 1) * COLS && pos < pos')
  {
    Rows(pos);
    TabStays(pos % COLS);
  }

  predicate SameCell(ring: seq<Cell>, ring': seq<Cell>, q: nat)
    requires |ring| == RING && |ring'| == RING
  {
    ring[q % RING] == ring'[q % RING]
  }

  /** The character is a backspace or a return that moves the output position. */
  predicate MovesLeft(pos: nat, c: Code) {
    (c == 8 && pos % COLS > 0) || c == 13
  }

  /** The least position from which `str` moves left, or `low`. */
  function LeastLeft(pos: nat, str: seq<Code>, low: nat): nat
    decreases |str|
  {
    if str == [] then low
    else LeastLeft(PosAfter(pos, str[0]), str[1..], if MovesLeft(pos, str[0]) then Min(pos, low) else low)
  }

  /** Every character of `str` that is stored is stored at `low` or after it. */
  predicate StoredFrom(pos: nat, str: seq<Code>, low: nat)
    decreases |str|
  {
    str == [] || ((str[0] == 9 || str[0] >= 32 ==> pos >= low) && StoredFrom(PosAfter(pos, str[0]), str[1..], low))
  }

  lemma CodeCursor(w: Cursor, c: Code)
    requires |w.ring| == RING && w.pos <= w.high
    ensures var w' := WriteCode(w, c);
            && w'.pos == PosAfter(w.pos, c) <= w'.high && w'.high == Max(w.high, w'.pos)
            && w'.low == if MovesLeft(w.pos, c) then Min(w.pos, w.low) else w.low
    ensures Row(w.pos) <= Row(PosAfter(w.pos, c))
  {
    hide PutMany;
    Rows(w.pos);
    TabStays(w.pos % COLS);
    PosMoves(w.pos, c);
  }

  /** One character changes no cell but those that it moves over. */
  lemma CodeKeeps(w: Cursor, c: Code, base: nat, q: nat)
    requires |w.ring| == RING && base <= w.pos <= w.high && base <= q < base + RING
    requires WriteCode(w, c).high <= base + RING
    ensures q < w.pos || WriteCode(w, c).high <= q || !(c == 9 || c >= 32) ==> SameCell(w.ring, WriteCode(w, c).ring, q)
  {
    CodeCursor(w, c);
    hide PutMany;
    if c == 9 {
      PutManyAt(w.ring, w.pos, 0, TabWidth(w.pos % COLS), base, q);
    } else if c >= 32 {
      PutManyAt(w.ring, w.pos, 0x0F00 + c, 1, base, q);
    }
  }

  lemma {:induction false} CodesBounds(w: Cursor, str: seq<Code>)
    requires |w.ring| == RING && w.pos <= w.high
    ensures w.high <= WriteCodes(w, str).high && WriteCodes(w, str).low == LeastLeft(w.pos, str, w.low) <= w.low
    decreases |str|
  {
    hide WriteCode, PosAfter;
    if str != [] {
      CodeCursor(w, str[0]);
      CodesBounds(WriteCode(w, str[0]), str[1..]);
    }
  }

  /** A string changes no cell in front of its row, at or behind its high end, or below where it stores. */
  lemma {:induction false} CodesKeep(w: Cursor, str: seq<Code>, base: nat, low: nat, q: nat)
    requires |w.ring| == RING && base <= Row(w.pos) * COLS && w.pos <= w.high && base <= q < base + RING
    requires WriteCodes(w, str).high <= base + RING
    ensures q < Row(w.pos) * COLS || WriteCodes(w, str).high <= q || (q < low && StoredFrom(w.pos, str, low)) ==>
              SameCell(w.ring, WriteCodes(w, str).ring, q)
    decreases |str|
  {
    hide WriteCode, PosAfter, Row;
    if str != [] {
      var w' := WriteCode(w, str[0]);
      CodeCursor(w, str[0]);
      CodesKeepRows(w.pos, w'.pos, base);
      CodesBounds(w', str[1..]);
      CodeKeeps(w, str[0], base, q);
      CodesKeep(w', str[1..], base, low, q);
    }
  }

  lemma CodesKeepRows(pos: nat, pos': nat, base: nat)
    requires base <= Row(pos) * COLS && Row(pos) <= Row(pos')
    ensures base <= Row(pos') * COLS && Row(pos) * COLS <= Row(pos') * COLS && Row(pos) * COLS <= pos
  {
    Rows(pos);
  }

  /**
   Any string in one call: the screen is up to date exactly if the page was turned, or no cell was changed between
   the start of the row and the least position from which the string moved left.
   */
  lemma WriteShowsIff(t: Tty, str: seq<Code>)
    requires Sized(t) && UpToDate(t) && t.top <= Row(t.pos) * COLS
    ensures var w := WriteCodes(Cursor(t.ring, t.pos, t.pos, t.pos), str);
            && w.low == LeastLeft(t.pos, str, t.pos)
            && (UpToDate(Write(t, str)) <==>
                w.high >= t.top + SCREEN
                || forall q: nat :: Row(t.pos) * COLS <= q < w.low ==> SameCell(t.ring, w.ring, q))
  {
    hide WriteCodes;
    var w0 := Cursor(t.ring, t.pos, t.pos, t.pos);
    var w := WriteCodes(w0, str);
    CodesBounds(w0, str);
    if w.high < t.top + SCREEN {
      CodesKeepRows(t.pos, t.pos, t.top);
      forall q: nat | t.top <= q < t.top + SCREEN && !(Row(t.pos) * COLS <= q < w.high)
        ensures SameCell(t.ring, w.ring, q)
      {
        CodesKeep(w0, str, t.top, 0, q);
      }
      PartShows(t, w);
    }
  }

  /** Refreshing the cells from `low` to `high` is enough exactly if none in front of them changed. */
  lemma PartShows(t: Tty, w: Cursor)
    requires Sized(t) && UpToDate(t) && |w.ring| == RING && t.top <= Row(t.pos) * COLS
    requires w.low <= t.pos <= w.high < t.top + SCREEN
    requires forall q: nat :: t.top <= q < t.top + SCREEN && !(Row(t.pos) * COLS <= q < w.high) ==>
             SameCell(t.ring, w.ring, q)
    ensures UpToDate(Tty(w.ring, Print(w.ring, t.screen, t.top, w.low, w.high), w.pos, t.top)) <==>
            forall q: nat :: Row(t.pos) * COLS <= q < w.low ==> SameCell(t.ring, w.ring, q)
  {
    var screen := Print(w.ring, t.screen, t.top, w.low, w.high);
    var redraw := Print(w.ring, screen, t.top, t.top, t.top + SCREEN);
    var before := Print(t.ring, t.screen, t.top, t.top, t.top + SCREEN);
    forall i | 0 <= i < SCREEN
      ensures screen[i] == redraw[i] <==> w.low <= t.top + i < w.high || SameCell(t.ring, w.ring, t.top + i)
    {
      assert t.screen[i] == before[i];
    }
    if screen == redraw {
      forall q: nat | Row(t.pos) * COLS <= q < w.low
        ensures SameCell(t.ring, w.ring, q)
      {
        assert screen[q - t.top] == redraw[q - t.top];
      }
    }
  }

  /** A caller can tell beforehand: if nothing is stored below where the string moves left, all of it is shown. */
  lemma StoredFromShows(t: Tty, str: seq<Code>)
    requires Sized(t) && UpToDate(t) && t.top <= Row(t.pos) * COLS
    requires StoredFrom(t.pos, str, LeastLeft(t.pos, str, t.pos))
    ensures UpToDate(Write(t, str))
  {
    hide WriteCodes, Write, UpToDate;
    WriteShowsIff(t, str);
    var w0 := Cursor(t.ring, t.pos, t.pos, t.pos);
    var w := WriteCodes(w0, str);
    if w.high < t.top + SCREEN {
      CodesKeepRows(t.pos, t.pos, t.top);
      forall q: nat | Row(t.pos) * COLS <= q < w.low
        ensures SameCell(t.ring, w.ring, q)
      {
        CodesBounds(w0, str);
        CodesKeep(w0, str, t.top, w.low, q);
      }
    }
  }

  lemma EmitFresh(o: Output, c: Code)
    requires Fresh(o)
    ensures Fresh(Emit(o, c)) && Row(o.pos) <= Row(Emit(o, c).pos) && High(o.pos) <= High(Emit(o, c).pos)
  {
    Rows(o.pos);
    TabStays(o.pos % COLS);
    PosMoves(o.pos, c);
  }

  /** One character does the same to the slots as to the output. */
  lemma CodeSlots(w: Cursor, o: Output, c: Code, bound: nat)
    requires w.pos == o.pos <= w.high && Fresh(o) && bound <= High(o.pos)
    requires SlotHolds(w.ring, o.log, bound, High(o.pos))
    ensures SlotHolds(WriteCode(w, c).ring, Emit(o, c).log, bound, High(Emit(o, c).pos))
  {
    hide SlotHolds, PutMany, LogPut, Slot;
    SlotSize(w.ring, o.log, bound, High(o.pos));
    EmitFresh(o, c);
    Rows(o.pos);
    TabStays(o.pos % COLS);
    PosMoves(o.pos, c);
    var high := High(o.pos);
    if c == 9 {
      PutSlots(w.ring, o.log, bound, high, o.pos, 0, TabWidth(o.pos % COLS));
    } else if c >= 32 {
      PutSlots(w.ring, o.log, bound, high, o.pos, 0x0F00 + c, 1);
    }
    InRow(o, c);
    GrowSlots(WriteCode(w, c).ring, Emit(o, c).log, bound, high, High(Emit(o, c).pos));
  }

  lemma SlotSize(ring: seq<Cell>, log: Log, bound: nat, high: nat)
    requires SlotHolds(ring, log, bound, high)
    ensures |ring| == RING && bound >= RING
  {
  }

  /** A character is stored in the current row. */
  lemma InRow(o: Output, c: Code)
    requires Fresh(o)
    ensures forall p :: p in Emit(o, c).log ==> p < High(o.pos)
  {
    Rows(o.pos);
    TabStays(o.pos % COLS);
  }

  lemma {:induction false} CodesSlots(w: Cursor, o: Output, str: seq<Code>, bound: nat)
    requires w.pos == o.pos <= w.high && Fresh(o) && bound <= High(o.pos) && Row(w.high) <= Row(w.pos)
    requires SlotHolds(w.ring, o.log, bound, High(o.pos))
    ensures |w.ring| == RING
    ensures var w', o' := WriteCodes(w, str), EmitAll(o, str);
            && w'.pos == o'.pos <= w'.high && Row(w'.high) <= Row(w'.pos) && Fresh(o')
            && bound <= High(o'.pos) && SlotHolds(w'.ring, o'.log, bound, High(o'.pos))
    decreases |str|
  {
    hide SlotHolds, WriteCode, LogCode, PosAfter, Fresh, Row, High;
    SlotSize(w.ring, o.log, bound, High(o.pos));
    if str != [] {
      CodeSlots(w, o, str[0], bound);
      EmitFresh(o, str[0]);
      CodeCursor(w, str[0]);
      CodesSlots(WriteCode(w, str[0]), Emit(o, str[0]), str[1..], bound);
    }
  }

  /** A held log holds slot by slot. */
  lemma HeldSlots(ring: seq<Cell>, log: Log, high: nat)
    requires high >= RING && Holds(ring, log, high - RING, high)
    ensures SlotHolds(ring, log, high, high)
  {
  }

  /** The end of the row of `high`. */
  function RowEnd(high: nat): nat {
    (Row(high) + 1) * COLS
  }

  /** Blanking the rest of the row of `high` takes nothing away. */
  ghost predicate NothingLost(log: Log, high: nat) {
    forall p: nat :: high <= p < RowEnd(high) ==> At(log, p) == BLANK
  }

  /** No row up to `high` brings back what the ring held one round before. */
  ghost predicate NothingStale(log: Log, bound: nat, high: nat, held: nat)
    requires bound >= RING
  {
    forall p: nat :: bound <= p < high && held <= p + RING && p !in log ==> Slot(log, bound, p - RING) == BLANK
  }

  /** What the ring holds of the output when the page was turned. */
  function Kept(log: Log, turned: bool, high: nat): Log {
    if turned then LogPut(log, high, BLANK, RowEnd(high) - high) else log
  }

  /** Turning the page loses nothing at `p` and brings nothing back there. */
  predicate RightAt(log: Log, bound: nat, turned: bool, high: nat, p: nat)
    requires bound >= RING
  {
    turned ==>
      && (high <= p < RowEnd(high) ==> At(log, p) == BLANK)
      && (bound <= p < high && p !in log ==> Slot(log, bound, p - RING) == BLANK)
  }

  lemma SlotRight(log: Log, bound: nat, held: nat, turned: bool, high: nat, p: nat)
    requires bound >= RING && p < held <= high + RING && RowEnd(high) <= held
    requires held == RING || RowEnd(high) == held
    requires !turned ==> held == bound
    ensures Slot(Kept(log, turned, high), bound, p) == At(log, p) <==> RightAt(log, bound, turned, high, p)
  {
    Rows(high);
    if turned && bound <= p < high && p !in log {
      SlotFrame(log, bound, high, BLANK, RowEnd(high) - high, p - RING);
    }
  }

  /** The ring holds the output exactly if nothing was lost and nothing is stale. */
  lemma HoldsIff(ring: seq<Cell>, log: Log, bound: nat, held: nat, turned: bool, high: nat)
    requires SlotHolds(ring, Kept(log, turned, high), bound, held)
    requires held <= high + RING && RowEnd(high) <= held && (held == RING || RowEnd(high) == held)
    requires !turned ==> held == bound
    ensures Holds(ring, log, held - RING, held) <==>
            && (turned ==> NothingLost(log, high))
            && (turned ==> NothingStale(log, bound, high, held))
  {
    Rows(high);
    var kept := Kept(log, turned, high);
    forall p: nat | held - RING <= p < held
      ensures ring[p % RING] == At(log, p) <==> RightAt(log, bound, turned, high, p)
    {
      SlotRight(log, bound, held, turned, high, p);
      assert ring[p % RING] == Slot(kept, bound, p);
    }
    hide Slot, Kept, Row, RowEnd;
    if Holds(ring, log, held - RING, held) {
      forall p: nat | turned && high <= p < RowEnd(high)
        ensures At(log, p) == BLANK
      {
        assert RightAt(log, bound, turned, high, p);
      }
      forall p: nat | turned && bound <= p < high && held <= p + RING && p !in log
        ensures Slot(log, bound, p - RING) == BLANK
      {
        assert RightAt(log, bound, turned, high, p);
      }
    } else {
      var p: nat :| held - RING <= p < held && ring[p % RING] != At(log, p);
      assert !RightAt(log, bound, turned, high, p);
    }
  }

  /** Where the window is after a string, and what the ring holds then. */
  lemma WriteHolds(t: Tty, o: Output, str: seq<Code>)
    requires Refines(t, o) && Fresh(o)
    ensures var w := WriteCodes(Cursor(t.ring, t.pos, t.pos, t.pos), str);
            var t', o' := Write(t, str), EmitAll(o, str);
            var turned := w.high >= t.top + SCREEN;
            && t'.pos == w.pos == o'.pos && Fresh(o') && Sized(t') && Placed(t'.pos, t'.top)
            && SlotHolds(t'.ring, Kept(o'.log, turned, w.high), High(t.pos), High(t'.pos))
            && RowEnd(w.high) == (Row(w.pos) + 1) * COLS && High(t'.pos) <= w.high + RING
            && (!turned ==> High(t'.pos) == High(t.pos))
  {
    hide WriteCodes, EmitAll, SlotHolds, Holds, Shows, Print, PutMany, LogPut, Fresh;
    var w0 := Cursor(t.ring, t.pos, t.pos, t.pos);
    HeldSlots(t.ring, o.log, High(t.pos));
    CodesSlots(w0, o, str, High(t.pos));
    CodesBounds(w0, str);
    var w, o' := WriteCodes(w0, str), EmitAll(o, str);
    SameRow(w.pos, w.high);
    Rows(w.high);
    Rows(t.pos);
    if w.high >= t.top + SCREEN {
      PutSlots(w.ring, o'.log, High(t.pos), High(w.pos), w.high, BLANK, RowEnd(w.high) - w.high);
    }
  }

  lemma SameRow(pos: nat, high: nat)
    requires pos <= high && Row(high) <= Row(pos)
    ensures Row(high) == Row(pos)
  {
  }

  /**
   Any string in one call: the screen is the window on the output afterwards, and the ring holds all that scrolling
   can reach, exactly if
   - the page was turned, or no cell was changed in front of where the string moved left;
   - the page was not turned, or nothing was written from there to the end of the row; and
   - the page was not turned, or what the string did not write of the rows it passed was blank one round before.
   */
  lemma WriteRefinesIff(t: Tty, o: Output, str: seq<Code>)
    requires Refines(t, o) && Fresh(o)
    ensures var w := WriteCodes(Cursor(t.ring, t.pos, t.pos, t.pos), str);
            var log, turned := EmitAll(o, str).log, w.high >= t.top + SCREEN;
            Refines(Write(t, str), EmitAll(o, str)) <==>
            && (turned || forall q: nat :: Row(t.pos) * COLS <= q < w.low ==> SameCell(t.ring, w.ring, q))
            && (turned ==> NothingLost(log, w.high))
            && (turned ==> NothingStale(log, High(t.pos), w.high, High(w.pos)))
  {
    hide WriteCodes, EmitAll, SlotHolds, Print, Write, Refines, NothingLost, NothingStale, Kept, UpToDate, Holds;
    RefinesPlaced(t, o);
    var w := WriteCodes(Cursor(t.ring, t.pos, t.pos, t.pos), str);
    WriteHolds(t, o, str);
    WriteShowsIff(t, str);
    RefinesIff(Write(t, str), EmitAll(o, str));
    HoldsIff(Write(t, str).ring, EmitAll(o, str).log, High(t.pos), High(w.pos), w.high >= t.top + SCREEN, w.high);
  }

  lemma RefinesPlaced(t: Tty, o: Output)
    requires Refines(t, o)
    ensures Placed(t.pos, t.top) && Sized(t) && UpToDate(t) && t.top <= Row(t.pos) * COLS && t.pos == o.pos
  {
    RefinesIff(t, o);
  }

  // ----- one character in a call

  lemma OneCode(w: Cursor, c: Code)
    requires |w.ring| == RING
    ensures WriteCodes(w, [c]) == WriteCode(w, c)
  {
    assert [c][1..] == [];
  }

  lemma OneEmit(o: Output, c: Code)
    ensures EmitAll(o, [c]) == Emit(o, c)
  {
    assert [c][1..] == [];
  }

  /** The row of the output position is in the window, or above it. */
  predicate InView(t: Tty) {
    t.pos < t.top + SCREEN
  }

  /**
   After a single character the screen is the window on the output exactly if the output position was in view, or
   nothing is written from where the position was or is, whichever comes later, to the end of the row.
   */
  lemma KeyRefinesIff(t: Tty, o: Output, c: Code)
    requires Refines(t, o) && Fresh(o)
    ensures Refines(Write(t, [c]), Emit(o, c)) <==>
            InView(t) || NothingLost(Emit(o, c).log, Max(t.pos, PosAfter(t.pos, c)))
  {
    hide Refines, Write, WriteCodes, EmitAll, Fresh, NothingLost, NothingStale;
    var w0 := Cursor(t.ring, t.pos, t.pos, t.pos);
    RefinesPlaced(t, o);
    WriteRefinesIff(t, o, [c]);
    OneCode(w0, c);
    OneEmit(o, c);
    CodeCursor(w0, c);
    var w := WriteCode(w0, c);
    KeyPasses(t, o, c);
    if InView(t) && w.high >= t.top + SCREEN {
      NewRowBlank(t, o, c);
    }
  }

  /** A single character changes no cell in front of it, and passes no row. */
  lemma KeyPasses(t: Tty, o: Output, c: Code)
    requires Sized(t) && t.pos == o.pos && Placed(t.pos, t.top)
    ensures var w := WriteCode(Cursor(t.ring, t.pos, t.pos, t.pos), c);
            && w.low == t.pos && w.high == Max(t.pos, PosAfter(t.pos, c)) <= High(t.pos)
            && (forall q: nat :: Row(t.pos) * COLS <= q < w.low ==> SameCell(t.ring, w.ring, q))
            && NothingStale(Emit(o, c).log, High(t.pos), w.high, High(w.pos))
  {
    hide WriteCode, PosAfter, LogCode;
    var w0 := Cursor(t.ring, t.pos, t.pos, t.pos);
    CodeCursor(w0, c);
    Rows(t.pos);
    KeyHigh(t.pos, c);
    forall q: nat | Row(t.pos) * COLS <= q < t.pos
      ensures SameCell(t.ring, WriteCode(w0, c).ring, q)
    {
      CodeKeeps(w0, c, Row(t.pos) * COLS, q);
    }
  }

  lemma KeyHigh(pos: nat, c: Code)
    ensures Max(pos, PosAfter(pos, c)) <= (Row(pos) + 1) * COLS
  {
    Rows(pos);
    TabStays(pos % COLS);
  }

  /** If the position leaves the window by one character, it is at the start of a row never written to. */
  lemma NewRowBlank(t: Tty, o: Output, c: Code)
    requires t.pos == o.pos && Placed(t.pos, t.top) && Fresh(o) && InView(t)
    requires Max(t.pos, PosAfter(t.pos, c)) >= t.top + SCREEN
    ensures NothingLost(Emit(o, c).log, Max(t.pos, PosAfter(t.pos, c)))
  {
    Rows(t.pos);
    TabStays(t.pos % COLS);
    PosMoves(t.pos, c);
    EmitFresh(o, c);
    NewRow(t.pos, t.top);
  }

  lemma NewRow(pos: nat, top: nat)
    requires top % COLS == 0 && pos < top + SCREEN
    ensures (Row(pos) + 1) * COLS <= top + SCREEN
  {
    Rows(pos);
  }

  /** A key that is pressed with the position in view leaves it in view. */
  lemma StaysInView(t: Tty, c: Code)
    requires Sized(t) && Placed(t.pos, t.top)
    ensures InView(Write(t, [c]))
  {
    hide WriteCode, PosAfter;
    var w0 := Cursor(t.ring, t.pos, t.pos, t.pos);
    OneCode(w0, c);
    CodeCursor(w0, c);
    Rows(WriteCode(w0, c).high);
  }

  /** What is kept of the output is shown, whatever was lost. */
  lemma KeyKeeps(t: Tty, kept: Output, c: Code) returns (kept': Output)
    requires Refines(t, kept) && Fresh(kept)
    ensures Refines(Write(t, [c]), kept') && Fresh(kept') && kept'.pos == Emit(kept, c).pos
    ensures forall p: nat :: At(kept'.log, p) == At(Emit(kept, c).log, p) || At(kept'.log, p) == BLANK
  {
    hide Refines, Write, WriteCodes, EmitAll, SlotHolds, NothingStale;
    var w0 := Cursor(t.ring, t.pos, t.pos, t.pos);
    RefinesPlaced(t, kept);
    WriteHolds(t, kept, [c]);
    WriteShowsIff(t, [c]);
    OneCode(w0, c);
    OneEmit(kept, c);
    KeyPasses(t, kept, c);
    var w := WriteCode(w0, c);
    var turned := w.high >= t.top + SCREEN;
    kept' := Output(Kept(Emit(kept, c).log, turned, w.high), w.pos);
    RefinesIff(Write(t, [c]), kept');
    KeptHolds(Write(t, [c]).ring, Emit(kept, c).log, High(t.pos), High(w.pos), turned, w.high);
  }

  /** Rows that are blanked from their start hold nothing stale. */
  lemma KeptHolds(ring: seq<Cell>, log: Log, bound: nat, held: nat, turned: bool, high: nat)
    requires SlotHolds(ring, Kept(log, turned, high), bound, held) && high <= bound
    requires RowEnd(high) <= held && (held == RING || RowEnd(high) == held) && (!turned ==> held == bound)
    ensures Holds(ring, Kept(log, turned, high), held - RING, held)
  {
  }

  /**
   Where the window is after any string: where it was if the string stayed inside it, and otherwise so that the row
   in which the string reached furthest is the last one of the screen.
   */
  lemma PageTurns(t: Tty, str: seq<Code>)
    requires Sized(t)
    ensures var high := WriteCodes(Cursor(t.ring, t.pos, t.pos, t.pos), str).high;
            Write(t, str).top + SCREEN ==
            if high < t.top + SCREEN then t.top + SCREEN else Max(SCREEN, (Row(high) + 1) * COLS)
  {
    hide WriteCodes, Print, PutMany;
    Rows(WriteCodes(Cursor(t.ring, t.pos, t.pos, t.pos), str).high);
  }

  // ----- scrolling

  /** `scroll_up` never leaves what the ring holds. */
  lemma TopLimitIsLow(pos: nat)
    ensures TopLimit(pos) == High(pos) - RING
  {
    Rows(pos);
    if pos >= RING {
      var limit := pos + 1 - RING;
      assert limit == (Row(pos) - 250) * COLS + pos % COLS + 1;
    }
  }

  lemma MoveRefines(t: Tty, o: Output, top: nat)
    requires Refines(t, o) && Placed(t.pos, top)
    ensures Refines(MoveWindow(t, top), o)
  {
    hide Holds, Shows, Print;
    RedrawShows(t.ring, t.screen, o.log, High(t.pos) - RING, High(t.pos), top);
  }

  lemma ScrollUpRefines(t: Tty, o: Output, lines: nat)
    requires Refines(t, o)
    ensures Refines(ScrollUp(t, lines), o)
  {
    hide Holds, Shows, Print, Refines, MoveWindow;
    RefinesPlaced(t, o);
    UpPlaced(t.pos, t.top, lines);
    MoveRefines(t, o, if t.top > COLS * lines
                && t.top - COLS * lines >= TopLimit(t.pos) then t.top - COLS * lines else TopLimit(t.pos));
  }

  lemma UpPlaced(pos: nat, top: nat, lines: nat)
    requires Placed(pos, top)
    ensures Placed(pos, if top > COLS * lines
                   && top - COLS * lines >= TopLimit(pos) then top - COLS * lines else TopLimit(pos))
  {
    TopLimitIsLow(pos);
    Rows(pos);
  }

  lemma DownPlaced(pos: nat, top: nat, lines: nat)
    requires Placed(pos, top)
    ensures Placed(pos, if top < 0xFFFF_FFFF - COLS * lines
                   && top + COLS * lines <= BottomLimit(pos) then top + COLS * lines else BottomLimit(pos))
  {
    Rows(pos);
  }

  /** `scroll_down` does not move the window up exactly if it is not below its limit. */
  lemma ScrollDownMovesDownIff(t: Tty, lines: nat)
    requires |t.ring| == RING && |t.screen| == SCREEN
    ensures ScrollDown(t, lines).top >= t.top <==> t.top <= BottomLimit(t.pos)
  {
  }

  /** `scroll_up` never moves the window down. */
  lemma ScrollUpMovesUp(t: Tty, lines: nat)
    requires |t.ring| == RING && |t.screen| == SCREEN && Placed(t.pos, t.top)
    ensures ScrollUp(t, lines).top <= t.top
  {
    TopLimitIsLow(t.pos);
  }

  lemma ScrollDownRefines(t: Tty, o: Output, lines: nat)
    requires Refines(t, o)
    ensures Refines(ScrollDown(t, lines), o)
  {
    hide Holds, Shows, Print, Refines, MoveWindow;
    RefinesPlaced(t, o);
    DownPlaced(t.pos, t.top, lines);
    MoveRefines(t, o, if t.top < 0xFFFF_FFFF - COLS * lines && t.top + COLS * lines <= BottomLimit(t.pos)
                        then t.top + COLS * lines else BottomLimit(t.pos));
  }

  /** The window went down by `n` rows: what stays in view is `n` rows higher on the screen. */
  ghost predicate RowsUp(before: Tty, after: Tty, n: nat) {
    && Sized(before) && Sized(after) && after.top == before.top + COLS * n
    && after.ring == before.ring && after.pos == before.pos
    && forall i :: 0 <= i < SCREEN - COLS * n ==> after.screen[i] == before.screen[i + COLS * n]
  }

  /** The first position of the oldest row that the ring still holds. */
  function OldestRow(pos: nat): nat {
    if (Row(pos) + 1) * COLS <= RING then 0 else (Row(pos) + 1) * COLS - RING
  }

  /** How far down the window may go: to the current row, or, near the end of the ring, to where that is the last. */
  function LowestTop(pos: nat): int {
    if pos < 18000 then Row(pos) * COLS else Row(pos) * COLS - 24 * COLS
  }

  /** An up-to-date screen tells the ring. */
  lemma ScreenIsRing(t: Tty)
    requires Sized(t) && UpToDate(t)
    ensures forall i :: 0 <= i < SCREEN ==> t.screen[i] == t.ring[(t.top + i) % RING]
  {
    var redraw := Print(t.ring, t.screen, t.top, t.top, t.top + SCREEN);
    assert forall i :: 0 <= i < SCREEN ==> redraw[i] == t.ring[(t.top + i) % RING];
  }

  lemma MoveRows(t: Tty, top: nat)
    requires Sized(t) && UpToDate(t)
    ensures var t' := MoveWindow(t, top);
            && Sized(t') && UpToDate(t') && t'.top == top && t'.ring == t.ring && t'.pos == t.pos
            && forall i :: 0 <= i < SCREEN ==> t'.screen[i] == t.ring[(top + i) % RING]
  {
    ScreenIsRing(t);
  }

  /**
   Scrolling up by `n` lines moves the window up by exactly `n` rows if the ring holds them, and to the oldest row
   that it holds otherwise.
   */
  lemma ScrollsUpRows(t: Tty, n: nat)
    requires Sized(t) && UpToDate(t) && Placed(t.pos, t.top)
    ensures var t' := ScrollUp(t, n);
            && UpToDate(t')
            && if t.top >= OldestRow(t.pos) + COLS * n then RowsUp(t', t, n) else t'.top == OldestRow(t.pos)
  {
    TopLimitIsLow(t.pos);
    ScreenIsRing(t);
    hide Print, UpToDate;
    var t' := ScrollUp(t, n);
    MoveRows(t, t'.top);
  }

  /** Scrolling down moves the window down by exactly `n` rows up to its limit, and to the limit otherwise. */
  lemma ScrollsDownRows(t: Tty, n: nat)
    requires Sized(t) && UpToDate(t)
    ensures var t' := ScrollDown(t, n);
            && UpToDate(t')
            && if t.top + COLS * n <= LowestTop(t.pos) && t.top + COLS * n < 0xFFFF_FFFF then RowsUp(t, t', n)
               else t'.top == LowestTop(t.pos)
  {
    Rows(t.pos);
    ScreenIsRing(t);
    hide Print, UpToDate;
    var t' := ScrollDown(t, n);
    MoveRows(t, t'.top);
  }

  /** Where neither limit is met, scrolling down undoes scrolling up, screen and all. */
  lemma DownUndoesUp(t: Tty, n: nat)
    requires Sized(t) && UpToDate(t) && Placed(t.pos, t.top)
    requires OldestRow(t.pos) + COLS * n <= t.top <= LowestTop(t.pos) && t.top < 0xFFFF_FFFF
    ensures ScrollDown(ScrollUp(t, n), n) == t
  {
    ScrollsUpRows(t, n);
    var t1 := ScrollUp(t, n);
    ScrollsDownRows(t1, n);
    var t2 := ScrollDown(t1, n);
    ScreenIsRing(t);
    ScreenIsRing(t2);
    hide UpToDate, ScrollUp, ScrollDown;
    assert t2.top == t.top && t2.ring == t.ring;
    assert t2.screen == t.screen;
  }

  /** And the other way round. */
  lemma UpUndoesDown(t: Tty, n: nat)
    requires Sized(t) && UpToDate(t) && Placed(t.pos, t.top)
    requires t.top + COLS * n <= LowestTop(t.pos) && t.top + COLS * n < 0xFFFF_FFFF
    ensures ScrollUp(ScrollDown(t, n), n) == t
  {
    ScrollsDownRows(t, n);
    var t1 := ScrollDown(t, n);
    DownPlaced(t.pos, t.top, n);
    ScrollsUpRows(t1, n);
    var t2 := ScrollUp(t1, n);
    ScreenIsRing(t);
    ScreenIsRing(t2);
    hide UpToDate, ScrollUp, ScrollDown;
    assert t2.screen == t.screen;
  }

  lemma ClearRefines()
    ensures Refines(Cleared(), Output(map[], 0))
  {
  }

  // ----- runs

  datatype Event = Key(code: Code) | Up(lines: nat) | Down(lines: nat) | Clear

  function Step(t: Tty, e: Event): (r: Tty)
    requires |t.ring| == RING && |t.screen| == SCREEN
    ensures |r.ring| == RING && |r.screen| == SCREEN
  {
    match e
    case Key(c) => Write(t, [c])
    case Up(lines) => ScrollUp(t, lines)
    case Down(lines) => ScrollDown(t, lines)
    case Clear => Cleared()
  }

  /** The output knows nothing of scrolling. */
  function OutStep(o: Output, e: Event): Output {
    match e
    case Key(c) => Emit(o, c)
    case Clear => Output(map[], 0)
    case _ => o
  }

  function Run(t: Tty, es: seq<Event>): (r: Tty)
    requires |t.ring| == RING && |t.screen| == SCREEN
    ensures |r.ring| == RING && |r.screen| == SCREEN
    decreases |es|
  {
    if es == [] then t else Run(Step(t, es[0]), es[1..])
  }

  function OutRun(o: Output, es: seq<Event>): Output
    decreases |es|
  {
    if es == [] then o else OutRun(OutStep(o, es[0]), es[1..])
  }

  /** The screen is the window on the output before and after every event. */
  ghost predicate AlwaysRefines(t: Tty, o: Output, es: seq<Event>)
    requires |t.ring| == RING && |t.screen| == SCREEN
    decreases |es|
  {
    Refines(t, o) && (es == [] || AlwaysRefines(Step(t, es[0]), OutStep(o, es[0]), es[1..]))
  }

  /** Every key finds the position in view, or takes nothing away from its row. */
  ghost predicate LosesNothing(t: Tty, o: Output, es: seq<Event>)
    requires |t.ring| == RING && |t.screen| == SCREEN
    decreases |es|
  {
    es == []
    || ((es[0].Key? ==> InView(t) || NothingLost(Emit(o, es[0].code).log, Max(t.pos, PosAfter(t.pos, es[0].code))))
        && LosesNothing(Step(t, es[0]), OutStep(o, es[0]), es[1..]))
  }

  lemma StepFresh(o: Output, e: Event)
    requires Fresh(o)
    ensures Fresh(OutStep(o, e))
  {
    if e.Key? {
      EmitFresh(o, e.code);
    }
  }

  /** Scrolling and clearing always refine. */
  lemma OtherRefines(t: Tty, o: Output, e: Event)
    requires Refines(t, o) && !e.Key?
    ensures Sized(t) && Refines(Step(t, e), OutStep(o, e))
  {
    hide ScrollUp, ScrollDown, Cleared;
    match e {
      case Up(lines) => ScrollUpRefines(t, o, lines);
      case Down(lines) => ScrollDownRefines(t, o, lines);
      case Clear => ClearRefines();
    }
  }

  /** Runs of single characters, scrolling and clearing: the exact condition. */
  lemma {:induction false} RunRefinesIff(t: Tty, o: Output, es: seq<Event>)
    requires Refines(t, o) && Fresh(o)
    ensures Sized(t) && (AlwaysRefines(t, o, es) <==> LosesNothing(t, o, es))
    decreases |es|
  {
    hide Write, ScrollUp, ScrollDown, Cleared, Fresh, NothingLost, Holds, Shows, Placed;
    if es != [] {
      StepFresh(o, es[0]);
      if es[0].Key? {
        KeyRefinesIff(t, o, es[0].code);
      } else {
        OtherRefines(t, o, es[0]);
      }
      if Refines(Step(t, es[0]), OutStep(o, es[0])) {
        RunRefinesIff(Step(t, es[0]), OutStep(o, es[0]), es[1..]);
      } else if es[1..] != [] {
        assert !AlwaysRefines(Step(t, es[0]), OutStep(o, es[0]), es[1..]);
      }
    }
  }

  /** Every key is pressed with the output position in view. */
  predicate KeysInView(t: Tty, es: seq<Event>)
    requires |t.ring| == RING && |t.screen| == SCREEN
    decreases |es|
  {
    es == [] || ((es[0].Key? ==> InView(t)) && KeysInView(Step(t, es[0]), es[1..]))
  }

  /** Then nothing is ever lost. */
  lemma {:induction false} RunRefines(t: Tty, o: Output, es: seq<Event>)
    requires Refines(t, o) && Fresh(o)
    requires Sized(t) && KeysInView(t, es)
    ensures AlwaysRefines(t, o, es) && Refines(Run(t, es), OutRun(o, es)) && Fresh(OutRun(o, es))
    decreases |es|
  {
    hide Write, ScrollUp, ScrollDown, Cleared, Fresh, NothingLost, Holds, Shows, Placed;
    if es != [] {
      StepFresh(o, es[0]);
      if es[0].Key? {
        KeyRefinesIff(t, o, es[0].code);
      } else {
        OtherRefines(t, o, es[0]);
      }
      RunRefines(Step(t, es[0]), OutStep(o, es[0]), es[1..]);
    }
  }

  /** Only scrolling up takes the position out of view. */
  lemma {:induction false} TypingStaysInView(t: Tty, o: Output, es: seq<Event>)
    requires Refines(t, o) && Fresh(o) && InView(t)
    requires forall i :: 0 <= i < |es| ==> !es[i].Up?
    ensures Sized(t) && KeysInView(t, es) && InView(Run(t, es))
    decreases |es|
  {
    hide Write, ScrollUp, ScrollDown, Cleared, Fresh, NothingLost, Holds, Shows, Refines;
    RefinesPlaced(t, o);
    if es != [] {
      StepFresh(o, es[0]);
      match es[0] {
        case Key(c) =>
          KeyRefinesIff(t, o, c);
          StaysInView(t, c);
        case Down(lines) =>
          OtherRefines(t, o, es[0]);
          DownInView(t, lines);
        case Clear =>
          OtherRefines(t, o, es[0]);
          ClearInView();
      }
      TypingStaysInView(Step(t, es[0]), OutStep(o, es[0]), es[1..]);
    }
  }

  lemma ClearInView()
    ensures InView(Cleared())
  {
  }

  lemma DownInView(t: Tty, lines: nat)
    requires Sized(t) && Placed(t.pos, t.top) && InView(t)
    ensures InView(ScrollDown(t, lines))
  {
    Rows(t.pos);
  }

  /** From a cleared terminal, without scrolling up: the screen is the window on the output. */
  lemma TypingRefines(es: seq<Event>)
    requires forall i :: 0 <= i < |es| ==> !es[i].Up?
    ensures Refines(Run(Cleared(), es), OutRun(Output(map[], 0), es))
  {
    ClearRefines();
    ClearInView();
    TypingStaysInView(Cleared(), Output(map[], 0), es);
    RunRefines(Cleared(), Output(map[], 0), es);
  }

  /** Whatever happens, what is shown is the output, but for cells that were blanked. */
  lemma {:induction false} RunKeeps(t: Tty, kept: Output, o: Output, es: seq<Event>) returns (kept': Output)
    requires Refines(t, kept) && Fresh(kept) && kept.pos == o.pos
    requires forall p: nat :: At(kept.log, p) == At(o.log, p) || At(kept.log, p) == BLANK
    ensures Sized(t) && Refines(Run(t, es), kept') && kept'.pos == OutRun(o, es).pos
    ensures forall p: nat :: At(kept'.log, p) == At(OutRun(o, es).log, p) || At(kept'.log, p) == BLANK
    decreases |es|
  {
    hide Write, ScrollUp, ScrollDown, Cleared, Fresh, NothingLost, Holds, Shows, Placed, LogCode;
    if es == [] {
      kept' := kept;
    } else {
      var next := OutStep(kept, es[0]);
      if es[0].Key? {
        next := KeyKeeps(t, kept, es[0].code);
        SameEmit(kept, o, es[0].code);
      } else {
        OtherRefines(t, kept, es[0]);
        StepFresh(kept, es[0]);
      }
      kept' := RunKeeps(Step(t, es[0]), next, OutStep(o, es[0]), es[1..]);
    }
  }

  lemma SameEmit(kept: Output, o: Output, c: Code)
    requires kept.pos == o.pos
    requires forall p: nat :: At(kept.log, p) == At(o.log, p) || At(kept.log, p) == BLANK
    ensures forall p: nat :: At(Emit(kept, c).log, p) == At(Emit(o, c).log, p) || At(Emit(kept, c).log, p) == BLANK
  {
    TabStays(kept.pos % COLS);
    if c == 9 {
      SamePut(kept.log, o.log, kept.pos, 0, TabWidth(kept.pos % COLS));
    } else if c >= 32 {
      SamePut(kept.log, o.log, kept.pos, 0x0F00 + c, 1);
    }
  }

  lemma SamePut(kept: Log, log: Log, pos: nat, cell: Cell, count: nat)
    requires forall p: nat :: At(kept, p) == At(log, p) || At(kept, p) == BLANK
    ensures var kept' := LogPut(kept, pos, cell, count);
            forall p: nat :: At(kept', p) == At(LogPut(log, pos, cell, count), p) || At(kept', p) == BLANK
  {
    forall p: nat
      ensures var kept' := LogPut(kept, pos, cell, count);
              At(kept', p) == At(LogPut(log, pos, cell, count), p) || At(kept', p) == BLANK
    {
      assert At(kept, p) == At(log, p) || At(kept, p) == BLANK;
      assert Within(pos, count, p) || !Within(pos, count, p);
    }
  }

  /** After any run of single characters, scrolling and clearing every cell on the screen is the output's, or blank. */
  lemma ScreenIsOutputOrBlank(es: seq<Event>, i: nat)
    requires i < SCREEN
    ensures var t, o := Run(Cleared(), es), OutRun(Output(map[], 0), es);
            t.screen[i] == At(o.log, t.top + i) || t.screen[i] == BLANK
  {
    ClearRefines();
    var kept := RunKeeps(Cleared(), Output(map[], 0), Output(map[], 0), es);
  }

  /** And the screen is always what a full redraw from the ring would give. */
  lemma ScreenIsRedraw(es: seq<Event>)
    ensures UpToDate(Run(Cleared(), es))
  {
    ClearRefines();
    var kept := RunKeeps(Cleared(), Output(map[], 0), Output(map[], 0), es);
    RefinesPlaced(Run(Cleared(), es), kept);
  }

  // ----- two characters in one call

  /**
   Two characters in one call can leave the screen behind: after a backspace that does not turn the page,
   the character written over the last one is shown exactly when it is the same.
   */
  lemma BackspaceInOneCall(t: Tty, o: Output, c: Code)
    requires Refines(t, o) && c >= 32 && t.pos % COLS > 0 && t.pos < t.top + SCREEN
    ensures var t' := Write(t, [8, c]);
            t'.screen == Print(t'.ring, t'.screen, t'.top, t'.top, t'.top + SCREEN) <==>
                t.ring[(t.pos - 1) % RING] == 0x0F00 + c
  {
    var w0 := Cursor(t.ring, t.pos, t.pos, t.pos);
    TwoCodes(w0, 8, c);
    BackspaceChar(t.ring, t.pos, c);
    var ring' := t.ring[(t.pos - 1) % RING := 0x0F00 + c];
    var t' := Write(t, [8, c]);
    assert t' == Tty(ring', Print(ring', t.screen, t.top, t.pos, t.pos), t.pos, t.top);
    assert t'.screen == t.screen;
    OneCellOff(t, o, ring', 0x0F00 + c);
  }

  lemma TwoCodes(w: Cursor, c: Code, d: Code)
    requires |w.ring| == RING
    ensures WriteCodes(w, [c, d]) == WriteCode(WriteCode(w, c), d)
  {
    assert [c, d][1..] == [d];
    OneCode(WriteCode(w, c), d);
  }

  lemma BackspaceChar(ring: seq<Cell>, pos: nat, c: Code)
    requires |ring| == RING && c >= 32 && pos % COLS > 0
    ensures WriteCode(WriteCode(Cursor(ring, pos, pos, pos), 8), c) ==
            Cursor(ring[(pos - 1) % RING := 0x0F00 + c], pos, pos, pos)
  {
  }

  /** Changing the last written cell in the ring alone shows in a redraw, unless nothing changes. */
  lemma OneCellOff(t: Tty, o: Output, ring: seq<Cell>, cell: Cell)
    requires Refines(t, o) && 0 < t.pos < t.top + SCREEN && t.pos % COLS > 0
    requires ring == t.ring[(t.pos - 1) % RING := cell]
    ensures t.screen == Print(ring, t.screen, t.top, t.top, t.top + SCREEN) <==> t.ring[(t.pos - 1) % RING] == cell
  {
    Rows(t.pos);
    var redraw := Print(ring, t.screen, t.top, t.top, t.top + SCREEN);
    var i := t.pos - 1 - t.top;
    assert redraw[i] == cell && t.screen[i] == At(o.log, t.top + i) == t.ring[(t.top + i) % RING];
    forall j | 0 <= j < SCREEN && j != i
      ensures redraw[j] == t.screen[j]
    {
      var p := t.top + j;
      if p < t.pos - 1 {
        Slots(p, t.pos - 1);
      } else {
        Slots(t.pos - 1, p);
      }
      assert t.screen[j] == At(o.log, p) == t.ring[p % RING];
    }
  }
}
