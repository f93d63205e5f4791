/**
 The terminal as an object over its ring buffer and the screen memory; each method has exactly the effect
 of the function of the same name in module Terminal.
 */
module Ttys {
  import opened Terminal

  /** While a string is written: what `print` will refresh is on the screen or below it. */
  ghost predicate Ahead(w: Cursor, top: nat) {
    top <= Row(w.pos) * COLS && top <= w.low <= w.high && Row(w.high) <= Row(w.pos)
  }

  lemma RowAt(row: nat, column: nat)
    requires column < COLS
    ensures (row * COLS + column) / COLS == row && (row * COLS + column) % COLS == column
  {
  }

  lemma Column(pos: nat)
    ensures Row(pos) * COLS + pos % COLS == pos
    ensures (pos + COLS) / COLS * COLS == (Row(pos) + 1) * COLS
  {
  }

  lemma RowsMonotone(p: nat, q: nat)
    requires p <= q
    ensures Row(p) <= Row(q)
  {
  }

  lemma CodeStaysAhead(w: Cursor, c: Code, top: nat)
    requires |w.ring| == RING && Ahead(w, top)
    ensures Ahead(WriteCode(w, c), top)
  {
    hide PutMany;
    var w' := WriteCode(w, c);
    Column(w.pos);
    if c == 8 && w.pos % COLS > 0 {
      RowAt(Row(w.pos), w.pos % COLS - 1);
    } else if c == 13 {
      RowAt(Row(w.pos), 0);
    } else {
      RowsMonotone(w.pos, w'.pos);
    }
  }

  class TTY {
    const buffer: array<Cell>
    const vgaMemory: array<Cell>
    var outBufPos: nat
    var windowTopPos: nat

    ghost predicate Valid()
      reads this
    {
      && buffer != vgaMemory && buffer.Length == RING && vgaMemory.Length == SCREEN
      && windowTopPos <= Row(outBufPos) * COLS
    }

    ghost function View(): Tty
      reads this, buffer, vgaMemory
    {
      Tty(buffer[..], vgaMemory[..], outBufPos, windowTopPos)
    }

    constructor ()
      ensures Valid() && View() == Cleared() && fresh(buffer) && fresh(vgaMemory)
    {
      buffer := new Cell[RING];
      vgaMemory := new Cell[SCREEN];
      outBufPos, windowTopPos := 0, 0;
      new;
      Clear();
    }

    method Clear()
      requires Valid()
      modifies this, buffer, vgaMemory
      ensures Valid() && View() == Cleared()
    {
      for i := 0 to buffer.Length
        invariant forall j :: 0 <= j < i ==> buffer[j] == BLANK
      {
        buffer[i] := BLANK;
      }
      for i := 0 to vgaMemory.Length
        invariant forall j :: 0 <= j < i ==> vgaMemory[j] == BLANK
        invariant buffer[..] == Cleared().ring
      {
        vgaMemory[i] := BLANK;
      }
      windowTopPos, outBufPos := 0, 0;
    }

    method SetAndIncBufferPos(c: Cell)
      requires buffer.Length == RING
      modifies `outBufPos, buffer
      ensures outBufPos == old(outBufPos) + 1 && buffer[..] == old(buffer[..])[old(outBufPos) % RING := c]
    {
      buffer[outBufPos % RING] := c;
      outBufPos := outBufPos + 1;
    }

    method PrintRange(windowStartIndex: nat, offsetIndex: nat, length: nat)
      requires buffer != vgaMemory && buffer.Length == RING && vgaMemory.Length == SCREEN
      requires windowStartIndex <= offsetIndex && offsetIndex + length <= windowStartIndex + SCREEN
      modifies vgaMemory
      ensures vgaMemory[..] == Print(buffer[..], old(vgaMemory[..]), windowStartIndex, offsetIndex,
                                     offsetIndex + length)
    {
      var vgaOffset := offsetIndex - windowStartIndex;
      var left: nat, offset: nat := length, offsetIndex;
      while left > 0
        invariant offset + left == offsetIndex + length && vgaOffset + windowStartIndex == offset
        invariant forall i :: 0 <= i < SCREEN ==>
                    vgaMemory[i] ==
                    if offsetIndex <= windowStartIndex + i < offset then buffer[(windowStartIndex + i) % RING]
                    else old(vgaMemory[i])
      {
        left := left - 1;
        vgaMemory[vgaOffset] := buffer[offset % RING];
        offset := offset + 1;
        vgaOffset := vgaOffset + 1;
      }
    }

    /** One turn of the loop in `write`. */
    method WriteChar(c: Code, min: nat, max: nat) returns (min': nat, max': nat)
      requires buffer.Length == RING
      modifies `outBufPos, buffer
      ensures Cursor(buffer[..], outBufPos, min', max') ==
              WriteCode(Cursor(old(buffer[..]), old(outBufPos), min, max), c)
    {
      min', max' := min, max;
      var column := outBufPos % COLS;
      if c == 8 && column > 0 {
        min' := Min(outBufPos, min);
        outBufPos := outBufPos - 1;
      } else if c == 9 {
        Tab();
        max' := Max(max, outBufPos);
      } else if c == 13 {
        min' := Min(outBufPos, min);
        outBufPos := outBufPos - column;
      } else if c == 10 {
        NewLine();
        max' := Max(max, outBufPos);
      } else if c >= 32 {
        SetAndIncBufferPos(0x0F00 + c);
        OneCell(old(buffer[..]), old(outBufPos), 0x0F00 + c);
        max' := Max(max, outBufPos);
      }
    }

    method Tab()
      requires buffer.Length == RING
      modifies `outBufPos, buffer
      ensures outBufPos == old(outBufPos) + TabWidth(old(outBufPos) % COLS)
      ensures buffer[..] == PutMany(old(buffer[..]), old(outBufPos), 0, TabWidth(old(outBufPos) % COLS))
    {
      var column := outBufPos % COLS;
      var newColumn := Min((column + 8) / 8 * 8, COLS);
      for j := 0 to newColumn - column
        invariant outBufPos == old(outBufPos) + j
        invariant PutMany(buffer[..], outBufPos, 0, newColumn - column - j)
               == PutMany(old(buffer[..]), old(outBufPos), 0, newColumn - column)
      {
        SetAndIncBufferPos(0);
      }
    }

    method NewLine()
      modifies `outBufPos
      ensures outBufPos == (old(outBufPos) + COLS) / COLS * COLS
    {
      var newBufferPos, start := (outBufPos + COLS) / COLS * COLS, outBufPos;
      for j := 0 to newBufferPos - start
        invariant outBufPos == start + j
      {
        outBufPos := outBufPos + 1;
      }
    }

    method Write(str: seq<Code>)
      requires Valid()
      modifies this, buffer, vgaMemory
      ensures Valid() && View() == Terminal.Write(old(View()), str)
    {
      hide WriteCode, PutMany, Print;
      var minBufferPos: nat, maxBufferPos: nat := outBufPos, outBufPos;
      var i := 0;
      RowsMonotone(Row(outBufPos) * COLS, outBufPos);
      while i < |str|
        invariant 0 <= i <= |str|
        invariant windowTopPos == old(windowTopPos) && vgaMemory[..] == old(vgaMemory[..])
        invariant Ahead(Cursor(buffer[..], outBufPos, minBufferPos, maxBufferPos), windowTopPos)
        invariant WriteCodes(Cursor(buffer[..], outBufPos, minBufferPos, maxBufferPos), str[i..])
               == WriteCodes(Cursor(old(buffer[..]), old(outBufPos), old(outBufPos), old(outBufPos)), str)
      {
        assert str[i..][1..] == str[i + 1..];
        CodeStaysAhead(Cursor(buffer[..], outBufPos, minBufferPos, maxBufferPos), str[i], windowTopPos);
        minBufferPos, maxBufferPos := WriteChar(str[i], minBufferPos, maxBufferPos);
        i := i + 1;
      }
      assert str[i..] == [];
      if maxBufferPos < windowTopPos + SCREEN {
        PrintRange(windowTopPos, minBufferPos, maxBufferPos - minBufferPos);
      } else {
        TurnPage(maxBufferPos);
      }
    }

    /** Lines 55-65. */
    method TurnPage(maxBufferPos: nat)
      requires Valid() && maxBufferPos >= windowTopPos + SCREEN && Row(maxBufferPos) <= Row(outBufPos)
      modifies `windowTopPos, buffer, vgaMemory
      ensures Valid()
      ensures var end := (maxBufferPos + COLS) / COLS * COLS;
              && end >= SCREEN && windowTopPos == end - SCREEN
              && buffer[..] == PutMany(old(buffer[..]), maxBufferPos, BLANK, end - maxBufferPos)
              && vgaMemory[..] == Print(buffer[..], old(vgaMemory[..]), windowTopPos, windowTopPos, end)
    {
      hide Print;
      Column(maxBufferPos);
      windowTopPos := (maxBufferPos + COLS) / COLS * COLS - SCREEN;
      var t := maxBufferPos;
      var lineEnd := windowTopPos + SCREEN - 1;
      while t <= lineEnd
        invariant maxBufferPos <= t <= lineEnd + 1
        invariant windowTopPos + SCREEN == lineEnd + 1
        invariant vgaMemory[..] == old(vgaMemory[..])
        invariant PutMany(buffer[..], t, BLANK, lineEnd + 1 - t)
               == PutMany(old(buffer[..]), maxBufferPos, BLANK, lineEnd + 1 - maxBufferPos)
      {
        label L:
        buffer[t % RING] := BLANK;
        assert buffer[..] == old@L(buffer[..])[t % RING := BLANK];
        t := t + 1;
      }
      PrintRange(windowTopPos, windowTopPos, SCREEN);
    }

    method ScrollUp(lines: nat)
      requires Valid()
      modifies `windowTopPos, vgaMemory
      ensures Valid() && View() == Terminal.ScrollUp(old(View()), lines)
    {
      hide Print;
      var topLimit := 0;
      var oldTop := windowTopPos;
      if outBufPos >= RING {
        topLimit := outBufPos + 1 - RING;
        if topLimit % COLS != 0 {
          topLimit := (topLimit / COLS + 1) * COLS;
        }
      }
      TopLimitAhead(outBufPos);
      if windowTopPos > COLS * lines {
        var newWindowTop := windowTopPos - COLS * lines;
        windowTopPos := if newWindowTop < topLimit then topLimit else newWindowTop;
      } else {
        windowTopPos := topLimit;
      }
      if windowTopPos != oldTop {
        PrintRange(windowTopPos, windowTopPos, SCREEN);
      }
    }

    method ScrollDown(lines: nat)
      requires Valid()
      modifies `windowTopPos, vgaMemory
      ensures Valid() && View() == Terminal.ScrollDown(old(View()), lines)
    {
      hide Print;
      var topWndPosBtmLimit := 0;
      var oldTop := windowTopPos;
      Column(outBufPos);
      if outBufPos < RING - SCREEN {
        topWndPosBtmLimit := outBufPos - outBufPos % COLS;
      } else {
        topWndPosBtmLimit := outBufPos - outBufPos % COLS - (ROWS - 1) * COLS;
      }
      if windowTopPos < 0xFFFF_FFFF - COLS * lines {
        if windowTopPos + COLS * lines <= topWndPosBtmLimit {
          windowTopPos := windowTopPos + COLS * lines;
        } else {
          windowTopPos := topWndPosBtmLimit;
        }
      } else {
        windowTopPos := topWndPosBtmLimit;
      }
      if windowTopPos != oldTop {
        PrintRange(windowTopPos, windowTopPos, SCREEN);
      }
    }
  }

  lemma OneCell(ring: seq<Cell>, pos: nat, cell: Cell)
    requires |ring| == RING
    ensures PutMany(ring, pos, cell, 1) == ring[pos % RING := cell]
  {
  }

  lemma TopLimitAhead(pos: nat)
    ensures TopLimit(pos) <= Row(pos) * COLS
  {
  }
}
