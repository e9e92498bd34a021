/** The text screen: a 25-row buffer that scrolls, as a window onto an unbounded tape of rows. */
module Screen {
  const MAX_ROWS: nat := 25
  const MAX_COLS: nat := 80
  const ROW: nat := 160            // bytes: a character and its attribute per column
  const SCREEN: nat := 4000
  const WHITE_ON_BLACK: Byte := 0x0f
  const NEWLINE: Byte := 10

  type Byte = x: int | 0 <= x < 256

  function Offset(col: int, row: int): int { (row * 80 + col) * 2 }

  // ----- memory.c

  /** memory_copy within one buffer, byte by byte. */
  function Copied(s: seq<Byte>, src: nat, dst: nat, n: nat): (r: seq<Byte>)
    requires src + n <= |s| && dst + n <= |s|
    ensures |r| == |s|
  {
    if n == 0 then s
    else
      var t := Copied(s, src, dst, n - 1);
      t[dst + n - 1 := t[src + n - 1]]
  }

  /** Towards the front, or without overlap, it moves the bytes as they were. */
  lemma {:induction false} CopyMoves(s: seq<Byte>, src: nat, dst: nat, n: nat)
    requires src + n <= |s| && dst + n <= |s| && (dst <= src || src + n <= dst)
    ensures Copied(s, src, dst, n) == s[..dst] + s[src..src + n] + s[dst + n..]
  {
    if n > 0 {
      CopyMoves(s, src, dst, n - 1);
      var t := Copied(s, src, dst, n - 1);
      assert t[src + n - 1] == s[src + n - 1];
      assert t == s[..dst] + s[src..src + n - 1] + s[dst + n - 1..];
      assert s[src..src + n] == s[src..src + n - 1] + [s[src + n - 1]];
      assert s[dst + n - 1..] == [s[dst + n - 1]] + s[dst + n..];
    }
  }

  method MemoryCopy(a: array<Byte>, src: nat, dst: nat, n: nat)
    requires src + n <= a.Length && dst + n <= a.Length
    modifies a
    ensures a[..] == Copied(old(a[..]), src, dst, n)
  {
    for i := 0 to n
      invariant a[..] == Copied(old(a[..]), src, dst, i)
    {
      a[dst + i] := a[src + i];
    }
  }

  // ----- screen.c

  /** The buffer and the offset of the cursor. */
  datatype Window = Window(bytes: seq<Byte>, cursor: nat)

  function Zeros(n: nat): (r: seq<Byte>)
    ensures |r| == n
  {
    seq(n, (i: nat) => 0)
  }

  /** One row up, and an empty last row. */
  function Scrolled(s: seq<Byte>): (r: seq<Byte>)
    requires |s| == SCREEN
    ensures |r| == SCREEN
  {
    s[ROW..] + Zeros(ROW)
  }

  function HandleScrolling(w: Window): Window
    requires |w.bytes| == SCREEN
  {
    if w.cursor < SCREEN then w else Window(Scrolled(w.bytes), w.cursor - ROW)
  }

  /** Scrolling moves every byte up by a row, and the row that comes in is zero. */
  lemma ScrollClears(w: Window)
    requires |w.bytes| == SCREEN && 4000 <= w.cursor
    ensures var r := HandleScrolling(w);
      && |r.bytes| == 4000 && r.cursor == w.cursor - 160
      && (forall k :: 0 <= k < 4000 ==> r.bytes[k] == if k < 3840 then w.bytes[k + 160] else 0)
  {
  }

  /** The character written, or the last cell of the row passed for a newline. */
  function Placed(w: Window, c: Byte, style: Byte): Window
    requires |w.bytes| == SCREEN && w.cursor + 1 < SCREEN
  {
    if c == NEWLINE then Window(w.bytes, Offset(79, w.cursor / ROW) + 2)
    else Window(w.bytes[w.cursor := c][w.cursor + 1 := style], w.cursor + 2)
  }

  /** print_char. */
  function Put(w: Window, c: Byte, attribute: Byte): Window
    requires |w.bytes| == SCREEN && w.cursor + 1 < SCREEN
  {
    HandleScrolling(Placed(w, c, if attribute == 0 then WHITE_ON_BLACK else attribute))
  }

  /** A character before the last cell: it and its attribute, white on black for zero, stand at the cursor, and nothing else changes. */
  lemma PutWrites(w: Window, c: Byte, attribute: Byte)
    requires |w.bytes| == SCREEN && w.cursor + 2 < SCREEN && c != 10
    ensures var r := Put(w, c, attribute);
      && |r.bytes| == SCREEN && r.cursor == w.cursor + 2
      && r.bytes[w.cursor] == c && r.bytes[w.cursor + 1] == (if attribute == 0 then 0x0f else attribute)
      && (forall k :: 0 <= k < SCREEN && k != w.cursor && k != w.cursor + 1 ==> r.bytes[k] == w.bytes[k])
  {
  }

  /** The cursor is even and on the screen. */
  predicate Ok(w: Window) { |w.bytes| == SCREEN && w.cursor % 2 == 0 && w.cursor < SCREEN }

  lemma PutOk(w: Window, c: Byte, attribute: Byte)
    requires Ok(w)
    ensures Ok(Put(w, c, attribute))
  {
  }

  /** print: the characters before the terminator. */
  function Print(w: Window, text: seq<Byte>): (r: Window)
    requires Ok(w)
    ensures Ok(r)
    decreases |text|
  {
    if text == [] then w
    else
      var v := Print(w, text[..|text| - 1]);
      PutOk(v, text[|text| - 1], WHITE_ON_BLACK);
      Put(v, text[|text| - 1], WHITE_ON_BLACK)
  }

  /** The rows before the i-th moved up, the others as they were. */
  function Shifted(s: seq<Byte>, i: nat): (r: seq<Byte>)
    requires |s| == SCREEN && 1 <= i <= MAX_ROWS
    ensures |r| == SCREEN
  {
    s[ROW..ROW * i] + s[ROW * (i - 1)..]
  }

  lemma ShiftOne(s: seq<Byte>, i: nat)
    requires |s| == SCREEN && 1 <= i < MAX_ROWS
    ensures Copied(Shifted(s, i), Offset(0, i), Offset(0, i - 1), ROW) == Shifted(s, i + 1)
  {
    var a := Shifted(s, i);
    CopyMoves(a, ROW * i, ROW * (i - 1), ROW);
    assert a[..ROW * (i - 1)] == s[ROW..ROW * i];
    assert a[ROW * i..ROW * i + ROW] == s[ROW * i..ROW * i + ROW];
  }

  class Screen {
    const video: array<Byte>
    var register: nat             // the cursor's cell, in the device's two index registers

    ghost predicate Valid() reads this, video { video.Length == SCREEN && register < SCREEN / 2 }

    ghost function View(): Window
      reads this, video
    {
      Window(video[..], register * 2)
    }

    constructor (buffer: array<Byte>)
      requires buffer.Length == SCREEN
      ensures Valid() && video == buffer && View() == Window(buffer[..], 0)
    {
      video, register := buffer, 0;
    }

    /** get_cursor answers in 16 bits. */
    method GetCursor() returns (offset: nat)
      ensures offset == register * 2 % 0x1_0000
      ensures register < 0x8000 ==> offset == register * 2
    {
      offset := register * 2 % 0x1_0000;
    }

    method SetCursor(offset: nat)
      modifies `register
      ensures register == offset / 2 % 0x1_0000
      ensures offset < 0x2_0000 && offset % 2 == 0 ==> register * 2 == offset
    {
      register := offset / 2 % 0x1_0000;
    }

    method ShiftRows()
      requires video.Length == SCREEN
      modifies video
      ensures video[..] == Shifted(old(video[..]), MAX_ROWS)
    {
      for i := 1 to MAX_ROWS
        invariant video[..] == Shifted(old(video[..]), i)
      {
        ShiftOne(old(video[..]), i);
        MemoryCopy(video, Offset(0, i), Offset(0, i - 1), MAX_COLS * 2);
      }
    }

    method ClearLastRow()
      requires video.Length == SCREEN
      modifies video
      ensures video[..] == old(video[..])[..SCREEN - ROW] + Zeros(ROW)
      ensures forall k :: 0 <= k < SCREEN ==> video[k] == if k < SCREEN - 160 then old(video[k]) else 0
    {
      var last := Offset(0, MAX_ROWS - 1);
      for i := 0 to MAX_COLS * 2
        invariant forall k :: 0 <= k < SCREEN ==> video[k] == if last <= k < last + i then 0 else old(video[k])
      {
        video[last + i] := 0;
      }
    }

    /** handle_scrolling. */
    method Scroll(offset: nat) returns (r: nat)
      requires video.Length == SCREEN
      modifies video
      ensures Window(video[..], r) == HandleScrolling(Window(old(video[..]), offset))
    {
      if offset < SCREEN { return offset; }
      ShiftRows();
      ClearLastRow();
      r := offset - 2 * MAX_COLS;
    }

    method PrintChar(c: Byte, attribute: Byte)
      requires Valid()
      modifies `register, video
      ensures Valid() && View() == Put(old(View()), c, attribute)
    {
      PutOk(View(), c, attribute);
      var offset := GetCursor();
      if c == NEWLINE {
        offset := Offset(79, offset / (2 * MAX_COLS));
      } else {
        PutCell(offset, c, if attribute == 0 then WHITE_ON_BLACK else attribute);
      }
      offset := Scroll(offset + 2);
      SetCursor(offset);
    }

    method PutCell(offset: nat, c: Byte, style: Byte)
      requires offset + 1 < video.Length
      modifies video
      ensures video[..] == old(video[..])[offset := c][offset + 1 := style]
    {
      video[offset] := c;
      video[offset + 1] := style;
    }

    /** print, for a message that ends in a zero byte. */
    method PrintMessage(message: seq<Byte>, ghost end: nat)
      requires Valid() && end < |message| && message[end] == 0 && (forall k :: 0 <= k < end ==> message[k] != 0)
      modifies `register, video
      ensures Valid() && View() == Print(old(View()), message[..end])
    {
      var i := 0;
      while message[i] != 0
        invariant i <= end && Valid()
        invariant View() == Print(old(View()), message[..i])
        decreases end - i
      {
        assert message[..i + 1][..i] == message[..i];
        PrintChar(message[i], WHITE_ON_BLACK);
        i := i + 1;
      }
    }
  }

  // ----- the tape

  /** All rows ever shown, the screen being the last 25, and the place to write at. */
  datatype Tape = Tape(cells: seq<Byte>, pos: nat)

  /** A new empty row once the place to write at has left the last one. */
  function Grow(t: Tape): Tape {
    if t.pos < |t.cells| then t else Tape(t.cells + Zeros(ROW), t.pos)
  }

  function Marked(t: Tape, c: Byte): Tape
    requires t.pos + 1 < |t.cells|
  {
    if c == NEWLINE then Tape(t.cells, (t.pos / ROW + 1) * ROW)
    else Tape(t.cells[t.pos := c][t.pos + 1 := WHITE_ON_BLACK], t.pos + 2)
  }

  function Write(t: Tape, c: Byte): Tape
    requires t.pos + 1 < |t.cells|
  {
    Grow(Marked(t, c))
  }

  /** The tape is whole rows, and the place to write at is one of the last 25 rows' cells. */
  predicate TapeOk(t: Tape) {
    && |t.cells| % ROW == 0 && t.pos % 2 == 0 && SCREEN <= |t.cells|
    && |t.cells| <= t.pos + SCREEN && t.pos + 1 < |t.cells|
  }

  /** An even offset below a row's end leaves room for a cell; the next row starts within a row of it. */
  lemma RowFacts(pos: nat, n: nat)
    requires pos % 2 == 0 && n % ROW == 0 && pos < n
    ensures pos + 1 < n
    ensures pos < (pos / ROW + 1) * ROW <= n && (pos / ROW + 1) * ROW % 2 == 0 && (pos / ROW + 1) * ROW <= pos + ROW
  {
  }

  lemma WriteOk(t: Tape, c: Byte)
    requires TapeOk(t)
    ensures TapeOk(Write(t, c))
  {
    RowFacts(t.pos, |t.cells|);
    var u := Marked(t, c);
    if u.pos < |u.cells| { RowFacts(u.pos, |u.cells|); }
  }

  lemma WriteKeeps(t: Tape, c: Byte, n: nat)
    requires n <= t.pos && t.pos + 1 < |t.cells|
    ensures |Write(t, c).cells| >= |t.cells| && Write(t, c).cells[..n] == t.cells[..n]
  {
  }

  function WriteAll(t: Tape, text: seq<Byte>): (r: Tape)
    requires TapeOk(t)
    ensures TapeOk(r)
    decreases |text|
  {
    if text == [] then t
    else
      var u := WriteAll(t, text[..|text| - 1]);
      WriteOk(u, text[|text| - 1]);
      Write(u, text[|text| - 1])
  }

  /** The screen is the tape's last 25 rows. */
  predicate Shows(w: Window, t: Tape) {
    TapeOk(t) && w == Window(t.cells[|t.cells| - SCREEN..], t.pos - (|t.cells| - SCREEN))
  }

  lemma RowAdds(top: nat, cursor: nat)
    requires top % ROW == 0
    ensures (top + cursor) / ROW == top / ROW + cursor / ROW && top / ROW * ROW == top
  {
  }

  lemma PlacedShows(w: Window, t: Tape, c: Byte)
    requires Ok(w) && Shows(w, t)
    ensures var v, u := Placed(w, c, WHITE_ON_BLACK), Marked(t, c);
      && |u.cells| == |t.cells| && v.bytes == u.cells[|t.cells| - SCREEN..] && u.pos == v.cursor + |t.cells| - SCREEN
      && v.cursor <= SCREEN && v.cursor % 2 == 0
  {
    var top := |t.cells| - SCREEN;
    if c == NEWLINE { RowAdds(top, w.cursor); }
  }

  lemma ScrolledShows(v: Window, u: Tape)
    requires |u.cells| >= SCREEN && TapeOk(Grow(u))
    requires v.bytes == u.cells[|u.cells| - SCREEN..] && u.pos == v.cursor + |u.cells| - SCREEN && v.cursor <= SCREEN
    ensures Shows(HandleScrolling(v), Grow(u))
  {
    if v.cursor == SCREEN {
      assert Grow(u).cells[|u.cells| + ROW - SCREEN..] == v.bytes[ROW..] + Zeros(ROW);
    }
  }

  lemma PutShows(w: Window, t: Tape, c: Byte)
    requires Ok(w) && Shows(w, t)
    ensures Ok(Put(w, c, WHITE_ON_BLACK)) && Shows(Put(w, c, WHITE_ON_BLACK), Write(t, c))
  {
    PutOk(w, c, WHITE_ON_BLACK);
    WriteOk(t, c);
    PlacedShows(w, t, c);
    ScrolledShows(Placed(w, c, WHITE_ON_BLACK), Marked(t, c));
  }

  /**
   For every message, the buffer after printing it is the 25-row window at the end of the
   tape written with the same characters, the cursor stands where the tape is written next,
   and it stays even and on the screen.
   */
  lemma {:induction false} PrintShows(w: Window, t: Tape, text: seq<Byte>)
    requires Ok(w) && Shows(w, t)
    ensures Ok(Print(w, text)) && Shows(Print(w, text), WriteAll(t, text))
    decreases |text|
  {
    if text != [] {
      var n := |text| - 1;
      PrintShows(w, t, text[..n]);
      PutShows(Print(w, text[..n]), WriteAll(t, text[..n]), text[n]);
    }
  }

  /** Rows that have left the screen are never written again. */
  lemma {:induction false} HistoryStays(t: Tape, text: seq<Byte>)
    requires TapeOk(t)
    ensures |WriteAll(t, text).cells| >= |t.cells|
    ensures WriteAll(t, text).cells[..|t.cells| - SCREEN] == t.cells[..|t.cells| - SCREEN]
    decreases |text|
  {
    if text != [] {
      var n, k := |text| - 1, |t.cells| - SCREEN;
      HistoryStays(t, text[..n]);
      var u := WriteAll(t, text[..n]);
      WriteKeeps(u, text[n], k);
    }
  }

  /** Where the tape is written next, after a text from `pos` on: a newline leads to the next row, anything else to the next cell. */
  function Where(pos: nat, text: seq<Byte>): nat
    decreases |text|
  {
    if text == [] then pos
    else
      var n := |text| - 1;
      if text[n] == 10 then (Where(pos, text[..n]) / 160 + 1) * 160 else Where(pos, text[..n]) + 2
  }

  lemma {:induction false} WhereGrows(pos: nat, text: seq<Byte>, i: nat)
    requires i < |text|
    ensures Where(pos, text[..i]) < Where(pos, text) && (text[i] != 10 ==> Where(pos, text[..i]) + 2 <= Where(pos, text))
    decreases |text|
  {
    var n := |text| - 1;
    if i < n {
      assert text[..n][..i] == text[..i];
      WhereGrows(pos, text[..n], i);
    }
  }

  /** Character i of the text, or its attribute, is at p. */
  predicate CellAt(pos: nat, text: seq<Byte>, i: nat, p: nat) {
    i < |text| && text[i] != 10 && (p == Where(pos, text[..i]) || p == Where(pos, text[..i]) + 1)
  }

  ghost predicate Covered(pos: nat, text: seq<Byte>, p: nat) {
    exists i: nat {:trigger CellAt(pos, text, i, p)} :: CellAt(pos, text, i, p)
  }

  /** Character i of the text and its attribute are where they were written. */
  predicate Stands(pos: nat, text: seq<Byte>, i: nat, cells: seq<Byte>)
    requires i < |text|
  {
    var q := Where(pos, text[..i]);
    q + 1 < |cells| && cells[q] == text[i] && cells[q + 1] == WHITE_ON_BLACK
  }

  /**
   A tape with this text on it, from one with the cells `before` and the place to write `pos`: each
   character and its attribute stand where they were written, what was not written is as before, and
   in a row that was not there before it is zero.
   */
  ghost predicate Bears(before: seq<Byte>, pos: nat, text: seq<Byte>, cells: seq<Byte>) {
    && |before| <= |cells|
    && (forall i: nat {:trigger Stands(pos, text, i, cells)} :: i < |text| && text[i] != 10 ==> Stands(pos, text, i, cells))
    && (forall p: nat {:trigger cells[p]} :: p < |cells| && !Covered(pos, text, p) ==>
          cells[p] == if p < |before| then before[p] else 0)
  }

  /** One character more, from u to v: what stood before the place to write stays, what was added is zero. */
  ghost predicate Wrote(u: Tape, c: Byte, v: Tape) {
    && |u.cells| <= |v.cells| && u.pos + 1 < |u.cells|
    && v.pos == (if c == 10 then (u.pos / 160 + 1) * 160 else u.pos + 2)
    && (c != 10 ==> v.cells[u.pos] == c && v.cells[u.pos + 1] == WHITE_ON_BLACK)
    && (forall p: nat {:trigger v.cells[p]} :: p < |v.cells| && (c != 10 ==> p != u.pos && p != u.pos + 1) ==>
          v.cells[p] == if p < |u.cells| then u.cells[p] else 0)
  }

  lemma WriteWrote(u: Tape, c: Byte)
    requires TapeOk(u)
    ensures Wrote(u, c, Write(u, c))
  {
  }

  lemma BearsChars(before: seq<Byte>, pos: nat, text: seq<Byte>, u: Tape, v: Tape, i: nat)
    requires text != [] && Wrote(u, text[|text| - 1], v) && u.pos == Where(pos, text[..|text| - 1])
    requires Bears(before, pos, text[..|text| - 1], u.cells) && i < |text| && text[i] != 10
    ensures Stands(pos, text, i, v.cells)
  {
    var n := |text| - 1;
    if i < n {
      assert text[..n][..i] == text[..i] && text[..n][i] == text[i];
      assert Stands(pos, text[..n], i, u.cells);
      WhereGrows(pos, text[..n], i);
    }
  }

  lemma BearsRest(before: seq<Byte>, pos: nat, text: seq<Byte>, u: Tape, v: Tape, p: nat)
    requires text != [] && Wrote(u, text[|text| - 1], v) && u.pos == Where(pos, text[..|text| - 1])
    requires Bears(before, pos, text[..|text| - 1], u.cells) && p < |v.cells| && !Covered(pos, text, p)
    ensures v.cells[p] == if p < |before| then before[p] else 0
  {
    var n := |text| - 1;
    if Covered(pos, text[..n], p) {
      CoveredMore(pos, text, p);
      assert false;
    }
    assert !CellAt(pos, text, n, p);
    if p < |u.cells| { assert u.cells[p] == if p < |before| then before[p] else 0; }
  }

  lemma CoveredMore(pos: nat, text: seq<Byte>, p: nat)
    requires text != [] && Covered(pos, text[..|text| - 1], p)
    ensures Covered(pos, text, p)
  {
    var n := |text| - 1;
    var i: nat :| CellAt(pos, text[..n], i, p);
    assert text[..n][..i] == text[..i] && text[..n][i] == text[i];
    assert CellAt(pos, text, i, p);
  }

  lemma BearsMore(before: seq<Byte>, pos: nat, text: seq<Byte>, u: Tape, v: Tape)
    requires text != [] && Wrote(u, text[|text| - 1], v) && u.pos == Where(pos, text[..|text| - 1])
    requires Bears(before, pos, text[..|text| - 1], u.cells)
    ensures v.pos == Where(pos, text) && Bears(before, pos, text, v.cells)
  {
    forall i: nat | i < |text| && text[i] != 10 ensures Stands(pos, text, i, v.cells) { BearsChars(before, pos, text, u, v, i); }
    forall p: nat | p < |v.cells| && !Covered(pos, text, p) ensures v.cells[p] == if p < |before| then before[p] else 0 {
      BearsRest(before, pos, text, u, v, p);
    }
  }

  /** Every text, newlines or not: the tape bears it, and zero where a new row was not written. */
  lemma {:induction false} TextOnTape(t: Tape, text: seq<Byte>)
    requires TapeOk(t)
    ensures WriteAll(t, text).pos == Where(t.pos, text) && Bears(t.cells, t.pos, text, WriteAll(t, text).cells)
    decreases |text|
  {
    if text != [] {
      var n := |text| - 1;
      TextOnTape(t, text[..n]);
      WriteWrote(WriteAll(t, text[..n]), text[n]);
      BearsMore(t.cells, t.pos, text, WriteAll(t, text[..n]), WriteAll(t, text));
    }
  }

  /** How long the tape is: as long as it was, or up to the end of the row to write in. */
  lemma {:induction false} TapeLength(t: Tape, text: seq<Byte>)
    requires TapeOk(t)
    ensures var r := WriteAll(t, text); |r.cells| == if r.pos < |t.cells| then |t.cells| else (r.pos / 160 + 1) * 160
    decreases |text|
  {
    if text != [] {
      var n := |text| - 1;
      TapeLength(t, text[..n]);
      var u := WriteAll(t, text[..n]);
      RowFacts(u.pos, |u.cells|);
      WhereNext(u, text[n]);
    }
  }

  lemma WhereNext(u: Tape, c: Byte)
    requires TapeOk(u)
    ensures var v := Write(u, c); u.pos <= v.pos <= |u.cells| && |v.cells| == if v.pos < |u.cells| then |u.cells| else |u.cells| + 160
    ensures u.pos / 160 == |u.cells| / 160 - 1 ==> |u.cells| == (u.pos / 160 + 1) * 160
  {
    RowFacts(u.pos, |u.cells|);
  }

  /** Text without a newline stands cell by cell from where it was written. */
  lemma {:induction false} PlainText(pos: nat, text: seq<Byte>)
    requires NEWLINE !in text
    ensures Where(pos, text) == pos + 2 * |text|
    decreases |text|
  {
    if text != [] {
      assert text[|text| - 1] in text;
      PlainText(pos, text[..|text| - 1]);
    }
  }
}
