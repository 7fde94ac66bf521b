/**
 The text-mode screen: `putc` writes one cell of a 25x80 window and scrolls the
 window when its cursor leaves it. The window is proved to show, at every
 moment, the tail of everything printed since the last clear.
 */
module Screen {
  import opened Text

  const NUM_COLS: nat := 80
  const NUM_ROWS: nat := 25
  const LAST_ROW: nat := 24
  const CELLS: nat := 2000
  const ATTRIB: Byte := 7
  const BREAKS: set<Byte> := {NEWLINE, RETURN}

  // ----- Specification

  /** The whole output as rows: broken at newlines, and wrapped as soon as a row is full. */
  function Rows(log: Bytes): seq<Bytes> {
    Pieces(log, BREAKS, NUM_COLS)
  }

  /** The number of rows that have scrolled off. */
  function Gone(rows: seq<Bytes>): nat {
    if |rows| > NUM_ROWS then |rows| - NUM_ROWS else 0
  }

  function Cell(rows: seq<Bytes>, r: nat, c: nat): Byte {
    if Gone(rows) + r < |rows| && c < |rows[Gone(rows) + r]| then rows[Gone(rows) + r][c] else SPACE
  }

  /** The window over the last 25 rows, row by row, padded with blanks. */
  function Picture(rows: seq<Bytes>): (pic: Bytes)
    ensures |pic| == CELLS
    ensures forall i | 0 <= i < CELLS :: pic[i] == Cell(rows, i / NUM_COLS, i % NUM_COLS)
  {
    seq(CELLS, i requires 0 <= i => Cell(rows, i / NUM_COLS, i % NUM_COLS))
  }

  function Last(rows: seq<Bytes>): Bytes
    requires rows != []
  {
    rows[|rows| - 1]
  }

  function CursorRow(rows: seq<Bytes>): nat
    requires rows != []
  {
    |rows| - 1 - Gone(rows)
  }

  lemma PictureOfNewRow(rows: seq<Bytes>)
    requires rows != []
    ensures Picture(rows + [[]]) ==
            if |rows| < NUM_ROWS then Picture(rows) else Picture(rows)[NUM_COLS..] + Spaces(NUM_COLS)
  {
    var more := rows + [[]];
    forall i | 0 <= i < CELLS
      ensures |rows| < NUM_ROWS ==> Picture(more)[i] == Picture(rows)[i]
      ensures |rows| >= NUM_ROWS ==> Picture(more)[i] == (Picture(rows)[NUM_COLS..] + Spaces(NUM_COLS))[i]
    {
      if |rows| >= NUM_ROWS && i < CELLS - NUM_COLS {
        assert Picture(rows)[NUM_COLS..][i] == Picture(rows)[i + NUM_COLS];
        assert (i + NUM_COLS) / NUM_COLS == i / NUM_COLS + 1;
      }
    }
  }

  lemma PictureOfLongerRow(rows: seq<Bytes>, c: Byte)
    requires rows != [] && |Last(rows)| < NUM_COLS
    ensures var at := NUM_COLS * CursorRow(rows) + |Last(rows)|;
            at < CELLS && Picture(rows[..|rows| - 1] + [Last(rows) + [c]]) == Picture(rows)[at := c]
  {
    var longer := rows[..|rows| - 1] + [Last(rows) + [c]];
    var at := NUM_COLS * CursorRow(rows) + |Last(rows)|;
    forall i | 0 <= i < CELLS ensures Picture(longer)[i] == Picture(rows)[at := c][i] {
      var r := i / NUM_COLS;
      assert i == NUM_COLS * r + i % NUM_COLS;
      if r != CursorRow(rows) {
        assert Gone(rows) + r < |rows| ==> longer[Gone(rows) + r] == rows[Gone(rows) + r];
      }
    }
  }

  /** The test at the end of `putc`. A position of 0 in both directions means that the row number wrapped. */
  predicate ScrollsAt(x: int, y: int) {
    x == 0 && (y > LAST_ROW || y == 0)
  }

  /** Beginning a row scrolls exactly when the window was full, and leaves the cursor in the new row. */
  lemma CursorOfNewRow(rows: seq<Bytes>)
    requires rows != []
    ensures forall y | y in {CursorRow(rows) + 1, (CursorRow(rows) + 1) % NUM_ROWS} ::
              && (ScrollsAt(0, y) <==> |rows| >= NUM_ROWS)
              && CursorRow(rows + [[]]) == if ScrollsAt(0, y) then LAST_ROW else y
  {}

  lemma AppendIs(rows: seq<Bytes>, c: Byte)
    requires rows != [] && |Last(rows)| < NUM_COLS
    ensures c in BREAKS ==> Append(rows, c, BREAKS, NUM_COLS) == rows + [[]]
    ensures c !in BREAKS ==>
              var longer := rows[..|rows| - 1] + [Last(rows) + [c]];
              Append(rows, c, BREAKS, NUM_COLS) == if |Last(longer)| == NUM_COLS then longer + [[]] else longer
  {}

  /** Where the cursor goes, and where a glyph is found after it has been printed. */
  lemma GlyphIsShown(rows: seq<Bytes>, c: Byte)
    requires rows != [] && |Last(rows)| < 80
    ensures var now, x, y := Append(rows, c, BREAKS, NUM_COLS), |Last(rows)|, CursorRow(rows);
            && 0 <= y < 25 && now != []
            && (c == 10 || c == 13 ==> |Last(now)| == 0 && CursorRow(now) == Min(y + 1, 24))
            && (c != 10 && c != 13 ==>
                  && |Last(now)| == (if x < 79 then x + 1 else 0)
                  && CursorRow(now) == (if x < 79 then y else Min(y + 1, 24))
                  && var row := if x == 79 && y == 24 then 23 else y;
                     Picture(now)[80 * row + x] == c)
  {
    AppendIs(rows, c);
    var now, x, y := Append(rows, c, BREAKS, NUM_COLS), |Last(rows)|, CursorRow(rows);
    if c != 10 && c != 13 {
      var row := if x == 79 && y == 24 then 23 else y;
      assert (80 * row + x) / NUM_COLS == row && (80 * row + x) % NUM_COLS == x;
      assert Gone(now) + row == |rows| - 1 && now[|rows| - 1] == Last(rows) + [c];
    }
  }

  // ----- The driver

  class Display {
    const video: array<Byte>
    var screenX: int
    var screenY: int
    ghost var log: Bytes

    ghost predicate Painted(pic: Bytes)
      reads video
    {
      && video.Length == 2 * CELLS && |pic| == CELLS
      && forall i | 0 <= i < CELLS :: video[2 * i] == pic[i] && video[2 * i + 1] == ATTRIB
    }

    ghost predicate CursorAt(rows: seq<Bytes>)
      reads this
    {
      rows != [] && screenY == CursorRow(rows) && screenX == |Last(rows)| < NUM_COLS
    }

    /** The window shows the tail of the log and the cursor stands behind its last byte. */
    ghost predicate Valid()
      reads this, video
    {
      Painted(Picture(Rows(log))) && CursorAt(Rows(log))
    }

    constructor (video: array<Byte>)
      requires video.Length == 2 * CELLS
      ensures this.video == video
    {
      this.video := video;
    }

    method Clear()
      requires video.Length == 2 * CELLS
      modifies this, video
      ensures Valid() && log == []
      ensures screenX == 0 && screenY == 0
      ensures forall k | 0 <= k < 2000 :: video[2 * k] == 32 && video[2 * k + 1] == 7
    {
      var i := 0;
      while i < NUM_ROWS * NUM_COLS
        invariant 0 <= i <= CELLS
        invariant forall k | 0 <= k < i :: video[2 * k] == Spaces(CELLS)[k] && video[2 * k + 1] == ATTRIB
      {
        video[2 * i] := SPACE;
        video[2 * i + 1] := ATTRIB;
        i := i + 1;
      }
      screenX := 0;
      screenY := 0;
      log := [];
      PiecesOfShortLine([], BREAKS, NUM_COLS);
      assert Picture([[]]) == Spaces(CELLS);
    }

    method ScrollUp(ghost pic: Bytes)
      requires Painted(pic)
      modifies video
      ensures Painted(pic[NUM_COLS..] + Spaces(NUM_COLS))
    {
      ghost var up := pic[NUM_COLS..] + Spaces(NUM_COLS);
      var i := 0;
      while i < LAST_ROW * NUM_COLS
        invariant 0 <= i <= LAST_ROW * NUM_COLS
        invariant forall k | 0 <= k < i :: video[2 * k] == up[k] && video[2 * k + 1] == ATTRIB
        invariant forall k | i <= k < CELLS :: video[2 * k] == pic[k] && video[2 * k + 1] == ATTRIB
      {
        assert up[i] == pic[NUM_COLS + i];
        video[2 * i] := video[2 * (NUM_COLS + i)];
        video[2 * i + 1] := video[2 * (NUM_COLS + i) + 1];
        i := i + 1;
      }
      while i < NUM_COLS * NUM_ROWS
        invariant LAST_ROW * NUM_COLS <= i <= CELLS
        invariant forall k | 0 <= k < i :: video[2 * k] == up[k] && video[2 * k + 1] == ATTRIB
      {
        video[2 * i] := SPACE;
        video[2 * i + 1] := ATTRIB;
        i := i + 1;
      }
    }

    method WriteGlyph(at: nat, c: Byte, ghost pic: Bytes)
      requires Painted(pic) && at < CELLS
      modifies video
      ensures Painted(pic[at := c])
    {
      video[2 * at] := c;
      video[2 * at + 1] := ATTRIB;
    }

    /** The branch for a printing byte, up to the scroll test; the cursor may have run off the last row. */
    method PutGlyph(c: Byte, ghost rows: seq<Bytes>) returns (ghost longer: seq<Bytes>)
      requires Painted(Picture(rows)) && CursorAt(rows)
      modifies this, video
      ensures log == old(log) && longer == rows[..|rows| - 1] + [Last(rows) + [c]]
      ensures Painted(Picture(longer))
      ensures screenX == |Last(longer)| % NUM_COLS
      ensures screenY == if |Last(longer)| < NUM_COLS then CursorRow(rows) else (CursorRow(rows) + 1) % NUM_ROWS
    {
      PictureOfLongerRow(rows, c);
      WriteGlyph(NUM_COLS * screenY + screenX, c, Picture(rows));
      screenX := screenX + 1;
      screenY := (screenY + screenX / NUM_COLS) % NUM_ROWS;
      screenX := screenX % NUM_COLS;
      longer := rows[..|rows| - 1] + [Last(rows) + [c]];
    }

    /** The scroll test that ends `putc`. */
    method ScrollTest(ghost pic: Bytes)
      requires Painted(pic)
      modifies this`screenY, video
      ensures screenY == if ScrollsAt(screenX, old(screenY)) then LAST_ROW else old(screenY)
      ensures Painted(if ScrollsAt(screenX, old(screenY)) then pic[NUM_COLS..] + Spaces(NUM_COLS) else pic)
    {
      if screenX == 0 && (screenY > LAST_ROW || screenY == 0) {
        screenY := LAST_ROW;
        ScrollUp(pic);
      }
    }

    /** The same, when the byte has (`opens`) or has not begun a new row below `rows`. */
    method Settle(ghost rows: seq<Bytes>, ghost opens: bool)
      requires rows != [] && Painted(Picture(rows))
      requires !opens ==> CursorAt(rows) && screenX > 0
      requires opens ==> screenX == 0 && screenY in {CursorRow(rows) + 1, (CursorRow(rows) + 1) % NUM_ROWS}
      modifies this, video
      ensures log == old(log)
      ensures var now := if opens then rows + [[]] else rows; Painted(Picture(now)) && CursorAt(now)
    {
      PictureOfNewRow(rows);
      CursorOfNewRow(rows);
      ScrollTest(Picture(rows));
    }

    /** `putc` itself, on a window that shows any rows. */
    method PutByte(c: Byte, ghost rows: seq<Bytes>)
      requires Painted(Picture(rows)) && CursorAt(rows)
      modifies this, video
      ensures log == old(log)
      ensures var now := Append(rows, c, BREAKS, NUM_COLS); Painted(Picture(now)) && CursorAt(now)
    {
      AppendIs(rows, c);
      if c == NEWLINE || c == RETURN {
        screenY := screenY + 1;
        screenX := 0;
        Settle(rows, true);
      } else {
        ghost var longer := PutGlyph(c, rows);
        Settle(longer, |Last(longer)| == NUM_COLS);
      }
    }

    /** Printing, over any history: the window that showed the tail of the log shows the tail of the longer log. */
    method Putc(c: Byte)
      requires Valid()
      modifies this, video
      ensures Valid() && log == old(log) + [c]
      ensures c == 10 || c == 13 ==> screenX == 0 && screenY == Min(old(screenY) + 1, 24)
      ensures c != 10 && c != 13 ==>
                && screenX == (if old(screenX) < 79 then old(screenX) + 1 else 0)
                && screenY == (if old(screenX) < 79 then old(screenY) else Min(old(screenY) + 1, 24))
                && var row := if old(screenX) == 79 && old(screenY) == 24 then 23 else old(screenY);
                   video.Length == 4000 && 0 <= 80 * row + old(screenX) < 2000 && video[2 * (80 * row + old(screenX))] == c
    {
      GlyphIsShown(Rows(log), c);
      PiecesSnoc(log, c, BREAKS, NUM_COLS);
      PutByte(c, Rows(log));
      log := log + [c];
    }
  }

  /** What the window cannot lose: the rows hold everything printed but the line breaks, in order, at most 80 to a row. */
  lemma RowsConserve(log: Bytes)
    ensures Flatten(Rows(log)) == Without(log, BREAKS)
    ensures forall row | row in Rows(log) :: |row| <= NUM_COLS
  {
    PiecesConserve(log, BREAKS, NUM_COLS);
  }
}
