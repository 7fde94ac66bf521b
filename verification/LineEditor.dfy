/**
 Line input: the keyboard interrupt edits a NUL-terminated 128-byte buffer
 around a cursor, Enter closes the line, and terminal_read copies it out. The
 buffer is proved to be a line editor on (line, cursor) pairs.
 */
module LineEditor {
  import opened Text

  const BUFFER_SIZE: nat := 128
  const MAX_LINE: nat := 127
  const LAST_RIGHT: nat := 126

  // ----- The editor

  datatype Editor = Editor(line: Bytes, cursor: nat) {
    predicate Valid() {
      cursor <= |line| <= MAX_LINE && Free(line, {NUL})
    }
  }

  const EMPTY: Editor := Editor([], 0)

  datatype Key = Char(c: Byte) | Tab | Backspace | Left | Right

  function Insert(e: Editor, text: Bytes): Editor
    requires e.cursor <= |e.line|
  {
    Editor(e.line[..e.cursor] + text + e.line[e.cursor..], e.cursor + |text|)
  }

  function Erase(e: Editor): Editor
    requires 0 < e.cursor <= |e.line|
  {
    Editor(e.line[..e.cursor - 1] + e.line[e.cursor..], e.cursor - 1)
  }

  /** What a key does; a full line takes no more text, and Right stops at 126. */
  function Apply(e: Editor, key: Key): Editor
    requires e.cursor <= |e.line|
  {
    match key
    case Char(c) => if |e.line| == MAX_LINE then e else Insert(e, [c])
    case Tab => if |e.line| == MAX_LINE then e else Insert(e, Spaces(4))
    case Backspace => if e.cursor == 0 then e else Erase(e)
    case Left => if e.cursor == 0 then e else e.(cursor := e.cursor - 1)
    case Right => if e.cursor == LAST_RIGHT || e.cursor == |e.line| then e else e.(cursor := e.cursor + 1)
  }

  /** The keys the buffer can take: no key that types a NUL, and Tab only where it fits whole or not at all. */
  predicate Takes(e: Editor, key: Key) {
    match key
    case Char(c) => c != NUL || |e.line| == MAX_LINE
    case Tab => |e.line| + 4 <= MAX_LINE || |e.line| == MAX_LINE
    case _ => true
  }

  predicate TakesAll(e: Editor, keys: seq<Key>)
    decreases |keys|
  {
    e.cursor <= |e.line| && (keys != [] ==> Takes(e, keys[0]) && TakesAll(Apply(e, keys[0]), keys[1..]))
  }

  function ApplyAll(e: Editor, keys: seq<Key>): Editor
    requires TakesAll(e, keys)
    decreases |keys|
  {
    if keys == [] then e else ApplyAll(Apply(e, keys[0]), keys[1..])
  }

  /** What each key does to a line that is `a` before the cursor and `b` behind it. */
  lemma KeyLaws(a: Bytes, b: Bytes, x: Byte)
    requires |a| + |b| <= 127
    ensures |a| + |b| < 127 ==> Apply(Editor(a + b, |a|), Char(x)) == Editor(a + [x] + b, |a| + 1)
    ensures |a| + |b| < 127 ==> Apply(Editor(a + b, |a|), Tab) == Editor(a + [32, 32, 32, 32] + b, |a| + 4)
    ensures |a| + |b| == 127 ==> Apply(Editor(a + b, |a|), Char(x)) == Apply(Editor(a + b, |a|), Tab) == Editor(a + b, |a|)
    ensures Apply(Editor(a + [x] + b, |a| + 1), Backspace) == Editor(a + b, |a|)
    ensures Apply(Editor(b, 0), Backspace) == Apply(Editor(b, 0), Left) == Editor(b, 0)
    ensures Apply(Editor(a + [x] + b, |a| + 1), Left) == Editor(a + [x] + b, |a|)
    ensures |a| < 126 ==> Apply(Editor(a + [x] + b, |a|), Right) == Editor(a + [x] + b, |a| + 1)
    ensures b == [] || |a| == 126 ==> Apply(Editor(a + b, |a|), Right) == Editor(a + b, |a|)
  {
    assert (a + b)[..|a|] == a && (a + b)[|a|..] == b;
    assert Spaces(4) == [32, 32, 32, 32];
    var line := a + [x] + b;
    assert line[..|a|] == a && line[|a| + 1..] == b;
  }

  function Lefts(n: nat): (keys: seq<Key>)
    ensures |keys| == n
  {
    if n == 0 then [] else [Left] + Lefts(n - 1)
  }

  lemma {:induction false} LeftsMove(e: Editor, n: nat)
    requires n <= e.cursor <= |e.line|
    ensures TakesAll(e, Lefts(n)) && ApplyAll(e, Lefts(n)) == Editor(e.line, e.cursor - n)
    decreases n
  {
    if n > 0 {
      assert Lefts(n)[1..] == Lefts(n - 1);
      LeftsMove(Editor(e.line, e.cursor - 1), n - 1);
    }
  }

  /** Keys can be pressed in two goes. */
  lemma {:induction false} ApplyInParts(e: Editor, keys: seq<Key>, more: seq<Key>)
    requires TakesAll(e, keys) && TakesAll(ApplyAll(e, keys), more)
    ensures TakesAll(e, keys + more) && ApplyAll(e, keys + more) == ApplyAll(ApplyAll(e, keys), more)
    decreases |keys|
  {
    if keys == [] {
      assert keys + more == more;
    } else {
      assert (keys + more)[0] == keys[0] && (keys + more)[1..] == keys[1..] + more;
      ApplyInParts(Apply(e, keys[0]), keys[1..], more);
    }
  }

  lemma ApplyOne(e: Editor, key: Key)
    requires e.cursor <= |e.line| && Takes(e, key) && Apply(e, key).cursor <= |Apply(e, key).line|
    ensures TakesAll(e, [key]) && ApplyAll(e, [key]) == Apply(e, key)
  {
    assert [key][1..] == [];
  }

  lemma ApplyIsValid(e: Editor, key: Key)
    requires e.Valid() && Takes(e, key)
    ensures Apply(e, key).Valid()
  {}

  /** Any editing keeps the line within 127 bytes, free of NULs, with the cursor inside it. */
  lemma {:induction false} EditingIsValid(e: Editor, keys: seq<Key>)
    requires e.Valid() && TakesAll(e, keys)
    ensures ApplyAll(e, keys).Valid()
    decreases |keys|
  {
    if keys != [] {
      ApplyIsValid(e, keys[0]);
      EditingIsValid(Apply(e, keys[0]), keys[1..]);
    }
  }

  function Typing(text: Bytes): (keys: seq<Key>)
    ensures |keys| == |text|
  {
    if text == [] then [] else [Char(text[0])] + Typing(text[1..])
  }

  /** Typing a text inserts it at the cursor, wherever that is. */
  lemma {:induction false} TypingInserts(e: Editor, text: Bytes)
    requires e.Valid() && |e.line| + |text| <= MAX_LINE && Free(text, {NUL})
    ensures TakesAll(e, Typing(text)) && ApplyAll(e, Typing(text)) == Insert(e, text)
    decreases |text|
  {
    if text == [] {
      assert e.line[..e.cursor] + [] + e.line[e.cursor..] == e.line;
    } else {
      var next := Insert(e, [text[0]]);
      assert text == [text[0]] + text[1..];
      ApplyIsValid(e, Char(text[0]));
      TypingInserts(next, text[1..]);
      assert Insert(next, text[1..]) == Insert(e, text) by {
        assert next.line[..next.cursor] == e.line[..e.cursor] + [text[0]];
        assert next.line[next.cursor..] == e.line[e.cursor..];
        assert e.line[..e.cursor] + [text[0]] + text[1..] == e.line[..e.cursor] + text;
      }
    }
  }

  function Backspaces(n: nat): (keys: seq<Key>)
    ensures |keys| == n
  {
    if n == 0 then [] else [Backspace] + Backspaces(n - 1)
  }

  /** As many backspaces undo a typed text. */
  lemma {:induction false} BackspacesUndo(e: Editor, text: Bytes)
    requires e.Valid() && |e.line| + |text| <= MAX_LINE
    ensures TakesAll(Insert(e, text), Backspaces(|text|)) && ApplyAll(Insert(e, text), Backspaces(|text|)) == e
    decreases |text|
  {
    if text == [] {
      assert e.line[..e.cursor] + [] + e.line[e.cursor..] == e.line;
    } else {
      var n := |text| - 1;
      var full := Insert(e, text);
      assert Erase(full) == Insert(e, text[..n]) by {
        assert full.line[..full.cursor - 1] == e.line[..e.cursor] + text[..n];
        assert full.line[full.cursor..] == e.line[e.cursor..];
      }
      BackspacesUndo(e, text[..n]);
      assert Backspaces(|text|)[1..] == Backspaces(n);
    }
  }

  /** After a text, as many Lefts as `back` has bytes, and one more byte: that byte stands in front of `back`. */
  lemma GoingBackInserts(front: Bytes, back: Bytes, x: Byte)
    requires |front| + |back| < 127 && Free(front + back, {NUL}) && x != NUL
    ensures var keys := Typing(front + back) + Lefts(|back|) + [Char(x)];
            TakesAll(EMPTY, keys) && ApplyAll(EMPTY, keys) == Editor(front + [x] + back, |front| + 1)
  {
    var text, there := front + back, Editor(front + back, |front|);
    TypingInserts(EMPTY, text);
    assert Insert(EMPTY, text) == Editor(text, |text|);
    LeftsMove(Editor(text, |text|), |back|);
    ApplyInParts(EMPTY, Typing(text), Lefts(|back|));
    KeyLaws(front, back, x);
    ApplyOne(there, Char(x));
    ApplyInParts(EMPTY, Typing(text) + Lefts(|back|), [Char(x)]);
  }

  // ----- The buffer

  /** The buffer holds the line, all later cells are NUL, and `pos` is the cursor. */
  predicate Holds(buf: Bytes, pos: int, e: Editor) {
    && e.Valid() && |buf| == BUFFER_SIZE && pos == e.cursor
    && buf[..|e.line|] == e.line
    && forall i | |e.line| <= i < BUFFER_SIZE :: buf[i] == NUL
  }

  /** Not the buffer of any editor. */
  ghost predicate Broken(buf: Bytes, pos: int) {
    forall e: Editor :: !Holds(buf, pos, e)
  }

  lemma FullTest(buf: Bytes, pos: int, e: Editor)
    requires Holds(buf, pos, e)
    ensures buf[LAST_RIGHT] != NUL <==> |e.line| == MAX_LINE
    ensures buf[0] == NUL <==> e.line == []
    ensures pos < BUFFER_SIZE && (buf[pos] == NUL <==> e.cursor == |e.line|)
    ensures forall i | 0 <= i < |e.line| :: buf[i] == e.line[i] && buf[i] != NUL
  {
    assert forall i | 0 <= i < |e.line| :: buf[i] == e.line[i] && e.line[i] != NUL;
  }

  /** Every byte before the cursor is a byte of the line, and the last cell is NUL. */
  lemma HeldCells(buf: Bytes, pos: nat, e: Editor)
    requires Holds(buf, pos, e)
    ensures forall i | 0 <= i < pos :: buf[i] != NUL
    ensures buf[MAX_LINE] == NUL
    ensures |e.line| > 0 ==> buf[|e.line| - 1] != NUL
  {
    assert forall i | 0 <= i < |e.line| :: buf[i] == e.line[i] && e.line[i] != NUL;
  }

  /** A NUL before the cursor, or a byte in the last cell, fits no line. */
  lemma BrokenBy(buf: Bytes, pos: nat, i: nat)
    requires |buf| == BUFFER_SIZE && i < BUFFER_SIZE
    requires (i < pos && buf[i] == NUL) || (i == MAX_LINE && buf[i] != NUL)
    ensures Broken(buf, pos)
  {
    forall e: Editor ensures !Holds(buf, pos, e) {
      if Holds(buf, pos, e) { HeldCells(buf, pos, e); }
    }
  }

  // ----- Insertion into memory: the buffer and the cells behind it

  /** The first free cell of the buffer from `from` on, or 128. */
  function Gap(mem: Bytes, from: nat): (z: nat)
    requires from <= BUFFER_SIZE <= |mem|
    ensures from <= z <= BUFFER_SIZE && (z < BUFFER_SIZE ==> mem[z] == NUL)
    ensures forall i | from <= i < z :: mem[i] != NUL
    decreases BUFFER_SIZE - from
  {
    if from == BUFFER_SIZE || mem[from] == NUL then from else Gap(mem, from + 1)
  }

  /** The last cell that an insertion at `pos` writes. */
  function LastMoved(mem: Bytes, pos: nat): nat
    requires pos < BUFFER_SIZE <= |mem|
  {
    Min(Gap(mem, pos), MAX_LINE)
  }

  /** Memory after one insertion at any cursor. Without a free cell the last byte is lost; from 128 on the buffer is
      left alone and the cell at the cursor is written if it is NUL. */
  function Typed(mem: Bytes, pos: nat, c: Byte): (after: Bytes)
    requires BUFFER_SIZE <= |mem| && pos < |mem|
    ensures |after| == |mem|
  {
    if pos >= BUFFER_SIZE then (if mem[pos] == NUL then mem[pos := c] else mem)
    else
      var end := LastMoved(mem, pos);
      mem[..pos] + [c] + mem[pos..end] + mem[end + 1..]
  }

  lemma TypedAt(mem: Bytes, pos: nat, c: Byte, k: nat)
    requires BUFFER_SIZE <= |mem| && pos < BUFFER_SIZE && k < |mem|
    ensures Typed(mem, pos, c)[k] == if k < pos || k > LastMoved(mem, pos) then mem[k] else if k == pos then c else mem[k - 1]
  {}

  lemma TypedBehind(mem: Bytes, pos: nat, c: Byte)
    requires BUFFER_SIZE <= |mem| && pos < |mem|
    ensures forall k | BUFFER_SIZE <= k < |mem| :: Typed(mem, pos, c)[k] == if k == pos && mem[k] == NUL then c else mem[k]
  {
    if pos < BUFFER_SIZE {
      forall k | BUFFER_SIZE <= k < |mem| ensures Typed(mem, pos, c)[k] == mem[k] { TypedAt(mem, pos, c, k); }
    }
  }

  predicate HeldIn(mem: Bytes, pos: int, e: Editor) {
    BUFFER_SIZE <= |mem| && Holds(mem[..BUFFER_SIZE], pos, e)
  }

  /** In a held buffer the bytes that move are the rest of the line. */
  lemma HeldGap(mem: Bytes, pos: nat, e: Editor)
    requires HeldIn(mem, pos, e)
    ensures pos < BUFFER_SIZE && Gap(mem, pos) == LastMoved(mem, pos) == |e.line|
    ensures forall i | 0 <= i < BUFFER_SIZE :: mem[i] == if i < |e.line| then e.line[i] else NUL
  {
    var buf := mem[..BUFFER_SIZE];
    FullTest(buf, pos, e);
    assert forall i | 0 <= i < BUFFER_SIZE :: mem[i] == buf[i];
    assert mem[|e.line|] == NUL;
  }

  /** A buffer without a free cell. */
  predicate Crowded(mem: Bytes) {
    BUFFER_SIZE <= |mem| && forall i | 0 <= i < BUFFER_SIZE :: mem[i] != NUL
  }

  lemma CrowdedIsBroken(mem: Bytes, pos: nat)
    requires Crowded(mem)
    ensures Broken(mem[..BUFFER_SIZE], pos)
  {
    BrokenBy(mem[..BUFFER_SIZE], pos, MAX_LINE);
  }

  lemma CrowdedStays(mem: Bytes, pos: nat, c: Byte)
    requires Crowded(mem) && pos < |mem| && c != NUL
    ensures Crowded(Typed(mem, pos, c))
  {
    forall i | 0 <= i < BUFFER_SIZE ensures Typed(mem, pos, c)[i] != NUL {
      if pos < BUFFER_SIZE { TypedAt(mem, pos, c, i); }
    }
  }

  lemma TypedIsHeld(mem: Bytes, pos: nat, e: Editor, c: Byte)
    requires HeldIn(mem, pos, e) && c != NUL && |e.line| < MAX_LINE
    ensures HeldIn(Typed(mem, pos, c), pos + 1, Insert(e, [c]))
  {
    var after, f := Typed(mem, pos, c), Insert(e, [c]);
    HeldGap(mem, pos, e);
    forall k | 0 <= k < BUFFER_SIZE ensures after[k] == if k < |f.line| then f.line[k] else NUL {
      TypedAt(mem, pos, c, k);
    }
    assert after[..BUFFER_SIZE][..|f.line|] == f.line;
  }

  lemma TypedOnFull(mem: Bytes, pos: nat, e: Editor, c: Byte)
    requires HeldIn(mem, pos, e) && c != NUL && |e.line| == MAX_LINE
    ensures Crowded(Typed(mem, pos, c))
  {
    HeldGap(mem, pos, e);
    forall k | 0 <= k < BUFFER_SIZE ensures Typed(mem, pos, c)[k] != NUL {
      TypedAt(mem, pos, c, k);
      assert k < MAX_LINE ==> e.line[k] != NUL;
    }
  }

  /** Inserting into the buffer is inserting into the line exactly when the byte is not NUL and the line not full. */
  lemma InsertionHolds(mem: Bytes, pos: nat, e: Editor, c: Byte)
    requires HeldIn(mem, pos, e)
    ensures pos < |mem|
    ensures c != NUL && |e.line| < MAX_LINE ==> HeldIn(Typed(mem, pos, c), pos + 1, Insert(e, [c]))
    ensures c == NUL || |e.line| == MAX_LINE ==> Broken(Typed(mem, pos, c)[..BUFFER_SIZE], pos + 1)
  {
    HeldGap(mem, pos, e);
    if c == NUL {
      TypedAt(mem, pos, c, pos);
      BrokenBy(Typed(mem, pos, c)[..BUFFER_SIZE], pos + 1, pos);
    } else if |e.line| < MAX_LINE {
      TypedIsHeld(mem, pos, e, c);
    } else {
      TypedOnFull(mem, pos, e, c);
      CrowdedIsBroken(Typed(mem, pos, c), pos + 1);
    }
  }

  // ----- Tab

  lemma InsertSpaces(e: Editor, n: nat)
    requires e.cursor <= |e.line|
    ensures Insert(Insert(e, Spaces(n)), [SPACE]) == Insert(e, Spaces(n + 1))
    ensures Insert(e, Spaces(0)) == e
    ensures |Insert(e, Spaces(n)).line| == |e.line| + n && Insert(e, Spaces(n)).cursor == e.cursor + n
  {
    var f := Insert(e, Spaces(n));
    assert f.line[..f.cursor] == e.line[..e.cursor] + Spaces(n) && f.line[f.cursor..] == e.line[e.cursor..];
    assert e.line[..e.cursor] + Spaces(n) + [SPACE] == e.line[..e.cursor] + Spaces(n + 1);
    assert e.line[..e.cursor] + Spaces(0) + e.line[e.cursor..] == e.line;
  }

  /** Memory after `n` spaces have been typed on the editor `e` over the memory `was`: spaces that fit are one insertion,
      otherwise no cell is free; behind the buffer they reach only the NUL cells that the cursor has passed. */
  predicate Spaced(now: Bytes, was: Bytes, e: Editor, n: nat)
    requires e.cursor <= |e.line|
  {
    && |now| == |was| && BUFFER_SIZE <= |was|
    && (if |e.line| + n <= MAX_LINE then HeldIn(now, e.cursor + n, Insert(e, Spaces(n))) else Crowded(now))
    && forall k | BUFFER_SIZE <= k < |was| ::
         now[k] == if e.cursor <= k < e.cursor + n && was[k] == NUL then SPACE else was[k]
  }

  lemma SpaceHolds(mem: Bytes, pos: nat, f: Editor)
    requires HeldIn(mem, pos, f)
    ensures pos < |mem|
    ensures if |f.line| < MAX_LINE then HeldIn(Typed(mem, pos, SPACE), pos + 1, Insert(f, [SPACE]))
            else Crowded(Typed(mem, pos, SPACE))
  {
    HeldGap(mem, pos, f);
    if |f.line| < MAX_LINE {
      TypedIsHeld(mem, pos, f, SPACE);
    } else {
      TypedOnFull(mem, pos, f, SPACE);
    }
  }

  lemma SpacedOnce(now: Bytes, was: Bytes, e: Editor, n: nat)
    requires e.cursor <= |e.line| && Spaced(now, was, e, n) && e.cursor + n < |was|
    ensures Spaced(Typed(now, e.cursor + n, SPACE), was, e, n + 1)
  {
    TypedBehind(now, e.cursor + n, SPACE);
    if |e.line| + n <= MAX_LINE {
      InsertSpaces(e, n);
      SpaceHolds(now, e.cursor + n, Insert(e, Spaces(n)));
    } else {
      CrowdedStays(now, e.cursor + n, SPACE);
    }
  }

  // ----- Deletion

  /** The buffer after everything behind `at` has moved one cell back. */
  function Unshifted(buf: Bytes, at: nat): Bytes
    requires at < |buf|
  {
    buf[..at] + buf[at + 1..] + [NUL]
  }

  lemma ErasureHolds(buf: Bytes, e: Editor)
    requires Holds(buf, e.cursor, e) && e.cursor > 0
    ensures Holds(Unshifted(buf, e.cursor - 1), e.cursor - 1, Erase(e))
  {
    assert Unshifted(buf, e.cursor - 1)[..|e.line| - 1] == Erase(e).line;
  }

  /** The buffer after Enter. */
  predicate Closed(buf: Bytes, line: Bytes) {
    && |line| < |buf| && buf[..|line| + 1] == line + [NEWLINE]
    && forall i | |line| < i < |buf| :: buf[i] == NUL
  }

  /** What a read of `length` bytes returns: the line and its newline, or as much as fits, still ended by a newline. */
  function LineRead(line: Bytes, length: nat): (s: Bytes)
    requires length >= 1
    ensures |s| == Min(length, |line| + 1) && s[|s| - 1] == 10
    ensures forall i | 0 <= i < |s| - 1 :: s[i] == line[i]
  {
    if length > |line| then line + [NEWLINE] else line[..length - 1] + [NEWLINE]
  }

  /** What the shifting loop puts into cell `k`. */
  function Moved(was: Bytes, pos: nat, c: Byte, k: nat): Byte
    requires pos <= k < |was|
  {
    if k == pos then c else was[k - 1]
  }

  /** The state of the shifting loop at cell `i`. */
  predicate Moving(now: Bytes, was: Bytes, pos: nat, i: nat, c: Byte) {
    && |now| == |was| && pos <= i <= |was|
    && (forall k | pos <= k < i :: now[k] == Moved(was, pos, c, k))
    && now[..pos] == was[..pos] && now[i..] == was[i..]
  }

  lemma MovingOn(now: Bytes, was: Bytes, pos: nat, i: nat, c: Byte)
    requires Moving(now, was, pos, i, c) && i < |was|
    ensures now[i] == was[i] && Moving(now[i := Moved(was, pos, c, i)], was, pos, i + 1, c)
  {
    assert now[i] == now[i..][0] == was[i..][0];
    assert now[i + 1..] == now[i..][1..] == was[i..][1..];
  }

  lemma MovedIsTyped(now: Bytes, was: Bytes, pos: nat, i: nat, c: Byte)
    requires pos < BUFFER_SIZE <= |was| && Moving(now, was, pos, i, c) && i == LastMoved(was, pos) + 1
    ensures now == Typed(was, pos, c)
  {
    var after := Typed(was, pos, c);
    forall k | 0 <= k < |was| ensures now[k] == after[k] {
      TypedAt(was, pos, c, k);
      if k < pos {
        assert now[k] == now[..pos][k];
      } else if k < i {
        assert now[k] == Moved(was, pos, c, k);
      } else {
        assert now[k] == now[i..][k - i];
      }
    }
  }

  lemma ReadParts(line: Bytes, length: int)
    ensures 1 <= length <= |line| + 1 ==> (line + [NEWLINE])[..length][length - 1 := NEWLINE] == LineRead(line, length)
    ensures length > |line| ==> (line + [NEWLINE])[..|line| + 1] == LineRead(line, length)
  {}

  /** The keyboard buffer of one terminal, with the memory that follows it. */
  class KeyBuffer {
    const mem: array<Byte>
    var pos: int
    var status: int
    ghost var editor: Editor

    /** Claimed while the buffer is open; a closed one is cleared before it is edited again. */
    ghost predicate Valid()
      reads this, mem
    {
      mem.Length >= BUFFER_SIZE + 2 && (status == 1 ==> HeldIn(mem[..], pos, editor))
    }

    /** The editor that the next key acts on. */
    ghost function Start(): Editor
      reads this
    {
      if status == 1 then editor else EMPTY
    }

    constructor (behind: Bytes)
      requires |behind| >= 2
      ensures Valid() && status == 0 && fresh(mem) && mem[BUFFER_SIZE..] == behind
    {
      mem := new Byte[BUFFER_SIZE + |behind|](i requires 0 <= i < BUFFER_SIZE + |behind| =>
        if i < BUFFER_SIZE then NUL else behind[i - BUFFER_SIZE]);
      pos, status := 0, 0;
      editor := EMPTY;
    }

    /** `key_buf_clear`. */
    method Clear()
      requires mem.Length >= BUFFER_SIZE
      modifies this`pos, this`editor, mem
      ensures editor == EMPTY && HeldIn(mem[..], pos, EMPTY) && mem[BUFFER_SIZE..] == old(mem[BUFFER_SIZE..])
    {
      pos := 0;
      var j := 0;
      while j < BUFFER_SIZE
        invariant 0 <= j <= BUFFER_SIZE && forall i | 0 <= i < j :: mem[i] == NUL
        invariant mem[BUFFER_SIZE..] == old(mem[BUFFER_SIZE..])
        modifies mem
      {
        mem[j] := NUL;
        j := j + 1;
      }
      editor := EMPTY;
    }

    predicate IsFull()
      requires mem.Length >= BUFFER_SIZE
      reads mem
    {
      mem[BUFFER_SIZE - 2] != NUL
    }

    predicate IsEmpty()
      requires mem.Length >= BUFFER_SIZE
      reads mem
    {
      mem[0] == NUL
    }

    /** The shifting loop of `add_at_cursor`, up to the first NUL it moves or the end of the buffer. */
    method Shift(c: Byte)
      requires mem.Length >= BUFFER_SIZE && 0 <= pos < mem.Length
      modifies mem
      ensures mem[..] == Typed(old(mem[..]), pos, c)
    {
      ghost var was := mem[..];
      ghost var end := if pos < BUFFER_SIZE then Gap(was, pos) else pos;
      if mem[pos] == NUL {
        mem[pos] := c;
      } else {
        var temp1: Byte;
        var temp2 := c;
        var i := pos;
        while i < BUFFER_SIZE
          invariant pos <= i <= end
          invariant i < |was| ==> temp2 == Moved(was, pos, c, i)
          invariant Moving(mem[..], was, pos, i, c)
        {
          MovingOn(mem[..], was, pos, i, c);
          assert mem[..][i] == was[i];
          temp1 := temp2;
          temp2 := mem[i];
          mem[i] := temp1;
          i := i + 1;
          if temp2 == NUL { break; }
        }
        if pos < BUFFER_SIZE {
          MovedIsTyped(mem[..], was, pos, i, c);
        }
      }
    }

    /** `add_at_cursor` on an open buffer. */
    method InsertAtCursor(c: Byte)
      requires mem.Length >= BUFFER_SIZE && 0 <= pos < mem.Length
      modifies this`pos, mem
      ensures pos == old(pos) + 1 && mem[..] == Typed(old(mem[..]), old(pos), c)
    {
      Shift(c);
      pos := pos + 1;
    }

    /** `add_at_cursor`, which opens a closed buffer first. */
    method AddAtCursor(c: Byte)
      requires Valid()
      modifies this, mem
      ensures status == 1
      ensures c != NUL && |old(Start()).line| < MAX_LINE ==> Valid() && editor == Insert(old(Start()), [c])
      ensures c == NUL || |old(Start()).line| == MAX_LINE ==> Broken(mem[..BUFFER_SIZE], pos)
    {
      if status != 1 {
        status := 1;
        Clear();
      }
      InsertionHolds(mem[..], pos, editor, c);
      InsertAtCursor(c);
      editor := Insert(editor, [c]);
    }

    /** `delete_bf_cursor`, without its drawing. */
    method DeleteBeforeCursor()
      requires Valid() && status == 1
      modifies this`pos, this`editor, mem
      ensures Valid() && editor == if old(editor).cursor == 0 then old(editor) else Erase(old(editor))
      ensures mem[BUFFER_SIZE..] == old(mem[BUFFER_SIZE..])
    {
      if pos == 0 { return; }
      ghost var was, e := mem[..BUFFER_SIZE], editor;
      FullTest(was, pos, e);
      pos := pos - 1;
      var i := pos;
      while i < BUFFER_SIZE - 1
        invariant e.cursor - 1 <= i < |e.line|
        invariant forall k | 0 <= k < BUFFER_SIZE :: mem[k] == if k < i then Unshifted(was, e.cursor - 1)[k] else was[k]
        invariant mem[BUFFER_SIZE..] == old(mem[BUFFER_SIZE..])
        modifies mem
      {
        assert mem[i + 1] == was[i + 1];
        mem[i] := mem[i + 1];
        if mem[i] == NUL { break; }
        i := i + 1;
      }
      editor := Erase(e);
      ErasureHolds(was, e);
      assert mem[..BUFFER_SIZE] == Unshifted(was, e.cursor - 1);
    }

    /** `move_cursor`. */
    method MoveCursor(right: bool)
      requires Valid() && status == 1
      modifies this`pos, this`editor
      ensures Valid() && editor == Apply(old(editor), if right then Right else Left)
      ensures editor.line == old(editor).line
      ensures pos == if right then (if old(pos) == 126 || old(pos) == |old(editor).line| then old(pos) else old(pos) + 1)
                     else if old(pos) == 0 then 0 else old(pos) - 1
    {
      FullTest(mem[..BUFFER_SIZE], pos, editor);
      if !right {
        if pos == 0 { return; }
        pos := pos - 1;
      } else {
        if pos == BUFFER_SIZE - 2 || mem[pos] == NUL { return; }
        pos := pos + 1;
      }
      editor := editor.(cursor := pos);
    }

    /** One of the four insertions of Tab, which come without a test in between. */
    method TypeSpace(ghost was: Bytes, ghost n: nat)
      requires mem.Length == |was| && editor.cursor <= |editor.line| && pos == editor.cursor + n < mem.Length
      requires Spaced(mem[..], was, editor, n)
      modifies this`pos, mem
      ensures pos == editor.cursor + n + 1 && Spaced(mem[..], was, editor, n + 1)
    {
      SpacedOnce(mem[..], was, editor, n);
      InsertAtCursor(SPACE);
    }

    /** The Tab branch: one fullness test before four insertions. The buffer is sound afterwards exactly when four cells
        were free, and cells behind it are written only if the cursor stood at 125 or 126 and they are NUL. */
    method TabKey()
      requires Valid() && status == 1 && |editor.line| < MAX_LINE
      modifies this, mem
      ensures |old(editor).line| + 4 <= MAX_LINE ==> Valid() && status == 1 && editor == Insert(old(editor), Spaces(4))
      ensures |old(editor).line| + 4 > MAX_LINE ==> Broken(mem[..BUFFER_SIZE], pos)
      ensures forall k | BUFFER_SIZE <= k < mem.Length ::
                mem[k] == if k < old(pos) + 4 && old(mem[k]) == NUL then SPACE else old(mem[k])
    {
      ghost var was := mem[..];
      InsertSpaces(editor, 0);
      TypeSpace(was, 0);
      TypeSpace(was, 1);
      TypeSpace(was, 2);
      TypeSpace(was, 3);
      if Crowded(mem[..]) { CrowdedIsBroken(mem[..], pos); }
      editor := Insert(editor, Spaces(4));
    }

    /** The branches of `keyboard_handler` for an open buffer, once the scan code is decoded. */
    method Press(key: Key)
      requires Valid() && status == 1
      modifies this, mem
      ensures Takes(old(editor), key) ==> Valid() && status == 1 && editor == Apply(old(editor), key)
      ensures !Takes(old(editor), key) ==> Broken(mem[..BUFFER_SIZE], pos)
    {
      FullTest(mem[..BUFFER_SIZE], pos, editor);
      if key == Left {
        MoveCursor(false);
      } else if key == Right {
        MoveCursor(true);
      } else if key == Backspace {
        if !IsEmpty() && status != 0 {
          DeleteBeforeCursor();
        }
      } else if IsFull() {
      } else if key == Tab {
        TabKey();
      } else {
        AddAtCursor(key.c);
      }
    }

    /** The Enter branch: a newline in the first free cell, and the buffer is closed. */
    method Enter()
      requires Valid() && status == 1
      modifies this`status, mem
      ensures status == 0 && Closed(mem[..BUFFER_SIZE], editor.line)
    {
      HeldGap(mem[..], pos, editor);
      var i := 0;
      while i < BUFFER_SIZE
        invariant 0 <= i <= |editor.line| && mem[..] == old(mem[..])
      {
        assert i < |editor.line| ==> mem[..][i] == editor.line[i];
        if mem[i] == NUL {
          mem[i] := NEWLINE;
          break;
        }
        i := i + 1;
      }
      status := 0;
    }

    /** `terminal_read` up to its wait: an unread closed line is dropped. */
    method OpenForRead()
      requires Valid()
      modifies this, mem
      ensures Valid() && status == 1 && editor == old(Start())
    {
      if status != 1 {
        Clear();
        status := 1;
      }
    }

    /** The loop of `terminal_read`. A full line has no NUL behind it, so there it runs on to the end of the request. */
    method CopyLine(buf: array<Byte>, at: nat, length: int, ghost line: Bytes) returns (count: nat, i: nat)
      requires mem.Length >= BUFFER_SIZE && Closed(mem[..BUFFER_SIZE], line) && |line| <= MAX_LINE && Free(line, {NUL})
      requires buf != mem && at + length <= buf.Length && at <= buf.Length
      modifies buf
      ensures length < 1 ==> i == 0 == count
      ensures length >= 1 ==> i == (if |line| == MAX_LINE then length else Min(length, |line| + 1)) && count == Min(i, |line| + 1)
      ensures buf[at..at + count] == (line + [NEWLINE])[..count]
      ensures forall k | at + count <= k < at + i :: buf[k] == NUL
      ensures forall k | 0 <= k < at || at + i <= k < buf.Length :: buf[k] == old(buf[k])
    {
      count, i := 0, 0;
      ghost var text := line + [NEWLINE];
      while i < length
        invariant (i <= length || i == 0) && count == Min(i, |text|)
        invariant i > |text| ==> |text| == BUFFER_SIZE
        invariant buf[at..at + count] == text[..count]
        invariant forall k | at + count <= k < at + i :: buf[k] == NUL
        invariant forall k | 0 <= k < at || at + i <= k < buf.Length :: buf[k] == old(buf[k])
      {
        if i >= BUFFER_SIZE {
          buf[at + i] := NUL;
          i := i + 1;
          continue;
        }
        assert i < |text| ==> mem[..BUFFER_SIZE][i] == text[i];
        if mem[i] == NUL {
          break;
        }
        buf[at + i] := mem[i];
        count := count + 1;
        i := i + 1;
      }
    }

    /** `terminal_read` after its wait, into the memory `buf` from index `at` on. A request of no bytes still writes one,
        before its buffer. */
    method FinishRead(buf: array<Byte>, at: nat, length: int, ghost line: Bytes) returns (count: nat)
      requires mem.Length >= BUFFER_SIZE && Closed(mem[..BUFFER_SIZE], line) && |line| <= MAX_LINE && Free(line, {NUL})
      requires buf != mem && at + length <= buf.Length && (length == 0 ==> 0 < at) && at <= buf.Length
      modifies buf
      ensures length >= 1 ==> count <= length && buf[at..at + count] == LineRead(line, length)
      ensures length < 1 ==> count == 0
      ensures forall i | 0 <= i < buf.Length && !(at <= i < at + count) :: buf[i] ==
                if length < 1 then (if length == 0 && i == at - 1 then NEWLINE else old(buf[i]))
                else if |line| == MAX_LINE && at <= i < at + length - 1 then NUL  // a full line runs on to the end of the buffer
                else if |line| == MAX_LINE && i == at + length - 1 then NEWLINE
                else old(buf[i])
    {
      var i;
      count, i := CopyLine(buf, at, length, line);
      ReadParts(line, length);
      if i == length {
        ghost var before := buf[at..at + count];
        buf[at + i - 1] := NEWLINE;
        assert buf[at..at + count] == if 1 <= count == length then before[length - 1 := NEWLINE] else before;
      }
    }

    /** `terminal_read`, while the keys `keys` and then Enter are pressed: the program gets the edited line, whatever it
        was edited with and however much it asked for. */
    method TerminalRead(keys: seq<Key>, buf: array?<Byte>, at: nat, length: int) returns (r: int)
      requires Valid() && TakesAll(Start(), keys)
      requires buf != null ==> buf != mem && at + length <= buf.Length && (length == 0 ==> 0 < at) && at <= buf.Length
      modifies this, mem, buf
      ensures buf == null ==> r == -1
      ensures buf != null ==> Valid() && status == 0
      ensures buf != null && length < 1 ==> r == 0
      ensures buf != null && length >= 1 ==>
                0 <= r <= length && buf[at..at + r] == LineRead(ApplyAll(old(Start()), keys).line, length)
    {
      if buf == null { return -1; }
      ghost var e := Start();
      OpenForRead();
      EditingIsValid(e, keys);
      var i := 0;
      assert keys[0..] == keys;
      while i < |keys|
        invariant 0 <= i <= |keys| && Valid() && status == 1
        invariant TakesAll(editor, keys[i..]) && ApplyAll(editor, keys[i..]) == ApplyAll(e, keys)
      {
        assert keys[i..][1..] == keys[i + 1..];
        Press(keys[i]);
        i := i + 1;
      }
      Enter();
      r := FinishRead(buf, at, length, editor.line);
    }
  }

  /** Plain typing on an empty line is the special case that returns the text itself. */
  lemma TypedLineIsRead(text: Bytes, length: nat)
    requires |text| <= MAX_LINE && Free(text, {NUL}) && length > |text|
    ensures TakesAll(EMPTY, Typing(text))
    ensures LineRead(ApplyAll(EMPTY, Typing(text)).line, length) == text + [NEWLINE]
  {
    TypingInserts(EMPTY, text);
    assert Insert(EMPTY, text).line == text;
  }
}
