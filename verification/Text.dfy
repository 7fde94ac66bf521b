/**
 Byte strings, and the two ways the system cuts them up: at separators into
 lines, and at a fixed width into chunks. The screen driver wraps its output at
 80 columns and the grep program slides a 1024-byte window over a file; both
 are specified by `Pieces`.
 */
module Text {

  newtype Byte = b: int | 0 <= b < 256

  type Bytes = seq<Byte>

  const NUL: Byte := 0
  const NEWLINE: Byte := 10
  const RETURN: Byte := 13
  const SPACE: Byte := 32

  datatype Option<+T> = None | Some(value: T)

  function Min(a: int, b: int): int {
    if a <= b then a else b
  }

  lemma SliceOfSlice(s: Bytes, a: nat, b: nat, c: nat, d: nat)
    requires a <= b <= |s| && c <= d <= b - a
    ensures s[a..b][c..d] == s[a + c..a + d]
  {
    forall k | 0 <= k < d - c ensures s[a..b][c..d][k] == s[a + c..a + d][k] {}
  }

  function Spaces(n: nat): (s: Bytes)
    ensures |s| == n && forall i | 0 <= i < n :: s[i] == 32
  {
    seq(n, _ => SPACE)
  }

  predicate Free(s: Bytes, bad: set<Byte>) {
    forall i | 0 <= i < |s| :: s[i] !in bad
  }

  /** The lines of `s`: its maximal runs of non-separators, in order. */
  function Lines(s: Bytes, seps: set<Byte>): (ls: seq<Bytes>)
    ensures |ls| > 0
  {
    if s == [] then [[]]
    else
      var rest := Lines(s[1..], seps);
      if s[0] in seps then [[]] + rest
      else [[s[0]] + rest[0]] + rest[1..]
  }

  /** Cuts a line eagerly: a chunk is closed as soon as it holds `w` bytes, so the last one is always short. */
  function Chunks(line: Bytes, w: nat): (cs: seq<Bytes>)
    requires w > 0
    ensures |cs| > 0
    decreases |line|
  {
    if |line| < w then [line] else [line[..w]] + Chunks(line[w..], w)
  }

  function AllChunks(ls: seq<Bytes>, w: nat): seq<Bytes>
    requires w > 0
  {
    if ls == [] then [] else Chunks(ls[0], w) + AllChunks(ls[1..], w)
  }

  function Pieces(s: Bytes, seps: set<Byte>, w: nat): seq<Bytes>
    requires w > 0
  {
    AllChunks(Lines(s, seps), w)
  }

  function Flatten(ls: seq<Bytes>): Bytes {
    if ls == [] then [] else ls[0] + Flatten(ls[1..])
  }

  function Without(s: Bytes, seps: set<Byte>): Bytes {
    if s == [] then []
    else if s[0] in seps then Without(s[1..], seps)
    else [s[0]] + Without(s[1..], seps)
  }

  // ----- Reading a text from the front

  lemma {:induction false} LinesPrefix(line: Bytes, rest: Bytes, seps: set<Byte>)
    requires Free(line, seps)
    ensures Lines(line + rest, seps) == [line + Lines(rest, seps)[0]] + Lines(rest, seps)[1..]
  {
    if line == [] {
      assert line + rest == rest;
      assert line + Lines(rest, seps)[0] == Lines(rest, seps)[0];
    } else {
      assert (line + rest)[1..] == line[1..] + rest;
      LinesPrefix(line[1..], rest, seps);
      assert [line[0]] + (line[1..] + Lines(rest, seps)[0]) == line + Lines(rest, seps)[0];
    }
  }

  /** A separator ends a line: what follows it is cut up on its own. */
  lemma PiecesAtSeparator(line: Bytes, sep: Byte, rest: Bytes, seps: set<Byte>, w: nat)
    requires w > 0 && |line| < w && Free(line, seps) && sep in seps
    ensures Pieces(line + [sep] + rest, seps, w) == [line] + Pieces(rest, seps, w)
  {
    LinesPrefix(line, [sep] + rest, seps);
    assert line + [sep] + rest == line + ([sep] + rest);
    assert ([sep] + rest)[1..] == rest;
    assert Lines([sep] + rest, seps) == [[]] + Lines(rest, seps);
    assert Lines(line + [sep] + rest, seps) == [line] + Lines(rest, seps) by {
      assert line + [] == line;
    }
  }

  /** A full window without a separator is a chunk of its own. */
  lemma PiecesAtWidth(window: Bytes, rest: Bytes, seps: set<Byte>, w: nat)
    requires w > 0 && |window| == w && Free(window, seps)
    ensures Pieces(window + rest, seps, w) == [window] + Pieces(rest, seps, w)
  {
    LinesPrefix(window, rest, seps);
    var ls := Lines(rest, seps);
    assert (window + ls[0])[..w] == window && (window + ls[0])[w..] == ls[0];
    assert ([window + ls[0]] + ls[1..])[1..] == ls[1..];
    assert Pieces(window + rest, seps, w) == ([window] + Chunks(ls[0], w)) + AllChunks(ls[1..], w);
  }

  lemma PiecesOfShortLine(line: Bytes, seps: set<Byte>, w: nat)
    requires w > 0 && |line| < w && Free(line, seps)
    ensures Pieces(line, seps, w) == [line]
  {
    LinesPrefix(line, [], seps);
    assert line + [] == line;
    assert Lines([], seps) == [[]];
    assert Lines(line, seps) == [line];
    assert AllChunks([line][1..], w) == [];
  }

  // ----- Extending a text at the back

  function Extend(ls: seq<Bytes>, c: Byte, seps: set<Byte>): seq<Bytes>
    requires ls != []
  {
    if c in seps then ls + [[]] else ls[..|ls| - 1] + [ls[|ls| - 1] + [c]]
  }

  lemma ExtendAfter(line: Bytes, ls: seq<Bytes>, c: Byte, seps: set<Byte>)
    requires ls != []
    ensures Extend([line] + ls, c, seps) == [line] + Extend(ls, c, seps)
  {
    assert ([line] + ls)[..|ls|] == [line] + ls[..|ls| - 1];
  }

  lemma ExtendFirst(a: Byte, ls: seq<Bytes>, c: Byte, seps: set<Byte>)
    requires ls != []
    ensures var more := Extend(ls, c, seps);
            Extend([[a] + ls[0]] + ls[1..], c, seps) == [[a] + more[0]] + more[1..]
  {
    if |ls| == 1 {
      assert [a] + (ls[0] + [c]) == ([a] + ls[0]) + [c];
    } else {
      ExtendAfter([a] + ls[0], ls[1..], c, seps);
      ExtendAfter(ls[0], ls[1..], c, seps);
      assert ls == [ls[0]] + ls[1..];
    }
  }

  lemma {:induction false} LinesSnoc(s: Bytes, c: Byte, seps: set<Byte>)
    ensures Lines(s + [c], seps) == Extend(Lines(s, seps), c, seps)
  {
    if s == [] {
      assert s + [c] == [c] && [c][1..] == [];
      assert [c] + [] == [c] == [] + [c];
    } else {
      assert (s + [c])[1..] == s[1..] + [c];
      LinesSnoc(s[1..], c, seps);
      ExtendAfter([], Lines(s[1..], seps), c, seps);
      ExtendFirst(s[0], Lines(s[1..], seps), c, seps);
    }
  }

  lemma {:induction false} ChunksSnoc(line: Bytes, c: Byte, w: nat)
    requires w > 0
    ensures var cs := Chunks(line, w); var last := |cs| - 1;
            |cs[last]| < w &&
            Chunks(line + [c], w) ==
            if |cs[last]| + 1 < w then cs[..last] + [cs[last] + [c]]
            else cs[..last] + [cs[last] + [c], []]
    decreases |line|
  {
    if |line| < w {
      if |line| + 1 == w {
        assert (line + [c])[..w] == line + [c] && (line + [c])[w..] == [];
      }
    } else {
      var head, tail := line[..w], Chunks(line[w..], w);
      assert (line + [c])[..w] == head && (line + [c])[w..] == line[w..] + [c];
      ChunksSnoc(line[w..], c, w);
      assert ([head] + tail)[..|tail|] == [head] + tail[..|tail| - 1];
    }
  }

  lemma {:induction false} AllChunksSnoc(ls: seq<Bytes>, line: Bytes, w: nat)
    requires w > 0
    ensures AllChunks(ls + [line], w) == AllChunks(ls, w) + Chunks(line, w)
  {
    if ls == [] {
      assert ls + [line] == [line];
      assert AllChunks([line][1..], w) == [];
    } else {
      assert (ls + [line])[1..] == ls[1..] + [line];
      AllChunksSnoc(ls[1..], line, w);
    }
  }

  /** How one more byte changes a cut-up text: it opens a piece, or extends the last one and closes it when full. */
  function Append(ps: seq<Bytes>, c: Byte, seps: set<Byte>, w: nat): seq<Bytes>
    requires |ps| > 0
  {
    var last := |ps| - 1;
    if c in seps then ps + [[]]
    else if |ps[last]| + 1 < w then ps[..last] + [ps[last] + [c]]
    else ps[..last] + [ps[last] + [c], []]
  }

  lemma AppendAfter(a: seq<Bytes>, b: seq<Bytes>, c: Byte, seps: set<Byte>, w: nat)
    requires |b| > 0
    ensures Append(a + b, c, seps, w) == a + Append(b, c, seps, w)
  {
    assert (a + b)[..|a + b| - 1] == a + b[..|b| - 1];
  }

  lemma NewLine(ls: seq<Bytes>, c: Byte, seps: set<Byte>, w: nat)
    requires w > 0 && ls != [] && c in seps
    ensures AllChunks(ls, w) != []
    ensures AllChunks(ls + [[]], w) == Append(AllChunks(ls, w), c, seps, w)
  {
    AllChunksSnoc(ls, [], w);
  }

  lemma LongerLine(front: seq<Bytes>, line: Bytes, c: Byte, seps: set<Byte>, w: nat)
    requires w > 0
    ensures var ps := AllChunks(front + [line], w);
            && ps != [] && |ps[|ps| - 1]| < w
            && (c !in seps ==> AllChunks(front + [line + [c]], w) == Append(ps, c, seps, w))
  {
    AllChunksSnoc(front, line, w);
    ChunksSnoc(line, c, w);
    AllChunksSnoc(front, line + [c], w);
    AppendAfter(AllChunks(front, w), Chunks(line, w), c, seps, w);
  }

  lemma PiecesSnoc(s: Bytes, c: Byte, seps: set<Byte>, w: nat)
    requires w > 0
    ensures var ps := Pieces(s, seps, w);
            ps != [] && |ps[|ps| - 1]| < w && Pieces(s + [c], seps, w) == Append(ps, c, seps, w)
  {
    var ls := Lines(s, seps);
    var front, line := ls[..|ls| - 1], ls[|ls| - 1];
    assert ls == front + [line];
    LinesSnoc(s, c, seps);
    LongerLine(front, line, c, seps, w);
    if c in seps {
      NewLine(ls, c, seps, w);
    }
  }

  // ----- Nothing is lost

  lemma {:induction false} FlattenConcat(a: seq<Bytes>, b: seq<Bytes>)
    ensures Flatten(a + b) == Flatten(a) + Flatten(b)
  {
    if a == [] {
      assert a + b == b;
    } else {
      assert (a + b)[1..] == a[1..] + b;
      FlattenConcat(a[1..], b);
    }
  }

  lemma {:induction false} WithoutSnoc(s: Bytes, c: Byte, seps: set<Byte>)
    ensures Without(s + [c], seps) == Without(s, seps) + if c in seps then [] else [c]
  {
    if s == [] {
      assert s + [c] == [c];
    } else {
      assert (s + [c])[1..] == s[1..] + [c];
      WithoutSnoc(s[1..], c, seps);
    }
  }

  lemma FlattenOne(line: Bytes)
    ensures Flatten([line]) == line
  {
    assert [line][1..] == [];
  }

  lemma FlattenOpen(ps: seq<Bytes>)
    ensures Flatten(ps + [[]]) == Flatten(ps)
  {
    FlattenConcat(ps, [[]]);
    FlattenOne([]);
  }

  lemma FlattenAppend(front: seq<Bytes>, last: Bytes, c: Byte, seps: set<Byte>, w: nat)
    ensures Flatten(Append(front + [last], c, seps, w))
         == Flatten(front + [last]) + if c in seps then [] else [c]
  {
    var ps, grown := front + [last], front + [last + [c]];
    assert ps[..|ps| - 1] == front;
    FlattenGrow(front, last, c);
    FlattenOpen(ps);
    FlattenOpen(grown);
    assert front + [last + [c], []] == grown + [[]];
  }

  lemma FlattenGrow(front: seq<Bytes>, last: Bytes, c: Byte)
    ensures Flatten(front + [last + [c]]) == Flatten(front + [last]) + [c]
  {
    FlattenConcat(front, [last]);
    FlattenConcat(front, [last + [c]]);
    FlattenOne(last);
    FlattenOne(last + [c]);
  }

  lemma AppendConserves(ps: seq<Bytes>, c: Byte, seps: set<Byte>, w: nat)
    requires ps != [] && |ps[|ps| - 1]| < w && forall p | p in ps :: |p| <= w
    ensures Flatten(Append(ps, c, seps, w)) == Flatten(ps) + if c in seps then [] else [c]
    ensures forall p | p in Append(ps, c, seps, w) :: |p| <= w
  {
    var front, last := ps[..|ps| - 1], ps[|ps| - 1];
    assert ps == front + [last];
    FlattenAppend(front, last, c, seps, w);
    assert forall p | p in front :: p in ps;
  }

  lemma SnocConserves(t: Bytes, c: Byte, seps: set<Byte>, w: nat)
    requires w > 0
    requires Flatten(Pieces(t, seps, w)) == Without(t, seps) && forall p | p in Pieces(t, seps, w) :: |p| <= w
    ensures Flatten(Pieces(t + [c], seps, w)) == Without(t + [c], seps)
    ensures forall p | p in Pieces(t + [c], seps, w) :: |p| <= w
  {
    PiecesSnoc(t, c, seps, w);
    WithoutSnoc(t, c, seps);
    AppendConserves(Pieces(t, seps, w), c, seps, w);
  }

  /** Cutting conserves the text: the pieces hold its non-separators, each once and in order. */
  lemma {:induction false} PiecesConserve(s: Bytes, seps: set<Byte>, w: nat)
    requires w > 0
    ensures Flatten(Pieces(s, seps, w)) == Without(s, seps)
    ensures forall p | p in Pieces(s, seps, w) :: |p| <= w
  {
    if s == [] {
      PiecesOfShortLine([], seps, w);
      FlattenOne([]);
    } else {
      var t, c := s[..|s| - 1], s[|s| - 1];
      assert t + [c] == s;
      PiecesConserve(t, seps, w);
      SnocConserves(t, c, seps, w);
    }
  }
}
