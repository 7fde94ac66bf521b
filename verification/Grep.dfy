/**
 The grep program. It reads a file through a 1024-byte window: whole lines in
 the window are searched where they lie, and an unfinished one is copied down
 to the start before the next read. Its output is proved equal to "cut the file
 into pieces, keep the matching ones, print each".
 */
module Grep {
  import opened Text
  import opened Strings
  import opened FileSystem

  const BUFSIZE: nat := 1024
  const COLON: Byte := 58
  const BREAKS: set<Byte> := {NEWLINE}

  const OPEN_FAILED: Bytes := [102, 105, 108, 101, 32, 111, 112, 101, 110, 32, 102, 97, 105, 108, 101, 100, NEWLINE]
  const READ_FAILED: Bytes := [102, 105, 108, 101, 32, 114, 101, 97, 100, 32, 102, 97, 105, 108, 101, 100, NEWLINE]

  // ----- Specification

  predicate OccursAt(pat: Bytes, line: Bytes, k: nat) {
    k + |pat| <= |line| && line[k..k + |pat|] == pat
  }

  /** No line is taken to contain the empty pattern. */
  predicate Contains(line: Bytes, pat: Bytes) {
    pat != [] && exists k: nat | k < |line| :: OccursAt(pat, line, k)
  }

  /** A line that is the pattern with anything before and behind it contains it. */
  lemma PartIsContained(a: Bytes, pat: Bytes, b: Bytes)
    requires pat != []
    ensures Contains(a + pat + b, pat)
  {
    var line := a + pat + b;
    assert line[|a|..|a| + |pat|] == pat;
    assert OccursAt(pat, line, |a|);
  }

  /** And there is no other such line. */
  lemma ContainedIsPart(line: Bytes, pat: Bytes) returns (a: Bytes, b: Bytes)
    requires Contains(line, pat)
    ensures pat != [] && line == a + pat + b
  {
    var k: nat :| k < |line| && OccursAt(pat, line, k);
    a, b := line[..k], line[k + |pat|..];
    assert line == line[..k] + line[k..k + |pat|] + line[k + |pat|..];
  }

  lemma ContainsIs(line: Bytes, pat: Bytes)
    ensures Contains(line, pat) <==> pat != [] && exists k | 0 <= k <= |line| :: pat <= line[k..]
  {
    forall k: nat | k <= |line| ensures OccursAt(pat, line, k) <==> pat <= line[k..] {
      assert |pat| <= |line| - k ==> line[k..][..|pat|] == line[k..k + |pat|];
    }
    if pat != [] && exists k | 0 <= k <= |line| :: pat <= line[k..] {
      var k: nat :| k <= |line| && pat <= line[k..];
      assert OccursAt(pat, line, k);
    }
  }

  function Matching(ls: seq<Bytes>, pat: Bytes): seq<Bytes> {
    if ls == [] then []
    else if Contains(ls[0], pat) then [ls[0]] + Matching(ls[1..], pat)
    else Matching(ls[1..], pat)
  }

  function Report(fname: Bytes, ls: seq<Bytes>): Bytes {
    if ls == [] then [] else fname + [COLON] + ls[0] + [NEWLINE] + Report(fname, ls[1..])
  }

  /** What grep prints for a text, by the pieces its window cuts the text into. */
  function Printed(fname: Bytes, pat: Bytes, text: Bytes): Bytes {
    Report(fname, Matching(Pieces(text, BREAKS, BUFSIZE), pat))
  }

  function PrintedLine(fname: Bytes, pat: Bytes, line: Bytes): Bytes {
    Report(fname, Matching([line], pat))
  }

  lemma PrintedLineIs(fname: Bytes, pat: Bytes, line: Bytes)
    ensures PrintedLine(fname, pat, line) == if Contains(line, pat) then fname + [COLON] + line + [NEWLINE] else []
  {
    assert [line][1..] == [] && [line] + [] == [line];
    assert Matching([line], pat) == if Contains(line, pat) then [line] else [];
    var entry := fname + [COLON] + line + [NEWLINE];
    assert Report(fname, [line]) == entry + Report(fname, []) == entry;
  }

  /** Selecting goes line by line. */
  lemma {:induction false} MatchingParts(above: seq<Bytes>, line: Bytes, below: seq<Bytes>, pat: Bytes)
    ensures Matching(above + [line] + below, pat) ==
            Matching(above, pat) + (if Contains(line, pat) then [line] else []) + Matching(below, pat)
    ensures Matching([], pat) == []
  {
    if above == [] {
      assert above + [line] + below == [line] + below && ([line] + below)[1..] == below;
    } else {
      assert (above + [line] + below)[1..] == above[1..] + [line] + below;
      MatchingParts(above[1..], line, below, pat);
    }
  }

  /** And so does printing: name, colon, line, newline. */
  lemma {:induction false} ReportParts(fname: Bytes, above: seq<Bytes>, line: Bytes, below: seq<Bytes>)
    ensures Report(fname, above + [line] + below) ==
            Report(fname, above) + (fname + [58] + line + [10]) + Report(fname, below)
    ensures Report(fname, []) == []
  {
    var entry := fname + [58] + line + [10];
    if above == [] {
      assert above + [line] + below == [line] + below && ([line] + below)[1..] == below;
    } else {
      assert (above + [line] + below)[1..] == above[1..] + [line] + below;
      ReportParts(fname, above[1..], line, below);
    }
  }

  lemma PrintedCons(fname: Bytes, pat: Bytes, line: Bytes, rest: seq<Bytes>)
    ensures Report(fname, Matching([line] + rest, pat)) ==
            PrintedLine(fname, pat, line) + Report(fname, Matching(rest, pat))
  {
    PrintedLineIs(fname, pat, line);
    assert ([line] + rest)[1..] == rest;
    if Contains(line, pat) {
      assert ([line] + Matching(rest, pat))[1..] == Matching(rest, pat);
    }
  }

  /** What the search of one line prints: the line, if the pattern starts anywhere in it. */
  lemma PrintedLineShows(fname: Bytes, pat: Bytes, line: Bytes)
    ensures PrintedLine(fname, pat, line) ==
            if pat != [] && exists k | 0 <= k <= |line| :: pat <= line[k..] then fname + [58] + line + [10] else []
  {
    PrintedLineIs(fname, pat, line);
    ContainsIs(line, pat);
  }

  lemma PrintedAtNewline(fname: Bytes, pat: Bytes, line: Bytes, rest: Bytes)
    requires |line| < BUFSIZE && Free(line, BREAKS)
    ensures Printed(fname, pat, line + [NEWLINE] + rest) == PrintedLine(fname, pat, line) + Printed(fname, pat, rest)
  {
    PiecesAtSeparator(line, NEWLINE, rest, BREAKS, BUFSIZE);
    PrintedCons(fname, pat, line, Pieces(rest, BREAKS, BUFSIZE));
  }

  lemma PrintedAtWidth(fname: Bytes, pat: Bytes, window: Bytes, rest: Bytes)
    requires |window| == BUFSIZE && Free(window, BREAKS)
    ensures Printed(fname, pat, window + rest) == PrintedLine(fname, pat, window) + Printed(fname, pat, rest)
  {
    PiecesAtWidth(window, rest, BREAKS, BUFSIZE);
    PrintedCons(fname, pat, window, Pieces(rest, BREAKS, BUFSIZE));
  }

  lemma PrintedAtEnd(fname: Bytes, pat: Bytes, line: Bytes)
    requires |line| < BUFSIZE && Free(line, BREAKS)
    ensures Printed(fname, pat, line) == PrintedLine(fname, pat, line)
    ensures Printed(fname, pat, []) == []
  {
    PiecesOfShortLine(line, BREAKS, BUFSIZE);
    PiecesOfShortLine([], BREAKS, BUFSIZE);
    assert Matching([[]], pat) == [];
  }

  // ----- The window against whole lines

  lemma {:induction false} MatchingConcat(a: seq<Bytes>, b: seq<Bytes>, pat: Bytes)
    ensures Matching(a + b, pat) == Matching(a, pat) + Matching(b, pat)
  {
    if a == [] {
      assert a + b == b;
    } else {
      assert (a + b)[1..] == a[1..] + b;
      MatchingConcat(a[1..], b, pat);
    }
  }

  lemma ContainsInPart(line: Bytes, from: nat, to: nat, pat: Bytes)
    requires from <= to <= |line| && Contains(line[from..to], pat)
    ensures Contains(line, pat)
  {
    var part := line[from..to];
    var k: nat :| k < |part| && OccursAt(pat, part, k);
    SliceOfSlice(line, from, to, k, k + |pat|);
    assert OccursAt(pat, line, from + k);
  }

  /** The chunks of a line: it stays whole, or is cut and then no chunk matches unless the line does. */
  lemma {:induction false} MatchingChunks(line: Bytes, pat: Bytes)
    ensures |line| <= BUFSIZE ==> Matching(Chunks(line, BUFSIZE), pat) == Matching([line], pat)
    ensures !Contains(line, pat) ==> Matching(Chunks(line, BUFSIZE), pat) == []
    ensures forall m | m in Matching(Chunks(line, BUFSIZE), pat) :: |m| <= BUFSIZE
    decreases |line|
  {
    if |line| >= BUFSIZE {
      var head, tail := line[..BUFSIZE], line[BUFSIZE..];
      MatchingChunks(tail, pat);
      MatchingConcat([head], Chunks(tail, BUFSIZE), pat);
      assert line[BUFSIZE..|line|] == tail;
      if Contains(tail, pat) { ContainsInPart(line, BUFSIZE, |line|, pat); }
      if Contains(head, pat) { ContainsInPart(line, 0, BUFSIZE, pat); }
      if |line| == BUFSIZE {
        assert head == line && tail == [];
      }
    }
  }

  lemma {:induction false} MatchingAllChunks(ls: seq<Bytes>, pat: Bytes)
    ensures (forall l | l in ls && Contains(l, pat) :: |l| <= BUFSIZE) ==>
              Matching(AllChunks(ls, BUFSIZE), pat) == Matching(ls, pat)
    ensures forall m | m in Matching(AllChunks(ls, BUFSIZE), pat) :: |m| <= BUFSIZE
    ensures forall l | l in ls && Contains(l, pat) :: l in Matching(ls, pat)
  {
    if ls != [] {
      MatchingChunks(ls[0], pat);
      MatchingAllChunks(ls[1..], pat);
      MatchingConcat(Chunks(ls[0], BUFSIZE), AllChunks(ls[1..], BUFSIZE), pat);
      MatchingConcat([ls[0]], ls[1..], pat);
      assert [ls[0]] + ls[1..] == ls;
      assert forall l | l in ls :: l == ls[0] || l in ls[1..];
      assert Matching([ls[0]], pat) == if Contains(ls[0], pat) then [ls[0]] else [];
    }
  }

  /** Grep selects exactly the matching lines of a text if and only if every matching line fits the window. */
  lemma WindowedIsLinewise(text: Bytes, pat: Bytes)
    ensures Matching(Pieces(text, {10}, 1024), pat) == Matching(Lines(text, {10}), pat)
       <==> forall l | l in Lines(text, {10}) && Contains(l, pat) :: |l| <= 1024
  {
    MatchingAllChunks(Lines(text, BREAKS), pat);
  }

  // ----- The program

  /** File descriptor 1. */
  class Output {
    var written: Bytes

    method Write(s: Bytes)
      modifies this
      ensures written == old(written) + s
    {
      written := written + s;
    }

    /** `ece391_fdputs` of the string at `data + from`. */
    method Puts(data: array<Byte>, from: nat)
      requires from <= data.Length && Terminated(data[from..])
      modifies this
      ensures written == old(written) + CString(data[from..])
    {
      var len := StrLen(data[from..]);
      Write(data[from..from + len]);
    }
  }

  /** `ece391_strncmp`, which counts `n` down and compares bytes as unsigned. */
  method UserStrNCmp(s1: Bytes, s2: Bytes, n: nat) returns (r: int)
    requires Terminated(s1) && Terminated(s2)
    ensures r == 0 <==> Take(CString(s1), n) == Take(CString(s2), n)
    ensures r != 0 ==> exists k: nat | k < n :: FirstDifference(s1, s2, k) && r == s1[k] as int - s2[k] as int
  {
    ghost var c1, c2 := CString(s1), CString(s2);
    if n == 0 { return 0; }
    var i, left := 0, n;
    while s1[i] == s2[i]
      invariant 0 <= i <= |c1| && i <= |c2|
      invariant left > 0 && i + left == n
      invariant s1[..i] == s2[..i]
      decreases left
    {
      if s1[i] == NUL {
        assert |c1| == i == |c2| && c1 == c2;
        return 0;
      }
      left := left - 1;
      if left == 0 {
        assert Take(c1, n) == s1[..n] && Take(c2, n) == s2[..n];
        return 0;
      }
      i := i + 1;
    }
    DifferenceShows(s1, s2, i, n);
    return s1[i] as int - s2[i] as int;
  }

  /** `ece391_strcpy(data, data + from)`: an overlapping move towards the front, NUL included. */
  method StrCpyDown(data: array<Byte>, from: nat)
    requires 0 < from <= data.Length && Terminated(data[from..])
    modifies data
    ensures var s := old(CString(data[from..]));
            && data[..|s| + 1] == s + [NUL]
            && (forall k | |s| < k < data.Length :: data[k] == old(data[k]))
  {
    ghost var was := data[..];
    ghost var s := CString(was[from..]);
    assert data[from..] == was[from..] && from + |s| < data.Length;
    var k := 0;
    while true
      invariant 0 <= k <= |s| && MovedDown(data[..], was, s, k)
      decreases |s| - k
    {
      MovesOn(data[..], was, from, s, k);
      data[k] := data[from + k];
      if data[k] == NUL { break; }
      k := k + 1;
    }
    assert data[..][..|s| + 1] == data[..|s| + 1];
    MovedAll(data[..], was, |s| + 1);
  }

  lemma MovedAll(now: Bytes, was: Bytes, n: nat)
    requires |now| == |was| && n <= |was| && now[n..] == was[n..]
    ensures forall j | n <= j < |was| :: now[j] == was[j]
  {
    forall j | n <= j < |was| ensures now[j] == was[j] { assert now[j] == now[n..][j - n]; }
  }

  /** `k` bytes of the string have been moved to the front. */
  predicate MovedDown(now: Bytes, was: Bytes, s: Bytes, k: nat) {
    |now| == |was| && k <= |s| && k <= |was| && now[..k] == s[..k] && now[k..] == was[k..]
  }

  lemma MovesOn(now: Bytes, was: Bytes, from: nat, s: Bytes, k: nat)
    requires 0 < from <= |was| && Terminated(was[from..]) && s == CString(was[from..]) && MovedDown(now, was, s, k)
    ensures from + |s| < |was| && now[from + k] == if k < |s| then s[k] else NUL
    ensures k < |s| ==> MovedDown(now[k := s[k]], was, s, k + 1)
    ensures k == |s| ==> now[k := NUL][..k + 1] == s + [NUL] && now[k := NUL][k + 1..] == was[k + 1..]
  {
    assert now[from + k] == now[k..][from] == was[k..][from] == was[from..][k];
    assert now[k + 1..] == now[k..][1..] == was[k..][1..] == was[k + 1..];
  }

  /** The first newline at or after `start`, or `last`. */
  method FindLineEnd(data: array<Byte>, start: nat, last: nat) returns (end: nat)
    requires start <= last < data.Length
    ensures start <= end <= last && Free(data[start..end], BREAKS)
    ensures end < last ==> data[end] == NEWLINE
  {
    end := start;
    while end < last && NEWLINE != data[end]
      invariant start <= end <= last && Free(data[start..end], BREAKS)
    {
      end := end + 1;
    }
  }

  /** The test of the search loop: does the pattern start at `check` of the line that a NUL ends at `end`? */
  method MatchesAt(pat: Bytes, data: array<Byte>, check: nat, end: nat) returns (found: bool)
    requires Free(pat, {NUL}) && check < end < data.Length && data[end] == NUL
    ensures Free(data[check..end], {NUL}) ==> (found <==> pat != [] && OccursAt(pat, data[check..end], 0))
  {
    var s := pat + [NUL];
    CStringIs(s, pat);
    assert data[check..][end - check] == NUL;
    if Free(data[check..end], {NUL}) {
      LineAt(data, check, end);
      OccursByTake(pat, data[check..end]);
      assert data[check..end][0] == data[check];
    }
    if s[0] == data[check] {
      var c := UserStrNCmp(data[check..], s, |pat|);
      return c == 0;
    }
    return false;
  }

  /** Prints the line that a NUL ends at `end`. */
  method PrintLine(fname: Bytes, data: array<Byte>, start: nat, end: nat, out: Output)
    requires start <= end < data.Length && data[end] == NUL
    modifies out
    ensures Free(data[start..end], {NUL}) ==>
              out.written == old(out.written) + (fname + [58] + data[start..end] + [10])
  {
    out.Write(fname);
    out.Write([COLON]);
    assert data[start..][end - start] == NUL;
    if Free(data[start..end], {NUL}) { LineAt(data, start, end); }
    out.Puts(data, start);
    out.Write([NEWLINE]);
  }

  /** The search of one line, which has been ended by a NUL at `end`. */
  method SearchLine(pat: Bytes, fname: Bytes, data: array<Byte>, start: nat, end: nat, out: Output)
    requires Free(pat, {NUL}) && start <= end < data.Length && data[end] == NUL
    modifies out
    ensures Free(data[start..end], {NUL}) ==>
              out.written == old(out.written) + PrintedLine(fname, pat, data[start..end])
  {
    ghost var line := data[start..end];
    ghost var clean := Free(line, {NUL});
    PrintedLineIs(fname, pat, line);
    var check := start;
    while check < end
      invariant start <= check <= end
      invariant out.written == old(out.written)
      invariant clean && pat != [] ==> forall k: nat | k < check - start :: !OccursAt(pat, line, k)
      decreases end - check
    {
      OccursInTail(pat, line, check - start);
      assert data[check..end] == line[check - start..];
      var found := MatchesAt(pat, data, check, end);
      if found {
        PrintLine(fname, data, start, end, out);
        return;
      }
      check := check + 1;
    }
  }

  lemma OccursInTail(pat: Bytes, line: Bytes, k: nat)
    requires k <= |line|
    ensures OccursAt(pat, line[k..], 0) <==> OccursAt(pat, line, k)
  {
    assert |pat| <= |line| - k ==> line[k..][0..|pat|] == line[k..k + |pat|];
  }

  lemma OccursByTake(pat: Bytes, line: Bytes)
    requires line != []
    ensures OccursAt(pat, line, 0) <==> Take(line, |pat|) == Take(pat, |pat|)
    ensures OccursAt(pat, line, 0) && pat != [] ==> pat[0] == line[0]
  {
    assert Take(pat, |pat|) == pat;
    assert |pat| <= |line| ==> line[..|pat|] == line[0..|pat|];
  }

  /** The C string at the start of a NUL-free line is that line. */
  lemma LineAt(data: array<Byte>, start: nat, end: nat)
    requires start <= end < data.Length && data[end] == NUL
    requires Free(data[start..end], {NUL})
    ensures Terminated(data[start..]) && CString(data[start..]) == data[start..end]
  {
    assert data[start..][end - start] == NUL;
    CStringIs(data[start..], data[start..end]);
  }

  /** Taking the first line of the unsearched text `part + rest` that the window shows up to `e`. */
  lemma LineTaken(fname: Bytes, pat: Bytes, part: Bytes, rest: Bytes, e: nat)
    requires e <= |part| <= BUFSIZE && Free(part[..e], BREAKS)
    requires if e < |part| then part[e] == NEWLINE else |part| == BUFSIZE || rest == []
    ensures Printed(fname, pat, part + rest) ==
            PrintedLine(fname, pat, part[..e]) + Printed(fname, pat, part[Min(e + 1, |part|)..] + rest)
  {
    if e < |part| {
      assert part + rest == part[..e] + [NEWLINE] + (part[e + 1..] + rest);
      PrintedAtNewline(fname, pat, part[..e], part[e + 1..] + rest);
    } else {
      assert part[..e] == part && part[|part|..] + rest == rest;
      if |part| == BUFSIZE {
        PrintedAtWidth(fname, pat, part, rest);
      } else {
        assert part + rest == part;
        PrintedAtEnd(fname, pat, part);
      }
    }
  }

  /** The state of the window that the search relies on; bytes from `last` on are stale. */
  ghost predicate Clean(data: array<Byte>, start: nat, last: nat, rest: Bytes)
    requires start <= last <= BUFSIZE && data.Length == BUFSIZE + 1
    reads data
  {
    Free(data[start..last], {NUL}) && data[BUFSIZE] != NEWLINE && (last < BUFSIZE ==> rest == [])
  }

  /** Moves an unfinished line, `data[start..last]`, to the start of the window. */
  method CarryDown(data: array<Byte>, start: nat, last: nat)
    requires data.Length == BUFSIZE + 1 && 0 < start <= last <= BUFSIZE
    modifies data
    ensures data[BUFSIZE] == old(data[BUFSIZE]) || data[BUFSIZE] == NUL
    ensures old(Free(data[start..last], {NUL})) ==> data[..last - start] == old(data[start..last])
  {
    data[last] := NUL;
    assert data[start..][last - start] == NUL;
    ghost var part := data[start..last];
    assert part == old(data[start..last]);
    if Free(part, {NUL}) { LineAt(data, start, last); }
    StrCpyDown(data, start);
    if old(Free(data[start..last], {NUL})) {
      assert data[..last - start] == data[..last - start + 1][..last - start];
    }
  }

  /** Ends the line `data[start..end]` with a NUL and searches it. */
  method SearchNext(pat: Bytes, fname: Bytes, data: array<Byte>, start: nat, end: nat, last: nat, out: Output, ghost rest: Bytes)
    requires Free(pat, {NUL}) && data.Length == BUFSIZE + 1 && start <= end <= last <= BUFSIZE
    requires Free(data[start..end], BREAKS) && (end < last ==> data[end] == NEWLINE)
    requires end == last == BUFSIZE && data[BUFSIZE] != NEWLINE ==> start == 0
    modifies data, out
    ensures old(Clean(data, start, last, rest)) ==>
              var next := Min(end + 1, last);
              && Clean(data, next, last, rest)
              && out.written + Printed(fname, pat, data[next..last] + rest)
                 == old(out.written) + Printed(fname, pat, old(data[start..last]) + rest)
  {
    ghost var part := data[start..last];
    ghost var next := Min(end + 1, last);
    ghost var clean := Clean(data, start, last, rest);
    assert data[start..end] == part[..end - start];
    data[end] := NUL;
    ghost var line, after, before := part[..end - start], part[next - start..], out.written;
    assert data[start..end] == line && data[next..last] == after;
    SearchLine(pat, fname, data, start, end, out);
    if clean {
      assert Free(line, {NUL}) && Free(after, {NUL});
      LineTaken(fname, pat, part, rest, end - start);
      Regroup(before, PrintedLine(fname, pat, line), Printed(fname, pat, after + rest));
    }
  }

  lemma Regroup(a: Bytes, b: Bytes, c: Bytes)
    ensures (a + b) + c == a + (b + c)
  {}

  /** The inner loop: search every line that ends in the window, then keep the unfinished one, if any, at its start. */
  method SearchWindow(pat: Bytes, fname: Bytes, data: array<Byte>, last: nat, cnt: nat, out: Output, ghost rest: Bytes)
    returns (kept: nat)
    requires Free(pat, {NUL}) && data.Length == BUFSIZE + 1 && last <= BUFSIZE
    requires cnt == 0 ==> last < BUFSIZE
    modifies data, out
    ensures kept < BUFSIZE && (cnt == 0 ==> kept == 0)
    ensures old(Clean(data, 0, last, rest)) ==>
              && Free(data[..kept], {NUL}) && data[BUFSIZE] != NEWLINE
              && out.written + Printed(fname, pat, data[..kept] + rest)
                 == old(out.written) + Printed(fname, pat, old(data[0..last]) + rest)
  {
    ghost var clean := Clean(data, 0, last, rest);
    ghost var total := out.written + Printed(fname, pat, data[0..last] + rest);
    var start := 0;
    while true
      invariant start <= last && (start == last ==> start == 0)
      invariant clean ==>
        && Clean(data, start, last, rest)
        && out.written + Printed(fname, pat, data[start..last] + rest) == total
      decreases last - start
    {
      var end := FindLineEnd(data, start, last);
      if NEWLINE != data[end] && 0 != cnt && start != 0 {
        CarryDown(data, start, last);
        return last - start;
      }
      SearchNext(pat, fname, data, start, end, last, out, rest);
      start := end + 1;
      if start >= last {
        assert data[last..last] == data[..0];
        return 0;
      }
    }
  }

  /** One refill of the window: `last` bytes are kept from before, and the read appends to them. */
  lemma WindowRefilled(kept: Bytes, content: Bytes, pos: nat)
    requires |kept| < BUFSIZE && pos <= |content|
    requires Free(kept, {NUL}) && Free(content, {NUL})
    ensures var got := Chunk(content, pos, BUFSIZE - |kept|);
            && kept + content[pos..] == (kept + got) + content[pos + |got|..]
            && Free(kept + got, {NUL})
            && (|kept| + |got| < BUFSIZE ==> content[pos + |got|..] == [])
  {}

  ghost predicate Searchable(img: Image, fd: FileDescriptor, data: array<Byte>)
    requires fd.Sound(img) && data.Length == BUFSIZE + 1
    reads fd, data
  {
    img.WellFormed(fd.inodeIdx) && Free(img.Content(fd.inodeIdx), {NUL}) && data[BUFSIZE] != NEWLINE
  }

  /** One pass of the outer loop's read: unless it fails, the window and the unread file still make up the same text. */
  method Refill(img: Image, fd: FileDescriptor, data: array<Byte>, last: nat) returns (cnt: int)
    requires fd.Sound(img) && data.Length == BUFSIZE + 1 && last < BUFSIZE
    modifies fd, data
    ensures fd.Sound(img) && -1 <= cnt <= BUFSIZE - last
    ensures cnt != -1 ==> fd.filePos == old(fd.filePos) + cnt
    ensures old(Searchable(img, fd, data)) && old(Free(data[..last], {NUL})) ==>
              && cnt != -1 && Searchable(img, fd, data)
              && var rest := img.Content(fd.inodeIdx)[fd.filePos..];
              && Clean(data, 0, last + cnt, rest)
              && data[0..last + cnt] + rest == old(data[..last]) + img.Content(fd.inodeIdx)[old(fd.filePos)..]
  {
    ghost var good := Searchable(img, fd, data) && Free(data[..last], {NUL});
    ghost var was, pos := data[..], fd.filePos;
    cnt := fd.FileRead(img, data, last, BUFSIZE - last);
    if good {
      ghost var content := img.Content(fd.inodeIdx);
      WindowIs(was, data[..], last, Chunk(content, pos, BUFSIZE - last));
      WindowRefilled(was[..last], content, pos);
      assert data[0..last + cnt] == was[..last] + Chunk(content, pos, BUFSIZE - last);
    }
  }

  /** A read behind the kept bytes extends the window, and leaves the cell behind it alone. */
  lemma WindowIs(was: Bytes, now: Bytes, last: nat, got: Bytes)
    requires |was| == |now| == BUFSIZE + 1 && last + |got| <= BUFSIZE && now[last..last + |got|] == got
    requires forall k | 0 <= k < |now| && !(last <= k < BUFSIZE) :: now[k] == was[k]
    ensures now[0..last + |got|] == was[..last] + got && now[BUFSIZE] == was[BUFSIZE]
  {
    assert now[..last] == was[..last];
    assert now[0..last + |got|] == now[..last] + now[last..last + |got|];
  }

  lemma PrintedWholeLines(fname: Bytes, pat: Bytes, text: Bytes)
    requires forall l | l in Lines(text, {10}) && Contains(l, pat) :: |l| <= 1024
    ensures Printed(fname, pat, text) == Report(fname, Matching(Lines(text, {10}), pat))
  {
    WindowedIsLinewise(text, pat);
  }

  /** `do_one_file`. `fd` is what open returned (null: it failed) and `data` the uninitialised local buffer. */
  method DoOneFile(pat: Bytes, fname: Bytes, img: Image, fd: FileDescriptor?, data: array<Byte>, out: Output)
    returns (r: int)
    requires Free(pat, {NUL}) && data.Length == BUFSIZE + 1
    requires fd != null ==> fd.Sound(img) && fd.filePos == 0
    modifies fd, data, out
    ensures fd == null ==> r == -1 && out.written == old(out.written) + OPEN_FAILED
    ensures fd != null && old(Searchable(img, fd, data)) ==>
              r == 0 && out.written == old(out.written) + Printed(fname, pat, img.Content(fd.inodeIdx))
    ensures fd != null && old(Searchable(img, fd, data)) ==>
              var lines := Lines(img.Content(fd.inodeIdx), {10});
              (forall l | l in lines && Contains(l, pat) :: |l| <= 1024) ==>
                out.written == old(out.written) + Report(fname, Matching(lines, pat))
  {
    if fd == null {
      out.Write(OPEN_FAILED);
      return -1;
    }
    ghost var content: Bytes := if Searchable(img, fd, data) then img.Content(fd.inodeIdx) else [];
    r := SearchFile(pat, fname, img, fd, data, out);
    if forall l | l in Lines(content, {10}) && Contains(l, pat) :: |l| <= 1024 {
      PrintedWholeLines(fname, pat, content);
    }
  }

  /** Its loop over the reads. */
  method SearchFile(pat: Bytes, fname: Bytes, img: Image, fd: FileDescriptor, data: array<Byte>, out: Output)
    returns (r: int)
    requires Free(pat, {NUL}) && data.Length == BUFSIZE + 1
    requires fd.Sound(img) && fd.filePos == 0
    modifies fd, data, out
    ensures old(Searchable(img, fd, data)) ==>
              r == 0 && out.written == old(out.written) + Printed(fname, pat, img.Content(fd.inodeIdx))
  {
    ghost var good := Searchable(img, fd, data);
    ghost var content: Bytes := if good then img.Content(fd.inodeIdx) else [];
    ghost var total := out.written + Printed(fname, pat, content);
    var last: nat := 0;
    assert data[..0] + content[0..] == content;
    while true
      invariant last < BUFSIZE && fd.Sound(img)
      invariant good ==>
        && Searchable(img, fd, data) && Free(data[..last], {NUL})
        && out.written + Printed(fname, pat, data[..last] + content[fd.filePos..]) == total
      decreases img.inodes[fd.inodeIdx].length - fd.filePos
    {
      var cnt := Refill(img, fd, data, last);
      if cnt == -1 {
        out.Write(READ_FAILED);
        return -1;
      }
      ghost var rest: Bytes := if good then content[fd.filePos..] else [];
      ghost var filled := data[0..last + cnt];
      if good {
        assert out.written + Printed(fname, pat, filled + rest) == total;
      }
      last := SearchWindow(pat, fname, data, last + cnt, cnt, out, rest);
      if cnt == 0 {
        if good {
          assert rest == [] && data[..0] + rest == [];
          PrintedAtEnd(fname, pat, []);
        }
        return 0;
      }
    }
  }
}
