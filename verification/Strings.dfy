/**
 NUL-terminated strings as the C library routines see them: a stretch of
 memory that holds a NUL somewhere, denoting the bytes before the first one.
 */
module Strings {
  import opened Text

  predicate Terminated(mem: Bytes) {
    exists i | 0 <= i < |mem| :: mem[i] == NUL
  }

  /** The string stored at the start of `mem`. */
  function CString(mem: Bytes): (s: Bytes)
    ensures |s| <= |mem| && s == mem[..|s|]
    ensures Free(s, {NUL})
    ensures |s| < |mem| ==> mem[|s|] == NUL
    ensures Terminated(mem) ==> |s| < |mem|
  {
    if mem == [] || mem[0] == NUL then []
    else
      var rest := CString(mem[1..]);
      assert Terminated(mem) ==> Terminated(mem[1..]) by {
        if Terminated(mem) {
          var i :| 0 <= i < |mem| && mem[i] == NUL;
          assert mem[1..][i - 1] == NUL;
        }
      }
      [mem[0]] + rest
  }

  /** The stored string is determined by its bytes and the NUL behind them. */
  lemma CStringIs(mem: Bytes, s: Bytes)
    requires |s| < |mem| && mem[..|s|] == s && Free(s, {NUL}) && mem[|s|] == NUL
    ensures CString(mem) == s
  {
    var t := CString(mem);
    assert forall i | 0 <= i < |t| :: t[i] == mem[i] && mem[i] != NUL;
    assert forall i | 0 <= i < |s| :: s[i] == mem[i] && mem[i] != NUL;
  }

  /** A string that runs on into whatever comes next. */
  lemma {:induction false} CStringOfConcat(front: Bytes, rest: Bytes)
    requires Free(front, {NUL})
    ensures CString(front + rest) == front + CString(rest)
  {
    if front == [] {
      assert front + rest == rest;
    } else {
      assert (front + rest)[1..] == front[1..] + rest;
      CStringOfConcat(front[1..], rest);
    }
  }

  lemma CStringBeforeNul(window: Bytes, rest: Bytes)
    ensures CString(window + [NUL] + rest) == CString(window)
  {
    var mem, s := window + [NUL] + rest, CString(window);
    assert mem[..|s|] == window[..|s|];
    assert mem[|s|] == NUL;
    CStringIs(mem, s);
  }

  /** `strlen`. */
  method StrLen(mem: Bytes) returns (len: nat)
    requires Terminated(mem)
    ensures len == |CString(mem)|
  {
    len := 0;
    while mem[len] != NUL
      invariant len <= |CString(mem)|
      decreases |mem| - len
    {
      len := len + 1;
    }
  }

  function Take(s: Bytes, n: nat): Bytes {
    s[..Min(n, |s|)]
  }

  /** What strncpy leaves in a buffer: the first `n` bytes of a string, padded with NULs up to `n`. */
  function Padded(buf: Bytes, s: Bytes, n: nat): (after: Bytes)
    requires n <= |buf|
    ensures |after| == |buf|
    ensures forall i | 0 <= i < |buf| :: after[i] == if i < n then (if i < |s| then s[i] else NUL) else buf[i]
  {
    seq(|buf|, i requires 0 <= i < |buf| => if i < n then (if i < |s| then s[i] else NUL) else buf[i])
  }

  /** `strncpy`. */
  method StrNCpy(dest: array<Byte>, src: Bytes, n: nat)
    requires Terminated(src) && n <= dest.Length
    modifies dest
    ensures dest[..] == Padded(old(dest[..]), CString(src), n)
  {
    ghost var was, s := dest[..], CString(src);
    var i := 0;
    while src[i] != NUL && i < n
      invariant 0 <= i <= n && i <= |s|
      invariant forall k | 0 <= k < dest.Length :: dest[k] == if k < i then s[k] else was[k]
      decreases n - i
    {
      dest[i] := src[i];
      i := i + 1;
    }
    assert i == n || i == |s|;
    while i < n
      invariant 0 <= i <= n
      invariant i < n ==> |s| <= i
      invariant forall k | 0 <= k < dest.Length :: dest[k] == if k < i then Padded(was, s, n)[k] else was[k]
    {
      dest[i] := NUL;
      i := i + 1;
    }
    assert dest[..] == Padded(was, s, n);
  }

  /** A byte as a signed char. */
  function Signed8(b: Byte): (v: int)
    ensures -128 <= v < 128 && (v - b as int) % 256 == 0
  {
    if b < 128 then b as int else b as int - 256
  }

  /** `k` is the first place at which two stored strings differ. */
  predicate FirstDifference(s1: Bytes, s2: Bytes, k: nat) {
    k < |s1| && k < |s2| && s1[..k] == s2[..k] && s1[k] != s2[k] && Free(s1[..k], {NUL})
  }

  lemma DifferenceShows(s1: Bytes, s2: Bytes, k: nat, n: nat)
    requires Terminated(s1) && Terminated(s2) && k < n && k < |s1| && k < |s2|
    requires k <= |CString(s1)| && k <= |CString(s2)| && s1[..k] == s2[..k] && s1[k] != s2[k]
    ensures FirstDifference(s1, s2, k) && Take(CString(s1), n) != Take(CString(s2), n)
  {
    var c1, c2 := CString(s1), CString(s2);
    assert forall i | 0 <= i < k :: s1[..k][i] == c1[i];
    if k < |c1| && k < |c2| {
      assert Take(c1, n)[k] == s1[k] && Take(c2, n)[k] == s2[k];
    } else {
      assert |Take(c1, n)| != |Take(c2, n)|;
    }
  }

  /** `strncmp`: zero exactly when the two strings agree on their first `n` bytes, and otherwise the difference of the
      first two bytes that differ, as signed characters. */
  method StrNCmp(s1: Bytes, s2: Bytes, n: nat) returns (r: int)
    requires Terminated(s1) && Terminated(s2)
    ensures r == 0 <==> Take(CString(s1), n) == Take(CString(s2), n)
    ensures r != 0 ==> exists k: nat | k < n :: FirstDifference(s1, s2, k) && r == Signed8(s1[k]) - Signed8(s2[k])
  {
    ghost var c1, c2 := CString(s1), CString(s2);
    var i := 0;
    while i < n
      invariant 0 <= i <= n && i <= |c1| && i <= |c2|
      invariant s1[..i] == s2[..i]
    {
      if s1[i] != s2[i] || s1[i] == NUL {
        if s1[i] == s2[i] {
          assert c1 == s1[..i] == s2[..i] == c2;
        } else {
          DifferenceShows(s1, s2, i, n);
        }
        return Signed8(s1[i]) - Signed8(s2[i]);
      }
      i := i + 1;
    }
    assert Take(c1, n) == s1[..n] && Take(c2, n) == s2[..n];
    return 0;
  }
}
