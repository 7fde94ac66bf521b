/**
 Printing numbers: itoa writes the digits lowest first and reverses them in
 place; the alternate hexadecimal form pads them with zeros to eight.
 */
module Numerals {
  import opened Strings
  import opened Text

  const ZERO: Byte := 48

  function Digit(d: nat): Byte
    requires d < 36
  {
    if d < 10 then (48 + d) as Byte else (55 + d) as Byte
  }

  /** A digit is a figure or a capital letter, in the order 0123456789ABC and so on. */
  lemma DigitIs(d: nat)
    requires d < 36
    ensures Digit(d) == [48, 49, 50, 51, 52, 53, 54, 55, 56, 57,
                         65, 66, 67, 68, 69, 70, 71, 72, 73, 74, 75, 76, 77,
                         78, 79, 80, 81, 82, 83, 84, 85, 86, 87, 88, 89, 90][d]
  {}

  /** Nothing but figures and capital letters, the first `radix` of them. */
  predicate AllDigits(s: Bytes, radix: nat) {
    forall i | 0 <= i < |s| ::
      48 <= s[i] as int < 48 + Min(radix, 10) || (65 <= s[i] as int < 55 + radix)
  }

  /** And that determines the numeral: those characters with that value, and no leading zero unless the value is 0. */
  lemma {:induction false} NumeralIsDigits(value: nat, radix: nat)
    requires 2 <= radix <= 36
    ensures AllDigits(Numeral(value, radix), radix)
    decreases value
  {
    if value >= radix {
      NumeralStep(value, radix);
      NumeralIsDigits(value / radix, radix);
    }
  }

  function DigitValue(c: Byte): int {
    if c <= 57 then c as int - 48 else c as int - 55
  }

  /** The number that a digit string denotes. */
  function Eval(s: Bytes, radix: nat): int {
    if s == [] then 0 else Eval(s[..|s| - 1], radix) * radix + DigitValue(s[|s| - 1])
  }

  function Numeral(value: nat, radix: nat): (s: Bytes)
    requires 2 <= radix <= 36
    ensures s != [] && Free(s, {NUL})
  {
    if value < radix then [Digit(value)] else Numeral(value / radix, radix) + [Digit(value % radix)]
  }

  lemma NumeralStep(value: nat, radix: nat)
    requires 2 <= radix <= value && radix <= 36
    ensures 0 < value / radix < value && value == value / radix * radix + value % radix
    ensures Numeral(value, radix) == Numeral(value / radix, radix) + [Digit(value % radix)]
  {}

  lemma EvalSnoc(s: Bytes, c: Byte, radix: nat)
    ensures Eval(s + [c], radix) == Eval(s, radix) * radix + DigitValue(c)
  {
    assert (s + [c])[..|s|] == s;
  }

  /** The numeral denotes its number, without a leading zero unless it is 0 itself. */
  lemma {:induction false} NumeralDenotes(value: nat, radix: nat)
    requires 2 <= radix <= 36
    ensures Eval(Numeral(value, radix), radix) == value
    ensures Numeral(value, radix)[0] == ZERO <==> value == 0
    decreases value
  {
    if value < radix {
      EvalSnoc([], Digit(value), radix);
      assert [] + [Digit(value)] == [Digit(value)];
    } else {
      var high, d := value / radix, value % radix;
      NumeralStep(value, radix);
      NumeralDenotes(high, radix);
      EvalSnoc(Numeral(high, radix), Digit(d), radix);
    }
  }

  lemma {:induction false} EvalPadded(n: nat, s: Bytes, radix: nat)
    requires radix >= 2
    ensures Eval(Zeros(n) + s, radix) == Eval(s, radix)
    decreases n + |s|
  {
    var all := Zeros(n) + s;
    if s != [] {
      assert all[..|all| - 1] == Zeros(n) + s[..|s| - 1];
      EvalPadded(n, s[..|s| - 1], radix);
    } else if n > 0 {
      assert all[..|all| - 1] == Zeros(n - 1) + [];
      EvalPadded(n - 1, [], radix);
    }
  }

  function Zeros(n: nat): Bytes {
    seq(n, _ => ZERO)
  }

  /** `k` hexadecimal digits hold every number below 16 to the `k`. */
  lemma {:induction false} HexLength(value: nat, k: nat, bound: nat)
    requires value < bound && k >= 1 && bound == Power16(k)
    ensures |Numeral(value, 16)| <= k
    decreases k
  {
    if value >= 16 {
      assert Power16(1) == 16 * Power16(0);
      HexLength(value / 16, k - 1, Power16(k - 1));
    }
  }

  function Power16(k: nat): nat {
    if k == 0 then 1 else 16 * Power16(k - 1)
  }

  function Reverse(s: Bytes): (r: Bytes)
    ensures |r| == |s| && forall i | 0 <= i < |s| :: r[i] == s[|s| - 1 - i]
  {
    seq(|s|, i requires 0 <= i < |s| => s[|s| - 1 - i])
  }

  /** A string with its first and last `n` bytes exchanged. */
  function EndsSwapped(s: Bytes, n: nat): (r: Bytes)
    ensures |r| == |s|
    ensures forall i | 0 <= i < |s| :: r[i] == if n <= i < |s| - n then s[i] else s[|s| - 1 - i]
  {
    seq(|s|, i requires 0 <= i < |s| => if n <= i < |s| - n then s[i] else s[|s| - 1 - i])
  }

  lemma SwapNext(s: Bytes, n: nat)
    requires 2 * n + 1 < |s|
    ensures var r := EndsSwapped(s, n); var m := |s| - 1 - n;
            EndsSwapped(s, n + 1) == r[n := r[m]][m := r[n]]
  {}

  method Exchange(buf: array<Byte>, at: nat, len: nat, beg: nat, end: nat)
    requires at + len <= buf.Length && beg < end < len
    modifies buf
    ensures var r := old(buf[at..at + len]); buf[at..at + len] == r[beg := r[end]][end := r[beg]]
    ensures forall k | 0 <= k < at || at + len <= k < buf.Length :: buf[k] == old(buf[k])
  {
    var tmp := buf[at + end];
    buf[at + end] := buf[at + beg];
    buf[at + beg] := tmp;
  }

  /** The loop of `strrev` on the `len` bytes at `buf + at`. */
  method SwapEnds(buf: array<Byte>, at: nat, len: nat)
    requires at + len <= buf.Length
    modifies buf
    ensures buf[at..at + len] == Reverse(old(buf[at..at + len]))
    ensures forall k | 0 <= k < at || at + len <= k < buf.Length :: buf[k] == old(buf[k])
  {
    ghost var s := buf[at..at + len];
    var beg: int := 0;
    var end: int := len as int - 1;
    assert s == EndsSwapped(s, 0);
    while beg < end
      invariant 0 <= beg && beg + end + 1 == len
      invariant buf[at..at + len] == EndsSwapped(s, beg)
      invariant forall j | 0 <= j < at || at + len <= j < buf.Length :: buf[j] == old(buf[j])
    {
      SwapNext(s, beg);
      Exchange(buf, at, len, beg, end);
      beg := beg + 1;
      end := end - 1;
    }
    assert EndsSwapped(s, beg) == Reverse(s);
  }

  /** `strrev` of the string at `buf + at`. */
  method StrRev(buf: array<Byte>, at: nat)
    requires at <= buf.Length && Terminated(buf[at..])
    modifies buf
    ensures var s := old(CString(buf[at..]));
            && buf[at..at + |s|] == Reverse(s)
            && (forall k | 0 <= k < at || at + |s| <= k < buf.Length :: buf[k] == old(buf[k]))
  {
    var len := StrLen(buf[at..]);
    assert buf[at..][..len] == buf[at..at + len];
    SwapEnds(buf, at, len);
  }

  /** The digits that are left to write. */
  function Rest(value: nat, radix: nat): Bytes
    requires 2 <= radix <= 36
  {
    if value == 0 then [] else Numeral(value, radix)
  }

  lemma RestStep(value: nat, radix: nat)
    requires 2 <= radix <= 36 && value > 0
    ensures value / radix < value && value % radix < radix
    ensures Rest(value, radix) == Rest(value / radix, radix) + [Digit(value % radix)]
  {
    if value < radix {
      assert value / radix == 0 && value % radix == value;
    } else {
      NumeralStep(value, radix);
    }
  }

  method LastDigit(value: nat, radix: nat) returns (i: nat, newval: nat)
    requires 2 <= radix <= 36 && value > 0
    ensures newval < value && i < radix
    ensures Rest(value, radix) == Rest(newval, radix) + [Digit(i)]
  {
    RestStep(value, radix);
    i := value % radix;
    newval := value / radix;
  }

  lemma DigitsDone(s: Bytes, high: Bytes, d: Byte, done: Bytes)
    requires s == (high + [d]) + Reverse(done)
    ensures s == high + Reverse(done + [d]) && |done| < |s|
  {
    assert Reverse(done + [d]) == [d] + Reverse(done);
    assert (high + [d]) + Reverse(done) == high + ([d] + Reverse(done));
  }

  /** The buffer after some passes of the loop of `itoa`: the digits `done` at `at`, and `high` still to come. */
  predicate Halfway(now: Bytes, was: Bytes, at: nat, s: Bytes, high: Bytes, done: Bytes) {
    && s == high + Reverse(done) && at + |done| <= |now| == |was|
    && now[..at] == was[..at] && now[at..at + |done|] == done && now[at + |done|..] == was[at + |done|..]
  }

  lemma HalfwayOn(now: Bytes, was: Bytes, at: nat, s: Bytes, high: Bytes, done: Bytes, d: Byte)
    requires Halfway(now, was, at, s, high + [d], done) && at + |s| < |now|
    ensures at + |done| < |now| && |done| < |s|
    ensures Halfway(now[at + |done| := d], was, at, s, high, done + [d])
  {
    DigitsDone(s, high, d, done);
    var next := now[at + |done| := d];
    assert next[at..at + |done| + 1] == done + [d];
    assert next[at + |done| + 1..] == now[at + |done|..][1..];
  }

  /** The loop of `itoa`: the digits, lowest first. */
  method PutDigits(value: nat, buf: array<Byte>, at: nat, radix: nat) returns (k: nat)
    requires value > 0 && 2 <= radix <= 36 && at + |Numeral(value, radix)| < buf.Length
    modifies buf
    ensures k == |Numeral(value, radix)| && Halfway(buf[..], old(buf[..]), at, Numeral(value, radix), [], Reverse(Numeral(value, radix)))
  {
    ghost var s, was, high, done := Numeral(value, radix), buf[..], Rest(value, radix), [];
    assert s == high + Reverse(done);
    k := 0;
    var newval: nat := value;
    while newval > 0
      invariant high == Rest(newval, radix) && k == |done|
      invariant Halfway(buf[..], was, at, s, high, done)
      decreases newval
    {
      var i;
      i, newval := LastDigit(newval, radix);
      high := Rest(newval, radix);
      HalfwayOn(buf[..], was, at, s, high, done, Digit(i));
      buf[at + k] := Digit(i);
      done := done + [Digit(i)];
      k := k + 1;
    }
    assert done == Reverse(s);
  }

  /** `itoa` into `buf` from index `at` on: a numeral of figures and letters that denotes the value, and its NUL. */
  method Itoa(value: nat, buf: array<Byte>, at: nat, radix: nat)
    requires value < 0x1_0000_0000 && 2 <= radix <= 36 && at + |Numeral(value, radix)| < buf.Length
    modifies buf
    ensures var s := Numeral(value, radix);
            && buf[at..at + |s|] == s && buf[at + |s|] == NUL
            && AllDigits(s, radix) && Eval(s, radix) == value && (s[0] == 48 <==> value == 0)
            && (forall j | 0 <= j < at || at + |s| < j < buf.Length :: buf[j] == old(buf[j]))
  {
    NumeralIsDigits(value, radix);
    NumeralDenotes(value, radix);
    StoreNumeral(value, buf, at, radix);
  }

  /** The statements of `itoa`. */
  method StoreNumeral(value: nat, buf: array<Byte>, at: nat, radix: nat)
    requires value < 0x1_0000_0000 && 2 <= radix <= 36 && at + |Numeral(value, radix)| < buf.Length
    modifies buf
    ensures var s := Numeral(value, radix);
            && buf[at..at + |s|] == s && buf[at + |s|] == NUL
            && (forall j | 0 <= j < at || at + |s| < j < buf.Length :: buf[j] == old(buf[j]))
  {
    if value == 0 {
      buf[at] := ZERO;
      buf[at + 1] := NUL;
      return;
    }
    ghost var s, was := Numeral(value, radix), buf[..];
    var k := PutDigits(value, buf, at, radix);
    HalfwayAround(buf[..], was, at, s, [], Reverse(s));
    buf[at + k] := NUL;
    TurnAround(buf, at, s);
  }

  /** The reversal that ends `itoa`. */
  method TurnAround(buf: array<Byte>, at: nat, ghost s: Bytes)
    requires at + |s| < buf.Length && buf[at..at + |s|] == Reverse(s) && buf[at + |s|] == NUL && Free(s, {NUL})
    modifies buf
    ensures buf[at..at + |s|] == s
    ensures forall k | 0 <= k < at || at + |s| <= k < buf.Length :: buf[k] == old(buf[k])
  {
    StoredAt(buf, at, Reverse(s));
    StrRev(buf, at);
    ReverseTwice(s);
  }

  lemma ReverseTwice(s: Bytes)
    ensures Reverse(Reverse(s)) == s
  {}

  lemma HalfwayAround(now: Bytes, was: Bytes, at: nat, s: Bytes, high: Bytes, done: Bytes)
    requires Halfway(now, was, at, s, high, done)
    ensures now[at..at + |done|] == done
    ensures forall k | 0 <= k < at || at + |done| <= k < |now| :: now[k] == was[k]
  {
    assert forall k | 0 <= k < at :: now[k] == now[..at][k];
    forall k | at + |done| <= k < |now| ensures now[k] == was[k] {
      assert now[k] == now[at + |done|..][k - at - |done|];
    }
  }

  /** A NUL-free stretch of memory with a NUL behind it is the string there. */
  lemma StoredString(mem: Bytes, at: nat, s: Bytes)
    requires at + |s| < |mem| && mem[at..at + |s|] == s && mem[at + |s|] == NUL && Free(s, {NUL})
    ensures Terminated(mem[at..]) && CString(mem[at..]) == s
  {
    assert mem[at..][|s|] == NUL && mem[at..][..|s|] == s;
    CStringIs(mem[at..], s);
  }

  lemma EightDigits(value: nat)
    requires value < 0x1_0000_0000
    ensures |Numeral(value, 16)| <= 8
    ensures var all := Zeros(8 - |Numeral(value, 16)|) + Numeral(value, 16);
            && |all| == 8 && Eval(all, 16) == value
            && forall i | 0 <= i < 8 :: 48 <= all[i] as int <= 57 || 65 <= all[i] as int <= 70
  {
    NumeralIsDigits(value, 16);
    assert Power16(8) == 0x1_0000_0000;
    HexLength(value, 8, 0x1_0000_0000);
    EvalPadded(8 - |Numeral(value, 16)|, Numeral(value, 16), 16);
    NumeralDenotes(value, 16);
  }

  /** The padding loop: zeros from `from` up to the numeral `s` at index 8. */
  method PadZeros(convBuf: array<Byte>, from: nat, ghost s: Bytes)
    requires from <= 8 && 8 + |s| < convBuf.Length && convBuf[8..8 + |s|] == s && convBuf[8 + |s|] == NUL
    modifies convBuf
    ensures convBuf[from..8 + |s|] == Zeros(8 - from) + s && convBuf[8 + |s|] == NUL
  {
    var i := from;
    while i < 8
      invariant from <= i <= 8
      invariant forall j | from <= j < i :: convBuf[j] == ZERO
      invariant convBuf[8..8 + |s|] == s && convBuf[8 + |s|] == NUL
    {
      convBuf[i] := ZERO;
      i := i + 1;
    }
    assert convBuf[from..8] == Zeros(8 - from);
    assert convBuf[from..8 + |s|] == convBuf[from..8] + convBuf[8..8 + |s|];
  }

  /** `puts`: what it prints. */
  method Puts(buf: array<Byte>, at: nat) returns (printed: Bytes)
    requires at <= buf.Length && Terminated(buf[at..])
    ensures printed == CString(buf[at..])
  {
    var len := StrLen(buf[at..]);
    printed := buf[at..at + len];
  }

  lemma StoredAt(buf: array<Byte>, at: nat, s: Bytes)
    requires at + |s| < buf.Length && buf[at..at + |s|] == s && buf[at + |s|] == NUL && Free(s, {NUL})
    ensures Terminated(buf[at..]) && CString(buf[at..]) == s
  {
    assert buf[..][at..at + |s|] == buf[at..at + |s|] && buf[..][at..] == buf[at..];
    StoredString(buf[..], at, s);
  }

  /** The `%#x` conversion of printf, with what it hands to puts. */
  method HexPadded(value: nat) returns (printed: Bytes)
    requires value < 0x1_0000_0000
    ensures |printed| == 8 && Eval(printed, 16) == value
    ensures forall i | 0 <= i < 8 :: 48 <= printed[i] as int <= 57 || 65 <= printed[i] as int <= 70
    ensures |Numeral(value, 16)| <= 8 && printed == Zeros(8 - |Numeral(value, 16)|) + Numeral(value, 16)
  {
    var convBuf := new Byte[64];
    ghost var s := Numeral(value, 16);
    EightDigits(value);
    Itoa(value, convBuf, 8, 16);
    StoredAt(convBuf, 8, s);
    var startingIndex := StrLen(convBuf[8..]);
    PadZeros(convBuf, startingIndex, s);
    StoredAt(convBuf, startingIndex, Zeros(8 - |s|) + s);
    printed := Puts(convBuf, startingIndex);
  }
}
