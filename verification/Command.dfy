/**
 Command lines: execute splits off the program name with two loops over the
 command, keeps the rest in the new process's control block, and getargs hands
 that rest to the program.
 */
module Command {
  import opened Strings
  import opened Text

  const ARG_BUF_SIZE: nat := 128

  // ----- Specification

  function SkipSpaces(s: Bytes): (r: Bytes)
    ensures |r| <= |s|
    ensures r != [] ==> r[0] != SPACE
  {
    if s != [] && s[0] == SPACE then SkipSpaces(s[1..]) else s
  }

  function FirstWord(s: Bytes): (w: Bytes)
    ensures |w| <= |s|
  {
    if s == [] || s[0] == SPACE then [] else [s[0]] + FirstWord(s[1..])
  }

  function ProgramName(command: Bytes): Bytes {
    FirstWord(SkipSpaces(command))
  }

  function Arguments(command: Bytes): Bytes {
    var s := SkipSpaces(command);
    SkipSpaces(s[|FirstWord(s)|..])
  }

  lemma {:induction false} SkipSpacesOf(n: nat, s: Bytes)
    requires s != [] ==> s[0] != SPACE
    ensures SkipSpaces(Spaces(n) + s) == s
  {
    if n == 0 {
      assert Spaces(0) + s == s;
    } else {
      assert (Spaces(n) + s)[1..] == Spaces(n - 1) + s;
      SkipSpacesOf(n - 1, s);
    }
  }

  lemma {:induction false} FirstWordOf(w: Bytes, rest: Bytes)
    requires Free(w, {SPACE}) && (rest != [] ==> rest[0] == SPACE)
    ensures FirstWord(w + rest) == w
  {
    if w == [] {
      assert w + rest == rest;
    } else {
      assert (w + rest)[1..] == w[1..] + rest;
      FirstWordOf(w[1..], rest);
    }
  }

  /** However a command is written as spaces, a word, spaces and a remainder, that word is the program and that remainder the arguments. */
  lemma SplitIsUnique(before: nat, name: Bytes, between: nat, args: Bytes)
    requires name != [] && Free(name, {SPACE})
    requires args != [] ==> between > 0 && args[0] != SPACE
    ensures var command := Spaces(before) + name + Spaces(between) + args;
            ProgramName(command) == name && Arguments(command) == args
  {
    var tail := Spaces(between) + args;
    assert Spaces(before) + name + Spaces(between) + args == Spaces(before) + (name + tail);
    SkipSpacesOf(before, name + tail);
    FirstWordOf(name, tail);
    assert (name + tail)[|name|..] == tail;
    SkipSpacesOf(between, args);
  }

  // ----- The loops of execute

  /** A zero-filled buffer whose first cells have been written. */
  predicate Filled(buf: Bytes, s: Bytes) {
    && |s| <= |buf| && buf[..|s|] == s && forall i | |s| <= i < |buf| :: buf[i] == NUL
  }

  lemma FilledIsString(buf: Bytes, s: Bytes)
    requires Filled(buf, s) && |s| < |buf| && Free(s, {NUL})
    ensures Terminated(buf) && CString(buf) == s
  {
    assert buf[|s|] == NUL;
    CStringIs(buf, s);
  }

  /** `blanks` spaces, then `part`, at index `at` of a command. */
  predicate BlanksThen(command: Bytes, at: nat, blanks: nat, part: Bytes) {
    && at + blanks + |part| <= |command|
    && (forall i | at <= i < at + blanks :: command[i] == SPACE)
    && command[at + blanks..at + blanks + |part|] == part
  }

  /** The first loop: skips leading spaces and copies up to the next one; `stop` is where it leaves its index. */
  method SplitName(command: Bytes, fname: array<Byte>, ghost lead: nat, ghost name: Bytes) returns (stop: nat)
    requires Free(command, {NUL}) && fname.Length == |command| + 1 && Filled(fname[..], [])
    requires BlanksThen(command, 0, lead, name) && Free(name, {SPACE}) && Free(name, {NUL})
    requires lead + |name| < |command| ==> name != [] && command[lead + |name|] == SPACE
    modifies fname
    ensures stop == lead + |name| && Filled(fname[..], name)
  {
    var mem := command + [NUL];
    var k := 0;
    stop := 0;
    while stop < |mem|
      invariant 0 <= k <= |name| && (if k == 0 then stop <= lead else stop == lead + k)
      invariant Filled(fname[..], name[..k])
      decreases |mem| - stop
    {
      assert k > 0 ==> fname[..][0] == name[0] && name[0] != NUL;
      assert lead <= stop < lead + |name| ==> command[stop] == name[stop - lead];
      if mem[stop] == SPACE {
        if fname[0] == NUL {
          stop := stop + 1;
          continue;
        }
        break;
      }
      if stop == |mem| - 1 { break; }
      fname[k] := mem[stop];
      k := k + 1;
      stop := stop + 1;
    }
    assert name[..k] == name;
  }

  /** The second loop: copies the rest, NUL included, without its leading spaces. */
  method SplitArguments(command: Bytes, from: nat, arguments: array<Byte>, ghost blanks: nat, ghost args: Bytes)
    requires Free(command, {NUL}) && Free(args, {NUL}) && from + blanks + |args| == |command|
    requires arguments.Length == |command| + 1 && Filled(arguments[..], [])
    requires BlanksThen(command, from, blanks, args) && (args != [] ==> args[0] != SPACE)
    modifies arguments
    ensures Filled(arguments[..], args)
  {
    var mem := command + [NUL];
    ghost var begin := from + blanks;
    var k := 0;
    var j := from;
    while j < |mem|
      invariant from <= j <= |mem| && k == if j <= begin then 0 else j - begin
      invariant Filled(arguments[..], if k <= |args| then args[..k] else args)
    {
      assert begin <= j < |command| ==> command[j] == args[j - begin];
      assert 0 < k <= |args| ==> arguments[..][0] == args[0] && args[0] != NUL;
      if mem[j] == SPACE && arguments[0] == NUL {
        j := j + 1;
        continue;
      }
      arguments[k] := mem[j];
      k := k + 1;
      j := j + 1;
    }
  }

  lemma {:induction false} SkippedAreBlanks(s: Bytes)
    ensures BlanksThen(s, 0, |s| - |SkipSpaces(s)|, SkipSpaces(s))
  {
    if s != [] && s[0] == SPACE {
      SkippedAreBlanks(s[1..]);
      var rest := SkipSpaces(s[1..]);
      assert forall i | 1 <= i < |s| :: s[i] == s[1..][i - 1];
      assert s[|s| - |rest|..|s|] == s[1..][|s| - 1 - |rest|..|s| - 1];
    }
  }

  lemma {:induction false} WordIsMaximal(s: Bytes)
    ensures var w := FirstWord(s); w <= s && Free(w, {SPACE}) && (|w| < |s| ==> s[|w|] == SPACE)
  {
    if s != [] && s[0] != SPACE {
      WordIsMaximal(s[1..]);
    }
  }

  lemma PrefixStands(command: Bytes, lead: nat, s: Bytes, name: Bytes)
    requires lead + |s| == |command| && BlanksThen(command, 0, lead, s) && name <= s
    ensures BlanksThen(command, 0, lead, name)
    ensures |name| < |s| ==> command[lead + |name|] == s[|name|]
    ensures Free(command, {NUL}) ==> Free(name, {NUL})
  {
    assert forall i | 0 <= i < |s| :: s[i] == command[lead + i];
  }

  lemma TailStands(command: Bytes, lead: nat, s: Bytes, n: nat, blanks: nat, args: Bytes)
    requires lead + |s| == |command| && BlanksThen(command, 0, lead, s) && n <= |s|
    requires BlanksThen(s[n..], 0, blanks, args) && n + blanks + |args| == |s|
    ensures BlanksThen(command, lead + n, blanks, args)
    ensures Free(command, {NUL}) ==> Free(args, {NUL})
  {
    var tail := s[n..];
    assert forall i | 0 <= i < |tail| :: tail[i] == s[n + i] == command[lead + n + i];
    forall i | lead + n <= i < lead + n + blanks ensures command[i] == SPACE {
      assert tail[i - lead - n] == SPACE;
    }
    forall i | 0 <= i < |args| ensures args[i] == command[lead + n + blanks + i] {
      assert args[i] == tail[blanks + i];
    }
  }

  /** Where the two parts of a command stand in it. */
  predicate StandsAt(command: Bytes, lead: nat, name: Bytes, blanks: nat, args: Bytes) {
    var stop := lead + |name|;
    && BlanksThen(command, 0, lead, name) && BlanksThen(command, stop, blanks, args) && stop + blanks + |args| == |command|
    && Free(name, {SPACE}) && Free(name, {NUL}) && Free(args, {NUL}) && (args != [] ==> args[0] != SPACE)
    && (stop < |command| ==> name != [] && command[stop] == SPACE)
  }

  lemma Assembled(command: Bytes, lead: nat, s: Bytes, name: Bytes, blanks: nat, args: Bytes)
    requires Free(command, {NUL}) && lead + |s| == |command| && BlanksThen(command, 0, lead, s)
    requires name <= s && Free(name, {SPACE}) && (|name| < |s| ==> s[|name|] == SPACE) && (s != [] ==> s[0] != SPACE)
    requires |name| + blanks + |args| == |s| && BlanksThen(s[|name|..], 0, blanks, args) && (args != [] ==> args[0] != SPACE)
    ensures StandsAt(command, lead, name, blanks, args)
  {
    PrefixStands(command, lead, s, name);
    TailStands(command, lead, s, |name|, blanks, args);
  }

  lemma SkipsTo(s: Bytes) returns (blanks: nat, rest: Bytes)
    ensures rest == SkipSpaces(s) && BlanksThen(s, 0, blanks, rest) && blanks + |rest| == |s|
    ensures rest != [] ==> rest[0] != SPACE
  {
    SkippedAreBlanks(s);
    rest := SkipSpaces(s);
    blanks := |s| - |rest|;
  }

  lemma TakesWord(s: Bytes) returns (w: Bytes)
    ensures w == FirstWord(s) && w <= s && Free(w, {SPACE}) && (|w| < |s| ==> s[|w|] == SPACE)
  {
    WordIsMaximal(s);
    w := FirstWord(s);
  }

  lemma Decomposed(command: Bytes) returns (lead: nat, name: Bytes, blanks: nat, args: Bytes)
    requires Free(command, {NUL})
    ensures name == ProgramName(command) && args == Arguments(command)
    ensures StandsAt(command, lead, name, blanks, args)
  {
    var s;
    lead, s := SkipsTo(command);
    name := TakesWord(s);
    blanks, args := SkipsTo(s[|name|..]);
    Assembled(command, lead, s, name, blanks, args);
  }

  // ----- The arguments in the control block

  /** Memory from the argument field on, where `was` stood and `args` has been stored. Behind the 128 bytes of the field
      comes the terminal number. */
  predicate Stored(now: Bytes, was: Bytes, args: Bytes) {
    && ARG_BUF_SIZE < |was| && |args| <= |was| && now == args + was[|args|..] && Free(args, {NUL})
    && forall i | 0 <= i < ARG_BUF_SIZE :: was[i] == NUL
  }

  /** The stored string is the arguments if there are at most 127 bytes of them, and for 128 exactly on terminal 0. */
  lemma StoredIsArguments(now: Bytes, was: Bytes, args: Bytes)
    requires Stored(now, was, args)
    ensures CString(now) == args + CString(was[|args|..])
    ensures |args| < 128 ==> CString(now) == args
    ensures |args| == 128 ==> (CString(now) == args <==> was[128] == 0)
  {
    CStringOfConcat(args, was[|args|..]);
    if |args| < |was| { assert was[|args|..][0] == was[|args|]; }
  }

  /** The terminal number survives exactly when the arguments fit their field, or repeat it in their 129th byte. */
  lemma StoredTerminal(now: Bytes, was: Bytes, args: Bytes)
    requires Stored(now, was, args)
    ensures now[ARG_BUF_SIZE] == was[ARG_BUF_SIZE] <==> |args| <= ARG_BUF_SIZE || args[ARG_BUF_SIZE] == was[ARG_BUF_SIZE]
  {}

  /** A process control block from its argument field on. */
  class ArgumentBlock {
    const mem: array<Byte>
    ghost var was: Bytes
    ghost var args: Bytes

    ghost predicate Valid()
      reads this, mem
    {
      Stored(mem[..], was, args)
    }

    /** As init_pcb and the store of the terminal number leave it. */
    constructor (terminal: Byte, behind: Bytes)
      ensures Valid() && args == [] && was == mem[..] && mem[ARG_BUF_SIZE] == terminal && fresh(mem)
    {
      mem := new Byte[ARG_BUF_SIZE + 1 + |behind|](i requires 0 <= i < ARG_BUF_SIZE + 1 + |behind| =>
        if i < ARG_BUF_SIZE then NUL else if i == ARG_BUF_SIZE then terminal else behind[i - ARG_BUF_SIZE - 1]);
      args := [];
      new;
      was := mem[..];
    }

    /** The parse and the copy, for a command whose parts stand where the ghost parameters say. */
    method StoreParts(command: Bytes, ghost lead: nat, ghost name: Bytes, ghost blanks: nat, ghost rest: Bytes)
      returns (fname: array<Byte>)
      requires Valid() && args == [] && Free(command, {NUL})
      requires StandsAt(command, lead, name, blanks, rest) && |rest| <= mem.Length
      modifies this`args, mem
      ensures Valid() && args == rest
      ensures fresh(fname) && |name| < fname.Length && Filled(fname[..], name)
    {
      fname := new Byte[|command| + 1](_ => NUL);
      var arguments := new Byte[|command| + 1](_ => NUL);
      var stop := SplitName(command, fname, lead, name);
      SplitArguments(command, stop, arguments, blanks, rest);
      FilledIsString(arguments[..], rest);
      var argLen := StrLen(arguments[..]);
      ghost var named := fname[..];
      StrNCpy(mem, arguments[..], argLen);
      assert fname[..] == named;
      args := rest;
      assert mem[..] == rest + was[|rest|..];
    }

    /** What execute keeps of a command. The copy has no bound but the length of the arguments. */
    method Store(command: Bytes) returns (fname: array<Byte>)
      requires Valid() && args == [] && Free(command, {NUL}) && |Arguments(command)| <= mem.Length
      modifies this`args, mem
      ensures Valid() && args == Arguments(command)
      ensures fresh(fname) && Terminated(fname[..]) && CString(fname[..]) == ProgramName(command)
      ensures mem[ARG_BUF_SIZE] == was[ARG_BUF_SIZE] <==>
                |Arguments(command)| <= ARG_BUF_SIZE || Arguments(command)[ARG_BUF_SIZE] == was[ARG_BUF_SIZE]
    {
      ghost var lead, name, blanks, rest := Decomposed(command);
      fname := StoreParts(command, lead, name, blanks, rest);
      FilledIsString(fname[..], name);
      StoredTerminal(mem[..], was, args);
    }

    /** `sys_getargs`: fails exactly when there are no arguments or they do not fit with their NUL. What it returns is the
        string in memory (see `StoredIsArguments`). */
    method Getargs(buf: array?<Byte>, nbytes: int) returns (r: int)
      requires Valid() && Terminated(mem[..])
      requires buf != null ==> nbytes <= buf.Length && buf != mem
      modifies buf
      ensures var s := CString(mem[..]);
              && (r == -1 <==> buf == null || s == [] || |s| + 1 > nbytes)
              && (r != -1 ==> r == 0 && CString(buf[..]) == s)
              && (r != -1 && |args| < ARG_BUF_SIZE ==> CString(buf[..]) == args)
      ensures r == -1 && buf != null ==> buf[..] == old(buf[..])
    {
      if buf == null { return -1; }
      var len := StrLen(mem[..]);
      var argLen := len + 1;
      if argLen == 1 { return -1; }
      if argLen > nbytes { return -1; }
      StoredIsArguments(mem[..], was, args);
      StrNCpy(buf, mem[..], nbytes);
      ghost var s := CString(mem[..]);
      assert buf[..][..|s|] == s && buf[..][|s|] == NUL;
      CStringIs(buf[..], s);
      return 0;
    }
  }
}
