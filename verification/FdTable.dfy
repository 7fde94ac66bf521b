/**
 A process's file descriptors: eight slots, each with a flag and a table of
 four operations of which some drivers lack several. A call that finds its
 flag set jumps through the table.
 */
module FdTable {
  import opened Text

  const MAX_FILE: nat := 8
  const FILE_TYPE: int := 2
  const DIR_TYPE: int := 1
  const RTC_TYPE: int := 0
  const RTC_DEFAULT: int := 1024 / 2 / 3

  /** What a slot's table pointer leads to; `Unset` is a pointer nobody has stored. */
  datatype Table = Stdin | Stdout | File | Dir | Rtc | Unset

  datatype Operation = Open | Read | Write | Close

  predicate Provides(t: Table, op: Operation) {
    match t
    case Stdin => op == Read
    case Stdout => op == Write
    case Unset => false
    case _ => true
  }

  datatype Fd = Fd(table: Table, inode: int, filePos: int, inUse: bool)

  datatype Entry = Entry(filetype: int, inode: int)

  /** The table a call jumps through, or a refusal. */
  datatype Dispatch = Refused | Jump(table: Table)

  /** Descriptors 0 and 1 are the terminal's and open; every other open one has a full table. */
  predicate Sound(fds: seq<Fd>) {
    && |fds| == MAX_FILE
    && fds[0].table == Stdin && fds[0].inUse && fds[1].table == Stdout && fds[1].inUse
    && forall i | 2 <= i < MAX_FILE && fds[i].inUse :: fds[i].table in {File, Dir, Rtc}
  }

  /** The descriptor open takes: the least free one above 1, or 8. */
  function FirstUnused(fds: seq<Fd>, from: nat): (i: nat)
    requires 2 <= from <= |fds| == MAX_FILE
    ensures from <= i <= MAX_FILE && (i < MAX_FILE ==> !fds[i].inUse)
    ensures forall j | from <= j < i :: fds[j].inUse
    decreases MAX_FILE - from
  {
    if from == MAX_FILE || !fds[from].inUse then from else FirstUnused(fds, from + 1)
  }

  function TableFor(filetype: int, stale: Table): Table {
    if filetype == FILE_TYPE then File else if filetype == DIR_TYPE then Dir else if filetype == RTC_TYPE then Rtc else stale
  }

  function Opened(fds: seq<Fd>, found: Option<Entry>): seq<Fd>
    requires |fds| == MAX_FILE
  {
    var i := FirstUnused(fds, 2);
    if i == MAX_FILE || found.None? then fds
    else
      var d := found.value;
      fds[i := Fd(TableFor(d.filetype, fds[i].table), d.inode, if d.filetype == RTC_TYPE then RTC_DEFAULT else 0, true)]
  }

  /** Open keeps the table sound, unless an entry of unknown type claims a slot whose pointer was never set: then it does not. */
  lemma OpenIsSound(fds: seq<Fd>, found: Option<Entry>)
    requires Sound(fds)
    ensures var i := FirstUnused(fds, 2);
            Sound(Opened(fds, found)) <==>
            i == MAX_FILE || found.None? || found.value.filetype in {FILE_TYPE, DIR_TYPE, RTC_TYPE} || fds[i].table in {File, Dir, Rtc}
  {
    var i := FirstUnused(fds, 2);
    if i < MAX_FILE && found.Some? {
      assert Opened(fds, found)[i].inUse;
    }
  }

  /** A sound table never sends an accepted call through an operation its driver lacks. */
  lemma NoMissingOperation(fds: seq<Fd>, fd: int)
    requires Sound(fds) && 0 <= fd < MAX_FILE && fds[fd].inUse
    ensures fd != 1 ==> Provides(fds[fd].table, Read)
    ensures fd != 0 ==> Provides(fds[fd].table, Write)
    ensures fd > 1 ==> Provides(fds[fd].table, Close) && Provides(fds[fd].table, Open)
  {}

  datatype Request = ToOpen(found: Option<Entry>) | ToClose(fd: int, closed: int)

  function Closed(fds: seq<Fd>, fd: int, closed: int): seq<Fd>
    requires |fds| == MAX_FILE
  {
    if fd <= 1 || fd >= MAX_FILE || !fds[fd].inUse || closed != 0 then fds else fds[fd := fds[fd].(inUse := false)]
  }

  function Served(fds: seq<Fd>, qs: seq<Request>): (after: seq<Fd>)
    requires |fds| == MAX_FILE
    ensures |after| == MAX_FILE
    decreases |qs|
  {
    if qs == [] then fds
    else match qs[0]
      case ToOpen(found) => Served(Opened(fds, found), qs[1..])
      case ToClose(fd, closed) => Served(Closed(fds, fd, closed), qs[1..])
  }

  /** Any sequence of opens and closes keeps the table sound, if the image has only entries of the three known types. */
  lemma {:induction false} ServedIsSound(fds: seq<Fd>, qs: seq<Request>)
    requires Sound(fds)
    requires forall i | 0 <= i < |qs| && qs[i].ToOpen? && qs[i].found.Some? ::
               qs[i].found.value.filetype in {FILE_TYPE, DIR_TYPE, RTC_TYPE}
    ensures Sound(Served(fds, qs))
    decreases |qs|
  {
    if qs != [] {
      match qs[0]
      case ToOpen(found) =>
        OpenIsSound(fds, found);
        assert qs[0].ToOpen?;
        ServedIsSound(Opened(fds, found), qs[1..]);
      case ToClose(fd, closed) =>
        ServedIsSound(Closed(fds, fd, closed), qs[1..]);
    }
  }

  class Descriptors {
    const fda: array<Fd>

    /** As init_pcb leaves them: it sets no table but the first two. */
    constructor ()
      ensures fda.Length == MAX_FILE && Sound(fda[..]) && fresh(fda)
      ensures fda[0] == Fd(Stdin, 0, 0, true) && fda[1] == Fd(Stdout, 0, 0, true)
      ensures forall i | 2 <= i < MAX_FILE :: fda[i] == Fd(Unset, 0, 0, false)
    {
      fda := new Fd[MAX_FILE](i =>
        if i == 0 then Fd(Stdin, 0, 0, true) else if i == 1 then Fd(Stdout, 0, 0, true) else Fd(Unset, 0, 0, false));
    }

    /** `sys_open`, with what read_dentry_by_name found. */
    method SysOpen(found: Option<Entry>) returns (r: int, d: Dispatch)
      requires fda.Length == MAX_FILE
      modifies fda
      ensures fda[..] == Opened(old(fda[..]), found)
      ensures var i := FirstUnused(old(fda[..]), 2);
              if i == 8 || found.None? || found.value.filetype !in {0, 1, 2}
              then r == -1 && d == Refused
              else
                && r == i && d == Jump(fda[i].table) && Provides(fda[i].table, Open)
                && fda[i] == (match found.value.filetype
                              case 2 => Fd(File, found.value.inode, 0, true)
                              case 1 => Fd(Dir, found.value.inode, 0, true)
                              case _ => Fd(Rtc, found.value.inode, 170, true))
      ensures forall j | 0 <= j < MAX_FILE && (r == -1 ==> found.None? || j != FirstUnused(old(fda[..]), 2)) && j != r ::
                fda[j] == old(fda[j])
    {
      var fdi := 2;
      while fda[fdi].inUse
        invariant 2 <= fdi < MAX_FILE && FirstUnused(fda[..], fdi) == FirstUnused(fda[..], 2)
        invariant fda[..] == old(fda[..])
        decreases MAX_FILE - fdi
      {
        fdi := fdi + 1;
        if fdi == MAX_FILE { return -1, Refused; }
      }
      if found.None? { return -1, Refused; }
      var dentry := found.value;
      fda[fdi] := fda[fdi].(inode := dentry.inode);
      fda[fdi] := fda[fdi].(filePos := 0);
      fda[fdi] := fda[fdi].(inUse := true);
      if dentry.filetype == FILE_TYPE {
        fda[fdi] := fda[fdi].(table := File);
      } else if dentry.filetype == DIR_TYPE {
        fda[fdi] := fda[fdi].(table := Dir);
      } else if dentry.filetype == RTC_TYPE {
        fda[fdi] := fda[fdi].(table := Rtc);
        fda[fdi] := fda[fdi].(filePos := RTC_DEFAULT);
      } else {
        return -1, Refused;
      }
      return fdi, Jump(fda[fdi].table);
    }

    /** `sys_close`, with what the driver's close would return. */
    method SysClose(fd: int, closed: int) returns (r: int, d: Dispatch)
      requires fda.Length == MAX_FILE
      modifies fda
      ensures if fd <= 1 || fd >= 8 || !old(fda[fd].inUse)
              then r == -1 && d == Refused && fda[..] == old(fda[..])
              else
                && r == closed && d == Jump(old(fda[fd].table)) && fda[..] == Closed(old(fda[..]), fd, closed)
                && fda[fd] == old(fda[fd]).(inUse := closed != 0)
                && (forall j | 0 <= j < MAX_FILE && j != fd :: fda[j] == old(fda[j]))
    {
      if fd <= 1 || fd >= MAX_FILE { return -1, Refused; }
      if !fda[fd].inUse { return -1, Refused; }
      d := Jump(fda[fd].table);
      if closed != 0 { return closed, d; }
      fda[fd] := fda[fd].(inUse := false);
      return 0, d;
    }

    /** `close_fds`, at the end of a process: 0 and 1 are closed with the rest, and no driver is told. */
    method CloseFds()
      requires fda.Length == MAX_FILE
      modifies fda
      ensures forall i | 0 <= i < MAX_FILE :: fda[i] == old(fda[i]).(inUse := false)
    {
      var i := 0;
      while i < MAX_FILE
        invariant 0 <= i <= MAX_FILE
        invariant forall j | 0 <= j < MAX_FILE :: fda[j] == if j < i then old(fda[j]).(inUse := false) else old(fda[j])
      {
        fda[i] := fda[i].(inUse := false);
        i := i + 1;
      }
    }

    /** The table `sys_read` jumps through. */
    method SysRead(fd: int) returns (d: Dispatch)
      requires fda.Length == MAX_FILE
      ensures d == Refused <==> fd == 1 || fd < 0 || fd >= 8 || !fda[fd].inUse
      ensures d.Jump? && Sound(fda[..]) ==> d.table == fda[fd].table && Provides(d.table, Read)
    {
      if fd == 1 { return Refused; }
      if fd < 0 || fd >= MAX_FILE { return Refused; }
      if !fda[fd].inUse { return Refused; }
      if Sound(fda[..]) { NoMissingOperation(fda[..], fd); }
      return Jump(fda[fd].table);
    }

    /** The table `sys_write` jumps through. */
    method SysWrite(fd: int) returns (d: Dispatch)
      requires fda.Length == MAX_FILE
      ensures d == Refused <==> fd == 0 || fd < 0 || fd >= 8 || !fda[fd].inUse
      ensures d.Jump? && Sound(fda[..]) ==> d.table == fda[fd].table && Provides(d.table, Write)
    {
      if fd == 0 { return Refused; }
      if fd < 0 || fd >= MAX_FILE { return Refused; }
      if !fda[fd].inUse { return Refused; }
      if Sound(fda[..]) { NoMissingOperation(fda[..], fd); }
      return Jump(fda[fd].table);
    }
  }
}
