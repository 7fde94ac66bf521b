/**
 Three terminals on one screen: the displayed terminal owns the hardware video
 page and the others their backup pages. Two page-table entries lead the
 running process to a page, and several registers and buffers hold cursors.
 Proved: displaying and scheduling in any order keep every terminal's screen.
 */
module Video {
  import opened Terminals
  import opened Text

  const PAGE: nat := 4096
  const HARDWARE: nat := 0

  // ----- Three screens of their own

  datatype Terminal = Terminal(screen: Bytes, cursor: nat, spot: (int, int))

  /** `mapped`: the running process's video page is its terminal's screen. */
  datatype Console = Console(terminals: seq<Terminal>, displayed: nat, running: nat, mapped: bool)

  datatype Event =
    | Display(t: nat)                 // Alt and a function key
    | Schedule(t: nat)                // a timer tick
    | Write(offset: nat, b: Byte)     // the kernel writes a screen byte for the running process
    | SetCursor(pos: nat)
    | SetSpot(x: int, y: int)         // where it will print next

  predicate Possible(e: Event) {
    match e
    case Display(t) => t < TERMINALS
    case Schedule(t) => t < TERMINALS
    case Write(offset, _) => offset < PAGE
    case _ => true
  }

  predicate Shaped(c: Console) {
    && |c.terminals| == TERMINALS && c.displayed < TERMINALS && c.running < TERMINALS
    && forall t | 0 <= t < TERMINALS :: |c.terminals[t].screen| == PAGE
  }

  function Written(t: Terminal, e: Event): Terminal
    requires Possible(e) && |t.screen| == PAGE
  {
    match e
    case Write(offset, b) => t.(screen := t.screen[offset := b])
    case SetCursor(pos) => t.(cursor := pos)
    case SetSpot(x, y) => t.(spot := (x, y))
    case _ => t
  }

  function Step(c: Console, e: Event): (d: Console)
    requires Shaped(c) && Possible(e)
    ensures Shaped(d)
  {
    match e
    case Display(t) => c.(displayed := t, mapped := c.running != t)
    case Schedule(t) => c.(running := t, mapped := true)
    case Write(_, _) => if c.mapped then c.(terminals := c.terminals[c.running := Written(c.terminals[c.running], e)]) else c
    case _ => c.(terminals := c.terminals[c.running := Written(c.terminals[c.running], e)])
  }

  /** A run in which nothing is written between bringing the running terminal to the front and the next tick. */
  predicate Steady(c: Console, es: seq<Event>)
    requires Shaped(c)
    decreases |es|
  {
    es != [] ==> Possible(es[0]) && (es[0].Write? ==> c.mapped) && Steady(Step(c, es[0]), es[1..])
  }

  function Run(c: Console, es: seq<Event>): (d: Console)
    requires Shaped(c) && Steady(c, es)
    ensures Shaped(d)
    decreases |es|
  {
    if es == [] then c else Run(Step(c, es[0]), es[1..])
  }

  /** What the processes of terminal `t` did to it, and nobody else. */
  function Own(c: Console, es: seq<Event>, t: nat, was: Terminal): (now: Terminal)
    requires Shaped(c) && Steady(c, es) && |was.screen| == PAGE
    decreases |es|
  {
    if es == [] then was
    else
      var next := if c.running == t then Written(was, es[0]) else was;
      assert |next.screen| == PAGE;
      Own(Step(c, es[0]), es[1..], t, next)
  }

  /** Over any steady run of switches, ticks and writes each terminal ends up as its own processes made it. */
  lemma {:induction false} TerminalsAreSeparate(c: Console, es: seq<Event>, t: nat)
    requires Shaped(c) && Steady(c, es) && t < TERMINALS
    ensures Run(c, es).terminals[t] == Own(c, es, t, c.terminals[t])
    decreases |es|
  {
    if es != [] {
      TerminalsAreSeparate(Step(c, es[0]), es[1..], t);
    }
  }

  /** Without the running process's help nothing changes on any terminal, however often they are switched. */
  lemma {:induction false} SwitchingKeepsScreens(c: Console, es: seq<Event>)
    requires Shaped(c) && Steady(c, es)
    requires forall i | 0 <= i < |es| :: es[i].Display? || es[i].Schedule?
    ensures Run(c, es).terminals == c.terminals
    decreases |es|
  {
    if es != [] {
      assert es[0].Display? || es[0].Schedule?;
      SwitchingKeepsScreens(Step(c, es[0]), es[1..]);
    }
  }

  lemma StaleStep(c: Console, t: nat, offset: nat, b: Byte)
    requires Shaped(c) && t < TERMINALS && offset < PAGE
    ensures var after := Step(Step(c, Display(t)), Write(offset, b));
            after.terminals == if t == c.running then c.terminals
                               else c.terminals[c.running := Written(c.terminals[c.running], Write(offset, b))]
  {}

  // ----- The pages and registers

  function PageFor(t: nat, displayed: nat): nat {
    if t == displayed then HARDWARE else t + 1
  }

  lemma StoreInPage(mem: Bytes, p: nat, q: nat, offset: nat, b: Byte)
    requires |mem| == (TERMINALS + 1) * PAGE && p <= TERMINALS && q <= TERMINALS && offset < PAGE
    ensures var page := mem[p * PAGE..(p + 1) * PAGE];
            mem[q * PAGE + offset := b][p * PAGE..(p + 1) * PAGE] == if p == q then page[offset := b] else page
  {}

  /** `i` bytes have been copied. */
  predicate Copying(now: Bytes, was: Bytes, target: nat, source: nat, i: nat) {
    && |now| == |was| && target + i <= |was| && source + i <= |was|
    && now[target..target + i] == was[source..source + i]
    && now[..target] == was[..target] && now[target + i..] == was[target + i..]
  }

  lemma CopiedOneMore(now: Bytes, was: Bytes, to: nat, from: nat, i: nat)
    requires to <= TERMINALS && from <= TERMINALS && i < PAGE && |was| == (TERMINALS + 1) * PAGE
    requires Copying(now, was, to * PAGE, from * PAGE, i)
    ensures Copying(now[to * PAGE + i := now[from * PAGE + i]], was, to * PAGE, from * PAGE, i + 1)
  {
    var target, source := to * PAGE, from * PAGE;
    var c, next := now[source + i], now[target + i := now[source + i]];
    assert source + i >= target + i || source + i < target;
    assert c == was[source + i] by {
      if source >= target { assert now[target + i..][source - target] == c; } else { assert now[..target][source + i] == c; }
    }
    assert next[target..target + i + 1] == now[target..target + i] + [c];
    assert was[source..source + i + 1] == was[source..source + i] + [c];
    assert next[target + i + 1..] == now[target + i..][1..] == was[target + i + 1..];
    assert next[..target] == now[..target];
  }

  lemma CopiedPage(now: Bytes, was: Bytes, to: nat, from: nat, p: nat)
    requires to <= TERMINALS && from <= TERMINALS && p <= TERMINALS && |was| == (TERMINALS + 1) * PAGE
    requires Copying(now, was, to * PAGE, from * PAGE, PAGE)
    ensures now[p * PAGE..(p + 1) * PAGE] == was[(if p == to then from else p) * PAGE..][..PAGE]
  {
    var target := to * PAGE;
    if p < to {
      SliceOfSlice(now, 0, target, p * PAGE, (p + 1) * PAGE);
      SliceOfSlice(was, 0, target, p * PAGE, (p + 1) * PAGE);
      assert now[0..target] == now[..target] == was[..target] == was[0..target];
    } else if p > to {
      var d := (p - to - 1) * PAGE;
      SliceOfSlice(now, target + PAGE, |now|, d, d + PAGE);
      SliceOfSlice(was, target + PAGE, |was|, d, d + PAGE);
      assert now[target + PAGE..|now|] == now[target + PAGE..] == was[target + PAGE..] == was[target + PAGE..|was|];
    }
  }

  class Screens {
    const mem: array<Byte>       // the hardware page, then the backup page of each terminal
    var videoMap: nat            // the page that the kernel's video address leads to
    var userMap: nat             // the same for the address given out by vidmap
    var activeTer: nat
    var processTer: nat          // the terminal of the active process
    var cursorReg: nat
    const posBuf: array<nat>
    var screenX: int
    var screenY: int
    const xBuf: array<int>
    const yBuf: array<int>

    predicate Laid()
      reads this
    {
      && mem.Length == (TERMINALS + 1) * PAGE && posBuf.Length == xBuf.Length == yBuf.Length == TERMINALS && xBuf != yBuf
      && activeTer < TERMINALS && processTer < TERMINALS && userMap <= TERMINALS
      && videoMap in {PageOf(processTer), processTer + 1}
    }

    function PageOf(t: nat): nat
      reads this`activeTer
    {
      PageFor(t, activeTer)
    }

    function PageBytes(p: nat): (s: Bytes)
      requires mem.Length == (TERMINALS + 1) * PAGE && p <= TERMINALS
      reads mem
      ensures |s| == PAGE
    {
      mem[p * PAGE..(p + 1) * PAGE]
    }

    function Logical(t: nat): Terminal
      requires Laid() && t < TERMINALS
      reads this, mem, posBuf, xBuf, yBuf
    {
      Terminal(PageBytes(PageOf(t)),
               CursorFor(t, activeTer),
               SpotFor(t, processTer))
    }

    function SpotFor(t: nat, running: nat): (int, int)
      requires t < xBuf.Length == yBuf.Length
      reads this`screenX, this`screenY, xBuf, yBuf
    {
      if t == running then (screenX, screenY) else (xBuf[t], yBuf[t])
    }

    ghost function View(): (c: Console)
      requires Laid()
      reads this, mem, posBuf, xBuf, yBuf
      ensures Shaped(c)
    {
      Console([Logical(0), Logical(1), Logical(2)], activeTer, processTer, videoMap == PageOf(processTer))
    }

    /** `memcpy` of one whole page. */
    method CopyPage(to: nat, from: nat)
      requires mem.Length == (TERMINALS + 1) * PAGE && to <= TERMINALS && from <= TERMINALS
      modifies mem
      ensures forall p | 0 <= p <= TERMINALS :: PageBytes(p) == old(PageBytes(if p == to then from else p))
    {
      ghost var was := mem[..];
      var source, target := from * PAGE, to * PAGE;
      var i := 0;
      while i < PAGE
        invariant 0 <= i <= PAGE && Copying(mem[..], was, target, source, i)
      {
        CopiedOneMore(mem[..], was, to, from, i);
        mem[target + i] := mem[source + i];
        i := i + 1;
      }
      forall p | 0 <= p <= TERMINALS ensures PageBytes(p) == old(PageBytes(if p == to then from else p)) {
        CopiedPage(mem[..], was, to, from, p);
      }
    }

    /** The two copies of `switch_video`: the shown page to its backup, and the backup of `ter` to the screen. */
    method SwapPages(ter: nat)
      requires mem.Length == (TERMINALS + 1) * PAGE && activeTer < TERMINALS && ter < TERMINALS
      modifies mem
      ensures forall t: nat | t < TERMINALS :: PageBytes(PageFor(t, ter)) == old(PageBytes(PageFor(t, activeTer)))
      ensures PageBytes(activeTer + 1) == old(PageBytes(0))
      ensures ter != activeTer ==> PageBytes(0) == old(PageBytes(ter + 1))
    {
      var target, current := ter + 1, activeTer + 1;
      CopyPage(current, HARDWARE);
      CopyPage(HARDWARE, target);
    }

    function CursorFor(t: nat, displayed: nat): nat
      requires t < posBuf.Length
      reads this`cursorReg, posBuf
    {
      if t == displayed then cursorReg else posBuf[t]
    }

    /** The same for the hardware cursor. */
    method SwapCursors(ter: nat)
      requires posBuf.Length == TERMINALS && activeTer < TERMINALS && ter < TERMINALS
      modifies this`cursorReg, posBuf
      ensures forall t: nat | t < TERMINALS :: CursorFor(t, ter) == old(CursorFor(t, activeTer))
      ensures posBuf[activeTer] == old(cursorReg) && (ter != activeTer ==> cursorReg == old(posBuf[ter]))
    {
      posBuf[activeTer] := cursorReg;
      cursorReg := posBuf[ter];
    }

    /** Brings a terminal to the front, by way of the hardware page. */
    method BringForward(ter: nat)
      requires Laid() && ter < TERMINALS
      modifies this`videoMap, this`activeTer, this`cursorReg, mem, posBuf
      ensures activeTer == ter
      ensures forall t: nat | t < TERMINALS :: PageBytes(PageOf(t)) == old(PageBytes(PageOf(t)))
      ensures forall t: nat | t < TERMINALS :: CursorFor(t, activeTer) == old(CursorFor(t, activeTer))
    {
      videoMap := HARDWARE;
      SwapPages(ter);
      SwapCursors(ter);
      activeTer := ter;
    }

    /** `switch_video`: the video entry is left on a backup page, right or wrong. */
    method SwitchVideo(ter: nat)
      requires Laid()
      modifies this`videoMap, this`activeTer, this`cursorReg, mem, posBuf
      ensures Laid()
      ensures View() == if ter >= TERMINALS then old(View()) else Step(old(View()), Display(ter))
      ensures ter < TERMINALS ==> activeTer == ter && videoMap == processTer + 1
      ensures ter < TERMINALS && old(userMap == PageOf(processTer)) ==>
                (userMap == PageOf(processTer) <==> (processTer == old(activeTer) <==> processTer == ter))
    {
      if ter >= TERMINALS { return; }
      BringForward(ter);
      var restoreTer := processTer;
      videoMap := restoreTer + 1;
      forall t: nat | t < TERMINALS ensures Logical(t) == old(Logical(t)) {
        assert PageBytes(PageOf(t)) == old(PageBytes(PageOf(t)));
      }
    }

    /** `switch_process_cursor`. */
    method SwitchProcessCursor(nextTer: nat)
      requires xBuf.Length == yBuf.Length == TERMINALS && xBuf != yBuf && processTer < TERMINALS && nextTer < TERMINALS
      modifies this`screenX, this`screenY, xBuf, yBuf
      ensures forall t: nat | t < TERMINALS :: SpotFor(t, nextTer) == old(SpotFor(t, processTer))
      ensures xBuf[processTer] == old(screenX) && yBuf[processTer] == old(screenY)
      ensures nextTer != processTer ==> screenX == old(xBuf[nextTer]) && screenY == old(yBuf[nextTer])
    {
      xBuf[processTer], yBuf[processTer] := screenX, screenY;
      screenX, screenY := xBuf[nextTer], yBuf[nextTer];
    }

    /** The video part of `switch_process`: both entries and the print position follow the next terminal. */
    method SwitchProcess(nextTer: nat)
      requires Laid() && nextTer < TERMINALS
      modifies this, xBuf, yBuf
      ensures Laid() && View() == Step(old(View()), Schedule(nextTer))
      ensures videoMap == userMap == PageOf(nextTer) == if nextTer == activeTer then 0 else nextTer + 1
      ensures processTer == nextTer
    {
      if nextTer == activeTer {
        videoMap := HARDWARE;
        userMap := HARDWARE;
      } else {
        videoMap := HARDWARE + nextTer + 1;
        userMap := HARDWARE + nextTer + 1;
      }
      SwitchProcessCursor(nextTer);
      processTer := nextTer;
      forall t: nat | t < TERMINALS ensures Logical(t) == old(Logical(t)) {
        assert SpotFor(t, nextTer) == old(SpotFor(t, processTer));
      }
    }

    method StoreByte(page: nat, offset: nat, b: Byte)
      requires mem.Length == (TERMINALS + 1) * PAGE && page <= TERMINALS && offset < PAGE
      modifies mem
      ensures forall p | 0 <= p <= TERMINALS ::
                PageBytes(p) == if p == page then old(PageBytes(p))[offset := b] else old(PageBytes(p))
      ensures mem[..] == old(mem[..])[page * PAGE + offset := b]
    {
      ghost var was := mem[..];
      mem[page * PAGE + offset] := b;
      assert mem[..] == was[page * PAGE + offset := b];
      forall p | 0 <= p <= TERMINALS
        ensures PageBytes(p) == if p == page then old(PageBytes(p))[offset := b] else old(PageBytes(p))
      {
        StoreInPage(was, p, page, offset, b);
      }
    }

    /** Any store of the kernel to the video address. */
    method Poke(offset: nat, b: Byte)
      requires Laid() && offset < PAGE
      modifies mem
      ensures View() == Step(old(View()), Write(offset, b))
      ensures mem[..] == old(mem[..])[4096 * videoMap + offset := b]
    {
      StoreByte(videoMap, offset, b);
      forall t: nat | t < TERMINALS
        ensures Logical(t) == if t == processTer && videoMap == PageOf(t) then old(Written(Logical(t), Write(offset, b)))
                              else old(Logical(t))
      {
        assert PageOf(t) <= TERMINALS && (PageOf(t) == videoMap ==> t == processTer);
      }
    }

    /** A switch and then a store, before any tick: on the running process's own terminal the byte shows nowhere, now or
        later; with any other one displayed it arrives. */
    method StaleWrite(ter: nat, offset: nat, b: Byte)
      requires Laid() && ter < TERMINALS && offset < PAGE
      modifies this`videoMap, this`activeTer, this`cursorReg, mem, posBuf
      ensures Laid()
      ensures ter == processTer ==> forall t: nat | t < TERMINALS :: Logical(t) == old(Logical(t))
      ensures ter != processTer ==> forall t: nat | t < TERMINALS ::
                Logical(t) == if t == processTer then old(Written(Logical(t), Write(offset, b))) else old(Logical(t))
    {
      ghost var c := View();
      SwitchVideo(ter);
      Poke(offset, b);
      StaleStep(c, ter, offset, b);
      SameTerminals(View(), if ter == processTer then c.terminals
                            else c.terminals[processTer := Written(c.terminals[processTer], Write(offset, b))]);
    }

    lemma SameTerminals(c: Console, ts: seq<Terminal>)
      requires Laid() && c == View() && c.terminals == ts
      ensures |ts| == TERMINALS && forall t: nat | t < TERMINALS :: Logical(t) == ts[t]
    {
      assert c.terminals[0] == Logical(0) && c.terminals[1] == Logical(1) && c.terminals[2] == Logical(2);
    }

    /** `update_cursor_ter`. */
    method UpdateCursorTer(pos: nat)
      requires Laid() && pos < 0x1_0000
      modifies this`cursorReg, posBuf
      ensures View() == Step(old(View()), SetCursor(pos))
      ensures posBuf[..] == old(posBuf[..])[processTer := pos]
      ensures cursorReg == if processTer == activeTer then pos else old(cursorReg)
    {
      posBuf[processTer] := pos;
      if processTer == activeTer {
        cursorReg := pos;
      }
    }

    /** `update_x_y`. */
    method UpdateXY(x: int, y: int)
      requires Laid()
      modifies this`screenX, this`screenY
      ensures View() == Step(old(View()), SetSpot(x, y))
      ensures screenX == x && screenY == y
    {
      screenX := x;
      screenY := y;
    }
  }
}
