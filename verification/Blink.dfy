/**
 The blinking-character device of the fish program: an intrusive linked list
 threaded through a static pool, in which location 0 marks a free slot, and a
 16-bit countdown in every node that flips it between two characters.
 */
module Blink {
  import opened Counting
  import opened Text

  type Word = w: int | 0 <= w < 0x1_0000

  const POOL: nat := 2000
  const NULL: int := -1

  /** The fields of a blink structure that its user sees. */
  datatype Character = Character(location: Word, onChar: Byte, offChar: Byte, onLength: Word, offLength: Word,
                                 countdown: Word, status: Word) {
    predicate On() {
      status % 2 == 1
    }

    function Shown(): Byte {
      if On() then onChar else offChar
    }

    /** As the add call stores it: on, with a full countdown. */
    function Fresh(): Character {
      this.(status := 1, countdown := onLength)
    }
  }

  datatype Node = Node(c: Character, next: int)

  const FREE: Node := Node(Character(0, 0, 0, 0, 0, 0, 0), NULL)

  // ----- The countdown automaton

  function Signed(w: Word): int {
    if w < 0x8000 then w else w - 0x1_0000
  }

  function Decrement(w: Word): Word {
    if w == 0 then 0xFFFF else w - 1
  }

  function Flip(status: Word): Word {
    if status % 2 == 0 then status + 1 else status - 1
  }

  function Tick(c: Character): Character {
    var left := Decrement(c.countdown);
    if Signed(left) > 0 then c.(countdown := left)
    else if c.On() then c.(countdown := c.offLength, status := Flip(c.status))
    else c.(countdown := c.onLength, status := Flip(c.status))
  }

  /** The tick, told by its numbers: a 16-bit count that is due when, read with a sign, it is no longer positive. */
  lemma TickIs(c: Character)
    ensures var left := (c.countdown + 0xFFFF) % 0x1_0000;
            Tick(c) ==
              if 1 <= left < 0x8000 then c.(countdown := left)
              else if c.status % 2 == 1 then c.(countdown := c.offLength, status := c.status - 1)
              else c.(countdown := c.onLength, status := c.status + 1)
    ensures c.Shown() == if c.status % 2 == 1 then c.onChar else c.offChar
  {}

  function Ticks(c: Character, n: nat): Character {
    if n == 0 then c else Tick(Ticks(c, n - 1))
  }

  /** How many ticks a countdown lasts. The test is signed, so a length above 0x8000, like 0, ends at once. */
  function Lasts(w: Word): nat {
    if 1 <= w <= 0x8000 then w else 1
  }

  /** `now` is the character `c`, `phase` ticks into its period. */
  predicate InPhase(c: Character, now: Character, phase: nat) {
    var on, off := Lasts(c.onLength), Lasts(c.offLength);
    && phase < on + off
    && now == c.(countdown := now.countdown, status := now.status)
    && now.On() == (phase < on)
    && Lasts(now.countdown) == if phase < on then on - phase else on + off - phase
  }

  lemma TickAdvances(c: Character, now: Character, phase: nat)
    requires InPhase(c, now, phase)
    ensures InPhase(c, Tick(now), if phase + 1 == Period(c) then 0 else phase + 1)
  {
    assert Signed(Decrement(now.countdown)) > 0 <==> Lasts(now.countdown) > 1;
    assert Lasts(now.countdown) > 1 ==> Lasts(Decrement(now.countdown)) == Lasts(now.countdown) - 1;
  }

  function Period(c: Character): nat {
    Lasts(c.onLength) + Lasts(c.offLength)
  }

  lemma {:induction false} PhaseAfter(c: Character, n: nat)
    ensures InPhase(c, Ticks(c.Fresh(), n), n % Period(c))
  {
    if n == 0 {
      assert InPhase(c, c.Fresh(), 0);
    } else {
      var was, phase := Ticks(c.Fresh(), n - 1), (n - 1) % Period(c);
      PhaseAfter(c, n - 1);
      TickAdvances(c, was, phase);
      NextRemainder(n - 1, Period(c));
      var next := if phase + 1 == Period(c) then 0 else phase + 1;
      assert InPhase(c, Tick(was), next) && next == n % Period(c);
    }
  }

  /** A character added and left alone is on exactly during the first part of its period, whatever its lengths. */
  lemma OnAfter(c: Character, n: nat)
    ensures Ticks(c.Fresh(), n).On() <==> n % Period(c) < Lasts(c.onLength)
  {
    PhaseAfter(c, n);
  }

  predicate OnAsAsked(c: Character, n: nat)
    requires c.onLength + c.offLength > 0
  {
    Ticks(c.Fresh(), n).On() <==> n % (c.onLength + c.offLength) < c.onLength
  }

  /** It blinks with the lengths its user asked for if and only if both are between 1 and 0x8000. */
  lemma BlinksAsAsked(c: Character)
    requires c.onLength + c.offLength > 0
    ensures (forall n: nat :: OnAsAsked(c, n)) <==> 1 <= c.onLength <= 0x8000 && 1 <= c.offLength <= 0x8000
  {
    var on: nat, off: nat := c.onLength, c.offLength;
    var period := Period(c);
    if 1 <= on <= 0x8000 && 1 <= off <= 0x8000 {
      forall n: nat ensures OnAsAsked(c, n) {
        OnAfter(c, n);
      }
    } else {
      // A tick number on which the answer is wrong.
      var n: nat := if on == 0 then 0 else if on > 0x8000 then 1 else if off == 0 then on else on + 1;
      OnAfter(c, n);
      if 1 <= on <= 0x8000 {
        if off == 0 {
          RemainderIs(n, period, 0, n);
          RemainderIs(n, on + off, 1, 0);
        } else {
          RemainderIs(n, period, 1, 0);
          RemainderIs(n, on + off, 0, n);
        }
      } else {
        RemainderIs(n, period, 0, n);
        RemainderIs(n, on + off, 0, n);
      }
      assert !OnAsAsked(c, n);
    }
  }

  // ----- The list of characters, and what its operations do to the screen

  function FirstAt(cs: seq<Character>, location: Word): (k: nat)
    ensures k <= |cs| && (k < |cs| ==> cs[k].location == location)
    ensures forall i | 0 <= i < k :: cs[i].location != location
  {
    if cs == [] || cs[0].location == location then 0 else 1 + FirstAt(cs[1..], location)
  }

  function TickAll(cs: seq<Character>): (ts: seq<Character>)
    ensures |ts| == |cs| && forall i | 0 <= i < |cs| :: ts[i] == Tick(cs[i])
  {
    seq(|cs|, i requires 0 <= i < |cs| => Tick(cs[i]))
  }

  /** The characters when the tasklet has reached position `n`. */
  function TickedUpTo(cs: seq<Character>, n: nat): (ts: seq<Character>)
    ensures |ts| == |cs| && forall i | 0 <= i < |cs| :: ts[i] == if i < n then Tick(cs[i]) else cs[i]
  {
    seq(|cs|, i requires 0 <= i < |cs| => if i < n then Tick(cs[i]) else cs[i])
  }

  lemma TickedOneMore(cs: seq<Character>, n: nat)
    requires n < |cs|
    ensures TickedUpTo(cs, 0) == cs && TickedUpTo(cs, |cs|) == TickAll(cs)
    ensures TickedUpTo(cs, n)[n] == cs[n] && TickedUpTo(cs, n)[n := Tick(cs[n])] == TickedUpTo(cs, n + 1)
  {}

  predicate OnScreen(video: Bytes, cs: seq<Character>) {
    forall i | 0 <= i < |cs| :: 2 * cs[i].location < |video|
  }

  /** One node of the tasklet: a node that flips is drawn with its new character. */
  function Draw(video: Bytes, c: Character): Bytes
    requires 2 * c.location < |video|
  {
    if Tick(c).status == c.status then video else video[2 * c.location := Tick(c).Shown()]
  }

  function DrawAll(video: Bytes, cs: seq<Character>): (v: Bytes)
    requires OnScreen(video, cs)
    ensures |v| == |video|
    decreases cs
  {
    if cs == [] then video
    else
      assert OnScreen(video, cs[1..]) && 2 * cs[0].location < |video|;
      DrawAll(Draw(video, cs[0]), cs[1..])
  }

  lemma DrawNext(video: Bytes, cs: seq<Character>, i: nat)
    requires i < |cs| && OnScreen(video, cs[i..])
    ensures 2 * cs[i].location < |video| && OnScreen(Draw(video, cs[i]), cs[i + 1..])
    ensures DrawAll(video, cs[i..]) == DrawAll(Draw(video, cs[i]), cs[i + 1..])
  {
    assert cs[i..][0] == cs[i] && cs[i..][1..] == cs[i + 1..];
    assert OnScreen(video, cs[i..][1..]);
  }

  predicate Distinct(cs: seq<Character>) {
    forall i, j | 0 <= i < j < |cs| :: cs[i].location != cs[j].location
  }

  /** Every listed character is the one on the screen at its location. */
  predicate Displayed(video: Bytes, cs: seq<Character>) {
    OnScreen(video, cs) && forall i | 0 <= i < |cs| :: video[2 * cs[i].location] == cs[i].Shown()
  }

  lemma {:induction false} DrawAllElsewhere(video: Bytes, cs: seq<Character>, at: nat)
    requires OnScreen(video, cs) && at < |video|
    requires forall i | 0 <= i < |cs| :: 2 * cs[i].location != at
    ensures DrawAll(video, cs)[at] == video[at]
    decreases cs
  {
    if cs != [] {
      assert 2 * cs[0].location != at && OnScreen(video, cs[1..]);
      DrawAllElsewhere(Draw(video, cs[0]), cs[1..], at);
    }
  }

  /** At the locations in `at` at most one character is listed, and it is the one on the screen. */
  predicate Agreed(video: Bytes, cs: seq<Character>, at: set<Word>) {
    && (forall i | 0 <= i < |cs| && cs[i].location in at :: 2 * cs[i].location < |video| && video[2 * cs[i].location] == cs[i].Shown())
    && (forall i, j | 0 <= i < j < |cs| && cs[i].location in at :: cs[j].location != cs[i].location)
  }

  /** Agreement everywhere is distinct locations with every character displayed. */
  lemma AgreedIsDisplayed(video: Bytes, cs: seq<Character>, at: set<Word>)
    requires forall i | 0 <= i < |cs| :: cs[i].location in at
    ensures Agreed(video, cs, at) <==> Displayed(video, cs) && Distinct(cs)
  {}

  lemma {:induction false} DrawAllAt(video: Bytes, cs: seq<Character>, i: nat)
    requires OnScreen(video, cs) && i < |cs|
    requires forall j | 0 <= j < |cs| && j != i :: cs[j].location != cs[i].location
    ensures 2 * cs[i].location < |video|
    ensures DrawAll(video, cs)[2 * cs[i].location] == Draw(video, cs[i])[2 * cs[i].location]
    decreases cs
  {
    var drawn, rest := Draw(video, cs[0]), cs[1..];
    assert OnScreen(drawn, rest);
    assert forall j | 0 <= j < |rest| :: rest[j] == cs[j + 1];
    if i == 0 {
      DrawAllElsewhere(drawn, rest, 2 * cs[0].location);
    } else {
      DrawAllAt(drawn, rest, i - 1);
      assert drawn[2 * cs[i].location] == video[2 * cs[i].location];
    }
  }

  /** A tick keeps screen and list in agreement wherever they agree, whatever else is listed. */
  lemma TickKeepsAgreement(video: Bytes, cs: seq<Character>, at: set<Word>)
    requires OnScreen(video, cs) && Agreed(video, cs, at)
    ensures Agreed(DrawAll(video, cs), TickAll(cs), at)
  {
    var ts := TickAll(cs);
    forall i | 0 <= i < |ts| && ts[i].location in at
      ensures 2 * ts[i].location < |video| && DrawAll(video, cs)[2 * ts[i].location] == ts[i].Shown()
    {
      assert ts[i] == Tick(cs[i]) && cs[i].location == ts[i].location;
      forall j | 0 <= j < |cs| && j != i ensures cs[j].location != cs[i].location {}
      DrawAllAt(video, cs, i);
    }
  }

  /** With distinct locations a tick keeps every character displayed. */
  lemma TickKeepsDisplay(video: Bytes, cs: seq<Character>)
    requires Displayed(video, cs) && Distinct(cs)
    ensures Displayed(DrawAll(video, cs), TickAll(cs))
  {
    var at := set i | 0 <= i < |cs| :: cs[i].location;
    AgreedIsDisplayed(video, cs, at);
    TickKeepsAgreement(video, cs, at);
    AgreedIsDisplayed(DrawAll(video, cs), TickAll(cs), at);
  }

  /** Where there is agreement once `c` has been added to `cs`. */
  function AgreedAfterAdd(cs: seq<Character>, at: set<Word>, location: Word): set<Word> {
    if FirstAt(cs, location) < |cs| then at - {location} else at + {location}
  }

  /** An added character is displayed, and agrees if no other has its location. */
  lemma AddKeepsAgreement(video: Bytes, cs: seq<Character>, at: set<Word>, asked: Character)
    requires Agreed(video, cs, at) && 2 * asked.location < |video|
    ensures Agreed(video[2 * asked.location := asked.onChar], [asked.Fresh()] + cs, AgreedAfterAdd(cs, at, asked.location))
  {}

  /** Where there is agreement after a sync to `to`. */
  function AgreedAfterSync(at: set<Word>, from: Character, to: Character): set<Word> {
    if from.On() && to.onChar != to.offChar then at - {to.location} else at
  }

  lemma SyncKeepsAgreement(video: Bytes, cs: seq<Character>, at: set<Word>, from: nat, to: nat)
    requires from < |cs| && to < |cs| && Agreed(video, cs, at) && 2 * cs[to].location < |video|
    ensures var now := Synced(cs[from], cs[to]);
            Agreed(video[2 * now.location := now.offChar], cs[to := now], AgreedAfterSync(at, cs[from], cs[to]))
  {}

  function Synced(from: Character, to: Character): Character {
    to.(onLength := from.onLength, offLength := from.offLength, countdown := from.countdown, status := from.status)
  }

  /** A sync draws the off character whatever it copied, so it keeps the agreement exactly when it copied "off" or the two look alike. */
  lemma SyncDisplay(video: Bytes, cs: seq<Character>, from: nat, to: nat)
    requires from < |cs| && to < |cs| && Displayed(video, cs) && Distinct(cs)
    ensures var now := Synced(cs[from], cs[to]);
            Displayed(video[2 * now.location := now.offChar], cs[to := now])
            <==> !cs[from].On() || cs[to].onChar == cs[to].offChar
  {
    var now := Synced(cs[from], cs[to]);
    var v, ds := video[2 * now.location := now.offChar], cs[to := now];
    assert ds[to] == now && OnScreen(v, ds);
    if Displayed(v, ds) {
      assert v[2 * ds[to].location] == ds[to].Shown();
    }
  }

  // ----- The device

  function Cut<T>(s: seq<T>, k: nat): (t: seq<T>)
    requires k < |s|
    ensures |t| == |s| - 1
    ensures forall i | 0 <= i < |t| :: t[i] == s[if i < k then i else i + 1]
  {
    s[..k] + s[k + 1..]
  }

  lemma RemoveKeepsAgreement(video: Bytes, cs: seq<Character>, at: set<Word>, k: nat)
    requires Agreed(video, cs, at) && k < |cs|
    ensures Agreed(video, Cut(cs, k), at)
  {}

  lemma InCut<T>(s: seq<T>, k: nat, x: T)
    requires k < |s| && x in s && x != s[k]
    ensures x in Cut(s, k)
  {
    var i :| 0 <= i < |s| && s[i] == x;
    assert Cut(s, k)[if i < k then i else i - 1] == x;
  }

  /** What is known of a node no sync has written to: the character added and the ticks since. */
  datatype Record = Record(asked: Character, age: nat)

  predicate Recorded(cs: seq<Character>, rs: seq<Option<Record>>) {
    && |rs| == |cs|
    && forall i | 0 <= i < |cs| && rs[i].Some? :: cs[i] == Ticks(rs[i].value.asked.Fresh(), rs[i].value.age)
  }

  function Aged(rs: seq<Option<Record>>): (ss: seq<Option<Record>>)
    ensures |ss| == |rs|
    ensures forall i | 0 <= i < |rs| ::
              ss[i] == if rs[i].None? then None else Some(Record(rs[i].value.asked, rs[i].value.age + 1))
  {
    seq(|rs|, i requires 0 <= i < |rs| =>
      if rs[i].None? then None else Some(Record(rs[i].value.asked, rs[i].value.age + 1)))
  }

  lemma RecordedAfterAdd(cs: seq<Character>, rs: seq<Option<Record>>, asked: Character)
    requires Recorded(cs, rs)
    ensures Recorded([asked.Fresh()] + cs, [Some(Record(asked, 0))] + rs)
  {
    assert Ticks(asked.Fresh(), 0) == asked.Fresh();
  }

  lemma RecordedAfterRemove(cs: seq<Character>, rs: seq<Option<Record>>, k: nat)
    requires Recorded(cs, rs) && k < |cs|
    ensures Recorded(Cut(cs, k), Cut(rs, k))
  {}

  lemma RecordedAfterSync(cs: seq<Character>, rs: seq<Option<Record>>, k: nat, c: Character)
    requires Recorded(cs, rs) && k < |cs|
    ensures Recorded(cs[k := c], rs[k := None])
  {}

  lemma RecordedAfterTick(cs: seq<Character>, rs: seq<Option<Record>>)
    requires Recorded(cs, rs)
    ensures Recorded(TickAll(cs), Aged(rs))
  {
    forall i | 0 <= i < |cs| && rs[i].Some?
      ensures TickAll(cs)[i] == Ticks(rs[i].value.asked.Fresh(), rs[i].value.age + 1)
    {}
  }

  /** On any reachable device: a node never written by a sync is on exactly in the first part of its period since it was added. */
  lemma RecordedIsPeriodic(cs: seq<Character>, rs: seq<Option<Record>>, i: nat)
    requires Recorded(cs, rs) && i < |cs| && rs[i].Some?
    ensures var asked := rs[i].value.asked;
            cs[i].On() <==> rs[i].value.age % Period(asked) < Lasts(asked.onLength)
  {
    OnAfter(rs[i].value.asked, rs[i].value.age);
  }

  lemma {:induction false} TicksKeepTheRest(c: Character, n: nat)
    ensures Ticks(c, n) == c.(countdown := Ticks(c, n).countdown, status := Ticks(c, n).status)
  {
    if n > 0 { TicksKeepTheRest(c, n - 1); }
  }

  /** And where screen and list agree, its cell shows the character that its user asked for at that time. */
  lemma AgreedIsPeriodic(video: Bytes, cs: seq<Character>, rs: seq<Option<Record>>, at: set<Word>, i: nat)
    requires Recorded(cs, rs) && Agreed(video, cs, at)
    requires i < |cs| && rs[i].Some? && cs[i].location in at
    ensures var asked, age := rs[i].value.asked, rs[i].value.age;
            && cs[i].location == asked.location && 2 * asked.location < |video|
            && video[2 * asked.location] ==
               if age % Period(asked) < Lasts(asked.onLength) then asked.onChar else asked.offChar
  {
    TicksKeepTheRest(rs[i].value.asked.Fresh(), rs[i].value.age);
    RecordedIsPeriodic(cs, rs, i);
  }

  function LinkAt(list: seq<nat>, i: nat): int {
    if i < |list| then list[i] else NULL
  }

  /** The links from `head` thread the slots `slots`, which hold `cs`; every other slot is free. */
  ghost predicate Threaded(nodes: seq<Node>, head: int, slots: seq<nat>, cs: seq<Character>) {
    && |cs| == |slots|
    && head == LinkAt(slots, 0)
    && (forall i | 0 <= i < |slots| :: slots[i] < |nodes|)
    && (forall i {:trigger nodes[slots[i]]} | 0 <= i < |slots| :: nodes[slots[i]] == Node(cs[i], LinkAt(slots, i + 1)))
    && (forall i | 0 <= i < |slots| :: 0 < cs[i].location < POOL)
    && (forall i, j | 0 <= i < j < |slots| :: slots[i] != slots[j])
    && (forall s | 0 <= s < |nodes| && s !in slots :: nodes[s].c.location == 0)
  }

  /** The pool once position `k` has been bypassed and its slot cleared. */
  function Bypassed(nodes: seq<Node>, slots: seq<nat>, k: nat): seq<Node>
    requires k < |slots| && forall i | 0 <= i < |slots| :: slots[i] < |nodes|
  {
    var linked :=
      if k == 0 then nodes
      else nodes[slots[k - 1] := nodes[slots[k - 1]].(next := nodes[slots[k]].next)];
    linked[slots[k] := FREE]
  }

  lemma BypassedAt(nodes: seq<Node>, head: int, slots: seq<nat>, cs: seq<Character>, k: nat, j: nat)
    requires Threaded(nodes, head, slots, cs) && k < |slots| && j < |slots| && j != k
    ensures Bypassed(nodes, slots, k)[slots[j]]
            == Node(cs[j], if j + 1 == k then LinkAt(slots, k + 1) else LinkAt(slots, j + 1))
  {
    var here, there := nodes[slots[j]], nodes[slots[k]];
    assert slots[j] != slots[k] && (k > 0 && j != k - 1 ==> slots[j] != slots[k - 1]);
    assert here == Node(cs[j], LinkAt(slots, j + 1)) && there.next == LinkAt(slots, k + 1);
  }

  lemma BypassedLinks(nodes: seq<Node>, head: int, slots: seq<nat>, cs: seq<Character>, k: nat, i: nat)
    requires Threaded(nodes, head, slots, cs) && k < |slots| && i < |slots| - 1
    ensures var after, left := Bypassed(nodes, slots, k), Cut(slots, k);
            left[i] < |after| && after[left[i]] == Node(Cut(cs, k)[i], LinkAt(left, i + 1))
  {
    BypassedAt(nodes, head, slots, cs, k, if i < k then i else i + 1);
  }

  lemma CutIsDistinct(slots: seq<nat>, k: nat)
    requires k < |slots| && forall i, j | 0 <= i < j < |slots| :: slots[i] != slots[j]
    ensures forall i, j | 0 <= i < j < |slots| - 1 :: Cut(slots, k)[i] != Cut(slots, k)[j]
  {}

  lemma CutOnScreen(cs: seq<Character>, k: nat)
    requires k < |cs| && forall i | 0 <= i < |cs| :: 0 < cs[i].location < POOL
    ensures forall i | 0 <= i < |cs| - 1 :: 0 < Cut(cs, k)[i].location < POOL
  {}

  lemma BypassedHead(nodes: seq<Node>, head: int, slots: seq<nat>, cs: seq<Character>, k: nat)
    requires Threaded(nodes, head, slots, cs) && k < |slots|
    ensures (if k == 0 then nodes[slots[k]].next else head) == LinkAt(Cut(slots, k), 0)
  {
    assert nodes[slots[k]].next == LinkAt(slots, k + 1);
  }

  lemma BypassedIsThreaded(nodes: seq<Node>, head: int, slots: seq<nat>, cs: seq<Character>, k: nat)
    requires Threaded(nodes, head, slots, cs) && k < |slots|
    ensures Threaded(Bypassed(nodes, slots, k), if k == 0 then nodes[slots[k]].next else head, Cut(slots, k), Cut(cs, k))
  {
    var after, left := Bypassed(nodes, slots, k), Cut(slots, k);
    BypassedHead(nodes, head, slots, cs, k);
    CutIsDistinct(slots, k);
    CutOnScreen(cs, k);
    BypassedIsFree(nodes, slots, k);
    forall i | 0 <= i < |left| ensures left[i] < |after| && after[left[i]] == Node(Cut(cs, k)[i], LinkAt(left, i + 1)) {
      BypassedLinks(nodes, head, slots, cs, k, i);
    }
  }

  lemma BypassedIsFree(nodes: seq<Node>, slots: seq<nat>, k: nat)
    requires k < |slots| && forall i | 0 <= i < |slots| :: slots[i] < |nodes|
    requires forall i, j | 0 <= i < j < |slots| :: slots[i] != slots[j]
    requires forall s | 0 <= s < |nodes| && s !in slots :: nodes[s].c.location == 0
    ensures forall s | 0 <= s < |nodes| && s !in Cut(slots, k) :: Bypassed(nodes, slots, k)[s].c.location == 0
  {
    forall s | 0 <= s < |nodes| && s !in Cut(slots, k) ensures Bypassed(nodes, slots, k)[s].c.location == 0 {
      if s in slots && s != slots[k] { InCut(slots, k, s); }
    }
  }

  /** The pool is exhausted exactly when the list holds as many nodes as it has slots. */
  lemma FullPool(nodes: seq<Node>, head: int, slots: seq<nat>, cs: seq<Character>)
    requires Threaded(nodes, head, slots, cs)
    ensures (forall s: nat | s < |nodes| :: s in slots) <==> |cs| == |nodes|
  {
    Exhausted(slots, |nodes|);
  }

  /** Links that lead to a slot that looks free thread no list. */
  lemma ThreadsNothing(nodes: seq<Node>, head: nat)
    requires head < |nodes| && nodes[head].c.location == 0
    ensures forall slots: seq<nat>, cs: seq<Character> :: !Threaded(nodes, head, slots, cs)
  {
    forall slots: seq<nat>, cs: seq<Character> ensures !Threaded(nodes, head, slots, cs) {
      if slots != [] && |cs| == |slots| && slots[0] == head {
        assert nodes[slots[0]] != Node(cs[0], LinkAt(slots, 1)) || cs[0].location == 0;
      }
    }
  }

  class Device {
    const pool: array<Node>
    const video: array<Byte>
    var head: int
    ghost var list: seq<nat>
    ghost var chars: seq<Character>
    ghost var records: seq<Option<Record>>
    ghost var agreed: set<Word>            // where screen and list are known to agree

    ghost predicate Represents(slots: seq<nat>, cs: seq<Character>)
      reads this`head, pool
    {
      pool.Length == POOL && video.Length >= 2 * POOL && Threaded(pool[..], head, slots, cs)
    }

    ghost predicate Valid()
      reads this, pool, video
    {
      Represents(list, chars) && Recorded(chars, records) && Agreed(video[..], chars, agreed)
    }

    constructor (video: array<Byte>)
      requires video.Length >= 2 * POOL
      ensures Valid() && list == [] && agreed == {} && this.video == video && fresh(pool)
    {
      pool := new Node[POOL](_ => FREE);
      this.video := video;
      head := NULL;
      list, chars, records, agreed := [], [], [], {};
    }

    /** `mp1_malloc`: the first slot with location 0. */
    method Malloc() returns (slot: int)
      requires pool.Length == POOL
      ensures slot == NULL ==> forall s | 0 <= s < POOL :: pool[s].c.location != 0
      ensures slot != NULL ==> 0 <= slot < POOL && pool[slot].c.location == 0
      ensures slot != NULL ==> forall s | 0 <= s < slot :: pool[s].c.location != 0
    {
      slot := 0;
      while slot < POOL
        invariant 0 <= slot <= POOL && forall s | 0 <= s < slot :: pool[s].c.location != 0
      {
        if pool[slot].c.location == 0 { return; }
        slot := slot + 1;
      }
      return NULL;
    }

    /** Fills a free slot and puts it in front of the list. */
    method Link(slot: nat, c: Character)
      requires Represents(list, chars) && slot < POOL && slot !in list && c.location < POOL
      modifies this, pool
      ensures list == [slot] + old(list) && chars == [c] + old(chars) && records == old(records) && agreed == old(agreed)
      ensures c.location != 0 ==> Represents(list, chars)
      ensures c.location == 0 ==> forall slots: seq<nat>, cs: seq<Character> :: !Represents(slots, cs)
    {
      pool[slot] := Node(c, head);
      head := slot;
      list, chars := [slot] + list, [c] + chars;
      if c.location == 0 {
        ThreadsNothing(pool[..], slot);
      }
    }

    /** `mp1_ioctl_add`. A character at location 0 is linked in all the same, into a slot that still looks free. */
    method Add(asked: Character) returns (r: int)
      requires Valid()
      modifies this, pool, video
      ensures r in {0, -1}
      ensures r == -1 <==> asked.location >= 2000 || |old(list)| == 2000
      ensures r == -1 ==> Valid() && list == old(list) && chars == old(chars) && records == old(records) && agreed == old(agreed)
      ensures video[..] == if r == -1 then old(video[..]) else old(video[..])[2 * asked.location := asked.onChar]
      ensures r == 0 && asked.location != 0 ==>
                && Valid() && chars == [asked.Fresh()] + old(chars)
                && chars[0] == Character(asked.location, asked.onChar, asked.offChar, asked.onLength, asked.offLength, asked.onLength, 1)
                && list[1..] == old(list)
                && records == [Some(Record(asked, 0))] + old(records)
                && agreed == AgreedAfterAdd(old(chars), old(agreed), asked.location)
                && agreed == (if FirstAt(old(chars), asked.location) < |old(chars)| then old(agreed) - {asked.location}
                              else old(agreed) + {asked.location})
      ensures r == 0 && asked.location == 0 ==>
                forall slots: seq<nat>, cs: seq<Character> :: !Represents(slots, cs)
    {
      if asked.location >= POOL { return -1; }
      FullPool(pool[..], head, list, chars);
      var c := asked.(status := 1);
      c := c.(countdown := c.onLength);
      var slot := Malloc();
      if slot == NULL { return -1; }
      assert slot !in list;
      RecordedAfterAdd(chars, records, asked);
      AddKeepsAgreement(video[..], chars, agreed, asked);
      agreed := AgreedAfterAdd(chars, agreed, asked.location);
      Link(slot, c);
      video[2 * c.location] := c.onChar;
      records := [Some(Record(asked, 0))] + records;
      assert slot !in old(list);
      return 0;
    }

    /** `mp1_find_helper`: walks the links to the newest node at a location. */
    method FindHelper(location: Word) returns (slot: int)
      requires Valid()
      ensures slot == LinkAt(list, FirstAt(chars, location))
    {
      slot := head;
      ghost var i := 0;
      while slot != NULL
        invariant 0 <= i <= |list| && slot == LinkAt(list, i)
        invariant forall j | 0 <= j < i :: chars[j].location != location
        decreases |list| - i
      {
        if pool[slot].c.location == location {
          return;
        }
        slot := pool[slot].next;
        i := i + 1;
      }
    }

    /** `mp1_ioctl_find`, with the structure it copies out. */
    method Find(location: Word) returns (found: Option<Character>)
      requires Valid()
      ensures var k := FirstAt(chars, location); found == if k < |chars| then Some(chars[k]) else None
    {
      var slot := FindHelper(location);
      if slot == NULL { return None; }
      return Some(pool[slot].c);
    }

    /** The search of `mp1_ioctl_remove` for the link that leads to `slot`: NULL stands for `mp1_list_head`, a slot for its next field. */
    method FindLink(slot: nat, ghost k: nat) returns (prev: int)
      requires Represents(list, chars) && k < |list| && list[k] == slot
      ensures prev == if k == 0 then NULL else list[k - 1]
    {
      prev := NULL;
      var link := head;
      ghost var i := 0;
      while link != slot
        invariant 0 <= i <= k && link == list[i] && prev == (if i == 0 then NULL else list[i - 1])
        decreases k - i
      {
        prev := link;
        link := pool[prev].next;
        i := i + 1;
      }
    }

    /** Takes the node at position `k` out of the list and clears its slot. */
    method Unlink(prev: int, slot: nat, ghost k: nat)
      requires Represents(list, chars) && k < |list| && list[k] == slot
      requires prev == if k == 0 then NULL else list[k - 1]
      modifies this, pool
      ensures list == Cut(old(list), k) && chars == Cut(old(chars), k)
      ensures Represents(list, chars) && pool[slot] == FREE && records == old(records) && agreed == old(agreed)
    {
      ghost var was := pool[..];
      BypassedIsThreaded(was, head, list, chars, k);
      var next := pool[slot].next;
      if prev == NULL {
        head := next;
      } else {
        pool[prev] := pool[prev].(next := next);
      }
      pool[slot] := FREE;
      assert pool[..] == Bypassed(was, list, k);
      list, chars := Cut(list, k), Cut(chars, k);
    }

    /** `mp1_ioctl_remove`: unlinks the newest node at the location in the low half of `arg` and frees its slot. */
    method Remove(arg: nat) returns (r: int)
      requires Valid()
      modifies this, pool
      ensures Valid() && agreed == old(agreed)
      ensures var k := FirstAt(old(chars), arg % 0x1_0000);
              if k == |old(chars)| then r == -1 && list == old(list) && chars == old(chars) && records == old(records)
              else
                && r == 0 && pool[old(list)[k]] == FREE
                && list == Cut(old(list), k)
                && chars == Cut(old(chars), k)
                && records == Cut(old(records), k)
    {
      ghost var k := FirstAt(chars, arg % 0x1_0000);
      var slot := FindHelper(arg % 0x1_0000);
      if slot == NULL { return -1; }
      RecordedAfterRemove(chars, records, k);
      RemoveKeepsAgreement(video[..], chars, agreed, k);
      var prev := FindLink(slot, k);
      Unlink(prev, slot, k);
      records := Cut(records, k);
      return 0;
    }

    /** `mp1_ioctl_sync`: copies the timing of the character at the high half of `arg` to the one at the low half. */
    method Sync(arg: nat) returns (r: int)
      requires Valid() && arg < 0x1_0000_0000
      modifies this, pool, video
      ensures Valid() && list == old(list)
      ensures var from, to := FirstAt(old(chars), arg / 0x1_0000), FirstAt(old(chars), arg % 0x1_0000);
              if from == |list| || to == |list|
              then r == -1 && chars == old(chars) && records == old(records) && agreed == old(agreed) && video[..] == old(video[..])
              else
                var now := Synced(old(chars)[from], old(chars)[to]);
                && r == 0 && chars == old(chars)[to := now] && records == old(records)[to := None]
                && video[..] == old(video[..])[2 * now.location := now.offChar]
                && agreed == AgreedAfterSync(old(agreed), old(chars)[from], old(chars)[to])
                && (var f, t := old(chars)[from], old(chars)[to];
                    now == Character(t.location, t.onChar, t.offChar, f.onLength, f.offLength, f.countdown, f.status)
                    && agreed == if f.status % 2 == 1 && t.onChar != t.offChar then old(agreed) - {t.location} else old(agreed))
    {
      var from := FindHelper(arg / 0x1_0000);
      if from == NULL { return -1; }
      var to := FindHelper(arg % 0x1_0000);
      if to == NULL { return -1; }
      ghost var i, k := FirstAt(chars, arg / 0x1_0000), FirstAt(chars, arg % 0x1_0000);
      RecordedAfterSync(chars, records, k, Synced(chars[i], chars[k]));
      SyncKeepsAgreement(video[..], chars, agreed, i, k);
      agreed := AgreedAfterSync(agreed, chars[i], chars[k]);
      records := records[k := None];
      CopyTiming(from, to, i, k);
      return 0;
    }

    /** The copies of `mp1_ioctl_sync` and what it draws. */
    method CopyTiming(from: nat, to: nat, ghost i: nat, ghost k: nat)
      requires Represents(list, chars) && i < |list| && k < |list| && list[i] == from && list[k] == to
      modifies this`chars, pool, video
      ensures Represents(list, chars) && chars == old(chars)[k := Synced(old(chars)[i], old(chars)[k])]
      ensures 2 * chars[k].location < video.Length && video[..] == old(video[..])[2 * chars[k].location := chars[k].offChar]
    {
      assert pool[from].c == chars[i] && pool[to].c == chars[k];
      var c := Synced(pool[from].c, pool[to].c);
      pool[to] := pool[to].(c := c);
      video[2 * c.location] := c.offChar;
      chars := chars[k := c];
    }

    /** One pass of the tasklet's loop, at the node in position `i`. */
    method TickNode(node: nat, ghost i: nat)
      requires Represents(list, chars) && i < |list| && list[i] == node
      modifies this`chars, pool, video
      ensures Represents(list, chars) && chars == old(chars)[i := Tick(old(chars)[i])]
      ensures 2 * old(chars)[i].location < video.Length && video[..] == Draw(old(video[..]), old(chars)[i])
    {
      var c := pool[node].c;
      var left := Decrement(c.countdown);
      c := c.(countdown := left);
      if !(Signed(left) > 0) {
        if c.On() {
          video[2 * c.location] := c.offChar;
          c := c.(countdown := c.offLength);
        } else {
          video[2 * c.location] := c.onChar;
          c := c.(countdown := c.onLength);
        }
        c := c.(status := Flip(c.status));
      }
      pool[node] := pool[node].(c := c);
      chars := chars[i := c];
    }

    /** `mp1_rtc_tasklet`: every node ticks once, in list order, and the ones that flip are drawn. */
    method Tasklet()
      requires Valid()
      modifies this, pool, video
      ensures Valid() && list == old(list) && agreed == old(agreed)
      ensures chars == TickAll(old(chars)) && records == Aged(old(records))
      ensures OnScreen(old(video[..]), old(chars)) && video[..] == DrawAll(old(video[..]), old(chars))
    {
      RecordedAfterTick(chars, records);
      ListIsOnScreen();
      TickKeepsAgreement(video[..], chars, agreed);
      TickList();
      records := Aged(records);
    }

    lemma ListIsOnScreen()
      requires Represents(list, chars)
      ensures OnScreen(video[..], chars)
    {
    }

    /** The loop of the tasklet. */
    method TickList()
      requires Represents(list, chars) && OnScreen(video[..], chars)
      modifies this`chars, pool, video
      ensures Represents(list, chars) && chars == TickAll(old(chars))
      ensures video[..] == DrawAll(old(video[..]), old(chars))
    {
      ghost var cs, shown := chars, video[..];
      assert cs[0..] == cs == TickedUpTo(cs, 0) && TickedUpTo(cs, |cs|) == TickAll(cs);
      ghost var i := 0;
      var node := head;
      while node != NULL
        invariant 0 <= i <= |list| && node == LinkAt(list, i)
        invariant Represents(list, chars) && chars == TickedUpTo(cs, i)
        invariant OnScreen(video[..], cs[i..]) && OnScreen(shown, cs)
        invariant DrawAll(video[..], cs[i..]) == DrawAll(shown, cs)
        decreases |list| - i
      {
        DrawNext(video[..], cs, i);
        TickedOneMore(cs, i);
        TickNode(node, i);
        node := pool[node].next;
        i := i + 1;
      }
    }
  }
}
