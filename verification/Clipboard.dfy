/**
 * The clipboard boards and the pump that carries text between them and the
 * host clipboard. The state is one value, `Desk`; `Pumped` says what a pump
 * does to it board by board, and the class does it in the program's two loops.
 * Texts are their UTF-8 bytes.
 */
module Clipboard {
  import opened Outcomes

  /** The longest text that crosses a board in either direction, in bytes. */
  const MAX_TEXT := 4 * 1024 * 1024
  /** How long a reading of the host clipboard stands, in milliseconds. */
  const CLIP_POLL := 250

  /** One clipboard node: what was last observed, and what a guest asks to copy. */
  datatype Board = Board(present: bool, seqNo: nat, text: string, outbox: Option<string>)

  /** All boards, which of them an app is wired to, the host's text, and when it was last read. */
  datatype Desk = Desk(boards: seq<Board>, wired: seq<bool>, host: string, polled: Option<nat>)
  {
    ghost predicate Valid() {
      && |boards| == |wired|
      && forall b :: b in boards ==> b.seqNo == 0 ==> b.text == ""
    }

    predicate AnyWired() { true in wired }
  }

  /**
   * What the world decides during one pump: whether there is a host clipboard,
   * whether the write for each board is accepted, the time of those writes,
   * what other programs write before the poll, the time of the poll, and
   * whether the host's text can be read.
   */
  datatype World = World(present: bool, accepts: nat -> bool, wrote: nat, between: seq<string>,
                         now: nat, readable: bool)

  // ---- what a guest sees and asks for ----

  datatype Snapshot = Snapshot(seqNo: nat, text: string)

  function Get(b: Board, mayRead: bool): Option<Snapshot> {
    if !mayRead || b.seqNo == 0 || |b.text| > MAX_TEXT then None else Some(Snapshot(b.seqNo, b.text))
  }

  function Set(b: Board, mayWrite: bool, text: string): Board {
    if !mayWrite || |text| > MAX_TEXT then b else b.(outbox := Some(text))
  }

  // ---- the pump, board by board ----

  /** Board `i`'s outgoing text, when the host takes it. */
  function Copied(d: Desk, w: World, i: nat): Option<string>
    requires i < |d.boards| == |d.wired|
  {
    if d.wired[i] && w.present && w.accepts(i) then d.boards[i].outbox else None
  }

  /** The texts the boards from `i` up to before `n` put on the host clipboard, in order. */
  function Copies(d: Desk, w: World, i: nat, n: nat): seq<string>
    requires i <= n <= |d.boards| == |d.wired|
    decreases n - i
  {
    if i == n then []
    else Copies(d, w, i, n - 1) + match Copied(d, w, n - 1) { case Some(t) => [t] case None => [] }
  }

  function HostAfter(host: string, writes: seq<string>): string {
    if writes == [] then host else writes[|writes| - 1]
  }

  /** The text becomes the board's current value; the number moves only on a change. */
  function Publish(b: Board, text: string): Board {
    if b.text == text then b else b.(seqNo := b.seqNo + 1, text := text)
  }

  /** The same on a poll, which also counts as a change when it is the first observation. */
  function Observe(b: Board, text: string): Board {
    if b.seqNo == 0 || b.text != text then b.(seqNo := b.seqNo + 1, text := text) else b
  }

  /** A board once drained: its outbox is empty whether or not the host took the text. */
  function Drained(b: Board, present: bool, copied: Option<string>): Board {
    var e := b.(present := present, outbox := None);
    match copied case Some(t) => Publish(e, t) case None => e
  }

  function PolledAfter(d: Desk, w: World): Option<nat>
    requires |d.boards| == |d.wired|
  {
    if Copies(d, w, 0, |d.boards|) != [] then Some(w.wrote) else d.polled
  }

  predicate Due(polled: Option<nat>, now: nat) {
    polled == None || now - polled.value >= CLIP_POLL
  }

  /** All that is written to the host clipboard during one pump. */
  function Writes(d: Desk, w: World): seq<string>
    requires |d.boards| == |d.wired|
  {
    Copies(d, w, 0, |d.boards|) + w.between
  }

  /** Whether this pump reads the host clipboard. */
  predicate PollSucceeds(d: Desk, w: World)
    requires |d.boards| == |d.wired|
  {
    d.AnyWired() && Due(PolledAfter(d, w), w.now) && w.present && w.readable
  }

  function PumpedBoard(d: Desk, w: World, i: nat): Board
    requires i < |d.boards| == |d.wired|
  {
    if !d.wired[i] then d.boards[i]
    else
      var b := Drained(d.boards[i], w.present, Copied(d, w, i));
      if PollSucceeds(d, w) then Observe(b, HostAfter(d.host, Writes(d, w))) else b
  }

  function Pumped(d: Desk, w: World): Desk
    requires |d.boards| == |d.wired|
  {
    Desk(seq(|d.boards|, i requires 0 <= i < |d.boards| => PumpedBoard(d, w, i)),
         d.wired,
         HostAfter(d.host, Writes(d, w)),
         if d.AnyWired() && Due(PolledAfter(d, w), w.now) then Some(w.now) else PolledAfter(d, w))
  }

  // ---- the program's own loops ----

  class Compositor {
    var boards: seq<Board>
    var wired: seq<bool>
    var host: string
    var polled: Option<nat>

    function View(): Desk
      reads this
    {
      Desk(boards, wired, host, polled)
    }

    /** New boards, none wired, nothing observed. */
    constructor (n: nat, text: string)
      ensures View().Valid() && |boards| == n && host == text
      ensures forall b :: b in boards ==> b.seqNo == 0 && b.outbox == None
    {
      boards := seq(n, i => Board(false, 0, "", None));
      wired := seq(n, i => false);
      host := text;
      polled := None;
    }

    /** Out: every wired board's outbox is taken, and offered to the host. */
    method Drain(w: World)
      requires |boards| == |wired|
      modifies this`boards, this`host, this`polled
      ensures |boards| == |wired|
      ensures forall i :: 0 <= i < |boards| ==>
        boards[i] == if wired[i] then Drained(old(boards[i]), w.present, Copied(old(View()), w, i)) else old(boards[i])
      ensures host == HostAfter(old(host), Copies(old(View()), w, 0, |boards|))
      ensures polled == PolledAfter(old(View()), w)
    {
      ghost var was := View();
      var i := 0;
      while i < |boards|
        invariant 0 <= i <= |boards| == |was.boards| == |wired|
        invariant forall k :: 0 <= k < i ==>
          boards[k] == if wired[k] then Drained(was.boards[k], w.present, Copied(was, w, k)) else was.boards[k]
        invariant forall k :: i <= k < |boards| ==> boards[k] == was.boards[k]
        invariant host == HostAfter(was.host, Copies(was, w, 0, i))
        invariant polled == if Copies(was, w, 0, i) != [] then Some(w.wrote) else was.polled
      {
        if wired[i] {
          DrainBoard(i, w);
        }
        i := i + 1;
      }
    }

    /** One board's outbox. */
    method DrainBoard(i: nat, w: World)
      requires i < |boards| == |wired| && wired[i]
      modifies this`boards, this`host, this`polled
      ensures var copied := Copied(old(View()), w, i);
              && boards == old(boards)[i := Drained(old(boards[i]), w.present, copied)]
              && host == (if copied.Some? then copied.value else old(host))
              && polled == if copied.Some? then Some(w.wrote) else old(polled)
    {
      var b := boards[i];
      var outgoing := b.outbox;
      b := b.(present := w.present, outbox := None);
      if outgoing.Some? && w.present && w.accepts(i) {
        var text := outgoing.value;
        host := text;
        if b.text != text {
          b := b.(seqNo := b.seqNo + 1, text := text);
        }
        polled := Some(w.wrote);
      }
      boards := boards[i := b];
    }

    /** In: every wired board that does not show `text` yet comes to show it. */
    method Spread(text: string)
      requires |boards| == |wired|
      modifies this`boards
      ensures |boards| == |wired|
      ensures forall i :: 0 <= i < |boards| ==>
        boards[i] == if wired[i] then Observe(old(boards[i]), text) else old(boards[i])
    {
      ghost var was := boards;
      var i := 0;
      while i < |boards|
        invariant 0 <= i <= |boards| == |was| == |wired|
        invariant forall k :: 0 <= k < i ==> boards[k] == if wired[k] then Observe(was[k], text) else was[k]
        invariant forall k :: i <= k < |boards| ==> boards[k] == was[k]
      {
        if wired[i] {
          var b := boards[i];
          if b.seqNo == 0 || b.text != text {
            boards := boards[i := b.(seqNo := b.seqNo + 1, text := text)];
          }
        }
        i := i + 1;
      }
    }

    method PumpClipboard(w: World)
      requires |boards| == |wired|
      modifies this`boards, this`host, this`polled
      ensures View() == Pumped(old(View()), w)
    {
      ghost var was := View();
      if true !in wired {
        NothingWired(was, w, |boards|);
        OtherPrograms(w.between);
        assert boards == Pumped(was, w).boards;
        return;
      }
      Drain(w);
      OtherPrograms(w.between);
      assert host == HostAfter(was.host, Writes(was, w));
      PollHost(w);
      assert forall i :: 0 <= i < |boards| ==> boards[i] == PumpedBoard(was, w, i);
      assert boards == Pumped(was, w).boards;
    }

    /** The host's text is read if a reading is due, and spread if there is one. */
    method PollHost(w: World)
      requires |boards| == |wired|
      modifies this`boards, this`polled
      ensures |boards| == |wired|
      ensures polled == if Due(old(polled), w.now) then Some(w.now) else old(polled)
      ensures forall i :: 0 <= i < |boards| ==>
        boards[i] == if wired[i] && Due(old(polled), w.now) && w.present && w.readable
                     then Observe(old(boards[i]), host) else old(boards[i])
    {
      if polled.Some? && w.now - polled.value < CLIP_POLL {
        return;
      }
      polled := Some(w.now);
      if !w.present || !w.readable {
        return;
      }
      Spread(host);
    }

    /** What other programs write to the host clipboard. */
    method OtherPrograms(writes: seq<string>)
      modifies this`host
      ensures host == HostAfter(old(host), writes)
    {
      if writes != [] {
        host := writes[|writes| - 1];
      }
    }
  }

  lemma {:induction false} NothingWired(d: Desk, w: World, n: nat)
    requires n <= |d.boards| == |d.wired| && !d.AnyWired()
    ensures Copies(d, w, 0, n) == []
  {
    if n > 0 {
      NothingWired(d, w, n - 1);
      assert d.wired[n - 1] in d.wired;
    }
  }

  // ---- runs ----

  /** Guests copy, other programs write, wires come and go, the window takes the focus, the pump runs. */
  datatype Event =
    | Copy(board: nat, mayWrite: bool, text: string)
    | Outside(text: string)
    | Wire(board: nat, on: bool)
    | Focus
    | Pump(world: World)

  function After(d: Desk, e: Event): (after: Desk)
    requires |d.boards| == |d.wired|
    ensures d.Valid() ==> after.Valid() && |after.boards| == |d.boards|
  {
    match e
    case Copy(i, may, t) => if i < |d.boards| then d.(boards := d.boards[i := Set(d.boards[i], may, t)]) else d
    case Outside(t) => d.(host := t)
    case Wire(i, on) => if i < |d.wired| then d.(wired := d.wired[i := on]) else d
    case Focus => d.(polled := None)
    case Pump(w) => Pumped(d, w)
  }

  function Run(d: Desk, es: seq<Event>): (after: Desk)
    requires d.Valid()
    ensures after.Valid() && |after.boards| == |d.boards|
    decreases |es|
  {
    if es == [] then d else Run(After(d, es[0]), es[1..])
  }

  /** One event on: no number has gone down, and one that has not moved stands for the same text. */
  ghost predicate Later(d: Desk, e: Desk) {
    && |d.boards| == |e.boards|
    && forall i :: 0 <= i < |d.boards| ==>
      && d.boards[i].seqNo <= e.boards[i].seqNo
      && (d.boards[i].seqNo == e.boards[i].seqNo ==> d.boards[i].text == e.boards[i].text)
  }

  lemma StepKeeps(d: Desk, e: Event)
    requires d.Valid()
    ensures Later(d, After(d, e))
  {
  }

  /** Over every run, each board's number never decreases, and an equal number means an equal text. */
  lemma {:induction false} RunKeeps(d: Desk, es: seq<Event>)
    requires d.Valid()
    ensures Later(d, Run(d, es))
    decreases |es|
  {
    if es != [] {
      StepKeeps(d, es[0]);
      RunKeeps(After(d, es[0]), es[1..]);
    }
  }

  /** A pump that reads the host leaves its text on every wired board, where a guest finds it unless it is too long. */
  lemma PollReachesAll(d: Desk, w: World, i: nat)
    requires d.Valid() && PollSucceeds(d, w) && i < |d.boards| && d.wired[i]
    ensures var e := Pumped(d, w);
            && e.boards[i].text == e.host && e.boards[i].seqNo > 0
            && Get(e.boards[i], true) == if |e.host| <= MAX_TEXT then Some(Snapshot(e.boards[i].seqNo, e.host)) else None
  {
  }

  /** Two copies before a pump: only the second is ever offered to the host. */
  lemma LastCopyWins(d: Desk, i: nat, first: string, second: string)
    requires d.Valid() && i < |d.boards| && |second| <= MAX_TEXT
    ensures After(After(d, Copy(i, true, first)), Copy(i, true, second)) == After(d, Copy(i, true, second))
  {
    var one := After(d, Copy(i, true, first)).boards;
    var b := Set(d.boards[i], true, second);
    assert Set(one[i], true, second) == b;
    assert one[i := b] == d.boards[i := b];
  }

  // ---- guests, each pointed at a board ----

  /** A guest's source and permits, as the server last set them. */
  datatype Guest = Guest(src: Option<nat>, mayRead: bool, mayWrite: bool)

  datatype Office = Office(desk: Desk, guests: seq<Guest>)

  const FRESH := Board(false, 0, "", None)

  /**
   * The server points a guest at a board, or at none; a guest copies; a
   * clipboard node is deleted and restored, and has a new board; or something
   * else happens.
   */
  datatype Act = Point(g: nat, to: Guest) | Say(g: nat, text: string) | Renew(i: nat) | Happen(event: Event)

  function Acted(o: Office, a: Act): (after: Office)
    requires o.desk.Valid()
    ensures after.desk.Valid() && |after.guests| == |o.guests|
  {
    match a
    case Point(g, to) => if g < |o.guests| then o.(guests := o.guests[g := to]) else o
    case Say(g, text) =>
      if g < |o.guests| && o.guests[g].src.Some?
      then o.(desk := After(o.desk, Copy(o.guests[g].src.value, o.guests[g].mayWrite, text)))
      else o
    case Renew(i) => if i < |o.desk.boards| then o.(desk := o.desk.(boards := o.desk.boards[i := FRESH])) else o
    case Happen(e) => o.(desk := After(o.desk, e))
  }

  function Worked(o: Office, acts: seq<Act>): (after: Office)
    requires o.desk.Valid()
    ensures after.desk.Valid() && |after.guests| == |o.guests|
    decreases |acts|
  {
    if acts == [] then o else Worked(Acted(o, acts[0]), acts[1..])
  }

  /** What guest `g` reads. */
  function Reads(o: Office, g: nat): Option<Snapshot>
    requires g < |o.guests|
  {
    match o.guests[g].src
    case None => None
    case Some(i) => if i < |o.desk.boards| then Get(o.desk.boards[i], o.guests[g].mayRead) else None
  }

  /** The server never points guest `g` at another board than `i`, which is never made anew. */
  predicate StaysAt(acts: seq<Act>, g: nat, i: nat) {
    forall k :: 0 <= k < |acts| ==>
      && (acts[k].Point? && acts[k].g == g ==> acts[k].to.src in {None, Some(i)})
      && !(acts[k].Renew? && acts[k].i == i)
  }

  /** `Later`, for one board. */
  predicate BoardLater(d: Desk, e: Desk, i: nat) {
    i < |d.boards| == |e.boards| ==>
      && d.boards[i].seqNo <= e.boards[i].seqNo
      && (d.boards[i].seqNo == e.boards[i].seqNo ==> d.boards[i].text == e.boards[i].text)
  }

  lemma ActKeeps(o: Office, a: Act, i: nat)
    requires o.desk.Valid() && !(a.Renew? && a.i == i)
    ensures |Acted(o, a).desk.boards| == |o.desk.boards| && BoardLater(o.desk, Acted(o, a).desk, i)
  {
    match a
    case Say(h, text) =>
      if h < |o.guests| && o.guests[h].src.Some? {
        StepKeeps(o.desk, Copy(o.guests[h].src.value, o.guests[h].mayWrite, text));
      }
    case Happen(e) => StepKeeps(o.desk, e);
    case _ =>
  }

  lemma {:induction false} WorkKeeps(o: Office, acts: seq<Act>, g: nat, i: nat)
    requires o.desk.Valid() && g < |o.guests| && StaysAt(acts, g, i) && o.guests[g].src in {None, Some(i)}
    ensures |Worked(o, acts).desk.boards| == |o.desk.boards| && BoardLater(o.desk, Worked(o, acts).desk, i)
    ensures Worked(o, acts).guests[g].src in {None, Some(i)}
    decreases |acts|
  {
    if acts != [] {
      ActKeeps(o, acts[0], i);
      WorkKeeps(Acted(o, acts[0]), acts[1..], g, i);
    }
  }

  /**
   * A guest that is never pointed at another board, and reads the same number
   * twice, however far apart, has read the same text, whatever happens to its
   * permits, its wire and the other boards in between.
   */
  lemma SameNumberSameText(o: Office, acts: seq<Act>, g: nat, i: nat)
    requires o.desk.Valid() && g < |o.guests| && o.guests[g].src == Some(i) && StaysAt(acts, g, i)
    ensures var first, second := Reads(o, g), Reads(Worked(o, acts), g);
            first.Some? && second.Some? ==>
              && first.value.seqNo <= second.value.seqNo
              && (first.value.seqNo == second.value.seqNo ==> first == second)
  {
    WorkKeeps(o, acts, g, i);
  }

  lemma FreshPumped(text: string, w: World)
    requires w == World(true, k => true, 0, [], 0, true)
    ensures Pumped(Desk([FRESH], [true], text, None), w) == Desk([Board(true, 1, text, None)], [true], text, Some(0))
  {
    var d := Desk([FRESH], [true], text, None);
    assert d.wired[0] in d.wired;
    assert Copies(d, w, 0, 0) == [] && Copies(d, w, 0, 1) == [];
  }

  /** So can a guest whose node is deleted and restored: its new board numbers from the start. */
  lemma RenewedNodeMisleads()
    ensures var o := Office(Desk([FRESH], [true], "old", None), [Guest(Some(0), true, true)]);
            var w := World(true, k => true, 0, [], 0, true);
            var more := [Renew(0), Happen(Outside("new")), Happen(Focus)] + [Happen(Pump(w))];
            && Reads(Worked(o, [Happen(Pump(w))]), 0) == Some(Snapshot(1, "old"))
            && Reads(Worked(Worked(o, [Happen(Pump(w))]), more), 0) == Some(Snapshot(1, "new"))
  {
    var guests := [Guest(Some(0), true, true)];
    var w := World(true, k => true, 0, [], 0, true);
    var a := Happen(Pump(w));
    var o1 := Office(Desk([Board(true, 1, "old", None)], [true], "old", Some(0)), guests);
    var o2 := Office(Desk([FRESH], [true], "new", None), guests);
    FreshPumped("old", w);
    FreshPumped("new", w);
    WorkedOne(Office(Desk([FRESH], [true], "old", None), guests), a);
    Renewed(o1, o2);
    WorkedTwice(o1, [Renew(0), Happen(Outside("new")), Happen(Focus)], [a]);
    WorkedOne(o2, a);
  }

  lemma Renewed(o: Office, o': Office)
    requires o.desk.Valid() && |o.desk.boards| == 1
    requires o' == Office(Desk([FRESH], o.desk.wired, "new", None), o.guests)
    ensures Worked(o, [Renew(0), Happen(Outside("new")), Happen(Focus)]) == o'
  {
    var acts := [Renew(0), Happen(Outside("new")), Happen(Focus)];
    assert acts[1..] == [Happen(Outside("new")), Happen(Focus)];
    assert acts[1..][1..] == [Happen(Focus)];
    assert acts[1..][1..][1..] == [];
    assert o.desk.boards[0 := FRESH] == [FRESH];
  }

  /**
   * A guest whose wire moves can be misled: boards number for themselves, and
   * one that was wired earlier keeps what it saw then under the same number.
   */
  lemma MovedWireMisleads()
    ensures var o := Office(Desk([FRESH, FRESH], [false, true], "old", None), [Guest(Some(0), true, true)]);
            var pump := [Happen(Pump(World(true, k => true, 0, [], 0, true)))];
            var acts := pump + (OTHER_WIRE + pump);
            && Reads(Worked(o, acts), 0) == Some(Snapshot(1, "new"))
            && Reads(Worked(o, acts + [Point(0, Guest(Some(1), true, true))]), 0) == Some(Snapshot(1, "old"))
  {
    var guests, moved := [Guest(Some(0), true, true)], [Guest(Some(1), true, true)];
    var w := World(true, k => true, 0, [], 0, true);
    var o := Office(Desk([FRESH, FRESH], [false, true], "old", None), guests);
    var acts := [Happen(Pump(w))] + (OTHER_WIRE + [Happen(Pump(w))]);
    EarlierBoard(guests, w);
    WorkedTwice(o, acts, [Point(0, moved[0])]);
    WorkedOne(Worked(o, acts), Point(0, moved[0]));
    assert guests[0 := moved[0]] == moved;
  }

  /** One board loses its wire and the other gets one; the host's text changes; the window takes the focus. */
  const OTHER_WIRE := [Happen(Wire(1, false)), Happen(Wire(0, true)), Happen(Outside("new")), Happen(Focus)]

  const BOTH := [Board(true, 1, "new", None), Board(true, 1, "old", None)]

  lemma EarlierBoard(guests: seq<Guest>, w: World)
    requires w == World(true, k => true, 0, [], 0, true)
    ensures Worked(Office(Desk([FRESH, FRESH], [false, true], "old", None), guests),
                   [Happen(Pump(w))] + (OTHER_WIRE + [Happen(Pump(w))])) ==
            Office(Desk(BOTH, [true, false], "new", Some(0)), guests)
  {
    var d0 := Desk([FRESH, FRESH], [false, true], "old", None);
    var d1 := Desk([FRESH, Board(true, 1, "old", None)], [false, true], "old", Some(0));
    var d2 := Desk(d1.boards, [true, false], "new", None);
    OldPumped(FRESH, w);
    NewPumped(FRESH, w);
    ActedPump(d0, w, guests, d1);
    ActedPump(d2, w, guests, Desk(BOTH, [true, false], "new", Some(0)));
    WorkedFour(d1, guests, d2);
    WorkedBetween(Office(d0, guests), Office(d1, guests), Office(d2, guests),
                  Office(Desk(BOTH, [true, false], "new", Some(0)), guests), Happen(Pump(w)), OTHER_WIRE);
  }

  lemma ActedPump(d: Desk, w: World, guests: seq<Guest>, e: Desk)
    requires d.Valid() && Pumped(d, w) == e
    ensures Acted(Office(d, guests), Happen(Pump(w))) == Office(e, guests)
  {
  }

  lemma WorkedBetween(o: Office, o1: Office, o2: Office, o3: Office, a: Act, acts: seq<Act>)
    requires o.desk.Valid() && o1 == Acted(o, a)
    requires o2 == Worked(o1, acts) && o3 == Acted(o2, a)
    ensures Worked(o, [a] + (acts + [a])) == o3
  {
    WorkedOne(o, a);
    WorkedOne(o2, a);
    WorkedThrice(o, [a], acts, [a]);
  }

  lemma WorkedThrice(o: Office, a: seq<Act>, b: seq<Act>, c: seq<Act>)
    requires o.desk.Valid()
    ensures Worked(o, a + (b + c)) == Worked(Worked(Worked(o, a), b), c)
  {
    WorkedTwice(o, a, b + c);
    WorkedTwice(Worked(o, a), b, c);
  }

  lemma WorkedOne(o: Office, a: Act)
    requires o.desk.Valid()
    ensures Worked(o, [a]) == Acted(o, a)
  {
    assert [a][1..] == [];
  }

  lemma OldPumped(board: Board, w: World)
    requires board == Board(false, 0, "", None) && w == World(true, k => true, 0, [], 0, true)
    ensures Pumped(Desk([board, board], [false, true], "old", None), w) ==
            Desk([board, Board(true, 1, "old", None)], [false, true], "old", Some(0))
  {
    var d := Desk([board, board], [false, true], "old", None);
    assert d.wired[1] in d.wired;
    assert Copies(d, w, 0, 0) == [] && Copies(d, w, 0, 1) == [] && Copies(d, w, 0, 2) == [];
  }

  lemma NewPumped(board: Board, w: World)
    requires board == Board(false, 0, "", None) && w == World(true, k => true, 0, [], 0, true)
    ensures Pumped(Desk([board, Board(true, 1, "old", None)], [true, false], "new", None), w) ==
            Desk([Board(true, 1, "new", None), Board(true, 1, "old", None)], [true, false], "new", Some(0))
  {
    var d := Desk([board, Board(true, 1, "old", None)], [true, false], "new", None);
    assert d.wired[0] in d.wired;
    assert Copies(d, w, 0, 0) == [] && Copies(d, w, 0, 1) == [] && Copies(d, w, 0, 2) == [];
  }

  lemma {:induction false} WorkedTwice(o: Office, a: seq<Act>, b: seq<Act>)
    requires o.desk.Valid()
    ensures Worked(o, a + b) == Worked(Worked(o, a), b)
    decreases |a|
  {
    if a == [] {
      assert a + b == b;
    } else {
      assert (a + b)[1..] == a[1..] + b;
      WorkedTwice(Acted(o, a[0]), a[1..], b);
    }
  }

  lemma WorkedFour(d: Desk, guests: seq<Guest>, e: Desk)
    requires d.Valid() && d.wired == [false, true] && |d.boards| == 2
    requires e == Desk(d.boards, [true, false], "new", None)
    ensures Worked(Office(d, guests), [Happen(Wire(1, false)), Happen(Wire(0, true)), Happen(Outside("new")), Happen(Focus)])
            == Office(e, guests)
  {
    var acts := [Happen(Wire(1, false)), Happen(Wire(0, true)), Happen(Outside("new")), Happen(Focus)];
    assert d.wired[1 := false][0 := true] == [true, false];
    assert acts[1..] == [Happen(Wire(0, true)), Happen(Outside("new")), Happen(Focus)];
    assert acts[1..][1..] == [Happen(Outside("new")), Happen(Focus)];
    assert acts[1..][1..][1..] == [Happen(Focus)];
    assert acts[1..][1..][1..][1..] == [];
  }

  // ---- a guest's own copy ----

  /** If the pump's poll reads the host for board `i`, it finds `t` there. */
  predicate PollFinds(d: Desk, w: World, i: nat, t: string)
    requires i < |d.boards| == |d.wired|
  {
    d.wired[i] && PollSucceeds(d, w) ==> HostAfter(d.host, Writes(d, w)) == t
  }

  /** Board `i` is shown nothing but `t`: neither by a copy of its own nor by a poll. */
  predicate Sees(d: Desk, e: Event, i: nat, t: string)
    requires i < |d.boards| == |d.wired|
  {
    e.Pump? ==> Copied(d, e.world, i) in {None, Some(t)} && PollFinds(d, e.world, i, t)
  }

  predicate AllSeen(d: Desk, es: seq<Event>, i: nat, t: string)
    requires d.Valid() && i < |d.boards|
    decreases |es|
  {
    es != [] ==> Sees(d, es[0], i, t) && AllSeen(After(d, es[0]), es[1..], i, t)
  }

  /** The number of a board that has observed something stays exactly when it is shown nothing new. */
  lemma StepStays(d: Desk, e: Event, i: nat)
    requires d.Valid() && i < |d.boards| && d.boards[i].seqNo > 0
    ensures After(d, e).boards[i].seqNo == d.boards[i].seqNo <==> Sees(d, e, i, d.boards[i].text)
  {
    if e.Pump? {
      assert Pumped(d, e.world).boards[i] == PumpedBoard(d, e.world, i);
    }
  }

  /** The same over every run, whatever else comes and goes on the host clipboard between two polls. */
  lemma {:induction false} RunStays(d: Desk, es: seq<Event>, i: nat)
    requires d.Valid() && i < |d.boards| && d.boards[i].seqNo > 0
    ensures Run(d, es).boards[i].seqNo == d.boards[i].seqNo <==> AllSeen(d, es, i, d.boards[i].text)
    ensures Run(d, es).boards[i].seqNo == d.boards[i].seqNo ==> Run(d, es).boards[i].text == d.boards[i].text
    decreases |es|
  {
    if es != [] {
      var d' := After(d, es[0]);
      StepStays(d, es[0], i);
      StepKeeps(d, es[0]);
      RunStays(d', es[1..], i);
      RunKeeps(d', es[1..]);
    }
  }

  ghost predicate AllAre(texts: seq<string>, t: string) {
    forall k :: 0 <= k < |texts| ==> texts[k] == t
  }

  /** Every text the event puts on the host clipboard is `t`. */
  ghost predicate WritesOnly(d: Desk, e: Event, t: string)
    requires |d.boards| == |d.wired|
  {
    match e
    case Outside(u) => u == t
    case Pump(w) => AllAre(Writes(d, w), t)
    case _ => true
  }

  /** All along the run nothing but `t` is put on the host clipboard. */
  ghost predicate HostHolds(d: Desk, es: seq<Event>, t: string)
    requires d.Valid()
    decreases |es|
  {
    es != [] ==> WritesOnly(d, es[0], t) && HostHolds(After(d, es[0]), es[1..], t)
  }

  lemma {:induction false} CopiesAre(d: Desk, w: World, k: nat, n: nat, i: nat)
    requires k <= i < n <= |d.boards| == |d.wired|
    ensures Copied(d, w, i).Some? ==> Copied(d, w, i).value in Copies(d, w, k, n)
    decreases n
  {
    if i < n - 1 {
      CopiesAre(d, w, k, n - 1, i);
    }
  }

  lemma {:induction false} CopiesSplit(d: Desk, w: World, i: nat, n: nat)
    requires i <= n <= |d.boards| == |d.wired|
    ensures Copies(d, w, 0, n) == Copies(d, w, 0, i) + Copies(d, w, i, n)
    decreases n
  {
    if i < n {
      CopiesSplit(d, w, i, n - 1);
    }
  }

  lemma HeldInPump(d: Desk, w: World, i: nat, t: string)
    requires d.Valid() && i < |d.boards| && d.host == t && AllAre(Writes(d, w), t)
    ensures Copied(d, w, i) in {None, Some(t)} && HostAfter(d.host, Writes(d, w)) == t
  {
    CopiesAre(d, w, 0, |d.boards|, i);
    if Copied(d, w, i).Some? {
      assert Copied(d, w, i).value in Writes(d, w);
    }
  }

  /** While the host holds `t` throughout, no board is shown anything else. */
  lemma {:induction false} HeldIsSeen(d: Desk, es: seq<Event>, i: nat, t: string)
    requires d.Valid() && i < |d.boards| && d.host == t && HostHolds(d, es, t)
    ensures AllSeen(d, es, i, t)
    decreases |es|
  {
    if es != [] {
      if es[0].Pump? {
        HeldInPump(d, es[0].world, i, t);
      }
      HeldIsSeen(After(d, es[0]), es[1..], i, t);
    }
  }

  /** The board just after the pump that published its own copy. */
  lemma PumpPublishes(d: Desk, w: World, i: nat)
    requires d.Valid() && i < |d.boards| && Copied(d, w, i).Some? && PollFinds(d, w, i, Copied(d, w, i).value)
    ensures var t, n, b := Copied(d, w, i).value, d.boards[i].seqNo, Pumped(d, w).boards[i];
            b.text == t && b.seqNo == if d.boards[i].text != t || (n == 0 && PollSucceeds(d, w)) then n + 1 else n
  {
    assert Pumped(d, w).boards[i] == PumpedBoard(d, w, i);
  }

  /** And if the poll of that pump finds another text. */
  lemma PumpOverwritten(d: Desk, w: World, i: nat)
    requires d.Valid() && i < |d.boards| && Copied(d, w, i).Some? && !PollFinds(d, w, i, Copied(d, w, i).value)
    ensures var t, n, b := Copied(d, w, i).value, d.boards[i].seqNo, Pumped(d, w).boards[i];
            b.text != t && b.seqNo == if d.boards[i].text != t then n + 2 else n + 1
  {
    assert Pumped(d, w).boards[i] == PumpedBoard(d, w, i);
  }

  /**
   * A pump puts board `i`'s own copy, a text new to it, on the host clipboard.
   * After any run its number has risen by exactly one if and only if neither
   * that pump's poll nor anything later showed it another text; and then it
   * still shows its copy.
   */
  lemma OwnCopyRaisesOnce(d: Desk, w: World, es: seq<Event>, i: nat)
    requires d.Valid() && i < |d.boards| && Copied(d, w, i).Some? && d.boards[i].text != Copied(d, w, i).value
    ensures var e, t := Run(After(d, Pump(w)), es), Copied(d, w, i).value;
            && (e.boards[i].seqNo == d.boards[i].seqNo + 1 <==>
                PollFinds(d, w, i, t) && AllSeen(After(d, Pump(w)), es, i, t))
            && (e.boards[i].seqNo == d.boards[i].seqNo + 1 ==> e.boards[i].text == t)
  {
    var d' := After(d, Pump(w));
    if PollFinds(d, w, i, Copied(d, w, i).value) {
      PumpPublishes(d, w, i);
      RunStays(d', es, i);
    } else {
      PumpOverwritten(d, w, i);
      RunKeeps(d', es);
    }
  }

  /** A copy of the text the board shows already raises nothing, once something has been observed. */
  lemma KnownCopyRaisesNothing(d: Desk, w: World, es: seq<Event>, i: nat)
    requires d.Valid() && i < |d.boards| && Copied(d, w, i) == Some(d.boards[i].text) && d.boards[i].seqNo > 0
    ensures Run(d, [Pump(w)] + es).boards[i].seqNo == d.boards[i].seqNo <==>
            PollFinds(d, w, i, d.boards[i].text) && AllSeen(After(d, Pump(w)), es, i, d.boards[i].text)
  {
    assert ([Pump(w)] + es)[1..] == es;
    RunStays(d, [Pump(w)] + es, i);
  }

  /** In particular while the host holds the copy: from the board's own write on, nothing else is put there. */
  lemma OwnCopyWhileHeld(d: Desk, w: World, es: seq<Event>, i: nat)
    requires d.Valid() && i < |d.boards| && Copied(d, w, i).Some?
    requires AllAre(Copies(d, w, i + 1, |d.boards|) + w.between, Copied(d, w, i).value)
    requires HostHolds(After(d, Pump(w)), es, Copied(d, w, i).value)
    ensures PollFinds(d, w, i, Copied(d, w, i).value)
    ensures AllSeen(After(d, Pump(w)), es, i, Copied(d, w, i).value)
  {
    var t := Copied(d, w, i).value;
    var rest := Copies(d, w, i + 1, |d.boards|) + w.between;
    CopiesSplit(d, w, i + 1, |d.boards|);
    assert Writes(d, w) == Copies(d, w, 0, i) + [t] + rest;
    assert HostAfter(d.host, Writes(d, w)) == t;
    HeldIsSeen(After(d, Pump(w)), es, i, t);
  }

  /** The number and text of a board that is shown nothing but its own text: it can only be counted as observed. */
  lemma {:induction false} SeenBound(d: Desk, es: seq<Event>, i: nat, t: string)
    requires d.Valid() && i < |d.boards| && d.boards[i].text == t && AllSeen(d, es, i, t)
    ensures var b := Run(d, es).boards[i];
            b.text == t && d.boards[i].seqNo <= b.seqNo <= if d.boards[i].seqNo == 0 then 1 else d.boards[i].seqNo
    decreases |es|
  {
    if es != [] {
      SeenStep(d, es[0], i, t);
      SeenBound(After(d, es[0]), es[1..], i, t);
    }
  }

  lemma SeenStep(d: Desk, e: Event, i: nat, t: string)
    requires d.Valid() && i < |d.boards| && d.boards[i].text == t && Sees(d, e, i, t)
    ensures var n, b := d.boards[i].seqNo, After(d, e).boards[i];
            b.text == t && (b.seqNo == n || (n == 0 && b.seqNo == 1))
  {
    if e.Pump? {
      assert Pumped(d, e.world).boards[i] == PumpedBoard(d, e.world, i);
    }
  }

  /**
   * Whatever text a guest copies, and whatever its board has seen: while the
   * host holds that text, the board shows it and its number has risen by at
   * most one; by one if the text was new to it, by none if the board showed it
   * and had observed something.
   */
  lemma OwnCopyAtMostOnce(d: Desk, w: World, es: seq<Event>, i: nat)
    requires d.Valid() && i < |d.boards| && Copied(d, w, i).Some?
    requires AllAre(Copies(d, w, i + 1, |d.boards|) + w.between, Copied(d, w, i).value)
    requires HostHolds(After(d, Pump(w)), es, Copied(d, w, i).value)
    ensures var t, n, b := Copied(d, w, i).value, d.boards[i].seqNo, Run(After(d, Pump(w)), es).boards[i];
            && b.text == t && n <= b.seqNo <= n + 1
            && (d.boards[i].text != t ==> b.seqNo == n + 1)
            && (d.boards[i].text == t && n > 0 ==> b.seqNo == n)
  {
    OwnCopyWhileHeld(d, w, es, i);
    PumpPublishes(d, w, i);
    SeenBound(After(d, Pump(w)), es, i, Copied(d, w, i).value);
  }

  /**
   * Two boards copy before one pump, whose throttle then skips the poll; the
   * next pump's poll shows the first board the other text. Its own copy has
   * cost it two numbers.
   */
  lemma OverwrittenAtOnce()
    ensures var d := Desk([Board(true, 1, "a", Some("b")), Board(true, 1, "a", Some("c"))], [true, true], "a", None);
            var one, two := World(true, k => true, 0, [], 0, true), World(true, k => true, CLIP_POLL, [], CLIP_POLL, true);
            var e := Run(d, [Pump(one), Pump(two)]);
            e.boards[0].seqNo == 3 && e.boards[0].text == "c" && e.boards[1].seqNo == 2
  {
    var d := Desk([Board(true, 1, "a", Some("b")), Board(true, 1, "a", Some("c"))], [true, true], "a", None);
    var one, two := World(true, k => true, 0, [], 0, true), World(true, k => true, CLIP_POLL, [], CLIP_POLL, true);
    var mid := Desk([Board(true, 2, "b", None), Board(true, 2, "c", None)], [true, true], "c", Some(0));
    BothCopy(d, one, mid);
    NextPoll(mid, two);
    RunTwo(d, Pump(one), Pump(two));
  }

  lemma RunTwo(d: Desk, a: Event, b: Event)
    requires d.Valid()
    ensures Run(d, [a, b]) == After(After(d, a), b)
  {
    assert [a, b][1..] == [b];
    assert [b][1..] == [];
    assert Run(After(d, a), [b]) == Run(After(After(d, a), b), []);
  }

  lemma BothCopy(d: Desk, w: World, mid: Desk)
    requires d == Desk([Board(true, 1, "a", Some("b")), Board(true, 1, "a", Some("c"))], [true, true], "a", None)
    requires w == World(true, k => true, 0, [], 0, true)
    requires mid == Desk([Board(true, 2, "b", None), Board(true, 2, "c", None)], [true, true], "c", Some(0))
    ensures Pumped(d, w) == mid
  {
    assert d.wired[0] in d.wired;
    assert Copies(d, w, 0, 0) == [];
    assert Copies(d, w, 0, 1) == ["b"];
    assert Copies(d, w, 0, 2) == ["b", "c"];
  }

  lemma NextPoll(d: Desk, w: World)
    requires d == Desk([Board(true, 2, "b", None), Board(true, 2, "c", None)], [true, true], "c", Some(0))
    requires w == World(true, k => true, CLIP_POLL, [], CLIP_POLL, true)
    ensures Pumped(d, w) == Desk([Board(true, 3, "c", None), Board(true, 2, "c", None)], [true, true], "c", Some(CLIP_POLL))
  {
    assert d.wired[0] in d.wired;
    assert Copies(d, w, 0, 0) == [] && Copies(d, w, 0, 1) == [] && Copies(d, w, 0, 2) == [];
  }

  // ---- permits, refusals and the throttle ----

  /** What the permits and the limit keep from a guest, and what they let through. */
  lemma PermitsHold(b: Board, text: string)
    ensures Get(b, false) == None && Set(b, false, text) == b
    ensures |text| > 4194304 ==> Set(b, true, text) == b
    ensures |text| <= 4194304 ==> Set(b, true, text) == b.(outbox := Some(text))
    ensures b.seqNo > 0 && |b.text| <= 4194304 ==> Get(b, true) == Some(Snapshot(b.seqNo, b.text))
    ensures b.seqNo == 0 || |b.text| > 4194304 ==> Get(b, true) == None
  {
  }

  /**
   * A copy the host refuses is lost: the outbox is emptied all the same, and
   * neither the board nor, if it was the only one, the host shows it.
   */
  lemma RefusedCopyLost(d: Desk, w: World, i: nat)
    requires d.Valid() && i < |d.boards| && d.wired[i] && !(w.present && w.accepts(i))
    ensures var b := Pumped(d, w).boards[i];
            b.outbox == None && (!PollSucceeds(d, w) ==> b.text == d.boards[i].text && b.seqNo == d.boards[i].seqNo)
    ensures (forall k :: 0 <= k < |d.boards| && d.wired[k] && d.boards[k].outbox.Some? ==> !(w.present && w.accepts(k)))
            ==> Writes(d, w) == w.between
  {
    assert Pumped(d, w).boards[i] == PumpedBoard(d, w, i);
    if forall k :: 0 <= k < |d.boards| && d.wired[k] && d.boards[k].outbox.Some? ==> !(w.present && w.accepts(k)) {
      NoCopies(d, w, |d.boards|);
    }
  }

  lemma {:induction false} NoCopies(d: Desk, w: World, n: nat)
    requires n <= |d.boards| == |d.wired|
    requires forall k :: 0 <= k < |d.boards| && d.wired[k] && d.boards[k].outbox.Some? ==> !(w.present && w.accepts(k))
    ensures Copies(d, w, 0, n) == []
  {
    if n > 0 {
      NoCopies(d, w, n - 1);
    }
  }

  /** A copy the host takes, with nothing written behind it, is what the host holds. */
  lemma TakenCopyHeld(d: Desk, w: World, i: nat)
    requires d.Valid() && i < |d.boards| && d.wired[i] && w.present && w.accepts(i) && d.boards[i].outbox.Some?
    requires Copies(d, w, i + 1, |d.boards|) == [] && w.between == []
    ensures Pumped(d, w).host == d.boards[i].outbox.value
  {
    CopiesSplit(d, w, i + 1, |d.boards|);
  }

  /** The host is read at most every 250 milliseconds, its own writes counting as readings; a focused window reads at once. */
  lemma Throttled(d: Desk, w: World, t: nat)
    requires d.Valid() && PolledAfter(d, w) == Some(t) && w.now < t + 250
    ensures !PollSucceeds(d, w) && Pumped(d, w).polled == Some(t)
    ensures true in d.wired && w.present && w.readable && Copies(d, w, 0, |d.boards|) == [] ==>
              PollSucceeds(After(d, Focus), w)
  {
    FocusCopies(d, w, |d.boards|);
  }

  /** And it is read once they are over; a reading that fails counts too. Every wired board learns whether there is a host. */
  lemma PollsWhenDue(d: Desk, w: World, t: nat)
    requires d.Valid() && true in d.wired && PolledAfter(d, w) == Some(t) && w.now >= t + 250
    ensures PollSucceeds(d, w) <==> w.present && w.readable
    ensures Pumped(d, w).polled == Some(w.now)
    ensures forall i :: 0 <= i < |d.boards| ==>
              Pumped(d, w).boards[i].present == if d.wired[i] then w.present else d.boards[i].present
  {
    forall i | 0 <= i < |d.boards|
      ensures Pumped(d, w).boards[i].present == if d.wired[i] then w.present else d.boards[i].present
    {
      assert Pumped(d, w).boards[i] == PumpedBoard(d, w, i);
    }
  }

  lemma {:induction false} FocusCopies(d: Desk, w: World, n: nat)
    requires n <= |d.boards| == |d.wired|
    ensures Copies(After(d, Focus), w, 0, n) == Copies(d, w, 0, n)
  {
    if n > 0 {
      FocusCopies(d, w, n - 1);
    }
  }
}
