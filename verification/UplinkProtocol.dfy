/**
 * Two uplinks and the connections between them, one atomic step at a time.
 * Sockets are nondeterministic: which step comes next, whether a connect
 * succeeds, when a connection breaks and when a close arrives are all free.
 */
module UplinkProtocol {
  import opened Outcomes
  import opened Uplink

  datatype Side = A | B

  /** Where a side's dialer task is. */
  datatype Phase = Selecting | Connecting | Down

  datatype Endpoint = Endpoint(
    conns: seq<Conn>,           // the shared list
    closed: set<ConnId>,        // connections this endpoint knows to be closed
    target: Option<Addr>,
    phase: Phase,
    pending: Option<ConnId>,    // established, the connect call has yet to return
    commands: seq<Option<Addr>>, // sent to the dialer, not yet received
    incoming: set<ConnId>       // opened by the peer, not yet accepted
  )

  datatype World = World(
    a: Endpoint,
    b: Endpoint,
    opener: map<ConnId, Side>,          // every connection ever made, and who dialed it
    inFlight: set<(Side, ConnId)>,      // closes on their way to a side
    undialed: set<(Side, ConnId)>       // every close an undial ever made, and where
  ) {
    function At(s: Side): Endpoint {
      if s == A then a else b
    }

    function With(s: Side, e: Endpoint): (w: World)
      ensures w.At(s) == e && w.At(Peer(s)) == At(Peer(s))
    {
      if s == A then this.(a := e) else this.(b := e)
    }

    function Sending(closes: set<(Side, ConnId)>): World {
      this.(inFlight := inFlight + closes)
    }
  }

  function Peer(s: Side): Side {
    if s == A then B else A
  }

  const IDLE := Endpoint([], {}, None, Selecting, None, [], {})
  const INITIAL := World(IDLE, IDLE, map[], {}, {})

  datatype Step =
    | Command(s: Side, command: Option<Addr>) // the user dials, or undials
    | Receive(s: Side)                        // the dialer takes a message
    | Tick(s: Side)                           // the retry timer fires
    | Establish(s: Side, id: ConnId)          // the handshake of a dial completes
    | ConnectOk(s: Side)
    | ConnectErr(s: Side)
    | AcceptOk(s: Side, id: ConnId)
    | AcceptErr(s: Side, id: ConnId)
    | Deliver(s: Side, id: ConnId)            // a close reaches a side
    | Break(s: Side, id: ConnId)              // a side gives a connection up
    | Shutdown(s: Side)                       // the uplink is dropped: its endpoint closes everything

  // ---- what the steps do to one endpoint ----

  function Registered(e: Endpoint, id: ConnId, dialed: bool): Endpoint {
    e.(conns := ListWith(e.conns, e.closed, id, dialed))
  }

  /** The end of a dialer turn: connect if there is a target and nothing is live. */
  function Checked(e: Endpoint): Endpoint {
    if ToDial(Dialer(e.conns, e.closed, e.target)).Some? then e.(phase := Connecting) else e
  }

  function Received(e: Endpoint): Endpoint
    requires e.commands != []
  {
    var d := Turned(Dialer(e.conns, e.closed, e.target), Some(e.commands[0]));
    Checked(e.(commands := e.commands[1..], conns := d.conns, closed := d.closed, target := d.target))
  }

  /** What an undial hangs up. */
  function HungUp(e: Endpoint): set<ConnId> {
    DialedIds(e.conns) - e.closed
  }

  function To(s: Side, ids: set<ConnId>): set<(Side, ConnId)> {
    set id | id in ids :: (s, id)
  }

  /** A step that is not enabled changes nothing. */
  function Apply(w: World, step: Step): World {
    var s := step.s;
    var e := w.At(s);
    if e.phase == Down && !step.Deliver? then w
    else
      match step
      case Command(_, c) => w.With(s, e.(commands := e.commands + [c]))
      case Receive(_) =>
        if e.phase != Selecting || e.commands == [] then w
        else
          var w1 := w.With(s, Received(e));
          if e.commands[0].Some? then w1
          else w1.Sending(To(Peer(s), HungUp(e))).(undialed := w.undialed + To(s, DialedIds(e.conns)))
      case Tick(_) => if e.phase != Selecting then w else w.With(s, Checked(e))
      case Establish(_, id) =>
        if e.phase != Connecting || e.pending.Some? || id in w.opener || w.At(Peer(s)).phase == Down then w
        else
          var peer := w.At(Peer(s));
          w.With(s, e.(pending := Some(id))).With(Peer(s), peer.(incoming := peer.incoming + {id}))
           .(opener := w.opener[id := s])
      case ConnectOk(_) =>
        if e.phase != Connecting || e.pending.None? then w
        else w.With(s, Registered(e, e.pending.value, true).(phase := Selecting, pending := None))
      case ConnectErr(_) =>
        if e.phase != Connecting then w
        else if e.pending.None? then w.With(s, e.(phase := Selecting))
        else Closing(w, s, e.pending.value, e.(phase := Selecting, pending := None))
      case AcceptOk(_, id) =>
        if id !in e.incoming then w
        else w.With(s, Registered(e, id, false).(incoming := e.incoming - {id}))
      case AcceptErr(_, id) =>
        if id !in e.incoming then w else Closing(w, s, id, e.(incoming := e.incoming - {id}))
      case Deliver(_, id) =>
        if (s, id) !in w.inFlight then w
        else w.With(s, e.(closed := e.closed + {id})).(inFlight := w.inFlight - {(s, id)})
      case Break(_, id) => if id !in w.opener then w else Closing(w, s, id, e)
      case Shutdown(_) =>
        w.With(s, e.(closed := e.closed + w.opener.Keys, phase := Down, pending := None, incoming := {}))
         .Sending(To(Peer(s), w.opener.Keys - e.closed))
  }

  /** Side `s` closes one connection; the peer will be told. */
  function Closing(w: World, s: Side, id: ConnId, e: Endpoint): World {
    w.With(s, e.(closed := e.closed + {id})).Sending({(Peer(s), id)})
  }

  /** The state after any interleaving of steps. */
  function Run(w: World, steps: seq<Step>): World
    decreases |steps|
  {
    if steps == [] then w else Run(Apply(w, steps[0]), steps[1..])
  }

  // ---- the invariant ----

  /** One side's bookkeeping, given who opened each connection. */
  ghost predicate LocalOk(s: Side, e: Endpoint, opener: map<ConnId, Side>) {
    // the tag of a list entry tells who dialed it
    && (forall x :: x in e.conns ==> x.id in opener && (x.dialed <==> opener[x.id] == s))
    // at the select with no target, nothing in the list was dialed
    && (e.phase == Selecting && e.target.None? ==> forall x :: x in e.conns ==> !x.dialed)
    && (e.phase == Connecting ==> e.target.Some?)
    && (e.phase != Connecting ==> e.pending.None?)
    && (e.pending.Some? ==> e.pending.value in opener && opener[e.pending.value] == s)
    && (forall id :: id in e.incoming ==> id in opener && opener[id] == Peer(s))
    // nothing this side dialed is live without being listed or about to be
    && (forall id :: Mine(s, e, opener, id) ==> Conn(id, true) in e.conns || e.pending == Some(id))
    // and there is at most one such connection, pending or listed
    && (forall id :: Mine(s, e, opener, id) && e.phase == Connecting ==> e.pending == Some(id))
    && (forall i, j :: Mine(s, e, opener, i) && Mine(s, e, opener, j) ==> i == j)
    && (e.phase == Down ==> forall id :: !Mine(s, e, opener, id))
  }

  /** A live connection this side dialed. */
  predicate Mine(s: Side, e: Endpoint, opener: map<ConnId, Side>, id: ConnId) {
    id in opener && opener[id] == s && id !in e.closed
  }

  /**
   * A connection closed at one end only has a close on its way to the other,
   * and a close is only ever sent by a side that has closed.
   */
  ghost predicate ClosesOk(s: Side, closed: set<ConnId>, peerClosed: set<ConnId>, inFlight: set<(Side, ConnId)>) {
    && (forall id :: id in peerClosed && id !in closed ==> (s, id) in inFlight)
    && (forall x :: x in inFlight && x.0 == s ==> x.1 in peerClosed)
  }

  /** What holds of every reachable state. */
  ghost predicate Inv(w: World) {
    && LocalOk(A, w.a, w.opener) && LocalOk(B, w.b, w.opener)
    && ClosesOk(A, w.a.closed, w.b.closed, w.inFlight) && ClosesOk(B, w.b.closed, w.a.closed, w.inFlight)
    && w.a.closed <= w.opener.Keys && w.b.closed <= w.opener.Keys
    && (forall x :: x in w.undialed ==> x.1 in w.opener && w.opener[x.1] == x.0)
  }

  // ---- one endpoint at a time ----

  lemma CheckedOk(s: Side, e: Endpoint, opener: map<ConnId, Side>)
    requires LocalOk(s, e, opener) && e.phase == Selecting
    ensures LocalOk(s, Checked(e), opener)
  {
    forall id | Mine(s, e, opener, id)
      ensures AnyLive(e.conns, e.closed)
    {
      assert Conn(id, true) in e.conns;
    }
  }

  lemma HungUpOk(s: Side, e: Endpoint, opener: map<ConnId, Side>)
    requires LocalOk(s, e, opener) && e.phase == Selecting
    ensures LocalOk(s, e.(target := None, conns := OnlyInbound(e.conns), closed := e.closed + DialedIds(e.conns)), opener)
    ensures DialedIds(e.conns) <= opener.Keys && forall id :: id in DialedIds(e.conns) ==> opener[id] == s
  {
    var f := e.(target := None, conns := OnlyInbound(e.conns), closed := e.closed + DialedIds(e.conns));
    forall id
      ensures !Mine(s, f, opener, id)
    {
      if Mine(s, e, opener, id) {
        assert Conn(id, true) in e.conns;
      }
    }
  }

  lemma ReceivedOk(s: Side, e: Endpoint, opener: map<ConnId, Side>)
    requires LocalOk(s, e, opener) && e.phase == Selecting && e.commands != []
    ensures LocalOk(s, Received(e), opener)
    ensures DialedIds(e.conns) <= opener.Keys && forall id :: id in DialedIds(e.conns) ==> opener[id] == s
  {
    HungUpOk(s, e, opener);
    if e.commands[0].None? {
      var f := e.(target := None, conns := OnlyInbound(e.conns), closed := e.closed + DialedIds(e.conns));
      CommandsOk(s, f, opener, e.commands[1..]);
      CheckedOk(s, f.(commands := e.commands[1..]), opener);
    } else {
      var f := e.(target := e.commands[0]);
      TargetOk(s, e, opener, e.commands[0]);
      CommandsOk(s, f, opener, e.commands[1..]);
      CheckedOk(s, f.(commands := e.commands[1..]), opener);
    }
  }

  lemma CommandsOk(s: Side, e: Endpoint, opener: map<ConnId, Side>, commands: seq<Option<Addr>>)
    requires LocalOk(s, e, opener)
    ensures LocalOk(s, e.(commands := commands), opener)
  {
    var f := e.(commands := commands);
    assert forall i :: Mine(s, f, opener, i) <==> Mine(s, e, opener, i);
  }

  lemma TargetOk(s: Side, e: Endpoint, opener: map<ConnId, Side>, target: Option<Addr>)
    requires LocalOk(s, e, opener) && target.Some?
    ensures LocalOk(s, e.(target := target), opener)
  {
    var f := e.(target := target);
    assert forall i :: Mine(s, f, opener, i) <==> Mine(s, e, opener, i);
  }

  lemma DialedOk(s: Side, e: Endpoint, opener: map<ConnId, Side>, id: ConnId, o: map<ConnId, Side>)
    requires LocalOk(s, e, opener) && id !in opener && o == opener[id := s]
    requires e.phase == Connecting && e.pending.None?
    ensures LocalOk(s, e.(pending := Some(id)), o)
  {
    var f := e.(pending := Some(id));
    assert forall i :: Mine(s, f, o, i) ==> i == id || Mine(s, e, opener, i);
  }

  lemma IncomingOk(s: Side, e: Endpoint, opener: map<ConnId, Side>, id: ConnId, o: map<ConnId, Side>)
    requires LocalOk(s, e, opener) && id !in opener && o == opener[id := Peer(s)]
    ensures LocalOk(s, e.(incoming := e.incoming + {id}), o)
  {
    var f := e.(incoming := e.incoming + {id});
    assert forall i :: Mine(s, f, o, i) ==> Mine(s, e, opener, i);
  }

  lemma RegisteredOk(s: Side, e: Endpoint, opener: map<ConnId, Side>, id: ConnId)
    requires LocalOk(s, e, opener)
    ensures e.phase == Connecting && e.pending == Some(id) ==>
              LocalOk(s, Registered(e, id, true).(phase := Selecting, pending := None), opener)
    ensures id in e.incoming ==> LocalOk(s, Registered(e, id, false).(incoming := e.incoming - {id}), opener)
  {
    if e.phase == Connecting && e.pending == Some(id) {
      var f := Registered(e, id, true).(phase := Selecting, pending := None);
      assert forall i :: Mine(s, f, opener, i) <==> Mine(s, e, opener, i);
    }
    if id in e.incoming {
      var f := Registered(e, id, false).(incoming := e.incoming - {id});
      assert forall i :: Mine(s, f, opener, i) <==> Mine(s, e, opener, i);
    }
  }

  /** Knowing more connections closed, or a dial given up, leaves the bookkeeping right. */
  lemma ClosedOk(s: Side, e: Endpoint, f: Endpoint, opener: map<ConnId, Side>)
    requires LocalOk(s, e, opener)
    requires f == e.(closed := f.closed, incoming := f.incoming, commands := f.commands)
             || (e.phase == Connecting && f == e.(closed := f.closed, phase := Selecting, pending := None)
                 && (e.pending.Some? ==> e.pending.value in f.closed))
    requires e.closed <= f.closed && f.incoming <= e.incoming
    ensures LocalOk(s, f, opener)
  {
    assert forall i :: Mine(s, f, opener, i) ==> Mine(s, e, opener, i);
  }

  // ---- closes ----

  /** Closing `ids` at `s`, telling the peer of those that were open, keeps both directions. */
  lemma SendOk(s: Side, closed: set<ConnId>, peerClosed: set<ConnId>, inFlight: set<(Side, ConnId)>,
               ids: set<ConnId>, told: set<ConnId>)
    requires ClosesOk(s, closed, peerClosed, inFlight) && ClosesOk(Peer(s), peerClosed, closed, inFlight)
    requires ids - closed <= told <= ids
    ensures ClosesOk(s, closed + ids, peerClosed, inFlight + To(Peer(s), told))
    ensures ClosesOk(Peer(s), peerClosed, closed + ids, inFlight + To(Peer(s), told))
  {
  }

  lemma DeliveredOk(s: Side, closed: set<ConnId>, peerClosed: set<ConnId>, inFlight: set<(Side, ConnId)>, id: ConnId)
    requires ClosesOk(s, closed, peerClosed, inFlight) && ClosesOk(Peer(s), peerClosed, closed, inFlight)
    requires (s, id) in inFlight
    ensures ClosesOk(s, closed + {id}, peerClosed, inFlight - {(s, id)})
    ensures ClosesOk(Peer(s), peerClosed, closed + {id}, inFlight - {(s, id)})
  {
  }

  // ---- every step keeps the invariant ----

  lemma ClosingKeeps(w: World, s: Side, id: ConnId, e: Endpoint)
    requires Inv(w) && id in w.opener
    requires e.closed == w.At(s).closed && LocalOk(s, e.(closed := e.closed + {id}), w.opener)
    ensures Inv(Closing(w, s, id, e))
  {
    SendOk(s, e.closed, w.At(Peer(s)).closed, w.inFlight, {id}, {id});
    assert To(Peer(s), {id}) == {(Peer(s), id)};
  }

  lemma ReceiveKeeps(w: World, s: Side)
    requires Inv(w) && w.At(s).phase == Selecting && w.At(s).commands != []
    ensures Inv(Apply(w, Receive(s)))
  {
    var e := w.At(s);
    ReceivedOk(s, e, w.opener);
    SendOk(s, e.closed, w.At(Peer(s)).closed, w.inFlight, DialedIds(e.conns), HungUp(e));
  }

  lemma OpeningKeeps(w: World, step: Step)
    requires Inv(w) && (step.Establish? || step.ConnectOk? || step.AcceptOk?)
    ensures Inv(Apply(w, step))
  {
    var s := step.s;
    var e := w.At(s);
    match step
    case Establish(_, id) =>
      if id !in w.opener {
        if e.phase == Connecting && e.pending.None? {
          DialedOk(s, e, w.opener, id, w.opener[id := s]);
        }
        IncomingOk(Peer(s), w.At(Peer(s)), w.opener, id, w.opener[id := s]);
      }
    case ConnectOk(_) =>
      if e.pending.Some? {
        RegisteredOk(s, e, w.opener, e.pending.value);
      }
    case AcceptOk(_, id) => RegisteredOk(s, e, w.opener, id);
  }

  lemma ConnectErrKeeps(w: World, s: Side)
    requires Inv(w)
    ensures Inv(Apply(w, ConnectErr(s)))
  {
    var e := w.At(s);
    if e.phase == Connecting {
      if e.pending.Some? {
        ClosedOk(s, e, e.(closed := e.closed + {e.pending.value}, phase := Selecting, pending := None), w.opener);
        ClosingKeeps(w, s, e.pending.value, e.(phase := Selecting, pending := None));
      } else {
        ClosedOk(s, e, e.(phase := Selecting), w.opener);
      }
    }
  }

  lemma AcceptErrKeeps(w: World, s: Side, id: ConnId)
    requires Inv(w)
    ensures Inv(Apply(w, AcceptErr(s, id)))
  {
    var e := w.At(s);
    if id in e.incoming && e.phase != Down {
      ClosedOk(s, e, e.(closed := e.closed + {id}, incoming := e.incoming - {id}), w.opener);
      ClosingKeeps(w, s, id, e.(incoming := e.incoming - {id}));
    }
  }

  lemma ShutdownKeeps(w: World, s: Side)
    requires Inv(w)
    ensures Inv(Apply(w, Shutdown(s)))
  {
    var e := w.At(s);
    SendOk(s, e.closed, w.At(Peer(s)).closed, w.inFlight, w.opener.Keys, w.opener.Keys - e.closed);
  }

  lemma DeathKeeps(w: World, step: Step)
    requires Inv(w) && (step.Deliver? || step.Break?)
    ensures Inv(Apply(w, step))
  {
    var s := step.s;
    var e := w.At(s);
    match step
    case Deliver(_, id) =>
      if (s, id) in w.inFlight {
        ClosedOk(s, e, e.(closed := e.closed + {id}), w.opener);
        DeliveredOk(s, e.closed, w.At(Peer(s)).closed, w.inFlight, id);
      }
    case Break(_, id) =>
      if id in w.opener && e.phase != Down {
        ClosedOk(s, e, e.(closed := e.closed + {id}), w.opener);
        ClosingKeeps(w, s, id, e);
      }
  }

  lemma StepKeeps(w: World, step: Step)
    requires Inv(w)
    ensures Inv(Apply(w, step))
  {
    var s := step.s;
    var e := w.At(s);
    match step
    case Command(_, c) => ClosedOk(s, e, e.(commands := e.commands + [c]), w.opener);
    case Receive(_) =>
      if e.phase == Selecting && e.commands != [] {
        ReceiveKeeps(w, s);
      }
    case Tick(_) =>
      if e.phase == Selecting {
        CheckedOk(s, e, w.opener);
      }
    case Establish(_, _) => OpeningKeeps(w, step);
    case ConnectOk(_) => OpeningKeeps(w, step);
    case AcceptOk(_, _) => OpeningKeeps(w, step);
    case Deliver(_, _) => DeathKeeps(w, step);
    case Break(_, _) => DeathKeeps(w, step);
    case ConnectErr(_) => ConnectErrKeeps(w, s);
    case AcceptErr(_, id) => AcceptErrKeeps(w, s, id);
    case Shutdown(_) => ShutdownKeeps(w, s);
  }

  /** Every state of every interleaving satisfies the invariant. */
  lemma {:induction false} RunKeeps(w: World, steps: seq<Step>)
    requires Inv(w)
    ensures Inv(Run(w, steps))
    decreases |steps|
  {
    if steps != [] {
      StepKeeps(w, steps[0]);
      RunKeeps(Apply(w, steps[0]), steps[1..]);
    }
  }

  // ---- what follows, for every run ----

  predicate Live(w: World, s: Side, id: ConnId) {
    id in w.opener && id !in w.At(s).closed
  }

  /**
   * An undial and the check behind it take the lock twice, and the other task
   * may get in between. That is no other run: the check finds no target and
   * does nothing, on whatever list and closes it then meets.
   */
  lemma CheckAfterUndialIdle(e: Endpoint, conns: seq<Conn>, closed: set<ConnId>, incoming: set<ConnId>)
    requires e.commands != [] && e.commands[0] == None
    ensures var hung := e.(commands := e.commands[1..], conns := OnlyInbound(e.conns),
                           closed := e.closed + DialedIds(e.conns), target := None);
            && Received(e) == hung
            && var met := hung.(conns := conns, closed := closed, incoming := incoming);
               Checked(met) == met
  {
  }

  /**
   * Every close an undial ever made was of a connection that very side dialed;
   * one the other side dialed in is never among them.
   */
  lemma UndialClosesOwnOnly(steps: seq<Step>, s: Side, id: ConnId)
    ensures var w := Run(INITIAL, steps);
            (s, id) in w.undialed ==> id in w.opener && w.opener[id] == s
  {
    RunKeeps(INITIAL, steps);
  }

  /** A dialer at its select with no target has no dialed connection in its list. */
  lemma NoTargetNothingDialed(steps: seq<Step>, s: Side)
    ensures var e := Run(INITIAL, steps).At(s);
            e.phase == Selecting && e.target.None? ==> OnlyInbound(e.conns) == e.conns && DialedIds(e.conns) == {}
  {
    RunKeeps(INITIAL, steps);
    var e := Run(INITIAL, steps).At(s);
    if e.phase == Selecting && e.target.None? {
      AllInbound(e.conns);
    }
  }

  lemma {:induction false} AllInbound(s: seq<Conn>)
    requires forall x :: x in s ==> !x.dialed
    ensures OnlyInbound(s) == s
  {
    if s != [] {
      assert !s[0].dialed;
      AllInbound(s[1..]);
      assert s == [s[0]] + s[1..];
    }
  }

  /** A side never has two live connections that it dialed, listed or about to be. */
  lemma AtMostOneDialed(steps: seq<Step>, s: Side, i: ConnId, j: ConnId)
    ensures var w := Run(INITIAL, steps);
            Live(w, s, i) && Live(w, s, j) && w.opener[i] == s == w.opener[j] ==> i == j
  {
    RunKeeps(INITIAL, steps);
    var w := Run(INITIAL, steps);
    assert LocalOk(s, w.At(s), w.opener);
    assert Live(w, s, i) && w.opener[i] == s ==> Mine(s, w.At(s), w.opener, i);
    assert Live(w, s, j) && w.opener[j] == s ==> Mine(s, w.At(s), w.opener, j);
  }

  /** With no close on its way, the two ends agree about every connection. */
  lemma EndsAgree(steps: seq<Step>, id: ConnId)
    ensures var w := Run(INITIAL, steps);
            w.inFlight == {} ==> (Live(w, A, id) <==> Live(w, B, id))
  {
    RunKeeps(INITIAL, steps);
  }

  /** A side that will not dial: at its select with no target, or shut down. */
  predicate Quiet(e: Endpoint) {
    e.phase == Down || (e.phase == Selecting && e.target.None?)
  }

  /**
   * Once both sides are quiet and no close is on its way, the two have parted:
   * no connection is live at either end, and both count no peers.
   */
  lemma QuietMeansParted(steps: seq<Step>)
    ensures var w := Run(INITIAL, steps);
            Quiet(w.a) && Quiet(w.b) && w.inFlight == {} ==>
              && (forall s, id :: !Live(w, s, id))
              && OnlyLive(w.a.conns, w.a.closed) == [] && OnlyLive(w.b.conns, w.b.closed) == []
  {
    RunKeeps(INITIAL, steps);
    var w := Run(INITIAL, steps);
    if Quiet(w.a) && Quiet(w.b) && w.inFlight == {} {
      forall s, id
        ensures !Live(w, s, id)
      {
        if id in w.opener {
          var o := w.opener[id];
          assert LocalOk(o, w.At(o), w.opener);
          assert !Mine(o, w.At(o), w.opener, id);
        }
      }
      NothingLive(w, A);
      NothingLive(w, B);
    }
  }

  lemma NothingLive(w: World, s: Side)
    requires Inv(w) && forall id :: !Live(w, s, id)
    ensures OnlyLive(w.At(s).conns, w.At(s).closed) == []
  {
    var e := w.At(s);
    assert LocalOk(s, e, w.opener);
    assert forall x :: x in e.conns ==> !Live(w, s, x.id);
    SomeLive(e.conns, e.closed);
  }

  /** An undial leaves every connection the peer dialed as it was, at both ends and in the list. */
  lemma UndialSparesInbound(steps: seq<Step>, s: Side, id: ConnId)
    ensures var w := Run(INITIAL, steps);
            var v := Apply(w, Receive(s));
            w.At(s).commands != [] && w.At(s).commands[0] == None && id in w.opener && w.opener[id] == Peer(s) ==>
              && (Live(v, A, id) <==> Live(w, A, id)) && (Live(v, B, id) <==> Live(w, B, id))
              && (Conn(id, false) in v.At(s).conns <==> Conn(id, false) in w.At(s).conns)
              && OnlyInbound(v.At(s).conns) == OnlyInbound(w.At(s).conns)
  {
    RunKeeps(INITIAL, steps);
    var w := Run(INITIAL, steps);
    if w.At(s).phase == Selecting && w.At(s).commands != [] && w.At(s).commands[0] == None {
      ReceivedOk(s, w.At(s), w.opener);
      UndialEffect(w, s);
    }
  }

  /** All that an undial changes at the two ends. */
  lemma UndialEffect(w: World, s: Side)
    requires w.At(s).phase == Selecting && w.At(s).commands != [] && w.At(s).commands[0] == None
    ensures var e, v := w.At(s), Apply(w, Receive(s));
            && v.opener == w.opener && v.At(Peer(s)) == w.At(Peer(s))
            && v.At(s).closed == e.closed + DialedIds(e.conns) && v.At(s).conns == OnlyInbound(e.conns)
            && OnlyInbound(v.At(s).conns) == OnlyInbound(e.conns)
  {
    InboundSurvives(w.At(s).conns);
  }

  // ---- and what does happen ----

  predicate AllClosed(e: Endpoint) {
    forall x :: x in e.conns ==> x.id in e.closed
  }

  /** A dialer at its select that is told where to connect, and has nothing live, sets out there. */
  lemma ReceiveDials(w: World, s: Side, addr: Addr)
    requires w.At(s).phase == Selecting && w.At(s).commands != [] && w.At(s).commands[0] == Some(addr)
    requires AllClosed(w.At(s))
    ensures var e := Apply(w, Receive(s)).At(s);
            && e.phase == Connecting && e.target == Some(addr)
            && e.commands == w.At(s).commands[1..] && e.conns == w.At(s).conns && e.closed == w.At(s).closed
            && e.pending == w.At(s).pending && e.incoming == w.At(s).incoming
  {
  }

  /** And sets out again on a tick, as often as the connection has closed or the attempt has failed. */
  lemma TickRedials(w: World, s: Side, addr: Addr)
    requires w.At(s).phase == Selecting && w.At(s).target == Some(addr) && AllClosed(w.At(s))
    ensures Apply(w, Tick(s)).At(s) == w.At(s).(phase := Connecting)
  {
  }

  lemma FailureSelects(w: World, s: Side)
    requires w.At(s).phase == Connecting
    ensures var e := Apply(w, ConnectErr(s)).At(s); e.phase == Selecting && e.target == w.At(s).target
  {
  }

  /** A live connection keeps the dialer from dialing another. */
  lemma LiveHoldsBack(w: World, s: Side)
    requires w.At(s).phase == Selecting && !AllClosed(w.At(s))
    ensures Apply(w, Tick(s)) == w
  {
  }

  /** From setting out on: the handshake, and both sides take the connection up. */
  lemma Connects(w: World, s: Side, id: ConnId)
    requires Inv(w) && w.At(s).phase == Connecting && w.At(s).pending.None? && AllClosed(w.At(s))
    requires id !in w.opener && w.At(Peer(s)).phase != Down
    ensures Joined(w, Run(w, [Establish(s, id), ConnectOk(s), AcceptOk(Peer(s), id)]), s, id)
  {
    RunThree(w, Establish(s, id), ConnectOk(s), AcceptOk(Peer(s), id));
    NothingKept(w.At(s).conns, w.At(s).closed);
    Establishes(w, s, id);
    TakesUp(Apply(w, Establish(s, id)), s, id);
  }

  lemma Establishes(w: World, s: Side, id: ConnId)
    requires Inv(w) && w.At(s).phase == Connecting && w.At(s).pending.None?
    requires id !in w.opener && w.At(Peer(s)).phase != Down
    ensures var v := Apply(w, Establish(s, id));
            && v.At(s) == w.At(s).(pending := Some(id))
            && v.At(Peer(s)) == w.At(Peer(s)).(incoming := w.At(Peer(s)).incoming + {id})
            && v.opener == w.opener[id := s] && v.inFlight == w.inFlight
            && id !in v.At(s).closed && id !in v.At(Peer(s)).closed
  {
  }

  lemma TakesUp(w: World, s: Side, id: ConnId)
    requires w.At(s).phase == Connecting && w.At(s).pending == Some(id)
    requires id in w.At(Peer(s)).incoming && w.At(Peer(s)).phase != Down
    ensures var v := Apply(Apply(w, ConnectOk(s)), AcceptOk(Peer(s), id));
            var e, peer := w.At(s), w.At(Peer(s));
            && v.At(s) == e.(conns := OnlyLive(e.conns, e.closed) + [Conn(id, true)], phase := Selecting, pending := None)
            && v.At(Peer(s)) == peer.(conns := OnlyLive(peer.conns, peer.closed) + [Conn(id, false)],
                                      incoming := peer.incoming - {id})
            && v.opener == w.opener && v.inFlight == w.inFlight
  {
  }

  /** Between `w` and `v`, side `s` has connected to the other over `id`, which both list and neither has closed. */
  ghost predicate Joined(w: World, v: World, s: Side, id: ConnId) {
    var e, peer := v.At(s), v.At(Peer(s));
    && Live(v, A, id) && Live(v, B, id)
    && e.phase == Selecting && e.target == w.At(s).target && e.commands == w.At(s).commands
    && e.conns == [Conn(id, true)] && e.closed == w.At(s).closed
    && peer == w.At(Peer(s)).(conns := OnlyLive(w.At(Peer(s)).conns, w.At(Peer(s)).closed) + [Conn(id, false)],
                              incoming := peer.incoming)
    && v.opener == w.opener[id := s] && v.inFlight == w.inFlight
  }

  lemma {:induction false} NothingKept(s: seq<Conn>, closed: set<ConnId>)
    requires forall x :: x in s ==> x.id in closed
    ensures OnlyLive(s, closed) == []
  {
    if s != [] {
      NothingKept(s[1..], closed);
    }
  }

  lemma RunThree(w: World, a: Step, b: Step, c: Step)
    ensures Run(w, [a, b, c]) == Apply(Apply(Apply(w, a), b), c)
  {
    assert [a, b, c][1..] == [b, c];
    assert [b, c][1..] == [c];
    assert [c][1..] == [];
    assert Run(Apply(Apply(w, a), b), [c]) == Run(Apply(Apply(Apply(w, a), b), c), []);
  }

  /** Side `s` is told what to do, and takes the message. */
  function Told(w: World, s: Side, command: Option<Addr>): World {
    Apply(Apply(w, Command(s, command)), Receive(s))
  }

  function Dialed(w: World, s: Side, addr: Addr, id: ConnId): World {
    Run(Told(w, s, Some(addr)), [Establish(s, id), ConnectOk(s), AcceptOk(Peer(s), id)])
  }

  /** Idle, with nothing live. */
  predicate Idle(e: Endpoint) {
    e.phase == Selecting && e.commands == [] && AllClosed(e)
  }

  /**
   * From any reachable state: told to dial, an idle side connects to a running
   * one over a new connection, and both list it live.
   */
  lemma DialJoins(w: World, s: Side, addr: Addr, id: ConnId)
    requires Inv(w) && Idle(w.At(s)) && w.At(Peer(s)).phase != Down && id !in w.opener
    ensures Told(w, s, Some(addr)).At(s).target == Some(addr)
    ensures Joined(Told(w, s, Some(addr)), Dialed(w, s, addr, id), s, id) && Inv(Dialed(w, s, addr, id))
  {
    var w1 := Apply(w, Command(s, Some(addr)));
    assert w1.At(s).commands == [Some(addr)];
    ReceiveDials(w1, s, addr);
    ToldKeeps(w, s, Some(addr));
    var told := Told(w, s, Some(addr));
    Connects(told, s, id);
    RunKeeps(told, [Establish(s, id), ConnectOk(s), AcceptOk(Peer(s), id)]);
  }

  /**
   * A side told to hang up on the one connection it lists, which it dialed:
   * its own count falls at once, the other's when the close arrives.
   */
  lemma UndialParts(w: World, s: Side, id: ConnId)
    requires Inv(w) && w.At(s).phase == Selecting && w.At(s).commands == [] && w.At(s).conns == [Conn(id, true)]
    requires Live(w, A, id) && Live(w, B, id)
    ensures var hung := Told(w, s, None);
            var parted := Apply(hung, Deliver(Peer(s), id));
            && !Live(hung, s, id) && Live(hung, Peer(s), id) && hung.inFlight == w.inFlight + {(Peer(s), id)}
            && hung.At(s).target == None && Idle(hung.At(s)) && hung.At(s).conns == []
            && !Live(parted, A, id) && !Live(parted, B, id) && parted.At(s) == hung.At(s)
            && parted.At(Peer(s)) == w.At(Peer(s)).(closed := w.At(Peer(s)).closed + {id})
            && parted.opener == w.opener && Inv(parted)
  {
    HangsUp(w, s, id);
    ToldKeeps(w, s, None);
    StepKeeps(Told(w, s, None), Deliver(Peer(s), id));
  }

  lemma ToldKeeps(w: World, s: Side, command: Option<Addr>)
    requires Inv(w)
    ensures Inv(Told(w, s, command))
  {
    StepKeeps(w, Command(s, command));
    StepKeeps(Apply(w, Command(s, command)), Receive(s));
  }

  lemma HangsUp(w: World, s: Side, id: ConnId)
    requires w.At(s).phase == Selecting && w.At(s).commands == [] && w.At(s).conns == [Conn(id, true)]
    requires id !in w.At(s).closed
    ensures var v := Told(w, s, None);
            && v.At(s) == w.At(s).(conns := [], closed := w.At(s).closed + {id}, target := None)
            && v.At(Peer(s)) == w.At(Peer(s))
            && v.inFlight == w.inFlight + {(Peer(s), id)} && v.opener == w.opener
  {
    var e := Apply(w, Command(s, None)).At(s);
    assert e.commands == [None];
    assert OnlyInbound(e.conns) == [] by { assert e.conns[1..] == []; }
    assert DialedIds(e.conns) == {id} by { assert e.conns[0] == Conn(id, true); }
    assert HungUp(e) == {id} && To(Peer(s), {id}) == {(Peer(s), id)};
  }

  lemma InitialOk()
    ensures Inv(INITIAL) && Idle(INITIAL.a) && Idle(INITIAL.b)
  {
  }

  /** The whole story from two new uplinks: dial, hang up, and dial again over a new connection. */
  lemma DialUndialDial(s: Side, addr: Addr, id: ConnId, again: ConnId)
    requires again != id
    ensures var joined := Dialed(INITIAL, s, addr, id);
            var parted := Apply(Told(joined, s, None), Deliver(Peer(s), id));
            var rejoined := Dialed(parted, s, addr, again);
            && Live(joined, A, id) && Live(joined, B, id)
            && OnlyLive(joined.a.conns, joined.a.closed) == joined.a.conns && |joined.a.conns| == 1
            && OnlyLive(joined.b.conns, joined.b.closed) == joined.b.conns && |joined.b.conns| == 1
            && !Live(parted, A, id) && !Live(parted, B, id) && parted.inFlight == {}
            && Live(rejoined, A, again) && Live(rejoined, B, again)
  {
    InitialOk();
    DialJoins(INITIAL, s, addr, id);
    var joined := Dialed(INITIAL, s, addr, id);
    FirstListed(s, addr, id);
    UndialParts(joined, s, id);
    var parted := Apply(Told(joined, s, None), Deliver(Peer(s), id));
    PartedIdle(joined, parted, s, id);
    DialJoins(parted, s, addr, again);
  }

  lemma PartedIdle(w: World, v: World, s: Side, id: ConnId)
    requires w.inFlight == {} && v == Apply(Told(w, s, None), Deliver(Peer(s), id))
    requires Told(w, s, None).inFlight == {(Peer(s), id)}
    ensures v.inFlight == {}
  {
  }

  lemma FirstListed(s: Side, addr: Addr, id: ConnId)
    ensures var w := Dialed(INITIAL, s, addr, id);
            && w.At(s).conns == [Conn(id, true)] && w.At(Peer(s)).conns == [Conn(id, false)]
            && w.At(s).commands == [] && w.At(s).closed == {} && w.At(Peer(s)).closed == {} && w.At(Peer(s)).phase != Down
            && w.opener.Keys == {id} && w.inFlight == {}
            && OnlyLive(w.a.conns, w.a.closed) == w.a.conns && OnlyLive(w.b.conns, w.b.closed) == w.b.conns
  {
    InitialOk();
    DialJoins(INITIAL, s, addr, id);
    ToldFirst(s, addr);
    var w := Dialed(INITIAL, s, addr, id);
    OneKept(Conn(id, true), w.At(s).closed);
    OneKept(Conn(id, false), w.At(Peer(s)).closed);
  }

  lemma OneKept(x: Conn, closed: set<ConnId>)
    requires x.id !in closed
    ensures OnlyLive([x], closed) == [x] && OnlyLive([], closed) == []
  {
    assert [x][1..] == [];
  }

  lemma ToldFirst(s: Side, addr: Addr)
    ensures var w := Told(INITIAL, s, Some(addr));
            && w.At(s).commands == [] && w.At(s).closed == {} && w.opener == map[] && w.inFlight == {}
            && w.At(Peer(s)) == IDLE
  {
    var w1 := Apply(INITIAL, Command(s, Some(addr)));
    assert w1.At(s).commands == [Some(addr)];
    ReceiveDials(w1, s, addr);
  }

  /** A connection given up is closed at once at this end, and the other end is told; so is every one when an uplink is dropped. */
  lemma LossesTold(w: World, s: Side, id: ConnId)
    requires Inv(w) && w.At(s).phase != Down && id in w.opener
    ensures var v := Apply(w, Break(s, id)); !Live(v, s, id) && (Peer(s), id) in v.inFlight
    ensures var v := Apply(w, Shutdown(s));
            v.At(s).phase == Down && !Live(v, s, id) && (Live(w, s, id) ==> (Peer(s), id) in v.inFlight)
  {
  }

  lemma CloseArrives(w: World, s: Side, id: ConnId)
    requires (s, id) in w.inFlight
    ensures var v := Apply(w, Deliver(s, id)); !Live(v, s, id) && v.inFlight == w.inFlight - {(s, id)}
  {
  }
}
