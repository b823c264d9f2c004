/** One uplink: its connection list, and what its tasks do to it. */
module Uplink {
  import opened Outcomes

  type ConnId = int
  type Addr = int

  /** A connection in the list, tagged with whether this side opened it. */
  datatype Conn = Conn(id: ConnId, dialed: bool)

  /** The entries without a close reason. */
  function OnlyLive(s: seq<Conn>, closed: set<ConnId>): (r: seq<Conn>)
    ensures forall x :: x in r <==> x in s && x.id !in closed
  {
    if s == [] then []
    else
      var rest := OnlyLive(s[1..], closed);
      if s[0].id in closed then rest else [s[0]] + rest
  }

  /** The entries a remote dialed in. */
  function OnlyInbound(s: seq<Conn>): (r: seq<Conn>)
    ensures forall x :: x in r <==> x in s && !x.dialed
  {
    if s == [] then []
    else
      var rest := OnlyInbound(s[1..]);
      if s[0].dialed then rest else [s[0]] + rest
  }

  function DialedIds(s: seq<Conn>): set<ConnId> {
    set x | x in s && x.dialed :: x.id
  }

  predicate AnyLive(s: seq<Conn>, closed: set<ConnId>) {
    exists x :: x in s && x.id !in closed
  }

  /** The list after a connection is registered: what has closed goes, the new entry comes last. */
  function ListWith(s: seq<Conn>, closed: set<ConnId>, id: ConnId, dialed: bool): seq<Conn> {
    OnlyLive(s, closed) + [Conn(id, dialed)]
  }

  /** What the dialer task reads and writes. */
  datatype Dialer = Dialer(conns: seq<Conn>, closed: set<ConnId>, target: Option<Addr>)

  /** A dialer turn: a message sets or clears the target, and clearing it hangs up. */
  function Turned(d: Dialer, message: Option<Option<Addr>>): Dialer {
    match message
    case None => d
    case Some(Some(addr)) => d.(target := Some(addr))
    case Some(None) => Dialer(OnlyInbound(d.conns), d.closed + DialedIds(d.conns), None)
  }

  /** Whom to connect to at the end of a turn. */
  function ToDial(d: Dialer): Option<Addr> {
    if AnyLive(d.conns, d.closed) then None else d.target
  }

  /** A connect is due exactly when there is a target and every listed connection has closed; and it goes there. */
  lemma DialsExactly(d: Dialer, addr: Addr)
    ensures ToDial(d) == Some(addr) <==> d.target == Some(addr) && forall x :: x in d.conns ==> x.id in d.closed
  {
  }

  lemma SomeLive(s: seq<Conn>, closed: set<ConnId>)
    ensures OnlyLive(s, closed) != [] <==> AnyLive(s, closed)
  {
    assert OnlyLive(s, closed) != [] ==> OnlyLive(s, closed)[0] in s;
  }

  lemma {:induction false} OnlyLiveSnoc(s: seq<Conn>, closed: set<ConnId>, x: Conn)
    ensures OnlyLive(s + [x], closed) == OnlyLive(s, closed) + if x.id in closed then [] else [x]
  {
    if s == [] {
      assert [] + [x] == [x];
    } else {
      assert (s + [x])[1..] == s[1..] + [x];
      OnlyLiveSnoc(s[1..], closed, x);
    }
  }

  lemma {:induction false} OnlyInboundSnoc(s: seq<Conn>, x: Conn)
    ensures OnlyInbound(s + [x]) == OnlyInbound(s) + if x.dialed then [] else [x]
  {
    if s == [] {
      assert [] + [x] == [x];
    } else {
      assert (s + [x])[1..] == s[1..] + [x];
      OnlyInboundSnoc(s[1..], x);
    }
  }

  lemma DialedIdsSnoc(s: seq<Conn>, x: Conn)
    ensures DialedIds(s + [x]) == DialedIds(s) + if x.dialed then {x.id} else {}
  {
    var t := s + [x];
    assert forall y :: y in t <==> y in s || y == x;
  }

  /** Undialing takes no inbound entry out, and leaves their order alone. */
  lemma {:induction false} InboundSurvives(s: seq<Conn>)
    ensures OnlyInbound(OnlyInbound(s)) == OnlyInbound(s)
  {
    if s != [] {
      InboundSurvives(s[1..]);
      if !s[0].dialed {
        assert OnlyInbound(s)[1..] == OnlyInbound(s[1..]);
      }
    }
  }

  /** The list shared by the tasks, with the endpoint's knowledge of which connections have closed. */
  class Link {
    var conns: seq<Conn>
    var closed: set<ConnId>
    var target: Option<Addr>

    constructor ()
      ensures conns == [] && closed == {} && target == None
    {
      conns, closed, target := [], {}, None;
    }

    /** Track a connection, dropping the entries that have closed. */
    method Register(id: ConnId, dialed: bool)
      modifies this`conns
      ensures conns == ListWith(old(conns), closed, id, dialed)
      ensures Conn(id, dialed) in conns && forall x :: x in old(conns) && x.id !in closed ==> x in conns
    {
      var kept: seq<Conn> := [];
      for i := 0 to |conns|
        invariant conns == old(conns)
        invariant kept == OnlyLive(conns[..i], closed)
      {
        OnlyLiveSnoc(conns[..i], closed, conns[i]);
        assert conns[..i + 1] == conns[..i] + [conns[i]];
        if conns[i].id !in closed {
          kept := kept + [conns[i]];
        }
      }
      assert conns[..|conns|] == conns;
      conns := kept + [Conn(id, dialed)];
    }

    /** Hang up on what this side dialed, and forget it. */
    method Undial()
      modifies this`conns, this`closed
      ensures conns == OnlyInbound(old(conns))
      ensures closed == old(closed) + DialedIds(old(conns))
    {
      for i := 0 to |conns|
        invariant conns == old(conns)
        invariant closed == old(closed) + DialedIds(conns[..i])
      {
        assert conns[..i + 1] == conns[..i] + [conns[i]];
        DialedIdsSnoc(conns[..i], conns[i]);
        if conns[i].dialed {
          closed := closed + {conns[i].id};
        }
      }
      assert conns[..|conns|] == conns;
      var kept: seq<Conn> := [];
      for i := 0 to |conns|
        invariant conns == old(conns)
        invariant closed == old(closed) + DialedIds(old(conns))
        invariant kept == OnlyInbound(conns[..i])
      {
        OnlyInboundSnoc(conns[..i], conns[i]);
        assert conns[..i + 1] == conns[..i] + [conns[i]];
        if !conns[i].dialed {
          kept := kept + [conns[i]];
        }
      }
      assert conns[..|conns|] == conns;
      conns := kept;
    }

    /** The number of listed connections that have not closed. */
    method Peers() returns (n: nat)
      ensures n == |OnlyLive(conns, closed)|
      ensures n > 0 <==> AnyLive(conns, closed)
    {
      n := 0;
      for i := 0 to |conns|
        invariant n == |OnlyLive(conns[..i], closed)|
      {
        OnlyLiveSnoc(conns[..i], closed, conns[i]);
        assert conns[..i + 1] == conns[..i] + [conns[i]];
        if conns[i].id !in closed {
          n := n + 1;
        }
      }
      assert conns[..|conns|] == conns;
      SomeLive(conns, closed);
    }

    function State(): Dialer
      reads this
    {
      Dialer(conns, closed, target)
    }

    /**
     * One turn of the dialer: a message or a tick (`None`), then the decision
     * whether to connect, and where.
     */
    method Turn(message: Option<Option<Addr>>) returns (connect: Option<Addr>)
      modifies this
      ensures State() == Turned(old(State()), message)
      ensures target == match message case Some(t) => t case None => old(target)
      ensures message != Some(None) ==> conns == old(conns) && closed == old(closed)
      ensures message == Some(None) ==> connect == None && (forall x :: x in conns <==> x in old(conns) && !x.dialed)
                                        && (forall x :: x in old(conns) && x.dialed ==> x.id in closed)
      ensures connect == ToDial(State())
      ensures forall addr :: connect == Some(addr) <==> target == Some(addr) && forall x :: x in conns ==> x.id in closed
    {
      if message.Some? {
        target := message.value;
        if target.None? {
          Undial();
        }
      }
      var live := Peers();
      return if live > 0 then None else target;
    }
  }
}
