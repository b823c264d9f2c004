/**
 * Domain names and their two spellings: dotted text and wire form
 * (RFC 1035, sections 2.3.4, 3.1 and 4.1.4).
 */
module DnsNames {
  import opened Outcomes

  const DOT: Byte := 46
  const MAX_LABEL := 63   // NS_MAXLABEL
  const MAX_NAME := 255   // NS_MAXCDNAME
  const HEADER_SIZE := 12 // NS_HFIXEDSZ
  const COMPRESSION_TAG := 192 // NS_CMPRSFLGS: both top bits set

  /** What one length byte below 64 can announce. */
  type Label = l: seq<Byte> | 0 < |l| <= MAX_LABEL witness [0]
  type Name = seq<Label>

  /** A label that survives being written as dotted C text. */
  predicate LegalLabel(l: Label) {
    DOT !in l && 0 !in l
  }

  predicate LegalName(n: Name) {
    forall l | l in n :: LegalLabel(l)
  }

  /** The labels of a name, each behind its length byte. */
  function Labels(n: Name): seq<Byte> {
    if n == [] then [] else [|n[0]|] + n[0] + Labels(n[1..])
  }

  /** Uncompressed wire form: the labels, then the root label. */
  function Wire(n: Name): seq<Byte> {
    Labels(n) + [0]
  }

  /** The labels with a dot between neighbours. */
  function Joined(n: Name): seq<Byte> {
    if n == [] then []
    else if |n| == 1 then n[0]
    else n[0] + [DOT] + Joined(n[1..])
  }

  /** The printed form: the root prints as ".". */
  function Dotted(n: Name): seq<Byte> {
    if n == [] then [DOT] else Joined(n)
  }

  /** `t` writes the name `n`, with no, one or (as the encoder also allows) two closing dots. */
  predicate Spells(t: seq<Byte>, n: Name) {
    || t == Joined(n)
    || t == Joined(n) + [DOT]
    || (n != [] && t == Joined(n) + [DOT, DOT])
  }

  // ---- a label, or labels, before a name that may be missing ----

  function Cons(l: Label, n: Option<Name>): Option<Name> {
    match n
    case None => None
    case Some(rest) => Some([l] + rest)
  }

  function Prepend(a: Name, n: Option<Name>): Option<Name> {
    match n
    case None => None
    case Some(rest) => Some(a + rest)
  }

  // ---- sizes ----

  lemma {:induction false} LabelsLength(n: Name)
    ensures |Labels(n)| == if n == [] then 0 else |Joined(n)| + 1
  {
    if |n| > 0 {
      LabelsLength(n[1..]);
    }
  }

  lemma {:induction false} LabelsAppend(a: Name, b: Name)
    ensures Labels(a + b) == Labels(a) + Labels(b)
  {
    if a == [] {
      assert a + b == b;
    } else {
      assert (a + b)[1..] == a[1..] + b;
      LabelsAppend(a[1..], b);
    }
  }

  lemma {:induction false} JoinedAppend(a: Name, l: Label)
    ensures Joined(a + [l]) == Joined(a) + (if a == [] then [] else [DOT]) + l
  {
    if a == [] {
      assert a + [l] == [l];
    } else {
      assert (a + [l])[1..] == a[1..] + [l];
      JoinedAppend(a[1..], l);
    }
  }

  lemma WireCons(l: Label, n: Name)
    ensures Wire([l] + n) == [|l|] + l + Wire(n)
    ensures Wire([l]) == [|l|] + l + [0]
  {
    assert ([l] + n)[1..] == n;
    assert Labels([l]) == [|l|] + l;
  }

  lemma JoinedGrows(a: Name, b: Name)
    ensures |Joined(a)| <= |Joined(a + b)|
  {
    LabelsAppend(a, b);
    LabelsLength(a);
    LabelsLength(b);
    LabelsLength(a + b);
    if a == [] || b == [] {
      assert a + b == a || a + b == b;
    }
  }

  lemma JoinedNonEmpty(n: Name)
    ensures n != [] ==> |Joined(n)| > 0
  {
  }

  // ---- reading dotted text ----

  /**
   * The name a text writes: labels between dots, all of them non-empty and at
   * most 63 bytes, where a lone dot may close the text.
   */
  function Parse(t: seq<Byte>): Option<Name> {
    if t == [] then Some([])
    else
      var d := Find(t, DOT);
      if d == 0 then (if |t| == 1 then Some([]) else None)
      else if d > MAX_LABEL then None
      else if d == |t| then Some([t])
      else Cons(t[..d], Parse(t[d + 1..]))
  }

  /** Putting one more label in front keeps the spelling. */
  lemma SpellsCons(l: Label, rest: seq<Byte>, tail: Name)
    requires Spells(rest, tail)
    ensures Spells(l + [DOT] + rest, [l] + tail)
  {
    var n: Name := [l] + tail;
    assert n[1..] == tail;
    var head := l + [DOT];
    if tail == [] {
      assert Joined(n) == l;
      if rest == [] {
        assert head + rest == Joined(n) + [DOT];
      } else {
        assert head + rest == Joined(n) + [DOT, DOT];
      }
    } else {
      assert Joined(n) == head + Joined(tail);
      if rest == Joined(tail) + [DOT] {
        assert head + rest == Joined(n) + [DOT];
      } else if rest == Joined(tail) + [DOT, DOT] {
        assert head + rest == Joined(n) + [DOT, DOT];
      }
    }
  }

  /** Taking the first label off a spelling leaves a spelling of the others. */
  lemma SpellsUncons(t: seq<Byte>, n: Name) returns (rest: seq<Byte>)
    requires n != [] && Spells(t, n)
    ensures (|n| == 1 && t == n[0]) || (t == n[0] + [DOT] + rest && Spells(rest, n[1..]))
  {
    var head := n[0] + [DOT];
    if |n| == 1 {
      if t == Joined(n) + [DOT] {
        rest := [];
      } else {
        rest := [DOT];
        assert t == Joined(n) + [DOT, DOT] ==> t == head + rest;
      }
    } else {
      var j := Joined(n[1..]);
      assert Joined(n) == head + j;
      if t == Joined(n) {
        rest := j;
      } else if t == Joined(n) + [DOT] {
        rest := j + [DOT];
      } else {
        rest := j + [DOT, DOT];
      }
      assert t == head + rest;
    }
  }

  lemma {:induction false} ParseSound(t: CString)
    requires Parse(t).Some?
    ensures LegalName(Parse(t).value) && Spells(t, Parse(t).value)
  {
    var d := Find(t, DOT);
    if t != [] && d == |t| {
      LoneLabel(t);
    } else if 0 < d < |t| {
      var rest := t[d + 1..];
      ParseSound(rest);
      SpellsFirst(t, d, rest, Parse(rest).value);
    }
  }

  lemma LoneLabel(l: Label)
    requires LegalLabel(l)
    ensures LegalName([l]) && Spells(l, [l])
  {
  }

  lemma SpellsFirst(t: CString, d: nat, rest: CString, tail: Name)
    requires 0 < d < |t| && d <= MAX_LABEL && t[d] == DOT && DOT !in t[..d]
    requires rest == t[d + 1..] && Spells(rest, tail) && LegalName(tail)
    ensures Spells(t, [t[..d]] + tail) && LegalName([t[..d]] + tail)
  {
    assert t == t[..d] + [DOT] + rest;
    SpellsCons(t[..d], rest, tail);
  }

  lemma ParseStep(l: Label, rest: seq<Byte>)
    requires LegalLabel(l)
    ensures Parse(l) == Some([l])
    ensures Parse(l + [DOT] + rest) == Cons(l, Parse(rest))
  {
    var t := l + [DOT] + rest;
    FindFirst(l, DOT, rest);
    assert t[..|l|] == l && t[|l| + 1..] == rest;
    assert Find(l, DOT) == |l|;
  }

  lemma LegalTail(n: Name)
    requires n != [] && LegalName(n)
    ensures LegalLabel(n[0]) && LegalName(n[1..])
  {
    assert n[0] in n;
    assert forall l | l in n[1..] :: l in n;
  }

  /** Parsing a spelling, given what parsing the rest of it gives. */
  lemma ParseFirst(t: seq<Byte>, n: Name, rest: seq<Byte>)
    requires n != [] && LegalLabel(n[0])
    requires (|n| == 1 && t == n[0]) || (t == n[0] + [DOT] + rest && Parse(rest) == Some(n[1..]))
    ensures Parse(t) == Some(n)
  {
    ParseStep(n[0], rest);
    assert n == [n[0]] + n[1..];
    assert |n| == 1 ==> n == [n[0]];
  }

  lemma {:induction false} ParseComplete(t: seq<Byte>, n: Name)
    requires LegalName(n) && Spells(t, n)
    ensures Parse(t) == Some(n)
    decreases |n|
  {
    if n == [] {
      NoLabels(t);
    } else {
      var rest := SpellsUncons(t, n);
      LegalTail(n);
      if Spells(rest, n[1..]) {
        ParseComplete(rest, n[1..]);
      }
      ParseFirst(t, n, rest);
    }
  }

  lemma NoLabels(t: seq<Byte>)
    requires Spells(t, [])
    ensures Parse(t) == Some([])
  {
    assert t == [] || t == [DOT];
  }

  // ---- reading the wire ----

  function BigEndian(hi: int, lo: int): int {
    hi * 256 + lo
  }

  /** The offset a two-byte compression pointer names. */
  function Target(hi: Byte, lo: Byte): nat
    requires hi >= COMPRESSION_TAG
  {
    BigEndian(hi - COMPRESSION_TAG, lo)
  }

  /**
   * RFC 1035 section 4.1.4: a name is labels ended by the root label or by a
   * pointer to a prior occurrence. "Prior" is read strictly: a pointer must
   * aim below `limit`, which is where the piece being read began.
   */
  function NameAt(msg: seq<Byte>, p: nat, limit: nat): Option<Name>
    requires p <= |msg| && limit <= |msg|
    decreases limit, |msg| - p
  {
    if p == |msg| then None
    else if msg[p] == 0 then Some([])
    else if msg[p] >= COMPRESSION_TAG then
      if p + 1 < |msg| && Target(msg[p], msg[p + 1]) < limit
      then NameAt(msg, Target(msg[p], msg[p + 1]), Target(msg[p], msg[p + 1]))
      else None
    else if msg[p] > MAX_LABEL || p + 1 + msg[p] > |msg| then None
    else Cons(msg[p + 1..p + 1 + msg[p]], NameAt(msg, p + 1 + msg[p], limit))
  }

  /** How many bytes the name at `p` occupies there: a pointer counts as two and ends it. */
  function Span(msg: seq<Byte>, p: nat): nat
    requires p <= |msg|
    decreases |msg| - p
  {
    if p == |msg| then 0
    else if msg[p] == 0 then 1
    else if msg[p] >= COMPRESSION_TAG then 2
    else if msg[p] > MAX_LABEL || p + 1 + msg[p] > |msg| then 0
    else 1 + msg[p] + Span(msg, p + 1 + msg[p])
  }

  /** A name written without compression. */
  function PlainName(msg: seq<Byte>, p: nat): Option<Name>
    requires p <= |msg|
    decreases |msg| - p
  {
    if p == |msg| then None
    else if msg[p] == 0 then Some([])
    else if msg[p] > MAX_LABEL || p + 1 + msg[p] > |msg| then None
    else Cons(msg[p + 1..p + 1 + msg[p]], PlainName(msg, p + 1 + msg[p]))
  }

  /** A stretch that is two pieces, piece by piece. */
  lemma SliceParts(s: seq<Byte>, p: nat, a: seq<Byte>, b: seq<Byte>)
    requires p + |a + b| <= |s| && s[p..p + |a + b|] == a + b
    ensures s[p..p + |a|] == a && s[p + |a|..p + |a| + |b|] == b
  {
    var n := |a| + |b|;
    Slice(s, p, p + n, 0, |a|);
    Slice(s, p, p + n, |a|, n);
    assert (a + b)[0..|a|] == a && (a + b)[|a|..n] == b;
  }

  /** A label behind its length byte, and what follows. */
  lemma LabelAt(msg: seq<Byte>, p: nat, l: Label, tail: seq<Byte>)
    requires p + 1 + |l| + |tail| <= |msg| && msg[p..p + 1 + |l| + |tail|] == [|l|] + l + tail
    ensures var q := p + 1 + |l|; msg[p] == |l| && msg[p + 1..q] == l && msg[q..q + |tail|] == tail
  {
    SliceParts(msg, p, [|l|] + l, tail);
    SliceParts(msg, p, [|l|], l);
    assert msg[p] == msg[p..p + 1][0];
  }

  /** The first label where a name is written out in full. */
  lemma FirstLabelAt(msg: seq<Byte>, p: nat, n: Name)
    requires n != [] && p + |Wire(n)| <= |msg| && msg[p..p + |Wire(n)|] == Wire(n)
    ensures var q := p + 1 + |n[0]|;
            && msg[p] == |n[0]| && msg[p + 1..q] == n[0]
            && q + |Wire(n[1..])| == p + |Wire(n)| && msg[q..q + |Wire(n[1..])|] == Wire(n[1..])
  {
    var tail := Wire(n[1..]);
    assert Wire(n) == [|n[0]|] + n[0] + tail;
    LabelAt(msg, p, n[0], tail);
  }

  /** Wherever a name is written out in full, both readers find it and its extent. */
  lemma {:induction false} WireReads(msg: seq<Byte>, p: nat, n: Name, limit: nat)
    requires p + |Wire(n)| <= |msg| && limit <= |msg|
    requires msg[p..p + |Wire(n)|] == Wire(n)
    ensures PlainName(msg, p) == Some(n) == NameAt(msg, p, limit)
    ensures Span(msg, p) == |Wire(n)|
    decreases |n|
  {
    if n == [] {
      assert msg[p] == msg[p..p + 1][0] == 0;
    } else {
      FirstLabelAt(msg, p, n);
      WireReads(msg, p + 1 + |n[0]|, n[1..], limit);
      assert n == [n[0]] + n[1..];
    }
  }

  // ---- compressed names ----

  /** What is no name: a reserved label type, a label or a pointer cut off by the message's end, nothing at all. */
  lemma NoName(msg: seq<Byte>, p: nat, limit: nat)
    requires p <= |msg| && limit <= |msg|
    ensures p == |msg| ==> NameAt(msg, p, limit) == None
    ensures p < |msg| && 64 <= msg[p] < 192 ==> NameAt(msg, p, limit) == None
    ensures p < |msg| && 0 < msg[p] < 64 && p + 1 + msg[p] > |msg| ==> NameAt(msg, p, limit) == None
    ensures p + 1 == |msg| && msg[p] >= 192 ==> NameAt(msg, p, limit) == None
    ensures p < |msg| && msg[p] == 0 ==> NameAt(msg, p, limit) == Some([]) && Span(msg, p) == 1
  {
  }

  /** The two bytes of a pointer to offset `o`: two set bits, then fourteen for the offset, high first. */
  function Pointer(o: nat): seq<Byte>
    requires o < 0x4000
  {
    [192 + o / 256, o % 256]
  }

  /** A pointer and nothing before it. */
  lemma PointerAlone(msg: seq<Byte>, p: nat, limit: nat, o: nat)
    requires o < 0x4000 && p + 2 <= |msg| && limit <= |msg| && msg[p..p + 2] == Pointer(o)
    ensures NameAt(msg, p, limit) == if o < limit then NameAt(msg, o, o) else None
    ensures Span(msg, p) == 2
  {
    assert msg[p] == msg[p..p + 2][0] && msg[p + 1] == msg[p..p + 2][1];
  }

  lemma OneLabel(msg: seq<Byte>, p: nat, limit: nat, l: Label)
    requires p + 1 + |l| <= |msg| && limit <= |msg| && msg[p] == |l| && msg[p + 1..p + 1 + |l|] == l
    ensures NameAt(msg, p, limit) == Cons(l, NameAt(msg, p + 1 + |l|, limit))
    ensures Span(msg, p) == 1 + |l| + Span(msg, p + 1 + |l|)
  {
  }

  /** `s` stands in `msg` from `p` on. */
  predicate Stands(msg: seq<Byte>, p: nat, s: seq<Byte>) {
    p + |s| <= |msg| && forall i :: 0 <= i < |s| ==> msg[p + i] == s[i]
  }

  lemma StandsParts(msg: seq<Byte>, p: nat, a: seq<Byte>, b: seq<Byte>)
    requires Stands(msg, p, a + b)
    ensures Stands(msg, p, a) && Stands(msg, p + |a|, b)
  {
    assert forall i :: 0 <= i < |a| ==> (a + b)[i] == a[i];
    assert forall i :: 0 <= i < |b| ==> (a + b)[|a| + i] == b[i];
    forall i | 0 <= i < |b|
      ensures msg[p + |a| + i] == b[i]
    {
      assert msg[p + (|a| + i)] == (a + b)[|a| + i];
    }
  }

  lemma StandsSlice(msg: seq<Byte>, p: nat, s: seq<Byte>)
    requires p + |s| <= |msg|
    ensures Stands(msg, p, s) <==> msg[p..p + |s|] == s
  {
    var t := msg[p..p + |s|];
    assert forall i :: 0 <= i < |s| ==> t[i] == msg[p + i];
  }

  /** One label of many. */
  lemma FrontLabel(msg: seq<Byte>, p: nat, limit: nat, a: Name)
    requires a != [] && limit <= |msg| && Stands(msg, p, Labels(a))
    ensures var q := p + 1 + |a[0]|;
            && q + |Labels(a[1..])| == p + |Labels(a)| && Stands(msg, q, Labels(a[1..]))
            && NameAt(msg, p, limit) == Cons(a[0], NameAt(msg, q, limit)) && Span(msg, p) == q - p + Span(msg, q)
  {
    StandsParts(msg, p, [|a[0]|] + a[0], Labels(a[1..]));
    StandsParts(msg, p, [|a[0]|], a[0]);
    StandsSlice(msg, p + 1, a[0]);
    assert msg[p] == |a[0]| by { assert msg[p + 0] == [|a[0]|][0]; }
    OneLabel(msg, p, limit, a[0]);
  }

  /** Labels in front of anything: they are in front of what is read behind them. */
  lemma {:induction false} LabelsRead(msg: seq<Byte>, p: nat, limit: nat, a: Name)
    requires limit <= |msg| && Stands(msg, p, Labels(a))
    ensures var q := p + |Labels(a)|;
            NameAt(msg, p, limit) == Prepend(a, NameAt(msg, q, limit)) && Span(msg, p) == |Labels(a)| + Span(msg, q)
    decreases |a|
  {
    var q := p + |Labels(a)|;
    if a == [] {
      PrependNone(NameAt(msg, q, limit));
    } else {
      FrontLabel(msg, p, limit, a);
      LabelsRead(msg, p + 1 + |a[0]|, limit, a[1..]);
      PrependFirst(a, NameAt(msg, q, limit));
    }
  }

  lemma PrependNone(n: Option<Name>)
    ensures Prepend([], n) == n
  {
    if n.Some? {
      assert [] + n.value == n.value;
    }
  }

  lemma PrependFirst(a: Name, n: Option<Name>)
    requires a != []
    ensures Cons(a[0], Prepend(a[1..], n)) == Prepend(a, n)
  {
    if n.Some? {
      assert [a[0]] + (a[1..] + n.value) == a + n.value;
    }
  }

  /**
   * Where a compressed name leads, in bytes alone: some labels, then a pointer
   * to where another name is written out. Read as a name of its own it is the
   * labels and that name if the pointer aims before it, and unreadable if not.
   */
  lemma PointerReads(msg: seq<Byte>, p: nat, a: Name, o: nat, n: Name)
    requires o < 0x4000 && o + |Wire(n)| <= |msg| && msg[o..o + |Wire(n)|] == Wire(n)
    requires p + |Labels(a)| + 2 <= |msg|
    requires msg[p..p + |Labels(a)| + 2] == Labels(a) + [192 + o / 256, o % 256]
    ensures NameAt(msg, p, p) == if o < p then Some(a + n) else None
    ensures Span(msg, p) == |Labels(a)| + 2
  {
    var q := p + |Labels(a)|;
    StandsSlice(msg, p, Labels(a) + Pointer(o));
    StandsParts(msg, p, Labels(a), Pointer(o));
    StandsSlice(msg, q, Pointer(o));
    LabelsRead(msg, p, p, a);
    PointerAlone(msg, q, p, o);
    WireReads(msg, o, n, o);
  }

  /** Conversely, an uncompressed name is the wire form of what is read. */
  lemma {:induction false} PlainIsWire(msg: seq<Byte>, p: nat)
    requires p <= |msg| && PlainName(msg, p).Some?
    ensures var w := Wire(PlainName(msg, p).value);
            p + |w| <= |msg| && msg[p..p + |w|] == w
    decreases |msg| - p
  {
    if msg[p] != 0 {
      var q := p + 1 + msg[p];
      PlainIsWire(msg, q);
      var rest := PlainName(msg, q).value;
      var n := PlainName(msg, p).value;
      assert n[1..] == rest;
      assert Wire(n) == [msg[p]] + msg[p + 1..q] + Wire(rest);
      assert msg[p..q + |Wire(rest)|] == [msg[p]] + msg[p + 1..q] + msg[q..q + |Wire(rest)|];
    }
  }

  lemma PlainSpan(msg: seq<Byte>, p: nat)
    requires p <= |msg| && PlainName(msg, p).Some?
    ensures Span(msg, p) == |Wire(PlainName(msg, p).value)|
  {
    PlainIsWire(msg, p);
    WireReads(msg, p, PlainName(msg, p).value, 0);
  }
}
