/**
 * The stub name server: its own decoder for the question and its reply
 * writer, written independently of the resolver.
 */
module DnsStub {
  import opened Outcomes
  import opened DnsNames
  import opened Resolver

  const DATAGRAM := 1500 // the query and reply buffers
  const NAME_SIZE := 256 // the decoded-name buffer

  const T_A := 1
  const T_NS := 2
  const T_MX := 15
  const T_TXT := 16

  /** "wk" and "test". */
  const ZONE_NAME: Name := [[119, 107], [116, 101, 115, 116]]
  const ZONE_TEXT: seq<Byte> := [119, 107, 46, 116, 101, 115, 116]
  const ZONE: seq<Byte> := [2, 119, 107, 4, 116, 101, 115, 116, 0]
  const MAIL: seq<Byte> := [4, 109, 97, 105, 108, 2, 119, 107, 4, 116, 101, 115, 116, 0]
  const NS: seq<Byte> := [2, 110, 115, 2, 119, 107, 4, 116, 101, 115, 116, 0]
  const TXT: seq<Byte> := [119, 107, 32, 100, 110, 115, 115, 116, 117, 98] // "wk dnsstub"

  // ---- decoding the question ----

  function LowerByte(c: Byte): Byte {
    if 65 <= c <= 90 then c + 32 else c
  }

  function Lower(s: seq<Byte>): (r: seq<Byte>)
    ensures |r| == |s|
  {
    seq(|s|, i requires 0 <= i < |s| => LowerByte(s[i]))
  }

  lemma LowerAppend(a: seq<Byte>, b: seq<Byte>)
    ensures Lower(a + b) == Lower(a) + Lower(b)
  {
  }

  /** The label loop: each byte in lower case. */
  method PutLower(text: seq<Byte>, out: array<Byte>, at: nat) returns (w: nat)
    requires at + |text| <= out.Length
    modifies out
    ensures w == at + |text| && out[..w] == old(out[..at]) + Lower(text)
  {
    w := at;
    for i := 0 to |text|
      invariant w == at + i
      invariant out[..w] == old(out[..at]) + Lower(text)[..i]
    {
      ghost var done := out[..w];
      out[w] := LowerByte(text[i]);
      w := w + 1;
      assert out[..w] == done + [LowerByte(text[i])];
    }
  }

  /** Adds one label in lower case, after a dot unless it is the first. */
  method AppendLower(text: Label, out: array<Byte>, at: nat, ghost read: Name) returns (w: nat)
    requires out.Length == NAME_SIZE && at + |text| + 2 <= NAME_SIZE
    requires out[..at] == Lower(Joined(read))
    modifies out
    ensures w == |Joined(read + [text])| < NAME_SIZE
    ensures out[..w] == Lower(Joined(read + [text]))
  {
    JoinedAppend(read, text);
    JoinedNonEmpty(read);
    ghost var before := Joined(read);
    w := at;
    if w != 0 {
      out[w] := DOT;
      w := w + 1;
      LowerAppend(before, [DOT]);
      before := before + [DOT];
    }
    assert out[..w] == Lower(before);
    LowerAppend(before, text);
    w := PutLower(text, out, w);
  }

  /** Whether the stub can hold this decoded name. */
  predicate Held(n: Option<Name>) {
    n.Some? && |Joined(n.value)| < NAME_SIZE
  }

  /** One label of the question: taken over in lower case, or the name cannot be held. */
  method DecodeLabel(buf: seq<Byte>, off: nat, out: array<Byte>, at: nat, ghost read: Name)
    returns (w: nat, fits: bool, ghost longer: Name)
    requires off < |buf| && 0 < buf[off] <= MAX_LABEL
    requires out.Length == NAME_SIZE
    requires at == |Joined(read)| < NAME_SIZE && out[..at] == Lower(Joined(read))
    modifies out
    ensures !fits ==> !Held(Prepend(read, PlainName(buf, off)))
    ensures fits ==>
              var next := off + 1 + buf[off];
              && next <= |buf|
              && w == |Joined(longer)| < NAME_SIZE && out[..w] == Lower(Joined(longer))
              && Prepend(longer, PlainName(buf, next)) == Prepend(read, PlainName(buf, off))
              && Span(buf, off) == next - off + Span(buf, next)
  {
    var n := buf[off];
    if off + 1 + n > |buf| {
      return at, false, [];
    }
    var l: Label := buf[off + 1..off + 1 + n];
    ghost var rest := PlainName(buf, off + 1 + n);
    PrependCons(read, l, rest);
    longer := read + [l];
    if at + n + 2 > NAME_SIZE {
      JoinedAppend(read, l);
      JoinedNonEmpty(read);
      if rest.Some? {
        JoinedGrows(longer, rest.value);
      }
      return at, false, [];
    }
    w := AppendLower(l, out, at, read);
    fits := true;
  }

  /**
   * Decodes the uncompressed name at `off0` of the datagram `buf`; returns the
   * offset after it, or -1. The name is left in `out`, lower case and
   * NUL-terminated.
   */
  method ReadQname(buf: seq<Byte>, off0: nat, out: array<Byte>) returns (r: int)
    requires off0 <= |buf| && out.Length == NAME_SIZE
    modifies out
    ensures r >= 0 <==> Held(PlainName(buf, off0))
    ensures r < 0 ==> r == -1
    ensures r >= 0 ==>
              var n := PlainName(buf, off0).value;
              r == off0 + |Wire(n)| && out[..|Joined(n)| + 1] == Lower(Joined(n)) + [0]
  {
    var w, off: nat := 0, off0;
    ghost var read: Name := [];
    PrependNothing([], PlainName(buf, off));
    while off < |buf|
      invariant off0 <= off <= |buf|
      invariant Prepend(read, PlainName(buf, off)) == PlainName(buf, off0)
      invariant w == |Joined(read)| < NAME_SIZE && out[..w] == Lower(Joined(read))
      invariant Span(buf, off0) == off - off0 + Span(buf, off)
      decreases |buf| - off
    {
      var n := buf[off];
      if n == 0 {
        PrependNothing(read, None);
        out[w] := 0;
        assert out[..w + 1] == Lower(Joined(read)) + [0];
        PlainSpan(buf, off0);
        return off + 1;
      }
      if n > MAX_LABEL {
        return -1;
      }
      var fits;
      w, fits, read := DecodeLabel(buf, off, out, w, read);
      if !fits {
        return -1;
      }
      off := off + 1 + n;
    }
    return -1;
  }

  // ---- writing the reply ----

  /** The characters of a NUL-terminated buffer: what strcmp sees. */
  function CText(buffer: seq<Byte>): seq<Byte> {
    buffer[..Find(buffer, 0)]
  }

  predicate IsZone(n: Name) {
    CText(Lower(Joined(n)) + [0]) == ZONE_TEXT
  }

  datatype Answer = Answer(rtype: Byte, rdata: seq<Byte>)

  /** The fixed table: what the stub holds for wk.test. */
  function Served(qtype: int): seq<Answer> {
    if qtype == T_A then [Answer(T_A, [10, 0, 0, 42])]
    else if qtype == T_MX then [Answer(T_MX, [0, 10] + MAIL)]
    else if qtype == T_TXT then [Answer(T_TXT, [10] + TXT)]
    else if qtype == T_NS then [Answer(T_NS, NS)]
    else []
  }

  /** A resource record: owner, type, class IN, TTL 60, then RDLEN and RDATA. */
  function RecordBytes(x: Answer): seq<Byte> {
    ZONE + U16(x.rtype) + [0, 1, 0, 0, 0, 60] + U16(|x.rdata|) + x.rdata
  }

  function AnswerBytes(xs: seq<Answer>): seq<Byte> {
    if xs == [] then [] else RecordBytes(xs[0])
  }

  function Answers(q: seq<Byte>, qlen: nat, zone: bool): (xs: seq<Answer>)
    requires HEADER_SIZE + 4 < qlen <= |q|
    ensures |xs| <= 1
    ensures forall x | x in xs :: |x.rdata| <= 16
  {
    if zone then Served(BigEndian(q[qlen - 4], q[qlen - 3])) else []
  }

  /** Header and question: all echoed but QR, AA, RD, the rcode and the answer count. */
  function ReplyHead(q: seq<Byte>, qlen: nat, zone: bool, ancount: nat): (head: seq<Byte>)
    requires HEADER_SIZE <= qlen <= |q|
    ensures |head| == qlen && head[..2] == q[..2] && head[8..] == q[8..qlen]
    ensures head[3] == (if zone then 0 else 3) && head[6] == U16(ancount)[0] && head[7] == U16(ancount)[1]
  {
    q[..2] + [132 + q[2] % 2, if zone then 0 else 3] + q[4..6] + U16(ancount) + q[8..qlen]
  }

  /** The reply to a datagram whose question ends at `qlen`. */
  function ReplyBytes(q: seq<Byte>, qlen: nat, zone: bool): seq<Byte>
    requires HEADER_SIZE + 4 < qlen <= |q|
  {
    var xs := Answers(q, qlen, zone);
    ReplyHead(q, qlen, zone, |xs|) + AnswerBytes(xs)
  }

  /** The reply to the question `n` of datagram `q`. */
  function ReplyTo(q: seq<Byte>, n: Name): seq<Byte>
    requires HEADER_SIZE + |Wire(n)| + 4 <= |q|
  {
    ReplyBytes(q, HEADER_SIZE + |Wire(n)| + 4, IsZone(n))
  }

  /** Which datagrams are answered at all: a whole question the stub can hold. */
  predicate Answerable(q: seq<Byte>) {
    && |q| >= HEADER_SIZE
    && Held(PlainName(q, HEADER_SIZE))
    && HEADER_SIZE + |Wire(PlainName(q, HEADER_SIZE).value)| + 4 <= |q|
  }

  method PutU16(a: array<Byte>, at: nat, v: nat) returns (w: nat)
    requires at + 2 <= a.Length
    modifies a
    ensures w == 2 && OnlyWithin(a, at, at + 2)
    ensures a[..at + 2] == old(a[..at]) + U16(v)
  {
    a[at] := (v / 256) % 256;
    a[at + 1] := v % 256;
    w := 2;
    assert a[..at] == old(a[..at]);
  }

  /** The record header with RDLEN left zero; returns its size. */
  method PutRrHead(a: array<Byte>, at: nat, rtype: Byte) returns (w: nat)
    requires at + 19 <= a.Length
    modifies a
    ensures w == 19 && OnlyWithin(a, at, at + 19)
    ensures a[..at + 19] == old(a[..at]) + (ZONE + U16(rtype) + [0, 1, 0, 0, 0, 60, 0, 0])
  {
    ghost var before := a[..at];
    CopyBytes(ZONE, 0, a, at, |ZONE|);
    w := |ZONE|;
    assert a[..at + w] == before + ZONE;
    var k := PutU16(a, at + w, rtype);
    w := w + k;
    k := PutU16(a, at + w, 1);
    w := w + k;
    k := PutU16(a, at + w, 0);
    w := w + k;
    k := PutU16(a, at + w, 60);
    w := w + k;
    k := PutU16(a, at + w, 0);
    w := w + k;
    RrHeadBytes(before, rtype);
  }

  lemma RrHeadBytes(before: seq<Byte>, rtype: Byte)
    ensures before + ZONE + U16(rtype) + U16(1) + U16(0) + U16(60) + U16(0) ==
            before + (ZONE + U16(rtype) + [0, 1, 0, 0, 0, 60, 0, 0])
  {
    assert U16(1) == [0, 1] && U16(0) == [0, 0] && U16(60) == [0, 60];
    assert [0, 1] + [0, 0] + [0, 60] + [0, 0] == [0, 1, 0, 0, 0, 60, 0, 0];
  }

  /** Appends one record, patching its RDLEN. The four served types share this shape. */
  method PutRecord(a: array<Byte>, at: nat, x: Answer) returns (w: nat)
    requires |x.rdata| < 0x1_0000 && at + 19 + |x.rdata| <= a.Length
    modifies a
    ensures w == at + |RecordBytes(x)| && OnlyWithin(a, at, w)
    ensures a[..w] == old(a[..at]) + RecordBytes(x)
  {
    ghost var before := a[..at];
    ghost var head := ZONE + U16(x.rtype) + [0, 1, 0, 0, 0, 60];
    var h := PutRrHead(a, at, x.rtype);
    HeadCut(before, x.rtype, a[..at + 19]);
    assert a[..at + 17] == a[..at + 19][..at + 17];
    var _ := PutU16(a, at + h - 2, |x.rdata|);
    w := at + h;
    assert a[..w] == before + head + U16(|x.rdata|);
    CopyBytes(x.rdata, 0, a, w, |x.rdata|);
    w := w + |x.rdata|;
    RecordJoined(before, head, U16(|x.rdata|), x.rdata);
  }

  /** The record header without its last two bytes, the place of RDLEN. */
  lemma HeadCut(before: seq<Byte>, rtype: Byte, all: seq<Byte>)
    requires all == before + (ZONE + U16(rtype) + [0, 1, 0, 0, 0, 60, 0, 0])
    ensures |all| == |before| + 19
    ensures all[..|before| + 17] == before + (ZONE + U16(rtype) + [0, 1, 0, 0, 0, 60])
  {
    var head := ZONE + U16(rtype) + [0, 1, 0, 0, 0, 60];
    assert [0, 1, 0, 0, 0, 60, 0, 0] == [0, 1, 0, 0, 0, 60] + [0, 0];
    assert all == before + head + [0, 0];
  }

  lemma RecordJoined(a: seq<Byte>, b: seq<Byte>, c: seq<Byte>, d: seq<Byte>)
    ensures a + b + c + d[0..|d|] == a + (b + c + d)
  {
    assert d[0..|d|] == d;
  }

  /**
   * Answers the datagram `q` into `a`; returns the reply's length, or -1 for a
   * datagram that is dropped. Whatever arrives, the reply fits its buffer.
   */
  method HandleDatagram(q: seq<Byte>, name: array<Byte>, a: array<Byte>) returns (w: int)
    requires |q| <= DATAGRAM == a.Length && name.Length == NAME_SIZE && a != name
    modifies name, a
    ensures !Answerable(q) ==> w == -1
    ensures Answerable(q) ==>
              var reply := ReplyTo(q, PlainName(q, HEADER_SIZE).value);
              w == |reply| <= DATAGRAM && a[..w] == reply
  {
    var n := |q|;
    if n < HEADER_SIZE {
      return -1;
    }
    var off := ReadQname(q, HEADER_SIZE, name);
    if off < 0 || off + 4 > n {
      return -1;
    }
    ghost var qname := PlainName(q, HEADER_SIZE).value;
    assert off + 4 <= 300 by { LabelsLength(qname); }
    var zone := CText(name[..]) == ZONE_TEXT;
    assert zone == IsZone(qname) by { CTextOfBuffer(name[..], Lower(Joined(qname))); }
    w := WriteReply(q, off + 4, zone, a);
  }

  /** The part after the question is understood. */
  method WriteReply(q: seq<Byte>, qlen: nat, zone: bool, a: array<Byte>) returns (w: nat)
    requires HEADER_SIZE + 4 < qlen <= 300 && qlen <= |q| && a.Length == DATAGRAM
    modifies a
    ensures w <= DATAGRAM && a[..w] == ReplyBytes(q, qlen, zone)
  {
    var xs := Answers(q, qlen, zone);
    ReplyHeader(q, qlen, zone, |xs|, a);
    w := PutAnswers(a, qlen, xs);
  }

  method PutAnswers(a: array<Byte>, at: nat, xs: seq<Answer>) returns (w: nat)
    requires |xs| <= 1 && forall x | x in xs :: |x.rdata| <= 16
    requires at + 35 <= a.Length
    modifies a
    ensures w <= a.Length && a[..w] == old(a[..at]) + AnswerBytes(xs)
  {
    w := at;
    if xs != [] {
      w := PutRecord(a, at, xs[0]);
      assert a[..w] == a[..at] + a[at..w];
      assert a[..at] == old(a[..at]);
    }
  }

  /** The header and question of the reply: all copied, then QR, AA, RD, rcode and the count patched. */
  method ReplyHeader(q: seq<Byte>, qlen: nat, zone: bool, ancount: nat, a: array<Byte>)
    requires HEADER_SIZE <= qlen <= |q| && qlen <= a.Length
    modifies a
    ensures a[..qlen] == ReplyHead(q, qlen, zone, ancount)
  {
    CopyBytes(q, 0, a, 0, qlen);
    assert a[..qlen] == q[..qlen];
    a[2] := 132 + q[2] % 2;
    a[3] := 0;
    if !zone {
      a[3] := 3;
    }
    var _ := PutU16(a, 6, ancount);
  }

  lemma CTextOfBuffer(buffer: seq<Byte>, text: seq<Byte>)
    requires |text| < |buffer| && buffer[..|text| + 1] == text + [0]
    ensures CText(buffer) == CText(text + [0])
  {
    var i, j := Find(buffer, 0), Find(text + [0], 0);
    assert (text + [0])[|text|] == 0 && buffer[|text|] == (text + [0])[|text|];
    assert buffer[|text|] == 0;
    FirstOnly(buffer, text + [0]);
  }

  lemma {:induction false} FirstOnly(long: seq<Byte>, short: seq<Byte>)
    requires short <= long && 0 in short
    ensures Find(long, 0) == Find(short, 0) < |short|
  {
    if short[0] != 0 {
      FirstOnly(long[1..], short[1..]);
    }
  }
}
