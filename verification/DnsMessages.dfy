/**
 * Whole messages as a client reads them, by all four counts of the header
 * (RFC 1035, sections 4.1.1 to 4.1.3), and which of the stub's replies are
 * such messages.
 */
module DnsMessages {
  import opened Outcomes
  import opened DnsNames
  import opened Resolver
  import opened DnsStub
  import opened DnsAgreement

  /** The question section: `count` names, each with type and class, and where it ends. */
  function ReadQuestions(msg: seq<Byte>, off: nat, count: nat): (end: Option<nat>)
    requires off <= |msg|
    ensures end.Some? ==> end.value <= |msg|
    decreases count
  {
    if count == 0 then Some(off)
    else
      var p := off + Span(msg, off);
      if NameAt(msg, off, off).None? || p + 4 > |msg| then None else ReadQuestions(msg, p + 4, count - 1)
  }

  function Count(msg: seq<Byte>, at: nat): nat
    requires at + 2 <= |msg|
  {
    BigEndian(msg[at], msg[at + 1])
  }

  /** Where the message ends: behind its questions, answers, authorities and additional records. */
  function MessageEnd(msg: seq<Byte>): Option<nat>
    requires |msg| >= HEADER_SIZE
  {
    match ReadQuestions(msg, HEADER_SIZE, Count(msg, 4))
    case None => None
    case Some(off) =>
      match ReadRecords(msg, off, Count(msg, 6) + Count(msg, 8) + Count(msg, 10))
      case None => None
      case Some((_, end)) => Some(end)
  }

  /** The message is read to its last byte, with nothing left over. */
  predicate WellFormed(msg: seq<Byte>) {
    |msg| >= HEADER_SIZE && MessageEnd(msg) == Some(|msg|)
  }

  lemma AfterQuestions(m: seq<Byte>, off: nat, count: nat)
    requires |m| >= HEADER_SIZE && ReadQuestions(m, HEADER_SIZE, Count(m, 4)) == Some(off)
    requires count == Count(m, 6) + Count(m, 8) + Count(m, 10)
    ensures WellFormed(m) <==> ReadRecords(m, off, count).Some? && ReadRecords(m, off, count).value.1 == |m|
  {
  }

  // ---- a reply: the question, and an answer or none ----

  /** What a reply looks like from the end of its header on; `end` is where its question ends. */
  ghost predicate IsReply(m: seq<Byte>, n: Name, xs: seq<Answer>) {
    var end := HEADER_SIZE + |Wire(n)| + 4;
    && end + |AnswerBytes(xs)| == |m| && m[end..] == AnswerBytes(xs)
    && NameAt(m, HEADER_SIZE, HEADER_SIZE).Some? && Span(m, HEADER_SIZE) == |Wire(n)|
    && Count(m, 6) == |xs| <= 1
    && ReadRecords(m, end, |xs|) == Some((AsRecords(xs), |m|))
    && forall x | x in xs :: ServedAnswer(x)
  }

  /** One of the four answers the stub has. */
  predicate ServedAnswer(x: Answer) {
    x in Served(T_A) || x in Served(T_MX) || x in Served(T_TXT) || x in Served(T_NS)
  }

  lemma NothingAtEnd(m: seq<Byte>, count: nat)
    requires count > 0
    ensures ReadRecords(m, |m|, count) == None && ReadQuestions(m, |m|, count) == None
  {
  }

  /** The bytes of an answer, from the message they end. */
  lemma AnswerAt(m: seq<Byte>, end: nat, x: Answer, i: nat)
    requires end <= |m| && m[end..] == RecordBytes(x) && i < |RecordBytes(x)|
    ensures end + i < |m| && m[end + i] == RecordBytes(x)[i]
  {
    assert m[end..][i] == m[end + i];
  }

  /** What misleads a reader who takes the answer for something else. */
  lemma AnswerLayout(x: Answer)
    requires ServedAnswer(x)
    ensures var b := RecordBytes(x);
            && |b| == 19 + |x.rdata| && 4 <= |x.rdata| <= 16
            && b[4] == 116 && b[5] == 101
            && b[13] == 0 && b[14] == 0
            && b[18] == |x.rdata|
            && (|x.rdata| > 4 ==> BigEndian(b[22], b[23]) >= 100)
  {
    var b := RecordBytes(x);
    var tail := U16(x.rtype) + [0, 1, 0, 0, 0, 60] + U16(|x.rdata|) + x.rdata;
    assert b == ZONE + tail;
    assert b[22] == x.rdata[3];
    assert |x.rdata| > 4 ==> b[23] == x.rdata[4];
  }

  // ---- one question, none, or too many ----

  lemma FirstQuestion(m: seq<Byte>, n: Name, xs: seq<Answer>, count: nat)
    requires IsReply(m, n, xs) && count > 0
    ensures var end := HEADER_SIZE + |Wire(n)| + 4;
            ReadQuestions(m, HEADER_SIZE, count) == ReadQuestions(m, end, count - 1)
  {
  }

  /** With the one question it has, a reply ends where its answers do: no further record fits. */
  lemma OneQuestion(m: seq<Byte>, n: Name, xs: seq<Answer>)
    requires IsReply(m, n, xs) && Count(m, 4) == 1
    ensures WellFormed(m) <==> Count(m, 8) == 0 && Count(m, 10) == 0
  {
    var end := HEADER_SIZE + |Wire(n)| + 4;
    FirstQuestion(m, n, xs, 1);
    var count := Count(m, 6) + Count(m, 8) + Count(m, 10);
    AfterQuestions(m, end, count);
    if count > |xs| {
      MoreRecords(m, end, |xs|, count);
    }
  }

  /** Where one record or none fills the message, more are not found. */
  lemma MoreRecords(m: seq<Byte>, off: nat, some: nat, count: nat)
    requires off <= |m| && some < count && some <= 1
    requires ReadRecords(m, off, some).Some? && ReadRecords(m, off, some).value.1 == |m|
    ensures ReadRecords(m, off, count) == None
  {
    NothingAtEnd(m, count - some);
    if some == 1 {
      assert ReadRecords(m, off, 1).value.1 == ReadRecord(m, off).value.1;
    }
  }

  /** Announcing no question: what stands there is not a record, nor nothing. */
  lemma NoQuestion(m: seq<Byte>, n: Name, xs: seq<Answer>)
    requires IsReply(m, n, xs) && Count(m, 4) == 0
    ensures !WellFormed(m)
  {
    var p := HEADER_SIZE + |Wire(n)|;
    if xs != [] {
      AnswerLayout(xs[0]);
      AnswerAt(m, p + 4, xs[0], 4);
      AnswerAt(m, p + 4, xs[0], 5);
      assert BigEndian(m[p + 8], m[p + 9]) == 29797;
    }
    assert ReadRecord(m, HEADER_SIZE) == None;
  }

  /** Announcing two: the answer is taken for the second, and what is left is no record. */
  lemma TwoQuestions(m: seq<Byte>, n: Name, xs: seq<Answer>)
    requires IsReply(m, n, xs) && Count(m, 4) == 2
    ensures !WellFormed(m)
  {
    var end := HEADER_SIZE + |Wire(n)| + 4;
    FirstQuestion(m, n, xs, 2);
    if xs == [] {
      NothingAtEnd(m, 1);
    } else {
      SecondQuestion(m, end, xs[0], 1);
      RestNoRecord(m, end, xs[0]);
    }
  }

  /** The answer's owner, type and class. */
  lemma SecondQuestion(m: seq<Byte>, end: nat, x: Answer, count: nat)
    requires end <= |m| && m[end..] == RecordBytes(x) && ServedAnswer(x) && count > 0
    ensures end + 13 <= |m| && ReadQuestions(m, end, count) == ReadQuestions(m, end + 13, count - 1)
  {
    AnswerLayout(x);
    ZoneWire();
    var b := RecordBytes(x);
    assert b[..9] == ZONE by {
      assert b == ZONE + (U16(x.rtype) + [0, 1, 0, 0, 0, 60] + U16(|x.rdata|) + x.rdata);
    }
    assert m[end..end + 9] == m[end..][..9];
    WireReads(m, end, ZONE_NAME, end);
  }

  /** What follows its class reads as the root name and then as no record. */
  lemma RestNoRecord(m: seq<Byte>, end: nat, x: Answer)
    requires end <= |m| && m[end..] == RecordBytes(x) && ServedAnswer(x)
    ensures end + 13 <= |m| && ReadRecord(m, end + 13) == None
  {
    AnswerLayout(x);
    AnswerAt(m, end, x, 13);
    assert Span(m, end + 13) == 1;
    if |x.rdata| > 4 {
      AnswerAt(m, end, x, 22);
      AnswerAt(m, end, x, 23);
    }
  }

  /** Announcing more: the third is the root name, and behind it is no name at all. */
  lemma ManyQuestions(m: seq<Byte>, n: Name, xs: seq<Answer>)
    requires IsReply(m, n, xs) && Count(m, 4) > 2
    ensures !WellFormed(m)
  {
    var end, count := HEADER_SIZE + |Wire(n)| + 4, Count(m, 4);
    FirstQuestion(m, n, xs, count);
    if xs == [] {
      NothingAtEnd(m, count - 1);
    } else {
      LaterQuestions(m, end, xs[0], count - 1);
      if count == 3 {
        NoRecords(m, end + 18, Count(m, 6) + Count(m, 8) + Count(m, 10));
      }
    }
  }

  lemma NoRecords(m: seq<Byte>, off: nat, count: nat)
    requires off <= |m| && NameAt(m, off, off) == None && count > 0
    ensures ReadRecords(m, off, count) == None
  {
  }

  lemma LaterQuestions(m: seq<Byte>, end: nat, x: Answer, count: nat)
    requires end <= |m| && m[end..] == RecordBytes(x) && ServedAnswer(x) && count > 1
    ensures end + 18 <= |m| && NameAt(m, end + 18, end + 18) == None
    ensures ReadQuestions(m, end, count) == if count == 2 then Some(end + 18) else None
  {
    SecondQuestion(m, end, x, count);
    ThirdQuestion(m, end, x, count - 1);
  }

  lemma ThirdQuestion(m: seq<Byte>, end: nat, x: Answer, count: nat)
    requires end <= |m| && m[end..] == RecordBytes(x) && ServedAnswer(x) && count > 0
    ensures end + 18 <= |m| && NameAt(m, end + 18, end + 18) == None
    ensures ReadQuestions(m, end + 13, count) == if count == 1 then Some(end + 18) else None
  {
    AnswerLayout(x);
    AnswerAt(m, end, x, 13);
    AnswerAt(m, end, x, 18);
    assert Span(m, end + 13) == 1;
    assert NameAt(m, |m|, end + 18) == None;
  }

  // ---- the stub's replies ----

  /** Any message of an echoed question and an answer of the stub's, or none. */
  lemma EchoIsReply(q: seq<Byte>, n: Name, head: seq<Byte>, xs: seq<Answer>)
    requires |head| == HEADER_SIZE + |Wire(n)| + 4 <= |q| && PlainName(q, HEADER_SIZE) == Some(n)
    requires head[..2] == q[..2] && head[8..] == q[8..|head|]
    requires BigEndian(head[6], head[7]) == |xs| <= 1 && forall x | x in xs :: ServedAnswer(x) && |x.rdata| <= 16
    ensures IsReply(head + AnswerBytes(xs), n, xs)
  {
    EchoAndAnswersParse(head, q, n, xs);
    assert (head + AnswerBytes(xs))[|head|..] == AnswerBytes(xs);
  }

  lemma AnswersServed(q: seq<Byte>, qlen: nat, zone: bool)
    requires HEADER_SIZE + 4 < qlen <= |q|
    ensures forall x | x in Answers(q, qlen, zone) :: ServedAnswer(x)
  {
  }

  lemma HeadedIsReply(q: seq<Byte>, n: Name, zone: bool, xs: seq<Answer>)
    requires HEADER_SIZE + |Wire(n)| + 4 <= |q| && PlainName(q, HEADER_SIZE) == Some(n)
    requires |xs| <= 1 && forall x | x in xs :: ServedAnswer(x) && |x.rdata| <= 16
    ensures var m := ReplyHead(q, HEADER_SIZE + |Wire(n)| + 4, zone, |xs|) + AnswerBytes(xs);
            IsReply(m, n, xs) && m[4..6] == q[4..6] && m[8..12] == q[8..12]
  {
    var end := HEADER_SIZE + |Wire(n)| + 4;
    var head := ReplyHead(q, end, zone, |xs|);
    assert BigEndian(head[6], head[7]) == |xs|;
    assert q[8..|head|] == head[8..] && q[..2] == head[..2];
    EchoIsReply(q, n, head, xs);
    CountsEchoed(q, end, zone, |xs|);
    HeadFirst(head, AnswerBytes(xs));
  }

  lemma ReplyIsReply(q: seq<Byte>, n: Name) returns (xs: seq<Answer>)
    requires Answerable(q) && PlainName(q, HEADER_SIZE) == Some(n)
    ensures IsReply(ReplyTo(q, n), n, xs)
    ensures var m := ReplyTo(q, n); m[4..6] == q[4..6] && m[8..12] == q[8..12]
  {
    var end := HEADER_SIZE + |Wire(n)| + 4;
    xs := Answers(q, end, IsZone(n));
    AnswersServed(q, end, IsZone(n));
    HeadedIsReply(q, n, IsZone(n), xs);
  }

  lemma HeadFirst(head: seq<Byte>, rest: seq<Byte>)
    requires |head| >= HEADER_SIZE
    ensures var m := head + rest; m[4..6] == head[4..6] && m[8..12] == head[8..12]
  {
  }

  lemma CountsEchoed(q: seq<Byte>, end: nat, zone: bool, ancount: nat)
    requires HEADER_SIZE <= end <= |q|
    ensures var head := ReplyHead(q, end, zone, ancount); head[4..6] == q[4..6] && head[8..12] == q[8..12]
  {
    var head := ReplyHead(q, end, zone, ancount);
    assert head[8..12] == head[8..][..4] && q[8..12] == q[8..end][..4];
  }

  lemma SameCount(m: seq<Byte>, q: seq<Byte>, at: nat, lo: nat, hi: nat)
    requires lo <= at && at + 2 <= hi <= |m| && hi <= |q| && m[lo..hi] == q[lo..hi]
    ensures Count(m, at) == Count(q, at)
  {
    assert m[lo..hi][at - lo] == m[at] && m[lo..hi][at + 1 - lo] == m[at + 1];
    assert q[lo..hi][at - lo] == q[at] && q[lo..hi][at + 1 - lo] == q[at + 1];
  }

  /**
   * For every datagram that is answered: the reply reads to its last byte, by
   * all that its header announces, exactly when the datagram itself announced
   * one question, no authority and no additional record. Only the answer
   * count is the stub's own; the others are echoed.
   */
  lemma ReplyWellFormed(q: seq<Byte>, n: Name)
    requires Answerable(q) && PlainName(q, HEADER_SIZE) == Some(n)
    ensures WellFormed(ReplyTo(q, n)) <==> Count(q, 4) == 1 && Count(q, 8) == 0 && Count(q, 10) == 0
  {
    var m := ReplyTo(q, n);
    var xs := ReplyIsReply(q, n);
    SameCount(m, q, 4, 4, 6);
    SameCount(m, q, 8, 8, 12);
    SameCount(m, q, 10, 8, 12);
    if Count(m, 4) == 0 {
      NoQuestion(m, n, xs);
    } else if Count(m, 4) == 1 {
      OneQuestion(m, n, xs);
    } else if Count(m, 4) == 2 {
      TwoQuestions(m, n, xs);
    } else {
      ManyQuestions(m, n, xs);
    }
  }

  /** Every query that can be built announces just that, so its reply is a well-formed message. */
  lemma QueryWellAnswered(t: CString, buflen: int, id: int, recurse: bool, qtype: int, qclass: int)
    requires EncodeFrom(t, 0, buflen - HEADER_SIZE).Success? && Parse(t).Some?
    requires 0 <= qtype < 0x1_0000
    ensures var q := Query(id, recurse, Wire(Parse(t).value), qtype, qclass);
            Answerable(q) && WellFormed(ReplyTo(q, Parse(t).value))
  {
    var n := Parse(t).value;
    CodecsAgree(t, buflen, id, recurse, qtype, qclass);
    QueryCounts(id, recurse, Wire(n), qtype, qclass);
    ReplyWellFormed(Query(id, recurse, Wire(n), qtype, qclass), n);
  }

  lemma QueryCounts(id: int, recurse: bool, name: seq<Byte>, qtype: int, qclass: int)
    ensures var q := Query(id, recurse, name, qtype, qclass);
            |q| >= HEADER_SIZE && Count(q, 4) == 1 && Count(q, 8) == 0 && Count(q, 10) == 0
  {
  }

  /** Which datagrams are answered: those with a whole question, uncompressed, of a name that prints in 255 bytes. */
  lemma AnsweredExactly(q: seq<Byte>, n: Name)
    requires HEADER_SIZE + |Wire(n)| <= |q| && q[HEADER_SIZE..HEADER_SIZE + |Wire(n)|] == Wire(n)
    ensures Answerable(q) <==> |Joined(n)| <= 255 && HEADER_SIZE + |Wire(n)| + 4 <= |q|
  {
    WireReads(q, HEADER_SIZE, n, 0);
  }

  lemma NotAnswered(q: seq<Byte>)
    requires forall n: Name | HEADER_SIZE + |Wire(n)| <= |q| :: q[HEADER_SIZE..HEADER_SIZE + |Wire(n)|] != Wire(n)
    ensures !Answerable(q)
  {
    if Answerable(q) {
      PlainIsWire(q, HEADER_SIZE);
    }
  }
}
