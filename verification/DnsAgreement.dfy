/**
 * What the resolver and the stub promise each other: names survive the round
 * trip, queries are understood, replies parse to the last byte.
 */
module DnsAgreement {
  import opened Outcomes
  import opened DnsNames
  import opened Resolver
  import opened DnsStub

  // ---- encode, then expand ----

  lemma WireInside(before: seq<Byte>, n: Name, after: seq<Byte>)
    ensures var msg := before + Wire(n) + after;
            NameAt(msg, |before|, |before|) == Some(n) && Span(msg, |before|) == |Wire(n)|
  {
    var msg := before + Wire(n) + after;
    assert msg[|before|..|before| + |Wire(n)|] == Wire(n);
    WireReads(msg, |before|, n, |before|);
  }

  /**
   * Wherever an encoded name stands in a message, expanding it gives the name
   * back in printed form and consumes exactly its bytes.
   */
  lemma EncodeThenExpand(t: seq<Byte>, n: Name, outlen: int, before: seq<Byte>, after: seq<Byte>, dstsiz: int)
    requires LegalName(n) && Spells(t, n) && EncodeFrom(t, 0, outlen).Success?
    ensures var wire := EncodeFrom(t, 0, outlen).value;
            var msg := before + wire + after;
            && NameAt(msg, |before|, |before|) == Some(n)
            && Span(msg, |before|) == |wire|
            && (Readable(NameAt(msg, |before|, |before|), dstsiz) <==> |Dotted(n)| < dstsiz)
  {
    ParseComplete(t, n);
    EncodeFits(t, outlen);
    assert |Dotted(n)| <= MAX_NAME by { LabelsLength(n); }
    WireInside(before, n, after);
  }

  /**
   * Expanding a compressed name: labels behind which a pointer aims at a name
   * written out before them. It succeeds exactly when the whole text fits, and
   * consumes the labels and the pointer only.
   */
  lemma CompressedExpands(msg: seq<Byte>, p: nat, a: Name, o: nat, n: Name, dstsiz: int)
    requires o < 0x4000 && o + |Wire(n)| <= |msg| && msg[o..o + |Wire(n)|] == Wire(n)
    requires p + |Labels(a)| + 2 <= |msg|
    requires msg[p..p + |Labels(a)| + 2] == Labels(a) + [192 + o / 256, o % 256]
    ensures Readable(NameAt(msg, p, p), dstsiz) <==> o < p && |Dotted(a + n)| < dstsiz && |Dotted(a + n)| <= 255
    ensures Readable(NameAt(msg, p, p), dstsiz) ==> NameAt(msg, p, p).value == a + n
    ensures Span(msg, p) == |Labels(a)| + 2
  {
    PointerReads(msg, p, a, o, n);
  }

  /** What names print as: labels and dots, no closing one; the root as a lone dot. */
  lemma PrintedLabels(a: Name, l: Label)
    ensures Dotted([]) == [46] && Dotted([l]) == l
    ensures a != [] ==> Dotted(a + [l]) == Dotted(a) + [46] + l
  {
    JoinedAppend(a, l);
  }

  // ---- expand, then encode ----

  /**
   * The C text of any expanded name encodes to that name's uncompressed wire
   * form exactly when its labels hold no dot and no NUL, the text has at most
   * 253 bytes and the buffer has room. The expander itself lets through texts
   * of 254 and 255 bytes.
   */
  lemma ExpandThenEncode(msg: seq<Byte>, src: nat, dstsiz: int, outlen: int)
    requires src < |msg| && Readable(NameAt(msg, src, src), dstsiz)
    ensures var n := NameAt(msg, src, src).value;
            EncodeFrom(CText(Dotted(n) + [0]), 0, outlen) == Success(Wire(n)) <==>
            LegalName(n) && |Dotted(n)| <= 253 && |Wire(n)| <= outlen
  {
    var n := NameAt(msg, src, src).value;
    var t := CText(Dotted(n) + [0]);
    if LegalName(n) {
      NoNulText(n);
      FindNul(Dotted(n));
      LegalEncodes(n, outlen);
    } else if EncodeFrom(t, 0, outlen) == Success(Wire(n)) {
      EncodeFits(t, outlen);
      ParseSound(t);
      WireNames(n, Parse(t).value);
    }
  }

  /** Legal names: what the encoder makes of the printed form, whether or not it came from a message. */
  lemma LegalEncodes(n: Name, outlen: int)
    requires LegalName(n)
    ensures EncodeFrom(Dotted(n), 0, outlen) ==
            if |Wire(n)| > outlen then Failure(ENOSPC)
            else if |Wire(n)| > MAX_NAME then Failure(EINVAL)
            else Success(Wire(n))
    ensures n != [] ==> |Wire(n)| == |Dotted(n)| + 2
  {
    assert Spells(Dotted(n), n) by { assert n == [] ==> Dotted(n) == Joined(n) + [DOT]; }
    ParseComplete(Dotted(n), n);
    EncodeParsed(Dotted(n), 0, outlen);
    LabelsLength(n);
  }

  /** No two names have the same wire form. */
  lemma WireNames(m: Name, n: Name)
    requires Wire(m) == Wire(n)
    ensures m == n
  {
    var w := Wire(m);
    assert w[0..0 + |w|] == w;
    WireReads(w, 0, m, 0);
    WireReads(w, 0, n, 0);
  }

  function Run(k: nat): (r: seq<Byte>)
    ensures |r| == k && forall i :: 0 <= i < k ==> r[i] == 97
  {
    seq(k, i => 97)
  }

  lemma JoinedLength(l: Label, n: Name)
    requires n != []
    ensures |Joined([l] + n)| == |l| + 1 + |Joined(n)|
  {
    assert ([l] + n)[1..] == n;
  }

  lemma LongName() returns (n: Name)
    ensures LegalName(n) && |Dotted(n)| == 254
  {
    var long: Label := Run(63);
    var last: Label := Run(62);
    JoinedLength(long, [last]);
    JoinedLength(long, [long] + [last]);
    JoinedLength(long, [long] + ([long] + [last]));
    n := [long] + ([long] + ([long] + [last]));
  }

  /** Labels of 63, 63, 63 and 62 letters print as 254 bytes: expanded, but never encoded again. */
  lemma ExpandedButNotEncodable(outlen: int)
    ensures exists msg: seq<Byte> ::
              && |msg| > 0 && Readable(NameAt(msg, 0, 0), 256)
              && LegalName(NameAt(msg, 0, 0).value)
              && EncodeFrom(Dotted(NameAt(msg, 0, 0).value), 0, outlen).Failure?
  {
    var n := LongName();
    var msg := Wire(n);
    assert msg[0..0 + |msg|] == msg;
    WireReads(msg, 0, n, 0);
    LegalEncodes(n, outlen);
  }

  // ---- the two codecs agree ----

  /**
   * For every name the query builder accepts, the stub's decoder at offset 12
   * reads that name, stops four bytes before the end and finds the type there.
   */
  lemma CodecsAgree(t: seq<Byte>, buflen: int, id: int, recurse: bool, qtype: int, qclass: int)
    requires EncodeFrom(t, 0, buflen - HEADER_SIZE).Success? && Parse(t).Some?
    requires 0 <= qtype < 0x1_0000
    ensures var n := Parse(t).value;
            var q := Query(id, recurse, Wire(n), qtype, qclass);
            && Held(PlainName(q, HEADER_SIZE)) && PlainName(q, HEADER_SIZE) == Some(n)
            && HEADER_SIZE + |Wire(n)| == |q| - 4
            && BigEndian(q[|q| - 4], q[|q| - 3]) == qtype
            && Answerable(q) && |q| <= DATAGRAM
  {
    var n := Parse(t).value;
    EncodeFits(t, buflen - HEADER_SIZE);
    LabelsLength(n);
    var q := Query(id, recurse, Wire(n), qtype, qclass);
    assert q[HEADER_SIZE..HEADER_SIZE + |Wire(n)|] == Wire(n);
    WireReads(q, HEADER_SIZE, n, 0);
  }

  /** Lower case: the capitals become small letters, no other byte changes. */
  lemma CaseFolded(s: seq<Byte>, t: seq<Byte>)
    ensures Lower(s) == Lower(t) <==>
            |s| == |t| && forall i :: 0 <= i < |s| ==> SameLetter(s[i], t[i])
    ensures forall i :: 0 <= i < |s| ==> !(65 <= Lower(s)[i] <= 90)
  {
    if Lower(s) == Lower(t) {
      forall i | 0 <= i < |s|
        ensures SameLetter(s[i], t[i])
      {
        assert LowerByte(s[i]) == Lower(s)[i] == Lower(t)[i] == LowerByte(t[i]);
      }
    } else if |s| == |t| {
      var i :| 0 <= i < |s| && Lower(s)[i] != Lower(t)[i];
      assert !SameLetter(s[i], t[i]);
    }
  }

  /** Equal, or a capital and its small letter. */
  predicate SameLetter(a: Byte, b: Byte) {
    a == b || (65 <= a <= 90 && b == a + 32) || (65 <= b <= 90 && a == b + 32)
  }

  function LowerName(n: Name): (r: Name)
    ensures |r| == |n|
  {
    seq(|n|, i requires 0 <= i < |n| => (assert |Lower(n[i])| == |n[i]|; Lower(n[i])))
  }

  lemma {:induction false} LowerJoined(n: Name)
    ensures Joined(LowerName(n)) == Lower(Joined(n))
  {
    if |n| > 1 {
      LowerJoined(n[1..]);
      assert LowerName(n)[1..] == LowerName(n[1..]);
      LowerAppend(n[0], [DOT]);
      LowerAppend(n[0] + [DOT], Joined(n[1..]));
      assert Lower([DOT]) == [DOT];
    }
  }

  const WK: Label := [119, 107]
  const TEST: Label := [116, 101, 115, 116]

  /** Up to its first NUL, or its end, the label reads as `text` in some letter case. */
  predicate LabelReads(l: Label, text: seq<Byte>) {
    CText(Lower(l) + [0]) == text
  }

  /**
   * Not wk.test, but printed as it: the dot inside the first label, which is
   * alone or cut short by a NUL, or a NUL behind "test" in the second.
   */
  predicate LooksLikeZone(n: Name) {
    || (n != [] && LabelReads(n[0], ZONE_TEXT) && (|n| == 1 || 0 in n[0]))
    || (|n| >= 2 && Lower(n[0]) == WK && 0 in n[1] && LabelReads(n[1], TEST))
  }

  lemma LowerNul(s: seq<Byte>)
    ensures 0 in Lower(s) <==> 0 in s
  {
    assert forall i :: 0 <= i < |s| ==> (Lower(s)[i] == 0 <==> s[i] == 0);
  }

  /** C text that goes on behind `a`: only if `a` holds no NUL. */
  lemma {:induction false} CTextSplit(a: seq<Byte>, b: seq<Byte>)
    ensures CText(a + (b + [0])) == if 0 in a then CText(a + [0]) else a + CText(b + [0])
    decreases |a|
  {
    if a == [] {
      assert a + (b + [0]) == b + [0];
    } else {
      var t := a[1..];
      CTextSplit(t, b);
      assert (a + (b + [0]))[1..] == t + (b + [0]);
      assert (a + [0])[1..] == t + [0];
      assert a == [a[0]] + t;
    }
  }

  /** The text of a name of two labels or more, read up to its first NUL. */
  lemma TextOfLabels(l: Label, m: Name)
    requires m != []
    ensures CText(Lower(Joined([l] + m)) + [0]) ==
            if 0 in l then CText(Lower(l) + [0]) else Lower(l) + [DOT] + CText(Lower(Joined(m)) + [0])
  {
    var low, rest := Lower(l), Lower(Joined(m));
    assert ([l] + m)[1..] == m;
    assert Lower(Joined([l] + m)) == low + ([DOT] + rest) by {
      LowerAppend(l, [DOT]);
      LowerAppend(l + [DOT], Joined(m));
      assert Lower([DOT]) == [DOT];
    }
    assert Lower(Joined([l] + m)) + [0] == low + ([DOT] + rest + [0]);
    LowerNul(l);
    CTextSplit(low, [DOT] + rest);
    CTextSplit([DOT], rest);
    assert [DOT] + rest + [0] == [DOT] + (rest + [0]);
  }

  lemma NoDotInTest(low: seq<Byte>, rest: seq<Byte>)
    ensures low + [DOT] + rest != TEST
  {
    assert DOT in low + [DOT] + rest;
    assert DOT !in TEST;
  }

  /** What follows "wk." reads "test". */
  lemma TailReadsTest(l: Label, m: Name)
    ensures CText(Lower(Joined([l] + m)) + [0]) == TEST <==> LabelReads(l, TEST) && (m == [] || 0 in l)
  {
    if m == [] {
      assert Joined([l] + m) == l;
    } else {
      TextOfLabels(l, m);
      NoDotInTest(Lower(l), CText(Lower(Joined(m)) + [0]));
    }
  }

  lemma ReadsWhole(l: Label, text: seq<Byte>)
    requires 0 !in l
    ensures LabelReads(l, text) <==> Lower(l) == text
  {
    LowerNul(l);
    FindNul(Lower(l));
  }

  lemma ZoneTextSplits(low: seq<Byte>, rest: seq<Byte>)
    requires low + [DOT] + rest == ZONE_TEXT
    ensures low == WK && rest == TEST
  {
    assert ZONE_TEXT[|low|] == DOT;
    assert |low| == 2;
    assert ZONE_TEXT[..2] == low && ZONE_TEXT[3..] == rest;
  }

  /** For every name whatsoever: the stub takes it for the zone exactly in these cases. */
  lemma ZoneExactly(n: Name)
    ensures IsZone(n) <==> LowerName(n) == ZONE_NAME || LooksLikeZone(n)
  {
    if |n| == 0 {
      assert Lower(Joined(n)) + [0] == [0];
    } else if |n| > 1 {
      var l, m := n[0], n[1..];
      assert n == [l] + m;
      TextOfLabels(l, m);
      ReadsZone(l, m);
    }
  }

  lemma ReadsZone(l: Label, m: Name)
    requires m != []
    ensures var n := [l] + m;
            LowerName(n) == ZONE_NAME || LooksLikeZone(n) <==>
            if 0 in l then LabelReads(l, ZONE_TEXT)
            else Lower(l) + [DOT] + CText(Lower(Joined(m)) + [0]) == ZONE_TEXT
  {
    var n := [l] + m;
    var rest := CText(Lower(Joined(m)) + [0]);
    assert n[0] == l && n[1] == m[0];
    assert m == [m[0]] + m[1..];
    TailReadsTest(m[0], m[1..]);
    LowerNul(l);
    if 0 in l {
      assert LowerName(n)[0] != ZONE_NAME[0] by { assert 0 in Lower(l) && 0 !in ZONE_NAME[0]; }
      assert Lower(l) != WK by { assert 0 !in WK; }
    } else {
      ReadsWhole(l, WK);
      if Lower(l) + [DOT] + rest == ZONE_TEXT {
        ZoneTextSplits(Lower(l), rest);
      }
      SecondLabel(n, rest);
    }
  }

  /** Without a NUL in the first label. */
  lemma SecondLabel(n: Name, rest: seq<Byte>)
    requires |n| >= 2 && 0 !in n[0]
    requires rest == TEST <==> LabelReads(n[1], TEST) && (|n| == 2 || 0 in n[1])
    ensures LowerName(n) == ZONE_NAME || LooksLikeZone(n) <==> Lower(n[0]) == WK && rest == TEST
  {
    LowerNul(n[1]);
    assert LowerName(n) == ZONE_NAME <==> |n| == 2 && Lower(n[0]) == WK && Lower(n[1]) == TEST by {
      assert |ZONE_NAME| == 2 && ZONE_NAME[0] == WK && ZONE_NAME[1] == TEST;
      if |n| == 2 && Lower(n[0]) == WK && Lower(n[1]) == TEST {
        assert LowerName(n) == [Lower(n[0]), Lower(n[1])];
      }
    }
    if 0 !in n[1] {
      ReadsWhole(n[1], TEST);
    } else {
      assert Lower(n[1]) != TEST by { assert 0 !in TEST; }
    }
  }

  /**
   * When the stub answers wrongly for the zone: every answerable datagram is
   * told that its name exists exactly if it is wk.test in some letter case or
   * only looks like it; and what only looks like it has an illegal label.
   */
  lemma FalseClaims(q: seq<Byte>, n: Name)
    requires Answerable(q) && PlainName(q, HEADER_SIZE) == Some(n)
    ensures ReplyTo(q, n)[3] == 0 && LowerName(n) != ZONE_NAME <==> LooksLikeZone(n)
    ensures LowerName(n) == ZONE_NAME ==> ReplyTo(q, n)[3] == 0
    ensures LooksLikeZone(n) ==> !LegalName(n)
  {
    ZoneExactly(n);
    var end := HEADER_SIZE + |Wire(n)| + 4;
    assert ReplyTo(q, n)[3] == ReplyHead(q, end, IsZone(n), |Answers(q, end, IsZone(n))|)[3];
    if LooksLikeZone(n) {
      NotTheZone(n);
    }
  }

  lemma LegalReadsNoDot(l: Label)
    requires LegalLabel(l)
    ensures !LabelReads(l, ZONE_TEXT)
  {
    ReadsWhole(l, ZONE_TEXT);
    assert DOT !in Lower(l);
    assert DOT in ZONE_TEXT by { assert ZONE_TEXT[2] == DOT; }
  }

  lemma ZoneHasNoNul(n: Name)
    requires LowerName(n) == ZONE_NAME
    ensures |n| == 2 && 0 !in n[0] && 0 !in n[1]
  {
    assert 0 !in ZONE_NAME[0] && 0 !in ZONE_NAME[1];
    LowerNul(n[0]);
    LowerNul(n[1]);
  }

  lemma NotTheZone(n: Name)
    requires LooksLikeZone(n)
    ensures LowerName(n) != ZONE_NAME && !LegalName(n)
  {
    assert forall i :: 0 <= i < |n| ==> n[i] in n;
    if LegalLabel(n[0]) {
      LegalReadsNoDot(n[0]);
    }
    if LowerName(n) == ZONE_NAME {
      ZoneHasNoNul(n);
    }
  }

  /** Over names with legal labels the zone is wk.test in any letter case. */
  lemma LegalZone(n: Name)
    requires LegalName(n)
    ensures IsZone(n) <==> LowerName(n) == ZONE_NAME
  {
    ZoneExactly(n);
    if LooksLikeZone(n) {
      NotTheZone(n);
    }
  }

  lemma {:induction false} NoNulText(n: Name)
    requires LegalName(n)
    ensures 0 !in Dotted(n)
  {
    if n != [] {
      LegalTail(n);
      NoNulText(n[1..]);
    }
  }

  lemma FindNul(text: seq<Byte>)
    requires 0 !in text
    ensures CText(text + [0]) == text
  {
    var i := Find(text + [0], 0);
    assert (text + [0])[|text|] == 0;
    assert (text + [0])[..|text|] == text;
  }

  /** One of each kind: a dot inside a label, a NUL behind it, a NUL in the second label. */
  lemma ZoneLookalikes()
    ensures IsZone([ZONE_TEXT]) && IsZone([ZONE_TEXT + [0, 120], [99]]) && IsZone([WK, TEST + [0, 33], [99]])
  {
    assert Lower(ZONE_TEXT) == ZONE_TEXT && Lower(WK) == WK && Lower(TEST) == TEST;
    assert [0] + [120] == [0, 120] && [0] + [33] == [0, 33];
    FindNul(ZONE_TEXT);
    ReadsCut(ZONE_TEXT, [120]);
    ReadsCut(TEST, [33]);
    ZoneExactly([ZONE_TEXT]);
    ZoneExactly([ZONE_TEXT + [0, 120], [99]]);
    ZoneExactly([WK, TEST + [0, 33], [99]]);
  }

  lemma ReadsCut(text: seq<Byte>, junk: seq<Byte>)
    requires Lower(text) == text && 0 !in text && |text| + 1 + |junk| <= MAX_LABEL
    ensures LabelReads(text + ([0] + junk), text)
  {
    LowerAppend(text, [0] + junk);
    LowerAppend([0], junk);
    assert Lower([0]) == [0];
    var after := [0] + Lower(junk);
    assert Lower(text + ([0] + junk)) + [0] == text + (after + [0]);
    CTextSplit(text, after);
    assert text + CText(after + [0]) == text;
  }

  // ---- replies parse ----

  datatype Record = Record(owner: Name, rtype: int, rclass: int, ttl: int, rdata: seq<Byte>)

  /** One resource record as a client reads it (RFC 1035, section 4.1.3), and where it ends. */
  function ReadRecord(msg: seq<Byte>, off: nat): Option<(Record, nat)>
    requires off <= |msg|
  {
    var owner := NameAt(msg, off, off);
    var p := off + Span(msg, off);
    if owner.None? || p + 10 > |msg| then None
    else
      var rdlen := BigEndian(msg[p + 8], msg[p + 9]);
      if p + 10 + rdlen > |msg| then None
      else
        Some((Record(owner.value, BigEndian(msg[p], msg[p + 1]), BigEndian(msg[p + 2], msg[p + 3]),
                     BigEndian(BigEndian(msg[p + 4], msg[p + 5]), BigEndian(msg[p + 6], msg[p + 7])),
                     msg[p + 10..p + 10 + rdlen]),
              p + 10 + rdlen))
  }

  /** The answer section: `count` records from `off`, and where it ends. */
  function ReadRecords(msg: seq<Byte>, off: nat, count: nat): Option<(seq<Record>, nat)>
    requires off <= |msg|
    decreases count
  {
    if count == 0 then Some(([], off))
    else
      match ReadRecord(msg, off)
      case None => None
      case Some((first, next)) =>
        match ReadRecords(msg, next, count - 1)
        case None => None
        case Some((others, end)) => Some(([first] + others, end))
  }

  function AsRecord(x: Answer): Record {
    Record(ZONE_NAME, x.rtype, 1, 60, x.rdata)
  }

  function AsRecords(xs: seq<Answer>): seq<Record> {
    if xs == [] then [] else [AsRecord(xs[0])] + AsRecords(xs[1..])
  }

  lemma ZoneWire()
    ensures Wire(ZONE_NAME) == ZONE && Dotted(ZONE_NAME) == ZONE_TEXT
  {
    assert ZONE_NAME[1..] == [ZONE_NAME[1]];
  }

  lemma FixedFields(before: seq<Byte>, fixed: seq<Byte>, rdata: seq<Byte>)
    requires |fixed| == 10
    ensures var msg := before + fixed + rdata;
            && (forall i :: 0 <= i < 10 ==> msg[|before| + i] == fixed[i])
            && msg[|before| + 10..|before| + 10 + |rdata|] == rdata
  {
  }

  /** Any record laid out owner, ten fixed bytes, RDATA of the announced size is read as such. */
  lemma RecordAt(head: seq<Byte>, owner: Name, fixed: seq<Byte>, rdata: seq<Byte>)
    requires |fixed| == 10 && BigEndian(fixed[8], fixed[9]) == |rdata|
    ensures var msg := head + Wire(owner) + fixed + rdata;
            ReadRecord(msg, |head|) ==
            Some((Record(owner, BigEndian(fixed[0], fixed[1]), BigEndian(fixed[2], fixed[3]),
                         BigEndian(BigEndian(fixed[4], fixed[5]), BigEndian(fixed[6], fixed[7])), rdata),
                  |msg|))
  {
    var msg := head + Wire(owner) + fixed + rdata;
    assert msg == head + Wire(owner) + (fixed + rdata);
    WireInside(head, owner, fixed + rdata);
    FixedFields(head + Wire(owner), fixed, rdata);
  }

  lemma RecordReads(head: seq<Byte>, x: Answer)
    requires |x.rdata| < 0x1_0000
    ensures var msg := head + RecordBytes(x);
            ReadRecord(msg, |head|) == Some((AsRecord(x), |msg|))
  {
    ZoneWire();
    U16Value(|x.rdata|);
    U16Value(x.rtype);
    var fixed := U16(x.rtype) + [0, 1, 0, 0, 0, 60] + U16(|x.rdata|);
    assert head + RecordBytes(x) == head + Wire(ZONE_NAME) + fixed + x.rdata;
    RecordAt(head, ZONE_NAME, fixed, x.rdata);
  }

  /** Records appended to anything are read back, to the last byte. */
  lemma AnswersRead(head: seq<Byte>, xs: seq<Answer>)
    requires |xs| <= 1 && forall x | x in xs :: |x.rdata| < 0x1_0000
    ensures var m := head + AnswerBytes(xs);
            ReadRecords(m, |head|, |xs|) == Some((AsRecords(xs), |m|))
  {
    var m := head + AnswerBytes(xs);
    if xs != [] {
      RecordReads(head, xs[0]);
      assert ReadRecords(m, |m|, 0) == Some(([], |m|));
      assert AsRecords(xs[1..]) == [];
    }
  }

  /** `m` reads as the answer `xs` to the question `n` of `q`, with nothing left over. */
  predicate ParsesExactly(m: seq<Byte>, q: seq<Byte>, n: Name, xs: seq<Answer>) {
    var end := HEADER_SIZE + |Wire(n)| + 4;
    && end <= |m| && end <= |q|
    // the id and the question are the query's
    && m[..2] == q[..2] && m[HEADER_SIZE..end] == q[HEADER_SIZE..end]
    && NameAt(m, HEADER_SIZE, HEADER_SIZE) == Some(n)
    && HEADER_SIZE + Span(m, HEADER_SIZE) + 4 == end
    // the announced number of records ends where the message does
    && BigEndian(m[6], m[7]) == |xs|
    && ReadRecords(m, end, |xs|) == Some((AsRecords(xs), |m|))
  }

  lemma QuestionEchoed(m: seq<Byte>, q: seq<Byte>, n: Name)
    requires var end := HEADER_SIZE + |Wire(n)| + 4;
             end <= |m| && end <= |q| && m[8..end] == q[8..end]
    requires PlainName(q, HEADER_SIZE) == Some(n)
    ensures var end := HEADER_SIZE + |Wire(n)| + 4;
            && m[HEADER_SIZE..end] == q[HEADER_SIZE..end]
            && NameAt(m, HEADER_SIZE, HEADER_SIZE) == Some(n)
            && Span(m, HEADER_SIZE) == |Wire(n)|
  {
    PlainIsWire(q, HEADER_SIZE);
    var w := |Wire(n)|;
    var end := HEADER_SIZE + w + 4;
    Slice(m, 8, end, 4, end - 8);
    Slice(q, 8, end, 4, end - 8);
    Slice(m, HEADER_SIZE, end, 0, w);
    Slice(q, HEADER_SIZE, end, 0, w);
    WireReads(m, HEADER_SIZE, n, HEADER_SIZE);
  }

  lemma EchoAndAnswersParse(head: seq<Byte>, q: seq<Byte>, n: Name, xs: seq<Answer>)
    requires |head| == HEADER_SIZE + |Wire(n)| + 4 <= |q|
    requires head[..2] == q[..2] && head[8..] == q[8..|head|]
    requires BigEndian(head[6], head[7]) == |xs| <= 1 && forall x | x in xs :: |x.rdata| < 0x1_0000
    requires PlainName(q, HEADER_SIZE) == Some(n)
    ensures ParsesExactly(head + AnswerBytes(xs), q, n, xs)
  {
    var m := head + AnswerBytes(xs);
    assert m[8..|head|] == head[8..];
    assert m[..2] == head[..2];
    QuestionEchoed(m, q, n);
    AnswersRead(head, xs);
  }

  lemma {:induction false} OwnedByZone(xs: seq<Answer>)
    ensures forall x | x in AsRecords(xs) :: Dotted(x.owner) == ZONE_TEXT
  {
    ZoneWire();
    if xs != [] {
      OwnedByZone(xs[1..]);
    }
  }

  lemma ReplyToParses(q: seq<Byte>, n: Name, zone: bool, xs: seq<Answer>)
    requires HEADER_SIZE + |Wire(n)| + 4 <= |q| && PlainName(q, HEADER_SIZE) == Some(n)
    requires |xs| <= 1 && forall x | x in xs :: |x.rdata| < 0x1_0000
    ensures ParsesExactly(ReplyHead(q, HEADER_SIZE + |Wire(n)| + 4, zone, |xs|) + AnswerBytes(xs), q, n, xs)
  {
    var head := ReplyHead(q, HEADER_SIZE + |Wire(n)| + 4, zone, |xs|);
    assert BigEndian(head[6], head[7]) == |xs|;
    assert q[8..|head|] == head[8..] && q[..2] == head[..2];
    EchoAndAnswersParse(head, q, n, xs);
  }

  /**
   * Every reply parses exactly: after the echoed question, the announced
   * number of records fills the datagram to its last byte, each owned by
   * wk.test, and they are the records served for the type asked.
   */
  lemma ReplyParses(q: seq<Byte>, n: Name)
    requires Answerable(q) && PlainName(q, HEADER_SIZE) == Some(n)
    ensures var xs := Answers(q, HEADER_SIZE + |Wire(n)| + 4, IsZone(n));
            && ParsesExactly(ReplyTo(q, n), q, n, xs)
            && forall x | x in AsRecords(xs) :: Dotted(x.owner) == ZONE_TEXT
  {
    var xs := Answers(q, HEADER_SIZE + |Wire(n)| + 4, IsZone(n));
    ReplyToParses(q, n, IsZone(n), xs);
    OwnedByZone(xs);
  }

  /**
   * End to end: whatever query the builder makes, the stub's reply carries its
   * id and parses exactly, holds the records served for the type asked if the
   * name is wk.test in any letter case, and says there is no such name if not.
   */
  lemma QueryAnswered(t: CString, buflen: int, id: int, recurse: bool, qtype: int, qclass: int)
    requires EncodeFrom(t, 0, buflen - HEADER_SIZE).Success? && Parse(t).Some?
    requires 0 <= qtype < 0x1_0000
    ensures var n := Parse(t).value;
            var q := Query(id, recurse, Wire(n), qtype, qclass);
            var zone := LowerName(n) == ZONE_NAME;
            && Answerable(q) && PlainName(q, HEADER_SIZE) == Some(n)
            && var m := ReplyTo(q, n);
               && m[..2] == U16(id) && m[3] == (if zone then 0 else 3)
               && ParsesExactly(m, q, n, if zone then Served(qtype) else [])
  {
    var n := Parse(t).value;
    var q := Query(id, recurse, Wire(n), qtype, qclass);
    CodecsAgree(t, buflen, id, recurse, qtype, qclass);
    ParseSound(t);
    LegalZone(n);
    ReplyParses(q, n);
    var end := HEADER_SIZE + |Wire(n)| + 4;
    assert q[..2] == U16(id);
    assert ReplyTo(q, n)[..2] == ReplyHead(q, end, IsZone(n), |Answers(q, end, IsZone(n))|)[..2];
  }

  /** The header of a reply: an authoritative response with the opcode and the other flags zero, RD echoed. */
  lemma ReplyFlags(q: seq<Byte>, n: Name)
    requires Answerable(q) && PlainName(q, HEADER_SIZE) == Some(n)
    ensures var m := ReplyTo(q, n);
            && m[..2] == q[..2]
            && m[2] / 128 == 1 && (m[2] / 4) % 2 == 1 && m[2] % 2 == q[2] % 2
            && (m[2] / 8) % 16 == 0 && (m[2] / 2) % 2 == 0
            && m[3] == if IsZone(n) then 0 else 3
  {
    var end := HEADER_SIZE + |Wire(n)| + 4;
    var head := ReplyHead(q, end, IsZone(n), |Answers(q, end, IsZone(n))|);
    assert ReplyTo(q, n)[..2] == head[..2];
    assert ReplyTo(q, n)[2] == head[2] == 132 + q[2] % 2;
  }

  /** The table: one record of the type asked for each of four types, and its data in that type's form. */
  lemma ServedRecords(qtype: int)
    ensures |Served(qtype)| == if qtype in {1, 2, 15, 16} then 1 else 0
    ensures forall x | x in Served(qtype) :: x.rtype == qtype
    ensures forall x | x in Served(1) :: x.rdata == [10, 0, 0, 42]
    ensures forall x | x in Served(16) :: |x.rdata| == 1 + x.rdata[0] && x.rdata[1..] == TXT
    ensures forall x | x in Served(15) :: BigEndian(x.rdata[0], x.rdata[1]) == 10 && x.rdata[2..] == MAIL
    ensures forall x | x in Served(2) :: x.rdata == NS
  {
    assert ([10] + TXT)[1..] == TXT;
    assert ([0, 10] + MAIL)[2..] == MAIL;
  }

  /** A query, field by field. */
  lemma QueryFields(id: int, recurse: bool, name: seq<Byte>, qtype: int, qclass: int)
    requires 0 <= id < 0x1_0000
    ensures var q := Query(id, recurse, name, qtype, qclass);
            && |q| == 12 + |name| + 4 && q[12..12 + |name|] == name
            && BigEndian(q[0], q[1]) == id
            && q[2] == (if recurse then 1 else 0) && q[3] == 0
            && BigEndian(q[4], q[5]) == 1 && q[6..12] == [0, 0, 0, 0, 0, 0]
            && BigEndian(q[|q| - 4], q[|q| - 3]) == qtype % 0x1_0000
            && BigEndian(q[|q| - 2], q[|q| - 1]) == qclass % 0x1_0000
  {
    U16Value(id);
    U16Mod(qtype);
    U16Mod(qclass);
  }

  lemma U16Mod(v: int)
    ensures BigEndian(U16(v)[0], U16(v)[1]) == v % 0x1_0000
  {
    assert v / 256 % 256 * 256 + v % 256 == v % 0x1_0000;
  }

  /** The names inside MX and NS data expand in place, to the last byte of the message. */
  lemma TargetsExpand(before: seq<Byte>)
    ensures var mx := before + [0, 10] + MAIL;
            var at := |before| + 2;
            && NameAt(mx, at, at) == Some([[109, 97, 105, 108]] + ZONE_NAME) && at + Span(mx, at) == |mx|
    ensures var ns := before + NS;
            NameAt(ns, |before|, |before|) == Some([[110, 115]] + ZONE_NAME) && |before| + Span(ns, |before|) == |ns|
  {
    ZoneWire();
    var mail: Name := [[109, 97, 105, 108]] + ZONE_NAME;
    var host: Name := [[110, 115]] + ZONE_NAME;
    assert mail[1..] == ZONE_NAME && host[1..] == ZONE_NAME;
    assert Wire(mail) == MAIL && Wire(host) == NS;
    var mx, ns := before + [0, 10] + MAIL, before + NS;
    assert mx[|before| + 2..|before| + 2 + |MAIL|] == MAIL;
    WireReads(mx, |before| + 2, mail, |before| + 2);
    assert ns[|before|..|before| + |NS|] == NS;
    WireReads(ns, |before|, host, |before|);
  }
}
