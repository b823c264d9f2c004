/** The resolver shim: encoding names, building queries, expanding names. */
module Resolver {
  import opened Outcomes
  import opened DnsNames

  datatype Errno = EINVAL | ENOSPC | EMSGSIZE

  // ---- encoding ----

  /** The root label at position `w`, if both limits leave room for it. */
  function CloseName(w: nat, outlen: int): Result<seq<Byte>, Errno> {
    if w + 1 > outlen then Failure(ENOSPC)
    else if w + 1 > MAX_NAME then Failure(EINVAL)
    else Success([0])
  }

  function After(bytes: seq<Byte>, r: Result<seq<Byte>, Errno>): Result<seq<Byte>, Errno> {
    match r
    case Success(rest) => Success(bytes + rest)
    case Failure(e) => Failure(e)
  }

  lemma AfterNothing(r: Result<seq<Byte>, Errno>)
    ensures After([], r) == r
  {
    assert r.Success? ==> [] + r.value == r.value;
  }

  lemma AfterTwice(a: seq<Byte>, b: seq<Byte>, r: Result<seq<Byte>, Errno>)
    ensures After(a + b, r) == After(a, After(b, r))
  {
    assert r.Success? ==> a + b + r.value == a + (b + r.value);
  }

  /** What encoding the text `t` adds after `w` bytes, or the errno it ends with. */
  function EncodeFrom(t: seq<Byte>, w: nat, outlen: int): Result<seq<Byte>, Errno>
    decreases |t|
  {
    if t == [] then CloseName(w, outlen)
    else
      var d := Find(t, DOT);
      if d == 0 then (if |t| == 1 then CloseName(w, outlen) else Failure(EINVAL))
      else if d > MAX_LABEL then Failure(EINVAL)
      else if w + 1 + d >= outlen then Failure(ENOSPC)
      else if d == |t| then After([d] + t, CloseName(w + 1 + d, outlen))
      else After([d] + t[..d], EncodeFrom(t[d + 1..], w + 1 + d, outlen))
  }

  /** What encoding a parsed name gives, by the size of its wire form alone. */
  function Encoded(n: Name, w: nat, outlen: int): Result<seq<Byte>, Errno> {
    if w + |Wire(n)| > outlen then Failure(ENOSPC)
    else if w + |Wire(n)| > MAX_NAME then Failure(EINVAL)
    else Success(Wire(n))
  }

  lemma EncodedCons(l: Label, n: Name, w: nat, outlen: int)
    ensures Encoded([l] + n, w, outlen) ==
            if w + 1 + |l| >= outlen then Failure(ENOSPC)
            else After([|l|] + l, Encoded(n, w + 1 + |l|, outlen))
  {
    WireCons(l, n);
  }

  lemma RootEncoded(w: nat, outlen: int)
    ensures Encoded([], w, outlen) == CloseName(w, outlen)
  {
    assert Wire([]) == [0];
  }

  /** Parsable text is encoded exactly when it fits, as its wire form. */
  lemma {:induction false} EncodeParsed(t: seq<Byte>, w: nat, outlen: int)
    requires Parse(t).Some?
    ensures EncodeFrom(t, w, outlen) == Encoded(Parse(t).value, w, outlen)
    decreases |t|
  {
    var d := Find(t, DOT);
    RootEncoded(w, outlen);
    if d == |t| > 0 {
      EncodedCons(t, [], w, outlen);
      assert [t] + [] == [t];
    } else if 0 < d {
      EncodeParsed(t[d + 1..], w + 1 + d, outlen);
      EncodedCons(t[..d], Parse(t[d + 1..]).value, w, outlen);
    }
  }

  /** Other text is refused, as malformed if the buffer is ample. */
  lemma {:induction false} EncodeUnparsed(t: seq<Byte>, w: nat, outlen: int)
    requires Parse(t).None?
    ensures EncodeFrom(t, w, outlen).Failure?
    ensures w + |t| + 2 <= outlen ==> EncodeFrom(t, w, outlen) == Failure(EINVAL)
    decreases |t|
  {
    var d := Find(t, DOT);
    if 0 < d <= MAX_LABEL && d < |t| {
      EncodeUnparsed(t[d + 1..], w + 1 + d, outlen);
    }
  }

  /**
   * Exactly which texts are accepted: those spelling a name of legal labels
   * whose wire form fits the buffer and the 255-byte limit.
   */
  lemma EncodeAccepts(t: CString, outlen: int)
    ensures EncodeFrom(t, 0, outlen).Success? <==>
            exists n: Name :: LegalName(n) && Spells(t, n) && |Wire(n)| <= outlen && |Wire(n)| <= MAX_NAME
    ensures forall n: Name :: LegalName(n) && Spells(t, n) && EncodeFrom(t, 0, outlen).Success? ==>
              EncodeFrom(t, 0, outlen).value == Wire(n)
  {
    if Parse(t).Some? {
      ParseSound(t);
      EncodeParsed(t, 0, outlen);
    } else {
      EncodeUnparsed(t, 0, outlen);
    }
    forall n: Name | LegalName(n) && Spells(t, n)
      ensures Parse(t) == Some(n)
    {
      ParseComplete(t, n);
    }
  }

  /** Nothing outside [lo, hi) has changed. */
  twostate predicate OnlyWithin(out: array<Byte>, lo: int, hi: int)
    reads out
  {
    forall i :: 0 <= i < out.Length && !(lo <= i < hi) ==> out[i] == old(out[i])
  }

  /** memcpy of src[from..from + len] to dst[at..at + len]. */
  method CopyBytes(src: seq<Byte>, from: nat, dst: array<Byte>, at: nat, len: nat)
    requires from + len <= |src| && at + len <= dst.Length
    modifies dst
    ensures OnlyWithin(dst, at, at + len)
    ensures dst[at..at + len] == src[from..from + len]
    ensures dst[..at + len] == old(dst[..at]) + src[from..from + len]
  {
    forall i | 0 <= i < len {
      dst[at + i] := src[from + i];
    }
  }

  lemma EncodeFits(t: seq<Byte>, outlen: int)
    requires EncodeFrom(t, 0, outlen).Success?
    ensures Parse(t).Some? && EncodeFrom(t, 0, outlen).value == Wire(Parse(t).value)
    ensures |Wire(Parse(t).value)| <= outlen && |Wire(Parse(t).value)| <= MAX_NAME
  {
    if Parse(t).Some? {
      EncodeParsed(t, 0, outlen);
    } else {
      EncodeUnparsed(t, 0, outlen);
    }
  }

  /** One label behind its length byte, after the bytes from `base` to `at`. */
  method PutLabel(p: seq<Byte>, len: Byte, out: array<Byte>, base: nat, at: nat)
    requires len <= |p| && base <= at && at + 1 + len <= out.Length
    modifies out
    ensures OnlyWithin(out, at, at + 1 + len)
    ensures out[base..at + 1 + len] == old(out[base..at]) + ([len] + p[..len])
  {
    out[at] := len;
    CopyBytes(p, 0, out, at + 1, len);
    assert out[base..at + 1 + len] == out[base..at] + ([out[at]] + out[at + 1..at + 1 + len]);
  }

  /** The text after its first label and the dot behind it. */
  function Rest(p: seq<Byte>): seq<Byte> {
    var len := Find(p, DOT);
    if len == |p| then [] else p[len + 1..]
  }

  lemma EncodeStep(p: seq<Byte>, w: nat, outlen: int, before: seq<Byte>)
    requires 0 < Find(p, DOT) <= MAX_LABEL && w + 1 + Find(p, DOT) < outlen
    ensures var len := Find(p, DOT);
            After(before, EncodeFrom(p, w, outlen))
            == After(before + ([len] + p[..len]), EncodeFrom(Rest(p), w + 1 + len, outlen))
  {
    var len := Find(p, DOT);
    assert len == |p| ==> p[..len] == p;
    AfterTwice(before, [len] + p[..len], EncodeFrom(Rest(p), w + 1 + len, outlen));
  }

  /** One label, or the errno; an empty text after the closing dot stands for the end. */
  method EncodeLabel(p: seq<Byte>, out: array<Byte>, base: nat, w: nat, outlen: nat, ghost written: seq<Byte>)
    returns (next: nat, rest: seq<Byte>, error: Option<Errno>, ghost longer: seq<Byte>)
    requires base + outlen <= out.Length && w <= outlen && p != []
    requires out[base..base + w] == written
    modifies out
    ensures OnlyWithin(out, base, base + outlen)
    ensures error.None? ==> next <= outlen && out[base..base + next] == longer && |rest| < |p|
    ensures After(written, EncodeFrom(p, w, outlen)) ==
            if error.Some? then Failure(error.value) else After(longer, EncodeFrom(rest, next, outlen))
  {
    next, rest, error, longer := w, [], None, written;
    var len := Find(p, DOT);
    if len == 0 {
      return next, rest, if |p| == 1 then None else Some(EINVAL), longer;
    }
    if len > MAX_LABEL {
      return next, rest, Some(EINVAL), longer;
    }
    if w + 1 + len >= outlen {
      return next, rest, Some(ENOSPC), longer;
    }
    EncodeStep(p, w, outlen, written);
    PutLabel(p, len, out, base, base + w);
    longer := written + ([len] + p[..len]);
    next := w + 1 + len;
    rest := Rest(p);
  }

  /** The loop over the labels; what remains to do afterwards is the root label. */
  method EncodeLabels(dname: CString, out: array<Byte>, base: nat, outlen: nat)
    returns (w: nat, error: Option<Errno>)
    requires base + outlen <= out.Length
    modifies out
    ensures OnlyWithin(out, base, base + outlen)
    ensures error.None? ==> w <= outlen
    ensures EncodeFrom(dname, 0, outlen) ==
            if error.Some? then Failure(error.value) else After(out[base..base + w], CloseName(w, outlen))
  {
    w := 0;
    error := None;
    var p: seq<Byte> := dname;
    AfterNothing(EncodeFrom(dname, 0, outlen));
    ghost var written: seq<Byte> := [];
    while p != []
      invariant w <= outlen
      invariant OnlyWithin(out, base, base + outlen)
      invariant out[base..base + w] == written
      invariant EncodeFrom(dname, 0, outlen) == After(written, EncodeFrom(p, w, outlen))
      decreases |p|
    {
      w, p, error, written := EncodeLabel(p, out, base, w, outlen, written);
      if error.Some? {
        return;
      }
    }
    error := None;
  }

  /** The bytes of `dname` in wire form, written from `base` on, or the errno. */
  method EncodeQname(dname: CString, out: array<Byte>, base: nat, outlen: nat)
    returns (r: Result<nat, Errno>)
    requires base + outlen <= out.Length
    modifies out
    ensures match EncodeFrom(dname, 0, outlen)
            case Success(bytes) =>
              && r == Success(|bytes|)
              && |bytes| <= outlen
              && out[base..base + |bytes|] == bytes
            case Failure(e) => r == Failure(e)
    ensures OnlyWithin(out, base, base + outlen)
  {
    var w, error := EncodeLabels(dname, out, base, outlen);
    if error.Some? {
      return Failure(error.value);
    }
    if w + 1 > outlen {
      return Failure(ENOSPC);
    }
    ghost var written := out[base..base + w];
    out[base + w] := 0;
    assert out[base..base + w + 1] == written + [0];
    w := w + 1;
    if w > MAX_NAME {
      return Failure(EINVAL);
    }
    return Success(w);
  }

  // ---- building queries ----

  lemma U16Value(v: nat)
    requires v < 0x1_0000
    ensures BigEndian(U16(v)[0], U16(v)[1]) == v
  {
  }

  /** Big-endian 16 bits; C's `>> 8` of a negative int floors, as `/` does here. */
  function U16(v: int): seq<Byte> {
    [(v / 256) % 256, v % 256]
  }

  /** A query message: header with one question, the name, then type and class. */
  function Query(id: int, recurse: bool, name: seq<Byte>, qtype: int, qclass: int): seq<Byte> {
    U16(id) + [if recurse then 1 else 0, 0, 0, 1, 0, 0, 0, 0, 0, 0] + name + U16(qtype) + U16(qclass)
  }

  const OP_QUERY := 0     // ns_o_query
  const RES_RECURSE := 64 // 0x40

  predicate Recursive(options: nat) {
    (options / RES_RECURSE) % 2 == 1
  }

  /** The resolver state a query is built from. */
  class State {
    var id: int // unsigned short
    var options: nat

    ghost predicate Valid()
      reads this
    {
      0 <= id < 0x1_0000
    }

    /**
     * Builds a query. The id advances as soon as the arguments are acceptable,
     * even if the name then turns out not to be.
     */
    method ResNmkquery(op: int, dname: CString, qclass: int, qtype: int, hasData: bool, datalen: int,
                       buf: array<Byte>, buflen: int)
      returns (r: Result<nat, Errno>)
      requires Valid()
      requires buflen <= buf.Length
      modifies this`id, buf
      ensures Valid()
      ensures var refused := op != OP_QUERY || hasData || datalen != 0;
              id == if refused || buflen < HEADER_SIZE then old(id) else (old(id) + 1) % 0x1_0000
      ensures r == if op != OP_QUERY || hasData || datalen != 0 then Failure(EINVAL)
                   else QueryResult(dname, buflen)
      ensures r.Success? ==>
                && r.value <= buflen && Parse(dname).Some?
                && buf[..r.value] == Query(id, Recursive(options), Wire(Parse(dname).value), qtype, qclass)
      ensures OnlyWithin(buf, 0, buflen)
    {
      if op != OP_QUERY || hasData || datalen != 0 {
        return Failure(EINVAL);
      }
      if buflen < HEADER_SIZE {
        return Failure(ENOSPC);
      }
      id := (id + 1) % 0x1_0000;
      PutHeader(buf, id, Recursive(options));
      ghost var header := buf[..HEADER_SIZE];
      var name := EncodeQname(dname, buf, HEADER_SIZE, buflen - HEADER_SIZE);
      if name.Failure? {
        return Failure(name.error);
      }
      EncodeFits(dname, buflen - HEADER_SIZE);
      var w := HEADER_SIZE + name.value;
      if w + 4 > buflen {
        return Failure(ENOSPC);
      }
      assert buf[..w] == header + Wire(Parse(dname).value) by {
        assert buf[..w] == buf[..HEADER_SIZE] + buf[HEADER_SIZE..w];
      }
      PutTail(buf, w, qtype, qclass);
      return Success(w + 4);
    }
  }

  /** What building a query for `dname` returns, once the other arguments are acceptable. */
  function QueryResult(dname: CString, buflen: int): Result<nat, Errno> {
    if buflen < HEADER_SIZE then Failure(ENOSPC)
    else
      match EncodeFrom(dname, 0, buflen - HEADER_SIZE)
      case Failure(e) => Failure(e)
      case Success(name) =>
        if HEADER_SIZE + |name| + 4 > buflen then Failure(ENOSPC) else Success(HEADER_SIZE + |name| + 4)
  }

  method PutHeader(buf: array<Byte>, id: int, recurse: bool)
    requires buf.Length >= HEADER_SIZE && 0 <= id < 0x1_0000
    modifies buf
    ensures OnlyWithin(buf, 0, HEADER_SIZE)
    ensures buf[..HEADER_SIZE] == U16(id) + [if recurse then 1 else 0, 0, 0, 1, 0, 0, 0, 0, 0, 0]
  {
    forall i | 0 <= i < HEADER_SIZE {
      buf[i] := 0;
    }
    buf[0] := id / 256;
    buf[1] := id % 256;
    if recurse {
      buf[2] := 1;
    }
    buf[4] := 0;
    buf[5] := 1;
  }

  method PutTail(buf: array<Byte>, w: nat, qtype: int, qclass: int)
    requires w + 4 <= buf.Length
    modifies buf
    ensures OnlyWithin(buf, w, w + 4)
    ensures buf[..w + 4] == old(buf[..w]) + U16(qtype) + U16(qclass)
  {
    buf[w] := (qtype / 256) % 256;
    buf[w + 1] := qtype % 256;
    buf[w + 2] := (qclass / 256) % 256;
    buf[w + 3] := qclass % 256;
  }

  // ---- expanding names ----

  lemma PrependCons(a: Name, l: Label, n: Option<Name>)
    ensures Prepend(a, Cons(l, n)) == Prepend(a + [l], n)
  {
    assert n.Some? ==> a + ([l] + n.value) == (a + [l]) + n.value;
  }

  lemma PrependNothing(a: Name, n: Option<Name>)
    ensures Prepend([], n) == n
    ensures Prepend(a, Some([])) == Some(a)
  {
    assert n.Some? ==> [] + n.value == n.value;
    assert a + [] == a;
  }

  /** Whether `n` prints within both limits, its NUL included in `dstsiz`. */
  predicate Prints(n: Name, dstsiz: int) {
    |Dotted(n)| < dstsiz && |Dotted(n)| <= MAX_NAME
  }

  /** Once the labels read so far break a limit, every completion of them does. */
  lemma TooLong(read: Name, dstsiz: int, rest: Option<Name>)
    requires read != [] && !Prints(read, dstsiz)
    ensures match Prepend(read, rest) case Some(n) => !Prints(n, dstsiz) case None => true
  {
    if rest.Some? {
      JoinedGrows(read, rest.value);
    }
  }

  /** Adds one label, with a dot before it unless it is the first, if the limits allow. */
  method AppendLabel(text: Label, dst: array<Byte>, at: nat, dstsiz: nat, ghost read: Name)
    returns (w: nat, fits: bool)
    requires at < dstsiz <= dst.Length
    requires dst[..at] == Joined(read)
    modifies dst
    ensures OnlyWithin(dst, 0, dstsiz)
    ensures fits == Prints(read + [text], dstsiz)
    ensures fits ==> w < dstsiz && dst[..w] == Joined(read + [text])
  {
    ghost var before := dst[..at];
    w := at;
    JoinedAppend(read, text);
    JoinedNonEmpty(read);
    if w != 0 {
      if w + 1 >= dstsiz {
        return w, false;
      }
      dst[w] := DOT;
      w := w + 1;
      assert dst[..w] == before + [DOT];
    }
    if w + |text| >= dstsiz || w + |text| > MAX_NAME {
      return w, false;
    }
    CopyBytes(text, 0, dst, w, |text|);
    assert text[0..0 + |text|] == text;
    return w + |text|, true;
  }

  /** The closing NUL, after a "." if nothing was printed. */
  method FinishText(dst: array<Byte>, at: nat, dstsiz: nat, ghost read: Name) returns (fits: bool)
    requires at < dstsiz <= dst.Length
    requires dst[..at] == Joined(read)
    requires read != [] ==> Prints(read, dstsiz)
    modifies dst
    ensures OnlyWithin(dst, 0, dstsiz)
    ensures fits == Prints(read, dstsiz)
    ensures fits ==> dst[..|Dotted(read)| + 1] == Dotted(read) + [0]
  {
    JoinedNonEmpty(read);
    var w := at;
    if w == 0 {
      if dstsiz < 2 {
        return false;
      }
      dst[w] := DOT;
      w := w + 1;
    }
    assert dst[..w] == Dotted(read);
    dst[w] := 0;
    assert dst[..w + 1] == Dotted(read) + [0];
    return true;
  }

  /** Whether reading `n` in full gives a name that prints. */
  predicate Readable(n: Option<Name>, dstsiz: int) {
    n.Some? && Prints(n.value, dstsiz)
  }

  /** One ordinary label at `p`: it is appended, or the whole name is not readable. */
  method ExpandLabel(msg: seq<Byte>, p: nat, dst: array<Byte>, at: nat, dstsiz: nat,
                     ghost limit: nat, ghost read: Name)
    returns (w: nat, fits: bool, ghost longer: Name)
    requires p < |msg| && limit <= |msg| && 0 < msg[p] <= MAX_LABEL
    requires at < dstsiz <= dst.Length
    requires dst[..at] == Joined(read)
    modifies dst
    ensures OnlyWithin(dst, 0, dstsiz)
    ensures !fits ==> !Readable(Prepend(read, NameAt(msg, p, limit)), dstsiz)
    ensures fits ==>
              var next := p + 1 + msg[p];
              && next <= |msg| && w < dstsiz
              && dst[..w] == Joined(longer)
              && longer != [] && Prints(longer, dstsiz)
              && Prepend(longer, NameAt(msg, next, limit)) == Prepend(read, NameAt(msg, p, limit))
              && Span(msg, p) == next - p + Span(msg, next)
  {
    var n := msg[p];
    if p + 1 + n > |msg| {
      return at, false, [];
    }
    var l: Label := msg[p + 1..p + 1 + n];
    PrependCons(read, l, NameAt(msg, p + 1 + n, limit));
    longer := read + [l];
    w, fits := AppendLabel(l, dst, at, dstsiz, read);
    if !fits {
      TooLong(longer, dstsiz, NameAt(msg, p + 1 + n, limit));
    }
  }

  /**
   * Expands the name at `src` of the message `msg`, which ends at `eom`: every
   * read stays inside it, and nothing is written past `dstsiz`.
   */
  method DnExpand(msg: seq<Byte>, src: int, dst: array<Byte>, dstsiz: int)
    returns (r: Result<nat, Errno>)
    requires dstsiz <= dst.Length
    modifies dst
    ensures r.Success? <==>
            dstsiz > 0 && 0 <= src < |msg| && Readable(NameAt(msg, src, src), dstsiz)
    ensures r.Success? ==>
              var text := Dotted(NameAt(msg, src, src).value);
              r.value == Span(msg, src) && dst[..|text| + 1] == text + [0]
    ensures r.Failure? ==> r.error == EMSGSIZE
    ensures OnlyWithin(dst, 0, dstsiz)
  {
    var eom := |msg|;
    if dstsiz <= 0 || src < 0 || src >= eom {
      return Failure(EMSGSIZE);
    }
    var p: nat := src;
    var w: nat := 0;
    var consumed := -1;
    var limit: nat := src;
    ghost var read: Name := [];
    PrependNothing([], NameAt(msg, src, src));
    while true
      invariant p <= eom && limit <= eom
      invariant Prepend(read, NameAt(msg, p, limit)) == NameAt(msg, src, src)
      invariant if consumed < 0 then src <= p && Span(msg, src) == p - src + Span(msg, p) else consumed == Span(msg, src)
      invariant w < dstsiz && dst[..w] == Joined(read)
      invariant read != [] ==> Prints(read, dstsiz)
      invariant OnlyWithin(dst, 0, dstsiz)
      decreases limit, eom - p
    {
      if p >= eom {
        return Failure(EMSGSIZE);
      }
      var n := msg[p];
      if n >= COMPRESSION_TAG {
        if p + 1 >= eom {
          return Failure(EMSGSIZE);
        }
        var target := Target(n, msg[p + 1]);
        if consumed < 0 {
          consumed := p + 2 - src;
        }
        if target >= limit {
          return Failure(EMSGSIZE);
        }
        limit := target;
        p := target;
        continue;
      }
      if n > MAX_LABEL {
        return Failure(EMSGSIZE); // reserved label types
      }
      if n == 0 {
        PrependNothing(read, None);
        var ok := FinishText(dst, w, dstsiz, read);
        return if !ok then Failure(EMSGSIZE) else Success(if consumed < 0 then p + 1 - src else consumed);
      }
      var fits;
      w, fits, read := ExpandLabel(msg, p, dst, w, dstsiz, limit, read);
      if !fits {
        return Failure(EMSGSIZE);
      }
      p := p + 1 + n;
    }
  }

  /** The endings a text may have: none, a dot, and two dots behind a label; the root is the empty text or a dot. */
  lemma Endings(n: Name, outlen: int)
    requires LegalName(n) && n != [] && |Wire(n)| <= outlen && |Wire(n)| <= 255
    ensures EncodeFrom(Joined(n), 0, outlen) == Success(Wire(n))
    ensures EncodeFrom(Joined(n) + [46], 0, outlen) == Success(Wire(n))
    ensures EncodeFrom(Joined(n) + [46, 46], 0, outlen) == Success(Wire(n))
    ensures EncodeFrom([], 0, outlen) == Success([0]) == EncodeFrom([46], 0, outlen)
    ensures EncodeFrom([46, 46], 0, outlen) == Failure(EINVAL)
  {
    EncodeSpelled(Joined(n), n, outlen);
    EncodeSpelled(Joined(n) + [46], n, outlen);
    EncodeSpelled(Joined(n) + [46, 46], n, outlen);
    LabelsLength(n);
    assert outlen > 0;
    assert [46, 46][1..] == [46];
  }

  lemma EncodeSpelled(t: seq<Byte>, n: Name, outlen: int)
    requires LegalName(n) && Spells(t, n) && |Wire(n)| <= outlen && |Wire(n)| <= 255
    ensures EncodeFrom(t, 0, outlen) == Success(Wire(n))
  {
    ParseComplete(t, n);
    EncodeParsed(t, 0, outlen);
  }
}
