/**
 * The FUSE shim's handle table and the operations on it, over an arbitrary
 * daemon: whatever its callbacks answer is a parameter here.
 */
module FuseShim {
  import opened Outcomes
  import opened ZipFs
  import opened ZipTree
  import opened ZipIndex

  const MAX_HANDLES := 256

  /** What a handle stands for: the path, the kind, and the daemon's own file number. */
  datatype OpenFile = OpenFile(path: string, isDir: bool, fh: nat)

  datatype Slot = Slot(used: bool, file: OpenFile)

  datatype OpenArgs = OpenArgs(path: string, create: bool, truncate: bool, exclusive: bool)

  /** The daemon's answers to the callbacks do_open may make; None is a missing callback. */
  datatype Daemon = Daemon(
    stat: Option<Stat>,                       // getattr's result, None if it fails
    create: Option<Result<nat, Errno>>,
    truncate: Option<Result<(), Errno>>,
    open: Option<Result<nat, Errno>>)

  datatype OpenReply = OpenedAs(handle: int, isDir: bool, size: nat) | OpenFailed(error: Errno)

  datatype DataReply = Data(bytes: seq<Byte>, eof: bool) | ReadFailed(error: Errno)
  datatype WriteReply = Written(count: nat) | WriteFailed(error: Errno)

  /** A read, write or release as the daemon sees it. */
  datatype Call =
    | ReadCall(path: string, fh: nat, size: nat, off: nat)
    | WriteCall(path: string, fh: nat, data: seq<Byte>, off: nat)
    | ReleaseCall(path: string, fh: nat)

  /** The live handles and what they stand for. */
  type Table = map<int, OpenFile>

  /** A request, with what the daemon answers if it is called. */
  datatype Request =
    | OpenRequest(args: OpenArgs, d: Daemon)
    | ReadRequest(h: int, len: nat, off: nat, answer: Option<Result<seq<Byte>, Errno>>)
    | WriteRequest(h: int, data: seq<Byte>, off: nat, written: Option<Result<nat, Errno>>)
    | ReleaseRequest(h: int, listens: bool)

  /** The reply to a request, and the call made to the daemon on the way. */
  datatype Reply =
    | OpenDone(open: OpenReply)
    | ReadDone(read: DataReply, call: Option<Call>)
    | WriteDone(write: WriteReply, call: Option<Call>)
    | ReleaseDone(call: Option<Call>)

  /** wk:fs path to FUSE path. */
  function FusePath(path: string): string {
    ['/'] + path
  }

  /**
   * What do_open finds out before it asks for a handle: kind, daemon file
   * number and size, or the error. Plain opens read; truncation implies
   * writing, and only a plain open may skip a missing open callback.
   */
  function Resolved(args: OpenArgs, d: Daemon): Result<(bool, nat, nat), Errno> {
    match d.stat
    case None =>
      if !args.create then Failure(ENOENT)
      else
        (match d.create
         case None => Failure(EROFS)
         case Some(Failure(e)) => Failure(e)
         case Some(Success(fh)) => Success((false, fh, 0)))
    case Some(st) =>
      if args.exclusive then Failure(EEXIST)
      else if st.isDir then Success((true, 0, 0))
      else if args.truncate && d.truncate.None? then Failure(EROFS)
      else if args.truncate && d.truncate.value.Failure? then Failure(d.truncate.value.error)
      else
        var size := if args.truncate then 0 else st.size;
        match d.open
        case None => Success((false, 0, size))
        case Some(Failure(e)) => Failure(e)
        case Some(Success(fh)) => Success((false, fh, size))
  }

  /** The lowest handle from `k` on that is not live, or 0. */
  function LowestFree(t: Table, k: int): (h: int)
    requires 1 <= k <= MAX_HANDLES + 1
    ensures h == 0 || (k <= h <= MAX_HANDLES && h !in t)
    ensures forall i :: k <= i < (if h == 0 then MAX_HANDLES + 1 else h) ==> i in t
    decreases MAX_HANDLES - k
  {
    if k > MAX_HANDLES then 0 else if k !in t then k else LowestFree(t, k + 1)
  }

  // ---- each request on the table ----

  function OpenAnswer(t: Table, args: OpenArgs, d: Daemon): OpenReply {
    match Resolved(args, d)
    case Failure(e) => OpenFailed(e)
    case Success((isDir, fh, size)) =>
      var h := LowestFree(t, 1);
      if h == 0 then OpenFailed(ENOMEM) else OpenedAs(h, isDir, size)
  }

  /** What an open that is answered with a handle stands for. */
  function OpenedFile(args: OpenArgs, d: Daemon): OpenFile {
    match Resolved(args, d)
    case Failure(_) => OpenFile([], false, 0)
    case Success((isDir, fh, _)) => OpenFile(FusePath(args.path), isDir, fh)
  }

  function ReadAnswer(t: Table, h: int, len: nat, off: nat, answer: Option<Result<seq<Byte>, Errno>>):
    (DataReply, Option<Call>)
  {
    if h !in t then (ReadFailed(ENOENT), None)
    else if t[h].isDir then (ReadFailed(EISDIR), None)
    else
      match answer
      case None => (ReadFailed(ENOSYS), None)
      case Some(a) =>
        ((match a case Failure(e) => ReadFailed(e) case Success(bytes) => Data(bytes, |bytes| < len)),
         Some(ReadCall(t[h].path, t[h].fh, len, off)))
  }

  function WriteAnswer(t: Table, h: int, data: seq<Byte>, off: nat, answer: Option<Result<nat, Errno>>):
    (WriteReply, Option<Call>)
  {
    if h !in t then (WriteFailed(ENOENT), None)
    else if t[h].isDir then (WriteFailed(EISDIR), None)
    else
      match answer
      case None => (WriteFailed(EROFS), None)
      case Some(a) =>
        ((match a case Failure(e) => WriteFailed(e) case Success(n) => Written(n)),
         Some(WriteCall(t[h].path, t[h].fh, data, off)))
  }

  function ReleaseTold(t: Table, h: int, listens: bool): Option<Call> {
    if h in t && !t[h].isDir && listens then Some(ReleaseCall(t[h].path, t[h].fh)) else None
  }

  function Answer(t: Table, q: Request): Reply {
    match q
    case OpenRequest(args, d) => OpenDone(OpenAnswer(t, args, d))
    case ReadRequest(h, len, off, answer) => var (r, c) := ReadAnswer(t, h, len, off, answer); ReadDone(r, c)
    case WriteRequest(h, data, off, answer) => var (r, c) := WriteAnswer(t, h, data, off, answer); WriteDone(r, c)
    case ReleaseRequest(h, listens) => ReleaseDone(ReleaseTold(t, h, listens))
  }

  function After(t: Table, q: Request): Table {
    match q
    case OpenRequest(args, d) =>
      (match OpenAnswer(t, args, d)
       case OpenedAs(h, _, _) => t[h := OpenedFile(args, d)]
       case OpenFailed(_) => t)
    case ReleaseRequest(h, _) => t - {h}
    case _ => t
  }

  class Shim {
    var handles: array<Slot>

    ghost predicate Valid()
      reads this
    {
      handles.Length == MAX_HANDLES
    }

    predicate Live(h: int)
      reads this, handles
    {
      1 <= h <= handles.Length && handles[h - 1].used
    }

    /** The table as a finite map from handle to what it stands for. */
    ghost function View(): (m: map<int, OpenFile>)
      requires Valid()
      reads this, handles
      ensures forall h :: h in m <==> Live(h)
    {
      map h | 1 <= h <= MAX_HANDLES && Live(h) :: handles[h - 1].file
    }

    constructor ()
      ensures Valid() && fresh(handles) && View() == map[]
    {
      handles := new Slot[MAX_HANDLES](i => Slot(false, OpenFile([], false, 0)));
    }

    method HandleAlloc(file: OpenFile) returns (h: int)
      requires Valid()
      modifies handles
      ensures h == LowestFree(old(View()), 1)
      ensures View() == if h == 0 then old(View()) else old(View())[h := file]
    {
      ghost var t := View();
      for i := 0 to MAX_HANDLES
        invariant LowestFree(t, 1) == LowestFree(t, i + 1)
        invariant handles[..] == old(handles[..])
      {
        if !handles[i].used {
          assert !old(Live(i + 1));
          handles[i] := Slot(true, file);
          return i + 1;
        }
        assert old(Live(i + 1));
      }
      return 0;
    }

    method HandleGet(h: int) returns (r: Option<OpenFile>)
      requires Valid()
      ensures r == if h in View() then Some(View()[h]) else None
    {
      if h <= 0 || h > MAX_HANDLES || !handles[h - 1].used {
        return None;
      }
      return Some(handles[h - 1].file);
    }

    method HandleFree(h: int)
      requires Valid()
      modifies handles
      ensures View() == old(View()) - {h}
    {
      var e := HandleGet(h);
      if e.Some? {
        handles[h - 1] := Slot(false, OpenFile([], false, 0));
      }
    }

    /** open: one entry is added if it replies opened, recording the path and kind. */
    method DoOpen(args: OpenArgs, d: Daemon) returns (r: OpenReply)
      requires Valid()
      modifies handles
      ensures r == OpenAnswer(old(View()), args, d)
      ensures View() == After(old(View()), OpenRequest(args, d))
    {
      var p := FusePath(args.path);
      var isDir, fh, size := false, 0, 0;
      var exists_ := d.stat.Some?;
      if exists_ && args.exclusive {
        return OpenFailed(EEXIST);
      }
      if !exists_ {
        if !args.create {
          return OpenFailed(ENOENT);
        }
        if d.create.None? {
          return OpenFailed(EROFS);
        }
        if d.create.value.Failure? {
          return OpenFailed(d.create.value.error);
        }
        fh := d.create.value.value;
      } else if d.stat.value.isDir {
        isDir := true;
      } else {
        size := d.stat.value.size;
        if args.truncate {
          if d.truncate.None? {
            return OpenFailed(EROFS);
          }
          if d.truncate.value.Failure? {
            return OpenFailed(d.truncate.value.error);
          }
          size := 0;
        }
        if d.open.Some? {
          if d.open.value.Failure? {
            return OpenFailed(d.open.value.error);
          }
          fh := d.open.value.value;
        }
      }
      var h := HandleAlloc(OpenFile(p, isDir, fh));
      if h == 0 {
        return OpenFailed(ENOMEM);
      }
      return OpenedAs(h, isDir, size);
    }

    /** read: `answer` is what the daemon returns to the call made. */
    method DoRead(h: int, len: nat, off: nat, answer: Option<Result<seq<Byte>, Errno>>)
      returns (r: DataReply, call: Option<Call>)
      requires Valid()
      ensures (r, call) == ReadAnswer(View(), h, len, off, answer)
    {
      call := None;
      var e := HandleGet(h);
      if e.None? || e.value.isDir {
        return ReadFailed(if e.Some? then EISDIR else ENOENT), call;
      }
      if answer.None? {
        return ReadFailed(ENOSYS), call;
      }
      call := Some(ReadCall(e.value.path, e.value.fh, len, off));
      match answer.value
      case Failure(err) => return ReadFailed(err), call;
      case Success(bytes) => return Data(bytes, |bytes| < len), call;
    }

    method DoWrite(h: int, data: seq<Byte>, off: nat, answer: Option<Result<nat, Errno>>)
      returns (r: WriteReply, call: Option<Call>)
      requires Valid()
      ensures (r, call) == WriteAnswer(View(), h, data, off, answer)
    {
      call := None;
      var e := HandleGet(h);
      if e.None? || e.value.isDir {
        return WriteFailed(if e.Some? then EISDIR else ENOENT), call;
      }
      if answer.None? {
        return WriteFailed(EROFS), call;
      }
      call := Some(WriteCall(e.value.path, e.value.fh, data, off));
      match answer.value
      case Failure(err) => return WriteFailed(err), call;
      case Success(n) => return Written(n), call;
    }

    /**
     * release always replies done; a handle that is not live is ignored. A
     * daemon with a release callback is told of files, not of directories.
     */
    method DoRelease(h: int, listens: bool) returns (call: Option<Call>)
      requires Valid()
      modifies handles
      ensures call == ReleaseTold(old(View()), h, listens)
      ensures View() == old(View()) - {h}
    {
      call := None;
      var e := HandleGet(h);
      if e.Some? && !e.value.isDir && listens {
        call := Some(ReleaseCall(e.value.path, e.value.fh));
      }
      HandleFree(h);
    }

    /** One request of any kind. */
    method Handle(q: Request) returns (reply: Reply)
      requires Valid()
      modifies handles
      ensures reply == Answer(old(View()), q) && View() == After(old(View()), q)
    {
      match q
      case OpenRequest(args, d) =>
        var r := DoOpen(args, d);
        return OpenDone(r);
      case ReadRequest(h, len, off, answer) =>
        var r, call := DoRead(h, len, off, answer);
        return ReadDone(r, call);
      case WriteRequest(h, data, off, answer) =>
        var r, call := DoWrite(h, data, off, answer);
        return WriteDone(r, call);
      case ReleaseRequest(h, listens) =>
        var call := DoRelease(h, listens);
        return ReleaseDone(call);
    }

    /** Any run of requests: the table and every reply are those of the run on the map. */
    method Run(requests: seq<Request>) returns (replies: seq<Reply>)
      requires Valid()
      modifies handles
      ensures View() == Replayed(old(View()), requests)
      ensures replies == Replies(old(View()), requests)
    {
      ghost var t := View();
      replies := [];
      for i := 0 to |requests|
        invariant View() == Replayed(t, requests[..i])
        invariant replies == Replies(t, requests[..i])
      {
        assert requests[..i + 1][..i] == requests[..i];
        var reply := Handle(requests[i]);
        replies := replies + [reply];
      }
      assert requests[..|requests|] == requests;
    }
  }

  // ---- runs ----

  function Replayed(t: Table, qs: seq<Request>): Table {
    if qs == [] then t else After(Replayed(t, qs[..|qs| - 1]), qs[|qs| - 1])
  }

  function Replies(t: Table, qs: seq<Request>): (rs: seq<Reply>)
    ensures |rs| == |qs|
  {
    if qs == [] then []
    else
      var before := qs[..|qs| - 1];
      Replies(t, before) + [Answer(Replayed(t, before), qs[|qs| - 1])]
  }

  /** The reply hands out `h`. */
  predicate Opens(r: Reply, h: int) {
    r.OpenDone? && r.open.OpenedAs? && r.open.handle == h
  }

  predicate Releases(q: Request, h: int) {
    q.ReleaseRequest? && q.h == h
  }

  /** Which request opened `h` without a release of `h` behind it, if any. */
  function LastOpen(qs: seq<Request>, rs: seq<Reply>, h: int): (i: Option<nat>)
    requires |rs| == |qs|
    ensures i.Some? ==> i.value < |qs| && Opens(rs[i.value], h)
    ensures i.Some? ==> forall j :: i.value < j < |qs| ==> !Releases(qs[j], h) && !Opens(rs[j], h)
    ensures i.None? ==> forall k :: 0 <= k < |qs| && Opens(rs[k], h) ==> exists j :: k < j < |qs| && Releases(qs[j], h)
  {
    var n := |qs| - 1;
    if qs == [] then None
    else if Opens(rs[n], h) then Some(n)
    else if Releases(qs[n], h) then None
    else LastOpen(qs[..n], rs[..n], h)
  }

  /** The replies to the first `i` requests do not depend on the others. */
  lemma {:induction false} RepliesPrefix(t: Table, qs: seq<Request>, i: nat)
    requires i < |qs|
    ensures Replies(t, qs)[..i] == Replies(t, qs[..i])
    ensures Replies(t, qs)[i] == Answer(Replayed(t, qs[..i]), qs[i])
  {
    var before := qs[..|qs| - 1];
    if i < |before| {
      RepliesPrefix(t, before, i);
      assert before[..i] == qs[..i];
      assert Replies(t, qs)[..i] == Replies(t, before)[..i];
    } else {
      assert before == qs[..i];
    }
  }

  /** `h` stands for what the request `q`, which opened it, asked for. */
  predicate StandsFor(f: OpenFile, q: Request, r: Reply) {
    q.OpenRequest? && f == OpenedFile(q.args, q.d) && f.path == FusePath(q.args.path)
    && r.OpenDone? && r.open.OpenedAs? && f.isDir == r.open.isDir
  }

  /**
   * From an empty table: the live handles are exactly those opened and not
   * released since, and each stands for what its last open asked for.
   */
  lemma {:induction false} LiveIsLastOpen(qs: seq<Request>, h: int)
    ensures var t, i := Replayed(map[], qs), LastOpen(qs, Replies(map[], qs), h);
            && (h in t <==> i.Some?)
            && (i.Some? ==> StandsFor(t[h], qs[i.value], Replies(map[], qs)[i.value]))
  {
    if qs != [] {
      var n := |qs| - 1;
      LiveIsLastOpen(qs[..n], h);
      RepliesPrefix(map[], qs, n);
    }
  }

  /** Before a request, the handles free are those with no open left standing. */
  lemma FreeBefore(qs: seq<Request>, k: nat, h: int)
    requires k < |qs|
    ensures Replies(map[], qs)[k] == Answer(Replayed(map[], qs[..k]), qs[k])
    ensures h !in Replayed(map[], qs[..k]) <==> LastOpen(qs[..k], Replies(map[], qs)[..k], h).None?
    ensures Opens(Replies(map[], qs)[k], h) ==> h !in Replayed(map[], qs[..k])
  {
    RepliesPrefix(map[], qs, k);
    LiveIsLastOpen(qs[..k], h);
  }

  lemma ReleasedSince(qs: seq<Request>, rs: seq<Reply>, h: int, i: nat) returns (j: nat)
    requires i < |qs| == |rs| && Opens(rs[i], h) && LastOpen(qs, rs, h).None?
    ensures i < j < |qs| && Releases(qs[j], h)
  {
    j :| i < j < |qs| && Releases(qs[j], h);
  }

  /** A handle is not handed out again before it is released. */
  lemma IssuedOnce(qs: seq<Request>, h: int, i: nat, k: nat)
    requires i < k < |qs| && Opens(Replies(map[], qs)[i], h) && Opens(Replies(map[], qs)[k], h)
    ensures exists j :: i < j < k && Releases(qs[j], h)
  {
    FreeBefore(qs, k, h);
    var j := ReleasedSince(qs[..k], Replies(map[], qs)[..k], h, i);
    assert Releases(qs[j], h);
  }

  function CallOf(r: Reply): Option<Call> {
    match r
    case OpenDone(_) => None
    case ReadDone(_, c) => c
    case WriteDone(_, c) => c
    case ReleaseDone(c) => c
  }

  /**
   * Every read, write or release the daemon sees carries the path and number
   * recorded by the open of its handle, with no release in between.
   */
  lemma CallsCarryThePath(qs: seq<Request>, k: nat) returns (i: nat)
    requires k < |qs| && CallOf(Replies(map[], qs)[k]).Some?
    ensures i < k && !qs[k].OpenRequest? && Opens(Replies(map[], qs)[i], qs[k].h)
    ensures forall j :: i < j < k ==> !Releases(qs[j], qs[k].h)
    ensures qs[i].OpenRequest?
    ensures var f, c := OpenedFile(qs[i].args, qs[i].d), CallOf(Replies(map[], qs)[k]).value;
            && c.path == f.path == FusePath(qs[i].args.path) && c.fh == f.fh && !f.isDir
            && match qs[k]
               case ReadRequest(_, len, off, _) => c == ReadCall(f.path, f.fh, len, off)
               case WriteRequest(_, data, off, _) => c == WriteCall(f.path, f.fh, data, off)
               case ReleaseRequest(_, _) => c == ReleaseCall(f.path, f.fh)
               case OpenRequest(_, _) => false
  {
    var rs := Replies(map[], qs);
    RepliesPrefix(map[], qs, k);
    LiveIsLastOpen(qs[..k], qs[k].h);
    i := LastOpen(qs[..k], rs[..k], qs[k].h).value;
    forall j | i < j < k
      ensures !Releases(qs[j], qs[k].h)
    {
      assert !Releases(qs[..k][j], qs[k].h);
    }
  }

  lemma NoneStanding(qs: seq<Request>, rs: seq<Reply>, h: int, i: nat)
    requires i < |qs| == |rs| && Releases(qs[i], h) && !Opens(rs[i], h)
    requires forall j :: i < j < |qs| ==> !Opens(rs[j], h)
    ensures LastOpen(qs, rs, h).None?
  {
  }

  /** And what the daemon answers to such a call is what is replied; a short read ends the file. */
  lemma AnswersAreTheDaemons(t: Table, q: Request)
    requires !q.OpenRequest? && CallOf(Answer(t, q)).Some?
    ensures match q
            case ReadRequest(_, len, _, answer) =>
              answer.Some? && Answer(t, q).read == (match answer.value
                                                     case Success(bytes) => Data(bytes, |bytes| < len)
                                                     case Failure(e) => ReadFailed(e))
            case WriteRequest(_, _, _, answer) =>
              answer.Some? && Answer(t, q).write == (match answer.value
                                                      case Success(n) => Written(n)
                                                      case Failure(e) => WriteFailed(e))
            case ReleaseRequest(_, listens) => listens
            case OpenRequest(_, _) => false
  {
  }

  /**
   * Which opens succeed: what is there is opened unless it should be new, and
   * a file not unless the daemon truncates it when asked and opens it; what is
   * not there only if it is to be created and the daemon does; and always only
   * with a handle left.
   */
  lemma OpensExactly(t: Table, args: OpenArgs, d: Daemon)
    ensures OpenAnswer(t, args, d).OpenedAs? <==>
            && (exists h :: 1 <= h <= MAX_HANDLES && h !in t)
            && if d.stat.None? then args.create && d.create.Some? && d.create.value.Success?
               else
                 && !args.exclusive
                 && (d.stat.value.isDir ||
                     ((args.truncate ==> d.truncate.Some? && d.truncate.value.Success?)
                      && (d.open.Some? ==> d.open.value.Success?)))
  {
    if LowestFree(t, 1) != 0 {
      assert 1 <= LowestFree(t, 1) <= MAX_HANDLES && LowestFree(t, 1) !in t;
    }
  }

  /** The error of an open that fails. */
  lemma OpenErrors(t: Table, args: OpenArgs, d: Daemon)
    requires OpenAnswer(t, args, d).OpenFailed?
    ensures var e := OpenAnswer(t, args, d).error;
            if d.stat.None? then
              if !args.create then e == ENOENT
              else if d.create.None? then e == EROFS
              else if d.create.value.Failure? then e == d.create.value.error
              else e == ENOMEM
            else if args.exclusive then e == EEXIST
            else if d.stat.value.isDir then e == ENOMEM
            else if args.truncate && d.truncate.None? then e == EROFS
            else if args.truncate && d.truncate.value.Failure? then e == d.truncate.value.error
            else if d.open.Some? && d.open.value.Failure? then e == d.open.value.error
            else e == ENOMEM
  {
  }

  /** Reads and writes that never reach the daemon: of directories, and where it has no such callback. */
  lemma CallsRefused(t: Table, q: Request)
    requires q.ReadRequest? || q.WriteRequest?
    ensures CallOf(Answer(t, q)).None? <==>
            q.h !in t || t[q.h].isDir || (q.ReadRequest? && q.answer.None?) || (q.WriteRequest? && q.written.None?)
    ensures q.h in t && t[q.h].isDir ==>
              Answer(t, q) == if q.ReadRequest? then ReadDone(ReadFailed(EISDIR), None) else WriteDone(WriteFailed(EISDIR), None)
    ensures q.h in t && !t[q.h].isDir && CallOf(Answer(t, q)).None? ==>
              Answer(t, q) == if q.ReadRequest? then ReadDone(ReadFailed(ENOSYS), None) else WriteDone(WriteFailed(EROFS), None)
  {
  }

  /** And what an open that succeeds says and records. */
  lemma OpenedIs(t: Table, args: OpenArgs, d: Daemon)
    requires OpenAnswer(t, args, d).OpenedAs?
    ensures var r, f := OpenAnswer(t, args, d), OpenedFile(args, d);
            && r.handle !in t && (forall h :: 1 <= h < r.handle ==> h in t)
            && f.path == ['/'] + args.path && f.isDir == r.isDir
            && r.isDir == (d.stat.Some? && d.stat.value.isDir)
            && r.size == (if d.stat.None? || r.isDir || args.truncate then 0 else d.stat.value.size)
            && f.fh == if r.isDir then 0
                       else if d.stat.None? then d.create.value.value
                       else if d.open.Some? then d.open.value.value
                       else 0
  {
  }

  /** A released handle fails, without a call, until it is handed out again. */
  lemma ReleasedFails(qs: seq<Request>, i: nat, k: nat)
    requires i < k < |qs| && (qs[k].ReadRequest? || qs[k].WriteRequest?) && Releases(qs[i], qs[k].h)
    requires forall j :: i < j < k ==> !Opens(Replies(map[], qs)[j], qs[k].h)
    ensures Replies(map[], qs)[k] ==
            if qs[k].ReadRequest? then ReadDone(ReadFailed(ENOENT), None) else WriteDone(WriteFailed(ENOENT), None)
  {
    FreeBefore(qs, k, qs[k].h);
    FreeBefore(qs, i, qs[k].h);
    NoneStanding(qs[..k], Replies(map[], qs)[..k], qs[k].h, i);
  }

  // ---- how many are live ----

  function Opened(rs: seq<Reply>): nat {
    if rs == [] then 0
    else Opened(rs[..|rs| - 1]) + if rs[|rs| - 1].OpenDone? && rs[|rs| - 1].open.OpenedAs? then 1 else 0
  }

  /** The releases of handles that were live. */
  function Released(t: Table, qs: seq<Request>): nat {
    if qs == [] then 0
    else
      var before, q := qs[..|qs| - 1], qs[|qs| - 1];
      Released(t, before) + if q.ReleaseRequest? && q.h in Replayed(t, before) then 1 else 0
  }

  /** The live handles are the successful opens less the releases of live handles. */
  lemma {:induction false} LiveCount(t: Table, qs: seq<Request>)
    ensures |Replayed(t, qs)| == |t| + Opened(Replies(t, qs)) - Released(t, qs)
  {
    if qs != [] {
      var before, q := qs[..|qs| - 1], qs[|qs| - 1];
      LiveCount(t, before);
      assert Replies(t, qs)[..|qs| - 1] == Replies(t, before);
      if q.ReleaseRequest? {
        RemoveSize(Replayed(t, before), q.h);
      }
    }
  }

  /** And there are never more than the table has room for. */
  lemma {:induction false} LiveBounded(qs: seq<Request>)
    ensures forall h :: h in Replayed(map[], qs) ==> 1 <= h <= MAX_HANDLES
    ensures |Replayed(map[], qs)| <= MAX_HANDLES
  {
    if qs != [] {
      LiveBounded(qs[..|qs| - 1]);
    }
    BoundedSize(Replayed(map[], qs));
  }

  lemma RemoveSize<V>(m: map<int, V>, h: int)
    ensures |m - {h}| == |m| - if h in m then 1 else 0
  {
    assert (m - {h}).Keys == m.Keys - {h};
    assert |m| == |m.Keys| && |m - {h}| == |(m - {h}).Keys|;
  }

  function Range(n: nat): (r: set<int>)
    ensures |r| == n && forall h :: h in r <==> 1 <= h <= n
  {
    if n == 0 then {} else Range(n - 1) + {n}
  }

  lemma BoundedSize<V>(m: map<int, V>)
    requires forall h :: h in m ==> 1 <= h <= MAX_HANDLES
    ensures |m| <= MAX_HANDLES
  {
    var all := Range(MAX_HANDLES);
    assert m.Keys <= all;
    assert all == m.Keys + (all - m.Keys);
    assert |m| == |m.Keys|;
  }
}
