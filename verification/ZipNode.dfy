/** The zip daemon behind the shim, as a consumer meets it: listings and files read piece by piece. */
module ZipNode {
  import opened Outcomes
  import opened ZipIndex
  import opened ZipTree
  import opened ZipFs
  import opened FuseShim

  /** The dots never get through the filler. */
  lemma {:induction false} DotsFiltered(es: seq<Entry>, d: Path, raw: seq<Item>)
    ensures Collected(es, d, Dots() + raw) == Collected(es, d, raw)
    decreases |raw|
  {
    var all := Dots() + raw;
    if raw == [] {
      assert all == Dots();
      assert Dots()[..1][..0] == [];
      assert Dots()[..1] == [Dots()[0]];
    } else {
      assert all[..|all| - 1] == Dots() + raw[..|raw| - 1];
      DotsFiltered(es, d, raw[..|raw| - 1]);
    }
  }

  class Node {
    const zip: Zip
    const shim: Shim

    constructor (zip: Zip, shim: Shim)
      ensures this.zip == zip && this.shim == shim
    {
      this.zip, this.shim := zip, shim;
    }

    ghost predicate Valid()
      reads this, zip, shim, shim.handles
    {
      && zip.Valid() && shim.Valid()
      && forall h :: h in shim.View() ==> if shim.View()[h].isDir then DirOf(h) else FileOf(h)
    }

    /** A handle on a file carries the number of that file's entry. */
    ghost predicate FileOf(h: int)
      requires shim.Valid()
      reads this, zip, shim, shim.handles
    {
      && h in shim.View()
      && var f := shim.View()[h];
         f.fh < |zip.entries| && !zip.entries[f.fh].isDir && f.path == FusePath(zip.entries[f.fh].path)
    }

    /** A handle on a directory is on one that can be listed. */
    ghost predicate DirOf(h: int)
      requires shim.Valid()
      reads this, zip, shim, shim.handles
    {
      && h in shim.View()
      && var f := shim.View()[h];
         |f.path| > 0 && f.path == FusePath(f.path[1..]) && Listable(zip.entries, f.path[1..])
    }

    /** The bytes of the member an open file stands for. */
    ghost function Content(h: int): Option<seq<Byte>>
      requires Valid() && h in shim.View() && !shim.View()[h].isDir
      reads this, zip, shim, shim.handles
    {
      var e := zip.entries[shim.View()[h].fh];
      FileEntries(zip.archive, shim.View()[h].fh);
      zip.contents[e.fileIndex]
    }

    // ---- listing ----

    /** The shim's filler for one emitted name: a claimed directory is confirmed by getattr. */
    method DirFill(dirpath: string, x: Item, found: Found) returns (item: Option<Item>)
      requires zip.Valid() && zip.state == Ready && |dirpath| > 0 && dirpath[0] == '/'
      modifies zip`entries, zip`state
      ensures zip.Valid() && zip.state == Ready
      ensures var d := dirpath[1..];
              item == if IsDots(x.name) then None
                      else Some(Item(x.name, x.isDir && Listable(zip.entries, ChildPath(d, x.name))))
    {
      if IsDots(x.name) {
        return None;
      }
      var isDir := false;
      if x.isDir {
        var sep := dirpath[|dirpath| - 1] != '/';
        var child := dirpath + (if sep then ['/'] else []) + x.name;
        ChildOfDirpath(dirpath, x.name);
        var st := zip.Getattr(child, found);
        isDir := st.Some? && st.value.isDir;
        KindByPath(zip.archive, child[1..]);
      }
      return Some(Item(x.name, isDir));
    }

    /** readdir through the shim. */
    method DoReaddir(path: Path, found: Found) returns (r: Result<seq<Item>, Errno>)
      requires zip.Valid()
      modifies zip`entries, zip`state
      ensures zip.Valid() && zip.state == Settled(old(zip.state), found)
      ensures match r
              case Success(items) => Listable(zip.entries, path) && items == Listing(zip.entries, path)
              case Failure(e) => !Listable(zip.entries, path)
                                 && e == if path in Paths(zip.entries) then ENOTDIR else ENOENT
    {
      var p := FusePath(path);
      assert p[1..] == path;
      var raw := zip.Readdir(p, found);
      ghost var es := zip.entries;
      if raw.Failure? {
        NotListable(zip.archive, path);
        return Failure(raw.error);
      }
      if zip.state != Ready {
        return Success([]);
      }
      var items := Collect(p, raw.value, found);
      DotsFiltered(es, path, Emitted(es, path));
      return Success(items);
    }

    /** The filler over all calls the daemon makes to it. */
    method Collect(p: string, raw: seq<Item>, found: Found) returns (items: seq<Item>)
      requires zip.Valid() && zip.state == Ready && |p| > 0 && p[0] == '/'
      modifies zip`entries, zip`state
      ensures zip.Valid() && zip.state == Ready && items == Collected(zip.entries, p[1..], raw)
    {
      items := [];
      for i := 0 to |raw|
        invariant zip.Valid() && zip.state == Ready
        invariant items == Collected(zip.entries, p[1..], raw[..i])
      {
        assert raw[..i + 1][..i] == raw[..i];
        var item := DirFill(p, raw[i], found);
        if item.Some? {
          items := items + [item.value];
        }
      }
      assert raw[..|raw|] == raw;
    }

    // ---- opening and reading ----

    /** The daemon's answers for an open of `path`; it is asked to open only what it says is a file. */
    method Answers(path: string, found: Found) returns (d: Daemon)
      requires zip.Valid() && |path| > 0 && path[0] == '/'
      modifies zip`entries, zip`state
      ensures zip.Valid() && zip.state == if |path| == 1 then old(zip.state) else Settled(old(zip.state), found)
      ensures d.create == None && d.truncate == None && d.open.Some?
      ensures Attributes(zip.entries, path[1..], d.stat)
      ensures d.stat.Some? && !d.stat.value.isDir ==>
                d.open.value.Success? && IsFileAt(zip.entries, d.open.value.value, path[1..], d.stat.value.size)
    {
      var st := zip.Getattr(path, found);
      var op := Failure(ENOENT);
      AttributesOf(zip.archive, zip.entries, path[1..], st);
      if st.Some? && !st.value.isDir {
        op := zip.Open(path, true, found);
        OneEntry(zip.archive, path[1..]);
      }
      d := Daemon(st, None, None, Some(op));
    }

    /** open through the shim; zipfs has neither create nor truncate. */
    method DoOpen(args: OpenArgs, found: Found) returns (r: OpenReply)
      requires Valid()
      modifies zip`entries, zip`state, shim.handles
      ensures Valid() && zip.state == if args.path == [] then old(zip.state) else Settled(old(zip.state), found)
      ensures Expected(zip.entries, args, LowestFree(old(shim.View()), 1), r)
      ensures if r.OpenedAs?
              then r.handle !in old(shim.View()) && r.handle in shim.View()
                   && shim.View() == old(shim.View())[r.handle := shim.View()[r.handle]]
                   && shim.View()[r.handle].path == FusePath(args.path) && shim.View()[r.handle].isDir == r.isDir
              else shim.View() == old(shim.View())
    {
      var p := FusePath(args.path);
      assert p[1..] == args.path;
      var d := Answers(p, found);
      r := OpenAnswered(args, d);
    }

    /** The shim's part, once the daemon has answered. */
    method OpenAnswered(args: OpenArgs, d: Daemon) returns (r: OpenReply)
      requires Valid() && d.create == None && d.truncate == None && d.open.Some?
      requires Attributes(zip.entries, args.path, d.stat)
      requires d.stat.Some? && !d.stat.value.isDir ==>
                 d.open.value.Success? && IsFileAt(zip.entries, d.open.value.value, args.path, d.stat.value.size)
      modifies shim.handles
      ensures Valid() && Expected(zip.entries, args, LowestFree(old(shim.View()), 1), r)
      ensures if r.OpenedAs?
              then r.handle !in old(shim.View()) && r.handle in shim.View()
                   && shim.View() == old(shim.View())[r.handle := shim.View()[r.handle]]
                   && shim.View()[r.handle].path == FusePath(args.path) && shim.View()[r.handle].isDir == r.isDir
              else shim.View() == old(shim.View())
    {
      assert FusePath(args.path)[1..] == args.path;
      OpenIsExpected(zip.entries, args, d, shim.View());
      r := shim.DoOpen(args, d);
    }

    /** read through the shim: the daemon is asked with what the handle recorded. */
    method DoRead(h: int, len: nat, off: nat, found: Found) returns (r: DataReply)
      requires Valid()
      modifies zip`entries, zip`state, zip`cachedIndex, zip`cachedData
      ensures Valid() && shim.View() == old(shim.View()) && zip.entries == old(zip.entries)
      ensures h in shim.View() && !shim.View()[h].isDir ==>
                match Content(h)
                case None => r == ReadFailed(EIO)
                case Some(data) =>
                  var bytes := if off >= |data| then [] else if off + len > |data| then data[off..] else data[off..off + len];
                  r == Data(bytes, |bytes| < len)
      ensures h in shim.View() && shim.View()[h].isDir ==> r == ReadFailed(EISDIR)
      ensures h !in shim.View() ==> r == ReadFailed(ENOENT)
    {
      var f := shim.HandleGet(h);
      var answer := None;
      if f.Some? && !f.value.isDir {
        var bytes := ReadFile(h, f.value.fh, len, off, found);
        answer := Some(bytes);
      }
      var call;
      r, call := shim.DoRead(h, len, off, answer);
    }

    /** The daemon's answer to a read of an open file. */
    method ReadFile(h: int, fh: nat, len: nat, off: nat, found: Found) returns (r: Result<seq<Byte>, Errno>)
      requires Valid() && h in shim.View() && !shim.View()[h].isDir && fh == shim.View()[h].fh
      modifies zip`entries, zip`state, zip`cachedIndex, zip`cachedData
      ensures Valid() && zip.entries == old(zip.entries)
      ensures match Content(h)
              case None => r == Failure(EIO)
              case Some(data) =>
                r == Success(if off >= |data| then [] else if off + len > |data| then data[off..] else data[off..off + len])
    {
      assert FileOf(h);
      r := zip.Read(fh, len, off, found);
    }

    method DoReads(requests: seq<FileRead>)
      requires Valid()
      modifies zip`entries, zip`state, zip`cachedIndex, zip`cachedData
      ensures Valid() && shim.View() == old(shim.View()) && zip.entries == old(zip.entries)
    {
      for i := 0 to |requests|
        invariant Valid() && shim.View() == old(shim.View())
        invariant zip.entries == old(zip.entries)
      {
        var _ := DoRead(requests[i].h, requests[i].len, requests[i].off, requests[i].found);
      }
    }

    /**
     * A file read to its end in pieces of any positive sizes, with any other
     * reads of any handles in between: it ends, and the pieces are the member.
     */
    method ReadToEnd(h: int, size: nat -> nat, others: nat -> seq<FileRead>, found: nat -> Found)
      returns (bytes: seq<Byte>, pieces: nat)
      requires Valid() && h in shim.View() && !shim.View()[h].isDir && Content(h).Some?
      requires forall k :: size(k) > 0
      modifies zip`entries, zip`state, zip`cachedIndex, zip`cachedData
      ensures Valid() && shim.View() == old(shim.View()) && zip.entries == old(zip.entries)
      ensures Some(bytes) == Content(h) == old(Content(h))
      ensures pieces <= |bytes| + 1
    {
      ghost var content := Content(h).value;
      bytes := [];
      pieces := 0;
      var eof := false;
      while !eof
        invariant Valid() && shim.View() == old(shim.View())
        invariant zip.entries == old(zip.entries) && Content(h) == Some(content)
        invariant bytes <= content && (eof ==> bytes == content)
        invariant pieces <= |bytes| + if eof then 1 else 0
        decreases |content| - |bytes|, !eof
      {
        DoReads(others(pieces));
        var r := DoRead(h, size(pieces), |bytes|, found(pieces));
        bytes := bytes + r.bytes;
        eof := r.eof;
        pieces := pieces + 1;
      }
    }
  }

  /** A read among others: which handle, how much, from where. */
  datatype FileRead = FileRead(h: int, len: nat, off: nat, found: Found)

  // ---- what an open comes to ----

  /** `st` is what getattr should say of the path `p`. */
  ghost predicate Attributes(es: seq<Entry>, p: Path, st: Option<Stat>) {
    match st
    case None => p != [] && p !in Paths(es)
    case Some(Stat(true, _)) => Listable(es, p) && (p != [] ==> p in Paths(es))
    case Some(Stat(false, size)) =>
      p != [] && p in Paths(es) && !Listable(es, p) && exists i :: IsFileAt(es, i, p, size)
  }

  predicate IsFileAt(es: seq<Entry>, i: nat, p: Path, size: nat) {
    i < |es| && es[i].path == p && !es[i].isDir && es[i].size == size
  }

  /**
   * The reply to an open, for every path, where `h` is the lowest free handle:
   * a directory that can be listed, or an indexed file with its size, unless
   * it should have been new or is to be written.
   */
  ghost predicate Expected(es: seq<Entry>, args: OpenArgs, h: int, r: OpenReply) {
    if args.path != [] && args.path !in Paths(es) then r == OpenFailed(if args.create then EROFS else ENOENT)
    else if args.exclusive then r == OpenFailed(EEXIST)
    else if !Listable(es, args.path) && args.truncate then r == OpenFailed(EROFS)
    else if h == 0 then r == OpenFailed(ENOMEM)
    else
      && r.OpenedAs? && r.handle == h
      && if Listable(es, args.path) then r.isDir && r.size == 0
         else !r.isDir && exists i :: IsFileAt(es, i, args.path, r.size)
  }

  lemma ChildOfDirpath(dirpath: string, name: string)
    requires |dirpath| > 0 && dirpath[0] == '/'
    ensures var child := dirpath + (if dirpath[|dirpath| - 1] != '/' then ['/'] else []) + name;
            |child| > 0 && child[0] == '/' && child[1..] == ChildPath(dirpath[1..], name)
  {
    var d := dirpath[1..];
    assert dirpath == ['/'] + d;
    if d == [] {
      assert dirpath[|dirpath| - 1] == '/';
      assert (dirpath + [] + name)[1..] == name;
    } else {
      assert d[|d| - 1] == dirpath[|dirpath| - 1];
      assert (dirpath + ['/'] + name)[1..] == d + ['/'] + name;
      assert (dirpath + [] + name)[1..] == d + name;
    }
  }

  /** A path has one entry, so getattr and a search for a directory agree. */
  lemma KindByPath(ms: seq<Member>, p: Path)
    ensures forall e :: e in Index(ms) && e.path == p && p != [] ==> (e.isDir <==> Listable(Index(ms), p))
    ensures p !in Paths(Index(ms)) && p != [] ==> !Listable(Index(ms), p)
  {
    var es := Index(ms);
    IndexBuilt(ms);
    forall e, f | e in es && f in es && e.path == f.path
      ensures e == f
    {
      var i :| 0 <= i < |es| && es[i] == e;
      var j :| 0 <= j < |es| && es[j] == f;
    }
  }

  lemma AttributesOf(ms: seq<Member>, es: seq<Entry>, p: Path, st: Option<Stat>)
    requires es == Index(ms) || es == []
    requires if p == [] then st == Some(Stat(true, 0))
             else if p !in Paths(es) then st == None
             else exists e :: e in es && e.path == p && st == Some(Stat(e.isDir, e.size))
    ensures Attributes(es, p, st)
  {
    KindByPath(ms, p);
    if p != [] && p in Paths(es) {
      var e :| e in es && e.path == p && st == Some(Stat(e.isDir, e.size));
      var i :| 0 <= i < |es| && es[i] == e;
      assert !e.isDir ==> IsFileAt(es, i, p, e.size);
    }
  }

  /** The shim's open with these answers replies as expected. */
  lemma OpenIsExpected(es: seq<Entry>, args: OpenArgs, d: Daemon, t: Table)
    requires Attributes(es, args.path, d.stat) && d.create == None && d.truncate == None && d.open.Some?
    requires d.stat.Some? && !d.stat.value.isDir ==> d.open.value.Success?
    ensures Expected(es, args, LowestFree(t, 1), OpenAnswer(t, args, d))
  {
  }

  lemma OneEntry(ms: seq<Member>, p: Path)
    ensures forall i, j :: 0 <= i < |Index(ms)| && 0 <= j < |Index(ms)| && Index(ms)[i].path == p == Index(ms)[j].path ==> i == j
  {
    IndexBuilt(ms);
  }

  lemma NotListable(ms: seq<Member>, p: Path)
    ensures p != [] && (p !in Paths(Index(ms)) || exists f :: f in Index(ms) && f.path == p && !f.isDir) ==>
              !Listable(Index(ms), p)
  {
    KindByPath(ms, p);
  }
}
