/** The zip filesystem daemon: its lazily built index, its callbacks, its one-slot cache. */
module ZipFs {
  import opened Outcomes
  import opened ZipIndex
  import opened ZipTree

  datatype Errno = ENOENT | ENOTDIR | EISDIR | EEXIST | EROFS | ENOSYS | EIO | ENOMEM

  datatype Stat = Stat(isDir: bool, size: nat)

  /** What reading `size` bytes at `off` of an entry gives, whatever was read before. */
  function ReadAt(contents: seq<Option<seq<Byte>>>, e: Entry, off: nat, size: nat): Result<seq<Byte>, Errno>
    requires e.fileIndex < |contents|
    requires contents[e.fileIndex].Some? ==> |contents[e.fileIndex].value| == e.size
  {
    match contents[e.fileIndex]
    case None => Failure(EIO)
    case Some(data) =>
      Success(if off >= |data| then [] else if off + size > |data| then data[off..] else data[off..off + size])
  }

  /** What looking for the archive and opening it would come to, at one request. */
  datatype Found = Missing | Corrupt | Opens

  datatype State = Untried | Ready | Unusable

  /** A missing archive may turn up later; a corrupt one is remembered. */
  function Settled(s: State, f: Found): State {
    if s != Untried then s
    else match f case Missing => Untried case Corrupt => Unusable case Opens => Ready
  }

  class Zip {
    const archive: seq<Member>
    const contents: seq<Option<seq<Byte>>> // what extracting each member gives
    var state: State
    var entries: seq<Entry>
    var cachedIndex: nat
    var cachedData: Option<seq<Byte>>

    predicate Valid()
      reads this
    {
      && |contents| == |archive|
      && (forall i :: 0 <= i < |contents| && contents[i].Some? ==> |contents[i].value| == archive[i].size)
      && entries == (if state == Ready then Index(archive) else [])
      // the cache holds what a fresh extraction of its index would give
      && (cachedData.Some? ==> cachedIndex < |contents| && contents[cachedIndex] == cachedData)
    }

    constructor (archive: seq<Member>, contents: seq<Option<seq<Byte>>>)
      requires |contents| == |archive|
      requires forall i :: 0 <= i < |contents| && contents[i].Some? ==> |contents[i].value| == archive[i].size
      ensures Valid() && this.archive == archive && this.contents == contents && state == Untried
    {
      this.archive, this.contents := archive, contents;
      state, entries, cachedIndex, cachedData := Untried, [], 0, None;
    }

    // ---- the index ----

    method FindEntry(path: Path) returns (found: int)
      ensures if path in Paths(entries) then 0 <= found < |entries| && entries[found].path == path else found == -1
    {
      for i := 0 to |entries|
        invariant forall k :: 0 <= k < i ==> entries[k].path != path
      {
        if entries[i].path == path {
          return i;
        }
      }
      return -1;
    }

    method PushEntry(path: Path, isDir: bool, fileIndex: nat, size: nat)
      modifies this`entries
      ensures entries == Pushed(old(entries), Entry(path, isDir, fileIndex, size))
    {
      if path == [] {
        return;
      }
      var found := FindEntry(path);
      if found >= 0 {
        return;
      }
      entries := entries + [Entry(path, isDir, fileIndex, size)];
    }

    /** The path is cut at its last slash until none is left. */
    method PushParents(path: Path)
      modifies this`entries
      ensures entries == PushedDirs(old(entries), Above(path))
    {
      var buf := path;
      var slash := LastSlash(buf);
      while slash >= 0
        invariant slash == LastSlash(buf)
        invariant PushedDirs(entries, Above(buf)) == PushedDirs(old(entries), Above(path))
        decreases |buf|
      {
        buf := buf[..slash];
        PushEntry(buf, true, 0, 0);
        slash := LastSlash(buf);
      }
    }

    /** Leading "./" pairs and one closing slash are taken off. */
    method Normalize(m: Member) returns (path: Path, isDir: bool)
      ensures path == PathOf(m) && isDir == IsDirMember(m)
    {
      var p := m.name;
      while |p| >= 2 && p[0] == '.' && p[1] == '/'
        invariant Unprefixed(p) == Unprefixed(m.name)
        decreases |p|
      {
        p := p[2..];
      }
      var buf := Clipped(p);
      isDir := m.flaggedDir;
      if |buf| > 0 && buf[|buf| - 1] == '/' {
        buf := buf[..|buf| - 1];
        isDir := true;
      }
      path := buf;
    }

    method IndexMember(i: nat)
      requires i < |archive|
      modifies this`entries
      ensures entries == IndexedOne(old(entries), i, archive[i])
    {
      if archive[i].readable {
        var path, isDir := Normalize(archive[i]);
        PushEntry(path, isDir, i, archive[i].size);
        PushParents(path);
      }
    }

    lemma IndexStep(i: nat)
      requires i < |archive|
      ensures Index(archive[..i + 1]) == IndexedOne(Index(archive[..i]), i, archive[i])
    {
      assert archive[..i + 1][..i] == archive[..i];
    }

    /** The first request that finds the archive builds the index. */
    method EnsureIndex(found: Found) returns (ready: bool)
      requires Valid()
      modifies this`entries, this`state
      ensures Valid() && state == Settled(old(state), found) && ready == (state == Ready)
    {
      if state != Untried {
        return state == Ready;
      }
      if found == Missing {
        return false;
      }
      if found == Corrupt {
        state := Unusable;
        return false;
      }
      for i := 0 to |archive|
        invariant entries == Index(archive[..i])
      {
        IndexStep(i);
        IndexMember(i);
      }
      assert archive[..|archive|] == archive;
      state := Ready;
      return true;
    }

    // ---- the callbacks; with no archive they serve an empty root ----

    /** getattr; `path` is absolute. */
    method Getattr(path: string, found: Found) returns (r: Option<Stat>)
      requires Valid() && |path| > 0 && path[0] == '/'
      modifies this`entries, this`state
      ensures Valid() && state == if |path| == 1 then old(state) else Settled(old(state), found)
      ensures var p := path[1..];
              if p == [] then r == Some(Stat(true, 0))
              else if p !in Paths(entries) then r == None
              else exists e :: e in entries && e.path == p && r == Some(Stat(e.isDir, e.size))
    {
      if |path| == 1 {
        return Some(Stat(true, 0));
      }
      var ready := EnsureIndex(found);
      if !ready {
        return None;
      }
      var i := FindEntry(path[1..]);
      if i < 0 {
        return None;
      }
      return Some(Stat(entries[i].isDir, entries[i].size));
    }

    /** readdir: the calls made to the filler, in order. */
    method Readdir(path: string, found: Found) returns (r: Result<seq<Item>, Errno>)
      requires Valid() && |path| > 0 && path[0] == '/'
      modifies this`entries, this`state
      ensures Valid() && state == Settled(old(state), found)
      ensures var d := path[1..];
              match r
              case Success(raw) => Listable(entries, d)
                                   && raw == (if state == Ready then Dots() else []) + Emitted(entries, d)
              case Failure(ENOENT) => d != [] && d !in Paths(entries)
              case Failure(e) => e == ENOTDIR && d != [] && exists f :: f in entries && f.path == d && !f.isDir
    {
      var ready := EnsureIndex(found);
      var prefix := path[1..];
      if !ready {
        return if |path| == 1 then Success([]) else Failure(ENOENT);
      }
      if |prefix| > 0 {
        var i := FindEntry(prefix);
        if i < 0 {
          return Failure(ENOENT);
        }
        if !entries[i].isDir {
          return Failure(ENOTDIR);
        }
      }
      var children := ListChildren(prefix);
      return Success(Dots() + children);
    }

    /** The loop over all entries. */
    method ListChildren(prefix: Path) returns (raw: seq<Item>)
      ensures raw == Emitted(entries, prefix)
    {
      raw := [];
      for i := 0 to |entries|
        invariant raw == Emitted(entries[..i], prefix)
      {
        assert entries[..i + 1][..i] == entries[..i];
        var name := ChildName(entries[i].path, prefix);
        if name.Some? {
          raw := raw + [Item(name.value, entries[i].isDir)];
        }
      }
      assert entries[..|entries|] == entries;
    }

    /** The two tests on one path: below `prefix`, and no deeper than one level. */
    method ChildName(path: Path, prefix: Path) returns (name: Option<string>)
      ensures name == if IsChild(path, prefix) then Some(path[|Prefix(prefix)|..]) else None
    {
      var p := path;
      if |prefix| > 0 {
        SlashAfterPrefix(path, prefix);
        if !(|p| > |prefix| && p[..|prefix|] == prefix && p[|prefix|] == '/') {
          return None;
        }
        p := p[|prefix| + 1..];
      }
      NoSlashInTail(path, |Prefix(prefix)|);
      assert p == path[|Prefix(prefix)|..];
      if LastSlash(p) >= 0 {
        return None;
      }
      return Some(p);
    }

    method Open(path: string, readOnly: bool, found: Found) returns (r: Result<nat, Errno>)
      requires Valid() && |path| > 0 && path[0] == '/'
      modifies this`entries, this`state
      ensures Valid() && state == Settled(old(state), found)
      ensures match r
              case Success(fh) => fh < |entries| && entries[fh].path == path[1..] && !entries[fh].isDir && readOnly
              case Failure(ENOENT) => path[1..] !in Paths(entries)
              case Failure(EISDIR) => exists e :: e in entries && e.path == path[1..] && e.isDir
              case Failure(e) => e == EROFS && !readOnly && exists f :: f in entries && f.path == path[1..] && !f.isDir
    {
      var ready := EnsureIndex(found);
      if !ready {
        return Failure(ENOENT);
      }
      var i := FindEntry(path[1..]);
      if i < 0 {
        return Failure(ENOENT);
      }
      if entries[i].isDir {
        return Failure(EISDIR);
      }
      if !readOnly {
        return Failure(EROFS);
      }
      return Success(i);
    }

    /** A whole member, from the cache if it is there. */
    method MemberData(e: Entry) returns (data: Option<seq<Byte>>)
      requires Valid() && e.fileIndex < |contents|
      modifies this`cachedIndex, this`cachedData
      ensures Valid() && data == contents[e.fileIndex]
    {
      if cachedData.Some? && cachedIndex == e.fileIndex {
        return cachedData;
      }
      data := contents[e.fileIndex];
      if data.None? {
        return;
      }
      cachedData := data;
      cachedIndex := e.fileIndex;
    }

    /** read on an open file, whose number its open found in the index; the cache never shows. */
    method Read(fh: nat, size: nat, off: nat, found: Found) returns (r: Result<seq<Byte>, Errno>)
      requires Valid() && fh < |entries| && !entries[fh].isDir
      modifies this`entries, this`state, this`cachedIndex, this`cachedData
      ensures Valid() && state == old(state) && entries == old(entries)
      ensures FileEntry(archive, fh) && r == ReadAt(contents, Index(archive)[fh], off, size)
    {
      var ready := EnsureIndex(found);
      if !ready {
        return Failure(ENOENT);
      }
      var e := entries[fh];
      FileEntries(archive, fh);
      var data := MemberData(e);
      if data.None? {
        return Failure(EIO);
      }
      if off >= e.size {
        return Success([]);
      }
      var n := size;
      if off + size > e.size {
        n := e.size - off;
      }
      assert n < size ==> data.value[off..] == data.value[off..off + n];
      return Success(data.value[off..off + n]);
    }
  }

  function Dots(): seq<Item> {
    [Item(['.'], true), Item(['.', '.'], true)]
  }

  /** An entry that names a member, with the member's size. */
  predicate FileEntry(ms: seq<Member>, fh: nat) {
    && fh < |Index(ms)|
    && Index(ms)[fh].fileIndex < |ms| && Index(ms)[fh].size == ms[Index(ms)[fh].fileIndex].size
  }

  lemma FileEntries(ms: seq<Member>, fh: nat)
    requires fh < |Index(ms)| && !Index(ms)[fh].isDir
    ensures FileEntry(ms, fh)
  {
    IndexBuilt(ms);
    assert Index(ms)[fh] in Index(ms);
  }

  lemma SlashAfterPrefix(p: Path, d: Path)
    requires d != []
    ensures |p| > |d| && p[..|d|] == d && p[|d|] == '/' <==> |Prefix(d)| <= |p| && p[..|Prefix(d)|] == Prefix(d)
  {
    if |p| > |d| {
      assert p[..|d| + 1] == p[..|d|] + [p[|d|]];
      assert Prefix(d)[..|d|] == d && Prefix(d)[|d|] == '/';
      assert p[..|d| + 1][..|d|] == p[..|d|];
    }
  }

  lemma NoSlashInTail(p: Path, n: nat)
    requires n <= |p|
    ensures LastSlash(p[n..]) < 0 <==> NoSlashFrom(p, n)
  {
    var tail := p[n..];
    if LastSlash(tail) < 0 {
      forall k | n <= k < |p|
        ensures p[k] != '/'
      {
        NoSlashAfter(tail, k - n);
        assert p[k] == tail[k - n];
      }
    } else {
      assert p[n + LastSlash(tail)] == '/';
    }
  }

  /** An archive not found is looked for again; one found corrupt is not; one opened stays. */
  lemma FoundLater(f: Found)
    ensures Settled(Settled(Untried, Missing), f) == Settled(Untried, f)
    ensures Settled(Untried, Opens) == Ready == Settled(Ready, f)
    ensures Settled(Untried, Corrupt) == Unusable == Settled(Unusable, f)
  {
  }
}
