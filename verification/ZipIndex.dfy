/** The index of a zip archive: every member's path and all its ancestors. */
module ZipIndex {
  import opened Outcomes

  type Path = string // "a/b/c", relative to the archive; [] is the root

  const BUFFER := 1024 // the path buffers; one byte is the NUL's

  datatype Entry = Entry(path: Path, isDir: bool, fileIndex: nat, size: nat)

  /** A member as the zip reader describes it. */
  datatype Member = Member(name: string, flaggedDir: bool, size: nat, readable: bool)

  // ---- paths ----

  /** The last slash among the first `n` characters, or -1. */
  function SlashBefore(s: Path, n: nat): (i: int)
    requires n <= |s|
    ensures -1 <= i < n
    ensures i >= 0 ==> s[i] == '/'
  {
    if n == 0 then -1 else if s[n - 1] == '/' then n - 1 else SlashBefore(s, n - 1)
  }

  /** strrchr(s, '/'), or -1. */
  function LastSlash(s: Path): (i: int)
    ensures -1 <= i < |s|
    ensures i >= 0 ==> s[i] == '/'
  {
    SlashBefore(s, |s|)
  }

  lemma {:induction false} NoneBetween(s: Path, n: nat, k: nat)
    requires n <= |s| && SlashBefore(s, n) < k < n
    ensures s[k] != '/'
  {
    if k < n - 1 {
      NoneBetween(s, n - 1, k);
    }
  }

  lemma NoSlashAfter(s: Path, k: nat)
    requires LastSlash(s) < k < |s|
    ensures s[k] != '/'
  {
    NoneBetween(s, |s|, k);
  }

  /** The directories above `p`, nearest first: cut at the last slash again and again. */
  function Above(p: Path): seq<Path>
    decreases |p|
  {
    var i := LastSlash(p);
    if i <= 0 then [] else [p[..i]] + Above(p[..i])
  }

  function Ancestors(p: Path): set<Path> {
    set a | a in Above(p)
  }

  predicate PrefixBeforeSlash(p: Path, a: Path) {
    a != [] && |a| < |p| && p[|a|] == '/' && p[..|a|] == a
  }

  lemma ShorterPrefix(p: Path, i: nat, a: Path)
    requires |a| < i <= |p|
    ensures PrefixBeforeSlash(p[..i], a) <==> PrefixBeforeSlash(p, a)
  {
    assert p[..i][..|a|] == p[..|a|];
  }

  /** They are the non-empty prefixes that end before a slash. */
  lemma {:induction false} AncestorsArePrefixes(p: Path, a: Path)
    ensures a in Above(p) <==> PrefixBeforeSlash(p, a)
    decreases |p|
  {
    var i := LastSlash(p);
    if |a| < |p| && i < |a| {
      NoSlashAfter(p, |a|);
    }
    if i > 0 {
      AncestorsArePrefixes(p[..i], a);
      if |a| < i {
        ShorterPrefix(p, i, a);
      }
    }
  }

  lemma AncestorTrans(a: Path, b: Path, p: Path)
    requires a in Ancestors(b) && b in Ancestors(p)
    ensures a in Ancestors(p)
  {
    AncestorsArePrefixes(b, a);
    AncestorsArePrefixes(p, b);
    AncestorsArePrefixes(p, a);
    ShorterPrefix(p, |b|, a);
  }

  // ---- member names ----

  function Unprefixed(name: string): string {
    if |name| >= 2 && name[0] == '.' && name[1] == '/' then Unprefixed(name[2..]) else name
  }

  function Clipped(name: string): string {
    if |name| < BUFFER then name else name[..BUFFER - 1]
  }

  /** Leading "./" and one trailing slash are stripped; the slash marks a directory. */
  function PathOf(m: Member): Path {
    var b := Clipped(Unprefixed(m.name));
    if b != [] && b[|b| - 1] == '/' then b[..|b| - 1] else b
  }

  predicate IsDirMember(m: Member) {
    var b := Clipped(Unprefixed(m.name));
    m.flaggedDir || (b != [] && b[|b| - 1] == '/')
  }

  // ---- building ----

  function Paths(es: seq<Entry>): set<Path> {
    set e | e in es :: e.path
  }

  function Pushed(es: seq<Entry>, e: Entry): seq<Entry> {
    if e.path == [] || e.path in Paths(es) then es else es + [e]
  }

  /** Directories pushed one after the other. */
  function PushedDirs(es: seq<Entry>, dirs: seq<Path>): seq<Entry>
    decreases |dirs|
  {
    if dirs == [] then es else PushedDirs(Pushed(es, Entry(dirs[0], true, 0, 0)), dirs[1..])
  }

  function IndexedOne(es: seq<Entry>, index: nat, m: Member): seq<Entry> {
    if !m.readable then es
    else PushedDirs(Pushed(es, Entry(PathOf(m), IsDirMember(m), index, m.size)), Above(PathOf(m)))
  }

  function Index(ms: seq<Member>): seq<Entry> {
    if ms == [] then [] else IndexedOne(Index(ms[..|ms| - 1]), |ms| - 1, ms[|ms| - 1])
  }

  predicate NoDuplicates(es: seq<Entry>) {
    forall i, j :: 0 <= i < j < |es| ==> es[i].path != es[j].path
  }

  lemma PushedKeeps(es: seq<Entry>, e: Entry)
    requires NoDuplicates(es)
    ensures NoDuplicates(Pushed(es, e))
    ensures es <= Pushed(es, e) && |Pushed(es, e)| <= |es| + 1
    ensures Pushed(es, e) != es ==> Pushed(es, e) == es + [e] && e.path != [] && e.path !in Paths(es)
    ensures Paths(Pushed(es, e)) == Paths(es) + if e.path == [] then {} else {e.path}
  {
    var v := Pushed(es, e);
    if v != es {
      assert forall f :: f in v <==> f in es || f == e;
      assert forall i :: 0 <= i < |es| ==> es[i] in es;
    }
  }

  /** New entries are directories among `above`, under paths the old ones did not have. */
  predicate Extends(v: seq<Entry>, es: seq<Entry>, above: set<Path>) {
    && es <= v
    && forall i :: |es| <= i < |v| ==> v[i].isDir && v[i].path in above && v[i].path !in Paths(es)
  }

  lemma ExtendsTrans(v: seq<Entry>, es: seq<Entry>, e: Entry, above: set<Path>)
    requires NoDuplicates(es) && e.isDir && e.path != []
    requires Extends(v, Pushed(es, e), above) && Paths(v) == Paths(Pushed(es, e)) + above
    ensures Extends(v, es, above + {e.path}) && Paths(v) == Paths(es) + (above + {e.path})
  {
    var es1 := Pushed(es, e);
    PushedKeeps(es, e);
    assert forall i :: |es| <= i < |es1| ==> v[i] == es1[i] == e;
  }

  /** Exactly the missing ones are added, as directories. */
  lemma {:induction false} DirsKeep(es: seq<Entry>, dirs: seq<Path>)
    requires NoDuplicates(es) && [] !in dirs
    ensures NoDuplicates(PushedDirs(es, dirs))
    ensures Paths(PushedDirs(es, dirs)) == Paths(es) + (set d | d in dirs)
    ensures Extends(PushedDirs(es, dirs), es, set d | d in dirs)
    decreases |dirs|
  {
    if dirs != [] {
      var e := Entry(dirs[0], true, 0, 0);
      PushedKeeps(es, e);
      DirsKeep(Pushed(es, e), dirs[1..]);
      ExtendsTrans(PushedDirs(es, dirs), es, e, set d | d in dirs[1..]);
      assert (set d | d in dirs) == (set d | d in dirs[1..]) + {dirs[0]};
    }
  }

  // ---- what the index is ----

  /** A readable member, its path and kind. */
  predicate MemberAt(ms: seq<Member>, j: nat, p: Path, isDir: bool) {
    j < |ms| && ms[j].readable && PathOf(ms[j]) == p && IsDirMember(ms[j]) == isDir
  }

  /** The paths of a member: its own and those above it. */
  function MemberPaths(m: Member): set<Path> {
    if m.readable then {PathOf(m)} + Ancestors(PathOf(m)) else {}
  }

  /** The paths a member says are directories. */
  function MemberDirs(m: Member): set<Path> {
    if m.readable then (if IsDirMember(m) then {PathOf(m)} else {}) + Ancestors(PathOf(m)) else {}
  }

  function AllPaths(ms: seq<Member>): set<Path> {
    set j, p | 0 <= j < |ms| && p in MemberPaths(ms[j]) :: p
  }

  function AllDirs(ms: seq<Member>): set<Path> {
    set j, p | 0 <= j < |ms| && p in MemberDirs(ms[j]) :: p
  }

  lemma AllSnoc(ms: seq<Member>, m: Member)
    ensures AllPaths(ms + [m]) == AllPaths(ms) + MemberPaths(m)
    ensures AllDirs(ms + [m]) == AllDirs(ms) + MemberDirs(m)
  {
    var n := ms + [m];
    assert forall j :: 0 <= j < |ms| ==> n[j] == ms[j];
    assert n[|ms|] == m;
  }

  function FilePaths(ms: seq<Member>): set<Path> {
    set j | 0 <= j < |ms| && ms[j].readable && !IsDirMember(ms[j]) :: PathOf(ms[j])
  }

  /** The kinds of the entries, as far as the members `ms` explain them. */
  ghost predicate KindsBuilt(es: seq<Entry>, ms: seq<Member>, dirs: set<Path>) {
    && (forall e :: e in es && !e.isDir ==> MemberAt(ms, e.fileIndex, e.path, false) && e.size == ms[e.fileIndex].size)
    && (forall e :: e in es && e.isDir ==> e.path in dirs)
  }

  ghost predicate Built(es: seq<Entry>, ms: seq<Member>) {
    && NoDuplicates(es)
    // exactly the members' paths and their ancestors
    && Paths(es) == AllPaths(ms) - {[]}
    // a file entry is a file member, a directory entry is said to be one
    && KindsBuilt(es, ms, AllDirs(ms))
  }

  lemma KindsExtended(v: seq<Entry>, es: seq<Entry>, above: set<Path>, ms: seq<Member>, dirs: set<Path>)
    requires KindsBuilt(es, ms, dirs) && Extends(v, es, above)
    ensures KindsBuilt(v, ms, dirs + above)
  {
    forall f | f in v
      ensures f in es || (f.isDir && f.path in above)
    {
      var i :| 0 <= i < |v| && v[i] == f;
      if i < |es| {
        assert f == es[i];
      }
    }
  }

  lemma PushedKinds(es: seq<Entry>, ms: seq<Member>, m: Member, dirs: set<Path>)
    requires KindsBuilt(es, ms, dirs) && m.readable
    ensures KindsBuilt(Pushed(es, Entry(PathOf(m), IsDirMember(m), |ms|, m.size)), ms + [m],
                       dirs + if IsDirMember(m) then {PathOf(m)} else {})
  {
    var e := Entry(PathOf(m), IsDirMember(m), |ms|, m.size);
    assert MemberAt(ms + [m], |ms|, PathOf(m), IsDirMember(m));
    assert forall j: nat, p :: MemberAt(ms, j, p, false) ==> MemberAt(ms + [m], j, p, false);
    assert forall f :: f in Pushed(es, e) ==> f in es || f == e;
  }

  lemma IndexedOneBuilt(es: seq<Entry>, ms: seq<Member>, m: Member)
    requires Built(es, ms)
    ensures Built(IndexedOne(es, |ms|, m), ms + [m])
  {
    var n := ms + [m];
    AllSnoc(ms, m);
    if m.readable {
      var p := PathOf(m);
      var e := Entry(p, IsDirMember(m), |ms|, m.size);
      PushedKeeps(es, e);
      PushedKinds(es, ms, m, AllDirs(ms));
      AncestorsArePrefixes(p, []);
      DirsKeep(Pushed(es, e), Above(p));
      ParentKinds(es, ms, m);
    } else {
      assert forall j: nat, p :: MemberAt(ms, j, p, false) ==> MemberAt(n, j, p, false);
    }
  }

  lemma ParentKinds(es: seq<Entry>, ms: seq<Member>, m: Member)
    requires Built(es, ms) && m.readable
    ensures KindsBuilt(IndexedOne(es, |ms|, m), ms + [m], AllDirs(ms) + MemberDirs(m))
  {
    var p := PathOf(m);
    var es1 := Pushed(es, Entry(p, IsDirMember(m), |ms|, m.size));
    PushedKeeps(es, Entry(p, IsDirMember(m), |ms|, m.size));
    PushedKinds(es, ms, m, AllDirs(ms));
    AncestorsArePrefixes(p, []);
    DirsKeep(es1, Above(p));
    KindsExtended(PushedDirs(es1, Above(p)), es1, Ancestors(p), ms + [m],
                  AllDirs(ms) + if IsDirMember(m) then {p} else {});
  }

  lemma {:induction false} IndexBuilt(ms: seq<Member>)
    ensures Built(Index(ms), ms)
  {
    if ms != [] {
      var init := ms[..|ms| - 1];
      IndexBuilt(init);
      IndexedOneBuilt(Index(init), init, ms[|ms| - 1]);
      assert init + [ms[|ms| - 1]] == ms;
    }
  }

  lemma AncestorsCovered(ms: seq<Member>, p: Path, a: Path)
    requires p in AllPaths(ms) && a in Ancestors(p)
    ensures a in AllPaths(ms) && a in AllDirs(ms)
  {
    var j :| 0 <= j < |ms| && p in MemberPaths(ms[j]);
    if p != PathOf(ms[j]) {
      AncestorTrans(a, p, PathOf(ms[j]));
    }
    assert a in MemberPaths(ms[j]) && a in MemberDirs(ms[j]);
  }

  /** Whatever the names: no path twice, and every ancestor of an indexed path is indexed. */
  lemma IndexClosed(ms: seq<Member>, p: Path)
    ensures NoDuplicates(Index(ms))
    ensures p in Paths(Index(ms)) ==> Ancestors(p) <= Paths(Index(ms))
  {
    IndexBuilt(ms);
    if p in Paths(Index(ms)) {
      forall a | a in Ancestors(p)
        ensures a in Paths(Index(ms))
      {
        AncestorsCovered(ms, p, a);
        AncestorsArePrefixes(p, a);
      }
    }
  }

  /** No file member stands where another member needs a directory. */
  predicate NoClash(ms: seq<Member>) {
    FilePaths(ms) !! AllDirs(ms)
  }

  /** Without a clash every entry's kind is what the members say. */
  lemma KindsRight(ms: seq<Member>, e: Entry)
    requires NoClash(ms) && e in Index(ms)
    ensures e.isDir <==> e.path in AllDirs(ms)
    ensures !e.isDir <==> e.path in FilePaths(ms)
  {
    IndexBuilt(ms);
    if !e.isDir {
      assert MemberAt(ms, e.fileIndex, e.path, false);
    }
  }

  // ---- what a member's name becomes ----

  /** A leading "./" does not matter, however often. */
  lemma DotSlashStripped(m: Member, name: string)
    requires m.name == ['.', '/'] + name
    ensures PathOf(m) == PathOf(m.(name := name)) && IsDirMember(m) == IsDirMember(m.(name := name))
  {
    assert m.name[2..] == name;
  }

  /** Else a name that fits the buffer is the path, without one closing slash, which makes it a directory. */
  lemma NamePath(m: Member)
    requires !(|m.name| >= 2 && m.name[..2] == ['.', '/'])
    ensures |m.name| < 1024 ==>
              (if |m.name| > 0 && m.name[|m.name| - 1] == '/' then PathOf(m) + ['/'] == m.name && IsDirMember(m)
               else PathOf(m) == m.name && IsDirMember(m) == m.flaggedDir)
    ensures |m.name| >= 1024 ==> PathOf(m) == PathOf(m.(name := m.name[..1023]))
                                 && IsDirMember(m) == IsDirMember(m.(name := m.name[..1023]))
  {
    if |m.name| >= 2 {
      assert m.name[..2] == [m.name[0], m.name[1]];
    }
    var cut := if |m.name| >= 1024 then m.name[..1023] else m.name;
    assert Unprefixed(m.name) == m.name;
    assert |cut| >= 2 ==> cut[0] == m.name[0] && cut[1] == m.name[1];
    assert Unprefixed(cut) == cut;
  }

  /** Of members with one path, or a directory above another's, the index keeps what it meets first, in its place. */
  lemma FirstMemberKept(ms: seq<Member>, m: Member)
    ensures Index(ms) <= Index(ms + [m])
  {
    assert (ms + [m])[..|ms|] == ms;
    IndexBuilt(ms);
    if m.readable {
      var es := Index(ms);
      var own := Entry(PathOf(m), IsDirMember(m), |ms|, m.size);
      PushedKeeps(es, own);
      AncestorsArePrefixes(PathOf(m), []);
      DirsKeep(Pushed(es, own), Above(PathOf(m)));
    }
  }
}
