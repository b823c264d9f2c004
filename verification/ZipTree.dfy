/** The tree the index stands for: what listings show, and what a walk of them reaches. */
module ZipTree {
  import opened Outcomes
  import opened ZipIndex

  /** One directory entry as the consumer sees it. */
  datatype Item = Item(name: string, isDir: bool)

  // ---- parents and children ----

  function Base(p: Path): string {
    p[LastSlash(p) + 1..]
  }

  function Parent(p: Path): Path {
    if LastSlash(p) < 0 then [] else p[..LastSlash(p)]
  }

  /** "." or "..". */
  predicate IsDots(name: string) {
    (|name| == 1 && name[0] == '.') || (|name| == 2 && name[0] == '.' && name[1] == '.')
  }

  /** A component that can name something: not empty, "." or "..". */
  predicate Ordinary(name: string) {
    |name| > 0 && !IsDots(name)
  }

  /** The last component is ordinary, and the path does not begin with its only slash. */
  predicate PlainPath(p: Path) {
    LastSlash(p) != 0 && Ordinary(Base(p))
  }

  /** Every component is ordinary. */
  predicate OrdinaryPath(p: Path) {
    PlainPath(p) && forall a :: a in Above(p) ==> PlainPath(a)
  }

  /** What stands before a child's name. */
  function Prefix(d: Path): string {
    if d == [] then [] else d + ['/']
  }

  predicate NoSlashFrom(p: Path, n: nat) {
    forall k :: n <= k < |p| ==> p[k] != '/'
  }

  /** The readdir loop's test: below `d`, and not deeper than one level. */
  predicate IsChild(p: Path, d: Path) {
    |Prefix(d)| <= |p| && p[..|Prefix(d)|] == Prefix(d) && NoSlashFrom(p, |Prefix(d)|)
  }

  lemma LastSlashIs(p: Path, i: int)
    requires -1 <= i < |p| && (i >= 0 ==> p[i] == '/')
    requires forall k :: i < k < |p| ==> p[k] != '/'
    ensures LastSlash(p) == i
  {
    if LastSlash(p) < i {
      NoSlashAfter(p, i);
    }
  }

  lemma ChildHasParent(p: Path, d: Path)
    requires IsChild(p, d)
    ensures d == Parent(p)
  {
    var n := |Prefix(d)|;
    if d != [] {
      assert p[n - 1] == Prefix(d)[n - 1];
      LastSlashIs(p, n - 1);
      assert p[..n - 1] == p[..n][..n - 1] == d;
    } else {
      LastSlashIs(p, -1);
    }
  }

  lemma ParentHasChild(p: Path)
    requires LastSlash(p) != 0
    ensures IsChild(p, Parent(p)) && |Prefix(Parent(p))| == LastSlash(p) + 1
  {
    var i := LastSlash(p);
    forall k | i + 1 <= k < |p|
      ensures p[k] != '/'
    {
      NoSlashAfter(p, k);
    }
    if i > 0 {
      assert p[..i + 1] == p[..i] + ['/'];
    }
  }

  /** The test holds exactly of the path's parent. */
  lemma ChildOfParentOnly(p: Path, d: Path)
    requires LastSlash(p) != 0
    ensures IsChild(p, d) <==> d == Parent(p)
    ensures d == Parent(p) ==> |Prefix(d)| == LastSlash(p) + 1
  {
    ParentHasChild(p);
    if IsChild(p, d) {
      ChildHasParent(p, d);
    }
  }

  // ---- listings ----

  predicate Listable(es: seq<Entry>, d: Path) {
    d == [] || exists e :: e in es && e.path == d && e.isDir
  }

  /** What the readdir loop emits after "." and "..": the children, by name and claimed kind. */
  function Emitted(es: seq<Entry>, d: Path): seq<Item> {
    if es == [] then []
    else
      var e := es[|es| - 1];
      Emitted(es[..|es| - 1], d) + if IsChild(e.path, d) then [Item(e.path[|Prefix(d)|..], e.isDir)] else []
  }

  /** The path the shim asks about for a child: a slash is put in unless one is there. */
  function ChildPath(d: Path, name: string): Path {
    if d == [] || d[|d| - 1] == '/' then d + name else d + ['/'] + name
  }

  /**
   * The shim's filler: "." and ".." go; a claimed file is believed, and any
   * other claim is settled by asking for the child's attributes.
   */
  function Collected(es: seq<Entry>, d: Path, raw: seq<Item>): seq<Item> {
    if raw == [] then []
    else
      var x := raw[|raw| - 1];
      Collected(es, d, raw[..|raw| - 1])
      + if IsDots(x.name) then []
        else [Item(x.name, x.isDir && Listable(es, ChildPath(d, x.name)))]
  }

  /** The reply to a listing of `d`. */
  function Listing(es: seq<Entry>, d: Path): seq<Item> {
    Collected(es, d, Emitted(es, d))
  }

  /** The entry behind a listed item of `d`. */
  predicate ChildEntry(e: Entry, d: Path, x: Item) {
    Parent(e.path) == d && Base(e.path) == x.name && e.isDir == x.isDir
  }

  function ItemOf(e: Entry, d: Path): Item
    requires IsChild(e.path, d)
  {
    Item(e.path[|Prefix(d)|..], e.isDir)
  }

  lemma {:induction false} EmittedExactly(es: seq<Entry>, d: Path, x: Item)
    ensures x in Emitted(es, d) <==> exists e :: e in es && IsChild(e.path, d) && x == ItemOf(e, d)
    decreases |es|
  {
    if es != [] {
      var init, e := es[..|es| - 1], es[|es| - 1];
      EmittedExactly(init, d, x);
      assert forall f :: f in es <==> f in init || f == e;
    }
  }

  lemma Rejoined(p: Path, d: Path)
    requires IsChild(p, d)
    ensures p == Prefix(d) + p[|Prefix(d)|..]
  {
  }

  /** The loop's test and name are the parent test and the last component. */
  lemma ItemOfChild(e: Entry, d: Path, x: Item)
    requires LastSlash(e.path) != 0
    ensures IsChild(e.path, d) && x == ItemOf(e, d) <==> ChildEntry(e, d, x)
  {
    ChildOfParentOnly(e.path, d);
  }

  predicate DistinctNames(items: seq<Item>) {
    forall i, j :: 0 <= i < j < |items| ==> items[i].name != items[j].name
  }

  lemma {:induction false} EmittedDistinct(es: seq<Entry>, d: Path)
    requires NoDuplicates(es)
    ensures DistinctNames(Emitted(es, d))
    ensures forall x :: x in Emitted(es, d) ==> exists e :: e in es && e.path == Prefix(d) + x.name
    decreases |es|
  {
    if es != [] {
      var init, e := es[..|es| - 1], es[|es| - 1];
      EmittedDistinct(init, d);
      if IsChild(e.path, d) {
        var name := e.path[|Prefix(d)|..];
        assert e.path == Prefix(d) + name;
        forall x | x in Emitted(init, d)
          ensures x.name != name
        {
          var f :| f in init && f.path == Prefix(d) + x.name;
          var i :| 0 <= i < |init| && init[i] == f;
          assert es[i].path != es[|es| - 1].path;
        }
      }
    }
  }

  /** With ordinary names nothing is filtered, and asking again changes no kind. */
  lemma {:induction false} CollectedKeeps(es: seq<Entry>, d: Path, raw: seq<Item>)
    requires forall x :: x in raw ==> Ordinary(x.name) && (x.isDir ==> Listable(es, ChildPath(d, x.name)))
    ensures Collected(es, d, raw) == raw
    decreases |raw|
  {
    if raw != [] {
      var x := raw[|raw| - 1];
      assert x in raw;
      CollectedKeeps(es, d, raw[..|raw| - 1]);
      assert raw == raw[..|raw| - 1] + [x];
    }
  }

  /** The archives the tree promises are about. */
  predicate WellNamed(ms: seq<Member>) {
    && NoClash(ms)
    && forall m :: m in ms && m.readable && PathOf(m) != [] ==> OrdinaryPath(PathOf(m))
  }

  lemma EntryPlain(ms: seq<Member>, e: Entry)
    requires WellNamed(ms) && e in Index(ms)
    ensures PlainPath(e.path)
  {
    IndexBuilt(ms);
    assert e.path in Paths(Index(ms));
    var j :| 0 <= j < |ms| && e.path in MemberPaths(ms[j]);
    var p := PathOf(ms[j]);
    assert ms[j] in ms;
    if e.path != p {
      assert e.path in Above(p);
      AboveNothing(p);
    }
  }

  lemma AboveNothing(p: Path)
    ensures Above(p) != [] ==> p != []
  {
  }

  lemma EntryChild(ms: seq<Member>, e: Entry, d: Path, x: Item)
    requires WellNamed(ms) && e in Index(ms)
    ensures IsChild(e.path, d) && x == ItemOf(e, d) <==> ChildEntry(e, d, x)
    ensures ChildEntry(e, d, x) ==> Ordinary(x.name) && e.path == Prefix(d) + x.name == ChildPath(d, x.name)
  {
    EntryPlain(ms, e);
    ItemOfChild(e, d, x);
    if IsChild(e.path, d) {
      Rejoined(e.path, d);
      ParentOpen(ms, e);
    }
  }

  /** A parent's path does not itself end in a slash. */
  lemma ParentOpen(ms: seq<Member>, e: Entry)
    requires WellNamed(ms) && e in Index(ms) && LastSlash(e.path) != 0
    ensures var d := Parent(e.path); d == [] || d[|d| - 1] != '/'
  {
    var d := Parent(e.path);
    if d != [] {
      assert d in Above(e.path);
      assert e.path in Paths(Index(ms));
      IndexClosed(ms, e.path);
      assert d in Ancestors(e.path) && d in Paths(Index(ms));
      var f :| f in Index(ms) && f.path == d;
      EntryPlain(ms, f);
      BaseAfterSlash(d);
    }
  }

  lemma BaseAfterSlash(p: Path)
    ensures |p| > 0 && p[|p| - 1] == '/' ==> |Base(p)| == 0
  {
  }

  /** The raw listing, before the shim's filter: the children by entry. */
  lemma EmittedChildren(ms: seq<Member>, d: Path, x: Item)
    requires WellNamed(ms)
    ensures x in Emitted(Index(ms), d) <==> exists e :: e in Index(ms) && ChildEntry(e, d, x)
    ensures x in Emitted(Index(ms), d) ==> Ordinary(x.name) && (x.isDir ==> Listable(Index(ms), ChildPath(d, x.name)))
  {
    var es := Index(ms);
    EmittedExactly(es, d, x);
    forall e | e in es
      ensures IsChild(e.path, d) && x == ItemOf(e, d) <==> ChildEntry(e, d, x)
      ensures ChildEntry(e, d, x) ==> Ordinary(x.name) && e.path == ChildPath(d, x.name)
    {
      EntryChild(ms, e, d, x);
    }
  }

  /**
   * A listing shows exactly the direct children of the directory, each once
   * and with its own kind.
   */
  lemma ListingExact(ms: seq<Member>, d: Path)
    requires WellNamed(ms)
    ensures DistinctNames(Listing(Index(ms), d))
    ensures forall x :: x in Listing(Index(ms), d) <==> exists e :: e in Index(ms) && ChildEntry(e, d, x)
  {
    var es := Index(ms);
    IndexBuilt(ms);
    EmittedDistinct(es, d);
    forall x
      ensures x in Emitted(es, d) <==> exists e :: e in es && ChildEntry(e, d, x)
      ensures x in Emitted(es, d) ==> Ordinary(x.name) && (x.isDir ==> Listable(es, ChildPath(d, x.name)))
    {
      EmittedChildren(ms, d, x);
    }
    CollectedKeeps(es, d, Emitted(es, d));
  }

  // ---- walking ----

  /** `p` is shown when `d` is listed. */
  ghost predicate Shown(es: seq<Entry>, d: Path, p: Path) {
    Listable(es, d) && exists x :: x in Listing(es, d) && p == Prefix(d) + x.name
  }

  /**
   * A walk along a relation: the first path is related to the root, each next
   * one to the one before.
   */
  ghost predicate IsWalk(shown: (Path, Path) -> bool, ws: seq<Path>) {
    && ws != []
    && forall i :: 0 <= i < |ws| ==> shown(Before(ws, i), ws[i])
  }

  function Before(ws: seq<Path>, i: nat): Path
    requires i < |ws|
  {
    if i == 0 then [] else ws[i - 1]
  }

  /** If every path hangs below a shorter one or the root, every path has a walk. */
  lemma {:induction false} WalkTo(shown: (Path, Path) -> bool, paths: set<Path>, up: Path -> Path, p: Path)
    returns (ws: seq<Path>)
    requires forall q :: q in paths ==> shown(up(q), q) && |up(q)| < |q| && (up(q) == [] || up(q) in paths)
    requires p in paths
    ensures IsWalk(shown, ws) && ws[|ws| - 1] == p
    decreases |p|
  {
    if up(p) == [] {
      ws := [p];
    } else {
      var init := WalkTo(shown, paths, up, up(p));
      ws := init + [p];
      assert forall i :: 0 <= i < |init| ==> Before(ws, i) == Before(init, i) && ws[i] == init[i];
      assert Before(ws, |init|) == up(p);
    }
  }

  lemma ShownIsIndexed(ms: seq<Member>, d: Path, p: Path)
    requires WellNamed(ms) && Shown(Index(ms), d, p)
    ensures p in Paths(Index(ms))
  {
    ListingExact(ms, d);
    var x :| x in Listing(Index(ms), d) && p == Prefix(d) + x.name;
    var e :| e in Index(ms) && ChildEntry(e, d, x);
    EntryChild(ms, e, d, x);
  }

  lemma ParentListable(ms: seq<Member>, p: Path)
    requires WellNamed(ms) && p in Paths(Index(ms)) && Parent(p) != [] && LastSlash(p) != 0
    ensures Parent(p) in Paths(Index(ms)) && Listable(Index(ms), Parent(p))
  {
    var a := Parent(p);
    assert a in Above(p);
    IndexBuilt(ms);
    IndexClosed(ms, p);
    AncestorsCovered(ms, p, a);
    var f :| f in Index(ms) && f.path == a;
    KindsRight(ms, f);
  }

  /** Every indexed path is shown by its parent, which is the root or indexed. */
  lemma ShownByParent(ms: seq<Member>, e: Entry)
    requires WellNamed(ms) && e in Index(ms)
    ensures Shown(Index(ms), Parent(e.path), e.path)
    ensures |Parent(e.path)| < |e.path| && (Parent(e.path) == [] || Parent(e.path) in Paths(Index(ms)))
  {
    var d := Parent(e.path);
    EntryPlain(ms, e);
    EntryChild(ms, e, d, Item(Base(e.path), e.isDir));
    if d != [] {
      ParentListable(ms, e.path);
    }
    var x := Item(Base(e.path), e.isDir);
    assert x in Listing(Index(ms), d) by {
      ListingExact(ms, d);
      assert ChildEntry(e, d, x);
    }
  }

  /** Walking the listings from the root reaches exactly the indexed paths. */
  lemma WalkReachesIndex(ms: seq<Member>, p: Path)
    requires WellNamed(ms)
    ensures (exists ws :: IsWalk((d, q) => Shown(Index(ms), d, q), ws) && ws[|ws| - 1] == p)
            <==> p in Paths(Index(ms))
  {
    var es := Index(ms);
    var shown := (d, q) => Shown(Index(ms), d, q);
    if p in Paths(es) {
      forall q | q in Paths(es)
        ensures shown(Parent(q), q) && |Parent(q)| < |q| && (Parent(q) == [] || Parent(q) in Paths(es))
      {
        var e :| e in es && e.path == q;
        ShownByParent(ms, e);
      }
      var ws := WalkTo(shown, Paths(es), Parent, p);
    }
    forall ws | IsWalk(shown, ws) && ws[|ws| - 1] == p
      ensures p in Paths(es)
    {
      assert shown(Before(ws, |ws| - 1), p);
      ShownIsIndexed(ms, Before(ws, |ws| - 1), p);
    }
  }
}
