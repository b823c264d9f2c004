/**
 * Pipes as file descriptors: two ends, each counted by its descriptors, over
 * one shared pipe counted by its ends. Memory is a map from addresses to
 * structs, so that freeing is visible; libc's descriptor table is its contract.
 */
module Pipes {
  import opened Outcomes

  type Handle = int // a component-model resource; 0 is none
  type Address = int

  datatype Shared = Shared(refs: int, pipe: Handle)

  datatype End = End(cnt: int, input: Handle, output: Handle, inputPollable: Handle, outputPollable: Handle,
                     shared: Address) {
    /** The handles in the order the destructor drops them. */
    function InOrder(): seq<Handle> {
      NonZero(inputPollable) + NonZero(outputPollable) + NonZero(input) + NonZero(output)
    }

    function Handles(): set<Handle> {
      set h | h in InOrder()
    }
  }

  function NonZero(h: Handle): seq<Handle> {
    if h != 0 then [h] else []
  }

  /** A descriptor is one of our pipe ends, or something else. */
  datatype Slot = Foreign | Pipe(end: Address)

  datatype Memory = Memory(table: map<int, Slot>, ends: map<Address, End>, shareds: map<Address, Shared>,
                           live: set<Handle>)

  function Slots(table: map<int, Slot>, a: Address): set<int> {
    set fd | fd in table && table[fd] == Pipe(a)
  }

  function Users(ends: map<Address, End>, s: Address): set<Address> {
    set a | a in ends && ends[a].shared == s
  }

  /** What one end, or one pipe, holds. */
  predicate HeldByEnd(m: Memory, h: Handle, a: Address) {
    a in m.ends && h in m.ends[a].Handles()
  }

  predicate HeldByPipe(m: Memory, h: Handle, s: Address) {
    s in m.shareds && m.shareds[s].pipe == h
  }

  ghost predicate Held(m: Memory, h: Handle) {
    (exists a :: HeldByEnd(m, h, a)) || (exists s :: HeldByPipe(m, h, s))
  }

  ghost predicate CountsOk(m: Memory) {
    && (forall fd :: fd in m.table && m.table[fd].Pipe? ==> m.table[fd].end in m.ends)
    // an end's count is the number of its descriptors
    && (forall a :: a in m.ends ==> m.ends[a].cnt == |Slots(m.table, a)| > 0)
    && (forall a :: a in m.ends ==> m.ends[a].shared in m.shareds)
    // a pipe's count is the number of its live ends
    && (forall s :: s in m.shareds ==> m.shareds[s].refs == |Users(m.ends, s)| > 0)
  }

  /** Every live handle has exactly one holder, and every held handle is live. */
  ghost predicate HandlesOk(m: Memory) {
    && (forall h, a :: HeldByEnd(m, h, a) ==> h in m.live)
    && (forall h, s :: HeldByPipe(m, h, s) ==> h in m.live)
    && (forall h :: h in m.live ==> Held(m, h))
    && (forall h, a, b :: HeldByEnd(m, h, a) && HeldByEnd(m, h, b) ==> a == b)
    && (forall h, s, t :: HeldByPipe(m, h, s) && HeldByPipe(m, h, t) ==> s == t)
    && (forall h, a, s :: HeldByEnd(m, h, a) ==> !HeldByPipe(m, h, s))
    && (forall a :: a in m.ends ==> Distinct(m.ends[a].InOrder()))
  }

  predicate Distinct(s: seq<Handle>) {
    forall i, j :: 0 <= i < j < |s| ==> s[i] != s[j]
  }

  /** No handle twice, and all of them live. */
  ghost predicate Droppable(ds: seq<Handle>, live: set<Handle>) {
    Distinct(ds) && forall h :: h in ds ==> h in live
  }

  lemma DistinctSnoc(s: seq<Handle>, h: Handle)
    requires Distinct(s) && h !in s
    ensures Distinct(s + [h])
  {
  }

  // ---- what the destructor does ----

  function WithoutUser(m: Memory, s: Address): map<Address, Shared>
    requires s in m.shareds
  {
    var x := m.shareds[s];
    if x.refs == 1 then m.shareds - {s} else m.shareds[s := x.(refs := x.refs - 1)]
  }

  /** What freeing end `a` drops, in order: its own handles, then the pipe if it was the last end. */
  function Dropped(m: Memory, a: Address): seq<Handle>
    requires a in m.ends && m.ends[a].shared in m.shareds
  {
    var x := m.shareds[m.ends[a].shared];
    m.ends[a].InOrder() + if x.refs == 1 then [x.pipe] else []
  }

  function Freed(m: Memory, a: Address): Memory
    requires a in m.ends && m.ends[a].shared in m.shareds
  {
    Memory(m.table, m.ends - {a}, WithoutUser(m, m.ends[a].shared),
           m.live - (set h | h in Dropped(m, a)))
  }

  // ---- set sizes ----

  lemma SlotsAdd(table: map<int, Slot>, fd: int, a: Address, b: Address)
    requires fd !in table
    ensures Slots(table[fd := Pipe(a)], b) == Slots(table, b) + if a == b then {fd} else {}
    ensures fd !in Slots(table, b)
  {
  }

  lemma SlotsRemove(table: map<int, Slot>, fd: int, b: Address)
    requires fd in table
    ensures Slots(table - {fd}, b) == Slots(table, b) - {fd}
    ensures fd in Slots(table, b) <==> table[fd] == Pipe(b)
  {
  }

  lemma UsersRemove(ends: map<Address, End>, a: Address, s: Address)
    requires a in ends
    ensures Users(ends - {a}, s) == Users(ends, s) - {a}
    ensures a in Users(ends, s) <==> ends[a].shared == s
  {
  }

  // ---- the steps keep both invariants ----

  /** Closing a descriptor that is not its end's last. */
  function Unslotted(m: Memory, fd: int): Memory
    requires fd in m.table && m.table[fd].Pipe? && m.table[fd].end in m.ends
  {
    var a := m.table[fd].end;
    m.(table := m.table - {fd}, ends := m.ends[a := m.ends[a].(cnt := m.ends[a].cnt - 1)])
  }

  /** Closing any descriptor. */
  function Closed(m: Memory, fd: int): Memory
    requires CountsOk(m) && fd in m.table
  {
    if m.table[fd].Foreign? then m.(table := m.table - {fd})
    else if m.ends[m.table[fd].end].cnt == 1 then Freed(Unslotted(m, fd), m.table[fd].end)
    else Unslotted(m, fd)
  }

  lemma UsersOfRecounted(ends: map<Address, End>, a: Address, cnt: int, s: Address)
    requires a in ends
    ensures Users(ends[a := ends[a].(cnt := cnt)], s) == Users(ends, s)
  {
  }

  lemma ForeignCloseKeepsCounts(m: Memory, fd: int)
    requires CountsOk(m) && fd in m.table && m.table[fd].Foreign?
    ensures CountsOk(Closed(m, fd))
  {
    forall b | b in m.ends
      ensures Slots(m.table - {fd}, b) == Slots(m.table, b)
    {
      SlotsRemove(m.table, fd, b);
    }
  }

  lemma UnslotKeepsCounts(m: Memory, fd: int)
    requires CountsOk(m) && fd in m.table && m.table[fd].Pipe? && m.ends[m.table[fd].end].cnt > 1
    ensures CountsOk(Unslotted(m, fd))
  {
    var v, a := Unslotted(m, fd), m.table[fd].end;
    forall b | b in v.ends
      ensures v.ends[b].cnt == |Slots(v.table, b)| > 0
    {
      SlotsRemove(m.table, fd, b);
    }
    forall s | s in v.shareds
      ensures v.shareds[s].refs == |Users(v.ends, s)| > 0
    {
      UsersOfRecounted(m.ends, a, m.ends[a].cnt - 1, s);
    }
  }

  /** If an end has one descriptor, closing it leaves no descriptor behind. */
  lemma LastSlot(m: Memory, fd: int)
    requires CountsOk(m) && fd in m.table && m.table[fd].Pipe? && m.ends[m.table[fd].end].cnt == 1
    ensures Slots(m.table - {fd}, m.table[fd].end) == {}
  {
    var a := m.table[fd].end;
    SlotsRemove(m.table, fd, a);
    assert |Slots(m.table, a) - {fd}| == 0;
  }

  lemma LastCloseKeepsCounts(m: Memory, fd: int)
    requires CountsOk(m) && fd in m.table && m.table[fd].Pipe? && m.ends[m.table[fd].end].cnt == 1
    ensures CountsOk(Closed(m, fd))
  {
    var v, a := Closed(m, fd), m.table[fd].end;
    var s := m.ends[a].shared;
    assert v.table == m.table - {fd} && v.ends == m.ends - {a} && v.shareds == WithoutUser(m, s);
    LastSlot(m, fd);
    forall f | f in v.table && v.table[f].Pipe?
      ensures v.table[f].end in v.ends
    {
      assert f !in Slots(v.table, a);
    }
    forall b | b in v.ends
      ensures v.ends[b].cnt == |Slots(v.table, b)| > 0
    {
      SlotsRemove(m.table, fd, b);
    }
    forall t | t in v.shareds
      ensures v.shareds[t].refs == |Users(v.ends, t)| > 0
    {
      UsersRemove(m.ends, a, t);
    }
    forall b | b in v.ends
      ensures v.ends[b].shared in v.shareds
    {
      if m.ends[b].shared == s {
        SubsetSize({a, b}, Users(m.ends, s));
      }
    }
  }

  /** The end is gone with its handles; the pipe goes with its last end. */
  lemma FreedKeepsHandles(m: Memory, a: Address)
    requires HandlesOk(m) && a in m.ends && m.ends[a].shared in m.shareds
    requires forall s :: s in m.shareds ==> m.shareds[s].refs > 0
    ensures HandlesOk(Freed(m, a))
    ensures Droppable(Dropped(m, a), m.live)
  {
    var v := Freed(m, a);
    var s := m.ends[a].shared;
    var pipe := m.shareds[s].pipe;
    assert HeldByPipe(m, pipe, s);
    forall h | h in m.ends[a].InOrder()
      ensures HeldByEnd(m, h, a) && h != pipe
    {
      assert HeldByEnd(m, h, a);
    }
    DistinctSnoc(m.ends[a].InOrder(), pipe);
    forall h, b | HeldByEnd(v, h, b)
      ensures HeldByEnd(m, h, b) && h in v.live
    {
      assert HeldByEnd(m, h, b);
    }
    forall h, t | HeldByPipe(v, h, t)
      ensures HeldByPipe(m, h, t) && h in v.live
    {
      assert HeldByPipe(m, h, t);
    }
    forall h | h in v.live
      ensures Held(v, h)
    {
      if b :| HeldByEnd(m, h, b) {
        assert HeldByEnd(v, h, b);
      } else {
        var t :| HeldByPipe(m, h, t);
        assert HeldByPipe(v, h, t);
      }
    }
  }

  lemma RecountKeepsHandles(m: Memory, table: map<int, Slot>, a: Address, cnt: int)
    requires HandlesOk(m) && a in m.ends
    ensures HandlesOk(m.(table := table, ends := m.ends[a := m.ends[a].(cnt := cnt)]))
  {
    var v := m.(table := table, ends := m.ends[a := m.ends[a].(cnt := cnt)]);
    assert forall h, b :: HeldByEnd(v, h, b) <==> HeldByEnd(m, h, b);
    assert forall h, s :: HeldByPipe(v, h, s) <==> HeldByPipe(m, h, s);
  }

  /** Every close keeps the counts right and every handle held exactly once. */
  lemma CloseKeeps(m: Memory, fd: int)
    requires CountsOk(m) && HandlesOk(m) && fd in m.table
    ensures CountsOk(Closed(m, fd)) && HandlesOk(Closed(m, fd))
  {
    if m.table[fd].Foreign? {
      ForeignCloseKeepsCounts(m, fd);
      var v := Closed(m, fd);
      assert forall h, b :: HeldByEnd(v, h, b) <==> HeldByEnd(m, h, b);
      assert forall h, s :: HeldByPipe(v, h, s) <==> HeldByPipe(m, h, s);
    } else {
      var a := m.table[fd].end;
      RecountKeepsHandles(m, m.table - {fd}, a, m.ends[a].cnt - 1);
      if m.ends[a].cnt == 1 {
        LastCloseKeepsCounts(m, fd);
        FreedKeepsHandles(Unslotted(m, fd), a);
      } else {
        UnslotKeepsCounts(m, fd);
      }
    }
  }

  /** What the last close of an end drops, seen from just before the destructor. */
  lemma LastCloseDrops(m: Memory, v: Memory, fd: int)
    requires CountsOk(m) && HandlesOk(m) && fd in m.table && m.table[fd].Pipe?
    requires m.ends[m.table[fd].end].cnt == 1 && v == Unslotted(m, fd)
    ensures var a := m.table[fd].end;
            && v.ends[a].shared in v.shareds
            && Dropped(v, a) == Dropped(m, a) && Droppable(Dropped(v, a), v.live)
            && Freed(v, a) == Closed(m, fd)
  {
    var a := m.table[fd].end;
    RecountKeepsHandles(m, v.table, a, 0);
    FreedKeepsHandles(v, a);
  }

  /** dup: one more descriptor for the same entry. */
  function Duped(m: Memory, fd: int, slot: int): Memory
    requires CountsOk(m) && fd in m.table
  {
    var x := m.table[fd];
    if x.Foreign? then m.(table := m.table[slot := x])
    else m.(table := m.table[slot := x], ends := m.ends[x.end := m.ends[x.end].(cnt := m.ends[x.end].cnt + 1)])
  }

  lemma DupKeeps(m: Memory, fd: int, slot: int)
    requires CountsOk(m) && HandlesOk(m) && fd in m.table && slot !in m.table
    ensures CountsOk(Duped(m, fd, slot)) && HandlesOk(Duped(m, fd, slot))
  {
    var v := Duped(m, fd, slot);
    var x := m.table[fd];
    if x.Pipe? {
      RecountKeepsHandles(m, m.table[slot := x], x.end, m.ends[x.end].cnt + 1);
      forall b | b in v.ends
        ensures v.ends[b].cnt == |Slots(v.table, b)| > 0
      {
        SlotsAdd(m.table, slot, x.end, b);
      }
      forall s | s in v.shareds
        ensures v.shareds[s].refs == |Users(v.ends, s)| > 0
      {
        UsersOfRecounted(m.ends, x.end, m.ends[x.end].cnt + 1, s);
      }
    } else {
      ForeignOpenKeeps(m, slot);
    }
  }

  lemma ForeignOpenKeeps(m: Memory, slot: int)
    requires CountsOk(m) && HandlesOk(m) && slot !in m.table
    ensures CountsOk(m.(table := m.table[slot := Foreign])) && HandlesOk(m.(table := m.table[slot := Foreign]))
  {
    var v := m.(table := m.table[slot := Foreign]);
    assert forall b :: Slots(v.table, b) == Slots(m.table, b);
    assert forall h, b :: HeldByEnd(v, h, b) <==> HeldByEnd(m, h, b);
    assert forall h, s :: HeldByPipe(v, h, s) <==> HeldByPipe(m, h, s);
  }

  // ---- making a pipe ----

  /** Both ends in place. */
  function Piped(m: Memory, p: Handle, input: Handle, output: Handle,
                 s: Address, r: Address, w: Address, rfd: int, wfd: int): Memory {
    Memory(m.table[rfd := Pipe(r)][wfd := Pipe(w)],
           m.ends[r := End(1, input, 0, 0, 0, s)][w := End(1, 0, output, 0, 0, s)],
           m.shareds[s := Shared(2, p)],
           m.live + {p, input, output})
  }

  ghost predicate Fresh(m: Memory, p: Handle, input: Handle, output: Handle,
                        s: Address, r: Address, w: Address, rfd: int, wfd: int) {
    && p !in m.live && input !in m.live && output !in m.live
    && 0 !in {p, input, output} && p != input && p != output && input != output
    && s !in m.shareds && r !in m.ends && w !in m.ends && r != w
    && rfd !in m.table && wfd !in m.table && rfd != wfd
  }

  /** No slot points to an end, and no end to a pipe, that is not there. */
  lemma NoDangling(m: Memory, a: Address, s: Address)
    requires CountsOk(m)
    ensures a !in m.ends ==> Slots(m.table, a) == {}
    ensures s !in m.shareds ==> Users(m.ends, s) == {}
  {
    if a !in m.ends {
      assert forall fd :: fd in m.table ==> m.table[fd] != Pipe(a);
      assert forall fd :: fd !in Slots(m.table, a);
    }
    if s !in m.shareds {
      assert forall b :: b in m.ends ==> m.ends[b].shared != s;
      assert forall b :: b !in Users(m.ends, s);
    }
  }

  lemma UsersAdd(ends: map<Address, End>, a: Address, e: End, s: Address)
    requires a !in ends
    ensures Users(ends[a := e], s) == Users(ends, s) + if e.shared == s then {a} else {}
    ensures a !in Users(ends, s)
  {
  }

  lemma PipeKeepsCounts(m: Memory, p: Handle, input: Handle, output: Handle,
                        s: Address, r: Address, w: Address, rfd: int, wfd: int)
    requires CountsOk(m) && Fresh(m, p, input, output, s, r, w, rfd, wfd)
    ensures CountsOk(Piped(m, p, input, output, s, r, w, rfd, wfd))
  {
    var v := Piped(m, p, input, output, s, r, w, rfd, wfd);
    forall b | b in v.ends
      ensures v.ends[b].cnt == |Slots(v.table, b)| > 0
    {
      NoDangling(m, b, s);
      SlotsAdd(m.table, rfd, r, b);
      SlotsAdd(m.table[rfd := Pipe(r)], wfd, w, b);
    }
    PipeUsers(m, p, input, output, s, r, w, rfd, wfd);
  }

  lemma PipeUsers(m: Memory, p: Handle, input: Handle, output: Handle,
                  s: Address, r: Address, w: Address, rfd: int, wfd: int)
    requires CountsOk(m) && Fresh(m, p, input, output, s, r, w, rfd, wfd)
    ensures var v := Piped(m, p, input, output, s, r, w, rfd, wfd);
            forall t :: t in v.shareds ==> v.shareds[t].refs == |Users(v.ends, t)| > 0
  {
    var v := Piped(m, p, input, output, s, r, w, rfd, wfd);
    var er, ew := End(1, input, 0, 0, 0, s), End(1, 0, output, 0, 0, s);
    forall t | t in v.shareds
      ensures v.shareds[t].refs == |Users(v.ends, t)| > 0
    {
      NoDangling(m, r, t);
      UsersAdd(m.ends, r, er, t);
      UsersAdd(m.ends[r := er], w, ew, t);
    }
  }

  /** Who holds what, once `h` is held by `a`, `h'` by `b` and `p` by pipe `s` as well. */
  ghost predicate HoldersAdded(m: Memory, v: Memory, h: Handle, a: Address, h': Handle, b: Address, p: Handle, s: Address) {
    && (forall x, c :: HeldByEnd(v, x, c) <==> HeldByEnd(m, x, c) || (x == h && c == a) || (x == h' && c == b))
    && (forall x, t :: HeldByPipe(v, x, t) <==> HeldByPipe(m, x, t) || (x == p && t == s))
    && v.live == m.live + {p, h, h'}
  }

  lemma PipeHolders(m: Memory, p: Handle, input: Handle, output: Handle,
                    s: Address, r: Address, w: Address, rfd: int, wfd: int)
    requires Fresh(m, p, input, output, s, r, w, rfd, wfd)
    ensures HoldersAdded(m, Piped(m, p, input, output, s, r, w, rfd, wfd), input, r, output, w, p, s)
  {
    var v := Piped(m, p, input, output, s, r, w, rfd, wfd);
    assert v.ends[r].InOrder() == [input] && v.ends[w].InOrder() == [output];
  }

  lemma AddedHeld(m: Memory, v: Memory, h: Handle, a: Address, h': Handle, b: Address, p: Handle, s: Address)
    requires HandlesOk(m) && HoldersAdded(m, v, h, a, h', b, p, s)
    ensures forall x :: x in v.live ==> Held(v, x)
  {
    assert HeldByEnd(v, h, a) && HeldByEnd(v, h', b) && HeldByPipe(v, p, s);
    forall x | x in m.live
      ensures Held(v, x)
    {
      StillHeld(m, v, x);
    }
  }

  lemma StillHeld(m: Memory, v: Memory, x: Handle)
    requires Held(m, x)
    requires forall c :: HeldByEnd(m, x, c) ==> HeldByEnd(v, x, c)
    requires forall t :: HeldByPipe(m, x, t) ==> HeldByPipe(v, x, t)
    ensures Held(v, x)
  {
    if c :| HeldByEnd(m, x, c) {
      assert HeldByEnd(v, x, c);
    } else {
      var t :| HeldByPipe(m, x, t);
      assert HeldByPipe(v, x, t);
    }
  }

  lemma AddedOnce(m: Memory, v: Memory, h: Handle, a: Address, h': Handle, b: Address, p: Handle, s: Address)
    requires HandlesOk(m) && HoldersAdded(m, v, h, a, h', b, p, s)
    requires h !in m.live && h' !in m.live && p !in m.live && h != h' && p != h && p != h'
    requires forall c :: c in v.ends ==> Distinct(v.ends[c].InOrder())
    ensures HandlesOk(v)
  {
    AddedHeld(m, v, h, a, h', b, p, s);
  }

  lemma PipeKeepsHandles(m: Memory, p: Handle, input: Handle, output: Handle,
                         s: Address, r: Address, w: Address, rfd: int, wfd: int)
    requires HandlesOk(m) && Fresh(m, p, input, output, s, r, w, rfd, wfd)
    ensures HandlesOk(Piped(m, p, input, output, s, r, w, rfd, wfd))
  {
    var v := Piped(m, p, input, output, s, r, w, rfd, wfd);
    PipeHolders(m, p, input, output, s, r, w, rfd, wfd);
    assert v.ends[r].InOrder() == [input] && v.ends[w].InOrder() == [output];
    AddedOnce(m, v, input, r, output, w, p, s);
  }

  lemma SubsetSize<T>(x: set<T>, y: set<T>)
    requires x <= y
    ensures |x| <= |y|
  {
    assert y == x + (y - x);
  }

  /** Two free descriptors, if there are two, and handles and addresses from `p` and `s` on, are new to `m`. */
  ghost predicate FreshIf(m: Memory, p: Handle, s: Address, rfd: Option<int>, wfd: Option<int>) {
    rfd.Some? && wfd.Some? ==> Fresh(m, p, p + 1, p + 2, s, s + 1, s + 2, rfd.value, wfd.value)
  }

  /** What pipe() leaves behind: both ends, or nothing. */
  function Made(m: Memory, p: Handle, s: Address, rfd: Option<int>, wfd: Option<int>): Memory {
    if rfd.Some? && wfd.Some? then Piped(m, p, p + 1, p + 2, s, s + 1, s + 2, rfd.value, wfd.value) else m
  }

  lemma MadeKeeps(m: Memory, v: Memory, p: Handle, s: Address, rfd: Option<int>, wfd: Option<int>)
    requires CountsOk(m) && HandlesOk(m) && FreshIf(m, p, s, rfd, wfd)
    requires v == Made(m, p, s, rfd, wfd)
    ensures CountsOk(v) && HandlesOk(v)
  {
    if rfd.Some? && wfd.Some? {
      PipeKeepsCounts(m, p, p + 1, p + 2, s, s + 1, s + 2, rfd.value, wfd.value);
      PipeKeepsHandles(m, p, p + 1, p + 2, s, s + 1, s + 2, rfd.value, wfd.value);
    }
  }

  /** libc caches a pollable of one of the end's streams. */
  function Polled(m: Memory, a: Address, h: Handle, forInput: bool): Memory
    requires a in m.ends
  {
    var e := m.ends[a];
    m.(ends := m.ends[a := if forInput then e.(inputPollable := h) else e.(outputPollable := h)], live := m.live + {h})
  }

  predicate Pollable(e: End, forInput: bool) {
    if forInput then e.input != 0 && e.inputPollable == 0 else e.output != 0 && e.outputPollable == 0
  }

  lemma PollKeeps(m: Memory, v: Memory, a: Address, h: Handle, forInput: bool)
    requires CountsOk(m) && HandlesOk(m) && a in m.ends && Pollable(m.ends[a], forInput)
    requires h != 0 && h !in m.live && v == Polled(m, a, h, forInput)
    ensures CountsOk(v) && HandlesOk(v)
  {
    PollKeepsHandles(m, a, h, forInput);
    assert forall s :: Users(v.ends, s) == Users(m.ends, s);
  }

  /** One more handle, for an end that is there. */
  lemma AddedOne(m: Memory, v: Memory, h: Handle, a: Address)
    requires HandlesOk(m) && h !in m.live && v.live == m.live + {h}
    requires forall x, b :: HeldByEnd(v, x, b) <==> HeldByEnd(m, x, b) || (x == h && b == a)
    requires forall x, s :: HeldByPipe(v, x, s) <==> HeldByPipe(m, x, s)
    requires forall b :: b in v.ends ==> Distinct(v.ends[b].InOrder())
    ensures HandlesOk(v)
  {
    assert HeldByEnd(v, h, a);
    forall x | x in m.live
      ensures Held(v, x)
    {
      StillHeld(m, v, x);
    }
  }

  /** The end's handles with the pollable among them. */
  lemma PolledHandles(e: End, h: Handle, forInput: bool)
    requires Pollable(e, forInput) && Distinct(e.InOrder()) && h !in e.InOrder() && h != 0
    ensures var f := if forInput then e.(inputPollable := h) else e.(outputPollable := h);
            Distinct(f.InOrder()) && forall x :: x in f.InOrder() <==> x == h || x in e.InOrder()
  {
    var f := if forInput then e.(inputPollable := h) else e.(outputPollable := h);
    var in_, out, streams := NonZero(e.inputPollable), NonZero(e.outputPollable), NonZero(e.input) + NonZero(e.output);
    assert e.InOrder() == in_ + out + streams;
    if forInput {
      assert e.InOrder() == [] + (out + streams) && f.InOrder() == [] + [h] + (out + streams);
      DistinctInsert([], h, out + streams);
    } else {
      assert e.InOrder() == in_ + streams && f.InOrder() == in_ + [h] + streams;
      DistinctInsert(in_, h, streams);
    }
  }

  lemma PollKeepsHandles(m: Memory, a: Address, h: Handle, forInput: bool)
    requires HandlesOk(m) && a in m.ends && Pollable(m.ends[a], forInput)
    requires h != 0 && h !in m.live
    ensures HandlesOk(Polled(m, a, h, forInput))
  {
    var v := Polled(m, a, h, forInput);
    assert !HeldByEnd(m, h, a);
    PolledHandles(m.ends[a], h, forInput);
    assert forall x, b :: HeldByEnd(v, x, b) <==> HeldByEnd(m, x, b) || (x == h && b == a);
    assert forall x, s :: HeldByPipe(v, x, s) <==> HeldByPipe(m, x, s);
    AddedOne(m, v, h, a);
  }

  lemma DistinctInsert(head: seq<Handle>, h: Handle, tail: seq<Handle>)
    requires Distinct(head + tail) && h !in head + tail
    ensures Distinct(head + [h] + tail)
  {
    var s, t := head + tail, head + [h] + tail;
    forall i, j | 0 <= i < j < |t|
      ensures t[i] != t[j]
    {
      var i', j' := if i > |head| then i - 1 else i, if j > |head| then j - 1 else j;
      assert i != |head| ==> t[i] == s[i'];
      assert j != |head| ==> t[j] == s[j'];
    }
  }

  // ---- the drop log ----

  /** Every handle ever issued is live or was dropped, once; nothing else was. */
  ghost predicate Accounted(drops: seq<Handle>, live: set<Handle>, next: Handle) {
    && Distinct(drops)
    && (forall h :: h in drops || h in live ==> 0 < h < next)
    && (forall h :: 0 < h < next ==> (h in drops <==> h !in live))
  }

  lemma DropsAccounted(drops: seq<Handle>, live: set<Handle>, next: Handle, ds: seq<Handle>)
    requires Accounted(drops, live, next)
    requires Droppable(ds, live)
    ensures Accounted(drops + ds, live - (set h | h in ds), next)
  {
    var all := drops + ds;
    forall i, j | 0 <= i < j < |all|
      ensures all[i] != all[j]
    {
      if i < |drops| <= j {
        assert all[i] in drops && all[j] in ds;
      }
    }
  }

  lemma IssuedAccounted(drops: seq<Handle>, live: set<Handle>, next: Handle)
    requires Accounted(drops, live, next) && next > 0
    ensures Accounted(drops, live + {next, next + 1, next + 2}, next + 3)
    ensures next !in live && next + 1 !in live && next + 2 !in live
  {
  }

  lemma IssuedOne(drops: seq<Handle>, live: set<Handle>, next: Handle)
    requires Accounted(drops, live, next) && next > 0
    ensures Accounted(drops, live + {next}, next + 1) && next !in live
  {
  }

  /** Three new handles, all dropped again, in either order. */
  lemma FailureAccounted(drops: seq<Handle>, live: set<Handle>, next: Handle, ds: seq<Handle>)
    requires Accounted(drops, live, next) && next > 0
    requires ds == [next + 1, next, next + 2] || ds == [next + 2, next + 1, next]
    ensures Accounted(drops + ds, live, next + 3)
  {
    IssuedAccounted(drops, live, next);
    var all := live + {next, next + 1, next + 2};
    DropsAccounted(drops, all, next + 3, ds);
    assert all - (set h | h in ds) == live;
  }

  lemma BackToLive(live: set<Handle>, p: Handle, input: Handle, output: Handle)
    requires p !in live && input !in live && output !in live
    ensures live + {p, input, output} - {p, input, output} == live
  {
  }

  lemma UpdateTwice<K, V>(m: map<K, V>, k: K, v: V, v': V)
    ensures m[k := v][k := v'] == m[k := v']
  {
  }

  lemma UndoAdd<K, V>(m: map<K, V>, k: K, v: V)
    requires k !in m
    ensures m[k := v] - {k} == m
  {
  }

  datatype Op =
    | OpPipe(readSlot: Option<int>, writeSlot: Option<int>)
    | OpDup(fd: int, slot: Option<int>)
    | OpClose(fd: int)
    | OpWkPipe(fd: int)
    | OpPoll(fd: int, forInput: bool)
    | OpForeign(at: int)

  /** A descriptor libc might pick: it must be free. */
  function IfFree(slot: Option<int>, table: map<int, Slot>): Option<int> {
    if slot.Some? && slot.value in table then None else slot
  }

  /** A guest: its memory, its descriptor table, and what it has dropped. */
  class Guest {
    var table: map<int, Slot>
    var ends: map<Address, End>
    var shareds: map<Address, Shared>
    var live: set<Handle>
    var drops: seq<Handle>
    var nextHandle: Handle
    var nextAddress: Address

    constructor ()
      ensures Valid() && State() == Memory(map[], map[], map[], {}) && drops == []
    {
      table, ends, shareds, live, drops, nextHandle, nextAddress := map[], map[], map[], {}, [], 1, 0;
    }

    function State(): Memory
      reads this
    {
      Memory(table, ends, shareds, live)
    }

    /** Handed-out addresses and handles are never reused, and stay below their counters. */
    ghost predicate Bounded()
      reads this
    {
      && Accounted(drops, live, nextHandle) && nextHandle > 0
      && (forall a :: a in ends || a in shareds ==> a < nextAddress)
    }

    ghost predicate Valid()
      reads this
    {
      CountsOk(State()) && HandlesOk(State()) && Bounded()
    }

    /** The host hands out a resource. */
    method Issue() returns (h: Handle)
      modifies this`live, this`nextHandle
      ensures h == old(nextHandle) && nextHandle == h + 1 && live == old(live) + {h}
    {
      h := nextHandle;
      nextHandle := nextHandle + 1;
      live := live + {h};
    }

    /** Dropping a handle that is not live traps; no caller here may. */
    method Drop(h: Handle)
      requires h in live
      modifies this`live, this`drops
      ensures live == old(live) - {h} && drops == old(drops) + [h]
    {
      live := live - {h};
      drops := drops + [h];
    }

    /** Dropping one optional handle leaves the others still to be dropped live. */
    method DropIfSet(h: Handle, ghost others: seq<Handle>)
      requires Droppable(NonZero(h) + others, live)
      modifies this`live, this`drops
      ensures Droppable(others, live)
      ensures live == old(live) - (set x | x in NonZero(h)) && drops == old(drops) + NonZero(h)
    {
      assert forall x :: x in others ==> x in NonZero(h) + others;
      if h != 0 {
        assert (NonZero(h) + others)[0] == h;
        assert (NonZero(h) + others)[1..] == others;
        Drop(h);
      } else {
        assert NonZero(h) + others == others;
      }
    }

    /** The destructor: the handles in order, then the pipe if no other end is left, then the memory. */
    method PipeEndFree(a: Address)
      requires a in ends && ends[a].shared in shareds
      requires Droppable(Dropped(State(), a), live)
      modifies this`ends, this`shareds, this`live, this`drops
      ensures State() == Freed(old(State()), a)
      ensures drops == old(drops) + Dropped(old(State()), a)
    {
      var e := ends[a];
      var x := shareds[e.shared];
      ghost var last := if x.refs == 1 then [x.pipe] else [];
      ghost var t3 := NonZero(e.output) + last;
      ghost var t2 := NonZero(e.input) + t3;
      ghost var t1 := NonZero(e.outputPollable) + t2;
      assert Dropped(State(), a) == NonZero(e.inputPollable) + t1;
      DropIfSet(e.inputPollable, t1);
      DropIfSet(e.outputPollable, t2);
      DropIfSet(e.input, t3);
      DropIfSet(e.output, last);
      FreeShared(e.shared);
      ends := ends - {a};
    }

    /** One user less; the last one drops the pipe and frees the struct. */
    method FreeShared(s: Address)
      requires s in shareds && (shareds[s].refs == 1 ==> shareds[s].pipe in live)
      modifies this`shareds, this`live, this`drops
      ensures shareds == WithoutUser(old(State()), s)
      ensures var gone := if old(shareds)[s].refs == 1 then [old(shareds)[s].pipe] else [];
              live == old(live) - (set x | x in gone) && drops == old(drops) + gone
    {
      var x := shareds[s];
      shareds := shareds[s := x.(refs := x.refs - 1)];
      if x.refs == 1 {
        Drop(x.pipe);
        shareds := shareds - {s};
      }
    }

    /** close: the descriptor goes; the last one takes its end along. */
    method Close(fd: int) returns (ok: bool)
      requires Valid()
      modifies this
      ensures Valid() && ok == (fd in old(table))
      ensures State() == if ok then Closed(old(State()), fd) else old(State())
      ensures drops == old(drops)
                       + if ok && old(table)[fd].Pipe? && old(ends)[old(table)[fd].end].cnt == 1
                         then Dropped(old(State()), old(table)[fd].end) else []
    {
      if fd !in table {
        return false;
      }
      ok := true;
      ghost var m := State();
      CloseKeeps(m, fd);
      if table[fd].Foreign? {
        table := table - {fd};
        return;
      }
      var a := TakeSlot(fd);
      if ends[a].cnt == 0 {
        LastCloseDrops(m, State(), fd);
        DropsAccounted(drops, live, nextHandle, Dropped(State(), a));
        PipeEndFree(a);
      }
    }

    /** The descriptor leaves the table, and its end counts one less. */
    method TakeSlot(fd: int) returns (a: Address)
      requires fd in table && table[fd].Pipe? && table[fd].end in ends
      modifies this`table, this`ends
      ensures a == old(table)[fd].end && State() == Unslotted(old(State()), fd)
    {
      a := table[fd].end;
      table := table - {fd};
      ends := ends[a := ends[a].(cnt := ends[a].cnt - 1)];
    }

    /** dup; `slot` is the descriptor libc finds free, if any. */
    method Dup(fd: int, slot: Option<int>) returns (ok: bool)
      requires Valid() && (slot.Some? ==> slot.value !in table)
      modifies this
      ensures Valid() && drops == old(drops)
      ensures ok == (fd in old(table) && slot.Some?)
      ensures State() == if ok then Duped(old(State()), fd, slot.value) else old(State())
    {
      if fd !in table || slot.None? {
        return false;
      }
      ok := true;
      DupKeeps(State(), fd, slot.value);
      var x := table[fd];
      if x.Pipe? {
        ends := ends[x.end := ends[x.end].(cnt := ends[x.end].cnt + 1)];
      }
      table := table[slot.value := x];
    }

    /** Some other descriptor is opened. */
    method OpenForeign(slot: int)
      requires Valid() && slot !in table
      modifies this
      ensures Valid() && drops == old(drops)
      ensures State() == old(State()).(table := old(table)[slot := Foreign])
    {
      ForeignOpenKeeps(State(), slot);
      table := table[slot := Foreign];
    }

    /**
     * If `fd` is one of our ends, the pipe behind it. The reference the lookup
     * takes is given back, so nothing changes.
     */
    method WkPipeOfFd(fd: int) returns (pipe: Option<Handle>)
      requires Valid()
      modifies this
      ensures State() == old(State()) && drops == old(drops) && Valid()
      ensures pipe == if fd in table && table[fd].Pipe? then Some(shareds[ends[table[fd].end].shared].pipe) else None
      ensures pipe.Some? ==> pipe.value in live
    {
      pipe := None;
      if fd !in table {
        return;
      }
      var slot := table[fd];
      if slot.Pipe? {
        var a := slot.end;
        ends := ends[a := ends[a].(cnt := ends[a].cnt + 1)]; // descriptor_table_get
        pipe := Some(shareds[ends[a].shared].pipe);
        ends := ends[a := ends[a].(cnt := ends[a].cnt - 1)]; // descriptor_table_entry_dec
        assert ends == old(ends);
        assert HeldByPipe(State(), pipe.value, ends[a].shared);
        assert ends[a].cnt != 0; // so the descriptor is never deallocated here
      }
    }

    /**
     * A new end over `shared`, taking the stream handles. With no free
     * descriptor libc runs the destructor, so the handles are released.
     */
    method InsertEnd(input: Handle, output: Handle, shared: Address, slot: Option<int>)
      returns (fd: Option<int>, a: Address)
      requires shared in shareds && nextAddress !in ends
      requires slot.Some? ==> slot.value !in table
      requires Distinct(NonZero(input) + NonZero(output)) && shareds[shared].pipe !in NonZero(input) + NonZero(output)
      requires input != 0 ==> input in live
      requires output != 0 ==> output in live
      requires shareds[shared].pipe in live && shareds[shared].refs >= 0
      modifies this`table, this`ends, this`shareds, this`live, this`drops, this`nextAddress
      ensures fd == slot && a == old(nextAddress) && nextAddress == a + 1
      ensures slot.Some? ==>
                && State() == Memory(old(table)[slot.value := Pipe(a)],
                                     old(ends)[a := End(1, input, output, 0, 0, shared)],
                                     old(shareds)[shared := old(shareds)[shared].(refs := old(shareds)[shared].refs + 1)],
                                     old(live))
                && drops == old(drops)
      ensures slot.None? ==>
                var ds := NonZero(input) + NonZero(output)
                          + if old(shareds)[shared].refs == 0 then [old(shareds)[shared].pipe] else [];
                && table == old(table) && ends == old(ends)
                && shareds == (if old(shareds)[shared].refs == 0 then old(shareds) - {shared} else old(shareds))
                && live == old(live) - (set h | h in ds) && drops == old(drops) + ds
    {
      a := nextAddress;
      nextAddress := nextAddress + 1;
      ends := ends[a := End(0, input, output, 0, 0, shared)];
      shareds := shareds[shared := shareds[shared].(refs := shareds[shared].refs + 1)];
      fd := slot;
      if slot.None? {
        assert Dropped(State(), a) == NonZero(input) + NonZero(output)
               + if old(shareds)[shared].refs == 0 then [old(shareds)[shared].pipe] else [];
        DistinctSnoc(NonZero(input) + NonZero(output), old(shareds)[shared].pipe);
        PipeEndFree(a);
        assert ends == old(ends);
        return;
      }
      ends := ends[a := ends[a].(cnt := 1)];
      table := table[slot.value := Pipe(a)];
    }

    /**
     * pipe(): two descriptors over a new pipe. Whichever insertion fails,
     * everything is as before and the three new handles are dropped, once each.
     */
    method MakePipe(readSlot: Option<int>, writeSlot: Option<int>) returns (fds: Option<(int, int)>)
      requires Valid()
      requires readSlot.Some? ==> readSlot.value !in table
      requires writeSlot.Some? ==> writeSlot.value !in table && writeSlot != readSlot
      modifies this
      ensures Valid()
      ensures fds == if readSlot.Some? && writeSlot.Some? then Some((readSlot.value, writeSlot.value)) else None
      ensures nextHandle == old(nextHandle) + 3
      ensures State() == Made(old(State()), old(nextHandle), old(nextAddress), readSlot, writeSlot)
      ensures var p := old(nextHandle);
              drops == old(drops) + if fds.Some? then [] else if readSlot.None? then [p + 1, p, p + 2] else [p + 2, p + 1, p]
      // the first descriptor reads and the second writes, both on the new pipe
      ensures fds.Some? ==>
                var p, rfd, wfd := old(nextHandle), fds.value.0, fds.value.1;
                && rfd in table && table[rfd].Pipe? && table[rfd].end in ends && wfd in table && table[wfd].Pipe? && table[wfd].end in ends
                && var r, w := ends[table[rfd].end], ends[table[wfd].end];
                   r.input == p + 1 && r.output == 0 && w.output == p + 2 && w.input == 0 && r.shared == w.shared && r.shared in shareds
                   && shareds[r.shared].pipe == p
    {
      ghost var m, p, s := State(), nextHandle, nextAddress;
      NextFresh(readSlot, writeSlot);
      fds := AllocatePipe(readSlot, writeSlot);
      MadeKeeps(m, State(), p, s, readSlot, writeSlot);
    }

    lemma NextFresh(rfd: Option<int>, wfd: Option<int>)
      requires Bounded()
      requires rfd.Some? ==> rfd.value !in table
      requires wfd.Some? ==> wfd.value !in table && wfd != rfd
      ensures FreshIf(State(), nextHandle, nextAddress, rfd, wfd)
    {
      IssuedAccounted(drops, live, nextHandle);
    }

    /** The same, looking only at which handles and addresses are new. */
    method AllocatePipe(readSlot: Option<int>, writeSlot: Option<int>) returns (fds: Option<(int, int)>)
      requires Bounded()
      requires readSlot.Some? ==> readSlot.value !in table
      requires writeSlot.Some? ==> writeSlot.value !in table && writeSlot != readSlot
      modifies this
      ensures Bounded() && nextHandle == old(nextHandle) + 3
      ensures fds == if readSlot.Some? && writeSlot.Some? then Some((readSlot.value, writeSlot.value)) else None
      ensures State() == Made(old(State()), old(nextHandle), old(nextAddress), readSlot, writeSlot)
      ensures var p := old(nextHandle);
              drops == old(drops) + if fds.Some? then [] else if readSlot.None? then [p + 1, p, p + 2] else [p + 2, p + 1, p]
    {
      ghost var m := State();
      IssuedAccounted(drops, live, nextHandle);
      var p, input, output := IssueThree();
      var s := nextAddress;
      nextAddress := nextAddress + 1;
      UndoAdd(shareds, s, Shared(0, p));
      shareds := shareds[s := Shared(0, p)];
      fds := OpenEnds(p, input, output, s, readSlot, writeSlot);
      if fds.None? {
        BackToLive(m.live, p, input, output);
        FailureAccounted(old(drops), m.live, p, if readSlot.None? then [p + 1, p, p + 2] else [p + 2, p + 1, p]);
      } else {
        UpdateTwice(m.shareds, s, Shared(0, p), Shared(2, p));
      }
    }

    /** The pipe and its two streams. */
    method IssueThree() returns (p: Handle, input: Handle, output: Handle)
      modifies this`live, this`nextHandle
      ensures p == old(nextHandle) && input == p + 1 && output == p + 2 && nextHandle == p + 3
      ensures live == old(live) + {p, input, output}
    {
      p := Issue();
      input := Issue();
      output := Issue();
    }

    /** The two insertions, and the clean-up of either's failure. */
    method OpenEnds(p: Handle, input: Handle, output: Handle, s: Address, readSlot: Option<int>, writeSlot: Option<int>)
      returns (fds: Option<(int, int)>)
      requires readSlot.Some? ==> readSlot.value !in table
      requires writeSlot.Some? ==> writeSlot.value !in table && writeSlot != readSlot
      requires s in shareds && shareds[s] == Shared(0, p) && {p, input, output} <= live
      requires 0 !in {input, output} && p != input && p != output && input != output
      requires nextAddress == s + 1 && s + 1 !in ends && s + 2 !in ends
      modifies this`table, this`ends, this`shareds, this`live, this`drops, this`nextAddress
      ensures fds == if readSlot.Some? && writeSlot.Some? then Some((readSlot.value, writeSlot.value)) else None
      ensures old(nextAddress) < nextAddress <= s + 3 && (fds.Some? ==> nextAddress == s + 3)
      ensures fds.None? ==>
                && table == old(table) && ends == old(ends) && shareds == old(shareds) - {s}
                && live == old(live) - {p, input, output}
                && drops == old(drops) + if readSlot.None? then [input, p, output] else [output, input, p]
      ensures fds.Some? ==>
                && table == old(table)[readSlot.value := Pipe(s + 1)][writeSlot.value := Pipe(s + 2)]
                && ends == old(ends)[s + 1 := End(1, input, 0, 0, 0, s)][s + 2 := End(1, 0, output, 0, 0, s)]
                && shareds == old(shareds)[s := Shared(2, p)]
                && live == old(live) && drops == old(drops)
    {
      var rfd, r := InsertEnd(input, 0, s, readSlot);
      if rfd.None? {
        Drop(output);
        return None;
      }
      var wfd, w := InsertEnd(0, output, s, writeSlot);
      if wfd.None? {
        CloseFirstEnd(rfd.value, r, s, input, p);
        return None;
      }
      return Some((rfd.value, wfd.value));
    }

    /** The close() of the read end when the write end found no descriptor. */
    method CloseFirstEnd(fd: int, r: Address, s: Address, input: Handle, p: Handle)
      requires fd in table && table[fd] == Pipe(r) && r in ends && ends[r] == End(1, input, 0, 0, 0, s)
      requires s in shareds && shareds[s] == Shared(1, p)
      requires input in live && p in live && input != 0 && input != p
      modifies this`table, this`ends, this`shareds, this`live, this`drops
      ensures State() == Memory(old(table) - {fd}, old(ends) - {r}, old(shareds) - {s}, old(live) - {input, p})
      ensures drops == old(drops) + [input, p]
    {
      table := table - {fd};
      ends := ends[r := ends[r].(cnt := ends[r].cnt - 1)];
      assert Dropped(State(), r) == [input, p];
      PipeEndFree(r);
      assert ends == old(ends) - {r};
    }

    /** poll() or a blocking read asks for a pollable of a descriptor's stream. */
    method Poll(fd: int, forInput: bool)
      requires Valid()
      modifies this
      ensures Valid() && drops == old(drops) && table == old(table) && shareds == old(shareds)
      ensures ends.Keys == old(ends).Keys && forall a :: a in ends ==> ends[a].cnt == old(ends)[a].cnt
    {
      if fd in table && table[fd].Pipe? && Pollable(ends[table[fd].end], forInput) {
        ghost var m, h := State(), nextHandle;
        var a := table[fd].end;
        CachePollable(a, forInput);
        PollKeeps(m, State(), a, h, forInput);
      }
    }

    method CachePollable(a: Address, forInput: bool)
      requires Bounded() && a in ends
      modifies this`ends, this`live, this`nextHandle
      ensures Bounded() && old(nextHandle) !in old(live) && old(nextHandle) != 0
      ensures State() == Polled(old(State()), a, old(nextHandle), forInput)
    {
      IssuedOne(drops, live, nextHandle);
      var h := Issue();
      ends := ends[a := if forInput then ends[a].(inputPollable := h) else ends[a].(outputPollable := h)];
    }

    /**
     * Any run of these calls, whatever libc answers: the counts stay exact,
     * and every handle issued is held by exactly one struct or was dropped
     * exactly once.
     */
    method Run(ops: seq<Op>)
      requires Valid()
      modifies this
      ensures Valid() && old(drops) <= drops
      ensures forall s :: s in shareds ==> shareds[s].refs == |Users(ends, s)| > 0
      ensures forall a :: a in ends ==> ends[a].cnt == |Slots(table, a)| > 0
      ensures Distinct(drops)
      ensures forall h :: 0 < h < nextHandle ==>
                (h in drops <==> forall x :: !HeldByEnd(State(), h, x) && !HeldByPipe(State(), h, x))
    {
      for i := 0 to |ops|
        invariant Valid() && old(drops) <= drops
      {
        match ops[i]
        case OpPipe(r, w) =>
          var r', w' := IfFree(r, table), IfFree(w, table);
          var _ := MakePipe(r', if w' == r' then None else w');
        case OpDup(fd, slot) =>
          var _ := Dup(fd, IfFree(slot, table));
        case OpClose(fd) =>
          var _ := Close(fd);
        case OpWkPipe(fd) =>
          var _ := WkPipeOfFd(fd);
        case OpPoll(fd, forInput) => Poll(fd, forInput);
        case OpForeign(slot) =>
          if slot !in table {
            OpenForeign(slot);
          }
      }
      HeldIsLive(State());
    }
  }

  lemma HeldIsLive(m: Memory)
    requires HandlesOk(m)
    ensures forall h :: h !in m.live <==> forall x :: !HeldByEnd(m, h, x) && !HeldByPipe(m, h, x)
  {
    forall h | h in m.live
      ensures exists x :: HeldByEnd(m, h, x) || HeldByPipe(m, h, x)
    {
      if a :| HeldByEnd(m, h, a) {
        assert HeldByEnd(m, h, a) || HeldByPipe(m, h, a);
      } else {
        var s :| HeldByPipe(m, h, s);
        assert HeldByEnd(m, h, s) || HeldByPipe(m, h, s);
      }
    }
  }

  /** With no descriptor of ours left, nothing is left: no end, no pipe, no live handle. */
  lemma AllClosedAllFreed(m: Memory)
    requires CountsOk(m) && HandlesOk(m)
    requires forall fd :: fd in m.table ==> m.table[fd].Foreign?
    ensures m.ends == map[] && m.shareds == map[] && m.live == {}
  {
    forall a
      ensures a !in m.ends
    {
      assert forall fd :: fd !in Slots(m.table, a);
    }
    forall s
      ensures s !in m.shareds
    {
      assert forall a :: a !in Users(m.ends, s);
    }
    forall h
      ensures h !in m.live
    {
      assert forall a :: !HeldByEnd(m, h, a);
      assert forall s :: !HeldByPipe(m, h, s);
    }
  }

  /** The order of the drops: what belongs to a stream before the stream, the end's handles before the pipe. */
  lemma DropOrder(m: Memory, a: Address)
    requires a in m.ends && m.ends[a].shared in m.shareds
    ensures var e, x := m.ends[a], m.shareds[m.ends[a].shared];
            var pollables := (if e.inputPollable != 0 then [e.inputPollable] else [])
                             + if e.outputPollable != 0 then [e.outputPollable] else [];
            var streams := (if e.input != 0 then [e.input] else []) + if e.output != 0 then [e.output] else [];
            Dropped(m, a) == pollables + streams + if x.refs == 1 then [x.pipe] else []
  {
  }
}
