/** The rendered form of a row: tabs become blanks. */
module KiloRender {
  import opened Outcomes
  import opened KiloText

  const INT_MAX := 0x7fff_ffff
  const UINT32_MAX := 0xffff_ffff

  /** A tab reaches to just before the next multiple of eight, and is never empty. */
  function TabWidth(col: nat): (w: nat)
    ensures 1 <= w <= 8 && (col + w + 1) % 8 == 0
  {
    8 - (col + 1) % 8
  }

  /** What one character expands to in column `col`. */
  function Piece(b: Byte, col: nat): (p: Text)
    ensures 1 <= |p| <= if b == TAB then 8 else 1
  {
    if b == TAB then Spaces(TabWidth(col)) else [b]
  }

  /** The text with tabs expanded: each character adds its piece after those before it. */
  function Expand(t: Text): Text
    decreases |t|
  {
    if t == [] then []
    else
      var before := Expand(t[..|t| - 1]);
      before + Piece(t[|t| - 1], |before|)
  }

  function Tabs(t: Text): (n: nat)
    ensures n <= |t|
    decreases |t|
  {
    if t == [] then 0 else Tabs(t[..|t| - 1]) + if t[|t| - 1] == TAB then 1 else 0
  }

  lemma ExpandStep(t: Text, j: nat)
    requires j < |t|
    ensures Expand(t[..j + 1]) == Expand(t[..j]) + Piece(t[j], |Expand(t[..j])|)
    ensures Tabs(t[..j + 1]) == Tabs(t[..j]) + if t[j] == TAB then 1 else 0
  {
    assert t[..j + 1][..j] == t[..j];
  }

  /** The expansion fits what is allocated for it, by exact arithmetic. */
  lemma {:induction false} ExpandFits(t: Text)
    ensures |t| <= |Expand(t)| <= |t| + 7 * Tabs(t)
    decreases |t|
  {
    if t != [] {
      ExpandFits(t[..|t| - 1]);
    }
  }

  /** Every tab moves on to another multiple of eight. */
  lemma {:induction false} ExpandGrows(t: Text)
    ensures (|Expand(t)| + 1) / 8 >= Tabs(t)
    decreases |t|
  {
    if t != [] {
      ExpandGrows(t[..|t| - 1]);
    }
  }

  /** What stands to the left does not depend on what follows. */
  lemma {:induction false} ExpandPrefix(t: Text, j: nat)
    requires j <= |t|
    ensures Expand(t[..j]) <= Expand(t)
    ensures Tabs(t[..j]) <= Tabs(t)
    decreases |t|
  {
    if j < |t| {
      var u := t[..|t| - 1];
      assert u[..j] == t[..j];
      ExpandPrefix(u, j);
    } else {
      assert t[..j] == t;
    }
  }

  /** What is in the rendering: each character as itself, each tab as blanks up to just before a multiple of eight. */
  lemma RenderedPiece(t: Text, j: nat)
    requires j < |t|
    ensures var e, k, m := Expand(t), |Expand(t[..j])|, |Expand(t[..j + 1])|;
            && k < m <= |e|
            && (t[j] != TAB ==> m == k + 1 && e[k] == t[j])
            && (t[j] == TAB ==> m <= k + 8 && (m + 1) % 8 == 0 && forall i :: k <= i < m ==> e[i] == SPACE)
  {
    ExpandStep(t, j);
    ExpandPrefix(t, j + 1);
    var e, f, k := Expand(t), Expand(t[..j + 1]), |Expand(t[..j])|;
    assert forall i :: k <= i < |f| ==> e[i] == f[i] == Piece(t[j], k)[i - k];
  }

  /** A row without tabs renders as itself. */
  lemma {:induction false} PlainRendersItself(t: Text)
    requires TAB !in t
    ensures Expand(t) == t
    decreases |t|
  {
    if t != [] {
      var before := t[..|t| - 1];
      assert t == before + [t[|t| - 1]];
      PlainRendersItself(before);
    }
  }

  // ---- the 32-bit allocation ----

  /** What the code asks malloc for: the product `tabs * 8` is taken modulo 2^32. */
  function AllocSize(t: Text): nat {
    |t| + (Tabs(t) * 8) % 0x1_0000_0000 + 1
  }

  /**
   * Past the "too long" check, the allocation holds the rendered row and its
   * NUL exactly when the row has fewer than 2^29 tabs.
   */
  lemma AllocationSuffices(t: Text)
    requires AllocSize(t) <= UINT32_MAX
    ensures |Expand(t)| + 1 <= AllocSize(t) <==> Tabs(t) < 0x2000_0000
  {
    ExpandFits(t);
    ExpandGrows(t);
  }

  // ---- the 32-bit index ----

  /**
   * The index `idx`, an int, can count the rendering: it ends at most at
   * INT_MAX, and not there behind a tab, whose end is found by adding one.
   */
  predicate Indexable(t: Text) {
    |Expand(t)| < INT_MAX || (|Expand(t)| == INT_MAX && t[|t| - 1] != TAB)
  }

  /** A tab ends at INT_MAX, which is just before a multiple of eight. */
  ghost predicate TabAtLimit(t: Text) {
    exists j :: 0 < j <= |t| && t[j - 1] == TAB && |Expand(t[..j])| == INT_MAX
  }

  /** The row passes the check, and the index holds out; the allocation is then enough. */
  predicate Renderable(t: Text) {
    AllocSize(t) <= UINT32_MAX && Indexable(t)
  }

  lemma IndexableFits(t: Text)
    requires Renderable(t)
    ensures |Expand(t)| < AllocSize(t)
  {
    ExpandGrows(t);
    AllocationSuffices(t);
  }

  /** Each further character makes the rendering longer. */
  lemma ExpandLonger(t: Text, j: nat, k: nat)
    requires j < k <= |t|
    ensures |Expand(t[..j])| < |Expand(t[..k])|
    decreases k - j
  {
    ExpandStep(t, k - 1);
    if j < k - 1 {
      ExpandLonger(t, j, k - 1);
    }
  }

  lemma TabAtLimitStops(t: Text)
    requires TabAtLimit(t)
    ensures !Indexable(t) && |Expand(t)| >= INT_MAX
  {
    var j :| 0 < j <= |t| && t[j - 1] == TAB && |Expand(t[..j])| == INT_MAX;
    TabStopsAt(t, j, INT_MAX);
  }

  lemma TabStopsAt(t: Text, j: nat, n: nat)
    requires 0 < j <= |t| && t[j - 1] == TAB && |Expand(t[..j])| == n
    ensures |Expand(t)| > n || (|Expand(t)| == n && t[|t| - 1] == TAB)
  {
    assert t[..|t|] == t;
    if j < |t| {
      ExpandLonger(t, j, |t|);
    }
  }

  // ---- rows that fall short ----

  function TabRow(n: nat): (t: Text)
    ensures |t| == n && forall i :: 0 <= i < n ==> t[i] == TAB
  {
    seq(n, i => TAB)
  }

  lemma {:induction false} TabRowTabs(n: nat)
    ensures Tabs(TabRow(n)) == n
  {
    if n > 0 {
      TabRowTabs(n - 1);
      assert TabRow(n)[..n - 1] == TabRow(n - 1);
    }
  }

  lemma {:induction false} TabRowLength(n: nat)
    requires n > 0
    ensures |Expand(TabRow(n))| == 8 * n - 1
  {
    var t := TabRow(n);
    assert t[..n - 1] == TabRow(n - 1);
    if n > 1 {
      TabRowLength(n - 1);
    } else {
      assert t[..0] == [];
    }
  }

  /** A row of 2^29 tabs passes the check and is given too little. */
  lemma AllocationFallsShort()
    ensures var t := TabRow(0x2000_0000);
            |t| <= INT_MAX && AllocSize(t) <= UINT32_MAX && |Expand(t)| + 1 > AllocSize(t)
  {
    TabRowTabs(0x2000_0000);
    AllocationSuffices(TabRow(0x2000_0000));
  }

  /** From 2^28 tabs on, and as far as the check lets through, there is memory enough but the index is not. */
  lemma IndexFallsShort(n: nat)
    requires 0x1000_0000 <= n <= 477218588
    ensures var t := TabRow(n);
            && |t| <= INT_MAX && AllocSize(t) <= UINT32_MAX && |Expand(t)| + 1 <= AllocSize(t)
            && !Renderable(t)
  {
    TabRowTabs(n);
    TabRowLength(n);
    AllocationSuffices(TabRow(n));
  }

  lemma {:induction false} PlainLength(n: nat)
    ensures |Expand(Spaces(n))| == n && Tabs(Spaces(n)) == 0
  {
    if n > 0 {
      assert Spaces(n)[..n - 1] == Spaces(n - 1);
      PlainLength(n - 1);
    }
  }

  /** The longest row without tabs that an int can measure is rendered; the index ends at INT_MAX. */
  lemma LongestPlainRow()
    ensures Renderable(Spaces(INT_MAX)) && |Expand(Spaces(INT_MAX))| == INT_MAX
  {
    PlainLength(INT_MAX);
  }

  // ---- the two loops ----

  method CountTabs(chars: seq<Byte>, size: nat) returns (tabs: nat)
    requires size <= |chars|
    ensures tabs == Tabs(chars[..size])
  {
    tabs := 0;
    for j := 0 to size
      invariant tabs == Tabs(chars[..j])
    {
      ExpandStep(chars, j);
      if chars[j] == TAB {
        tabs := tabs + 1;
      }
    }
  }

  /** How the filling of the buffer ends: done, a write past its end, or the index past INT_MAX. */
  datatype Filling = Filled | Beyond | TooFar

  /** What filling a buffer of `size` bytes with the rendering and its NUL comes to. */
  ghost function Outcome(t: Text, size: nat): Filling {
    if Indexable(t) && |Expand(t)| < size then Filled
    else if size >= INT_MAX && (TabAtLimit(t) || (size > INT_MAX && |Expand(t)| > INT_MAX)) then TooFar
    else Beyond
  }

  /** The same for one tab that starts at index `start`. */
  function TabOutcome(start: nat, size: nat): Filling {
    var end := start + TabWidth(start);
    if end <= size && end < INT_MAX then Filled
    else if start < size && size >= INT_MAX then TooFar
    else Beyond
  }

  /** The inner loop: one blank, then more up to the next stop. */
  method FillTab(buf: array<Byte>, start: nat) returns (idx: nat, filling: Filling)
    requires start <= INT_MAX && start <= buf.Length
    modifies buf
    ensures filling == TabOutcome(start, buf.Length)
    ensures filling == Filled ==> idx == start + TabWidth(start)
    ensures filling == Filled ==> buf[..idx] == old(buf[..start]) + Spaces(TabWidth(start))
  {
    idx := start;
    ghost var before := buf[..start];
    if idx >= buf.Length {
      return idx, Beyond;
    }
    buf[idx] := SPACE;
    if idx == INT_MAX {
      return idx, TooFar;
    }
    idx := idx + 1;
    assert buf[..idx] == before + Spaces(1);
    while idx != INT_MAX && (idx + 1) % 8 != 0
      invariant start < idx <= start + TabWidth(start) && idx <= INT_MAX && idx <= buf.Length
      invariant buf[..idx] == before + Spaces(idx - start)
      decreases start + TabWidth(start) - idx
    {
      ghost var done := buf[..idx];
      if idx >= buf.Length {
        return idx, Beyond;
      }
      buf[idx] := SPACE;
      idx := idx + 1;
      assert buf[..idx] == done + [SPACE];
      assert Spaces(idx - start) == Spaces(idx - 1 - start) + [SPACE];
    }
    TabEnds(start, idx);
    filling := if idx == INT_MAX then TooFar else Filled;
  }

  /** The program ends, writes past the allocation, counts past INT_MAX, or has rendered the row. */
  datatype Rendering = Exit | Overrun | Overflow | Done(render: seq<Byte>)

  /** Counts the tabs, allocates, and fills in the expansion with its NUL. */
  method RenderRow(chars: seq<Byte>, size: nat) returns (r: Rendering)
    requires size <= |chars|
    ensures var t := chars[..size];
            && (r.Exit? <==> AllocSize(t) > UINT32_MAX)
            && (r.Done? <==> Renderable(t))
            && (r.Overrun? <==> AllocSize(t) <= UINT32_MAX && Tabs(t) >= 0x2000_0000
                                && (AllocSize(t) < INT_MAX || (AllocSize(t) == INT_MAX && !TabAtLimit(t))))
            && (r.Done? ==> |r.render| == AllocSize(t) && |Expand(t)| < |r.render|
                            && r.render[..|Expand(t)| + 1] == Expand(t) + [0])
  {
    var tabs := CountTabs(chars, size);
    ghost var t := chars[..size];
    var allocsize := size + tabs * 8 % 0x1_0000_0000 + 1;
    if allocsize > UINT32_MAX {
      return Exit;
    }
    var buf := new Byte[allocsize];
    var filling := FillRender(chars, size, buf);
    OutcomeOfAllocation(t);
    match filling
    case Filled => return Done(buf[..]);
    case Beyond => return Overrun;
    case TooFar => return Overflow;
  }

  /** On the buffer that is allocated. */
  lemma OutcomeOfAllocation(t: Text)
    requires AllocSize(t) <= UINT32_MAX
    ensures var size := AllocSize(t);
            && (Outcome(t, size) == Filled <==> Indexable(t))
            && (Outcome(t, size) == Beyond <==>
                Tabs(t) >= 0x2000_0000 && (size < INT_MAX || (size == INT_MAX && !TabAtLimit(t))))
  {
    AllocationSuffices(t);
    ExpandGrows(t);
    if Indexable(t) {
      IndexableFits(t);
    }
    if TabAtLimit(t) {
      TabAtLimitStops(t);
    }
    if !Indexable(t) && Tabs(t) < 0x2000_0000 {
      // long enough for the allocation, so too long for the index
      if |Expand(t)| == INT_MAX {
        assert t[..|t|] == t;
      }
    }
  }

  /** The expansion and its NUL, as long as there is room and the index holds out. */
  method FillRender(chars: seq<Byte>, size: nat, buf: array<Byte>) returns (filling: Filling)
    requires size <= |chars|
    modifies buf
    ensures filling == Outcome(chars[..size], buf.Length)
    ensures filling == Filled ==> buf[..|Expand(chars[..size])| + 1] == Expand(chars[..size]) + [0]
  {
    var idx := 0;
    ghost var t := chars[..size];
    for j := 0 to size
      invariant idx == |Expand(t[..j])| <= buf.Length && Indexable(t[..j])
      invariant buf[..idx] == Expand(t[..j])
    {
      idx, filling := FillChar(chars[j], buf, idx, t, j);
      if filling != Filled {
        return;
      }
    }
    assert t[..size] == t;
    if idx >= buf.Length {
      EndsBeyond(t, size, buf.Length);
      return Beyond;
    }
    buf[idx] := 0;
    assert buf[..idx + 1] == buf[..idx] + [0];
    return Filled;
  }

  /** One character, behind the rendering of the `j` before it. */
  method FillChar(c: Byte, buf: array<Byte>, start: nat, ghost t: Text, ghost j: nat) returns (idx: nat, filling: Filling)
    requires j < |t| && t[j] == c
    requires start == |Expand(t[..j])| <= buf.Length && Indexable(t[..j]) && buf[..start] == Expand(t[..j])
    modifies buf
    ensures filling == Filled ==> idx == |Expand(t[..j + 1])| <= buf.Length && Indexable(t[..j + 1])
    ensures filling == Filled ==> buf[..idx] == Expand(t[..j + 1])
    ensures filling != Filled ==> filling == Outcome(t, buf.Length)
  {
    ExpandStep(t, j);
    assert t[..j + 1][j] == c;
    idx := start;
    if c == TAB {
      idx, filling := FillTab(buf, start);
      if filling != Filled {
        TabStops(t, j, buf.Length);
      }
      return;
    }
    if idx >= buf.Length {
      EndsBeyond(t, j, buf.Length);
      return idx, Beyond;
    }
    buf[idx] := c;
    if idx == INT_MAX {
      EndsTooFar(t, j, buf.Length);
      return idx, TooFar;
    }
    idx := idx + 1;
    filling := Filled;
    assert buf[..idx] == buf[..start] + [c];
  }

  /** The buffer is full after `j` characters, and more is to be written. */
  lemma EndsBeyond(t: Text, j: nat, size: nat)
    requires j <= |t| && |Expand(t[..j])| == size && Indexable(t[..j])
    ensures Outcome(t, size) == Beyond
  {
    if j < |t| {
      ExpandLonger(t, j, |t|);
    }
    assert t[..|t|] == t;
    if size == INT_MAX {
      NoTabAtLimit(t, j);
    }
  }

  /** The rendering reaches INT_MAX at one character only. */
  lemma NoTabAtLimit(t: Text, j: nat)
    requires j <= |t| && |Expand(t[..j])| == INT_MAX && Indexable(t[..j])
    ensures !TabAtLimit(t)
  {
    forall k | 0 < k <= |t| && |Expand(t[..k])| == INT_MAX
      ensures t[k - 1] != TAB
    {
      SameLength(t, j, k);
      assert t[..j][j - 1] == t[j - 1];
    }
  }

  lemma SameLength(t: Text, j: nat, k: nat)
    requires j <= |t| && k <= |t| && |Expand(t[..j])| == |Expand(t[..k])|
    ensures j == k
  {
    if j < k {
      ExpandLonger(t, j, k);
    } else if k < j {
      ExpandLonger(t, k, j);
    }
  }

  /** The index stands at INT_MAX inside the buffer, and another character comes. */
  lemma EndsTooFar(t: Text, j: nat, size: nat)
    requires j < |t| && |Expand(t[..j])| == INT_MAX < size
    ensures Outcome(t, size) == TooFar
  {
    ExpandLonger(t, j, |t|);
    assert t[..|t|] == t;
  }

  /** A tab that cannot be filled in. */
  lemma TabStops(t: Text, j: nat, size: nat)
    requires j < |t| && t[j] == TAB && |Expand(t[..j])| <= size && Indexable(t[..j])
    requires TabOutcome(|Expand(t[..j])|, size) != Filled
    ensures Outcome(t, size) == TabOutcome(|Expand(t[..j])|, size)
  {
    var start := |Expand(t[..j])|;
    var end := start + TabWidth(start);
    ExpandStep(t, j);
    if j + 1 < |t| {
      ExpandLonger(t, j + 1, |t|);
    }
    assert t[..|t|] == t;
    if start == size {
      EndsBeyond(t, j, size);
    } else if size >= INT_MAX {
      if start < INT_MAX {
        assert end == INT_MAX;
        assert TabAtLimit(t) by { assert t[..j + 1][j] == TAB; }
        TabAtLimitStops(t);
      } else {
        EndsTooFar(t, j, size);
      }
    }
  }

  lemma ExpandOf(chars: seq<Byte>, j: nat, size: nat)
    requires j <= size <= |chars|
    ensures |Expand(chars[..j])| <= |Expand(chars[..size])|
  {
    assert chars[..size][..j] == chars[..j];
    ExpandPrefix(chars[..size], j);
  }

  /** The inner loop stops exactly at the tab's width. */
  lemma TabEnds(start: nat, idx: nat)
    requires start < idx <= start + TabWidth(start) && (idx + 1) % 8 == 0
    ensures idx == start + TabWidth(start)
  {
  }

  // ---- the cursor's column ----

  /** Columns `from` to `to` of a row as the cursor passes over them; where there is no text there is only width. */
  function Passed(t: Text, from: int, to: int): (p: Text)
    ensures |p| == if to > from then to - from else 0
  {
    seq(if to > from then to - from else 0, i requires i >= 0 => if 0 <= from + i < |t| then t[from + i] else SPACE)
  }

  lemma PassedIs(t: Text, from: nat, to: nat)
    requires from <= to
    ensures Passed(t, from, to) == (t + Spaces(to))[from..to]
  {
  }

  /**
   * The loop that finds where on screen the cursor goes. It reads only inside
   * the row exactly when the offset is not negative or nothing is passed.
   */
  method CursorColumn(t: Text, coloff: int, cx: int) returns (x: nat, inside: bool)
    ensures inside <==> coloff >= 0 || cx <= 0
    ensures inside ==> x == 1 + |Expand(Passed(t, coloff, coloff + cx))|
  {
    x := 1;
    ghost var p := Passed(t, coloff, coloff + cx);
    var j := coloff;
    while j < cx + coloff
      invariant coloff <= j && (j - coloff <= |p|)
      invariant j > coloff ==> coloff >= 0
      invariant x == 1 + |Expand(p[..j - coloff])|
    {
      if j < |t| && j < 0 {
        return x, false;
      }
      assert p[j - coloff] == if j < |t| then t[j] else SPACE;
      ExpandStep(p, j - coloff);
      if j < |t| && t[j] == TAB {
        x := x + 7 - x % 8;
      }
      x := x + 1;
      j := j + 1;
    }
    assert p[..j - coloff] == p;
    inside := true;
  }

  /**
   * Without horizontal scrolling this is one plus the rendered width of the
   * text left of the cursor: the cursor is drawn where the row's rendering
   * puts it.
   */
  lemma ColumnIsRendered(t: Text, cx: nat)
    requires cx <= |t|
    ensures Passed(t, 0, cx) == t[..cx]
    ensures Expand(Passed(t, 0, cx)) <= Expand(t)
  {
    PassedPrefix(t, cx);
    ExpandPrefix(t, cx);
  }

  lemma PassedPrefix(t: Text, cx: nat)
    requires cx <= |t|
    ensures Passed(t, 0, cx) == t[..cx]
  {
  }
}
