/** What the editor's keys do, window and all, against what they mean. */
module KiloScreen {
  import opened Outcomes
  import opened KiloText

  /** The document, the column offset, the cursor's line in the window, and the window's size. */
  datatype Screen = Screen(doc: Doc, coloff: int, cy: int, cols: int, lines: int) {
    function Cx(): int {
      doc.c - coloff
    }

    function Rowoff(): int {
      doc.r - cy
    }
  }

  predicate IsJoin(d: Doc) {
    d.c == 0 && 0 < d.r < |d.rows|
  }

  /** The key reads and writes inside the rows and their buffers only. */
  predicate Inside(w: Screen, k: Key) {
    var d := w.doc;
    match k
    case Type(_) => d.c >= 0
    case Move(Left) => w.Cx() == 0 && w.coloff == 0 ==> d.r <= |d.rows|
    case Move(Up) => d.r == 0 ==> w.cy == 0
    case Move(_) => true
    case _ => d.r < |d.rows| ==> d.c >= 0
  }

  // ---- the edits ----

  /** The column offset after an edit. */
  function OffsetEdited(w: Screen, k: Key): int {
    match k
    case Type(_) => if w.Cx() == w.cols - 1 then w.coloff + 1 else w.coloff
    case Enter => if w.doc.r > |w.doc.rows| then w.coloff else 0
    case Delete =>
      if IsJoin(w.doc) then
        var above := |w.doc.rows[w.doc.r - 1]|;
        if above >= w.cols then w.coloff + w.cols - above + 1 else w.coloff
      else if w.doc.r >= |w.doc.rows| || (w.doc.r == 0 && w.doc.c == 0) then w.coloff
      else if w.Cx() == 0 && w.coloff != 0 then w.coloff - 1
      else w.coloff
    case Move(_) => w.coloff
  }

  /** The cursor's line one row further down, or the same at the window's end. */
  function LineBelow(w: Screen): int {
    if w.cy == w.lines - 1 then w.cy else w.cy + 1
  }

  function LineEdited(w: Screen, k: Key): int {
    if k.Enter? && w.doc.r <= |w.doc.rows| then LineBelow(w)
    else if k.Delete? && IsJoin(w.doc) && w.cy != 0 then w.cy - 1
    else w.cy
  }

  /** What an edit does: after a join, the column offset from before is added to the cursor. */
  function Edited(w: Screen, k: Key): Screen
    requires w.doc.r >= 0 && Inside(w, k) && !k.Move?
  {
    var d := DocKeyed(w.doc, k);
    w.(doc := if k.Delete? && IsJoin(w.doc) then d.(c := d.c + w.coloff) else d,
       coloff := OffsetEdited(w, k), cy := LineEdited(w, k))
  }

  // ---- the arrows ----

  function GoneLeft(w: Screen): Screen
    requires Inside(w, Move(Left))
  {
    var d := w.doc;
    if w.Cx() != 0 then w.(doc := d.(c := d.c - 1))
    else if w.coloff != 0 then w.(doc := d.(c := d.c - 1), coloff := w.coloff - 1)
    else if d.r <= 0 then w
    else
      var above := |d.rows[d.r - 1]|;
      w.(doc := d.(r := d.r - 1, c := above), cy := w.cy - 1,
         coloff := if above > w.cols - 1 then above - w.cols + 1 else w.coloff)
  }

  function GoneDown(w: Screen): Screen {
    w.(doc := w.doc.(r := w.doc.r + 1), cy := LineBelow(w))
  }

  function GoneRight(w: Screen): Screen
    requires w.doc.r >= 0
  {
    var d := w.doc;
    if d.r >= |d.rows| || d.c > |d.rows[d.r]| then w
    else if d.c < |d.rows[d.r]| then
      w.(doc := d.(c := d.c + 1), coloff := if w.Cx() == w.cols - 1 then w.coloff + 1 else w.coloff)
    else GoneDown(w.(doc := d.(c := 0), coloff := 0))
  }

  function GoneUp(w: Screen): Screen {
    var up := w.doc.(r := w.doc.r - 1);
    if w.cy != 0 then w.(doc := up, cy := w.cy - 1) else if w.Rowoff() != 0 then w.(doc := up) else w
  }

  /** The cursor beyond the end of its row: the excess is taken off its column, and what that lacks off the offset. */
  function Clipped(w: Screen): Screen
    requires w.doc.r >= 0
  {
    var d := DocClipped(w.doc);
    var cx := w.Cx() - (w.doc.c - d.c);
    w.(doc := d, coloff := if d.c < w.doc.c && cx < 0 then w.coloff + cx else w.coloff)
  }

  function Gone(w: Screen, a: Arrow): Screen
    requires w.doc.r >= 0 && Inside(w, Move(a))
  {
    match a
    case Left => GoneLeft(w)
    case Right => GoneRight(w)
    case Up => GoneUp(w)
    case Down => if w.doc.r < |w.doc.rows| then GoneDown(w) else w
  }

  lemma GoneOnRows(w: Screen, a: Arrow)
    requires w.doc.r >= 0 && Inside(w, Move(a))
    ensures Gone(w, a).doc.r >= 0
  {
  }

  function Keyed(w: Screen, k: Key): Screen
    requires w.doc.r >= 0 && Inside(w, k)
  {
    if k.Move? then
      GoneOnRows(w, k.arrow);
      Clipped(Gone(w, k.arrow))
    else Edited(w, k)
  }

  // ---- when a key does what it means ----

  /** The window lies on the file, its cursor not left of it, on a row or just below them. */
  predicate Placed(w: Screen) {
    w.cols >= 1 && w.Cx() >= 0 && w.Rowoff() >= 0 && 0 <= w.doc.r <= |w.doc.rows|
  }

  /** A join, or a step to the left at the start of a row. */
  predicate AtStart(w: Screen, k: Key) {
    (k.Delete? && IsJoin(w.doc)) || (k == Move(Left) && w.doc.c == 0)
  }

  /**
   * Every key leaves the window on the file; and does what it means exactly
   * when it is not at the start of a row, or the offset is not negative.
   */
  lemma KeyMeant(w: Screen, k: Key)
    requires Placed(w) && Inside(w, k)
    ensures Placed(Keyed(w, k)) && Meant(w.doc, k)
    ensures Keyed(w, k).doc == DocKeyed(w.doc, k) <==> !(AtStart(w, k) && w.coloff < 0)
  {
    if k.Move? {
      MoveMeant(w, k.arrow);
    }
  }

  lemma MoveMeant(w: Screen, a: Arrow)
    requires Placed(w) && Inside(w, Move(a))
    ensures Placed(Keyed(w, Move(a)))
    ensures Keyed(w, Move(a)).doc == DocMoved(w.doc, a) <==> !(AtStart(w, Move(a)) && w.coloff < 0)
  {
  }

  predicate LongJoin(w: Screen, k: Key) {
    k.Delete? && IsJoin(w.doc) && |w.doc.rows[w.doc.r - 1]| > w.cols + 1
  }

  /** A step to the left, at the start of the window's first row, onto the row above it. */
  predicate TopWrap(w: Screen, k: Key) {
    k == Move(Left) && w.doc.c == 0 && w.doc.r > 0 && w.cy == 0
  }

  /** The offset becomes negative exactly by a join onto a row more than one longer than the window is wide. */
  lemma OffsetTurnsNegative(w: Screen, k: Key)
    requires Placed(w) && w.coloff >= 0 && Inside(w, k)
    ensures Keyed(w, k).coloff < 0 <==> LongJoin(w, k)
  {
  }

  /** The cursor's line becomes negative exactly by a step to the left out of the window's top. */
  lemma LineTurnsNegative(w: Screen, k: Key)
    requires Placed(w) && w.coloff >= 0 && w.cy >= 0 && Inside(w, k)
    ensures Keyed(w, k).cy < 0 <==> TopWrap(w, k)
  {
  }

  /** And a key leaves the rows exactly when it is the arrow up, on the first row, with the cursor's line negative. */
  lemma InsideExactly(w: Screen, k: Key)
    requires Placed(w) && w.coloff >= 0
    ensures Inside(w, k) <==> !(k == Move(Up) && w.doc.r == 0 && w.cy < 0)
  {
  }

  /** The cursor is inside the window. */
  predicate InWindow(w: Screen) {
    0 <= w.cy < w.lines && 0 <= w.Cx() < w.cols
  }

  /**
   * Every key keeps the cursor's line inside the window, unless it steps left
   * out of the window's top, and its column, unless it joins rows beyond the
   * window's edge.
   */
  lemma WindowKept(w: Screen, k: Key)
    requires Placed(w) && InWindow(w) && w.coloff >= 0 && Inside(w, k)
    ensures 0 <= Keyed(w, k).cy < w.lines <==> !TopWrap(w, k)
    ensures 0 <= Keyed(w, k).Cx() < w.cols <==>
            !(k.Delete? && IsJoin(w.doc) && |w.doc.rows[w.doc.r - 1]| > w.cols)
    ensures Keyed(w, k).cols == w.cols && Keyed(w, k).lines == w.lines
  {
  }

  /** Where on the screen the cursor is then: one column on, or at the edge while the window scrolls under it. */
  lemma ScrollsAtTheEdge(w: Screen, k: Key)
    requires Placed(w) && InWindow(w) && w.coloff >= 0 && Inside(w, k)
    ensures k.Type? || (k == Move(Right) && w.doc.r < |w.doc.rows| && w.doc.c < |w.doc.rows[w.doc.r]|) ==>
              Keyed(w, k).Cx() == Shorter(w.Cx() + 1, w.cols - 1)
    ensures k.Enter? ==> Keyed(w, k).Cx() == 0 && Keyed(w, k).cy == Shorter(w.cy + 1, w.lines - 1)
    ensures k == Move(Down) && w.doc.r < |w.doc.rows| ==> Keyed(w, k).cy == Shorter(w.cy + 1, w.lines - 1)
    ensures k == Move(Left) && w.doc.c == 0 && w.doc.r > 0 ==>
              Keyed(w, k).Cx() == Shorter(|w.doc.rows[w.doc.r - 1]|, w.cols - 1) && Keyed(w, k).cy == w.cy - 1
    ensures k == Move(Left) && w.Cx() > 0 && w.doc.r < |w.doc.rows| && w.doc.c <= |w.doc.rows[w.doc.r]| ==>
              Keyed(w, k).Cx() == w.Cx() - 1
    ensures k == Move(Up) && w.doc.r > 0 ==> Keyed(w, k).cy == if w.cy > 0 then w.cy - 1 else 0
  {
  }

  // ---- runs ----

  predicate AllInside(w: Screen, ks: seq<Key>)
    requires w.doc.r >= 0
    decreases |ks|
  {
    ks != [] ==> Inside(w, ks[0]) && (KeyedOnRows(w, ks[0]); AllInside(Keyed(w, ks[0]), ks[1..]))
  }

  lemma KeyedOnRows(w: Screen, k: Key)
    requires w.doc.r >= 0 && Inside(w, k)
    ensures Keyed(w, k).doc.r >= 0
  {
  }

  function After(w: Screen, ks: seq<Key>): (after: Screen)
    requires w.doc.r >= 0 && AllInside(w, ks)
    ensures after.doc.r >= 0
    decreases |ks|
  {
    if ks == [] then w
    else
      KeyedOnRows(w, ks[0]);
      After(Keyed(w, ks[0]), ks[1..])
  }

  /** No long join and no step out of the window's top, all along the run. */
  predicate Calm(w: Screen, ks: seq<Key>)
    requires w.doc.r >= 0
    decreases |ks|
  {
    ks != [] ==>
      && !LongJoin(w, ks[0]) && !TopWrap(w, ks[0])
      && (Inside(w, ks[0]) ==> (KeyedOnRows(w, ks[0]); Calm(Keyed(w, ks[0]), ks[1..])))
  }

  /** Over any such run of keys and arrows, nothing outside the rows is touched and every key does what it means. */
  lemma {:induction false} RunMeant(w: Screen, ks: seq<Key>)
    requires Placed(w) && w.coloff >= 0 && w.cy >= 0 && Calm(w, ks)
    ensures AllInside(w, ks) && Placed(After(w, ks)) && After(w, ks).coloff >= 0 && After(w, ks).cy >= 0
    ensures After(w, ks).doc == DocAfter(w.doc, ks)
    decreases |ks|
  {
    if ks != [] {
      InsideExactly(w, ks[0]);
      KeyMeant(w, ks[0]);
      OffsetTurnsNegative(w, ks[0]);
      LineTurnsNegative(w, ks[0]);
      RunMeant(Keyed(w, ks[0]), ks[1..]);
    }
  }

  /** One key of a run. */
  lemma StepTo(w: Screen, k: Key, ks: seq<Key>, v: Screen, goal: Screen)
    requires w.doc.r >= 0 && Inside(w, k) && Keyed(w, k) == v && v.doc.r >= 0
    requires AllInside(v, ks) && After(v, ks) == goal
    ensures AllInside(w, [k] + ks) && After(w, [k] + ks) == goal
  {
    assert ([k] + ks)[1..] == ks;
  }

  // ---- a deletion behind an edit, for every window ----

  lemma TypedIsUndone(w: Screen, ch: Byte)
    requires OnText(w.doc)
    ensures Inside(w, Type(ch))
    ensures var v := Keyed(w, Type(ch)); v.doc.r >= 0 && Inside(v, Delete) && Keyed(v, Delete).doc == w.doc
  {
    DeleteUndoesInsertChar(w.doc, ch);
    InsertCharIsSplice(w.doc, ch);
  }

  /** The line break sets the offset to zero, and so the join puts the cursor right. */
  lemma BreakIsUndone(w: Screen)
    requires OnText(w.doc)
    ensures Inside(w, Enter)
    ensures var v := Keyed(w, Enter); v.doc.r >= 0 && Inside(v, Delete) && Keyed(v, Delete).doc == w.doc
  {
    DeleteUndoesInsertNewline(w.doc);
    InsertNewlineIsSplice(w.doc);
  }

  // ---- how the rows are left ----

  /** In a new editor one line high, a line break and a step back put the cursor's line above the window. */
  lemma TwoKeys(cols: int)
    requires cols >= 1
    ensures var w, ks := Screen(Doc([], 0, 0), 0, 0, cols, 1), [Enter, Move(Left)];
            && AllInside(w, ks) && After(w, ks) == Screen(Doc([[]], 0, 0), 0, -1, cols, 1)
            && !Inside(After(w, ks), Move(Up))
  {
    var none, blank: seq<Text> := [], [[]];
    assert none + blank == blank;
    var w1 := Screen(Doc(blank, 1, 0), 0, 0, cols, 1);
    var w2 := Screen(Doc(blank, 0, 0), 0, -1, cols, 1);
    StepTo(w1, Move(Left), [], w2, w2);
    StepTo(Screen(Doc([], 0, 0), 0, 0, cols, 1), Enter, [Move(Left)], w1, w2);
    assert [Enter] + [Move(Left)] == [Enter, Move(Left)];
  }

  // ---- how the text is missed ----

  /** A window of one column and 24 lines, not scrolled down. */
  function Narrow(d: Doc, coloff: int): Screen {
    Screen(d, coloff, d.r, 1, 24)
  }

  function As(n: nat): Text {
    seq(n, i => 65)
  }

  /** Typing the (n + 1)-th A in the second row scrolls the window. */
  lemma TypeA(n: nat)
    ensures var d := Doc(if n == 0 then [[]] else [[], As(n)], 1, n);
            Keyed(Narrow(d, n), Type(65)) == Narrow(Doc([[], As(n + 1)], 1, n + 1), n + 1)
  {
    var blank: seq<Text> := [[]];
    var rows := if n == 0 then blank else [[], As(n)];
    assert As(0) == [];
    assert PadRows(rows, 1) == [[], As(n)] by { assert blank + blank == [[], []]; }
    assert As(n)[..n] + [65] + As(n)[n..] == As(n + 1);
    assert [[], As(n)][1 := As(n + 1)] == [[], As(n + 1)];
  }

  /** Deleting the n-th A, the offset being negative. */
  lemma DeleteA(n: nat)
    requires n > 0
    ensures Keyed(Narrow(Doc([[], As(n)], 1, n), -1), Delete) == Narrow(Doc([[], As(n - 1)], 1, n - 1), -1)
  {
    assert As(n)[..n - 1] + As(n)[n..] == As(n - 1);
    assert [[], As(n)][1 := As(n - 1)] == [[], As(n - 1)];
  }

  lemma BreakAAA()
    ensures Keyed(Narrow(Doc([[], As(3)], 1, 3), 3), Enter) == Narrow(Doc([[], As(3), []], 2, 0), 0)
  {
    assert As(3)[..3] == As(3) && As(3)[3..] == [];
    assert [[], As(3)][..1] + [As(3), []] + [[], As(3)][2..] == [[], As(3), []];
  }

  lemma JoinAAA()
    ensures Keyed(Narrow(Doc([[], As(3), []], 2, 0), 0), Delete) == Narrow(Doc([[], As(3)], 1, 3), -1)
  {
    var rows := [[], As(3), []];
    assert As(3) + [] == As(3);
    assert rows[..1] + [As(3) + []] + rows[3..] == [[], As(3)];
  }

  /** In a new editor. */
  lemma FourDeletions()
    ensures var w := Narrow(Doc([], 0, 0), 0);
            var ks := [Enter, Type(65), Type(65), Type(65), Enter, Delete, Delete, Delete, Delete];
            AllInside(w, ks) && After(w, ks) == Narrow(Doc([[], []], 1, 0), -1)
  {
    var goal := Narrow(Doc([[], []], 1, 0), -1);
    var rest := BreakAndDelete(goal);
    TypeThree(rest, goal);
    NineKeys(rest);
  }

  lemma NineKeys(rest: seq<Key>)
    requires rest == [Enter, Delete, Delete, Delete, Delete]
    ensures [Enter] + ([Type(65)] + ([Type(65)] + ([Type(65)] + rest))) ==
            [Enter, Type(65), Type(65), Type(65), Enter, Delete, Delete, Delete, Delete]
  {
  }

  /** Behind AAA: a line break, a join, three deletions. */
  lemma BreakAndDelete(goal: Screen) returns (ks: seq<Key>)
    requires goal == Narrow(Doc([[], []], 1, 0), -1)
    ensures ks == [Enter, Delete, Delete, Delete, Delete]
    ensures var v := Narrow(Doc([[], As(3)], 1, 3), 3); AllInside(v, ks) && After(v, ks) == goal
  {
    var d3 := [Delete] + ([Delete] + [Delete]);
    var d4 := [Delete] + d3;
    DeleteThree(goal);
    JoinAAA();
    StepTo(Narrow(Doc([[], As(3), []], 2, 0), 0), Delete, d3, Narrow(Doc([[], As(3)], 1, 3), -1), goal);
    BreakAAA();
    StepTo(Narrow(Doc([[], As(3)], 1, 3), 3), Enter, d4, Narrow(Doc([[], As(3), []], 2, 0), 0), goal);
    ks := [Enter] + d4;
  }

  lemma DeleteThree(goal: Screen)
    requires goal == Narrow(Doc([[], []], 1, 0), -1)
    ensures var w, ks := Narrow(Doc([[], As(3)], 1, 3), -1), [Delete] + ([Delete] + [Delete]);
            AllInside(w, ks) && After(w, ks) == goal
  {
    DeleteA(1);
    DeleteA(2);
    DeleteA(3);
    assert As(0) == [];
    var d1, d2 := [Delete], [Delete] + [Delete];
    StepTo(Narrow(Doc([[], As(1)], 1, 1), -1), Delete, [], goal, goal);
    StepTo(Narrow(Doc([[], As(2)], 1, 2), -1), Delete, d1, Narrow(Doc([[], As(1)], 1, 1), -1), goal);
    StepTo(Narrow(Doc([[], As(3)], 1, 3), -1), Delete, d2, Narrow(Doc([[], As(2)], 1, 2), -1), goal);
  }

  /** A line break and AAA, before whatever follows. */
  lemma TypeThree(ks: seq<Key>, goal: Screen)
    requires var v := Narrow(Doc([[], As(3)], 1, 3), 3); AllInside(v, ks) && After(v, ks) == goal
    ensures var w := Narrow(Doc([], 0, 0), 0);
            var all := [Enter] + ([Type(65)] + ([Type(65)] + ([Type(65)] + ks)));
            AllInside(w, all) && After(w, all) == goal
  {
    var k1 := [Type(65)] + ks;
    var k2 := [Type(65)] + k1;
    var k3 := [Type(65)] + k2;
    TypeA(0);
    TypeA(1);
    TypeA(2);
    StepTo(Narrow(Doc([[], As(2)], 1, 2), 2), Type(65), ks, Narrow(Doc([[], As(3)], 1, 3), 3), goal);
    StepTo(Narrow(Doc([[], As(1)], 1, 1), 1), Type(65), k1, Narrow(Doc([[], As(2)], 1, 2), 2), goal);
    StepTo(Narrow(Doc([[]], 1, 0), 0), Type(65), k2, Narrow(Doc([[], As(1)], 1, 1), 1), goal);
    FirstEnter(k3, goal);
  }

  lemma FirstEnter(ks: seq<Key>, goal: Screen)
    requires var v := Narrow(Doc([[]], 1, 0), 0); AllInside(v, ks) && After(v, ks) == goal
    ensures var w := Narrow(Doc([], 0, 0), 0); AllInside(w, [Enter] + ks) && After(w, [Enter] + ks) == goal
  {
    var none, blank: seq<Text> := [], [[]];
    assert none + blank == blank;
    StepTo(Narrow(Doc([], 0, 0), 0), Enter, ks, Narrow(Doc([[]], 1, 0), 0), goal);
  }

  lemma FifthDeletion()
    ensures Keyed(Narrow(Doc([[], []], 1, 0), -1), Delete) == Narrow(Doc([[]], 0, -1), -1)
  {
    var none: Text := [];
    var rows := [none, none];
    assert none + none == none;
    assert rows[..0] + [none] + rows[2..] == [none];
  }

  // ---- the edits from their parts ----

  lemma TypedIs(w: Screen, ch: Byte, v: Screen)
    requires w.doc.r >= 0 && w.doc.c >= 0
    requires v.doc.rows == RowTyped(PadRows(w.doc.rows, w.doc.r), w.doc.r, w.doc.c, ch)
    requires v.doc.r == w.doc.r && v.doc.c == w.doc.c + 1
    requires v.cols == w.cols && v.lines == w.lines && v.cy == w.cy
    requires v.coloff == if w.Cx() == w.cols - 1 then w.coloff + 1 else w.coloff
    ensures v == Keyed(w, Type(ch))
  {
  }

  lemma BrokenIs(w: Screen, v: Screen)
    requires w.doc.r >= 0 && Inside(w, Enter) && w.doc.r <= |w.doc.rows|
    requires v.cols == w.cols && v.lines == w.lines && v.cy == LineBelow(w)
    requires v.doc.r == w.doc.r + 1 && v.doc.c == 0 && v.coloff == 0
    requires v.doc.rows == RowEntered(w.doc.rows, w.doc.r, w.doc.c)
    ensures v == Keyed(w, Enter)
  {
  }

  lemma JoinedIs(w: Screen, v: Screen)
    requires IsJoin(w.doc) && v.cols == w.cols && v.lines == w.lines
    requires v.doc.rows == RowJoined(w.doc.rows, w.doc.r) && v.doc.r == w.doc.r - 1
    requires v.cy == if w.cy == 0 then 0 else w.cy - 1
    requires var above := |w.doc.rows[w.doc.r - 1]|;
             && v.doc.c == above + w.coloff
             && v.coloff == w.coloff + if above >= w.cols then w.cols - above + 1 else 0
    ensures v == Keyed(w, Delete)
  {
  }

  lemma CutIs(w: Screen, v: Screen)
    requires 0 <= w.doc.r < |w.doc.rows| && w.doc.c > 0
    requires v.cols == w.cols && v.lines == w.lines && v.cy == w.cy
    requires v.doc == Doc(RowCut(w.doc.rows, w.doc.r, w.doc.c), w.doc.r, w.doc.c - 1)
    requires v.coloff == if w.Cx() == 0 && w.coloff != 0 then w.coloff - 1 else w.coloff
    ensures v == Keyed(w, Delete)
  {
  }
}
