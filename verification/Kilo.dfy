/** The editor's state and the functions that edit it in place. */
module Kilo {
  import opened Outcomes
  import opened KiloText
  import opened KiloScreen
  import opened KiloFile
  import opened KiloRender

  // ---- byte buffers ----

  /** memmove within a buffer: n bytes from `from` to `to`. Both ranges must lie inside. */
  function Memmove(buf: seq<Byte>, to: nat, from: nat, n: nat): (r: seq<Byte>)
    requires to + n <= |buf| && from + n <= |buf|
    ensures |r| == |buf|
    ensures forall i :: 0 <= i < |buf| ==> r[i] == if to <= i < to + n then buf[from + i - to] else buf[i]
  {
    buf[..to] + buf[from..from + n] + buf[to + n..]
  }

  /** realloc to `n` bytes: the common part is kept, the rest arbitrary; here it is zero. */
  function Realloc(buf: seq<Byte>, n: nat): (r: seq<Byte>)
    ensures |r| == n
    ensures forall i :: 0 <= i < n && i < |buf| ==> r[i] == buf[i]
  {
    seq(n, i requires i >= 0 => if i < |buf| then buf[i] else 0)
  }

  /** A line: `size` bytes of the buffer `chars`, then a NUL; and its rendering. */
  datatype Row = Row(size: nat, chars: seq<Byte>, render: seq<Byte>) {
    predicate Sized() {
      size < |chars| && chars[size] == 0
    }

    function Contents(): Text
      requires Sized()
    {
      chars[..size]
    }

    /** The rendering belongs to the present text, if that can be rendered. */
    predicate Rendered()
      requires Sized()
    {
      var e := Expand(Contents());
      Renderable(Contents()) ==> |e| < |render| && render[..|e| + 1] == e + [0]
    }
  }

  predicate RowsOk(rows: seq<Row>) {
    forall i :: 0 <= i < |rows| ==> rows[i].Sized() && rows[i].Rendered()
  }

  function Texts(rows: seq<Row>): (t: seq<Text>)
    requires RowsOk(rows)
    ensures |t| == |rows| && forall i :: 0 <= i < |rows| ==> t[i] == rows[i].Contents()
  {
    seq(|rows|, i requires 0 <= i < |rows| => rows[i].Contents())
  }

  // ---- the row array, seen as texts ----

  lemma TextsInserted(rows: seq<Row>, at: nat, row: Row)
    requires RowsOk(rows) && at <= |rows| && row.Sized() && row.Rendered()
    ensures var r := rows[..at] + [row] + rows[at..];
            RowsOk(r) && Texts(r) == Texts(rows)[..at] + [row.Contents()] + Texts(rows)[at..]
  {
    var r := rows[..at] + [row] + rows[at..];
    assert forall i :: 0 <= i < |r| ==> r[i] == if i < at then rows[i] else if i == at then row else rows[i - 1];
  }

  lemma TextsRemoved(rows: seq<Row>, at: nat)
    requires RowsOk(rows) && at < |rows|
    ensures var r := rows[..at] + rows[at + 1..];
            RowsOk(r) && Texts(r) == Texts(rows)[..at] + Texts(rows)[at + 1..]
  {
    var r := rows[..at] + rows[at + 1..];
    assert forall i :: 0 <= i < |r| ==> r[i] == if i < at then rows[i] else rows[i + 1];
  }

  lemma TextsUpdated(rows: seq<Row>, at: nat, row: Row)
    requires RowsOk(rows) && at < |rows| && row.Sized() && row.Rendered()
    ensures RowsOk(rows[at := row]) && Texts(rows[at := row]) == Texts(rows)[at := row.Contents()]
  {
  }

  /** A row cut short, and what was behind the cut. */
  lemma RowParts(row: Row, c: nat)
    requires row.Sized() && c <= row.size
    ensures row.chars[c..][..row.size - c] == row.Contents()[c..] && row.chars[c..][row.size - c] == 0
    ensures var head := row.(chars := row.chars[c := 0], size := c); head.Sized() && head.Contents() == row.Contents()[..c]
  {
  }

  lemma SplitSeq(t: seq<Text>, f: nat, c: nat)
    requires f < |t| && c <= |t[f]|
    ensures (t[..f + 1] + [t[f][c..]] + t[f + 1..])[f := t[f][..c]] == RowBroken(t, f, c)
  {
  }

  lemma JoinSeq<T>(t: seq<T>, f: nat, joined: T)
    requires 0 < f < |t|
    ensures var u := t[f - 1 := joined]; u[..f] + u[f + 1..] == t[..f - 1] + [joined] + t[f + 1..]
  {
  }

  lemma InsertedAbove(t: seq<Text>, f: nat)
    requires f < |t|
    ensures t[..f] + [[]] + t[f..] == t[..f] + [t[f][..0], t[f][0..]] + t[f + 1..]
  {
    assert t[f][0..] == t[f] && t[f][..0] == [];
    assert t[f..] == [t[f]] + t[f + 1..];
  }

  /** The row editorUpdateRow leaves behind; the text is never touched. */
  method UpdateRow(row: Row) returns (updated: Row)
    requires row.Sized()
    ensures updated.Sized() && updated.Rendered()
    ensures updated.size == row.size && updated.chars == row.chars
  {
    var r := RenderRow(row.chars, row.size);
    updated := row.(render := if r.Done? then r.render else []);
  }

  /** Past the end: blanks up to column `at`, then the character. */
  method PadAndSet(row: Row, at: nat, c: Byte) returns (r: Row)
    requires row.Sized() && at > row.size
    ensures r.Sized() && r.Contents() == row.Contents() + Spaces(at - row.size) + [c]
  {
    var padlen := at - row.size;
    var chars := Realloc(row.chars, row.size + padlen + 2);
    assert chars[..row.size] == row.Contents();
    chars := chars[..row.size] + Spaces(padlen) + chars[at..];
    chars := chars[row.size + padlen + 1 := 0];
    chars := chars[at := c];
    r := row.(chars := chars, size := row.size + padlen + 1);
  }

  /** memmove by one makes a gap at `at`. */
  lemma GapMade(buf: seq<Byte>, at: nat, size: nat, c: Byte)
    requires at <= size && size + 2 == |buf|
    ensures var m := Memmove(buf, at + 1, at, size - at + 1)[at := c];
            m[..size + 1] == buf[..at] + [c] + buf[at..size] && m[size + 1] == buf[size]
  {
    var m := Memmove(buf, at + 1, at, size - at + 1)[at := c];
    var goal := buf[..at] + [c] + buf[at..size];
    assert forall i :: 0 <= i <= size ==> m[i] == goal[i];
  }

  /** memmove by one closes the gap at `at`. */
  lemma GapClosed(buf: seq<Byte>, at: nat, size: nat)
    requires at < size < |buf|
    ensures var m := Memmove(buf, at, at + 1, size - at);
            m[..size - 1] == buf[..at] + buf[at + 1..size] && m[size - 1] == buf[size]
  {
    var m := Memmove(buf, at, at + 1, size - at);
    var goal := buf[..at] + buf[at + 1..size];
    assert forall i :: 0 <= i < size - 1 ==> m[i] == goal[i];
  }

  /** Inside: the characters from `at` on, NUL included, move right by one. */
  method ShiftAndSet(row: Row, at: nat, c: Byte) returns (r: Row)
    requires row.Sized() && at <= row.size
    ensures r.Sized() && r.Contents() == row.Contents()[..at] + [c] + row.Contents()[at..]
  {
    var chars := Realloc(row.chars, row.size + 2);
    assert chars[..row.size] == row.Contents();
    GapMade(chars, at, row.size, c);
    assert chars[..at] == row.Contents()[..at] && chars[at..row.size] == row.Contents()[at..];
    chars := Memmove(chars, at + 1, at, row.size - at + 1);
    chars := chars[at := c];
    r := row.(chars := chars, size := row.size + 1);
  }

  /** Insert a character into a row, padding with blanks if it lies past the end. */
  method RowInsertChar(row: Row, at: nat, c: Byte) returns (r: Row)
    requires row.Sized()
    ensures r.Sized() && r.Rendered()
    ensures var padded := PadRow(row.Contents(), at);
            r.Contents() == padded[..at] + [c] + padded[at..]
  {
    if at > row.size {
      r := PadAndSet(row, at, c);
    } else {
      r := ShiftAndSet(row, at, c);
    }
    r := UpdateRow(r);
  }

  /** Append a string to a row. */
  method RowAppendString(row: Row, s: seq<Byte>, len: nat) returns (r: Row)
    requires row.Sized() && len <= |s|
    ensures r.Sized() && r.Rendered()
    ensures r.Contents() == row.Contents() + s[..len]
  {
    var chars := Realloc(row.chars, row.size + len + 1);
    chars := chars[..row.size] + s[..len] + chars[row.size + len..];
    chars := chars[row.size + len := 0];
    r := row.(chars := chars, size := row.size + len);
    assert chars[..row.size] == row.Contents();
    r := UpdateRow(r);
  }

  /** Delete one character of a row. The rendering is refreshed before the size is, and so is left stale. */
  method RowDelChar(row: Row, at: nat) returns (r: Row)
    requires row.Sized()
    ensures r.Sized()
    ensures r.Contents() == if at < row.size then row.Contents()[..at] + row.Contents()[at + 1..] else row.Contents()
    ensures row.size <= at ==> r == row
  {
    if row.size <= at {
      return row;
    }
    var chars := Memmove(row.chars, at, at + 1, row.size - at);
    var rendering := RenderRow(chars, row.size);
    r := Row(row.size, chars, if rendering.Done? then rendering.render else []);
    r := r.(size := row.size - 1);
    GapClosed(row.chars, at, row.size);
    assert row.Contents()[..at] == row.chars[..at] && row.Contents()[at + 1..] == row.chars[at + 1..row.size];
  }

  class Editor {
    var cx: int
    var cy: int
    var rowoff: int
    var coloff: int
    var screenrows: int
    var screencols: int
    var rows: seq<Row>
    var dirty: nat

    constructor (screenrows: int, screencols: int)
      ensures Valid() && Screen() == KiloScreen.Screen(Doc([], 0, 0), 0, 0, screencols, screenrows)
      ensures dirty == 0
    {
      cx, cy, rowoff, coloff := 0, 0, 0, 0;
      this.screenrows, this.screencols := screenrows, screencols;
      rows, dirty := [], 0;
    }

    predicate Valid()
      reads this
    {
      RowsOk(rows) && rowoff + cy >= 0
    }

    /** The text with its logical cursor. */
    function Document(): Doc
      requires Valid()
      reads this
    {
      Doc(Texts(rows), rowoff + cy, coloff + cx)
    }

    /** The same with what the next edit's effect on the cursor depends on. */
    function Screen(): KiloScreen.Screen
      requires Valid()
      reads this
    {
      KiloScreen.Screen(Document(), coloff, cy, screencols, screenrows)
    }

    /** Insert a row, shifting those below it. `len` bytes and a NUL are taken from `s`. */
    method InsertRow(at: nat, s: seq<Byte>, len: nat)
      requires Valid() && len < |s| && s[len] == 0
      modifies this`rows, this`dirty
      ensures Valid()
      ensures Texts(rows) == if at > |old(rows)| then old(Texts(rows))
                             else old(Texts(rows))[..at] + [s[..len]] + old(Texts(rows))[at..]
      ensures at <= |old(rows)| ==> |rows| == |old(rows)| + 1 && rows[..at] == old(rows)[..at]
    {
      if at > |rows| {
        return;
      }
      assert s[..len + 1][..len] == s[..len];
      var row := UpdateRow(Row(len, s[..len + 1], []));
      TextsInserted(rows, at, row);
      rows := rows[..at] + [row] + rows[at..];
      dirty := dirty + 1;
    }

    /** Remove a row, shifting those below it. */
    method DelRow(at: nat)
      requires Valid()
      modifies this`rows, this`dirty
      ensures Valid()
      ensures Texts(rows) == if at >= |old(rows)| then old(Texts(rows))
                             else old(Texts(rows))[..at] + old(Texts(rows))[at + 1..]
    {
      if at >= |rows| {
        return;
      }
      TextsRemoved(rows, at);
      rows := rows[..at] + rows[at + 1..];
      dirty := dirty + 1;
    }

    /**
     * Type a character, adding rows and blanks if the cursor is beyond the
     * text. Left of the text the insertion reads and writes outside the row:
     * then nothing more is said.
     */
    method InsertChar(c: int) returns (inside: bool)
      requires Valid()
      modifies this
      ensures Valid() && inside == Inside(old(Screen()), Type(c % 256))
      ensures inside ==> Screen() == Keyed(old(Screen()), Type(c % 256))
    {
      var filerow: nat := rowoff + cy;
      var filecol := coloff + cx;
      ghost var w := Screen();
      FillRows(filerow);
      if filecol < 0 {
        return false;
      }
      SetChar(filerow, filecol, c % 256);
      StepRight();
      TypedIs(w, c % 256, Screen());
      return true;
    }

    /** The cursor goes one column on, scrolling if need be. */
    method StepRight()
      modifies this`cx, this`coloff, this`dirty
      ensures coloff + cx == old(coloff + cx) + 1
      ensures coloff == if old(cx) == screencols - 1 then old(coloff) + 1 else old(coloff)
    {
      if cx == screencols - 1 {
        coloff := coloff + 1;
      } else {
        cx := cx + 1;
      }
      dirty := dirty + 1;
    }

    /** An empty row at the end. */
    method AppendRow()
      requires Valid()
      modifies this`rows, this`dirty
      ensures Valid() && Texts(rows) == old(Texts(rows)) + [[]]
    {
      InsertRow(|rows|, [0], 0);
    }

    /** Empty rows are added until the row exists. */
    method FillRows(filerow: nat)
      requires Valid()
      modifies this`rows, this`dirty
      ensures Valid() && Texts(rows) == PadRows(old(Texts(rows)), filerow)
    {
      ghost var before := Texts(rows);
      while |rows| <= filerow
        invariant Valid()
        invariant PadRows(Texts(rows), filerow) == PadRows(before, filerow)
        decreases filerow - |rows|
      {
        AppendRow();
      }
    }

    method SetChar(filerow: nat, filecol: nat, c: Byte)
      requires Valid() && filerow < |rows|
      modifies this`rows, this`dirty
      ensures Valid() && Texts(rows) == RowTyped(old(Texts(rows)), filerow, filecol, c)
    {
      var row := RowInsertChar(rows[filerow], filecol, c);
      TextsUpdated(rows, filerow, row);
      rows := rows[filerow := row];
      dirty := dirty + 1;
    }

    /** The cursor goes to the start of the next row, scrolling if need be; `w` is how things were before the line break. */
    method FixCursor(ghost w: KiloScreen.Screen)
      requires Valid() && w == Screen().(doc := w.doc) && w.doc.r == rowoff + cy
      requires w.doc.r <= |w.doc.rows| && KiloScreen.Inside(w, Enter)
      requires Texts(rows) == RowEntered(w.doc.rows, w.doc.r, w.doc.c)
      modifies this`cx, this`cy, this`rowoff, this`coloff
      ensures Valid() && Screen() == Keyed(w, Enter)
    {
      if cy == screenrows - 1 {
        rowoff := rowoff + 1;
      } else {
        cy := cy + 1;
      }
      cx := 0;
      coloff := 0;
      BrokenIs(w, Screen());
    }

    /** Break the line at the cursor; left of the text that reads outside the row. */
    method InsertNewline() returns (inside: bool)
      requires Valid()
      modifies this
      ensures Valid() && inside == Inside(old(Screen()), Enter)
      ensures inside ==> Screen() == Keyed(old(Screen()), Enter)
    {
      var filerow: nat := rowoff + cy;
      var filecol := coloff + cx;
      if filerow > |rows| {
        return true;
      }
      if filerow < |rows| && filecol < 0 {
        return false;
      }
      EnterAt(filerow, filecol);
      return true;
    }

    method EnterAt(filerow: nat, filecol: int)
      requires Valid() && filerow <= |rows| && (filerow < |rows| ==> filecol >= 0)
      requires filerow == rowoff + cy && filecol == coloff + cx
      modifies this`rows, this`dirty, this`cx, this`cy, this`rowoff, this`coloff
      ensures Valid() && Screen() == Keyed(old(Screen()), Enter)
    {
      ghost var w := Screen();
      EnterRow(filerow, filecol, w.doc.rows);
      FixCursor(w);
    }

    method EnterRow(filerow: nat, filecol: int, ghost t: seq<Text>)
      requires Valid() && t == Texts(rows) && filerow <= |rows| && (filerow < |rows| ==> filecol >= 0)
      modifies this`rows, this`dirty
      ensures Valid() && Texts(rows) == RowEntered(t, filerow, filecol)
    {
      if filerow == |rows| {
        AppendRow();
      } else {
        BreakRow(filerow, filecol);
      }
    }

    /** An empty row goes above, or the row is split; past its end counts as at its end. */
    method BreakRow(filerow: nat, col: nat)
      requires Valid() && filerow < |rows|
      modifies this`rows, this`dirty
      ensures Valid() && Texts(rows) == RowBroken(old(Texts(rows)), filerow, col)
    {
      var filecol := col;
      if filecol >= rows[filerow].size {
        filecol := rows[filerow].size;
      }
      InsertedAbove(Texts(rows), filerow);
      if filecol == 0 {
        InsertRow(filerow, [0], 0);
      } else {
        SplitRow(filerow, filecol);
      }
    }

    /** The middle of a line: the tail becomes a row of its own, the head is cut short. */
    method SplitRow(filerow: nat, filecol: nat)
      requires Valid() && filerow < |rows| && filecol <= rows[filerow].size
      modifies this`rows, this`dirty
      ensures Valid() && Texts(rows) == RowBroken(old(Texts(rows)), filerow, filecol)
    {
      ghost var t := Texts(rows);
      var row := rows[filerow];
      RowParts(row, filecol);
      InsertRow(filerow + 1, row.chars[filecol..], row.size - filecol);
      assert Texts(rows) == t[..filerow + 1] + [t[filerow][filecol..]] + t[filerow + 1..];
      CutHead(filerow, filecol);
      SplitSeq(t, filerow, filecol);
    }

    /** A row is cut short at column `filecol`. */
    method CutHead(filerow: nat, filecol: nat)
      requires Valid() && filerow < |rows| && filecol <= rows[filerow].size
      modifies this`rows
      ensures Valid() && Texts(rows) == old(Texts(rows))[filerow := old(Texts(rows))[filerow][..filecol]]
    {
      var row := rows[filerow];
      RowParts(row, filecol);
      var head := row.(chars := row.chars[filecol := 0], size := filecol);
      head := UpdateRow(head);
      TextsUpdated(rows, filerow, head);
      rows := rows[filerow := head];
    }

    /**
     * Delete the character before the cursor, joining rows at the start of
     * one. The logical cursor then lands on the join, except that a column
     * offset left from before is still added to it. Left of the text the
     * deletion moves bytes outside the row.
     */
    method DelChar() returns (inside: bool)
      requires Valid()
      modifies this
      ensures Valid() && inside == Inside(old(Screen()), Delete)
      ensures inside ==> Screen() == Keyed(old(Screen()), Delete)
    {
      var filerow: nat := rowoff + cy;
      var filecol := coloff + cx;
      if filerow >= |rows| || (filecol == 0 && filerow == 0) {
        return true;
      }
      if filecol < 0 {
        return false;
      }
      DeleteAt(filerow, filecol);
      dirty := dirty + 1;
      return true;
    }

    method DeleteAt(filerow: nat, filecol: nat)
      requires Valid() && filerow < |rows| && filerow + filecol > 0
      requires filerow == rowoff + cy && filecol == coloff + cx
      modifies this`rows, this`dirty, this`cx, this`cy, this`rowoff, this`coloff
      ensures Valid() && Screen() == Keyed(old(Screen()), Delete)
    {
      ghost var w := Screen();
      if filecol == 0 {
        var above := rows[filerow - 1].size;
        JoinRows(filerow);
        PlaceAtJoin(above, w);
      } else {
        CutChar(filerow, filecol);
        StepBack(w);
      }
    }

    /** The cursor goes to where the rows meet, and past the window's edge in part to the offset; `w` is how things were. */
    method PlaceAtJoin(filecol: nat, ghost w: KiloScreen.Screen)
      requires Valid() && w == Screen().(doc := w.doc) && w.doc.r == rowoff + cy && w.doc.c == coloff + cx
      requires IsJoin(w.doc) && filecol == |w.doc.rows[w.doc.r - 1]| && Texts(rows) == RowJoined(w.doc.rows, w.doc.r)
      modifies this`cx, this`cy, this`rowoff, this`coloff
      ensures Valid() && Screen() == Keyed(w, Delete)
    {
      if cy == 0 {
        rowoff := rowoff - 1;
      } else {
        cy := cy - 1;
      }
      cx := filecol;
      if cx >= screencols {
        var shift := screencols - cx + 1;
        cx := cx - shift;
        coloff := coloff + shift;
      }
      JoinedIs(w, Screen());
    }

    /** Elsewhere the cursor steps left. */
    method StepBack(ghost w: KiloScreen.Screen)
      requires Valid() && w == Screen().(doc := w.doc) && w.doc.r == rowoff + cy && w.doc.c == coloff + cx
      requires w.doc.r < |w.doc.rows| && w.doc.c > 0 && Texts(rows) == RowCut(w.doc.rows, w.doc.r, w.doc.c)
      modifies this`cx, this`coloff
      ensures Valid() && Screen() == Keyed(w, Delete)
    {
      if cx == 0 && coloff != 0 {
        coloff := coloff - 1;
      } else {
        cx := cx - 1;
      }
      CutIs(w, Screen());
    }

    /** One character of the row goes. */
    method CutChar(filerow: nat, filecol: nat)
      requires Valid() && filerow < |rows| && 0 < filecol
      modifies this`rows
      ensures Valid() && Texts(rows) == RowCut(old(Texts(rows)), filerow, filecol)
    {
      var row := RowDelChar(rows[filerow], filecol - 1);
      row := UpdateRow(row);
      TextsUpdated(rows, filerow, row);
      rows := rows[filerow := row];
    }

    /** A row is appended to the one above it and removed. */
    method JoinRows(filerow: nat)
      requires Valid() && 0 < filerow < |rows|
      modifies this`rows, this`dirty
      ensures Valid() && Texts(rows) == RowJoined(old(Texts(rows)), filerow)
    {
      ghost var t := Texts(rows);
      var row := rows[filerow];
      var joined := RowAppendString(rows[filerow - 1], row.chars, row.size);
      TextsUpdated(rows, filerow - 1, joined);
      JoinSeq(t, filerow, joined.Contents());
      rows := rows[filerow - 1 := joined];
      dirty := dirty + 1;
      DelRow(filerow);
    }

    /** All rows as one buffer, each with its newline, and a closing NUL. */
    method RowsToString() returns (buf: array<Byte>, buflen: nat)
      requires Valid()
      ensures fresh(buf) && buflen == |Flat(Texts(rows))| && buf.Length == buflen + 1
      ensures buf[..buflen] == Flat(Texts(rows)) && buf[buflen] == 0
    {
      var totlen := 0;
      ghost var t := Texts(rows);
      for j := 0 to |rows|
        invariant totlen == |Flat(t[..j])|
      {
        FlatSnoc(t, j);
        totlen := totlen + rows[j].size + 1;
      }
      assert t[..|rows|] == t;
      buflen := totlen;
      buf := new Byte[totlen + 1];
      var p := 0;
      for j := 0 to |rows|
        invariant p == |Flat(t[..j])| <= buflen
        invariant buf[..p] == Flat(t[..j])
      {
        FlatSnoc(t, j);
        FlatPrefix(t, j + 1);
        p := PutLine(rows[j].chars, rows[j].size, buf, p);
      }
      buf[p] := 0;
    }

    /** getline, strip, append: one turn of the loading loop. */
    method LoadLine(content: seq<Byte>) returns (rest: seq<Byte>)
      requires Valid() && content != []
      modifies this`rows, this`dirty
      ensures Valid() && |rest| < |content|
      ensures |Texts(rows)| == |old(Texts(rows))| + 1 && old(Texts(rows)) == Texts(rows)[..|old(Texts(rows))|]
      ensures Loaded(content) == [Texts(rows)[|old(Texts(rows))|]] + Loaded(rest)
    {
      LoadedStep(content);
      var linelen := LineLength(content);
      var line := Stripped(content[..linelen]);
      assert (line + [0])[..|line|] == line;
      InsertRow(|rows|, line + [0], |line|);
      rest := content[linelen..];
    }

    /** Load a file's bytes: every line becomes a row at the end. */
    method Open(content: seq<Byte>)
      requires Valid()
      modifies this`rows, this`dirty
      ensures Valid() && dirty == 0
      ensures Texts(rows) == old(Texts(rows)) + Loaded(content)
    {
      dirty := 0;
      var rest := content;
      ghost var goal := Texts(rows) + Loaded(content);
      while rest != []
        invariant Valid()
        invariant Texts(rows) + Loaded(rest) == goal
        decreases |rest|
      {
        ghost var t := Texts(rows);
        ghost var left := Loaded(rest);
        rest := LoadLine(rest);
        MoveFirst(t, left, Texts(rows), Loaded(rest));
      }
      dirty := 0;
    }

    /** An arrow key: a step, then back to the end of the row if that led beyond it. */
    method MoveCursor(a: Arrow) returns (inside: bool)
      requires Valid()
      modifies this`cx, this`cy, this`rowoff, this`coloff
      ensures Valid() && inside == Inside(old(Screen()), Move(a))
      ensures inside ==> Screen() == Keyed(old(Screen()), Move(a))
    {
      ghost var w := Screen();
      inside := GoStep(a);
      if inside {
        GoneOnRows(w, a);
        Clip();
      }
    }

    /** The step alone. Where the code would go on to read above the first row, or below the last, it stops. */
    method GoStep(a: Arrow) returns (inside: bool)
      requires Valid()
      modifies this`cx, this`cy, this`rowoff, this`coloff
      ensures Valid() && inside == Inside(old(Screen()), Move(a))
      ensures inside ==> Screen() == Gone(old(Screen()), a)
    {
      match a
      case Left => inside := GoLeft();
      case Right =>
        GoRight();
        inside := true;
      case Up => inside := GoUp();
      case Down =>
        if rowoff + cy < |rows| {
          GoDown();
        }
        inside := true;
    }

    method GoLeft() returns (inside: bool)
      requires Valid()
      modifies this`cx, this`cy, this`coloff
      ensures Valid() && inside == Inside(old(Screen()), Move(Left))
      ensures inside ==> Screen() == GoneLeft(old(Screen()))
    {
      var filerow := rowoff + cy;
      if cx != 0 {
        cx := cx - 1;
      } else if coloff != 0 {
        coloff := coloff - 1;
      } else if filerow > 0 {
        if filerow > |rows| {
          return false;
        }
        cy := cy - 1;
        cx := rows[filerow - 1].size;
        if cx > screencols - 1 {
          coloff := cx - screencols + 1;
          cx := screencols - 1;
        }
      }
      return true;
    }

    method GoRight()
      requires Valid()
      modifies this`cx, this`cy, this`rowoff, this`coloff
      ensures Valid() && Screen() == GoneRight(old(Screen()))
    {
      var filerow, filecol := rowoff + cy, coloff + cx;
      if filerow >= |rows| {
        return;
      }
      if filecol < rows[filerow].size {
        if cx == screencols - 1 {
          coloff := coloff + 1;
        } else {
          cx := cx + 1;
        }
      } else if filecol == rows[filerow].size {
        cx := 0;
        coloff := 0;
        GoDown();
      }
    }

    method GoUp() returns (inside: bool)
      requires Valid()
      modifies this`cy, this`rowoff
      ensures Valid() && inside == Inside(old(Screen()), Move(Up))
      ensures inside ==> Screen() == GoneUp(old(Screen()))
    {
      if cy == 0 {
        if rowoff != 0 {
          rowoff := rowoff - 1;
        }
        return true;
      }
      if rowoff + cy == 0 {
        return false;
      }
      cy := cy - 1;
      return true;
    }

    method GoDown()
      requires Valid()
      modifies this`cy, this`rowoff
      ensures Valid() && Screen() == GoneDown(old(Screen()))
    {
      if cy == screenrows - 1 {
        rowoff := rowoff + 1;
      } else {
        cy := cy + 1;
      }
    }

    /** Fix cx if the current line has not enough characters. */
    method Clip()
      requires Valid()
      modifies this`cx, this`coloff
      ensures Valid() && Screen() == Clipped(old(Screen()))
    {
      var filerow, filecol := rowoff + cy, coloff + cx;
      var rowlen := if filerow < |rows| then rows[filerow].size else 0;
      if filecol > rowlen {
        cx := cx - (filecol - rowlen);
        if cx < 0 {
          coloff := coloff + cx;
          cx := 0;
        }
      }
    }

    /** Where on screen the cursor is drawn. */
    method CursorX() returns (x: nat, inside: bool)
      requires Valid()
      ensures inside <==> rowoff + cy >= |rows| || coloff >= 0 || cx <= 0
      ensures inside ==> x == if rowoff + cy >= |rows| then 1
                              else 1 + |Expand(Passed(Texts(rows)[rowoff + cy], coloff, coloff + cx))|
    {
      if rowoff + cy >= |rows| {
        return 1, true;
      }
      x, inside := CursorColumn(rows[rowoff + cy].Contents(), coloff, cx);
    }

    // ---- clients: what a user sees ----

    /** Any keys, as long as the edits stay inside their rows. */
    method Press(ks: seq<Key>) returns (inside: bool)
      requires Valid()
      modifies this
      ensures Valid() && inside == AllInside(old(Screen()), ks)
      ensures inside ==> Screen() == After(old(Screen()), ks)
    {
      var rest := ks;
      ghost var start := Screen();
      while rest != []
        invariant Valid()
        invariant AllInside(start, ks) == AllInside(Screen(), rest)
        invariant AllInside(start, ks) ==> After(start, ks) == After(Screen(), rest)
        decreases |rest|
      {
        var ok := PressOne(rest[0]);
        if !ok {
          return false;
        }
        rest := rest[1..];
      }
      return true;
    }

    method PressOne(k: Key) returns (inside: bool)
      requires Valid()
      modifies this
      ensures Valid() && inside == Inside(old(Screen()), k)
      ensures inside ==> Screen() == Keyed(old(Screen()), k)
    {
      match k
      case Type(ch) => inside := InsertChar(ch);
      case Enter => inside := InsertNewline();
      case Delete => inside := DelChar();
      case Move(a) => inside := MoveCursor(a);
    }

    /** A character typed on the text and deleted again: text and logical cursor are back. */
    method TypeThenDelete(c: int)
      requires Valid() && OnText(Document())
      modifies this
      ensures Valid() && Document() == old(Document())
    {
      TypedIsUndone(Screen(), c % 256);
      var _ := InsertChar(c);
      var _ := DelChar();
    }

    /** A line broken on the text and joined again: text and logical cursor are back. */
    method BreakThenJoin()
      requires Valid() && OnText(Document())
      modifies this
      ensures Valid() && Document() == old(Document())
    {
      BreakIsUndone(Screen());
      var _ := InsertNewline();
      var _ := DelChar();
    }

    /**
     * How an editor comes to miss the text: in a new one, one column wide, a
     * line break, AAA, a line break and four deletions leave two empty rows
     * and a column offset of -1, and drawing the cursor reads left of the row.
     * One more deletion leaves the cursor left of the text, and what is typed
     * there is written outside the row.
     */
    method JoinMissesTheText() returns (four: Doc, offset: int, drawn: bool, five: Doc, typed: bool)
      requires Valid() && Screen() == Narrow(Doc([], 0, 0), 0)
      modifies this
      ensures four == Doc([[], []], 1, 0) && offset == -1 && !drawn
      ensures five == Doc([[]], 0, -1) && !OnText(five) && !typed
    {
      FourDeletions();
      var ok := Press([Enter, Type(65), Type(65), Type(65), Enter, Delete, Delete, Delete, Delete]);
      four, offset := Document(), coloff;
      var x;
      x, drawn := CursorX();
      FifthDeletion();
      ok := DelChar();
      five := Document();
      typed := InsertChar(65);
    }

    /**
     * How an editor comes to read above its rows: in a new one, one line high,
     * a line break, the arrow left and the arrow up.
     */
    method UpLeavesTheRows() returns (two: bool, third: bool)
      requires Valid() && screencols >= 1
      requires Screen() == KiloScreen.Screen(Doc([], 0, 0), 0, 0, screencols, 1)
      modifies this
      ensures two && !third
    {
      TwoKeys(screencols);
      two := Press([Enter, Move(Left)]);
      third := PressOne(Move(Up));
    }

    /** Rows saved and loaded into an empty editor are the same rows. */
    method SaveThenOpen(other: Editor)
      requires Valid() && other.Valid() && other.rows == [] && other != this
      requires forall row :: row in Texts(rows) ==> NEWLINE !in row
      modifies other
      ensures other.Valid() && Texts(other.rows) == Texts(rows)
    {
      LoadUndoesSave(Texts(rows));
      var buf, buflen := RowsToString();
      other.Open(buf[..buflen]);
    }
  }

  lemma MoveFirst<T>(a: seq<T>, b: seq<T>, a': seq<T>, b': seq<T>)
    requires |a'| == |a| + 1 && a'[..|a|] == a && b == [a'[|a|]] + b'
    ensures a + b == a' + b'
  {
    assert a' == a + [a'[|a|]];
  }

  /** One row and its newline at `p`. */
  method PutLine(chars: seq<Byte>, size: nat, buf: array<Byte>, p: nat) returns (end: nat)
    requires size <= |chars| && p + size + 1 <= buf.Length
    modifies buf
    ensures end == p + size + 1
    ensures buf[..end] == old(buf[..p]) + (chars[..size] + [NEWLINE])
  {
    forall i | 0 <= i < size {
      buf[p + i] := chars[i];
    }
    buf[p + size] := NEWLINE;
    end := p + size + 1;
  }

  lemma FlatSnoc(t: seq<Text>, j: nat)
    requires j < |t|
    ensures Flat(t[..j + 1]) == Flat(t[..j]) + (t[j] + [NEWLINE])
  {
    assert t[..j + 1] == t[..j] + [t[j]];
    FlatAppend(t[..j], [t[j]]);
    FlatOne(t[j]);
  }

  lemma FlatPrefix(t: seq<Text>, j: nat)
    requires j <= |t|
    ensures |Flat(t[..j])| <= |Flat(t)|
  {
    assert t == t[..j] + t[j..];
    FlatAppend(t[..j], t[j..]);
  }
}
