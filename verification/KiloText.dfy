/**
 * What editing means: a document is rows of text with a logical cursor, and
 * it reads as one flat string in which every row ends with a newline.
 */
module KiloText {
  import opened Outcomes

  const NEWLINE: Byte := 10
  const RETURN: Byte := 13
  const SPACE: Byte := 32
  const TAB: Byte := 9

  type Text = seq<Byte>

  /** Rows and the logical cursor: row rowoff + cy, column coloff + cx. */
  datatype Doc = Doc(rows: seq<Text>, r: int, c: int)

  function Flat(rows: seq<Text>): seq<Byte> {
    if rows == [] then [] else rows[0] + [NEWLINE] + Flat(rows[1..])
  }

  /** The cursor stands on an existing row, not past its end. */
  predicate OnText(d: Doc) {
    0 <= d.r < |d.rows| && 0 <= d.c <= |d.rows[d.r]|
  }

  /** Where the cursor stands in the flat string. */
  function Offset(d: Doc): nat
    requires OnText(d)
  {
    |Flat(d.rows[..d.r])| + d.c
  }

  // ---- the edits ----

  function Spaces(n: nat): (s: Text)
    ensures |s| == n && forall i :: 0 <= i < n ==> s[i] == SPACE
  {
    seq(n, i => SPACE)
  }

  /** Rows enough for row `r` to exist. */
  function PadRows(rows: seq<Text>, r: nat): (p: seq<Text>)
    ensures |p| == if r < |rows| then |rows| else r + 1
    ensures rows <= p && forall i :: |rows| <= i < |p| ==> p[i] == []
    decreases r - |rows|
  {
    if r < |rows| then rows else PadRows(rows + [[]], r)
  }

  /** A row long enough for column `c` to exist. */
  function PadRow(row: Text, c: nat): (p: Text)
    ensures |p| >= c
  {
    if c > |row| then row + Spaces(c - |row|) else row
  }

  /** The rows with `ch` put in at column `c` of row `r`. */
  function RowTyped(rows: seq<Text>, r: nat, c: nat, ch: Byte): (t: seq<Text>)
    requires r < |rows|
    ensures |t| == |rows|
  {
    var row := PadRow(rows[r], c);
    rows[r := row[..c] + [ch] + row[c..]]
  }

  /** The rows with row `r` broken at column `c`, or at its end. */
  function RowBroken(rows: seq<Text>, r: nat, c: nat): (t: seq<Text>)
    requires r < |rows|
    ensures |t| == |rows| + 1
  {
    var row := rows[r];
    var k := if c >= |row| then |row| else c;
    rows[..r] + [row[..k], row[k..]] + rows[r + 1..]
  }

  /** The same, or an empty row more if `r` is the row after the last. */
  function RowEntered(rows: seq<Text>, r: nat, c: int): (t: seq<Text>)
    requires r <= |rows| && (r < |rows| ==> c >= 0)
    ensures |t| == |rows| + 1
  {
    if r == |rows| then rows + [[]] else RowBroken(rows, r, c)
  }

  /** The rows with row `r` joined to the one above it. */
  function RowJoined(rows: seq<Text>, r: nat): (t: seq<Text>)
    requires 0 < r < |rows|
    ensures |t| == |rows| - 1
  {
    rows[..r - 1] + [rows[r - 1] + rows[r]] + rows[r + 1..]
  }

  /** The rows without the character before column `c` of row `r`, if there is one. */
  function RowCut(rows: seq<Text>, r: nat, c: nat): (t: seq<Text>)
    requires r < |rows| && c > 0
    ensures |t| == |rows|
  {
    var row := rows[r];
    rows[r := if c <= |row| then row[..c - 1] + row[c..] else row]
  }

  function DocInsertChar(d: Doc, ch: Byte): Doc
    requires d.r >= 0 && d.c >= 0
  {
    Doc(RowTyped(PadRows(d.rows, d.r), d.r, d.c, ch), d.r, d.c + 1)
  }

  function DocInsertNewline(d: Doc): Doc
    requires d.r >= 0 && (d.r < |d.rows| ==> d.c >= 0)
  {
    if d.r > |d.rows| then d else Doc(RowEntered(d.rows, d.r, d.c), d.r + 1, 0)
  }

  function DocDelete(d: Doc): Doc
    requires d.r >= 0 && (d.r < |d.rows| ==> d.c >= 0)
  {
    if d.r >= |d.rows| || (d.r == 0 && d.c == 0) then d
    else if d.c == 0 then Doc(RowJoined(d.rows, d.r), d.r - 1, |d.rows[d.r - 1]|)
    else Doc(RowCut(d.rows, d.r, d.c), d.r, d.c - 1)
  }

  datatype Arrow = Left | Right | Up | Down

  datatype Key = Type(ch: Byte) | Enter | Delete | Move(arrow: Arrow)

  /** A cursor beyond the end of its row goes to the end; below the rows there is column 0 only. */
  function DocClipped(d: Doc): Doc
    requires d.r >= 0
  {
    var rowlen := if d.r < |d.rows| then |d.rows[d.r]| else 0;
    if d.c > rowlen then d.(c := rowlen) else d
  }

  /** Where an arrow leads: along the text, over the ends of rows, one row up or down. */
  function DocMoved(d: Doc, a: Arrow): Doc
    requires 0 <= d.r <= |d.rows|
  {
    DocClipped(
      match a
      case Left =>
        if d.c != 0 then d.(c := d.c - 1)
        else if d.r > 0 then d.(r := d.r - 1, c := |d.rows[d.r - 1]|)
        else d
      case Right =>
        if d.r == |d.rows| || d.c > |d.rows[d.r]| then d
        else if d.c < |d.rows[d.r]| then d.(c := d.c + 1)
        else d.(r := d.r + 1, c := 0)
      case Up => if d.r > 0 then d.(r := d.r - 1) else d
      case Down => if d.r < |d.rows| then d.(r := d.r + 1) else d)
  }

  /** Where a key means something: typing and the others on the text, arrows also below it. */
  predicate Meant(d: Doc, k: Key) {
    match k
    case Type(_) => d.r >= 0 && d.c >= 0
    case Move(_) => 0 <= d.r <= |d.rows|
    case _ => d.r >= 0 && (d.r < |d.rows| ==> d.c >= 0)
  }

  function DocKeyed(d: Doc, k: Key): Doc
    requires Meant(d, k)
  {
    match k
    case Type(ch) => DocInsertChar(d, ch)
    case Enter => DocInsertNewline(d)
    case Delete => DocDelete(d)
    case Move(a) => DocMoved(d, a)
  }

  /** The keys meant, as long as they mean something. */
  function DocAfter(d: Doc, ks: seq<Key>): Doc
    decreases |ks|
  {
    if ks == [] || !Meant(d, ks[0]) then d else DocAfter(DocKeyed(d, ks[0]), ks[1..])
  }

  // ---- on the flat string ----

  lemma {:induction false} FlatAppend(a: seq<Text>, b: seq<Text>)
    ensures Flat(a + b) == Flat(a) + Flat(b)
  {
    if a == [] {
      assert a + b == b;
    } else {
      assert (a + b)[1..] == a[1..] + b;
      FlatAppend(a[1..], b);
    }
  }

  /** Replacing row `r` by `mid` replaces its stretch of the flat string. */
  lemma FlatReplaced(rows: seq<Text>, r: nat, mid: seq<Text>)
    requires r < |rows|
    ensures Flat(rows[..r] + mid + rows[r + 1..]) == Flat(rows[..r]) + Flat(mid) + Flat(rows[r + 1..])
  {
    FlatAppend(rows[..r] + mid, rows[r + 1..]);
    FlatAppend(rows[..r], mid);
  }

  /** The flat string cut at row `r`. */
  lemma FlatAround(rows: seq<Text>, r: nat)
    requires r < |rows|
    ensures Flat(rows) == Flat(rows[..r]) + rows[r] + ([NEWLINE] + Flat(rows[r + 1..]))
  {
    CutAtRow(rows, r);
    FlatPieces(rows[..r], rows[r], rows[r + 1..]);
  }

  lemma CutAtRow(rows: seq<Text>, r: nat)
    requires r < |rows|
    ensures rows == rows[..r] + ([rows[r]] + rows[r + 1..])
  {
  }

  lemma FlatPieces(before: seq<Text>, row: Text, after: seq<Text>)
    ensures Flat(before + ([row] + after)) == Flat(before) + row + ([NEWLINE] + Flat(after))
  {
    FlatAppend(before, [row] + after);
    FlatCons(row, after);
    Regroup(Flat(before), row, [NEWLINE], Flat(after));
  }

  lemma Regroup(a: seq<Byte>, b: seq<Byte>, c: seq<Byte>, d: seq<Byte>)
    ensures a + (b + c + d) == a + b + (c + d)
  {
  }

  lemma FlatCons(t: Text, rows: seq<Text>)
    ensures Flat([t] + rows) == t + [NEWLINE] + Flat(rows)
  {
    assert ([t] + rows)[1..] == rows;
  }

  lemma FlatOne(t: Text)
    ensures Flat([t]) == t + [NEWLINE]
  {
    assert [t][1..] == [];
  }

  lemma FlatTwo(t: Text, u: Text)
    ensures Flat([t, u]) == t + [NEWLINE] + u + [NEWLINE]
  {
    assert [t, u][1..] == [u];
    FlatOne(u);
  }

  /** `s` with `mid` put in at `o`. */
  function Spliced(s: seq<Byte>, o: nat, mid: seq<Byte>): seq<Byte>
    requires o <= |s|
  {
    s[..o] + mid + s[o..]
  }

  lemma SpliceInside(before: seq<Byte>, row: seq<Byte>, after: seq<Byte>, c: nat, mid: seq<Byte>)
    requires c <= |row|
    ensures Spliced(before + row + after, |before| + c, mid) == before + (row[..c] + mid + row[c..]) + after
  {
    var s := before + row + after;
    assert s[..|before| + c] == before + row[..c];
    assert s[|before| + c..] == row[c..] + after;
  }

  lemma OffsetInFlat(d: Doc)
    requires OnText(d)
    ensures Offset(d) <= |Flat(d.rows)|
  {
    FlatAround(d.rows, d.r);
  }

  /** Typing a character is inserting it in the flat string, at the cursor. */
  lemma InsertCharIsSplice(d: Doc, ch: Byte)
    requires OnText(d)
    ensures var d' := DocInsertChar(d, ch);
            && Offset(d) <= |Flat(d.rows)|
            && Flat(d'.rows) == Spliced(Flat(d.rows), Offset(d), [ch])
            && OnText(d') && Offset(d') == Offset(d) + 1
  {
    OffsetInFlat(d);
    var d' := DocInsertChar(d, ch);
    var row := d.rows[d.r];
    var row' := row[..d.c] + [ch] + row[d.c..];
    var before, after := Flat(d.rows[..d.r]), [NEWLINE] + Flat(d.rows[d.r + 1..]);
    assert Flat(d.rows) == before + row + after by { FlatAround(d.rows, d.r); }
    assert d'.rows[..d.r] == d.rows[..d.r] && d'.rows[d.r + 1..] == d.rows[d.r + 1..] && d'.rows[d.r] == row';
    assert Flat(d'.rows) == before + row' + after by { FlatAround(d'.rows, d.r); }
    assert Spliced(Flat(d.rows), Offset(d), [ch]) == before + row' + after by {
      SpliceInside(before, row, after, d.c, [ch]);
    }
  }

  /** Breaking the line is inserting a newline in the flat string, at the cursor. */
  lemma InsertNewlineIsSplice(d: Doc)
    requires OnText(d)
    ensures var d' := DocInsertNewline(d);
            && Offset(d) <= |Flat(d.rows)|
            && Flat(d'.rows) == Spliced(Flat(d.rows), Offset(d), [NEWLINE])
            && OnText(d') && Offset(d') == Offset(d) + 1
  {
    OffsetInFlat(d);
    SplitFlat(d.rows, d.r, d.c);
    SplitOffset(d);
  }

  /** The flat string of rows one of which is split. */
  lemma SplitFlat(rows: seq<Text>, r: nat, c: nat)
    requires r < |rows| && c <= |rows[r]|
    ensures var o := |Flat(rows[..r])| + c;
            && o <= |Flat(rows)|
            && Flat(rows[..r] + [rows[r][..c], rows[r][c..]] + rows[r + 1..]) == Spliced(Flat(rows), o, [NEWLINE])
  {
    var left, right := rows[r][..c], rows[r][c..];
    var before, after := Flat(rows[..r]), [NEWLINE] + Flat(rows[r + 1..]);
    FlatAround(rows, r);
    FlatReplaced(rows, r, [left, right]);
    FlatTwo(left, right);
    SpliceInside(before, rows[r], after, c, [NEWLINE]);
    Regroup4(before, left + [NEWLINE] + right, [NEWLINE], Flat(rows[r + 1..]));
  }

  lemma Regroup4(a: seq<Byte>, b: seq<Byte>, c: seq<Byte>, d: seq<Byte>)
    ensures a + (b + c) + d == a + b + (c + d)
  {
  }

  lemma SplitOffset(d: Doc)
    requires OnText(d)
    ensures var d' := DocInsertNewline(d); OnText(d') && Offset(d') == Offset(d) + 1
  {
    var d' := DocInsertNewline(d);
    var left := d.rows[d.r][..d.c];
    assert d'.rows[..d'.r] == d.rows[..d.r] + [left];
    FlatAppend(d.rows[..d.r], [left]);
    FlatOne(left);
  }

  /** Only at the very beginning is there nothing to delete. */
  lemma OffsetZero(d: Doc)
    requires OnText(d)
    ensures Offset(d) == 0 <==> d.r == 0 && d.c == 0
  {
    if d.r > 0 {
      assert d.rows[..d.r] != [];
    }
  }

  /** Deleting takes the one byte before the cursor out of the flat string. */
  lemma DeleteIsCut(d: Doc)
    requires OnText(d)
    ensures var o := Offset(d);
            var d' := DocDelete(d);
            && o <= |Flat(d.rows)| && OnText(d')
            && (if o == 0 then d' == d
                else Flat(d'.rows) == Flat(d.rows)[..o - 1] + Flat(d.rows)[o..] && Offset(d') == o - 1)
  {
    OffsetInFlat(d);
    OffsetZero(d);
    if d.c > 0 {
      DeleteInRow(d);
    } else if d.r > 0 {
      DeleteNewline(d);
    }
  }

  /** What is left, with the character put back, is the original. */
  lemma DeleteInRow(d: Doc)
    requires OnText(d) && d.c > 0
    ensures var d' := DocDelete(d);
            && 0 < Offset(d) <= |Flat(d.rows)| && OnText(d') && Offset(d') == Offset(d) - 1
            && Flat(d'.rows) == Flat(d.rows)[..Offset(d) - 1] + Flat(d.rows)[Offset(d)..]
  {
    var d' := DocDelete(d);
    var row := d.rows[d.r];
    var ch := row[d.c - 1];
    assert d'.rows[d.r][..d.c - 1] + [ch] + d'.rows[d.r][d.c - 1..] == row;
    assert d'.rows[d.r := row] == d.rows;
    InsertCharIsSplice(d', ch);
    CutSplice(Flat(d'.rows), Offset(d'), ch);
  }

  /** And with the newline put back. */
  lemma DeleteNewline(d: Doc)
    requires OnText(d) && d.c == 0 && d.r > 0
    ensures var d' := DocDelete(d);
            && 0 < Offset(d) <= |Flat(d.rows)| && OnText(d') && Offset(d') == Offset(d) - 1
            && Flat(d'.rows) == Flat(d.rows)[..Offset(d) - 1] + Flat(d.rows)[Offset(d)..]
  {
    var d' := DocDelete(d);
    JoinThenSplit(d);
    InsertNewlineIsSplice(d');
    CutSplice(Flat(d'.rows), Offset(d'), NEWLINE);
  }

  lemma JoinThenSplit(d: Doc)
    requires OnText(d) && d.c == 0 && d.r > 0
    ensures OnText(DocDelete(d)) && DocInsertNewline(DocDelete(d)) == d
  {
    var d' := DocDelete(d);
    var prev, row := d.rows[d.r - 1], d.rows[d.r];
    assert (prev + row)[..|prev|] == prev && (prev + row)[|prev|..] == row;
    assert d'.rows[..d'.r] == d.rows[..d.r - 1];
    assert d'.rows[d'.r + 1..] == d.rows[d.r + 1..];
    assert d.rows == d.rows[..d.r - 1] + [prev, row] + d.rows[d.r + 1..];
  }

  lemma CutSplice(s: seq<Byte>, o: nat, b: Byte)
    requires o <= |s|
    ensures var t := Spliced(s, o, [b]); t[..o] + t[o + 1..] == s
  {
  }

  // ---- undoing ----

  /** Typing then deleting restores text and cursor exactly when the cursor was on text. */
  lemma DeleteUndoesInsertChar(d: Doc, ch: Byte)
    requires d.r >= 0 && d.c >= 0
    ensures DocDelete(DocInsertChar(d, ch)) == d <==> OnText(d)
  {
    var d1 := DocInsertChar(d, ch);
    var d2 := DocDelete(d1);
    if OnText(d) {
      var row := d.rows[d.r];
      var row1 := d1.rows[d.r];
      assert row1[..d.c] + row1[d.c + 1..] == row;
      assert d2.rows == d.rows;
    } else if d.r >= |d.rows| {
      assert |d2.rows| > |d.rows|;
    } else {
      assert |d2.rows[d.r]| == d.c;
    }
  }

  /** Breaking the line then deleting restores text and cursor, or changed nothing, exactly in these cases. */
  lemma DeleteUndoesInsertNewline(d: Doc)
    requires d.r >= 0 && d.c >= 0
    ensures DocDelete(DocInsertNewline(d)) == d <==> OnText(d) || d.r > |d.rows|
  {
    if OnText(d) {
      var d1 := DocInsertNewline(d);
      var row := d.rows[d.r];
      assert d1.rows[..d.r] == d.rows[..d.r];
      assert d1.rows[d.r + 2..] == d.rows[d.r + 1..];
      assert row[..d.c] + row[d.c..] == row;
      assert d.rows == d.rows[..d.r] + [row] + d.rows[d.r + 1..];
    }
  }

  // ---- the arrows on the flat string ----

  lemma OffsetNextRow(rows: seq<Text>, r: nat)
    requires r < |rows|
    ensures |Flat(rows[..r + 1])| == |Flat(rows[..r])| + |rows[r]| + 1
  {
    assert rows[..r + 1] == rows[..r] + [rows[r]];
    FlatAppend(rows[..r], [rows[r]]);
    FlatOne(rows[r]);
  }

  lemma {:induction false} OffsetsGrow(rows: seq<Text>, r: nat, q: nat)
    requires r < q <= |rows|
    ensures |Flat(rows[..r])| + |rows[r]| < |Flat(rows[..q])|
    decreases q - r
  {
    OffsetNextRow(rows, q - 1);
    if r < q - 1 {
      OffsetsGrow(rows, r, q - 1);
    }
  }

  /** A place on the text is known by its offset. */
  lemma OffsetTells(d: Doc, e: Doc)
    requires OnText(d) && OnText(e) && d.rows == e.rows
    ensures Offset(d) == Offset(e) <==> d == e
  {
    if d.r < e.r {
      OffsetsGrow(d.rows, d.r, e.r);
    } else if e.r < d.r {
      OffsetsGrow(d.rows, e.r, d.r);
    }
  }

  /** The arrow right goes one on in the flat string, over row ends as well; from its end, below the rows. */
  lemma RightIsForward(d: Doc)
    requires OnText(d)
    ensures var e := DocMoved(d, Right);
            if Offset(d) == |Flat(d.rows)| - 1 then e == Doc(d.rows, |d.rows|, 0)
            else e.rows == d.rows && OnText(e) && Offset(e) == Offset(d) + 1
  {
    OffsetNextRow(d.rows, d.r);
    if d.r + 1 < |d.rows| {
      OffsetsGrow(d.rows, d.r + 1, |d.rows|);
    }
    assert d.rows[..|d.rows|] == d.rows;
  }

  /** The arrow left goes one back; at its start nothing happens. */
  lemma LeftIsBack(d: Doc)
    requires OnText(d)
    ensures var e := DocMoved(d, Left);
            if Offset(d) == 0 then e == d else e.rows == d.rows && OnText(e) && Offset(e) == Offset(d) - 1
  {
    OffsetZero(d);
    if d.c == 0 && d.r > 0 {
      OffsetNextRow(d.rows, d.r - 1);
    }
  }

  /** Up and down lead to the same column of the next row, or to its end if it is shorter. */
  lemma UpAndDown(d: Doc)
    requires OnText(d)
    ensures DocMoved(d, Up) == if d.r == 0 then d else Doc(d.rows, d.r - 1, Shorter(d.c, |d.rows[d.r - 1]|))
    ensures DocMoved(d, Down) ==
            if d.r + 1 == |d.rows| then Doc(d.rows, |d.rows|, 0) else Doc(d.rows, d.r + 1, Shorter(d.c, |d.rows[d.r + 1]|))
  {
  }

  function Shorter(a: int, b: int): int {
    if a < b then a else b
  }

  /** From the line below the rows: back to the end of the last row, or up to its start; no further down. */
  lemma BelowTheText(rows: seq<Text>)
    requires rows != []
    ensures var d, last := Doc(rows, |rows|, 0), |rows| - 1;
            && DocMoved(d, Left) == Doc(rows, last, |rows[last]|) && DocMoved(d, Up) == Doc(rows, last, 0)
            && DocMoved(d, Right) == d && DocMoved(d, Down) == d
  {
  }

  // ---- the edits beyond the text ----

  /** Typing anywhere: empty rows up to the cursor's, blanks up to its column, and nothing else but the character. */
  lemma TypedAnywhere(d: Doc, ch: Byte)
    requires d.r >= 0 && d.c >= 0
    ensures var e := DocInsertChar(d, ch);
            var row := if d.r < |d.rows| then d.rows[d.r] else [];
            && e.r == d.r && e.c == d.c + 1
            && |e.rows| == (if d.r < |d.rows| then |d.rows| else d.r + 1)
            && (forall i :: 0 <= i < |e.rows| && i != d.r ==> e.rows[i] == if i < |d.rows| then d.rows[i] else [])
            && e.rows[d.r] == if d.c <= |row| then row[..d.c] + [ch] + row[d.c..] else row + Spaces(d.c - |row|) + [ch]
  {
    var rows := PadRows(d.rows, d.r);
    var padded := PadRow(rows[d.r], d.c);
    if d.c > |rows[d.r]| {
      assert padded[..d.c] == padded && padded[d.c..] == [];
    }
  }

  /** Breaking a line beyond its end is breaking it at its end; below the rows one empty row is added, or nothing. */
  lemma BrokenAnywhere(d: Doc)
    requires d.r >= 0 && d.c >= 0
    ensures d.r < |d.rows| && d.c > |d.rows[d.r]| ==> DocInsertNewline(d) == DocInsertNewline(d.(c := |d.rows[d.r]|))
    ensures d.r == |d.rows| ==> DocInsertNewline(d) == Doc(d.rows + [[]], d.r + 1, 0)
    ensures d.r > |d.rows| ==> DocInsertNewline(d) == d
  {
  }

  /** Deleting beyond the text only moves the cursor, and not even that below the rows. */
  lemma DeletedAnywhere(d: Doc)
    requires d.r >= 0 && d.c >= 0
    ensures d.r >= |d.rows| ==> DocDelete(d) == d
    ensures d.r < |d.rows| && d.c > |d.rows[d.r]| ==> DocDelete(d) == d.(c := d.c - 1)
  {
    if d.r < |d.rows| && d.c > |d.rows[d.r]| {
      assert d.rows[d.r := d.rows[d.r]] == d.rows;
    }
  }
}
