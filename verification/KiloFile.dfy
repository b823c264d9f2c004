/** Loading and saving: a file's bytes against the editor's rows. */
module KiloFile {
  import opened Outcomes
  import opened KiloText

  /** The length of the line getline reads from `s`, its newline included. */
  function LineLength(s: seq<Byte>): (n: nat)
    requires s != []
    ensures 0 < n <= |s|
  {
    var i := Find(s, NEWLINE);
    if i < |s| then i + 1 else |s|
  }

  /** One closing newline or carriage return is dropped, not both. */
  function Stripped(line: seq<Byte>): Text {
    if line != [] && (line[|line| - 1] == NEWLINE || line[|line| - 1] == RETURN) then line[..|line| - 1]
    else line
  }

  /** The rows a file holds: what stands before each newline, and an open last line. */
  function Loaded(content: seq<Byte>): seq<Text>
    decreases |content|
  {
    if content == [] then []
    else
      var i := Find(content, NEWLINE);
      if i < |content| then [content[..i]] + Loaded(content[i + 1..]) else [Stripped(content)]
  }

  /** One turn of the loading loop: read a line, strip its end. */
  lemma LoadedStep(content: seq<Byte>)
    requires content != []
    ensures var n := LineLength(content);
            Loaded(content) == [Stripped(content[..n])] + Loaded(content[n..])
  {
    var i := Find(content, NEWLINE);
    if i < |content| {
      assert content[..i + 1][..i] == content[..i];
    } else {
      assert content[..i] == content;
      assert Loaded(content[i..]) == [];
    }
  }

  /** Saving and loading again gives back exactly those rows that hold no newline, closing carriage returns included. */
  lemma LoadUndoesSave(rows: seq<Text>)
    ensures Loaded(Flat(rows)) == rows <==> forall row :: row in rows ==> NEWLINE !in row
  {
    if Loaded(Flat(rows)) == rows {
      LoadedWithoutNewlines(Flat(rows));
    } else if forall row :: row in rows ==> NEWLINE !in row {
      PlainRowsKept(rows);
    }
  }

  lemma {:induction false} LoadedWithoutNewlines(content: seq<Byte>)
    ensures forall row :: row in Loaded(content) ==> NEWLINE !in row
    decreases |content|
  {
    if content != [] {
      var i := Find(content, NEWLINE);
      FirstRowPlain(content, i);
      if i < |content| {
        LoadedWithoutNewlines(content[i + 1..]);
      }
    }
  }

  lemma FirstRowPlain(content: seq<Byte>, i: nat)
    requires i == Find(content, NEWLINE)
    ensures NEWLINE !in content[..i]
    ensures i == |content| ==> NEWLINE !in Stripped(content)
  {
    assert i == |content| ==> content[..i] == content;
  }

  lemma {:induction false} PlainRowsKept(rows: seq<Text>)
    requires forall row :: row in rows ==> NEWLINE !in row
    ensures Loaded(Flat(rows)) == rows
    decreases |rows|
  {
    if rows != [] {
      var row, rest := rows[0], rows[1..];
      assert rows == [row] + rest;
      FlatCons(row, rest);
      var content := row + [NEWLINE] + Flat(rest);
      FindFirst(row, NEWLINE, Flat(rest));
      assert content[..|row|] == row && content[|row| + 1..] == Flat(rest);
      PlainRowsKept(rest);
    }
  }

  predicate EndsInNewline(content: seq<Byte>) {
    content == [] || content[|content| - 1] == NEWLINE
  }

  lemma {:induction false} FlatEnds(rows: seq<Text>)
    ensures EndsInNewline(Flat(rows))
  {
    if rows != [] {
      FlatEnds(rows[1..]);
    }
  }

  /** Loading and saving gives back exactly those files whose last line is closed by a newline. */
  lemma {:induction false} SaveUndoesLoad(content: seq<Byte>)
    ensures Flat(Loaded(content)) == content <==> EndsInNewline(content)
  {
    FlatEnds(Loaded(content));
    if EndsInNewline(content) {
      ClosedLinesKept(content);
    }
  }

  lemma {:induction false} ClosedLinesKept(content: seq<Byte>)
    requires EndsInNewline(content)
    ensures Flat(Loaded(content)) == content
    decreases |content|
  {
    if content != [] {
      var i := CutAtNewline(content);
      var rest := content[i + 1..];
      ClosedLinesKept(rest);
      FlatCons(content[..i], Loaded(rest));
    }
  }

  /** The first line of a file that ends in a newline, and what follows. */
  lemma CutAtNewline(content: seq<Byte>) returns (i: nat)
    requires EndsInNewline(content) && content != []
    ensures i == Find(content, NEWLINE) < |content|
    ensures content == content[..i] + [NEWLINE] + content[i + 1..] && EndsInNewline(content[i + 1..])
  {
    i := Find(content, NEWLINE);
    assert content[|content| - 1] in content;
  }

  /** A file whose last line is open gets its newline on saving, in place of a closing carriage return if there is one. */
  lemma {:induction false} OpenLineClosed(content: seq<Byte>)
    requires !EndsInNewline(content)
    ensures Flat(Loaded(content)) == Stripped(content) + [NEWLINE]
    decreases |content|
  {
    var i := Find(content, NEWLINE);
    if i == |content| {
      FlatOne(Stripped(content));
    } else {
      var head, rest := content[..i] + [NEWLINE], content[i + 1..];
      assert content == head + rest;
      assert content[|content| - 1] == rest[|rest| - 1];
      OpenLineClosed(rest);
      FlatCons(content[..i], Loaded(rest));
      StrippedTail(head, rest);
    }
  }

  lemma StrippedTail(head: seq<Byte>, rest: seq<Byte>)
    requires rest != []
    ensures Stripped(head + rest) + [NEWLINE] == head + (Stripped(rest) + [NEWLINE])
  {
    assert (head + rest)[..|head + rest| - 1] == head + rest[..|rest| - 1];
  }

  /** What is stripped from a line: one newline, or one carriage return. */
  lemma StrippedIs(line: seq<Byte>, last: Byte)
    ensures Stripped(line + [last]) == if last == 10 || last == 13 then line else line + [last]
    ensures Stripped([]) == []
  {
    assert (line + [last])[..|line|] == line;
  }
}
