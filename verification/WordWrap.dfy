/** The note's word wrap: greedy, line by line, for any width measure. */
module WordWrap {

  // ---- words ----

  /** The pieces with one blank between neighbours. */
  function Join(ws: seq<string>): string {
    if ws == [] then [] else if |ws| == 1 then ws[0] else ws[0] + [' '] + Join(ws[1..])
  }

  function FirstBlank(s: string): (i: nat)
    ensures i <= |s| && (i < |s| ==> s[i] == ' ')
  {
    if s == [] || s[0] == ' ' then 0 else 1 + FirstBlank(s[1..])
  }

  /** split(' '): blanks separate, so two in a row have an empty word between them. */
  function Split(s: string): (ws: seq<string>)
    ensures ws != []
    decreases |s|
  {
    var i := FirstBlank(s);
    if i == |s| then [s] else [s[..i]] + Split(s[i + 1..])
  }

  lemma {:induction false} JoinSplit(s: string)
    ensures Join(Split(s)) == s
    decreases |s|
  {
    var i := FirstBlank(s);
    if i < |s| {
      var rest := s[i + 1..];
      JoinSplit(rest);
      JoinCons(s[..i], Split(rest));
      CutAtBlank(s, i);
    }
  }

  lemma {:induction false} FirstBlankAt(w: string, tail: string)
    requires ' ' !in w
    ensures FirstBlank(w) == |w| && FirstBlank(w + [' '] + tail) == |w|
  {
    if w != [] {
      FirstBlankAt(w[1..], tail);
      assert (w + [' '] + tail)[1..] == w[1..] + [' '] + tail;
    } else {
      assert (w + [' '] + tail)[0] == ' ';
    }
  }

  /** The words are the one way to write the paragraph as pieces without blanks, joined by blanks. */
  lemma SplitExactly(s: string, ws: seq<string>)
    ensures ws == Split(s) <==> ws != [] && (forall w :: w in ws ==> ' ' !in w) && Join(ws) == s
  {
    JoinSplit(s);
    NoBlanks(s);
    if ws != [] && (forall w :: w in ws ==> ' ' !in w) && Join(ws) == s {
      SplitJoin(ws);
    }
  }

  lemma {:induction false} NoBlanks(s: string)
    ensures forall w :: w in Split(s) ==> ' ' !in w
    decreases |s|
  {
    var i := FirstBlank(s);
    BeforeBlank(s);
    if i < |s| {
      NoBlanks(s[i + 1..]);
    } else {
      assert s[..i] == s;
    }
  }

  lemma {:induction false} BeforeBlank(s: string)
    ensures ' ' !in s[..FirstBlank(s)]
  {
    if s != [] && s[0] != ' ' {
      BeforeBlank(s[1..]);
      var i := FirstBlank(s[1..]);
      assert s[..i + 1] == [s[0]] + s[1..][..i];
    }
  }

  lemma {:induction false} SplitJoin(ws: seq<string>)
    requires ws != [] && forall w :: w in ws ==> ' ' !in w
    ensures Split(Join(ws)) == ws
    decreases |ws|
  {
    assert ws[0] in ws;
    if |ws| == 1 {
      FirstBlankAt(ws[0], []);
    } else {
      var rest := ws[1..];
      assert forall w :: w in rest ==> w in ws;
      SplitJoin(rest);
      FirstBlankAt(ws[0], Join(rest));
      FirstWordOff(ws[0], Join(rest));
      assert ws == [ws[0]] + rest;
    }
  }

  lemma FirstWordOff(w: string, tail: string)
    ensures var s := w + [' '] + tail; s[..|w|] == w && s[|w| + 1..] == tail
  {
  }

  lemma CutAtBlank(s: string, i: nat)
    requires i < |s| && s[i] == ' '
    ensures s == s[..i] + [' '] + s[i + 1..]
  {
  }

  lemma JoinCons(w: string, ws: seq<string>)
    requires ws != []
    ensures Join([w] + ws) == w + [' '] + Join(ws)
  {
    assert ([w] + ws)[1..] == ws;
  }

  lemma {:induction false} JoinAppend(a: seq<string>, b: seq<string>)
    requires a != [] && b != []
    ensures Join(a + b) == Join(a) + [' '] + Join(b)
  {
    if |a| == 1 {
      JoinCons(a[0], b);
      assert a + b == [a[0]] + b;
    } else {
      JoinAppend(a[1..], b);
      JoinCons(a[0], a[1..] + b);
      assert a + b == [a[0]] + (a[1..] + b);
    }
  }

  // ---- the wrap ----

  /** The loop: `cur` is the line being filled. */
  function Wrapped(cur: string, words: seq<string>, fits: string -> bool): (lines: seq<string>)
    ensures lines != []
    decreases |words|
  {
    if words == [] then [cur]
    else if cur == [] then Wrapped(words[0], words[1..], fits)
    else if fits(cur + [' '] + words[0]) then Wrapped(cur + [' '] + words[0], words[1..], fits)
    else [cur] + Wrapped(words[0], words[1..], fits)
  }

  /** One paragraph, as the note wraps it. */
  method WrapParagraph(para: string, fits: string -> bool) returns (lines: seq<string>)
    ensures lines == Wrapped([], Split(para), fits)
  {
    var words := Split(para);
    var cur: string := [];
    lines := [];
    for i := 0 to |words|
      invariant lines + Wrapped(cur, words[i..], fits) == Wrapped([], words, fits)
    {
      assert words[i..][0] == words[i] && words[i..][1..] == words[i + 1..];
      var cand := if cur == [] then words[i] else cur + [' '] + words[i];
      if cur == [] || fits(cand) {
        cur := cand;
      } else {
        assert lines + ([cur] + Wrapped(words[i], words[i + 1..], fits))
            == lines + [cur] + Wrapped(words[i], words[i + 1..], fits);
        lines := lines + [cur];
        cur := words[i];
      }
    }
    lines := lines + [cur];
  }

  // ---- as runs of words ----

  /** The same loop on words: the line being filled is a run of them. */
  function Runs(run: seq<string>, words: seq<string>, fits: string -> bool): (runs: seq<seq<string>>)
    ensures runs != []
    decreases |words|
  {
    if words == [] then [run]
    else if run == [] || fits(Join(run + [words[0]])) then Runs(run + [words[0]], words[1..], fits)
    else [run] + Runs([words[0]], words[1..], fits)
  }

  function Joined(runs: seq<seq<string>>): seq<string> {
    if runs == [] then [] else [Join(runs[0])] + Joined(runs[1..])
  }

  function Concat(runs: seq<seq<string>>): seq<string> {
    if runs == [] then [] else runs[0] + Concat(runs[1..])
  }

  /** Only the last word may be empty. */
  predicate Solid(words: seq<string>) {
    forall i :: 0 <= i < |words| - 1 ==> words[i] != []
  }

  lemma JoinSnoc(run: seq<string>, w: string)
    requires run != []
    ensures Join(run + [w]) == Join(run) + [' '] + w
  {
    JoinAppend(run, [w]);
  }

  lemma JoinSingle(w: string)
    ensures Join([w]) == w
  {
  }

  /** On solid words the loop's lines are its runs. */
  lemma {:induction false} WrappedIsRuns(run: seq<string>, words: seq<string>, fits: string -> bool)
    requires Solid(words) && (words != [] ==> run == [] || Join(run) != [])
    ensures Wrapped(Join(run), words, fits) == Joined(Runs(run, words, fits))
    decreases |words|
  {
    if words != [] {
      var w, rest := words[0], words[1..];
      assert rest != [] ==> w != [];
      assert Solid(rest) by {
        assert forall i :: 0 <= i < |rest| - 1 ==> rest[i] == words[i + 1];
      }
      JoinSingle(w);
      if run == [] {
        assert [] + [w] == [w];
        WrappedIsRuns([w], rest, fits);
      } else {
        JoinSnoc(run, w);
        if fits(Join(run + [w])) {
          WrappedIsRuns(run + [w], rest, fits);
        } else {
          WrappedIsRuns([w], rest, fits);
          assert Runs(run, words, fits)[1..] == Runs([w], rest, fits);
        }
      }
    }
  }

  predicate AllFilled(runs: seq<seq<string>>) {
    forall r :: r in runs ==> r != []
  }

  /** Every word is in exactly one run, in order; every run fits or is one word. */
  lemma {:induction false} RunsGood(run: seq<string>, words: seq<string>, fits: string -> bool)
    requires run != [] || words != []
    requires |run| <= 1 || fits(Join(run))
    ensures Concat(Runs(run, words, fits)) == run + words
    ensures AllFilled(Runs(run, words, fits))
    ensures forall r :: r in Runs(run, words, fits) ==> |r| == 1 || fits(Join(r))
    decreases |words|
  {
    if words == [] {
      assert Concat([run]) == run + [];
    } else {
      var w, rest := words[0], words[1..];
      assert run + words == run + [w] + rest == run + ([w] + rest);
      if run == [] || fits(Join(run + [w])) {
        RunsGood(run + [w], rest, fits);
      } else {
        RunsGood([w], rest, fits);
        assert Runs(run, words, fits)[1..] == Runs([w], rest, fits);
      }
    }
  }

  lemma {:induction false} JoinConcat(runs: seq<seq<string>>)
    requires AllFilled(runs) && runs != []
    ensures Join(Joined(runs)) == Join(Concat(runs)) && Concat(runs) != []
  {
    assert runs[0] in runs;
    if |runs| == 1 {
      assert Joined(runs) == [Join(runs[0])];
      assert Concat(runs) == runs[0] + [] == runs[0];
    } else {
      assert forall r :: r in runs[1..] ==> r in runs;
      JoinConcat(runs[1..]);
      JoinCons(Join(runs[0]), Joined(runs[1..]));
      JoinAppend(runs[0], Concat(runs[1..]));
    }
  }

  /** Nothing is lost: the lines joined by blanks are the paragraph. */
  lemma WrapLosesNothing(para: string, fits: string -> bool)
    requires Solid(Split(para))
    ensures Join(Wrapped([], Split(para), fits)) == para
  {
    var words := Split(para);
    WrappedIsRuns([], words, fits);
    RunsGood([], words, fits);
    JoinConcat(Runs([], words, fits));
    assert [] + words == words;
    JoinSplit(para);
  }

  // ---- when something is lost ----

  /** The length of the line so far and all words after it, joined. */
  function Total(cur: string, words: seq<string>): nat
    decreases |words|
  {
    |cur| + if words == [] then 0 else 1 + Total(words[0], words[1..])
  }

  lemma {:induction false} TotalIsJoin(words: seq<string>)
    requires words != []
    ensures Total(words[0], words[1..]) == |Join(words)|
  {
    if |words| > 1 {
      TotalIsJoin(words[1..]);
    }
  }

  predicate Never(s: string) {
    false
  }

  /** If no two words share a line, an empty word before others costs its blank. */
  lemma {:induction false} NeverLoses(cur: string, words: seq<string>)
    ensures var lost := words != [] && (cur == [] || !Solid(words));
            var n := |Join(Wrapped(cur, words, Never))|;
            if lost then n < Total(cur, words) else n <= Total(cur, words)
    decreases |words|
  {
    if words != [] {
      var w, rest := words[0], words[1..];
      NeverLoses(w, rest);
      assert !Solid(words) ==> rest != [] && (w == [] || !Solid(rest)) by {
        assert forall i :: 0 <= i < |rest| - 1 ==> rest[i] == words[i + 1];
      }
      if cur != [] {
        JoinCons(cur, Wrapped(w, rest, Never));
      }
    }
  }

  predicate Lossless(para: string, fits: string -> bool) {
    Join(Wrapped([], Split(para), fits)) == para
  }

  /** The wrap is lossless for every measure exactly when only the last word may be empty. */
  lemma LosslessExactly(para: string)
    ensures Solid(Split(para)) <==> forall fits: string -> bool :: Lossless(para, fits)
  {
    var words := Split(para);
    if Solid(words) {
      forall fits: string -> bool
        ensures Lossless(para, fits)
      {
        WrapLosesNothing(para, fits);
      }
    } else {
      JoinSplit(para);
      TotalIsJoin(words);
      NeverLoses(words[0], words[1..]);
      assert !Solid(words) ==> words[1..] != [] && (words[0] == [] || !Solid(words[1..])) by {
        assert forall i :: 0 <= i < |words[1..]| - 1 ==> words[1..][i] == words[i + 1];
      }
      assert Wrapped([], words, Never) == Wrapped(words[0], words[1..], Never);
      assert !Lossless(para, Never);
    }
  }

  // ---- no wrap has fewer lines ----

  /** Part of a fitting run of words fits too. */
  ghost predicate PartsFit(fits: string -> bool) {
    forall r: seq<string>, i: nat, j: nat :: PartFitsToo(r, i, j, fits)
  }

  predicate PartFitsToo(r: seq<string>, i: nat, j: nat, fits: string -> bool) {
    i < j <= |r| && fits(Join(r)) ==> fits(Join(r[i..j]))
  }

  /** A way to break `words` into lines that fit or are single words. */
  ghost predicate IsWrap(runs: seq<seq<string>>, words: seq<string>, fits: string -> bool) {
    && Concat(runs) == words && AllFilled(runs)
    && forall r :: r in runs ==> |r| == 1 || fits(Join(r))
  }

  /** The greedy first line, from a run of `k` words on: it takes words until the next does not fit. */
  lemma {:induction false} FirstLine(words: seq<string>, k: nat, fits: string -> bool) returns (m: nat)
    requires 1 <= k <= |words|
    ensures k <= m <= |words|
    ensures m < |words| ==> !fits(Join(words[..m + 1]))
    ensures |Runs(words[..k], words[k..], fits)| == 1 + if m == |words| then 0 else |Runs([], words[m..], fits)|
    decreases |words| - k
  {
    if k == |words| {
      m := k;
    } else {
      assert words[..k] + [words[k]] == words[..k + 1];
      assert words[k..][1..] == words[k + 1..];
      if fits(Join(words[..k + 1])) {
        m := FirstLine(words, k + 1, fits);
      } else {
        m := k;
        FirstWord(words[k..], fits);
        assert words[k..][..1] == [words[k]];
      }
    }
  }

  /** What `PartsFit` says of one line, from its `d`-th word up to before its `e`-th. */
  lemma PartFits(r: seq<string>, d: nat, e: nat, fits: string -> bool)
    requires PartsFit(fits)
    ensures d < e <= |r| && fits(Join(r)) ==> fits(Join(r[d..e]))
  {
    assert PartFitsToo(r, d, e, fits);
  }

  lemma SameSlice(words: seq<string>, r: seq<string>, d: nat, e: nat)
    requires r <= words && d <= e <= |r|
    ensures words[d..][..e - d] == r[d..e]
  {
  }

  /**
   * The greedy line begun at word `d`, inside a line `r` of another wrap,
   * ends at some word `e` no earlier than that line does.
   */
  lemma GreedyLine(words: seq<string>, d: nat, r: seq<string>, fits: string -> bool) returns (e: nat)
    requires PartsFit(fits) && d < |r| && r <= words && (|r| == 1 || fits(Join(r)))
    ensures |r| <= e <= |words|
    ensures |Runs([], words[d..], fits)| == 1 + if e == |words| then 0 else |Runs([], words[e..], fits)|
  {
    var u := words[d..];
    FirstWord(u, fits);
    var m := FirstLine(u, 1, fits);
    e := d + m;
    assert u[m..] == words[e..];
    PartFits(r, d, e + 1, fits);
    if e + 1 <= |r| {
      SameSlice(words, r, d, e + 1);
    }
  }

  /** Without its first line, a wrap is a wrap of the words that follow. */
  lemma RestIsWrapped(runs: seq<seq<string>>, words: seq<string>, fits: string -> bool)
      returns (r: seq<string>, rest: seq<string>, others: seq<seq<string>>)
    requires IsWrap(runs, words, fits) && words != []
    ensures words == r + rest && (|r| == 1 || fits(Join(r)))
    ensures IsWrap(others, rest, fits) && |others| + 1 == |runs|
  {
    r, rest, others := runs[0], Concat(runs[1..]), runs[1..];
    assert runs[0] in runs && forall r :: r in runs[1..] ==> r in runs;
  }

  /** How many lines the greedy wrap makes of the words from `d` on. */
  function Lines(words: seq<string>, d: nat, fits: string -> bool): nat {
    if d >= |words| then 0 else |Runs([], words[d..], fits)|
  }

  lemma SameLines(r: seq<string>, rest: seq<string>, words: seq<string>, e: nat, fits: string -> bool)
    requires words == r + rest && |r| <= e <= |words|
    ensures Lines(rest, e - |r|, fits) == Lines(words, e, fits)
  {
    assert rest[e - |r|..] == words[e..];
  }

  /** The greedy line begun at word `d` ends no earlier than the first line `r` of another wrap. */
  lemma GreedyEnd(words: seq<string>, d: nat, r: seq<string>, rest: seq<string>, fits: string -> bool) returns (e: nat)
    requires words == r + rest && d < |words|
    requires PartsFit(fits) && (|r| == 1 || fits(Join(r)))
    ensures Lines(words, d, fits) <= 1 + Lines(rest, e, fits)
  {
    var end := d;
    if d < |r| {
      end := GreedyLine(words, d, r, fits);
    }
    SameLines(r, rest, words, end, fits);
    e := end - |r|;
  }

  /** Greedy stays ahead: from any point `d` on, it needs no more lines than any wrap of the whole. */
  lemma {:induction false} GreedyAhead(words: seq<string>, d: nat, runs: seq<seq<string>>, fits: string -> bool)
    requires PartsFit(fits) && IsWrap(runs, words, fits)
    ensures Lines(words, d, fits) <= |runs|
    decreases |runs|
  {
    if d < |words| {
      var r, rest, others := RestIsWrapped(runs, words, fits);
      var e := GreedyEnd(words, d, r, rest, fits);
      GreedyAhead(rest, e, others, fits);
    }
  }

  lemma FirstWord(u: seq<string>, fits: string -> bool)
    requires u != []
    ensures Runs([], u, fits) == Runs(u[..1], u[1..], fits)
  {
    assert [] + [u[0]] == u[..1];
  }

  /**
   * The wrap of a paragraph of solid words: its lines are the runs of a wrap
   * that fits, and no fitting wrap has fewer lines.
   */
  lemma WrapIsOptimal(para: string, fits: string -> bool, other: seq<seq<string>>)
    requires Solid(Split(para)) && PartsFit(fits) && IsWrap(other, Split(para), fits)
    ensures var runs := Runs([], Split(para), fits);
            && Wrapped([], Split(para), fits) == Joined(runs) && IsWrap(runs, Split(para), fits)
            && |runs| <= |other|
  {
    var words := Split(para);
    WrappedIsRuns([], words, fits);
    RunsGood([], words, fits);
    assert [] + words == words && words[0..] == words;
    GreedyAhead(words, 0, other, fits);
  }
}
