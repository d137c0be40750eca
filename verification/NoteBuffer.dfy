/** The notepad buffer of user/go/note/buffer.go (a byte string and a caret offset) as a
    refinement of a list of lines with a caret at a line and a column. */
module NoteBuffer {
  import opened Bytes

  const LF: byte := 10
  const CR: byte := 13
  const MAX_BYTES: nat := 32 * 1024

  // ---- lines ----

  /** The text cut at its line feeds. A trailing line feed opens an empty last line. */
  function Lines(s: seq<byte>): (ls: seq<seq<byte>>)
    ensures |ls| > 0
  {
    if s == [] then [[]]
    else
      var n := |s| - 1;
      var ls := Lines(s[..n]);
      if s[n] == LF then ls + [[]] else ls[..|ls| - 1] + [ls[|ls| - 1] + [s[n]]]
  }

  function Last<T>(s: seq<T>): T
    requires s != []
  {
    s[|s| - 1]
  }

  function Join(ls: seq<seq<byte>>): seq<byte>
    requires ls != []
  {
    if |ls| == 1 then ls[0] else Join(ls[..|ls| - 1]) + [LF] + Last(ls)
  }

  /** Two texts end to end: the last line of one continues in the first line of the other. */
  function Glue(a: seq<seq<byte>>, b: seq<seq<byte>>): seq<seq<byte>>
    requires a != [] && b != []
  {
    a[..|a| - 1] + [Last(a) + b[0]] + b[1..]
  }

  predicate NoLf(ls: seq<seq<byte>>) { forall k :: 0 <= k < |ls| ==> LF !in ls[k] }

  /** One more byte at the end of a text. */
  lemma LinesSnoc(s: seq<byte>, c: byte)
    ensures Lines(s + [c]) == if c == LF then Lines(s) + [[]] else Lines(s)[..|Lines(s)| - 1] + [Last(Lines(s)) + [c]]
  {
    assert (s + [c])[..|s|] == s;
  }

  lemma {:induction false} LinesConcat(a: seq<byte>, b: seq<byte>)
    ensures Lines(a + b) == Glue(Lines(a), Lines(b))
    decreases |b|
  {
    hide Lines;
    NoLines();
    if b == [] {
      assert a + b == a && Last(Lines(a)) + [] == Last(Lines(a));
    } else {
      hide Glue;
      var n := |b| - 1;
      LinesConcat(a, b[..n]);
      assert a + b == a + b[..n] + [b[n]] && b == b[..n] + [b[n]];
      LinesSnoc(a + b[..n], b[n]);
      LinesSnoc(b[..n], b[n]);
      GlueStep(Lines(a), Lines(b[..n]), b[n]);
    }
  }

  lemma NoLines()
    ensures Lines([]) == [[]]
  {
  }

  lemma GlueStep(a: seq<seq<byte>>, b: seq<seq<byte>>, c: byte)
    requires a != [] && b != []
    ensures Glue(a, b) + [[]] == Glue(a, b + [[]])
    ensures var g := Glue(a, b);
            g[..|g| - 1] + [Last(g) + [c]] == Glue(a, b[..|b| - 1] + [Last(b) + [c]])
  {
    var g := Glue(a, b);
    var b' := b[..|b| - 1] + [Last(b) + [c]];
    if |b| == 1 {
      assert Last(a) + (b[0] + [c]) == Last(a) + b[0] + [c];
      assert g[..|g| - 1] + [Last(g) + [c]] == Glue(a, b');
    } else {
      assert b'[0] == b[0] && b'[1..] == b[1..|b| - 1] + [Last(b) + [c]];
      assert Last(g) == Last(b);
      assert g[..|g| - 1] == a[..|a| - 1] + [Last(a) + b[0]] + b[1..|b| - 1];
    }
    assert (b + [[]])[1..] == b[1..] + [[]];
  }

  lemma {:induction false} JoinInvertsLines(s: seq<byte>)
    ensures Join(Lines(s)) == s && NoLf(Lines(s))
  {
    hide Lines, Join;
    if s == [] {
      NoLines();
      var none: seq<seq<byte>> := [];
      JoinSnoc(none, []);
      assert none + [[]] == [[]];
    } else {
      var n := |s| - 1;
      JoinInvertsLines(s[..n]);
      var ls := Lines(s[..n]);
      assert s == s[..n] + [s[n]] && ls == ls[..|ls| - 1] + [Last(ls)];
      LinesSnoc(s[..n], s[n]);
      JoinSnoc(ls, []);
      JoinExtends(ls[..|ls| - 1], Last(ls), s[n]);
    }
  }

  lemma JoinExtends(front: seq<seq<byte>>, l: seq<byte>, c: byte)
    ensures Join(front + [l + [c]]) == Join(front + [l]) + [c]
  {
    hide Join;
    JoinSnoc(front, l);
    JoinSnoc(front, l + [c]);
    if front != [] {
      assert Join(front) + [LF] + (l + [c]) == (Join(front) + [LF] + l) + [c];
    }
  }

  lemma JoinSnoc(front: seq<seq<byte>>, l: seq<byte>)
    ensures Join(front + [l]) == if front == [] then l else Join(front) + [LF] + l
  {
    assert (front + [l])[..|front|] == front;
  }

  lemma {:induction false} OneLine(l: seq<byte>)
    requires LF !in l
    ensures Lines(l) == [l]
  {
    if l != [] {
      OneLine(l[..|l| - 1]);
      assert l[..|l| - 1] + [l[|l| - 1]] == l;
    }
  }

  /** Lines and Join are inverse to each other on lines without line feeds. */
  lemma {:induction false} LinesInvertsJoin(ls: seq<seq<byte>>)
    requires ls != [] && NoLf(ls)
    ensures Lines(Join(ls)) == ls
    decreases |ls|
  {
    if |ls| == 1 {
      OneLine(ls[0]);
    } else {
      var front := ls[..|ls| - 1];
      LinesInvertsJoin(front);
      AfterFeed(Join(front), Last(ls));
      assert front + [Last(ls)] == ls;
    }
  }

  lemma AfterFeed(s: seq<byte>, l: seq<byte>)
    requires LF !in l
    ensures Lines(s + [LF] + l) == Lines(s) + [l]
  {
    hide Lines;
    LinesSnoc(s, LF);
    LinesConcat(s + [LF], l);
    OneLine(l);
    assert (Lines(s) + [[]])[..|Lines(s)|] == Lines(s) && [] + l == l;
  }

  // ---- a document: lines and a caret ----

  datatype Doc = Doc(lines: seq<seq<byte>>, line: nat, col: nat)

  predicate InDoc(d: Doc) { d.line < |d.lines| && d.col <= |d.lines[d.line]| }

  /** The document a text and an offset stand for. */
  function DocOf(s: seq<byte>, cur: nat): (d: Doc)
    requires cur <= |s|
  {
    var before := Lines(s[..cur]);
    Doc(Lines(s), |before| - 1, |Last(before)|)
  }

  lemma SplitAt(a: seq<byte>, b: seq<byte>)
    ensures DocOf(a + b, |a|) == Doc(Glue(Lines(a), Lines(b)), |Lines(a)| - 1, |Last(Lines(a))|)
    ensures InDoc(DocOf(a + b, |a|))
  {
    LinesConcat(a, b);
    assert (a + b)[..|a|] == a;
  }

  lemma DocIsIn(s: seq<byte>, cur: nat)
    requires cur <= |s|
    ensures InDoc(DocOf(s, cur))
    ensures DocOf(s, cur).lines == Glue(Lines(s[..cur]), Lines(s[cur..]))
  {
    assert s[..cur] + s[cur..] == s;
    SplitAt(s[..cur], s[cur..]);
  }

  /** Offset of the first byte of line `k` (counted from 0). */
  function LineStart(ls: seq<seq<byte>>, k: nat): nat
    requires k <= |ls|
  {
    if k == 0 then 0 else LineStart(ls, k - 1) + |ls[k - 1]| + 1
  }

  lemma {:induction false} LineStartPrefix(a: seq<seq<byte>>, b: seq<seq<byte>>, k: nat)
    requires k <= |a| && k <= |b| && forall j :: 0 <= j < k ==> a[j] == b[j]
    ensures LineStart(a, k) == LineStart(b, k)
  {
    if k > 0 { LineStartPrefix(a, b, k - 1); }
  }

  lemma {:induction false} JoinLength(ls: seq<seq<byte>>)
    requires ls != []
    ensures |Join(ls)| == LineStart(ls, |ls| - 1) + |Last(ls)|
    decreases |ls|
  {
    if |ls| > 1 {
      JoinLength(ls[..|ls| - 1]);
      LineStartPrefix(ls, ls[..|ls| - 1], |ls| - 2);
    }
  }

  /** The text of some lines is a prefix of the text of more. */
  lemma {:induction false} JoinPrefix(ls: seq<seq<byte>>, k: nat, at: nat)
    requires k < |ls| && at <= |ls[k]|
    ensures Join(ls[..k] + [ls[k][..at]]) <= Join(ls)
    decreases |ls|
  {
    var cut := ls[..k] + [ls[k][..at]];
    if k == |ls| - 1 {
      if |ls| > 1 { assert cut[..k] == ls[..k]; }
    } else {
      var front := ls[..|ls| - 1];
      JoinPrefix(front, k, at);
      assert front[..k] == ls[..k];
    }
  }

  lemma CutLines(s: seq<byte>, k: nat, at: nat)
    requires k < |Lines(s)| && at <= |Lines(s)[k]|
    ensures LineStart(Lines(s), k) + at <= |s|
    ensures Lines(s[..LineStart(Lines(s), k) + at]) == Lines(s)[..k] + [Lines(s)[k][..at]]
  {
    hide Lines;
    var ls := Lines(s);
    var cut := ls[..k] + [ls[k][..at]];
    JoinInvertsLines(s);
    JoinPrefix(ls, k, at);
    JoinLength(cut);
    LineStartPrefix(ls, cut, k);
    assert s[..LineStart(ls, k) + at] == Join(cut);
    LinesInvertsJoin(cut);
  }

  /** Every place in the document is a caret offset: going to line `k`, column `at`. */
  lemma CaretAt(s: seq<byte>, k: nat, at: nat)
    requires k < |Lines(s)| && at <= |Lines(s)[k]|
    ensures LineStart(Lines(s), k) + at <= |s|
    ensures DocOf(s, LineStart(Lines(s), k) + at) == Doc(Lines(s), k, at)
  {
    hide Lines, LineStart;
    CutLines(s, k, at);
    LastOfCut(Lines(s), k, at);
  }

  lemma LastOfCut(ls: seq<seq<byte>>, k: nat, at: nat)
    requires k < |ls| && at <= |ls[k]|
    ensures var cut := ls[..k] + [ls[k][..at]]; |cut| == k + 1 && |Last(cut)| == at
  {
  }

  /** And the offset of a caret is the start of its line plus its column. */
  lemma CaretOffset(s: seq<byte>, cur: nat)
    requires cur <= |s|
    ensures var d := DocOf(s, cur); d.line < |d.lines| && LineStart(d.lines, d.line) + d.col == cur
  {
    hide Lines;
    DocIsIn(s, cur);
    var before := Lines(s[..cur]);
    JoinInvertsLines(s[..cur]);
    JoinLength(before);
    LineStartPrefix(before, DocOf(s, cur).lines, |before| - 1);
  }

  // ---- editing a document ----

  function Typed(d: Doc, ch: byte): Doc
    requires InDoc(d)
  {
    var l := d.lines[d.line];
    if ch == LF then
      Doc(d.lines[..d.line] + [l[..d.col], l[d.col..]] + d.lines[d.line + 1..], d.line + 1, 0)
    else Doc(d.lines[d.line := l[..d.col] + [ch] + l[d.col..]], d.line, d.col + 1)
  }

  /** At the start of a line the lines join and the caret lands at the seam. */
  function Erased(d: Doc): Doc
    requires InDoc(d)
  {
    var l := d.lines[d.line];
    if d.col > 0 then Doc(d.lines[d.line := l[..d.col - 1] + l[d.col..]], d.line, d.col - 1)
    else if d.line > 0 then
      var p := d.lines[d.line - 1];
      Doc(d.lines[..d.line - 1] + [p + l] + d.lines[d.line + 1..], d.line - 1, |p|)
    else d
  }

  function Deleted(d: Doc): Doc
    requires InDoc(d)
  {
    var l := d.lines[d.line];
    if d.col < |l| then d.(lines := d.lines[d.line := l[..d.col] + l[d.col + 1..]])
    else if d.line + 1 < |d.lines| then
      d.(lines := d.lines[..d.line] + [l + d.lines[d.line + 1]] + d.lines[d.line + 2..])
    else d
  }

  function MovedLeft(d: Doc): Doc
    requires InDoc(d)
  {
    if d.col > 0 then d.(col := d.col - 1)
    else if d.line > 0 then d.(line := d.line - 1, col := |d.lines[d.line - 1]|)
    else d
  }

  function MovedRight(d: Doc): Doc
    requires InDoc(d)
  {
    if d.col < |d.lines[d.line]| then d.(col := d.col + 1)
    else if d.line + 1 < |d.lines| then d.(line := d.line + 1, col := 0)
    else d
  }

  function Min(a: nat, b: nat): nat { if a < b then a else b }

  /** One line up or down, keeping the column where the line is long enough. */
  function MovedUp(d: Doc): Doc
    requires InDoc(d)
  {
    if d.line == 0 then d else Doc(d.lines, d.line - 1, Min(d.col, |d.lines[d.line - 1]|))
  }

  function MovedDown(d: Doc): Doc
    requires InDoc(d)
  {
    if d.line + 1 == |d.lines| then d else Doc(d.lines, d.line + 1, Min(d.col, |d.lines[d.line + 1]|))
  }

  lemma GlueAfter(a: seq<seq<byte>>, c: byte, b: seq<seq<byte>>)
    requires a != [] && b != []
    ensures var l := Last(a) + b[0];
            && Glue(a, b)[|a| - 1] == l && l[..|Last(a)|] == Last(a) && l[|Last(a)|..] == b[0]
            && Glue(a + [[]], b) == a + [b[0]] + b[1..]
            && Glue(a[..|a| - 1] + [Last(a) + [c]], b) == Glue(a, b)[|a| - 1 := Last(a) + [c] + b[0]]
  {
    assert [] + b[0] == b[0];
  }

  lemma TypesAt(a: seq<byte>, b: seq<byte>, ch: byte)
    ensures InDoc(DocOf(a + b, |a|))
    ensures DocOf(a + [ch] + b, |a| + 1) == Typed(DocOf(a + b, |a|), ch)
  {
    hide Lines, Glue, DocOf;
    SplitAt(a, b);
    SplitAt(a + [ch], b);
    LinesSnoc(a, ch);
    TypesGlued(Lines(a), Lines(b), ch);
  }

  lemma TypesGlued(la: seq<seq<byte>>, lb: seq<seq<byte>>, ch: byte)
    requires la != [] && lb != []
    ensures var d := Doc(Glue(la, lb), |la| - 1, |Last(la)|);
            && InDoc(d)
            && Typed(d, ch) == if ch == LF then Doc(Glue(la + [[]], lb), |la|, 0)
               else Doc(Glue(la[..|la| - 1] + [Last(la) + [ch]], lb), |la| - 1, |Last(la)| + 1)
  {
    GlueAfter(la, ch, lb);
    if ch == LF {
      var g := Glue(la, lb);
      assert g[..|la| - 1] == la[..|la| - 1] && g[|la|..] == lb[1..];
      assert la[..|la| - 1] + [Last(la), lb[0]] + lb[1..] == la + [lb[0]] + lb[1..];
    }
  }

  /** Typing and then erasing is the identity on documents, line feeds included. */
  lemma ErasedUndoesTyped(d: Doc, ch: byte)
    requires InDoc(d)
    ensures InDoc(Typed(d, ch)) && Erased(Typed(d, ch)) == d
  {
    var t := Typed(d, ch);
    var l := d.lines[d.line];
    assert l[..d.col] + l[d.col..] == l;
    if ch == LF {
      assert t.lines[d.line] == l[..d.col] && t.lines[d.line + 1] == l[d.col..];
      assert t.lines[..d.line] == d.lines[..d.line] && t.lines[d.line + 2..] == d.lines[d.line + 1..];
      assert d.lines[..d.line] + [l] + d.lines[d.line + 1..] == d.lines;
    } else {
      var m := t.lines[d.line];
      assert m[..d.col] + m[d.col + 1..] == l;
    }
  }

  lemma ErasesAt(a: seq<byte>, c: byte, b: seq<byte>)
    ensures InDoc(DocOf(a + [c] + b, |a| + 1))
    ensures DocOf(a + b, |a|) == Erased(DocOf(a + [c] + b, |a| + 1))
  {
    TypesAt(a, b, c);
    ErasedUndoesTyped(DocOf(a + b, |a|), c);
  }

  /** Deleting is moving right and erasing. */
  lemma DeletedIsRightErased(d: Doc)
    requires InDoc(d) && MovedRight(d) != d
    ensures InDoc(MovedRight(d)) && Erased(MovedRight(d)) == Deleted(d)
  {
  }

  /** What stands right of the caret: the next byte of its line, or the end of the line. */
  lemma CaretLine(s: seq<byte>, cur: nat, c: byte)
    requires cur < |s| && s[cur] == c
    ensures var d := DocOf(s, cur);
            && InDoc(d)
            && (c == LF ==> d.col == |d.lines[d.line]| && d.line + 1 < |d.lines|)
            && (c != LF ==> d.col < |d.lines[d.line]|)
  {
    hide Lines;
    var b := s[cur + 1..];
    assert s[cur..] == [c] + b;
    DocIsIn(s, cur);
    LinesConcat([c], b);
    OneByte(c);
  }

  lemma OneByte(c: byte)
    ensures Lines([c]) == if c == LF then [[], []] else [[c]]
  {
    assert [c][..0] == [] && [] + [c] == [c];
    assert Lines([]) == [[]];
  }

  lemma LeftAt(a: seq<byte>, c: byte, b: seq<byte>)
    ensures InDoc(DocOf(a + [c] + b, |a| + 1)) && InDoc(DocOf(a + [c] + b, |a|))
    ensures DocOf(a + [c] + b, |a|) == MovedLeft(DocOf(a + [c] + b, |a| + 1))
    ensures DocOf(a + [c] + b, |a| + 1) == MovedRight(DocOf(a + [c] + b, |a|))
  {
    hide Lines;
    var s := a + [c] + b;
    assert s[..|a|] == a && s[..|a| + 1] == a + [c];
    LinesSnoc(a, c);
    DocIsIn(s, |a| + 1);
    CaretLine(s, |a|, c);
    var la := Lines(a);
    assert DocOf(s, |a|).lines == Glue(Lines(s[..|a| + 1]), Lines(s[|a| + 1..]));
  }

  /** The first and the last caret place of a text. */
  lemma AtTheEnds(s: seq<byte>)
    ensures DocOf(s, 0) == Doc(Lines(s), 0, 0)
    ensures DocOf(s, |s|) == Doc(Lines(s), |Lines(s)| - 1, |Last(Lines(s))|)
  {
    hide Lines;
    NoLines();
    assert s[..0] == [] && s[..|s|] == s;
  }

  /** Walking right by one byte. */
  lemma StepRight(s: seq<byte>, i: nat)
    requires i < |s|
    ensures InDoc(DocOf(s, i)) && InDoc(DocOf(s, i + 1))
    ensures DocOf(s, i + 1) == MovedRight(DocOf(s, i)) && DocOf(s, i) == MovedLeft(DocOf(s, i + 1))
    ensures s[i] == LF <==> DocOf(s, i).col == |DocOf(s, i).lines[DocOf(s, i).line]|
    ensures s[i] == LF ==> DocOf(s, i).line + 1 < |DocOf(s, i).lines|
    ensures DocOf(s, i).lines == Lines(s)
  {
    hide DocOf, Lines;
    assert s == s[..i] + [s[i]] + s[i + 1..];
    LeftAt(s[..i], s[i], s[i + 1..]);
    DocLines(s, i);
    CaretLine(s, i, s[i]);
  }

  lemma DocLines(s: seq<byte>, i: nat)
    requires i <= |s|
    ensures DocOf(s, i).lines == Lines(s)
  {
  }

  /** Text typed byte by byte. */
  function TypedAll(d: Doc, text: seq<byte>): Doc
    requires InDoc(d)
    decreases |text|
  {
    if text == [] then d
    else
      ErasedUndoesTyped(d, text[0]);
      TypedAll(Typed(d, text[0]), text[1..])
  }

  lemma {:induction false} TypesAllAt(a: seq<byte>, b: seq<byte>, text: seq<byte>)
    ensures InDoc(DocOf(a + b, |a|))
    ensures DocOf(a + text + b, |a| + |text|) == TypedAll(DocOf(a + b, |a|), text)
    decreases |text|
  {
    hide Lines, DocOf, Typed;
    if text == [] {
      SplitAt(a, b);
      assert a + text == a;
    } else {
      TypesAt(a, b, text[0]);
      TypesAllAt(a + [text[0]], b, text[1..]);
      assert a + [text[0]] + text[1..] == a + text;
    }
  }

  // ---- opening a file ----

  /** A file's text as the notepad keeps it: line ends become line feeds, NULs go. */
  function Normal(src: seq<byte>): (r: seq<byte>)
    ensures CR !in r && 0 !in r && |r| <= |src|
  {
    if src == [] then []
    else if src[0] == 0 || (src[0] == CR && |src| > 1 && src[1] == LF) then Normal(src[1..])
    else if src[0] == CR then [LF] + Normal(src[1..])
    else [src[0]] + Normal(src[1..])
  }

  function Cut(s: seq<byte>): seq<byte> { if |s| > MAX_BYTES then s[..MAX_BYTES] else s }

  lemma {:induction false} NormalKeeps(s: seq<byte>)
    requires CR !in s && 0 !in s
    ensures Normal(s) == s
  {
    if s != [] {
      NormalKeeps(s[1..]);
    }
  }

  /** Opening what was opened (or anything saved from a buffer that was only opened) changes nothing. */
  lemma LoadIdempotent(src: seq<byte>)
    ensures var once := Cut(Normal(src)); Cut(Normal(once)) == once
  {
    NormalKeeps(Cut(Normal(src)));
  }

  /** A file's lines, whichever of CRLF, LF and CR ends each of them, without NULs. */
  function HostLines(src: seq<byte>): (ls: seq<seq<byte>>)
    ensures |ls| > 0
  {
    if src == [] then [[]]
    else if src[0] == CR && |src| > 1 && src[1] == LF then [[]] + HostLines(src[2..])
    else if src[0] == CR || src[0] == LF then [[]] + HostLines(src[1..])
    else
      var ls := HostLines(src[1..]);
      if src[0] == 0 then ls else [[src[0]] + ls[0]] + ls[1..]
  }

  /** The lines the notepad shows are the file's lines. */
  lemma {:induction false} LoadKeepsLines(src: seq<byte>)
    ensures Lines(Normal(src)) == HostLines(src)
  {
    if src == [] {
    } else if src[0] == CR && |src| > 1 && src[1] == LF {
      LoadKeepsLines(src[2..]);
      assert src[1..][1..] == src[2..];
      LinesCons(LF, Normal(src[2..]));
    } else {
      LoadKeepsLines(src[1..]);
      if src[0] != 0 {
        LinesCons(if src[0] == CR then LF else src[0], Normal(src[1..]));
      }
    }
  }

  /** After the cut at the bound the notepad shows the file's lines up to the place where its text reaches
      the bound, and the start of the line that place is on. */
  lemma LoadShowsStart(src: seq<byte>)
    ensures var ls, kept := HostLines(src), Cut(Normal(src));
            var d := DocOf(Normal(src), |kept|);
            && InDoc(d) && d.lines == ls && LineStart(ls, d.line) + d.col == |kept|
            && Lines(kept) == ls[..d.line] + [ls[d.line][..d.col]]
            && (|Normal(src)| <= MAX_BYTES ==> Lines(kept) == ls)
  {
    hide Lines, Normal, HostLines;
    var text, kept := Normal(src), Cut(Normal(src));
    LoadKeepsLines(src);
    DocIsIn(text, |kept|);
    var d := DocOf(text, |kept|);
    CaretOffset(text, |kept|);
    CutLines(text, d.line, d.col);
    assert text[..|kept|] == kept;
  }

  /** A file of exactly the bound loads whole and returns the bound; so does one of a byte more if that byte
      is a NUL; with one more NUL for a letter, a file over the bound returns less than it. */
  lemma BoundWithoutCut()
    ensures var full := seq(MAX_BYTES, _ => 65);
            && |full| == MAX_BYTES && Cut(Normal(full)) == full
            && Cut(Normal([0] + full)) == full
            && |Cut(Normal([0, 0] + full[1..]))| == MAX_BYTES - 1
  {
    hide Normal;
    var full: seq<byte> := seq(MAX_BYTES, _ => 65);
    NormalKeeps(full);
    NormalKeeps(full[1..]);
    NulGoes(full);
    NulGoes(full[1..]);
    NulGoes([0] + full[1..]);
    assert [0, 0] + full[1..] == [0] + ([0] + full[1..]);
  }

  lemma NulGoes(s: seq<byte>)
    ensures Normal([0] + s) == Normal(s)
  {
  }

  lemma LinesCons(c: byte, s: seq<byte>)
    ensures Lines([c] + s) == if c == LF then [[]] + Lines(s) else [[c] + Lines(s)[0]] + Lines(s)[1..]
  {
    hide Lines;
    LinesConcat([c], s);
    OneByte(c);
    var ls := Lines(s);
    assert [] + ls[0] == ls[0] && [ls[0]] + ls[1..] == ls;
  }

  // ---- scrolling ----

  /** The scroll top that keeps caret line `line` among `rows` rows. */
  function Followed(line: int, top: int, rows: int): int {
    var from := if top < 1 then 1 else top;
    if rows <= 0 then 0
    else if line < from then line
    else if line >= from + rows then line - rows + 1
    else from
  }

  predicate Shows(top: int, rows: int, line: int) { top <= line < top + rows }

  function Gap(a: int, b: int): nat { if a < b then b - a else a - b }

  /** Following shows the caret's line, by the smallest scroll that does, and is stable. */
  lemma FollowIsNearest(line: int, top: int, rows: int)
    requires line >= 1 && rows > 0
    ensures var r := Followed(line, top, rows);
            && r >= 1 && Shows(r, rows, line) && Followed(line, r, rows) == r
            && (top >= 1 && Shows(top, rows, line) ==> r == top)
            && (top >= 1 ==> forall other :: Shows(other, rows, line) ==> Gap(top, r) <= Gap(top, other))
  {
  }

  datatype ViewLine = ViewLine(text: seq<byte>, line: int, col: int)

  function Clip(text: seq<byte>, width: int): seq<byte> {
    if width > 0 && |text| > width then text[..width] else text
  }

  function RowOf(d: Doc, k: nat, width: int): ViewLine
    requires k < |d.lines|
  {
    ViewLine(Clip(d.lines[k], width), k + 1, if d.line == k then d.col else -1)
  }

  /** Lines `lo` up to `hi` (1-based, `hi` excluded) as drawn rows. */
  function RowsOf(d: Doc, lo: int, hi: int, width: int): seq<ViewLine>
    requires 1 <= lo && hi <= |d.lines| + 1
    decreases hi - lo
  {
    if lo >= hi then [] else RowsOf(d, lo, hi - 1, width) + [RowOf(d, hi - 2, width)]
  }

  lemma {:induction false} RowsAre(d: Doc, lo: int, hi: int, width: int)
    requires 1 <= lo && hi <= |d.lines| + 1
    ensures var v := RowsOf(d, lo, hi, width);
            && |v| == (if lo <= hi then hi - lo else 0)
            && forall k :: 0 <= k < |v| ==> v[k] == RowOf(d, lo - 1 + k, width)
    decreases hi - lo
  {
    if lo < hi {
      RowsAre(d, lo, hi - 1, width);
    }
  }

  /** The window of at most `rows` lines starting at line `top`. */
  function Viewed(d: Doc, top: int, rows: int, width: int): seq<ViewLine> {
    var from := if top < 1 then 1 else top;
    if rows <= 0 then []
    else RowsOf(d, from, if from + rows <= |d.lines| then from + rows else |d.lines| + 1, width)
  }

  /** After following, exactly one drawn row carries the caret: the caret's own. */
  lemma FollowedCaretIsDrawn(d: Doc, top: int, rows: int, width: int)
    requires InDoc(d) && rows > 0
    ensures var first := Followed(d.line + 1, top, rows);
            var v := Viewed(d, first, rows, width);
            && 0 <= d.line + 1 - first < |v|
            && (forall k :: 0 <= k < |v| ==>
                 (v[k].line == first + k && v[k].col == if k == d.line + 1 - first then d.col else -1))
  {
    FollowIsNearest(d.line + 1, top, rows);
    var lo := Followed(d.line + 1, top, rows);
    RowsAre(d, lo, if lo + rows <= |d.lines| then lo + rows else |d.lines| + 1, width);
  }

  // ---- the buffer ----

  class Buffer {
    var buf: seq<byte>
    var cur: nat

    ghost predicate Valid()
      reads this
    {
      cur <= |buf| <= MAX_BYTES
    }

    /** What the buffer stands for. */
    ghost function Now(): Doc
      requires Valid()
      reads this
    {
      DocOf(buf, cur)
    }

    constructor ()
      ensures Valid() && Now() == Doc([[]], 0, 0)
    {
      buf := [];
      cur := 0;
      new;
      AtTheEnds(buf);
    }

    method SetCursor(i: int)
      requires Valid()
      modifies this`cur
      ensures Valid()
      ensures cur == if i < 0 then 0 else if i > |buf| then |buf| else i
    {
      cur := if i < 0 then 0 else if i > |buf| then |buf| else i;
    }

    method Load(src: seq<byte>) returns (n: nat)
      modifies this
      ensures Valid() && cur == 0 && n == |buf|
      ensures buf == Cut(Normal(src))
      ensures n == MAX_BYTES <==> |Normal(src)| >= MAX_BYTES
    {
      buf := [];
      cur := 0;
      n := 0;
      for i := 0 to |src|
        invariant cur == 0 && n == |buf| <= MAX_BYTES
        invariant buf + Normal(src[i..]) == Normal(src)
      {
        var c := src[i];
        assert src[i..][1..] == src[i + 1..];
        if c == CR {
          if i + 1 < |src| && src[i + 1] == LF {
            continue;
          }
          c := LF;
        }
        if c == 0 {
          continue;
        }
        assert buf + ([c] + Normal(src[i + 1..])) == buf + [c] + Normal(src[i + 1..]);
        if n >= MAX_BYTES {
          break;
        }
        buf := buf + [c];
        n := n + 1;
      }
    }

    /** A full buffer refuses and stays as it is. */
    method Insert(ch: byte) returns (ok: bool)
      requires Valid()
      modifies this
      ensures Valid() && ok == (|old(buf)| < MAX_BYTES)
      ensures InDoc(old(Now())) && Now() == if ok then Typed(old(Now()), ch) else old(Now())
      ensures ok ==> buf == old(buf[..cur] + [ch] + buf[cur..]) && cur == old(cur) + 1
      ensures !ok ==> buf == old(buf) && cur == old(cur)
    {
      hide Lines, DocOf, Typed;
      ghost var a, b := buf[..cur], buf[cur..];
      assert buf == a + b;
      TypesAt(a, b, ch);
      if |buf| >= MAX_BYTES {
        return false;
      }
      buf := buf[..cur] + [ch] + buf[cur..];
      cur := cur + 1;
      return true;
    }

    /** As much of `s` goes in as there is room for, all at the caret. */
    method InsertText(s: seq<byte>) returns (n: nat)
      requires Valid()
      modifies this
      ensures Valid() && n == if |s| <= MAX_BYTES - |old(buf)| then |s| else MAX_BYTES - |old(buf)|
      ensures buf == old(buf)[..old(cur)] + s[..n] + old(buf)[old(cur)..] && cur == old(cur) + n
      ensures InDoc(old(Now())) && Now() == TypedAll(old(Now()), s[..n])
    {
      hide Lines, DocOf, Typed, TypedAll;
      ghost var a, b := buf[..cur], buf[cur..];
      assert buf == a + b;
      n := 0;
      for i := 0 to |s|
        invariant Valid() && n == i
        invariant buf == a + s[..i] + b && cur == |a| + i
      {
        assert (a + s[..i] + b)[..cur] == a + s[..i] && (a + s[..i] + b)[cur..] == b;
        var ok := Insert(s[i]);
        if !ok {
          break;
        }
        assert a + s[..i] + [s[i]] == a + s[..i + 1];
        n := n + 1;
      }
      TypesAllAt(a, b, s[..n]);
    }

    method Newline() returns (ok: bool)
      requires Valid()
      modifies this
      ensures Valid() && ok == (|old(buf)| < MAX_BYTES)
      ensures InDoc(old(Now())) && Now() == if ok then Typed(old(Now()), LF) else old(Now())
    {
      ok := Insert(LF);
    }

    method Backspace() returns (ok: bool)
      requires Valid()
      modifies this
      ensures Valid() && ok == (old(cur) > 0)
      ensures InDoc(old(Now())) && Now() == Erased(old(Now()))
    {
      hide Lines, DocOf, Erased;
      if cur == 0 {
        DocIsIn(buf, 0);
        ErasesNothing(buf);
        return false;
      }
      ghost var a, c, b := buf[..cur - 1], buf[cur - 1], buf[cur..];
      assert buf == a + [c] + b;
      ErasesAt(a, c, b);
      buf := buf[..cur - 1] + buf[cur..];
      cur := cur - 1;
      return true;
    }

    method Delete() returns (ok: bool)
      requires Valid()
      modifies this
      ensures Valid() && ok == (cur < |old(buf)|) && cur == old(cur)
      ensures InDoc(old(Now())) && Now() == Deleted(old(Now()))
    {
      hide Lines, DocOf, Deleted;
      DocIsIn(buf, cur);
      if cur >= |buf| {
        DeletesNothing(buf);
        return false;
      }
      ghost var a, c, b := buf[..cur], buf[cur], buf[cur + 1..];
      assert buf == a + [c] + b;
      ErasesAt(a, c, b);
      StepRight(buf, cur);
      DeletedIsRightErased(DocOf(buf, cur));
      buf := buf[..cur] + buf[cur + 1..];
      return true;
    }

    method Left() returns (ok: bool)
      requires Valid()
      modifies this`cur
      ensures Valid() && InDoc(old(Now())) && Now() == MovedLeft(old(Now())) && ok == (old(cur) > 0)
    {
      hide Lines, DocOf;
      DocIsIn(buf, cur);
      if cur == 0 {
        AtTheEnds(buf);
        return false;
      }
      StepRight(buf, cur - 1);
      cur := cur - 1;
      return true;
    }

    method Right() returns (ok: bool)
      requires Valid()
      modifies this`cur
      ensures Valid() && InDoc(old(Now())) && Now() == MovedRight(old(Now())) && ok == (old(cur) < |buf|)
    {
      hide Lines, DocOf;
      DocIsIn(buf, cur);
      if cur >= |buf| {
        AtTheEnds(buf);
        return false;
      }
      StepRight(buf, cur);
      cur := cur + 1;
      return true;
    }

    method Line() returns (line: nat)
      requires Valid()
      ensures line == Now().line + 1
    {
      hide Lines, DocOf;
      line := 1;
      AtTheEnds(buf);
      for i := 0 to cur
        invariant line == DocOf(buf, i).line + 1
      {
        StepRight(buf, i);
        if buf[i] == LF { line := line + 1; }
      }
    }

    method Col() returns (col: nat)
      requires Valid()
      ensures col == Now().col
    {
      hide Lines, DocOf;
      var start := 0;
      AtTheEnds(buf);
      for i := 0 to cur
        invariant start <= i && i - start == DocOf(buf, i).col
      {
        StepRight(buf, i);
        if buf[i] == LF { start := i + 1; }
      }
      col := cur - start;
    }

    method LineCount() returns (n: nat)
      requires Valid()
      ensures n == |Lines(buf)|
    {
      hide Lines, DocOf;
      n := 1;
      AtTheEnds(buf);
      for i := 0 to |buf|
        invariant n == DocOf(buf, i).line + 1
      {
        StepRight(buf, i);
        if buf[i] == LF { n := n + 1; }
      }
    }

    /** Start and end of line `n` (from 1); past the last line, the end of the text. */
    method LineBounds(n: int) returns (start: nat, end: nat)
      requires Valid()
      ensures var k := if n < 1 then 0 else n - 1;
              if k < |Lines(buf)| then start == LineStart(Lines(buf), k) && end == start + |Lines(buf)[k]|
              else start == |buf| && end == |buf|
    {
      hide Lines, DocOf, LineStart;
      var want := if n < 1 then 1 else n;
      var line := 1;
      start := 0;
      AtTheEnds(buf);
      for i := 0 to |buf| + 1
        invariant 1 <= line <= want && start <= i
        invariant i <= |buf| ==> DocOf(buf, i) == Doc(Lines(buf), line - 1, i - start)
        invariant i > |buf| ==> line == |Lines(buf)| + 1
      {
        var atEnd := i == |buf|;
        if !atEnd { StepRight(buf, i); }
        if !atEnd && buf[i] != LF {
          continue;
        }
        if line == want {
          CaretOffset(buf, i);
          return start, i;
        }
        line := line + 1;
        start := i + 1;
      }
      return |buf|, |buf|;
    }

    method Up() returns (ok: bool)
      requires Valid()
      modifies this`cur
      ensures Valid() && InDoc(old(Now())) && Now() == MovedUp(old(Now())) && ok == (old(Now()).line > 0)
    {
      hide Lines, DocOf, LineStart;
      DocIsIn(buf, cur);
      DocLines(buf, cur);
      var line := Line();
      if line <= 1 {
        return false;
      }
      var at := Col();
      var s, e := LineBounds(line - 1);
      if at > e - s { at := e - s; }
      CaretAt(buf, line - 2, at);
      cur := s + at;
      return true;
    }

    method Down() returns (ok: bool)
      requires Valid()
      modifies this`cur
      ensures Valid() && InDoc(old(Now())) && Now() == MovedDown(old(Now()))
      ensures ok == (old(Now()).line + 1 < |old(Now()).lines|)
    {
      hide Lines, DocOf, LineStart;
      DocIsIn(buf, cur);
      DocLines(buf, cur);
      var line := Line();
      var count := LineCount();
      if line >= count {
        return false;
      }
      var at := Col();
      var s, e := LineBounds(line + 1);
      if at > e - s { at := e - s; }
      CaretAt(buf, line, at);
      cur := s + at;
      return true;
    }

    method Home() returns (ok: bool)
      requires Valid()
      modifies this`cur
      ensures Valid() && Now() == old(Now()).(col := 0) && ok == (old(Now()).col != 0)
    {
      hide Lines, DocOf, LineStart;
      DocIsIn(buf, cur);
      DocLines(buf, cur);
      CaretOffset(buf, cur);
      var line := Line();
      var s, _ := LineBounds(line);
      if cur == s {
        return false;
      }
      CaretAt(buf, line - 1, 0);
      cur := s;
      return true;
    }

    method End() returns (ok: bool)
      requires Valid()
      modifies this`cur
      ensures Valid() && InDoc(old(Now()))
      ensures Now() == old(Now()).(col := |old(Now()).lines[old(Now()).line]|) && ok == (Now() != old(Now()))
    {
      hide Lines, DocOf, LineStart;
      DocIsIn(buf, cur);
      DocLines(buf, cur);
      CaretOffset(buf, cur);
      var line := Line();
      var s, e := LineBounds(line);
      if cur == e {
        return false;
      }
      CaretAt(buf, line - 1, e - s);
      cur := e;
      return true;
    }

    method Follow(top: int, rows: int) returns (r: int)
      requires Valid()
      ensures r == Followed(Now().line + 1, top, rows)
    {
      if rows <= 0 {
        return 0;
      }
      var from := if top < 1 then 1 else top;
      var line := Line();
      if line < from {
        return line;
      }
      if line >= from + rows {
        return line - rows + 1;
      }
      return from;
    }

    method View(top: int, rows: int, width: int) returns (out: seq<ViewLine>)
      requires Valid()
      ensures out == Viewed(Now(), top, rows, width)
    {
      hide Lines, DocOf, RowsOf, Clip;
      var from := if top < 1 then 1 else top;
      out := [];
      if rows <= 0 {
        return;
      }
      var caretLine := Line();
      var caretCol := Col();
      var line, start := 1, 0;
      ghost var d := DocOf(buf, cur);
      AtTheEnds(buf);
      DocLines(buf, cur);
      RowsAre(d, from, line, width);
      var i := 0;
      while i <= |buf| && |out| < rows
        invariant 0 <= i <= |buf| + 1 && 1 <= line && start <= i
        invariant i <= |buf| ==> DocOf(buf, i) == Doc(d.lines, line - 1, i - start) && line <= |d.lines|
        invariant i > |buf| ==> line == |d.lines| + 1
        invariant out == RowsOf(d, from, line, width)
        invariant |out| == (if from <= line then line - from else 0) <= rows
      {
        var atEnd := i == |buf|;
        if !atEnd { StepRight(buf, i); }
        if atEnd || buf[i] == LF {
          LineText(buf, i);
          AnotherRow(d, from, line, width);
          if line >= from {
            var text := ClipTo(buf[start..i], width);
            var col := if line == caretLine then caretCol as int else -1;
            out := out + [ViewLine(text, line, col)];
          }
          line := line + 1;
          start := i + 1;
        }
        i := i + 1;
      }
    }
  }

  method ClipTo(text: seq<byte>, width: int) returns (clipped: seq<byte>)
    ensures clipped == Clip(text, width)
  {
    clipped := text;
    if width > 0 && |text| > width { clipped := text[..width]; }
  }

  lemma AnotherRow(d: Doc, lo: int, hi: int, width: int)
    requires 1 <= lo && 1 <= hi <= |d.lines|
    ensures RowsOf(d, lo, hi + 1, width)
            == if hi >= lo then RowsOf(d, lo, hi, width) + [RowOf(d, hi - 1, width)] else RowsOf(d, lo, hi, width)
  {
  }

  lemma ErasesNothing(s: seq<byte>)
    ensures InDoc(DocOf(s, 0)) && Erased(DocOf(s, 0)) == DocOf(s, 0)
  {
    hide Lines, DocOf;
    AtTheEnds(s);
  }

  lemma DeletesNothing(s: seq<byte>)
    ensures InDoc(DocOf(s, |s|)) && Deleted(DocOf(s, |s|)) == DocOf(s, |s|)
  {
    hide Lines, DocOf;
    AtTheEnds(s);
  }

  /** The bytes of a line that ends at offset `i`. */
  lemma LineText(s: seq<byte>, i: nat)
    requires i <= |s| && (i == |s| || s[i] == LF)
    ensures InDoc(DocOf(s, i)) && DocOf(s, i).col <= i
    ensures DocOf(s, i).lines[DocOf(s, i).line] == s[i - DocOf(s, i).col..i]
  {
    hide Lines, Join;
    var ls := Lines(s[..i]);
    var d := DocOf(s, i);
    DocIsIn(s, i);
    if i == |s| {
      assert s[..i] == s;
      assert Last(ls) == d.lines[d.line];
    } else {
      var b := s[i + 1..];
      assert s[i..] == [LF] + b;
      LinesCons(LF, b);
      assert Last(ls) + [] == Last(ls);
    }
    JoinInvertsLines(s[..i]);
    assert ls == ls[..|ls| - 1] + [Last(ls)];
    JoinSnoc(ls[..|ls| - 1], Last(ls));
  }
}
