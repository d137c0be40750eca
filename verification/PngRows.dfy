/** The row unfiltering of tools/decode-screen-glyphs.py, against the filters of RFC 2083
    section 6. */
module PngRows {
  import opened Bytes
  import opened Options

  // ---- what RFC 2083 section 6 says ----

  function Abs(x: int): nat { if x < 0 then -x else x }

  /** The candidate nearest to `t`, the first of them when several are. */
  function Nearest(t: int, candidates: seq<byte>): byte
    requires candidates != []
  {
    var n := |candidates| - 1;
    if n == 0 then candidates[0]
    else
      var r := Nearest(t, candidates[..n]);
      if Abs(t - candidates[n]) < Abs(t - r) then candidates[n] else r
  }

  lemma {:induction false} NearestIsFirstLeast(t: int, s: seq<byte>) returns (k: nat)
    requires s != []
    ensures k < |s| && Nearest(t, s) == s[k]
    ensures forall j :: 0 <= j < |s| ==> Abs(t - s[k]) <= Abs(t - s[j])
    ensures forall j :: 0 <= j < k ==> Abs(t - s[k]) < Abs(t - s[j])
  {
    hide Abs;
    var n := |s| - 1;
    if n == 0 {
      k := 0;
    } else {
      k := NearestIsFirstLeast(t, s[..n]);
      if Abs(t - s[n]) < Abs(t - s[k]) { k := n; }
    }
  }

  /** The mean of two bytes, rounded down. */
  function FloorOfMean(a: byte, b: byte): byte {
    var x: int, y: int := a, b;
    ((x as real + y as real) / 2.0).Floor
  }

  /** The specification's predictor of filter type `f` from the bytes to the left, above and above left:
      Sub, Up, Average and Paeth; types it does not define predict nothing. */
  function Predicted(f: byte, a: byte, b: byte, c: byte): byte {
    match f as int
    case 1 => a
    case 2 => b
    case 3 => FloorOfMean(a, b)
    case 4 => Nearest(a as int + b - c, [a, b, c])
    case _ => 0
  }

  // ---- what the loops compute ----

  /** `(a + prev[x]) >> 1` */
  function Halved(a: byte, b: byte): byte {
    var x: int, y: int := a, b;
    (x + y) / 2
  }

  function PaethChoice(a: byte, b: byte, c: byte): byte {
    var x: int, y: int, z: int := a, b, c;
    var p := x + y - z;
    var pa, pb, pc := Abs(p - x), Abs(p - y), Abs(p - z);
    if pa <= pb && pa <= pc then a else if pb <= pc then b else c
  }

  function Added(f: byte, a: byte, b: byte, c: byte): byte {
    if f == 1 then a else if f == 2 then b
    else if f == 3 then Halved(a, b)
    else if f == 4 then PaethChoice(a, b, c)
    else 0
  }

  /** The loops' expressions are the specification's predictors, Paeth ties included. */
  lemma AddsWhatIsPredicted(f: byte, a: byte, b: byte, c: byte)
    ensures Added(f, a, b, c) == Predicted(f, a, b, c)
  {
    if f == 3 {
      var x: int, y: int := a, b;
      var h := (x + y) / 2;
      assert 2 * h <= x + y < 2 * h + 2;
      assert h as real <= (x as real + y as real) / 2.0 < (h + 1) as real;
    } else if f == 4 {
      PaethIsNearest(a, b, c);
    }
  }

  lemma PaethIsNearest(a: byte, b: byte, c: byte)
    ensures PaethChoice(a, b, c) == Nearest(a as int + b - c, [a, b, c])
  {
    var t := a as int + b - c;
    assert [a, b, c][..2] == [a, b] && [a, b][..1] == [a];
    assert Nearest(t, [a]) == a;
    assert Nearest(t, [a, b]) == if Abs(t - b) < Abs(t - a) then b else a;
  }

  function Left(s: seq<byte>, x: nat, bpp: nat): byte
    requires x <= |s| && 0 < bpp
  {
    if x >= bpp then s[x - bpp] else 0
  }

  /** One filtered row, from the original row and the original row above (RFC 2083 section 6). */
  function Filter(f: byte, row: seq<byte>, prev: seq<byte>, bpp: nat): (r: seq<byte>)
    requires |row| == |prev| && 0 < bpp
    ensures |r| == |row|
  {
    seq(|row|, x requires 0 <= x < |row| =>
      Minus(row[x], Predicted(f, Left(row, x, bpp), prev[x], Left(prev, x, bpp))))
  }

  function Minus(v: byte, p: byte): byte {
    var x: int, y: int := v, p;
    (x - y) % 256
  }

  function Plus(v: byte, p: byte): byte {
    var x: int, y: int := v, p;
    (x + y) % 256
  }

  // ---- the in-place reconstruction ----

  /** The first `n` bytes of a row as the loops rebuild them, left to right. */
  function Rebuilt(f: byte, raw: seq<byte>, prev: seq<byte>, bpp: nat, n: nat): (r: seq<byte>)
    requires |raw| == |prev| && 0 < bpp && n <= |raw|
    ensures |r| == n
  {
    if n == 0 then []
    else
      var r := Rebuilt(f, raw, prev, bpp, n - 1);
      r + [Plus(raw[n - 1], Added(f, Left(r, n - 1, bpp), prev[n - 1], Left(prev, n - 1, bpp)))]
  }

  function Unfilter(f: byte, raw: seq<byte>, prev: seq<byte>, bpp: nat): (r: seq<byte>)
    requires |raw| == |prev| && 0 < bpp
    ensures |r| == |raw|
  {
    Rebuilt(f, raw, prev, bpp, |raw|)
  }

  lemma PlusUndoesMinus(v: byte, p: byte)
    ensures Plus(Minus(v, p), p) == v
  {
  }

  lemma {:induction false} RebuildsPrefix(f: byte, row: seq<byte>, prev: seq<byte>, bpp: nat, n: nat)
    requires |row| == |prev| && 0 < bpp && n <= |row|
    ensures Rebuilt(f, Filter(f, row, prev, bpp), prev, bpp, n) == row[..n]
  {
    hide Predicted, Added, Plus, Minus;
    if n > 0 {
      RebuildsPrefix(f, row, prev, bpp, n - 1);
      var x := n - 1;
      assert Left(row[..x], x, bpp) == Left(row, x, bpp);
      AddsWhatIsPredicted(f, Left(row, x, bpp), prev[x], Left(prev, x, bpp));
      PlusUndoesMinus(row[x], Predicted(f, Left(row, x, bpp), prev[x], Left(prev, x, bpp)));
    }
  }

  /** Unfiltering undoes filtering, for every filter type, row and row above. */
  lemma UnfilterUndoesFilter(f: byte, row: seq<byte>, prev: seq<byte>, bpp: nat)
    requires |row| == |prev| && 0 < bpp
    ensures Unfilter(f, Filter(f, row, prev, bpp), prev, bpp) == row
  {
    RebuildsPrefix(f, row, prev, bpp, |row|);
    assert row[..|row|] == row;
  }

  lemma {:induction false} UntouchedStart(f: byte, raw: seq<byte>, prev: seq<byte>, bpp: nat, n: nat)
    requires |raw| == |prev| && 0 < bpp && n <= |raw|
    requires (f == 1 && n <= bpp) || f !in {1, 2, 3, 4}
    ensures Rebuilt(f, raw, prev, bpp, n) == raw[..n]
  {
    if n > 0 { UntouchedStart(f, raw, prev, bpp, n - 1); }
  }

  /** One more byte rewritten in place is one more byte rebuilt. */
  lemma OneMore(f: byte, raw: seq<byte>, prev: seq<byte>, bpp: nat, line: seq<byte>, x: nat, v: byte)
    requires |raw| == |prev| == |line| && 0 < bpp && x < |raw|
    requires line == Rebuilt(f, raw, prev, bpp, x) + raw[x..]
    requires v == Plus(line[x], Added(f, Left(line, x, bpp), prev[x], Left(prev, x, bpp)))
    ensures line[x := v] == Rebuilt(f, raw, prev, bpp, x + 1) + raw[x + 1..]
  {
    hide Added, Plus;
    var r := Rebuilt(f, raw, prev, bpp, x);
    assert Left(line, x, bpp) == Left(r, x, bpp);
    assert line[x] == raw[x];
  }

  /** A row rewritten up to `x`. */
  ghost predicate Partly(line: seq<byte>, f: byte, raw: seq<byte>, prev: seq<byte>, bpp: nat, x: nat)
    requires |raw| == |prev| && bpp > 0
  {
    |line| == |raw| && x <= |raw| && line == Rebuilt(f, raw, prev, bpp, x) + raw[x..]
  }

  lemma PartlyNone(f: byte, raw: seq<byte>, prev: seq<byte>, bpp: nat)
    requires |raw| == |prev| && bpp > 0
    ensures Partly(raw, f, raw, prev, bpp, 0)
    ensures f == 1 && bpp <= |raw| ==> Partly(raw, f, raw, prev, bpp, bpp)
  {
    RebuiltNone(f, raw, prev, bpp);
    if f == 1 && bpp <= |raw| { UntouchedStart(f, raw, prev, bpp, bpp); }
  }

  lemma PartlyAll(line: seq<byte>, f: byte, raw: seq<byte>, prev: seq<byte>, bpp: nat)
    requires |raw| == |prev| && bpp > 0 && Partly(line, f, raw, prev, bpp, |raw|)
    ensures line == Unfilter(f, raw, prev, bpp)
  {
    hide Rebuilt;
  }

  /** One more byte rewritten is one more byte rebuilt. */
  lemma PartlyMore(f: byte, raw: seq<byte>, prev: seq<byte>, bpp: nat, line: seq<byte>, x: nat, v: byte)
    requires |raw| == |prev| == |line| && bpp > 0 && x < |raw| && Partly(line, f, raw, prev, bpp, x)
    requires v == Plus(line[x], Added(f, Left(line, x, bpp), prev[x], Left(prev, x, bpp)))
    ensures Partly(line[x := v], f, raw, prev, bpp, x + 1)
  {
    hide Rebuilt, Added, Plus;
    OneMore(f, raw, prev, bpp, line, x, v);
  }

  // The loop bodies, then the loops around them.

  method AddLeftAt(line: array<byte>, ghost raw: seq<byte>, prev: seq<byte>, bpp: nat, x: nat)
    requires |raw| == |prev| == line.Length && bpp > 0 && bpp <= x < line.Length
    requires Partly(line[..], 1, raw, prev, bpp, x)
    modifies line
    ensures Partly(line[..], 1, raw, prev, bpp, x + 1)
  {
    hide Plus, Halved, PaethChoice, Partly;
    ghost var before := line[..];
    var v := Plus(line[x], line[x - bpp]);
    PartlyMore(1, raw, prev, bpp, before, x, v);
    line[x] := v;
    assert line[..] == before[x := v];
  }

  method AddUpAt(line: array<byte>, ghost raw: seq<byte>, prev: seq<byte>, bpp: nat, x: nat)
    requires |raw| == |prev| == line.Length && bpp > 0 && x < line.Length
    requires Partly(line[..], 2, raw, prev, bpp, x)
    modifies line
    ensures Partly(line[..], 2, raw, prev, bpp, x + 1)
  {
    hide Plus, Halved, PaethChoice, Partly;
    ghost var before := line[..];
    var v := Plus(line[x], prev[x]);
    PartlyMore(2, raw, prev, bpp, before, x, v);
    line[x] := v;
    assert line[..] == before[x := v];
  }

  method AddMeanAt(line: array<byte>, ghost raw: seq<byte>, prev: seq<byte>, bpp: nat, x: nat)
    requires |raw| == |prev| == line.Length && bpp > 0 && x < line.Length
    requires Partly(line[..], 3, raw, prev, bpp, x)
    modifies line
    ensures Partly(line[..], 3, raw, prev, bpp, x + 1)
  {
    hide Plus, Halved, PaethChoice, Partly;
    ghost var before := line[..];
    var a := if x >= bpp then line[x - bpp] else 0;
    var v := Plus(line[x], Halved(a, prev[x]));
    PartlyMore(3, raw, prev, bpp, before, x, v);
    line[x] := v;
    assert line[..] == before[x := v];
  }

  method AddPaethAt(line: array<byte>, ghost raw: seq<byte>, prev: seq<byte>, bpp: nat, x: nat)
    requires |raw| == |prev| == line.Length && bpp > 0 && x < line.Length
    requires Partly(line[..], 4, raw, prev, bpp, x)
    modifies line
    ensures Partly(line[..], 4, raw, prev, bpp, x + 1)
  {
    hide Plus, Halved, PaethChoice, Partly;
    ghost var before := line[..];
    var a := if x >= bpp then line[x - bpp] else 0;
    var c := if x >= bpp then prev[x - bpp] else 0;
    var v := Plus(line[x], PaethChoice(a, prev[x], c));
    PartlyMore(4, raw, prev, bpp, before, x, v);
    line[x] := v;
    assert line[..] == before[x := v];
  }

  /** Type 1, from the second pixel on. */
  method AddLeft(line: array<byte>, prev: seq<byte>, bpp: nat)
    requires |prev| == line.Length && bpp > 0 && bpp <= line.Length
    modifies line
    ensures line[..] == Unfilter(1, old(line[..]), prev, bpp)
  {
    hide Partly, Unfilter;
    ghost var raw := line[..];
    PartlyNone(1, raw, prev, bpp);
    for x := bpp to line.Length
      invariant Partly(line[..], 1, raw, prev, bpp, x)
    {
      AddLeftAt(line, raw, prev, bpp, x);
    }
    PartlyAll(line[..], 1, raw, prev, bpp);
  }

  /** Type 2. */
  method AddUp(line: array<byte>, prev: seq<byte>, bpp: nat)
    requires |prev| == line.Length && bpp > 0
    modifies line
    ensures line[..] == Unfilter(2, old(line[..]), prev, bpp)
  {
    hide Partly, Unfilter;
    ghost var raw := line[..];
    PartlyNone(2, raw, prev, bpp);
    for x := 0 to line.Length
      invariant Partly(line[..], 2, raw, prev, bpp, x)
    {
      AddUpAt(line, raw, prev, bpp, x);
    }
    PartlyAll(line[..], 2, raw, prev, bpp);
  }

  /** Type 3. */
  method AddMean(line: array<byte>, prev: seq<byte>, bpp: nat)
    requires |prev| == line.Length && bpp > 0
    modifies line
    ensures line[..] == Unfilter(3, old(line[..]), prev, bpp)
  {
    hide Partly, Unfilter;
    ghost var raw := line[..];
    PartlyNone(3, raw, prev, bpp);
    for x := 0 to line.Length
      invariant Partly(line[..], 3, raw, prev, bpp, x)
    {
      AddMeanAt(line, raw, prev, bpp, x);
    }
    PartlyAll(line[..], 3, raw, prev, bpp);
  }

  /** Type 4. */
  method AddPaeth(line: array<byte>, prev: seq<byte>, bpp: nat)
    requires |prev| == line.Length && bpp > 0
    modifies line
    ensures line[..] == Unfilter(4, old(line[..]), prev, bpp)
  {
    hide Partly, Unfilter;
    ghost var raw := line[..];
    PartlyNone(4, raw, prev, bpp);
    for x := 0 to line.Length
      invariant Partly(line[..], 4, raw, prev, bpp, x)
    {
      AddPaethAt(line, raw, prev, bpp, x);
    }
    PartlyAll(line[..], 4, raw, prev, bpp);
  }

  /** The five cases for one row; an unknown type leaves the row as it is. */
  method UnfilterRow(f: byte, line: array<byte>, prev: seq<byte>, bpp: nat)
    requires |prev| == line.Length && bpp > 0 && (line.Length == 0 || bpp <= line.Length)
    modifies line
    ensures line[..] == Unfilter(f, old(line[..]), prev, bpp)
  {
    hide Rebuilt;
    if f == 1 {
      if line.Length > 0 { AddLeft(line, prev, bpp); } else { RebuiltNone(f, line[..], prev, bpp); }
    } else if f == 2 {
      AddUp(line, prev, bpp);
    } else if f == 3 {
      AddMean(line, prev, bpp);
    } else if f == 4 {
      AddPaeth(line, prev, bpp);
    } else {
      UntouchedStart(f, line[..], prev, bpp, line.Length);
      assert line[..][..line.Length] == line[..];
    }
  }

  lemma RebuiltNone(f: byte, raw: seq<byte>, prev: seq<byte>, bpp: nat)
    requires |raw| == |prev| && 0 < bpp
    ensures Rebuilt(f, raw, prev, bpp, 0) == []
  {
  }

  // ---- whole images ----

  /** Where row `y` starts: every row is a filter byte and `stride` bytes. */
  function Offset(y: nat, stride: nat): nat {
    if y == 0 then 0 else Offset(y - 1, stride) + 1 + stride
  }

  lemma {:induction false} OffsetGrows(y: nat, z: nat, stride: nat)
    requires y <= z
    ensures Offset(y, stride) + (z - y) <= Offset(z, stride)
    ensures y < z ==> Offset(y, stride) + 1 + stride <= Offset(z, stride)
    decreases z
  {
    if y < z { OffsetGrows(y, z - 1, stride); }
  }

  /** Row `y` of the image in `raw`, rebuilt from the rows above it. */
  function Row(raw: seq<byte>, y: nat, stride: nat, bpp: nat): (r: seq<byte>)
    requires bpp > 0 && Offset(y + 1, stride) <= |raw|
    ensures |r| == stride
    decreases y
  {
    var at := Offset(y, stride);
    var prev := if y == 0 then Zeros(stride) else Row(raw, y - 1, stride, bpp);
    Unfilter(raw[at], raw[at + 1..at + 1 + stride], prev, bpp)
  }

  function Pixels(raw: seq<byte>, h: nat, stride: nat, bpp: nat): seq<byte>
    requires bpp > 0 && Offset(h, stride) <= |raw|
  {
    if h == 0 then [] else Pixels(raw, h - 1, stride, bpp) + Row(raw, h - 1, stride, bpp)
  }

  /** The row loop with `y` rows done: its offset, the row above the next one and the rows so far. */
  ghost predicate Loading(raw: seq<byte>, y: nat, stride: nat, bpp: nat, i: nat, prev: seq<byte>, out: seq<byte>)
    requires bpp > 0
  {
    && i == Offset(y, stride) <= |raw| && out == Pixels(raw, y, stride, bpp)
    && prev == if y == 0 then Zeros(stride) else Row(raw, y - 1, stride, bpp)
  }

  lemma NoRows(raw: seq<byte>, stride: nat, bpp: nat)
    requires bpp > 0
    ensures Loading(raw, 0, stride, bpp, 0, Zeros(stride), [])
  {
  }

  /** One more row. */
  lemma NextRow(raw: seq<byte>, y: nat, stride: nat, bpp: nat, i: nat, prev: seq<byte>, out: seq<byte>)
    requires bpp > 0 && Loading(raw, y, stride, bpp, i, prev, out) && i + 1 + stride <= |raw|
    ensures |prev| == stride
    ensures var row := Unfilter(raw[i], raw[i + 1..i + 1 + stride], prev, bpp);
            Loading(raw, y + 1, stride, bpp, i + 1 + stride, row, out + row)
  {
    hide Unfilter;
  }

  /** Whether the loop for this filter type writes to a row that is shorter than it should be. */
  predicate Rewrites(f: byte, stride: nat, bpp: nat) { (f == 1 && bpp < stride) || 2 <= f <= 4 }

  /** What load_png makes of any stream, None standing for IndexError: a row cut short raises in its own
      loop or at the next row, so only a last row of a type without a loop is taken as it is. */
  function Loaded(raw: seq<byte>, h: nat, stride: nat, bpp: nat): Option<seq<byte>>
    requires bpp > 0
  {
    if Offset(h, stride) <= |raw| then Some(Pixels(raw, h, stride, bpp))
    else
      var at := Offset(h - 1, stride);
      if at < |raw| && !Rewrites(raw[at], stride, bpp) then Some(Pixels(raw, h - 1, stride, bpp) + raw[at + 1..])
      else None
  }

  lemma LoadsShort(raw: seq<byte>, y: nat, h: nat, stride: nat, bpp: nat, prev: seq<byte>, i: nat, out: seq<byte>)
    requires bpp > 0 && y < h && Loading(raw, y, stride, bpp, i, prev, out) && i + 1 + stride > |raw|
    ensures Loaded(raw, h, stride, bpp)
         == if y + 1 == h && i < |raw| && !Rewrites(raw[i], stride, bpp) then Some(out + raw[i + 1..]) else None
  {
    hide Pixels, Row, Rewrites;
    OffsetGrows(y + 1, h, stride);
    if y + 1 < h { OffsetGrows(y + 1, h - 1, stride); }
  }

  lemma LoadsWhole(raw: seq<byte>, h: nat, stride: nat, bpp: nat, prev: seq<byte>, i: nat, out: seq<byte>)
    requires bpp > 0 && Loading(raw, h, stride, bpp, i, prev, out)
    ensures Loaded(raw, h, stride, bpp) == Some(out)
  {
  }

  /** One turn of the row loop: the row at `i`, unfiltered in a buffer of its own. */
  method ReadRow(raw: seq<byte>, ghost y: nat, stride: nat, bpp: nat, i: nat, prev: seq<byte>, out: seq<byte>)
    returns (row: seq<byte>)
    requires bpp > 0 && (stride == 0 || bpp <= stride) && i + 1 + stride <= |raw|
    requires Loading(raw, y, stride, bpp, i, prev, out)
    ensures Loading(raw, y + 1, stride, bpp, i + 1 + stride, row, out + row)
  {
    NextRow(raw, y, stride, bpp, i, prev, out);
    hide Unfilter, Loading;
    var bytes := raw[i + 1..i + 1 + stride];
    var line := new byte[stride](k requires 0 <= k < stride => bytes[k]);
    assert line[..] == bytes;
    UnfilterRow(raw[i], line, prev, bpp);
    row := line[..];
  }

  /** A row cut short. */
  method ReadShort(raw: seq<byte>, y: nat, h: nat, stride: nat, bpp: nat, i: nat, ghost prev: seq<byte>,
                   out: seq<byte>)
    returns (r: Option<seq<byte>>)
    requires bpp > 0 && y < h && Loading(raw, y, stride, bpp, i, prev, out) && i + 1 + stride > |raw|
    ensures r == Loaded(raw, h, stride, bpp)
  {
    hide Loading, Rewrites, Loaded;
    LoadsShort(raw, y, h, stride, bpp, prev, i, out);
    if i >= |raw| { return None; }
    if Rewrites(raw[i], stride, bpp) { return None; }
    if y + 1 < h { return None; }
    r := Some(out + raw[i + 1..]);
  }

  /** The row loop of load_png, on the inflated stream. */
  method LoadRows(raw: seq<byte>, h: nat, stride: nat, bpp: nat) returns (r: Option<seq<byte>>)
    requires bpp > 0 && (stride == 0 || bpp <= stride)
    ensures r == Loaded(raw, h, stride, bpp)
  {
    NoRows(raw, stride, bpp);
    hide Loading, Loaded;
    var out: seq<byte> := [];
    var prev := Zeros(stride);
    var i: nat := 0;
    for y := 0 to h
      invariant Loading(raw, y, stride, bpp, i, prev, out)
    {
      if i + 1 + stride > |raw| {
        r := ReadShort(raw, y, h, stride, bpp, i, prev, out);
        return;
      }
      prev := ReadRow(raw, y, stride, bpp, i, prev, out);
      i := i + 1 + stride;
      out := out + prev;
    }
    LoadsWhole(raw, h, stride, bpp, prev, i, out);
    r := Some(out);
  }

  function Flatten(rows: seq<seq<byte>>): seq<byte> {
    if rows == [] then [] else Flatten(rows[..|rows| - 1]) + rows[|rows| - 1]
  }

  predicate AllOf(rows: seq<seq<byte>>, stride: nat) { forall y :: 0 <= y < |rows| ==> |rows[y]| == stride }

  /** An image filtered row by row, with a filter type chosen for each row. */
  function FilterImage(rows: seq<seq<byte>>, types: seq<byte>, stride: nat, bpp: nat): (raw: seq<byte>)
    requires AllOf(rows, stride) && |types| == |rows| && bpp > 0
    ensures |raw| == Offset(|rows|, stride)
    decreases |rows|
  {
    if rows == [] then []
    else
      var n := |rows| - 1;
      var prev := if n == 0 then Zeros(stride) else rows[n - 1];
      FilterImage(rows[..n], types[..n], stride, bpp) + [types[n]] + Filter(types[n], rows[n], prev, bpp)
  }

  /** Row `y` of a raw image is its filter type and its filtered bytes. */
  predicate HasRow(raw: seq<byte>, rows: seq<seq<byte>>, types: seq<byte>, stride: nat, bpp: nat, y: nat)
    requires AllOf(rows, stride) && |types| == |rows| && bpp > 0 && y < |rows|
  {
    var at := Offset(y, stride);
    && at + 1 + stride <= |raw|
    && raw[at] == types[y]
    && raw[at + 1..at + 1 + stride] == Filter(types[y], rows[y], if y == 0 then Zeros(stride) else rows[y - 1], bpp)
  }

  lemma {:induction false} RowBytes(rows: seq<seq<byte>>, types: seq<byte>, stride: nat, bpp: nat, y: nat)
    requires AllOf(rows, stride) && |types| == |rows| && bpp > 0 && y < |rows|
    ensures HasRow(FilterImage(rows, types, stride, bpp), rows, types, stride, bpp, y)
    decreases |rows|
  {
    hide Filter, FilterImage, HasRow, Offset;
    var n := |rows| - 1;
    var prev := if n == 0 then Zeros(stride) else rows[n - 1];
    LastRow(rows, types, stride, bpp);
    if y < n {
      RowBytes(rows[..n], types[..n], stride, bpp, y);
      RowStays(rows, types, stride, bpp, y, FilterImage(rows[..n], types[..n], stride, bpp),
               [types[n]] + Filter(types[n], rows[n], prev, bpp));
    } else {
      RowEnds(rows, types, stride, bpp, FilterImage(rows[..n], types[..n], stride, bpp));
    }
  }

  lemma RowStays(rows: seq<seq<byte>>, types: seq<byte>, stride: nat, bpp: nat, y: nat,
                 front: seq<byte>, last: seq<byte>)
    requires AllOf(rows, stride) && |types| == |rows| && bpp > 0 && y < |rows| - 1
    requires HasRow(front, rows[..|rows| - 1], types[..|rows| - 1], stride, bpp, y)
    ensures HasRow(front + last, rows, types, stride, bpp, y)
  {
    hide Filter, Offset;
    InFront(front, last, Offset(y, stride), 1 + stride);
  }

  lemma RowEnds(rows: seq<seq<byte>>, types: seq<byte>, stride: nat, bpp: nat, front: seq<byte>)
    requires AllOf(rows, stride) && |types| == |rows| && bpp > 0 && rows != [] && |front| == Offset(|rows| - 1, stride)
    ensures var n := |rows| - 1;
            var prev := if n == 0 then Zeros(stride) else rows[n - 1];
            HasRow(front + ([types[n]] + Filter(types[n], rows[n], prev, bpp)), rows, types, stride, bpp, n)
  {
    hide Filter, Offset;
    var n := |rows| - 1;
    InBack(front, types[n], Filter(types[n], rows[n], if n == 0 then Zeros(stride) else rows[n - 1], bpp));
  }

  lemma InBack(a: seq<byte>, f: byte, b: seq<byte>)
    ensures (a + ([f] + b))[|a|] == f && (a + ([f] + b))[|a| + 1..|a| + 1 + |b|] == b
  {
  }

  lemma LastRow(rows: seq<seq<byte>>, types: seq<byte>, stride: nat, bpp: nat)
    requires AllOf(rows, stride) && |types| == |rows| && bpp > 0 && rows != []
    ensures var n := |rows| - 1;
            var prev := if n == 0 then Zeros(stride) else rows[n - 1];
            FilterImage(rows, types, stride, bpp)
            == FilterImage(rows[..n], types[..n], stride, bpp) + ([types[n]] + Filter(types[n], rows[n], prev, bpp))
  {
    hide Filter;
  }

  lemma InFront(a: seq<byte>, b: seq<byte>, at: nat, n: nat)
    requires n > 0 && at + n <= |a|
    ensures (a + b)[at] == a[at] && (a + b)[at + 1..at + n] == a[at + 1..at + n]
  {
  }

  lemma {:induction false} RowsComeBack(rows: seq<seq<byte>>, types: seq<byte>, stride: nat, bpp: nat, y: nat)
    requires AllOf(rows, stride) && |types| == |rows| && bpp > 0 && y < |rows|
    ensures Offset(y + 1, stride) <= Offset(|rows|, stride)
    ensures Row(FilterImage(rows, types, stride, bpp), y, stride, bpp) == rows[y]
    decreases y
  {
    hide Unfilter, Filter, FilterImage;
    OffsetGrows(y + 1, |rows|, stride);
    if y > 0 { RowsComeBack(rows, types, stride, bpp, y - 1); }
    RowBytes(rows, types, stride, bpp, y);
    UnfilterUndoesFilter(types[y], rows[y], if y == 0 then Zeros(stride) else rows[y - 1], bpp);
  }

  lemma {:induction false} PixelsComeBack(rows: seq<seq<byte>>, types: seq<byte>, stride: nat, bpp: nat, n: nat)
    requires AllOf(rows, stride) && |types| == |rows| && bpp > 0 && n <= |rows|
    ensures Offset(n, stride) <= Offset(|rows|, stride)
    ensures Pixels(FilterImage(rows, types, stride, bpp), n, stride, bpp) == Flatten(rows[..n])
    decreases n
  {
    hide Row, FilterImage;
    OffsetGrows(n, |rows|, stride);
    if n > 0 {
      PixelsComeBack(rows, types, stride, bpp, n - 1);
      RowsComeBack(rows, types, stride, bpp, n - 1);
      assert rows[..n][..n - 1] == rows[..n - 1];
    }
  }

  /** Every image, filtered with any choice of filter per row, is loaded back exactly. */
  lemma LoadsFiltered(rows: seq<seq<byte>>, types: seq<byte>, stride: nat, bpp: nat)
    requires AllOf(rows, stride) && |types| == |rows| && bpp > 0
    ensures Loaded(FilterImage(rows, types, stride, bpp), |rows|, stride, bpp) == Some(Flatten(rows))
  {
    PixelsComeBack(rows, types, stride, bpp, |rows|);
    assert rows[..|rows|] == rows;
  }
}
