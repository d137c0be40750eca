/** The QOI encoder of tools/png2qoi.py, against a decoder written from the QOI specification
    v1.0 (chunks QOI_OP_RGB, RGBA, INDEX, DIFF, LUMA and RUN). */
module Qoi {
  import opened Bytes
  import opened Options

  datatype Pixel = Pixel(r: byte, g: byte, b: byte, a: byte)

  const ZERO: Pixel := Pixel(0, 0, 0, 0)
  const FIRST: Pixel := Pixel(0, 0, 0, 255)
  const END_MARKER: seq<byte> := [0, 0, 0, 0, 0, 0, 0, 1]

  function EmptyTable(): (t: seq<Pixel>)
    ensures |t| == 64 && forall i :: 0 <= i < 64 ==> t[i] == ZERO
  {
    seq(64, _ => ZERO)
  }

  /** The specification's index position: (3r + 5g + 7b + 11a) % 64. */
  function Hash(p: Pixel): (h: nat)
    ensures h < 64
  {
    (p.r * 3 + p.g * 5 + p.b * 7 + p.a * 11) % 64
  }

  // ---- the decoder, from the specification ----

  /** Pixels decoded so far, the last pixel, and the array of previously seen pixels. */
  datatype Decoder = Decoder(pixels: seq<Pixel>, prev: Pixel, table: seq<Pixel>)

  const START: Decoder := Decoder([], FIRST, EmptyTable())

  function Repeat(p: Pixel, n: nat): (s: seq<Pixel>)
    ensures |s| == n && forall i :: 0 <= i < n ==> s[i] == p
  {
    seq(n, _ => p)
  }

  /** Every pixel the decoder sees goes into the array. */
  function See(st: Decoder, p: Pixel, n: nat): (r: Decoder)
    requires n > 0 && |st.table| == 64
    ensures |r.table| == 64
  {
    Decoder(st.pixels + Repeat(p, n), p, st.table[Hash(p) := p])
  }

  /** Bytes in the chunk that starts with `tag`: the 8-bit tags come first, then the 2-bit ones. */
  function ChunkSize(tag: byte): (n: nat)
    ensures 1 <= n <= 5
  {
    if tag == 0xFE then 4 else if tag == 0xFF then 5 else if tag / 64 == 2 then 2 else 1
  }

  function Wrap(v: int): byte { v % 256 }

  /** One chunk. Differences are biased (by 2 in DIFF, 32 and 8 in LUMA) and wrap around. */
  function DecodeChunk(st: Decoder, c: seq<byte>): (r: Decoder)
    requires |c| > 0 && |c| == ChunkSize(c[0]) && |st.table| == 64
    ensures |r.table| == 64
  {
    var tag: int := c[0];
    var p := st.prev;
    if tag == 0xFE then See(st, Pixel(c[1], c[2], c[3], p.a), 1)
    else if tag == 0xFF then See(st, Pixel(c[1], c[2], c[3], c[4]), 1)
    else if tag / 64 == 0 then See(st, st.table[tag % 64], 1)
    else if tag / 64 == 1 then
      See(st, Pixel(Wrap(p.r + tag / 16 % 4 - 2), Wrap(p.g + tag / 4 % 4 - 2), Wrap(p.b + tag % 4 - 2), p.a), 1)
    else if tag / 64 == 2 then
      var dg := tag % 64 - 32;
      See(st, Pixel(Wrap(p.r + dg + c[1] / 16 - 8), Wrap(p.g + dg), Wrap(p.b + dg + c[1] % 16 - 8), p.a), 1)
    else See(st, p, tag % 64 + 1)
  }

  /** A run of whole chunks; None when the last one is cut short. */
  function DecodeChunks(st: Decoder, s: seq<byte>): (r: Option<Decoder>)
    requires |st.table| == 64
    ensures r != None ==> |r.value.table| == 64
    decreases |s|
  {
    if s == [] then Some(st)
    else
      var n := ChunkSize(s[0]);
      if |s| < n then None else DecodeChunks(DecodeChunk(st, s[..n]), s[n..])
  }

  /** Chunks until `count` pixels are out, then the end marker and nothing else. */
  function DecodeBody(st: Decoder, s: seq<byte>, count: nat): Option<seq<Pixel>>
    requires |st.table| == 64
    decreases |s|
  {
    if |st.pixels| > count then None
    else if |st.pixels| == count then (if s == END_MARKER then Some(st.pixels) else None)
    else if s == [] || |s| < ChunkSize(s[0]) then None
    else DecodeBody(DecodeChunk(st, s[..ChunkSize(s[0])]), s[ChunkSize(s[0])..], count)
  }

  datatype Image = Image(width: nat, height: nat, pixels: seq<Pixel>)

  function FromBe4(s: seq<byte>): nat
    requires |s| == 4
  {
    FromLe([s[3], s[2], s[1], s[0]])
  }

  function Be4(v: nat): (s: seq<byte>)
    ensures |s| == 4
  {
    var l := Le(v, 4);
    [l[3], l[2], l[1], l[0]]
  }

  lemma Be4RoundTrip(v: nat)
    requires v < 0x1_0000_0000
    ensures FromBe4(Be4(v)) == v
  {
    hide Le, FromLe;
    var l := Le(v, 4);
    assert [l[0], l[1], l[2], l[3]] == l;
    Widths();
    LeRoundTrip(v, 4);
  }

  const MAGIC: seq<byte> := [0x71, 0x6F, 0x69, 0x66]

  /** A whole QOI file: 14-byte header, chunks for width x height pixels, end marker. */
  function Decode(s: seq<byte>): Option<Image> {
    if |s| < 14 || s[..4] != MAGIC || s[12] !in {3, 4} || s[13] !in {0, 1} then None
    else
      var width, height := FromBe4(s[4..8]), FromBe4(s[8..12]);
      match DecodeBody(START, s[14..], width * height)
      case None => None
      case Some(pixels) => Some(Image(width, height, pixels))
  }

  function Header(width: nat, height: nat): (s: seq<byte>)
    ensures |s| == 14
  {
    MAGIC + Be4(width) + Be4(height) + [4, 0]
  }

  // ---- decoding what has been appended ----

  lemma {:induction false} DecodeAppend(st: Decoder, s: seq<byte>, t: seq<byte>)
    requires |st.table| == 64
    requires DecodeChunks(st, s) != None
    ensures DecodeChunks(st, s + t) == DecodeChunks(DecodeChunks(st, s).value, t)
    decreases |s|
  {
    hide DecodeChunk, ChunkSize;
    if s == [] {
      assert s + t == t;
    } else {
      var n := ChunkSize(s[0]);
      DecodeAppend(DecodeChunk(st, s[..n]), s[n..], t);
      assert (s + t)[..n] == s[..n] && (s + t)[n..] == s[n..] + t;
    }
  }

  lemma DecodeOneMore(st: Decoder, s: seq<byte>, c: seq<byte>)
    requires |st.table| == 64
    requires DecodeChunks(st, s) != None && |c| > 0 && |c| == ChunkSize(c[0])
    ensures DecodeChunks(st, s + c) == Some(DecodeChunk(DecodeChunks(st, s).value, c))
  {
    DecodeAppend(st, s, c);
    assert c[..|c|] == c && c[|c|..] == [];
  }

  lemma SeesMore(st: Decoder, c: seq<byte>)
    requires |st.table| == 64
    requires |c| > 0 && |c| == ChunkSize(c[0])
    ensures |DecodeChunk(st, c).pixels| > |st.pixels|
  {
  }

  lemma {:induction false} ChunksOnlyAdd(st: Decoder, s: seq<byte>)
    requires |st.table| == 64
    requires DecodeChunks(st, s) != None
    ensures |DecodeChunks(st, s).value.pixels| >= |st.pixels|
    ensures s != [] ==> |DecodeChunks(st, s).value.pixels| > |st.pixels|
    decreases |s|
  {
    if s != [] {
      var n := ChunkSize(s[0]);
      SeesMore(st, s[..n]);
      ChunksOnlyAdd(DecodeChunk(st, s[..n]), s[n..]);
    }
  }

  /** Chunks that give exactly `count` pixels, then the end marker: the body decodes to them. */
  lemma {:induction false} BodyOfChunks(st: Decoder, s: seq<byte>, count: nat)
    requires |st.table| == 64
    requires DecodeChunks(st, s) != None && |DecodeChunks(st, s).value.pixels| == count
    ensures DecodeBody(st, s + END_MARKER, count) == Some(DecodeChunks(st, s).value.pixels)
    decreases |s|
  {
    hide DecodeChunk, ChunkSize;
    ChunksOnlyAdd(st, s);
    if s == [] {
      assert s + END_MARKER == END_MARKER;
    } else {
      var n := ChunkSize(s[0]);
      BodyOfChunks(DecodeChunk(st, s[..n]), s[n..], count);
      assert (s + END_MARKER)[..n] == s[..n] && (s + END_MARKER)[n..] == s[n..] + END_MARKER;
    }
  }

  // ---- the encoder's chunks ----

  /** A difference taken modulo 256 and read as a signed byte. */
  function Signed(d: int): (s: int)
    ensures -128 <= s < 128
  {
    var u := d % 256;
    if u < 128 then u else u - 256
  }

  predicate FitsDiff(px: Pixel, prev: Pixel) {
    && -2 <= Signed(px.r - prev.r) <= 1 && -2 <= Signed(px.g - prev.g) <= 1 && -2 <= Signed(px.b - prev.b) <= 1
  }

  predicate FitsLuma(px: Pixel, prev: Pixel) {
    var dr, dg, db := Signed(px.r - prev.r), Signed(px.g - prev.g), Signed(px.b - prev.b);
    -32 <= dg <= 31 && -8 <= dr - dg <= 7 && -8 <= db - dg <= 7
  }

  /** QOI_OP_DIFF. */
  function DiffChunk(dr: int, dg: int, db: int): (c: seq<byte>)
    requires -2 <= dr <= 1 && -2 <= dg <= 1 && -2 <= db <= 1
    ensures |c| == 1 == ChunkSize(c[0]) && 0x40 <= c[0] < 0x80
  {
    [0x40 + (dr + 2) * 16 + (dg + 2) * 4 + (db + 2)]
  }

  /** QOI_OP_LUMA. */
  function LumaChunk(dg: int, r: int, b: int): (c: seq<byte>)
    requires -32 <= dg <= 31 && -8 <= r <= 7 && -8 <= b <= 7
    ensures |c| == 2 == ChunkSize(c[0]) && 0x80 <= c[0] < 0xC0
  {
    [0x80 + (dg + 32), (r + 8) * 16 + (b + 8)]
  }

  /** QOI_OP_RGB and QOI_OP_RGBA. */
  function FullChunk(px: Pixel, alpha: bool): (c: seq<byte>)
    ensures 4 <= |c| == ChunkSize(c[0]) && c[0] != 0
  {
    if alpha then [0xFF, px.r, px.g, px.b, px.a] else [0xFE, px.r, px.g, px.b]
  }

  /** The chunk for a pixel that is neither a repeat nor in the encoder's table. */
  function PixelChunk(px: Pixel, prev: Pixel): (c: seq<byte>)
    ensures |c| > 0 && |c| == ChunkSize(c[0]) && c[0] != 0
  {
    if px.a == prev.a then
      var dr, dg, db := Signed(px.r - prev.r), Signed(px.g - prev.g), Signed(px.b - prev.b);
      if FitsDiff(px, prev) then DiffChunk(dr, dg, db)
      else if FitsLuma(px, prev) then LumaChunk(dg, dr - dg, db - dg)
      else FullChunk(px, false)
    else FullChunk(px, true)
  }

  lemma WrapUndoesSigned(old_: byte, new_: byte)
    ensures Wrap(old_ + Signed(new_ - old_)) == new_
  {
  }

  lemma Digits4(tag: int, hi: int, a: int, b: int, c: int)
    requires 0 <= a < 4 && 0 <= b < 4 && 0 <= c < 4 && tag == hi * 64 + a * 16 + b * 4 + c
    ensures tag / 64 == hi && tag / 16 % 4 == a && tag / 4 % 4 == b && tag % 4 == c
  {
    assert tag / 16 == hi * 4 + a;
    assert tag / 4 == hi * 16 + a * 4 + b;
  }

  lemma DiffDigits(dr: int, dg: int, db: int)
    requires -2 <= dr <= 1 && -2 <= dg <= 1 && -2 <= db <= 1
    ensures var c := DiffChunk(dr, dg, db);
            c[0] / 64 == 1 && c[0] / 16 % 4 == dr + 2 && c[0] / 4 % 4 == dg + 2 && c[0] % 4 == db + 2
  {
    Digits4(DiffChunk(dr, dg, db)[0], 1, dr + 2, dg + 2, db + 2);
  }

  lemma SmallChunks(px: Pixel, prev: Pixel)
    requires px.a == prev.a
    ensures var dr, dg, db := Signed(px.r - prev.r), Signed(px.g - prev.g), Signed(px.b - prev.b);
            && (FitsDiff(px, prev) ==> PixelChunk(px, prev) == DiffChunk(dr, dg, db))
            && (!FitsDiff(px, prev) && FitsLuma(px, prev) ==> PixelChunk(px, prev) == LumaChunk(dg, dr - dg, db - dg))
  {
    hide Signed, DiffChunk, LumaChunk;
  }

  lemma DecodesDiff(st: Decoder, c: seq<byte>, dr: int, dg: int, db: int)
    requires |st.table| == 64 && |c| == 1 == ChunkSize(c[0])
    requires c[0] / 64 == 1 && c[0] / 16 % 4 == dr + 2 && c[0] / 4 % 4 == dg + 2 && c[0] % 4 == db + 2
    ensures var p := st.prev;
            DecodeChunk(st, c) == See(st, Pixel(Wrap(p.r + dr), Wrap(p.g + dg), Wrap(p.b + db), p.a), 1)
  {
    hide Wrap, See;
  }

  lemma DiffChunkDecodes(st: Decoder, dr: int, dg: int, db: int)
    requires |st.table| == 64 && -2 <= dr <= 1 && -2 <= dg <= 1 && -2 <= db <= 1
    ensures var p := st.prev;
            DecodeChunk(st, DiffChunk(dr, dg, db))
            == See(st, Pixel(Wrap(p.r + dr), Wrap(p.g + dg), Wrap(p.b + db), p.a), 1)
  {
    hide Wrap, See, DecodeChunk, DiffChunk;
    DiffDigits(dr, dg, db);
    DecodesDiff(st, DiffChunk(dr, dg, db), dr, dg, db);
  }

  lemma DiffDecodes(st: Decoder, px: Pixel)
    requires |st.table| == 64 && px.a == st.prev.a && FitsDiff(px, st.prev)
    ensures DecodeChunk(st, PixelChunk(px, st.prev)) == See(st, px, 1)
  {
    hide Signed, Wrap, DiffChunk, LumaChunk, PixelChunk, See, DecodeChunk, ChunkSize;
    SmallChunks(px, st.prev);
    var p := st.prev;
    var dr, dg, db := Signed(px.r - p.r), Signed(px.g - p.g), Signed(px.b - p.b);
    DiffChunkDecodes(st, dr, dg, db);
    WrapUndoesSigned(p.r, px.r);
    WrapUndoesSigned(p.g, px.g);
    WrapUndoesSigned(p.b, px.b);
  }

  lemma LumaDigits(dg: int, r: int, b: int)
    requires -32 <= dg <= 31 && -8 <= r <= 7 && -8 <= b <= 7
    ensures var c := LumaChunk(dg, r, b);
            c[0] / 64 == 2 && c[0] % 64 == dg + 32 && c[1] / 16 == r + 8 && c[1] % 16 == b + 8
  {
    var c0: int, c1: int := 0x80 + (dg + 32), (r + 8) * 16 + (b + 8);
    assert c0 / 64 == 2 && c0 % 64 == dg + 32 && c1 / 16 == r + 8 && c1 % 16 == b + 8;
  }

  lemma DecodesLuma(st: Decoder, c: seq<byte>, dg: int, r: int, b: int)
    requires |st.table| == 64 && |c| == 2 == ChunkSize(c[0])
    requires c[0] / 64 == 2 && c[0] % 64 == dg + 32 && c[1] / 16 == r + 8 && c[1] % 16 == b + 8
    ensures var p := st.prev;
            DecodeChunk(st, c) == See(st, Pixel(Wrap(p.r + dg + r), Wrap(p.g + dg), Wrap(p.b + dg + b), p.a), 1)
  {
    hide Wrap, See;
  }

  lemma LumaChunkDecodes(st: Decoder, dg: int, r: int, b: int)
    requires |st.table| == 64 && -32 <= dg <= 31 && -8 <= r <= 7 && -8 <= b <= 7
    ensures var p := st.prev;
            DecodeChunk(st, LumaChunk(dg, r, b))
            == See(st, Pixel(Wrap(p.r + dg + r), Wrap(p.g + dg), Wrap(p.b + dg + b), p.a), 1)
  {
    hide Wrap, See, DecodeChunk, LumaChunk;
    LumaDigits(dg, r, b);
    DecodesLuma(st, LumaChunk(dg, r, b), dg, r, b);
  }

  lemma LumaDecodes(st: Decoder, px: Pixel)
    requires |st.table| == 64 && px.a == st.prev.a && !FitsDiff(px, st.prev) && FitsLuma(px, st.prev)
    ensures DecodeChunk(st, PixelChunk(px, st.prev)) == See(st, px, 1)
  {
    hide Signed, Wrap, DiffChunk, LumaChunk, PixelChunk, See, DecodeChunk, ChunkSize;
    SmallChunks(px, st.prev);
    var p := st.prev;
    var dr, dg, db := Signed(px.r - p.r), Signed(px.g - p.g), Signed(px.b - p.b);
    LumaChunkDecodes(st, dg, dr - dg, db - dg);
    WrapUndoesSigned(p.r, px.r);
    WrapUndoesSigned(p.g, px.g);
    WrapUndoesSigned(p.b, px.b);
  }

  /** Whatever chunk is chosen, the decoder recovers the pixel, wrap-around included. */
  lemma PixelChunkDecodes(st: Decoder, px: Pixel)
    requires |st.table| == 64
    ensures DecodeChunk(st, PixelChunk(px, st.prev)) == See(st, px, 1)
  {
    hide Signed, Wrap;
    if px.a == st.prev.a {
      if FitsDiff(px, st.prev) {
        DiffDecodes(st, px);
      } else if FitsLuma(px, st.prev) {
        LumaDecodes(st, px);
      }
    }
  }

  // ---- the encoder ----

  /** Bytes of the chunk stream so far, the table, the last pixel and the run not yet written. */
  datatype Encoder = Encoder(out: seq<byte>, index: seq<Pixel>, prev: Pixel, run: nat)

  const FRESH: Encoder := Encoder([], EmptyTable(), FIRST, 0)

  function RunChunk(run: nat): (c: seq<byte>)
    requires 1 <= run <= 62
    ensures |c| == 1 == ChunkSize(c[0]) && c[0] != 0
  {
    [0xC0 + (run - 1)]
  }

  /** The pending run, written out. */
  function Flush(e: Encoder): (r: Encoder)
    requires e.run <= 62
    ensures r.index == e.index && r.prev == e.prev && r.run == 0
  {
    if e.run > 0 then e.(out := e.out + RunChunk(e.run), run := 0) else e
  }

  /** One pixel. Only a pixel coded in full enters the table; a repeat or an indexed pixel does not. */
  function Feed(e: Encoder, px: Pixel): (r: Encoder)
    requires |e.index| == 64 && e.run < 62
    ensures |r.index| == 64 && r.run < 62 && r.prev == px
  {
    if px == e.prev then
      if e.run + 1 == 62 then Flush(e.(run := 62)) else e.(run := e.run + 1)
    else
      var f := Flush(e);
      if f.index[Hash(px)] == px then Encoder(f.out + [Hash(px)], f.index, px, 0)
      else Encoder(f.out + PixelChunk(px, f.prev), f.index[Hash(px) := px], px, 0)
  }

  function FeedAll(pixels: seq<Pixel>): (e: Encoder)
    ensures |e.index| == 64 && e.run < 62
  {
    if pixels == [] then FRESH else Feed(FeedAll(pixels[..|pixels| - 1]), pixels[|pixels| - 1])
  }

  function Chunks(pixels: seq<Pixel>): seq<byte> { Flush(FeedAll(pixels)).out }

  /** The whole file. */
  function Encode(img: Image): seq<byte> {
    Header(img.width, img.height) + Chunks(img.pixels) + END_MARKER
  }

  lemma FeedAllStep(pixels: seq<Pixel>, i: nat)
    requires i < |pixels|
    ensures FeedAll(pixels[..i + 1]) == Feed(FeedAll(pixels[..i]), pixels[i])
  {
    hide Feed;
    assert pixels[..i + 1][..i] == pixels[..i];
  }

  /** `out.extend(c)`, seen as an extension of what follows the header. */
  method Append(out: seq<byte>, ghost head: seq<byte>, ghost body: seq<byte>, c: seq<byte>)
    returns (r: seq<byte>, ghost more: seq<byte>)
    requires out == head + body
    ensures more == body + c && r == head + more
  {
    r := out + c;
    more := body + c;
  }

  /** encode_qoi. */
  method EncodeQoi(img: Image) returns (out: seq<byte>)
    requires |img.pixels| == img.width * img.height
    ensures out == Encode(img)
  {
    hide Hash, PixelChunk, Header, FeedAll, RunChunk;
    var head := Header(img.width, img.height);
    out := head;
    ghost var body: seq<byte> := [];
    var index, prev, run := EmptyTable(), FIRST, 0;
    FeedAllNone();
    for i := 0 to |img.pixels|
      invariant |index| == 64 && run < 62
      invariant out == head + body
      invariant FeedAll(img.pixels[..i]) == Encoder(body, index, prev, run)
    {
      var px := img.pixels[i];
      FeedAllStep(img.pixels, i);
      if px == prev {
        run := run + 1;
        if run == 62 {
          out, body := Append(out, head, body, RunChunk(run));
          run := 0;
        }
        continue;
      }
      if run > 0 {
        out, body := Append(out, head, body, RunChunk(run));
        run := 0;
      }
      if index[Hash(px)] == px {
        out, body := Append(out, head, body, [Hash(px)]);
      } else {
        index := index[Hash(px) := px];
        out, body := Append(out, head, body, PixelChunk(px, prev));
      }
      prev := px;
    }
    assert img.pixels[..|img.pixels|] == img.pixels;
    if run > 0 {
      out, body := Append(out, head, body, RunChunk(run));
    }
    out := out + END_MARKER;
  }

  lemma FeedAllNone()
    ensures FeedAll([]) == Encoder([], EmptyTable(), FIRST, 0)
  {
  }

  // ---- decoding inverts encoding ----

  /** The tables need not be equal: a decoder that has seen an initial run of (0,0,0,255) has it
      in the array, the encoder still has (0,0,0,0) there. */
  predicate Agree(index: seq<Pixel>, table: seq<Pixel>)
    requires |index| == |table| == 64
  {
    forall k :: 0 <= k < 64 ==> index[k] == table[k] || (k == Hash(FIRST) && index[k] == ZERO)
  }

  predicate KnowsPrev(index: seq<Pixel>, prev: Pixel)
    requires |index| == 64
  {
    index[Hash(prev)] == prev || (prev == FIRST && index[Hash(FIRST)] == ZERO)
  }

  /** The encoder after some pixels against the decoder of its output. */
  ghost predicate Matches(e: Encoder, pixels: seq<Pixel>) {
    && |e.index| == 64 && e.run <= |pixels| && e.run <= 62
    && DecodeChunks(START, e.out) != None
    && var d := DecodeChunks(START, e.out).value;
       && d.pixels == pixels[..|pixels| - e.run]
       && pixels[|pixels| - e.run..] == Repeat(e.prev, e.run)
       && d.prev == e.prev
       && Agree(e.index, d.table)
       && KnowsPrev(e.index, e.prev)
  }

  lemma FlushMatches(e: Encoder, pixels: seq<Pixel>)
    requires Matches(e, pixels)
    ensures Matches(Flush(e), pixels)
  {
    hide Hash, DecodeChunks;
    if e.run > 0 {
      var d := DecodeChunks(START, e.out).value;
      var c := RunChunk(e.run);
      DecodeOneMore(START, e.out, c);
      var tag: int := c[0];
      assert tag / 64 == 3 && tag % 64 + 1 == e.run;
      assert DecodeChunk(d, c) == See(d, e.prev, e.run);
      assert pixels[..|pixels| - e.run] + Repeat(e.prev, e.run) == pixels[..|pixels|];
    }
    assert pixels[|pixels|..] == Repeat(e.prev, 0);
  }

  lemma RepeatMatches(e: Encoder, pixels: seq<Pixel>, px: Pixel)
    requires Matches(e, pixels) && e.run < 62 && px == e.prev
    ensures Matches(e.(run := e.run + 1), pixels + [px])
  {
    hide Hash, DecodeChunks, Agree, KnowsPrev;
    var more := pixels + [px];
    assert more[..|more| - (e.run + 1)] == pixels[..|pixels| - e.run];
    assert more[|more| - (e.run + 1)..] == pixels[|pixels| - e.run..] + [px];
    assert Repeat(e.prev, e.run) + [px] == Repeat(e.prev, e.run + 1);
  }

  lemma NewPixelMatches(f: Encoder, pixels: seq<Pixel>, px: Pixel)
    requires Matches(f, pixels) && f.run == 0 && px != f.prev
    ensures Matches(Feed(f, px), pixels + [px])
  {
    hide DecodeChunks, PixelChunk;
    var d := DecodeChunks(START, f.out).value;
    var h := Hash(px);
    var r := Feed(f, px);
    assert Hash(FIRST) == 53 && Hash(ZERO) == 0;
    if f.index[h] == px {
      var c: seq<byte> := [h];
      assert d.table[h] == px;
      DecodeOneMore(START, f.out, c);
      var tag: int := c[0];
      assert tag / 64 == 0 && tag % 64 == h;
      assert DecodeChunk(d, c) == See(d, px, 1);
      assert r.out == f.out + c;
    } else {
      PixelChunkDecodes(d, px);
      DecodeOneMore(START, f.out, PixelChunk(px, f.prev));
      assert r.out == f.out + PixelChunk(px, f.prev);
    }
    assert DecodeChunks(START, r.out) == Some(See(d, px, 1));
    assert d.pixels == pixels[..|pixels|] == pixels;
    assert Repeat(px, 1) == [px];
    assert (pixels + [px])[..|pixels| + 1] == pixels + [px];
    assert (pixels + [px])[|pixels| + 1..] == Repeat(px, 0);
  }

  lemma {:induction false} AllMatch(pixels: seq<Pixel>)
    ensures Matches(FeedAll(pixels), pixels)
  {
    hide Hash, Matches, PixelChunk;
    if pixels == [] {
      FreshMatches();
    } else {
      var n := |pixels| - 1;
      var before := pixels[..n];
      var px := pixels[n];
      var e := FeedAll(before);
      AllMatch(before);
      assert before + [px] == pixels;
      if px == e.prev {
        RepeatMatches(e, before, px);
        FlushMatches(e.(run := e.run + 1), pixels);
      } else {
        FlushMatches(e, before);
        NewPixelMatches(Flush(e), before, px);
        assert Feed(e, px) == Feed(Flush(e), px);
      }
    }
  }

  lemma FreshMatches()
    ensures Matches(FRESH, [])
  {
    assert DecodeChunks(START, []) == Some(START);
    assert Repeat(FIRST, 0) == [];
  }

  /** Decoding the encoder's file gives back the image: every size, every pixel list. */
  lemma DecodeInvertsEncode(img: Image)
    requires |img.pixels| == img.width * img.height
    requires img.width < 0x1_0000_0000 && img.height < 0x1_0000_0000
    ensures Decode(Encode(img)) == Some(img)
  {
    hide Hash, FeedAll, Flush, DecodeBody, DecodeChunks, FromLe, Le, Be4, FromBe4, Agree;
    var s := Encode(img);
    var body := Chunks(img.pixels);
    AllMatch(img.pixels);
    FlushMatches(FeedAll(img.pixels), img.pixels);
    assert img.pixels[..|img.pixels|] == img.pixels;
    BodyOfChunks(START, body, |img.pixels|);
    assert s[14..] == body + END_MARKER;
    assert s[4..8] == Be4(img.width) && s[8..12] == Be4(img.height) && s[..4] == MAGIC && s[12..14] == [4, 0];
    assert s[12] == s[12..14][0] && s[13] == s[12..14][1];
    Be4RoundTrip(img.width);
    Be4RoundTrip(img.height);
  }

  /** The two tables really do differ: after two pixels (0,0,0,255) the decoder has the pixel in
      its array and the encoder does not. */
  lemma TablesDiffer()
    ensures DecodeChunks(START, Chunks([FIRST, FIRST])) != None
    ensures DecodeChunks(START, Chunks([FIRST, FIRST])).value.table[53] == FIRST
    ensures FeedAll([FIRST, FIRST]).index[53] == ZERO
  {
    assert [FIRST, FIRST][..1] == [FIRST] && [FIRST][..0] == [];
    assert FeedAll([FIRST]) == FRESH.(run := 1);
    assert FeedAll([FIRST, FIRST]) == FRESH.(run := 2);
    assert Chunks([FIRST, FIRST]) == [0xC1];
    assert [0xC1][..1] == [0xC1] && [0xC1][1..] == [];
    assert DecodeChunks(START, [0xC1]) == DecodeChunks(See(START, FIRST, 2), []);
  }

  // ---- when the tables differ ----

  predicate UsesSlot(pixels: seq<Pixel>) { exists i :: 0 <= i < |pixels| && Hash(pixels[i]) == Hash(FIRST) }

  /** Whatever goes to slot 53 belongs to the opening run of (0,0,0,255). */
  predicate OnlyOpening(pixels: seq<Pixel>) {
    forall i :: 0 <= i < |pixels| && Hash(pixels[i]) == Hash(FIRST) ==> forall j :: 0 <= j <= i ==> pixels[j] == FIRST
  }

  /** The decoder's slot 53 is empty just while no pixel went there. */
  predicate SlotTold(st: Decoder)
    requires |st.table| == 64
  {
    st.table[Hash(FIRST)] == ZERO <==> !UsesSlot(st.pixels)
  }

  lemma SeeTells(st: Decoder, p: Pixel, n: nat)
    requires |st.table| == 64 && n > 0 && SlotTold(st)
    ensures SlotTold(See(st, p, n))
  {
    var r := See(st, p, n);
    assert Hash(ZERO) != Hash(FIRST);
    if Hash(p) == Hash(FIRST) {
      assert r.pixels[|st.pixels|] == p;
    }
    if UsesSlot(st.pixels) {
      var i :| 0 <= i < |st.pixels| && Hash(st.pixels[i]) == Hash(FIRST);
      assert r.pixels[i] == st.pixels[i];
    }
    if UsesSlot(r.pixels) && Hash(p) != Hash(FIRST) {
      var i :| 0 <= i < |r.pixels| && Hash(r.pixels[i]) == Hash(FIRST);
      assert i < |st.pixels| && st.pixels[i] == r.pixels[i];
    }
  }

  lemma ChunkTells(st: Decoder, c: seq<byte>)
    requires |c| > 0 && |c| == ChunkSize(c[0]) && |st.table| == 64 && SlotTold(st)
    ensures SlotTold(DecodeChunk(st, c))
  {
    hide Hash, See, SlotTold;
    forall p, n: nat | n > 0
      ensures SlotTold(See(st, p, n))
    {
      SeeTells(st, p, n);
    }
  }

  lemma {:induction false} ChunksTell(st: Decoder, s: seq<byte>)
    requires |st.table| == 64 && SlotTold(st)
    ensures DecodeChunks(st, s) != None ==> SlotTold(DecodeChunks(st, s).value)
    decreases |s|
  {
    hide DecodeChunk, SlotTold;
    if s != [] {
      var n := ChunkSize(s[0]);
      if n <= |s| {
        ChunkTells(st, s[..n]);
        ChunksTell(DecodeChunk(st, s[..n]), s[n..]);
      }
    }
  }

  /** The encoder's slot 53 is empty just while only an opening run went there. */
  lemma {:induction false} EncoderSlot(pixels: seq<Pixel>)
    ensures FeedAll(pixels).index[Hash(FIRST)] == ZERO <==> OnlyOpening(pixels)
  {
    if pixels != [] {
      var n := |pixels| - 1;
      EncoderSlot(pixels[..n]);
      SlotStep(FeedAll(pixels[..n]), pixels);
    }
  }

  lemma SlotStep(e: Encoder, pixels: seq<Pixel>)
    requires |e.index| == 64 && e.run < 62 && pixels != []
    requires e.prev == if |pixels| == 1 then FIRST else pixels[|pixels| - 2]
    requires e.index[Hash(FIRST)] == ZERO <==> OnlyOpening(pixels[..|pixels| - 1])
    ensures Feed(e, pixels[|pixels| - 1]).index[Hash(FIRST)] == ZERO <==> OnlyOpening(pixels)
  {
    hide Flush, PixelChunk, RunChunk;
    var n := |pixels| - 1;
    var before, px := pixels[..n], pixels[n];
    assert Hash(ZERO) != Hash(FIRST);
    assert OnlyOpening(pixels) ==> OnlyOpening(before) by {
      assert forall i :: 0 <= i < n ==> before[i] == pixels[i];
    }
    if Hash(px) != Hash(FIRST) {
      assert OnlyOpening(before) ==> OnlyOpening(pixels);
    } else if px == e.prev {
      if OnlyOpening(before) { OpeningGoesOn(before, px); }
      assert before + [px] == pixels;
    } else {
      assert n > 0 ==> pixels[n - 1] != pixels[n];
    }
  }

  lemma OpeningGoesOn(before: seq<Pixel>, px: Pixel)
    requires OnlyOpening(before) && Hash(px) == Hash(FIRST)
    requires px == if before == [] then FIRST else before[|before| - 1]
    ensures OnlyOpening(before + [px])
  {
    hide Hash;
    if before != [] { assert Hash(before[|before| - 1]) == Hash(FIRST); }
  }

  /** After a whole image the two tables differ if and only if the image starts with (0,0,0,255) and
      no pixel after that opening run goes to slot 53. */
  lemma TablesDifferExactly(pixels: seq<Pixel>)
    ensures DecodeChunks(START, Chunks(pixels)) != None
    ensures FeedAll(pixels).index != DecodeChunks(START, Chunks(pixels)).value.table
      <==> pixels != [] && pixels[0] == FIRST && OnlyOpening(pixels)
  {
    hide Hash, DecodeChunks, FeedAll, Flush, OnlyOpening;
    AllMatch(pixels);
    FlushMatches(FeedAll(pixels), pixels);
    StartTold();
    ChunksTell(START, Chunks(pixels));
    EncoderSlot(pixels);
    var d := DecodeChunks(START, Chunks(pixels)).value;
    assert pixels[..|pixels|] == pixels;
    assert d.pixels == pixels;
    AgreeMeans(FeedAll(pixels).index, d.table);
    if OnlyOpening(pixels) { OpeningUses(pixels); }
  }

  lemma StartTold()
    ensures SlotTold(START)
  {
  }

  lemma AgreeMeans(index: seq<Pixel>, table: seq<Pixel>)
    requires |index| == |table| == 64 && Agree(index, table)
    ensures index == table <==> index[Hash(FIRST)] == table[Hash(FIRST)]
    ensures index[Hash(FIRST)] != ZERO ==> index == table
  {
  }

  lemma OpeningUses(pixels: seq<Pixel>)
    requires OnlyOpening(pixels)
    ensures UsesSlot(pixels) <==> pixels != [] && pixels[0] == FIRST
  {
  }

  // ---- the end marker ----

  function TrailingZeros(s: seq<byte>): nat {
    if s == [] || s[|s| - 1] != 0 then 0 else 1 + TrailingZeros(s[..|s| - 1])
  }

  /** No seven zero bytes in a row. */
  ghost predicate NoSeven(s: seq<byte>) {
    s == [] || (TrailingZeros(s) < 7 && NoSeven(s[..|s| - 1]))
  }

  lemma NoSevenSnoc(s: seq<byte>, b: byte)
    requires NoSeven(s) && (b == 0 ==> TrailingZeros(s) < 6)
    ensures NoSeven(s + [b])
    ensures TrailingZeros(s + [b]) == if b == 0 then TrailingZeros(s) + 1 else 0
  {
    assert (s + [b])[..|s|] == s;
  }

  /** A chunk of up to five bytes that starts with a non-zero byte. */
  lemma NoSevenChunk(s: seq<byte>, c: seq<byte>)
    requires NoSeven(s) && 1 <= |c| <= 5 && c[0] != 0
    ensures NoSeven(s + c) && TrailingZeros(s + c) <= |c| - 1
    decreases |c|
  {
    hide NoSeven, TrailingZeros;
    var n := |c| - 1;
    if n > 0 {
      NoSevenChunk(s, c[..n]);
      NoSevenSnoc(s + c[..n], c[n]);
      assert s + c[..n] + [c[n]] == s + c;
    } else {
      NoSevenSnoc(s, c[0]);
      assert c == [c[0]];
    }
  }

  /** INDEX 0 is never written twice in a row: after it the pixel in slot 0 is the last one. */
  ghost predicate Quiet(e: Encoder) {
    && |e.index| == 64
    && NoSeven(e.out)
    && (TrailingZeros(e.out) <= 4 || (TrailingZeros(e.out) == 5 && e.prev == e.index[0]))
  }

  lemma FlushQuiet(e: Encoder)
    requires Quiet(e) && e.run <= 62
    ensures Quiet(Flush(e))
  {
    if e.run > 0 { NoSevenChunk(e.out, RunChunk(e.run)); }
  }

  lemma FeedQuiet(e: Encoder, px: Pixel)
    requires Quiet(e) && e.run < 62
    ensures Quiet(Feed(e, px))
  {
    hide Hash, PixelChunk, NoSeven, TrailingZeros;
    if px == e.prev {
      FlushQuiet(e.(run := e.run + 1));
    } else {
      FlushQuiet(e);
      var f := Flush(e);
      if f.index[Hash(px)] == px {
        NoSevenSnoc(f.out, Hash(px));
      } else {
        NoSevenChunk(f.out, PixelChunk(px, f.prev));
      }
    }
  }

  lemma {:induction false} AllQuiet(pixels: seq<Pixel>)
    ensures Quiet(FeedAll(pixels))
  {
    if pixels != [] {
      AllQuiet(pixels[..|pixels| - 1]);
      FeedQuiet(FeedAll(pixels[..|pixels| - 1]), pixels[|pixels| - 1]);
    }
  }

  lemma {:induction false} NoSevenWindow(s: seq<byte>, i: nat)
    requires NoSeven(s) && i + 7 <= |s|
    ensures exists j :: i <= j < i + 7 && s[j] != 0
    decreases |s|
  {
    var n := |s| - 1;
    if i + 7 <= n {
      NoSevenWindow(s[..n], i);
      var j :| i <= j < i + 7 && s[..n][j] != 0;
      assert s[j] != 0;
    } else if forall j :: i <= j < i + 7 ==> s[j] == 0 {
      ZerosTrail(s, 7);
    }
  }

  lemma {:induction false} ZerosTrail(s: seq<byte>, k: nat)
    requires k <= |s| && forall j :: |s| - k <= j < |s| ==> s[j] == 0
    ensures TrailingZeros(s) >= k
    decreases k
  {
    if k > 0 { ZerosTrail(s[..|s| - 1], k - 1); }
  }

  /** After the header the end marker occurs once, at the very end. */
  lemma EndMarkerOnce(img: Image, i: nat)
    requires 14 <= i && i + 8 <= |Encode(img)| && Encode(img)[i..i + 8] == END_MARKER
    ensures i + 8 == |Encode(img)|
  {
    hide FeedAll, NoSeven, Header, Flush;
    var s := Encode(img);
    var body := Chunks(img.pixels);
    AllQuiet(img.pixels);
    FlushQuiet(FeedAll(img.pixels));
    forall j | i <= j < i + 8 ensures s[j] == END_MARKER[j - i] { assert s[j] == s[i..i + 8][j - i]; }
    assert s[i + 7] == 1;
    forall j | i - 14 <= j < i - 14 + 7 && j < |body| ensures body[j] == 0 { assert body[j] == s[14 + j]; }
    forall p | 14 + |body| <= p < 14 + |body| + 7 ensures s[p] == 0 { assert s[p] == END_MARKER[p - (14 + |body|)]; }
    if i + 8 < |s| {
      if i + 7 <= 14 + |body| { NoSevenWindow(body, i - 14); }
      assert false;
    }
  }

  // ---- the size ----

  lemma {:induction false} ChunksBound(pixels: seq<Pixel>)
    ensures FeedAll(pixels).run <= |pixels|
    ensures |FeedAll(pixels).out| <= 5 * (|pixels| - FeedAll(pixels).run)
  {
    hide Hash, PixelChunk;
    if pixels != [] {
      ChunksBound(pixels[..|pixels| - 1]);
    }
  }

  /** Never more than five bytes a pixel around the header and the end marker. */
  lemma SizeBound(img: Image)
    ensures |Encode(img)| <= 14 + 5 * |img.pixels| + 8
  {
    ChunksBound(img.pixels);
  }
}
