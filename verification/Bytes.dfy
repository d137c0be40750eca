/** Byte strings: little-endian integers, Python slices, and images built by in-place writes. */
module Bytes {

  type byte = b: int | 0 <= b < 256

  function Zeros(n: nat): (s: seq<byte>)
    ensures |s| == n && forall i :: 0 <= i < n ==> s[i] == 0
  {
    seq(n, _ => 0)
  }

  /** `data.ljust(n, b"\x00")`: padded on the right, never shortened. */
  function PadTo(data: seq<byte>, n: nat): (s: seq<byte>)
    ensures data <= s
    ensures |s| == if |data| < n then n else |data|
    ensures forall i :: |data| <= i < |s| ==> s[i] == 0
  {
    if |data| < n then data + Zeros(n - |data|) else data
  }

  /** The bytes of an ASCII literal. */
  function Ascii(s: string): (b: seq<byte>)
    requires forall i :: 0 <= i < |s| ==> s[i] as int < 256
    ensures |b| == |s| && forall i :: 0 <= i < |s| ==> b[i] == s[i] as int
  {
    seq(|s|, i requires 0 <= i < |s| => s[i] as int)
  }

  // ---- little-endian integers (struct "<H", "<I", "<Q") ----

  function Pow256(n: nat): nat {
    if n == 0 then 1 else 256 * Pow256(n - 1)
  }

  function Le(v: nat, n: nat): (s: seq<byte>)
    ensures |s| == n
  {
    if n == 0 then [] else [v % 256] + Le(v / 256, n - 1)
  }

  function FromLe(s: seq<byte>): nat {
    if s == [] then 0 else s[0] + 256 * FromLe(s[1..])
  }

  lemma {:induction false} LeRoundTrip(v: nat, n: nat)
    requires v < Pow256(n)
    ensures FromLe(Le(v, n)) == v
  {
    if n > 0 {
      LeRoundTrip(v / 256, n - 1);
      assert Le(v, n)[1..] == Le(v / 256, n - 1);
    }
  }

  lemma {:induction false} FromLeBound(s: seq<byte>)
    ensures FromLe(s) < Pow256(|s|)
  {
    if s != [] { FromLeBound(s[1..]); }
  }

  lemma Widths()
    ensures Pow256(2) == 0x1_0000 && Pow256(4) == 0x1_0000_0000 && Pow256(8) == 0x1_0000_0000_0000_0000
  {
    assert Pow256(3) == 0x100_0000;
    assert Pow256(5) == 0x100_0000_0000;
    assert Pow256(6) == 0x1_0000_0000_0000;
    assert Pow256(7) == 0x100_0000_0000_0000;
  }

  // ---- Python slices ----

  function SliceIndex(n: nat, i: int): (k: nat)
    ensures k <= n
  {
    if i < 0 then (if i + n < 0 then 0 else i + n) else if i > n then n else i
  }

  /** `data[lo:hi]` with Python's clamping and negative indices. */
  function Slice<T>(data: seq<T>, lo: int, hi: int): (s: seq<T>)
    ensures 0 <= lo <= hi <= |data| ==> s == data[lo..hi]
    ensures 0 <= lo <= hi ==> |s| <= hi - lo
  {
    var a := SliceIndex(|data|, lo);
    var b := SliceIndex(|data|, hi);
    if a <= b then data[a..b] else []
  }

  // ---- in-place writes ----

  datatype Write = Write(off: nat, data: seq<byte>) {
    function End(): nat { off + |data| }
  }

  predicate Fits(ws: seq<Write>, n: nat) {
    forall i :: 0 <= i < |ws| ==> ws[i].End() <= n
  }

  function Splice(img: seq<byte>, w: Write): (r: seq<byte>)
    requires w.End() <= |img|
    ensures |r| == |img|
    ensures r[w.off..w.End()] == w.data
    ensures forall p :: 0 <= p < |img| && !(w.off <= p < w.End()) ==> r[p] == img[p]
  {
    img[..w.off] + w.data + img[w.End()..]
  }

  /** The image after the writes, first to last. */
  function Apply(img: seq<byte>, ws: seq<Write>): (r: seq<byte>)
    requires Fits(ws, |img|)
    ensures |r| == |img|
  {
    if ws == [] then img else Splice(Apply(img, ws[..|ws| - 1]), ws[|ws| - 1])
  }

  predicate Apart(lo: int, hi: int, w: Write) {
    hi <= w.off || w.End() <= lo
  }

  predicate Covers(w: Write, p: int) {
    w.off <= p < w.End()
  }

  /** A byte of a write that no later write covers is still there at the end. */
  lemma {:induction false} ByteSurvives(img: seq<byte>, ws: seq<Write>, k: nat, p: nat)
    requires Fits(ws, |img|) && k < |ws| && Covers(ws[k], p)
    requires forall j :: k < j < |ws| ==> !Covers(ws[j], p)
    ensures p < |img| && Apply(img, ws)[p] == ws[k].data[p - ws[k].off]
    decreases |ws|
  {
    var last := |ws| - 1;
    var before := Apply(img, ws[..last]);
    var after := Splice(before, ws[last]);
    assert ws[k].End() <= |img|;
    if k == last {
      assert after[p] == after[ws[k].off..ws[k].End()][p - ws[k].off];
    } else {
      ByteSurvives(img, ws[..last], k, p);
      assert !Covers(ws[last], p);
    }
  }

  /** A stretch of a write that no later write touches can be read back. */
  lemma Survives(img: seq<byte>, ws: seq<Write>, k: nat, lo: nat, hi: nat)
    requires Fits(ws, |img|) && k < |ws| && lo <= hi <= |ws[k].data|
    requires forall j :: k < j < |ws| ==> Apart(ws[k].off + lo, ws[k].off + hi, ws[j])
    ensures ws[k].off + hi <= |img|
    ensures Apply(img, ws)[ws[k].off + lo..ws[k].off + hi] == ws[k].data[lo..hi]
  {
    hide Apply;
    var w := ws[k];
    assert w.End() <= |img|;
    forall p | w.off + lo <= p < w.off + hi ensures Apply(img, ws)[p] == w.data[p - w.off] {
      forall j | k < j < |ws| ensures !Covers(ws[j], p) {
        assert Apart(w.off + lo, w.off + hi, ws[j]);
      }
      ByteSurvives(img, ws, k, p);
    }
  }

  /** `img[off:off+len(data)] = data` where the slice lies inside the image. */
  method WriteAt(img: array<byte>, off: nat, data: seq<byte>)
    requires off + |data| <= img.Length
    modifies img
    ensures img[..] == Splice(old(img[..]), Write(off, data))
  {
    for i := 0 to |data|
      invariant img[off..off + i] == data[..i]
      invariant forall p :: 0 <= p < img.Length && !(off <= p < off + i) ==> img[p] == old(img[p])
    {
      img[off + i] := data[i];
    }
    assert img[off..off + |data|] == data;
    ghost var want := Splice(old(img[..]), Write(off, data));
    forall p | 0 <= p < img.Length ensures img[p] == want[p] {
      if off <= p < off + |data| {
        assert img[p] == img[off..off + |data|][p - off] == data[p - off];
        assert want[p] == want[off..off + |data|][p - off];
      }
    }
  }
}
