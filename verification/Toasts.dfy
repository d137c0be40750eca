/** The toast queue and the toast panels of user/go/gotabwm/notify.go. */
module Toasts {
  import opened Bytes
  import opened Strip
  import opened Words

  const NOTIFY_MAX: nat := 4
  const NOTIFY_TICKS: nat := 8
  const FADE_TICKS: nat := 3
  const PANEL_W: int := 208
  const PANEL_H: int := 20
  const PANEL_GAP: int := 4
  const PANEL_INSET: int := 8

  datatype Toast = Toast(sender: Id, text: Text, born: nat, expires: nat)

  // ---- the queue, oldest first ----

  /** A full queue drops its oldest toast. */
  function Queued(q: seq<Toast>, t: Toast): seq<Toast> {
    (if |q| >= NOTIFY_MAX then q[1..] else q) + [t]
  }

  function Kept(q: seq<Toast>, keep: Toast -> bool): (r: seq<Toast>)
    ensures |r| <= |q|
  {
    if q == [] then []
    else
      var n := |q| - 1;
      if keep(q[n]) then Kept(q[..n], keep) + [q[n]] else Kept(q[..n], keep)
  }

  function NotFrom(q: seq<Toast>, id: Id): seq<Toast> { Kept(q, (t: Toast) => t.sender != id) }

  function Unexpired(q: seq<Toast>, ticks: nat): seq<Toast> { Kept(q, (t: Toast) => ticks < t.expires) }

  function Senders(q: seq<Toast>): (r: seq<Id>)
    ensures |r| == |q| && forall k :: 0 <= k < |q| ==> r[k] == q[k].sender
  {
    seq(|q|, k requires 0 <= k < |q| => q[k].sender)
  }

  /** The queue runs out front to back. */
  predicate InExpiryOrder(q: seq<Toast>) {
    forall i, j :: 0 <= i < j < |q| ==> q[i].expires <= q[j].expires
  }

  /** Where in the queue the kept toasts stand. */
  function KeptPlaces(q: seq<Toast>, keep: Toast -> bool): seq<nat> {
    if q == [] then []
    else
      var n := |q| - 1;
      if keep(q[n]) then KeptPlaces(q[..n], keep) + [n] else KeptPlaces(q[..n], keep)
  }

  /** Each kept toast as often as it was queued, and all of them in the order they were queued in. */
  lemma {:induction false} KeptInOrder(q: seq<Toast>, keep: Toast -> bool)
    ensures var r, at := Kept(q, keep), KeptPlaces(q, keep);
            && |at| == |r| && (forall k :: 0 <= k < |r| ==> at[k] < |q| && r[k] == q[at[k]])
            && (forall j, k :: 0 <= j < k < |at| ==> at[j] < at[k])
            && (forall i :: 0 <= i < |q| ==> (keep(q[i]) <==> i in at))
  {
    if q != [] {
      var n := |q| - 1;
      KeptInOrder(q[..n], keep);
      var at := KeptPlaces(q[..n], keep);
      forall i | 0 <= i < |q|
        ensures keep(q[i]) <==> i in KeptPlaces(q, keep)
      {
        if i < n { assert q[..n][i] == q[i]; }
        assert n !in at;
      }
    }
  }

  lemma {:induction false} KeptMembers(q: seq<Toast>, keep: Toast -> bool)
    ensures forall t :: t in Kept(q, keep) <==> t in q && keep(t)
    ensures InExpiryOrder(q) ==> InExpiryOrder(Kept(q, keep))
  {
    if q != [] {
      var n := |q| - 1;
      var front := q[..n];
      KeptMembers(front, keep);
      assert q == front + [q[n]];
      var r := Kept(front, keep);
      if InExpiryOrder(q) {
        forall k | 0 <= k < |r|
          ensures r[k].expires <= q[n].expires
        {
          assert r[k] in front;
        }
      }
    }
  }

  lemma KeptStep(q: seq<Toast>, i: nat, keep: Toast -> bool)
    requires i < |q|
    ensures Kept(q[..i + 1], keep) == if keep(q[i]) then Kept(q[..i], keep) + [q[i]] else Kept(q[..i], keep)
  {
    assert q[..i + 1][..i] == q[..i];
  }

  method DropFrom(q: seq<Toast>, id: Id) returns (keep: seq<Toast>, gone: nat)
    ensures keep == NotFrom(q, id) && gone == |q| - |keep|
  {
    keep, gone := [], 0;
    for i := 0 to |q|
      invariant keep == NotFrom(q[..i], id) && gone == i - |keep|
    {
      KeptStep(q, i, (t: Toast) => t.sender != id);
      if q[i].sender == id {
        gone := gone + 1;
        continue;
      }
      keep := keep + [q[i]];
    }
    assert q[..|q|] == q;
  }

  method DropExpired(q: seq<Toast>, ticks: nat) returns (keep: seq<Toast>, gone: seq<Id>)
    ensures keep == Unexpired(q, ticks)
    ensures gone == Senders(Kept(q, (t: Toast) => ticks >= t.expires))
  {
    keep, gone := [], [];
    ghost var late := (t: Toast) => ticks >= t.expires;
    for i := 0 to |q|
      invariant keep == Unexpired(q[..i], ticks) && gone == Senders(Kept(q[..i], late))
    {
      KeptStep(q, i, (t: Toast) => ticks < t.expires);
      KeptStep(q, i, late);
      if ticks >= q[i].expires {
        gone := gone + [q[i].sender];
        continue;
      }
      keep := keep + [q[i]];
    }
    assert q[..|q|] == q;
  }

  // ---- the panels ----

  datatype Panel = Panel(x: int, y: int, w: int, h: int)

  /** The panel of slot `slot` of `n`, empty when there is no room for it. */
  function PanelRect(width: int, height: int, slot: int, n: int): Panel {
    if slot < 0 || n <= 0 || slot >= n || width <= 0 || height <= 0 then Panel(0, 0, 0, 0)
    else
      var w := if width < PANEL_W + 2 * PANEL_INSET then width - 2 * PANEL_INSET else PANEL_W;
      var below := n - 1 - slot;
      var y := height - PANEL_INSET - (below + 1) * PANEL_H - below * PANEL_GAP;
      if w <= 0 || y < 0 then Panel(0, 0, 0, 0) else Panel(PANEL_INSET, y, w, PANEL_H)
  }

  predicate Shown(p: Panel) { p.w > 0 && p.h > 0 }

  predicate Covers(p: Panel, px: int, py: int) {
    Shown(p) && p.x <= px < p.x + p.w && p.y <= py < p.y + p.h
  }

  /** Shown panels lie inside the scanout, older ones above newer ones with a gap between; when an
      older one has room so have all newer ones, and the newest sits on the bottom inset. */
  lemma PanelsStack(width: int, height: int, a: int, b: int, n: int)
    requires 0 <= a < b < n && Shown(PanelRect(width, height, a, n))
    ensures var p, q := PanelRect(width, height, a, n), PanelRect(width, height, b, n);
            && Shown(q) && p.x == q.x && p.w == q.w
            && p.y + p.h + PANEL_GAP <= q.y && 0 <= p.y && 0 <= p.x && p.x + p.w <= width
            && q.y + q.h + PANEL_INSET <= height
            && (b == n - 1 ==> q.y + q.h + PANEL_INSET == height)
  {
  }

  /** So a point lies on at most one of them. */
  lemma OnePanel(width: int, height: int, a: int, b: int, n: int, px: int, py: int)
    requires Covers(PanelRect(width, height, a, n), px, py) && Covers(PanelRect(width, height, b, n), px, py)
    ensures a == b
  {
    if a < b { PanelsStack(width, height, a, b, n); }
    if b < a { PanelsStack(width, height, b, a, n); }
  }

  /** The hit test finds the panel under the point, and one exactly when there is one. */
  method SlotOf(px: nat, py: nat, width: int, height: int, n: int) returns (slot: int, ok: bool)
    ensures ok ==> 0 <= slot < n && Covers(PanelRect(width, height, slot, n), px, py)
    ensures ok ==> forall other :: Covers(PanelRect(width, height, other, n), px, py) ==> other == slot
    ensures !ok ==> slot == 0 && forall other :: !Covers(PanelRect(width, height, other, n), px, py)
  {
    slot := 0;
    while slot < n
      invariant 0 <= slot && (n >= 0 ==> slot <= n)
      invariant forall other :: other < slot ==> !Covers(PanelRect(width, height, other, n), px, py)
    {
      var p := PanelRect(width, height, slot, n);
      if p.w <= 0 || p.h <= 0 {
        slot := slot + 1;
        continue;
      }
      if px >= p.x && px < p.x + p.w && py >= p.y && py < p.y + p.h {
        forall other | Covers(PanelRect(width, height, other, n), px, py)
          ensures other == slot
        {
          OnePanel(width, height, slot, other, n, px, py);
        }
        return slot, true;
      }
      slot := slot + 1;
    }
    return 0, false;
  }

  // ---- the fade ----

  /** Steps from the panel colour towards the background at `remaining` ticks before expiry. */
  function Ramp(remaining: nat): nat {
    if remaining == 0 || remaining > FADE_TICKS then 0 else FADE_TICKS - remaining + 1
  }

  /** A colour as its red, green and blue bytes. */
  type Rgb = c: seq<byte> | |c| == 3 witness [0, 0, 0]

  /** One channel of the blend, every step in 32 bits. */
  function MixedChannel(ca: byte, cb: byte, num: Id, den: Id): byte
    requires den > 0
  {
    var c := Wrap32(ca - Wrap32(Quotient(Wrap32((ca - cb) * Wrap32(num)), Wrap32(den))));
    if c < 0 then 0 else if c > 255 then 255 else c
  }

  /** The blend as it would be without a width. */
  function Blended(ca: byte, cb: byte, num: nat, den: nat): byte
    requires den > 0
  {
    var c: int := ca - Quotient((ca - cb) * num, den);
    if c < 0 then 0 else if c > 255 then 255 else c
  }

  /** Nothing wraps while the steps stay below 2^23 and the divisor below 2^31. */
  lemma NothingWraps(ca: byte, cb: byte, num: Id, den: Id)
    requires 0 < den < 0x8000_0000 && num < 0x80_0000
    ensures MixedChannel(ca, cb, num, den) == Blended(ca, cb, num, den)
  {
    hide Quotient;
    var d: int := ca - cb;
    ProductBound(d, num);
    QuotientShrinks(d * num, den);
  }

  lemma ProductBound(d: int, num: nat)
    requires -255 <= d <= 255
    ensures -255 * num <= d * num <= 255 * num
  {
    assert (255 - d) * num >= 0 && (255 + d) * num >= 0;
  }

  predicate Between(a: int, b: int, c: int) { a <= b <= c || c <= b <= a }

  /** A channel after each of the fade's four steps. */
  lemma FadeThirds(ca: byte, cb: byte)
    ensures var m := (n: nat) => Blended(ca, cb, n, FADE_TICKS);
            && m(0) == ca && m(3) == cb && Between(ca, m(1), cb) && Between(ca, m(2), cb) && Between(m(1), m(2), cb)
  {
    var d := ca - cb;
    Third(d);
    Third(2 * d);
    assert Quotient(d * 3, 3) == d;
  }

  lemma Third(x: int)
    ensures var q := Quotient(x, 3); if x >= 0 then 3 * q <= x < 3 * q + 3 else 3 * q - 3 < x <= 3 * q
  {
  }

  /** The fade only ever moves a channel towards the background, and reaches it on the last tick
      before expiry. */
  lemma FadeApproaches(ca: byte, cb: byte, remaining: nat)
    requires 1 <= remaining < NOTIFY_TICKS
    ensures var c := MixedChannel(ca, cb, Ramp(remaining), FADE_TICKS);
            && Between(ca, c, cb) && (remaining > FADE_TICKS ==> c == ca) && (remaining == 1 ==> c == cb)
            && (remaining > 1 ==> Between(c, MixedChannel(ca, cb, Ramp(remaining - 1), FADE_TICKS), cb))
  {
    hide MixedChannel, Blended;
    FadeThirds(ca, cb);
    NothingWraps(ca, cb, Ramp(remaining), FADE_TICKS);
    if remaining > 1 { NothingWraps(ca, cb, Ramp(remaining - 1), FADE_TICKS); }
  }

  method MixRgb(a: Rgb, b: Rgb, num: Id, den: Id) returns (mixed: Rgb)
    ensures den == 0 ==> mixed == a
    ensures den > 0 ==> forall k :: 0 <= k < 3 ==> mixed[k] == MixedChannel(a[k], b[k], num, den)
  {
    if den == 0 {
      return a;
    }
    var out: seq<byte> := [];
    for k := 0 to 3
      invariant |out| == k && forall j :: 0 <= j < k ==> out[j] == MixedChannel(a[j], b[j], num, den)
    {
      var ca: int, cb: int := a[k], b[k];
      var c := Wrap32(ca - Wrap32(Quotient(Wrap32((ca - cb) * Wrap32(num)), Wrap32(den))));
      if c < 0 { c := 0; }
      if c > 255 { c := 255; }
      out := out + [c];
    }
    mixed := out;
  }
}
