/** The two-pane geometry of user/go/gotabwm/tabs.go: midpoint panes, and panes around a dragged sash. */
module Panes {
  import opened Strip

  const PANE_MIN_W: int := 160
  const PANE_MIN_H: int := 120
  const SASH_WIDTH: int := 6

  datatype Rect = Rect(x: int, y: int, w: int, h: int)
  datatype Layout = Refused | Laid(first: Rect, second: Rect)

  function HalfPanes(kind: SplitKind, scanW: Id, scanH: Id): Layout {
    match kind
    case SplitNone => Laid(Rect(0, 0, scanW, scanH), Rect(0, 0, scanW, scanH))
    case SplitVert =>
      var left := scanW / 2;
      var right := scanW - left;
      if left < PANE_MIN_W || right < PANE_MIN_W || scanH < PANE_MIN_H then Refused
      else Laid(Rect(0, 0, left, scanH), Rect(left, 0, right, scanH))
    case SplitHoriz =>
      var top := scanH / 2;
      var bot := scanH - top;
      if scanW < PANE_MIN_W || top < PANE_MIN_H || bot < PANE_MIN_H then Refused
      else Laid(Rect(0, 0, scanW, top), Rect(0, top, scanW, bot))
  }

  /** A divider centre pulled to where both panes keep their minimum; 0 when there is no such place. */
  function ClampSash(kind: SplitKind, pos: int, scanW: Id, scanH: Id): int {
    var half := SASH_WIDTH / 2;
    match kind
    case SplitVert =>
      var lo, hi := PANE_MIN_W + half, scanW - PANE_MIN_W - half;
      if hi < lo then 0 else if pos < lo then lo else if pos > hi then hi else pos
    case SplitHoriz =>
      var lo, hi := PANE_MIN_H + half, scanH - PANE_MIN_H - half;
      if hi < lo then 0 else if pos < lo then lo else if pos > hi then hi else pos
    case SplitNone => 0
  }

  function SashPanes(kind: SplitKind, scanW: Id, scanH: Id, sash: int): Layout {
    if kind == SplitNone || sash <= 0 then HalfPanes(kind, scanW, scanH)
    else
      var c := ClampSash(kind, sash, scanW, scanH);
      var half := SASH_WIDTH / 2;
      if c <= 0 then Refused
      else if kind == SplitVert then
        var rw := scanW - (c + half);
        if c - half < PANE_MIN_W || rw < PANE_MIN_W || scanH < PANE_MIN_H then Refused
        else Laid(Rect(0, 0, c - half, scanH), Rect(c + half, 0, rw, scanH))
      else
        var bh := scanH - (c + half);
        if scanW < PANE_MIN_W || c - half < PANE_MIN_H || bh < PANE_MIN_H then Refused
        else Laid(Rect(0, 0, scanW, c - half), Rect(0, c + half, scanW, bh))
  }

  /** The divider's centre: the stored sash, the midpoint while it is unset, -1 without a split. */
  function SashCenter(kind: SplitKind, sash: int, scanW: Id, scanH: Id): int {
    match kind
    case SplitNone => -1
    case SplitVert => if sash > 0 then ClampSash(kind, sash, scanW, scanH) else scanW / 2
    case SplitHoriz => if sash > 0 then ClampSash(kind, sash, scanW, scanH) else scanH / 2
  }

  // ---- what the panes are ----

  predicate Holds(r: Rect, px: int, py: int) { r.x <= px < r.x + r.w && r.y <= py < r.y + r.h }

  /** Extent of the scanout along the split, and of a point on it. */
  function Along(kind: SplitKind, x: int, y: int): int { if kind == SplitVert then x else y }

  function Least(kind: SplitKind): int { Along(kind, PANE_MIN_W, PANE_MIN_H) }

  /** Both minima fit on either side of the gutter. */
  predicate Fits(kind: SplitKind, scanW: Id, scanH: Id, sash: int) {
    && Along(kind, scanW, scanH) >= 2 * Least(kind) + (if sash > 0 then SASH_WIDTH else 0)
    && scanW >= PANE_MIN_W && scanH >= PANE_MIN_H
  }

  /** Two panes of at least the minimum size, from the scanout's origin to its far corner: every point of
      it lies in exactly one of them or in the gutter around the divider, empty while the sash is unset. */
  ghost predicate Tile(first: Rect, second: Rect, kind: SplitKind, scanW: Id, scanH: Id, sash: int) {
    var c := SashCenter(kind, sash, scanW, scanH);
    var half := if sash > 0 then SASH_WIDTH / 2 else 0;
    && first.w >= PANE_MIN_W && first.h >= PANE_MIN_H && second.w >= PANE_MIN_W && second.h >= PANE_MIN_H
    && first.x == 0 && first.y == 0 && second.x + second.w == scanW && second.y + second.h == scanH
    && forall px, py :: 0 <= px < scanW && 0 <= py < scanH ==>
      && (Holds(first, px, py) <==> Along(kind, px, py) < c - half)
      && (Holds(second, px, py) <==> Along(kind, px, py) >= c + half)
  }

  /** Panes are laid exactly when they fit. */
  lemma LaidExactly(kind: SplitKind, scanW: Id, scanH: Id, sash: int)
    requires kind != SplitNone
    ensures SashPanes(kind, scanW, scanH, sash).Laid? <==> Fits(kind, scanW, scanH, sash)
  {
  }

  /** Laid panes tile the scanout. */
  lemma PanesTile(kind: SplitKind, scanW: Id, scanH: Id, sash: int)
    requires kind != SplitNone && Fits(kind, scanW, scanH, sash)
    ensures var l := SashPanes(kind, scanW, scanH, sash);
            l.Laid? && Tile(l.first, l.second, kind, scanW, scanH, sash)
  {
    LaidExactly(kind, scanW, scanH, sash);
    var l := SashPanes(kind, scanW, scanH, sash);
    forall px, py | 0 <= px < scanW && 0 <= py < scanH
      ensures var c := SashCenter(kind, sash, scanW, scanH);
              var half := if sash > 0 then SASH_WIDTH / 2 else 0;
              && (Holds(l.first, px, py) <==> Along(kind, px, py) < c - half)
              && (Holds(l.second, px, py) <==> Along(kind, px, py) >= c + half)
    {
    }
  }

  /** Clamping picks the nearest place where both panes fit, and nothing when there is none. */
  lemma ClampIsNearest(kind: SplitKind, pos: int, scanW: Id, scanH: Id, other: int)
    requires kind != SplitNone
    requires Least(kind) + SASH_WIDTH / 2 <= other <= Along(kind, scanW, scanH) - Least(kind) - SASH_WIDTH / 2
    ensures var c := ClampSash(kind, pos, scanW, scanH);
            && Least(kind) + SASH_WIDTH / 2 <= c <= Along(kind, scanW, scanH) - Least(kind) - SASH_WIDTH / 2
            && (if pos < c then c - pos else pos - c) <= (if pos < other then other - pos else pos - other)
            && ClampSash(kind, c, scanW, scanH) == c
  {
  }
}
