/** The tab strip of user/go/gotabwm/tabs.go as it is kept: sixteen slots, a focus index and a
    reopen ring addressed modulo sixteen, each method proved against Strip. */
module TabStrips {
  import opened Bytes
  import opened Strip
  import N = NavRing
  import P = Panes

  function NoTab(): Tab { Tab(0, [], [], false, false, N.NoNav()) }

  function NoClosedTab(): ClosedTab { ClosedTab([], []) }

  /** The live part of the reopen ring, newest first. */
  function RingOf(ring: seq<ClosedTab>, pushed: nat, live: nat): (r: seq<ClosedTab>)
    requires |ring| == MAX_TABS && live <= pushed && live <= MAX_TABS
    ensures |r| == live
  {
    seq(live, k requires 0 <= k < live => ring[(pushed - 1 - k) % MAX_TABS])
  }

  /** A push on the ring is a push on the bounded stack. */
  lemma RingPush(ring: seq<ClosedTab>, pushed: nat, live: nat, c: ClosedTab)
    requires |ring| == MAX_TABS && live <= pushed && live <= MAX_TABS
    ensures var after := ring[pushed % MAX_TABS := c];
            RingOf(after, pushed + 1, if live < MAX_TABS then live + 1 else live)
            == Pushed(RingOf(ring, pushed, live), c)
  {
    var after := ring[pushed % MAX_TABS := c];
    var live' := if live < MAX_TABS then live + 1 else live;
    var r := RingOf(after, pushed + 1, live');
    forall k | 1 <= k < live'
      ensures r[k] == RingOf(ring, pushed, live)[k - 1]
    {
      OtherSlot(pushed, k);
    }
  }

  lemma OtherSlot(n: nat, k: nat)
    requires 1 <= k < MAX_TABS && k <= n
    ensures (n - k) % MAX_TABS != n % MAX_TABS
  {
  }

  lemma RingPop(ring: seq<ClosedTab>, pushed: nat, live: nat)
    requires |ring| == MAX_TABS && 0 < live <= pushed && live <= MAX_TABS
    ensures RingOf(ring, pushed - 1, live - 1) == RingOf(ring, pushed, live)[1..]
    ensures RingOf(ring, pushed, live)[0] == ring[(pushed - 1) % MAX_TABS]
  {
    var r := RingOf(ring, pushed, live);
    forall k | 0 <= k < live - 1
      ensures RingOf(ring, pushed - 1, live - 1)[k] == r[1..][k]
    {
      assert r[1..][k] == r[k + 1];
      assert pushed - 1 - (k + 1) == pushed - 1 - 1 - k;
    }
  }

  class TabStrip {
    const tabs: array<Tab>
    const closed: array<ClosedTab>
    var count: nat
    var focus: int
    var split: SplitKind
    var sash: int
    var closedCount: nat
    var closedLive: nat

    ghost predicate Fits()
      reads this
    {
      && tabs.Length == closed.Length == MAX_TABS && count <= MAX_TABS
      && closedLive <= closedCount && closedLive <= MAX_TABS
    }

    ghost function Now(): Strip
      requires Fits()
      reads this, tabs, closed
    {
      Strip(tabs[..count], focus, split, sash, RingOf(closed[..], closedCount, closedLive))
    }

    ghost predicate Valid()
      reads this, tabs, closed
    {
      && Fits() && WellFormed(Now())
      && forall k :: count <= k < MAX_TABS ==> tabs[k] == NoTab()
    }

    constructor ()
      ensures Valid() && Now() == EmptyStrip() && fresh(tabs) && fresh(closed)
    {
      tabs := new Tab[MAX_TABS](_ => NoTab());
      closed := new ClosedTab[MAX_TABS](_ => NoClosedTab());
      count, focus, split, sash, closedCount, closedLive := 0, 0, SplitNone, 0, 0, 0;
    }

    method Index(id: Id) returns (r: int)
      requires Fits()
      ensures r == IndexOf(Now().tabs, id)
    {
      for i := 0 to count
        invariant IndexOf(tabs[..i], id) == -1
      {
        assert tabs[..i + 1][..i] == tabs[..i];
        if tabs[i].id == id {
          FirstIndex(tabs[..count], id, i);
          return i;
        }
      }
      return -1;
    }

    method Focused() returns (id: Id, ok: bool)
      requires Valid()
      ensures id == FocusedId(Now()) && ok == (count > 0)
    {
      if count == 0 || focus < 0 || focus >= count {
        return 0, false;
      }
      return tabs[focus].id, true;
    }

    method OpenTab(id: Id, title: Text) returns (ok: bool)
      requires Valid()
      modifies this`count, this`focus, tabs
      ensures Valid() && Now() == Opened(old(Now()), id, title) && ok == Joins(old(Now()), id)
    {
      hide GuessBin, WellFormed;
      OpenedFits(Now(), id, title);
      if id == 0 {
        return false;
      }
      var i := Index(id);
      if i >= 0 {
        var t := tabs[i].(title := title);
        if t.bin == [] {
          t := t.(bin := GuessBin(title));
        }
        tabs[i] := t;
        return false;
      }
      if count >= MAX_TABS {
        return false;
      }
      tabs[count] := Tab(id, title, GuessBin(title), false, false, N.NoNav());
      if count == 0 {
        focus := 0;
      }
      count := count + 1;
      assert Now().tabs == old(Now()).tabs + [NewTab(id, title)];
      return true;
    }

    /** Back to the zero value. */
    method Reset()
      requires Fits()
      modifies this, tabs, closed
      ensures Valid() && Now() == EmptyStrip()
    {
      forall i | 0 <= i < MAX_TABS {
        tabs[i] := NoTab();
      }
      forall i | 0 <= i < MAX_TABS {
        closed[i] := NoClosedTab();
      }
      count, focus, split, sash, closedCount, closedLive := 0, 0, SplitNone, 0, 0, 0;
    }

    /** A row's recorded fields put on the tab opened for it. */
    method SetRecord(i: nat, bin: Text, pinned: bool, frozen: bool)
      requires Valid() && i < count
      modifies tabs
      ensures Valid()
      ensures var was := old(Now());
              Now() == was.(tabs := was.tabs[i := was.tabs[i].(bin := bin, pinned := pinned, frozen := frozen)])
    {
      TouchesOne(Now().tabs, i, tabs[i].(bin := bin, pinned := pinned, frozen := frozen));
      tabs[i] := tabs[i].(bin := bin, pinned := pinned, frozen := frozen);
    }

    method SetTitle(id: Id, title: Text) returns (ok: bool)
      requires Valid()
      modifies tabs
      ensures Valid() && Now() == Titled(old(Now()), id, title)
      ensures ok == (title != [] && OnStrip(old(Now()), id))
    {
      hide WellFormed;
      RelabelledFits(Now(), id, title, true);
      if title == [] {
        return false;
      }
      var i := Index(id);
      if i < 0 {
        return false;
      }
      tabs[i] := tabs[i].(title := title);
      return true;
    }

    /** Freeze and thaw: false when the tab is missing or already so. */
    method SetFrozen(id: Id, on: bool) returns (ok: bool)
      requires Valid()
      modifies tabs
      ensures Valid() && Now() == Iced(old(Now()), id, on) && ok == (Now() != old(Now()))
    {
      hide WellFormed;
      RelabelledFits(Now(), id, [], on);
      var i := Index(id);
      if i < 0 || tabs[i].frozen == on {
        assert i >= 0 ==> tabs[..count][i] == tabs[i].(frozen := on);
        return false;
      }
      tabs[i] := tabs[i].(frozen := on);
      assert tabs[..count][i] != old(tabs[..count])[i];
      return true;
    }

    method FocusTab(id: Id) returns (ok: bool)
      requires Valid()
      modifies this`focus
      ensures Valid() && Now() == FocusedOn(old(Now()), id) && ok == OnStrip(old(Now()), id)
    {
      var i := Index(id);
      if i < 0 {
        return false;
      }
      focus := i;
      return true;
    }

    /** The tab after the focused one, wrapping round. */
    method NextID() returns (id: Id, ok: bool)
      requires Valid()
      ensures ok == (count > 0)
      ensures id == if ok then Now().tabs[(focus + 1) % count].id else 0
    {
      if count == 0 {
        return 0, false;
      }
      var i := 0;
      if 0 <= focus < count {
        i := (focus + 1) % count;
      }
      return tabs[i].id, true;
    }

    method RecordClosed(t: Tab)
      requires Fits()
      modifies this`closedCount, this`closedLive, closed
      ensures Fits()
      ensures Now() == old(Now()).(closed := Pushed(old(Now()).closed, ClosedTab(t.bin, t.title)))
    {
      hide RingOf, Pushed;
      var c := ClosedTab(t.bin, t.title);
      RingPush(closed[..], closedCount, closedLive, c);
      closed[closedCount % MAX_TABS] := c;
      assert closed[..] == old(closed[..])[closedCount % MAX_TABS := c];
      closedCount := closedCount + 1;
      if closedLive < MAX_TABS {
        closedLive := closedLive + 1;
      }
    }

    /** Slots after `i` move down by one and the last becomes free. */
    method ShiftOut(i: nat)
      requires Fits() && i < count
      requires forall k :: count <= k < MAX_TABS ==> tabs[k] == NoTab()
      modifies this`count, tabs
      ensures Fits() && count == old(count) - 1 && tabs[..count] == Without(old(tabs[..count]), i)
      ensures forall k :: count <= k < MAX_TABS ==> tabs[k] == NoTab()
    {
      hide NoTab, Without;
      ghost var was := tabs[..];
      for j := i to count - 1
        modifies tabs
        invariant forall k :: 0 <= k < i ==> tabs[k] == was[k]
        invariant forall k :: i <= k < j ==> tabs[k] == was[k + 1]
        invariant forall k :: j <= k < MAX_TABS ==> tabs[k] == was[k]
      {
        tabs[j] := tabs[j + 1];
      }
      tabs[count - 1] := NoTab();
      count := count - 1;
      ShiftedOut(was, tabs[..], i, count + 1);
    }

    method CloseTab(id: Id) returns (ok: bool)
      requires Valid()
      modifies this, tabs, closed
      ensures Valid() && Now() == Closed(old(Now()), id) && ok == OnStrip(old(Now()), id)
    {
      hide WellFormed, Pushed, RingOf, Without, IndexOf;
      ClosedFits(Now(), id);
      var i := Index(id);
      if i < 0 {
        return false;
      }
      FocusInRange(Now());
      RecordClosed(tabs[i]);
      ShiftOut(i);
      SettleAfter(i);
      return true;
    }

    /** Focus, split and sash once slot `i` is gone. */
    method SettleAfter(i: nat)
      modifies this`focus, this`split, this`sash
      ensures focus == if count == 0 then 0 else if old(focus) > i then old(focus) - 1
                       else if old(focus) >= count then count - 1 else old(focus)
      ensures split == if count < 2 then SplitNone else old(split)
      ensures sash == if count < 2 then 0 else old(sash)
    {
      if count == 0 {
        focus := 0;
        split := SplitNone;
        sash := 0;
        return;
      }
      if focus > i {
        focus := focus - 1;
      } else if focus >= count {
        focus := count - 1;
      }
      if count < 2 {
        split := SplitNone;
        sash := 0;
      }
    }

    method RecentlyClosed(k: int) returns (c: ClosedTab, ok: bool)
      requires Valid()
      ensures ok == (0 <= k < |Now().closed|)
      ensures c == if ok then Now().closed[k] else NoClosedTab()
    {
      if k < 0 || k >= closedLive {
        return NoClosedTab(), false;
      }
      return closed[(closedCount - 1 - k) % MAX_TABS], true;
    }

    /** The newest closed tab that has an executable; newer ones without are popped on the way. */
    method ReopenLastClosed() returns (c: ClosedTab, ok: bool)
      requires Valid()
      modifies this`closedCount, this`closedLive
      ensures Valid() && Now() == Reopened(old(Now()))
      ensures var r := Reopenable(old(Now()).closed);
              ok == (r != []) && c == if ok then r[0] else NoClosedTab()
    {
      hide RingOf, WellFormed, Reopenable;
      ReopenedFits(Now());
      ghost var ring := closed[..];
      ghost var all := RingOf(ring, closedCount, closedLive);
      while closedLive > 0
        invariant Fits() && closedLive <= old(closedLive)
        invariant Reopenable(RingOf(ring, closedCount, closedLive)) == Reopenable(all)
        decreases closedLive
      {
        RingPop(ring, closedCount, closedLive);
        Reopens(RingOf(ring, closedCount, closedLive));
        c := closed[(closedCount - 1) % MAX_TABS];
        closedCount := closedCount - 1;
        closedLive := closedLive - 1;
        if c.bin == [] {
          continue;
        }
        return c, true;
      }
      Reopens(RingOf(ring, closedCount, closedLive));
      return NoClosedTab(), false;
    }

    static method PutNext(a: array<Tab>, n: nat, t: Tab) returns (next: nat)
      requires n < a.Length
      modifies a
      ensures next == n + 1 && a[..next] == old(a[..n]) + [t]
    {
      a[n] := t;
      next := n + 1;
    }

    /** The strip's pinned tabs and the others, each in strip order. */
    method SortOut() returns (pinned: array<Tab>, rest: array<Tab>, np: nat, nr: nat)
      requires Fits()
      ensures fresh(pinned) && fresh(rest) && pinned.Length == rest.Length == MAX_TABS
      ensures np + nr == count
      ensures pinned[..np] == Only(tabs[..count], true) && rest[..nr] == Only(tabs[..count], false)
    {
      hide Only;
      ghost var was := tabs[..count];
      pinned := new Tab[MAX_TABS](_ => NoTab());
      rest := new Tab[MAX_TABS](_ => NoTab());
      np, nr := 0, 0;
      OnlyNone();
      for i := 0 to count
        invariant np + nr == i && tabs[..count] == was
        invariant pinned[..np] == Only(was[..i], true) && rest[..nr] == Only(was[..i], false)
      {
        OnlyStep(was, i);
        if tabs[i].pinned {
          np := PutNext(pinned, np, tabs[i]);
        } else {
          nr := PutNext(rest, nr, tabs[i]);
        }
      }
      assert was[..count] == was;
    }

    /** The first slots overwritten with two lists, one after the other. */
    method PutBack(pinned: array<Tab>, np: nat, rest: array<Tab>, nr: nat)
      requires Fits() && np <= pinned.Length && nr <= rest.Length && np + nr == count
      requires tabs != pinned && tabs != rest
      modifies tabs
      ensures tabs[..count] == pinned[..np] + rest[..nr] && tabs[count..] == old(tabs[count..])
    {
      var n := 0;
      for i := 0 to np
        invariant n == i
        invariant forall k :: 0 <= k < i ==> tabs[k] == pinned[k]
        invariant forall k :: i <= k < tabs.Length ==> tabs[k] == old(tabs[k])
      {
        tabs[n] := pinned[i];
        n := n + 1;
      }
      for i := 0 to nr
        invariant n == np + i
        invariant forall k :: 0 <= k < np + i ==> tabs[k] == if k < np then pinned[k] else rest[k - np]
        invariant forall k :: np + i <= k < tabs.Length ==> tabs[k] == old(tabs[k])
      {
        tabs[n] := rest[i];
        n := n + 1;
      }
    }

    /** Pinned tabs moved to the front, focus staying on the same tab. */
    method NormalizePinned()
      requires Valid()
      modifies this`focus, tabs
      ensures Valid() && Now() == Arranged(old(Now()), Partition(old(Now()).tabs))
    {
      hide Only, WellFormed, IndexOf;
      PartitionFits(Now());
      if count == 0 {
        OnlyNone();
        return;
      }
      ghost var past := tabs[count..];
      var fid, has := Focused();
      var pinned, rest, np, nr := SortOut();
      PutBack(pinned, np, rest, nr);
      PastStays(past, tabs[..], count);
      if has {
        focus := Index(fid);
      }
    }

    method SetPin(id: Id, on: bool) returns (ok: bool)
      requires Valid()
      modifies this`focus, tabs
      ensures Valid() && Now() == PinSet(old(Now()), id, on)
      ensures ok == (OnStrip(old(Now()), id)
                     && old(Now()).tabs[IndexOf(old(Now()).tabs, id)].pinned != on)
    {
      hide Partition, WellFormed;
      var i := Index(id);
      if i < 0 || tabs[i].pinned == on {
        return false;
      }
      PinnedFits(Now(), i, on);
      tabs[i] := tabs[i].(pinned := on);
      NormalizePinned();
      return true;
    }

    /** Every tab between the two places moves one step towards `src`. */
    method Slide(src: nat, dst: nat)
      requires Fits() && src < count && dst < count
      modifies tabs
      ensures tabs[..count] == MovedTo(old(tabs[..count]), src, dst) && tabs[count..] == old(tabs[count..])
    {
      hide MovedTo;
      ghost var was := tabs[..];
      var moved := tabs[src];
      var i := src;
      if src < dst {
        while i < dst
          invariant src <= i <= dst
          invariant forall k :: src <= k < i ==> tabs[k] == was[k + 1]
          invariant forall k :: 0 <= k < src || i <= k < MAX_TABS ==> tabs[k] == was[k]
        {
          tabs[i] := tabs[i + 1];
          i := i + 1;
        }
      } else {
        while i > dst
          invariant dst <= i <= src
          invariant forall k :: i < k <= src ==> tabs[k] == was[k - 1]
          invariant forall k :: 0 <= k <= i || src < k < MAX_TABS ==> tabs[k] == was[k]
        {
          tabs[i] := tabs[i - 1];
          i := i - 1;
        }
      }
      tabs[dst] := moved;
      Slid(was, tabs[..], src, dst, count);
    }

    method Reorder(src: int, dst: int) returns (ok: bool)
      requires Valid()
      modifies this`focus, tabs
      ensures Valid() && Now() == Reordered(old(Now()), src, dst) && ok == CanMove(old(Now()), src, dst)
    {
      hide WellFormed, MovedTo, IndexOf;
      ReorderFits(Now(), src, dst);
      if src < 0 || dst < 0 || src >= count || dst >= count || src == dst {
        return false;
      }
      ghost var past := tabs[count..];
      var fid, has := Focused();
      Slide(src, dst);
      PastStays(past, tabs[..], count);
      if has {
        focus := Index(fid);
      }
      return true;
    }

    /** Splitting is for exactly two tabs; a fresh split has no sash. */
    method SetSplit(kind: SplitKind) returns (ok: bool)
      requires Valid()
      modifies this`split, this`sash
      ensures Valid() && Now() == SplitAs(old(Now()), kind) && ok == (count == 2 && kind != SplitNone)
    {
      if count != 2 || kind == SplitNone {
        return false;
      }
      split := kind;
      sash := 0;
      return true;
    }

    method EndSplit() returns (ok: bool)
      requires Valid()
      modifies this`split, this`sash
      ensures Valid() && Now() == Unsplit(old(Now())) && ok == (old(split) != SplitNone)
    {
      if split == SplitNone {
        return false;
      }
      split := SplitNone;
      sash := 0;
      return true;
    }

    /** A drag that lands on the divider's present centre, or nowhere, changes nothing. */
    method SetSash(pos: int, scanW: Id, scanH: Id) returns (ok: bool)
      requires Valid()
      modifies this`sash
      ensures var c := P.ClampSash(split, pos, scanW, scanH);
              ok == (count == 2 && c > 0 && c != P.SashCenter(split, old(sash), scanW, scanH))
      ensures Valid()
      ensures Now() == if ok then SashAt(old(Now()), P.ClampSash(split, pos, scanW, scanH)) else old(Now())
    {
      if count != 2 || (split != SplitVert && split != SplitHoriz) {
        return false;
      }
      var c := P.ClampSash(split, pos, scanW, scanH);
      if c <= 0 || c == P.SashCenter(split, sash, scanW, scanH) {
        return false;
      }
      sash := c;
      return true;
    }

    /** Without a split both tabs get the whole scanout; with one, their panes tile it or are refused. */
    method PaneRects(scanW: Id, scanH: Id) returns (l: P.Layout)
      requires Valid()
      ensures l.Laid? <==> count == 2 && (split == SplitNone || P.Fits(split, scanW, scanH, sash))
      ensures l.Laid? && split == SplitNone ==> l.first == l.second == P.Rect(0, 0, scanW, scanH)
      ensures l.Laid? && split != SplitNone ==> P.Tile(l.first, l.second, split, scanW, scanH, sash)
    {
      if count != 2 {
        return P.Refused;
      }
      if split != SplitNone {
        P.LaidExactly(split, scanW, scanH, sash);
        if P.Fits(split, scanW, scanH, sash) { P.PanesTile(split, scanW, scanH, sash); }
      }
      return P.SashPanes(split, scanW, scanH, sash);
    }

    method NavDeclare(id: Id, path: N.Path) returns (known: bool, changed: bool)
      requires Valid()
      modifies tabs
      ensures Valid() && Now() == Navigated(old(Now()), id, N.Declare(path))
      ensures known == OnStrip(old(Now()), id)
      ensures changed == (known && N.Moves(old(Now()).tabs[IndexOf(old(Now()).tabs, id)].nav, path))
    {
      hide WellFormed, IndexOf;
      NavigatedFits(Now(), id, N.Declare(path));
      var i := Index(id);
      if i < 0 {
        return false, false;
      }
      NavAt(Now(), i);
      var nav, moved := N.NavRecord(tabs[i].nav, path);
      tabs[i] := tabs[i].(nav := nav);
      return true, moved;
    }

    /** One step back or forward; the path is where the tab should go. */
    method NavStep(id: Id, back: bool) returns (path: N.Path, ok: bool)
      requires Valid()
      modifies tabs
      ensures Valid() && Now() == Navigated(old(Now()), id, if back then N.Back else N.Forward)
      ensures var i := IndexOf(old(Now()).tabs, id);
              && ok == (i >= 0 && N.CanStep(old(Now()).tabs[i].nav, back))
              && path == if ok then N.Current(Now().tabs[i].nav) else []
    {
      hide WellFormed, IndexOf;
      NavigatedFits(Now(), id, if back then N.Back else N.Forward);
      var i := Index(id);
      if i < 0 {
        return [], false;
      }
      NavAt(Now(), i);
      var nav: N.Nav;
      if back {
        nav, path, ok := N.NavBack(tabs[i].nav);
      } else {
        nav, path, ok := N.NavForward(tabs[i].nav);
      }
      tabs[i] := tabs[i].(nav := nav);
    }
  }

  lemma NavAt(s: Strip, i: nat)
    requires WellFormed(s) && i < |s.tabs|
    ensures N.Valid(s.tabs[i].nav)
  {
  }

  lemma ShiftedOut(was: seq<Tab>, now: seq<Tab>, i: nat, n: nat)
    requires i < n <= |was| == |now|
    requires forall k :: 0 <= k < i ==> now[k] == was[k]
    requires forall k :: i <= k < n - 1 ==> now[k] == was[k + 1]
    ensures now[..n - 1] == Without(was[..n], i)
  {
  }

  lemma Slid(was: seq<Tab>, now: seq<Tab>, src: nat, dst: nat, n: nat)
    requires src < n && dst < n <= |was| == |now| && now[dst] == was[src]
    requires forall k :: src <= k < dst ==> now[k] == was[k + 1]
    requires forall k :: dst < k <= src ==> now[k] == was[k - 1]
    requires forall k :: 0 <= k < |was| && (k < src || k > dst) && (k < dst || k > src) ==> now[k] == was[k]
    ensures now[..n] == MovedTo(was[..n], src, dst) && now[n..] == was[n..]
  {
    hide MovedTo;
    MovedAt(was[..n], src, dst);
    forall k | 0 <= k < n
      ensures now[k] == was[Source(src, dst, k)]
    {
    }
  }

  lemma ReopenedFits(s: Strip)
    requires WellFormed(s)
    ensures WellFormed(Reopened(s))
  {
    ReopenSkips(s.closed);
  }

  lemma Reopens(closed: seq<ClosedTab>)
    ensures Reopenable(closed) == if closed == [] || closed[0].bin != [] then closed else Reopenable(closed[1..])
  {
  }

  lemma OnlyNone()
    ensures Only([], true) == [] && Only([], false) == []
  {
  }

  lemma PartitionFits(s: Strip)
    requires WellFormed(s)
    ensures FocusFits(s) && |Partition(s.tabs)| == |s.tabs| && WellFormed(Arranged(s, Partition(s.tabs)))
  {
    hide Partition;
    PartitionIsStable(s.tabs);
    ArrangedFits(s, Partition(s.tabs));
  }

  lemma PastStays(past: seq<Tab>, slots: seq<Tab>, n: nat)
    requires n <= |slots| && slots[n..] == past && forall k :: 0 <= k < |past| ==> past[k] == NoTab()
    ensures forall k :: n <= k < |slots| ==> slots[k] == NoTab()
  {
    forall k | n <= k < |slots|
      ensures slots[k] == NoTab()
    {
      assert slots[k] == past[k - n];
    }
  }

  lemma FirstIndex(tabs: seq<Tab>, id: Id, i: nat)
    requires i < |tabs| && tabs[i].id == id && IndexOf(tabs[..i], id) == -1
    ensures IndexOf(tabs, id) == i
  {
    forall k | 0 <= k < i
      ensures tabs[k].id != id
    {
      assert tabs[..i][k].id != id;
    }
  }

  lemma FocusInRange(s: Strip)
    requires WellFormed(s)
    ensures FocusFits(s)
  {
  }

  lemma OnlyStep(tabs: seq<Tab>, i: nat)
    requires i < |tabs|
    ensures forall pinned :: (Only(tabs[..i + 1], pinned)
      == if tabs[i].pinned == pinned then Only(tabs[..i], pinned) + [tabs[i]] else Only(tabs[..i], pinned))
  {
    assert tabs[..i + 1][..i] == tabs[..i];
  }

  lemma PinnedFits(s: Strip, i: nat, on: bool)
    requires WellFormed(s) && i < |s.tabs|
    ensures WellFormed(s.(tabs := s.tabs[i := s.tabs[i].(pinned := on)]))
    ensures FocusedId(s.(tabs := s.tabs[i := s.tabs[i].(pinned := on)])) == FocusedId(s)
  {
    TouchesOne(s.tabs, i, s.tabs[i].(pinned := on));
  }
}
