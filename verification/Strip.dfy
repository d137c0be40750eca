/** What the tab strip of user/go/gotabwm/tabs.go means: its operations as functions on a list of
    tabs, and the properties that hold over every run of them. */
module Strip {
  import opened Bytes
  import N = NavRing

  const MAX_TABS: nat := 16

  type Id = x: int | 0 <= x < 0x1_0000_0000
  type Text = seq<byte>

  datatype Tab = Tab(id: Id, title: Text, bin: Text, pinned: bool, frozen: bool, nav: N.Nav)
  datatype ClosedTab = ClosedTab(bin: Text, title: Text)
  datatype SplitKind = SplitNone | SplitHoriz | SplitVert

  /** `closed` is the reopen stack, newest first. */
  datatype Strip = Strip(tabs: seq<Tab>, focus: int, split: SplitKind, sash: int, closed: seq<ClosedTab>)

  function EmptyStrip(): Strip { Strip([], 0, SplitNone, 0, []) }

  // ---- the invariant ----

  predicate Distinct(tabs: seq<Tab>) {
    forall i, j :: 0 <= i < j < |tabs| ==> tabs[i].id != tabs[j].id
  }

  predicate TabsFit(tabs: seq<Tab>) {
    && |tabs| <= MAX_TABS && Distinct(tabs)
    && forall i :: 0 <= i < |tabs| ==> tabs[i].id != 0 && N.Valid(tabs[i].nav)
  }

  predicate FocusFits(s: Strip) { if s.tabs == [] then s.focus == 0 else 0 <= s.focus < |s.tabs| }

  predicate PanesFit(s: Strip) {
    && (s.split != SplitNone ==> |s.tabs| >= 2)
    && (s.sash != 0 ==> s.split != SplitNone) && s.sash >= 0
  }

  predicate WellFormed(s: Strip) {
    TabsFit(s.tabs) && FocusFits(s) && PanesFit(s) && |s.closed| <= MAX_TABS
  }

  // ---- lookup ----

  /** The place of a tab on the strip, -1 when it is not there. */
  function IndexOf(tabs: seq<Tab>, id: Id): (r: int)
    ensures r == -1 ==> forall k :: 0 <= k < |tabs| ==> tabs[k].id != id
    ensures r != -1 ==> 0 <= r < |tabs| && tabs[r].id == id && forall k :: 0 <= k < r ==> tabs[k].id != id
  {
    if tabs == [] then -1
    else
      var n := |tabs| - 1;
      var r := IndexOf(tabs[..n], id);
      if r >= 0 then r else if tabs[n].id == id then n else -1
  }

  lemma IndexIs(tabs: seq<Tab>, k: nat)
    requires Distinct(tabs) && k < |tabs|
    ensures IndexOf(tabs, tabs[k].id) == k
  {
  }

  predicate OnStrip(s: Strip, id: Id) { IndexOf(s.tabs, id) >= 0 }

  /** The focused tab's id, 0 on an empty strip. */
  function FocusedId(s: Strip): Id
    requires FocusFits(s)
  {
    if s.tabs == [] then 0 else s.tabs[s.focus].id
  }

  // ---- the operations ----

  // The names guessBin knows, as ASCII bytes.
  const CALC: Text := [67, 97, 108, 99] // "Calc"
  const NOTEPAD: Text := [78, 111, 116, 101, 112, 97, 100] // "Notepad"
  const EDIT: Text := [69, 100, 105, 116] // "Edit"
  const TERM: Text := [84, 101, 114, 109] // "Term"
  const RSS_READER: Text := [82, 83, 83, 32, 82, 101, 97, 100, 101, 114] // "RSS Reader"
  const GOCALC_ELF: Text := [71, 79, 67, 65, 76, 67, 46, 69, 76, 70] // "GOCALC.ELF"
  const NOTE_ELF: Text := [78, 79, 84, 69, 46, 69, 76, 70] // "NOTE.ELF"
  const GOEDIT_ELF: Text := [71, 79, 69, 68, 73, 84, 46, 69, 76, 70] // "GOEDIT.ELF"
  const GOTERM_ELF: Text := [71, 79, 84, 69, 82, 77, 46, 69, 76, 70] // "GOTERM.ELF"
  const RSS_ELF: Text := [82, 83, 83, 46, 69, 76, 70] // "RSS.ELF"

  function GuessBin(title: Text): Text {
    if title == CALC then GOCALC_ELF
    else if title == NOTEPAD then NOTE_ELF
    else if title == EDIT then GOEDIT_ELF
    else if title == TERM then GOTERM_ELF
    else if title == RSS_READER then RSS_ELF
    else title
  }

  function NewTab(id: Id, title: Text): Tab { Tab(id, title, GuessBin(title), false, false, N.NoNav()) }

  /** Whether a tab with this id would join the strip. */
  predicate Joins(s: Strip, id: Id) { id != 0 && !OnStrip(s, id) && |s.tabs| < MAX_TABS }

  function Opened(s: Strip, id: Id, title: Text): Strip {
    var i := IndexOf(s.tabs, id);
    if Joins(s, id) then s.(tabs := s.tabs + [NewTab(id, title)], focus := if s.tabs == [] then 0 else s.focus)
    else if id != 0 && i >= 0 then
      var t := s.tabs[i];
      s.(tabs := s.tabs[i := t.(title := title, bin := if t.bin == [] then GuessBin(title) else t.bin)])
    else s
  }

  function Titled(s: Strip, id: Id, title: Text): Strip {
    var i := IndexOf(s.tabs, id);
    if title == [] || i < 0 then s else s.(tabs := s.tabs[i := s.tabs[i].(title := title)])
  }

  function Iced(s: Strip, id: Id, on: bool): Strip {
    var i := IndexOf(s.tabs, id);
    if i < 0 then s else s.(tabs := s.tabs[i := s.tabs[i].(frozen := on)])
  }

  function FocusedOn(s: Strip, id: Id): Strip {
    var i := IndexOf(s.tabs, id);
    if i < 0 then s else s.(focus := i)
  }

  function Without<T>(s: seq<T>, i: nat): (r: seq<T>)
    requires i < |s|
    ensures |r| == |s| - 1
  {
    s[..i] + s[i + 1..]
  }

  /** A push on the bounded reopen stack drops the oldest entry. */
  function Pushed(closed: seq<ClosedTab>, c: ClosedTab): seq<ClosedTab> {
    if |closed| >= MAX_TABS then [c] + closed[..MAX_TABS - 1] else [c] + closed
  }

  /** Closing the focused tab focuses the one that slides into its place, or the new last one. */
  function Closed(s: Strip, id: Id): Strip {
    var i := IndexOf(s.tabs, id);
    if i < 0 then s
    else
      var tabs := Without(s.tabs, i);
      var focus := if tabs == [] then 0 else if s.focus > i then s.focus - 1
                   else if s.focus >= |tabs| then |tabs| - 1 else s.focus;
      var split := if |tabs| < 2 then SplitNone else s.split;
      Strip(tabs, focus, split, if |tabs| < 2 then 0 else s.sash,
            Pushed(s.closed, ClosedTab(s.tabs[i].bin, s.tabs[i].title)))
  }

  function Only(tabs: seq<Tab>, pinned: bool): (r: seq<Tab>)
    ensures |r| <= |tabs| && forall k :: 0 <= k < |r| ==> r[k].pinned == pinned
  {
    if tabs == [] then []
    else
      var n := |tabs| - 1;
      var r := Only(tabs[..n], pinned);
      if tabs[n].pinned == pinned then r + [tabs[n]] else r
  }

  function Partition(tabs: seq<Tab>): seq<Tab> { Only(tabs, true) + Only(tabs, false) }

  /** The strip with its tabs in another order and the same tab focused. */
  function Arranged(s: Strip, tabs: seq<Tab>): Strip
    requires FocusFits(s)
  {
    s.(tabs := tabs, focus := if tabs == [] then 0 else IndexOf(tabs, FocusedId(s)))
  }

  function PinSet(s: Strip, id: Id, on: bool): Strip
    requires FocusFits(s)
  {
    var i := IndexOf(s.tabs, id);
    if i < 0 || s.tabs[i].pinned == on then s
    else Arranged(s, Partition(s.tabs[i := s.tabs[i].(pinned := on)]))
  }

  /** The list with the element at `src` taken out and put back at `dst`. */
  function MovedTo<T>(s: seq<T>, src: nat, dst: nat): (r: seq<T>)
    requires src < |s| && dst < |s|
    ensures |r| == |s|
  {
    var rest := Without(s, src);
    rest[..dst] + [s[src]] + rest[dst..]
  }

  predicate CanMove(s: Strip, src: int, dst: int) {
    0 <= src < |s.tabs| && 0 <= dst < |s.tabs| && src != dst
  }

  function Reordered(s: Strip, src: int, dst: int): Strip
    requires FocusFits(s)
  {
    if CanMove(s, src, dst) then Arranged(s, MovedTo(s.tabs, src, dst)) else s
  }

  function SplitAs(s: Strip, kind: SplitKind): Strip {
    if |s.tabs| != 2 || kind == SplitNone then s else s.(split := kind, sash := 0)
  }

  function Unsplit(s: Strip): Strip {
    if s.split == SplitNone then s else s.(split := SplitNone, sash := 0)
  }

  function SashAt(s: Strip, at: nat): Strip {
    if |s.tabs| != 2 || s.split == SplitNone then s else s.(sash := at)
  }

  /** The reopen stack from its first entry with an executable on. */
  function Reopenable(closed: seq<ClosedTab>): seq<ClosedTab> {
    if closed == [] || closed[0].bin != [] then closed else Reopenable(closed[1..])
  }

  /** What is skipped is exactly the leading entries without an executable. */
  lemma {:induction false} ReopenSkips(closed: seq<ClosedTab>)
    ensures var r := Reopenable(closed);
            && |r| <= |closed| && r == closed[|closed| - |r|..]
            && (r != [] ==> r[0].bin != [])
            && (forall k :: 0 <= k < |closed| - |r| ==> closed[k].bin == [])
  {
    if closed != [] && closed[0].bin == [] {
      ReopenSkips(closed[1..]);
      var r := Reopenable(closed);
      forall k | 0 <= k < |closed| - |r|
        ensures closed[k].bin == []
      {
        if k > 0 { assert closed[1..][k - 1] == closed[k]; }
      }
    }
  }

  function Reopened(s: Strip): Strip {
    var r := Reopenable(s.closed);
    s.(closed := if r == [] then [] else r[1..])
  }

  function NavSetTo(s: Strip, i: nat, nav: N.Nav): Strip
    requires i < |s.tabs|
  {
    s.(tabs := s.tabs[i := s.tabs[i].(nav := nav)])
  }

  /** One step of a tab's history; ids off the strip step nothing. */
  function Navigated(s: Strip, id: Id, op: N.NavOp): Strip
    requires TabsFit(s.tabs)
  {
    var i := IndexOf(s.tabs, id);
    if i < 0 then s else NavSetTo(s, i, N.Step(s.tabs[i].nav, op))
  }

  // ---- the operations keep the invariant ----

  datatype Op =
    | Open(id: Id, title: Text)
    | SetTitle(id: Id, title: Text)
    | Freeze(id: Id, on: bool)
    | Focus(id: Id)
    | Close(id: Id)
    | Pin(id: Id, on: bool)
    | Reorder(src: int, dst: int)
    | Split(kind: SplitKind)
    | EndSplit
    | Sash(at: nat)
    | Reopen
    | Navigate(id: Id, step: N.NavOp)

  function Performed(s: Strip, op: Op): Strip
    requires WellFormed(s)
  {
    match op
    case Open(id, title) => Opened(s, id, title)
    case SetTitle(id, title) => Titled(s, id, title)
    case Freeze(id, on) => Iced(s, id, on)
    case Focus(id) => FocusedOn(s, id)
    case Close(id) => Closed(s, id)
    case Pin(id, on) => PinSet(s, id, on)
    case Reorder(src, dst) => Reordered(s, src, dst)
    case Split(kind) => SplitAs(s, kind)
    case EndSplit => Unsplit(s)
    case Sash(at) => SashAt(s, at)
    case Reopen => Reopened(s)
    case Navigate(id, step) => Navigated(s, id, step)
  }

  /** A tab changed in place without touching its id. */
  lemma TouchesOne(tabs: seq<Tab>, i: nat, t: Tab)
    requires TabsFit(tabs) && i < |tabs| && t.id == tabs[i].id && N.Valid(t.nav)
    ensures TabsFit(tabs[i := t])
    ensures forall id :: IndexOf(tabs[i := t], id) == IndexOf(tabs, id)
  {
    forall id: Id
      ensures IndexOf(tabs[i := t], id) == IndexOf(tabs, id)
    {
      SameIds(tabs, tabs[i := t], id);
    }
  }

  lemma SameIds(a: seq<Tab>, b: seq<Tab>, id: Id)
    requires |a| == |b| && forall k :: 0 <= k < |a| ==> a[k].id == b[k].id
    ensures IndexOf(a, id) == IndexOf(b, id)
  {
    var i, j := IndexOf(a, id), IndexOf(b, id);
    assert i >= 0 ==> b[i].id == id;
    assert j >= 0 ==> a[j].id == id;
  }

  lemma StepStaysValid(n: N.Nav, op: N.NavOp)
    requires N.Valid(n)
    ensures N.Valid(N.Step(n, op))
  {
    if op.Declare? { N.RecordStaysValid(n, op.path); }
  }

  /** Taking one tab out keeps the order of the others. */
  lemma ClosedFits(s: Strip, id: Id)
    requires WellFormed(s)
    ensures WellFormed(Closed(s, id))
  {
    var i := IndexOf(s.tabs, id);
    if i >= 0 {
      WithoutFits(s.tabs, i);
    }
  }

  lemma WithoutAt<T>(s: seq<T>, i: nat)
    requires i < |s|
    ensures forall k :: 0 <= k < |s| - 1 ==> Without(s, i)[k] == s[if k < i then k else k + 1]
  {
  }

  lemma WithoutFits(tabs: seq<Tab>, i: nat)
    requires TabsFit(tabs) && i < |tabs|
    ensures TabsFit(Without(tabs, i))
    ensures IndexOf(Without(tabs, i), tabs[i].id) == -1
    ensures forall k :: 0 <= k < |tabs| && k != i ==>
      IndexOf(Without(tabs, i), tabs[k].id) == if k < i then k else k - 1
  {
    hide Without, IndexOf;
    WithoutAt(tabs, i);
    var r := Without(tabs, i);
    assert Distinct(r);
    forall k | 0 <= k < |tabs| && k != i
      ensures IndexOf(r, tabs[k].id) == if k < i then k else k - 1
    {
      IndexIs(r, if k < i then k else k - 1);
    }
  }

  // ---- rearranging ----

  /** Two lists hold the same tabs in some order, none twice. */
  ghost predicate SameTabs(a: seq<Tab>, b: seq<Tab>) {
    |a| == |b| && Distinct(a) && Distinct(b) && (forall t :: t in a <==> t in b)
  }

  lemma ArrangedFits(s: Strip, tabs: seq<Tab>)
    requires WellFormed(s) && SameTabs(s.tabs, tabs)
    ensures WellFormed(Arranged(s, tabs)) && FocusedId(Arranged(s, tabs)) == FocusedId(s)
  {
    if tabs != [] {
      assert s.tabs[s.focus] in tabs;
    }
    forall k | 0 <= k < |tabs|
      ensures tabs[k].id != 0 && N.Valid(tabs[k].nav)
    {
      assert tabs[k] in s.tabs;
    }
  }

  predicate InOrder(tabs: seq<Tab>, r: seq<Tab>) {
    forall a, b :: 0 <= a < b < |r| ==> IndexOf(tabs, r[a].id) < IndexOf(tabs, r[b].id)
  }

  lemma {:induction false} OnlyMembers(tabs: seq<Tab>, pinned: bool)
    ensures forall t :: t in Only(tabs, pinned) <==> t in tabs && t.pinned == pinned
  {
    if tabs != [] {
      OnlyMembers(tabs[..|tabs| - 1], pinned);
      assert tabs == tabs[..|tabs| - 1] + [tabs[|tabs| - 1]];
    }
  }

  lemma {:induction false} OnlyOrder(tabs: seq<Tab>, pinned: bool)
    requires Distinct(tabs)
    ensures InOrder(tabs, Only(tabs, pinned))
  {
    if tabs != [] {
      var n := |tabs| - 1;
      var front := tabs[..n];
      OnlyOrder(front, pinned);
      OnlyMembers(front, pinned);
      var r := Only(front, pinned);
      hide IndexOf, Only;
      forall k | 0 <= k < |r|
        ensures 0 <= IndexOf(tabs, r[k].id) == IndexOf(front, r[k].id) < n
      {
        assert r[k] in front;
        IndexInFront(tabs, r[k].id);
      }
      IndexIs(tabs, n);
      OnlyNext(tabs, pinned);
    }
  }

  lemma IndexInFront(tabs: seq<Tab>, id: Id)
    requires tabs != []
    ensures var r := IndexOf(tabs[..|tabs| - 1], id); r >= 0 ==> IndexOf(tabs, id) == r
  {
  }

  lemma OnlyNext(tabs: seq<Tab>, pinned: bool)
    requires tabs != []
    ensures var last, r := tabs[|tabs| - 1], Only(tabs[..|tabs| - 1], pinned);
            Only(tabs, pinned) == if last.pinned == pinned then r + [last] else r
  {
  }

  lemma {:induction false} OnlyCounts(tabs: seq<Tab>)
    ensures |Only(tabs, true)| + |Only(tabs, false)| == |tabs|
  {
    if tabs != [] { OnlyCounts(tabs[..|tabs| - 1]); }
  }

  /** Each group of the partition on its own, and both against each other. */
  lemma HalvesFit(tabs: seq<Tab>)
    requires Distinct(tabs)
    ensures var p, u := Only(tabs, true), Only(tabs, false);
            && (forall t :: t in tabs <==> t in p || t in u)
            && InOrder(tabs, p) && InOrder(tabs, u) && Distinct(p) && Distinct(u)
            && (forall a, b :: 0 <= a < |p| && 0 <= b < |u| ==> p[a].id != u[b].id)
  {
    hide Only;
    OnlyMembers(tabs, true);
    OnlyMembers(tabs, false);
    OnlyOrder(tabs, true);
    OnlyOrder(tabs, false);
    var p, u := Only(tabs, true), Only(tabs, false);
    forall a, b | 0 <= a < |p| && 0 <= b < |u|
      ensures p[a].id != u[b].id
    {
      assert p[a] in tabs && u[b] in tabs;
      if p[a].id == u[b].id { SameIdSameTab(tabs, p[a], u[b]); }
    }
  }

  /** Partition is the stable one: the same tabs, pinned ones first, each group in its old order. */
  lemma PartitionIsStable(tabs: seq<Tab>)
    requires Distinct(tabs)
    ensures var r := Partition(tabs);
            && SameTabs(tabs, r)
            && (forall a, b :: 0 <= a < b < |r| && r[b].pinned ==> r[a].pinned)
            && (forall a, b :: 0 <= a < b < |r| && r[a].pinned == r[b].pinned ==>
                  IndexOf(tabs, r[a].id) < IndexOf(tabs, r[b].id))
  {
    hide Only, IndexOf;
    OnlyCounts(tabs);
    HalvesFit(tabs);
    var p, u := Only(tabs, true), Only(tabs, false);
    var r := p + u;
    forall a, b | 0 <= a < b < |r|
      ensures r[a].id != r[b].id
      ensures r[b].pinned ==> r[a].pinned
      ensures r[a].pinned == r[b].pinned ==> IndexOf(tabs, r[a].id) < IndexOf(tabs, r[b].id)
    {
      assert r[a] == if a < |p| then p[a] else u[a - |p|];
      assert r[b] == if b < |p| then p[b] else u[b - |p|];
    }
  }

  lemma SameIdSameTab(tabs: seq<Tab>, a: Tab, b: Tab)
    requires Distinct(tabs) && a in tabs && b in tabs && a.id == b.id
    ensures a == b
  {
    var i :| 0 <= i < |tabs| && tabs[i] == a;
    var j :| 0 <= j < |tabs| && tabs[j] == b;
  }

  /** Where the tab that ends at `k` was before a move. */
  function Source(src: nat, dst: nat, k: nat): nat {
    if k == dst then src else if src <= k < dst then k + 1 else if dst < k <= src then k - 1 else k
  }

  lemma MovedAt<T>(s: seq<T>, src: nat, dst: nat)
    requires src < |s| && dst < |s|
    ensures forall k :: 0 <= k < |s| ==> Source(src, dst, k) < |s| && MovedTo(s, src, dst)[k] == s[Source(src, dst, k)]
  {
  }

  /** A move takes one element out and puts it back elsewhere: the others keep their order. */
  lemma MoveMeans<T>(s: seq<T>, src: nat, dst: nat)
    requires src < |s| && dst < |s|
    ensures MovedTo(s, src, dst)[dst] == s[src]
    ensures Without(MovedTo(s, src, dst), dst) == Without(s, src)
  {
    MovedAt(s, src, dst);
  }

  lemma MoveUndoes<T>(s: seq<T>, src: nat, dst: nat)
    requires src < |s| && dst < |s|
    ensures MovedTo(MovedTo(s, src, dst), dst, src) == s
  {
    MoveMeans(s, src, dst);
  }

  lemma MovedSame(tabs: seq<Tab>, src: nat, dst: nat)
    requires Distinct(tabs) && src < |tabs| && dst < |tabs|
    ensures SameTabs(tabs, MovedTo(tabs, src, dst))
  {
    hide MovedTo;
    MovedAt(tabs, src, dst);
    var r := MovedTo(tabs, src, dst);
    forall a, b | 0 <= a < b < |r|
      ensures r[a].id != r[b].id
    {
      assert Source(src, dst, a) != Source(src, dst, b);
    }
    forall t | t in tabs
      ensures t in r
    {
      var k :| 0 <= k < |tabs| && tabs[k] == t;
      assert Source(src, dst, Source(dst, src, k)) == k;
      assert r[Source(dst, src, k)] == t;
    }
  }

  /** Moving back restores the strip, focus and all. */
  lemma ReorderUndoes(s: Strip, src: int, dst: int)
    requires WellFormed(s) && CanMove(s, src, dst)
    ensures WellFormed(Reordered(s, src, dst)) && Reordered(Reordered(s, src, dst), dst, src) == s
  {
    hide MovedTo;
    MovedSame(s.tabs, src, dst);
    ArrangedFits(s, MovedTo(s.tabs, src, dst));
    MoveUndoes(s.tabs, src, dst);
    IndexIs(s.tabs, s.focus);
  }

  lemma RepinnedFits(s: Strip, id: Id, on: bool)
    requires WellFormed(s)
    ensures WellFormed(PinSet(s, id, on)) && FocusedId(PinSet(s, id, on)) == FocusedId(s)
  {
    hide Partition;
    var i := IndexOf(s.tabs, id);
    if i >= 0 && s.tabs[i].pinned != on {
      var tabs := s.tabs[i := s.tabs[i].(pinned := on)];
      TouchesOne(s.tabs, i, tabs[i]);
      PartitionIsStable(tabs);
      ArrangedFits(s.(tabs := tabs), Partition(tabs));
    }
  }

  /** What pinning leaves: pinned tabs first, each group in the order it had. */
  lemma PinPartitions(s: Strip, id: Id, on: bool)
    requires WellFormed(s) && OnStrip(s, id) && s.tabs[IndexOf(s.tabs, id)].pinned != on
    ensures var was, r := s.tabs, PinSet(s, id, on).tabs;
            && |r| == |was|
            && (forall a, b :: 0 <= a < b < |r| && r[b].pinned ==> r[a].pinned)
            && (forall a, b :: 0 <= a < b < |r| && r[a].pinned == r[b].pinned ==>
                  IndexOf(was, r[a].id) < IndexOf(was, r[b].id))
            && (forall k :: 0 <= k < |r| ==> IndexOf(was, r[k].id) >= 0)
            && (forall k :: 0 <= k < |r| ==>
                  r[k] == was[IndexOf(was, r[k].id)].(pinned := if r[k].id == id then on else r[k].pinned))
  {
    hide Partition, IndexOf;
    var i := IndexOf(s.tabs, id);
    var tabs := s.tabs[i := s.tabs[i].(pinned := on)];
    TouchesOne(s.tabs, i, tabs[i]);
    PartitionIsStable(tabs);
    var r := Partition(tabs);
    forall k | 0 <= k < |r|
      ensures IndexOf(s.tabs, r[k].id) >= 0
      ensures r[k] == s.tabs[IndexOf(s.tabs, r[k].id)].(pinned := if r[k].id == id then on else r[k].pinned)
    {
      assert r[k] in tabs;
      PinMember(s.tabs, i, on, r[k]);
    }
  }

  lemma PinMember(was: seq<Tab>, i: nat, on: bool, t: Tab)
    requires Distinct(was) && i < |was| && t in was[i := was[i].(pinned := on)]
    ensures var j := IndexOf(was, t.id);
            j >= 0 && t == was[j].(pinned := if t.id == was[i].id then on else t.pinned)
  {
    hide IndexOf;
    OneChanged(was, i, was[i].(pinned := on), t);
    var j :| 0 <= j < |was| && was[j].id == t.id && (t != was[i].(pinned := on) ==> was[j] == t);
    IndexIs(was, j);
  }

  lemma OpenedFits(s: Strip, id: Id, title: Text)
    requires WellFormed(s)
    ensures WellFormed(Opened(s, id, title))
    ensures s.tabs != [] ==> FocusedId(Opened(s, id, title)) == FocusedId(s)
  {
    hide GuessBin;
    var i := IndexOf(s.tabs, id);
    if !Joins(s, id) && id != 0 && i >= 0 {
      TouchesOne(s.tabs, i, Opened(s, id, title).tabs[i]);
    }
  }

  lemma NavigatedFits(s: Strip, id: Id, op: N.NavOp)
    requires WellFormed(s)
    ensures WellFormed(Navigated(s, id, op)) && FocusedId(Navigated(s, id, op)) == FocusedId(s)
  {
    hide N.Step;
    var i := IndexOf(s.tabs, id);
    if i >= 0 {
      StepStaysValid(s.tabs[i].nav, op);
      TouchesOne(s.tabs, i, Navigated(s, id, op).tabs[i]);
    }
  }

  lemma RelabelledFits(s: Strip, id: Id, title: Text, on: bool)
    requires WellFormed(s)
    ensures WellFormed(Titled(s, id, title)) && FocusedId(Titled(s, id, title)) == FocusedId(s)
    ensures WellFormed(Iced(s, id, on)) && FocusedId(Iced(s, id, on)) == FocusedId(s)
  {
    var i := IndexOf(s.tabs, id);
    if i >= 0 {
      TouchesOne(s.tabs, i, s.tabs[i].(title := title));
      TouchesOne(s.tabs, i, s.tabs[i].(frozen := on));
    }
  }

  /** Closing another tab keeps the focus; closing the focused tab hands it to a neighbour. */
  lemma CloseMovesFocus(s: Strip, id: Id)
    requires WellFormed(s) && OnStrip(s, id)
    ensures var i := IndexOf(s.tabs, id);
            var r := Closed(s, id);
            && WellFormed(r)
            && FocusedId(r) == if i != s.focus then FocusedId(s)
                               else if i + 1 < |s.tabs| then s.tabs[i + 1].id
                               else if i > 0 then s.tabs[i - 1].id else 0
  {
    ClosedFits(s, id);
  }

  /** A close takes that tab off the strip and no other. */
  lemma CloseTakesOne(s: Strip, id: Id, other: Id)
    requires WellFormed(s)
    ensures OnStrip(Closed(s, id), other) == (OnStrip(s, other) && other != id)
  {
    hide IndexOf, Without;
    var i := IndexOf(s.tabs, id);
    if i >= 0 {
      WithoutFits(s.tabs, i);
      var r := Closed(s, id).tabs;
      var j := IndexOf(r, other);
      if j >= 0 && !OnStrip(s, other) {
        WithoutAt(s.tabs, i);
      }
    }
  }

  // ---- over every run ----

  /** Every operation keeps the invariant. */
  lemma StepKeeps(s: Strip, op: Op)
    requires WellFormed(s)
    ensures WellFormed(Performed(s, op))
  {
    hide Opened, Closed, PinSet, Reordered, Navigated, Titled, Iced;
    match op
    case Open(id, title) => OpenedFits(s, id, title);
    case SetTitle(id, title) => RelabelledFits(s, id, title, true);
    case Freeze(id, on) => RelabelledFits(s, id, [], on);
    case Close(id) => ClosedFits(s, id);
    case Pin(id, on) => RepinnedFits(s, id, on);
    case Reorder(src, dst) => ReorderFits(s, src, dst);
    case Navigate(id, step) => NavigatedFits(s, id, step);
    case Reopen => ReopenSkips(s.closed);
    case _ =>
  }

  lemma ReorderFits(s: Strip, src: int, dst: int)
    requires WellFormed(s)
    ensures WellFormed(Reordered(s, src, dst)) && FocusedId(Reordered(s, src, dst)) == FocusedId(s)
  {
    hide MovedTo;
    if CanMove(s, src, dst) {
      MovedSame(s.tabs, src, dst);
      ArrangedFits(s, MovedTo(s.tabs, src, dst));
    }
  }

  /** Only focusing, and closing the focused tab, ever change which tab is focused. */
  lemma FocusFollows(s: Strip, op: Op)
    requires WellFormed(s) && s.tabs != []
    requires !op.Focus? && !(op.Close? && op.id == FocusedId(s))
    ensures WellFormed(Performed(s, op)) && FocusedId(Performed(s, op)) == FocusedId(s)
  {
    StepKeeps(s, op);
    hide Opened, Closed, PinSet, Reordered, Navigated, Titled, Iced;
    match op
    case Open(id, title) => OpenedFits(s, id, title);
    case SetTitle(id, title) => RelabelledFits(s, id, title, true);
    case Freeze(id, on) => RelabelledFits(s, id, [], on);
    case Close(id) => CloseElsewhere(s, id);
    case Pin(id, on) => RepinnedFits(s, id, on);
    case Reorder(src, dst) => ReorderFits(s, src, dst);
    case Navigate(id, step) => NavigatedFits(s, id, step);
    case _ =>
  }

  lemma CloseElsewhere(s: Strip, id: Id)
    requires WellFormed(s) && s.tabs != [] && id != FocusedId(s)
    ensures WellFormed(Closed(s, id)) && FocusedId(Closed(s, id)) == FocusedId(s)
  {
    if OnStrip(s, id) { CloseMovesFocus(s, id); }
  }

  /** So does every run of them. */
  function Run(s: Strip, ops: seq<Op>): (r: Strip)
    requires WellFormed(s)
    ensures WellFormed(r)
  {
    if ops == [] then s
    else
      var m := Run(s, ops[..|ops| - 1]);
      StepKeeps(m, ops[|ops| - 1]);
      Performed(m, ops[|ops| - 1])
  }

  lemma SameTabsSameIds(a: seq<Tab>, b: seq<Tab>, id: Id)
    requires SameTabs(a, b)
    ensures (IndexOf(a, id) >= 0) == (IndexOf(b, id) >= 0)
  {
    var i, j := IndexOf(a, id), IndexOf(b, id);
    assert i >= 0 ==> a[i] in b;
    assert j >= 0 ==> b[j] in a;
  }

  /** Only opening a window puts its id on the strip. */
  lemma NoNewcomers(s: Strip, op: Op, id: Id)
    requires WellFormed(s) && OnStrip(Performed(s, op), id) && !(op.Open? && op.id == id)
    ensures OnStrip(s, id)
  {
    hide Partition, MovedTo, GuessBin;
    var tabs := s.tabs;
    match op
    case Open(other, title) => OpensOne(s, other, title, id);
    case SetTitle(other, title) =>
      var i := IndexOf(tabs, other);
      if i >= 0 { TouchesOne(tabs, i, tabs[i].(title := title)); }
    case Freeze(other, on) =>
      var i := IndexOf(tabs, other);
      if i >= 0 { TouchesOne(tabs, i, tabs[i].(frozen := on)); }
    case Close(other) => CloseTakesOne(s, other, id);
    case Pin(other, on) => PinTakesNone(s, other, on, id);
    case Reorder(src, dst) =>
      if CanMove(s, src, dst) {
        MovedSame(tabs, src, dst);
        SameTabsSameIds(tabs, MovedTo(tabs, src, dst), id);
      }
    case Navigate(other, step) =>
      var i := IndexOf(tabs, other);
      if i >= 0 {
        StepStaysValid(tabs[i].nav, step);
        TouchesOne(tabs, i, tabs[i].(nav := N.Step(tabs[i].nav, step)));
      }
    case _ =>
  }

  lemma OpensOne(s: Strip, id: Id, title: Text, other: Id)
    requires WellFormed(s) && OnStrip(Opened(s, id, title), other) && other != id
    ensures OnStrip(s, other)
  {
    hide GuessBin;
    var i := IndexOf(s.tabs, id);
    var r := Opened(s, id, title).tabs;
    if Joins(s, id) {
      assert r[..|s.tabs|] == s.tabs;
    } else if id != 0 && i >= 0 {
      TouchesOne(s.tabs, i, r[i]);
    }
  }

  lemma PinTakesNone(s: Strip, id: Id, on: bool, other: Id)
    requires WellFormed(s)
    ensures OnStrip(PinSet(s, id, on), other) == OnStrip(s, other)
  {
    hide Partition, IndexOf;
    var i := IndexOf(s.tabs, id);
    if i >= 0 && s.tabs[i].pinned != on {
      var tabs := s.tabs[i := s.tabs[i].(pinned := on)];
      TouchesOne(s.tabs, i, tabs[i]);
      PartitionIsStable(tabs);
      SameTabsSameIds(tabs, Partition(tabs), other);
    }
  }

  // ---- what a tab's labels go back to ----

  /** Whether an operation gives this tab a title. */
  predicate GivesTitle(op: Op, id: Id) {
    (op.Open? && op.id == id) || (op.SetTitle? && op.id == id && op.title != [])
  }

  /** A tab as one operation leaves it: new, or with the labels it had save for those the operation gives
      that very tab. */
  predicate Tells(was: seq<Tab>, op: Op, t: Tab) {
    var i := IndexOf(was, t.id);
    && !(op.Close? && op.id == t.id)
    && (i < 0 ==> op.Open? && op.id == t.id && t == NewTab(t.id, op.title))
    && (i >= 0 ==>
          && t.title == (if GivesTitle(op, t.id) then op.title else was[i].title)
          && t.bin == (if op.Open? && op.id == t.id && was[i].bin == [] then GuessBin(op.title) else was[i].bin)
          && t.pinned == (if op.Pin? && op.id == t.id then op.on else was[i].pinned)
          && t.frozen == (if op.Freeze? && op.id == t.id then op.on else was[i].frozen))
  }

  lemma UntouchedTells(was: seq<Tab>, op: Op, t: Tab)
    requires Distinct(was) && t in was
    requires !GivesTitle(op, t.id) && !((op.Freeze? || op.Close? || op.Pin?) && op.id == t.id)
    ensures Tells(was, op, t)
  {
    hide IndexOf, GuessBin;
    var k :| 0 <= k < |was| && was[k] == t;
    IndexIs(was, k);
  }

  /** A tab of a list with one tab changed is the changed one or an old one. */
  lemma OneChanged(was: seq<Tab>, i: nat, u: Tab, t: Tab)
    requires Distinct(was) && i < |was| && u.id == was[i].id && t in was[i := u]
    ensures t == u || (t in was && t.id != u.id)
  {
    var k :| 0 <= k < |was| && was[i := u][k] == t;
    assert k != i ==> was[k] == t;
  }

  lemma ChangedTells(was: seq<Tab>, op: Op, i: nat, u: Tab, t: Tab)
    requires Distinct(was) && i < |was| && u.id == was[i].id && t in was[i := u]
    requires (op.Open? || op.SetTitle? || op.Freeze? || op.Close? || op.Pin?) ==> op.id == u.id
    requires Tells(was, op, u)
    ensures Tells(was, op, t)
  {
    hide Tells;
    OneChanged(was, i, u, t);
    if t != u { UntouchedTells(was, op, t); }
  }

  lemma InPlaceTells(s: Strip, op: Op, t: Tab)
    requires WellFormed(s) && t in Performed(s, op).tabs
    requires (op.Open? && !Joins(s, op.id)) || op.SetTitle? || op.Freeze? || op.Navigate?
    ensures Tells(s.tabs, op, t)
  {
    hide GuessBin, N.Step, PanesFit, IndexOf, Tells;
    var i := IndexOf(s.tabs, op.id);
    if i < 0 || (op.SetTitle? && op.title == []) {
      if i < 0 { assert t.id != op.id; }
      UntouchedTells(s.tabs, op, t);
    } else {
      var u := Performed(s, op).tabs[i];
      GivenTells(s, op);
      ChangedTells(s.tabs, op, i, u, t);
    }
  }

  lemma GivenTells(s: Strip, op: Op)
    requires WellFormed(s)
    requires (op.Open? && !Joins(s, op.id)) || op.SetTitle? || op.Freeze? || op.Navigate?
    ensures var i := IndexOf(s.tabs, op.id);
            i >= 0 ==> |Performed(s, op).tabs| == |s.tabs| && Tells(s.tabs, op, Performed(s, op).tabs[i])
  {
    hide GuessBin, N.Step, PanesFit, IndexOf;
  }

  lemma JoinTells(s: Strip, op: Op, t: Tab)
    requires WellFormed(s) && op.Open? && Joins(s, op.id) && t in Performed(s, op).tabs
    ensures Tells(s.tabs, op, t)
  {
    hide GuessBin, IndexOf;
    if t in s.tabs { UntouchedTells(s.tabs, op, t); }
  }

  lemma PinTells(s: Strip, op: Op, t: Tab)
    requires WellFormed(s) && op.Pin? && t in Performed(s, op).tabs
    ensures Tells(s.tabs, op, t)
  {
    hide GuessBin, IndexOf, Partition;
    var i := IndexOf(s.tabs, op.id);
    if i >= 0 && s.tabs[i].pinned != op.on {
      var u := s.tabs[i].(pinned := op.on);
      TouchesOne(s.tabs, i, u);
      PartitionIsStable(s.tabs[i := u]);
      OneChanged(s.tabs, i, u, t);
      if t != u { UntouchedTells(s.tabs, op, t); }
    } else {
      var k :| 0 <= k < |s.tabs| && s.tabs[k] == t;
      IndexIs(s.tabs, k);
    }
  }

  lemma CloseTells(s: Strip, op: Op, t: Tab)
    requires WellFormed(s) && op.Close? && t in Performed(s, op).tabs
    ensures Tells(s.tabs, op, t)
  {
    hide GuessBin, IndexOf, Without;
    var i := IndexOf(s.tabs, op.id);
    if i >= 0 {
      WithoutAt(s.tabs, i);
      var k :| 0 <= k < |s.tabs| - 1 && Without(s.tabs, i)[k] == t;
      assert t == s.tabs[if k < i then k else k + 1];
    } else {
      assert t in s.tabs;
    }
    UntouchedTells(s.tabs, op, t);
  }

  /** Every tab on the strip after an operation is one the operation left so. */
  lemma OpTells(s: Strip, op: Op, t: Tab)
    requires WellFormed(s) && t in Performed(s, op).tabs
    ensures Tells(s.tabs, op, t)
  {
    hide Tells, Opened, Closed, PinSet, Navigated, Titled, Iced, IndexOf;
    match op
    case Open(id, title) => if Joins(s, id) { JoinTells(s, op, t); } else { InPlaceTells(s, op, t); }
    case SetTitle(_, _) => InPlaceTells(s, op, t);
    case Freeze(_, _) => InPlaceTells(s, op, t);
    case Navigate(_, _) => InPlaceTells(s, op, t);
    case Pin(_, _) => PinTells(s, op, t);
    case Close(_) => CloseTells(s, op, t);
    case Reorder(src, dst) =>
      if CanMove(s, src, dst) { MovedSame(s.tabs, src, dst); }
      UntouchedTells(s.tabs, op, t);
    case _ => UntouchedTells(s.tabs, op, t);
  }
}
