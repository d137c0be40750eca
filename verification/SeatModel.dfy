/** The window-manager seat of user/go/gotabwm (interop.go, notify.go, hid.go:185-209 and the tick of
    seat.go) as a state machine: the strip, the pending navigation slot, the ack payload and the toast
    queue, moved by requests, user input and composite ticks. */
module SeatModel {
  import opened Bytes
  import opened Strip
  import opened Toasts
  import N = NavRing

  const REPLY_FLAG: int := 128
  const KIND_RAISE: int := 1
  const KIND_ATTACH: int := 5
  const KIND_DETACH: int := 6
  const KIND_CYCLE: int := 7
  const KIND_DECLARE: int := 8
  const KIND_NAV_DECLARE: int := 9
  const KIND_NAV_POLL: int := 10
  const KIND_TITLE: int := 11
  const KIND_NOTIFY: int := 12

  /** A decoded request; its title is the frame's 24 bytes up to the first NUL. */
  datatype Request = Request(kind: byte, id: byte, seqNo: byte, replyTo: byte, title: Text)

  datatype Ack = NoAck | Ack(kind: byte, id: byte, seqNo: byte, replyTo: byte, applied: bool, title: Text)

  datatype Seat = Seat(strip: Strip, pendingId: Id, pendingPath: N.Path, payload: N.Path,
                       toasts: seq<Toast>, dropped: nat, painted: bool, tick: nat)

  // ---- the parts ----

  /** A closed tab takes its pending target and its toasts with it. */
  function Closing(s: Seat, id: Id): Seat {
    if !OnStrip(s.strip, id) then s
    else
      var q := NotFrom(s.toasts, id);
      var mine := s.pendingId == id;
      s.(strip := Closed(s.strip, id), pendingId := if mine then 0 else s.pendingId,
         pendingPath := if mine then [] else s.pendingPath, toasts := q, painted := s.painted && q != [])
  }

  function NavOp(back: bool): N.NavOp { if back then N.Back else N.Forward }

  /** A step of the focused tab's history queues where it leads; a refused one queues nothing. */
  function Stepped(s: Seat, back: bool): Seat
    requires WellFormed(s.strip)
  {
    if s.strip.tabs == [] || !N.CanStep(s.strip.tabs[s.strip.focus].nav, back) then s
    else
      var t := s.strip.tabs[s.strip.focus];
      StepStaysValid(t.nav, NavOp(back));
      s.(strip := Navigated(s.strip, t.id, NavOp(back)), pendingId := t.id,
         pendingPath := N.Current(N.Step(t.nav, NavOp(back))))
  }

  /** A target is handed only to the window it was queued for. */
  predicate Waiting(s: Seat, id: Id) { id != 0 && s.pendingId == id && s.pendingPath != [] }

  predicate CanNotify(s: Seat, id: Id, text: Text) { text != [] && OnStrip(s.strip, id) }

  function Notified(s: Seat, id: Id, text: Text): Seat {
    s.(toasts := Queued(s.toasts, Toast(id, text, s.tick, s.tick + NOTIFY_TICKS)),
       dropped := if |s.toasts| >= NOTIFY_MAX then s.dropped + 1 else s.dropped)
  }

  /** One composite tick: expiry first, then the paint that may set the latch. */
  function Ticked(s: Seat, shown: bool): Seat {
    var q := Unexpired(s.toasts, s.tick + 1);
    s.(tick := s.tick + 1, toasts := q, painted := q != [] && (s.painted || shown))
  }

  function Clicked(s: Seat, slot: nat, raised: bool): Seat {
    if slot >= |s.toasts| then s
    else
      var q := Without(s.toasts, slot);
      s.(strip := if raised then FocusedOn(s.strip, s.toasts[slot].sender) else s.strip,
         toasts := q, painted := s.painted && q != [])
  }

  function Focusing(s: Seat, id: Id): Seat { s.(strip := FocusedOn(s.strip, id)) }

  function NextId(s: Strip): Id
    requires FocusFits(s) && s.tabs != []
  {
    s.tabs[(s.focus + 1) % |s.tabs|].id
  }

  /** One request applied; `raised` says whether the kernel accepted the focus click, where the
      request makes one. */
  function Applied(s: Seat, req: Request, raised: bool): (Seat, bool)
    requires WellFormed(s.strip)
  {
    var id: Id := req.id;
    var k := req.kind % REPLY_FLAG;
    if k == KIND_DECLARE then
      var grown := s.(strip := Opened(s.strip, id, req.title));
      (if raised then Focusing(grown, id) else grown, true)
    else if k == KIND_RAISE then (if raised then Focusing(s, id) else s, raised)
    else if k == KIND_ATTACH then (Focusing(s.(strip := Opened(s.strip, id, req.title)), id), true)
    else if k == KIND_DETACH then (Closing(s, id), true)
    else if k == KIND_CYCLE then
      (if s.strip.tabs != [] && raised then Focusing(s, NextId(s.strip)) else s, true)
    else if k == KIND_NAV_DECLARE then
      (s.(strip := Navigated(s.strip, id, N.Declare(req.title))), OnStrip(s.strip, id))
    else if k == KIND_NAV_POLL then
      if Waiting(s, id) then (s.(pendingId := 0, pendingPath := [], payload := s.pendingPath), true) else (s, false)
    else if k == KIND_TITLE then
      (s.(strip := Titled(s.strip, id, req.title)), req.title != [] && OnStrip(s.strip, id))
    else if k == KIND_NOTIFY && CanNotify(s, id, req.title) then (Notified(s, id, req.title), true)
    else (s, false)
  }

  /** A request applied and, when it names a reply address, acked with the payload taken. */
  function Served(s: Seat, req: Request, raised: bool): (Seat, Ack)
    requires WellFormed(s.strip)
  {
    if req.kind >= REPLY_FLAG then (s, NoAck)
    else
      var (r, ok) := Applied(s, req, raised);
      if req.replyTo == 0 then (r, NoAck)
      else
        (r.(payload := []),
         Ack(req.kind + REPLY_FLAG, req.id, req.seqNo, req.replyTo, ok, if ok then N.CutPath(r.payload) else []))
  }

  // ---- runs ----

  type Edit = op: Op | !op.Navigate? && !op.Close? witness EndSplit

  datatype Event =
    | Serve(req: Request, raised: bool)
    | CloseWindow(id: Id)
    | User(op: Edit)
    | StepFocused(back: bool)
    | Tick(shown: bool)
    | Click(slot: nat, raised: bool)

  function Next(s: Seat, e: Event): Seat
    requires WellFormed(s.strip)
  {
    match e
    case Serve(req, raised) => Served(s, req, raised).0
    case CloseWindow(id) => Closing(s, id)
    case User(op) => s.(strip := Performed(s.strip, op))
    case StepFocused(back) => Stepped(s, back)
    case Tick(shown) => Ticked(s, shown)
    case Click(slot, raised) => Clicked(s, slot, raised)
  }

  predicate ToastFits(s: Seat, t: Toast) {
    OnStrip(s.strip, t.sender) && t.text != [] && s.tick < t.expires <= s.tick + NOTIFY_TICKS
  }

  predicate ToastsFit(s: Seat) {
    && |s.toasts| <= NOTIFY_MAX && InExpiryOrder(s.toasts)
    && (forall k :: 0 <= k < |s.toasts| ==> ToastFits(s, s.toasts[k]))
    && (s.painted ==> s.toasts != [])
  }

  predicate PendingFits(s: Seat) {
    if s.pendingId == 0 then s.pendingPath == [] else s.pendingPath != [] && OnStrip(s.strip, s.pendingId)
  }

  /** What holds between any two events. */
  predicate Good(s: Seat) { WellFormed(s.strip) && PendingFits(s) && ToastsFit(s) }

  /** A seat at boot: nothing navigated yet, nothing pending, no toasts. The strip may hold restored tabs. */
  predicate Booted(s: Seat) {
    && Good(s) && s.pendingId == 0 && s.payload == [] && s.toasts == [] && s.tick == 0
    && forall k :: 0 <= k < |s.strip.tabs| ==> s.strip.tabs[k].nav.count == 0
  }

  // ---- every event keeps it ----

  /** Changing the strip without taking a tab off keeps everything else in place. */
  lemma GrowsGood(s: Seat, strip: Strip)
    requires Good(s) && WellFormed(strip)
    requires forall id: Id :: OnStrip(s.strip, id) ==> OnStrip(strip, id)
    ensures Good(s.(strip := strip))
  {
    hide OnStrip, WellFormed;
    var r := s.(strip := strip);
    forall k | 0 <= k < |s.toasts|
      ensures ToastFits(r, s.toasts[k])
    {
      assert ToastFits(s, s.toasts[k]);
    }
  }

  lemma ClosingGood(s: Seat, id: Id)
    requires Good(s)
    ensures Good(Closing(s, id))
  {
    hide OnStrip, WellFormed, Closed;
    if OnStrip(s.strip, id) {
      ClosedFits(s.strip, id);
      CloseTakesOne(s.strip, id, s.pendingId);
      KeptMembers(s.toasts, (t: Toast) => t.sender != id);
      var r := Closing(s, id);
      assert |r.toasts| <= |s.toasts|;
      forall k | 0 <= k < |r.toasts|
        ensures ToastFits(r, r.toasts[k])
      {
        var t := r.toasts[k];
        assert t in r.toasts;
        assert t in s.toasts && t.sender != id;
        var j :| 0 <= j < |s.toasts| && s.toasts[j] == t;
        assert ToastFits(s, s.toasts[j]);
        CloseTakesOne(s.strip, id, t.sender);
      }
    }
  }

  lemma TickedGood(s: Seat, shown: bool)
    requires Good(s)
    ensures Good(Ticked(s, shown))
    ensures forall k :: 0 <= k < |Ticked(s, shown).toasts| ==>
      1 <= Ticked(s, shown).toasts[k].expires - Ticked(s, shown).tick <= NOTIFY_TICKS - 1
  {
    hide OnStrip, WellFormed;
    KeptMembers(s.toasts, (t: Toast) => s.tick + 1 < t.expires);
    var r := Ticked(s, shown);
    assert r.toasts == Kept(s.toasts, (t: Toast) => s.tick + 1 < t.expires);
    forall k | 0 <= k < |r.toasts|
      ensures ToastFits(r, r.toasts[k]) && r.toasts[k].expires - r.tick <= NOTIFY_TICKS - 1
    {
      var t := r.toasts[k];
      assert t in r.toasts;
      assert t in s.toasts && s.tick + 1 < t.expires;
      var j :| 0 <= j < |s.toasts| && s.toasts[j] == t;
      assert ToastFits(s, s.toasts[j]);
    }
  }

  lemma ClickedGood(s: Seat, slot: nat, raised: bool)
    requires Good(s)
    ensures Good(Clicked(s, slot, raised))
  {
    hide WellFormed;
    if slot < |s.toasts| {
      WithoutAt(s.toasts, slot);
      FocusedFits(s.strip, s.toasts[slot].sender);
      var r := Clicked(s, slot, raised);
      forall k | 0 <= k < |r.toasts|
        ensures ToastFits(r, r.toasts[k])
      {
        assert ToastFits(s, s.toasts[if k < slot then k else k + 1]);
      }
    }
  }

  lemma FocusedFits(s: Strip, id: Id)
    requires WellFormed(s)
    ensures WellFormed(FocusedOn(s, id)) && FocusedOn(s, id).tabs == s.tabs
  {
  }

  lemma NotifiedGood(s: Seat, id: Id, text: Text)
    requires Good(s) && CanNotify(s, id, text)
    ensures Good(Notified(s, id, text))
  {
    hide WellFormed, OnStrip;
    var r := Notified(s, id, text);
    var drop := if |s.toasts| >= NOTIFY_MAX then 1 else 0;
    forall k | 0 <= k < |r.toasts|
      ensures ToastFits(r, r.toasts[k])
      ensures k < |r.toasts| - 1 ==> r.toasts[k] == s.toasts[k + drop] && r.toasts[k].expires <= s.tick + NOTIFY_TICKS
    {
      if k < |r.toasts| - 1 { assert ToastFits(s, s.toasts[k + drop]); }
    }
  }

  // ---- whose paths a history holds ----

  /** The paths recorded by the tab now holding an id. */
  function Owned(tabs: seq<Tab>, id: Id): seq<N.Path>
    requires TabsFit(tabs)
  {
    var i := IndexOf(tabs, id);
    if i < 0 then [] else N.Entries(tabs[i].nav)
  }

  /** Nobody's history moved and nobody left. */
  predicate SameOwners(a: seq<Tab>, b: seq<Tab>, id: Id)
    requires TabsFit(a) && TabsFit(b)
  {
    Owned(a, id) == Owned(b, id) && (IndexOf(a, id) >= 0 ==> IndexOf(b, id) >= 0)
  }

  lemma RearrangedOwners(a: seq<Tab>, b: seq<Tab>, id: Id)
    requires TabsFit(a) && TabsFit(b) && SameTabs(a, b)
    ensures SameOwners(a, b, id)
  {
    var i := IndexOf(a, id);
    if i >= 0 {
      assert a[i] in b;
      var k :| 0 <= k < |b| && b[k] == a[i];
      IndexIs(b, k);
    } else {
      forall k | 0 <= k < |b|
        ensures b[k].id != id
      {
        assert b[k] in b;
      }
    }
  }

  /** A tab changed apart from its id and its history. */
  lemma TouchedOwners(a: seq<Tab>, i: nat, t: Tab, id: Id)
    requires TabsFit(a) && i < |a| && t.id == a[i].id && t.nav == a[i].nav
    ensures TabsFit(a[i := t]) && SameOwners(a, a[i := t], id)
  {
    TouchesOne(a, i, t);
  }

  /** A new tab joins at the end, with an empty history. */
  lemma JoinedOwners(tabs: seq<Tab>, t: Tab, id: Id)
    requires TabsFit(tabs) && TabsFit(tabs + [t]) && t.nav.count == 0
    ensures SameOwners(tabs, tabs + [t], id)
  {
    assert (tabs + [t])[..|tabs|] == tabs;
  }

  lemma OpenedOwners(s: Strip, id: Id, title: Text, other: Id)
    requires WellFormed(s)
    ensures WellFormed(Opened(s, id, title)) && SameOwners(s.tabs, Opened(s, id, title).tabs, other)
  {
    hide GuessBin, N.Entry, N.Valid;
    OpenedFits(s, id, title);
    var i := IndexOf(s.tabs, id);
    var r := Opened(s, id, title).tabs;
    if Joins(s, id) {
      JoinedOwners(s.tabs, NewTab(id, title), other);
    } else if id != 0 && i >= 0 {
      TouchedOwners(s.tabs, i, r[i], other);
    }
  }

  lemma PinnedOwners(s: Strip, id: Id, on: bool, other: Id)
    requires WellFormed(s)
    ensures WellFormed(PinSet(s, id, on)) && SameOwners(s.tabs, PinSet(s, id, on).tabs, other)
  {
    hide Partition, IndexOf;
    RepinnedFits(s, id, on);
    var i := IndexOf(s.tabs, id);
    if i >= 0 && s.tabs[i].pinned != on {
      var tabs := s.tabs[i := s.tabs[i].(pinned := on)];
      TouchedOwners(s.tabs, i, tabs[i], other);
      PartitionIsStable(tabs);
      RearrangedOwners(tabs, Partition(tabs), other);
    }
  }

  lemma ReorderedOwners(s: Strip, src: int, dst: int, other: Id)
    requires WellFormed(s)
    ensures WellFormed(Reordered(s, src, dst)) && SameOwners(s.tabs, Reordered(s, src, dst).tabs, other)
  {
    hide MovedTo, IndexOf;
    ReorderFits(s, src, dst);
    if CanMove(s, src, dst) {
      MovedSame(s.tabs, src, dst);
      RearrangedOwners(s.tabs, MovedTo(s.tabs, src, dst), other);
    }
  }

  lemma RelabelledOwners(s: Strip, id: Id, title: Text, on: bool, other: Id)
    requires WellFormed(s)
    ensures WellFormed(Titled(s, id, title)) && SameOwners(s.tabs, Titled(s, id, title).tabs, other)
    ensures WellFormed(Iced(s, id, on)) && SameOwners(s.tabs, Iced(s, id, on).tabs, other)
  {
    RelabelledFits(s, id, title, on);
    var i := IndexOf(s.tabs, id);
    if i >= 0 {
      TouchedOwners(s.tabs, i, s.tabs[i].(title := title), other);
      TouchedOwners(s.tabs, i, s.tabs[i].(frozen := on), other);
    }
  }

  lemma EditOwners(s: Strip, op: Edit, other: Id)
    requires WellFormed(s)
    ensures WellFormed(Performed(s, op)) && SameOwners(s.tabs, Performed(s, op).tabs, other)
  {
    StepKeeps(s, op);
    hide Opened, PinSet, Reordered, Titled, Iced, IndexOf;
    match op
    case Open(id, title) => OpenedOwners(s, id, title, other);
    case SetTitle(id, title) => RelabelledOwners(s, id, title, true, other);
    case Freeze(id, on) => RelabelledOwners(s, id, [], on, other);
    case Pin(id, on) => PinnedOwners(s, id, on, other);
    case Reorder(src, dst) => ReorderedOwners(s, src, dst, other);
    case _ =>
  }

  /** A history step touches only its own tab, and only a declare adds a path. */
  lemma NavigatedOwners(s: Strip, id: Id, op: N.NavOp, other: Id)
    requires WellFormed(s)
    ensures WellFormed(Navigated(s, id, op))
    ensures OnStrip(Navigated(s, id, op), other) == OnStrip(s, other)
    ensures forall p :: p in Owned(Navigated(s, id, op).tabs, other) ==>
      p in Owned(s.tabs, other) || (op.Declare? && other == id && OnStrip(s, id) && p == N.CutPath(op.path))
  {
    hide IndexOf, N.Recorded;
    NavigatedFits(s, id, op);
    var i := IndexOf(s.tabs, id);
    if i >= 0 {
      var t := s.tabs[i];
      StepStaysValid(t.nav, op);
      TouchesOne(s.tabs, i, t.(nav := N.Step(t.nav, op)));
      if op.Declare? { N.RecordStaysValid(t.nav, op.path); } else { SteppedEntries(t.nav, op); }
    }
  }

  lemma SteppedEntries(n: N.Nav, op: N.NavOp)
    requires N.Valid(n) && !op.Declare?
    ensures N.Valid(N.Step(n, op)) && N.Entries(N.Step(n, op)) == N.Entries(n)
  {
  }

  lemma ClosedOwners(s: Strip, id: Id, other: Id)
    requires WellFormed(s)
    ensures WellFormed(Closed(s, id))
    ensures Owned(Closed(s, id).tabs, other) == if other == id then [] else Owned(s.tabs, other)
  {
    hide IndexOf, Without;
    ClosedFits(s, id);
    CloseTakesOne(s, id, other);
    var i, j := IndexOf(s.tabs, id), IndexOf(s.tabs, other);
    if i >= 0 {
      WithoutFits(s.tabs, i);
      WithoutAt(s.tabs, i);
    }
  }

  // ---- one event ----

  /** The event declares `path` for `id`. */
  predicate Declares(e: Event, id: Id, path: N.Path) {
    && e.Serve? && e.req.kind == KIND_NAV_DECLARE
    && id == e.req.id as int && path == N.CutPath(e.req.title)
  }

  /** Every path recorded after an event was recorded before it by the same tab, or declared in it. */
  predicate OwnersFollow(a: Strip, e: Event, b: Strip)
    requires WellFormed(a) && WellFormed(b)
  {
    forall id: Id, p: N.Path :: p in Owned(b.tabs, id) ==>
      p in Owned(a.tabs, id) || (Declares(e, id, p) && OnStrip(a, id))
  }

  /** A queued target was queued before or comes from the history of the tab it is queued for. */
  predicate PendingFollows(s: Seat, r: Seat)
    requires WellFormed(s.strip)
  {
    r.pendingId != 0 ==>
      || (r.pendingId == s.pendingId && r.pendingPath == s.pendingPath)
      || r.pendingPath in Owned(s.strip.tabs, r.pendingId)
  }

  /** One event keeps the invariant, and every recorded or pending path comes from its own tab. */
  ghost predicate Sound(s: Seat, e: Event, r: Seat) {
    Good(s) && Good(r) && OwnersFollow(s.strip, e, r.strip) && PendingFollows(s, r)
  }

  lemma EditFollows(a: Strip, e: Event, op: Edit)
    requires WellFormed(a)
    ensures WellFormed(Performed(a, op)) && OwnersFollow(a, e, Performed(a, op))
    ensures forall id: Id :: OnStrip(a, id) ==> OnStrip(Performed(a, op), id)
  {
    hide Performed, IndexOf, Owned;
    EditOwners(a, op, 0);
    forall id: Id
      ensures Owned(Performed(a, op).tabs, id) == Owned(a.tabs, id)
      ensures OnStrip(a, id) ==> OnStrip(Performed(a, op), id)
    {
      EditOwners(a, op, id);
    }
  }

  lemma EditSound(s: Seat, e: Event, op: Edit)
    requires Good(s)
    ensures Sound(s, e, s.(strip := Performed(s.strip, op)))
  {
    hide Performed, OnStrip, Owned;
    EditFollows(s.strip, e, op);
    GrowsGood(s, Performed(s.strip, op));
  }

  lemma CloseFollows(a: Strip, e: Event, id: Id)
    requires WellFormed(a)
    ensures WellFormed(Closed(a, id)) && OwnersFollow(a, e, Closed(a, id))
  {
    hide Closed, IndexOf, Owned;
    ClosedFits(a, id);
    forall other: Id
      ensures Owned(Closed(a, id).tabs, other) == if other == id then [] else Owned(a.tabs, other)
    {
      ClosedOwners(a, id, other);
    }
  }

  lemma ClosingSound(s: Seat, e: Event, id: Id)
    requires Good(s)
    ensures Sound(s, e, Closing(s, id))
  {
    hide OnStrip, Owned, Closed, NotFrom;
    ClosingGood(s, id);
    CloseFollows(s.strip, e, id);
  }

  lemma NavigateFollows(a: Strip, e: Event, id: Id, op: N.NavOp)
    requires WellFormed(a) && (op.Declare? ==> Declares(e, id, N.CutPath(op.path)))
    ensures WellFormed(Navigated(a, id, op)) && OwnersFollow(a, e, Navigated(a, id, op))
    ensures forall other: Id :: OnStrip(Navigated(a, id, op), other) == OnStrip(a, other)
  {
    hide Navigated, IndexOf, Owned, OnStrip;
    NavigatedOwners(a, id, op, 0);
    forall other: Id
      ensures OnStrip(Navigated(a, id, op), other) == OnStrip(a, other)
      ensures forall p :: p in Owned(Navigated(a, id, op).tabs, other) ==>
        p in Owned(a.tabs, other) || (op.Declare? && other == id && OnStrip(a, id) && p == N.CutPath(op.path))
    {
      NavigatedOwners(a, id, op, other);
    }
  }

  lemma StepSound(s: Seat, e: Event, back: bool)
    requires Good(s)
    ensures Sound(s, e, Stepped(s, back))
  {
    hide IndexOf, Navigated, N.Step, N.CanStep;
    var strip := s.strip;
    if strip.tabs != [] && N.CanStep(strip.tabs[strip.focus].nav, back) {
      var t := strip.tabs[strip.focus];
      IndexIs(strip.tabs, strip.focus);
      NavigateFollows(strip, e, t.id, NavOp(back));
      GrowsGood(s, Navigated(strip, t.id, NavOp(back)));
      LandsOn(t.nav, back);
    }
  }

  /** A step lands on a recorded path. */
  lemma LandsOn(n: N.Nav, back: bool)
    requires N.Valid(n) && N.CanStep(n, back)
    ensures N.Valid(N.Step(n, NavOp(back)))
    ensures N.Current(N.Step(n, NavOp(back))) in N.Entries(n) && N.Current(N.Step(n, NavOp(back))) != []
  {
    var r := N.Step(n, NavOp(back));
    N.FilledSlot(n, r.pos);
    assert N.Entries(n)[r.pos] == N.Current(r);
  }

  lemma DeclareSound(s: Seat, e: Event, id: Id, path: N.Path)
    requires Good(s) && Declares(e, id, N.CutPath(path))
    ensures Sound(s, e, s.(strip := Navigated(s.strip, id, N.Declare(path))))
  {
    hide Navigated, Owned, OnStrip;
    NavigateFollows(s.strip, e, id, N.Declare(path));
    GrowsGood(s, Navigated(s.strip, id, N.Declare(path)));
  }

  lemma ClickSound(s: Seat, e: Event, slot: nat, raised: bool)
    requires Good(s)
    ensures Sound(s, e, Clicked(s, slot, raised))
  {
    ClickedGood(s, slot, raised);
    if slot < |s.toasts| { FocusedFits(s.strip, s.toasts[slot].sender); }
  }

  lemma AppliedSound(s: Seat, req: Request, raised: bool)
    requires Good(s) && req.kind < REPLY_FLAG
    ensures Sound(s, Serve(req, raised), Applied(s, req, raised).0)
  {
    hide Opened, Titled, Navigated, Closing, OnStrip, Owned, Good, Notified, FocusedOn;
    GoodParts(s);
    var e := Serve(req, raised);
    var id: Id := req.id;
    var k := req.kind as int;
    if k == KIND_DECLARE || k == KIND_ATTACH {
      EditSound(s, e, Open(id, req.title));
      var grown := s.(strip := Opened(s.strip, id, req.title));
      FocusingSound(s, e, grown, id);
    } else if k == KIND_RAISE {
      SameSound(s, e);
      FocusingSound(s, e, s, id);
    } else if k == KIND_DETACH {
      ClosingSound(s, e, id);
    } else if k == KIND_CYCLE {
      SameSound(s, e);
      if s.strip.tabs != [] { FocusingSound(s, e, s, NextId(s.strip)); }
    } else if k == KIND_NAV_DECLARE {
      DeclareSound(s, e, id, req.title);
    } else if k == KIND_NAV_POLL {
      SameSound(s, e);
      PollSound(s, e);
    } else if k == KIND_TITLE {
      EditSound(s, e, SetTitle(id, req.title));
    } else {
      SameSound(s, e);
      if k == KIND_NOTIFY && CanNotify(s, id, req.title) { NotifiedSound(s, e, id, req.title); }
    }
  }

  lemma GoodParts(s: Seat)
    requires Good(s)
    ensures WellFormed(s.strip)
  {
  }

  lemma SameSound(s: Seat, e: Event)
    requires Good(s)
    ensures Sound(s, e, s)
  {
  }

  lemma FocusingSound(s: Seat, e: Event, r: Seat, id: Id)
    requires Sound(s, e, r)
    ensures Sound(s, e, Focusing(r, id))
  {
    FocusedFits(r.strip, id);
    GrowsGood(r, FocusedOn(r.strip, id));
  }

  lemma PollSound(s: Seat, e: Event)
    requires Good(s)
    ensures Sound(s, e, s.(pendingId := 0, pendingPath := [], payload := s.pendingPath))
  {
    GrowsGood(s.(pendingId := 0, pendingPath := [], payload := s.pendingPath), s.strip);
  }

  lemma NotifiedSound(s: Seat, e: Event, id: Id, text: Text)
    requires Good(s) && CanNotify(s, id, text)
    ensures Sound(s, e, Notified(s, id, text))
  {
    NotifiedGood(s, id, text);
  }

  /** Taking the payload touches nothing else. */
  lemma TakenSound(s: Seat, e: Event, r: Seat, payload: N.Path)
    requires Sound(s, e, r)
    ensures Sound(s, e, r.(payload := payload))
  {
    GrowsGood(r.(payload := payload), r.strip);
  }

  /** Every event keeps the invariant and leaves paths with their tabs. */
  lemma NextSound(s: Seat, e: Event)
    requires Good(s)
    ensures Sound(s, e, Next(s, e))
  {
    hide Sound, Applied, Closing, Stepped, Ticked, Clicked, Performed;
    GoodParts(s);
    match e
    case Serve(req, raised) =>
      SameSound(s, e);
      if req.kind < REPLY_FLAG {
        AppliedSound(s, req, raised);
        TakenSound(s, e, Applied(s, req, raised).0, []);
      }
    case CloseWindow(id) => ClosingSound(s, e, id);
    case User(op) => EditSound(s, e, op);
    case StepFocused(back) => StepSound(s, e, back);
    case Tick(shown) => TickSound(s, e, shown);
    case Click(slot, raised) => ClickSound(s, e, slot, raised);
  }

  lemma TickSound(s: Seat, e: Event, shown: bool)
    requires Good(s)
    ensures Sound(s, e, Ticked(s, shown))
  {
    TickedGood(s, shown);
  }

  // ---- over every run ----

  function Run(s: Seat, es: seq<Event>): (r: Seat)
    requires Good(s)
    ensures Good(r)
  {
    if es == [] then s
    else
      var m := Run(s, es[..|es| - 1]);
      NextSound(m, es[|es| - 1]);
      Next(m, es[|es| - 1])
  }

  /** The tab with this id has been on the strip since the k-th event. */
  predicate Held(s: Seat, es: seq<Event>, id: Id, k: nat)
    requires Good(s)
  {
    forall j :: k <= j <= |es| ==> OnStrip(Run(s, es[..j]).strip, id)
  }

  /** The tab now holding this id declared `path`, and has been on the strip ever since. */
  predicate DeclaredInTenure(s: Seat, es: seq<Event>, id: Id, path: N.Path)
    requires Good(s)
  {
    exists k :: 0 <= k < |es| && Declares(es[k], id, path) && Held(s, es, id, k)
  }

  lemma HeldGrows(s: Seat, es: seq<Event>, e: Event, id: Id, k: nat)
    requires Good(s)
    ensures k <= |es| && Held(s, es, id, k) && OnStrip(Run(s, es + [e]).strip, id) ==> Held(s, es + [e], id, k)
  {
    hide Run, OnStrip, Good;
    var all := es + [e];
    if k <= |es| && Held(s, es, id, k) && OnStrip(Run(s, all).strip, id) {
      forall j | k <= j <= |all|
        ensures OnStrip(Run(s, all[..j]).strip, id)
      {
        if j <= |es| { assert all[..j] == es[..j]; } else { assert all[..j] == all; }
      }
    }
  }

  lemma TenureGrows(s: Seat, es: seq<Event>, e: Event, id: Id, path: N.Path)
    requires Good(s)
    ensures DeclaredInTenure(s, es, id, path) && OnStrip(Run(s, es + [e]).strip, id)
      ==> DeclaredInTenure(s, es + [e], id, path)
  {
    hide Run, Declares, OnStrip, Held, Good;
    if DeclaredInTenure(s, es, id, path) {
      var k :| 0 <= k < |es| && Declares(es[k], id, path) && Held(s, es, id, k);
      HeldGrows(s, es, e, id, k);
      assert (es + [e])[k] == es[k];
    }
  }

  lemma TenureStarts(s: Seat, es: seq<Event>, e: Event, id: Id, path: N.Path)
    requires Good(s) && Declares(e, id, path)
    ensures OnStrip(Run(s, es).strip, id) && OnStrip(Run(s, es + [e]).strip, id)
      ==> DeclaredInTenure(s, es + [e], id, path)
  {
    hide Run, Declares, OnStrip, Good;
    var all := es + [e];
    if OnStrip(Run(s, es).strip, id) && OnStrip(Run(s, all).strip, id) {
      forall j | |es| <= j <= |all|
        ensures OnStrip(Run(s, all[..j]).strip, id)
      {
        if j == |es| { assert all[..j] == es; } else { assert all[..j] == all; }
      }
      assert all[|es|] == e && Held(s, all, id, |es|);
    }
  }

  lemma RunStep(s: Seat, es: seq<Event>, e: Event)
    requires Good(s)
    ensures Run(s, es + [e]) == Next(Run(s, es), e)
  {
    assert (es + [e])[..|es|] == es;
  }

  lemma OwnedIsOn(s: Strip, id: Id)
    requires WellFormed(s) && Owned(s.tabs, id) != []
    ensures OnStrip(s, id)
  {
  }

  /** Whatever a history holds, its own tab declared, and declared since it joined the strip. */
  lemma {:induction false} OwnedInTenure(s: Seat, es: seq<Event>, id: Id, path: N.Path)
    requires Booted(s)
    ensures path in Owned(Run(s, es).strip.tabs, id) ==> DeclaredInTenure(s, es, id, path)
    decreases |es|
  {
    hide Run, Next, Owned, DeclaredInTenure, Declares;
    if es == [] {
      NothingOwned(s, id);
    } else if path in Owned(Run(s, es).strip.tabs, id) {
      var front, e := es[..|es| - 1], es[|es| - 1];
      assert es == front + [e];
      RunStep(s, front, e);
      var m := Run(s, front);
      NextSound(m, e);
      OwnedIsOn(Run(s, es).strip, id);
      if path in Owned(m.strip.tabs, id) {
        OwnedInTenure(s, front, id, path);
        TenureGrows(s, front, e, id, path);
      } else {
        TenureStarts(s, front, e, id, path);
      }
    }
  }

  lemma NothingOwned(s: Seat, id: Id)
    requires Booted(s)
    ensures Run(s, []) == s && Owned(s.strip.tabs, id) == []
  {
  }

  /** A queued target was declared by the very tab it waits for. */
  lemma {:induction false} PendingInTenure(s: Seat, es: seq<Event>)
    requires Booted(s)
    ensures var r := Run(s, es); r.pendingId != 0 ==> DeclaredInTenure(s, es, r.pendingId, r.pendingPath)
    decreases |es|
  {
    hide Run, Next, Owned, DeclaredInTenure, Declares, OwnersFollow;
    if es == [] {
      NothingOwned(s, 0);
    } else if Run(s, es).pendingId != 0 {
      var front, e := es[..|es| - 1], es[|es| - 1];
      assert es == front + [e];
      RunStep(s, front, e);
      var m, r := Run(s, front), Run(s, es);
      NextSound(m, e);
      if r.pendingId == m.pendingId && r.pendingPath == m.pendingPath {
        PendingInTenure(s, front);
      } else {
        OwnedInTenure(s, front, r.pendingId, r.pendingPath);
      }
      TenureGrows(s, front, e, r.pendingId, r.pendingPath);
    }
  }

  /** The main safety theorem: whatever the run, a nav-poll that is granted is answered with a path
      that the tab now holding the id declared itself, never one of an earlier holder, and is granted
      once. */
  lemma PollGivesOwnPath(s: Seat, es: seq<Event>, req: Request, raised: bool)
    requires Booted(s) && req.kind == KIND_NAV_POLL && req.replyTo != 0
    ensures var (r, ack) := Served(Run(s, es), req, raised);
            ack.applied ==>
              && ack.title != [] && DeclaredInTenure(s, es, req.id, ack.title)
              && r.pendingId == 0 && !Applied(r, req, raised).1
  {
    hide Run, OnStrip, Held;
    PendingInTenure(s, es);
  }

  // ---- the ack payload ----

  /** A request that is acked. */
  predicate Answered(e: Event) { e.Serve? && e.req.kind < REPLY_FLAG && e.req.replyTo != 0 }

  /** A granted poll that names no reply address: its path stays behind. */
  predicate Stranded(s: Seat, e: Event) {
    e.Serve? && e.req.kind == KIND_NAV_POLL && e.req.replyTo == 0 && Waiting(s, e.req.id)
  }

  lemma PayloadMoves(s: Seat, e: Event)
    requires Good(s)
    ensures Next(s, e).payload == if Answered(e) then [] else if Stranded(s, e) then s.pendingPath else s.payload
  {
    hide Closed, Opened, Titled, Navigated, FocusedOn, Performed, Queued, Kept, Without, OnStrip;
  }

  ghost predicate StrandedSince(s: Seat, es: seq<Event>, k: nat)
    requires Good(s) && k < |es|
  {
    Stranded(Run(s, es[..k]), es[k]) && forall j :: k < j < |es| ==> !Answered(es[j])
  }

  /** The documentation says a payload never leaks into another request's ack. It is left over after
      a run exactly when a poll without a reply address was granted and nothing has been acked since. */
  lemma {:induction false} PayloadLeftExactly(s: Seat, es: seq<Event>)
    requires Booted(s)
    ensures Run(s, es).payload != [] <==> exists k :: 0 <= k < |es| && StrandedSince(s, es, k)
    decreases |es|
  {
    hide Run, Next, Good, Stranded, Answered;
    BootedIsGood(s);
    if es == [] {
      NothingOwned(s, 0);
    } else {
      var front, e := es[..|es| - 1], es[|es| - 1];
      assert es == front + [e];
      RunStep(s, front, e);
      PayloadLeftExactly(s, front);
      PayloadMoves(Run(s, front), e);
      PendingPathThere(Run(s, front), e);
      forall k | 0 <= k < |front|
        ensures StrandedSince(s, es, k) <==> StrandedSince(s, front, k) && !Answered(e)
      {
        assert es[..k] == front[..k];
      }
      assert StrandedSince(s, es, |front|) <==> Stranded(Run(s, front), e);
    }
  }

  lemma BootedIsGood(s: Seat)
    requires Booted(s)
    ensures Good(s) && s.payload == []
  {
  }

  lemma PendingPathThere(s: Seat, e: Event)
    ensures Stranded(s, e) ==> s.pendingPath != [] && !Answered(e)
  {
  }

  /** A payload left behind goes out with the next applied request, whoever asked and for what; with none
      left behind only a poll is acked with a path. */
  lemma LeftPayloadIsAcked(s: Seat, req: Request, raised: bool)
    requires Good(s) && req.kind < REPLY_FLAG && req.kind != KIND_NAV_POLL && req.replyTo != 0
    ensures var (r, ack) := Served(s, req, raised);
            r.payload == [] && ack.title == if ack.applied then N.CutPath(s.payload) else []
  {
    hide Closed, Opened, Titled, Navigated, FocusedOn, Queued, Kept, OnStrip;
  }

  function FreshSeat(): Seat { Seat(EmptyStrip(), 0, [], [], [], 0, false, 0) }

  /** Window 1 joins, visits two places, is stepped back and polls without a reply address. */
  function StrandingRun(): seq<Event> {
    [Serve(Request(KIND_ATTACH, 1, 0, 7, [65]), true),
     Serve(Request(KIND_NAV_DECLARE, 1, 1, 7, [66]), true),
     Serve(Request(KIND_NAV_DECLARE, 1, 2, 7, [67]), true),
     StepFocused(true),
     Serve(Request(KIND_NAV_POLL, 1, 3, 0, []), true)]
  }

  /** Window 1 alone on the strip. */
  function Alone(n: N.Nav, id: Id, path: N.Path, payload: N.Path): Seat {
    FreshSeat().(strip := Strip([Tab(1, [65], GuessBin([65]), false, false, n)], 0, SplitNone, 0, []),
                 pendingId := id, pendingPath := path, payload := payload)
  }

  lemma FreshOpens()
    ensures Opened(EmptyStrip(), 1, [65]).tabs == [Tab(1, [65], GuessBin([65]), false, false, N.NoNav())]
    ensures Opened(EmptyStrip(), 1, [65]) == Alone(N.NoNav(), 0, [], []).strip
  {
    hide GuessBin, N.NoNav;
    assert IndexOf([], 1) == -1;
  }

  lemma FocusAlone(n: N.Nav)
    ensures FocusedOn(Alone(n, 0, [], []).strip, 1) == Alone(n, 0, [], []).strip
  {
    hide GuessBin;
    assert IndexOf(Alone(n, 0, [], []).strip.tabs, 1) == 0;
  }

  lemma AloneJoins()
    ensures Next(FreshSeat(), StrandingRun()[0]) == Alone(N.NoNav(), 0, [], [])
  {
    hide GuessBin, N.NoNav, Opened, FocusedOn, Navigated, Titled, Closing, Notified;
    FreshOpens();
    FocusAlone(N.NoNav());
  }

  lemma AloneDeclares(n: N.Nav, seqNo: byte, path: N.Path)
    requires N.Valid(n)
    ensures var s := Alone(n, 0, [], []);
            WellFormed(s.strip) && Next(s, Serve(Request(KIND_NAV_DECLARE, 1, seqNo, 7, path), true))
                                   == Alone(N.Recorded(n, path), 0, [], [])
  {
    hide GuessBin, N.Recorded, Opened, FocusedOn, Titled, Closing, Notified;
    var tabs := Alone(n, 0, [], []).strip.tabs;
    assert IndexOf(tabs, 1) == 0;
    assert tabs[0 := tabs[0].(nav := N.Recorded(n, path))] == Alone(N.Recorded(n, path), 0, [], []).strip.tabs;
  }

  lemma AloneSteps(n: N.Nav)
    requires N.Valid(n) && N.CanBack(n)
    ensures var s := Alone(n, 0, [], []);
            WellFormed(s.strip) && Next(s, StepFocused(true)) == Alone(N.Backed(n), 1, N.Current(N.Backed(n)), [])
  {
    hide GuessBin;
    var tabs := Alone(n, 0, [], []).strip.tabs;
    assert IndexOf(tabs, 1) == 0;
    assert tabs[0 := tabs[0].(nav := N.Backed(n))] == Alone(N.Backed(n), 0, [], []).strip.tabs;
  }

  lemma AlonePolls(n: N.Nav, path: N.Path)
    requires N.Valid(n) && path != []
    ensures var s := Alone(n, 1, path, []);
            WellFormed(s.strip) && Next(s, StrandingRun()[4]) == Alone(n, 0, [], path)
  {
    hide GuessBin;
  }

  lemma TwoPlaces()
    ensures N.Valid(N.Recorded(N.NoNav(), [66]))
    ensures var n2 := N.Recorded(N.Recorded(N.NoNav(), [66]), [67]);
            N.Valid(n2) && N.CanBack(n2) && N.Valid(N.Backed(n2)) && N.Current(N.Backed(n2)) == [66]
  {
    hide N.Recorded;
    N.RecordedEntries(N.NoNav(), [66]);
    var n1 := N.Recorded(N.NoNav(), [66]);
    assert N.Entries(n1) == [[66]];
    N.RecordedEntries(n1, [67]);
    var n2 := N.Recorded(n1, [67]);
    assert N.Entries(n2) == [[66], [67]];
    assert N.Current(N.Backed(n2)) == N.Entries(n2)[0];
  }

  lemma StrandingEnds()
    ensures Booted(FreshSeat()) && Run(FreshSeat(), StrandingRun()).payload == [66]
  {
    hide Run, Next, Alone, N.Recorded, N.Valid;
    var s, es := FreshSeat(), StrandingRun();
    RunNone(s);
    assert [] + [es[0]] == es[..1] && es[..1] + [es[1]] == es[..2] && es[..2] + [es[2]] == es[..3];
    assert es[..3] + [es[3]] == es[..4] && es[..4] + [es[4]] == es;
    RunStep(s, [], es[0]);
    RunStep(s, es[..1], es[1]);
    RunStep(s, es[..2], es[2]);
    RunStep(s, es[..3], es[3]);
    RunStep(s, es[..4], es[4]);
    TwoPlaces();
    AloneJoins();
    var n1 := N.Recorded(N.NoNav(), [66]);
    var n2 := N.Recorded(n1, [67]);
    AloneDeclares(N.NoNav(), 1, [66]);
    AloneDeclares(n1, 2, [67]);
    AloneSteps(n2);
    AlonePolls(N.Backed(n2), [66]);
    AloneIs(N.Backed(n2), [66]);
  }

  lemma AloneIs(n: N.Nav, payload: N.Path)
    ensures Alone(n, 0, [], payload).payload == payload
  {
  }

  /** So the ack of an unrelated request can carry a path: window 2's attach is told window 1's. */
  lemma PayloadCanStray()
    ensures Booted(FreshSeat())
    ensures Served(Run(FreshSeat(), StrandingRun()), Request(KIND_ATTACH, 2, 0, 9, [68]), true).1.title == [66]
  {
    hide Run, GuessBin, StrandingRun, FreshSeat;
    StrandingEnds();
    LeftPayloadIsAcked(Run(FreshSeat(), StrandingRun()), Request(KIND_ATTACH, 2, 0, 9, [68]), true);
  }

  lemma RunNone(s: Seat)
    requires Good(s)
    ensures Run(s, []) == s
  {
  }
}
