/** Saving the strip and restoring it (user/go/gotabwm/session.go and applyTabsV2 in tabsv2.go): which
    tabs a session file may record, and what comes back over any number of boots. */
module Session {
  import opened Bytes
  import opened Strip
  import opened TabsCodec
  import N = NavRing
  import T = TabStrips

  /** Restored rows get ids from here on; live windows have one-byte ids below. */
  const SESSION_ID_BASE: int := 0x100

  // ---- restoring ----

  function RestoredTab(i: nat, r: Record): Tab
    requires i < MAX_TABS
  {
    Tab(SESSION_ID_BASE + i, r.title, r.bin, r.pinned, r.frozen, N.NoNav())
  }

  function RestoredTabs(recs: seq<Record>): (tabs: seq<Tab>)
    requires |recs| <= MAX_TABS
    ensures |tabs| == |recs| && forall i :: 0 <= i < |recs| ==> tabs[i] == RestoredTab(i, recs[i])
  {
    seq(|recs|, i requires 0 <= i < |recs| => RestoredTab(i, recs[i]))
  }

  function Records(s: TabsCodec.Session): (r: seq<Record>)
    ensures |r| == |s.rows| && forall i :: 0 <= i < |r| ==> r[i] == RecordOf(s.rows[i])
  {
    seq(|s.rows|, i requires 0 <= i < |s.rows| => RecordOf(s.rows[i]))
  }

  /** The strip a file restores; without an active row the first tab is focused. */
  function Restored(b: seq<byte>): Strip
    requires Readable(b)
  {
    var s := SessionOf(b);
    Strip(RestoredTabs(Records(s)), if s.active.ActiveAt? then s.active.i else 0, SplitNone, 0, [])
  }

  lemma RestoredFits(b: seq<byte>)
    requires Readable(b)
    ensures WellFormed(Restored(b))
  {
  }

  /** A saved strip comes back with its order, labels, executables, badges and focus; a focus off the strip,
      which is how a recorded strip says it has none, comes back as the first tab. */
  lemma RestoreUndoesSave(s: Strip, seqNo: nat, rest: seq<byte>)
    requires |s.tabs| <= MAX_TABS && seqNo < 0x1_0000
    requires forall i :: 0 <= i < |s.tabs| ==> RowFits(RowOf(s.tabs[i]))
    ensures var b := FileOf(SessionFor(s, seqNo)) + rest;
            && Readable(b) && SessionOf(b).seqNo == seqNo
            && var r := Restored(b);
               |r.tabs| == |s.tabs| && r.focus == (if 0 <= s.focus < |s.tabs| then s.focus else 0)
               && forall i :: 0 <= i < |r.tabs| ==>
                    r.tabs[i] == s.tabs[i].(id := SESSION_ID_BASE + i, nav := N.NoNav())
  {
    hide RowFits, FileOf;
    var session := SessionFor(s, seqNo);
    FileReads(session, rest);
    var b := FileOf(session) + rest;
    forall i | 0 <= i < |s.tabs|
      ensures Restored(b).tabs[i] == s.tabs[i].(id := SESSION_ID_BASE + i, nav := N.NoNav())
    {
      FlagsRead(s.tabs[i]);
    }
  }

  lemma FlagsRead(t: Tab)
    ensures RecordOf(RowOf(t)) == Record(t.title, t.bin, t.pinned, t.frozen)
  {
  }

  // ---- what may be recorded ----

  /** The tabs of this boot, their histories left behind. */
  function LiveTabs(tabs: seq<Tab>): seq<Tab> {
    if tabs == [] then []
    else
      var n := |tabs| - 1;
      var live := LiveTabs(tabs[..n]);
      if tabs[n].id < SESSION_ID_BASE then live + [tabs[n].(nav := N.NoNav())] else live
  }

  /** The strip a session file may record; a focus on a restored row is recorded as none. */
  function LiveStrip(s: Strip): Strip
    requires FocusFits(s)
  {
    var live := LiveTabs(s.tabs);
    Strip(live, if s.tabs == [] then -1 else IndexOf(live, FocusedId(s)), SplitNone, 0, [])
  }

  lemma {:induction false} LiveMembers(tabs: seq<Tab>)
    ensures forall t :: t in LiveTabs(tabs) ==> t.id < SESSION_ID_BASE
    ensures forall t :: t in LiveTabs(tabs) ==> exists u :: u in tabs && t == u.(nav := N.NoNav())
    ensures forall u :: u in tabs && u.id < SESSION_ID_BASE ==> u.(nav := N.NoNav()) in LiveTabs(tabs)
    ensures |LiveTabs(tabs)| <= |tabs|
  {
    if tabs != [] {
      var n := |tabs| - 1;
      LiveMembers(tabs[..n]);
      assert tabs == tabs[..n] + [tabs[n]];
    }
  }

  /** No recorded tab has the id of a tab further right. */
  lemma LiveNotThere(tabs: seq<Tab>, i: nat)
    requires Distinct(tabs) && i < |tabs|
    ensures forall k :: 0 <= k < |LiveTabs(tabs[..i])| ==> LiveTabs(tabs[..i])[k].id != tabs[i].id
  {
    LiveMembers(tabs[..i]);
    var live := LiveTabs(tabs[..i]);
    hide LiveTabs;
    forall k | 0 <= k < |live|
      ensures live[k].id != tabs[i].id
    {
      assert live[k] in live;
      var u :| u in tabs[..i] && live[k] == u.(nav := N.NoNav());
    }
  }

  lemma LiveStaysPut(tabs: seq<Tab>, t: Tab)
    requires tabs != [] && t in LiveTabs(tabs[..|tabs| - 1])
    ensures 0 <= IndexOf(tabs, t.id) == IndexOf(tabs[..|tabs| - 1], t.id) < |tabs| - 1
  {
    hide IndexOf, LiveTabs;
    var front := tabs[..|tabs| - 1];
    LiveMembers(front);
    var u :| u in front && t == u.(nav := N.NoNav());
    IndexInFront(tabs, t.id);
  }

  /** And the recorded tabs keep the order of the strip. */
  lemma {:induction false} LiveInOrder(tabs: seq<Tab>)
    requires Distinct(tabs)
    ensures InOrder(tabs, LiveTabs(tabs))
  {
    if tabs != [] {
      var n := |tabs| - 1;
      var live := LiveTabs(tabs[..n]);
      LiveInOrder(tabs[..n]);
      LiveStep(tabs, n);
      assert tabs[..n + 1] == tabs;
      hide IndexOf, LiveTabs, N.NoNav, Distinct;
      forall k | 0 <= k < |live|
        ensures 0 <= IndexOf(tabs, live[k].id) == IndexOf(tabs[..n], live[k].id) < n
      {
        LiveStaysPut(tabs, live[k]);
      }
      IndexIs(tabs, n);
    }
  }

  lemma FitsOneMore(tabs: seq<Tab>, t: Tab)
    requires TabsFit(tabs) && |tabs| < MAX_TABS && t.id != 0 && N.Valid(t.nav)
    requires forall k :: 0 <= k < |tabs| ==> tabs[k].id != t.id
    ensures TabsFit(tabs + [t])
  {
  }

  lemma {:induction false} LiveFits(tabs: seq<Tab>)
    requires TabsFit(tabs)
    ensures TabsFit(LiveTabs(tabs))
  {
    if tabs != [] {
      var n := |tabs| - 1;
      LiveFits(tabs[..n]);
      LiveMembers(tabs[..n]);
      LiveNotThere(tabs, n);
      if tabs[n].id < SESSION_ID_BASE {
        FitsOneMore(LiveTabs(tabs[..n]), tabs[n].(nav := N.NoNav()));
      }
    }
  }

  lemma LiveStep(tabs: seq<Tab>, i: nat)
    requires i < |tabs|
    ensures var live, t := LiveTabs(tabs[..i]), tabs[i];
            LiveTabs(tabs[..i + 1]) == if t.id < SESSION_ID_BASE then live + [t.(nav := N.NoNav())] else live
  {
    assert tabs[..i + 1][..i] == tabs[..i];
  }

  /** A live tab joins the recorded strip: its id is not there yet and there is room. */
  lemma LiveJoins(tabs: seq<Tab>, i: nat)
    requires TabsFit(tabs) && i < |tabs| && tabs[i].id < SESSION_ID_BASE
    ensures var s := Strip(LiveTabs(tabs[..i]), 0, SplitNone, 0, []);
            var t := tabs[i];
            && Joins(s, t.id)
            && Opened(s, t.id, t.title) == s.(tabs := s.tabs + [NewTab(t.id, t.title)])
            && NewTab(t.id, t.title).(bin := t.bin, pinned := t.pinned, frozen := t.frozen) == t.(nav := N.NoNav())
            && LiveTabs(tabs[..i + 1]) == s.tabs + [t.(nav := N.NoNav())]
  {
    hide GuessBin;
    LiveStep(tabs, i);
    LiveMembers(tabs[..i]);
    LiveNotThere(tabs, i);
  }

  /** One turn of the row loop: a live tab joins the recorded strip, a restored one is passed over. */
  method AddRow(out: T.TabStrip, t0: Tab, ghost all: seq<Tab>, ghost i: nat)
    requires out.Valid() && TabsFit(all) && i < |all| && all[i] == t0
    requires out.Now() == Strip(LiveTabs(all[..i]), 0, SplitNone, 0, [])
    modifies out, out.tabs
    ensures out.Valid() && out.Now() == Strip(LiveTabs(all[..i + 1]), 0, SplitNone, 0, [])
  {
    hide LiveTabs, WellFormed, IndexOf, Opened, Joins, NewTab, N.NoNav, Distinct;
    if t0.id as int >= SESSION_ID_BASE {
      LiveStep(all, i);
      return;
    }
    LiveJoins(all, i);
    var joined := out.OpenTab(t0.id, t0.title);
    assert joined; // so the source's fallback to an empty strip never runs
    out.SetRecord(out.count - 1, t0.bin, t0.pinned, t0.frozen);
  }

  method SessionRows(strip: T.TabStrip) returns (out: T.TabStrip)
    requires strip.Valid()
    ensures fresh(out) && fresh(out.tabs) && fresh(out.closed)
    ensures out.Fits() && out.Now() == LiveStrip(strip.Now())
  {
    hide LiveTabs, WellFormed, IndexOf, Opened, Joins, NewTab, N.NoNav;
    ghost var all := strip.Now().tabs;
    StripParts(strip.Now());
    out := new T.TabStrip();
    var fid, has := strip.Focused();
    LiveNone();
    for i := 0 to strip.count
      invariant fresh(out) && fresh(out.tabs) && fresh(out.closed)
      invariant strip.Valid() && strip.Now().tabs == all
      invariant out.Valid() && out.Now() == Strip(LiveTabs(all[..i]), 0, SplitNone, 0, [])
    {
      assert strip.tabs[i] == all[i];
      AddRow(out, strip.tabs[i], all, i);
    }
    assert all[..strip.count] == all;
    out.focus := -1;
    if has {
      var i := out.Index(fid);
      if i >= 0 {
        out.focus := i;
      }
    }
  }

  lemma StripParts(s: Strip)
    requires WellFormed(s)
    ensures TabsFit(s.tabs) && FocusFits(s) && |s.tabs| <= MAX_TABS
    ensures forall i :: 0 <= i < |s.tabs| ==> s.tabs[i].id != 0
  {
  }

  lemma LiveNone()
    ensures LiveTabs([]) == []
  {
  }

  /** One turn of the restore loop. */
  method AddRecord(strip: T.TabStrip, recs: seq<Record>, i: nat)
    requires strip.Valid() && i < |recs| <= MAX_TABS
    requires strip.Now() == Strip(RestoredTabs(recs[..i]), 0, SplitNone, 0, [])
    modifies strip, strip.tabs
    ensures strip.Valid() && strip.Now() == Strip(RestoredTabs(recs[..i + 1]), 0, SplitNone, 0, [])
  {
    hide WellFormed, IndexOf, Opened, Joins, NewTab, N.NoNav, RestoredTab;
    RestoredJoins(recs, i);
    var joined := strip.OpenTab(SESSION_ID_BASE + i, recs[i].title);
    assert joined; // so the source's second refusal never happens
    assert |strip.Now().tabs| == strip.count == i + 1;
    strip.SetRecord(i, recs[i].bin, recs[i].pinned, recs[i].frozen);
  }

  /** Replaces the strip by the file's rows; an unreadable file leaves it as it was. */
  method ApplyTabsV2(strip: T.TabStrip, raw: seq<byte>) returns (seqNo: nat, ok: bool)
    requires strip.Valid()
    modifies strip, strip.tabs, strip.closed
    ensures strip.Valid() && ok == Readable(raw)
    ensures seqNo == if ok then SessionOf(raw).seqNo else 0
    ensures strip.Now() == if ok then Restored(raw) else old(strip.Now())
  {
    hide SessionOf, WellFormed, IndexOf, Opened, Joins, NewTab, N.NoNav, RestoredTab;
    var n, recs, active, hasActive, readable := DecodeTabsV2(raw);
    if !readable {
      return 0, false;
    }
    FileCounts(raw);
    strip.Reset();
    for i := 0 to |recs|
      invariant strip.Valid() && strip.Now() == Strip(RestoredTabs(recs[..i]), 0, SplitNone, 0, [])
    {
      AddRecord(strip, recs, i);
    }
    assert recs[..|recs|] == recs && recs == Records(SessionOf(raw));
    if hasActive && 0 <= active < strip.count {
      strip.focus := active;
    }
    RestoredFits(raw);
    return n, true;
  }

  lemma FileCounts(b: seq<byte>)
    requires Readable(b)
    ensures |SessionOf(b).rows| <= MAX_TABS
    ensures SessionOf(b).active.ActiveAt? ==> 0 <= SessionOf(b).active.i < |SessionOf(b).rows|
  {
  }

  lemma RestoredJoins(recs: seq<Record>, i: nat)
    requires i < |recs| <= MAX_TABS
    ensures var s := Strip(RestoredTabs(recs[..i]), 0, SplitNone, 0, []);
            var id: Id := SESSION_ID_BASE + i;
            && Joins(s, id)
            && Opened(s, id, recs[i].title) == s.(tabs := s.tabs + [NewTab(id, recs[i].title)])
            && RestoredTabs(recs[..i + 1]) == s.tabs + [NewTab(id, recs[i].title).(
                 bin := recs[i].bin, pinned := recs[i].pinned, frozen := recs[i].frozen)]
  {
    hide GuessBin;
  }

  // ---- over boots ----

  datatype Disk = Missing | Holds(bytes: seq<byte>)

  /** What a boot found; only a missing file asks for the first-boot workspace. */
  datatype LoadState = SessionMissing | SessionRestored | SessionCorrupt

  /** The running seat: its strip, the next sequence number and the session file on disk. */
  datatype World = World(strip: Strip, seqNo: nat, disk: Disk)

  datatype Act = Do(op: Op) | Save(accepted: bool)

  /** Windows declare themselves with a one-byte id. */
  predicate Possible(a: Act) { a.Do? && a.op.Open? ==> a.op.id as int < SESSION_ID_BASE }

  /** Boot: a readable file is restored, a corrupt one leaves the strip empty. */
  function BootFrom(disk: Disk): (w: World)
    ensures WellFormed(w.strip) && w.seqNo < 0x1_0000 && w.disk == disk
  {
    if disk.Holds? && Readable(disk.bytes) then
      RestoredFits(disk.bytes);
      World(Restored(disk.bytes), (SessionOf(disk.bytes).seqNo + 1) % 0x1_0000, disk)
    else World(EmptyStrip(), 1, disk)
  }

  function FileFrom(w: World): seq<byte>
    requires WellFormed(w.strip) && w.seqNo < 0x1_0000
  {
    LiveMembers(w.strip.tabs);
    FileOf(SessionFor(LiveStrip(w.strip), w.seqNo))
  }

  /** Booting from a file that was just written gives the live tabs back in their order, renumbered, the
      same one focused; the first one when the focus was on a restored row. */
  lemma SaveThenBoot(w: World)
    requires WellFormed(w.strip) && w.seqNo < 0x1_0000
    requires forall t :: t in LiveTabs(w.strip.tabs) ==> RowFits(RowOf(t))
    ensures var live, r := LiveTabs(w.strip.tabs), BootFrom(Holds(FileFrom(w)));
            && r.seqNo == (w.seqNo + 1) % 0x1_0000 && |r.strip.tabs| == |live|
            && (forall i :: 0 <= i < |live| ==> r.strip.tabs[i] == live[i].(id := SESSION_ID_BASE + i))
            && var f := if w.strip.tabs == [] then -1 else IndexOf(live, FocusedId(w.strip));
               r.strip.focus == if f >= 0 then f else 0
  {
    hide RowFits, RowOf, FileOf, LiveTabs, IndexOf, SessionFor, Readable, SessionOf, Restored;
    LiveMembers(w.strip.tabs);
    var live := LiveTabs(w.strip.tabs);
    forall i | 0 <= i < |live|
      ensures RowFits(RowOf(live[i])) && live[i].nav == N.NoNav()
    {
      assert live[i] in live;
    }
    RestoreUndoesSave(LiveStrip(w.strip), w.seqNo, []);
    assert FileFrom(w) + [] == FileFrom(w);
  }

  /** A save writes the live rows, and refuses when there are none. */
  function Saved(w: World, accepted: bool): World
    requires WellFormed(w.strip) && w.seqNo < 0x1_0000
  {
    if LiveTabs(w.strip.tabs) == [] || !accepted then w
    else w.(seqNo := (w.seqNo + 1) % 0x1_0000, disk := Holds(FileFrom(w)))
  }

  function After(w: World, acts: seq<Act>): (r: World)
    requires WellFormed(w.strip) && w.seqNo < 0x1_0000
    ensures WellFormed(r.strip) && r.seqNo < 0x1_0000
  {
    if acts == [] then w
    else
      var m := After(w, acts[..|acts| - 1]);
      match acts[|acts| - 1]
      case Do(op) => StepKeeps(m.strip, op); m.(strip := Performed(m.strip, op))
      case Save(accepted) => Saved(m, accepted)
  }

  /** The seat's session variables and the host file, which is only ever replaced whole. */
  class Keeper {
    var sessionSeq: nat
    var sessionDirty: bool
    var disk: Disk

    constructor (found: Disk)
      ensures sessionSeq == 1 && !sessionDirty && disk == found
    {
      sessionSeq, sessionDirty, disk := 1, false, found;
    }

    /** `accepted` is whether the host took the file. */
    method WriteSession(strip: T.TabStrip, accepted: bool) returns (ok: bool)
      requires strip.Valid() && sessionSeq < 0x1_0000
      modifies this
      ensures World(strip.Now(), sessionSeq, disk) == Saved(old(World(strip.Now(), sessionSeq, disk)), accepted)
      ensures ok == (accepted && LiveTabs(strip.Now().tabs) != []) && sessionDirty == (old(sessionDirty) && !ok)
    {
      hide LiveTabs, FileOf, WellFormed;
      StripParts(strip.Now());
      var live := SessionRows(strip);
      if live.count == 0 {
        return false;
      }
      var raw := EncodeTabsV2(live, sessionSeq);
      if !accepted {
        return false;
      }
      disk := Holds(raw);
      sessionDirty := false;
      sessionSeq := (sessionSeq + 1) % 0x1_0000;
      return true;
    }

    /** After a mutation the flag says exactly whether the change is still unsaved. */
    method NoteSessionMutation(strip: T.TabStrip, accepted: bool) returns (ok: bool)
      requires strip.Valid() && sessionSeq < 0x1_0000
      modifies this
      ensures World(strip.Now(), sessionSeq, disk) == Saved(old(World(strip.Now(), sessionSeq, disk)), accepted)
      ensures ok == (accepted && LiveTabs(strip.Now().tabs) != []) && sessionDirty == !ok
    {
      sessionDirty := true;
      ok := WriteSession(strip, accepted);
    }

    method LoadSession(strip: T.TabStrip) returns (state: LoadState)
      requires strip.Valid() && strip.Now() == EmptyStrip() && sessionSeq == 1
      modifies this`sessionSeq, strip, strip.tabs, strip.closed
      ensures strip.Valid() && World(strip.Now(), sessionSeq, disk) == BootFrom(disk)
      ensures state == SessionMissing <==> disk == Missing
      ensures state == SessionRestored <==> disk.Holds? && Readable(disk.bytes)
    {
      if disk.Missing? {
        return SessionMissing;
      }
      var n, restored := ApplyTabsV2(strip, disk.bytes);
      if !restored {
        return SessionCorrupt;
      }
      sessionSeq := (n + 1) % 0x1_0000;
      return SessionRestored;
    }
  }

  // ---- whose labels a file records ----

  predicate Does(a: Act, id: Id) { a.Do? && (a.op.Open? || a.op.Close? || a.op.Pin? || a.op.Freeze?) && a.op.id == id }

  /** The title these acts gave a tab last. */
  function TitleGiven(acts: seq<Act>, id: Id): Text {
    if acts == [] then []
    else
      var a := acts[|acts| - 1];
      if a.Do? && GivesTitle(a.op, id) then a.op.title else TitleGiven(acts[..|acts| - 1], id)
  }

  /** A title it was opened with since it was last closed stands for this executable. */
  predicate BinGiven(acts: seq<Act>, id: Id, bin: Text) {
    if acts == [] then false
    else
      var a := acts[|acts| - 1];
      if Does(a, id) && a.op.Close? then false
      else if Does(a, id) && a.op.Open? && GuessBin(a.op.title) == bin then true
      else BinGiven(acts[..|acts| - 1], id, bin)
  }

  /** It was pinned, and neither unpinned nor closed after that. */
  predicate PinGiven(acts: seq<Act>, id: Id) {
    if acts == [] then false
    else
      var a := acts[|acts| - 1];
      if Does(a, id) && a.op.Close? then false
      else if Does(a, id) && a.op.Pin? then a.op.on
      else PinGiven(acts[..|acts| - 1], id)
  }

  /** It was frozen, and neither thawed nor closed after that. */
  predicate FreezeGiven(acts: seq<Act>, id: Id) {
    if acts == [] then false
    else
      var a := acts[|acts| - 1];
      if Does(a, id) && a.op.Close? then false
      else if Does(a, id) && a.op.Freeze? then a.op.on
      else FreezeGiven(acts[..|acts| - 1], id)
  }

  /** Everything a record says of this tab goes back to these acts. */
  predicate Told(acts: seq<Act>, t: Tab) {
    && t.title == TitleGiven(acts, t.id) && BinGiven(acts, t.id, t.bin)
    && (t.pinned ==> PinGiven(acts, t.id)) && (t.frozen ==> FreezeGiven(acts, t.id))
  }

  lemma ToldStep(was: seq<Tab>, acts: seq<Act>, op: Op, t: Tab)
    requires Tells(was, op, t)
    requires var i := IndexOf(was, t.id); i >= 0 ==> Told(acts, was[i])
    ensures Told(acts + [Do(op)], t)
  {
    hide IndexOf, GuessBin;
    assert (acts + [Do(op)])[..|acts|] == acts;
  }

  lemma ToldSave(acts: seq<Act>, a: Act, t: Tab)
    requires Told(acts, t) && a.Save?
    ensures Told(acts + [a], t)
  {
    assert (acts + [a])[..|acts|] == acts;
  }

  /** Within a boot every live tab has its title, executable and badges from acts of that boot. */
  lemma {:induction false} LiveWereTold(found: Disk, acts: seq<Act>, t: Tab)
    requires forall k :: 0 <= k < |acts| ==> Possible(acts[k])
    requires t.id as int < SESSION_ID_BASE
    ensures t in After(BootFrom(found), acts).strip.tabs ==> Told(acts, t)
    decreases |acts|
  {
    hide Performed, IndexOf, Saved, Told, BootFrom, Tells;
    if acts == [] {
      BootIds(found, t);
    } else if t in After(BootFrom(found), acts).strip.tabs {
      var front, last := acts[..|acts| - 1], acts[|acts| - 1];
      assert acts == front + [last];
      var m := After(BootFrom(found), front);
      if last.Do? {
        OpTells(m.strip, last.op, t);
        var i := IndexOf(m.strip.tabs, t.id);
        if i >= 0 { LiveWereTold(found, front, m.strip.tabs[i]); }
        ToldStep(m.strip.tabs, front, last.op, t);
      } else {
        SavedStrip(m, last.accepted);
        LiveWereTold(found, front, t);
        ToldSave(front, last, t);
      }
    }
  }

  lemma SavedStrip(w: World, accepted: bool)
    requires WellFormed(w.strip) && w.seqNo < 0x1_0000
    ensures Saved(w, accepted).strip == w.strip
  {
  }

  lemma BootIds(found: Disk, t: Tab)
    ensures t in BootFrom(found).strip.tabs ==> t.id as int >= SESSION_ID_BASE
  {
  }

  predicate OpenedIn(acts: seq<Act>, id: Id) {
    exists k :: 0 <= k < |acts| && acts[k].Do? && acts[k].op.Open? && acts[k].op.id == id
  }

  lemma {:induction false} GivenWasOpened(acts: seq<Act>, id: Id, bin: Text)
    requires BinGiven(acts, id, bin)
    ensures OpenedIn(acts, id)
  {
    var front, last := acts[..|acts| - 1], acts[|acts| - 1];
    if Does(last, id) && last.op.Open? {
      assert acts[|acts| - 1].op.id == id;
    } else {
      GivenWasOpened(front, id, bin);
      var k :| 0 <= k < |front| && front[k].Do? && front[k].op.Open? && front[k].op.id == id;
      assert acts[k] == front[k];
    }
  }

  /** Within a boot every live tab was opened in that boot. */
  lemma LiveWereOpened(found: Disk, acts: seq<Act>, id: Id)
    requires forall k :: 0 <= k < |acts| ==> Possible(acts[k])
    ensures OnStrip(After(BootFrom(found), acts).strip, id) ==> id as int >= SESSION_ID_BASE || OpenedIn(acts, id)
  {
    hide After, BootFrom, IndexOf, TitleGiven, BinGiven, OpenedIn, Possible;
    var tabs := After(BootFrom(found), acts).strip.tabs;
    var i := IndexOf(tabs, id);
    if i >= 0 && (id as int) < SESSION_ID_BASE {
      LiveWereTold(found, acts, tabs[i]);
      GivenWasOpened(acts, id, tabs[i].bin);
    }
  }

  // ---- whose rows a file holds ----

  /** A save the host took, with a tab to record. */
  predicate Writes(found: Disk, acts: seq<Act>, k: nat) {
    k < |acts| && acts[k] == Save(true) && LiveTabs(After(BootFrom(found), acts[..k]).strip.tabs) != []
  }

  /** The last of them. */
  predicate WritesLast(found: Disk, acts: seq<Act>, k: nat) {
    k < |acts| && Writes(found, acts, k) && forall j :: k < j < |acts| ==> !Writes(found, acts, j)
  }

  /** The file these acts' last such save wrote: the live tabs there were at that moment. */
  predicate WrittenBy(b: seq<byte>, found: Disk, acts: seq<Act>, k: nat) {
    && WritesLast(found, acts, k)
    && var w := After(BootFrom(found), acts[..k]);
       b == FileFrom(w) && forall t :: t in LiveTabs(w.strip.tabs) ==> Told(acts[..k], t)
  }

  lemma WritesEarlier(found: Disk, acts: seq<Act>, k: nat)
    requires k + 1 < |acts|
    ensures Writes(found, acts, k) == Writes(found, acts[..|acts| - 1], k)
  {
    assert acts[..|acts| - 1][..k] == acts[..k];
  }

  lemma RecordsTold(found: Disk, acts: seq<Act>, t: Tab)
    requires forall k :: 0 <= k < |acts| ==> Possible(acts[k])
    ensures t in LiveTabs(After(BootFrom(found), acts).strip.tabs) ==> Told(acts, t)
  {
    hide LiveTabs, After, BootFrom, Possible, TitleGiven, BinGiven, PinGiven, FreezeGiven;
    var tabs := After(BootFrom(found), acts).strip.tabs;
    if t in LiveTabs(tabs) {
      LiveMembers(tabs);
      var u :| u in tabs && t == u.(nav := N.NoNav());
      LiveWereTold(found, acts, u);
    }
  }

  lemma LastStays(found: Disk, acts: seq<Act>, b: seq<byte>, k: nat)
    requires acts != [] && !Writes(found, acts, |acts| - 1) && WrittenBy(b, found, acts[..|acts| - 1], k)
    ensures WrittenBy(b, found, acts, k)
  {
    hide Writes, Told, After, LiveTabs, FileFrom;
    var front := acts[..|acts| - 1];
    WritesEarlier(found, acts, k);
    forall j | k < j < |acts|
      ensures !Writes(found, acts, j)
    {
      if j < |acts| - 1 { WritesEarlier(found, acts, j); }
    }
    assert front[..k] == acts[..k];
  }

  lemma LastDisk(found: Disk, acts: seq<Act>)
    requires acts != []
    ensures var n := |acts| - 1;
            var w := After(BootFrom(found), acts[..n]);
            After(BootFrom(found), acts).disk == if Writes(found, acts, n) then Holds(FileFrom(w)) else w.disk
  {
    hide BootFrom, LiveTabs, Performed, FileFrom;
  }

  lemma LastWrites(found: Disk, acts: seq<Act>)
    requires acts != [] && Writes(found, acts, |acts| - 1)
    requires forall k :: 0 <= k < |acts| ==> Possible(acts[k])
    ensures WrittenBy(FileFrom(After(BootFrom(found), acts[..|acts| - 1])), found, acts, |acts| - 1)
  {
    hide Writes, Told, After, LiveTabs, FileFrom, Possible;
    var n := |acts| - 1;
    forall t | t in LiveTabs(After(BootFrom(found), acts[..n]).strip.tabs)
      ensures Told(acts[..n], t)
    {
      RecordsTold(found, acts[..n], t);
    }
  }

  /** One boot leaves the file alone, or leaves what its last save wrote. */
  lemma {:induction false} BootRecordsItsOwn(found: Disk, acts: seq<Act>)
    requires forall k :: 0 <= k < |acts| ==> Possible(acts[k])
    ensures var d := After(BootFrom(found), acts).disk;
            || (d == found && forall k :: 0 <= k < |acts| ==> !Writes(found, acts, k))
            || (d.Holds? && exists k: nat :: WrittenBy(d.bytes, found, acts, k))
    decreases |acts|
  {
    hide After, Writes, WrittenBy, Possible, FileFrom;
    if acts == [] {
      NoActs(found);
    } else {
      var n := |acts| - 1;
      var front := acts[..n];
      LastDisk(found, acts);
      if Writes(found, acts, n) {
        LastWrites(found, acts);
      } else {
        BootRecordsItsOwn(found, front);
        var d := After(BootFrom(found), front).disk;
        if d.Holds? && exists k: nat :: WrittenBy(d.bytes, found, front, k) {
          var k: nat :| WrittenBy(d.bytes, found, front, k);
          LastStays(found, acts, d.bytes, k);
        } else {
          forall k | 0 <= k < n
            ensures !Writes(found, acts, k)
          {
            WritesEarlier(found, acts, k);
          }
        }
      }
    }
  }

  lemma NoActs(found: Disk)
    ensures After(BootFrom(found), []).disk == found
  {
  }

  function Boots(disk: Disk, boots: seq<seq<Act>>): Disk {
    if boots == [] then disk
    else After(BootFrom(Boots(disk, boots[..|boots| - 1])), boots[|boots| - 1]).disk
  }

  /** The file is what some save of boot `m` wrote: the live tabs of that boot at that moment, with the
      labels acts of that boot gave them. */
  ghost predicate FromBoot(b: seq<byte>, disk: Disk, boots: seq<seq<Act>>, m: nat) {
    m < |boots| && exists k: nat :: WrittenBy(b, Boots(disk, boots[..m]), boots[m], k)
  }

  /** Over any number of boots the file never piles up restored rows: it is the file there was in the
      beginning, or records nothing but tabs that one single boot opened itself. */
  lemma {:induction false} RestoredRowsNeverPileUp(disk: Disk, boots: seq<seq<Act>>)
    requires forall m, k :: 0 <= m < |boots| && 0 <= k < |boots[m]| ==> Possible(boots[m][k])
    ensures var d := Boots(disk, boots); d == disk || (d.Holds? && exists m: nat :: FromBoot(d.bytes, disk, boots, m))
    decreases |boots|
  {
    hide After, WrittenBy, Possible, Writes;
    if boots != [] {
      var n := |boots| - 1;
      RestoredRowsNeverPileUp(disk, boots[..n]);
      var before := Boots(disk, boots[..n]);
      BootRecordsItsOwn(before, boots[n]);
      var d := Boots(disk, boots);
      if d.Holds? && exists k: nat :: WrittenBy(d.bytes, before, boots[n], k) {
        assert FromBoot(d.bytes, disk, boots, n);
      } else if before != disk {
        var m: nat :| FromBoot(before.bytes, disk, boots[..n], m);
        assert boots[..n][..m] == boots[..m];
        assert FromBoot(d.bytes, disk, boots, m);
      }
    }
  }
}
