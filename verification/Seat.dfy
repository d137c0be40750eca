/** The seat's request and tick handlers as they run: package variables updated in place, each handler
    proved against SeatModel. Kernel calls are booleans chosen by the caller. */
module Seats {
  import opened Bytes
  import opened Strip
  import opened Toasts
  import opened SeatModel
  import N = NavRing
  import T = TabStrips

  class Desk {
    const strip: T.TabStrip
    var pendingNavID: Id
    var pendingNavPath: N.Path
    var replyPayload: N.Path
    var notifyQueue: seq<Toast>
    var notifyDropped: nat
    var notifyPainted: bool
    var seatTick: nat

    ghost predicate Valid()
      reads this, strip, strip.tabs, strip.closed
    {
      strip.Valid()
    }

    ghost function Now(): Seat
      requires Valid()
      reads this, strip, strip.tabs, strip.closed
    {
      Seat(strip.Now(), pendingNavID, pendingNavPath, replyPayload, notifyQueue, notifyDropped, notifyPainted, seatTick)
    }

    constructor ()
      ensures Valid() && Now() == FreshSeat() && fresh(strip) && fresh(strip.tabs) && fresh(strip.closed)
    {
      strip := new T.TabStrip();
      pendingNavID, pendingNavPath, replyPayload := 0, [], [];
      notifyQueue, notifyDropped, notifyPainted, seatTick := [], 0, false, 0;
    }

    method SetPendingNav(id: Id, path: N.Path)
      requires Valid()
      modifies this`pendingNavID, this`pendingNavPath
      ensures Valid() && Now() == old(Now()).(pendingId := id, pendingPath := path)
    {
      pendingNavID := id;
      pendingNavPath := path;
    }

    method NavPoll(id: Id) returns (path: N.Path, ok: bool)
      requires Valid()
      modifies this`pendingNavID, this`pendingNavPath
      ensures Valid() && ok == Waiting(old(Now()), id) && path == if ok then old(pendingNavPath) else []
      ensures Now() == if ok then old(Now()).(pendingId := 0, pendingPath := []) else old(Now())
    {
      if id == 0 || pendingNavID != id || pendingNavPath == [] {
        return [], false;
      }
      path := pendingNavPath;
      pendingNavID := 0;
      pendingNavPath := [];
      return path, true;
    }

    method ClearPendingNav(id: Id)
      requires Valid()
      modifies this`pendingNavID, this`pendingNavPath
      ensures Valid()
      ensures Now() == if old(pendingNavID) == id then old(Now()).(pendingId := 0, pendingPath := []) else old(Now())
    {
      if pendingNavID == id {
        pendingNavID := 0;
        pendingNavPath := [];
      }
    }

    method TakeReplyPayload() returns (p: N.Path)
      requires Valid()
      modifies this`replyPayload
      ensures Valid() && p == old(replyPayload) && Now() == old(Now()).(payload := [])
    {
      p := replyPayload;
      replyPayload := [];
    }

    /** Every removal re-arms the paint latch when the queue runs empty. */
    method NotifyQueueSet(q: seq<Toast>)
      requires Valid()
      modifies this`notifyQueue, this`notifyPainted
      ensures Valid() && Now() == old(Now()).(toasts := q, painted := old(notifyPainted) && q != [])
    {
      notifyQueue := q;
      if |notifyQueue| == 0 {
        notifyPainted := false;
      }
    }

    method NotifyPush(id: Id, text: Text) returns (ok: bool, dropped: bool)
      requires Valid()
      modifies this`notifyQueue, this`notifyDropped
      ensures Valid() && ok == (text != []) && dropped == (ok && |old(notifyQueue)| >= NOTIFY_MAX)
      ensures Now() == if ok then Notified(old(Now()), id, text) else old(Now())
    {
      if text == [] {
        return false, false;
      }
      dropped := false;
      if |notifyQueue| >= NOTIFY_MAX {
        notifyQueue := notifyQueue[1..];
        notifyDropped := notifyDropped + 1;
        dropped := true;
      }
      notifyQueue := notifyQueue + [Toast(id, text, seatTick, seatTick + NOTIFY_TICKS)];
      ok := true;
    }

    /** Returns how many toasts of `id` left the queue. */
    method ClearNotify(id: Id) returns (gone: nat)
      requires Valid()
      modifies this`notifyQueue, this`notifyPainted
      ensures Valid() && gone == |old(notifyQueue)| - |notifyQueue|
      ensures var q := NotFrom(old(notifyQueue), id);
              Now() == old(Now()).(toasts := q, painted := old(notifyPainted) && q != [])
    {
      var keep, n := DropFrom(notifyQueue, id);
      NotifyQueueSet(keep);
      gone := n;
    }

    method NotifyExpire(ticks: nat) returns (gone: seq<Id>)
      requires Valid()
      modifies this`notifyQueue, this`notifyPainted
      ensures var q := Unexpired(old(notifyQueue), ticks);
              Valid() && Now() == old(Now()).(toasts := q, painted := old(notifyPainted) && q != [])
      ensures gone == Senders(Kept(old(notifyQueue), (t: Toast) => ticks >= t.expires))
    {
      var keep, ids := DropExpired(notifyQueue, ticks);
      NotifyQueueSet(keep);
      gone := ids;
    }

    /** The newest sender, once per burst. */
    method NotifyPaintMarker(painted: bool) returns (sender: Id, once: bool)
      requires Valid()
      modifies this`notifyPainted
      ensures Valid() && once == (painted && !old(notifyPainted) && notifyQueue != [])
      ensures sender == if once then notifyQueue[|notifyQueue| - 1].sender else 0
      ensures Now() == old(Now()).(painted := old(notifyPainted) || once)
    {
      if !painted || notifyPainted || |notifyQueue| == 0 {
        return 0, false;
      }
      notifyPainted := true;
      return notifyQueue[|notifyQueue| - 1].sender, true;
    }

    method NotifyDismissByIndex(i: int) returns (id: Id, ok: bool)
      requires Valid()
      modifies this`notifyQueue, this`notifyPainted
      ensures Valid() && ok == (0 <= i < |old(notifyQueue)|) && id == if ok then old(notifyQueue)[i].sender else 0
      ensures Now() == if ok then Clicked(old(Now()), i, false) else old(Now())
    {
      if i < 0 || i >= |notifyQueue| {
        return 0, false;
      }
      id := notifyQueue[i].sender;
      NotifyQueueSet(notifyQueue[..i] + notifyQueue[i + 1..]);
      ok := true;
    }

    method CloseTab(id: Id) returns (ok: bool)
      requires Valid()
      modifies this, strip, strip.tabs, strip.closed
      ensures Valid() && Now() == Closing(old(Now()), id) && ok == OnStrip(old(strip.Now()), id)
    {
      hide Closed, NotFrom, OnStrip, IndexOf;
      var i := strip.Index(id);
      OnStripIs(strip.Now(), id);
      if i < 0 {
        return false;
      }
      ClearPendingNav(id);
      var _ := ClearNotify(id);
      ok := strip.CloseTab(id);
    }

    method FocusHosted(id: Id, raised: bool) returns (ok: bool)
      requires Valid()
      modifies strip`focus
      ensures Valid() && Now() == if id != 0 && raised then Focusing(old(Now()), id) else old(Now())
      ensures ok == (id != 0 && raised && OnStrip(old(strip.Now()), id))
    {
      if id == 0 {
        return false;
      }
      if !raised {
        return false;
      }
      ok := strip.FocusTab(id);
    }

    method ApplyNavStep(back: bool) returns (ok: bool)
      requires Valid()
      modifies this`pendingNavID, this`pendingNavPath, strip.tabs
      ensures Valid() && Now() == Stepped(old(Now()), back)
      ensures var s := old(strip.Now());
              ok == (s.tabs != [] && N.CanStep(s.tabs[s.focus].nav, back))
    {
      hide Navigated, N.Step, IndexOf;
      var id, has := strip.Focused();
      if !has {
        return false;
      }
      StepsTheFocused(strip.Now(), back);
      var path, moved := strip.NavStep(id, back);
      if !moved {
        return false;
      }
      SetPendingNav(id, path);
      return true;
    }

    /** The click-through: the toast under the pointer goes and its sender is focused. */
    method NotifyClicked(px: nat, py: nat, width: int, height: int, raised: bool) returns (n: nat)
      requires Valid() && Good(Now())
      modifies this`notifyQueue, this`notifyPainted, strip`focus
      ensures Valid() && Good(Now())
      ensures n == 0 ==> Now() == old(Now())
      ensures n == 0 ==> forall slot :: !Toasts.Covers(PanelRect(width, height, slot, |notifyQueue|), px, py)
      ensures n == 0 || n == 1
      ensures n == 1 ==> exists slot ::
        (0 <= slot < |old(notifyQueue)|
         && Toasts.Covers(PanelRect(width, height, slot, |old(notifyQueue)|), px, py)
         && Now() == Clicked(old(Now()), slot, raised))
    {
      hide Good, FocusedOn, PanelRect, Toasts.Covers;
      var slot, hit := SlotOf(px, py, width, height, |notifyQueue|);
      if !hit {
        return 0;
      }
      ClickedGood(Now(), slot, raised);
      SenderThere(Now(), slot);
      var id, _ := NotifyDismissByIndex(slot);
      var _ := FocusHosted(id, raised);
      return 1;
    }

    /** Expiry, then the paint marker when the panels reached the screen. */
    method CompositeTick(ticks: nat, shown: bool) returns (gone: seq<Id>, sender: Id, once: bool)
      requires Valid() && Good(Now()) && ticks == seatTick + 1
      modifies this`notifyQueue, this`notifyPainted, this`seatTick
      ensures Valid() && Good(Now()) && Now() == Ticked(old(Now()), shown)
      ensures gone == Senders(Kept(old(notifyQueue), (t: Toast) => ticks >= t.expires))
      ensures once == (shown && !old(notifyPainted) && notifyQueue != [])
      ensures sender == if once then notifyQueue[|notifyQueue| - 1].sender else 0
      ensures forall k :: 0 <= k < |notifyQueue| ==> 1 <= notifyQueue[k].expires - ticks <= NOTIFY_TICKS - 1
    {
      hide Good, Unexpired;
      TickedGood(Now(), shown);
      seatTick := ticks;
      gone := NotifyExpire(ticks);
      sender, once := NotifyPaintMarker(shown);
    }

    method ApplyRpc(req: Request, raised: bool) returns (ok: bool)
      requires Valid()
      modifies this, strip, strip.tabs, strip.closed
      ensures Valid() && (Now(), ok) == Applied(old(Now()), req, raised)
    {
      hide Opened, Titled, Navigated, Closed, FocusedOn, OnStrip, WellFormed, Queued, NotFrom, IndexOf;
      var id: Id := req.id;
      match req.kind % REPLY_FLAG
      case 8 =>
        var _ := strip.OpenTab(id, req.title);
        if raised {
          var _ := strip.FocusTab(id);
        }
        return true;
      case 1 =>
        if raised {
          var _ := strip.FocusTab(id);
          return true;
        }
        return false;
      case 5 =>
        var _ := strip.OpenTab(id, req.title);
        var _ := strip.FocusTab(id);
        return true;
      case 6 =>
        var _ := CloseTab(id);
        return true;
      case 7 =>
        var nid, any := strip.NextID();
        if any && raised {
          var _ := strip.FocusTab(nid);
        }
        return true;
      case 9 =>
        var known, _ := strip.NavDeclare(id, req.title);
        return known;
      case 10 =>
        var path, granted := NavPoll(id);
        if !granted {
          return false;
        }
        replyPayload := path;
        return true;
      case 11 =>
        ok := strip.SetTitle(id, req.title);
      case 12 =>
        var i := strip.Index(id);
        OnStripIs(strip.Now(), id);
        if req.title == [] || i < 0 {
          return false;
        }
        var _, _ := NotifyPush(id, req.title);
        return true;
      case _ =>
        return false;
    }

    /** One frame from the mailbox: acks are not requests, and only a request with a reply address
        takes the payload. */
    method ServeRequest(req: Request, raised: bool) returns (ack: SeatModel.Ack)
      requires Valid()
      modifies this, strip, strip.tabs, strip.closed
      ensures Valid() && (Now(), ack) == Served(old(Now()), req, raised)
    {
      hide Applied;
      if req.kind >= REPLY_FLAG {
        return NoAck;
      }
      var ok := ApplyRpc(req, raised);
      if req.replyTo == 0 {
        return NoAck;
      }
      var payload := TakeReplyPayload();
      ack := Ack(req.kind + REPLY_FLAG, req.id, req.seqNo, req.replyTo, ok, if ok then N.CutPath(payload) else []);
    }
  }

  lemma OnStripIs(s: Strip, id: Id)
    ensures OnStrip(s, id) == (IndexOf(s.tabs, id) >= 0)
  {
  }

  lemma StepsTheFocused(s: Strip, back: bool)
    requires WellFormed(s) && s.tabs != []
    ensures IndexOf(s.tabs, s.tabs[s.focus].id) == s.focus && N.Valid(s.tabs[s.focus].nav)
    ensures !N.CanStep(s.tabs[s.focus].nav, back) ==> Navigated(s, s.tabs[s.focus].id, NavOp(back)) == s
    ensures var r := Navigated(s, s.tabs[s.focus].id, NavOp(back));
            |r.tabs| == |s.tabs| && r.tabs[s.focus].nav == N.Step(s.tabs[s.focus].nav, NavOp(back))
  {
    IndexIs(s.tabs, s.focus);
    var t := s.tabs[s.focus];
    assert s.tabs[s.focus := t.(nav := t.nav)] == s.tabs;
  }

  lemma SenderThere(s: Seat, slot: nat)
    requires Good(s) && slot < |s.toasts|
    ensures s.toasts[slot].sender != 0
  {
    assert ToastFits(s, s.toasts[slot]);
  }
}
