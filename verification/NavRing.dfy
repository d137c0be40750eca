/** The navigation history inside each tab of user/go/gotabwm/tabs.go: eight fixed slots that stand
    for the newest part of an unbounded back/current/forward history. */
module NavRing {
  import opened Bytes

  const HIST_MAX: nat := 8
  const PATH_MAX: nat := 24

  type Path = seq<byte>

  /** The parallel fixed arrays of a tab: slot bytes, slot lengths, fill count and cursor. */
  datatype Nav = Nav(hist: seq<seq<byte>>, lens: seq<nat>, count: nat, pos: nat)

  predicate SlotsFit(n: Nav) {
    && |n.hist| == |n.lens| == HIST_MAX
    && forall i :: 0 <= i < HIST_MAX ==> |n.hist[i]| == PATH_MAX && n.lens[i] <= PATH_MAX
  }

  predicate Valid(n: Nav) {
    && SlotsFit(n)
    && n.count <= HIST_MAX && (if n.count == 0 then n.pos == 0 else n.pos < n.count)
    && forall i :: 0 <= i < n.count ==> n.lens[i] > 0
  }

  function NoNav(): (n: Nav)
    ensures Valid(n) && n.count == 0
  {
    Nav(seq(HIST_MAX, _ => Zeros(PATH_MAX)), seq(HIST_MAX, _ => 0), 0, 0)
  }

  function Entry(n: Nav, i: nat): Path
    requires SlotsFit(n) && i < HIST_MAX
  {
    n.hist[i][..n.lens[i]]
  }

  function CutPath(path: Path): (r: Path)
    ensures |r| <= PATH_MAX && (path != [] ==> r != []) && (|path| <= PATH_MAX ==> r == path)
  {
    if |path| > PATH_MAX then path[..PATH_MAX] else path
  }

  /** A path copied over a slot: bytes past its length keep what an older path left there. */
  function SetSlot(n: Nav, i: nat, path: Path): (r: Nav)
    requires SlotsFit(n) && i < HIST_MAX
    ensures SlotsFit(r) && r.count == n.count && r.pos == n.pos
    ensures forall k :: 0 <= k < HIST_MAX ==> Entry(r, k) == if k == i then CutPath(path) else Entry(n, k)
  {
    var p := CutPath(path);
    var r := n.(hist := n.hist[i := p + n.hist[i][|p|..]], lens := n.lens[i := |p|]);
    assert Entry(r, i) == p;
    r
  }

  /** Slots moved down by one; the last one keeps its contents. */
  function Shifted(n: Nav): (r: Nav)
    requires SlotsFit(n)
    ensures SlotsFit(r) && r.count == n.count && r.pos == n.pos
    ensures forall k :: 0 <= k < HIST_MAX - 1 ==> Entry(r, k) == Entry(n, k + 1)
  {
    n.(hist := n.hist[1..] + [n.hist[HIST_MAX - 1]], lens := n.lens[1..] + [n.lens[HIST_MAX - 1]])
  }

  /** Whether a declared path is news: not empty and not the current entry again. */
  predicate Moves(n: Nav, path: Path)
    requires Valid(n)
  {
    path != [] && (n.count == 0 || Entry(n, n.pos) != path)
  }

  function Recorded(n: Nav, path: Path): Nav
    requires Valid(n)
  {
    if !Moves(n, path) then n
    else
      var cut := if n.count == 0 then n else n.(count := n.pos + 1);
      var m := if cut.count == HIST_MAX then Shifted(cut).(count := HIST_MAX - 1) else cut;
      SetSlot(m, m.count, path).(count := m.count + 1, pos := m.count)
  }

  /** The recorded paths, oldest first. */
  function Entries(n: Nav): (es: seq<Path>)
    requires Valid(n)
    ensures |es| == n.count && forall i :: 0 <= i < n.count ==> es[i] == Entry(n, i)
  {
    seq(n.count, i requires 0 <= i < n.count => Entry(n, i))
  }

  function Newest(es: seq<Path>): seq<Path> { if |es| > HIST_MAX then es[|es| - HIST_MAX..] else es }

  lemma RecordedSlots(n: Nav, path: Path)
    requires Valid(n) && Moves(n, path)
    ensures var r := Recorded(n, path);
            var kept := if n.count == 0 then 0 else n.pos + 1;
            var lost := if kept == HIST_MAX then 1 else 0;
            && SlotsFit(r) && r.pos == kept - lost == r.count - 1
            && forall k :: 0 <= k < r.count ==> Entry(r, k) == if k < r.pos then Entry(n, k + lost) else CutPath(path)
  {
  }

  lemma FilledSlot(n: Nav, k: nat)
    requires SlotsFit(n) && k < HIST_MAX
    ensures n.lens[k] > 0 <==> Entry(n, k) != []
  {
    assert |Entry(n, k)| == n.lens[k];
  }

  /** A declare that counts drops the forward paths, appends, and keeps the newest eight. */
  lemma RecordedEntries(n: Nav, path: Path)
    requires Valid(n) && Moves(n, path)
    ensures var r := Recorded(n, path);
            && Valid(r) && r.pos == r.count - 1
            && Entries(r) == Newest((if n.count == 0 then [] else Entries(n)[..n.pos + 1]) + [CutPath(path)])
  {
    hide Recorded, Entry;
    RecordedSlots(n, path);
    var r := Recorded(n, path);
    forall k | 0 <= k < r.count
      ensures r.lens[k] > 0
    {
      FilledSlot(r, k);
      if k < r.pos {
        FilledSlot(n, k);
        if n.pos + 1 == HIST_MAX { FilledSlot(n, k + 1); }
      }
    }
  }

  /** The path a tab is at, empty before its first declare. */
  function Current(n: Nav): Path
    requires Valid(n)
  {
    if n.count == 0 then [] else Entry(n, n.pos)
  }

  predicate CanBack(n: Nav) { n.count > 0 && n.pos > 0 }

  predicate CanForward(n: Nav) { n.pos + 1 < n.count }

  predicate CanStep(n: Nav, back: bool) { if back then CanBack(n) else CanForward(n) }

  function Backed(n: Nav): Nav { if CanBack(n) then n.(pos := n.pos - 1) else n }

  function Forwarded(n: Nav): Nav { if CanForward(n) then n.(pos := n.pos + 1) else n }

  // ---- the unbounded history ----

  /** Every path visited on the current branch, the current one, and the oldest still reachable:
      a floor that only ever rises. */
  datatype History = History(all: seq<Path>, at: nat, floor: nat)

  predicate InHistory(h: History) {
    if h.all == [] then h.at == 0 == h.floor
    else h.floor <= h.at < |h.all| <= h.floor + HIST_MAX
  }

  function Max(a: int, b: int): int { if a < b then b else a }

  function Declared(h: History, path: Path): (r: History)
    requires InHistory(h)
    ensures InHistory(r) && r.floor >= h.floor
  {
    if path == [] || (h.all != [] && h.all[h.at] == path) then h
    else
      var kept := if h.all == [] then [] else h.all[..h.at + 1];
      History(kept + [CutPath(path)], |kept|, Max(h.floor, |kept| + 1 - HIST_MAX))
  }

  function WentBack(h: History): History
    requires InHistory(h)
  {
    if h.at > h.floor then h.(at := h.at - 1) else h
  }

  function WentForward(h: History): History
    requires InHistory(h)
  {
    if h.at + 1 < |h.all| then h.(at := h.at + 1) else h
  }

  /** The slots hold exactly the history from its floor on. */
  predicate Represents(n: Nav, h: History) {
    && Valid(n) && InHistory(h)
    && Entries(n) == h.all[h.floor..] && n.pos == h.at - h.floor
  }

  lemma RecordRefines(n: Nav, h: History, path: Path)
    requires Represents(n, h)
    ensures Represents(Recorded(n, path), Declared(h, path))
    ensures Moves(n, path) <==> Declared(h, path) != h
  {
    hide Recorded, Entry, SlotsFit, Newest, Valid;
    if n.count > 0 { assert Entries(n)[n.pos] == h.all[h.at]; }
    if Moves(n, path) {
      RecordedEntries(n, path);
      NewestFromFloor(h, CutPath(path));
    } else {
      StaysPut(n, path);
    }
  }

  lemma NewestFromFloor(h: History, p: Path)
    requires InHistory(h)
    ensures var kept := if h.all == [] then [] else h.all[..h.at + 1];
            var window := if h.all == [] then [] else h.all[h.floor..][..h.at - h.floor + 1];
            Newest(window + [p]) == (kept + [p])[Max(h.floor, |kept| + 1 - HIST_MAX)..]
  {
    if h.all != [] {
      var all := h.all[..h.at + 1] + [p];
      var window := h.all[h.floor..][..h.at - h.floor + 1];
      assert window + [p] == all[h.floor..];
      if |window| + 1 > HIST_MAX { assert all[h.floor..][|window| + 1 - HIST_MAX..] == all[|all| - HIST_MAX..]; }
    }
  }

  lemma StaysPut(n: Nav, path: Path)
    requires Valid(n) && !Moves(n, path)
    ensures Recorded(n, path) == n
  {
  }

  datatype NavOp = Declare(path: Path) | Back | Forward

  function Step(n: Nav, op: NavOp): Nav
    requires Valid(n)
  {
    match op
    case Declare(p) => Recorded(n, p)
    case Back => Backed(n)
    case Forward => Forwarded(n)
  }

  function HistoryStep(h: History, op: NavOp): (r: History)
    requires InHistory(h)
    ensures InHistory(r)
  {
    match op
    case Declare(p) => Declared(h, p)
    case Back => WentBack(h)
    case Forward => WentForward(h)
  }

  lemma RecordStaysValid(n: Nav, path: Path)
    requires Valid(n)
    ensures Valid(Recorded(n, path))
    ensures forall e :: e in Entries(Recorded(n, path)) ==> e == CutPath(path) || e in Entries(n)
  {
    hide Recorded;
    if Moves(n, path) { RecordedEntries(n, path); } else { StaysPut(n, path); }
  }

  function Steps(n: Nav, ops: seq<NavOp>): (r: Nav)
    requires Valid(n)
    ensures Valid(r)
  {
    if ops == [] then n
    else
      var m := Steps(n, ops[..|ops| - 1]);
      var op := ops[|ops| - 1];
      if op.Declare? then RecordStaysValid(m, op.path); Step(m, op) else Step(m, op)
  }

  function HistorySteps(h: History, ops: seq<NavOp>): (r: History)
    requires InHistory(h)
    ensures InHistory(r) && r.floor >= h.floor
  {
    if ops == [] then h else HistoryStep(HistorySteps(h, ops[..|ops| - 1]), ops[|ops| - 1])
  }

  lemma StepRefines(n: Nav, h: History, op: NavOp)
    requires Represents(n, h)
    ensures Represents(Step(n, op), HistoryStep(h, op))
  {
    hide Recorded, Declared;
    if op.Declare? { RecordRefines(n, h, op.path); }
  }

  /** Over every run of declares and steps the slots are the unbounded history cut at its floor. */
  lemma {:induction false} RunRefines(n: Nav, h: History, ops: seq<NavOp>)
    requires Represents(n, h)
    ensures Represents(Steps(n, ops), HistorySteps(h, ops))
  {
    if ops != [] {
      var front, op := ops[..|ops| - 1], ops[|ops| - 1];
      RunRefines(n, h, front);
      StepRefines(Steps(n, front), HistorySteps(h, front), op);
    }
  }

  lemma FreshIsEmpty()
    ensures Represents(NoNav(), History([], 0, 0))
  {
  }

  /** A fresh tab stands for the empty history, so after any run its paths are the last ones of that run's
      history and its cursor is where that history's is. */
  lemma FreshRun(ops: seq<NavOp>)
    ensures Represents(Steps(NoNav(), ops), HistorySteps(History([], 0, 0), ops))
  {
    FreshIsEmpty();
    RunRefines(NoNav(), History([], 0, 0), ops);
  }

  /** Back and forward undo each other. */
  lemma BackAndForward(n: Nav)
    requires Valid(n)
    ensures CanBack(n) ==> Forwarded(Backed(n)) == n
    ensures CanForward(n) ==> Backed(Forwarded(n)) == n
  {
  }

  /** After a declare that counts there is no way forward, and back leads to where one was. */
  lemma DeclareThenBack(n: Nav, path: Path)
    requires Valid(n) && Moves(n, path)
    ensures var r := Recorded(n, path);
            && Valid(r) && !CanForward(r) && Entries(r)[r.pos] == CutPath(path)
            && (n.count > 0 ==> CanBack(r) && Entries(r)[r.pos - 1] == Entries(n)[n.pos])
  {
    hide Recorded, Entry, Newest;
    RecordedEntries(n, path);
    RecordedSlots(n, path);
  }

  // ---- the operations on a tab's arrays ----

  /** Slots 1..7 copied one down, each path with its length. */
  method ShiftDown(n: Nav) returns (r: Nav)
    requires SlotsFit(n)
    ensures r == Shifted(n)
  {
    r := n;
    for i := 1 to HIST_MAX
      invariant |r.hist| == |r.lens| == HIST_MAX && r.count == n.count && r.pos == n.pos
      invariant forall k :: 0 <= k < HIST_MAX ==> r.hist[k] == n.hist[if k < i - 1 then k + 1 else k]
      invariant forall k :: 0 <= k < HIST_MAX ==> r.lens[k] == n.lens[if k < i - 1 then k + 1 else k]
    {
      r := r.(hist := r.hist[i - 1 := r.hist[i]], lens := r.lens[i - 1 := r.lens[i]]);
    }
  }

  method NavSet(n: Nav, i: nat, path: Path) returns (r: Nav)
    requires SlotsFit(n) && i < HIST_MAX
    ensures r == SetSlot(n, i, path)
  {
    var m := |path|;
    if m > PATH_MAX {
      m := PATH_MAX;
    }
    assert path[..m] == CutPath(path);
    r := n.(hist := n.hist[i := path[..m] + n.hist[i][m..]], lens := n.lens[i := m]);
  }

  method NavRecord(n: Nav, path: Path) returns (r: Nav, changed: bool)
    requires Valid(n)
    ensures Valid(r) && r == Recorded(n, path) && changed == Moves(n, path)
  {
    hide Shifted, SetSlot;
    if Moves(n, path) { RecordedEntries(n, path); }
    if path == [] {
      return n, false;
    }
    if n.count > 0 && n.hist[n.pos][..n.lens[n.pos]] == path {
      return n, false;
    }
    r := n;
    if r.count != 0 {
      r := r.(count := r.pos + 1);
    }
    if r.count == HIST_MAX {
      r := ShiftDown(r);
      r := r.(count := HIST_MAX - 1);
    }
    r := NavSet(r, r.count, path);
    r := r.(count := r.count + 1);
    r := r.(pos := r.count - 1);
    changed := true;
  }

  method NavBack(n: Nav) returns (r: Nav, path: Path, ok: bool)
    requires Valid(n)
    ensures Valid(r) && r == Backed(n) && ok == CanBack(n)
    ensures path == if ok then Current(r) else []
  {
    if !(n.count > 0 && n.pos > 0) {
      return n, [], false;
    }
    r := n.(pos := n.pos - 1);
    return r, r.hist[r.pos][..r.lens[r.pos]], true;
  }

  method NavForward(n: Nav) returns (r: Nav, path: Path, ok: bool)
    requires Valid(n)
    ensures Valid(r) && r == Forwarded(n) && ok == CanForward(n)
    ensures path == if ok then Current(r) else []
  {
    if !(n.pos + 1 < n.count) {
      return n, [], false;
    }
    r := n.(pos := n.pos + 1);
    return r, r.hist[r.pos][..r.lens[r.pos]], true;
  }
}
