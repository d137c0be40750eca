/** The `.tabs` v2 session file and its two implementations: the seat's (user/go/gotabwm/tabsv2.go)
    and the stand-alone one (tools/go/tabcodec/tabcodec.go). */
module TabsCodec {
  import opened Bytes
  import opened Strip
  import N = NavRing
  import T = TabStrips

  const VERSION: byte := 2
  const HEADER_BYTES: nat := 6
  const TITLE_MAX: nat := 32
  const GROUP_MAX: nat := 12
  const BIN_MAX: nat := 24
  const RECORD_BYTES: nat := 69

  // ---- what a file is ----

  datatype Row = Row(title: Text, flags: byte, group: Text, bin: Text)
  datatype Active = NoActive | ActiveAt(i: int)

  /** A session: which row is active, a sequence number, the reserved byte and the rows. */
  datatype Session = Session(active: Active, seqNo: nat, prefs: byte, rows: seq<Row>)

  /** A text cut to a width and filled up with NULs. */
  function Fixed(s: Text, n: nat): (r: seq<byte>)
    ensures |r| == n
  {
    if |s| >= n then s[..n] else s + Zeros(n - |s|)
  }

  /** A fixed field up to its first NUL. */
  function Trimmed(src: seq<byte>): (r: Text)
    ensures r <= src && 0 !in r && (|r| == |src| || src[|r|] == 0)
  {
    if src == [] || src[0] == 0 then [] else [src[0]] + Trimmed(src[1..])
  }

  lemma {:induction false} TrimmedIs(src: seq<byte>, n: nat)
    requires n <= |src| && 0 !in src[..n] && (n == |src| || src[n] == 0)
    ensures Trimmed(src) == src[..n]
  {
    if n > 0 {
      assert src[0] == src[..n][0];
      assert src[1..][..n - 1] == src[..n][1..];
      TrimmedIs(src[1..], n - 1);
    }
  }

  /** A field survives a write and a read exactly when it fits and holds no NUL. */
  lemma FixedReads(s: Text, n: nat)
    ensures Trimmed(Fixed(s, n)) == s <==> |s| <= n && 0 !in s
  {
    if |s| <= n && 0 !in s {
      assert Fixed(s, n)[..|s|] == s;
      TrimmedIs(Fixed(s, n), |s|);
    }
  }

  function RowBytes(r: Row): (b: seq<byte>)
    ensures |b| == RECORD_BYTES
  {
    Fixed(r.title, TITLE_MAX) + [r.flags] + Fixed(r.group, GROUP_MAX) + Fixed(r.bin, BIN_MAX)
  }

  function RowsBytes(rows: seq<Row>): (b: seq<byte>)
    ensures |b| == RECORD_BYTES * |rows|
  {
    if rows == [] then [] else RowsBytes(rows[..|rows| - 1]) + RowBytes(rows[|rows| - 1])
  }

  predicate Encodable(s: Session) {
    |s.rows| <= MAX_TABS && s.seqNo < 0x1_0000 && (s.active.ActiveAt? ==> 0 <= s.active.i < |s.rows|)
  }

  function Header(s: Session): (h: seq<byte>)
    requires Encodable(s)
    ensures |h| == HEADER_BYTES
  {
    [VERSION, if s.active.NoActive? then 0 else s.active.i + 1, |s.rows|, s.seqNo % 256, s.seqNo / 256, s.prefs]
  }

  function FileOf(s: Session): (b: seq<byte>)
    requires Encodable(s)
    ensures |b| == HEADER_BYTES + RECORD_BYTES * |s.rows|
  {
    Header(s) + RowsBytes(s.rows)
  }

  /** The one notion of a readable file both decoders share; bytes after the last record are ignored. */
  predicate Readable(b: seq<byte>) {
    && |b| >= HEADER_BYTES && b[0] == VERSION && b[2] as int <= MAX_TABS
    && |b| >= HEADER_BYTES + RECORD_BYTES * b[2] && b[1] as int <= b[2] as int
  }

  function RowAt(b: seq<byte>, off: nat): Row
    requires off + RECORD_BYTES <= |b|
  {
    Row(Trimmed(b[off..off + 32]), b[off + 32], Trimmed(b[off + 33..off + 45]), Trimmed(b[off + 45..off + 69]))
  }

  function SessionOf(b: seq<byte>): Session
    requires Readable(b)
  {
    Session(if b[1] == 0 then NoActive else ActiveAt(b[1] - 1), b[3] as int + 256 * (b[4] as int), b[5],
            seq(b[2], i requires 0 <= i < b[2] as int => RowAt(b, HEADER_BYTES + RECORD_BYTES * i)))
  }

  /** What a read gives back of a row: its fields cut and trimmed. */
  function Stored(r: Row): Row {
    Row(Trimmed(Fixed(r.title, TITLE_MAX)), r.flags, Trimmed(Fixed(r.group, GROUP_MAX)), Trimmed(Fixed(r.bin, BIN_MAX)))
  }

  predicate RowFits(r: Row) {
    && |r.title| <= TITLE_MAX && 0 !in r.title
    && |r.group| <= GROUP_MAX && 0 !in r.group
    && |r.bin| <= BIN_MAX && 0 !in r.bin
  }

  lemma StoredExactly(r: Row)
    ensures Stored(r) == r <==> RowFits(r)
  {
    FixedReads(r.title, TITLE_MAX);
    FixedReads(r.group, GROUP_MAX);
    FixedReads(r.bin, BIN_MAX);
  }

  lemma {:induction false} RowSlice(rows: seq<Row>, i: nat)
    requires i < |rows|
    ensures RowsBytes(rows)[RECORD_BYTES * i..RECORD_BYTES * i + RECORD_BYTES] == RowBytes(rows[i])
    decreases |rows|
  {
    var n := |rows| - 1;
    if i < n {
      RowSlice(rows[..n], i);
      var front := RowsBytes(rows[..n]);
      assert RowsBytes(rows)[..|front|] == front;
      assert RowsBytes(rows)[RECORD_BYTES * i..RECORD_BYTES * i + RECORD_BYTES]
          == front[RECORD_BYTES * i..RECORD_BYTES * i + RECORD_BYTES];
    }
  }

  lemma RowReads(b: seq<byte>, off: nat, r: Row)
    requires off + RECORD_BYTES <= |b| && b[off..off + RECORD_BYTES] == RowBytes(r)
    ensures RowAt(b, off) == Stored(r)
  {
    var x := RowBytes(r);
    assert b[off..off + 32] == x[..32] == Fixed(r.title, 32);
    assert b[off + 32] == x[32] == r.flags;
    assert b[off + 33..off + 45] == x[33..45] == Fixed(r.group, 12);
    assert b[off + 45..off + 69] == x[45..69] == Fixed(r.bin, 24);
  }

  /** Reading what was written, whatever bytes follow, gives the session back with its fields cut
      and trimmed; so exactly when every field fits it is the same session. */
  lemma FileReads(s: Session, rest: seq<byte>)
    requires Encodable(s)
    ensures var b := FileOf(s) + rest;
            && Readable(b)
            && SessionOf(b) == s.(rows := seq(|s.rows|, i requires 0 <= i < |s.rows| => Stored(s.rows[i])))
            && (SessionOf(b) == s <==> forall i :: 0 <= i < |s.rows| ==> RowFits(s.rows[i]))
  {
    hide RowsBytes, RowAt, Stored, RowFits;
    var b := FileOf(s) + rest;
    assert forall k :: 0 <= k < HEADER_BYTES ==> b[k] == Header(s)[k];
    forall i | 0 <= i < |s.rows|
      ensures RowAt(b, HEADER_BYTES + RECORD_BYTES * i) == Stored(s.rows[i])
      ensures Stored(s.rows[i]) == s.rows[i] <==> RowFits(s.rows[i])
    {
      StoredExactly(s.rows[i]);
      RowSlice(s.rows, i);
      var off := HEADER_BYTES + RECORD_BYTES * i;
      assert b[off..off + RECORD_BYTES] == RowsBytes(s.rows)[off - HEADER_BYTES..off - HEADER_BYTES + RECORD_BYTES];
      RowReads(b, off, s.rows[i]);
    }
    var back := SessionOf(b);
    assert back.rows == seq(|s.rows|, i requires 0 <= i < |s.rows| => Stored(s.rows[i]));
    if back == s {
      forall i | 0 <= i < |s.rows|
        ensures RowFits(s.rows[i])
      {
        assert back.rows[i] == s.rows[i];
      }
    }
  }

  // ---- buffers filled in place ----

  method PutFixed(buf: array<byte>, off: nat, width: nat, s: Text) returns (n: nat)
    requires off + width <= buf.Length
    modifies buf
    ensures n == width && buf[..off + width] == old(buf[..off]) + Fixed(s, width)
    ensures buf[off + width..] == old(buf[off + width..])
  {
    var m := if |s| < width then |s| else width;
    for i := 0 to m
      invariant forall k :: 0 <= k < off ==> buf[k] == old(buf[k])
      invariant forall k :: off + width <= k < buf.Length ==> buf[k] == old(buf[k])
      invariant forall k :: 0 <= k < i ==> buf[off + k] == s[k]
    {
      buf[off + i] := s[i];
    }
    for i := m to width
      invariant forall k :: 0 <= k < off ==> buf[k] == old(buf[k])
      invariant forall k :: off + width <= k < buf.Length ==> buf[k] == old(buf[k])
      invariant forall k :: off <= k < off + i ==> buf[k] == if k < off + m then s[k - off] else 0
    {
      buf[off + i] := 0;
    }
    n := width;
  }

  method ReadFixed(src: seq<byte>) returns (r: Text)
    ensures r == Trimmed(src)
  {
    var n := 0;
    while n < |src| && src[n] != 0
      invariant n <= |src| && 0 !in src[..n]
    {
      n := n + 1;
    }
    TrimmedIs(src, n);
    r := src[..n];
  }

  /** One 69-byte record at `off`. */
  method PutRow(buf: array<byte>, off: nat, r: Row) returns (after: nat)
    requires off + RECORD_BYTES <= buf.Length
    modifies buf
    ensures after == off + RECORD_BYTES && buf[..after] == old(buf[..off]) + RowBytes(r)
  {
    hide Fixed;
    after := off;
    var n := PutFixed(buf, after, TITLE_MAX, r.title);
    after := after + n;
    buf[after] := r.flags;
    after := after + 1;
    assert buf[..after] == old(buf[..off]) + Fixed(r.title, TITLE_MAX) + [r.flags];
    n := PutFixed(buf, after, GROUP_MAX, r.group);
    after := after + n;
    n := PutFixed(buf, after, BIN_MAX, r.bin);
    after := after + n;
    assert buf[..after] == old(buf[..off]) + RowBytes(r);
  }

  /** The rows of a session one after the other, from the header on. */
  method PutRows(buf: array<byte>, rows: seq<Row>)
    requires buf.Length == HEADER_BYTES + RECORD_BYTES * |rows|
    modifies buf
    ensures buf[..] == old(buf[..HEADER_BYTES]) + RowsBytes(rows)
  {
    hide RowBytes;
    var off := HEADER_BYTES;
    ghost var head := buf[..HEADER_BYTES];
    for i := 0 to |rows|
      invariant off == HEADER_BYTES + RECORD_BYTES * i && buf[..off] == head + RowsBytes(rows[..i])
    {
      off := PutRow(buf, off, rows[i]);
      assert rows[..i + 1][..i] == rows[..i];
      assert head + RowsBytes(rows[..i]) + RowBytes(rows[i]) == head + RowsBytes(rows[..i + 1]);
    }
    assert rows[..|rows|] == rows && buf[..] == buf[..off];
  }

  // ---- tabcodec.go ----

  datatype CodecError = TooManyTabs | ActiveOutOfRange | ShortHeader | BadVersion | CountTooLarge | ShortBody
  datatype Result<+V> = Ok(value: V) | Err(error: CodecError)

  function EncodeRefusal(s: Session): CodecError {
    if |s.rows| > MAX_TABS then TooManyTabs else ActiveOutOfRange
  }

  method Encode(s: Session) returns (r: Result<seq<byte>>)
    requires s.seqNo < 0x1_0000
    ensures r == if Encodable(s) then Ok(FileOf(s)) else Err(EncodeRefusal(s))
  {
    var n := |s.rows|;
    if n > MAX_TABS {
      return Err(TooManyTabs);
    }
    var buf := new byte[HEADER_BYTES + n * RECORD_BYTES](_ => 0);
    buf[0] := VERSION;
    if s.active.ActiveAt? {
      if s.active.i < 0 || s.active.i >= n {
        return Err(ActiveOutOfRange);
      }
      buf[1] := s.active.i + 1;
    }
    buf[2] := n;
    buf[3] := s.seqNo % 256;
    buf[4] := (s.seqNo / 256) % 256;
    buf[5] := s.prefs;
    assert buf[..HEADER_BYTES] == Header(s);
    PutRows(buf, s.rows);
    return Ok(buf[..]);
  }

  /** What is wrong with an unreadable file, first complaint first. */
  function DecodeRefusal(b: seq<byte>): CodecError {
    if |b| < HEADER_BYTES then ShortHeader
    else if b[0] != VERSION then BadVersion
    else if b[2] as int > MAX_TABS then CountTooLarge
    else if |b| < HEADER_BYTES + RECORD_BYTES * b[2] then ShortBody
    else ActiveOutOfRange
  }

  method Decode(b: seq<byte>) returns (r: Result<Session>)
    ensures r == if Readable(b) then Ok(SessionOf(b)) else Err(DecodeRefusal(b))
  {
    hide Trimmed;
    if |b| < HEADER_BYTES {
      return Err(ShortHeader);
    }
    if b[0] != VERSION {
      return Err(BadVersion);
    }
    var count: int := b[2];
    if count > MAX_TABS {
      return Err(CountTooLarge);
    }
    if |b| < HEADER_BYTES + count * RECORD_BYTES {
      return Err(ShortBody);
    }
    var active := NoActive;
    if b[1] != 0 {
      var a: int := b[1] - 1;
      if a >= count {
        return Err(ActiveOutOfRange);
      }
      active := ActiveAt(a);
    }
    var rows: seq<Row> := [];
    var off := HEADER_BYTES;
    for i := 0 to count
      invariant off == HEADER_BYTES + RECORD_BYTES * i && |rows| == i
      invariant forall k :: 0 <= k < i ==> rows[k] == RowAt(b, HEADER_BYTES + RECORD_BYTES * k)
    {
      var title := ReadFixed(b[off..off + TITLE_MAX]);
      var flags := b[off + TITLE_MAX];
      var group := ReadFixed(b[off + 33..off + 45]);
      var bin := ReadFixed(b[off + 45..off + RECORD_BYTES]);
      rows := rows + [Row(title, flags, group, bin)];
      off := off + RECORD_BYTES;
    }
    assert rows == SessionOf(b).rows;
    return Ok(Session(active, b[3] as int + 256 * (b[4] as int), b[5], rows));
  }

  // ---- tabsv2.go ----

  function Flags(t: Tab): byte { (if t.pinned then 1 else 0) + (if t.frozen then 2 else 0) }

  function RowOf(t: Tab): Row { Row(t.title, Flags(t), [], t.bin) }

  function RowsOf(tabs: seq<Tab>): (r: seq<Row>)
    ensures |r| == |tabs| && forall i :: 0 <= i < |tabs| ==> r[i] == RowOf(tabs[i])
  {
    seq(|tabs|, i requires 0 <= i < |tabs| => RowOf(tabs[i]))
  }

  /** A strip as a session: no preferences, no groups, and a focus off the strip is no active row. */
  function SessionFor(s: Strip, seqNo: nat): Session {
    Session(if 0 <= s.focus < |s.tabs| then ActiveAt(s.focus) else NoActive, seqNo, 0, RowsOf(s.tabs))
  }

  /** The strip's records, written straight from its slots. */
  method PutTabs(buf: array<byte>, strip: T.TabStrip)
    requires strip.Fits() && buf.Length == HEADER_BYTES + RECORD_BYTES * strip.count
    modifies buf
    ensures buf[..] == old(buf[..HEADER_BYTES]) + RowsBytes(RowsOf(strip.Now().tabs))
  {
    hide RowBytes, RowOf;
    ghost var rows := RowsOf(strip.Now().tabs);
    ghost var head := buf[..HEADER_BYTES];
    var off := HEADER_BYTES;
    for i := 0 to strip.count
      invariant off == HEADER_BYTES + RECORD_BYTES * i && buf[..off] == head + RowsBytes(rows[..i])
      invariant rows == RowsOf(strip.Now().tabs)
    {
      off := PutRow(buf, off, RowOf(strip.tabs[i]));
      assert rows[..i + 1][..i] == rows[..i];
      assert head + RowsBytes(rows[..i]) + RowBytes(rows[i]) == head + RowsBytes(rows[..i + 1]);
    }
    assert rows[..strip.count] == rows && buf[..] == buf[..off];
  }

  /** The same bytes tabcodec writes for the same session. */
  method EncodeTabsV2(strip: T.TabStrip, seqNo: nat) returns (raw: seq<byte>)
    requires strip.Fits() && seqNo < 0x1_0000
    ensures Encodable(SessionFor(strip.Now(), seqNo)) && raw == FileOf(SessionFor(strip.Now(), seqNo))
  {
    hide RowBytes;
    var n := strip.count;
    ghost var s := SessionFor(strip.Now(), seqNo);
    var buf := new byte[HEADER_BYTES + n * RECORD_BYTES](_ => 0);
    buf[0] := VERSION;
    if n > 0 && 0 <= strip.focus < n {
      buf[1] := strip.focus + 1;
    }
    buf[2] := n;
    buf[3] := seqNo % 256;
    buf[4] := (seqNo / 256) % 256;
    assert buf[..HEADER_BYTES] == Header(s);
    PutTabs(buf, strip);
    raw := buf[..];
  }

  datatype Record = Record(title: Text, bin: Text, pinned: bool, frozen: bool)

  function RecordOf(r: Row): Record { Record(r.title, r.bin, r.flags % 2 == 1, r.flags / 2 % 2 == 1) }

  /** Accepts what tabcodec accepts; groups and preferences are not kept. */
  method DecodeTabsV2(b: seq<byte>) returns (seqNo: nat, recs: seq<Record>, active: int, hasActive: bool, ok: bool)
    ensures ok == Readable(b)
    ensures ok ==> seqNo == SessionOf(b).seqNo
    ensures ok ==> SessionOf(b).active == if hasActive then ActiveAt(active) else NoActive
    ensures ok ==> |recs| == |SessionOf(b).rows|
    ensures ok ==> forall i :: 0 <= i < |recs| ==> recs[i] == RecordOf(SessionOf(b).rows[i])
  {
    hide Trimmed;
    seqNo, recs, active, hasActive, ok := 0, [], 0, false, false;
    if |b| < HEADER_BYTES {
      return;
    }
    if b[0] != VERSION {
      return;
    }
    var count: int := b[2];
    if count > MAX_TABS {
      return;
    }
    if |b| < HEADER_BYTES + count * RECORD_BYTES {
      return;
    }
    if b[1] != 0 {
      var a: int := b[1] - 1;
      if a >= count {
        return;
      }
      active := a;
      hasActive := true;
    }
    seqNo := b[3] as int + 256 * (b[4] as int);
    var off := HEADER_BYTES;
    for i := 0 to count
      invariant off == HEADER_BYTES + RECORD_BYTES * i && |recs| == i
      invariant forall k :: 0 <= k < i ==> recs[k] == RecordOf(RowAt(b, HEADER_BYTES + RECORD_BYTES * k))
    {
      var title := ReadFixed(b[off..off + TITLE_MAX]);
      off := off + TITLE_MAX;
      var flags := b[off];
      off := off + 1 + GROUP_MAX;
      var bin := ReadFixed(b[off..off + BIN_MAX]);
      off := off + BIN_MAX;
      recs := recs + [Record(title, bin, flags % 2 == 1, flags / 2 % 2 == 1)];
    }
    ok := true;
  }
}
