/** Git pkt-lines and the pack extractor of user/go/git/pktline.go and user/go/git/smart.go
    (gitprotocol-common "pkt-line Format", gitprotocol-pack "Packfile Data"). */
module PktLine {
  import opened Bytes
  import opened Options

  // ---- the four hex digits ----

  function HexDigit(d: nat): (c: byte)
    requires d < 16
  {
    if d < 10 then 0x30 + d else 0x61 + d - 10
  }

  /** gitread.FromHex: both cases are read. */
  function FromHex(c: byte): (r: Option<nat>)
    ensures r != None ==> r.value < 16
  {
    if 0x30 <= c <= 0x39 then Some(c as int - 0x30)
    else if 0x61 <= c <= 0x66 then Some(c as int - 0x61 + 10)
    else if 0x41 <= c <= 0x46 then Some(c as int - 0x41 + 10)
    else None
  }

  /** The low 16 bits of n, in lower-case hex. */
  function Hex4(n: nat): (s: seq<byte>)
    ensures |s| == 4
  {
    [HexDigit(n / 0x1000 % 16), HexDigit(n / 0x100 % 16), HexDigit(n / 0x10 % 16), HexDigit(n % 16)]
  }

  function ReadHex(b: seq<byte>, k: nat): Option<nat>
    requires k <= |b|
  {
    if k == 0 then Some(0)
    else
      match (ReadHex(b, k - 1), FromHex(b[k - 1]))
      case (Some(n), Some(v)) => Some(n * 16 + v)
      case _ => None
  }

  function ParseHex4(b: seq<byte>): Option<nat> {
    if |b| < 4 then None else ReadHex(b, 4)
  }

  lemma DigitReads(d: nat)
    requires d < 16
    ensures FromHex(HexDigit(d)) == Some(d)
  {
  }

  /** Reading the digits of n gives n modulo 65536. */
  lemma Hex4Reads(n: nat, tail: seq<byte>)
    ensures ParseHex4(Hex4(n) + tail) == Some(n % 0x1_0000)
  {
    hide HexDigit, FromHex;
    var a, b, c, d := n / 0x1000 % 16, n / 0x100 % 16, n / 0x10 % 16, n % 16;
    DigitReads(a);
    DigitReads(b);
    DigitReads(c);
    DigitReads(d);
    var s := Hex4(n) + tail;
    assert ReadHex(s, 0) == Some(0);
    assert ReadHex(s, 1) == Some(a);
    assert ReadHex(s, 2) == Some(a * 16 + b);
    assert ReadHex(s, 3) == Some((a * 16 + b) * 16 + c);
    assert ReadHex(s, 4) == Some(((a * 16 + b) * 16 + c) * 16 + d);
    Nibbles(n);
  }

  lemma Nibbles(n: nat)
    ensures n % 0x1_0000 == (((n / 0x1000 % 16) * 16 + n / 0x100 % 16) * 16 + n / 0x10 % 16) * 16 + n % 16
  {
    var n1, d := n / 16, n % 16;
    var n2, c := n1 / 16, n1 % 16;
    var n3, b := n2 / 16, n2 % 16;
    var n4, a := n3 / 16, n3 % 16;
    Quotients(n, n2, n3, n4, 16 * c + d, 256 * b + 16 * c + d, 4096 * a + 256 * b + 16 * c + d);
  }

  lemma Quotients(n: nat, q2: nat, q3: nat, q4: nat, r2: nat, r3: nat, r4: nat)
    requires n == 0x100 * q2 + r2 == 0x1000 * q3 + r3 == 0x1_0000 * q4 + r4
    requires r2 < 0x100 && r3 < 0x1000 && r4 < 0x1_0000
    ensures n / 0x100 == q2 && n / 0x1000 == q3 && n % 0x1_0000 == r4
  {
  }

  method PutHex4(b: array<byte>, value: nat)
    requires b.Length >= 4
    modifies b
    ensures b[..4] == Hex4(value)
    ensures b[4..] == old(b[4..])
  {
    var n := value;
    var i := 3;
    while i >= 0
      invariant -1 <= i <= 3
      invariant n == if i == 3 then value else if i == 2 then value / 0x10 else if i == 1 then value / 0x100
                     else if i == 0 then value / 0x1000 else value / 0x1_0000
      invariant i < 3 ==> b[3] == HexDigit(value % 16)
      invariant i < 2 ==> b[2] == HexDigit(value / 0x10 % 16)
      invariant i < 1 ==> b[1] == HexDigit(value / 0x100 % 16)
      invariant i < 0 ==> b[0] == HexDigit(value / 0x1000 % 16)
      invariant b[4..] == old(b[4..])
    {
      hide HexDigit;
      b[i] := HexDigit(n % 16);
      n := n / 16;
      i := i - 1;
    }
  }

  method ReadHex4(b: seq<byte>) returns (r: Option<nat>)
    ensures r == ParseHex4(b)
  {
    if |b| < 4 { return None; }
    var n := 0;
    for i := 0 to 4
      invariant ReadHex(b, i) == Some(n)
    {
      var v := FromHex(b[i]);
      if v == None {
        ReadHexStops(b, i + 1, 4);
        return None;
      }
      n := n * 16 + v.value;
    }
    r := Some(n);
  }

  lemma {:induction false} ReadHexStops(b: seq<byte>, k: nat, n: nat)
    requires k <= n <= |b| && ReadHex(b, k) == None
    ensures ReadHex(b, n) == None
    decreases n
  {
    if k < n { ReadHexStops(b, k, n - 1); }
  }

  // ---- one packet ----

  const PKT_MAX: nat := 65520

  datatype Packet = Flush | Delim | Data(data: seq<byte>)

  datatype PktError = Truncated | BadLength

  datatype Read = Got(packet: Packet, rest: seq<byte>) | Bad(error: PktError)

  function PktEncode(data: seq<byte>): seq<byte> { Hex4(|data| + 4) + data }

  const FLUSH_PKT: seq<byte> := [0x30, 0x30, 0x30, 0x30]
  const DELIM_PKT: seq<byte> := [0x30, 0x30, 0x30, 0x31]

  function PktRead(b: seq<byte>): (r: Read)
    ensures r.Got? ==> |r.rest| < |b|
  {
    if |b| < 4 then Bad(Truncated)
    else
      match ParseHex4(b[..4])
      case None => Bad(BadLength)
      case Some(n) =>
        if n == 0 then Got(Flush, b[4..])
        else if n == 1 then Got(Delim, b[4..])
        else if n < 4 || n > PKT_MAX then Bad(BadLength)
        else if |b| < n then Bad(Truncated)
        else Got(Data(b[4..n]), b[n..])
  }

  method EncodePacket(data: seq<byte>) returns (raw: seq<byte>)
    ensures raw == PktEncode(data)
  {
    hide Hex4;
    var n := |data| + 4;
    var buf := new byte[4 + |data|](_ => 0);
    PutHex4(buf, n);
    forall i | 0 <= i < |data| {
      buf[4 + i] := data[i];
    }
    raw := buf[..];
    assert raw[..4] == Hex4(n) && raw[4..] == data;
  }

  method ReadPacket(b: seq<byte>) returns (r: Read)
    ensures r == PktRead(b)
  {
    hide ReadHex;
    if |b| < 4 { return Bad(Truncated); }
    var n := ReadHex4(b[..4]);
    if n == None { return Bad(BadLength); }
    if n.value == 0 { return Got(Flush, b[4..]); }
    if n.value == 1 { return Got(Delim, b[4..]); }
    if n.value < 4 || n.value > PKT_MAX { return Bad(BadLength); }
    if |b| < n.value { return Bad(Truncated); }
    r := Got(Data(b[4..n.value]), b[n.value..]);
  }

  /** pkt-line reading inverts encoding, whatever follows, for exactly the payloads of up to
      65516 bytes: a longer one is refused or, past 65531, its length wraps around. */
  lemma ReadInvertsEncode(data: seq<byte>, tail: seq<byte>)
    ensures PktRead(PktEncode(data) + tail) == Got(Data(data), tail) <==> |data| <= 65516
  {
    hide Hex4, ReadHex;
    var b := PktEncode(data) + tail;
    var n := |data| + 4;
    assert b[..4] == Hex4(n);
    Hex4Reads(n, []);
    assert Hex4(n) + [] == Hex4(n);
    if n <= PKT_MAX {
      assert b[4..n] == data && b[n..] == tail;
    } else {
      assert n >= 0x1_0000 || n % 0x1_0000 == n;
    }
  }

  lemma ReadsFlush(tail: seq<byte>)
    ensures PktRead(FLUSH_PKT + tail) == Got(Flush, tail)
    ensures PktRead(DELIM_PKT + tail) == Got(Delim, tail)
  {
    assert Hex4(0) == FLUSH_PKT && Hex4(1) == DELIM_PKT;
    Hex4Reads(0, []);
    Hex4Reads(1, []);
    assert (FLUSH_PKT + tail)[..4] == FLUSH_PKT + [] && (DELIM_PKT + tail)[..4] == DELIM_PKT + [];
    assert (FLUSH_PKT + tail)[4..] == tail && (DELIM_PKT + tail)[4..] == tail;
  }

  // ---- a stream of packets ----

  predicate Encodable(p: Packet) { p.Data? ==> |p.data| <= 65516 }

  function PacketBytes(p: Packet): seq<byte> {
    match p
    case Flush => FLUSH_PKT
    case Delim => DELIM_PKT
    case Data(data) => PktEncode(data)
  }

  lemma ReadsPacket(p: Packet, tail: seq<byte>)
    requires Encodable(p)
    ensures PktRead(PacketBytes(p) + tail) == Got(p, tail)
    ensures |PacketBytes(p)| >= 4
  {
    hide PktRead;
    ReadsFlush(tail);
    if p.Data? { ReadInvertsEncode(p.data, tail); }
  }

  function StreamBytes(ps: seq<Packet>): seq<byte> {
    if ps == [] then [] else PacketBytes(ps[0]) + StreamBytes(ps[1..])
  }

  datatype Split = Split(packets: seq<Packet>, leftover: seq<byte>)

  /** pktSplit: packets up to and including the first flush, or up to what is not a packet. */
  function PktSplit(b: seq<byte>): Split
    decreases |b|
  {
    match PktRead(b)
    case Bad(_) => Split([], b)
    case Got(p, rest) =>
      if p == Flush then Split([p], rest)
      else
        var s := PktSplit(rest);
        Split([p] + s.packets, s.leftover)
  }

  /** What splitting the rest gives, behind the packets already taken. */
  function SplitAfter(packets: seq<Packet>, b: seq<byte>): Split {
    Split(packets + PktSplit(b).packets, PktSplit(b).leftover)
  }

  /** One turn of the split loop. */
  lemma SplitStep(packets: seq<Packet>, b: seq<byte>)
    ensures match PktRead(b)
            case Bad(_) => SplitAfter(packets, b) == Split(packets, b)
            case Got(p, rest) =>
              SplitAfter(packets, b)
              == if p == Flush then Split(packets + [p], rest) else SplitAfter(packets + [p], rest)
  {
    hide PktRead;
    match PktRead(b) {
      case Bad(_) => assert packets + [] == packets;
      case Got(p, rest) =>
        if p != Flush {
          var more := PktSplit(rest).packets;
          assert packets + ([p] + more) == packets + [p] + more;
        }
    }
  }

  lemma SplitStarts(b: seq<byte>)
    ensures SplitAfter([], b) == PktSplit(b)
  {
    hide PktSplit;
    assert [] + PktSplit(b).packets == PktSplit(b).packets;
  }

  lemma SplitEnds(packets: seq<Packet>, b: seq<byte>)
    requires |b| < 4
    ensures SplitAfter(packets, b) == Split(packets, b)
  {
    SplitStep(packets, b);
  }

  method SplitPackets(body: seq<byte>) returns (packets: seq<Packet>, leftover: seq<byte>)
    ensures Split(packets, leftover) == PktSplit(body)
  {
    hide PktRead, PktSplit, SplitAfter;
    packets := [];
    var b := body;
    SplitStarts(body);
    while |b| >= 4
      invariant PktSplit(body) == SplitAfter(packets, b)
      decreases |b|
    {
      SplitStep(packets, b);
      var read := ReadPacket(b);
      match read {
        case Bad(_) =>
          return packets, b;
        case Got(p, rest) =>
          ReadShrinks(b);
          packets := packets + [p];
          b := rest;
          if p == Flush { return packets, b; }
      }
    }
    SplitEnds(packets, b);
    leftover := b;
  }

  lemma ReadShrinks(b: seq<byte>)
    ensures PktRead(b).Got? ==> |PktRead(b).rest| < |b|
  {
  }

  /** Whole streams come back packet by packet, up to the flush that ends them. */
  lemma {:induction false} SplitInvertsStream(ps: seq<Packet>, tail: seq<byte>)
    requires forall i :: 0 <= i < |ps| ==> Encodable(ps[i]) && ps[i] != Flush
    ensures PktSplit(StreamBytes(ps) + FLUSH_PKT + tail) == Split(ps + [Flush], tail)
    decreases |ps|
  {
    hide PktRead, PacketBytes;
    var b := StreamBytes(ps) + FLUSH_PKT + tail;
    if ps == [] {
      assert b == FLUSH_PKT + tail;
      ReadsFlush(tail);
    } else {
      var more := StreamBytes(ps[1..]) + FLUSH_PKT + tail;
      assert b == PacketBytes(ps[0]) + more;
      ReadsPacket(ps[0], more);
      SplitInvertsStream(ps[1..], tail);
      assert [ps[0]] + (ps[1..] + [Flush]) == ps + [Flush];
    }
  }

  // ---- the pack in an upload-pack reply ----

  const PACK: seq<byte> := [0x50, 0x41, 0x43, 0x4B]
  const NAK: seq<byte> := [0x4E, 0x41, 0x4B]
  const ACK: seq<byte> := [0x41, 0x43, 0x4B]

  datatype Extracted = Pack(bytes: seq<byte>) | NoPack | RemoteError

  function Finish(b: seq<byte>, pack: seq<byte>): Extracted {
    if PACK <= pack then Pack(pack) else if PACK <= b then Pack(b) else NoPack
  }

  /** extractPack from the point where `pack` has been gathered and `b` is left. */
  function ExtractFrom(b: seq<byte>, pack: seq<byte>): Extracted
    decreases |b|
  {
    if |b| < 4 then Finish(b, pack)
    else if PACK <= b then Pack(b)
    else
      match PktRead(b)
      case Bad(_) => if PACK <= pack then Pack(pack) else NoPack
      case Got(p, rest) =>
        if !p.Data? || p.data == [] then ExtractFrom(rest, pack)
        else if p.data[0] == 1 then ExtractFrom(rest, pack + p.data[1..])
        else if p.data[0] == 2 then ExtractFrom(rest, pack)
        else if p.data[0] == 3 then RemoteError
        else if NAK <= p.data || ACK <= p.data then ExtractFrom(rest, pack)
        else if PACK <= p.data then Pack(pack + p.data + rest)
        else ExtractFrom(rest, pack)
  }

  method ExtractPack(body: seq<byte>) returns (r: Extracted)
    ensures r == ExtractFrom(body, [])
  {
    var pack: seq<byte> := [];
    var b := body;
    while |b| >= 4
      invariant ExtractFrom(body, []) == ExtractFrom(b, pack)
      decreases |b|
    {
      hide PktRead;
      if PACK <= b { return Pack(b); }
      var read := ReadPacket(b);
      match read {
        case Bad(_) => return if PACK <= pack then Pack(pack) else NoPack;
        case Got(p, rest) =>
          ReadShrinks(b);
          b := rest;
          if !p.Data? || p.data == [] { continue; }
          if p.data[0] == 1 {
            pack := pack + p.data[1..];
          } else if p.data[0] == 2 {
            continue;
          } else if p.data[0] == 3 {
            return RemoteError;
          } else if NAK <= p.data || ACK <= p.data {
            continue;
          } else if PACK <= p.data {
            return Pack(pack + p.data + b);
          }
      }
    }
    r := Finish(b, pack);
  }

  /** What may come before and between the pieces of a pack: NAK and ACK lines are lines like any other. */
  datatype Frame = Band1(chunk: seq<byte>) | Band2(message: seq<byte>) | Line(line: seq<byte>) | FlushFrame | DelimFrame

  predicate ValidFrame(f: Frame) {
    match f
    case Band1(chunk) => 1 + |chunk| <= 65516
    case Band2(message) => 1 + |message| <= 65516
    case Line(line) => |line| <= 65516 && (line == [] || (line[0] !in {1, 2, 3} && !(PACK <= line)))
    case _ => true
  }

  function FramePacket(f: Frame): Packet {
    match f
    case Band1(chunk) => Data([1] + chunk)
    case Band2(message) => Data([2] + message)
    case Line(line) => Data(line)
    case FlushFrame => Flush
    case DelimFrame => Delim
  }

  function FrameBytes(fs: seq<Frame>): seq<byte> {
    if fs == [] then [] else PacketBytes(FramePacket(fs[0])) + FrameBytes(fs[1..])
  }

  /** The pack a list of frames carries: its band-1 chunks, joined. */
  function Carried(fs: seq<Frame>): seq<byte> {
    if fs == [] then [] else (if fs[0].Band1? then fs[0].chunk else []) + Carried(fs[1..])
  }

  lemma NotPack(p: Packet, tail: seq<byte>)
    ensures |PacketBytes(p) + tail| >= 4 && !(PACK <= PacketBytes(p) + tail)
  {
    var b := PacketBytes(p) + tail;
    if p.Data? {
      assert b[0] == Hex4(|p.data| + 4)[0];
      assert b[0] != 0x50;
    } else {
      assert b[0] == 0x30;
    }
  }

  /** One frame in front of anything: its chunk is gathered and the rest goes on. */
  lemma ExtractsFrame(f: Frame, tail: seq<byte>, pack: seq<byte>)
    requires ValidFrame(f)
    ensures ExtractFrom(PacketBytes(FramePacket(f)) + tail, pack)
         == ExtractFrom(tail, if f.Band1? then pack + f.chunk else pack)
  {
    hide PktRead, PacketBytes;
    var p := FramePacket(f);
    NotPack(p, tail);
    ReadsPacket(p, tail);
    if f.Band1? { assert p.data[1..] == f.chunk; }
  }

  lemma {:induction false} ExtractsFrames(fs: seq<Frame>, tail: seq<byte>, pack: seq<byte>)
    requires forall i :: 0 <= i < |fs| ==> ValidFrame(fs[i])
    ensures ExtractFrom(FrameBytes(fs) + tail, pack) == ExtractFrom(tail, pack + Carried(fs))
    decreases |fs|
  {
    hide ExtractFrom, PacketBytes;
    if fs == [] {
      assert FrameBytes(fs) + tail == tail && pack + [] == pack;
    } else {
      var more := FrameBytes(fs[1..]) + tail;
      var next := if fs[0].Band1? then pack + fs[0].chunk else pack;
      assert FrameBytes(fs) + tail == PacketBytes(FramePacket(fs[0])) + more;
      ExtractsFrame(fs[0], more, pack);
      ExtractsFrames(fs[1..], tail, next);
      assert next + Carried(fs[1..]) == pack + Carried(fs);
    }
  }

  /** However a pack is cut into band-1 packets, and whatever band-2 packets, lines of any text but a
      pack's, empty packets, delimiters and flushes are mixed in, extractPack returns the pack. */
  lemma ExtractsCarried(fs: seq<Frame>)
    requires forall i :: 0 <= i < |fs| ==> ValidFrame(fs[i])
    ensures ExtractFrom(FrameBytes(fs), []) == if PACK <= Carried(fs) then Pack(Carried(fs)) else NoPack
  {
    hide PktRead, PacketBytes;
    ExtractsFrames(fs, [], []);
    assert FrameBytes(fs) + [] == FrameBytes(fs) && [] + Carried(fs) == Carried(fs);
  }

  /** The raw form: the same pack, unframed, after frames that carry none of it. */
  lemma ExtractsRaw(fs: seq<Frame>, pack: seq<byte>)
    requires forall i :: 0 <= i < |fs| ==> ValidFrame(fs[i])
    requires PACK <= pack
    ensures ExtractFrom(FrameBytes(fs) + pack, []) == Pack(pack)
  {
    ExtractsFrames(fs, pack, []);
  }

  /** The two forms of one reply give the same bytes. */
  lemma FramedEqualsRaw(framed: seq<Frame>, before: seq<Frame>)
    requires forall i :: 0 <= i < |framed| ==> ValidFrame(framed[i])
    requires forall i :: 0 <= i < |before| ==> ValidFrame(before[i])
    requires PACK <= Carried(framed)
    ensures ExtractFrom(FrameBytes(framed), []) == ExtractFrom(FrameBytes(before) + Carried(framed), [])
  {
    hide ExtractFrom;
    ExtractsCarried(framed);
    ExtractsRaw(before, Carried(framed));
  }

  /** A band-3 packet anywhere among the frames ends the extraction with an error. */
  lemma RemoteErrorStops(fs: seq<Frame>, message: seq<byte>, tail: seq<byte>)
    requires forall i :: 0 <= i < |fs| ==> ValidFrame(fs[i])
    requires 1 + |message| <= 65516
    ensures ExtractFrom(FrameBytes(fs) + (PktEncode([3] + message) + tail), []) == RemoteError
  {
    hide PktRead, PktEncode;
    var p := Data([3] + message);
    ExtractsFrames(fs, PktEncode([3] + message) + tail, []);
    NotPack(p, tail);
    ReadsPacket(p, tail);
  }
}
