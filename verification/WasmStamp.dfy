/** The section stamper of tools/wasm-manifest.py: LEB128, the section list, the module parser
    and the byte rewrite of `stamp`. */
module WasmStamp {
  import opened Bytes
  import opened Options

  // ---- LEB128 ----

  function Pow128(k: nat): nat {
    if k == 0 then 1 else 128 * Pow128(k - 1)
  }

  /** uleb from index `i` with `k` groups already read: the value and the next index. None stands
      for the ValueError of a truncated or over-long number (an eleventh group is refused). */
  function UlebFrom(buf: seq<byte>, i: nat, k: nat): (r: Option<(nat, nat)>)
    requires k < 10
    ensures r != None ==> i < r.value.1 <= |buf| && r.value.0 < Pow128(10 - k)
    decreases 10 - k
  {
    if i >= |buf| then None
    else if buf[i] < 128 then
      assert Pow128(10 - k) == 128 * Pow128(9 - k);
      PowPositive(9 - k);
      Some((buf[i] as nat, i + 1))
    else if k == 9 then None
    else
      match UlebFrom(buf, i + 1, k + 1)
      case None => None
      case Some((v, next)) => Some((buf[i] as nat - 128 + 128 * v, next))
  }

  lemma PowPositive(k: nat)
    ensures Pow128(k) >= 1
  {
  }

  function Uleb(buf: seq<byte>, i: nat): Option<(nat, nat)> { UlebFrom(buf, i, 0) }

  function UlebBytes(value: nat): (b: seq<byte>)
    ensures |b| > 0
  {
    if value < 128 then [value] else [value % 128 + 128] + UlebBytes(value / 128)
  }

  const LIMIT: nat := 0x40_0000_0000_0000_0000  // 2^70

  lemma LimitIs()
    ensures Pow128(10) == LIMIT
  {
    assert Pow128(2) == 0x4000;
    assert Pow128(4) == 0x1000_0000;
    assert Pow128(6) == 0x400_0000_0000;
    assert Pow128(8) == 0x100_0000_0000_0000;
  }

  lemma {:induction false} UlebReads(buf: seq<byte>, i: nat, k: nat, v: nat)
    requires k < 10 && i + |UlebBytes(v)| <= |buf| && buf[i..i + |UlebBytes(v)|] == UlebBytes(v)
    ensures UlebFrom(buf, i, k) == if v < Pow128(10 - k) then Some((v, i + |UlebBytes(v)|)) else None
    decreases v
  {
    hide Pow128;
    var b := UlebBytes(v);
    assert buf[i] == buf[i..i + |b|][0] == b[0];
    PowStep(9 - k, v);
    if v >= 128 && k < 9 {
      assert buf[i + 1..i + |b|] == buf[i..i + |b|][1..] == b[1..] == UlebBytes(v / 128);
      UlebReads(buf, i + 1, k + 1, v / 128);
    }
  }

  lemma PowStep(k: nat, v: nat)
    ensures Pow128(k + 1) == 128 * Pow128(k) && Pow128(k) >= 1 && (k == 0 ==> Pow128(k) == 1)
    ensures v < Pow128(k + 1) <==> v / 128 < Pow128(k)
  {
    PowPositive(k);
  }

  /** uleb inverts uleb_bytes, whatever follows, for exactly the values below 2^70. */
  lemma UlebInverts(v: nat, tail: seq<byte>)
    ensures Uleb(UlebBytes(v) + tail, 0) == Some((v, |UlebBytes(v)|)) <==> v < LIMIT
    ensures v >= LIMIT ==> Uleb(UlebBytes(v) + tail, 0) == None
  {
    hide UlebFrom, UlebBytes, Pow128;
    LimitIs();
    UlebReads(UlebBytes(v) + tail, 0, 0, v);
  }

  /** A value read so far, completed by the groups still to come. */
  ghost function Completed(val: nat, weight: nat, rest: Option<(nat, nat)>): Option<(nat, nat)> {
    match rest
    case None => None
    case Some((v, next)) => Some((val + weight * v, next))
  }

  lemma CompletedFromZero(rest: Option<(nat, nat)>)
    ensures Completed(0, 1, rest) == rest
  {
  }

  lemma Grows(val: nat, weight: nat, low: nat)
    ensures val + weight * low >= val
  {
  }

  /** One turn of the reading loop. */
  lemma UlebStep(buf: seq<byte>, i: nat, k: nat, val: nat, weight: nat)
    requires k < 10
    ensures Completed(val, weight, UlebFrom(buf, i, k))
         == if i >= |buf| then None
            else if buf[i] < 128 then Some((val + weight * buf[i], i + 1))
            else if k == 9 then None
            else Completed(val + weight * (buf[i] - 128), weight * 128, UlebFrom(buf, i + 1, k + 1))
  {
    hide Pow128;
    if i < |buf| && buf[i] >= 128 && k < 9 {
      var inner := UlebFrom(buf, i + 1, k + 1);
      if inner != None { Weigh(val, weight, buf[i] - 128, inner.value.0); }
    }
  }

  method ReadUleb(buf: seq<byte>, start: nat) returns (r: Option<(nat, nat)>)
    ensures r == Uleb(buf, start)
  {
    CompletedFromZero(UlebFrom(buf, start, 0));
    hide Pow128, UlebFrom, Completed;
    var val: nat, groups: nat, weight: nat, i: nat := 0, 0, 1, start;
    while true
      invariant groups < 10
      invariant Uleb(buf, start) == Completed(val, weight, UlebFrom(buf, i, groups))
      decreases 10 - groups
    {
      UlebStep(buf, i, groups, val, weight);
      if i >= |buf| { return None; }
      var b: nat := buf[i];
      i := i + 1;
      if b < 128 {
        Grows(val, weight, b);
        return Some((val + weight * b, i));
      }
      if groups == 9 { return None; }
      Grows(val, weight, b - 128);
      val := val + weight * (b - 128);
      weight := weight * 128;
      groups := groups + 1;
    }
  }

  lemma Weigh(val: nat, weight: nat, low: nat, high: nat)
    ensures val + weight * (low + 128 * high) == (val + weight * low) + (weight * 128) * high
  {
  }

  method WriteUleb(value: nat) returns (out: seq<byte>)
    ensures out == UlebBytes(value)
  {
    out := [];
    var v := value;
    while true
      invariant out + UlebBytes(v) == UlebBytes(value)
      decreases v
    {
      var b := v % 128;
      var before := v;
      v := v / 128;
      if v == 0 {
        out := out + [b];
        return;
      }
      assert UlebBytes(before) == [b + 128] + UlebBytes(v);
      assert out + [b + 128] + UlebBytes(v) == out + UlebBytes(before);
      out := out + [b + 128];
    }
  }

  // ---- sections ----

  datatype Section = Section(id: byte, payload: seq<byte>)

  const PREAMBLE: seq<byte> := [0x00, 0x61, 0x73, 0x6D, 0x01, 0x00, 0x00, 0x00]

  predicate Small(s: Section) { |s.payload| < LIMIT }

  /** The sections from index `i` on; None when one is cut short. */
  function SectionsFrom(buf: seq<byte>, i: nat): (r: Option<seq<Section>>)
    requires i <= |buf|
    ensures r != None ==> forall k :: 0 <= k < |r.value| ==> Small(r.value[k])
    decreases |buf| - i
  {
    if i == |buf| then Some([])
    else
      match Uleb(buf, i + 1)
      case None => None
      case Some((size, j)) =>
        LimitIs();
        if j + size > |buf| then None
        else
          match SectionsFrom(buf, j + size)
          case None => None
          case Some(rest) => Some([Section(buf[i], buf[j..j + size])] + rest)
  }

  function Sections(buf: seq<byte>): (r: Option<seq<Section>>)
    ensures r != None ==> |buf| >= 8 && buf[..8] == PREAMBLE
    ensures r != None ==> forall k :: 0 <= k < |r.value| ==> Small(r.value[k])
  {
    if |buf| < 8 || buf[..8] != PREAMBLE then None else SectionsFrom(buf, 8)
  }

  function SectionBytes(s: Section): seq<byte> {
    [s.id] + UlebBytes(|s.payload|) + s.payload
  }

  function AllBytes(ss: seq<Section>): seq<byte> {
    if ss == [] then [] else SectionBytes(ss[0]) + AllBytes(ss[1..])
  }

  lemma Tail(buf: seq<byte>, i: nat, a: seq<byte>, b: seq<byte>)
    requires i <= |buf| && buf[i..] == a + b
    ensures i + |a| <= |buf| && buf[i..i + |a|] == a && buf[i + |a|..] == b
  {
    var t := buf[i..];
    assert buf[i..i + |a|] == t[..|a|] && buf[i + |a|..] == t[|a|..];
  }

  lemma OneSection(buf: seq<byte>, i: nat, s: Section, rest: seq<byte>)
    requires i <= |buf| && buf[i..] == SectionBytes(s) + rest && Small(s)
    ensures i < |buf| && buf[i] == s.id
    ensures Uleb(buf, i + 1) == Some((|s.payload|, i + 1 + |UlebBytes(|s.payload|)|))
    ensures var j := i + 1 + |UlebBytes(|s.payload|)|;
            j + |s.payload| <= |buf| && buf[j..j + |s.payload|] == s.payload && buf[j + |s.payload|..] == rest
  {
    hide UlebBytes, Uleb;
    var len := UlebBytes(|s.payload|);
    assert SectionBytes(s) + rest == [s.id] + (len + (s.payload + rest));
    Tail(buf, i, [s.id], len + (s.payload + rest));
    assert buf[i] == buf[i..i + 1][0];
    Tail(buf, i + 1, len, s.payload + rest);
    Tail(buf, i + 1 + |len|, s.payload, rest);
    SizeReads(buf, i + 1, |s.payload|);
  }

  lemma {:induction false} ParsesSections(buf: seq<byte>, i: nat, ss: seq<Section>)
    requires i <= |buf| && buf[i..] == AllBytes(ss) && forall k :: 0 <= k < |ss| ==> Small(ss[k])
    ensures SectionsFrom(buf, i) == Some(ss)
    decreases |ss|
  {
    hide UlebBytes, Uleb, SectionBytes, Small;
    if ss != [] {
      var s := ss[0];
      OneSection(buf, i, s, AllBytes(ss[1..]));
      ParsesSections(buf, i + 1 + |UlebBytes(|s.payload|)| + |s.payload|, ss[1..]);
      assert ss == [s] + ss[1..];
    }
  }

  lemma SizeReads(buf: seq<byte>, i: nat, n: nat)
    requires i + |UlebBytes(n)| <= |buf| && buf[i..i + |UlebBytes(n)|] == UlebBytes(n) && n < LIMIT
    ensures Uleb(buf, i) == Some((n, i + |UlebBytes(n)|))
  {
    hide UlebBytes;
    LimitIs();
    UlebReads(buf, i, 0, n);
  }

  /** Printing then parsing a section list, for all sizes a section can state. */
  lemma SectionsInvert(ss: seq<Section>)
    requires forall k :: 0 <= k < |ss| ==> Small(ss[k])
    ensures Sections(PREAMBLE + AllBytes(ss)) == Some(ss)
  {
    var buf := PREAMBLE + AllBytes(ss);
    assert buf[..8] == PREAMBLE && buf[8..] == AllBytes(ss);
    ParsesSections(buf, 8, ss);
  }

  // ---- the abi section ----

  const ABI_NAME: seq<byte> := [0x76, 0x69, 0x72, 0x65, 0x6C, 0x61, 0x69, 0x2E, 0x61, 0x62, 0x69]  // "virelai.abi"

  /** stamp's test on a custom section: None when its name length cannot be read. */
  function StampDrops(payload: seq<byte>): Option<bool> {
    match Uleb(payload, 0)
    case None => None
    case Some((n, j)) => Some(Slice(payload, j, j + n) == ABI_NAME)
  }

  /** parse_module's test, which also wants the stated name to fit. */
  function ReadsAsAbi(payload: seq<byte>): Option<Option<seq<byte>>> {
    match Uleb(payload, 0)
    case None => None
    case Some((n, j)) =>
      if j + n > |payload| then Some(None)
      else if payload[j..j + n] == ABI_NAME then Some(Some(payload[j + n..]))
      else Some(None)
  }

  predicate IsAscii(text: string) { forall i :: 0 <= i < |text| ==> text[i] as int < 128 }

  function EncodeAscii(text: string): (b: seq<byte>)
    requires IsAscii(text)
    ensures |b| == |text|
  {
    seq(|text|, i requires 0 <= i < |text| => text[i] as int)
  }

  const REPLACEMENT: char := '\U{FFFD}'

  /** decode("ascii", "replace") */
  function DecodeAscii(b: seq<byte>): (text: string)
    ensures |text| == |b|
  {
    seq(|b|, i requires 0 <= i < |b| => if b[i] < 128 then b[i] as char else REPLACEMENT)
  }

  lemma AsciiRoundTrip(text: string)
    requires IsAscii(text)
    ensures DecodeAscii(EncodeAscii(text)) == text
  {
  }

  /** text.replace("\\n", "\n"): the two-character escape becomes a line feed. */
  function Unescape(text: string): string {
    if |text| >= 2 && text[0] == '\\' && text[1] == 'n' then "\n" + Unescape(text[2..])
    else if text == "" then ""
    else [text[0]] + Unescape(text[1..])
  }

  function AbiSection(text: string): Section
    requires IsAscii(text)
  {
    Section(0, UlebBytes(|ABI_NAME|) + ABI_NAME + EncodeAscii(text))
  }

  lemma AbiSectionReads(text: string)
    requires IsAscii(text)
    ensures StampDrops(AbiSection(text).payload) == Some(true)
    ensures ReadsAsAbi(AbiSection(text).payload) == Some(Some(EncodeAscii(text)))
  {
    var p := AbiSection(text).payload;
    assert UlebBytes(11) == [11];
    assert Uleb(p, 0) == Some((11, 1));
    assert p[1..12] == ABI_NAME && p[12..] == EncodeAscii(text);
  }

  // ---- stamp ----

  /** The sections stamp keeps: all but the abi sections, in order. None when a custom section's
      name length cannot be read (an uncaught ValueError). */
  function Kept(ss: seq<Section>): (r: Option<seq<Section>>)
    ensures r != None ==> forall k :: 0 <= k < |r.value| ==> r.value[k] in ss
  {
    if ss == [] then Some([])
    else
      match Kept(ss[1..])
      case None => None
      case Some(rest) =>
        if ss[0].id != 0 then Some([ss[0]] + rest)
        else
          match StampDrops(ss[0].payload)
          case None => None
          case Some(drop) => Some(if drop then rest else [ss[0]] + rest)
  }

  /** cmd_stamp on the bytes of a file; None when the original raises and writes nothing. */
  function Stamp(buf: seq<byte>, argument: string): Option<seq<byte>> {
    var text := Unescape(argument);
    match Sections(buf)
    case None => None
    case Some(ss) =>
      match Kept(ss)
      case None => None
      case Some(kept) =>
        if !IsAscii(text) then None
        else Some(buf[..8] + SectionBytes(AbiSection(text)) + AllBytes(kept))
  }

  /** Nothing in a list that was kept is dropped again. */
  lemma {:induction false} KeptTwice(ss: seq<Section>)
    requires Kept(ss) != None
    ensures Kept(Kept(ss).value) == Kept(ss)
  {
    if ss != [] {
      KeptTwice(ss[1..]);
      var rest := Kept(ss[1..]).value;
      assert ([ss[0]] + rest)[1..] == rest;
    }
  }

  predicate FitsSection(text: string) { 12 + |text| < LIMIT }

  /** The stamped bytes parse to the new abi section followed by every other section, payloads
      unchanged and in order. */
  lemma StampedSections(buf: seq<byte>, argument: string)
    requires Stamp(buf, argument) != None && FitsSection(Unescape(argument))
    ensures Sections(Stamp(buf, argument).value)
         == Some([AbiSection(Unescape(argument))] + Kept(Sections(buf).value).value)
  {
    hide Unescape, AllBytes, SectionBytes, AbiSection, Kept, LIMIT;
    var abi := AbiSection(Unescape(argument));
    var kept := Kept(Sections(buf).value).value;
    var all := [abi] + kept;
    AbiSize(Unescape(argument));
    KeptSmall(Sections(buf).value);
    PrintsFirst(abi, kept);
    assert Stamp(buf, argument).value == PREAMBLE + AllBytes(all);
    SectionsInvert(all);
  }

  lemma PrintsFirst(s: Section, rest: seq<Section>)
    ensures PREAMBLE + AllBytes([s] + rest) == PREAMBLE + SectionBytes(s) + AllBytes(rest)
  {
    assert ([s] + rest)[1..] == rest;
  }

  lemma AbiSize(text: string)
    requires IsAscii(text) && FitsSection(text)
    ensures Small(AbiSection(text))
  {
    assert UlebBytes(11) == [11];
  }

  lemma KeptSmall(ss: seq<Section>)
    requires Kept(ss) != None && forall k :: 0 <= k < |ss| ==> Small(ss[k])
    ensures forall k :: 0 <= k < |Kept(ss).value| ==> Small(Kept(ss).value[k])
  {
  }

  /** Stamping is idempotent, and more: a second stamp erases the first. */
  lemma StampAgain(buf: seq<byte>, first: string, second: string)
    requires Stamp(buf, first) != None && FitsSection(Unescape(first)) && IsAscii(Unescape(second))
    ensures Stamp(Stamp(buf, first).value, second) == Stamp(buf, second)
  {
    hide AllBytes, SectionBytes, Unescape, AbiSection;
    var text := Unescape(first);
    var ss := Sections(buf).value;
    var kept := Kept(ss).value;
    StampedSections(buf, first);
    KeptTwice(ss);
    var all := [AbiSection(text)] + kept;
    KeptAfterAbi(text, kept);
    assert Kept(all) == Some(kept);
    assert Stamp(buf, first).value[..8] == buf[..8];
  }

  lemma KeptAfterAbi(text: string, kept: seq<Section>)
    requires IsAscii(text) && Kept(kept) == Some(kept)
    ensures Kept([AbiSection(text)] + kept) == Some(kept)
  {
    AbiSectionReads(text);
    assert ([AbiSection(text)] + kept)[1..] == kept;
  }

  // ---- parse_module ----

  datatype Parsed = Parsed(imports: seq<string>, abi: Option<string>)

  /** One import entry at index `j`: its name and the index after it. None when the original raises. */
  function ImportAt(p: seq<byte>, j0: nat): Option<(string, nat)> {
    match Uleb(p, j0)
    case None => None
    case Some((mlen, j1)) =>
      match Uleb(p, j1 + mlen)
      case None => None
      case Some((flen, j2)) =>
        var name := DecodeAscii(Slice(p, j2, j2 + flen));
        var j3 := j2 + flen;
        if j3 >= |p| then None
        else
          match ImportTail(p, p[j3], j3 + 1)
          case None => None
          case Some(j4) => Some((name, j4))
  }

  /** What follows the kind byte: a type index, a table, a memory or a global. */
  function ImportTail(p: seq<byte>, kind: byte, j: nat): Option<nat> {
    if kind == 0 then Second(Uleb(p, j))
    else if kind == 1 then Second(Then(p, Uleb(p, j + 1)))
    else if kind == 2 then Second(Then(p, Uleb(p, j)))
    else if kind == 3 then Some(j + 2)
    else None
  }

  function Second(r: Option<(nat, nat)>): Option<nat> {
    if r == None then None else Some(r.value.1)
  }

  function Then(p: seq<byte>, r: Option<(nat, nat)>): Option<(nat, nat)> {
    if r == None then None else Uleb(p, r.value.1)
  }

  function ImportsFrom(p: seq<byte>, j: nat, count: nat): Option<seq<string>>
    decreases count
  {
    if count == 0 then Some([])
    else
      match ImportAt(p, j)
      case None => None
      case Some((name, next)) =>
        match ImportsFrom(p, next, count - 1)
        case None => None
        case Some(rest) => Some([name] + rest)
  }

  function ImportsOf(p: seq<byte>): Option<seq<string>> {
    match Uleb(p, 0)
    case None => None
    case Some((count, j)) => ImportsFrom(p, j, count)
  }

  /** One section's effect on what has been parsed so far. */
  function Take(acc: Parsed, s: Section): Option<Parsed> {
    if s.id == 0 then
      match ReadsAsAbi(s.payload)
      case None => None
      case Some(None) => Some(acc)
      case Some(Some(text)) => Some(acc.(abi := Some(DecodeAscii(text))))
    else if s.id == 2 then
      match ImportsOf(s.payload)
      case None => None
      case Some(names) => Some(acc.(imports := acc.imports + names))
    else Some(acc)
  }

  function TakeAll(acc: Parsed, ss: seq<Section>): Option<Parsed>
    decreases |ss|
  {
    if ss == [] then Some(acc)
    else
      match Take(acc, ss[0])
      case None => None
      case Some(next) => TakeAll(next, ss[1..])
  }

  function ParseModule(buf: seq<byte>): Option<Parsed> {
    match Sections(buf)
    case None => None
    case Some(ss) => TakeAll(Parsed([], None), ss)
  }

  /** Dropping abi sections leaves the imports alone and takes the abi text away. */
  lemma {:induction false} KeptImports(ss: seq<Section>, acc: Parsed, other: Parsed)
    requires Kept(ss) != None && acc.imports == other.imports && TakeAll(acc, ss) != None
    ensures TakeAll(other, Kept(ss).value) == Some(Parsed(TakeAll(acc, ss).value.imports, other.abi))
    decreases |ss|
  {
    hide ImportsOf, DecodeAscii, Uleb;
    if ss != [] {
      var s := ss[0];
      var rest := Kept(ss[1..]).value;
      var next := Take(acc, s).value;
      assert ([s] + rest)[0] == s && ([s] + rest)[1..] == rest;
      if s.id == 0 {
        KeptImports(ss[1..], next, other);
        if StampDrops(s.payload) == Some(false) {
          NotDroppedNotAbi(s.payload);
        }
      } else {
        KeptImports(ss[1..], next, Take(other, s).value);
      }
    }
  }

  lemma NotDroppedNotAbi(payload: seq<byte>)
    requires StampDrops(payload) == Some(false)
    ensures ReadsAsAbi(payload) == Some(None)
  {
  }

  /** A module that parses still parses after stamping: the same imports in the same order, and
      the abi text read back is the one stamped. */
  lemma StampedModule(buf: seq<byte>, argument: string)
    requires Stamp(buf, argument) != None && FitsSection(Unescape(argument)) && ParseModule(buf) != None
    ensures ParseModule(Stamp(buf, argument).value)
         == Some(Parsed(ParseModule(buf).value.imports, Some(Unescape(argument))))
  {
    hide Stamp, Sections, Unescape, Kept, TakeAll, DecodeAscii, EncodeAscii;
    var text := Unescape(argument);
    StampText(buf, argument);
    var ss := Sections(buf).value;
    var kept := Kept(ss).value;
    StampedSections(buf, argument);
    AbiSectionReads(text);
    AsciiRoundTrip(text);
    var all := [AbiSection(text)] + kept;
    TakesFirst(Parsed([], None), AbiSection(text), kept);
    KeptImports(ss, Parsed([], None), Parsed([], Some(text)));
  }

  lemma StampText(buf: seq<byte>, argument: string)
    requires Stamp(buf, argument) != None
    ensures IsAscii(Unescape(argument)) && Sections(buf) != None && Kept(Sections(buf).value) != None
  {
  }

  lemma TakesFirst(acc: Parsed, s: Section, rest: seq<Section>)
    requires Take(acc, s) != None
    ensures TakeAll(acc, [s] + rest) == TakeAll(Take(acc, s).value, rest)
  {
    assert ([s] + rest)[1..] == rest;
  }

  // ---- where the two abi tests differ ----

  /** A custom section that ends with the abi name but states a longer one. */
  predicate TruncatedAbi(payload: seq<byte>) {
    Uleb(payload, 0) != None && var (n, j) := Uleb(payload, 0).value; n > |ABI_NAME| && payload[j..] == ABI_NAME
  }

  /** Both tests raise on the same sections, what reads as abi is dropped by a stamp, and a stamp drops
      something that does not read as abi if and only if it is truncated. */
  lemma TestsDifferExactly(payload: seq<byte>)
    ensures StampDrops(payload) == None <==> ReadsAsAbi(payload) == None
    ensures ReadsAsAbi(payload) != None && ReadsAsAbi(payload).value != None ==> StampDrops(payload) == Some(true)
    ensures StampDrops(payload) == Some(true) && ReadsAsAbi(payload) == Some(None) <==> TruncatedAbi(payload)
  {
    hide UlebFrom;
    if Uleb(payload, 0) != None {
      var (n, j) := Uleb(payload, 0).value;
      if j + n > |payload| { assert Slice(payload, j, j + n) == payload[j..]; }
    }
  }

  /** The sections parse_module does not read as abi. */
  function NotAbi(ss: seq<Section>): seq<Section> {
    if ss == [] then []
    else if ss[0].id == 0 && ReadsAsAbi(ss[0].payload) != None && ReadsAsAbi(ss[0].payload).value != None
    then NotAbi(ss[1..])
    else [ss[0]] + NotAbi(ss[1..])
  }

  /** A stamp removes just what the parser reads as abi if and only if no section is truncated. */
  lemma {:induction false} StampRemovesExactly(ss: seq<Section>)
    requires Kept(ss) != None
    ensures |Kept(ss).value| <= |NotAbi(ss)|
    ensures Kept(ss).value == NotAbi(ss) <==> NoneTruncated(ss)
  {
    hide StampDrops, ReadsAsAbi, TruncatedAbi, NoneTruncated;
    if ss == [] {
      NoneInNothing();
    } else {
      StampRemovesExactly(ss[1..]);
      TestsDifferExactly(ss[0].payload);
      var a, b := Kept(ss[1..]).value, NotAbi(ss[1..]);
      assert ([ss[0]] + a)[1..] == a && ([ss[0]] + b)[1..] == b;
      NoneTruncatedStep(ss);
    }
  }

  predicate NoneTruncated(ss: seq<Section>) {
    forall k :: 0 <= k < |ss| && ss[k].id == 0 ==> !TruncatedAbi(ss[k].payload)
  }

  lemma NoneInNothing()
    ensures NoneTruncated([])
  {
  }

  lemma NoneTruncatedStep(ss: seq<Section>)
    requires ss != []
    ensures NoneTruncated(ss) <==> NoneTruncated(ss[1..]) && (ss[0].id == 0 ==> !TruncatedAbi(ss[0].payload))
  {
    hide TruncatedAbi;
    assert forall k :: 0 < k < |ss| ==> ss[1..][k - 1] == ss[k];
    assert forall k :: 0 <= k < |ss| - 1 ==> ss[1..][k] == ss[k + 1];
  }

  const CUT_ABI: Section := Section(0, [20] + ABI_NAME)

  /** A module with such a section: nothing in it reads as abi, yet a stamp of it is the same as a stamp
      of the module without it. */
  lemma TruncatedAbiIsDropped(argument: string)
    ensures var buf := PREAMBLE + SectionBytes(CUT_ABI);
            && Sections(buf) == Some([CUT_ABI]) && ParseModule(buf) == Some(Parsed([], None))
            && Stamp(buf, argument) == Stamp(PREAMBLE, argument)
  {
    hide Uleb, UlebBytes, Sections, SectionBytes, Unescape, IsAscii;
    CutAbiTests();
    var none: seq<Section> := [];
    assert [CUT_ABI][1..] == none && SectionBytes(CUT_ABI) + [] == SectionBytes(CUT_ABI);
    assert AllBytes(none) == [] && PREAMBLE + [] == PREAMBLE;
    assert AllBytes([CUT_ABI]) == SectionBytes(CUT_ABI);
    TakesNothing();
    SectionsInvert([CUT_ABI]);
    SectionsInvert(none);
    assert (PREAMBLE + SectionBytes(CUT_ABI))[..8] == PREAMBLE[..8];
  }

  lemma TakesNothing()
    ensures Take(Parsed([], None), CUT_ABI) == Some(Parsed([], None))
    ensures TakeAll(Parsed([], None), [CUT_ABI]) == Some(Parsed([], None))
  {
    hide ReadsAsAbi;
    CutAbiTests();
    var none: seq<Section> := [];
    assert [CUT_ABI][1..] == none;
    assert TakeAll(Parsed([], None), none) == Some(Parsed([], None));
  }

  lemma CutAbiTests()
    ensures Small(CUT_ABI)
    ensures StampDrops(CUT_ABI.payload) == Some(true) && ReadsAsAbi(CUT_ABI.payload) == Some(None)
  {
    var payload := CUT_ABI.payload;
    assert Uleb(payload, 0) == Some((20, 1));
    assert payload[1..] == ABI_NAME;
    TestsDifferExactly(payload);
    LimitIs();
  }

  // ---- the same, as the original runs it ----

  /** The section loop from `start` on. */
  method ReadFrom(buf: seq<byte>, start: nat) returns (r: Option<seq<Section>>)
    requires start <= |buf|
    ensures r == SectionsFrom(buf, start)
  {
    hide Uleb, After, SectionsFrom, Small;
    var ss: seq<Section> := [];
    var i := start;
    SectionsEnd(buf);
    AfterNone(SectionsFrom(buf, start));
    while i < |buf|
      invariant i <= |buf|
      invariant SectionsFrom(buf, start) == After(ss, SectionsFrom(buf, i))
    {
      var size := ReadUleb(buf, i + 1);
      SectionStep(buf, i);
      AfterNothing(ss);
      if size == None { return None; }
      var (n, j) := size.value;
      UlebEnds(buf, i + 1);
      if j + n > |buf| { return None; }
      var s := Section(buf[i], buf[j..j + n]);
      AfterMore(ss, [s], SectionsFrom(buf, j + n));
      ss := ss + [s];
      i := j + n;
    }
    AfterAll(ss);
    r := Some(ss);
  }

  method ReadSections(buf: seq<byte>) returns (r: Option<seq<Section>>)
    ensures r == Sections(buf)
  {
    hide SectionsFrom;
    if |buf| < 8 || buf[..8] != PREAMBLE { return None; }
    r := ReadFrom(buf, 8);
  }

  lemma SectionsEnd(buf: seq<byte>)
    ensures SectionsFrom(buf, |buf|) == Some([])
  {
  }

  /** One turn of the section loop. */
  lemma SectionStep(buf: seq<byte>, i: nat)
    requires i < |buf|
    ensures SectionsFrom(buf, i)
         == match Uleb(buf, i + 1)
            case None => None
            case Some((size, j)) =>
              if j + size > |buf| then None
              else After([Section(buf[i], buf[j..j + size])], SectionsFrom(buf, j + size))
  {
    hide Uleb;
  }

  lemma UlebEnds(buf: seq<byte>, i: nat)
    ensures Uleb(buf, i) != None ==> i < Uleb(buf, i).value.1 <= |buf|
  {
  }

  method ReadImports(p: seq<byte>) returns (r: Option<seq<string>>)
    ensures r == ImportsOf(p)
  {
    hide Uleb, ImportAt;
    var head := ReadUleb(p, 0);
    if head == None { return None; }
    var (count, j) := head.value;
    var names: seq<string> := [];
    AfterNone(ImportsFrom(p, j, count));
    var left := count;
    while left > 0
      invariant ImportsOf(p) == After(names, ImportsFrom(p, j, left))
    {
      var entry := ImportAt(p, j);
      if entry == None { return None; }
      var (name, next) := entry.value;
      AfterMore(names, [name], ImportsFrom(p, next, left - 1));
      names := names + [name];
      j := next;
      left := left - 1;
    }
    AfterAll(names);
    r := Some(names);
  }

  /** parse_module. */
  method ReadModule(buf: seq<byte>) returns (r: Option<Parsed>)
    ensures r == ParseModule(buf)
  {
    hide ImportsOf, ReadsAsAbi;
    var sections := ReadSections(buf);
    if sections == None { return None; }
    var ss := sections.value;
    var imports: seq<string> := [];
    var abi: Option<string> := None;
    for k := 0 to |ss|
      invariant ParseModule(buf) == TakeAll(Parsed(imports, abi), ss[k..])
    {
      assert ss[k..][0] == ss[k] && ss[k..][1..] == ss[k + 1..];
      if ss[k].id == 0 {
        var name := ReadsAsAbi(ss[k].payload);
        if name == None { return None; }
        if name.value != None { abi := Some(DecodeAscii(name.value.value)); }
      } else if ss[k].id == 2 {
        var names := ReadImports(ss[k].payload);
        if names == None { return None; }
        imports := imports + names.value;
      }
    }
    r := Some(Parsed(imports, abi));
  }

  /** cmd_stamp: copies every section but the abi ones, then puts the new one first. */
  method StampBytes(buf: seq<byte>, argument: string) returns (r: Option<seq<byte>>)
    ensures r == Stamp(buf, argument)
  {
    hide StampDrops, SectionBytes, Unescape, Kept, After, AbiSection, AllBytes;
    AllBytesNone();
    KeptNone();
    var text := Unescape(argument);
    var sections := ReadSections(buf);
    if sections == None { return None; }
    var ss := sections.value;
    var out := buf[..8];
    ghost var kept: seq<Section> := [];
    AfterNone(Kept(ss));
    assert ss[0..] == ss;
    for k := 0 to |ss|
      invariant out == buf[..8] + AllBytes(kept)
      invariant Kept(ss) == After(kept, Kept(ss[k..]))
    {
      KeptStep(ss, k);
      AfterNothing(kept);
      if ss[k].id == 0 {
        var drop := StampDrops(ss[k].payload);
        if drop == None { return None; }
        if drop.value { continue; }
      }
      AllBytesAppend(kept, ss[k]);
      AfterMore(kept, [ss[k]], Kept(ss[k + 1..]));
      out := out + SectionBytes(ss[k]);
      kept := kept + [ss[k]];
    }
    AfterAll(kept);
    assert ss[|ss|..] == [] && Kept(ss) == Some(kept);
    if !IsAscii(text) { return None; }
    assert out[..8] == buf[..8] && out[8..] == AllBytes(kept);
    r := Some(out[..8] + SectionBytes(AbiSection(text)) + out[8..]);
  }

  /** One turn of the copying loop. */
  lemma KeptStep(ss: seq<Section>, k: nat)
    requires k < |ss|
    ensures Kept(ss[k..])
         == if ss[k].id != 0 then After([ss[k]], Kept(ss[k + 1..]))
            else match StampDrops(ss[k].payload)
                 case None => None
                 case Some(drop) => if drop then Kept(ss[k + 1..]) else After([ss[k]], Kept(ss[k + 1..]))
  {
    assert ss[k..][0] == ss[k] && ss[k..][1..] == ss[k + 1..];
  }

  lemma AllBytesNone()
    ensures AllBytes([]) == []
  {
  }

  lemma KeptNone()
    ensures Kept([]) == Some([])
  {
  }

  lemma {:induction false} AllBytesAppend(ss: seq<Section>, s: Section)
    ensures AllBytes(ss + [s]) == AllBytes(ss) + SectionBytes(s)
    decreases |ss|
  {
    hide SectionBytes;
    if ss == [] {
      assert ss + [s] == [s] && [s][1..] == [];
      assert AllBytes([s]) == SectionBytes(s) + AllBytes([]);
    } else {
      AllBytesAppend(ss[1..], s);
      assert (ss + [s])[0] == ss[0] && (ss + [s])[1..] == ss[1..] + [s];
    }
  }
}
