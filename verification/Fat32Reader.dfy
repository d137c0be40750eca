/** The reader of image/mkfat32.py (`--cat-file`): GPT entry, boot sector, directory walk and
    cluster chain, on any byte string. It shares no code with the builder. */
module Fat32Reader {
  import opened Bytes
  import opened Fat32Image
  import opened Options

  /** Exit status 0 with the bytes emitted, exit status 1, or an uncaught Python exception. */
  datatype CatResult = Found(content: seq<byte>) | NotFound | Crash

  /** What the reader keeps from the boot sector. */
  datatype Volume = Volume(firstLba: nat, reserved: nat, fatSectors: nat, rootCluster: nat, spc: nat) {
    function DataStart(): nat { firstLba + reserved + 2 * fatSectors }

    function ClusterSector(cluster: int): int { DataStart() + (cluster - rootCluster) * spc }
  }

  const CLUSTER_LIMIT: nat := 0x1_0000_0000

  /** struct.unpack_from: None stands for struct.error. */
  function Unpack(data: seq<byte>, off: nat, n: nat): Option<nat> {
    if off + n <= |data| then Some(FromLe(data[off..off + n])) else None
  }

  // ---- names ----

  function Latin1(b: seq<byte>): (s: string)
    ensures |s| == |b|
  {
    seq(|b|, i requires 0 <= i < |b| => b[i] as char)
  }

  function RightTrim(s: string): string {
    if s != "" && s[|s| - 1] == ' ' then RightTrim(s[..|s| - 1]) else s
  }

  /** decode_83: "KERNEL  BIN" names KERNEL.BIN. */
  function Decode83(e: seq<byte>): string {
    var name := RightTrim(Latin1(Slice(e, 0, 8)));
    var ext := RightTrim(Latin1(Slice(e, 8, 11)));
    if ext != "" then name + "." + ext else name
  }

  function LeftTrimSlash(s: string): string {
    if s != "" && s[0] == '/' then LeftTrimSlash(s[1..]) else s
  }

  /** Python's upper() of one character, as far as a Latin-1 name could equal it: what becomes of the
      characters left alone here has no Latin-1 spelling, and names on the volume have no other. */
  function UpperChar(c: char): string {
    if 'a' <= c <= 'z' || ('\U{E0}' <= c <= '\U{FE}' && c != '\U{F7}') then [c - 32 as char]
    else if c == '\U{DF}' then "SS" // sharp s
    else if c == '\U{B5}' then "\U{39C}" // micro sign
    else if c == '\U{FF}' then "\U{178}" // y with diaeresis
    else if c == '\U{131}' then "I" // dotless i
    else if c == '\U{17F}' then "S" // long s
    else if c == '\U{FB00}' then "FF" // ligatures
    else if c == '\U{FB01}' then "FI"
    else if c == '\U{FB02}' then "FL"
    else if c == '\U{FB03}' then "FFI"
    else if c == '\U{FB04}' then "FFL"
    else if c == '\U{FB05}' || c == '\U{FB06}' then "ST"
    else [c]
  }

  function Upper(s: string): string {
    if s == "" then "" else UpperChar(s[0]) + Upper(s[1..])
  }

  lemma {:induction false} UpperKeeps(s: string)
    requires forall i :: 0 <= i < |s| ==> UpperChar(s[i]) == [s[i]]
    ensures Upper(s) == s
  {
    if s != "" { UpperKeeps(s[1..]); }
  }

  function Normal(wanted: string): string { Upper(LeftTrimSlash(wanted)) }

  lemma NormalKeeps(s: string)
    requires s != "" && s[0] != '/'
    requires forall i :: 0 <= i < |s| ==> 'A' <= s[i] <= 'Z' || s[i] == '.' || s[i] == '/'
    ensures Normal(s) == s
  {
    UpperKeeps(s);
  }

  function Join(prefix: string, name: string): string {
    if prefix != "" then prefix + "/" + name else name
  }

  // ---- the GPT entry and the boot sector ----

  datatype Lookup<+T> = Hit(value: T) | Miss | Fault

  function FindEsp(data: seq<byte>, entriesLba: nat, i: nat): Lookup<nat>
    requires i <= 128
    decreases 128 - i
  {
    if i == 128 then Miss
    else
      var e := Slice(data, entriesLba * 512 + i * 128, entriesLba * 512 + (i + 1) * 128);
      if |e| < 128 then Miss
      else if e[0..16] == ESP_GUID then Hit(FromLe(e[32..40]))
      else FindEsp(data, entriesLba, i + 1)
  }

  function OpenVolume(data: seq<byte>): (r: Lookup<Volume>)
    ensures r.Hit? ==> r.value.rootCluster < CLUSTER_LIMIT
  {
    if Slice(data, 512, 520) != Ascii("EFI PART") then Miss
    else match Unpack(data, 512 + 72, 8)
      case None => Fault
      case Some(entriesLba) =>
        match FindEsp(data, entriesLba, 0)
        case Miss => Miss
        case Fault => Fault
        case Hit(firstLba) => OpenAt(data, firstLba)
  }

  function OpenAt(data: seq<byte>, firstLba: nat): (r: Lookup<Volume>)
    ensures r.Hit? ==> r.value.rootCluster < CLUSTER_LIMIT
  {
    var base := firstLba * 512;
    if Slice(data, base + 510, base + 512) != [0x55, 0xAA] || Slice(data, base + 82, base + 90) != Ascii("FAT32   ")
    then Miss
    else
      assert |data| >= base + 512;
      FromLeBound(data[base + 44..base + 48]); Widths();
      Hit(Volume(firstLba, FromLe(data[base + 14..base + 16]), FromLe(data[base + 36..base + 40]),
                 FromLe(data[base + 44..base + 48]), data[base + 13]))
  }

  // ---- clusters ----

  function ClusterBlob(data: seq<byte>, vol: Volume, cluster: nat): seq<byte> {
    Slice(data, vol.ClusterSector(cluster) * 512, (vol.ClusterSector(cluster) + 1) * 512)
  }

  function FatNext(data: seq<byte>, vol: Volume, cluster: nat): (next: Option<nat>)
    ensures next != None ==> next.value < 0x1000_0000
  {
    match Unpack(data, (vol.firstLba + vol.reserved) * 512 + cluster * 4, 4)
    case None => None
    case Some(v) => Some(v % 0x1000_0000)
  }

  predicate Ends(cluster: nat) { cluster == FAT_EOC || cluster == FAT_BAD }

  predicate IsCluster(c: nat) { c < CLUSTER_LIMIT }

  ghost function AllClusters(): set<nat> { set c: nat | c < CLUSTER_LIMIT && IsCluster(c) }

  /** The bytes a file's chain yields from `cur` on, with `size` bytes still wanted. The code
      masks an entry to 28 bits, stops at an end marker or a repeated cluster, and never reads
      the entry after the last byte. */
  function ReadChain(data: seq<byte>, vol: Volume, cur: nat, size: nat, seen: set<nat>): Option<seq<byte>>
    requires cur < CLUSTER_LIMIT
    decreases AllClusters() - seen
  {
    if size == 0 || Ends(cur) || cur in seen then Some([])
    else
      var sector := vol.ClusterSector(cur);
      var chunk := Slice(data, sector * 512, (sector + vol.spc) * 512);
      var take := if |chunk| < size then |chunk| else size;
      if size == take then Some(chunk[..take])
      else match FatNext(data, vol, cur)
        case None => None
        case Some(next) =>
          assert IsCluster(cur);
          match ReadChain(data, vol, next, size - take, seen + {cur})
          case None => None
          case Some(rest) => Some(chunk[..take] + rest)
  }

  /** Where reading on for less than a cluster ends: in a cluster on the image, on an end marker or a
      cluster read before, or on a table entry off the image. */
  datatype Landing = At(c: nat) | Stops | Raises

  /** Clusters off the image give no bytes and are passed over, link by link. */
  function Lands(data: seq<byte>, vol: Volume, cur: nat, seen: set<nat>): Landing
    requires cur < CLUSTER_LIMIT
    decreases AllClusters() - seen
  {
    if Ends(cur) || cur in seen then Stops
    else if ClusterBlob(data, vol, cur) != [] then At(cur)
    else
      match FatNext(data, vol, cur)
      case None => Raises
      case Some(next) =>
        assert IsCluster(cur);
        Lands(data, vol, next, seen + {cur})
  }

  /** On an image of whole sectors with one sector a cluster, the last bytes of a chain are the first ones
      of the cluster the reader lands in. */
  lemma {:induction false} ReadsLanding(data: seq<byte>, vol: Volume, cur: nat, size: nat, seen: set<nat>)
    requires |data| % 512 == 0 && vol.spc == 1 && vol.rootCluster <= vol.DataStart()
    requires cur < CLUSTER_LIMIT && 0 < size <= 512
    ensures var l := Lands(data, vol, cur, seen);
            && (l.At? ==> |ClusterBlob(data, vol, l.c)| == 512)
            && ReadChain(data, vol, cur, size, seen)
               == match l
                  case At(c) => Some(ClusterBlob(data, vol, c)[..size])
                  case Stops => Some([])
                  case Raises => None
    decreases AllClusters() - seen
  {
    hide FatNext;
    if !Ends(cur) && cur !in seen {
      assert IsCluster(cur);
      WholeBlob(data, vol, cur);
      var next := FatNext(data, vol, cur);
      if ClusterBlob(data, vol, cur) == [] && next != None {
        ReadsLanding(data, vol, next.value, size, seen + {cur});
        var rest := ReadChain(data, vol, next.value, size, seen + {cur});
        if rest != None { assert [] + rest.value == rest.value; }
      }
    }
  }

  lemma WholeBlob(data: seq<byte>, vol: Volume, cur: nat)
    requires |data| % 512 == 0 && vol.rootCluster <= vol.DataStart() && vol.spc == 1
    ensures |ClusterBlob(data, vol, cur)| == 0 || |ClusterBlob(data, vol, cur)| == 512
  {
    var m, sector := |data| / 512, vol.ClusterSector(cur);
    assert |data| == 512 * m && sector >= 0;
    if sector < m {
      assert 512 * sector + 512 <= |data|;
    } else {
      assert 512 * sector >= |data|;
    }
  }

  // ---- the directory walk ----

  datatype Step = Emit(content: seq<byte>) | EndMark | Exhausted | Raised

  function EntryCluster(e: seq<byte>): (c: nat)
    requires |e| == 32
    ensures c < CLUSTER_LIMIT
  {
    FromLeBound(e[20..22]); FromLeBound(e[26..28]); Widths();
    FromLe(e[20..22]) * 0x1_0000 + FromLe(e[26..28])
  }

  /** `walk(cluster, prefix)`; `depth` is what is left of Python's recursion limit. */
  function WalkDir(data: seq<byte>, vol: Volume, cluster: nat, prefix: string, wanted: string, seen: set<nat>,
                   depth: nat): CatResult
    requires cluster < CLUSTER_LIMIT
    decreases depth, AllClusters() - seen, 17
  {
    if Ends(cluster) || cluster in seen then NotFound
    else
      assert IsCluster(cluster);
      match WalkEntries(data, vol, ClusterBlob(data, vol, cluster), 0, prefix, wanted, seen + {cluster}, depth)
      case Emit(content) => Found(content)
      case Raised => Crash
      case EndMark => NotFound
      case Exhausted =>
        match FatNext(data, vol, cluster)
        case None => Crash
        case Some(next) => WalkDir(data, vol, next, prefix, wanted, seen + {cluster}, depth)
  }

  /** Entries `i`..15 of one directory cluster. */
  function WalkEntries(data: seq<byte>, vol: Volume, blob: seq<byte>, i: nat, prefix: string, wanted: string,
                       seen: set<nat>, depth: nat): Step
    requires i <= 16
    decreases depth, AllClusters() - seen, 16 - i
  {
    if i == 16 then Exhausted
    else
      var e := Slice(blob, i * 32, (i + 1) * 32);
      if |e| == 0 then Raised
      else if e[0] == 0x00 then EndMark
      else if e[0] == 0xE5 then WalkEntries(data, vol, blob, i + 1, prefix, wanted, seen, depth)
      else if |e| <= 11 then Raised
      else if e[11] / 8 % 2 == 1 then WalkEntries(data, vol, blob, i + 1, prefix, wanted, seen, depth)
      else if Decode83(e) in {".", ".."} then WalkEntries(data, vol, blob, i + 1, prefix, wanted, seen, depth)
      else if |e| < 32 then Raised
      else
        var full := Join(prefix, Decode83(e));
        if e[11] / 16 % 2 == 1 then
          if depth == 0 then Raised
          else match WalkDir(data, vol, EntryCluster(e), full, wanted, {}, depth - 1)
            case Found(content) => Emit(content)
            case Crash => Raised
            case NotFound => WalkEntries(data, vol, blob, i + 1, prefix, wanted, seen, depth)
        else if full == wanted then
          match ReadChain(data, vol, EntryCluster(e), FromLe(e[28..32]), {})
          case None => Raised
          case Some(content) => Emit(content)
        else WalkEntries(data, vol, blob, i + 1, prefix, wanted, seen, depth)
  }

  /** cat_file on the bytes of an image, with `depth` nested walks allowed. */
  function CatSpec(data: seq<byte>, wanted: string, depth: nat): CatResult {
    match OpenVolume(data)
    case Miss => NotFound
    case Fault => Crash
    case Hit(vol) =>
      WalkDir(data, vol, vol.rootCluster, "", Normal(wanted), {}, depth)
  }

  // ---- the same, as the original runs it ----

  lemma EspStep(data: seq<byte>, entriesLba: nat, i: nat)
    requires i < 128
    ensures var e := Slice(data, entriesLba * 512 + i * 128, entriesLba * 512 + (i + 1) * 128);
            FindEsp(data, entriesLba, i)
            == if |e| < 128 then Miss
               else if e[0..16] == ESP_GUID then Lookup.Hit(FromLe(e[32..40]))
               else FindEsp(data, entriesLba, i + 1)
  {
    hide Slice, FromLe;
  }

  lemma EspEnd(data: seq<byte>, entriesLba: nat)
    ensures FindEsp(data, entriesLba, 128) == Miss
  {
  }

  method FindEspEntry(data: seq<byte>, entriesLba: nat) returns (r: Lookup<nat>)
    ensures r == FindEsp(data, entriesLba, 0)
  {
    hide FindEsp, Slice, FromLe;
    for i := 0 to 128
      invariant FindEsp(data, entriesLba, 0) == FindEsp(data, entriesLba, i)
    {
      EspStep(data, entriesLba, i);
      var e := Slice(data, entriesLba * 512 + i * 128, entriesLba * 512 + (i + 1) * 128);
      if |e| < 128 { return Miss; }
      if e[0..16] == ESP_GUID { return Lookup.Hit(FromLe(e[32..40])); }
    }
    EspEnd(data, entriesLba);
    r := Miss;
  }

  /** One turn of the chain loop. */
  lemma ReadsOn(data: seq<byte>, vol: Volume, cur: nat, size: nat, seen: set<nat>)
    requires cur < CLUSTER_LIMIT && size > 0 && !Ends(cur) && cur !in seen
    ensures var sector := vol.ClusterSector(cur);
            var chunk := Slice(data, sector * 512, (sector + vol.spc) * 512);
            var take := if |chunk| < size then |chunk| else size;
            ReadChain(data, vol, cur, size, seen)
            == if take == size then Some(chunk[..take])
               else match FatNext(data, vol, cur)
                    case None => None
                    case Some(next) => After(chunk[..take], ReadChain(data, vol, next, size - take, seen + {cur}))
  {
    hide FatNext, Slice, Volume.ClusterSector;
  }

  lemma ReadsNoFurther(data: seq<byte>, vol: Volume, cur: nat, size: nat, seen: set<nat>)
    requires cur < CLUSTER_LIMIT && (size == 0 || Ends(cur) || cur in seen)
    ensures ReadChain(data, vol, cur, size, seen) == Some([])
  {
  }

  method EmitFile(data: seq<byte>, vol: Volume, first: nat, fileSize: nat) returns (r: Option<seq<byte>>)
    requires first < CLUSTER_LIMIT
    ensures r == ReadChain(data, vol, first, fileSize, {})
  {
    hide Slice, FatNext, Volume.ClusterSector, ReadChain, After;
    var out: seq<byte> := [];
    var size: nat, cur: nat, chain: set<nat> := fileSize, first, {};
    AfterNone(ReadChain(data, vol, first, fileSize, {}));
    while size > 0 && !Ends(cur) && cur !in chain
      invariant cur < CLUSTER_LIMIT
      invariant ReadChain(data, vol, first, fileSize, {}) == After(out, ReadChain(data, vol, cur, size, chain))
      decreases AllClusters() - chain
    {
      assert IsCluster(cur);
      ReadsOn(data, vol, cur, size, chain);
      chain := chain + {cur};
      var sector := vol.ClusterSector(cur);
      var chunk := Slice(data, sector * 512, (sector + vol.spc) * 512);
      var take := if |chunk| < size then |chunk| else size;
      if size == take {
        AfterSome(out, chunk[..take]);
        return Some(out + chunk[..take]);
      }
      var next := FatNext(data, vol, cur);
      if next == None {
        AfterNothing(out);
        return None;
      }
      cur := next.value;
      size := size - take;
      AfterMore(out, chunk[..take], ReadChain(data, vol, cur, size, chain));
      out := out + chunk[..take];
    }
    ReadsNoFurther(data, vol, cur, size, chain);
    AfterAll(out);
    r := Some(out);
  }

  method Walk(data: seq<byte>, vol: Volume, first: nat, prefix: string, wanted: string, depth: nat)
    returns (r: CatResult)
    requires first < CLUSTER_LIMIT
    ensures r == WalkDir(data, vol, first, prefix, wanted, {}, depth)
    decreases depth
  {
    hide Slice, FatNext, ClusterBlob, Decode83, Join, EntryCluster, ReadChain, FromLe;
    var cluster: nat, seen: set<nat> := first, {};
    while !Ends(cluster) && cluster !in seen
      invariant cluster < CLUSTER_LIMIT
      invariant WalkDir(data, vol, first, prefix, wanted, {}, depth)
             == WalkDir(data, vol, cluster, prefix, wanted, seen, depth)
      decreases AllClusters() - seen
    {
      assert IsCluster(cluster);
      seen := seen + {cluster};
      var blob := ClusterBlob(data, vol, cluster);
      for i := 0 to 16
        invariant WalkEntries(data, vol, blob, 0, prefix, wanted, seen, depth)
               == WalkEntries(data, vol, blob, i, prefix, wanted, seen, depth)
      {
        var e := Slice(blob, i * 32, (i + 1) * 32);
        if |e| == 0 { return Crash; }
        if e[0] == 0x00 { return NotFound; }
        if e[0] == 0xE5 { continue; }
        if |e| <= 11 { return Crash; }
        if e[11] / 8 % 2 == 1 { continue; }
        var name := Decode83(e);
        if name in {".", ".."} { continue; }
        if |e| < 32 { return Crash; }
        var full := Join(prefix, name);
        if e[11] / 16 % 2 == 1 {
          if depth == 0 { return Crash; }
          var found := Walk(data, vol, EntryCluster(e), full, wanted, depth - 1);
          if found != NotFound { return found; }
        } else if full == wanted {
          var content := EmitFile(data, vol, EntryCluster(e), FromLe(e[28..32]));
          return if content == None then Crash else Found(content.value);
        }
      }
      var next := FatNext(data, vol, cluster);
      if next == None { return Crash; }
      cluster := next.value;
    }
    r := NotFound;
  }

  /** cat_file; `depth` is the recursion limit. */
  method CatFile(data: seq<byte>, wanted: string, depth: nat) returns (r: CatResult)
    ensures r == CatSpec(data, wanted, depth)
  {
    if Slice(data, 512, 520) != Ascii("EFI PART") { return NotFound; }
    var entriesLba := Unpack(data, 512 + 72, 8);
    if entriesLba == None { return Crash; }
    var esp := FindEspEntry(data, entriesLba.value);
    if !esp.Hit? { return if esp.Miss? then NotFound else Crash; }
    var vol := OpenAt(data, esp.value);
    if !vol.Hit? { return if vol.Miss? then NotFound else Crash; }
    r := Walk(data, vol.value, vol.value.rootCluster, "", Normal(wanted), depth);
  }
}
