/** What the reader finds in the images the builder makes. */
module Fat32RoundTrip {
  import opened Bytes
  import opened Fat32Geometry
  import opened Fat32Image
  import opened Fat32Reader
  import opened Options

  // ---- fields of the fixed records ----

  lemma SubSlice(d: seq<byte>, off: nat, s: seq<byte>, a: nat, b: nat)
    requires off + |s| <= |d| && d[off..off + |s|] == s && a <= b <= |s|
    ensures d[off + a..off + b] == s[a..b]
  {
    forall i | a <= i < b ensures d[off + i] == s[i] {
      assert d[off + i] == d[off..off + |s|][i];
    }
  }

  lemma GptHeaderFields(current: nat, backup: nat, first: nat, last: nat, entriesLba: nat, entriesCrc: nat, crc: Crc)
    requires entriesLba < 0x1_0000_0000_0000_0000
    ensures var h := GptHeader(current, backup, first, last, entriesLba, entriesCrc, crc);
            h[0..8] == Ascii("EFI PART") && FromLe(h[72..80]) == entriesLba
  {
    hide Record, Ascii, Le, FromLe, Pow256;
    var fields := GptFields(current, backup, first, last, entriesLba, entriesCrc);
    var all := fields + [Write(16, Le(Crc32(crc, Record(92, fields)), 4))];
    assert all[0] == Write(0, Ascii("EFI PART"));
    assert all[10] == Write(72, Le(entriesLba, 8));
    FieldReads(92, all, 0);
    FieldReads(92, all, 10);
    Widths();
    LeRoundTrip(entriesLba, 8);
  }

  lemma PartitionEntryFields(firstLba: nat, lastLba: nat)
    requires firstLba < 0x1_0000_0000_0000_0000
    ensures var e := Record(128, PartitionFields(firstLba, lastLba));
            e[0..16] == ESP_GUID && FromLe(e[32..40]) == firstLba
  {
    hide Record, Ascii, Utf16, Le, FromLe, Pow256;
    var fields := PartitionFields(firstLba, lastLba);
    assert fields[2] == Write(32, Le(firstLba, 8));
    FieldReads(128, fields, 0);
    FieldReads(128, fields, 2);
    Widths();
    LeRoundTrip(firstLba, 8);
  }

  predicate InOrder(f: seq<Write>) { forall m :: 0 <= m < |f| - 1 ==> f[m].End() <= f[m + 1].off }

  lemma ParameterOrder(g: Geometry)
    requires g.totalSectors >= 0 && g.fatSectors >= 0
    ensures var f := ParameterFields(g); InOrder(f) && f[13].End() == 36
  {
    hide Ascii, Le;
  }

  lemma ExtendedOrder(g: Geometry)
    requires g.totalSectors >= 0 && g.fatSectors >= 0
    ensures var f := ExtendedFields(g); InOrder(f) && f[0].off == 36
  {
    hide Ascii, Le;
  }

  lemma BootFieldsInOrder(g: Geometry)
    requires g.totalSectors >= 0 && g.fatSectors >= 0
    ensures forall i, j :: 0 <= i < j < |BootFields(g)| ==> BootFields(g)[i].End() <= BootFields(g)[j].off
  {
    hide ParameterFields, ExtendedFields;
    ParameterOrder(g);
    ExtendedOrder(g);
    var f := BootFields(g);
    assert forall m :: 0 <= m < |f| - 1 ==> f[m].End() <= f[m + 1].off;
    forall i, j | 0 <= i < j < |f| ensures f[i].End() <= f[j].off {
      Ordered(f, i, j);
    }
  }

  lemma {:induction false} Ordered(f: seq<Write>, i: nat, j: nat)
    requires i < j < |f| && InOrder(f)
    ensures f[i].End() <= f[j].off
    decreases j
  {
    if i < j - 1 { Ordered(f, i, j - 1); }
    assert f[j - 1].End() <= f[j - 1 + 1].off;
  }

  /** The fields the reader uses. */
  lemma BootFieldTable(g: Geometry)
    requires g.totalSectors >= 0 && g.fatSectors >= 0
    ensures var f := BootFields(g);
            && |f| == 26
            && f[3] == Write(13, [1]) && f[4] == Write(14, Le(32, 2)) && f[5] == Write(16, [2])
            && f[13] == Write(32, Le(g.totalSectors, 4)) && f[14] == Write(36, Le(g.fatSectors, 4))
            && f[17] == Write(44, Le(2, 4)) && f[24] == Write(82, FS_TYPE) && f[25] == Write(510, [0x55, 0xAA])
  {
    hide Ascii, Le;
  }

  lemma BootFieldReads(g: Geometry, k: nat, off: nat, data: seq<byte>)
    requires g.totalSectors >= 0 && g.fatSectors >= 0
    requires k < |BootFields(g)| && BootFields(g)[k] == Write(off, data)
    ensures off + |data| <= 512 && BootSector(g)[off..off + |data|] == data
  {
    hide Record, Ascii, Le, BootFields;
    BootFieldsInOrder(g);
    FieldReads(512, BootFields(g), k);
  }

  lemma BootNumber(g: Geometry, k: nat, off: nat, n: nat, v: nat)
    requires g.totalSectors >= 0 && g.fatSectors >= 0 && v < Pow256(n)
    requires k < |BootFields(g)| && BootFields(g)[k] == Write(off, Le(v, n))
    ensures off + n <= 512 && FromLe(BootSector(g)[off..off + n]) == v
  {
    hide Record, BootFields, BootSector, Le, FromLe, Pow256;
    BootFieldReads(g, k, off, Le(v, n));
    LeRoundTrip(v, n);
  }

  lemma BootSectorNumbers(g: Geometry)
    requires Sound(g)
    ensures var b := BootSector(g);
            && FromLe(b[14..16]) == 32
            && FromLe(b[36..40]) == g.fatSectors
            && FromLe(b[44..48]) == 2
            && FromLe(b[32..36]) == g.totalSectors
  {
    hide BootSector, Le, FromLe, Pow256, Ascii, BootFields;
    BootFieldTable(g);
    Widths();
    BootNumber(g, 4, 14, 2, 32);
    BootNumber(g, 13, 32, 4, g.totalSectors);
    BootNumber(g, 14, 36, 4, g.fatSectors);
    BootNumber(g, 17, 44, 4, 2);
  }

  lemma FsTypeIsFat32()
    ensures FS_TYPE == Ascii("FAT32   ")
  {
    var a := Ascii("FAT32   ");
    assert |a| == 8 && a[0] == 0x46 && a[1] == 0x41 && a[2] == 0x54 && a[3] == 0x33 && a[4] == 0x32 && a[5] == 0x20;
    assert a[6] == 0x20 && a[7] == 0x20;
  }

  lemma BootSectorMarks(g: Geometry)
    requires Sound(g)
    ensures var b := BootSector(g);
            b[510..512] == [0x55, 0xAA] && b[82..90] == Ascii("FAT32   ") && b[13] == 1 && b[16] == 2
  {
    hide BootSector, Le, Ascii, BootFields;
    BootFieldTable(g);
    BootFieldReads(g, 3, 13, [1]);
    BootFieldReads(g, 5, 16, [2]);
    BootFieldReads(g, 24, 82, FS_TYPE);
    FsTypeIsFat32();
    BootFieldReads(g, 25, 510, [0x55, 0xAA]);
    var b := BootSector(g);
    assert b[13] == b[13..14][0] && b[16] == b[16..17][0];
  }

  /** By Microsoft's rule (cluster count from the BPB fields, "FAT Type Determination") the boot
      sector describes a FAT32 volume with exactly the clusters the geometry counted. */
  lemma DescribesFat32(g: Geometry)
    requires Sound(g)
    ensures var b := BootSector(g);
            && b[13] != 0
            && (FromLe(b[32..36]) - (FromLe(b[14..16]) + b[16] * FromLe(b[36..40]))) / b[13] == g.clusters > 65525
  {
    hide BootSector, FromLe;
    BootSectorNumbers(g);
    BootSectorMarks(g);
  }

  /** A directory entry gives back the name, attribute, cluster and size it was built from. */
  lemma DirEntryFields(name11: seq<byte>, attr: byte, cluster: nat, size: nat)
    requires |name11| == 11 && cluster < 0x1_0000_0000 && size < 0x1_0000_0000
    ensures var e := DirEntry(name11, attr, cluster, size);
            e[0..11] == name11 && e[11] == attr && EntryCluster(e) == cluster && FromLe(e[28..32]) == size
  {
    hide Record, Le, FromLe, Pow256;
    var f := DirFields(name11, attr, cluster, size);
    assert f[1] == Write(11, [attr]) && f[2] == Write(20, Le(cluster / 0x1_0000 % 0x1_0000, 2));
    assert f[3] == Write(26, Le(cluster % 0x1_0000, 2)) && f[4] == Write(28, Le(size, 4));
    FieldReads(32, f, 0);
    FieldReads(32, f, 1);
    FieldReads(32, f, 2);
    FieldReads(32, f, 3);
    FieldReads(32, f, 4);
    var e := DirEntry(name11, attr, cluster, size);
    assert e[11] == e[11..12][0];
    Widths();
    LeRoundTrip(cluster / 0x1_0000 % 0x1_0000, 2);
    LeRoundTrip(cluster % 0x1_0000, 2);
    LeRoundTrip(size, 4);
  }

  // ---- where every write of a build lies ----

  ghost predicate Accepted(sizeMb: int, efi: seq<byte>, kernel: seq<byte>) {
    && Solvable(TotalSectors(sizeMb) - ESP_OFFSET)
    && Refusal(VolumeOf(sizeMb), |efi|, |kernel|) == None
  }

  /** The sectors of each write: GPT first, then boot sectors, FATs, and one sector for every
      cluster in use, in cluster order. */
  ghost predicate LaidOut(ws: seq<Write>, g: Geometry, efi: seq<byte>, kernel: seq<byte>)
    requires Sound(g)
  {
    var total := ESP_OFFSET + g.totalSectors;
    var fat := FatRegion(g, |efi|, |kernel|);
    && |ws| == 9 + KernelEnd(|efi|, |kernel|)
    && ws[0].off == 0 && |ws[0].data| == 512
    && ws[1].off == 512 && |ws[1].data| == 512
    && ws[2].off == 2 * 512 && |ws[2].data| == 32 * 512
    && ws[3].off == (total - 1) * 512 && |ws[3].data| == 512
    && ws[4].off == (total - 33) * 512 && |ws[4].data| == 32 * 512
    && ws[5].off == g.baseLba * 512 && |ws[5].data| == 512
    && ws[6].off == (g.baseLba + 1) * 512 && |ws[6].data| == 512
    && ws[7].off == (g.baseLba + 6) * 512 && |ws[7].data| == 512
    && ws[8].off == (g.baseLba + 7) * 512 && |ws[8].data| == 512
    && ws[9] == Write(g.FatSector(0) * 512, fat)
    && ws[10] == Write(g.FatSector(1) * 512, fat)
    && (forall c :: 2 <= c < KernelEnd(|efi|, |kernel|) ==>
          ws[9 + c] == Write(g.ClusterSector(c) * 512, ClusterData(efi, kernel, c)))
  }

  /** What the builder puts in cluster `c`. */
  function ClusterData(efi: seq<byte>, kernel: seq<byte>, c: nat): (data: seq<byte>)
    requires 2 <= c < KernelEnd(|efi|, |kernel|)
    ensures |data| == 512
  {
    if c == 2 then RootDirectory(|efi|, |kernel|)
    else if c == EFI_DIR then EfiDirectory()
    else if c == BOOT_DIR then BootDirectory(|efi|)
    else if c < KernelStart(|efi|) then Chunk(efi, c - EFI_START)
    else Chunk(kernel, c - KernelStart(|efi|))
  }

  lemma DirectoryCluster(g: Geometry, efi: seq<byte>, kernel: seq<byte>, c: nat)
    requires Sound(g) && 2 <= c < EFI_START
    ensures DirectoryWrites(g, |efi|, |kernel|)[c - 2] == Write(g.ClusterSector(c) * 512, ClusterData(efi, kernel, c))
  {
    hide RootDirectory, EfiDirectory, BootDirectory, Chunk, Geometry.ClusterSector, Sound;
  }

  lemma LoaderCluster(g: Geometry, efi: seq<byte>, kernel: seq<byte>, c: nat)
    requires Sound(g) && EFI_START <= c < KernelStart(|efi|)
    ensures FileWrites(g, EFI_START, efi, ClusterCount(|efi|))[c - EFI_START]
         == Write(g.ClusterSector(c) * 512, ClusterData(efi, kernel, c))
  {
    hide Chunk, Geometry.ClusterSector, Sound;
  }

  lemma KernelCluster(g: Geometry, efi: seq<byte>, kernel: seq<byte>, c: nat)
    requires Sound(g) && KernelStart(|efi|) <= c < KernelEnd(|efi|, |kernel|)
    ensures FileWrites(g, KernelStart(|efi|), kernel, ClusterCount(|kernel|))[c - KernelStart(|efi|)]
         == Write(g.ClusterSector(c) * 512, ClusterData(efi, kernel, c))
  {
    hide Chunk, Geometry.ClusterSector, Sound;
  }

  /** One write per cluster in use, in cluster order. */
  lemma ClusterWrites(g: Geometry, efi: seq<byte>, kernel: seq<byte>, c: nat)
    requires Sound(g) && 2 <= c < KernelEnd(|efi|, |kernel|)
    ensures var e := FileWrites(g, EFI_START, efi, ClusterCount(|efi|));
            var k := FileWrites(g, KernelStart(|efi|), kernel, ClusterCount(|kernel|));
            (DirectoryWrites(g, |efi|, |kernel|) + e + k)[c - 2]
            == Write(g.ClusterSector(c) * 512, ClusterData(efi, kernel, c))
  {
    hide DirectoryWrites, FileWrites, ClusterData;
    var dirs := DirectoryWrites(g, |efi|, |kernel|);
    var e := FileWrites(g, EFI_START, efi, ClusterCount(|efi|));
    var k := FileWrites(g, KernelStart(|efi|), kernel, ClusterCount(|kernel|));
    var w := Write(g.ClusterSector(c) * 512, ClusterData(efi, kernel, c));
    assert EFI_START <= KernelStart(|efi|);
    if c < EFI_START {
      DirectoryCluster(g, efi, kernel, c);
      InFirst(dirs, e, k, c - 2, w);
    } else if c < KernelStart(|efi|) {
      LoaderCluster(g, efi, kernel, c);
      InSecond(dirs, e, k, c - EFI_START, w);
    } else {
      KernelCluster(g, efi, kernel, c);
      InThird(dirs, e, k, c - KernelStart(|efi|), w);
    }
  }

  lemma InFirst(a: seq<Write>, b: seq<Write>, c: seq<Write>, i: nat, w: Write)
    requires i < |a| && a[i] == w
    ensures (a + b + c)[i] == w
  {
  }

  lemma InSecond(a: seq<Write>, b: seq<Write>, c: seq<Write>, i: nat, w: Write)
    requires i < |b| && b[i] == w
    ensures (a + b + c)[|a| + i] == w
  {
  }

  lemma InThird(a: seq<Write>, b: seq<Write>, c: seq<Write>, i: nat, w: Write)
    requires i < |c| && c[i] == w
    ensures (a + b + c)[|a| + |b| + i] == w
  {
  }

  lemma WritesAreLaidOut(sizeMb: int, efi: seq<byte>, kernel: seq<byte>, crc: Crc)
    requires Accepted(sizeMb, efi, kernel)
    ensures Sound(VolumeOf(sizeMb))
    ensures VolumeOf(sizeMb).baseLba + VolumeOf(sizeMb).totalSectors == TotalSectors(sizeMb)
    ensures LaidOut(AllWrites(sizeMb, efi, kernel, crc), VolumeOf(sizeMb), efi, kernel)
    ensures AllWrites(sizeMb, efi, kernel, crc)[..5] == GptWrites(TotalSectors(sizeMb), crc)
    ensures AllWrites(sizeMb, efi, kernel, crc)[5].data == BootSector(VolumeOf(sizeMb))
  {
    hide BootSector, FsInfoSector, RootDirectory, EfiDirectory, BootDirectory, FatRegion, Chunk, ClusterData;
    hide ProtectiveMbr, GptHeader, PartitionArray, Solve, Refusal, DirectoryWrites, FileWrites;
    AcceptedIsSound(sizeMb, |efi|, |kernel|);
    var g := VolumeOf(sizeMb);
    var gpt := GptWrites(TotalSectors(sizeMb), crc);
    var e := FileWrites(g, EFI_START, efi, ClusterCount(|efi|));
    var k := FileWrites(g, KernelStart(|efi|), kernel, ClusterCount(|kernel|));
    var tail := DirectoryWrites(g, |efi|, |kernel|) + e + k;
    var ws := gpt + BootWrites(g) + FatWrites(g, FatRegion(g, |efi|, |kernel|)) + tail;
    assert AllWrites(sizeMb, efi, kernel, crc) == ws;
    assert ws[..5] == gpt;
    forall c | 2 <= c < KernelEnd(|efi|, |kernel|)
      ensures ws[9 + c] == Write(g.ClusterSector(c) * 512, ClusterData(efi, kernel, c))
    {
      ClusterWrites(g, efi, kernel, c);
      assert ws[11 + (c - 2)] == tail[c - 2];
    }
  }

  // ---- what can be read back from the image ----

  /** `d` is the image the writes `ws` make. */
  ghost predicate Holds(d: seq<byte>, ws: seq<Write>, g: Geometry, efi: seq<byte>, kernel: seq<byte>) {
    && Sound(g)
    && KernelEnd(|efi|, |kernel|) - 2 <= g.clusters
    && |efi| < 0x1_0000_0000 && |kernel| < 0x1_0000_0000
    && LaidOut(ws, g, efi, kernel)
    && |d| == (g.baseLba + g.totalSectors) * 512
    && Fits(ws, |d|)
    && d == Apply(Zeros(|d|), ws)
  }

  /** The volume as the reader sees it. */
  function Mounted(g: Geometry): Volume
    requires Sound(g)
  {
    Volume(ESP_OFFSET, 32, g.fatSectors, 2, 1)
  }

  lemma HoldsSome(d: seq<byte>, ws: seq<Write>, g: Geometry, efi: seq<byte>, kernel: seq<byte>)
    requires Holds(d, ws, g, efi, kernel)
    ensures |ws| == 9 + KernelEnd(|efi|, |kernel|) >= 14
  {
    hide Apply;
  }

  /** No write after the k-th one touches its first `n` bytes. */
  lemma LaterApart(ws: seq<Write>, g: Geometry, efi: seq<byte>, kernel: seq<byte>, k: nat, n: nat, j: nat)
    requires Sound(g) && LaidOut(ws, g, efi, kernel) && KernelEnd(|efi|, |kernel|) - 2 <= g.clusters
    requires k in {1, 2, 5} || 9 <= k < |ws|
    requires k < j < |ws| && n <= |ws[k].data| && (k in {9, 10} ==> n == 512 * g.fatSectors)
    ensures Apart(ws[k].off, ws[k].off + n, ws[j])
  {
    hide BootSector, FatRegion, ClusterData;
    if j >= 11 {
      assert ws[9 + (j - 9)].off == g.ClusterSector(j - 9) * 512;
      if k >= 11 { assert ws[9 + (k - 9)].off == g.ClusterSector(k - 9) * 512; }
    }
  }

  lemma ReadsWrite(d: seq<byte>, ws: seq<Write>, g: Geometry, efi: seq<byte>, kernel: seq<byte>, k: nat, n: nat)
    requires Holds(d, ws, g, efi, kernel)
    requires k in {1, 2, 5} || 9 <= k < |ws|
    requires n <= |ws[k].data| && (k in {9, 10} ==> n == 512 * g.fatSectors)
    ensures ws[k].off + n <= |d| && d[ws[k].off..ws[k].off + n] == ws[k].data[..n]
  {
    hide Apply, LaidOut;
    HoldsSome(d, ws, g, efi, kernel);
    forall j | k < j < |ws|
      ensures Apart(ws[k].off + 0, ws[k].off + n, ws[j])
    {
      LaterApart(ws, g, efi, kernel, k, n, j);
    }
    Survives(Zeros(|d|), ws, k, 0, n);
  }

  lemma ReadsCluster(d: seq<byte>, ws: seq<Write>, g: Geometry, efi: seq<byte>, kernel: seq<byte>, c: nat)
    requires Holds(d, ws, g, efi, kernel) && 2 <= c < KernelEnd(|efi|, |kernel|)
    ensures ClusterBlob(d, Mounted(g), c) == ClusterData(efi, kernel, c)
  {
    hide Apply, BootSector, FatRegion, ClusterData;
    assert ws[9 + c] == Write(g.ClusterSector(c) * 512, ClusterData(efi, kernel, c));
    ReadsWrite(d, ws, g, efi, kernel, 9 + c, 512);
    assert Mounted(g).ClusterSector(c) == g.ClusterSector(c);
  }

  lemma FatEntryBound(j: nat, efiSize: nat, kernelSize: nat)
    requires KernelEnd(efiSize, kernelSize) <= FAT_EOC
    ensures FatEntry(j, efiSize, kernelSize) <= FAT_EOC
  {
  }

  /** The bytes of entry `j` in a FAT region. */
  lemma RegionEntry(g: Geometry, efiSize: nat, kernelSize: nat, j: nat)
    requires Sound(g) && j < g.clusters + 2 && KernelEnd(efiSize, kernelSize) <= FAT_EOC
    ensures 4 * j + 4 <= |FatRegion(g, efiSize, kernelSize)|
    ensures FromLe(FatRegion(g, efiSize, kernelSize)[4 * j..4 * j + 4]) == FatEntry(j, efiSize, kernelSize)
  {
    hide Le, FromLe, FatBytes, FatEntry;
    var fat := FatTable(g.clusters + 2, efiSize, kernelSize);
    FatBytesAt(fat, j);
    assert FatBytes(fat) <= FatRegion(g, efiSize, kernelSize);
    assert FatRegion(g, efiSize, kernelSize)[4 * j..4 * j + 4] == FatBytes(fat)[4 * j..4 * j + 4];
    FatEntryBound(j, efiSize, kernelSize);
    Widths();
    LeRoundTrip(FatEntry(j, efiSize, kernelSize), 4);
  }

  /** Inside the first FAT the reader sees the entry that was meant for the cluster. */
  lemma ReadsFat(d: seq<byte>, ws: seq<Write>, g: Geometry, efi: seq<byte>, kernel: seq<byte>, c: nat)
    requires Holds(d, ws, g, efi, kernel) && c < 128 * g.fatSectors && c < g.clusters + 2
    ensures FatNext(d, Mounted(g), c) == Some(FatEntry(c, |efi|, |kernel|))
  {
    hide Apply, BootSector, ClusterData, FromLe, FatEntry, FatRegion;
    var region := FatRegion(g, |efi|, |kernel|);
    var n := 512 * g.fatSectors;
    RegionEntry(g, |efi|, |kernel|, c);
    ReadsWrite(d, ws, g, efi, kernel, 9, n);
    var off := g.FatSector(0) * 512;
    SubSlice(d, off, region[..n], 4 * c, 4 * c + 4);
    assert region[..n][4 * c..4 * c + 4] == region[4 * c..4 * c + 4];
    FatEntryBound(c, |efi|, |kernel|);
  }

  /** The entry just past the first FAT is the first one of the second FAT. */
  lemma ReadsPastFat(d: seq<byte>, ws: seq<Write>, g: Geometry, efi: seq<byte>, kernel: seq<byte>)
    requires Holds(d, ws, g, efi, kernel)
    ensures FatNext(d, Mounted(g), 128 * g.fatSectors) == Some(0x0FFF_FFF8)
  {
    hide Apply, BootSector, ClusterData, FromLe, FatRegion;
    var region := FatRegion(g, |efi|, |kernel|);
    var n := 512 * g.fatSectors;
    RegionEntry(g, |efi|, |kernel|, 0);
    ReadsWrite(d, ws, g, efi, kernel, 10, n);
    SubSlice(d, g.FatSector(1) * 512, region[..n], 0, 4);
    assert region[..n][0..4] == region[0..4];
  }

  // ---- opening the volume ----

  /** Behind the GPT and the boot sector the reader finds the volume the builder made. */
  lemma OpensVolume(d: seq<byte>, ws: seq<Write>, g: Geometry, efi: seq<byte>, kernel: seq<byte>, crc: Crc)
    requires Holds(d, ws, g, efi, kernel)
    ensures ws[..5] == GptWrites(ESP_OFFSET + g.totalSectors, crc) && ws[5].data == BootSector(g) ==>
              OpenVolume(d) == Lookup.Hit(Mounted(g))
  {
    hide Apply, BootSector, FatRegion, ClusterData, GptHeader, PartitionArray, ProtectiveMbr, FromLe, Ascii, OpenAt;
    hide FindEsp;
    if ws[..5] == GptWrites(ESP_OFFSET + g.totalSectors, crc) && ws[5].data == BootSector(g) {
      FindsEsp(d, ws, g, efi, kernel, crc);
      OpensAt(d, ws, g, efi, kernel);
      SeesGpt(d, ws, g, efi, kernel, crc);
    }
  }

  lemma SeesGpt(d: seq<byte>, ws: seq<Write>, g: Geometry, efi: seq<byte>, kernel: seq<byte>, crc: Crc)
    requires Holds(d, ws, g, efi, kernel)
    ensures ws[..5] == GptWrites(ESP_OFFSET + g.totalSectors, crc) ==>
              Slice(d, 512, 520) == Ascii("EFI PART") && Unpack(d, 512 + 72, 8) == Some(2)
  {
    hide Apply, LaidOut, GptHeader, PartitionArray, ProtectiveMbr, FromLe, Ascii;
    HoldsSome(d, ws, g, efi, kernel);
    if ws[..5] == GptWrites(ESP_OFFSET + g.totalSectors, crc) {
      var total := ESP_OFFSET + g.totalSectors;
      var entries := PartitionArray(total);
      var header := GptHeader(1, total - 1, 34, total - 34, 2, Crc32(crc, entries), crc);
      assert ws[1] == ws[..5][1] == Write(512, PadTo(header, 512));
      ReadsWrite(d, ws, g, efi, kernel, 1, 512);
      GptHeaderFields(1, total - 1, 34, total - 34, 2, Crc32(crc, entries), crc);
      SeesHeader(d, header);
    }
  }

  lemma SeesHeader(d: seq<byte>, header: seq<byte>)
    requires |d| >= 1024 && 80 <= |header| <= 512 && d[512..1024] == PadTo(header, 512)
    ensures Slice(d, 512, 520) == header[0..8]
    ensures Unpack(d, 512 + 72, 8) == Some(FromLe(header[72..80]))
  {
    hide FromLe;
    var sector := PadTo(header, 512);
    SubSlice(d, 512, sector, 0, 8);
    SubSlice(d, 512, sector, 72, 80);
    assert sector[0..8] == header[0..8] && sector[72..80] == header[72..80];
  }

  lemma FindsEsp(d: seq<byte>, ws: seq<Write>, g: Geometry, efi: seq<byte>, kernel: seq<byte>, crc: Crc)
    requires Holds(d, ws, g, efi, kernel)
    ensures ws[..5] == GptWrites(ESP_OFFSET + g.totalSectors, crc) ==> FindEsp(d, 2, 0) == Lookup.Hit(ESP_OFFSET)
  {
    hide Apply, BootSector, FatRegion, ClusterData, GptHeader, ProtectiveMbr, FromLe, PartitionArray;
    if ws[..5] == GptWrites(ESP_OFFSET + g.totalSectors, crc) {
      var total := ESP_OFFSET + g.totalSectors;
      var entries := PartitionArray(total);
      assert ws[2] == ws[..5][2] == Write(2 * 512, entries);
      ReadsWrite(d, ws, g, efi, kernel, 2, 32 * 512);
      assert entries[..32 * 512] == entries;
      SubSlice(d, 2 * 512, entries, 0, 128);
      PartitionArrayHead(total);
      assert Slice(d, 2 * 512 + 0 * 128, 2 * 512 + 1 * 128) == entries[0..128];
    }
  }

  lemma PartitionArrayHead(total: nat)
    requires 34 <= total
    ensures var e := PartitionArray(total)[0..128];
            e[0..16] == ESP_GUID && FromLe(e[32..40]) == ESP_OFFSET
  {
    hide FromLe, Record, PartitionFields;
    PartitionEntryFields(ESP_OFFSET, total - 34);
    assert PartitionArray(total)[0..128] == Record(128, PartitionFields(ESP_OFFSET, total - 34));
  }

  lemma OpensAt(d: seq<byte>, ws: seq<Write>, g: Geometry, efi: seq<byte>, kernel: seq<byte>)
    requires Holds(d, ws, g, efi, kernel)
    ensures ws[5].data == BootSector(g) ==> OpenAt(d, ESP_OFFSET) == Lookup.Hit(Mounted(g))
  {
    hide Apply, BootSector, FatRegion, ClusterData, FromLe, Ascii;
    if ws[5].data == BootSector(g) {
      var b := BootSector(g);
      var base := ESP_OFFSET * 512;
      ReadsWrite(d, ws, g, efi, kernel, 5, 512);
      assert b[..512] == b;
      BootSectorNumbers(g);
      BootSectorMarks(g);
      SubSlice(d, base, b, 510, 512);
      SubSlice(d, base, b, 82, 90);
      SubSlice(d, base, b, 14, 16);
      SubSlice(d, base, b, 36, 40);
      SubSlice(d, base, b, 44, 48);
      SubSlice(d, base, b, 13, 14);
      assert d[base + 13] == d[base + 13..base + 14][0] == b[13..14][0];
    }
  }

  // ---- 8.3 names ----

  function Spaces(n: nat): (s: string)
    ensures |s| == n && forall i :: 0 <= i < n ==> s[i] == ' '
  {
    seq(n, _ => ' ')
  }

  predicate Untrimmed(s: string) { s == "" || s[|s| - 1] != ' ' }

  lemma {:induction false} TrimsPadding(s: string, n: nat)
    requires Untrimmed(s)
    ensures RightTrim(s + Spaces(n)) == s
  {
    var p := s + Spaces(n);
    if n == 0 {
      assert p == s;
    } else {
      TrimsPadding(s, n - 1);
      assert p[..|p| - 1] == s + Spaces(n - 1);
    }
  }

  predicate ByteChars(s: string) { forall i :: 0 <= i < |s| ==> s[i] as int < 256 }

  /** decode_83 undoes the padding of a name and an extension to 8 and 3 bytes. */
  lemma DecodesName(name: string, ext: string, e: seq<byte>)
    requires |name| <= 8 && |ext| <= 3 && Untrimmed(name) && Untrimmed(ext) && ByteChars(name) && ByteChars(ext)
    requires |e| == 32 && e[0..11] == Ascii(name + Spaces(8 - |name|) + ext + Spaces(3 - |ext|))
    ensures Decode83(e) == if ext != "" then name + "." + ext else name
  {
    var whole := name + Spaces(8 - |name|) + ext + Spaces(3 - |ext|);
    forall i | 0 <= i < 11 ensures e[i] as char == whole[i] {
      assert e[i] == e[0..11][i];
    }
    assert Latin1(Slice(e, 0, 8)) == name + Spaces(8 - |name|);
    assert Latin1(Slice(e, 8, 11)) == ext + Spaces(3 - |ext|);
    TrimsPadding(name, 8 - |name|);
    TrimsPadding(ext, 3 - |ext|);
  }

  /** One step of the chain reader on a one-sector cluster. */
  lemma ChainStep(d: seq<byte>, vol: Volume, cur: nat, size: nat, seen: set<nat>)
    requires vol.spc == 1 && cur < CLUSTER_LIMIT && size > 0 && !Ends(cur) && cur !in seen
    requires |ClusterBlob(d, vol, cur)| == 512
    ensures size <= 512 ==> ReadChain(d, vol, cur, size, seen) == Some(ClusterBlob(d, vol, cur)[..size])
    ensures size > 512 && FatNext(d, vol, cur) != None ==>
              ReadChain(d, vol, cur, size, seen)
              == After(ClusterBlob(d, vol, cur),
                       ReadChain(d, vol, FatNext(d, vol, cur).value, size - 512, seen + {cur}))
  {
    hide FatNext, Slice;
    var sector := vol.ClusterSector(cur);
    assert Slice(d, sector * 512, (sector + vol.spc) * 512) == ClusterBlob(d, vol, cur);
    assert ClusterBlob(d, vol, cur)[..512] == ClusterBlob(d, vol, cur);
  }

  /** Following a file's clusters from its i-th one returns the rest of its bytes, as long as
      every cluster but the last has its entry inside the first FAT. */
  lemma {:induction false} ReadsChain(d: seq<byte>, vol: Volume, start: nat, data: seq<byte>, i: nat, seen: set<nat>)
    requires vol.spc == 1 && i < ClusterCount(|data|) && start + ClusterCount(|data|) <= FAT_BAD
    requires forall c: nat :: start + i <= c < start + ClusterCount(|data|) ==>
               ClusterBlob(d, vol, c) == Chunk(data, c - start)
    requires forall c: nat :: start + i <= c < start + ClusterCount(|data|) - 1 ==> FatNext(d, vol, c) == Some(c + 1)
    requires forall c :: c in seen ==> c < start + i
    ensures ReadChain(d, vol, start + i, |data| - 512 * i, seen) == Some(data[512 * i..])
    decreases ClusterCount(|data|) - i
  {
    hide FatNext, ReadChain, ClusterBlob, Slice;
    var n := ClusterCount(|data|);
    var size := |data| - 512 * i;
    var cur := start + i;
    assert ClusterBlob(d, vol, cur) == Chunk(data, i);
    ChainStep(d, vol, cur, size, seen);
    ChunkBytes(data, i);
    if i < n - 1 {
      assert FatNext(d, vol, cur) == Some(cur + 1);
      ReadsChain(d, vol, start, data, i + 1, seen + {cur});
      assert data[512 * i..] == data[512 * i..512 * i + 512] + data[512 * (i + 1)..];
    }
  }

  lemma ChunkBytes(data: seq<byte>, i: nat)
    requires i < ClusterCount(|data|)
    ensures |data| - 512 * i <= 512 ==> Chunk(data, i)[..|data| - 512 * i] == data[512 * i..]
    ensures |data| - 512 * i > 512 ==> Chunk(data, i) == data[512 * i..512 * i + 512]
  {
    if |data| - 512 * i <= 512 {
      assert Slice(data, i * 512, (i + 1) * 512) == data[512 * i..];
    }
  }

  // ---- walking the three directories ----

  lemma Slots(a: seq<byte>, b: seq<byte>, c: seq<byte>)
    requires |a| == |b| == |c| == 32
    ensures var blob := PadTo(a + b + c, 512);
            && Slice(blob, 0 * 32, 1 * 32) == a && Slice(blob, 1 * 32, 2 * 32) == b && Slice(blob, 2 * 32, 3 * 32) == c
            && |Slice(blob, 3 * 32, 4 * 32)| == 32 && Slice(blob, 3 * 32, 4 * 32)[0] == 0
  {
    var blob := PadTo(a + b + c, 512);
    assert blob[..96] == a + b + c;
    assert blob[0..32] == blob[..96][0..32] == a;
    assert blob[32..64] == blob[..96][32..64] == b;
    assert blob[64..96] == blob[..96][64..96] == c;
  }

  lemma Entry(name: string, ext: string, padded: string, attr: byte, cluster: nat, size: nat)
    requires 0 < |name| <= 8 && |ext| <= 3 && Untrimmed(name) && Untrimmed(ext) && ByteChars(name) && ByteChars(ext)
    requires padded == name + Spaces(8 - |name|) + ext + Spaces(3 - |ext|)
    requires cluster < 0x1_0000_0000 && size < 0x1_0000_0000
    ensures var e := DirEntry(Ascii(padded), attr, cluster, size);
            && e[0] == name[0] as int && e[11] == attr && EntryCluster(e) == cluster && FromLe(e[28..32]) == size
            && Decode83(e) == if ext != "" then name + "." + ext else name
  {
    hide Record, DirEntry, EntryCluster, FromLe, Decode83, Le;
    var e := DirEntry(Ascii(padded), attr, cluster, size);
    DirEntryFields(Ascii(padded), attr, cluster, size);
    assert e[0] == e[0..11][0];
    DecodesName(name, ext, e);
  }

  lemma StepOver(d: seq<byte>, vol: Volume, blob: seq<byte>, i: nat, prefix: string, wanted: string, seen: set<nat>,
                 depth: nat, e: seq<byte>)
    requires i < 16 && Slice(blob, i * 32, (i + 1) * 32) == e && |e| == 32 && e[0] !in {0, 0xE5}
    requires e[11] == 0x08 || (e[11] == 0x10 && Decode83(e) in {".", ".."})
    ensures WalkEntries(d, vol, blob, i, prefix, wanted, seen, depth)
         == WalkEntries(d, vol, blob, i + 1, prefix, wanted, seen, depth)
  {
    hide Decode83, Slice, WalkDir, ReadChain, EntryCluster, Join, FromLe;
  }

  lemma StepInto(d: seq<byte>, vol: Volume, blob: seq<byte>, i: nat, prefix: string, wanted: string, seen: set<nat>,
                 depth: nat, e: seq<byte>)
    requires i < 16 && Slice(blob, i * 32, (i + 1) * 32) == e && |e| == 32 && e[0] !in {0, 0xE5}
    requires e[11] == 0x10 && Decode83(e) !in {".", ".."} && depth > 0
    ensures WalkEntries(d, vol, blob, i, prefix, wanted, seen, depth)
         == match WalkDir(d, vol, EntryCluster(e), Join(prefix, Decode83(e)), wanted, {}, depth - 1)
            case Found(content) => Emit(content)
            case Crash => Raised
            case NotFound => WalkEntries(d, vol, blob, i + 1, prefix, wanted, seen, depth)
  {
    hide Decode83, Slice, EntryCluster, Join, WalkDir;
  }

  lemma StepFile(d: seq<byte>, vol: Volume, blob: seq<byte>, i: nat, prefix: string, wanted: string, seen: set<nat>,
                 depth: nat, e: seq<byte>)
    requires i < 16 && Slice(blob, i * 32, (i + 1) * 32) == e && |e| == 32 && e[0] !in {0, 0xE5}
    requires e[11] == 0x20 && Decode83(e) !in {".", ".."}
    ensures WalkEntries(d, vol, blob, i, prefix, wanted, seen, depth)
         == if Join(prefix, Decode83(e)) == wanted
            then match ReadChain(d, vol, EntryCluster(e), FromLe(e[28..32]), {})
                 case None => Raised
                 case Some(content) => Emit(content)
            else WalkEntries(d, vol, blob, i + 1, prefix, wanted, seen, depth)
  {
    hide Decode83, Slice, EntryCluster, Join, ReadChain, FromLe;
  }

  lemma StepEnd(d: seq<byte>, vol: Volume, blob: seq<byte>, i: nat, prefix: string, wanted: string, seen: set<nat>,
                depth: nat)
    requires i < 16 && |Slice(blob, i * 32, (i + 1) * 32)| == 32 && Slice(blob, i * 32, (i + 1) * 32)[0] == 0
    ensures WalkEntries(d, vol, blob, i, prefix, wanted, seen, depth) == EndMark
  {
    hide Slice;
  }

  const BOOT_PATH: string := "EFI/BOOT/BOOTAA64.EFI"
  const KERNEL_PATH: string := "KERNEL.BIN"

  function ChainResult(chain: Option<seq<byte>>): CatResult {
    if chain == None then Crash else Found(chain.value)
  }

  lemma DotEntries(self: nat, parent: nat)
    requires self < 0x1_0000_0000 && parent < 0x1_0000_0000
    ensures var a, b := DirEntry(Ascii(".          "), 0x10, self, 0), DirEntry(Ascii("..         "), 0x10, parent, 0);
            && a[0] == 0x2E && a[11] == 0x10 && Decode83(a) == "."
            && b[0] == 0x2E && b[11] == 0x10 && Decode83(b) == ".."
  {
    hide DirEntry, Decode83, EntryCluster, FromLe;
    Entry(".", "", ".          ", 0x10, self, 0);
    Entry("..", "", "..         ", 0x10, parent, 0);
  }

  lemma PathsJoin()
    ensures Join("EFI/BOOT", "BOOTAA64" + "." + "EFI") == BOOT_PATH && Join("EFI", "BOOT") == "EFI/BOOT"
    ensures Join("", "EFI") == "EFI" && Join("", "KERNEL" + "." + "BIN") == KERNEL_PATH
    ensures "BOOTAA64" + "." + "EFI" !in {".", ".."} && "KERNEL" + "." + "BIN" !in {".", ".."}
  {
    assert "BOOTAA64" + "." + "EFI" == "BOOTAA64.EFI";
    assert "EFI/BOOT" + "/" + "BOOTAA64.EFI" == BOOT_PATH;
    assert "EFI" + "/" + "BOOT" == "EFI/BOOT";
    assert "KERNEL" + "." + "BIN" == KERNEL_PATH;
  }

  lemma WalksBoot(d: seq<byte>, vol: Volume, efiSize: nat, wanted: string, depth: nat)
    requires efiSize < 0x1_0000_0000 && ClusterBlob(d, vol, BOOT_DIR) == BootDirectory(efiSize)
    ensures WalkDir(d, vol, BOOT_DIR, "EFI/BOOT", wanted, {}, depth)
         == if wanted == BOOT_PATH then ChainResult(ReadChain(d, vol, EFI_START, efiSize, {})) else NotFound
  {
    hide DirEntry, ClusterBlob, Decode83, EntryCluster, FromLe, Slice, ReadChain, WalkEntries, PadTo, Join;
    var a := DirEntry(Ascii(".          "), 0x10, BOOT_DIR, 0);
    var b := DirEntry(Ascii("..         "), 0x10, EFI_DIR, 0);
    var c := DirEntry(Ascii("BOOTAA64EFI"), 0x20, EFI_START, efiSize);
    var blob := BootDirectory(efiSize);
    Slots(a, b, c);
    DotEntries(BOOT_DIR, EFI_DIR);
    Entry("BOOTAA64", "EFI", "BOOTAA64EFI", 0x20, EFI_START, efiSize);
    StepOver(d, vol, blob, 0, "EFI/BOOT", wanted, {BOOT_DIR}, depth, a);
    StepOver(d, vol, blob, 1, "EFI/BOOT", wanted, {BOOT_DIR}, depth, b);
    StepFile(d, vol, blob, 2, "EFI/BOOT", wanted, {BOOT_DIR}, depth, c);
    PathsJoin();
    StepEnd(d, vol, blob, 3, "EFI/BOOT", wanted, {BOOT_DIR}, depth);
    assert {} + {BOOT_DIR} == {BOOT_DIR};
  }

  lemma WalksEfi(d: seq<byte>, vol: Volume, efiSize: nat, wanted: string, depth: nat)
    requires depth > 0 && efiSize < 0x1_0000_0000
    requires ClusterBlob(d, vol, EFI_DIR) == EfiDirectory() && ClusterBlob(d, vol, BOOT_DIR) == BootDirectory(efiSize)
    ensures WalkDir(d, vol, EFI_DIR, "EFI", wanted, {}, depth)
         == if wanted == BOOT_PATH then ChainResult(ReadChain(d, vol, EFI_START, efiSize, {})) else NotFound
  {
    hide DirEntry, ClusterBlob, Decode83, EntryCluster, FromLe, Slice, ReadChain, WalkEntries, PadTo, Join;
    hide BootDirectory;
    var a := DirEntry(Ascii(".          "), 0x10, EFI_DIR, 0);
    var b := DirEntry(Ascii("..         "), 0x10, 2, 0);
    var c := DirEntry(Ascii("BOOT       "), 0x10, BOOT_DIR, 0);
    var blob := EfiDirectory();
    Slots(a, b, c);
    DotEntries(EFI_DIR, 2);
    Entry("BOOT", "", "BOOT       ", 0x10, BOOT_DIR, 0);
    StepOver(d, vol, blob, 0, "EFI", wanted, {EFI_DIR}, depth, a);
    StepOver(d, vol, blob, 1, "EFI", wanted, {EFI_DIR}, depth, b);
    StepInto(d, vol, blob, 2, "EFI", wanted, {EFI_DIR}, depth, c);
    PathsJoin();
    WalksBoot(d, vol, efiSize, wanted, depth - 1);
    StepEnd(d, vol, blob, 3, "EFI", wanted, {EFI_DIR}, depth);
    assert {} + {EFI_DIR} == {EFI_DIR};
  }

  lemma LabelEntry()
    ensures var a := DirEntry(Ascii("VIRELAIOS  "), 0x08, 0, 0); a[0] == 0x56 && a[11] == 0x08
  {
    hide DirEntry;
    DirEntryFields(Ascii("VIRELAIOS  "), 0x08, 0, 0);
    assert DirEntry(Ascii("VIRELAIOS  "), 0x08, 0, 0)[0] == DirEntry(Ascii("VIRELAIOS  "), 0x08, 0, 0)[0..11][0];
  }

  lemma WalksRoot(d: seq<byte>, vol: Volume, efiSize: nat, kernelSize: nat, wanted: string, depth: nat)
    requires depth > 1 && efiSize < 0x1_0000_0000 && kernelSize < 0x1_0000_0000
    requires ClusterBlob(d, vol, 2) == RootDirectory(efiSize, kernelSize)
    requires ClusterBlob(d, vol, EFI_DIR) == EfiDirectory() && ClusterBlob(d, vol, BOOT_DIR) == BootDirectory(efiSize)
    ensures WalkDir(d, vol, 2, "", wanted, {}, depth)
         == if wanted == BOOT_PATH then ChainResult(ReadChain(d, vol, EFI_START, efiSize, {}))
            else if wanted == KERNEL_PATH then ChainResult(ReadChain(d, vol, KernelStart(efiSize), kernelSize, {}))
            else NotFound
  {
    hide DirEntry, ClusterBlob, Decode83, EntryCluster, FromLe, Slice, ReadChain, WalkEntries, PadTo, Join;
    hide BootDirectory, EfiDirectory;
    var a := DirEntry(Ascii("VIRELAIOS  "), 0x08, 0, 0);
    var b := DirEntry(Ascii("EFI        "), 0x10, EFI_DIR, 0);
    var c := DirEntry(Ascii("KERNEL  BIN"), 0x20, KernelStart(efiSize), kernelSize);
    var blob := RootDirectory(efiSize, kernelSize);
    Slots(a, b, c);
    LabelEntry();
    Entry("EFI", "", "EFI        ", 0x10, EFI_DIR, 0);
    Entry("KERNEL", "BIN", "KERNEL  BIN", 0x20, KernelStart(efiSize), kernelSize);
    StepOver(d, vol, blob, 0, "", wanted, {2}, depth, a);
    StepInto(d, vol, blob, 1, "", wanted, {2}, depth, b);
    StepFile(d, vol, blob, 2, "", wanted, {2}, depth, c);
    PathsJoin();
    WalksEfi(d, vol, efiSize, wanted, depth - 1);
    StepEnd(d, vol, blob, 3, "", wanted, {2}, depth);
    assert {} + {2} == {2};
  }

  // ---- the round trip ----

  /** Every cluster of the file but the last has its entry inside one FAT. */
  predicate EntriesFit(g: Geometry, start: nat, size: nat) {
    ClusterCount(size) < 2 || start + ClusterCount(size) - 2 < 128 * g.fatSectors
  }

  lemma ReadsLink(d: seq<byte>, ws: seq<Write>, g: Geometry, efi: seq<byte>, kernel: seq<byte>, start: nat,
                  data: seq<byte>, c: nat)
    requires Holds(d, ws, g, efi, kernel) && c < 128 * g.fatSectors
    requires (start == EFI_START && data == efi) || (start == KernelStart(|efi|) && data == kernel)
    requires start <= c < start + ClusterCount(|data|) - 1
    ensures FatNext(d, Mounted(g), c) == Some(c + 1)
  {
    hide FatNext, LaidOut, Apply, Fits;
    ReadsFat(d, ws, g, efi, kernel, c);
  }

  lemma ReadsFile(d: seq<byte>, ws: seq<Write>, g: Geometry, efi: seq<byte>, kernel: seq<byte>, start: nat,
                  data: seq<byte>)
    requires Holds(d, ws, g, efi, kernel)
    requires (start == EFI_START && data == efi) || (start == KernelStart(|efi|) && data == kernel)
    requires EntriesFit(g, start, |data|)
    ensures ReadChain(d, Mounted(g), start, |data|, {}) == Some(data)
  {
    hide FatNext, ClusterBlob, Chunk, LaidOut, Apply, Slice, ReadChain;
    var vol := Mounted(g);
    var n := ClusterCount(|data|);
    if n == 0 {
      assert data == [];
      ReadsNoFurther(d, vol, start, 0, {});
    } else {
      forall c: nat | start <= c < start + n ensures ClusterBlob(d, vol, c) == Chunk(data, c - start) {
        ReadsCluster(d, ws, g, efi, kernel, c);
      }
      forall c: nat | start <= c < start + n - 1 ensures FatNext(d, vol, c) == Some(c + 1) {
        ReadsLink(d, ws, g, efi, kernel, start, data, c);
      }
      ReadsChain(d, vol, start, data, 0, {});
      assert data[512 * 0..] == data;
    }
  }

  /** What the head of the second FAT reads as: the entry of a cluster far past every file. */
  const STRAY: nat := 0x0FFF_FFF8

  /** The image offset past which the reader's fetch of the stray cluster's entry falls off the end. */
  const STRAY_ENTRY_END: nat := (ESP_OFFSET + 32) * 512 + 4 * STRAY + 4

  ghost function Span(lo: nat, hi: nat): set<nat> { set c: nat | lo <= c < hi && IsCluster(c) }

  /** A chain whose last link lies outside the FAT: all clusters but the last are read, then the reader
      takes the head of the second FAT for the link and goes on from there. */
  lemma {:induction false} StraysFrom(d: seq<byte>, ws: seq<Write>, g: Geometry, efi: seq<byte>, kernel: seq<byte>,
                                      start: nat, data: seq<byte>, i: nat, seen: set<nat>)
    requires Holds(d, ws, g, efi, kernel)
    requires (start == EFI_START && data == efi) || (start == KernelStart(|efi|) && data == kernel)
    requires !EntriesFit(g, start, |data|)
    requires i + 2 <= ClusterCount(|data|)
    requires forall c :: c in seen ==> c < start + i
    ensures var n := ClusterCount(|data|);
            var rest := ReadChain(d, Mounted(g), STRAY, |data| - 512 * (n - 1), seen + Span(start + i, start + n - 1));
            ReadChain(d, Mounted(g), start + i, |data| - 512 * i, seen) == After(data[512 * i..512 * (n - 1)], rest)
    decreases ClusterCount(|data|) - i
  {
    hide FatNext, ClusterBlob, Chunk, LaidOut, Apply, Slice, ReadChain, After, Span;
    var vol := Mounted(g);
    var n := ClusterCount(|data|);
    var cur := start + i;
    var size := |data| - 512 * i;
    ReadsCluster(d, ws, g, efi, kernel, cur);
    ChainStep(d, vol, cur, size, seen);
    ChunkBytes(data, i);
    SpanStep(seen, cur, start + n - 1);
    if i + 2 == n {
      assert cur == 128 * g.fatSectors;
      ReadsPastFat(d, ws, g, efi, kernel);
    } else {
      ReadsLink(d, ws, g, efi, kernel, start, data, cur);
      StraysFrom(d, ws, g, efi, kernel, start, data, i + 1, seen + {cur});
      Stretches(data, i, n - 1);
      AfterMore(data[512 * i..512 * i + 512], data[512 * (i + 1)..512 * (n - 1)],
                ReadChain(d, vol, STRAY, |data| - 512 * (n - 1), seen + Span(cur, start + n - 1)));
    }
  }

  lemma SpanStep(seen: set<nat>, lo: nat, hi: nat)
    requires lo < hi <= CLUSTER_LIMIT
    ensures seen + {lo} + Span(lo + 1, hi) == seen + Span(lo, hi)
    ensures lo + 1 == hi ==> Span(lo, hi) == {lo}
  {
  }

  lemma Stretches(data: seq<byte>, i: nat, k: nat)
    requires i < k && 512 * k <= |data|
    ensures data[512 * i..512 * k] == data[512 * i..512 * i + 512] + data[512 * (i + 1)..512 * k]
  {
  }

  /** A file whose last-but-one cluster has its entry outside the FAT is not read back while the stray
      entry lies off the image. */
  lemma LosesChain(d: seq<byte>, ws: seq<Write>, g: Geometry, efi: seq<byte>, kernel: seq<byte>, start: nat,
                   data: seq<byte>, i: nat, seen: set<nat>)
    requires Holds(d, ws, g, efi, kernel) && |d| < STRAY_ENTRY_END
    requires (start == EFI_START && data == efi) || (start == KernelStart(|efi|) && data == kernel)
    requires !EntriesFit(g, start, |data|)
    requires i + 2 <= ClusterCount(|data|)
    requires forall c :: c in seen ==> c < start + i
    ensures ReadChain(d, Mounted(g), start + i, |data| - 512 * i, seen) == None
  {
    hide LaidOut, Apply, ReadChain;
    var n := ClusterCount(|data|);
    StraysFrom(d, ws, g, efi, kernel, start, data, i, seen);
    StrayEntry(d, g, |data| - 512 * (n - 1), seen + Span(start + i, start + n - 1));
  }

  lemma StrayEntry(d: seq<byte>, g: Geometry, size: nat, seen: set<nat>)
    requires Sound(g) && |d| == (g.baseLba + g.totalSectors) * 512 && |d| < STRAY_ENTRY_END
    requires size > 0 && STRAY !in seen
    ensures ReadChain(d, Mounted(g), STRAY, size, seen) == None
  {
    var vol := Mounted(g);
    assert vol.ClusterSector(STRAY) * 512 >= |d|;
  }

  /** Where reading a file with a link outside the FAT ends. */
  ghost function StrayLanding(d: seq<byte>, g: Geometry, start: nat, n: nat): Landing
    requires Sound(g) && n > 0
  {
    Lands(d, Mounted(g), STRAY, Span(start, start + n - 1))
  }

  /** The bytes read from there on, up to `size` of them. */
  ghost function Tail(d: seq<byte>, g: Geometry, start: nat, n: nat, size: nat): Option<seq<byte>>
    requires Sound(g) && n > 0
  {
    match StrayLanding(d, g, start, n)
    case At(c) => Some(Slice(ClusterBlob(d, Mounted(g), c), 0, size))
    case Stops => Some([])
    case Raises => None
  }

  /** What is read back of a file: all of it when its entries fit one FAT; otherwise all clusters but the
      last, followed by the first bytes of the cluster the reader lands in. */
  ghost function Recovered(d: seq<byte>, g: Geometry, start: nat, data: seq<byte>): CatResult
    requires Sound(g)
  {
    if EntriesFit(g, start, |data|) then Found(data)
    else
      var n := ClusterCount(|data|);
      ChainResult(After(data[..512 * (n - 1)], Tail(d, g, start, n, |data| - 512 * (n - 1))))
  }

  /** The file's entries fit one FAT, or the reader happens to land in a cluster with the file's last bytes. */
  ghost predicate ComesBack(d: seq<byte>, g: Geometry, start: nat, data: seq<byte>)
    requires Sound(g)
  {
    EntriesFit(g, start, |data|)
    || var n := ClusterCount(|data|);
       var l := StrayLanding(d, g, start, n);
       l.At? && data[512 * (n - 1)..] <= ClusterBlob(d, Mounted(g), l.c)
  }

  /** Whatever the size of the image, the landing decides what comes back, and whether it is the file. */
  lemma StrayDecides(d: seq<byte>, ws: seq<Write>, g: Geometry, efi: seq<byte>, kernel: seq<byte>, start: nat,
                     data: seq<byte>)
    requires Holds(d, ws, g, efi, kernel)
    requires (start == EFI_START && data == efi) || (start == KernelStart(|efi|) && data == kernel)
    requires !EntriesFit(g, start, |data|)
    ensures ChainResult(ReadChain(d, Mounted(g), start, |data|, {})) == Recovered(d, g, start, data)
    ensures Recovered(d, g, start, data) == Found(data) <==> ComesBack(d, g, start, data)
  {
    hide LaidOut, Apply, StrayLanding, ReadChain, EntriesFit, ClusterBlob, Slice, After, Tail;
    LongFile(g, start, |data|);
    StrayReads(d, ws, g, efi, kernel, start, data);
    var n := ClusterCount(|data|);
    var k := 512 * (n - 1);
    TailIs(d, g, start, n, data, k);
    AfterIs(data, k, Tail(d, g, start, n, |data| - k));
  }

  lemma StrayReads(d: seq<byte>, ws: seq<Write>, g: Geometry, efi: seq<byte>, kernel: seq<byte>, start: nat,
                   data: seq<byte>)
    requires Holds(d, ws, g, efi, kernel)
    requires (start == EFI_START && data == efi) || (start == KernelStart(|efi|) && data == kernel)
    requires !EntriesFit(g, start, |data|)
    ensures var n := ClusterCount(|data|);
            var k, l := 512 * (n - 1), StrayLanding(d, g, start, n);
            && (l.At? ==> |ClusterBlob(d, Mounted(g), l.c)| == 512)
            && ReadChain(d, Mounted(g), start, |data|, {}) == After(data[..k], Tail(d, g, start, n, |data| - k))
  {
    hide ClusterBlob, LaidOut, Apply, ReadChain, Lands, Span, After;
    var n := ClusterCount(|data|);
    StraysFrom(d, ws, g, efi, kernel, start, data, 0, {});
    var seen := {} + Span(start, start + n - 1);
    assert seen == Span(start, start + n - 1);
    ReadsLanding(d, Mounted(g), STRAY, |data| - 512 * (n - 1), seen);
    assert data[512 * 0..512 * (n - 1)] == data[..512 * (n - 1)];
  }

  lemma LongFile(g: Geometry, start: nat, size: nat)
    requires !EntriesFit(g, start, size)
    ensures ClusterCount(size) >= 2
  {
  }

  lemma TailIs(d: seq<byte>, g: Geometry, start: nat, n: nat, data: seq<byte>, k: nat)
    requires Sound(g) && n > 0 && k < |data| <= k + 512
    requires var l := StrayLanding(d, g, start, n); l.At? ==> |ClusterBlob(d, Mounted(g), l.c)| == 512
    ensures var l := StrayLanding(d, g, start, n);
            Tail(d, g, start, n, |data| - k) == Some(data[k..])
            <==> l.At? && data[k..] <= ClusterBlob(d, Mounted(g), l.c)
  {
    hide ClusterBlob, StrayLanding;
    var l, last := StrayLanding(d, g, start, n), data[k..];
    if l.At? {
      var blob := ClusterBlob(d, Mounted(g), l.c);
      assert Slice(blob, 0, |last|) == blob[..|last|];
      assert last <= blob <==> blob[..|last|] == last;
    }
  }

  lemma AfterIs(data: seq<byte>, k: nat, tail: Option<seq<byte>>)
    requires k <= |data|
    ensures After(data[..k], tail) == Some(data) <==> tail == Some(data[k..])
  {
    if tail != None {
      var x := data[..k] + tail.value;
      assert x[k..] == tail.value && data == data[..k] + data[k..];
    }
  }

  /** The stray cluster itself is never on an image that a file fills; its entry decides. */
  lemma StrayLands(d: seq<byte>, ws: seq<Write>, g: Geometry, efi: seq<byte>, kernel: seq<byte>, start: nat,
                   data: seq<byte>)
    requires Holds(d, ws, g, efi, kernel)
    requires (start == EFI_START && data == efi) || (start == KernelStart(|efi|) && data == kernel)
    requires !EntriesFit(g, start, |data|)
    ensures var n, next := ClusterCount(|data|), FatNext(d, Mounted(g), STRAY);
            var l := StrayLanding(d, g, start, n);
            && (next == None ==> l == Raises)
            && (next == Some(start + n - 1) ==> l == At(start + n - 1))
            && (next != None && (start <= next.value < start + n - 1 || next.value == STRAY || Ends(next.value)) ==>
                  l == Stops)
  {
    hide FatNext, ClusterData, LaidOut, Apply, ClusterBlob;
    var n, vol, next := ClusterCount(|data|), Mounted(g), FatNext(d, Mounted(g), STRAY);
    OffImage(d, g);
    var last := start + n - 1;
    assert last <= g.clusters + 1 < FAT_BAD;
    ReadsCluster(d, ws, g, efi, kernel, last);
    if next != None {
      var seen := Span(start, last) + {STRAY};
      assert Lands(d, vol, STRAY, Span(start, last)) == Lands(d, vol, next.value, seen);
      if next.value == last {
        assert Lands(d, vol, last, seen) == At(last);
      } else if start <= next.value < last || next.value == STRAY {
        assert next.value in seen;
      }
    }
  }

  /** A stray entry that names the file's last cluster brings the file back. */
  lemma NamedLastComesBack(d: seq<byte>, ws: seq<Write>, g: Geometry, efi: seq<byte>, kernel: seq<byte>, start: nat,
                           data: seq<byte>)
    requires Holds(d, ws, g, efi, kernel)
    requires (start == EFI_START && data == efi) || (start == KernelStart(|efi|) && data == kernel)
    requires !EntriesFit(g, start, |data|) && FatNext(d, Mounted(g), STRAY) == Some(start + ClusterCount(|data|) - 1)
    ensures ComesBack(d, g, start, data)
  {
    hide FatNext, Chunk, ClusterData, LaidOut, Apply, ClusterBlob, StrayLanding, EntriesFit;
    LongFile(g, start, |data|);
    var n := ClusterCount(|data|);
    StrayLands(d, ws, g, efi, kernel, start, data);
    ReadsCluster(d, ws, g, efi, kernel, start + n - 1);
    LastData(efi, kernel, start, data);
    LastChunk(data);
  }

  lemma LastData(efi: seq<byte>, kernel: seq<byte>, start: nat, data: seq<byte>)
    requires (start == EFI_START && data == efi) || (start == KernelStart(|efi|) && data == kernel)
    requires ClusterCount(|data|) > 0
    ensures var n := ClusterCount(|data|); ClusterData(efi, kernel, start + n - 1) == Chunk(data, n - 1)
  {
    hide Chunk;
  }

  lemma LastChunk(data: seq<byte>)
    requires data != []
    ensures var n := ClusterCount(|data|); data[512 * (n - 1)..] <= Chunk(data, n - 1)
  {
    ChunkBytes(data, ClusterCount(|data|) - 1);
  }

  lemma OffImage(d: seq<byte>, g: Geometry)
    requires Sound(g) && |d| == (g.baseLba + g.totalSectors) * 512 && g.clusters <= 0x0100_0100
    ensures ClusterBlob(d, Mounted(g), STRAY) == []
  {
  }

  /** What `--cat-file` does with an image of this layout, up to following the two chains. */
  lemma Cats(d: seq<byte>, ws: seq<Write>, g: Geometry, efi: seq<byte>, kernel: seq<byte>, wanted: string, depth: nat)
    requires Holds(d, ws, g, efi, kernel) && OpenVolume(d) == Lookup.Hit(Mounted(g)) && depth >= 2
    ensures CatSpec(d, wanted, depth)
         == if Normal(wanted) == BOOT_PATH then ChainResult(ReadChain(d, Mounted(g), EFI_START, |efi|, {}))
            else if Normal(wanted) == KERNEL_PATH
            then ChainResult(ReadChain(d, Mounted(g), KernelStart(|efi|), |kernel|, {}))
            else NotFound
  {
    hide LaidOut, OpenVolume, WalkDir, ReadChain, Normal, ClusterBlob, RootDirectory, EfiDirectory, BootDirectory;
    hide Apply;
    ReadsCluster(d, ws, g, efi, kernel, 2);
    ReadsCluster(d, ws, g, efi, kernel, EFI_DIR);
    ReadsCluster(d, ws, g, efi, kernel, BOOT_DIR);
    WalksRoot(d, Mounted(g), |efi|, |kernel|, Normal(wanted), depth);
  }

  lemma ReadsBack(d: seq<byte>, ws: seq<Write>, g: Geometry, efi: seq<byte>, kernel: seq<byte>, start: nat,
                  data: seq<byte>)
    requires Holds(d, ws, g, efi, kernel)
    requires (start == EFI_START && data == efi) || (start == KernelStart(|efi|) && data == kernel)
    ensures ChainResult(ReadChain(d, Mounted(g), start, |data|, {})) == Recovered(d, g, start, data)
    ensures Recovered(d, g, start, data) == Found(data) <==> ComesBack(d, g, start, data)
    ensures !EntriesFit(g, start, |data|) && |d| < STRAY_ENTRY_END ==> Recovered(d, g, start, data) == Crash
  {
    hide LaidOut, ReadChain, Apply, StrayLanding, ClusterBlob;
    if EntriesFit(g, start, |data|) {
      ReadsFile(d, ws, g, efi, kernel, start, data);
    } else {
      StrayDecides(d, ws, g, efi, kernel, start, data);
      if |d| < STRAY_ENTRY_END { LosesChain(d, ws, g, efi, kernel, start, data, 0, {}); }
    }
  }

  /** The image of an accepted build. */
  function Image(sizeMb: int, efi: seq<byte>, kernel: seq<byte>, crc: Crc): (img: seq<byte>)
    requires Solvable(TotalSectors(sizeMb) - ESP_OFFSET)
    requires Refusal(VolumeOf(sizeMb), |efi|, |kernel|) == None
    ensures ImageOf(sizeMb, efi, kernel, crc) == Built(img)
  {
    ImageOf(sizeMb, efi, kernel, crc).img
  }

  lemma ImageHolds(sizeMb: int, efi: seq<byte>, kernel: seq<byte>, crc: Crc) returns (ws: seq<Write>)
    requires Accepted(sizeMb, efi, kernel)
    ensures Sound(VolumeOf(sizeMb)) && |Image(sizeMb, efi, kernel, crc)| == TotalSectors(sizeMb) * 512
    ensures Holds(Image(sizeMb, efi, kernel, crc), ws, VolumeOf(sizeMb), efi, kernel)
    ensures OpenVolume(Image(sizeMb, efi, kernel, crc)) == Lookup.Hit(Mounted(VolumeOf(sizeMb)))
  {
    hide Apply, LaidOut, OpenVolume, GptWrites, Solve;
    WritesAreLaidOut(sizeMb, efi, kernel, crc);
    ws := AllWrites(sizeMb, efi, kernel, crc);
    OpensVolume(Image(sizeMb, efi, kernel, crc), ws, VolumeOf(sizeMb), efi, kernel, crc);
  }

  /** Reading back what was written: on every accepted build, each of the two paths gives `Recovered`,
      which is exactly the bytes put in if and only if the file `ComesBack`: always when its entries lie in
      one FAT, never otherwise on images of up to 1 GiB, where the reader raises. Every other path is
      reported absent. Two levels of recursion are all the reader needs. */
  lemma ReadBack(sizeMb: int, efi: seq<byte>, kernel: seq<byte>, crc: Crc, wanted: string, depth: nat)
    requires Accepted(sizeMb, efi, kernel) && depth >= 2
    ensures var g, d := VolumeOf(sizeMb), Image(sizeMb, efi, kernel, crc);
            var r := CatSpec(d, wanted, depth);
            && Sound(g)
            && (Normal(wanted) == BOOT_PATH ==>
                  r == Recovered(d, g, EFI_START, efi) && (r == Found(efi) <==> ComesBack(d, g, EFI_START, efi)))
            && (Normal(wanted) == KERNEL_PATH ==>
                  && r == Recovered(d, g, KernelStart(|efi|), kernel)
                  && (r == Found(kernel) <==> ComesBack(d, g, KernelStart(|efi|), kernel)))
            && (Normal(wanted) == BOOT_PATH && EntriesFit(g, EFI_START, |efi|) ==> r == Found(efi))
            && (Normal(wanted) == KERNEL_PATH && EntriesFit(g, KernelStart(|efi|), |kernel|) ==> r == Found(kernel))
            && (Normal(wanted) !in {BOOT_PATH, KERNEL_PATH} ==> r == NotFound)
            && (TotalSectors(sizeMb) <= 1024 * 2048 ==>
                  && (Normal(wanted) == BOOT_PATH && !EntriesFit(g, EFI_START, |efi|) ==> r == Crash)
                  && (Normal(wanted) == KERNEL_PATH && !EntriesFit(g, KernelStart(|efi|), |kernel|) ==> r == Crash))
  {
    hide Holds, LaidOut, CatSpec, ReadChain, Image, Normal, Solve, EntriesFit, OpenVolume, ChainResult, Refusal;
    hide StrayLanding, ClusterBlob;
    var ws := ImageHolds(sizeMb, efi, kernel, crc);
    var g := VolumeOf(sizeMb);
    var d := Image(sizeMb, efi, kernel, crc);
    Cats(d, ws, g, efi, kernel, wanted, depth);
    ReadsBack(d, ws, g, efi, kernel, EFI_START, efi);
    ReadsBack(d, ws, g, efi, kernel, KernelStart(|efi|), kernel);
  }

  /** The proviso fails only for a volume filled to its last cluster whose capacity is a
      multiple of 130, so that the FAT has no entry to spare. */
  lemma ProvisoFailsOnlyWhenFull(sizeMb: int, efi: seq<byte>, kernel: seq<byte>)
    requires Accepted(sizeMb, efi, kernel)
    requires !EntriesFit(VolumeOf(sizeMb), EFI_START, |efi|)
          || !EntriesFit(VolumeOf(sizeMb), KernelStart(|efi|), |kernel|)
    ensures Capacity(TotalSectors(sizeMb) - ESP_OFFSET) % 130 == 0
    ensures KernelEnd(|efi|, |kernel|) - 2 == VolumeOf(sizeMb).clusters
  {
    AcceptedIsSound(sizeMb, |efi|, |kernel|);
    SolvedGeometry(TotalSectors(sizeMb) - ESP_OFFSET, ESP_OFFSET);
    var c := Capacity(TotalSectors(sizeMb) - ESP_OFFSET);
    assert Slack(TotalSectors(sizeMb) - ESP_OFFSET) == 0;
    assert c == 130 * VolumeOf(sizeMb).fatSectors;
  }

  lemma KernelPathIsUpper()
    ensures Normal(KERNEL_PATH) == KERNEL_PATH
  {
    hide Normal, Upper;
    assert KERNEL_PATH[0] == 'K';
    NormalKeeps(KERNEL_PATH);
  }

  /** `--size-mb 65` is such a volume: a kernel of 129021 full clusters and no loader fill it,
      the build succeeds, and the kernel cannot be read back. */
  lemma FullVolumeLosesKernel(kernel: seq<byte>, crc: Crc)
    requires |kernel| == 129021 * 512
    ensures Accepted(65, [], kernel)
    ensures CatSpec(Image(65, [], kernel, crc), KERNEL_PATH, 2) == Crash
  {
    VolumeOf65();
    hide CatSpec, Image, Normal, VolumeOf, Solvable, Refusal, EntriesFit, ComesBack, Recovered, KernelStart;
    hide ClusterCount;
    KernelPathIsUpper();
    ReadBack(65, [], kernel, crc, KERNEL_PATH, 2);
  }

  lemma VolumeOf65()
    ensures Solvable(TotalSectors(65) - ESP_OFFSET) && VolumeOf(65) == Geometry(ESP_OFFSET, 131072, 1008, 129024)
    ensures Refusal(VolumeOf(65), 0, 129021 * 512) == None && !EntriesFit(VolumeOf(65), KernelStart(0), 129021 * 512)
  {
    assert Capacity(65 * 2048 - 2048) == 130 * 1008;
  }

  /** `--size-mb 1040`: the FAT has no entry to spare here either. */
  const FULL_VOLUME: Geometry := Geometry(ESP_OFFSET, 2127872, 16368, 2095104)

  lemma VolumeOf1040()
    ensures Solvable(TotalSectors(1040) - ESP_OFFSET) && VolumeOf(1040) == FULL_VOLUME && Sound(FULL_VOLUME)
    ensures Refusal(FULL_VOLUME, 0, 2095101 * 512) == None && !EntriesFit(FULL_VOLUME, KernelStart(0), 2095101 * 512)
    ensures KernelStart(0) + ClusterCount(2095101 * 512) - 1 == 2095105
  {
    assert Capacity(1040 * 2048 - 2048) == 130 * 16368;
  }

  /** Above 1 GiB a file may come back although its entries do not fit: a kernel that fills such a volume
      does if its bytes at the stray entry name its own last cluster. */
  lemma FullVolumeKeepsKernel(kernel: seq<byte>, crc: Crc)
    requires |kernel| == 2095101 * 512 && kernel[1056979424..1056979428] == Le(2095105, 4)
    ensures Accepted(1040, [], kernel) && !EntriesFit(VolumeOf(1040), KernelStart(0), |kernel|)
    ensures CatSpec(Image(1040, [], kernel, crc), KERNEL_PATH, 2) == Found(kernel)
  {
    VolumeOf1040();
    hide CatSpec, Image, Normal, Le, Holds, OpenVolume, FatNext, VolumeOf, Solvable, Refusal, EntriesFit, ComesBack;
    hide Recovered, Sound, KernelStart, ClusterCount;
    KernelPathIsUpper();
    var ws := ImageHolds(1040, [], kernel, crc);
    var d := Image(1040, [], kernel, crc);
    NamedKernelComesBack(d, ws, kernel);
    ReadBack(1040, [], kernel, crc, KERNEL_PATH, 2);
  }

  lemma NamedKernelComesBack(d: seq<byte>, ws: seq<Write>, kernel: seq<byte>)
    requires Holds(d, ws, FULL_VOLUME, [], kernel)
    requires |kernel| == 2095101 * 512 && kernel[1056979424..1056979428] == Le(2095105, 4)
    ensures Sound(FULL_VOLUME) && ComesBack(d, FULL_VOLUME, KernelStart(0), kernel)
  {
    VolumeOf1040();
    hide Le, LaidOut, Apply, FatNext, VolumeOf, Solvable, Refusal, EntriesFit, ComesBack, KernelStart, ClusterCount;
    StrayNamesLast(d, ws, FULL_VOLUME, kernel);
    NamedLastComesBack(d, ws, FULL_VOLUME, [], kernel, KernelStart(0), kernel);
  }

  lemma StrayNamesLast(d: seq<byte>, ws: seq<Write>, g: Geometry, kernel: seq<byte>)
    requires Holds(d, ws, g, [], kernel) && g == FULL_VOLUME
    requires |kernel| == 2095101 * 512 && kernel[1056979424..1056979428] == Le(2095105, 4)
    ensures FatNext(d, Mounted(g), STRAY) == Some(2095105)
  {
    hide Le, FromLe, Apply, LaidOut;
    ReadsCluster(d, ws, g, [], kernel, 2064417);
    var sector := 34816 + 2064415;
    var blob := Slice(kernel, 2064412 * 512, 2064413 * 512);
    assert Chunk(kernel, 2064412) == blob;
    assert d[sector * 512..sector * 512 + 512] == blob;
    SubSlice(d, sector * 512, blob, 480, 484);
    assert blob[480..484] == kernel[1056979424..1056979428];
    Widths();
    LeRoundTrip(2095105, 4);
  }

  // ---- no two writes overlap ----

  predicate Disjoint(ws: seq<Write>) {
    forall i, j :: 0 <= i < j < |ws| ==> Apart(ws[i].off, ws[i].End(), ws[j])
  }

  /** The writes of a build are pairwise disjoint, backup GPT included, exactly when the FAT has
      room for its two reserved entries and the files leave the last 33 clusters alone. */
  lemma WritesDisjointExactly(sizeMb: int, efi: seq<byte>, kernel: seq<byte>, crc: Crc)
    requires Accepted(sizeMb, efi, kernel)
    ensures var g := VolumeOf(sizeMb);
            Disjoint(AllWrites(sizeMb, efi, kernel, crc))
            <==> g.clusters + 2 <= 128 * g.fatSectors && KernelEnd(|efi|, |kernel|) - 2 <= g.clusters - 33
  {
    hide BootSector, ClusterData, AllWrites, Solve, Refusal, GptWrites;
    WritesAreLaidOut(sizeMb, efi, kernel, crc);
    var g := VolumeOf(sizeMb);
    var ws := AllWrites(sizeMb, efi, kernel, crc);
    var end := KernelEnd(|efi|, |kernel|);
    if g.clusters + 2 <= 128 * g.fatSectors && end - 2 <= g.clusters - 33 {
      forall i, j | 0 <= i < j < |ws| ensures Apart(ws[i].off, ws[i].End(), ws[j]) {
        DisjointPair(ws, g, efi, kernel, i, j);
      }
    } else if g.clusters + 2 > 128 * g.fatSectors {
      assert !Apart(ws[9].off, ws[9].End(), ws[10]);
    } else {
      var last := end - 1;
      assert ws[9 + last] == Write(g.ClusterSector(last) * 512, ClusterData(efi, kernel, last));
      assert !Apart(ws[4].off, ws[4].End(), ws[9 + last]) || !Apart(ws[3].off, ws[3].End(), ws[9 + last]);
    }
  }

  lemma DisjointPair(ws: seq<Write>, g: Geometry, efi: seq<byte>, kernel: seq<byte>, i: nat, j: nat)
    requires Sound(g) && LaidOut(ws, g, efi, kernel) && i < j < |ws|
    requires g.clusters + 2 <= 128 * g.fatSectors && KernelEnd(|efi|, |kernel|) - 2 <= g.clusters - 33
    ensures Apart(ws[i].off, ws[i].End(), ws[j])
  {
    hide BootSector, ClusterData, FatRegion;
    assert |FatRegion(g, |efi|, |kernel|)| == 512 * g.fatSectors;
    if i >= 11 {
      assert ws[9 + (i - 9)] == Write(g.ClusterSector(i - 9) * 512, ClusterData(efi, kernel, i - 9));
    }
    if j >= 11 {
      assert ws[9 + (j - 9)] == Write(g.ClusterSector(j - 9) * 512, ClusterData(efi, kernel, j - 9));
    }
  }
}
