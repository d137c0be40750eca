/** The image builder of image/mkfat32.py: GPT, one FAT32 volume, two files, all written in
    place into one zeroed buffer. */
module Fat32Image {
  import opened Bytes
  import opened Fat32Geometry
  import opened Options

  const ESP_OFFSET: nat := 2048
  const FAT_EOC: nat := 0x0FFF_FFFF
  const FAT_BAD: nat := 0x0FFF_FFF7
  const ESP_GUID: seq<byte> :=
    [0x28, 0x73, 0x2A, 0xC1, 0x1F, 0xF8, 0xD2, 0x11, 0xBA, 0x4B, 0x00, 0xA0, 0xC9, 0x3E, 0xC9, 0x3B]
  const DISK_GUID: seq<byte> :=
    [0x44, 0x49, 0x50, 0x53, 0x48, 0x49, 0x54, 0x4F, 0x53, 0x30, 0x30, 0x30, 0x30, 0x30, 0x30, 0x31]
  const PART_GUID: seq<byte> :=
    [0x44, 0x49, 0x50, 0x53, 0x48, 0x49, 0x54, 0x4F, 0x53, 0x30, 0x30, 0x30, 0x30, 0x30, 0x30, 0x32]

  /** What the original raises: ValueError three times, struct.error for a size that does not
      fit the 32-bit field of a directory entry. */
  datatype BuildError = TooFewClusters | VolumeTooLarge | FilesDoNotFit | SizeFieldOverflow

  datatype BuildResult = Built(img: seq<byte>) | Failed(error: BuildError)

  /** CRC-32 is library code: any function of the bytes will do, cut to 32 bits. */
  type Crc = seq<byte> -> nat

  function Crc32(crc: Crc, data: seq<byte>): nat { crc(data) % 0x1_0000_0000 }

  // ---- sectors and records, as the fields written into a zeroed buffer ----

  function Record(size: nat, fields: seq<Write>): (r: seq<byte>)
    requires Fits(fields, size)
    ensures |r| == size
  {
    Apply(Zeros(size), fields)
  }

  /** A field that no later field of its record overlaps holds the bytes it was given. */
  lemma FieldReads(size: nat, fields: seq<Write>, k: nat)
    requires Fits(fields, size) && k < |fields|
    requires forall j :: k < j < |fields| ==> Apart(fields[k].off, fields[k].End(), fields[j])
    ensures fields[k].End() <= size
    ensures Record(size, fields)[fields[k].off..fields[k].End()] == fields[k].data
  {
    Survives(Zeros(size), fields, k, 0, |fields[k].data|);
  }

  function ProtectiveMbr(totalSectors: int): (r: seq<byte>)
    requires totalSectors > 0
    ensures |r| == 512
  {
    var size := if totalSectors - 1 < 0xFFFF_FFFF then totalSectors - 1 else 0xFFFF_FFFF;
    Record(512, [Write(446, [0, 0, 0, 0, 0xEE, 0xFF, 0xFF, 0xFF] + Le(1, 4) + Le(size, 4)),
                 Write(510, [0x55, 0xAA])])
  }

  function GptFields(current: nat, backup: nat, firstUsable: nat, lastUsable: nat, entriesLba: nat,
                     entriesCrc: nat): (fs: seq<Write>)
    ensures Fits(fs, 92)
  {
    [Write(0, Ascii("EFI PART")), Write(8, Le(0x0001_0000, 4)), Write(12, Le(92, 4)), Write(16, Le(0, 4)),
     Write(20, Le(0, 4)), Write(24, Le(current, 8)), Write(32, Le(backup, 8)), Write(40, Le(firstUsable, 8)),
     Write(48, Le(lastUsable, 8)), Write(56, DISK_GUID), Write(72, Le(entriesLba, 8)), Write(80, Le(128, 4)),
     Write(84, Le(128, 4)), Write(88, Le(entriesCrc, 4))]
  }

  function GptHeader(current: nat, backup: nat, firstUsable: nat, lastUsable: nat, entriesLba: nat,
                     entriesCrc: nat, crc: Crc): (r: seq<byte>)
    ensures |r| == 92
  {
    var fields := GptFields(current, backup, firstUsable, lastUsable, entriesLba, entriesCrc);
    Record(92, fields + [Write(16, Le(Crc32(crc, Record(92, fields)), 4))])
  }

  function PartitionFields(firstLba: nat, lastLba: nat): (fs: seq<Write>)
    ensures Fits(fs, 128)
  {
    [Write(0, ESP_GUID), Write(16, PART_GUID), Write(32, Le(firstLba, 8)), Write(40, Le(lastLba, 8)),
     Write(48, Le(0, 8)), Write(56, Utf16("EFI SYSTEM"))]
  }

  function Utf16(s: string): (b: seq<byte>)
    requires forall i :: 0 <= i < |s| ==> s[i] as int < 128
    ensures |b| == 2 * |s|
  {
    seq(2 * |s|, i requires 0 <= i < 2 * |s| => if i % 2 == 0 then s[i / 2] as int else 0)
  }

  /** The 128-entry partition array: one ESP entry, the rest zero. */
  function PartitionArray(totalSectors: nat): (r: seq<byte>)
    requires totalSectors >= 34
    ensures |r| == 128 * 128
  {
    PadTo(Record(128, PartitionFields(ESP_OFFSET, totalSectors - 34)), 128 * 128)
  }

  const OEM_NAME: seq<byte> := [0x4D, 0x53, 0x44, 0x4F, 0x53, 0x35, 0x2E, 0x30]  // "MSDOS5.0"
  const VOLUME_LABEL: seq<byte> := [0x56, 0x49, 0x52, 0x45, 0x4C, 0x41, 0x49, 0x4F, 0x53, 0x20, 0x20]  // "VIRELAIOS  "
  const FS_TYPE: seq<byte> := [0x46, 0x41, 0x54, 0x33, 0x32, 0x20, 0x20, 0x20]  // "FAT32   "

  lemma FitsBoth(a: seq<Write>, b: seq<Write>, n: nat)
    requires Fits(a, n) && Fits(b, n)
    ensures Fits(a + b, n)
  {
  }

  /** The BIOS parameter block, up to the 32-bit sector count. */
  function ParameterFields(g: Geometry): (fs: seq<Write>)
    requires g.totalSectors >= 0 && g.fatSectors >= 0
    ensures Fits(fs, 512) && |fs| == 14
  {
    [Write(0, [0xEB, 0x58, 0x90]), Write(3, OEM_NAME), Write(11, Le(512, 2)), Write(13, [1]),
     Write(14, Le(32, 2)), Write(16, [2]), Write(17, Le(0, 2)), Write(19, Le(0, 2)), Write(21, [0xF8]),
     Write(22, Le(0, 2)), Write(24, Le(32, 2)), Write(26, Le(64, 2)), Write(28, Le(g.baseLba, 4)),
     Write(32, Le(g.totalSectors, 4))]
  }

  /** What FAT32 adds to it. */
  function ExtendedFields(g: Geometry): (fs: seq<Write>)
    requires g.totalSectors >= 0 && g.fatSectors >= 0
    ensures Fits(fs, 512) && |fs| == 12
  {
    [Write(36, Le(g.fatSectors, 4)), Write(40, Le(0, 2)), Write(42, Le(0, 2)),
     Write(44, Le(2, 4)), Write(48, Le(1, 2)), Write(50, Le(6, 2)), Write(64, [0x80]), Write(66, [0x29]),
     Write(67, Le(0x4449_5031, 4)), Write(71, VOLUME_LABEL), Write(82, FS_TYPE),
     Write(510, [0x55, 0xAA])]
  }

  function BootFields(g: Geometry): (fs: seq<Write>)
    requires g.totalSectors >= 0 && g.fatSectors >= 0
    ensures Fits(fs, 512)
  {
    FitsBoth(ParameterFields(g), ExtendedFields(g), 512);
    ParameterFields(g) + ExtendedFields(g)
  }

  function BootSector(g: Geometry): (r: seq<byte>)
    requires g.totalSectors >= 0 && g.fatSectors >= 0
    ensures |r| == 512
  {
    Record(512, BootFields(g))
  }

  function FsInfoSector(): (r: seq<byte>)
    ensures |r| == 512
  {
    Record(512, [Write(0, Le(0x4161_5252, 4)), Write(4, Le(0x6141_7272, 4)), Write(8, Le(0xFFFF_FFFF, 4)),
                 Write(12, Le(0xFFFF_FFFF, 4)), Write(508, Le(0xAA55_0000, 4))])
  }

  function DirFields(name11: seq<byte>, attr: byte, cluster: nat, size: nat): (fs: seq<Write>)
    requires |name11| == 11
    ensures Fits(fs, 32)
  {
    [Write(0, name11), Write(11, [attr]), Write(20, Le(cluster / 0x1_0000 % 0x1_0000, 2)),
     Write(26, Le(cluster % 0x1_0000, 2)), Write(28, Le(size, 4))]
  }

  function DirEntry(name11: seq<byte>, attr: byte, cluster: nat, size: nat): (r: seq<byte>)
    requires |name11| == 11
    ensures |r| == 32
  {
    Record(32, DirFields(name11, attr, cluster, size))
  }

  // ---- cluster layout and the file allocation table ----

  const EFI_DIR: nat := 3
  const BOOT_DIR: nat := 4
  const EFI_START: nat := 5

  /** Clusters a file of `size` bytes takes. */
  function ClusterCount(size: nat): nat { (size + 511) / 512 }

  function KernelStart(efiSize: nat): nat { EFI_START + ClusterCount(efiSize) }

  function KernelEnd(efiSize: nat, kernelSize: nat): nat { KernelStart(efiSize) + ClusterCount(kernelSize) }

  /** Entry `j` of a chain of `count` consecutive clusters from `start`. */
  function Link(j: nat, start: nat, count: nat): nat {
    if j + 1 < start + count then j + 1 else FAT_EOC
  }

  function FatEntry(j: nat, efiSize: nat, kernelSize: nat): nat {
    if j == 0 then 0x0FFF_FFF8
    else if j < EFI_START then FAT_EOC
    else if j < KernelStart(efiSize) then Link(j, EFI_START, ClusterCount(efiSize))
    else if j < KernelEnd(efiSize, kernelSize) then Link(j, KernelStart(efiSize), ClusterCount(kernelSize))
    else 0
  }

  function FatTable(entries: nat, efiSize: nat, kernelSize: nat): (fat: seq<nat>)
    ensures |fat| == entries
  {
    seq(entries, j requires 0 <= j => FatEntry(j, efiSize, kernelSize))
  }

  function FatBytes(fat: seq<nat>): (b: seq<byte>)
    ensures |b| == 4 * |fat|
  {
    if fat == [] then [] else FatBytes(fat[..|fat| - 1]) + Le(fat[|fat| - 1], 4)
  }

  lemma {:induction false} FatBytesAt(fat: seq<nat>, j: nat)
    requires j < |fat|
    ensures FatBytes(fat)[4 * j..4 * j + 4] == Le(fat[j], 4)
  {
    var n := |fat| - 1;
    if j < n {
      FatBytesAt(fat[..n], j);
      assert FatBytes(fat)[4 * j..4 * j + 4] == FatBytes(fat[..n])[4 * j..4 * j + 4];
    }
  }

  /** The original's inner `chain`: links `count` clusters and ends the chain. */
  method Chain(fat: array<nat>, start: nat, count: nat)
    requires start + count <= fat.Length
    modifies fat
    ensures forall j :: start <= j < start + count ==> fat[j] == Link(j, start, count)
    ensures forall j :: 0 <= j < fat.Length && !(start <= j < start + count) ==> fat[j] == old(fat[j])
  {
    for i := 0 to count
      invariant forall j :: start <= j < start + i ==> fat[j] == Link(j, start, count)
      invariant forall j :: 0 <= j < fat.Length && !(start <= j < start + i) ==> fat[j] == old(fat[j])
    {
      fat[start + i] := if i < count - 1 then start + i + 1 else FAT_EOC;
    }
  }

  method BuildFat(entries: nat, efiSize: nat, kernelSize: nat) returns (fat: array<nat>)
    requires KernelEnd(efiSize, kernelSize) <= entries
    ensures fresh(fat) && fat[..] == FatTable(entries, efiSize, kernelSize)
  {
    fat := new nat[entries](_ => 0);
    fat[0] := 0x0FFF_FFF8;
    fat[1] := 0x0FFF_FFFF;
    Chain(fat, 2, 1);
    Chain(fat, EFI_DIR, 1);
    Chain(fat, BOOT_DIR, 1);
    Chain(fat, EFI_START, ClusterCount(efiSize));
    Chain(fat, KernelStart(efiSize), ClusterCount(kernelSize));
  }

  /** The clusters met by following the table from `start` until an end marker. */
  ghost function Followed(fat: seq<nat>, start: nat, fuel: nat): seq<nat>
    decreases fuel
  {
    if fuel == 0 || start >= |fat| then []
    else [start] + (if fat[start] == FAT_EOC then [] else Followed(fat, fat[start], fuel - 1))
  }

  function Range(lo: nat, n: nat): (r: seq<nat>)
    ensures |r| == n && forall i :: 0 <= i < n ==> r[i] == lo + i
  {
    seq(n, i requires 0 <= i => lo + i)
  }

  lemma RangeStep(lo: nat, n: nat)
    requires n > 0
    ensures Range(lo, n) == [lo] + Range(lo + 1, n - 1)
    ensures n == 1 ==> Range(lo, n) == [lo]
  {
  }

  lemma FollowsOne(fat: seq<nat>, at: nat, fuel: nat)
    requires at < |fat| && fuel > 0
    ensures Followed(fat, at, fuel) == if fat[at] == FAT_EOC then [at] else [at] + Followed(fat, fat[at], fuel - 1)
  {
  }

  lemma {:induction false} FollowsRange(fat: seq<nat>, from: nat, n: nat, fuel: nat)
    requires 0 < n <= fuel && from + n <= |fat| && |fat| <= FAT_EOC
    requires forall j :: from <= j < from + n ==> fat[j] == Link(j, from, n)
    ensures Followed(fat, from, fuel) == Range(from, n)
    decreases n
  {
    RangeStep(from, n);
    FollowsOne(fat, from, fuel);
    hide Followed, Range;
    if n > 1 { FollowsRange(fat, from + 1, n - 1, fuel - 1); }
  }

  /** The five chains of the table: root, EFI, BOOT and the two files. Each is exactly its own
      run of consecutive clusters, ceil(size/512) long for a file, so they are acyclic and no
      two share a cluster, and every entry outside them and the two reserved ones is free. */
  lemma ChainsAreRuns(entries: nat, efiSize: nat, kernelSize: nat)
    requires KernelEnd(efiSize, kernelSize) <= entries <= FAT_EOC
    ensures var fat := FatTable(entries, efiSize, kernelSize);
            && Followed(fat, 2, entries) == [2]
            && Followed(fat, EFI_DIR, entries) == [EFI_DIR]
            && Followed(fat, BOOT_DIR, entries) == [BOOT_DIR]
            && (efiSize > 0 ==> Followed(fat, EFI_START, entries) == Range(EFI_START, ClusterCount(efiSize)))
            && (kernelSize > 0 ==>
                  Followed(fat, KernelStart(efiSize), entries) == Range(KernelStart(efiSize), ClusterCount(kernelSize)))
            && (forall j :: KernelEnd(efiSize, kernelSize) <= j < entries ==> fat[j] == 0)
  {
    var fat := FatTable(entries, efiSize, kernelSize);
    if efiSize > 0 { FollowsRange(fat, EFI_START, ClusterCount(efiSize), entries); }
    if kernelSize > 0 { FollowsRange(fat, KernelStart(efiSize), ClusterCount(kernelSize), entries); }
  }

  // ---- the image ----

  function TotalSectors(sizeMb: int): (n: int)
    ensures n >= 2048
  {
    if sizeMb > 0 then sizeMb * 2048 else ESP_OFFSET + 67024
  }

  function VolumeOf(sizeMb: int): Geometry {
    Solve(TotalSectors(sizeMb) - ESP_OFFSET, ESP_OFFSET)
  }

  /** The first check that raises, in the order the original makes them. */
  function Refusal(g: Geometry, efiSize: nat, kernelSize: nat): Option<BuildError> {
    if g.clusters <= FAT32_FLOOR then Some(TooFewClusters)
    else if g.totalSectors > 0xFFFF_FFFF then Some(VolumeTooLarge)
    else if KernelEnd(efiSize, kernelSize) - 2 > g.clusters then Some(FilesDoNotFit)
    else if efiSize >= 0x1_0000_0000 || kernelSize >= 0x1_0000_0000 then Some(SizeFieldOverflow)
    else None
  }

  function GptWrites(total: nat, crc: Crc): (ws: seq<Write>)
    requires total >= 2048
    ensures Fits(ws, total * 512) && |ws| == 5
  {
    var entries := PartitionArray(total);
    var entriesCrc := Crc32(crc, entries);
    [Write(0, ProtectiveMbr(total)),
     Write(512, PadTo(GptHeader(1, total - 1, 34, total - 34, 2, entriesCrc, crc), 512)),
     Write(2 * 512, entries),
     Write((total - 1) * 512, PadTo(GptHeader(total - 1, 1, 34, total - 34, total - 33, entriesCrc, crc), 512)),
     Write((total - 33) * 512, entries)]
  }

  function RootDirectory(efiSize: nat, kernelSize: nat): (r: seq<byte>)
    ensures |r| == 512
  {
    PadTo(DirEntry(Ascii("VIRELAIOS  "), 0x08, 0, 0)
          + DirEntry(Ascii("EFI        "), 0x10, EFI_DIR, 0)
          + DirEntry(Ascii("KERNEL  BIN"), 0x20, KernelStart(efiSize), kernelSize), 512)
  }

  function EfiDirectory(): (r: seq<byte>)
    ensures |r| == 512
  {
    PadTo(DirEntry(Ascii(".          "), 0x10, EFI_DIR, 0)
          + DirEntry(Ascii("..         "), 0x10, 2, 0)
          + DirEntry(Ascii("BOOT       "), 0x10, BOOT_DIR, 0), 512)
  }

  function BootDirectory(efiSize: nat): (r: seq<byte>)
    ensures |r| == 512
  {
    PadTo(DirEntry(Ascii(".          "), 0x10, BOOT_DIR, 0)
          + DirEntry(Ascii("..         "), 0x10, EFI_DIR, 0)
          + DirEntry(Ascii("BOOTAA64EFI"), 0x20, EFI_START, efiSize), 512)
  }

  /** Cluster `i` of a file's bytes, the last one padded with zeros. */
  function Chunk(data: seq<byte>, i: nat): (c: seq<byte>)
    requires i < ClusterCount(|data|)
    ensures |c| == 512
  {
    PadTo(Slice(data, i * 512, (i + 1) * 512), 512)
  }

  predicate Sound(g: Geometry) {
    && g.baseLba == ESP_OFFSET
    && g.DataStart() + g.clusters == g.totalSectors <= 0xFFFF_FFFF
    && FAT32_FLOOR < g.clusters
    && 128 * (g.fatSectors - 1) < g.clusters <= 128 * g.fatSectors
  }

  function FatRegion(g: Geometry, efiSize: nat, kernelSize: nat): (b: seq<byte>)
    requires Sound(g)
    ensures |b| == if g.clusters + 2 <= 128 * g.fatSectors then 512 * g.fatSectors else 4 * (g.clusters + 2)
  {
    PadTo(FatBytes(FatTable(g.clusters + 2, efiSize, kernelSize)), g.fatSectors * 512)
  }

  function BootWrites(g: Geometry): (ws: seq<Write>)
    requires Sound(g)
    ensures |ws| == 4
  {
    [Write(g.baseLba * 512, BootSector(g)),
     Write((g.baseLba + 1) * 512, FsInfoSector()),
     Write((g.baseLba + 6) * 512, BootSector(g)),
     Write((g.baseLba + 7) * 512, FsInfoSector())]
  }

  function FatWrites(g: Geometry, fat: seq<byte>): (ws: seq<Write>)
    requires Sound(g)
    ensures |ws| == 2
  {
    [Write(g.FatSector(0) * 512, fat), Write(g.FatSector(1) * 512, fat)]
  }

  function DirectoryWrites(g: Geometry, efiSize: nat, kernelSize: nat): (ws: seq<Write>)
    requires Sound(g)
    ensures |ws| == 3
  {
    [Write(g.ClusterSector(2) * 512, RootDirectory(efiSize, kernelSize)),
     Write(g.ClusterSector(EFI_DIR) * 512, EfiDirectory()),
     Write(g.ClusterSector(BOOT_DIR) * 512, BootDirectory(efiSize))]
  }

  function FileWrites(g: Geometry, start: nat, data: seq<byte>, n: nat): (ws: seq<Write>)
    requires Sound(g) && 2 <= start && n <= ClusterCount(|data|)
    ensures |ws| == n
  {
    seq(n, i requires 0 <= i < n => Write(g.ClusterSector(start + i) * 512, Chunk(data, i)))
  }

  function VolumeWrites(g: Geometry, efi: seq<byte>, kernel: seq<byte>): (ws: seq<Write>)
    requires Sound(g)
    ensures |ws| == 9 + ClusterCount(|efi|) + ClusterCount(|kernel|)
  {
    BootWrites(g) + FatWrites(g, FatRegion(g, |efi|, |kernel|)) + DirectoryWrites(g, |efi|, |kernel|)
    + FileWrites(g, EFI_START, efi, ClusterCount(|efi|))
    + FileWrites(g, KernelStart(|efi|), kernel, ClusterCount(|kernel|))
  }

  lemma FileWritesFit(g: Geometry, start: nat, data: seq<byte>)
    requires Sound(g) && 2 <= start && start + ClusterCount(|data|) - 2 <= g.clusters
    ensures Fits(FileWrites(g, start, data, ClusterCount(|data|)), (g.baseLba + g.totalSectors) * 512)
  {
    hide Chunk;
    var n := ClusterCount(|data|);
    forall i | 0 <= i < n
      ensures FileWrites(g, start, data, n)[i].End() <= (g.baseLba + g.totalSectors) * 512
    {
      assert FileWrites(g, start, data, n)[i] == Write(g.ClusterSector(start + i) * 512, Chunk(data, i));
    }
  }

  /** Every write of an accepted build lies inside the image: the buffer never changes length. */
  lemma VolumeWritesFit(g: Geometry, efi: seq<byte>, kernel: seq<byte>)
    requires Sound(g) && KernelEnd(|efi|, |kernel|) - 2 <= g.clusters
    ensures Fits(VolumeWrites(g, efi, kernel), (g.baseLba + g.totalSectors) * 512)
  {
    hide BootSector, FsInfoSector, RootDirectory, EfiDirectory, BootDirectory, FatRegion, FileWrites;
    var n := (g.baseLba + g.totalSectors) * 512;
    var fat := FatRegion(g, |efi|, |kernel|);
    assert |fat| <= 512 * g.fatSectors + 8;
    var front := BootWrites(g) + FatWrites(g, fat) + DirectoryWrites(g, |efi|, |kernel|);
    assert Fits(front, n);
    FileWritesFit(g, EFI_START, efi);
    FileWritesFit(g, KernelStart(|efi|), kernel);
    var e := FileWrites(g, EFI_START, efi, ClusterCount(|efi|));
    FitsBoth(front, e, n);
    FitsBoth(front + e, FileWrites(g, KernelStart(|efi|), kernel, ClusterCount(|kernel|)), n);
  }

  lemma AcceptedIsSound(sizeMb: int, efiSize: nat, kernelSize: nat)
    requires Solvable(TotalSectors(sizeMb) - ESP_OFFSET)
    requires Refusal(VolumeOf(sizeMb), efiSize, kernelSize) == None
    ensures Sound(VolumeOf(sizeMb))
    ensures VolumeOf(sizeMb).baseLba + VolumeOf(sizeMb).totalSectors == TotalSectors(sizeMb)
  {
    SolvedGeometry(TotalSectors(sizeMb) - ESP_OFFSET, ESP_OFFSET);
  }

  /** Every write of an accepted build, in order. */
  function AllWrites(sizeMb: int, efi: seq<byte>, kernel: seq<byte>, crc: Crc): (ws: seq<Write>)
    requires Solvable(TotalSectors(sizeMb) - ESP_OFFSET)
    requires Refusal(VolumeOf(sizeMb), |efi|, |kernel|) == None
    ensures Fits(ws, TotalSectors(sizeMb) * 512)
  {
    AcceptedIsSound(sizeMb, |efi|, |kernel|);
    VolumeWritesFit(VolumeOf(sizeMb), efi, kernel);
    FitsBoth(GptWrites(TotalSectors(sizeMb), crc), VolumeWrites(VolumeOf(sizeMb), efi, kernel),
             TotalSectors(sizeMb) * 512);
    GptWrites(TotalSectors(sizeMb), crc) + VolumeWrites(VolumeOf(sizeMb), efi, kernel)
  }

  /** What a build returns. */
  function ImageOf(sizeMb: int, efi: seq<byte>, kernel: seq<byte>, crc: Crc): (r: BuildResult)
    requires Solvable(TotalSectors(sizeMb) - ESP_OFFSET)
    ensures r.Built? ==> |r.img| == TotalSectors(sizeMb) * 512
  {
    match Refusal(VolumeOf(sizeMb), |efi|, |kernel|)
    case Some(e) => Failed(e)
    case None => Built(Apply(Zeros(TotalSectors(sizeMb) * 512), AllWrites(sizeMb, efi, kernel, crc)))
  }

  /** One sector write: the image moves on by one entry of the write list. */
  method Put(img: array<byte>, ghost start: seq<byte>, ghost done: seq<Write>, off: nat, data: seq<byte>)
    returns (ghost now: seq<Write>)
    requires |start| == img.Length && Fits(done, img.Length) && img[..] == Apply(start, done)
    requires off + |data| <= img.Length
    modifies img
    ensures now == done + [Write(off, data)] && Fits(now, img.Length)
    ensures img[..] == Apply(start, now)
  {
    WriteAt(img, off, data);
    now := done + [Write(off, data)];
    assert now[..|done|] == done;
  }

  lemma FileWritesGrow(done: seq<Write>, g: Geometry, start: nat, data: seq<byte>, i: nat)
    requires Sound(g) && 2 <= start && i < ClusterCount(|data|)
    ensures done + FileWrites(g, start, data, i) + [Write(g.ClusterSector(start + i) * 512, Chunk(data, i))]
         == done + FileWrites(g, start, data, i + 1)
  {
    hide Chunk;
    assert FileWrites(g, start, data, i + 1)
        == FileWrites(g, start, data, i) + [Write(g.ClusterSector(start + i) * 512, Chunk(data, i))];
  }

  method PutFile(img: array<byte>, ghost start: seq<byte>, ghost done: seq<Write>, g: Geometry, first: nat,
                 data: seq<byte>) returns (ghost now: seq<Write>)
    requires |start| == img.Length && Fits(done, img.Length) && img[..] == Apply(start, done)
    requires Sound(g) && 2 <= first && first + ClusterCount(|data|) - 2 <= g.clusters
    requires img.Length == (g.baseLba + g.totalSectors) * 512
    modifies img
    ensures now == done + FileWrites(g, first, data, ClusterCount(|data|)) && Fits(now, img.Length)
    ensures img[..] == Apply(start, now)
  {
    hide Apply, Chunk;
    now := done;
    var n := ClusterCount(|data|);
    for i := 0 to n
      invariant now == done + FileWrites(g, first, data, i) && Fits(now, img.Length)
      invariant img[..] == Apply(start, now)
    {
      FileWritesGrow(done, g, first, data, i);
      var sector := g.ClusterSector(first + i);
      assert (sector + 1) * 512 <= img.Length;
      now := Put(img, start, now, sector * 512, Chunk(data, i));
    }
  }

  method PutBootSectors(img: array<byte>, ghost start: seq<byte>, ghost done: seq<Write>, g: Geometry)
    returns (ghost now: seq<Write>)
    requires |start| == img.Length && Fits(done, img.Length) && img[..] == Apply(start, done)
    requires Sound(g) && img.Length == (g.baseLba + g.totalSectors) * 512
    modifies img
    ensures now == done + BootWrites(g) && Fits(now, img.Length) && img[..] == Apply(start, now)
  {
    hide Apply, BootSector, FsInfoSector;
    var bs := BootSector(g);
    now := Put(img, start, done, g.baseLba * 512, bs);
    now := Put(img, start, now, (g.baseLba + 1) * 512, FsInfoSector());
    now := Put(img, start, now, (g.baseLba + 6) * 512, bs);
    now := Put(img, start, now, (g.baseLba + 7) * 512, FsInfoSector());
    assert now == done + BootWrites(g);
  }

  method PutFats(img: array<byte>, ghost start: seq<byte>, ghost done: seq<Write>, g: Geometry, fat: seq<byte>)
    returns (ghost now: seq<Write>)
    requires |start| == img.Length && Fits(done, img.Length) && img[..] == Apply(start, done)
    requires Sound(g) && img.Length == (g.baseLba + g.totalSectors) * 512
    requires |fat| <= 512 * g.fatSectors + 8
    modifies img
    ensures now == done + FatWrites(g, fat) && Fits(now, img.Length) && img[..] == Apply(start, now)
  {
    hide Apply;
    now := done;
    for i := 0 to NFATS
      invariant now == done + FatWrites(g, fat)[..i] && Fits(now, img.Length) && img[..] == Apply(start, now)
    {
      now := Put(img, start, now, g.FatSector(i) * 512, fat);
    }
  }

  method PutDirectories(img: array<byte>, ghost start: seq<byte>, ghost done: seq<Write>, g: Geometry,
                        efiSize: nat, kernelSize: nat) returns (ghost now: seq<Write>)
    requires |start| == img.Length && Fits(done, img.Length) && img[..] == Apply(start, done)
    requires Sound(g) && img.Length == (g.baseLba + g.totalSectors) * 512
    modifies img
    ensures now == done + DirectoryWrites(g, efiSize, kernelSize) && Fits(now, img.Length)
    ensures img[..] == Apply(start, now)
  {
    hide Apply;
    var root := RootDirectory(efiSize, kernelSize);
    now := Put(img, start, done, g.ClusterSector(2) * 512, root);
    now := Put(img, start, now, g.ClusterSector(EFI_DIR) * 512, EfiDirectory());
    now := Put(img, start, now, g.ClusterSector(BOOT_DIR) * 512, BootDirectory(efiSize));
    assert now == done + DirectoryWrites(g, efiSize, kernelSize);
  }

  lemma Regroup(done: seq<Write>, a: seq<Write>, b: seq<Write>, c: seq<Write>, d: seq<Write>, e: seq<Write>)
    ensures done + a + b + c + d + e == done + (a + b + c + d + e)
  {
  }

  /** build_fat32_image: the checks, then the volume, written into the image. */
  method BuildVolume(img: array<byte>, ghost start: seq<byte>, ghost done: seq<Write>, g: Geometry,
                     efi: seq<byte>, kernel: seq<byte>) returns (refusal: Option<BuildError>, ghost now: seq<Write>)
    requires |start| == img.Length && Fits(done, img.Length) && img[..] == Apply(start, done)
    requires img.Length == (ESP_OFFSET + g.totalSectors) * 512
    requires g.clusters > FAT32_FLOOR && g.totalSectors <= 0xFFFF_FFFF ==> Sound(g)
    modifies img
    ensures refusal == Refusal(g, |efi|, |kernel|)
    ensures refusal == None ==> Sound(g) && now == done + VolumeWrites(g, efi, kernel) && Fits(now, img.Length)
    ensures refusal == None ==> img[..] == Apply(start, now)
  {
    hide Apply, BootSector, FsInfoSector, RootDirectory, EfiDirectory, BootDirectory, BootWrites, FatWrites;
    hide DirectoryWrites, FatTable;
    now := done;
    if g.clusters <= FAT32_FLOOR { return Some(TooFewClusters), now; }
    if g.totalSectors > 0xFFFF_FFFF { return Some(VolumeTooLarge), now; }
    var kernelStart := EFI_START + ClusterCount(|efi|);
    var needed := kernelStart + ClusterCount(|kernel|) - 2;
    if needed > g.clusters { return Some(FilesDoNotFit), now; }
    var fat := BuildFat(g.clusters + 2, |efi|, |kernel|);
    now := PutBootSectors(img, start, now, g);
    var fatBytes := PadTo(FatBytes(fat[..]), g.fatSectors * 512);
    now := PutFats(img, start, now, g, fatBytes);
    if |efi| >= 0x1_0000_0000 || |kernel| >= 0x1_0000_0000 { return Some(SizeFieldOverflow), now; }
    now := PutDirectories(img, start, now, g, |efi|, |kernel|);
    now := PutFile(img, start, now, g, EFI_START, efi);
    now := PutFile(img, start, now, g, kernelStart, kernel);
    Regroup(done, BootWrites(g), FatWrites(g, fatBytes), DirectoryWrites(g, |efi|, |kernel|),
            FileWrites(g, EFI_START, efi, ClusterCount(|efi|)),
            FileWrites(g, KernelStart(|efi|), kernel, ClusterCount(|kernel|)));
    refusal := None;
  }

  lemma ApplyNothing(img: seq<byte>)
    ensures Apply(img, []) == img
  {
  }

  method PutGpt(img: array<byte>, ghost start: seq<byte>, total: nat, crc: Crc) returns (ghost now: seq<Write>)
    requires total >= 2048 && img.Length == total * 512 && img[..] == start
    modifies img
    ensures now == GptWrites(total, crc) && img[..] == Apply(start, now)
  {
    hide Record, PartitionArray, GptHeader, ProtectiveMbr, Apply, PadTo;
    ApplyNothing(start);
    var entries := PartitionArray(total);
    var entriesCrc := Crc32(crc, entries);
    now := [];
    now := Put(img, start, now, 0, ProtectiveMbr(total));
    var primary := PadTo(GptHeader(1, total - 1, 34, total - 34, 2, entriesCrc, crc), 512);
    now := Put(img, start, now, 512, primary);
    now := Put(img, start, now, 2 * 512, entries);
    var backup := PadTo(GptHeader(total - 1, 1, 34, total - 34, total - 33, entriesCrc, crc), 512);
    now := Put(img, start, now, (total - 1) * 512, backup);
    now := Put(img, start, now, (total - 33) * 512, entries);
  }

  /** The image's size in sectors, the volume's own minimum when none is asked for. */
  method ImageSectors(sizeMb: int) returns (total: int)
    ensures total == TotalSectors(sizeMb)
  {
    if sizeMb > 0 {
      total := sizeMb * 1024 * 1024 / 512;
    } else {
      var least := MinimumVolumeSectors();
      total := ESP_OFFSET + least;
    }
  }

  /** build_image. The precondition is the termination condition of the geometry loop. */
  method BuildImage(efi: seq<byte>, kernel: seq<byte>, sizeMb: int, crc: Crc) returns (r: BuildResult)
    requires Solvable(TotalSectors(sizeMb) - ESP_OFFSET)
    ensures r == ImageOf(sizeMb, efi, kernel, crc)
  {
    hide Apply, GptWrites, VolumeWrites, Refusal, TotalSectors, Solvable;
    var total := ImageSectors(sizeMb);
    var g := SolveGeometry(total - ESP_OFFSET, ESP_OFFSET);
    var img := new byte[total * 512](_ => 0);
    ghost var start := Zeros(total * 512);
    assert img[..] == start;
    ghost var now := PutGpt(img, start, total, crc);
    SolvedGeometry(total - ESP_OFFSET, ESP_OFFSET);
    var refusal;
    refusal, now := BuildVolume(img, start, now, g, efi, kernel);
    match refusal {
      case Some(e) => r := Failed(e);
      case None => r := Built(img[..]);
    }
  }
}
