/** The FAT32 sizing arithmetic of image/mkfat32.py: the sectors-per-FAT fixed point,
    exactly when its loop stops, and the smallest volume it accepts. */
module Fat32Geometry {

  const RESERVED: int := 32
  const NFATS: int := 2
  const BPS: int := 512

  /** One volume's geometry once the sectors-per-FAT loop has stopped. */
  datatype Geometry = Geometry(baseLba: nat, totalSectors: int, fatSectors: int, clusters: int) {
    function DataStart(): int { RESERVED + NFATS * fatSectors }

    /** First absolute sector of a data cluster; the root directory is cluster 2. */
    function ClusterSector(cluster: int): int { baseLba + DataStart() + (cluster - 2) }

    function FatSector(i: int): int { baseLba + RESERVED + i * fatSectors }
  }

  /** Sectors left for FATs and clusters. */
  function Capacity(volumeSectors: int): int { volumeSectors - RESERVED }

  function Clusters(volumeSectors: int, fatSectors: int): int {
    volumeSectors - RESERVED - NFATS * fatSectors
  }

  /** Sectors one FAT needs for the clusters that remain when each FAT has `fatSectors`. */
  function Need(volumeSectors: int, fatSectors: int): int {
    (Clusters(volumeSectors, fatSectors) * 4 + BPS - 1) / BPS
  }

  ghost predicate IsFixed(volumeSectors: int, f: int) { Need(volumeSectors, f) == f }

  /** The value of `fat_sectors` at the head of the n-th pass through the loop. */
  ghost function Iterate(volumeSectors: int, n: nat): int {
    if n == 0 then 1 else Need(volumeSectors, Iterate(volumeSectors, n - 1))
  }

  ghost predicate LoopStops(volumeSectors: int) {
    exists n: nat :: IsFixed(volumeSectors, Iterate(volumeSectors, n))
  }

  /** What decides termination: the residue of the capacity modulo 130. */
  predicate Solvable(volumeSectors: int) { Capacity(volumeSectors) % 130 !in {1, 2} }

  /** The fixed point, written down directly: ceil(capacity / 130). */
  function FatSectors(volumeSectors: int): int { (Capacity(volumeSectors) + 129) / 130 }

  /** Entries by which one FAT exceeds the cluster count; 0..127 at a fixed point. */
  function Slack(volumeSectors: int): int { 130 * FatSectors(volumeSectors) - Capacity(volumeSectors) }

  /** A value is fixed exactly when it is ceil(capacity/130) and the residue is not 1 or 2. */
  lemma FixedPointExactly(v: int, f: int)
    ensures IsFixed(v, f) <==> f == FatSectors(v) && Solvable(v)
  {
    var c := Capacity(v);
    assert Clusters(v, f) == c - 2 * f;
    assert IsFixed(v, f) <==> 128 * f - 128 < c - 2 * f <= 128 * f;
    assert c == 130 * (c / 130) + c % 130;
    assert FatSectors(v) == if c % 130 == 0 then c / 130 else c / 130 + 1;
  }

  /** How far `f` is from the fixed point, with a tie-break for the one side of distance 1
      from which the next step lands on the other side. */
  ghost function Distance(v: int, f: int): nat {
    var d := f - FatSectors(v);
    2 * (if d < 0 then -d else d) + if Slack(v) < 2 then (if d < 0 then 1 else 0) else (if d > 0 then 1 else 0)
  }

  lemma StepGetsCloser(v: int, f: int)
    requires Solvable(v) && !IsFixed(v, f)
    ensures Distance(v, Need(v, f)) < Distance(v, f)
  {
    FixedPointExactly(v, f);
    var g, r := FatSectors(v), Slack(v);
    assert 0 <= r < 128 by { SlackBound(v); }
    NeedFrom(v, f);
    hide Need, Slack, FatSectors, Solvable, IsFixed;
    Nearer(r, f - g, Need(v, f) - g);
  }

  lemma SlackBound(v: int)
    ensures 0 <= Slack(v) < 130
    ensures Solvable(v) ==> Slack(v) < 128
  {
  }

  /** One pass from `d` off the fixed point lands (511 - 4 * slack - 8 * d) / 512 off it, rounded down. */
  lemma NeedFrom(v: int, f: int)
    ensures var e := Need(v, f) - FatSectors(v);
            512 * e <= 511 - 4 * Slack(v) - 8 * (f - FatSectors(v)) < 512 * e + 512
  {
    var g, r := FatSectors(v), Slack(v);
    assert Clusters(v, f) * 4 + 511 == 4 * (128 * g - r - 2 * (f - g)) + 511;
  }

  lemma Nearer(r: int, d: int, e: int)
    requires 0 <= r < 128 && d != 0 && 512 * e <= 511 - 4 * r - 8 * d < 512 * e + 512
    ensures 2 * (if e < 0 then -e else e) + (if r < 2 then (if e < 0 then 1 else 0) else if e > 0 then 1 else 0)
          < 2 * (if d < 0 then -d else d) + (if r < 2 then (if d < 0 then 1 else 0) else if d > 0 then 1 else 0)
  {
  }

  lemma {:induction false} IterateReaches(v: int, n: nat)
    requires Solvable(v)
    ensures LoopStops(v)
    decreases Distance(v, Iterate(v, n))
  {
    var f := Iterate(v, n);
    if !IsFixed(v, f) {
      StepGetsCloser(v, f);
      assert Iterate(v, n + 1) == Need(v, f);
      IterateReaches(v, n + 1);
    }
  }

  /** The loop stops exactly when (volume_sectors - 32) mod 130 is neither 1 nor 2. */
  lemma LoopStopsExactly(v: int)
    ensures LoopStops(v) <==> Solvable(v)
  {
    if Solvable(v) {
      IterateReaches(v, 0);
    } else {
      forall n: nat ensures !IsFixed(v, Iterate(v, n)) {
        FixedPointExactly(v, Iterate(v, n));
      }
    }
  }

  /** Distance from the pair {q, q+1} the loop is caught in when it does not stop. */
  ghost function PairDistance(v: int, f: int): nat {
    var q := Capacity(v) / 130;
    if f < q then q - f else if f > q + 1 then f - q - 1 else 0
  }

  lemma {:induction false} ReachesThePair(v: int, n: nat) returns (m: nat)
    requires !Solvable(v)
    ensures m >= n && Iterate(v, m) in {Capacity(v) / 130, Capacity(v) / 130 + 1}
    decreases PairDistance(v, Iterate(v, n))
  {
    var q := Capacity(v) / 130;
    var f := Iterate(v, n);
    if PairDistance(v, f) == 0 {
      m := n;
    } else {
      var rho := Capacity(v) % 130;
      var d := f - q;
      assert Capacity(v) == 130 * q + rho;
      assert Clusters(v, f) == 128 * q + rho - 2 * d;
      assert Need(v, f) == q + (511 + 4 * rho - 8 * d) / 512;
      var e := (511 + 4 * rho - 8 * d) / 512;
      assert 512 * e <= 511 + 4 * rho - 8 * d < 512 * e + 512;
      assert Iterate(v, n + 1) == Need(v, f);
      m := ReachesThePair(v, n + 1);
    }
  }

  /** When the residue is 1 or 2 the loop ends up alternating between q and q+1, where
      q = floor(capacity / 130): two steps always bring it back. */
  lemma {:induction false} AlternatesForever(v: int, m: nat, k: nat)
    requires !Solvable(v)
    requires Iterate(v, m) in {Capacity(v) / 130, Capacity(v) / 130 + 1}
    ensures Iterate(v, m + k) in {Capacity(v) / 130, Capacity(v) / 130 + 1}
    ensures Iterate(v, m + k + 1) == 2 * (Capacity(v) / 130) + 1 - Iterate(v, m + k)
    decreases k
  {
    var q := Capacity(v) / 130;
    var rho := Capacity(v) % 130;
    assert Capacity(v) == 130 * q + rho;
    if k > 0 { AlternatesForever(v, m, k - 1); }
    var f := Iterate(v, m + k);
    var d := f - q;
    assert Clusters(v, f) == 128 * q + rho - 2 * d;
    assert Need(v, f) == q + (511 + 4 * rho - 8 * d) / 512;
  }

  /** `--size-mb 69` is such a size: 1071 and 1072 alternate and the tool never returns. */
  lemma SizeMb69NeverReturns()
    ensures !LoopStops(69 * 2048 - 2048)
    ensures Need(69 * 2048 - 2048, 1071) == 1072 && Need(69 * 2048 - 2048, 1072) == 1071
  {
    LoopStopsExactly(69 * 2048 - 2048);
  }

  /** The geometry every caller gets when the loop stops. */
  function Solve(volumeSectors: int, baseLba: nat): Geometry {
    var f := FatSectors(volumeSectors);
    Geometry(baseLba, volumeSectors, f, Clusters(volumeSectors, f))
  }

  /** Each FAT covers its clusters, short of a 128-entry sector; the data area ends exactly
      at the end of the volume; and the table has room for the two reserved entries as well
      exactly when the residue is 3..128. */
  lemma SolvedGeometry(v: int, base: nat)
    requires Solvable(v)
    ensures var g := Solve(v, base);
            && g.DataStart() + g.clusters == v
            && 128 * (g.fatSectors - 1) < g.clusters <= 128 * g.fatSectors
            && Slack(v) == 128 * g.fatSectors - g.clusters
            && (g.clusters + 2 <= 128 * g.fatSectors <==> 3 <= Capacity(v) % 130 <= 128)
  {
    var c := Capacity(v);
    assert c == 130 * (c / 130) + c % 130;
  }

  /** image/mkfat32.py's loop. The precondition is its termination condition
      (LoopStopsExactly); without it the original never returns. */
  method SolveGeometry(volumeSectors: int, baseLba: nat) returns (g: Geometry)
    requires Solvable(volumeSectors)
    ensures IsFixed(volumeSectors, g.fatSectors)
    ensures forall f :: IsFixed(volumeSectors, f) ==> f == g.fatSectors
    ensures g == Solve(volumeSectors, baseLba)
  {
    var fatSectors := 1;
    var clusters;
    while true
      decreases Distance(volumeSectors, fatSectors)
    {
      clusters := volumeSectors - RESERVED - NFATS * fatSectors;
      var need := (clusters * 4 + BPS - 1) / BPS;
      if need == fatSectors { break; }
      StepGetsCloser(volumeSectors, fatSectors);
      fatSectors := need;
    }
    g := Geometry(baseLba, volumeSectors, fatSectors, clusters);
    forall f ensures IsFixed(volumeSectors, f) ==> f == g.fatSectors {
      FixedPointExactly(volumeSectors, f);
    }
    FixedPointExactly(volumeSectors, fatSectors);
  }

  const FAT32_FLOOR: int := 65525

  /** The default volume: the first of 66000, 66512, 67024, ... whose geometry has more than
      65525 clusters. */
  method MinimumVolumeSectors() returns (v: int)
    ensures v == 67024 && Solvable(v)
    ensures Solve(v, 0).clusters == 65960 > FAT32_FLOOR
    ensures forall k: nat :: 66000 + 512 * k < v ==> Solve(66000 + 512 * k, 0).clusters <= FAT32_FLOOR
  {
    v := 66000;
    while true
      invariant v in {66000, 66512, 67024}
      decreases 67024 - v
    {
      var g := SolveGeometry(v, 0);
      if g.clusters > FAT32_FLOOR { break; }
      v := v + 512;
    }
  }

  /** So the default is not the smallest that passes: that one has 66582 sectors. */
  lemma SmallestVolume(v: int)
    ensures Solvable(66582) && Solve(66582, 0).clusters == 65526 > FAT32_FLOOR
    ensures Solvable(v) && Solve(v, 0).clusters > FAT32_FLOOR ==> v >= 66582
  {
  }
}
