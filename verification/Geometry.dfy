/** The shape of a mounted volume and the sectors its FAT copies occupy. */
module Geometry {
  import opened Bytes

  datatype FResult =
    | FrOk | FrDiskErr | FrIntErr | FrNoFile | FrDenied | FrNotEnoughCore | FrInvalidName
    | FrNoFilesystem | FrMkfsAborted | FrInvalidParameter

  datatype FatType = Fat12 | Fat16 | Fat32

  /** FATFS members that a mount derives from the boot sector and nothing changes afterwards. */
  datatype Geo = Geo(
    fsType: FatType,
    csize: nat,      // sectors per cluster
    nFats: nat,      // number of FAT copies
    nRootdir: nat,   // root directory entries of a FAT12/16 volume
    nFatent: nat,    // number of clusters + 2
    fsize: nat,      // sectors per FAT copy
    volbase: nat,    // volume start sector
    fatbase: nat,    // start sector of the first FAT copy
    dirbase: nat,    // root directory start sector (FAT32: its first cluster)
    database: nat    // start sector of the data area
  )

  /** Bytes that `n` FAT entries occupy. */
  function FatBytesNeeded(t: FatType, n: nat): nat {
    match t
    case Fat12 => n * 3 / 2 + n % 2
    case Fat16 => n * 2
    case Fat32 => n * 4
  }

  /** The end mark of some sub-type. */
  predicate IsEndMark(m: nat) {
    m in {0xFFF, 0xFFFF, 0xFFF_FFFF}
  }

  /** The largest value an entry can hold; storing 0x0FFFFFFF stores this. */
  function EndMark(t: FatType): (m: nat)
    ensures IsEndMark(m)
  {
    match t
    case Fat12 => 0xFFF
    case Fat16 => 0xFFFF
    case Fat32 => 0xFFF_FFFF
  }

  /** What every mounted geometry satisfies about the FAT, on a drive of `total` sectors. */
  predicate FatGeo(g: Geo, total: nat) {
    && (g.nFats == 1 || g.nFats == 2)
    && 3 <= g.nFatent <= EndMark(g.fsType)
    && FatBytesNeeded(g.fsType, g.nFatent) <= g.fsize * 512
    && g.volbase < g.fatbase
    && FatEnd(g) <= total <= 0x1_0000_0000
  }

  predicate PowerOfTwoByte(n: nat) {
    n in {1, 2, 4, 8, 16, 32, 64, 128}
  }

  /** What every mounted geometry satisfies about the root directory and the data area. */
  predicate DataGeo(g: Geo, total: nat) {
    && PowerOfTwoByte(g.csize)
    && g.nRootdir % 16 == 0
    && (g.fsType == Fat32 <==> g.nRootdir == 0)
    && (g.fsType != Fat32 ==> g.dirbase == FatEnd(g))
    && g.database == FatEnd(g) + g.nRootdir / 16
    && g.database + (g.nFatent - 2) * g.csize <= total
  }

  /** First sector behind the FAT copies. */
  function FatEnd(g: Geo): nat {
    g.fatbase + (if g.nFats == 2 then 2 * g.fsize else g.fsize)
  }

  predicate InFirstFat(g: Geo, s: nat) {
    g.fatbase <= s < g.fatbase + g.fsize
  }

  predicate InSecondFat(g: Geo, s: nat) {
    g.fatbase + g.fsize <= s < FatEnd(g)
  }

  predicate OutsideFats(g: Geo, s: nat) {
    s < g.fatbase || FatEnd(g) <= s
  }

  /** Both FAT copies hold the same sectors. */
  ghost predicate Mirrored(g: Geo, d: seq<Sector>)
    requires FatEnd(g) <= |d|
  {
    g.nFats == 2 ==> forall s: nat | InFirstFat(g, s) :: d[s + g.fsize] == d[s]
  }

  /** Drive `d` with sector `s` replaced by `w`, in every FAT copy when `s` is a FAT sector. */
  ghost function Overlay(g: Geo, d: seq<Sector>, s: nat, w: Sector): (r: seq<Sector>)
    requires s < |d| && FatEnd(g) <= |d|
    ensures |r| == |d|
  {
    if g.nFats == 2 && InFirstFat(g, s) then d[s := w][s + g.fsize := w] else d[s := w]
  }

  /** Laying the same sector over twice changes nothing more. */
  lemma OverlayTwice(g: Geo, d: seq<Sector>, s: nat, w: Sector)
    requires s < |d| && FatEnd(g) <= |d|
    ensures Overlay(g, Overlay(g, d, s, w), s, w) == Overlay(g, d, s, w)
  {
  }

  /** A new window over the same sector: that sector changes, with its copy, and the copies stay equal. */
  lemma OverlayChange(g: Geo, d: seq<Sector>, s: nat, w: Sector, w': Sector)
    requires s < |d| && FatEnd(g) <= |d| && !InSecondFat(g, s)
    requires Mirrored(g, Overlay(g, d, s, w))
    ensures Mirrored(g, Overlay(g, d, s, w'))
    ensures Overlay(g, d, s, w)[s] == w && Overlay(g, d, s, w')[s] == w'
    ensures forall x: nat | x < |d| && x != s && !(InFirstFat(g, s) && InSecondFat(g, x)) ::
              Overlay(g, d, s, w')[x] == Overlay(g, d, s, w)[x]
  {
    var r, r' := Overlay(g, d, s, w), Overlay(g, d, s, w');
    forall x: nat | g.nFats == 2 && InFirstFat(g, x) ensures r'[x + g.fsize] == r'[x] {
      assert r[x + g.fsize] == r[x];
    }
  }

  /** The bytes of the first FAT copy on drive `d`. */
  function FatBytes(g: Geo, d: seq<Sector>): (b: seq<byte>)
    requires FatEnd(g) <= |d|
    ensures |b| == g.fsize * 512
  {
    seq(g.fsize * 512, k requires 0 <= k < g.fsize * 512 => d[g.fatbase + k / 512][k % 512])
  }

  /** `d'` agrees with `d` on every sector that is not part of a FAT copy. */
  ghost predicate SameOutsideFats(g: Geo, d: seq<Sector>, d': seq<Sector>)
    ensures SameOutsideFats(g, d, d') ==> |d'| == |d|
  {
    |d'| == |d| && forall s | 0 <= s < |d| && OutsideFats(g, s) :: d'[s] == d[s]
  }

  lemma SameOutsideTrans(g: Geo, d: seq<Sector>, d': seq<Sector>, d'': seq<Sector>)
    requires SameOutsideFats(g, d, d') && SameOutsideFats(g, d', d'')
    ensures SameOutsideFats(g, d, d'')
  {
  }

  lemma SameOutsideRefl(g: Geo, d: seq<Sector>)
    ensures SameOutsideFats(g, d, d)
  {
  }
}
