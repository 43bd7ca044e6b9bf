/** f_mkfs: the layout it chooses and the drive it leaves, and that find_volume accepts exactly the layouts in
    which a cluster is left. */
module Format {
  import opened Geometry
  import opened DataArea
  import opened Mount

  /** Sizes in sectors, and the number of clusters. */
  datatype Layout = Layout(fsType: FatType, au: nat, bVol: nat, nVol: nat, nRsv: nat, nFat: nat, nDir: nat, nClst: nat)

  /** Sectors in front of the data area. */
  function System(l: Layout): nat {
    l.nRsv + l.nFat + l.nDir
  }

  /** At least one cluster is left behind the aligned metadata. */
  predicate Fits(l: Layout) {
    System(l) + l.au <= l.nVol
  }

  /** The volume is not cut into more clusters than FAT32 numbers can name: the largest of 28 bits is the end mark. */
  predicate Countable(l: Layout) {
    l.nClst + 2 <= EndMark(Fat32)
  }

  /** What every layout of f_mkfs satisfies, on a drive of `sectors` sectors with erase blocks of `block`. */
  ghost predicate Planned(l: Layout, sectors: nat, sfd: bool, block: nat) {
    && l.au > 0 && PowerOfTwoByte(l.au)
    && l.bVol == (if sfd then 0 else 63) && l.bVol + l.nVol == sectors < 0x1_0000_0000
    && (if l.fsType == Fat32 then l.nRsv >= 32 && l.nDir == 0 else l.nRsv == 1 && l.nDir == 32)
    && l.nRsv < 0x1_0000 && (if l.fsType == Fat32 then l.nFat < 0x80_0000 else 1 <= l.nFat < 0x1_0000)
    && (0 < block <= 32768 ==> (l.bVol + System(l)) % block == 0)
    && (Fits(l) ==> l.nClst == (l.nVol - System(l)) / l.au && SubType(l.nClst) == l.fsType)
    && (Countable(l) && Fits(l) ==> l.nFat >= 1 && FatBytesNeeded(l.fsType, l.nClst + 2) <= l.nFat * 512)
    && (l.fsType == Fat16 ==> l.nClst >= MIN_FAT16) && (l.fsType == Fat32 ==> l.nClst >= MIN_FAT32)
  }

  const VST: seq<nat> := [1024, 512, 256, 128, 64, 32, 16, 8, 4, 2, 0]
  const CST: seq<nat> := [32768, 16384, 8192, 4096, 2048, 16384, 8192, 4096, 2048, 1024, 512]

  /** The first bound in VST, from the `i`-th on, that `vs` reaches. */
  function Bound(vs: nat, i: nat): (r: nat)
    requires i < 11
    ensures i <= r < 11 && VST[r] <= vs && forall j | i <= j < r :: vs < VST[j]
    decreases 11 - i
  {
    if VST[i] <= vs then i else Bound(vs, i + 1)
  }

  /** Sectors per cluster on a volume of `nVol` sectors: the wanted cluster size `au` in sectors, from 1 to 128; with
      `au` 0 the entry of CST for the greatest bound in VST that the volume reaches. */
  function UnitFor(nVol: nat, au: nat): nat {
    if au == 0 then CST[Bound(nVol / 2000, 0)] / 512
    else if au < 1024 then 1
    else if au >= 65536 then 128
    else au / 512
  }

  /** It is a power of two, and the wanted size where that is possible. */
  lemma UnitRange(nVol: nat, au: nat)
    requires au == 0 || PowerOfTwo(au)
    ensures UnitFor(nVol, au) > 0 && PowerOfTwoByte(UnitFor(nVol, au))
    ensures 512 <= au <= 65536 ==> UnitFor(nVol, au) * 512 == au
    ensures au == 0 ==> UnitFor(nVol, au) * 512 == CST[Bound(nVol / 2000, 0)]
  {
    if au >= 512 {
      assert PowerOfTwo(512) by { PowersOfTwo(); }
      ShiftPower(au, 512);
      if au < 65536 {
        BytePower(au / 512);
      }
    }
  }

  /** In figures. */
  lemma UnitFigures(nVol: nat, au: nat)
    requires au == 0 || PowerOfTwo(au)
    ensures 512 <= au <= 65536 ==> UnitFor(nVol, au) * 512 == au
    ensures 0 < au < 512 ==> UnitFor(nVol, au) == 1
    ensures au > 65536 ==> UnitFor(nVol, au) == 128
    ensures au == 0 ==> UnitFor(nVol, au) == DefaultUnit(nVol / 2000)
  {
    UnitRange(nVol, au);
    if au == 0 {
      BoundFigures(nVol / 2000);
    }
    hide Bound;
  }

  /** The default for a volume of `v` times 2000 sectors. */
  function DefaultUnit(v: nat): nat {
    if v >= 1024 then 64 else if v >= 512 then 32 else if v >= 256 then 16 else if v >= 128 then 8
    else if v >= 64 then 4 else if v >= 32 then 32 else if v >= 16 then 16 else if v >= 8 then 8
    else if v >= 4 then 4 else if v >= 2 then 2 else 1
  }

  lemma BoundFigures(v: nat)
    ensures CST[Bound(v, 0)] == 512 * DefaultUnit(v)
  {
    var r := Bound(v, 0);
    assert r > 0 ==> v < VST[r - 1];
    hide Bound;
  }

  /** The choice of f_mkfs. */
  method ChooseUnit(nVol: nat, au: nat) returns (unit: nat)
    requires au == 0 || PowerOfTwo(au)
    ensures unit == UnitFor(nVol, au)
    ensures 512 <= au <= 65536 ==> unit * 512 == au
    ensures 0 < au < 512 ==> unit == 1
    ensures au > 65536 ==> unit == 128
    ensures au == 0 ==> unit == DefaultUnit(nVol / 2000)
  {
    UnitRange(nVol, au);
    UnitFigures(nVol, au);
    hide PowerOfTwo, PowerOfTwoByte;
    var au := au;
    if au == 0 {
      var vs := nVol / 2000;
      var i: nat := 0;
      while vs < VST[i]
        invariant i < 11 && Bound(vs, 0) == Bound(vs, i)
        decreases 11 - i
      {
        i := i + 1;
      }
      au := CST[i];
    }
    unit := au / 512;
    if unit == 0 {
      unit := 1;
    }
    if unit > 128 {
      unit := 128;
    }
  }

  lemma PowersOfTwo()
    ensures PowerOfTwo(512)
  {
    BytePower(128);
    assert PowerOfTwo(256);
  }

  lemma {:induction false} ShiftPower(n: nat, d: nat)
    requires PowerOfTwo(n) && PowerOfTwo(d) && n >= d
    ensures n % d == 0 && PowerOfTwo(n / d)
    decreases d
  {
    if d > 1 {
      assert PowerOfTwo(n / 2) && PowerOfTwo(d / 2) && n == n / 2 * 2 && d == d / 2 * 2;
      hide *;
      ShiftPower(n / 2, d / 2);
      var q := n / 2 / (d / 2);
      assert n / 2 == q * (d / 2);
      DivUnique(n, d, q, 0);
    }
  }

  /** `x` rounded up to a multiple of `n`. */
  function RoundUp(x: nat, n: nat): (r: nat)
    requires n > 0
    ensures x <= r < x + n && r % n == 0
  {
    DivUnique((x + n - 1) / n * n, n, (x + n - 1) / n, 0);
    (x + n - 1) / n * n
  }

  /** Sectors of a FAT for `n` clusters. */
  function FatSectors(t: FatType, n: nat): nat {
    match t
    case Fat32 => Dword(n * 4 + 8 + 511) / 512
    case Fat16 => (n * 2 + 4 + 511) / 512
    case Fat12 => ((n * 3 + 1) / 2 + 3 + 511) / 512
  }

  lemma HalfEntries(m: nat)
    ensures FatBytesNeeded(Fat12, m + 2) == (m * 3 + 1) / 2 + 3
  {
    var h := m / 2;
    if m % 2 == 0 {
      assert m == 2 * h;
      assert (m + 2) * 3 / 2 == 3 * h + 3 && (m * 3 + 1) / 2 == 3 * h;
    } else {
      assert m == 2 * h + 1;
      assert (m + 2) * 3 / 2 == 3 * h + 4 && (m * 3 + 1) / 2 == 3 * h + 2;
    }
  }

  lemma FatSectorsEnough(t: FatType, n: nat, m: nat)
    requires m <= n < 0x2000_0000
    ensures FatBytesNeeded(t, m + 2) <= FatSectors(t, n) * 512
  {
    var bytes := match t case Fat12 => (n * 3 + 1) / 2 + 3 case Fat16 => n * 2 + 4 case Fat32 => n * 4 + 8;
    assert FatSectors(t, n) == (bytes + 511) / 512;
    if t == Fat12 {
      HalfEntries(m);
      assert (m * 3 + 1) / 2 <= (n * 3 + 1) / 2;
    }
    assert FatBytesNeeded(t, m + 2) <= bytes;
    hide *;
    assert bytes <= (bytes + 511) / 512 * 512;
  }

  /** Whole clusters in `n` sectors. */
  function Units(n: nat, unit: nat): nat
    requires unit > 0
  {
    n / unit
  }

  /** Sectors from `bData` to the next erase block. */
  function Alignment(bData: nat, block: nat): (n: nat)
    ensures n < 32768 && (0 < block <= 32768 ==> n < block && (bData + n) % block == 0)
  {
    var b := if 0 < block <= 32768 then block else 1;
    RoundUp(bData, b) - bData
  }

  /** What f_mkfs makes of its arguments: an error, or a layout. */
  datatype Plan = Refused(res: FResult) | Laid(l: Layout)

  /** f_mkfs has a layout with a cluster for data. */
  predicate HasRoom(sectors: nat, sfd: bool, au: nat, block: nat)
    requires sectors < 0x1_0000_0000
  {
    var plan := PlanFor(sectors, sfd, au, block);
    plan.Laid? && Fits(plan.l)
  }

  /** And no more clusters than numbers can name. */
  predicate HasVolume(sectors: nat, sfd: bool, au: nat, block: nat)
    requires sectors < 0x1_0000_0000
  {
    HasRoom(sectors, sfd, au, block) && Countable(PlanFor(sectors, sfd, au, block).l)
  }

  /** The layout for a drive of `sectors` sectors with erase blocks of `block`. */
  function PlanFor(sectors: nat, sfd: bool, au: nat, block: nat): Plan
    requires sectors < 0x1_0000_0000
  {
    if au != 0 && !PowerOfTwo(au) then Refused(FrInvalidParameter)
    else if sectors < 128 then Refused(FrDiskErr)
    else
      UnitRange(sectors - (if sfd then 0 else 63), au);
      PlanVolume(sectors - (if sfd then 0 else 63), if sfd then 0 else 63,
        UnitFor(sectors - (if sfd then 0 else 63), au), block)
  }

  /** The layout of a volume of `nVol` sectors from `bVol` on with `unit` sectors per cluster. */
  function PlanVolume(nVol: nat, bVol: nat, unit: nat, block: nat): Plan
    requires unit > 0
  {
    var t, nFat := SubType(Units(nVol, unit)), FatSectors(SubType(Units(nVol, unit)), Units(nVol, unit));
    var meta: nat := (if t == Fat32 then 32 else 33) + nFat;
    var l := Aligned(t, unit, bVol, nVol, nFat, Alignment(bVol + meta, block));
    if nVol < meta + unit || TooFew(l) then Refused(FrMkfsAborted) else Laid(l)
  }

  /** A layout whose metadata is `n` sectors longer than it must be: before the FAT on FAT32, else in the FAT. */
  function Aligned(t: FatType, unit: nat, bVol: nat, nVol: nat, nFat: nat, n: nat): Layout
    requires unit > 0
  {
    if t == Fat32 then Sized(t, unit, bVol, nVol, 32 + n, nFat, 0) else Sized(t, unit, bVol, nVol, 1, nFat + n, 32)
  }

  /** As many clusters as the sectors behind the metadata make, counted in 32 bits. */
  function Sized(t: FatType, unit: nat, bVol: nat, nVol: nat, nRsv: nat, nFat: nat, nDir: nat): Layout
    requires unit > 0
  {
    Layout(t, unit, bVol, nVol, nRsv, nFat, nDir, Units((nVol - nRsv - nFat - nDir) % 0x1_0000_0000, unit))
  }

  /** Fewer clusters than the sub-type asks for. */
  predicate TooFew(l: Layout) {
    (l.fsType == Fat16 && l.nClst < MIN_FAT16) || (l.fsType == Fat32 && l.nClst < MIN_FAT32)
  }

  /** f_mkfs up to the first write: cluster size, sub-type, sizes, alignment, which masks with `block - 1`. */
  method MakePlan(sectors: nat, sfd: bool, au: nat, block: nat) returns (plan: Plan)
    requires sectors < 0x1_0000_0000 && (0 < block <= 32768 ==> PowerOfTwo(block))
    ensures plan == PlanFor(sectors, sfd, au, block)
    ensures plan.Laid? ==> Planned(plan.l, sectors, sfd, block)
    ensures plan.Laid? && plan.l.nRsv + plan.l.nFat + plan.l.nDir + plan.l.au <= plan.l.nVol ==>
              && (plan.l.fsType == Fat12 <==> plan.l.nClst < 4086)
              && (plan.l.fsType == Fat16 <==> 4086 <= plan.l.nClst < 65526)
              && (plan.l.fsType == Fat32 <==> plan.l.nClst >= 65526)
    ensures plan.Laid? && plan.l.fsType != Fat12 ==> plan.l.nClst >= if plan.l.fsType == Fat16 then 4086 else 65526
  {
    PlanIsPlanned(sectors, sfd, au, block);
    hide PowerOfTwo, UnitFor, Planned, PlanVolume;
    if au != 0 && !PowerOfTwo(au) {
      return Refused(FrInvalidParameter);
    }
    if sectors < 128 {
      return Refused(FrDiskErr);
    }
    var bVol: nat := if sfd then 0 else 63;
    UnitRange(sectors - bVol, au);
    var unit := ChooseUnit(sectors - bVol, au);
    plan := LayOut(sectors - bVol, bVol, unit, block);
    if plan.Laid? {
      PlannedType(plan.l, sectors, sfd, block);
    }
  }

  lemma PlannedType(l: Layout, sectors: nat, sfd: bool, block: nat)
    requires Planned(l, sectors, sfd, block)
    ensures l.nRsv + l.nFat + l.nDir + l.au <= l.nVol ==>
              && (l.fsType == Fat12 <==> l.nClst < 4086) && (l.fsType == Fat16 <==> 4086 <= l.nClst < 65526)
              && (l.fsType == Fat32 <==> l.nClst >= 65526)
    ensures l.fsType != Fat12 ==> l.nClst >= if l.fsType == Fat16 then 4086 else 65526
  {
    hide PowerOfTwoByte;
  }

  method LayOut(nVol: nat, bVol: nat, unit: nat, block: nat) returns (plan: Plan)
    requires unit > 0
    ensures plan == PlanVolume(nVol, bVol, unit, block)
  {
    hide FatSectors, SubType, Units, Alignment;
    var n0: nat := Units(nVol, unit);
    var fmt := SubType(n0);
    var nFat := FatSectors(fmt, n0);
    var nRsv: nat := if fmt == Fat32 then 32 else 1;
    var nDir: nat := if fmt == Fat32 then 0 else 32;
    var bData := bVol + nRsv + nFat + nDir;
    if nVol < bData + unit - bVol {
      return Refused(FrMkfsAborted);
    }
    var n := Alignment(bData, block);
    if fmt == Fat32 {
      nRsv := nRsv + n;
    } else {
      nFat := nFat + n;
    }
    var nClst: nat := Units((nVol - nRsv - nFat - nDir) % 0x1_0000_0000, unit);
    if (fmt == Fat16 && nClst < MIN_FAT16) || (fmt == Fat32 && nClst < MIN_FAT32) {
      return Refused(FrMkfsAborted);
    }
    plan := Laid(Layout(fmt, unit, bVol, nVol, nRsv, nFat, nDir, nClst));
  }

  /** Every layout is sound. */
  lemma PlanIsPlanned(sectors: nat, sfd: bool, au: nat, block: nat)
    requires sectors < 0x1_0000_0000
    ensures PlanFor(sectors, sfd, au, block).Laid? ==> Planned(PlanFor(sectors, sfd, au, block).l, sectors, sfd, block)
  {
    hide PowerOfTwo, UnitFor, Planned, PlanVolume;
    if PlanFor(sectors, sfd, au, block).Laid? {
      var bVol: nat := if sfd then 0 else 63;
      UnitRange(sectors - bVol, au);
      VolumePlanned(sectors, sfd, bVol, UnitFor(sectors - bVol, au), block);
    }
  }

  lemma VolumePlanned(sectors: nat, sfd: bool, bVol: nat, unit: nat, block: nat)
    requires 128 <= sectors < 0x1_0000_0000 && bVol == (if sfd then 0 else 63) && unit > 0 && PowerOfTwoByte(unit)
    ensures var plan := PlanVolume(sectors - bVol, bVol, unit, block); plan.Laid? ==>
            Planned(plan.l, sectors, sfd, block)
  {
    var plan := PlanVolume(sectors - bVol, bVol, unit, block);
    if plan.Laid? {
      var n0 := Units(sectors - bVol, unit);
      var t, nFat := SubType(n0), FatSectors(SubType(n0), n0);
      var meta: nat := (if t == Fat32 then 32 else 33) + nFat;
      var n := Alignment(bVol + meta, block);
      assert plan.l == Aligned(t, unit, bVol, sectors - bVol, nFat, n) && !TooFew(plan.l);
      AlignedParts(t, unit, bVol, sectors - bVol, nFat, n);
      hide FatSectors, PowerOfTwoByte, SubType, Units, Planned, Alignment, PlanVolume, Aligned, System;
      assert bVol + System(plan.l) == bVol + meta + n;
      PlanSound(plan.l, n0, n, sectors, sfd, block);
    }
  }

  lemma AlignedParts(t: FatType, unit: nat, bVol: nat, nVol: nat, nFat: nat, n: nat)
    requires unit > 0
    ensures var l := Aligned(t, unit, bVol, nVol, nFat, n);
            && l.fsType == t && l.au == unit && l.bVol == bVol && l.nVol == nVol
               && System(l) == (if t == Fat32 then 32 else 33) + nFat + n
            && (if t == Fat32 then l.nRsv == 32 + n && l.nDir == 0 && l.nFat == nFat
              else l.nRsv == 1 && l.nDir == 32
                   && l.nFat == nFat + n)
            && l.nClst == Units((nVol - System(l)) % 0x1_0000_0000, unit)
  {
    hide Units;
    assert nVol - 1 - (nFat + n) - 32 == nVol - (1 + (nFat + n) + 32);
  }

  lemma PlanSound(l: Layout, n0: nat, n: nat, sectors: nat, sfd: bool, block: nat)
    requires l.au > 0 && PowerOfTwoByte(l.au) && n0 == Units(l.nVol, l.au) && l.fsType == SubType(n0) && n < 32768
    requires l.bVol == (if sfd then 0 else 63) && l.bVol + l.nVol == sectors < 0x1_0000_0000
    requires if l.fsType == Fat32 then l.nRsv == 32 + n && l.nDir == 0 && l.nFat == FatSectors(Fat32, n0)
             else l.nRsv == 1 && l.nDir == 32 && l.nFat == FatSectors(l.fsType, n0) + n
    requires 0 < block <= 32768 ==> (l.bVol + System(l)) % block == 0
    requires l.nClst == Units((l.nVol - System(l)) % 0x1_0000_0000, l.au)
    requires l.fsType == Fat16 ==> l.nClst >= MIN_FAT16
    requires l.fsType == Fat32 ==> l.nClst >= MIN_FAT32
    ensures Planned(l, sectors, sfd, block)
  {
    hide PowerOfTwoByte, FatSectors;
    FatSectorsRange(l.fsType, n0);
    if Fits(l) {
      assert l.nClst == (l.nVol - System(l)) / l.au;
      DivLess(l.nVol - System(l), l.au, n0 + 1);
      DivLess(l.nVol, l.au, n0 + 1);
    }
    if Fits(l) && Countable(l) {
      NoWrap(l, n0);
      FatSectorsEnough(l.fsType, n0, l.nClst);
    }
  }

  /** The FAT is as small as it can be: with one sector less it would not hold its entries. */
  lemma FatSectorsLeast(t: FatType, n: nat)
    requires n < 0x2000_0000
    ensures FatSectors(t, n) == (FatBytesNeeded(t, n + 2) + 511) / 512
  {
    HalfEntries(n);
  }

  lemma FatSectorsRange(t: FatType, n: nat)
    requires t == SubType(n)
    ensures t != Fat32 ==> 1 <= FatSectors(t, n) < 300
    ensures FatSectors(t, n) < 0x80_0000 && (n < 0x2000_0000 ==> 1 <= FatSectors(t, n))
  {
  }

  /** A volume whose clusters can be named is too small for the size of its FAT to wrap. */
  lemma NoWrap(l: Layout, n0: nat)
    requires l.au > 0 && n0 == Units(l.nVol, l.au) && Countable(l) && Fits(l)
    requires System(l) < 0x100_0000 && l.nClst == (l.nVol - System(l)) / l.au
    ensures n0 < 0x2000_0000
  {
    DivLess(l.nVol, l.au, 0x2000_0000);
    DivLess(l.nVol - System(l), l.au, 0x1000_0000);
    assert 0x1000_0000 * l.au <= 0x2000_0000 * l.au - 0x100_0000;
  }
}
