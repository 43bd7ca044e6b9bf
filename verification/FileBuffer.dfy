/** The sector buffer of a file, and transfers that bypass it. */
module FileBuffer {
  import opened Bytes
  import opened Geometry
  import opened Volume
  import opened DataArea
  import opened FileObject

  /** A dirty buffer laid over a drive outside the FAT copies is what writing it back gives. */
  lemma FlushFacts(g: Geo, total: nat, fat: seq<nat>, ch: seq<nat>, sclust: nat, d: seq<Sector>, l: seq<Sector>,
                   buf: Sector, dsect: nat, growing: bool, winsect: nat)
    requires FatGeo(g, total) && DataGeo(g, total) && ChainOk(fat, ch, sclust) && |d| == |l| == total
    requires BufferOk(g, fat, ch, d, buf, dsect, true, growing) && !Avail(g, fat, ch, winsect)
    ensures dsect != winsect && dsect < |d| && OutsideFats(g, dsect)
    ensures BufferOk(g, fat, ch, d[dsect := buf], buf, dsect, false, growing)
    ensures ViewOf(d[dsect := buf], buf, dsect, false) == ViewOf(d, buf, dsect, true)
    ensures Elsewhere(g, ch, l, l[dsect := buf])
  {
    AvailOutside(g, total, fat, ch, dsect);
  }

  lemma ElsewhereRefl(g: Geo, ch: seq<nat>, d: seq<Sector>)
    ensures Elsewhere(g, ch, d, d)
  {
  }

  /** Writes a dirty sector buffer back. */
  method FlushBuffer(fp: Fil)
    requires fp.Stable()
    modifies fp.fs`disk, fp.fs`logical, fp`dirty
    ensures fp.Stable() && !fp.dirty
    ensures fp.View() == old(fp.View())
    ensures Elsewhere(fp.fs.geo, fp.chain, old(fp.fs.logical), fp.fs.logical)
  {
    hide Fatfs.Valid, Avail, BufferOk, Holds, DataGeo, Elsewhere, ChainOk, ViewOf;
    var fs := fp.fs;
    ElsewhereRefl(fs.geo, fp.chain, fs.logical);
    if fp.dirty {
      FlushFacts(fs.geo, |fs.disk|, fs.fat, fp.chain, fp.sclust, fs.disk, fs.logical, fp.buf[..], fp.dsect,
        fp.growing, fs.winsect);
      DiskWrite(fs, fp.dsect, fp.buf[..]);
      fp.dirty := false;
    }
  }

  /** disk_read of `cnt` sectors into memory. */
  method DiskRead(fs: Fatfs, dst: array<byte>, o: nat, sect: nat, cnt: nat)
    requires sect + cnt <= |fs.disk| && o + cnt * 512 <= dst.Length
    modifies dst
    ensures forall i | o <= i < o + cnt * 512 :: dst[i] == fs.disk[sect + (i - o) / 512][(i - o) % 512]
    ensures forall i | 0 <= i < dst.Length && !(o <= i < o + cnt * 512) :: dst[i] == old(dst[i])
  {
    forall i | o <= i < o + cnt * 512 {
      dst[i] := fs.disk[sect + (i - o) / 512][(i - o) % 512];
    }
  }

  /** The sector of the data at index `k` is one a buffer may stand for. */
  lemma DataSector(g: Geo, total: nat, fat: seq<nat>, ch: seq<nat>, sclust: nat, k: nat, s: nat)
    requires FatGeo(g, total) && DataGeo(g, total) && ChainOk(fat, ch, sclust) && ChainOn(g, ch)
    requires SectorIs(g, ch, k, s)
    ensures 0 < s < total && Owned(g, ch, s) && Avail(g, fat, ch, s)
  {
    hide DataGeo, SectorOf, OwnerOf;
    SectorOfRange(g, total, ch, k);
    OwnedAvail(g, fat, ch, sclust, s);
  }

  /** Brings sector `k` of the file into the buffer: the old one is written back if dirty. */
  method LoadBuffer(fp: Fil, sect: nat, ghost k: nat)
    requires fp.Stable() && !fp.growing && SectorIs(fp.fs.geo, fp.chain, k, sect)
    modifies fp.fs`disk, fp.fs`logical, fp`dirty, fp`dsect, fp.buf
    ensures fp.Stable() && fp.dsect == sect
    ensures fp.View() == old(fp.View())
    ensures Elsewhere(fp.fs.geo, fp.chain, old(fp.fs.logical), fp.fs.logical)
  {
    hide Fatfs.Valid, Avail, Holds, DataGeo, Elsewhere, ChainOk, Owned, SectorIs;
    var fs := fp.fs;
    ElsewhereRefl(fs.geo, fp.chain, fs.logical);
    DataSector(fs.geo, |fs.disk|, fs.fat, fp.chain, fp.sclust, k, sect);
    if fp.dsect != sect {
      FlushBuffer(fp);
      DiskRead(fs, fp.buf, 0, sect, 1);
      assert fp.buf[..] == fs.disk[sect];
    }
    fp.dsect := sect;
  }
}
