/** get_fat and put_fat: entries of the FAT read and written through the access window. */
module FatAccess {
  import opened Bytes
  import opened Geometry
  import opened FatEntries
  import opened Volume

  /** Whether byte `j` lies among the `n` bytes from `k` on is decided within a sector when those do not cross one. */
  lemma SameSector(k: nat, n: nat, j: nat)
    requires k % 512 + n <= 512 && n > 0
    ensures k <= j < k + n <==> j / 512 == k / 512 && k % 512 <= j % 512 < k % 512 + n
    ensures j / 512 == k / 512 ==> j - k == j % 512 - k % 512
  {
  }

  /** A window over a FAT sector shows the bytes of the FAT. */
  lemma WindowShowsFat(fs: Fatfs, k: nat, n: nat)
    requires fs.Valid() && k + n <= fs.geo.fsize * 512 && k % 512 + n <= 512 && n > 0
    requires fs.winsect == fs.geo.fatbase + k / 512
    ensures fs.win[k % 512..k % 512 + n] == FatBytes(fs.geo, fs.logical)[k..k + n]
  {
    hide Mirrored;
    var p, b := fs.win[k % 512..k % 512 + n], FatBytes(fs.geo, fs.logical)[k..k + n];
    forall i | 0 <= i < n ensures p[i] == b[i] {
      SameSector(k, n, k + i);
    }
  }

  /** A window over the sector of FAT16 or FAT32 entry `c` shows its value. */
  lemma WindowShowsEntry(fs: Fatfs, c: nat)
    requires fs.Valid() && c < fs.geo.nFatent && fs.geo.fsType != Fat12
    requires fs.winsect == fs.geo.fatbase + EntryOffset(fs.geo.fsType, c) / 512
    ensures EntryOffset(fs.geo.fsType, c) % 512 + EntrySize(fs.geo.fsType) <= 512
    ensures var p := EntryOffset(fs.geo.fsType, c) % 512;
            fs.fat[c] == if fs.geo.fsType == Fat16 then LdWord(fs.win[..], p) else LdDword(fs.win[..], p) % 0x1000_0000
  {
    EntryAligned(fs.geo.fsType, c);
    EntryInside(fs.geo.fsType, fs.geo.nFatent, c);
    ShownEntry(fs, c);
  }

  lemma EntryAligned(t: FatType, c: nat)
    requires t != Fat12
    ensures EntryOffset(t, c) % 512 + EntrySize(t) <= 512
  {
    if t == Fat16 {
      var q, r := c / 256, c % 256;
      assert 2 * c == 512 * q + 2 * r;
    } else {
      var q, r := c / 128, c % 128;
      assert 4 * c == 512 * q + 4 * r;
    }
  }

  lemma ShownEntry(fs: Fatfs, c: nat)
    requires fs.Valid() && c < fs.geo.nFatent && fs.geo.fsType != Fat12
    requires EntryOffset(fs.geo.fsType, c) % 512 + EntrySize(fs.geo.fsType) <= 512
    requires EntryOffset(fs.geo.fsType, c) + EntrySize(fs.geo.fsType) <= fs.geo.fsize * 512
    requires fs.winsect == fs.geo.fatbase + EntryOffset(fs.geo.fsType, c) / 512
    ensures var p := EntryOffset(fs.geo.fsType, c) % 512;
            fs.fat[c] == if fs.geo.fsType == Fat16 then LdWord(fs.win[..], p) else LdDword(fs.win[..], p) % 0x1000_0000
  {
    hide Mirrored, Overlay, LdWord, LdDword;
    var k, n := EntryOffset(fs.geo.fsType, c), EntrySize(fs.geo.fsType);
    var b := FatBytes(fs.geo, fs.logical);
    WindowShowsFat(fs, k, n);
    LdSlice(fs.win[..], k % 512);
    LdSlice(b, k);
    assert fs.win[..][k % 512..k % 512 + n] == b[k..k + n];
    assert fs.fat[c] == Entry(fs.geo.fsType, b, c);
  }

  /** The bytes from `k` on of one FAT sector, the sector moved into the window. */
  method LoadFat(fs: Fatfs, k: nat, n: nat) returns (p: seq<byte>)
    requires fs.Valid() && k + n <= fs.geo.fsize * 512 && k % 512 + n <= 512 && n > 0
    modifies fs`disk, fs`wflag, fs`winsect, fs.win
    ensures fs.Valid() && InFirstFat(fs.geo, fs.winsect) && fs.winsect == fs.geo.fatbase + k / 512
    ensures p == FatBytes(fs.geo, fs.logical)[k..k + n]
  {
    hide Fatfs.Valid;
    MoveWindow(fs, fs.geo.fatbase + k / 512);
    WindowShowsFat(fs, k, n);
    p := fs.win[k % 512..k % 512 + n];
  }

  /** Bytes of the window changed: the same bytes of the FAT change, in every copy, and nothing else. */
  lemma OverlayFat(g: Geo, d: seq<Sector>, w: Sector, w': Sector, k: nat, bs: seq<byte>)
    requires FatEnd(g) <= |d| && k + |bs| <= g.fsize * 512 && (g.nFats == 1 || g.nFats == 2)
    requires 0 < |bs| <= 512 - k % 512
    requires Mirrored(g, Overlay(g, d, g.fatbase + k / 512, w))
    requires w' == Splice(w, k % 512, bs)
    ensures Mirrored(g, Overlay(g, d, g.fatbase + k / 512, w'))
    ensures FatBytes(g, Overlay(g, d, g.fatbase + k / 512, w')) == Splice(FatBytes(g,
            Overlay(g, d, g.fatbase + k / 512, w)), k, bs)
    ensures SameOutsideFats(g, Overlay(g, d, g.fatbase + k / 512, w), Overlay(g, d, g.fatbase + k / 512, w'))
  {
    hide Overlay, Mirrored;
    var s := g.fatbase + k / 512;
    OverlayChange(g, d, s, w, w');
    SectorsToFatBytes(g, Overlay(g, d, s, w), Overlay(g, d, s, w'), k, bs);
  }

  lemma SectorsToFatBytes(g: Geo, d: seq<Sector>, d': seq<Sector>, k: nat, bs: seq<byte>)
    requires FatEnd(g) <= |d| == |d'| && k + |bs| <= g.fsize * 512 && (g.nFats == 1 || g.nFats == 2)
    requires 0 < |bs| <= 512 - k % 512
    requires d'[g.fatbase + k / 512] == Splice(d[g.fatbase + k / 512], k % 512, bs)
    requires forall s: nat | InFirstFat(g, s) && s != g.fatbase + k / 512 :: d'[s] == d[s]
    ensures FatBytes(g, d') == Splice(FatBytes(g, d), k, bs)
  {
    forall j: nat | j < g.fsize * 512
      ensures FatBytes(g, d')[j] == Splice(FatBytes(g, d), k, bs)[j]
    {
      SameSector(k, |bs|, j);
      var s := g.fatbase + j / 512;
      assert InFirstFat(g, s);
    }
  }

  /** ST_WORD and its like: bytes stored through a pointer into the window that shows their FAT sector. */
  method StoreFat(fs: Fatfs, k: nat, bs: seq<byte>)
    requires fs.Valid() && 0 < |bs| <= 512 - k % 512
    requires k + |bs| <= fs.geo.fsize * 512 && fs.winsect == fs.geo.fatbase + k / 512
    modifies fs.win, fs`wflag, fs`logical, fs`fat
    ensures fs.Valid() && fs.wflag
    ensures FatBytes(fs.geo, fs.logical) == Splice(old(FatBytes(fs.geo, fs.logical)), k, bs)
    ensures SameOutsideFats(fs.geo, old(fs.logical), fs.logical)
  {
    hide Mirrored, FatBytes;
    ghost var w := fs.win[..];
    var o := k % 512;
    forall i | o <= i < o + |bs| {
      fs.win[i] := bs[i - o];
    }
    fs.wflag := true;
    fs.logical := Overlay(fs.geo, fs.disk, fs.winsect, fs.win[..]);
    fs.fat := TableOf(fs.geo, fs.logical);
    assert fs.win[..] == Splice(w, o, bs);
    OverlayFat(fs.geo, fs.disk, w, fs.win[..], k, bs);
  }

  // ----- reading an entry -----

  /** get_fat: 1 for a cluster number out of range, else the entry on the logical drive. */
  method GetFat(fs: Fatfs, clst: nat) returns (r: nat)
    requires fs.Valid()
    modifies fs`disk, fs`wflag, fs`winsect, fs.win
    ensures fs.Valid()
    ensures r == if 2 <= clst < fs.geo.nFatent then fs.fat[clst] else 1
    ensures fs.winsect == old(fs.winsect) || InFirstFat(fs.geo, fs.winsect)
  {
    if clst < 2 || clst >= fs.geo.nFatent {
      return 1;
    }
    EntryInside(fs.geo.fsType, fs.geo.nFatent, clst);
    match fs.geo.fsType
    case Fat12 => r := GetFat12(fs, clst);
    case Fat16 => r := GetFat16(fs, clst);
    case Fat32 => r := GetFat32(fs, clst);
  }

  method GetFat12(fs: Fatfs, clst: nat) returns (r: nat)
    requires fs.Valid() && fs.geo.fsType == Fat12 && clst + clst / 2 + 2 <= fs.geo.fsize * 512
    modifies fs`disk, fs`wflag, fs`winsect, fs.win
    ensures fs.Valid() && InFirstFat(fs.geo, fs.winsect)
    ensures r == Entry(Fat12, FatBytes(fs.geo, fs.logical), clst)
  {
    hide FatBytes, Fatfs.Valid;
    var bc := clst + clst / 2;
    var lo := LoadFat(fs, bc, 1);
    var hi := LoadFat(fs, bc + 1, 1);
    var wc := LdWord(lo + hi, 0);
    r := if clst % 2 == 1 then wc / 0x10 else wc % 0x1000;
  }

  method GetFat16(fs: Fatfs, clst: nat) returns (r: nat)
    requires fs.Valid() && fs.geo.fsType == Fat16 && clst * 2 + 2 <= fs.geo.fsize * 512
    modifies fs`disk, fs`wflag, fs`winsect, fs.win
    ensures fs.Valid() && InFirstFat(fs.geo, fs.winsect)
    ensures r == Entry(Fat16, FatBytes(fs.geo, fs.logical), clst)
  {
    var k := clst * 2;
    EntryPlace(Fat16, clst, k, FatBytes(fs.geo, fs.logical));
    hide *;
    var p := LoadFat(fs, k, 2);
    r := LdWord(p, 0);
  }

  /** A FAT16 or FAT32 entry is a word, or a double word, of its own bytes, which are in one sector. */
  lemma EntryPlace(t: FatType, c: nat, k: nat, b: seq<byte>)
    requires t != Fat12 && k == c * EntrySize(t) && k + EntrySize(t) <= |b|
    ensures k % 512 + EntrySize(t) <= 512
    ensures t == Fat16 ==> Entry(t, b, c) == LdWord(b[k..k + 2], 0)
    ensures t == Fat32 ==> Entry(t, b, c) == LdDword(b[k..k + 4], 0) % 0x1000_0000
  {
    EntryAligned(t, c);
    LdSlice(b, k);
    hide LdWord, LdDword;
  }

  method GetFat32(fs: Fatfs, clst: nat) returns (r: nat)
    requires fs.Valid() && fs.geo.fsType == Fat32 && clst * 4 + 4 <= fs.geo.fsize * 512
    modifies fs`disk, fs`wflag, fs`winsect, fs.win
    ensures fs.Valid() && InFirstFat(fs.geo, fs.winsect)
    ensures r == Entry(Fat32, FatBytes(fs.geo, fs.logical), clst)
  {
    var k := clst * 4;
    EntryPlace(Fat32, clst, k, FatBytes(fs.geo, fs.logical));
    hide *;
    var p := LoadFat(fs, k, 4);
    r := LdDword(p, 0) % 0x1000_0000;
  }

  // ----- writing an entry -----

  /** put_fat: sets one entry on the logical drive, in every FAT copy, and nothing else. */
  method PutFat(fs: Fatfs, clst: nat, val: nat) returns (res: FResult)
    requires fs.Valid() && val < 0x1_0000_0000
    modifies fs`disk, fs`logical, fs`fat, fs`wflag, fs`winsect, fs.win
    ensures fs.Valid()
    ensures SameOutsideFats(fs.geo, old(fs.logical), fs.logical)
    ensures res == if 2 <= clst < fs.geo.nFatent then FrOk else FrIntErr
    ensures res == FrOk ==> fs.fat == old(fs.fat)[clst := val % (EndMark(fs.geo.fsType) + 1)]
    ensures res == FrOk ==> InFirstFat(fs.geo, fs.winsect)
    ensures res == FrOk && fs.geo.fsType == Fat32 && val < 0x1000_0000 ==>
              forall x: nat | x < fs.geo.nFatent ::
                ReservedBits(FatBytes(fs.geo, fs.logical), x) == ReservedBits(FatBytes(fs.geo, old(fs.logical)), x)
    ensures res == FrIntErr ==> fs.logical == old(fs.logical) && fs.winsect == old(fs.winsect)
  {
    if clst < 2 || clst >= fs.geo.nFatent {
      return FrIntErr;
    }
    EntryInside(fs.geo.fsType, fs.geo.nFatent, clst);
    StoredTable(fs.geo.fsType, fs.geo.nFatent, FatBytes(fs.geo, fs.logical), clst, val);
    res := FrOk;
    match fs.geo.fsType
    case Fat12 => PutFat12(fs, clst, val);
    case Fat16 => PutFat16(fs, clst, val);
    case Fat32 => PutFat32(fs, clst, val);
  }

  method PutFat12(fs: Fatfs, clst: nat, val: nat)
    requires fs.Valid() && fs.geo.fsType == Fat12 && clst + clst / 2 + 2 <= fs.geo.fsize * 512 && val < 0x1_0000_0000
    modifies fs`disk, fs`logical, fs`fat, fs`wflag, fs`winsect, fs.win
    ensures fs.Valid() && InFirstFat(fs.geo, fs.winsect)
    ensures SameOutsideFats(fs.geo, old(fs.logical), fs.logical)
    ensures FatBytes(fs.geo, fs.logical) == Stored(Fat12, FatBytes(fs.geo, old(fs.logical)), clst, val)
  {
    hide FatBytes, Fatfs.Valid, Low12, High12, Splice;
    var bc := clst + clst / 2;
    var lo := LoadFat(fs, bc, 1);
    StoreFat(fs, bc, [Low12(clst, val, lo[0])]);
    var hi := LoadFat(fs, bc + 1, 1);
    StoreFat(fs, bc + 1, [High12(clst, val, hi[0])]);
  }

  method PutFat16(fs: Fatfs, clst: nat, val: nat)
    requires fs.Valid() && fs.geo.fsType == Fat16 && clst * 2 + 2 <= fs.geo.fsize * 512 && val < 0x1_0000_0000
    modifies fs`disk, fs`logical, fs`fat, fs`wflag, fs`winsect, fs.win
    ensures fs.Valid() && InFirstFat(fs.geo, fs.winsect)
    ensures SameOutsideFats(fs.geo, old(fs.logical), fs.logical)
    ensures FatBytes(fs.geo, fs.logical) == Stored(Fat16, FatBytes(fs.geo, old(fs.logical)), clst, val)
  {
    hide FatBytes, Fatfs.Valid;
    MoveWindow(fs, fs.geo.fatbase + clst / 256);
    StoreFat(fs, clst * 2, StWord(val));
  }

  method PutFat32(fs: Fatfs, clst: nat, val: nat)
    requires fs.Valid() && fs.geo.fsType == Fat32 && clst * 4 + 4 <= fs.geo.fsize * 512 && val < 0x1_0000_0000
    modifies fs`disk, fs`logical, fs`fat, fs`wflag, fs`winsect, fs.win
    ensures fs.Valid() && InFirstFat(fs.geo, fs.winsect)
    ensures SameOutsideFats(fs.geo, old(fs.logical), fs.logical)
    ensures FatBytes(fs.geo, fs.logical) == Stored(Fat32, FatBytes(fs.geo, old(fs.logical)), clst, val)
  {
    var k := clst * 4;
    ghost var b := FatBytes(fs.geo, fs.logical);
    EntryPlace(Fat32, clst, k, b);
    Stored32Is(b, clst, k, val);
    hide *;
    var p := LoadFat(fs, k, 4);
    assert p[3] == b[k + 3];
    StoreFat(fs, k, EntryBytes32(val, p[3]));
  }

  /** The four bytes of a FAT32 entry. */
  function EntryBytes32(val: nat, old3: byte): (bs: seq<byte>)
    requires val < 0x1_0000_0000
    ensures |bs| == 4
  {
    [val % 0x100, val / 0x100 % 0x100, val / 0x1_0000 % 0x100, Top32(val, old3)]
  }

  lemma Stored32Is(b: seq<byte>, c: nat, k: nat, v: nat)
    requires k == c * 4 && k + 4 <= |b| && v < 0x1_0000_0000
    ensures Stored(Fat32, b, c, v) == Splice(b, k, EntryBytes32(v, b[k + 3]))
  {
    hide Top32;
  }
}
