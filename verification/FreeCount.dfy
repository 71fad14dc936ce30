/**
 * f_getfree: counting free clusters, entry by entry on FAT12 and by a raw sector scan on
 * FAT16 and FAT32.
 */
module FreeCount {
  import opened Types
  import opened FatTable
  import opened Geometry
  import opened Window
  import opened FatAccess
  import opened ClusterChains
  import opened Allocator

  // Number of zero entries among lo..hi-1.
  function ZerosIn(f: seq<nat>, lo: nat, hi: nat): nat
    requires hi <= |f|
  {
    if hi <= lo then 0 else ZerosIn(f, lo, hi - 1) + if f[hi - 1] == 0 then 1 else 0
  }

  lemma {:induction false} ZerosInIsSize(f: seq<nat>, n: nat)
    requires 2 <= n <= |f|
    ensures ZerosIn(f, 2, n) == |Zeros(f[..n])|
  {
    if n == 2 {
      assert Zeros(f[..n]) == {};
    } else {
      ZerosInIsSize(f, n - 1);
      assert Zeros(f[..n]) == Zeros(f[..n - 1]) + if f[n - 1] == 0 then {n - 1} else {};
    }
  }

  lemma {:induction false} ZerosInSplit(f: seq<nat>, n: nat)
    requires 2 <= n <= |f|
    ensures ZerosIn(f, 0, n) == ZerosIn(f, 2, n) + (if f[0] == 0 then 1 else 0) + (if f[1] == 0 then 1 else 0)
  {
    if n > 2 {
      ZerosInSplit(f, n - 1);
    } else {
      assert ZerosIn(f, 0, 1) == if f[0] == 0 then 1 else 0;
    }
  }

  /**
   * The raw scan also looks at the reserved entries 0 and 1: it agrees with the number of
   * free clusters if and only if neither of them is zero.
   */
  lemma RawScanAgrees(f: seq<nat>)
    requires 2 <= |f|
    ensures ZerosIn(f, 0, |f|) == |Zeros(f)| <==> f[0] != 0 && f[1] != 0
  {
    ZerosInSplit(f, |f|);
    ZerosInIsSize(f, |f|);
    assert f[..|f|] == f;
  }

  // The FAT12 loop.
  method CountByEntry(fs: Fatfs) returns (res: FResult, nfree: nat)
    requires fs.Valid()
    modifies fs`wflag, fs`disk, fs`winsect, fs.win
    ensures fs.Valid() && nfree <= fs.vol.nFatent
    ensures res == if HasOne(fs.fat) then IntErr else Ok
    ensures res == Ok ==> nfree == |Zeros(fs.fat)|
  {
    res, nfree := Ok, 0;
    var clst: dword := 2;
    while true
      invariant fs.Valid() && 2 <= clst < fs.vol.nFatent && nfree <= clst
      invariant nfree == ZerosIn(fs.fat, 2, clst)
      invariant forall c :: 2 <= c < clst ==> fs.fat[c] != 1
      decreases fs.vol.nFatent - clst
    {
      var stat := GetFat(fs, clst);
      if stat == 1 {
        res := IntErr;
        break;
      }
      if stat == 0 {
        nfree := nfree + 1;
      }
      clst := clst + 1;
      if clst >= fs.vol.nFatent {
        assert fs.fat[..clst] == fs.fat;
        ZerosInIsSize(fs.fat, clst);
        break;
      }
    }
  }

  // Entry e of a FAT16 or FAT32, at offset r of FAT sector q.
  lemma RawEntry(v: Volume, l: seq<Sector>, e: nat, q: nat, r: nat)
    requires v.Valid() && v.database <= |l| && e < v.nFatent && r < 512
    requires v.fsType == Fat16 ==> 512 * q + r == 2 * e
    requires v.fsType == Fat32 ==> 512 * q + r == 4 * e
    ensures v.fsType == Fat16 ==>
      q < v.fsize && r + 1 < 512 && FatOf(v, l)[e] == LdWord(l[v.fatbase + q], r)
    ensures v.fsType == Fat32 ==>
      q < v.fsize && r + 3 < 512 && FatOf(v, l)[e] == LdDword(l[v.fatbase + q], r) % 0x1000_0000
  {
    FatEntry(v, l, e);
    if v.fsType == Fat16 {
      FatByteAt(v, l, q, r);
      FatByteAt(v, l, q, r + 1);
    } else if v.fsType == Fat32 {
      FatDwordAt(v, l, q, r);
    }
  }

  lemma RawEntryIn(v: Volume, e: nat, q: nat, r: nat)
    requires v.Valid() && v.fsType != Fat12 && e < v.nFatent && r < 512
    requires 512 * q + r == if v.fsType == Fat16 then 2 * e else 4 * e
    ensures q < v.fsize && r + (if v.fsType == Fat16 then 1 else 3) < 512
  {
    assert LookVolume(0);
  }

  // Whether the entry at offset r of the window is zero.
  method RawIsFree(fs: Fatfs, r: nat, ghost e: nat, ghost q: nat) returns (free: bool)
    requires fs.Valid() && fs.vol.fsType != Fat12 && e < fs.vol.nFatent && q < fs.vol.fsize
    requires fs.win[..] == fs.logical[fs.vol.fatbase + q]
    requires r + (if fs.vol.fsType == Fat16 then 1 else 3) < 512
    requires 512 * q + r == if fs.vol.fsType == Fat16 then 2 * e else 4 * e
    ensures free <==> fs.fat[e] == 0
  {
    Reveal(fs);
    RawEntry(fs.vol, fs.logical, e, q, r);
    if fs.vol.fsType == Fat16 {
      free := LdWord(fs.win[..], r) == 0;
    } else {
      free := LdDword(fs.win[..], r) % 0x1000_0000 == 0;
    }
  }

  // Where the scan stands before entry e: q sectors were loaded, i bytes of the last one are left.
  ghost predicate ScanAt(fs: Fatfs, e: nat, q: nat, i: nat)
    reads fs, fs.win
  {
    && i <= 512 && 512 * q - i == (if fs.vol.fsType == Fat16 then 2 else 4) * e
    && (i > 0 ==>
        && q > 0 && fs.winsect == fs.vol.fatbase + q - 1 < |fs.logical|
        && fs.win[..] == fs.logical[fs.winsect])
  }

  // One round of the scan: load the next sector if needed, look at one entry.
  method ScanEntry(fs: Fatfs, ghost e: nat, q: nat, i: nat) returns (q': nat, i': nat, free: bool)
    requires fs.Valid() && fs.vol.fsType != Fat12 && e < fs.vol.nFatent && ScanAt(fs, e, q, i)
    modifies fs`wflag, fs`disk, fs`winsect, fs.win
    ensures fs.Valid() && ScanAt(fs, e + 1, q', i') && (free <==> fs.fat[e] == 0)
  {
    q', i' := q, i;
    RawEntryIn(fs.vol, e, if i == 0 then q else q - 1, if i == 0 then 0 else 512 - i);
    if i' == 0 {
      MoveWindow(fs, fs.vol.fatbase + q');
      q' := q' + 1;
      i' := 512;
    }
    free := RawIsFree(fs, 512 - i', e, q' - 1);
    i' := if fs.vol.fsType == Fat16 then i' - 2 else i' - 4;
  }

  // The FAT16/FAT32 loop, with clst entries to go.
  method CountRaw(fs: Fatfs) returns (nfree: nat)
    requires fs.Valid() && fs.vol.fsType != Fat12
    modifies fs`wflag, fs`disk, fs`winsect, fs.win
    ensures fs.Valid() && nfree == ZerosIn(fs.fat, 0, fs.vol.nFatent) <= fs.vol.nFatent
  {
    var clst: nat, q: nat, i: nat := fs.vol.nFatent, 0, 0;
    nfree := 0;
    while clst > 0
      invariant fs.Valid() && clst <= fs.vol.nFatent && ScanAt(fs, fs.vol.nFatent - clst, q, i)
      invariant nfree == ZerosIn(fs.fat, 0, fs.vol.nFatent - clst) <= fs.vol.nFatent - clst
    {
      var free;
      q, i, free := ScanEntry(fs, fs.vol.nFatent - clst, q, i);
      if free {
        nfree := nfree + 1;
      }
      clst := clst - 1;
    }
  }

  /**
   * f_getfree on a mounted volume. A remembered count is returned as it is; otherwise a
   * successful call counts the FAT, and on FAT16/FAT32 the count includes zero entries 0 and 1.
   */
  method GetFree(fs: Fatfs) returns (res: FResult, nclst: dword)
    requires fs.Valid()
    modifies fs`wflag, fs`disk, fs`winsect, fs.win, fs`freeClust, fs`fsiFlag
    ensures fs.Valid() && nclst == fs.freeClust
    ensures old(fs.freeClust) <= fs.vol.nFatent - 2 ==> res == Ok && nclst == old(fs.freeClust)
    ensures old(fs.freeClust) > fs.vol.nFatent - 2 ==>
      && res == (if fs.vol.fsType == Fat12 && HasOne(fs.fat) then IntErr else Ok)
      && (res == Ok && fs.vol.fsType == Fat12 ==> CountRight(fs))
      && (fs.vol.fsType != Fat12 ==> (CountRight(fs) <==> fs.fat[0] != 0 && fs.fat[1] != 0))
  {
    if fs.freeClust <= fs.vol.nFatent - 2 {
      return Ok, fs.freeClust;
    }
    res := Ok;
    if fs.vol.fsType == Fat12 {
      res, nclst := CountByEntry(fs);
    } else {
      nclst := CountRaw(fs);
      RawScanAgrees(fs.fat);
    }
    fs.freeClust := nclst;
    fs.fsiFlag := MarkDirty(fs.fsiFlag);
  }
}
