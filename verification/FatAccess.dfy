/**
 * get_fat and put_fat: entry access through the window, for FAT12 (entries may straddle two
 * sectors), FAT16 and FAT32.
 */
module FatAccess {
  import opened Types
  import opened FatTable
  import opened Geometry
  import opened Window

  // What get_fat answers: the entry, or 1 for a cluster number out of range.
  function Fetch(f: seq<nat>, clst: nat): nat {
    if 2 <= clst < |f| then f[clst] else 1
  }

  // Entry c of the volume, read from the bytes of its FAT.
  lemma FatEntry(v: Volume, l: seq<Sector>, c: nat)
    requires v.Valid() && v.database <= |l| && c < v.nFatent
    ensures TableFits(v.fsType, c + 1, v.fsize * 512)
    ensures FatOf(v, l)[c] == Entry(v.fsType, FatBytes(v, l), c)
  {
    assert LookVolume(0);
  }

  // Value x stands in entry c of the FAT on disk l.
  ghost predicate FatShows(v: Volume, l: seq<Sector>, c: nat, x: nat) {
    && v.Layout() && v.database <= |l| && TableFits(v.fsType, c + 1, v.fsize * 512)
    && Stands(v.fsType, FatBytes(v, l), c, x)
  }

  // The FAT on disk m is that on disk l with value x stored in entry c.
  ghost predicate FatStored(v: Volume, l: seq<Sector>, m: seq<Sector>, c: nat, x: dword) {
    && v.Layout() && v.database <= |l| && v.database <= |m| && TableFits(v.fsType, c + 1, v.fsize * 512)
    && StoredIn(v.fsType, FatBytes(v, l), FatBytes(v, m), c, x)
  }

  // Byte r of FAT sector q, after moving the window there.
  method FatByte(fs: Fatfs, q: nat, r: nat) returns (x: byte)
    requires fs.Valid() && q < fs.vol.fsize && r < 512
    modifies fs`wflag, fs`disk, fs`winsect, fs.win
    ensures fs.Valid() && fs.winsect == fs.vol.fatbase + q
    ensures 512 * q + r < fs.vol.fsize * 512 && x == FatBytes(fs.vol, fs.logical)[512 * q + r]
  {
    MoveWindow(fs, fs.vol.fatbase + q);
    FatByteAt(fs.vol, fs.logical, q, r);
    x := fs.win[r];
  }

  // Two bytes of FAT sector q.
  method FatWord(fs: Fatfs, q: nat, r: nat) returns (x: dword)
    requires fs.Valid() && q < fs.vol.fsize && r + 1 < 512
    modifies fs`wflag, fs`disk, fs`winsect, fs.win
    ensures fs.Valid() && fs.winsect == fs.vol.fatbase + q
    ensures 512 * q + r + 1 < fs.vol.fsize * 512 && x == LdWord(FatBytes(fs.vol, fs.logical), 512 * q + r)
  {
    MoveWindow(fs, fs.vol.fatbase + q);
    FatByteAt(fs.vol, fs.logical, q, r);
    FatByteAt(fs.vol, fs.logical, q, r + 1);
    x := LdWord(fs.win[..], r);
  }

  // Four bytes of FAT sector q.
  method FatDword(fs: Fatfs, q: nat, r: nat) returns (x: dword)
    requires fs.Valid() && q < fs.vol.fsize && r + 3 < 512
    modifies fs`wflag, fs`disk, fs`winsect, fs.win
    ensures fs.Valid() && fs.winsect == fs.vol.fatbase + q
    ensures 512 * q + r + 3 < fs.vol.fsize * 512 && x == LdDword(FatBytes(fs.vol, fs.logical), 512 * q + r)
  {
    MoveWindow(fs, fs.vol.fatbase + q);
    FatDwordAt(fs.vol, fs.logical, q, r);
    x := LdDword(fs.win[..], r);
  }

  lemma FatDwordAt(v: Volume, l: seq<Sector>, q: nat, r: nat)
    requires v.Layout() && v.database <= |l| && q < v.fsize && r + 3 < 512
    ensures 512 * q + r + 3 < v.fsize * 512
    ensures LdDword(l[v.fatbase + q], r) == LdDword(FatBytes(v, l), 512 * q + r)
  {
    FatByteAt(v, l, q, r);
    FatByteAt(v, l, q, r + 1);
    FatByteAt(v, l, q, r + 2);
    FatByteAt(v, l, q, r + 3);
  }

  // Sector and offset, inside the FAT, of byte bc and of the entries of FAT16 and FAT32.
  method Locate12(bc: nat) returns (q: nat, r: nat)
    ensures 512 * q + r == bc && r < 512
  {
    q, r := bc / 512, bc % 512;
  }

  method Locate16(clst: dword) returns (q: nat, r: nat)
    ensures 512 * q + r == clst * 2 && r + 1 < 512
  {
    q, r := clst / (512 / 2), clst * 2 % 512;
  }

  method Locate32(clst: dword) returns (q: nat, r: nat)
    ensures 512 * q + r == clst * 4 && r + 3 < 512
  {
    q, r := clst / (512 / 4), clst * 4 % 512;
    assert clst == 128 * q + clst % 128;
  }

  method Get12(fs: Fatfs, clst: dword) returns (val: dword)
    requires fs.Valid() && TableFits(Fat12, clst + 1, fs.vol.fsize * 512)
    modifies fs`wflag, fs`disk, fs`winsect, fs.win
    ensures fs.Valid() && fs.vol.InFat(fs.winsect)
    ensures val == Entry(Fat12, FatBytes(fs.vol, fs.logical), clst)
  {
    var bc := clst + clst / 2;
    var q, r := Locate12(bc);
    var lo := FatByte(fs, q, r);
    q, r := Locate12(bc + 1);
    var hi := FatByte(fs, q, r);
    val := Unpack12(lo, hi, clst % 2 == 1);
  }

  method Get16(fs: Fatfs, clst: dword) returns (val: dword)
    requires fs.Valid() && TableFits(Fat16, clst + 1, fs.vol.fsize * 512)
    modifies fs`wflag, fs`disk, fs`winsect, fs.win
    ensures fs.Valid() && fs.vol.InFat(fs.winsect)
    ensures val == Entry(Fat16, FatBytes(fs.vol, fs.logical), clst)
  {
    var q, r := Locate16(clst);
    val := FatWord(fs, q, r);
  }

  method Get32(fs: Fatfs, clst: dword) returns (val: dword)
    requires fs.Valid() && TableFits(Fat32, clst + 1, fs.vol.fsize * 512)
    modifies fs`wflag, fs`disk, fs`winsect, fs.win
    ensures fs.Valid() && fs.vol.InFat(fs.winsect)
    ensures val == Entry(Fat32, FatBytes(fs.vol, fs.logical), clst)
  {
    var q, r := Locate32(clst);
    val := FatDword(fs, q, r);
    val := val % 0x1000_0000;
  }

  method GetFat(fs: Fatfs, clst: dword) returns (val: dword)
    requires fs.Valid()
    modifies fs`wflag, fs`disk, fs`winsect, fs.win
    ensures fs.Valid()
    ensures val == Fetch(fs.fat, clst) && val < 0x1000_0000
    ensures 2 <= clst < fs.vol.nFatent ==> FatShows(fs.vol, fs.logical, clst, val) == true
    ensures 2 <= clst < fs.vol.nFatent ==> fs.vol.InFat(fs.winsect)
    ensures !(2 <= clst < fs.vol.nFatent) ==> fs.winsect == old(fs.winsect)
  {
    if clst < 2 || clst >= fs.vol.nFatent {
      return 1;
    }
    Reveal(fs);
    FatEntry(fs.vol, fs.logical, clst);
    EntryStands(fs.vol.fsType, FatBytes(fs.vol, fs.logical), clst);
    match fs.vol.fsType {
      case Fat12 =>
        val := Get12(fs, clst);
      case Fat16 =>
        val := Get16(fs, clst);
      case Fat32 =>
        val := Get32(fs, clst);
    }
  }

  // Store one byte of the FAT sector in the window.
  method PokeFat(fs: Fatfs, q: nat, r: nat, x: byte)
    requires fs.Valid() && q < fs.vol.fsize && r < 512 && fs.winsect == fs.vol.fatbase + q
    modifies fs`wflag, fs.win, fs`logical, fs`fat
    ensures fs.Valid() && SameOutsideFat(fs.vol, old(fs.logical), fs.logical)
    ensures 512 * q + r < fs.vol.fsize * 512
    ensures FatBytes(fs.vol, fs.logical) == old(FatBytes(fs.vol, fs.logical))[512 * q + r := x]
  {
    FatByteChanged(fs.vol, fs.logical, q, r, x);
    PokeWindow(fs, r, x);
  }

  // The first and the second byte put_fat stores for a FAT12 entry.
  method Put12Low(fs: Fatfs, bc: nat, val: dword, odd: bool)
    requires fs.Valid() && bc < fs.vol.fsize * 512
    modifies fs`wflag, fs`disk, fs`winsect, fs.win, fs`logical, fs`fat
    ensures fs.Valid() && SameOutsideFat(fs.vol, old(fs.logical), fs.logical) && fs.vol.InFat(fs.winsect)
    ensures FatBytes(fs.vol, fs.logical)
         == var b := old(FatBytes(fs.vol, fs.logical)); b[bc := Low12(b[bc], val, odd)]
  {
    var q, r := Locate12(bc);
    var p := FatByte(fs, q, r);
    PokeFat(fs, q, r, Low12(p, val, odd));
  }

  method Put12High(fs: Fatfs, bc: nat, val: dword, odd: bool)
    requires fs.Valid() && bc < fs.vol.fsize * 512
    modifies fs`wflag, fs`disk, fs`winsect, fs.win, fs`logical, fs`fat
    ensures fs.Valid() && SameOutsideFat(fs.vol, old(fs.logical), fs.logical) && fs.vol.InFat(fs.winsect)
    ensures FatBytes(fs.vol, fs.logical)
         == var b := old(FatBytes(fs.vol, fs.logical)); b[bc := High12(b[bc], val, odd)]
  {
    var q, r := Locate12(bc);
    var p := FatByte(fs, q, r);
    PokeFat(fs, q, r, High12(p, val, odd));
  }

  // Where the entry lies across two sectors, moving the window for the second store writes the
  // FAT half to the drive.
  method Put12(fs: Fatfs, clst: dword, val: dword) returns (ghost half: seq<nat>)
    requires fs.Valid() && fs.vol.fsType == Fat12 && clst < fs.vol.nFatent && TableFits(Fat12, clst + 1, fs.vol.fsize * 512)
    modifies fs`wflag, fs`disk, fs`winsect, fs.win, fs`logical, fs`fat
    ensures fs.Valid() && SameOutsideFat(fs.vol, old(fs.logical), fs.logical) && fs.vol.InFat(fs.winsect)
    ensures FatBytes(fs.vol, fs.logical) == Set12(old(FatBytes(fs.vol, fs.logical)), clst, val)
    ensures half == var f := FatOf(fs.vol, old(fs.logical)); f[clst := Half12(f[clst], val, clst % 2 == 1)]
  {
    var bc := clst + clst / 2;
    FatAfterHalf(fs.vol, fs.logical, clst, val);
    Put12Low(fs, bc, val, clst % 2 == 1);
    half := FatOf(fs.vol, fs.logical);
    Put12High(fs, bc + 1, val, clst % 2 == 1);
  }

  lemma FatAfterHalf(v: Volume, l: seq<Sector>, c: nat, x: dword)
    requires v.Valid() && v.fsType == Fat12 && v.database <= |l| && c < v.nFatent && TableFits(Fat12, c + 1, v.fsize * 512)
    ensures TableFits(Fat12, v.nFatent, v.fsize * 512)
    ensures var f := FatOf(v, l);
      Entries(Fat12, SetLow12(FatBytes(v, l), c, x), v.nFatent) == f[c := Half12(f[c], x, c % 2 == 1)]
  {
    assert LookVolume(0);
    EntriesAfterHalf(FatBytes(v, l), v.nFatent, c, x);
  }

  method Put16(fs: Fatfs, clst: dword, val: dword)
    requires fs.Valid() && TableFits(Fat16, clst + 1, fs.vol.fsize * 512)
    modifies fs`wflag, fs`disk, fs`winsect, fs.win, fs`logical, fs`fat
    ensures fs.Valid() && SameOutsideFat(fs.vol, old(fs.logical), fs.logical)
    ensures FatBytes(fs.vol, fs.logical) == StWord(old(FatBytes(fs.vol, fs.logical)), clst * 2, val)
    ensures fs.vol.InFat(fs.winsect)
  {
    var q, r := Locate16(clst);
    MoveWindow(fs, fs.vol.fatbase + q);
    PokeFat(fs, q, r, val % 0x100);
    PokeFat(fs, q, r + 1, val / 0x100 % 0x100);
  }

  method Put32(fs: Fatfs, clst: dword, val: dword)
    requires fs.Valid() && TableFits(Fat32, clst + 1, fs.vol.fsize * 512)
    modifies fs`wflag, fs`disk, fs`winsect, fs.win, fs`logical, fs`fat
    ensures fs.Valid() && SameOutsideFat(fs.vol, old(fs.logical), fs.logical)
    ensures FatBytes(fs.vol, fs.logical)
         == var b := old(FatBytes(fs.vol, fs.logical)); StDword(b, clst * 4, Merge32(val, LdDword(b, clst * 4)))
    ensures fs.vol.InFat(fs.winsect)
  {
    var q, r := Locate32(clst);
    var was := FatDword(fs, q, r);
    StoreDword(fs, q, r, Merge32(val, was));
  }

  method StoreDword(fs: Fatfs, q: nat, r: nat, v: dword)
    requires fs.Valid() && q < fs.vol.fsize && r + 3 < 512 && fs.winsect == fs.vol.fatbase + q
    modifies fs`wflag, fs.win, fs`logical, fs`fat
    ensures fs.Valid() && SameOutsideFat(fs.vol, old(fs.logical), fs.logical)
    ensures 512 * q + r + 3 < fs.vol.fsize * 512
    ensures FatBytes(fs.vol, fs.logical) == StDword(old(FatBytes(fs.vol, fs.logical)), 512 * q + r, v)
  {
    PokeFat(fs, q, r, v % 0x100);
    PokeFat(fs, q, r + 1, v / 0x100 % 0x100);
    PokeFat(fs, q, r + 2, v / 0x1_0000 % 0x100);
    PokeFat(fs, q, r + 3, v / 0x100_0000);
  }

  // The stores of put_fat, as a change of the FAT's bytes.
  method StoreEntry(fs: Fatfs, clst: dword, val: dword)
    requires fs.Valid() && clst < fs.vol.nFatent
    modifies fs`wflag, fs`disk, fs`winsect, fs.win, fs`logical, fs`fat
    ensures fs.Valid() && SameOutsideFat(fs.vol, old(fs.logical), fs.logical) && fs.vol.InFat(fs.winsect)
    ensures TableFits(fs.vol.fsType, clst + 1, fs.vol.fsize * 512)
    ensures FatBytes(fs.vol, fs.logical) == SetEntry(fs.vol.fsType, old(FatBytes(fs.vol, fs.logical)), clst, val)
  {
    FatEntry(fs.vol, fs.logical, clst);
    match fs.vol.fsType {
      case Fat12 =>
        ghost var half := Put12(fs, clst, val);
      case Fat16 =>
        Put16(fs, clst, val);
      case Fat32 =>
        Put32(fs, clst, val);
    }
  }

  /**
   * put_fat. The FAT afterwards is the old one with entry clst replaced by val, cut to the
   * entry's width; nothing outside the FAT copies changes. Every store is recorded in the log.
   */
  method PutFat(fs: Fatfs, clst: dword, val: dword) returns (res: FResult)
    requires fs.Valid()
    modifies fs`wflag, fs`disk, fs`winsect, fs.win, fs`logical, fs`fat, fs`log
    ensures fs.Valid() && SameOutsideFat(fs.vol, old(fs.logical), fs.logical)
    ensures !(2 <= clst < fs.vol.nFatent) ==>
      && res == IntErr
      && fs.logical == old(fs.logical) && fs.fat == old(fs.fat) && fs.log == old(fs.log)
      && fs.winsect == old(fs.winsect)
    ensures 2 <= clst < fs.vol.nFatent ==>
      && res == Ok && fs.vol.InFat(fs.winsect)
      && fs.fat == old(fs.fat)[clst := val % Span(fs.vol.fsType)]
      && fs.log == old(fs.log) + [Snapshot(fs.fat, fs.live)]
      && FatStored(fs.vol, old(fs.logical), fs.logical, clst, val) == true
  {
    if clst < 2 || clst >= fs.vol.nFatent {
      return IntErr;
    }
    Reveal(fs);
    FatAfterSet(fs.vol, fs.logical, clst, val);
    SetEntryStores(fs.vol.fsType, FatBytes(fs.vol, fs.logical), clst, val);
    StoreEntry(fs, clst, val);
    Reveal(fs);
    fs.log := fs.log + [Snapshot(fs.fat, fs.live)];
    res := Ok;
  }

  lemma FatAfterSet(v: Volume, l: seq<Sector>, c: nat, x: dword)
    requires v.Valid() && v.database <= |l| && c < v.nFatent
    ensures TableFits(v.fsType, v.nFatent, v.fsize * 512) && TableFits(v.fsType, c + 1, v.fsize * 512)
    ensures Entries(v.fsType, SetEntry(v.fsType, FatBytes(v, l), c, x), v.nFatent)
         == FatOf(v, l)[c := x % Span(v.fsType)]
  {
    assert LookVolume(0);
    EntriesAfterSet(v.fsType, FatBytes(v, l), v.nFatent, c, x);
  }
}
