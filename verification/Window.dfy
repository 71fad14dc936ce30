/**
 * The one-sector write-back window of a mounted volume. The window is transparent: what
 * matters to every layer above is the logical disk, that is, the drive overlaid with a
 * dirty window (in both FAT copies, when the window holds a FAT sector).
 */
module Window {
  import opened Types
  import opened FatTable
  import opened Geometry

  // One FAT together with the clusters that live directory entries name.
  datatype Snapshot = Snapshot(fat: seq<nat>, live: set<nat>)

  // FATFS, together with the drive it is bound to.
  class Fatfs {
    const vol: Volume
    const win: array<byte>
    var winsect: dword
    var wflag: bool
    var lastClust: dword
    var freeClust: dword
    var fsiFlag: byte
    var disk: seq<Sector>

    // The logical disk and the FAT it holds.
    ghost var logical: seq<Sector>
    ghost var fat: seq<nat>

    // Live start clusters, and every state the FAT and the live set have gone through.
    ghost var live: set<nat>
    ghost var log: seq<Snapshot>

    constructor (vol: Volume, disk: seq<Sector>)
      requires vol.Valid() && vol.database <= |disk| < 0xFFFF_FFFF && Fits(vol, |disk|) && Mirrored(vol, disk)
      ensures Valid() && fresh(win) && !wflag && winsect == 0xFFFF_FFFF
      ensures this.vol == vol && this.disk == logical == disk && log == [] && live == {}
      ensures lastClust == freeClust == 0xFFFF_FFFF
    {
      this.vol := vol;
      this.disk := disk;
      win := new byte[512];
      winsect := 0xFFFF_FFFF;
      wflag := false;
      lastClust, freeClust, fsiFlag := 0xFFFF_FFFF, 0xFFFF_FFFF, 0x80;
      logical, fat := disk, FatOf(vol, disk);
      live, log := {}, [];
    }

    ghost predicate Valid()
      reads `winsect, `wflag, `disk, `logical, `fat, win
    {
      && vol.Valid()
      && win.Length == 512
      && vol.database <= |logical| == |disk| < 0xFFFF_FFFF
      && |fat| == vol.nFatent
      && Coherent() == true
    }

    // The window, the drive and the logical disk agree. Stated behind a quantifier, like
    // Volume.Checked: the layers above the window only know that this holds.
    ghost predicate Coherent()
      requires vol.Valid() && win.Length == 512 && vol.database <= |logical| == |disk| < 0xFFFF_FFFF
      reads `winsect, `wflag, `disk, `logical, `fat, win
    {
      forall k :: LookWindow(k) ==>
        && Fits(vol, |disk|)
        && Mirrored(vol, disk)
        && (winsect < |disk| || winsect == 0xFFFF_FFFF)
        && (wflag ==> winsect < |disk| && !vol.InMirror(winsect))
        && (!wflag && winsect < |disk| ==> win[..] == disk[winsect])
        && logical == (if wflag then Overlay(vol, disk, winsect, win[..]) else disk)
        && fat == FatOf(vol, logical)
    }
  }

  // With two FATs, the second is a copy of the first.
  ghost predicate Mirrored(v: Volume, l: seq<Sector>)
    requires v.Layout() && v.database <= |l|
  {
    v.nFats == 2 ==> forall s :: v.InFat(s) ==> l[s + v.fsize] == l[s]
  }

  // l with data in sector s, and in the FAT copy of sector s.
  function Overlay(v: Volume, l: seq<Sector>, s: nat, data: Sector): (r: seq<Sector>)
    requires v.Layout() && v.database <= |l| && s < |l|
    ensures |r| == |l|
  {
    if v.nFats == 2 && v.InFat(s) then l[s := data][s + v.fsize := data] else l[s := data]
  }

  // The first FAT as one run of bytes.
  ghost function FatBytes(v: Volume, l: seq<Sector>): (b: seq<byte>)
    requires v.Layout() && v.database <= |l|
    ensures |b| == v.fsize * 512
  {
    seq(v.fsize * 512, i requires 0 <= i < v.fsize * 512 => l[v.fatbase + i / 512][i % 512])
  }

  ghost function FatOf(v: Volume, l: seq<Sector>): (f: seq<nat>)
    requires v.Valid() && v.database <= |l|
    ensures |f| == v.nFatent
  {
    assert LookVolume(0);
    Entries(v.fsType, FatBytes(v, l), v.nFatent)
  }

  /** The FAT depends on the first FAT's sectors only. */
  lemma FatFrame(v: Volume, l: seq<Sector>, m: seq<Sector>)
    requires v.Valid() && v.database <= |l| && v.database <= |m|
    requires forall s :: v.InFat(s) ==> l[s] == m[s]
    ensures FatBytes(v, l) == FatBytes(v, m) && FatOf(v, l) == FatOf(v, m)
  {
    assert forall i :: 0 <= i < v.fsize * 512 ==> v.InFat(v.fatbase + i / 512);
  }

  lemma FatByteAt(v: Volume, l: seq<Sector>, q: nat, r: nat)
    requires v.Layout() && v.database <= |l| && q < v.fsize && r < 512
    ensures 512 * q + r < v.fsize * 512 && FatBytes(v, l)[512 * q + r] == l[v.fatbase + q][r]
  {
    assert (512 * q + r) / 512 == q && (512 * q + r) % 512 == r;
  }

  /** Changing one byte of a FAT sector changes that one byte of the FAT. */
  lemma FatByteChanged(v: Volume, l: seq<Sector>, q: nat, r: nat, x: byte)
    requires v.Layout() && v.database <= |l| && q < v.fsize && r < 512
    ensures var s := v.fatbase + q;
            FatBytes(v, Overlay(v, l, s, l[s][r := x])) == FatBytes(v, l)[512 * q + r := x]
  {
    var s := v.fatbase + q;
    var m := Overlay(v, l, s, l[s][r := x]);
    forall j | 0 <= j < v.fsize * 512
      ensures FatBytes(v, m)[j] == FatBytes(v, l)[512 * q + r := x][j]
    {
      var qj, rj := j / 512, j % 512;
      FatByteAt(v, m, qj, rj);
      FatByteAt(v, l, qj, rj);
      OverlayElsewhere(v, l, s, l[s][r := x], v.fatbase + qj);
    }
  }

  lemma OverlayElsewhere(v: Volume, l: seq<Sector>, s: nat, data: Sector, t: nat)
    requires v.Layout() && v.database <= |l| && s < |l| && t < |l| && !v.InMirror(t)
    ensures Overlay(v, l, s, data)[t] == if t == s then data else l[t]
  {
  }

  /** Two overlays of the same sector: the later one wins. */
  lemma OverlayTwice(v: Volume, l: seq<Sector>, s: nat, d: Sector, e: Sector)
    requires v.Layout() && v.database <= |l| && s < |l|
    ensures Overlay(v, Overlay(v, l, s, d), s, e) == Overlay(v, l, s, e)
  {
  }

  lemma OverlayMirrored(v: Volume, l: seq<Sector>, s: nat, data: Sector)
    requires v.Layout() && v.database <= |l| && s < |l| && Mirrored(v, l) && !v.InMirror(s)
    ensures Mirrored(v, Overlay(v, l, s, data))
  {
  }

  // disk_write of one sector, which is assumed to succeed.
  method DiskWrite(fs: Fatfs, data: Sector, sector: nat)
    requires sector < |fs.disk|
    modifies fs`disk
    ensures fs.disk == old(fs.disk)[sector := data]
  {
    fs.disk := fs.disk[sector := data];
  }

  // The loop of sync_window that reflects a FAT sector to all FAT copies.
  method WriteCopies(fs: Fatfs, data: Sector, sector: dword)
    requires fs.vol.Layout() && fs.vol.InFat(sector) && fs.vol.database <= |fs.disk|
    modifies fs`disk
    ensures fs.disk == if fs.vol.nFats == 2 then old(fs.disk)[sector + fs.vol.fsize := data] else old(fs.disk)
  {
    var wsect, nf := sector, fs.vol.nFats;
    while nf >= 2
      invariant 1 <= nf <= fs.vol.nFats
      invariant nf == fs.vol.nFats ==> wsect == sector && fs.disk == old(fs.disk)
      invariant nf < fs.vol.nFats ==> fs.disk == old(fs.disk)[sector + fs.vol.fsize := data]
    {
      wsect := wsect + fs.vol.fsize;
      DiskWrite(fs, data, wsect);
      nf := nf - 1;
    }
  }

  // sync_window: write the window back if it is dirty, to every FAT copy.
  method SyncWindow(fs: Fatfs)
    requires fs.Valid()
    modifies fs`wflag, fs`disk
    ensures fs.Valid() && !fs.wflag && fs.disk == fs.logical
  {
    assert LookWindow(0);
    if fs.wflag {
      var data, wsect: dword := fs.win[..], fs.winsect;
      OverlayMirrored(fs.vol, fs.disk, wsect, data);
      DiskWrite(fs, data, wsect);
      fs.wflag := false;
      if Sub32(wsect, fs.vol.fatbase) < fs.vol.fsize {
        WriteCopies(fs, data, wsect);
      }
      assert fs.disk == fs.logical;
    }
  }

  // move_window: make sector appear in the window.
  method MoveWindow(fs: Fatfs, sector: dword)
    requires fs.Valid() && sector < |fs.disk|
    modifies fs`wflag, fs`disk, fs`winsect, fs.win
    ensures fs.Valid() && fs.winsect == sector && fs.win[..] == fs.logical[sector]
    ensures old(fs.winsect) == sector ==> fs.wflag == old(fs.wflag)
    ensures old(fs.winsect) != sector ==> !fs.wflag && fs.disk == fs.logical
  {
    assert LookWindow(0);
    if sector != fs.winsect {
      SyncWindow(fs);
      ReadWindow(fs, sector);
      fs.winsect := sector;
    }
  }

  // disk_read of one sector into the window.
  method ReadWindow(fs: Fatfs, sector: nat)
    requires fs.win.Length == 512 && sector < |fs.disk|
    modifies fs.win
    ensures fs.win[..] == fs.disk[sector]
  {
    var data := fs.disk[sector];
    forall i | 0 <= i < 512 {
      fs.win[i] := data[i];
    }
  }

  // Store one byte through a pointer into the window and mark it dirty.
  method PokeWindow(fs: Fatfs, k: nat, x: byte)
    requires fs.Valid() && k < 512 && fs.winsect < |fs.disk| && !fs.vol.InMirror(fs.winsect)
    modifies fs`wflag, fs.win, fs`logical, fs`fat
    ensures fs.Valid() && fs.wflag
    ensures fs.logical == Overlay(fs.vol, old(fs.logical), fs.winsect, old(fs.logical)[fs.winsect][k := x])
    ensures fs.fat == FatOf(fs.vol, fs.logical)
  {
    assert LookWindow(0);
    ghost var w := fs.win[..];
    fs.win[k] := x;
    fs.wflag := true;
    assert fs.win[..] == w[k := x];
    OverlayTwice(fs.vol, fs.disk, fs.winsect, w, w[k := x]);
    fs.logical := Overlay(fs.vol, fs.disk, fs.winsect, fs.win[..]);
    fs.fat := FatOf(fs.vol, fs.logical);
  }

  // What Valid says about the FAT and about an unchanged window.
  lemma Reveal(fs: Fatfs)
    requires fs.Valid()
    ensures fs.fat == FatOf(fs.vol, fs.logical) && Fits(fs.vol, |fs.logical|)
    ensures !fs.wflag ==> fs.disk == fs.logical
    ensures forall s :: fs.vol.database <= s < |fs.disk| && s != fs.winsect ==> fs.disk[s] == fs.logical[s]
  {
    assert LookWindow(0);
  }

  // disk_write of a data sector, past the window.
  method DiskWriteData(fs: Fatfs, data: Sector, sector: nat)
    requires fs.Valid() && fs.vol.database <= sector < |fs.disk| && sector != fs.winsect
    modifies fs`disk, fs`logical
    ensures fs.Valid() && fs.logical == old(fs.logical)[sector := data]
  {
    assert LookWindow(0);
    ghost var l := fs.logical;
    DiskWrite(fs, data, sector);
    fs.logical := fs.logical[sector := data];
    FatFrame(fs.vol, l, fs.logical);
  }

  // disk_read of a data sector, past the window.
  method DiskReadData(fs: Fatfs, sector: nat) returns (data: Sector)
    requires fs.Valid() && fs.vol.database <= sector < |fs.disk| && sector != fs.winsect
    ensures data == fs.logical[sector]
  {
    Reveal(fs);
    data := fs.disk[sector];
  }
}
