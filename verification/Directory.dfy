/**
 * The directory cursor: dir_sdi jumps to an index, dir_next steps to the next one, dir_find
 * searches with both.
 */
module Directory {
  import opened Types
  import opened FatTable
  import opened Geometry
  import opened Window
  import opened FatAccess
  import opened ClusterChains
  import opened Allocator
  import opened FileData
  import opened FileMap

  // DIR. The pointer dir into the window is kept as an offset.
  class Dir {
    const fs: Fatfs
    const sclust: dword
    var index: nat
    var clust: dword
    var sect: dword
    var dir: nat

    // In a dynamic table, the sector is sector j of cluster k of the chain.
    ghost var k: nat
    ghost var j: nat

    constructor (fs: Fatfs, sclust: dword)
      ensures this.fs == fs && this.sclust == sclust && index == clust == sect == dir == 0
    {
      this.fs, this.sclust := fs, sclust;
      index, clust, sect, dir, k, j := 0, 0, 0, 0, 0, 0;
    }

    // The cursor is on entry i of the table with chain s ([] for the static root directory).
    ghost predicate OnEntry(s: seq<nat>, i: nat)
      reads `index, `clust, `sect, `dir, `k, `j
    {
      index == i < 0x1_0000 && dir == i % 16 * 32 && OnSector(s, i)
    }

    // The cursor is on the sector with entry i.
    ghost predicate OnSector(s: seq<nat>, i: nat)
      reads `clust, `sect, `k, `j
    {
      if s == [] then
        i < fs.vol.nRootdir && clust == 0 && sect == fs.vol.dirbase + i / 16
      else
        Lies(fs.vol, s, i, k, j) && clust == s[k] && sect == At(fs.vol, s[k], j)
    }
  }

  // Entry i lies in sector j of cluster k of the chain.
  ghost predicate Lies(v: Volume, s: seq<nat>, i: nat, k: nat, j: nat) {
    k < |s| && j < v.csize && i / 16 == Pos(v.csize, k) + j
  }

  // First cluster of a directory; 0 for the static root directory.
  function StartOf(v: Volume, sclust: dword): nat {
    if sclust == 0 && v.fsType == Fat32 then v.dirbase else sclust
  }

  // s is the chain of the directory that starts at sclust.
  ghost predicate IsTable(v: Volume, f: seq<nat>, sclust: dword, s: seq<nat>) {
    if StartOf(v, sclust) == 0 then s == [] else Chain(f, s) && s[0] == StartOf(v, sclust)
  }

  // The number of entries of a directory, 16 to a sector.
  function TableSize(v: Volume, s: seq<nat>): nat {
    if s == [] then v.nRootdir else 16 * Pos(v.csize, |s|)
  }

  lemma LiesInTable(v: Volume, s: seq<nat>, i: nat, k: nat, j: nat)
    requires Lies(v, s, i, k, j)
    ensures i < TableSize(v, s)
  {
    PosMono(v.csize, k, |s|);
  }

  /** The place of an entry is determined by its index, however the cursor got there. */
  lemma SamePlace(d: Dir, e: Dir, s: seq<nat>, i: nat)
    requires d.fs == e.fs && d.OnEntry(s, i) && e.OnEntry(s, i)
    ensures d.clust == e.clust && d.sect == e.sect && d.dir == e.dir
  {
    if s != [] {
      PosDiv(d.fs.vol.csize, d.k, i / 16);
      PosDiv(d.fs.vol.csize, e.k, i / 16);
    }
  }

  // dir_sdi rejects these start clusters at once.
  predicate BadStart(v: Volume, sclust: dword) {
    sclust == 1 || sclust >= v.nFatent
  }

  // The loop of dir_sdi that follows the chain to the cluster with entry idx.
  method FollowTable(fs: Fatfs, start: dword, idx: nat, ghost s: seq<nat>)
    returns (found: bool, clst: dword, n: nat, ghost k: nat)
    requires fs.Valid() && Chain(fs.fat, s) && start == s[0]
    modifies fs`wflag, fs`disk, fs`winsect, fs.win
    ensures fs.Valid() && found == (idx < TableSize(fs.vol, s))
    ensures found ==> k < |s| && clst == s[k] && n < 16 * fs.vol.csize && idx == 16 * Pos(fs.vol.csize, k) + n
  {
    var ic := 16 * fs.vol.csize;
    clst, n, k, found := start, idx, 0, true;
    while n >= ic
      invariant fs.Valid() && k < |s| && clst == s[k] && idx == 16 * Pos(fs.vol.csize, k) + n
      decreases n
    {
      LinkAt(fs.vol.nFatent, fs.fat, s, k);
      clst := GetFat(fs, clst);
      if clst < 2 || clst >= fs.vol.nFatent {
        found := false;
        return;
      }
      n := n - ic;
      k := k + 1;
    }
    if k + 1 < |s| {
      PosMono(fs.vol.csize, k, |s|);
    }
  }

  lemma RootOnVolume(v: Volume)
    requires v.Valid() && 0 < v.nRootdir
    ensures 0 < v.dirbase && v.dirbase + v.nRootdir / 16 == v.database && v.nRootdir % 16 == 0 && v.fsType != Fat32
  {
    assert LookVolume(0);
  }

  /**
   * dir_sdi: it reaches the place of entry idx, or reports an internal error exactly when the
   * start cluster is impossible or the table has no such entry.
   */
  method DirSdi(dp: Dir, idx: nat, ghost s: seq<nat>) returns (res: FResult)
    requires dp.fs.Valid() && idx < 0x1_0000
    requires !BadStart(dp.fs.vol, dp.sclust) ==> IsTable(dp.fs.vol, dp.fs.fat, dp.sclust, s)
    modifies dp`index, dp`clust, dp`sect, dp`dir, dp`k, dp`j, dp.fs`wflag, dp.fs`disk, dp.fs`winsect, dp.fs.win
    ensures dp.fs.Valid()
    ensures res == if !BadStart(dp.fs.vol, dp.sclust) && idx < TableSize(dp.fs.vol, s) then Ok else IntErr
    ensures res == Ok ==> dp.OnEntry(s, idx) && dp.sect != 0
  {
    dp.index := idx;
    if dp.sclust == 1 || dp.sclust >= dp.fs.vol.nFatent {
      return IntErr;
    }
    var clst: nat := dp.sclust;
    if clst == 0 && dp.fs.vol.fsType == Fat32 {
      clst := dp.fs.vol.dirbase;
    }
    if clst == 0 {
      if idx >= dp.fs.vol.nRootdir {
        return IntErr;
      }
      RootOnVolume(dp.fs.vol);
      dp.clust := 0;
      dp.sect := dp.fs.vol.dirbase + idx / 16;
      dp.dir := idx % 16 * 32;
      return Ok;
    }
    LinkAt(dp.fs.vol.nFatent, dp.fs.fat, s, 0);
    var found, c, n;
    ghost var k;
    found, c, n, k := FollowTable(dp.fs, clst, idx, s);
    if !found {
      return IntErr;
    }
    res := SetPlace(dp, c, n, idx, s, k);
  }

  lemma Sixteenths(m: nat, n: nat)
    ensures (16 * m + n) % 16 == n % 16 && (16 * m + n) / 16 == m + n / 16
  {
  }

  // The end of dir_sdi.
  method SetPlace(dp: Dir, clst: dword, n: nat, ghost idx: nat, ghost s: seq<nat>, ghost k: nat) returns (res: FResult)
    requires dp.fs.Valid() && Chain(dp.fs.fat, s) && dp.index == idx < 0x1_0000
    requires k < |s| && clst == s[k] && n < 16 * dp.fs.vol.csize && idx == 16 * Pos(dp.fs.vol.csize, k) + n
    modifies dp`clust, dp`sect, dp`dir, dp`k, dp`j
    ensures res == Ok && dp.OnEntry(s, idx) && dp.sect != 0
  {
    LinkAt(dp.fs.vol.nFatent, dp.fs.fat, s, k);
    Sixteenths(Pos(dp.fs.vol.csize, k), n);
    var sect := ClustToSect(dp.fs.vol, clst);
    ClusterFits(dp.fs.vol, clst);
    dp.clust := clst;
    assert sect != 0;
    dp.sect := sect + n / 16;
    dp.dir := n % 16 * 32;
    dp.k, dp.j := k, n / 16;
    res := Ok;
  }

  // A sector of zeros.
  function Blank(): (s: Sector)
    ensures forall i :: 0 <= i < 512 ==> s[i] == 0
  {
    seq(512, _ => 0)
  }

  // The sectors of cluster c are blank, all other sectors outside the FAT are kept.
  ghost predicate Blanked(v: Volume, l: seq<Sector>, m: seq<Sector>, c: nat) {
    && |l| == |m| && v.ClusterStart(c) + v.csize <= |m| && 0 <= v.ClusterStart(c)
    && (forall t :: v.InCluster(c, t) ==> m[t] == Blank())
    && (forall t :: 0 <= t < |m| && !v.InFat(t) && !v.InMirror(t) && !v.InCluster(c, t) ==> m[t] == l[t])
  }

  // mem_set of the window.
  method ClearWindow(fs: Fatfs)
    requires fs.win.Length == 512
    modifies fs.win
    ensures fs.win[..] == Blank()
  {
    forall i | 0 <= i < 512 {
      fs.win[i] := 0;
    }
  }

  // The window is blank but belongs nowhere yet; otherwise the volume is as Fatfs.Valid says.
  ghost predicate BlankWindow(fs: Fatfs)
    reads fs`wflag, fs`disk, fs`logical, fs`fat, fs.win
  {
    && fs.vol.Valid() && fs.win.Length == 512 && fs.win[..] == Blank() && !fs.wflag
    && fs.vol.database <= |fs.disk| < 0xFFFF_FFFF && Fits(fs.vol, |fs.disk|)
    && Mirrored(fs.vol, fs.disk) && fs.logical == fs.disk && fs.fat == FatOf(fs.vol, fs.disk)
  }

  lemma Settled(fs: Fatfs)
    requires fs.Valid() && !fs.wflag
    ensures Fits(fs.vol, |fs.disk|) && Mirrored(fs.vol, fs.disk) && fs.logical == fs.disk && fs.fat == FatOf(fs.vol, fs.disk)
  {
    assert LookWindow(0);
  }

  lemma WindowSettled(fs: Fatfs)
    requires BlankWindow(fs) && fs.winsect < |fs.disk| && fs.disk[fs.winsect] == Blank()
    ensures fs.Valid()
  {
  }

  // Write the blank window to data sector winsect.
  method WriteBlank(fs: Fatfs)
    requires BlankWindow(fs) && fs.vol.database <= fs.winsect < |fs.disk|
    modifies fs`wflag, fs`disk, fs`logical
    ensures BlankWindow(fs) && fs.disk == old(fs.disk)[fs.winsect := Blank()]
  {
    ghost var l := fs.disk;
    fs.wflag := true;
    fs.logical := Overlay(fs.vol, l, fs.winsect, Blank());
    assert fs.logical == l[fs.winsect := Blank()];
    FatFrame(fs.vol, l, fs.logical);
    SyncWindow(fs);
    Settled(fs);
  }

  // The clean-up of a stretched table in dir_next: fill cluster clst with zeros.
  method FillCluster(fs: Fatfs, clst: dword)
    requires fs.Valid() && 2 <= clst < fs.vol.nFatent
    modifies fs`wflag, fs`disk, fs`winsect, fs.win, fs`logical
    ensures fs.Valid() && Blanked(fs.vol, old(fs.logical), fs.logical, clst)
  {
    ghost var l := fs.logical;
    SyncWindow(fs);
    Settled(fs);
    assert LookVolume(0);
    ClusterFits(fs.vol, clst);
    ClearWindow(fs);
    var start := ClustToSect(fs.vol, clst);
    fs.winsect := start;
    var c := 0;
    while c < fs.vol.csize
      invariant c <= fs.vol.csize && fs.winsect == start + c && BlankWindow(fs) && |fs.disk| == |l|
      invariant forall t :: 0 <= t < |l| ==> fs.disk[t] == if start <= t < start + c then Blank() else l[t]
    {
      WriteBlank(fs);
      fs.winsect := fs.winsect + 1;
      c := c + 1;
    }
    fs.winsect := fs.winsect - c;
    WindowSettled(fs);
  }

  lemma BlankedOverFat(v: Volume, l: seq<Sector>, m: seq<Sector>, n: seq<Sector>, c: nat)
    requires SameOutsideFat<seq<byte>>(v, l, m) && Blanked(v, m, n, c)
    ensures Blanked(v, l, n, c)
  {
  }

  // The table grew from chain s to chain t by a cluster that was free and is blank now.
  ghost predicate Grown(fs: Fatfs, f: seq<nat>, l: seq<Sector>, cs: set<seq<nat>>, s: seq<nat>, t: seq<nat>)
    reads fs`fat, fs`logical
  {
    && s != [] && |t| == |s| + 1 && t[..|s|] == s && 2 <= t[|s|] < |f| && f[t[|s|]] == 0
    && Forest(fs.fat, cs - {s} + {t}) && Blanked(fs.vol, l, fs.logical, t[|s|])
  }

  // dir_next at the end of a dynamic table that may be stretched.
  method StretchTable(fs: Fatfs, clst: dword, ghost s: seq<nat>, ghost cs: set<seq<nat>>) returns (ncl: dword)
    requires fs.Valid() && Forest(fs.fat, cs) && s in cs && clst == s[|s| - 1]
    modifies fs`wflag, fs`disk, fs`winsect, fs.win, fs`logical, fs`fat, fs`log, fs`lastClust, fs`freeClust, fs`fsiFlag
    ensures fs.Valid() && ncl != 1
    ensures ncl == 0 ==> Busy(fs.fat, 2, fs.vol.nFatent) && fs.fat == old(fs.fat) && fs.logical == old(fs.logical)
    ensures ncl != 0 ==>
      2 <= ncl < fs.vol.nFatent && Grown(fs, old(fs.fat), old(fs.logical), cs, s, s + [ncl]) == true
  {
    ghost var f, l := fs.fat, fs.logical;
    LinkAt(fs.vol.nFatent, f, s, |s| - 1);
    NoOnesInForest(f, cs);
    EndMarkEndsChains(fs.vol);
    ncl := CreateChain(fs, clst);
    if ncl != 0 {
      Stretched(f, cs, s, ncl, EndMark(fs.vol.fsType));
      ghost var m := fs.logical;
      FillCluster(fs, ncl);
      BlankedOverFat(fs.vol, l, m, fs.logical, ncl);
    }
  }

  // How a step of the cursor ends, from FAT f and disk l: more says that the table of chain s
  // has a next entry.
  ghost predicate Stepped(fs: Fatfs, f: seq<nat>, l: seq<Sector>, cs: set<seq<nat>>, s: seq<nat>, t: seq<nat>,
                          more: bool, stretch: bool, res: FResult)
    reads fs`fat, fs`logical
  {
    Outcome(fs, f, l, cs, s, t, more, stretch, res) == true
  }

  ghost predicate Outcome(fs: Fatfs, f: seq<nat>, l: seq<Sector>, cs: set<seq<nat>>, s: seq<nat>, t: seq<nat>,
                          more: bool, stretch: bool, res: FResult)
    reads fs`fat, fs`logical
  {
    if more then
      res == Ok && t == s && fs.fat == f && fs.logical == l
    else if s == [] || !stretch then
      res == NoFile && fs.fat == f && fs.logical == l
    else
      || (res == Denied && Busy(f, 2, fs.vol.nFatent) && fs.fat == f && fs.logical == l)
      || (res == Ok && Grown(fs, f, l, cs, s, t) == true)
  }

  // Go to the first sector of cluster k of the chain.
  method EnterTableCluster(dp: Dir, clst: dword, ghost i: nat, ghost t: seq<nat>, ghost k: nat)
    requires dp.fs.vol.Valid() && k < |t| && clst == t[k] && 2 <= clst < dp.fs.vol.nFatent
    requires i / 16 == Pos(dp.fs.vol.csize, k)
    modifies dp`clust, dp`sect, dp`k, dp`j
    ensures dp.OnSector(t, i)
  {
    ClusterFits(dp.fs.vol, clst);
    dp.clust := clst;
    dp.sect := ClustToSect(dp.fs.vol, clst);
    dp.k, dp.j := k, 0;
  }

  // dir_next at the end of a dynamic table.
  method EndOfTable(dp: Dir, ghost i: nat, stretch: bool, ghost s: seq<nat>, ghost cs: set<seq<nat>>)
    returns (res: FResult, ghost t: seq<nat>)
    requires dp.fs.Valid() && Forest(dp.fs.fat, cs) && s in cs && dp.clust == s[|s| - 1]
    requires i / 16 == Pos(dp.fs.vol.csize, |s|)
    modifies dp`clust, dp`sect, dp`k, dp`j, dp.fs`wflag, dp.fs`disk, dp.fs`winsect, dp.fs.win, dp.fs`logical, dp.fs`fat
    modifies dp.fs`log, dp.fs`lastClust, dp.fs`freeClust, dp.fs`fsiFlag
    ensures dp.fs.Valid() && (!stretch ==> dp.fs.log == old(dp.fs.log))
    ensures Stepped(dp.fs, old(dp.fs.fat), old(dp.fs.logical), cs, s, t, false, stretch, res)
    ensures res == Ok ==> dp.OnSector(t, i)
  {
    res, t := NoFile, s;
    if stretch {
      var clst := StretchTable(dp.fs, dp.clust, s, cs);
      assert clst != 1;
      if clst == 0 {
        res := Denied;
      } else {
        res := Ok;
        t := s + [clst];
        EnterTableCluster(dp, clst, i, t, |s|);
      }
    }
  }

  // get_fat of cluster k of a chain.
  method LinkOfTable(fs: Fatfs, clst: dword, ghost s: seq<nat>, ghost k: nat) returns (nxt: dword)
    requires fs.Valid() && Chain(fs.fat, s) && k < |s| && clst == s[k]
    modifies fs`wflag, fs`disk, fs`winsect, fs.win
    ensures fs.Valid() && 2 <= nxt != 0xFFFF_FFFF
    ensures if k + 1 < |s| then nxt == s[k + 1] && nxt < fs.vol.nFatent else fs.vol.nFatent <= nxt
  {
    LinkAt(fs.vol.nFatent, fs.fat, s, k);
    nxt := GetFat(fs, clst);
  }

  lemma SteppedOn(fs: Fatfs, cs: set<seq<nat>>, s: seq<nat>, stretch: bool)
    ensures Stepped(fs, fs.fat, fs.logical, cs, s, s, true, stretch, Ok)
  {
  }

  // dir_next where the cluster changes.
  method NextCluster(dp: Dir, ghost i: nat, stretch: bool, ghost s: seq<nat>, ghost cs: set<seq<nat>>, ghost k: nat)
    returns (res: FResult, ghost t: seq<nat>)
    requires dp.fs.Valid() && Forest(dp.fs.fat, cs) && s in cs && k < |s| && dp.clust == s[k]
    requires i / 16 == Pos(dp.fs.vol.csize, k + 1)
    modifies dp`clust, dp`sect, dp`k, dp`j, dp.fs`wflag, dp.fs`disk, dp.fs`winsect, dp.fs.win, dp.fs`logical, dp.fs`fat
    modifies dp.fs`log, dp.fs`lastClust, dp.fs`freeClust, dp.fs`fsiFlag
    ensures dp.fs.Valid() && (!stretch ==> dp.fs.log == old(dp.fs.log))
    ensures Stepped(dp.fs, old(dp.fs.fat), old(dp.fs.logical), cs, s, t, k + 1 < |s|, stretch, res)
    ensures res == Ok ==> dp.OnSector(t, i)
  {
    var clst := LinkOfTable(dp.fs, dp.clust, s, k);
    if clst >= dp.fs.vol.nFatent {
      res, t := EndOfTable(dp, i, stretch, s, cs);
    } else {
      res, t := Ok, s;
      EnterTableCluster(dp, clst, i, s, k + 1);
      SteppedOn(dp.fs, cs, s, stretch);
    }
  }

  // dir_next where the sector changes.
  method NextSector(dp: Dir, i: nat, stretch: bool, ghost s: seq<nat>, ghost cs: set<seq<nat>>)
    returns (res: FResult, ghost t: seq<nat>)
    requires dp.fs.Valid() && Forest(dp.fs.fat, cs) && (s == [] || s in cs) && dp.OnEntry(s, dp.index)
    requires i == dp.index + 1 && i % 16 == 0
    modifies dp`clust, dp`sect, dp`k, dp`j, dp.fs`wflag, dp.fs`disk, dp.fs`winsect, dp.fs.win, dp.fs`logical, dp.fs`fat
    modifies dp.fs`log, dp.fs`lastClust, dp.fs`freeClust, dp.fs`fsiFlag
    ensures dp.fs.Valid() && (!stretch ==> dp.fs.log == old(dp.fs.log))
    ensures Stepped(dp.fs, old(dp.fs.fat), old(dp.fs.logical), cs, s, t, i < TableSize(dp.fs.vol, s), stretch, res)
    ensures res == Ok ==> dp.OnSector(t, i)
  {
    SectOnVolume(dp, s);
    NextSixteenth(i);
    res, t := Ok, s;
    dp.sect := dp.sect + 1;
    if dp.clust == 0 {
      if i >= dp.fs.vol.nRootdir {
        res := NoFile;
      }
    } else {
      var change := ClusterChanges(dp, i, s);
      if change {
        res, t := NextCluster(dp, i, stretch, s, cs, dp.k);
      } else {
        dp.j := dp.j + 1;
      }
    }
  }

  lemma NextSixteenth(i: nat)
    requires 0 < i && i % 16 == 0
    ensures i / 16 == (i - 1) / 16 + 1
  {
  }

  // The test of dir_next for the first sector of a cluster.
  method ClusterChanges(dp: Dir, i: nat, ghost s: seq<nat>) returns (change: bool)
    requires 0 < dp.fs.vol.csize && 0 < i && i % 16 == 0 && Lies(dp.fs.vol, s, i - 1, dp.k, dp.j)
    ensures change <==> dp.j + 1 == dp.fs.vol.csize
    ensures change ==> i / 16 == Pos(dp.fs.vol.csize, dp.k + 1) && (i < TableSize(dp.fs.vol, s) <==> dp.k + 1 < |s|)
    ensures !change ==> Lies(dp.fs.vol, s, i, dp.k, dp.j + 1) && i < TableSize(dp.fs.vol, s)
  {
    change := i / 16 % dp.fs.vol.csize == 0;
    ghost var k, j := dp.k, dp.j;
    if j + 1 < dp.fs.vol.csize {
      PosDiv(dp.fs.vol.csize, k, i / 16);
      LiesInTable(dp.fs.vol, s, i, k, j + 1);
    } else {
      PosDiv(dp.fs.vol.csize, k + 1, i / 16);
      if k + 1 < |s| {
        PosMono(dp.fs.vol.csize, k + 1, |s|);
      }
    }
  }

  lemma SectOnVolume(dp: Dir, s: seq<nat>)
    requires dp.fs.Valid() && (s == [] || Chain(dp.fs.fat, s)) && dp.OnEntry(s, dp.index)
    ensures 0 < dp.sect < 0xFFFF_FFFF && (dp.clust == 0 <==> s == [])
  {
    if s == [] {
      RootOnVolume(dp.fs.vol);
    } else {
      LinkAt(dp.fs.vol.nFatent, dp.fs.fat, s, dp.k);
      ClusterFits(dp.fs.vol, s[dp.k]);
    }
  }

  /**
   * dir_next: from entry i to entry i + 1 of the table, across sectors and clusters. At the
   * end of the table it reports no file, or, for a dynamic table that may be stretched, goes on
   * to the first entry of a new blank cluster unless none is free.
   */
  method DirNext(dp: Dir, stretch: bool, ghost s: seq<nat>, ghost cs: set<seq<nat>>) returns (res: FResult, ghost t: seq<nat>)
    requires dp.fs.Valid() && Forest(dp.fs.fat, cs) && (s == [] || s in cs) && dp.OnEntry(s, dp.index)
    modifies dp`index, dp`clust, dp`sect, dp`dir, dp`k, dp`j, dp.fs`wflag, dp.fs`disk, dp.fs`winsect, dp.fs.win, dp.fs`logical
    modifies dp.fs`fat, dp.fs`log, dp.fs`lastClust, dp.fs`freeClust, dp.fs`fsiFlag
    ensures dp.fs.Valid() && (!stretch ==> dp.fs.log == old(dp.fs.log))
    ensures var i := old(dp.index) + 1;
      && (i == 0x1_0000 ==> res == NoFile && dp.fs.fat == old(dp.fs.fat) && dp.fs.logical == old(dp.fs.logical))
      && (i < 0x1_0000 ==>
          Stepped(dp.fs, old(dp.fs.fat), old(dp.fs.logical), cs, s, t, i < TableSize(dp.fs.vol, s), stretch, res))
      && (res == Ok ==> dp.OnEntry(t, i))
  {
    t := s;
    var i := dp.index + 1;
    SectOnVolume(dp, s);
    if i % 0x1_0000 == 0 || dp.sect == 0 {
      return NoFile, s;
    }
    res := Ok;
    if i % 16 == 0 {
      res, t := NextSector(dp, i, stretch, s, cs);
      if res != Ok {
        return;
      }
    } else {
      SameSector(dp.fs.vol, s, dp.index, dp.k, dp.j);
    }
    dp.index := i;
    dp.dir := i % 16 * 32;
  }

  // The next entry of the same sector.
  lemma SameSector(v: Volume, s: seq<nat>, i: nat, k: nat, j: nat)
    requires v.Valid() && (i + 1) % 16 != 0 && if s == [] then i < v.nRootdir else Lies(v, s, i, k, j)
    ensures i + 1 < TableSize(v, s) && (i + 1) / 16 == i / 16
  {
    if s == [] {
      RootOnVolume(v);
    } else {
      LiesInTable(v, s, i + 1, k, j);
    }
  }

  // dir_next without stretching, on a table whose chain is s.
  method StepInTable(dp: Dir, ghost s: seq<nat>, ghost cs: set<seq<nat>>) returns (res: FResult)
    requires dp.fs.Valid() && Forest(dp.fs.fat, cs) && (s == [] || s in cs) && dp.OnEntry(s, dp.index) && dp.index < 0xFFFF
    modifies dp`index, dp`clust, dp`sect, dp`dir, dp`k, dp`j, dp.fs`wflag, dp.fs`disk, dp.fs`winsect, dp.fs.win, dp.fs`logical
    modifies dp.fs`fat, dp.fs`log, dp.fs`lastClust, dp.fs`freeClust, dp.fs`fsiFlag
    ensures dp.fs.Valid() && dp.fs.fat == old(dp.fs.fat)
    ensures res == if old(dp.index) + 1 < TableSize(dp.fs.vol, s) then Ok else NoFile
    ensures res == Ok ==> dp.OnEntry(s, old(dp.index) + 1)
  {
    ghost var t;
    res, t := DirNext(dp, false, s, cs);
  }

  // Step to entry i from the first one.
  method WalkTo(d: Dir, i: nat, ghost s: seq<nat>, ghost cs: set<seq<nat>>) returns (res: FResult)
    requires d.fs.Valid() && Forest(d.fs.fat, cs) && (s == [] || s in cs) && i < 0x1_0000
    requires !BadStart(d.fs.vol, d.sclust) ==> IsTable(d.fs.vol, d.fs.fat, d.sclust, s)
    modifies d`index, d`clust, d`sect, d`dir, d`k, d`j, d.fs`wflag, d.fs`disk, d.fs`winsect, d.fs.win, d.fs`logical
    modifies d.fs`fat, d.fs`log, d.fs`lastClust, d.fs`freeClust, d.fs`fsiFlag
    ensures d.fs.Valid() && d.fs.fat == old(d.fs.fat)
    ensures res == Ok <==> !BadStart(d.fs.vol, d.sclust) && i < TableSize(d.fs.vol, s)
    ensures res == Ok ==> d.OnEntry(s, i)
  {
    res := DirSdi(d, 0, s);
    var n := 0;
    while res == Ok && n < i
      invariant n <= i && d.fs.Valid() && d.fs.fat == old(d.fs.fat)
      invariant res == Ok <==> !BadStart(d.fs.vol, d.sclust) && n < TableSize(d.fs.vol, s)
      invariant res == Ok ==> d.OnEntry(s, n)
      decreases i - n
    {
      res := StepInTable(d, s, cs);
      n := n + 1;
    }
  }

  /** i steps of one cursor lead to the place on which another is set at once. */
  method WalkAndSet(d: Dir, e: Dir, i: nat, ghost s: seq<nat>, ghost cs: set<seq<nat>>) returns (walked: FResult, set_: FResult)
    requires d != e && d.fs == e.fs && d.sclust == e.sclust
    requires d.fs.Valid() && Forest(d.fs.fat, cs) && (s == [] || s in cs) && i < 0x1_0000
    requires !BadStart(d.fs.vol, d.sclust) ==> IsTable(d.fs.vol, d.fs.fat, d.sclust, s)
    modifies d`index, d`clust, d`sect, d`dir, d`k, d`j, e`index, e`clust, e`sect, e`dir, e`k, e`j
    modifies d.fs`wflag, d.fs`disk, d.fs`winsect, d.fs.win, d.fs`logical
    modifies d.fs`fat, d.fs`log, d.fs`lastClust, d.fs`freeClust, d.fs`fsiFlag
    ensures walked == Ok <==> set_ == Ok
    ensures walked == Ok ==> d.index == e.index == i && d.clust == e.clust && d.sect == e.sect && d.dir == e.dir
  {
    walked := WalkTo(d, i, s, cs);
    set_ := DirSdi(e, i, s);
    if walked == Ok {
      SamePlace(d, e, s, i);
    }
  }
}
