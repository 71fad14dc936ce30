/**
 * Directory entries, and deleting a file: f_unlink marks the entry deleted before it frees
 * the clusters, so that an interruption leaves no entry that leads to a free cluster.
 */
module Unlink {
  import opened Types
  import opened FatTable
  import opened Geometry
  import opened Window
  import opened ClusterChains
  import opened Allocator
  import opened CrashSafety
  import opened FileData
  import opened FileMap
  import opened Directory

  // Where a directory entry is: a sector, and an offset into it.
  datatype Slot = Slot(sect: nat, off: nat)

  const DDEM: byte := 0xE5
  const AM_RDO: nat := 0x01
  const AM_VOL: nat := 0x08
  const AM_LFN: nat := 0x0F
  const AM_DIR: nat := 0x10

  predicate HasBit(x: nat, bit: nat)
    requires 0 < bit
  {
    x / bit % 2 == 1
  }

  // A slot outside the FAT, inside a sector.
  ghost predicate GoodSlot(v: Volume, p: Slot) {
    !v.InFat(p.sect) && !v.InMirror(p.sect) && p.off % 32 == 0 && p.off < 512
  }

  // The 32 bytes of an entry.
  function EntryIn(sector: Sector, off: nat): (e: seq<byte>)
    requires off % 32 == 0 && off < 512
    ensures |e| == 32
  {
    sector[off..off + 32]
  }

  // ld_clust: the cluster an entry names.
  function LdClust(t: FatType, e: seq<byte>): nat
    requires |e| == 32
  {
    LdWord(e, 26) + if t == Fat32 then 0x1_0000 * LdWord(e, 20) else 0
  }

  // The entry stands for an object: in use, and no volume label.
  predicate InUse(e: seq<byte>)
    requires |e| == 32
  {
    e[0] != 0 && e[0] != DDEM && !HasBit(e[11], AM_VOL)
  }

  // The cluster a slot keeps alive; 0 for none.
  function Keeps(t: FatType, e: seq<byte>): nat
    requires |e| == 32
  {
    if InUse(e) then LdClust(t, e) else 0
  }

  ghost function KeptBy(v: Volume, l: seq<Sector>, p: Slot): nat {
    if GoodSlot(v, p) && p.sect < |l| then Keeps(v.fsType, EntryIn(l[p.sect], p.off)) else 0
  }

  // All clusters named by entries in use.
  ghost function LiveOf(v: Volume, l: seq<Sector>, slots: set<Slot>): set<nat> {
    set p | p in slots && KeptBy(v, l, p) != 0 :: KeptBy(v, l, p)
  }

  // The directory entries and the chains belong together: every cluster an entry names is the
  // head of a chain, and no two entries name the same one.
  ghost predicate Tidy(v: Volume, l: seq<Sector>, slots: set<Slot>, cs: set<seq<nat>>) {
    && (forall p :: p in slots ==> GoodSlot(v, p) && p.sect < |l|)
    && (forall p :: p in slots && KeptBy(v, l, p) != 0 ==> Heads(cs, KeptBy(v, l, p)))
    && (forall p, q :: p in slots && q in slots && p != q && KeptBy(v, l, p) != 0 ==> KeptBy(v, l, p) != KeptBy(v, l, q))
  }

  ghost predicate Heads(cs: set<seq<nat>>, c: nat) {
    exists s :: s in cs && s != [] && s[0] == c
  }

  lemma TidyIsAnchored(v: Volume, f: seq<nat>, l: seq<Sector>, slots: set<Slot>, cs: set<seq<nat>>)
    requires Tidy(v, l, slots, cs)
    ensures Anchored(LiveOf(v, l, slots), cs)
  {
    forall c | c in LiveOf(v, l, slots) ensures Covered(cs, c) {
      var p :| p in slots && KeptBy(v, l, p) == c && c != 0;
      var s :| s in cs && s != [] && s[0] == c;
      assert c in s;
    }
  }

  // The entry after dir_remove.
  function Erased(): (e: seq<byte>)
    ensures |e| == 32 && e[0] == DDEM && forall i :: 1 <= i < 32 ==> e[i] == 0
  {
    [DDEM] + seq(31, _ => 0)
  }

  // The disk with the entry in slot p erased.
  function EraseSlot(l: seq<Sector>, p: Slot): (m: seq<Sector>)
    requires p.sect < |l| && p.off % 32 == 0 && p.off < 512
    ensures |m| == |l|
  {
    l[p.sect := Splice<byte>(l[p.sect], p.off, Erased())]
  }

  lemma SlotsAfterErase(v: Volume, l: seq<Sector>, p: Slot, q: Slot)
    requires GoodSlot(v, p) && p.sect < |l|
    ensures KeptBy(v, EraseSlot(l, p), q) == if p == q then 0 else KeptBy(v, l, q)
  {
    var m := EraseSlot(l, p);
    if GoodSlot(v, q) && q.sect < |l| {
      if p == q {
        assert EntryIn(m[q.sect], q.off) == Erased();
      } else if q.sect == p.sect {
        assert q.off + 32 <= p.off || p.off + 32 <= q.off;
        assert EntryIn(m[q.sect], q.off) == EntryIn(l[q.sect], q.off);
      }
    }
  }

  lemma SlotsFrame(v: Volume, l: seq<Sector>, m: seq<Sector>, q: Slot)
    requires SameOutsideFat<seq<byte>>(v, l, m)
    ensures KeptBy(v, l, q) == KeptBy(v, m, q)
  {
  }

  /** Erasing an entry and removing the chain it named keeps entries and chains together. */
  lemma TidyAfterErase(v: Volume, l: seq<Sector>, m: seq<Sector>, slots: set<Slot>, cs: set<seq<nat>>, p: Slot, ds: set<seq<nat>>)
    requires Tidy(v, l, slots, cs) && p in slots && SameOutsideFat<seq<byte>>(v, EraseSlot(l, p), m)
    requires ds <= cs && forall s :: s in cs && s !in ds && s != [] ==> KeptBy(v, l, p) != 0 && s[0] == KeptBy(v, l, p)
    ensures Tidy(v, m, slots, ds)
  {
    forall q | q in slots ensures KeptBy(v, m, q) == if q == p then 0 else KeptBy(v, l, q) {
      SlotsAfterErase(v, l, p, q);
      SlotsFrame(v, EraseSlot(l, p), m, q);
    }
    forall q | q in slots && KeptBy(v, m, q) != 0 ensures Heads(ds, KeptBy(v, m, q)) {
      var s :| s in cs && s != [] && s[0] == KeptBy(v, l, q);
      assert s in ds;
    }
  }

  // Entry i of the table with chain s.
  function SectOf(v: Volume, s: seq<nat>, i: nat): int {
    if s == [] then v.dirbase + i / 16
    else if v.csize == 0 || i / 16 / v.csize >= |s| then 0
    else At(v, s[i / 16 / v.csize], i / 16 % v.csize)
  }

  function EntryOf(v: Volume, l: seq<Sector>, s: seq<nat>, i: nat): (e: seq<byte>)
    ensures |e| == 32
  {
    if 0 <= SectOf(v, s, i) < |l| then EntryIn(l[SectOf(v, s, i)], i % 16 * 32) else seq(32, _ => 0)
  }

  lemma EntryHere(dp: Dir, s: seq<nat>, i: nat, l: seq<Sector>)
    requires dp.OnEntry(s, i) && dp.sect < |l|
    ensures EntryOf(dp.fs.vol, l, s, i) == EntryIn(l[dp.sect], dp.dir)
  {
    if s != [] {
      PosDiv(dp.fs.vol.csize, dp.k, i / 16);
    }
  }

  // The directory sector of a cursor is outside the FAT and on the drive.
  lemma SlotOfCursor(dp: Dir, s: seq<nat>)
    requires dp.fs.Valid() && (s == [] || Chain(dp.fs.fat, s)) && dp.OnEntry(s, dp.index)
    ensures GoodSlot(dp.fs.vol, Slot(dp.sect, dp.dir)) && dp.sect < |dp.fs.disk|
  {
    Reveal(dp.fs);
    assert LookVolume(0);
    if s == [] {
      RootOnVolume(dp.fs.vol);
    } else {
      LinkAt(dp.fs.vol.nFatent, dp.fs.fat, s, dp.k);
      ClusterFits(dp.fs.vol, s[dp.k]);
    }
  }

  // Entry e is the object searched for.
  predicate Matches(e: seq<byte>, name: seq<byte>)
    requires |e| == 32 && |name| == 11
  {
    !HasBit(e[11], AM_VOL) && e[..11] == name
  }

  // The search passes entry e by.
  predicate Passed(e: seq<byte>, name: seq<byte>)
    requires |e| == 32 && |name| == 11
  {
    e[0] != 0 && !Matches(e, name)
  }

  ghost predicate AllPassed(v: Volume, l: seq<Sector>, s: seq<nat>, name: seq<byte>, n: nat) {
    |name| == 11 && forall i :: 0 <= i < n ==> Passed(EntryOf(v, l, s, i), name)
  }

  // What dir_find looks at: the entry under the cursor, in the window.
  method LookAtEntry(dp: Dir, name: seq<byte>, ghost s: seq<nat>) returns (end: bool, match_: bool)
    requires dp.fs.Valid() && (s == [] || Chain(dp.fs.fat, s)) && dp.OnEntry(s, dp.index) && |name| == 11
    modifies dp.fs`wflag, dp.fs`disk, dp.fs`winsect, dp.fs.win
    ensures dp.fs.Valid() && dp.fs.winsect == dp.sect
    ensures var e := EntryOf(dp.fs.vol, dp.fs.logical, s, dp.index);
            end == (e[0] == 0) && match_ == (e[0] != 0 && Matches(e, name))
  {
    SlotOfCursor(dp, s);
    EntryHere(dp, s, dp.index, dp.fs.logical);
    MoveWindow(dp.fs, dp.sect);
    var e := dp.fs.win[dp.dir..dp.dir + 32];
    assert e == dp.fs.win[..][dp.dir..dp.dir + 32];
    end := e[0] == 0;
    match_ := !end && !HasBit(e[11], AM_VOL) && e[..11] == name;
  }

  // Entry i is the first with the name.
  ghost predicate FirstAt(v: Volume, l: seq<Sector>, s: seq<nat>, name: seq<byte>, i: nat) {
    && AllPassed(v, l, s, name, i)
    && EntryOf(v, l, s, i)[0] != 0 && Matches(EntryOf(v, l, s, i), name)
  }

  // The table has no entry with the name before its end, which is where it has no more
  // entries, where the 16-bit index ends or where an entry was never used.
  ghost predicate Missing(v: Volume, l: seq<Sector>, s: seq<nat>, name: seq<byte>) {
    exists n: nat :: EndsAt(v, l, s, n) && AllPassed(v, l, s, name, n)
  }

  ghost predicate EndsAt(v: Volume, l: seq<Sector>, s: seq<nat>, n: nat) {
    n >= TableSize(v, s) || n == 0x1_0000 || EntryOf(v, l, s, n)[0] == 0
  }

  // The name, byte by byte, and no volume label.
  ghost predicate Named(e: seq<byte>, name: seq<byte>)
    requires |e| == 32 && |name| == 11
  {
    e[11] / 8 % 2 == 0 && forall k :: 0 <= k < 11 ==> e[k] == name[k]
  }

  lemma MatchesIsNamed(e: seq<byte>, name: seq<byte>)
    requires |e| == 32 && |name| == 11
    ensures Matches(e, name) <==> Named(e, name)
  {
    if Named(e, name) {
      assert e[..11] == name;
    } else if Matches(e, name) {
      forall k | 0 <= k < 11 ensures e[k] == name[k] {
        assert e[..11][k] == e[k];
      }
    }
  }

  /** Where a name is missing, no entry before the end of the table has it. */
  lemma MissingIsUnnamed(v: Volume, l: seq<Sector>, s: seq<nat>, name: seq<byte>, i: nat)
    requires Missing(v, l, s, name) && |name| == 11 && i < TableSize(v, s) && i < 0x1_0000
    requires forall j :: 0 <= j <= i ==> EntryOf(v, l, s, j)[0] != 0
    ensures !Named(EntryOf(v, l, s, i), name)
  {
    var n: nat :| EndsAt(v, l, s, n) && AllPassed(v, l, s, name, n);
    assert i < n;
    MatchesIsNamed(EntryOf(v, l, s, i), name);
  }

  // A search does not find an entry and miss it.
  lemma FirstOrMissing(v: Volume, l: seq<Sector>, s: seq<nat>, name: seq<byte>, i: nat)
    requires FirstAt(v, l, s, name, i) && i < TableSize(v, s) && i < 0x1_0000
    ensures !Missing(v, l, s, name)
  {
    assert !Passed(EntryOf(v, l, s, i), name);
    if n: nat :| EndsAt(v, l, s, n) && AllPassed(v, l, s, name, n) {
      assert false;
    }
  }

  // One round of dir_find's loop.
  method SearchStep(dp: Dir, name: seq<byte>, ghost s: seq<nat>, ghost cs: set<seq<nat>>) returns (done: bool, res: FResult)
    requires dp.fs.Valid() && Forest(dp.fs.fat, cs) && (s == [] || s in cs) && |name| == 11
    requires dp.OnEntry(s, dp.index) && AllPassed(dp.fs.vol, dp.fs.logical, s, name, dp.index)
    modifies dp`index, dp`clust, dp`sect, dp`dir, dp`k, dp`j, dp.fs`wflag, dp.fs`disk, dp.fs`winsect, dp.fs.win
    modifies dp.fs`logical, dp.fs`fat, dp.fs`log, dp.fs`lastClust, dp.fs`freeClust, dp.fs`fsiFlag
    ensures dp.fs.Valid() && dp.fs.fat == old(dp.fs.fat) && dp.fs.logical == old(dp.fs.logical) && dp.fs.log == old(dp.fs.log)
    ensures res == Ok ==> dp.OnEntry(s, dp.index)
    ensures !done ==> res == Ok && dp.index == old(dp.index) + 1 && AllPassed(dp.fs.vol, dp.fs.logical, s, name, dp.index)
    ensures done && res == Ok ==> dp.fs.winsect == dp.sect && FirstAt(dp.fs.vol, dp.fs.logical, s, name, dp.index)
    ensures done && res != Ok ==> res == NoFile && Missing(dp.fs.vol, dp.fs.logical, s, name)
  {
    var end, match_ := LookAtEntry(dp, name, s);
    ghost var i, t := dp.index, [];
    res, done := Ok, true;
    if end {
      res := NoFile;
      EndFound(dp.fs.vol, dp.fs.logical, s, name, i);
    } else if !match_ {
      PassOne(dp.fs.vol, dp.fs.logical, s, name, i);
      res, t := DirNext(dp, false, s, cs);
      done := res != Ok;
      if done {
        EndFound(dp.fs.vol, dp.fs.logical, s, name, i + 1);
      }
    }
  }

  lemma PassOne(v: Volume, l: seq<Sector>, s: seq<nat>, name: seq<byte>, i: nat)
    requires AllPassed(v, l, s, name, i) && Passed(EntryOf(v, l, s, i), name)
    ensures AllPassed(v, l, s, name, i + 1)
  {
  }

  lemma EndFound(v: Volume, l: seq<Sector>, s: seq<nat>, name: seq<byte>, n: nat)
    requires AllPassed(v, l, s, name, n) && EndsAt(v, l, s, n)
    ensures Missing(v, l, s, name)
  {
  }

  /**
   * dir_find for 8.3 names: it stops at the first entry with the name, and reports no file
   * exactly when there is none before the end of the table.
   */
  method DirFind(dp: Dir, name: seq<byte>, ghost s: seq<nat>, ghost cs: set<seq<nat>>) returns (res: FResult)
    requires dp.fs.Valid() && Forest(dp.fs.fat, cs) && (s == [] || s in cs) && |name| == 11
    requires !BadStart(dp.fs.vol, dp.sclust) ==> IsTable(dp.fs.vol, dp.fs.fat, dp.sclust, s)
    modifies dp`index, dp`clust, dp`sect, dp`dir, dp`k, dp`j, dp.fs`wflag, dp.fs`disk, dp.fs`winsect, dp.fs.win
    modifies dp.fs`logical, dp.fs`fat, dp.fs`log, dp.fs`lastClust, dp.fs`freeClust, dp.fs`fsiFlag
    ensures dp.fs.Valid() && dp.fs.fat == old(dp.fs.fat) && dp.fs.logical == old(dp.fs.logical) && dp.fs.log == old(dp.fs.log)
    ensures res == IntErr <==> BadStart(dp.fs.vol, dp.sclust) || TableSize(dp.fs.vol, s) == 0
    ensures res == Ok ==> dp.OnEntry(s, dp.index) && dp.fs.winsect == dp.sect
    ensures res == Ok ==> FirstAt(dp.fs.vol, dp.fs.logical, s, name, dp.index)
    ensures res == Ok ==> Named(EntryOf(dp.fs.vol, dp.fs.logical, s, dp.index), name) == true
    ensures res == Ok || res == IntErr || res == NoFile
    ensures res != IntErr ==> (res == NoFile <==> Missing(dp.fs.vol, dp.fs.logical, s, name))
  {
    res := DirSdi(dp, 0, s);
    var done := res != Ok;
    while !done
      invariant dp.fs.Valid() && dp.fs.fat == old(dp.fs.fat) && dp.fs.logical == old(dp.fs.logical) && dp.fs.log == old(dp.fs.log)
      invariant res == IntErr <==> BadStart(dp.fs.vol, dp.sclust) || TableSize(dp.fs.vol, s) == 0
      invariant !done ==> dp.OnEntry(s, dp.index) && AllPassed(dp.fs.vol, dp.fs.logical, s, name, dp.index)
      invariant done && res == Ok ==> dp.OnEntry(s, dp.index) && dp.fs.winsect == dp.sect
      invariant done && res == Ok ==> FirstAt(dp.fs.vol, dp.fs.logical, s, name, dp.index)
      invariant done && res != Ok && res != IntErr ==> res == NoFile && Missing(dp.fs.vol, dp.fs.logical, s, name)
      decreases !done, 0x1_0000 - dp.index
    {
      done, res := SearchStep(dp, name, s, cs);
    }
    if res == Ok {
      MatchesIsNamed(EntryOf(dp.fs.vol, dp.fs.logical, s, dp.index), name);
      CursorInTable(dp, s);
      FirstOrMissing(dp.fs.vol, dp.fs.logical, s, name, dp.index);
    }
  }

  lemma CursorInTable(dp: Dir, s: seq<nat>)
    requires dp.OnEntry(s, dp.index)
    ensures dp.index < TableSize(dp.fs.vol, s) && dp.index < 0x1_0000
  {
    if s != [] {
      LiesInTable(dp.fs.vol, s, dp.index, dp.k, dp.j);
    }
  }

  // Clear the entry in the window and mark it deleted.
  method EraseInWindow(fs: Fatfs, off: nat)
    requires fs.Valid() && off % 32 == 0 && off < 512 && fs.winsect < |fs.disk|
    requires !fs.vol.InFat(fs.winsect) && !fs.vol.InMirror(fs.winsect)
    modifies fs`wflag, fs.win, fs`logical
    ensures fs.Valid() && fs.logical == EraseSlot(old(fs.logical), Slot(fs.winsect, off))
  {
    assert LookWindow(0);
    ghost var w, l := fs.win[..], fs.logical;
    WindowShows(fs);
    forall i | 0 <= i < 32 {
      fs.win[off + i] := 0;
    }
    fs.win[off] := DDEM;
    fs.wflag := true;
    assert fs.win[..] == Splice<byte>(w, off, Erased());
    OverlayTwice(fs.vol, fs.disk, fs.winsect, w, fs.win[..]);
    fs.logical := Overlay(fs.vol, fs.disk, fs.winsect, fs.win[..]);
    assert fs.logical == EraseSlot(l, Slot(fs.winsect, off));
    FatFrame(fs.vol, l, fs.logical);
  }

  lemma WindowShows(fs: Fatfs)
    requires fs.Valid() && fs.winsect < |fs.disk| && !fs.vol.InMirror(fs.winsect)
    ensures fs.win[..] == fs.logical[fs.winsect]
  {
    assert LookWindow(0);
  }

  // dir_remove for an 8.3 entry.
  method DirRemove(dp: Dir, ghost s: seq<nat>) returns (res: FResult)
    requires dp.fs.Valid() && (s == [] || Chain(dp.fs.fat, s)) && dp.OnEntry(s, dp.index)
    requires !BadStart(dp.fs.vol, dp.sclust) && IsTable(dp.fs.vol, dp.fs.fat, dp.sclust, s)
    modifies dp`index, dp`clust, dp`sect, dp`dir, dp`k, dp`j, dp.fs`wflag, dp.fs`disk, dp.fs`winsect, dp.fs.win
    modifies dp.fs`logical
    ensures dp.fs.Valid() && res == Ok && dp.index == old(dp.index) && dp.sect == old(dp.sect) && dp.dir == old(dp.dir)
    ensures dp.sect < |old(dp.fs.logical)|
    ensures GoodSlot(dp.fs.vol, Slot(dp.sect, dp.dir))
    ensures dp.fs.logical == EraseSlot(old(dp.fs.logical), Slot(dp.sect, dp.dir))
  {
    InTable(dp, s);
    ghost var k, j, sect, i := dp.k, dp.j, dp.sect, dp.index;
    res := DirSdi(dp, dp.index, s);
    SameSect(dp.fs.vol, s, i, k, j, dp.k, dp.j);
    SlotOfCursor(dp, s);
    MoveWindow(dp.fs, dp.sect);
    EraseInWindow(dp.fs, dp.dir);
  }

  lemma InTable(dp: Dir, s: seq<nat>)
    requires dp.OnEntry(s, dp.index)
    ensures dp.index < TableSize(dp.fs.vol, s)
  {
    if s != [] {
      LiesInTable(dp.fs.vol, s, dp.index, dp.k, dp.j);
    }
  }

  lemma SameSect(v: Volume, s: seq<nat>, i: nat, k: nat, j: nat, k': nat, j': nat)
    requires s != [] ==> Lies(v, s, i, k, j) && Lies(v, s, i, k', j')
    ensures s != [] ==> k == k' && j == j'
  {
    if s != [] {
      PosDiv(v.csize, k, i / 16);
      PosDiv(v.csize, k', i / 16);
    }
  }

  // The chains that are left without the one an entry names.
  ghost function Without(cs: set<seq<nat>>, c: nat): set<seq<nat>> {
    if c == 0 then cs else set s | s in cs && !(s != [] && s[0] == c)
  }

  // remove_chain of the chain that starts at c, once no live entry names it.
  method FreeChain(fs: Fatfs, c: dword, ghost cs: set<seq<nat>>)
    returns (res: FResult, ghost m: seq<Snapshot>)
    requires fs.Valid() && Forest(fs.fat, cs) && Heads(cs, c) && Anchored(fs.live, Without(cs, c))
    modifies fs`wflag, fs`disk, fs`winsect, fs.win, fs`logical, fs`fat, fs`log, fs`freeClust, fs`fsiFlag
    ensures fs.Valid() && res == Ok && Forest(fs.fat, Without(cs, c)) && SameOutsideFat<seq<byte>>(fs.vol, old(fs.logical), fs.logical)
    ensures fs.log == old(fs.log) + m && AllSafe(m)
  {
    ghost var s :| s in cs && s != [] && s[0] == c;
    ghost var f := fs.fat;
    assert Chain(f, s);
    WithoutChain(f, cs, s);
    NoOnesInForest(f, cs);
    NeverFails(f, c);
    UnchainTail(f, s);
    Removed(f, cs, s);
    assert forall t :: t in cs - {s} ==> Apart(t, s);
    UnchainIsSafe(f, s, cs - {s}, fs.live);
    m := UnchainLog(f, c, fs.live);
    res := RemoveChain(fs, c);
  }

  lemma WithoutChain(f: seq<nat>, cs: set<seq<nat>>, s: seq<nat>)
    requires Forest(f, cs) && s in cs
    ensures s != [] && s[0] != 0 && Without(cs, s[0]) == cs - {s}
  {
    assert Chain(f, s);
    forall t | t in cs && t != s ensures t != [] && t[0] != s[0] {
      assert Chain(f, t) && Apart(t, s);
      assert s[0] in s && t[0] in t;
    }
  }

  ghost function SlotOf(v: Volume, s: seq<nat>, i: nat): Slot {
    Slot(if SectOf(v, s, i) < 0 then 0 else SectOf(v, s, i), i % 16 * 32)
  }

  // slots has all entries of the table with chain s.
  ghost predicate Lists(v: Volume, slots: set<Slot>, s: seq<nat>) {
    forall i :: 0 <= i < TableSize(v, s) && i < 0x1_0000 ==> SlotOf(v, s, i) in slots
  }

  lemma CursorInSlots(dp: Dir, s: seq<nat>, slots: set<Slot>)
    requires dp.OnEntry(s, dp.index) && Lists(dp.fs.vol, slots, s)
    ensures Slot(dp.sect, dp.dir) in slots
  {
    InTable(dp, s);
    if s != [] {
      PosDiv(dp.fs.vol.csize, dp.k, dp.index / 16);
    }
    assert SlotOf(dp.fs.vol, s, dp.index) == Slot(dp.sect, dp.dir);
  }

  // Entry i of the table with chain s was erased from disk l, and its chain freed.
  ghost predicate Deleted(v: Volume, l: seq<Sector>, m: seq<Sector>, f: seq<nat>, s: seq<nat>, i: nat,
                          cs: set<seq<nat>>, slots: set<Slot>)
  {
    var p, c := SlotOf(v, s, i), LdClust(v.fsType, EntryOf(v, l, s, i));
    && GoodSlot(v, p) && p.sect < |l|
    && SameOutsideFat<seq<byte>>(v, EraseSlot(l, p), m)
    && Forest(f, Without(cs, c)) && Tidy(v, m, slots, Without(cs, c))
  }

  // f_unlink once the entry is found and may go: the entry first, the clusters after it.
  method DeleteEntry(dp: Dir, dclst: dword, ghost s: seq<nat>, ghost cs: set<seq<nat>>, ghost slots: set<Slot>)
    returns (res: FResult, ghost m: seq<Snapshot>)
    requires dp.fs.Valid() && Forest(dp.fs.fat, cs) && (s == [] || s in cs) && dp.OnEntry(s, dp.index)
    requires !BadStart(dp.fs.vol, dp.sclust) && IsTable(dp.fs.vol, dp.fs.fat, dp.sclust, s) && Lists(dp.fs.vol, slots, s)
    requires Tidy(dp.fs.vol, dp.fs.logical, slots, cs) && dclst == KeptBy(dp.fs.vol, dp.fs.logical, Slot(dp.sect, dp.dir))
    requires dclst == LdClust(dp.fs.vol.fsType, EntryOf(dp.fs.vol, dp.fs.logical, s, dp.index))
    requires SlotOf(dp.fs.vol, s, dp.index) == Slot(dp.sect, dp.dir)
    modifies dp`index, dp`clust, dp`sect, dp`dir, dp`k, dp`j, dp.fs`wflag, dp.fs`disk, dp.fs`winsect, dp.fs.win
    modifies dp.fs`logical, dp.fs`fat, dp.fs`log, dp.fs`freeClust, dp.fs`fsiFlag, dp.fs`live
    ensures dp.fs.Valid() && res == Ok && dp.index == old(dp.index) && dp.sect == old(dp.sect) && dp.dir == old(dp.dir)
    ensures Deleted(dp.fs.vol, old(dp.fs.logical), dp.fs.logical, dp.fs.fat, s, dp.index, cs, slots) == true
    ensures dp.fs.live == LiveOf(dp.fs.vol, dp.fs.logical, slots)
    ensures dp.fs.log == old(dp.fs.log) + m && AllSafe(m)
  {
    ghost var l, p := dp.fs.logical, Slot(dp.sect, dp.dir);
    CursorInSlots(dp, s, slots);
    m := [];
    res := DirRemove(dp, s);
    ghost var l1 := dp.fs.logical;
    dp.fs.live := LiveOf(dp.fs.vol, l1, slots);
    TidyAfterErase(dp.fs.vol, l, l1, slots, cs, p, Without(cs, dclst));
    TidyIsAnchored(dp.fs.vol, dp.fs.fat, l1, slots, Without(cs, dclst));
    if dclst != 0 {
      res, m := FreeChain(dp.fs, dclst, cs);
      TidyAfterErase(dp.fs.vol, l, dp.fs.logical, slots, cs, p, Without(cs, dclst));
      LiveFrame(dp.fs.vol, l1, dp.fs.logical, slots);
    }
  }

  lemma LiveFrame(v: Volume, l: seq<Sector>, m: seq<Sector>, slots: set<Slot>)
    requires SameOutsideFat<seq<byte>>(v, l, m)
    ensures LiveOf(v, l, slots) == LiveOf(v, m, slots)
  {
    forall p ensures KeptBy(v, l, p) == KeptBy(v, m, p) {
      SlotsFrame(v, l, m, p);
    }
  }

  // sync_fs, without the FSINFO sector.
  method SyncFs(fs: Fatfs) returns (res: FResult)
    requires fs.Valid()
    modifies fs`wflag, fs`disk
    ensures fs.Valid() && res == Ok && fs.disk == fs.logical
  {
    SyncWindow(fs);
    res := Ok;
  }

  // The attribute and the cluster of the entry in the window.
  method InspectEntry(dp: Dir, ghost s: seq<nat>, ghost slots: set<Slot>, ghost name: seq<byte>)
    returns (readOnly: bool, isDir: bool, dclst: dword)
    requires dp.fs.Valid() && (s == [] || Chain(dp.fs.fat, s)) && dp.OnEntry(s, dp.index) && dp.fs.winsect == dp.sect
    requires |name| == 11 && name[0] != DDEM && FirstAt(dp.fs.vol, dp.fs.logical, s, name, dp.index)
    ensures GoodSlot(dp.fs.vol, Slot(dp.sect, dp.dir)) && dp.sect < |dp.fs.logical|
    ensures SlotOf(dp.fs.vol, s, dp.index) == Slot(dp.sect, dp.dir)
    ensures var e := EntryOf(dp.fs.vol, dp.fs.logical, s, dp.index);
            && readOnly == HasBit(e[11], AM_RDO) && isDir == HasBit(e[11], AM_DIR) && dclst == LdClust(dp.fs.vol.fsType, e)
            && dclst == KeptBy(dp.fs.vol, dp.fs.logical, Slot(dp.sect, dp.dir))
  {
    SlotOfCursor(dp, s);
    EntryHere(dp, s, dp.index, dp.fs.logical);
    WindowShows(dp.fs);
    if s != [] {
      PosDiv(dp.fs.vol.csize, dp.k, dp.index / 16);
    }
    var e := dp.fs.win[dp.dir..dp.dir + 32];
    assert e == dp.fs.win[..][dp.dir..dp.dir + 32];
    assert e[0] == e[..11][0];
    readOnly, isDir := HasBit(e[11], AM_RDO), HasBit(e[11], AM_DIR);
    dclst := LdClust(dp.fs.vol.fsType, e);
  }

  // The entries that dir_read shows: files and directories other than the dot entries.
  predicate Shown(e: seq<byte>)
    requires |e| == 32
  {
    e[0] != 0 && e[0] != DDEM && e[0] != '.' as int && e[11] % 0x40 != AM_LFN && e[11] % 0x20 != AM_VOL
  }

  // Entries from to n - 1 of the table are in use or erased, and none is shown.
  ghost predicate AllHidden(v: Volume, l: seq<Sector>, t: seq<nat>, from: nat, n: nat) {
    forall i :: from <= i < n ==> EntryOf(v, l, t, i)[0] != 0 && !Shown(EntryOf(v, l, t, i))
  }

  // A directory holds nothing but its two dot entries, up to the end of its table.
  ghost predicate Empty(v: Volume, l: seq<Sector>, t: seq<nat>) {
    exists n: nat :: 2 <= n && EndsAt(v, l, t, n) && AllHidden(v, l, t, 2, n)
  }

  lemma EmptyUpTo(v: Volume, l: seq<Sector>, t: seq<nat>, n: nat)
    requires 2 <= n && EndsAt(v, l, t, n) && AllHidden(v, l, t, 2, n)
    ensures Empty(v, l, t)
  {
  }

  lemma HideOne(v: Volume, l: seq<Sector>, t: seq<nat>, from: nat, n: nat)
    requires AllHidden(v, l, t, from, n) && EntryOf(v, l, t, n)[0] != 0 && !Shown(EntryOf(v, l, t, n))
    ensures AllHidden(v, l, t, from, n + 1)
  {
  }

  lemma ShownIsNotEmpty(v: Volume, l: seq<Sector>, t: seq<nat>, i: nat)
    requires AllHidden(v, l, t, 2, i) && 2 <= i < 0x1_0000 && i < TableSize(v, t) && Shown(EntryOf(v, l, t, i))
    ensures !Empty(v, l, t)
  {
    if n: nat :| 2 <= n && EndsAt(v, l, t, n) && AllHidden(v, l, t, 2, n) {
      assert n <= i;
    }
  }

  // What dir_read looks at: the entry under the cursor, in the window.
  method LookAtItem(dp: Dir, ghost t: seq<nat>) returns (end: bool, shown: bool)
    requires dp.fs.Valid() && (t == [] || Chain(dp.fs.fat, t)) && dp.OnEntry(t, dp.index)
    modifies dp.fs`wflag, dp.fs`disk, dp.fs`winsect, dp.fs.win
    ensures dp.fs.Valid()
    ensures var e := EntryOf(dp.fs.vol, dp.fs.logical, t, dp.index); end == (e[0] == 0) && shown == Shown(e)
  {
    SlotOfCursor(dp, t);
    EntryHere(dp, t, dp.index, dp.fs.logical);
    MoveWindow(dp.fs, dp.sect);
    var e := dp.fs.win[dp.dir..dp.dir + 32];
    assert e == dp.fs.win[..][dp.dir..dp.dir + 32];
    end, shown := e[0] == 0, Shown(e);
  }

  // One round of dir_read's loop, in a subdirectory from entry 2 on.
  method ReadStep(dp: Dir, ghost t: seq<nat>, ghost cs: set<seq<nat>>) returns (done: bool, res: FResult)
    requires dp.fs.Valid() && Forest(dp.fs.fat, cs) && t in cs
    requires dp.OnEntry(t, dp.index) && 2 <= dp.index && AllHidden(dp.fs.vol, dp.fs.logical, t, 2, dp.index) == true
    modifies dp`index, dp`clust, dp`sect, dp`dir, dp`k, dp`j, dp.fs`wflag, dp.fs`disk, dp.fs`winsect, dp.fs.win
    modifies dp.fs`logical, dp.fs`fat, dp.fs`log, dp.fs`lastClust, dp.fs`freeClust, dp.fs`fsiFlag
    ensures dp.fs.Valid() && dp.fs.fat == old(dp.fs.fat) && dp.fs.logical == old(dp.fs.logical) && dp.fs.log == old(dp.fs.log)
    ensures !done ==> res == Ok && dp.index == old(dp.index) + 1 && dp.OnEntry(t, dp.index)
    ensures !done ==> AllHidden(dp.fs.vol, dp.fs.logical, t, 2, dp.index) == true
    ensures done && res == Ok ==> Empty(dp.fs.vol, dp.fs.logical, t) == false
    ensures done && res != Ok ==> res == NoFile && Empty(dp.fs.vol, dp.fs.logical, t) == true
  {
    var end, shown := LookAtItem(dp, t);
    ghost var i, u := dp.index, [];
    CursorInTable(dp, t);
    res, done := Ok, true;
    if end {
      res := NoFile;
      EmptyUpTo(dp.fs.vol, dp.fs.logical, t, i);
    } else if shown {
      ShownIsNotEmpty(dp.fs.vol, dp.fs.logical, t, i);
    } else {
      HideOne(dp.fs.vol, dp.fs.logical, t, 2, i);
      res, u := DirNext(dp, false, t, cs);
      done := res != Ok;
      if done {
        EmptyUpTo(dp.fs.vol, dp.fs.logical, t, i + 1);
      }
    }
  }

  // f_unlink's look into a subdirectory: dir_sdi to entry 2, then dir_read.
  method LookInside(fs: Fatfs, dclst: dword, ghost t: seq<nat>, ghost cs: set<seq<nat>>) returns (res: FResult)
    requires fs.Valid() && Forest(fs.fat, cs) && t in cs && t != [] && dclst == t[0]
    modifies fs`wflag, fs`disk, fs`winsect, fs.win, fs`logical, fs`fat, fs`log, fs`lastClust, fs`freeClust, fs`fsiFlag
    ensures fs.Valid() && fs.fat == old(fs.fat) && fs.logical == old(fs.logical) && fs.log == old(fs.log)
    ensures res == if Empty(fs.vol, fs.logical, t) then NoFile else Ok
  {
    var sdj := new Dir(fs, dclst);
    LinkAt(fs.vol.nFatent, fs.fat, t, 0);
    PosMono(fs.vol.csize, 0, |t|);
    res := DirSdi(sdj, 2, t);
    var done := false;
    while !done
      invariant fs.Valid() && fs.fat == old(fs.fat) && fs.logical == old(fs.logical) && fs.log == old(fs.log)
      invariant !done ==> sdj.OnEntry(t, sdj.index) && 2 <= sdj.index && AllHidden(fs.vol, fs.logical, t, 2, sdj.index) == true
      invariant done && res == Ok ==> Empty(fs.vol, fs.logical, t) == false
      invariant done && res != Ok ==> res == NoFile && Empty(fs.vol, fs.logical, t) == true
      decreases !done, 0x1_0000 - sdj.index
    {
      done, res := ReadStep(sdj, t, cs);
    }
  }

  // The chain at c holds a directory with entries.
  ghost predicate Occupied(v: Volume, l: seq<Sector>, cs: set<seq<nat>>, c: nat) {
    c != 0 && exists t :: t in cs && t != [] && t[0] == c && !Empty(v, l, t)
  }

  lemma OccupiedIff(v: Volume, l: seq<Sector>, f: seq<nat>, cs: set<seq<nat>>, t: seq<nat>)
    requires Forest(f, cs) && t in cs && t != []
    ensures Occupied(v, l, cs, t[0]) <==> !Empty(v, l, t)
  {
    WithoutChain(f, cs, t);
    if u :| u in cs && u != [] && u[0] == t[0] && !Empty(v, l, u) {
      assert u !in Without(cs, t[0]);
    }
  }

  // f_unlink refuses a read-only object and a directory with entries.
  ghost predicate Protected(v: Volume, l: seq<Sector>, cs: set<seq<nat>>, e: seq<byte>)
    requires |e| == 32
  {
    HasBit(e[11], AM_RDO) || (HasBit(e[11], AM_DIR) && Occupied(v, l, cs, LdClust(v.fsType, e)))
  }

  // What a directory holds, entry by entry. --------------------------------------------------------

  // Entry i of a subdirectory, behind its two dot entries and before the end of its table.
  ghost predicate Listed(v: Volume, l: seq<Sector>, t: seq<nat>, i: nat) {
    2 <= i < TableSize(v, t) && i < 0x1_0000 && forall j :: 2 <= j <= i ==> EntryOf(v, l, t, j)[0] != 0
  }

  // The entry is deleted, begins with a dot, or has the bit of a volume label.
  ghost predicate Idle(e: seq<byte>)
    requires |e| == 32
  {
    e[0] == 0xE5 || e[0] == '.' as int || e[11] / 8 % 2 == 1
  }

  // No entry is in use, but for names that begin with a dot.
  ghost predicate Deserted(v: Volume, l: seq<Sector>, t: seq<nat>) {
    forall i: nat :: Listed(v, l, t, i) ==> Idle(EntryOf(v, l, t, i))
  }

  // Some entry is in use, or it is not deleted and has the bit of a volume label among others.
  ghost predicate Inhabited(v: Volume, l: seq<Sector>, t: seq<nat>) {
    exists i: nat :: Listed(v, l, t, i) && var e := EntryOf(v, l, t, i);
      !Idle(e) || (e[0] != 0xE5 && e[0] != '.' as int && e[11] % 0x40 != 0x0F && e[11] % 0x20 != 8)
  }

  /** Every entry in use is shown, but for the dot entries. */
  lemma InUseIsShown(e: seq<byte>)
    requires |e| == 32 && e[0] != 0 && !Idle(e)
    ensures Shown(e) && InUse(e)
  {
  }

  lemma EmptyIsDeserted(v: Volume, l: seq<Sector>, t: seq<nat>)
    requires Empty(v, l, t)
    ensures Deserted(v, l, t)
  {
    var n: nat :| 2 <= n && EndsAt(v, l, t, n) && AllHidden(v, l, t, 2, n);
    forall i: nat | Listed(v, l, t, i) ensures Idle(EntryOf(v, l, t, i)) {
      assert i < n;
      var e := EntryOf(v, l, t, i);
      if !Idle(e) {
        InUseIsShown(e);
      }
    }
  }

  // The entries from 2 to n - 1 are hidden, and the table is not empty: one is found from n on.
  lemma {:induction false} OccupantFrom(v: Volume, l: seq<Sector>, t: seq<nat>, n: nat)
    requires !Empty(v, l, t) && 2 <= n <= 0x1_0000 && AllHidden(v, l, t, 2, n)
    ensures Inhabited(v, l, t)
    decreases 0x1_0000 - n
  {
    if EndsAt(v, l, t, n) {
      EmptyUpTo(v, l, t, n);
    } else {
      var e := EntryOf(v, l, t, n);
      if Shown(e) {
        assert Listed(v, l, t, n);
      } else {
        HideOne(v, l, t, 2, n);
        OccupantFrom(v, l, t, n + 1);
      }
    }
  }

  // The cluster an entry names, by its bytes.
  function ClustBytes(t: FatType, e: seq<byte>): nat
    requires |e| == 32
  {
    e[26] as int + 0x100 * e[27] as int + if t == Fat32 then 0x1_0000 * e[20] as int + 0x100_0000 * e[21] as int else 0
  }

  lemma ClustIsBytes(t: FatType, e: seq<byte>)
    requires |e| == 32
    ensures LdClust(t, e) == ClustBytes(t, e)
  {
  }

  // What the answer to a removal says of the entry e: it was read-only, or a directory of chain t
  // that was not empty, or neither.
  ghost predicate Answered(v: Volume, l: seq<Sector>, cs: set<seq<nat>>, e: seq<byte>, res: FResult)
    requires |e| == 32
  {
    && (res == Denied ==> e[11] % 2 == 1 || (e[11] / 0x10 % 2 == 1 && SomeChain(v, l, cs, ClustBytes(v.fsType, e))))
    && (res == Ok ==> e[11] % 2 == 0 && (e[11] / 0x10 % 2 == 1 ==> NoChain(v, l, cs, ClustBytes(v.fsType, e))))
  }

  ghost predicate SomeChain(v: Volume, l: seq<Sector>, cs: set<seq<nat>>, c: nat) {
    exists t :: t in cs && t != [] && t[0] == c && Inhabited(v, l, t)
  }

  ghost predicate NoChain(v: Volume, l: seq<Sector>, cs: set<seq<nat>>, c: nat) {
    forall t :: t in cs && t != [] && t[0] == c && c != 0 ==> Deserted(v, l, t)
  }

  lemma AnswerIs(v: Volume, l: seq<Sector>, cs: set<seq<nat>>, e: seq<byte>, res: FResult)
    requires |e| == 32 && (res == Ok || res == Denied) && (res == Denied <==> Protected(v, l, cs, e))
    ensures Answered(v, l, cs, e, res)
  {
    ClustIsBytes(v.fsType, e);
    var c := LdClust(v.fsType, e);
    if res == Ok && e[11] / 0x10 % 2 == 1 {
      forall t | t in cs && t != [] && t[0] == c && c != 0 ensures Deserted(v, l, t) {
        EmptyIsDeserted(v, l, t);
      }
    } else if res == Denied && e[11] % 2 != 1 {
      var t :| t in cs && t != [] && t[0] == c && !Empty(v, l, t);
      OccupantFrom(v, l, t, 2);
    }
  }

  // The checks of f_unlink on the entry that was found.
  method MayRemove(dp: Dir, ghost name: seq<byte>, ghost s: seq<nat>, ghost cs: set<seq<nat>>, ghost slots: set<Slot>)
    returns (res: FResult, dclst: dword)
    requires dp.fs.Valid() && Forest(dp.fs.fat, cs) && (s == [] || s in cs) && dp.OnEntry(s, dp.index) && dp.fs.winsect == dp.sect
    requires |name| == 11 && name[0] != DDEM && FirstAt(dp.fs.vol, dp.fs.logical, s, name, dp.index)
    requires Lists(dp.fs.vol, slots, s) && Tidy(dp.fs.vol, dp.fs.logical, slots, cs)
    modifies dp.fs`wflag, dp.fs`disk, dp.fs`winsect, dp.fs.win, dp.fs`logical, dp.fs`fat, dp.fs`log
    modifies dp.fs`lastClust, dp.fs`freeClust, dp.fs`fsiFlag
    ensures dp.fs.Valid() && dp.fs.fat == old(dp.fs.fat) && dp.fs.logical == old(dp.fs.logical) && dp.fs.log == old(dp.fs.log)
    ensures SlotOf(dp.fs.vol, s, dp.index) == Slot(dp.sect, dp.dir)
    ensures var e := EntryOf(dp.fs.vol, dp.fs.logical, s, dp.index);
      && dclst == LdClust(dp.fs.vol.fsType, e) == KeptBy(dp.fs.vol, dp.fs.logical, Slot(dp.sect, dp.dir))
      && Answered(dp.fs.vol, dp.fs.logical, cs, e, res) == true
      && res == if Protected(dp.fs.vol, dp.fs.logical, cs, e) then Denied else Ok
  {
    var readOnly, isDir;
    readOnly, isDir, dclst := InspectEntry(dp, s, slots, name);
    res := if readOnly then Denied else Ok;
    if res == Ok && dclst != 0 && isDir {
      CursorInSlots(dp, s, slots);
      ghost var t :| t in cs && t != [] && t[0] == dclst;
      OccupiedIff(dp.fs.vol, dp.fs.logical, dp.fs.fat, cs, t);
      res := LookInside(dp.fs, dclst, t, cs);
      res := if res == Ok then Denied else if res == NoFile then Ok else res;
    }
    AnswerIs(dp.fs.vol, dp.fs.logical, cs, EntryOf(dp.fs.vol, dp.fs.logical, s, dp.index), res);
  }

  /**
   * f_unlink of the entry `name` of its directory: the entry is erased, its chain becomes free, and
   * every FAT state on the way is safe. Entries and chains belong together afterwards as before.
   * It refuses exactly what is read-only, and directories that are not empty: a directory that it
   * removes has no entry in use left.
   */
  method FUnlink(dp: Dir, name: seq<byte>, ghost s: seq<nat>, ghost cs: set<seq<nat>>, ghost slots: set<Slot>)
    returns (res: FResult, ghost m: seq<Snapshot>)
    requires dp.fs.Valid() && Forest(dp.fs.fat, cs) && (s == [] || s in cs) && |name| == 11 && name[0] != DDEM
    requires !BadStart(dp.fs.vol, dp.sclust) && IsTable(dp.fs.vol, dp.fs.fat, dp.sclust, s) && Lists(dp.fs.vol, slots, s)
    requires Tidy(dp.fs.vol, dp.fs.logical, slots, cs) && dp.fs.live == LiveOf(dp.fs.vol, dp.fs.logical, slots)
    modifies dp`index, dp`clust, dp`sect, dp`dir, dp`k, dp`j, dp.fs`wflag, dp.fs`disk, dp.fs`winsect, dp.fs.win
    modifies dp.fs`logical, dp.fs`fat, dp.fs`log, dp.fs`lastClust, dp.fs`freeClust, dp.fs`fsiFlag, dp.fs`live
    ensures dp.fs.Valid() && dp.fs.live == LiveOf(dp.fs.vol, dp.fs.logical, slots)
    ensures res == Ok || res == Denied ==>
      && FirstAt(dp.fs.vol, old(dp.fs.logical), s, name, dp.index)
      && (res == Denied <==> Protected(dp.fs.vol, old(dp.fs.logical), cs, EntryOf(dp.fs.vol, old(dp.fs.logical), s, dp.index)))
    ensures Answered(dp.fs.vol, old(dp.fs.logical), cs, EntryOf(dp.fs.vol, old(dp.fs.logical), s, dp.index), res) == true
    ensures res == NoFile ==> Missing(dp.fs.vol, old(dp.fs.logical), s, name)
    ensures res != Ok ==> dp.fs.logical == old(dp.fs.logical) && dp.fs.fat == old(dp.fs.fat)
    ensures res == Ok ==>
      && Deleted(dp.fs.vol, old(dp.fs.logical), dp.fs.logical, dp.fs.fat, s, dp.index, cs, slots) == true
      && dp.fs.log == old(dp.fs.log) + m && AllSafe(m) && dp.fs.disk == dp.fs.logical
  {
    m := [];
    res := DirFind(dp, name, s, cs);
    if res == Ok {
      var dclst;
      res, dclst := MayRemove(dp, name, s, cs, slots);
      if res == Ok {
        res, m := DeleteEntry(dp, dclst, s, cs, slots);
        res := SyncFs(dp.fs);
      }
    }
  }
}
