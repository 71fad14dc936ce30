/**
 * create_chain, remove_chain and f_getfree: the cluster allocator over FAT entries.
 */
module Allocator {
  import opened Types
  import opened FatTable
  import opened Geometry
  import opened Window
  import opened FatAccess
  import opened ClusterChains

  // Entries lo..hi-1 are neither free nor the internal-error value.
  ghost predicate Busy(f: seq<nat>, lo: nat, hi: nat) {
    forall c :: lo <= c < hi && c < |f| ==> 1 < f[c]
  }

  // Some entry has the internal-error value.
  ghost predicate HasOne(f: seq<nat>) {
    exists c :: 2 <= c < |f| && f[c] == 1
  }

  // ncl is the first free entry after scl, in circular order over 2..|f|-1.
  ghost predicate NextFree(f: seq<nat>, scl: nat, ncl: nat) {
    && 2 <= ncl < |f| && f[ncl] == 0
    && if scl < ncl then Busy(f, scl + 1, ncl) else Busy(f, scl + 1, |f|) && Busy(f, 2, ncl)
  }

  lemma NoOnesInForest(f: seq<nat>, cs: set<seq<nat>>)
    requires Forest(f, cs)
    ensures !HasOne(f)
  {
    forall c | 2 <= c < |f| ensures f[c] != 1 {
      UsedIffCovered(f, cs, c);
    }
  }

  // Where create_chain starts to search.
  function SearchStart(n: nat, last: nat, clst: nat): nat {
    if clst != 0 then clst else if last == 0 || last >= n then 1 else last
  }

  /**
   * The cluster taken: the nearest free one behind the cluster to be stretched, or behind the
   * one that was taken last, or the first of all when no cluster is known to have been taken.
   */
  lemma NearestTaken(f: seq<nat>, last: nat, clst: nat, ncl: nat, c: nat)
    requires NextFree(f, SearchStart(|f|, last, clst), ncl) && 2 <= c < |f| && f[c] == 0
    requires if clst != 0 then clst < c else last < c || |f| <= last
    ensures ncl <= c && (if clst != 0 then clst < ncl else |f| <= last || last < ncl)
  {
  }

  // create_chain goes looking for a free cluster.
  predicate Searches(f: seq<nat>, clst: nat) {
    clst == 0 || |f| <= Fetch(f, clst)
  }

  // The FAT states create_chain steps through: end mark first, then the link to it.
  function LinkLog(f: seq<nat>, clst: nat, ncl: nat, e: nat, live: set<nat>): seq<Snapshot>
    requires clst < |f| && ncl < |f|
  {
    [Snapshot(f[ncl := e], live)] + if clst == 0 then [] else [Snapshot(Linked(f, clst, ncl, e), live)]
  }

  // The free-cluster count, when known, is right.
  ghost predicate CountRight(fs: Fatfs)
    reads fs`freeClust, fs`fat
  {
    fs.freeClust == |Zeros(fs.fat)|
  }

  // fsi_flag |= 1
  function MarkDirty(flag: byte): byte {
    if flag % 2 == 0 then flag + 1 else flag
  }

  // The search from scl has come to ncl, and found nothing there or before it.
  ghost predicate Searched(f: seq<nat>, scl: nat, ncl: nat) {
    && (scl < ncl ==> Busy(f, scl + 1, ncl + 1))
    && (ncl < scl ==> 2 <= ncl && Busy(f, scl + 1, |f|) && Busy(f, 2, ncl + 1))
  }

  // What looking at the next entry means for the search.
  lemma SearchOn(f: seq<nat>, scl: nat, ncl: nat)
    requires 1 <= scl < |f| && ncl < |f| && Searched(f, scl, ncl)
    ensures var c := if ncl + 1 < |f| then ncl + 1 else 2;
      if ncl + 1 == |f| && scl == 1 then Busy(f, 2, |f|)
      else
        && (f[c] == 0 ==> NextFree(f, scl, c))
        && (1 < f[c] ==> if c == scl then Busy(f, 2, |f|) else Searched(f, scl, c))
  {
  }

  // The search loop of create_chain.
  method FindFree(fs: Fatfs, scl: dword) returns (ncl: dword)
    requires fs.Valid() && 1 <= scl < fs.vol.nFatent
    modifies fs`wflag, fs`disk, fs`winsect, fs.win
    ensures fs.Valid() && fs.vol.InFat(fs.winsect)
    ensures ncl == 0 ==> Busy(fs.fat, 2, fs.vol.nFatent)
    ensures ncl == 1 ==> HasOne(fs.fat)
    ensures ncl > 1 ==> NextFree(fs.fat, scl, ncl)
  {
    ghost var f := fs.fat;
    ncl := scl;
    while true
      invariant fs.Valid() && ncl < |f| && Searched(f, scl, ncl) == true
      invariant ncl != scl ==> fs.vol.InFat(fs.winsect)
      decreases if ncl >= scl then |f| - ncl + scl else scl - ncl
    {
      SearchOn(f, scl, ncl);
      ncl := ncl + 1;
      if ncl >= fs.vol.nFatent {
        ncl := 2;
        if ncl > scl {
          return 0;
        }
      }
      var cs := GetFat(fs, ncl);
      if cs == 0 {
        return;
      }
      if cs == 1 {
        return 1;
      }
      if ncl == scl {
        return 0;
      }
    }
  }

  /**
   * create_chain, for any FAT contents: it follows an existing link, or takes the free
   * cluster that is nearest in circular order, or reports 0 exactly when nothing is free.
   */
  method CreateChain(fs: Fatfs, clst: dword) returns (ncl: dword)
    requires fs.Valid()
    modifies fs`wflag, fs`disk, fs`winsect, fs.win, fs`logical, fs`fat, fs`log, fs`lastClust, fs`freeClust, fs`fsiFlag
    ensures fs.Valid() && SameOutsideFat(fs.vol, old(fs.logical), fs.logical)
    ensures fs.vol.InFat(fs.winsect) || (ncl == 1 && fs.winsect == old(fs.winsect))
    // The chain goes on behind clst, or clst is no chain member.
    ensures !Searches(old(fs.fat), clst) ==>
      ncl == if Fetch(old(fs.fat), clst) < 2 then 1 else Fetch(old(fs.fat), clst)
    // Nothing to take.
    ensures Searches(old(fs.fat), clst) && ncl == 0 ==> Busy(old(fs.fat), 2, fs.vol.nFatent)
    ensures Searches(old(fs.fat), clst) && ncl == 1 ==> HasOne(old(fs.fat))
    ensures !Searches(old(fs.fat), clst) || ncl < 2 ==>
      fs.logical == old(fs.logical) && fs.fat == old(fs.fat) && fs.log == old(fs.log) && fs.lastClust == old(fs.lastClust)
      && fs.freeClust == old(fs.freeClust)
    // A cluster taken.
    ensures Searches(old(fs.fat), clst) && ncl >= 2 ==>
      && clst < fs.vol.nFatent
      && NextFree(old(fs.fat), SearchStart(fs.vol.nFatent, old(fs.lastClust), clst), ncl)
      && fs.fat == Linked(old(fs.fat), clst, ncl, EndMark(fs.vol.fsType))
      && fs.log == old(fs.log) + LinkLog(old(fs.fat), clst, ncl, EndMark(fs.vol.fsType), fs.live)
      && fs.lastClust == ncl
      && fs.freeClust == (if old(fs.freeClust) == 0xFFFF_FFFF then 0xFFFF_FFFF else Sub32(old(fs.freeClust), 1))
  {
    var scl: dword;
    if clst == 0 {
      scl := fs.lastClust;
      if scl == 0 || scl >= fs.vol.nFatent {
        scl := 1;
      }
    } else {
      var cs := GetFat(fs, clst);
      if cs < 2 {
        return 1;
      }
      if cs < fs.vol.nFatent {
        return cs;
      }
      scl := clst;
    }
    ncl := FindFree(fs, scl);
    if ncl < 2 {
      return;
    }
    TakeCluster(fs, clst, ncl);
  }

  // The end of create_chain: mark the new cluster, link it, update the counters.
  method TakeCluster(fs: Fatfs, clst: dword, ncl: dword)
    requires fs.Valid() && 2 <= ncl < fs.vol.nFatent && (clst == 0 || 2 <= clst < fs.vol.nFatent)
    modifies fs`wflag, fs`disk, fs`winsect, fs.win, fs`logical, fs`fat, fs`log, fs`lastClust, fs`freeClust, fs`fsiFlag
    ensures fs.Valid() && SameOutsideFat(fs.vol, old(fs.logical), fs.logical) && fs.vol.InFat(fs.winsect)
    ensures fs.fat == Linked(old(fs.fat), clst, ncl, EndMark(fs.vol.fsType))
    ensures fs.log == old(fs.log) + LinkLog(old(fs.fat), clst, ncl, EndMark(fs.vol.fsType), fs.live)
    ensures fs.lastClust == ncl
    ensures fs.freeClust == if old(fs.freeClust) == 0xFFFF_FFFF then 0xFFFF_FFFF else Sub32(old(fs.freeClust), 1)
  {
    EndMarkEndsChains(fs.vol);
    SmallNumber(fs.vol, ncl);
    var res := PutFat(fs, ncl, 0x0FFF_FFFF);
    if clst != 0 {
      res := PutFat(fs, clst, ncl);
    }
    fs.lastClust := ncl;
    if fs.freeClust != 0xFFFF_FFFF {
      fs.freeClust := Sub32(fs.freeClust, 1);
      fs.fsiFlag := MarkDirty(fs.fsiFlag);
    }
  }

  lemma SmallNumber(v: Volume, c: nat)
    requires v.Valid() && c < v.nFatent
    ensures c % Span(v.fsType) == c
  {
    assert LookVolume(0);
  }

  /** A right free-cluster count stays right through create_chain. */
  lemma CountAfterCreate(f: seq<nat>, count: dword, clst: nat, ncl: nat, e: nat)
    requires Searches(f, clst) && clst < |f| && 2 <= ncl < |f| && f[ncl] == 0 && e != 0
    requires count == |Zeros(f)|
    ensures Sub32(count, 1) == |Zeros(Linked(f, clst, ncl, e))|
  {
    ZerosAfterLink(f, clst, ncl, e);
  }

  // The FAT states remove_chain steps through.
  ghost function UnchainLog(f: seq<nat>, c: nat, live: set<nat>): seq<Snapshot>
    requires 2 <= c
    decreases NonZeros(f)
  {
    if c < |f| && 1 < f[c] then
      assert c in NonZeros(f) && c !in NonZeros(f[c := 0]);
      [Snapshot(f[c := 0], live)] + UnchainLog(f[c := 0], f[c], live)
    else []
  }

  // remove_chain runs into an entry with the internal-error value.
  ghost predicate UnchainFails(f: seq<nat>, c: nat)
    requires 2 <= c
    decreases NonZeros(f)
  {
    c < |f| && (f[c] == 1 || (1 < f[c] &&
      (assert c in NonZeros(f) && c !in NonZeros(f[c := 0]);
       UnchainFails(f[c := 0], f[c]))))
  }

  lemma {:induction false} NeverFails(f: seq<nat>, c: nat)
    requires !HasOne(f) && 2 <= c
    ensures !UnchainFails(f, c)
    decreases NonZeros(f)
  {
    if c < |f| && f[c] > 1 {
      assert c in NonZeros(f) && c !in NonZeros(f[c := 0]);
      NeverFails(f[c := 0], f[c]);
    }
  }

  // Where remove_chain stands: what is left to do from (g, d) completes the run from (f, c).
  ghost predicate Continues(f: seq<nat>, c: nat, l: seq<Snapshot>, g: seq<nat>, d: nat, m: seq<Snapshot>, live: set<nat>)
    requires 2 <= c && 2 <= d
  {
    && Unchain(f, c) == Unchain(g, d)
    && UnchainFails(f, c) == UnchainFails(g, d)
    && l + UnchainLog(f, c, live) == m + UnchainLog(g, d, live)
  }

  lemma ContinuesStep(f: seq<nat>, c: nat, l: seq<Snapshot>, g: seq<nat>, d: nat, m: seq<Snapshot>, live: set<nat>)
    requires 2 <= c && 2 <= d < |g| && 1 < g[d] && Continues(f, c, l, g, d, m, live)
    ensures Continues(f, c, l, g[d := 0], g[d], m + [Snapshot(g[d := 0], live)], live)
    ensures NonZeros(g[d := 0]) < NonZeros(g)
  {
    assert d in NonZeros(g) && d !in NonZeros(g[d := 0]);
  }

  // One round of remove_chain: free a cluster and count it.
  method FreeCluster(fs: Fatfs, clst: dword)
    requires fs.Valid() && 2 <= clst < fs.vol.nFatent && fs.fat[clst] != 0
    modifies fs`wflag, fs`disk, fs`winsect, fs.win, fs`logical, fs`fat, fs`log, fs`freeClust, fs`fsiFlag
    ensures fs.Valid() && SameOutsideFat(fs.vol, old(fs.logical), fs.logical) && fs.vol.InFat(fs.winsect)
    ensures fs.fat == old(fs.fat)[clst := 0] && fs.log == old(fs.log) + [Snapshot(fs.fat, fs.live)]
    ensures old(CountRight(fs)) ==> CountRight(fs)
    ensures old(fs.freeClust) == 0xFFFF_FFFF ==> fs.freeClust == 0xFFFF_FFFF
  {
    ZerosAfterFree(fs.fat, clst);
    ZerosBound(fs.fat[clst := 0]);
    var res := PutFat(fs, clst, 0);
    if fs.freeClust != 0xFFFF_FFFF {
      fs.freeClust := Add32(fs.freeClust, 1);
      fs.fsiFlag := MarkDirty(fs.fsiFlag);
    }
  }

  /**
   * remove_chain, for any FAT contents, even cyclic ones: it ends, it has the effect of
   * Unchain, and a right free-cluster count stays right.
   */
  method RemoveChain(fs: Fatfs, clst: dword) returns (res: FResult)
    requires fs.Valid()
    modifies fs`wflag, fs`disk, fs`winsect, fs.win, fs`logical, fs`fat, fs`log, fs`freeClust, fs`fsiFlag
    ensures fs.Valid() && SameOutsideFat(fs.vol, old(fs.logical), fs.logical)
    ensures !(2 <= clst < fs.vol.nFatent) ==>
      res == IntErr && fs.logical == old(fs.logical) && fs.fat == old(fs.fat) && fs.log == old(fs.log)
    ensures 2 <= clst < fs.vol.nFatent ==>
      && fs.vol.InFat(fs.winsect)
      && fs.fat == Unchain(old(fs.fat), clst)
      && fs.log == old(fs.log) + UnchainLog(old(fs.fat), clst, fs.live)
      && res == if UnchainFails(old(fs.fat), clst) then IntErr else Ok
    ensures old(CountRight(fs)) ==> CountRight(fs)
    ensures old(fs.freeClust) == 0xFFFF_FFFF ==> fs.freeClust == 0xFFFF_FFFF
  {
    if clst < 2 || clst >= fs.vol.nFatent {
      return IntErr;
    }
    res := Ok;
    var c: dword := clst;
    while c < fs.vol.nFatent
      invariant fs.Valid() && 2 <= c && SameOutsideFat(fs.vol, old(fs.logical), fs.logical)
      invariant Continues(old(fs.fat), clst, old(fs.log), fs.fat, c, fs.log, fs.live)
      invariant c == clst || fs.vol.InFat(fs.winsect)
      invariant old(CountRight(fs)) ==> CountRight(fs)
      invariant old(fs.freeClust) == 0xFFFF_FFFF ==> fs.freeClust == 0xFFFF_FFFF
      decreases NonZeros(fs.fat)
    {
      var nxt := GetFat(fs, c);
      if nxt == 0 {
        break;
      }
      if nxt == 1 {
        res := IntErr;
        break;
      }
      ContinuesStep(old(fs.fat), clst, old(fs.log), fs.fat, c, fs.log, fs.live);
      FreeCluster(fs, c);
      c := nxt;
    }
  }
}
