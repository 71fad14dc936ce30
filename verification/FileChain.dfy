/**
 * Following and stretching the cluster chain of an open file.
 */
module FileChain {
  import opened Types
  import opened Geometry
  import opened Window
  import opened ClusterChains
  import opened Allocator
  import opened CrashSafety
  import opened FileData
  import opened FileMap
  import opened File

  // The chain of an open file grew by a cluster that was free.
  lemma ForestExtended(f: seq<nat>, others: set<seq<nat>>, chain: seq<nat>, c: nat, ncl: nat, e: nat)
    requires Forest(f, WithOwn(others, chain)) && chain !in others
    requires 2 <= ncl < |f| && f[ncl] == 0 && |f| <= e
    requires c == if chain == [] then 0 else chain[|chain| - 1]
    ensures c < |f| && Forest(Linked(f, c, ncl, e), WithOwn(others, chain + [ncl])) && chain + [ncl] !in others
  {
    UsedIffCovered(f, WithOwn(others, chain), ncl);
    assert ncl in chain + [ncl];
    if chain == [] {
      Created(f, others, ncl, e);
      assert chain + [ncl] == [ncl];
    } else {
      assert chain in WithOwn(others, chain);
      Stretched(f, others + {chain}, chain, ncl, e);
      assert others + {chain} - {chain} + {chain + [ncl]} == others + {chain + [ncl]};
    }
  }

  // What the FAT says about cluster i of the file's chain.
  lemma LinkOfFile(fp: Fil, i: nat)
    requires fp.Core() && i < |fp.chain|
    ensures 2 <= fp.chain[i] < fp.fs.vol.nFatent == |fp.fs.fat|
    ensures i < |fp.chain| - 1 ==>
      fp.fs.fat[fp.chain[i]] == fp.chain[i + 1] && 2 <= fp.chain[i + 1] < fp.fs.vol.nFatent
    ensures i == |fp.chain| - 1 ==> fp.fs.vol.nFatent <= fp.fs.fat[fp.chain[i]]
  {
    assert LookFile(0) && LookMap(0);
    assert fp.chain in WithOwn(fp.others, fp.chain);
    assert Chain(fp.fs.fat, fp.chain);
  }

  lemma ForestOfFile(fp: Fil)
    requires fp.Core()
    ensures Forest(fp.fs.fat, WithOwn(fp.others, fp.chain)) && fp.chain !in fp.others
    ensures |fp.fs.fat| == fp.fs.vol.nFatent && fp.fs.vol.Valid()
  {
    Unseal(fp);
    assert LookMap(0);
  }

  // Every state of the FAT so far is safe, and the directory entries name clusters of chains; of
  // this chain at most the first one.
  ghost predicate LogSafe(log: seq<Snapshot>, live: set<nat>, others: set<seq<nat>>, chain: seq<nat>) {
    forall k :: LookLog(k) ==> AllSafe(log) && Anchored(live, WithOwn(others, chain)) && NamesFirst(live, chain)
  }

  ghost predicate NamesFirst(live: set<nat>, chain: seq<nat>) {
    forall c :: c in live && c in chain ==> c == chain[0]
  }

  ghost predicate Guarded(fp: Fil)
    reads fp`chain, fp.fs`log, fp.fs`live
  {
    LogSafe(fp.fs.log, fp.fs.live, fp.others, fp.chain) == true
  }

  /** Stretching the chain of an open file is safe. */
  lemma LogExtended(log: seq<Snapshot>, live: set<nat>, f: seq<nat>, others: set<seq<nat>>, chain: seq<nat>, c: nat,
                    ncl: nat, e: nat)
    requires LogSafe(log, live, others, chain) && Forest(f, WithOwn(others, chain)) && chain !in others
    requires 2 <= ncl < |f| && f[ncl] == 0 && |f| <= e && c == if chain == [] then 0 else chain[|chain| - 1]
    ensures c < |f| && LogSafe(log + LinkLog(f, c, ncl, e, live), live, others, chain + [ncl])
  {
    assert LookLog(0);
    var cs, t := WithOwn(others, chain), chain + [ncl];
    assert chain != [] ==> chain in cs;
    CreateIsSafe(f, cs, c, chain, ncl, e, live);
    UsedIffCovered(f, cs, ncl);
    forall x | x in live ensures Covered(WithOwn(others, t), x) {
      assert Covered(cs, x);
      var s :| s in cs && x in s;
      if s == chain {
        assert x in t && t in WithOwn(others, t);
      } else {
        assert s in WithOwn(others, t);
      }
    }
  }

  lemma NoOnes(fp: Fil)
    requires fp.Core()
    ensures !HasOne(fp.fs.fat)
  {
    assert LookFile(0) && LookMap(0);
    NoOnesInForest(fp.fs.fat, WithOwn(fp.others, fp.chain));
  }

  // The window went to the FAT, nothing else changed.
  lemma CoreAfterLook(fp: Fil, w: nat)
    requires Shape(fp) && fp.sclust == (if fp.chain == [] then 0 else fp.chain[0]) && fp.fs.vol.InFat(fp.fs.winsect)
    requires Consistent<seq<byte>>(fp.fs.vol, fp.others, fp.chain, fp.data, fp.fs.fat, fp.fs.logical, w,
                                fp.dirty, fp.dsect, fp.buf[..])
    ensures fp.Core()
  {
    WindowMoved<seq<byte>>(fp.fs.vol, fp.others, fp.chain, fp.data, fp.fs.fat, fp.fs.logical, w, fp.fs.winsect,
                        fp.dirty, fp.dsect, fp.buf[..]);
    Seal(fp);
  }

  // Account for a cluster that create_chain put behind the file's chain.
  ghost method Grow(fp: Fil, f: seq<nat>, l: seq<Sector>, w: nat, c: nat, ncl: nat)
    requires Shape(fp) && fp.fs.vol.InFat(fp.fs.winsect) && |f| == fp.fs.vol.nFatent && 2 <= ncl < |f| && f[ncl] == 0
    requires Consistent<seq<byte>>(fp.fs.vol, fp.others, fp.chain, fp.data, f, l, w, fp.dirty, fp.dsect, fp.buf[..])
    requires c == if fp.chain == [] then 0 else fp.chain[|fp.chain| - 1]
    requires c < |f| && fp.fs.fat == Linked(f, c, ncl, EndMark(fp.fs.vol.fsType))
    requires SameOutsideFat<seq<byte>>(fp.fs.vol, l, fp.fs.logical)
    requires fp.sclust == if fp.chain == [] then ncl else fp.chain[0]
    modifies fp`chain, fp`data, fp`bytes
    ensures fp.Core() && fp.chain == old(fp.chain) + [ncl] && old(fp.bytes) <= fp.bytes
  {
    var x := Grown<seq<byte>>(fp.fs.vol, fp.others, fp.chain, fp.data, f, l, w, fp.dirty, fp.dsect, fp.buf[..], c, ncl,
                           fp.fs.fat, fp.fs.logical, fp.fs.winsect);
    BytesGrow<byte>(fp.data, x);
    SetChain(fp, fp.chain + [ncl], fp.data + [x]);
  }

  ghost method SetChain(fp: Fil, chain: seq<nat>, d: seq<seq<seq<byte>>>)
    requires fp.fs.Valid() && fp.buf.Length == 512 && fp.buf != fp.fs.win
    requires |d| == |chain| && Uniform<seq<byte>>(d, fp.fs.vol.csize) && fp.fsize <= |Flat<byte>(Flat<seq<byte>>(d))|
    requires fp.sclust == (if chain == [] then 0 else chain[0])
    requires Consistent<seq<byte>>(fp.fs.vol, fp.others, chain, d, fp.fs.fat, fp.fs.logical, fp.fs.winsect,
                                   fp.dirty, fp.dsect, fp.buf[..])
    modifies fp`chain, fp`data, fp`bytes
    ensures fp.Core() && fp.chain == chain && fp.bytes == Flat<byte>(Flat<seq<byte>>(d))
  {
    fp.chain, fp.data, fp.bytes := chain, d, Flat<byte>(Flat<seq<byte>>(d));
    Seal(fp);
  }

  lemma Grown<S>(v: Volume, others: set<seq<nat>>, chain: seq<nat>, data: seq<seq<S>>, f: seq<nat>, l: seq<S>, w: nat,
                 dirty: bool, dsect: nat, buf: S, c: nat, ncl: nat, g: seq<nat>, m: seq<S>, w': nat) returns (x: seq<S>)
    requires v.Valid() && |f| == |g| == v.nFatent && 2 <= ncl < |f| && f[ncl] == 0
    requires Consistent(v, others, chain, data, f, l, w, dirty, dsect, buf)
    requires c == if chain == [] then 0 else chain[|chain| - 1]
    requires c < |f| && g == Linked(f, c, ncl, EndMark(v.fsType)) && SameOutsideFat(v, l, m) && v.InFat(w')
    ensures |x| == v.csize
    ensures Consistent(v, others, chain + [ncl], data + [x], g, m, w', dirty, dsect, buf)
  {
    assert LookMap(0);
    EndMarkEndsChains(v);
    ForestExtended(f, others, chain, c, ncl, EndMark(v.fsType));
    Extended(v, others, chain, data, f, l, w, dirty, dsect, buf, ncl, g, m, w');
    x := ClusterSeen(v, ncl, m, dirty, dsect, buf);
  }

  lemma BytesGrow<T>(data: seq<seq<seq<T>>>, x: seq<seq<T>>)
    ensures Flat<T>(Flat<seq<T>>(data)) <= Flat<T>(Flat<seq<T>>(data + [x]))
  {
    FlatConcat<seq<T>>(data, [x]);
    FlatConcat<T>(Flat<seq<T>>(data), Flat<seq<T>>([x]));
  }

  lemma GrownGuarded(fp: Fil, log: seq<Snapshot>, f: seq<nat>, chain: seq<nat>, c: nat, ncl: nat)
    requires fp.fs.vol.Valid() && |f| == fp.fs.vol.nFatent && Forest(f, WithOwn(fp.others, chain)) && chain !in fp.others
    requires 2 <= ncl < |f| && f[ncl] == 0 && c < |f| && c == if chain == [] then 0 else chain[|chain| - 1]
    requires fp.fs.log == log + LinkLog(f, c, ncl, EndMark(fp.fs.vol.fsType), fp.fs.live) && fp.chain == chain + [ncl]
    ensures LogSafe(log, fp.fs.live, fp.others, chain) ==> Guarded(fp)
  {
    if LogSafe(log, fp.fs.live, fp.others, chain) {
      EndMarkEndsChains(fp.fs.vol);
      LogExtended(log, fp.fs.live, f, fp.others, chain, c, ncl, EndMark(fp.fs.vol.fsType));
    }
  }

  /**
   * create_chain as the file functions call it: with 0 for a file without clusters, or with
   * cluster i of the file. The result is the next cluster of the file, which may be new, or
   * 0 when the file ends here and no cluster is free.
   */
  method NextOrNew(fp: Fil, c: dword, ghost i: nat) returns (ncl: dword)
    requires fp.Core() && if c == 0 then fp.chain == [] else i < |fp.chain| && c == fp.chain[i]
    modifies fp.fs`wflag, fp.fs`disk, fp.fs`winsect, fp.fs.win, fp.fs`logical, fp.fs`fat, fp.fs`log
    modifies fp.fs`lastClust, fp.fs`freeClust, fp.fs`fsiFlag, fp`sclust, fp`chain, fp`data, fp`bytes
    ensures fp.Core() && OthersKept<seq<byte>>(fp.fs.vol, fp.others, old(fp.fs.logical), fp.fs.logical)
    ensures old(fp.chain) <= fp.chain && old(fp.bytes) <= fp.bytes
    ensures ncl == 0 ==> fp.chain == old(fp.chain) && Busy(fp.fs.fat, 2, fp.fs.vol.nFatent)
    ensures ncl == 0 ==> |fp.chain| == if c == 0 then 0 else i + 1
    ensures ncl != 0 ==> var n := if c == 0 then 0 else i + 1; n < |fp.chain| && fp.chain[n] == ncl
    ensures |fp.chain| > |old(fp.chain)| ==> |fp.chain| == if c == 0 then 1 else i + 2
    ensures fp.fs.vol.InFat(fp.fs.winsect) && (old(Guarded(fp)) ==> Guarded(fp))
  {
    ghost var l, f, w := fp.fs.logical, fp.fs.fat, fp.fs.winsect;
    ghost var log, chain := fp.fs.log, fp.chain;
    Unseal(fp);
    NoOnes(fp);
    ForestOfFile(fp);
    if c != 0 {
      LinkOfFile(fp, i);
    }
    ncl := CreateChain(fp.fs, c);
    if c == 0 {
      fp.sclust := ncl;
    }
    if Searches(f, c) && ncl >= 2 {
      Grow(fp, f, l, w, c, ncl);
      GrownGuarded(fp, log, f, chain, c, ncl);
    } else {
      CoreAfterLook(fp, w);
    }
  }
}
