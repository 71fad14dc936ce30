/**
 * f_truncate: the file ends at the file pointer, and the clusters behind it are freed.
 */
module FileTruncate {
  import opened Basics
  import opened Types
  import opened Geometry
  import opened Window
  import opened FatAccess
  import opened ClusterChains
  import opened Allocator
  import opened CrashSafety
  import opened FileData
  import opened FileMap
  import opened File
  import opened FileChain
  import opened FileWrite
  import opened FileRead
  import opened FileSeek

  // The FAT after cutting a chain to its first k clusters: the tail is free, and the last
  // cluster kept, if any, has the end mark.
  function CutTo(f: seq<nat>, chain: seq<nat>, k: nat, e: nat): (g: seq<nat>)
    requires k <= |chain|
    ensures |g| == |f|
  {
    if k == |chain| then f
    else if k == 0 || chain[k - 1] >= |f| then Freed(f, chain[k..])
    else Freed(f[chain[k - 1] := e], chain[k..])
  }

  /** Cutting the file's chain keeps the forest, without the tail. */
  lemma ForestCut(f: seq<nat>, others: set<seq<nat>>, chain: seq<nat>, k: nat, e: nat)
    requires Forest(f, WithOwn(others, chain)) && chain !in others && k <= |chain| && |f| <= e
    ensures Forest(CutTo(f, chain, k, e), WithOwn(others, chain[..k])) && chain[..k] !in others
  {
    if k == |chain| {
      assert chain[..k] == chain;
      assert chain != [] ==> chain in WithOwn(others, chain) && Chain(f, chain);
    } else {
      assert chain in WithOwn(others, chain) && Chain(f, chain);
      assert WithOwn(others, chain) - {chain} == others;
      if k == 0 {
        assert chain[0..] == chain;
        Removed(f, WithOwn(others, chain), chain);
        assert forall t :: t in others ==> t != [];
      } else {
        ForestCutInTwo(f, others, chain, k, e);
      }
    }
  }

  lemma ForestCutInTwo(f: seq<nat>, others: set<seq<nat>>, chain: seq<nat>, k: nat, e: nat)
    requires Forest(f, others + {chain}) && chain !in others && 0 < k < |chain| && |f| <= e
    ensures 2 <= chain[k - 1] < |f| && chain[..k] !in others
    ensures Forest(Freed(f[chain[k - 1] := e], chain[k..]), others + {chain[..k]})
  {
    ForestOfHalves(f, others, chain, k, e);
    Removed(f[chain[k - 1] := e], others + {chain[..k], chain[k..]}, chain[k..]);
    WithoutSecond(others, chain[..k], chain[k..]);
  }

  lemma ForestOfHalves(f: seq<nat>, others: set<seq<nat>>, chain: seq<nat>, k: nat, e: nat)
    requires Forest(f, others + {chain}) && chain !in others && 0 < k < |chain| && |f| <= e
    ensures 2 <= chain[k - 1] < |f| && chain[..k] !in others && chain[k..] !in others && chain[..k] != chain[k..]
    ensures Forest(f[chain[k - 1] := e], others + {chain[..k], chain[k..]})
  {
    var cs, a, b := others + {chain}, chain[..k], chain[k..];
    assert chain in cs;
    HalvesHave(chain, k);
    NotAmong(others, chain, a, chain[0]);
    NotAmong(others, chain, b, chain[k]);
    HalvesDiffer(f, chain, k);
    Cut(f, cs, chain, k, e);
    WithoutWhole(others, chain, {a, b});
  }

  lemma HalvesHave<T>(s: seq<T>, k: nat)
    requires 0 < k < |s|
    ensures s[0] in s[..k] && s[k] in s[k..] && s[0] in s && s[k] in s
  {
    assert s[..k][0] == s[0] && s[k..][0] == s[k];
  }

  lemma HalvesDiffer(f: seq<nat>, chain: seq<nat>, k: nat)
    requires Chain(f, chain) && 0 < k < |chain|
    ensures chain[..k] != chain[k..]
  {
    HalvesHave(chain, k);
    PartsApart(f, chain, k);
  }

  lemma WithoutWhole<T>(others: set<T>, x: T, now: set<T>)
    requires x !in others
    ensures others + {x} - {x} + now == others + now
  {
  }

  lemma WithoutSecond<T>(others: set<T>, a: T, b: T)
    requires b !in others && a != b
    ensures others + {a, b} - {b} == others + {a}
  {
  }

  lemma NotAmong(others: set<seq<nat>>, chain: seq<nat>, part: seq<nat>, c: nat)
    requires PairwiseDisjoint(others + {chain}) && chain !in others && c in part && c in chain
    ensures part !in others
  {
    assert part in others ==> Apart(part, chain);
  }

  // The FAT states on the way.
  ghost function CutLog(f: seq<nat>, chain: seq<nat>, k: nat, e: nat, live: set<nat>): seq<Snapshot>
    requires k <= |chain|
  {
    if k == |chain| || chain[k] < 2 then []
    else if k == 0 || chain[k - 1] >= |f| then UnchainLog(f, chain[k], live)
    else [Snapshot(f[chain[k - 1] := e], live)] + UnchainLog(f[chain[k - 1] := e], chain[k], live)
  }

  // What put_fat and remove_chain do to the tail of a chain that is cut behind cluster k - 1.
  lemma TailRemoved(f: seq<nat>, chain: seq<nat>, k: nat, e: nat, live: set<nat>)
    requires Chain(f, chain) && !HasOne(f) && k < |chain| && |f| <= e && 2 <= chain[k]
    ensures k > 0 ==> 2 <= chain[k - 1] < |f| && f[chain[k - 1]] == chain[k]
    ensures var g := if k == 0 then f else f[chain[k - 1] := e];
            && Unchain(g, chain[k]) == CutTo(f, chain, k, e) && !UnchainFails(g, chain[k])
            && CutLog(f, chain, k, e, live)
              == (if k == 0 then [] else [Snapshot(g, live)]) + UnchainLog(g, chain[k], live)
  {
    if k == 0 {
      assert chain[0..] == chain;
      UnchainTail(f, chain);
      NeverFails(f, chain[0]);
    } else {
      CutChains(f, chain, k, e);
      var g := f[chain[k - 1] := e];
      UnchainTail(g, chain[k..]);
      NeverFails(g, chain[k]);
    }
  }

  /**
   * An interrupted f_truncate is safe if and only if no live directory entry names a cluster
   * that is freed.
   */
  lemma TruncateSafeIff(f: seq<nat>, others: set<seq<nat>>, chain: seq<nat>, k: nat, e: nat, live: set<nat>)
    requires Forest(f, others + {chain}) && chain !in others && k <= |chain| && |f| <= e && Anchored(live, others + {chain})
    ensures AllSafe(CutLog(f, chain, k, e, live)) <==> Unnamed(live, chain[k..])
  {
    var cs := others + {chain};
    assert chain in cs;
    if k == |chain| {
      assert CutLog(f, chain, k, e, live) == [] && chain[k..] == [];
    } else if k == 0 {
      FullCutSafeIff(f, cs, chain, e, live);
    } else {
      PartCutSafeIff(f, cs, chain, k, e, live);
    }
  }

  lemma FullCutSafeIff(f: seq<nat>, cs: set<seq<nat>>, chain: seq<nat>, e: nat, live: set<nat>)
    requires Forest(f, cs) && chain in cs && chain != [] && Anchored(live, cs)
    ensures AllSafe(CutLog(f, chain, 0, e, live)) <==> Unnamed(live, chain[0..])
  {
    CutLogIs(f, chain, 0, e, live);
    assert chain[0..] == chain;
    RemoveSafeIff(f, cs, chain, live);
  }

  lemma PartCutSafeIff(f: seq<nat>, cs: set<seq<nat>>, chain: seq<nat>, k: nat, e: nat, live: set<nat>)
    requires Forest(f, cs) && chain in cs && 0 < k < |chain| && |f| <= e && Anchored(live, cs)
    ensures AllSafe(CutLog(f, chain, k, e, live)) <==> Unnamed(live, chain[k..])
  {
    CutLogIs(f, chain, k, e, live);
    PartialTruncateSafeIff(f, cs, chain, k, e, live);
  }

  lemma CutLogIs(f: seq<nat>, chain: seq<nat>, k: nat, e: nat, live: set<nat>)
    requires Chain(f, chain) && k < |chain|
    ensures 2 <= chain[k] && (k > 0 ==> chain[k - 1] < |f|)
    ensures CutLog(f, chain, k, e, live) ==
      if k == 0 then UnchainLog(f, chain[0], live)
      else [Snapshot(f[chain[k - 1] := e], live)] + UnchainLog(f[chain[k - 1] := e], chain[k], live)
  {
    LinkAt(|f|, f, chain, k);
    if k > 0 {
      LinkAt(|f|, f, chain, k - 1);
    }
  }

  // Live directory entries name clusters of chains; of this chain just the first one.
  ghost predicate EntryNames(live: set<nat>, others: set<seq<nat>>, chain: seq<nat>) {
    && Anchored(live, WithOwn(others, chain)) && chain != [] && chain[0] in live
    && forall c :: c in live && c in chain ==> c == chain[0]
  }

  /**
   * For a file that its directory entry names, an interrupted f_truncate is safe if and only if
   * the pointer is not at 0: at 0 the entry still names the first cluster while it is freed.
   */
  lemma TruncateSafeIffKept(f: seq<nat>, others: set<seq<nat>>, chain: seq<nat>, k: nat, e: nat, live: set<nat>)
    requires Forest(f, WithOwn(others, chain)) && chain !in others && k <= |chain| && |f| <= e
    requires EntryNames(live, others, chain)
    ensures AllSafe(CutLog(f, chain, k, e, live)) <==> k > 0
  {
    TruncateSafeIff(f, others, chain, k, e, live);
    assert chain in WithOwn(others, chain) && Chain(f, chain);
    if k == 0 {
      assert chain[0..] == chain && chain[0] in chain;
    } else {
      HeadNotInTail(f, chain, k);
    }
  }

  /** An open file whose directory entry names it, after safe states only. */
  lemma NamedIsGuarded(fp: Fil)
    requires EntryNames(fp.fs.live, fp.others, fp.chain) && AllSafe(fp.fs.log)
    ensures Guarded(fp)
  {
  }

  // The first cluster is not among the later ones; those are clusters of the chain.
  lemma HeadNotInTail(f: seq<nat>, chain: seq<nat>, k: nat)
    requires Chain(f, chain) && 0 < k <= |chain|
    ensures chain[0] !in chain[k..] && forall c :: c in chain[k..] ==> c in chain
  {
    var tail := chain[k..];
    forall i | 0 <= i < |tail| ensures tail[i] != chain[0] && tail[i] in chain {
      assert tail[i] == chain[k + i];
      ChainDistinct(f, chain, 0, k + i);
    }
  }

  /** At offset 0: the log of a file of one cluster goes through a state that is not safe. */
  lemma FullTruncateIsUnsafe()
    ensures var f := [0, 0, 0xFFF]; Chain(f, [2]) && !AllSafe(CutLog(f, [2], 0, 0xFFF, {2}))
  {
    var f, s := [0, 0, 0xFFF], [2];
    assert s in WithOwn({}, s) && 2 in s;
    assert Forest(f, WithOwn({}, s));
    TruncateSafeIffKept(f, {}, s, 0, 0xFFF, {2});
  }

  // The chain of a file was cut.
  lemma Shortened<S>(v: Volume, others: set<seq<nat>>, chain: seq<nat>, data: seq<seq<S>>, f: seq<nat>, l: seq<S>,
                     winsect: nat, dirty: bool, dsect: nat, buf: S, k: nat, m: seq<S>, winsect': nat)
    requires v.Valid() && |f| == v.nFatent && Consistent(v, others, chain, data, f, l, winsect, dirty, dsect, buf)
    requires k <= |chain| == |data| && SameOutsideFat(v, l, m) && v.InFat(winsect')
    ensures Consistent(v, others, chain[..k], data[..k], CutTo(f, chain, k, EndMark(v.fsType)), m, winsect', dirty, dsect, buf)
  {
    assert LookMap(0);
    EndMarkEndsChains(v);
    ForestCut(f, others, chain, k, EndMark(v.fsType));
    ShowsFrame(v, others, chain, data, f, l, m, dirty, dsect, buf);
    ShowsShortened(v, chain, data, m, dirty, dsect, buf, k);
    if dsect != 0 {
      MineKept(v, others, l, m, dsect);
    }
  }

  lemma ShowsShortened<S>(v: Volume, chain: seq<nat>, data: seq<seq<S>>, m: seq<S>, dirty: bool, dsect: nat, buf: S, k: nat)
    requires Shows(v, chain, data, m, dirty, dsect, buf) && k <= |chain|
    ensures Shows(v, chain[..k], data[..k], m, dirty, dsect, buf)
  {
    var a, d := chain[..k], data[..k];
    forall i, j | 0 <= i < k && 0 <= j < v.csize
      ensures 0 <= At(v, a[i], j) < |m| && d[i][j] == Seen(m, dirty, dsect, buf, At(v, a[i], j))
    {
      assert a[i] == chain[i] && d[i][j] == data[i][j];
    }
  }

  // How many clusters a file needs up to its pointer.
  ghost function ClustersKept(fp: Fil): nat
    reads fp`fptr, fp`pos
  {
    if fp.fptr == 0 then 0 else fp.pos + 1
  }

  // Account for a chain cut to its first k clusters.
  ghost method Shrink(fp: Fil, f: seq<nat>, l: seq<Sector>, w: nat, k: nat)
    requires fp.fs.Valid() && fp.buf.Length == 512 && fp.buf != fp.fs.win && fp.fs.vol.InFat(fp.fs.winsect)
    requires k <= |fp.chain| == |fp.data| && |f| == fp.fs.vol.nFatent && Uniform<seq<byte>>(fp.data, fp.fs.vol.csize)
    requires Consistent<seq<byte>>(fp.fs.vol, fp.others, fp.chain, fp.data, f, l, w, fp.dirty, fp.dsect, fp.buf[..])
    requires SameOutsideFat<seq<byte>>(fp.fs.vol, l, fp.fs.logical)
    requires fp.fs.fat == CutTo(f, fp.chain, k, EndMark(fp.fs.vol.fsType))
    requires fp.bytes == Flat<byte>(Flat<seq<byte>>(fp.data))
    requires fp.sclust == if k == 0 then 0 else fp.chain[0]
    requires fp.fptr <= fp.fsize <= |Flat<byte>(Flat<seq<byte>>(fp.data[..k]))|
    requires fp.InPlace() && k == ClustersKept(fp)
    modifies fp`chain, fp`data, fp`bytes
    ensures fp.Core() && fp.AtPointer()
    ensures fp.chain == old(fp.chain)[..k] && fp.bytes <= old(fp.bytes)
  {
    Shortened<seq<byte>>(fp.fs.vol, fp.others, fp.chain, fp.data, f, l, w, fp.dirty, fp.dsect, fp.buf[..], k,
                         fp.fs.logical, fp.fs.winsect);
    BytesShrink<byte>(fp.data, k);
    SetChain(fp, fp.chain[..k], fp.data[..k]);
    Stand(fp);
  }

  lemma BytesShrink<T>(data: seq<seq<seq<T>>>, k: nat)
    requires k <= |data|
    ensures Flat<T>(Flat<seq<T>>(data[..k])) <= Flat<T>(Flat<seq<T>>(data))
  {
    assert data == data[..k] + data[k..];
    FlatConcat<seq<T>>(data[..k], data[k..]);
    FlatConcat<T>(Flat<seq<T>>(data[..k]), Flat<seq<T>>(data[k..]));
  }

  // The size of the first k clusters.
  lemma SizeOfClusters(fp: Fil, k: nat)
    requires fp.Core() && k <= |fp.chain|
    ensures k <= |fp.data| && |Flat<byte>(Flat<seq<byte>>(fp.data[..k]))| == Top(fp.fs.vol, k)
  {
    Unseal(fp);
    FileSectors(fp);
    var d := fp.data[..k];
    FlatConcat<seq<byte>>(d, fp.data[k..]);
    assert fp.data == d + fp.data[k..];
    FlatSize<seq<byte>>(d, fp.fs.vol.csize);
    assert forall i :: 0 <= i < |Flat<seq<byte>>(d)| ==> Flat<seq<byte>>(d)[i] == Flat<seq<byte>>(fp.data)[i];
    FlatSize<byte>(Flat<seq<byte>>(d), 512);
  }

  // Free the clusters behind the file pointer, and cut the chain if some are kept.
  method CutFat(fp: Fil) returns (res: FResult)
    requires fp.Core() && fp.InPlace() && fp.fptr < |fp.bytes|
    modifies fp.fs`wflag, fp.fs`disk, fp.fs`winsect, fp.fs.win, fp.fs`logical, fp.fs`fat, fp.fs`log
    modifies fp.fs`freeClust, fp.fs`fsiFlag, fp`sclust
    ensures ClustersKept(fp) <= |fp.chain|
    ensures fp.fs.Valid() && fp.fs.vol.InFat(fp.fs.winsect) && res == Ok
    ensures SameOutsideFat<seq<byte>>(fp.fs.vol, old(fp.fs.logical), fp.fs.logical)
    ensures fp.fs.fat == CutTo(old(fp.fs.fat), fp.chain, ClustersKept(fp), EndMark(fp.fs.vol.fsType))
    ensures fp.sclust == if ClustersKept(fp) == 0 then 0 else old(fp.sclust)
    ensures fp.fs.log == old(fp.fs.log)
                         + CutLog(old(fp.fs.fat), fp.chain, ClustersKept(fp), EndMark(fp.fs.vol.fsType), fp.fs.live)
  {
    Unseal(fp);
    ghost var f, k, e := fp.fs.fat, ClustersKept(fp), EndMark(fp.fs.vol.fsType);
    EndMarkEndsChains(fp.fs.vol);
    ChainOfFile(fp);
    NoOnes(fp);
    if fp.fptr == 0 {
      WithinChain(fp, 0);
      TailRemoved(f, fp.chain, 0, e, fp.fs.live);
      res := RemoveChain(fp.fs, fp.sclust);
      fp.sclust := 0;
    } else {
      LinkOfFile(fp, fp.pos);
      res := CutBehind(fp.fs, fp.clust, fp.chain, fp.pos);
    }
  }

  // f_truncate where some of the file is kept: cut the chain behind cluster i and free the rest.
  method CutBehind(fs: Fatfs, clust: dword, ghost chain: seq<nat>, ghost i: nat) returns (res: FResult)
    requires fs.Valid() && Chain(fs.fat, chain) && !HasOne(fs.fat) && i < |chain| && clust == chain[i]
    modifies fs`wflag, fs`disk, fs`winsect, fs.win, fs`logical, fs`fat, fs`log, fs`freeClust, fs`fsiFlag
    ensures fs.Valid() && fs.vol.InFat(fs.winsect) && res == Ok
    ensures SameOutsideFat<seq<byte>>(fs.vol, old(fs.logical), fs.logical)
    ensures fs.fat == CutTo(old(fs.fat), chain, i + 1, EndMark(fs.vol.fsType))
    ensures fs.log == old(fs.log) + CutLog(old(fs.fat), chain, i + 1, EndMark(fs.vol.fsType), fs.live)
  {
    EndMarkEndsChains(fs.vol);
    LinkAt(fs.vol.nFatent, fs.fat, chain, i);
    var ncl := GetFat(fs, clust);
    assert ncl != 0xFFFF_FFFF && ncl != 1;
    res := Ok;
    if ncl < fs.vol.nFatent {
      TailRemoved(fs.fat, chain, i + 1, EndMark(fs.vol.fsType), fs.live);
      res := CutAndFree(fs, clust, ncl);
    }
  }

  // Put an end mark into cluster c and free what followed it.
  method CutAndFree(fs: Fatfs, c: dword, ncl: dword) returns (res: FResult)
    requires fs.Valid() && 2 <= c < fs.vol.nFatent && 2 <= ncl < fs.vol.nFatent
    modifies fs`wflag, fs`disk, fs`winsect, fs.win, fs`logical, fs`fat, fs`log, fs`freeClust, fs`fsiFlag
    ensures fs.Valid() && fs.vol.InFat(fs.winsect)
    ensures SameOutsideFat<seq<byte>>(fs.vol, old(fs.logical), fs.logical)
    ensures var g := old(fs.fat)[c := EndMark(fs.vol.fsType)];
      && fs.fat == Unchain(g, ncl)
      && fs.log == old(fs.log) + ([Snapshot(g, fs.live)] + UnchainLog(g, ncl, fs.live))
      && res == if UnchainFails(g, ncl) then IntErr else Ok
  {
    EndMarkEndsChains(fs.vol);
    ghost var l, g := fs.log, fs.fat[c := EndMark(fs.vol.fsType)];
    res := PutFat(fs, c, 0x0FFF_FFFF);
    if res == Ok {
      Assoc<Snapshot>(l, [Snapshot(g, fs.live)], UnchainLog(g, ncl, fs.live));
      res := RemoveChain(fs, ncl);
    }
  }

  lemma ChainOfFile(fp: Fil)
    requires fp.Core()
    ensures forall i :: 0 <= i < |fp.chain| ==> 2 <= fp.chain[i] < |fp.fs.fat|
    ensures fp.chain != [] ==> Chain(fp.fs.fat, fp.chain)
  {
    assert LookFile(0) && LookMap(0);
    if fp.chain != [] {
      assert fp.chain in WithOwn(fp.others, fp.chain);
    }
  }

  // What a truncation that keeps k clusters did to the FAT, the log and the chain.
  ghost predicate CutDone(f: seq<nat>, chain: seq<nat>, log: seq<Snapshot>, k: nat, e: nat, live: set<nat>,
                          g: seq<nat>, chain': seq<nat>, log': seq<Snapshot>)
  {
    && k <= |chain| && chain' == chain[..k] && g == CutTo(f, chain, k, e)
    && log' == log + CutLog(f, chain, k, e, live)
  }

  // The FAT and the file's own view of its clusters, cut at the pointer.
  method CutChain(fp: Fil) returns (res: FResult)
    requires fp.Core() && fp.InPlace() && fp.fptr == fp.fsize < |fp.bytes|
    requires ClustersKept(fp) <= |fp.chain|
    modifies fp.fs`wflag, fp.fs`disk, fp.fs`winsect, fp.fs.win, fp.fs`logical, fp.fs`fat, fp.fs`log
    modifies fp.fs`freeClust, fp.fs`fsiFlag, fp`sclust, fp`chain, fp`data, fp`bytes
    ensures fp.Core() == true && fp.AtPointer() == true && res == Ok && fp.bytes <= old(fp.bytes)
    ensures SameOutsideFat<seq<byte>>(fp.fs.vol, old(fp.fs.logical), fp.fs.logical)
    ensures CutDone(old(fp.fs.fat), old(fp.chain), old(fp.fs.log), ClustersKept(fp), EndMark(fp.fs.vol.fsType), fp.fs.live,
                    fp.fs.fat, fp.chain, fp.fs.log) == true
  {
    Unseal(fp);
    ghost var f, l, w, k := fp.fs.fat, fp.fs.logical, fp.fs.winsect, ClustersKept(fp);
    ghost var chain, log := fp.chain, fp.fs.log;
    SizeOfClusters(fp, k);
    res := CutFat(fp);
    Shrink(fp, f, l, w, k);
    assert CutDone(f, chain, log, k, EndMark(fp.fs.vol.fsType), fp.fs.live, fp.fs.fat, fp.chain, fp.fs.log);
  }

  // f_truncate where the file is longer than its pointer, up to the write-back of the buffer.
  method CutFile(fp: Fil) returns (res: FResult)
    requires fp.Valid() && fp.fptr < fp.fsize
    modifies fp.fs`wflag, fp.fs`disk, fp.fs`winsect, fp.fs.win, fp.fs`logical, fp.fs`fat, fp.fs`log
    modifies fp.fs`freeClust, fp.fs`fsiFlag, fp`sclust, fp`chain, fp`data, fp`bytes, fp`fsize, fp`written
    ensures fp.Valid() && res == Ok && fp.fptr == fp.fsize && fp.bytes <= old(fp.bytes) && fp.written
    ensures SameOutsideFat<seq<byte>>(fp.fs.vol, old(fp.fs.logical), fp.fs.logical)
    ensures CutDone(old(fp.fs.fat), old(fp.chain), old(fp.fs.log), ClustersKept(fp), EndMark(fp.fs.vol.fsType), fp.fs.live,
                    fp.fs.fat, fp.chain, fp.fs.log) == true
  {
    WhereIs(fp);
    WithinChain(fp, 0);
    Resize(fp, fp.fptr);
    fp.written := true;
    res := CutChain(fp);
  }

  lemma KeptThrough<S>(v: Volume, others: set<seq<nat>>, l: seq<S>, m: seq<S>, n: seq<S>)
    requires SameOutsideFat(v, l, m) && OthersKept(v, others, m, n)
    ensures OthersKept(v, others, l, n)
  {
  }

  /** Truncating is safe if some cluster is kept, or if no directory entry names the file. */
  lemma LogCut(log: seq<Snapshot>, live: set<nat>, f: seq<nat>, others: set<seq<nat>>, chain: seq<nat>, k: nat, e: nat)
    requires LogSafe(log, live, others, chain) && Forest(f, WithOwn(others, chain)) && chain !in others
    requires k <= |chain| && |f| <= e && (k > 0 || Unnamed(live, chain))
    ensures LogSafe(log + CutLog(f, chain, k, e, live), live, others, chain[..k])
  {
    assert LookLog(0);
    if chain != [] {
      assert chain in WithOwn(others, chain) && Chain(f, chain);
      TailUnnamed(live, f, chain, k);
      TruncateSafeIff(f, others, chain, k, e, live);
      KeptAnchored(live, others, chain, k);
    }
  }

  lemma TailUnnamed(live: set<nat>, f: seq<nat>, chain: seq<nat>, k: nat)
    requires NamesFirst(live, chain) && Chain(f, chain) && k <= |chain| && (k > 0 || Unnamed(live, chain))
    ensures Unnamed(live, chain[k..])
  {
    if k == 0 {
      assert chain[0..] == chain;
    } else {
      HeadNotInTail(f, chain, k);
    }
  }

  lemma KeptAnchored(live: set<nat>, others: set<seq<nat>>, chain: seq<nat>, k: nat)
    requires Anchored(live, WithOwn(others, chain)) && NamesFirst(live, chain) && k <= |chain| && (k > 0 || Unnamed(live, chain))
    ensures Anchored(live, WithOwn(others, chain[..k])) && NamesFirst(live, chain[..k])
  {
    var a := chain[..k];
    forall c | c in live ensures Covered(WithOwn(others, a), c) {
      assert Covered(WithOwn(others, chain), c);
      var s :| s in WithOwn(others, chain) && c in s;
      if s == chain {
        assert c == chain[0] == a[0] && a in WithOwn(others, a);
      } else {
        assert s in WithOwn(others, a);
      }
    }
  }

  // What Core says about the chain, for the directory entries.
  lemma TruncateSafe(fp: Fil, f: seq<nat>, chain: seq<nat>, k: nat)
    requires Forest(f, WithOwn(fp.others, chain)) && chain !in fp.others && |f| == fp.fs.vol.nFatent && fp.fs.vol.Valid()
    requires k <= |chain| && EntryNames(fp.fs.live, fp.others, chain)
    ensures AllSafe(CutLog(f, chain, k, EndMark(fp.fs.vol.fsType), fp.fs.live)) <==> k > 0
  {
    EndMarkEndsChains(fp.fs.vol);
    TruncateSafeIffKept(f, fp.others, chain, k, EndMark(fp.fs.vol.fsType), fp.fs.live);
  }

  // f_truncate past its checks, with the write-back of the buffer.
  method CutAndFlush(fp: Fil) returns (res: FResult)
    requires fp.Valid() && fp.fptr < fp.fsize
    modifies fp.fs`wflag, fp.fs`disk, fp.fs`winsect, fp.fs.win, fp.fs`logical, fp.fs`fat, fp.fs`log
    modifies fp.fs`freeClust, fp.fs`fsiFlag, fp`sclust, fp`chain, fp`data, fp`bytes, fp`dirty, fp`fsize, fp`written
    ensures fp.Valid() && res == Ok && fp.fptr == fp.fsize && fp.bytes <= old(fp.bytes) && fp.written
    ensures OthersKept<seq<byte>>(fp.fs.vol, fp.others, old(fp.fs.logical), fp.fs.logical)
    ensures CutDone(old(fp.fs.fat), old(fp.chain), old(fp.fs.log), ClustersKept(fp), EndMark(fp.fs.vol.fsType), fp.fs.live,
                    fp.fs.fat, fp.chain, fp.fs.log)
  {
    ghost var l := fp.fs.logical;
    res := CutFile(fp);
    ghost var l1 := fp.fs.logical;
    FlushBuffer(fp);
    KeptThrough<seq<byte>>(fp.fs.vol, fp.others, l, l1, fp.fs.logical);
  }

  /**
   * f_truncate on an open file: the contents end at the file pointer, the file keeps just the
   * clusters up to it, the others become free (see CutTo), and no other chain is touched. If
   * its directory entry names the file, the call can be interrupted safely if and only if the
   * pointer is not at 0.
   */
  method FTruncate(fp: Fil) returns (res: FResult)
    requires fp.Valid()
    modifies fp.fs`wflag, fp.fs`disk, fp.fs`winsect, fp.fs.win, fp.fs`logical, fp.fs`fat, fp.fs`log
    modifies fp.fs`freeClust, fp.fs`fsiFlag, fp`sclust, fp`chain, fp`data, fp`bytes, fp`dirty, fp`fsize, fp`written
    ensures fp.Valid() && res == (if fp.err != Ok then fp.err else if !fp.canWrite then Denied else Ok)
    ensures OthersKept<seq<byte>>(fp.fs.vol, fp.others, old(fp.fs.logical), fp.fs.logical)
    ensures fp.Content() == if res == Ok then old(fp.Content())[..fp.fptr] else old(fp.Content())
    ensures fp.written == (old(fp.written) || (res == Ok && fp.fptr < old(fp.fsize)))
    ensures res == Ok && fp.fptr < old(fp.fsize) ==>
      CutDone(old(fp.fs.fat), old(fp.chain), old(fp.fs.log), ClustersKept(fp), EndMark(fp.fs.vol.fsType), fp.fs.live,
              fp.fs.fat, fp.chain, fp.fs.log)
    ensures res == Ok && fp.fptr < old(fp.fsize) && EntryNames(fp.fs.live, fp.others, old(fp.chain)) ==>
      (AllSafe(fp.fs.log[|old(fp.fs.log)|..]) <==> old(fp.fptr) > 0)
    ensures res != Ok || fp.fptr == old(fp.fsize) ==>
      fp.chain == old(fp.chain) && fp.fs.fat == old(fp.fs.fat) && fp.fs.log == old(fp.fs.log)
    ensures old(Guarded(fp)) && (old(fp.fptr) > 0 || old(fp.fsize) == 0 || old(Unnamed(fp.fs.live, fp.chain))) ==> Guarded(fp)
  {
    NothingKept<seq<byte>>(fp.fs.vol, fp.others, fp.fs.logical);
    ghost var b := fp.bytes;
    PrefixOfPrefix<byte>(b, b, fp.fptr, fp.fsize);
    res := if fp.err != Ok then fp.err else if !fp.canWrite then Denied else Ok;
    if res == Ok && fp.fsize > fp.fptr {
      ghost var f, chain, log := fp.fs.fat, fp.chain, fp.fs.log;
      ForestOfFile(fp);
      // An error would be kept in err, but a well-formed chain gives none.
      res := CutAndFlush(fp);
      PrefixOfPrefix<byte>(fp.bytes, b, fp.fptr, fp.fptr);
      ghost var cut := CutLog(f, chain, ClustersKept(fp), EndMark(fp.fs.vol.fsType), fp.fs.live);
      assert fp.fs.log[|log|..] == cut;
      if EntryNames(fp.fs.live, fp.others, chain) {
        TruncateSafe(fp, f, chain, ClustersKept(fp));
      }
      if LogSafe(log, fp.fs.live, fp.others, chain) && (fp.fptr > 0 || Unnamed(fp.fs.live, chain)) {
        EndMarkEndsChains(fp.fs.vol);
        LogCut(log, fp.fs.live, f, fp.others, chain, ClustersKept(fp), EndMark(fp.fs.vol.fsType));
      }
    }
  }
}
