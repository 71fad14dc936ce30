/**
 * f_lseek without a link map: the file pointer moves by following the chain, which is
 * stretched in write mode.
 */
module FileSeek {
  import opened Types
  import opened Geometry
  import opened Allocator
  import opened FileData
  import opened FileMap
  import opened File
  import opened FileChain
  import opened FileWrite
  import opened FileRead

  // The cluster a position is in, by division.
  lemma ClusterOfPosition(v: Volume, i: nat, p: nat)
    requires 0 < v.csize && Top(v, i) < p <= Top(v, i + 1)
    ensures (p - 1) / (512 * v.csize) == i && (p - 1) - (p - 1) % (512 * v.csize) == Top(v, i)
  {
    TopFormula(v, i, 0);
    PosFormula(v.csize, i);
    PosFormula(512 * v.csize, i);
    Reassociate(i, v.csize);
    PosDiv(512 * v.csize, i, p - 1);
  }

  lemma Reassociate(i: nat, c: nat)
    ensures 512 * (i * c) == i * (512 * c)
  {
  }

  // Where the walk along the chain starts: at the current cluster when the target is not
  // before it, else at the first, which is created if the file has none.
  method StartCluster(fp: Fil, ofs: dword, ifptr: dword) returns (clst: dword, left: dword, ghost i: nat)
    requires fp.Core() && 0 < ofs && fp.fptr == 0
    requires ifptr > 0 ==> fp.pos < |fp.chain| && fp.clust == fp.chain[fp.pos]
                           && Top(fp.fs.vol, fp.pos) < ifptr <= Top(fp.fs.vol, fp.pos + 1)
    modifies fp.fs`wflag, fp.fs`disk, fp.fs`winsect, fp.fs.win, fp.fs`logical, fp.fs`fat, fp.fs`log
    modifies fp.fs`lastClust, fp.fs`freeClust, fp.fs`fsiFlag, fp`sclust, fp`chain, fp`data, fp`bytes, fp`clust, fp`fptr
    ensures fp.Core() && OthersKept<seq<byte>>(fp.fs.vol, fp.others, old(fp.fs.logical), fp.fs.logical)
    ensures old(fp.chain) <= fp.chain && old(fp.bytes) <= fp.bytes
    ensures |fp.chain| > |old(fp.chain)| ==> |fp.chain| == 1 && clst != 0
    ensures clst == 0 ==> fp.fptr == 0 && fp.chain == [] && Busy(fp.fs.fat, 2, fp.fs.vol.nFatent)
    ensures clst != 0 ==> i < |fp.chain| && clst == fp.clust == fp.chain[i]
                          && fp.fptr == Top(fp.fs.vol, i) && 0 < left && fp.fptr + left == ofs
    ensures old(Guarded(fp)) ==> Guarded(fp)
  {
    Unseal(fp);
    FirstCluster(fp);
    var bcs := fp.fs.vol.csize * 512;
    left, i := ofs, 0;
    NothingKept<seq<byte>>(fp.fs.vol, fp.others, fp.fs.logical);
    if ifptr > 0 && (ofs - 1) / bcs >= (ifptr - 1) / bcs {
      i := fp.pos;
      ClusterOfPosition(fp.fs.vol, i, ifptr);
      NotBefore(fp.fs.vol, i, ofs);
      LinkOfFile(fp, i);
      fp.fptr := (ifptr - 1) - (ifptr - 1) % bcs;
      left := ofs - fp.fptr;
      clst := fp.clust;
    } else {
      clst := fp.sclust;
      if clst == 0 {
        clst := NextOrNew(fp, 0, 0);
      }
      fp.clust := clst;
    }
  }

  // A position whose cluster number is at least i lies behind the top of cluster i.
  lemma NotBefore(v: Volume, i: nat, p: nat)
    requires 0 < v.csize && 0 < p && (p - 1) / (512 * v.csize) >= i
    ensures Top(v, i) < p
  {
    TopFormula(v, i, 0);
    PosFormula(v.csize, i);
    PosFormula(512 * v.csize, i);
    Reassociate(i, v.csize);
    var b, q := 512 * v.csize, (p - 1) / (512 * v.csize);
    Quotient(b, p - 1);
    if i < q {
      PosMono(b, i, q);
    }
  }

  lemma Quotient(b: nat, x: nat)
    requires 0 < b
    ensures Pos(b, x / b) <= x
  {
    PosFormula(b, x / b);
    assert x == x / b * b + x % b;
  }

  // One step along the chain in f_lseek: stretch it in write mode, else follow it.
  method StepChain(fp: Fil, clst: dword, ghost i: nat) returns (ncl: dword)
    requires fp.Core() && i < |fp.chain| && clst == fp.chain[i]
    requires fp.canWrite || i + 1 < |fp.chain|
    modifies fp.fs`wflag, fp.fs`disk, fp.fs`winsect, fp.fs.win, fp.fs`logical, fp.fs`fat, fp.fs`log
    modifies fp.fs`lastClust, fp.fs`freeClust, fp.fs`fsiFlag, fp`sclust, fp`chain, fp`data, fp`bytes
    ensures fp.Core() && OthersKept<seq<byte>>(fp.fs.vol, fp.others, old(fp.fs.logical), fp.fs.logical)
    ensures old(fp.chain) <= fp.chain && old(fp.bytes) <= fp.bytes
    ensures |fp.chain| > |old(fp.chain)| ==> ncl != 0 && |fp.chain| == i + 2
    ensures ncl == 0 ==> fp.canWrite && i + 1 == |fp.chain| && Busy(fp.fs.fat, 2, fp.fs.vol.nFatent)
    ensures ncl != 0 ==> i + 1 < |fp.chain| && ncl == fp.chain[i + 1]
    ensures old(Guarded(fp)) ==> Guarded(fp)
  {
    LinkOfFile(fp, i);
    if fp.canWrite {
      ncl := NextOrNew(fp, clst, i);
    } else {
      ncl := FollowLink(fp, clst, i);
      NothingKept<seq<byte>>(fp.fs.vol, fp.others, fp.fs.logical);
    }
  }

  // One round of f_lseek's loop: the pointer moves to the top of the next cluster, if there is one.
  method WalkOn(fp: Fil, c: dword, ghost ofs: nat, ghost n: nat) returns (ncl: dword)
    requires fp.Core() && n < |fp.chain| && c == fp.clust == fp.chain[n] && fp.fptr == Top(fp.fs.vol, n)
    requires 512 * fp.fs.vol.csize < ofs && fp.fptr + ofs <= 0xFFFF_FFFF
    requires fp.canWrite || fp.fptr + ofs <= |fp.bytes|
    modifies fp.fs`wflag, fp.fs`disk, fp.fs`winsect, fp.fs.win, fp.fs`logical, fp.fs`fat, fp.fs`log
    modifies fp.fs`lastClust, fp.fs`freeClust, fp.fs`fsiFlag, fp`sclust, fp`chain, fp`data, fp`bytes, fp`clust, fp`fptr
    ensures fp.Core() && OthersKept<seq<byte>>(fp.fs.vol, fp.others, old(fp.fs.logical), fp.fs.logical)
    ensures old(fp.chain) <= fp.chain && old(fp.bytes) <= fp.bytes
    ensures |fp.chain| > |old(fp.chain)| ==> ncl != 0 && |fp.chain| == n + 2
    ensures ncl == 0 ==> fp.clust == c && fp.fptr == old(fp.fptr) && fp.canWrite && Busy(fp.fs.fat, 2, fp.fs.vol.nFatent)
    ensures ncl == 0 ==> n + 1 == |fp.chain| && fp.fptr + 512 * fp.fs.vol.csize == Top(fp.fs.vol, n + 1)
    ensures ncl != 0 ==> n + 1 < |fp.chain| && ncl == fp.clust == fp.chain[n + 1]
    ensures ncl != 0 ==> fp.fptr == Top(fp.fs.vol, n + 1) == old(fp.fptr) + 512 * fp.fs.vol.csize
    ensures old(Guarded(fp)) ==> Guarded(fp)
  {
    TopFormula(fp.fs.vol, n, 0);
    TopFormula(fp.fs.vol, n + 1, 0);
    if !fp.canWrite {
      WithinChain(fp, n + 1);
    }
    ncl := StepChain(fp, c, n);
    if ncl != 0 {
      LinkOfFile(fp, n + 1);
      fp.clust := ncl;
      fp.fptr := fp.fptr + fp.fs.vol.csize * 512;
    }
  }

  // The cluster following loop of f_lseek, from the top of cluster i on to the cluster that
  // the target is in, or to the last one when the disk is full.
  method WalkChain(fp: Fil, clst: dword, left: dword, ghost i: nat) returns (c: dword, ofs: dword, ghost n: nat)
    requires fp.Core() && i < |fp.chain| && clst == fp.clust == fp.chain[i]
    requires fp.fptr == Top(fp.fs.vol, i) && 0 < left && fp.fptr + left <= 0xFFFF_FFFF
    requires fp.canWrite || fp.fptr + left <= |fp.bytes|
    modifies fp.fs`wflag, fp.fs`disk, fp.fs`winsect, fp.fs.win, fp.fs`logical, fp.fs`fat, fp.fs`log
    modifies fp.fs`lastClust, fp.fs`freeClust, fp.fs`fsiFlag, fp`sclust, fp`chain, fp`data, fp`bytes, fp`clust, fp`fptr
    ensures fp.Core() && OthersKept<seq<byte>>(fp.fs.vol, fp.others, old(fp.fs.logical), fp.fs.logical)
    ensures old(fp.chain) <= fp.chain
    ensures old(fp.bytes) <= fp.bytes && n < |fp.chain| && c == fp.clust == fp.chain[n]
    ensures |fp.chain| > |old(fp.chain)| ==> |fp.chain| == n + 1
    ensures fp.fptr == Top(fp.fs.vol, n) && 0 < ofs <= 512 * fp.fs.vol.csize
    ensures fp.fptr + ofs <= old(fp.fptr) + left
    ensures fp.fptr + ofs < old(fp.fptr) + left ==>
      fp.canWrite && Busy(fp.fs.fat, 2, fp.fs.vol.nFatent) && fp.fptr + ofs == Top(fp.fs.vol, |fp.chain|)
    ensures old(Guarded(fp)) ==> Guarded(fp)
  {
    Unseal(fp);
    var bcs := fp.fs.vol.csize * 512;
    c, ofs, n := clst, left, i;
    NothingKept<seq<byte>>(fp.fs.vol, fp.others, fp.fs.logical);
    while ofs > bcs
      invariant fp.Core() && OthersKept<seq<byte>>(fp.fs.vol, fp.others, old(fp.fs.logical), fp.fs.logical)
      invariant old(fp.chain) <= fp.chain && (|fp.chain| > |old(fp.chain)| ==> |fp.chain| == n + 1)
      invariant old(fp.bytes) <= fp.bytes && n < |fp.chain| && c == fp.clust == fp.chain[n]
      invariant fp.fptr == Top(fp.fs.vol, n) && 0 < ofs && fp.fptr + ofs == old(fp.fptr) + left
      invariant old(Guarded(fp)) ==> Guarded(fp)
      decreases ofs
    {
      var ncl := WalkOn(fp, c, ofs, n);
      if ncl == 0 {
        ofs := bcs;
        break;
      }
      c, n := ncl, n + 1;
      ofs := ofs - bcs;
    }
  }

  // The end of the walk: the pointer goes ofs bytes into cluster i, and off a sector boundary
  // the buffer is filled with its sector.
  method Land(fp: Fil, ofs: dword, ghost i: nat)
    requires fp.Core() && i < |fp.chain| && fp.clust == fp.chain[i]
    requires fp.fptr == Top(fp.fs.vol, i) && 0 < ofs <= 512 * fp.fs.vol.csize && fp.fptr + ofs <= 0xFFFF_FFFF
    modifies fp.fs`disk, fp.fs`logical, fp`dirty, fp`dsect, fp.buf, fp`fptr, fp`pos, fp`sec
    ensures fp.Core() && fp.AtPointer() && fp.fptr == old(fp.fptr) + ofs
    ensures OthersKept<seq<byte>>(fp.fs.vol, fp.others, old(fp.fs.logical), fp.fs.logical)
  {
    LandPlace(fp.fs.vol, i, ofs);
    EndOfCluster(fp, i);
    var j := ofs / 512;
    NothingKept<seq<byte>>(fp.fs.vol, fp.others, fp.fs.logical);
    fp.fptr := fp.fptr + ofs;
    fp.pos, fp.sec := i, j;
    if ofs % 512 != 0 {
      var nsect := CurrentSector(fp, j, i);
      SwitchBuffer(fp, nsect, i, j);
    }
    Stand(fp);
  }

  // Where ofs bytes into cluster i are.
  lemma LandPlace(v: Volume, i: nat, ofs: nat)
    requires 0 < ofs <= 512 * v.csize
    ensures (Top(v, i) + ofs) % 512 == ofs % 512 && Top(v, i) + ofs <= Top(v, i + 1)
    ensures ofs % 512 != 0 ==>
      && ofs / 512 < v.csize
      && Top(v, i) + 512 * (ofs / 512) < Top(v, i) + ofs < Top(v, i) + 512 * (ofs / 512) + 512
  {
    TopFormula(v, i, 0);
  }

  lemma EndOfCluster(fp: Fil, i: nat)
    requires fp.Core() && i < |fp.chain|
    ensures Top(fp.fs.vol, i + 1) == Top(fp.fs.vol, i) + 512 * fp.fs.vol.csize <= |fp.bytes|
  {
    SizeOfFile(fp);
    TopFormula(fp.fs.vol, i, 0);
    TopFormula(fp.fs.vol, i + 1, 0);
    TopFormula(fp.fs.vol, |fp.chain|, 0);
    if i + 1 < |fp.chain| {
      PosMono(fp.fs.vol.csize, i + 1, |fp.chain|);
    }
  }

  // f_lseek past its checks, up to the update of the file size.
  method MovePointer(fp: Fil, ofs: dword)
    requires fp.Valid() && (fp.canWrite || ofs <= fp.fsize)
    modifies fp.fs`wflag, fp.fs`disk, fp.fs`winsect, fp.fs.win, fp.fs`logical, fp.fs`fat, fp.fs`log
    modifies fp.fs`lastClust, fp.fs`freeClust, fp.fs`fsiFlag, fp`sclust, fp`chain, fp`data, fp`bytes, fp`clust, fp`dirty
    modifies fp`dsect, fp.buf, fp`fptr, fp`pos, fp`sec
    ensures fp.Core() && fp.AtPointer() && old(fp.bytes) <= fp.bytes && fp.fptr <= ofs
    ensures OthersKept<seq<byte>>(fp.fs.vol, fp.others, old(fp.fs.logical), fp.fs.logical)
    ensures old(fp.chain) <= fp.chain
    ensures |fp.chain| > |old(fp.chain)| ==> Top(fp.fs.vol, |fp.chain| - 1) < fp.fptr
    ensures fp.fptr < ofs ==> fp.canWrite && Busy(fp.fs.fat, 2, fp.fs.vol.nFatent) && fp.fptr == |fp.bytes|
    ensures old(Guarded(fp)) ==> Guarded(fp)
  {
    WhereIs(fp);
    var ifptr := fp.fptr;
    fp.fptr := 0;
    PointerAtTop(fp);
    NothingKept<seq<byte>>(fp.fs.vol, fp.others, fp.fs.logical);
    if ofs != 0 {
      var clst, left;
      ghost var i;
      clst, left, i := StartCluster(fp, ofs, ifptr);
      if clst != 0 {
        clst, left, i := WalkChain(fp, clst, left, i);
        SizeOfFile(fp);
        Land(fp, left, i);
      } else {
        SizeOfFile(fp);
        PointerAtTop(fp);
      }
    }
  }

  // f_lseek past its checks.
  method SeekTo(fp: Fil, target: dword)
    requires fp.Valid() && (fp.canWrite || target <= fp.fsize)
    modifies fp.fs`wflag, fp.fs`disk, fp.fs`winsect, fp.fs.win, fp.fs`logical, fp.fs`fat, fp.fs`log
    modifies fp.fs`lastClust, fp.fs`freeClust, fp.fs`fsiFlag, fp`sclust, fp`chain, fp`data, fp`bytes, fp`clust, fp`dirty
    modifies fp`dsect, fp.buf, fp`fptr, fp`pos, fp`sec, fp`fsize, fp`written
    ensures fp.Valid() && fp.fptr <= target
    ensures OthersKept<seq<byte>>(fp.fs.vol, fp.others, old(fp.fs.logical), fp.fs.logical)
    ensures old(fp.chain) <= fp.chain
    ensures |fp.chain| > |old(fp.chain)| ==> Top(fp.fs.vol, |fp.chain| - 1) < fp.fptr
    ensures fp.fptr < target ==> Busy(fp.fs.fat, 2, fp.fs.vol.nFatent) && fp.fptr == |fp.bytes|
    ensures fp.fsize == (if fp.fptr > old(fp.fsize) then fp.fptr else old(fp.fsize))
    ensures fp.Content()[..old(fp.fsize)] == old(fp.Content())
    ensures fp.written == (old(fp.written) || fp.fptr > old(fp.fsize))
    ensures old(Guarded(fp)) ==> Guarded(fp)
  {
    ghost var b := fp.bytes;
    MovePointer(fp, target);
    if fp.fptr > fp.fsize {
      Resize(fp, fp.fptr);
      fp.written := true;
    }
    PrefixOfPrefix<byte>(b, fp.bytes, old(fp.fsize), fp.fsize);
  }

  /**
   * f_lseek in normal mode. Read-only, the target is clipped at the end of the file. In write
   * mode the pointer stops short of the target only when no cluster is free, and then at the
   * end of the last cluster. The contents up to the old size stay; the size only grows.
   */
  method FSeek(fp: Fil, ofs: dword) returns (res: FResult)
    requires fp.Valid()
    modifies fp.fs`wflag, fp.fs`disk, fp.fs`winsect, fp.fs.win, fp.fs`logical, fp.fs`fat, fp.fs`log
    modifies fp.fs`lastClust, fp.fs`freeClust, fp.fs`fsiFlag, fp`sclust, fp`chain, fp`data, fp`bytes, fp`clust, fp`dirty
    modifies fp`dsect, fp.buf, fp`fptr, fp`pos, fp`sec, fp`fsize, fp`written
    ensures fp.Valid() && res == fp.err
    ensures OthersKept<seq<byte>>(fp.fs.vol, fp.others, old(fp.fs.logical), fp.fs.logical)
    ensures old(fp.chain) <= fp.chain
    ensures |fp.chain| > |old(fp.chain)| ==> Top(fp.fs.vol, |fp.chain| - 1) < fp.fptr
    ensures res != Ok ==> fp.fptr == old(fp.fptr) && fp.Content() == old(fp.Content())
    ensures res == Ok ==> var target := if ofs > old(fp.fsize) && !fp.canWrite then old(fp.fsize) else ofs;
      && fp.fptr <= target
      && (fp.fptr < target ==> Busy(fp.fs.fat, 2, fp.fs.vol.nFatent) && fp.fptr == |fp.bytes|)
      && fp.fsize == (if fp.fptr > old(fp.fsize) then fp.fptr else old(fp.fsize))
      && fp.Content()[..old(fp.fsize)] == old(fp.Content())
      && fp.written == (old(fp.written) || fp.fptr > old(fp.fsize))
    ensures old(Guarded(fp)) ==> Guarded(fp)
  {
    NothingKept<seq<byte>>(fp.fs.vol, fp.others, fp.fs.logical);
    if fp.err != Ok {
      return fp.err;
    }
    var target := ofs;
    if target > fp.fsize && !fp.canWrite {
      target := fp.fsize;
    }
    SeekTo(fp, target);
    res := Ok;
  }

  lemma PrefixOfPrefix<T>(a: seq<T>, b: seq<T>, n: nat, m: nat)
    requires a <= b && n <= |a| && n <= m <= |b|
    ensures b[..m][..n] == a[..n]
  {
  }
}
