/**
 * Runs of reads, writes, seeks and truncations on one open file, against a file that is
 * nothing but a byte sequence and a position.
 */
module FileRun {
  import opened Basics
  import opened Types
  import opened Geometry
  import opened Window
  import opened Allocator
  import opened ClusterChains
  import opened CrashSafety
  import opened FileData
  import opened FileMap
  import opened File
  import opened FileChain
  import opened FileWrite
  import opened FileRead
  import opened FileSeek
  import opened FileTruncate

  datatype Op = Read(btr: nat) | Write(buff: seq<byte>) | Seek(ofs: dword) | Truncate

  // A file to its caller: its contents, the file pointer and the clusters it has.
  datatype View = View(content: seq<byte>, p: nat, chain: seq<nat>)

  // What a call gave back: the result code, the bytes read, the number of bytes written.
  datatype Reply = Reply(res: FResult, data: seq<byte>, bw: nat)

  // What stays as it is: the volume, the access mode and the chains of everything else.
  datatype Frame = Frame(vol: Volume, canRead: bool, canWrite: bool, others: set<seq<nat>>)

  // No cluster is free: each belongs to the file or to something else.
  ghost predicate Full(e: Frame, chain: seq<nat>) {
    forall c :: 2 <= c < e.vol.nFatent ==> c in chain || Covered(e.others, c)
  }

  // k clusters just hold p bytes.
  ghost predicate Hold(v: Volume, k: nat, p: nat) {
    if p == 0 then k == 0 else k > 0 && Top(v, k - 1) < p <= Top(v, k)
  }

  // The file keeps its clusters, and takes no more than its pointer needs.
  ghost predicate Takes(e: Frame, v: View, w: View) {
    v.chain <= w.chain && (|w.chain| > |v.chain| ==> Top(e.vol, |w.chain| - 1) < w.p)
  }

  // One call on the byte sequence. Reading keeps the clusters, writing and seeking only take
  // clusters that are needed, and truncating gives back those that are not needed any more.
  ghost predicate Step(e: Frame, v: View, op: Op, r: Reply, w: View)
    requires v.p <= |v.content|
  {
    match op
    case Read(btr) =>
      && r.res == (if e.canRead then Ok else Denied)
      && r.data == (if e.canRead then v.content[v.p..Min(v.p + btr, |v.content|)] else [])
      && w == View(v.content, v.p + |r.data|, v.chain)
    case Write(buff) =>
      && r.res == (if e.canWrite then Ok else Denied)
      && r.bw <= (if e.canWrite then |buff| else 0)
      && (e.canWrite && r.bw < |buff| ==> Full(e, w.chain) || (r.bw == 0 && v.p + |buff| > 0xFFFF_FFFF))
      && w.content == Splice<byte>(v.content, v.p, buff[..r.bw]) && w.p == v.p + r.bw && Takes(e, v, w)
    case Seek(ofs) =>
      var target := if e.canWrite then ofs else Min(ofs, |v.content|);
      && r.res == Ok && w.p <= target
      && (w.p < target ==> Full(e, w.chain) && |v.content| <= w.p == Top(e.vol, |w.chain|))
      && v.content <= w.content && |w.content| == (if w.p > |v.content| then w.p else |v.content|)
      && Takes(e, v, w)
    case Truncate =>
      && r.res == (if e.canWrite then Ok else Denied)
      && w.content == (if e.canWrite then v.content[..v.p] else v.content) && w.p == v.p && w.chain <= v.chain
      && if e.canWrite && v.p < |v.content| then Hold(e.vol, |w.chain|, v.p) else w.chain == v.chain
  }

  // The pointer is inside the file, the file in its clusters, and these are its own: no two are
  // the same and none belongs to anything else. So a cluster that a step takes was free before.
  ghost predicate WellFormed(e: Frame, v: View) {
    && v.p <= |v.content| <= Top(e.vol, |v.chain|)
    && (forall i :: 0 <= i < |v.chain| ==> 2 <= v.chain[i] < e.vol.nFatent && !Covered(e.others, v.chain[i]))
    && forall i, j :: 0 <= i < j < |v.chain| ==> v.chain[i] != v.chain[j]
  }

  // The free entries of the FAT are the clusters that nobody has.
  ghost predicate FreeRight(e: Frame, f: seq<nat>, chain: seq<nat>) {
    && |f| == e.vol.nFatent
    && forall c :: 2 <= c < |f| ==> (f[c] == 0 <==> c !in chain && !Covered(e.others, c))
  }

  // A run: every call is a step from one view to the next.
  ghost predicate Run(e: Frame, views: seq<View>, ops: seq<Op>, replies: seq<Reply>) {
    && |views| == |ops| + 1 && |replies| == |ops|
    && (forall i :: 0 <= i < |views| ==> WellFormed(e, views[i]))
    && (forall i :: 0 <= i < |ops| ==> Step(e, views[i], ops[i], replies[i], views[i + 1]))
  }

  // Anything but truncating at 0 a file with contents that a directory entry names.
  ghost predicate Harmless(op: Op, v: View, live: set<nat>) {
    op.Truncate? ==> v.p > 0 || v.content == [] || Unnamed(live, v.chain)
  }

  // The first n calls are of this kind.
  ghost predicate AllHarmless(ops: seq<Op>, views: seq<View>, n: nat, live: set<nat>) {
    n <= |ops| && n <= |views| && forall i :: 0 <= i < n ==> Harmless(ops[i], views[i], live)
  }

  ghost function ViewOf(fp: Fil): (v: View)
    requires fp.fsize <= |fp.bytes|
    reads fp
  {
    View(fp.Content(), fp.fptr, fp.chain)
  }

  ghost function FrameOf(fp: Fil): Frame
    reads fp, fp.fs
  {
    Frame(fp.fs.vol, fp.canRead, fp.canWrite, fp.others)
  }

  // What Valid says to the caller.
  lemma ValidView(fp: Fil)
    requires fp.Valid()
    ensures WellFormed(FrameOf(fp), ViewOf(fp)) && FreeRight(FrameOf(fp), fp.fs.fat, fp.chain)
  {
    ForestOfFile(fp);
    SizeOfFile(fp);
    OwnClusters(fp.fs.fat, fp.others, fp.chain);
  }

  lemma OwnClusters(f: seq<nat>, others: set<seq<nat>>, chain: seq<nat>)
    requires Forest(f, WithOwn(others, chain)) && chain !in others
    ensures forall i :: 0 <= i < |chain| ==> 2 <= chain[i] < |f| && !Covered(others, chain[i])
    ensures forall i, j :: 0 <= i < j < |chain| ==> chain[i] != chain[j]
    ensures forall c :: 2 <= c < |f| ==> (f[c] == 0 <==> c !in chain && !Covered(others, c))
  {
    var cs := WithOwn(others, chain);
    forall i | 0 <= i < |chain| ensures 2 <= chain[i] < |f| && !Covered(others, chain[i]) {
      assert chain in cs && Chain(f, chain) && chain[i] in chain;
      assert forall s :: s in others ==> Apart(chain, s);
    }
    forall i, j | 0 <= i < j < |chain| ensures chain[i] != chain[j] {
      assert chain in cs;
      ChainDistinct(f, chain, i, j);
    }
    forall c | 2 <= c < |f| ensures f[c] == 0 <==> c !in chain && !Covered(others, c) {
      UsedIffCovered(f, cs, c);
      CoveredWithOwn(others, chain, c);
    }
  }

  lemma CoveredWithOwn(others: set<seq<nat>>, chain: seq<nat>, c: nat)
    ensures Covered(WithOwn(others, chain), c) <==> c in chain || Covered(others, c)
  {
    if c in chain {
      assert chain in WithOwn(others, chain);
    }
    if s :| s in others && c in s {
      assert s in WithOwn(others, chain);
    }
  }

  lemma BusyIsFull(fp: Fil)
    requires fp.Valid()
    ensures Busy(fp.fs.fat, 2, fp.fs.vol.nFatent) ==> Full(FrameOf(fp), fp.chain)
  {
    ValidView(fp);
  }

  method Call(fp: Fil, op: Op) returns (r: Reply)
    requires fp.Valid() && fp.err == Ok && (op.Write? ==> |op.buff| < 0x1_0000_0000)
    modifies fp.fs`wflag, fp.fs`disk, fp.fs`winsect, fp.fs.win, fp.fs`logical, fp.fs`fat, fp.fs`log
    modifies fp.fs`lastClust, fp.fs`freeClust, fp.fs`fsiFlag, fp`sclust, fp`chain, fp`data, fp`bytes, fp`clust, fp`dirty
    modifies fp`dsect, fp.buf, fp`fptr, fp`pos, fp`sec, fp`fsize, fp`written
    ensures fp.Valid() && OthersKept<seq<byte>>(fp.fs.vol, fp.others, old(fp.fs.logical), fp.fs.logical)
    ensures old(fp.fptr) <= |old(fp.Content())| && Step(FrameOf(fp), old(ViewOf(fp)), op, r, ViewOf(fp))
    ensures WellFormed(FrameOf(fp), ViewOf(fp)) && FreeRight(FrameOf(fp), fp.fs.fat, fp.chain)
    ensures old(Guarded(fp)) && Harmless(op, old(ViewOf(fp)), fp.fs.live) ==> Guarded(fp)
  {
    match op {
      case Read(btr) =>
        var res, data := FRead(fp, btr);
        r := Reply(res, data, 0);
      case Write(buff) =>
        var res, bw := FWrite(fp, buff);
        r := Reply(res, [], bw);
      case Seek(ofs) =>
        r := CallSeek(fp, ofs);
      case Truncate =>
        r := CallTruncate(fp);
    }
    BusyIsFull(fp);
    ValidView(fp);
  }

  method CallSeek(fp: Fil, ofs: dword) returns (r: Reply)
    requires fp.Valid() && fp.err == Ok
    modifies fp.fs`wflag, fp.fs`disk, fp.fs`winsect, fp.fs.win, fp.fs`logical, fp.fs`fat, fp.fs`log
    modifies fp.fs`lastClust, fp.fs`freeClust, fp.fs`fsiFlag, fp`sclust, fp`chain, fp`data, fp`bytes, fp`clust, fp`dirty
    modifies fp`dsect, fp.buf, fp`fptr, fp`pos, fp`sec, fp`fsize, fp`written
    ensures fp.Valid() && OthersKept<seq<byte>>(fp.fs.vol, fp.others, old(fp.fs.logical), fp.fs.logical)
    ensures old(fp.fptr) <= |old(fp.Content())| && Step(FrameOf(fp), old(ViewOf(fp)), Seek(ofs), r, ViewOf(fp))
    ensures old(Guarded(fp)) ==> Guarded(fp)
  {
    var res := FSeek(fp, ofs);
    r := Reply(res, [], 0);
    BusyIsFull(fp);
    SizeOfFile(fp);
  }

  method CallTruncate(fp: Fil) returns (r: Reply)
    requires fp.Valid() && fp.err == Ok
    modifies fp.fs`wflag, fp.fs`disk, fp.fs`winsect, fp.fs.win, fp.fs`logical, fp.fs`fat, fp.fs`log
    modifies fp.fs`freeClust, fp.fs`fsiFlag, fp`sclust, fp`chain, fp`data, fp`bytes, fp`dirty, fp`fsize, fp`written
    ensures fp.Valid() && OthersKept<seq<byte>>(fp.fs.vol, fp.others, old(fp.fs.logical), fp.fs.logical)
    ensures old(fp.fptr) <= |old(fp.Content())| && Step(FrameOf(fp), old(ViewOf(fp)), Truncate, r, ViewOf(fp))
    ensures old(Guarded(fp)) && Harmless(Truncate, old(ViewOf(fp)), fp.fs.live) ==> Guarded(fp)
  {
    WhereIs(fp);
    var res := FTruncate(fp);
    r := Reply(res, [], 0);
  }

  /**
   * Whatever is called on an open file, in any order, it behaves like a byte sequence in clusters
   * of its own; the data sectors of all other chains stay as they are; and at the end the free
   * entries of the FAT are those of the clusters that neither the file nor anything else has.
   * If no call truncates at 0 a file that its directory entry names, every state of the FAT on
   * the way is safe.
   */
  method CallAll(fp: Fil, ops: seq<Op>) returns (replies: seq<Reply>, ghost views: seq<View>)
    requires fp.Valid() && fp.err == Ok
    requires forall i :: 0 <= i < |ops| && ops[i].Write? ==> |ops[i].buff| < 0x1_0000_0000
    modifies fp.fs`wflag, fp.fs`disk, fp.fs`winsect, fp.fs.win, fp.fs`logical, fp.fs`fat, fp.fs`log
    modifies fp.fs`lastClust, fp.fs`freeClust, fp.fs`fsiFlag, fp`sclust, fp`chain, fp`data, fp`bytes, fp`clust, fp`dirty
    modifies fp`dsect, fp.buf, fp`fptr, fp`pos, fp`sec, fp`fsize, fp`written
    ensures fp.Valid() && OthersKept<seq<byte>>(fp.fs.vol, fp.others, old(fp.fs.logical), fp.fs.logical)
    ensures Run(FrameOf(fp), views, ops, replies)
    ensures views[0] == old(ViewOf(fp)) && views[|ops|] == ViewOf(fp)
    ensures FreeRight(FrameOf(fp), old(fp.fs.fat), views[0].chain) && FreeRight(FrameOf(fp), fp.fs.fat, views[|ops|].chain)
    ensures old(Guarded(fp)) && AllHarmless(ops, views, |ops|, fp.fs.live) == true ==> Guarded(fp) && AllSafe(fp.fs.log)
  {
    ValidView(fp);
    replies, views := [], [ViewOf(fp)];
    NothingKept<seq<byte>>(fp.fs.vol, fp.others, fp.fs.logical);
    while |replies| < |ops|
      invariant fp.Valid() && |replies| <= |ops|
      invariant OthersKept<seq<byte>>(fp.fs.vol, fp.others, old(fp.fs.logical), fp.fs.logical)
      invariant Run(FrameOf(fp), views, ops[..|replies|], replies) == true
      invariant views[0] == old(ViewOf(fp)) && views[|replies|] == ViewOf(fp)
      invariant old(Guarded(fp)) && AllHarmless(ops, views, |replies|, fp.fs.live) == true ==> Guarded(fp)
      decreases |ops| - |replies|
    {
      replies, views := CallNext(fp, ops, replies, views);
    }
    ValidView(fp);
    assert ops[..|ops|] == ops;
    assert LookLog(0);
  }

  // One round: the next call joins the run.
  method CallNext(fp: Fil, ops: seq<Op>, replies: seq<Reply>, ghost views: seq<View>)
    returns (replies': seq<Reply>, ghost views': seq<View>)
    requires fp.Valid() && fp.err == Ok && |replies| < |ops| && (ops[|replies|].Write? ==> |ops[|replies|].buff| < 0x1_0000_0000)
    requires Run(FrameOf(fp), views, ops[..|replies|], replies) && views[|replies|] == ViewOf(fp)
    modifies fp.fs`wflag, fp.fs`disk, fp.fs`winsect, fp.fs.win, fp.fs`logical, fp.fs`fat, fp.fs`log
    modifies fp.fs`lastClust, fp.fs`freeClust, fp.fs`fsiFlag, fp`sclust, fp`chain, fp`data, fp`bytes, fp`clust, fp`dirty
    modifies fp`dsect, fp.buf, fp`fptr, fp`pos, fp`sec, fp`fsize, fp`written
    ensures fp.Valid() && OthersKept<seq<byte>>(fp.fs.vol, fp.others, old(fp.fs.logical), fp.fs.logical)
    ensures |replies'| == |replies| + 1 && |views'| == |replies| + 2 && views'[0] == views[0]
    ensures Run(FrameOf(fp), views', ops[..|replies'|], replies') == true && views'[|replies'|] == ViewOf(fp)
    ensures AllHarmless(ops, views', |replies'|, fp.fs.live) == true ==>
      AllHarmless(ops, views, |replies|, fp.fs.live) == true && (old(Guarded(fp)) ==> Guarded(fp))
  {
    var k := |replies|;
    var r := Call(fp, ops[k]);
    RunOn(FrameOf(fp), views, ops, k, replies, r, ViewOf(fp));
    FirstHarmless(ops, views, k, ViewOf(fp), fp.fs.live);
    replies', views' := replies + [r], views + [ViewOf(fp)];
  }

  lemma FirstHarmless(ops: seq<Op>, views: seq<View>, k: nat, w: View, live: set<nat>)
    requires k < |ops| && k < |views|
    ensures AllHarmless(ops, views + [w], k + 1, live) ==> AllHarmless(ops, views, k, live) && Harmless(ops[k], views[k], live)
  {
    assert forall i :: 0 <= i <= k ==> (views + [w])[i] == views[i];
  }

  lemma RunOn(e: Frame, views: seq<View>, ops: seq<Op>, k: nat, replies: seq<Reply>, r: Reply, w: View)
    requires k < |ops| && Run(e, views, ops[..k], replies) && WellFormed(e, w)
    requires WellFormed(e, views[k]) && Step(e, views[k], ops[k], r, w)
    ensures Run(e, views + [w], ops[..k + 1], replies + [r])
  {
    var os, vs, rs := ops[..k + 1], views + [w], replies + [r];
    forall i | 0 <= i < |os| ensures Step(e, vs[i], os[i], rs[i], vs[i + 1]) {
      if i < k {
        assert os[i] == ops[..k][i] && vs[i] == views[i] && vs[i + 1] == views[i + 1] && rs[i] == replies[i];
      }
    }
  }

  /** Writing and seeking take clusters that were free: f is the FAT before the step. */
  lemma TakesFree(e: Frame, v: View, op: Op, r: Reply, w: View, f: seq<nat>, i: nat)
    requires WellFormed(e, v) && WellFormed(e, w) && Step(e, v, op, r, w) && FreeRight(e, f, v.chain)
    requires |v.chain| <= i < |w.chain|
    ensures w.chain[i] < |f| && f[w.chain[i]] == 0 && (op.Write? || op.Seek?)
  {
    forall j | 0 <= j < |v.chain| ensures v.chain[j] != w.chain[i] {
      assert w.chain[j] == v.chain[j];
    }
  }

  /**
   * What is written is read back: a complete write, a seek to where it began and a read of
   * the same length give the same bytes.
   */
  lemma WriteSeekRead(e: Frame, v: View, buff: seq<byte>, r: Reply, w: View, x: View, s: Reply, y: View, t: Reply)
    requires e.canRead && WellFormed(e, v) && WellFormed(e, w) && WellFormed(e, x) && v.p < 0x1_0000_0000
    requires Step(e, v, Write(buff), r, w) && r.bw == |buff|
    requires Step(e, w, Seek(v.p), s, x)
    requires Step(e, x, Read(|buff|), t, y)
    ensures t.data == buff
  {
    assert buff[..r.bw] == buff;
    assert x.content == w.content;
    assert w.content[v.p..v.p + |buff|] == buff;
  }
}
