/**
 * f_read: bytes come from the sector buffer, or whole sectors straight from the disk with
 * the dirty buffer laid over them.
 */
module FileRead {
  import opened Types
  import opened Geometry
  import opened Window
  import opened FatAccess
  import opened FileData
  import opened FileMap
  import opened File
  import opened FileChain
  import opened FileWrite

  // Consecutive rows are consecutive elements.
  lemma RowsAt<T>(x: seq<seq<T>>, n: nat, i: nat, m: nat)
    requires Uniform(x, n) && i + m <= |x|
    ensures Pos(n, i) + Pos(n, m) <= |Flat(x)|
    ensures Flat(x)[Pos(n, i)..Pos(n, i) + Pos(n, m)] == Flat(x[i..i + m])
  {
    var a, y, c := x[..i], x[i..i + m], x[i + m..];
    Thirds(x, i, m);
    ThreeRuns(a, y, c);
    FlatSize(a, n);
    FlatSize(y, n);
    MiddleRun(Flat(a), Flat(y), Flat(c));
  }

  lemma Thirds<T>(x: seq<T>, i: nat, m: nat)
    requires i + m <= |x|
    ensures x == x[..i] + x[i..i + m] + x[i + m..]
  {
  }

  lemma MiddleRun<T>(a: seq<T>, y: seq<T>, c: seq<T>)
    ensures (a + y + c)[|a|..|a| + |y|] == y
  {
  }

  // Sectors j..j+cc-1 of cluster i, as bytes.
  lemma RunInBytes(v: Volume, data: seq<seq<seq<byte>>>, i: nat, j: nat, cc: nat)
    requires Uniform<seq<byte>>(data, v.csize) && Uniform<byte>(Flat<seq<byte>>(data), 512)
    requires i < |data| && j + cc <= v.csize
    ensures var b := Flat<byte>(Flat<seq<byte>>(data));
            var p := Top(v, i) + 512 * j;
            p + 512 * cc <= |b| && b[p..p + 512 * cc] == Flat<byte>(data[i][j..j + cc])
  {
    RowAt<seq<byte>>(data, v.csize, i);
    var s, k := Flat<seq<byte>>(data), Pos(v.csize, i) + j;
    assert s[k..k + cc] == s[Pos(v.csize, i)..Pos(v.csize, i) + v.csize][j..j + cc];
    RowsAt<byte>(s, 512, k, cc);
    PosFormula(512, cc);
    TopFormula(v, i, j);
  }

  // disk_read of cc sectors, past the window. (Every drive here reads and writes what it is asked
  // to; module Diskio says for which transfers that is true of this one.)
  method ReadSectors(fs: Fatfs, sect: nat, cc: nat) returns (rbuff: seq<byte>)
    requires fs.Valid() && fs.vol.database <= sect && sect + cc <= |fs.logical| && !(sect <= fs.winsect < sect + cc)
    ensures rbuff == Flat<byte>(fs.logical[sect..sect + cc])
  {
    rbuff := [];
    var t := 0;
    while t < cc
      invariant t <= cc && rbuff == Flat<byte>(fs.logical[sect..sect + t])
    {
      var data := DiskReadData(fs, sect + t);
      ghost var x := fs.logical[sect..sect + t + 1];
      assert x[..|x| - 1] == fs.logical[sect..sect + t] && x[|x| - 1] == data;
      rbuff := rbuff + data;
      t := t + 1;
    }
  }

  // The cc sectors from s on, with the dirty buffer laid over them.
  ghost function Overlaid<S>(l: seq<S>, s: nat, cc: nat, dirty: bool, dsect: nat, buf: S): (z: seq<S>)
    requires s + cc <= |l|
    ensures |z| == cc
  {
    if dirty && s <= dsect < s + cc then l[s..s + cc][dsect - s := buf] else l[s..s + cc]
  }

  lemma OverlaidIsSeen<S>(x: seq<S>, l: seq<S>, s: nat, dirty: bool, dsect: nat, buf: S)
    requires s + |x| <= |l|
    requires forall k :: 0 <= k < |x| ==> x[k] == Seen(l, dirty, dsect, buf, s + k)
    ensures Overlaid(l, s, |x|, dirty, dsect, buf) == x
  {
  }

  // Laying a sector over the bytes read.
  lemma PatchedBytes<T>(z: seq<seq<T>>, k: nat, buf: seq<T>)
    requires Uniform(z, 512) && |buf| == 512
    ensures |Flat(z)| == 512 * |z|
    ensures k < |z| ==> Splice(Flat(z), k * 512, buf) == Flat(z[k := buf])
  {
    FlatSize(z, 512);
    PosFormula(512, |z|);
    if k < |z| {
      SpliceRow(z, 512, k, buf);
      PosFormula(512, k);
    }
  }

  lemma SectorsSeen(fp: Fil, i: nat, j: nat, cc: nat) returns (x: seq<seq<byte>>)
    requires fp.Core() && i < |fp.chain| && j + cc <= fp.fs.vol.csize
    ensures i < |fp.data| && j + cc <= |fp.data[i]| && x == fp.data[i][j..j + cc]
    ensures 0 < cc ==>
      0 <= At(fp.fs.vol, fp.chain[i], j) && At(fp.fs.vol, fp.chain[i], j) + cc <= |fp.fs.logical|
    ensures forall k :: 0 <= k < cc ==>
      x[k] == Seen<seq<byte>>(fp.fs.logical, fp.dirty, fp.dsect, fp.buf[..], At(fp.fs.vol, fp.chain[i], j) + k)
  {
    Unseal(fp);
    x := fp.data[i][j..j + cc];
    if 0 < cc {
      SectorOfFile(fp, i, j);
      SectorOfFile(fp, i, j + cc - 1);
    }
    forall k | 0 <= k < cc
      ensures x[k] == Seen<seq<byte>>(fp.fs.logical, fp.dirty, fp.dsect, fp.buf[..], At(fp.fs.vol, fp.chain[i], j) + k)
    {
      SectorOfFile(fp, i, j + k);
    }
  }

  // What the disk and the buffer hold for the run of sectors j..j+cc-1 of cluster i.
  lemma RunSeen(fp: Fil, i: nat, j: nat, cc: nat)
    requires fp.Core() && i < |fp.chain| && 0 < cc && j + cc <= fp.fs.vol.csize
    ensures var s, p := At(fp.fs.vol, fp.chain[i], j), Top(fp.fs.vol, i) + 512 * j;
            && fp.buf.Length == 512 && p + 512 * cc <= |fp.bytes|
            && fp.fs.vol.database <= s && s + cc <= |fp.fs.logical| < 0x1_0000_0000 && !(s <= fp.fs.winsect < s + cc)
            && fp.bytes[p..p + 512 * cc]
                == Flat<byte>(Overlaid<seq<byte>>(fp.fs.logical, s, cc, fp.dirty, fp.dsect, fp.buf[..]))
  {
    Unseal(fp);
    RunOfFile(fp, i, j, cc);
    FileSectors(fp);
    RunInBytes(fp.fs.vol, fp.data, i, j, cc);
    var x := SectorsSeen(fp, i, j, cc);
    OverlaidIsSeen<seq<byte>>(x, fp.fs.logical, At(fp.fs.vol, fp.chain[i], j), fp.dirty, fp.dsect, fp.buf[..]);
  }

  // The direct transfer of f_read.
  method DirectRead(fp: Fil, sect: dword, cc: nat, ghost i: nat, ghost j: nat) returns (rbuff: seq<byte>)
    requires fp.Core() && i < |fp.chain| && 0 < cc && j + cc <= fp.fs.vol.csize && sect == At(fp.fs.vol, fp.chain[i], j)
    ensures var p := Top(fp.fs.vol, i) + 512 * j;
            |rbuff| == 512 * cc && p + 512 * cc <= |fp.bytes| && rbuff == fp.bytes[p..p + 512 * cc]
  {
    Unseal(fp);
    FileSectors(fp);
    RunInBytes(fp.fs.vol, fp.data, i, j, cc);
    RunSeen(fp, i, j, cc);
    rbuff := ReadPatched(fp, sect, cc);
  }

  // Read the sectors and replace one of them by the buffer if that is dirty.
  method ReadPatched(fp: Fil, sect: dword, cc: nat) returns (rbuff: seq<byte>)
    requires fp.fs.Valid() && fp.buf.Length == 512
    requires fp.fs.vol.database <= sect && sect + cc <= |fp.fs.logical| && !(sect <= fp.fs.winsect < sect + cc)
    ensures rbuff == Flat<byte>(Overlaid<seq<byte>>(fp.fs.logical, sect, cc, fp.dirty, fp.dsect, fp.buf[..]))
  {
    rbuff := ReadSectors(fp.fs, sect, cc);
    ghost var z: seq<seq<byte>> := fp.fs.logical[sect..sect + cc];
    var k := Sub32(fp.dsect, sect);
    PatchedBytes<byte>(z, k, fp.buf[..]);
    if fp.dirty && k < cc {
      rbuff := Splice<byte>(rbuff, k * 512, fp.buf[..]);
    }
  }

  // A file has the bytes of its clusters.
  lemma SizeOfFile(fp: Fil)
    requires fp.Core()
    ensures |fp.bytes| == Top(fp.fs.vol, |fp.chain|)
  {
    Unseal(fp);
    FileSectors(fp);
    FlatSize<seq<byte>>(fp.data, fp.fs.vol.csize);
    FlatSize<byte>(Flat<seq<byte>>(fp.data), 512);
  }

  // A cluster that begins before the end of those bytes is in the chain.
  lemma WithinChain(fp: Fil, n: nat)
    requires fp.Core() && Top(fp.fs.vol, n) < |fp.bytes|
    ensures n < |fp.chain|
  {
    SizeOfFile(fp);
    TopFormula(fp.fs.vol, n, 0);
    TopFormula(fp.fs.vol, |fp.chain|, 0);
    if |fp.chain| < n {
      PosMono(fp.fs.vol.csize, |fp.chain|, n);
    }
  }

  // get_fat of cluster i, which is not the last of the file.
  method FollowLink(fp: Fil, clst: dword, ghost i: nat) returns (ncl: dword)
    requires fp.Core() && i + 1 < |fp.chain| && clst == fp.chain[i]
    modifies fp.fs`wflag, fp.fs`disk, fp.fs`winsect, fp.fs.win
    ensures fp.Core() && ncl == fp.chain[i + 1] && 2 <= ncl < fp.fs.vol.nFatent
  {
    Unseal(fp);
    LinkOfFile(fp, i);
    ghost var w := fp.fs.winsect;
    ncl := GetFat(fp.fs, clst);
    CoreAfterLook(fp, w);
  }

  // On a cluster boundary before the end of the file, f_read follows the chain.
  method FollowChain(fp: Fil, ghost n: nat)
    requires fp.Core() && fp.InPlace() && fp.fptr == Top(fp.fs.vol, n) && n < |fp.chain|
    requires n == if fp.fptr == 0 then 0 else fp.pos + 1
    modifies fp.fs`wflag, fp.fs`disk, fp.fs`winsect, fp.fs.win, fp`clust
    ensures fp.Core() && fp.clust == fp.chain[n]
  {
    Unseal(fp);
    LinkOfFile(fp, n);
    var clst;
    if fp.fptr == 0 {
      clst := fp.sclust;
    } else {
      clst := FollowLink(fp, fp.clust, fp.pos);
    }
    assert 2 <= clst != 0xFFFF_FFFF;
    fp.clust := clst;
  }

  // Load the sector into the buffer unless it is there, writing a dirty buffer back first.
  method SwitchBuffer(fp: Fil, sect: dword, ghost i: nat, ghost j: nat)
    requires fp.Core() && i < |fp.chain| && j < fp.fs.vol.csize && sect == At(fp.fs.vol, fp.chain[i], j)
    modifies fp`dirty, fp`dsect, fp.buf, fp.fs`disk, fp.fs`logical
    ensures fp.Core() && fp.dsect == sect
    ensures OthersKept<seq<byte>>(fp.fs.vol, fp.others, old(fp.fs.logical), fp.fs.logical)
  {
    if fp.dsect != sect {
      FlushBuffer(fp);
      Unseal(fp);
      SectorOfFile(fp, i, j);
      Loaded<seq<byte>>(fp.fs.vol, fp.others, fp.chain, fp.data, fp.fs.fat, fp.fs.logical, fp.fs.winsect, fp.dsect,
                        fp.buf[..], i, j, fp.fs.logical[sect]);
      var data := DiskReadData(fp.fs, sect);
      CopyToBuffer(fp, data, 0);
      fp.dsect := sect;
      assert fp.buf[..] == data;
      Seal(fp);
    } else {
      NothingKept<seq<byte>>(fp.fs.vol, fp.others, fp.fs.logical);
    }
  }

  // Get partial sector data from the sector buffer.
  method PickPart(fp: Fil, btr: nat, ghost i: nat, ghost j: nat, o: nat) returns (r: seq<byte>)
    requires fp.Core() && Standing(fp, i, j, o) && fp.dsect == At(fp.fs.vol, fp.clust, j) && 0 < btr
    requires fp.fptr + btr <= |fp.bytes|
    ensures 0 < |r| <= btr && o + |r| <= 512 && r == fp.bytes[fp.fptr..fp.fptr + |r|]
  {
    Unseal(fp);
    FileSectors(fp);
    BufferOfFile(fp, i, j);
    SectorInBytes(fp.fs.vol, fp.data, i, j);
    var rcnt := 512 - o;
    if rcnt > btr {
      rcnt := btr;
    }
    r := fp.buf[..][o..o + rcnt];
    SliceOfSlice<byte>(fp.bytes, Top(fp.fs.vol, i) + 512 * j, 512, o, rcnt, fp.buf[..], fp.fptr);
  }

  lemma SliceOfSlice<T>(b: seq<T>, p: nat, n: nat, o: nat, m: nat, w: seq<T>, q: nat)
    requires p + n <= |b| && o + m <= n && w == b[p..p + n] && q == p + o
    ensures w[o..o + m] == b[q..q + m]
  {
    var x, y := w[o..o + m], b[q..q + m];
    assert |x| == |y|;
    forall k | 0 <= k < m ensures x[k] == y[k] {
      assert x[k] == w[o + k] == b[p + (o + k)];
    }
  }

  // A round of f_read's loop at a sector boundary: find the sector.
  method SeekSector(fp: Fil) returns (sect: dword, csect: nat, ghost i: nat)
    requires fp.Core() && fp.AtPointer() && fp.fptr % 512 == 0 && fp.fptr < |fp.bytes|
    modifies fp.fs`wflag, fp.fs`disk, fp.fs`winsect, fp.fs.win, fp`clust
    ensures fp.Core() && Standing(fp, i, csect, 0) && sect == At(fp.fs.vol, fp.clust, csect)
  {
    csect, i := SectorOfPointer(fp);
    if csect == 0 {
      WithinChain(fp, i);
      FollowChain(fp, i);
    }
    sect := CurrentSector(fp, csect, i);
  }

  // One round of f_read's loop.
  method ReadRound(fp: Fil, btr: nat) returns (r: seq<byte>)
    requires fp.Core() && fp.AtPointer() && 0 < btr && fp.fptr + btr <= |fp.bytes| && fp.fptr + btr <= 0xFFFF_FFFF
    modifies fp.fs`wflag, fp.fs`disk, fp.fs`winsect, fp.fs.win, fp.fs`logical, fp`clust, fp`dirty, fp`dsect, fp.buf
    modifies fp`fptr, fp`pos, fp`sec
    ensures fp.Core() && fp.AtPointer() && 0 < |r| <= btr && fp.fptr == old(fp.fptr) + |r|
    ensures OthersKept<seq<byte>>(fp.fs.vol, fp.others, old(fp.fs.logical), fp.fs.logical)
    ensures r == fp.bytes[old(fp.fptr)..fp.fptr]
  {
    if fp.fptr % 512 == 0 {
      var sect, csect;
      ghost var i;
      sect, csect, i := SeekSector(fp);
      if btr / 512 > 0 {
        NothingKept<seq<byte>>(fp.fs.vol, fp.others, fp.fs.logical);
        r := ReadWhole(fp, btr, sect, csect, i);
      } else {
        SwitchBuffer(fp, sect, i, csect);
        r := ReadPart(fp, btr, csect, i, 0);
      }
    } else {
      InsideSector(fp);
      NothingKept<seq<byte>>(fp.fs.vol, fp.others, fp.fs.logical);
      r := ReadPart(fp, btr, fp.sec, fp.pos, fp.fptr % 512);
    }
  }

  // Whole sectors, clipped at the cluster boundary.
  method ReadWhole(fp: Fil, btr: nat, sect: dword, csect: nat, ghost i: nat) returns (r: seq<byte>)
    requires fp.Core() && Standing(fp, i, csect, 0) && sect == At(fp.fs.vol, fp.clust, csect)
    requires 512 <= btr && fp.fptr + btr <= |fp.bytes| && fp.fptr + btr <= 0xFFFF_FFFF
    modifies fp`fptr, fp`pos, fp`sec
    ensures fp.AtPointer() && 0 < |r| <= btr && fp.fptr == old(fp.fptr) + |r|
    ensures r == fp.bytes[old(fp.fptr)..fp.fptr]
  {
    Unseal(fp);
    var cc := btr / 512;
    if csect + cc > fp.fs.vol.csize {
      cc := fp.fs.vol.csize - csect;
    }
    r := DirectRead(fp, sect, cc, i, csect);
    Advance(fp, 512 * cc, i, csect, 0);
  }

  // Part of a sector, from the buffer.
  method ReadPart(fp: Fil, btr: nat, ghost csect: nat, ghost i: nat, o: nat) returns (r: seq<byte>)
    requires fp.Core() && Standing(fp, i, csect, o) && fp.dsect == At(fp.fs.vol, fp.clust, csect)
    requires 0 < btr && (o == 0 ==> btr < 512) && fp.fptr + btr <= |fp.bytes| && fp.fptr + btr <= 0xFFFF_FFFF
    modifies fp`fptr, fp`pos, fp`sec
    ensures fp.AtPointer() && 0 < |r| <= btr && fp.fptr == old(fp.fptr) + |r|
    ensures r == fp.bytes[old(fp.fptr)..fp.fptr]
  {
    r := PickPart(fp, btr, i, csect, o);
    Advance(fp, |r|, i, csect, o);
  }

  // f_read past its checks.
  method ReadLoop(fp: Fil, btr: nat) returns (rbuff: seq<byte>)
    requires fp.Core() && fp.AtPointer() && fp.fptr + btr <= |fp.bytes| && fp.fptr + btr <= 0xFFFF_FFFF
    modifies fp.fs`wflag, fp.fs`disk, fp.fs`winsect, fp.fs.win, fp.fs`logical, fp`clust, fp`dirty, fp`dsect, fp.buf
    modifies fp`fptr, fp`pos, fp`sec
    ensures fp.Core() && fp.AtPointer() && fp.fptr == old(fp.fptr) + btr
    ensures OthersKept<seq<byte>>(fp.fs.vol, fp.others, old(fp.fs.logical), fp.fs.logical)
    ensures rbuff == fp.bytes[old(fp.fptr)..old(fp.fptr) + btr]
  {
    rbuff := [];
    ghost var p := fp.fptr;
    while |rbuff| < btr
      invariant fp.Core() && fp.AtPointer() && |rbuff| <= btr && fp.fptr == p + |rbuff|
      invariant OthersKept<seq<byte>>(fp.fs.vol, fp.others, old(fp.fs.logical), fp.fs.logical)
      invariant rbuff == fp.bytes[p..p + |rbuff|]
      decreases btr - |rbuff|
    {
      ghost var q := fp.fptr;
      var r := ReadRound(fp, btr - |rbuff|);
      assert fp.bytes[p..q] + fp.bytes[q..fp.fptr] == fp.bytes[p..fp.fptr];
      rbuff := rbuff + r;
    }
  }

  lemma PrefixSlice<T>(b: seq<T>, n: nat, p: nat, q: nat)
    requires p <= q <= n <= |b|
    ensures b[..n][p..q] == b[p..q]
  {
  }

  /**
   * f_read on an open file: the bytes at the file pointer, as many as are left of those asked
   * for, whatever mixture of dirty buffer, buffer and disk holds them. The file's contents do
   * not change.
   */
  method FRead(fp: Fil, btr: nat) returns (res: FResult, buff: seq<byte>)
    requires fp.Valid()
    modifies fp.fs`wflag, fp.fs`disk, fp.fs`winsect, fp.fs.win, fp.fs`logical, fp`clust, fp`dirty, fp`dsect, fp.buf
    modifies fp`fptr, fp`pos, fp`sec
    ensures fp.Valid() && res == (if fp.err != Ok then fp.err else if !fp.canRead then Denied else Ok)
    ensures OthersKept<seq<byte>>(fp.fs.vol, fp.others, old(fp.fs.logical), fp.fs.logical)
    ensures fp.Content() == old(fp.Content()) && fp.fptr == old(fp.fptr) + |buff|
    ensures buff == fp.Content()[old(fp.fptr)..fp.fptr]
    ensures |buff| == if res != Ok then 0 else if old(fp.fptr) + btr <= fp.fsize then btr else fp.fsize - old(fp.fptr)
  {
    NothingKept<seq<byte>>(fp.fs.vol, fp.others, fp.fs.logical);
    if fp.err != Ok {
      return fp.err, [];
    }
    if !fp.canRead {
      return Denied, [];
    }
    var remain := fp.fsize - fp.fptr;
    var n := if btr > remain then remain else btr;
    ghost var p := fp.fptr;
    buff := ReadLoop(fp, n);
    PrefixSlice<byte>(fp.bytes, fp.fsize, p, p + n);
    res := Ok;
  }
}
