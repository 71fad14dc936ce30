/**
 * f_lseek with a link map: the cluster comes from the table instead of the FAT.
 */
module FastSeek {
  import opened Types
  import opened Geometry
  import opened FileData
  import opened FileMap
  import opened File
  import opened FileWrite
  import opened FileRead
  import opened LinkMap

  // Where the byte before position p lies.
  lemma PlaceBefore(v: Volume, p: nat) returns (i: nat, j: nat)
    requires 0 < v.csize && 0 < p
    ensures i == (p - 1) / 512 / v.csize && j == (p - 1) / 512 % v.csize < v.csize && Top(v, i) < p <= Top(v, i + 1)
    ensures p % 512 != 0 ==> Top(v, i) + 512 * j < p < Top(v, i) + 512 * j + 512
  {
    var q := (p - 1) / 512;
    InSector(p);
    i, j := InRow(v.csize, q);
    PlaceOf(v, p, q, i, j);
  }

  lemma InSector(p: nat)
    requires 0 < p
    ensures var q := (p - 1) / 512; 512 * q < p <= 512 * q + 512 && (p % 512 == 0 <==> p == 512 * q + 512)
  {
  }

  // Item q of rows of c items.
  lemma InRow(c: nat, q: nat) returns (i: nat, j: nat)
    requires 0 < c
    ensures i == q / c && j == q % c < c && q == Pos(c, i) + j
  {
    i, j := q / c, q % c;
    PosFormula(c, i);
  }

  lemma PlaceOf(v: Volume, p: nat, q: nat, i: nat, j: nat)
    requires j < v.csize && q == Pos(v.csize, i) + j && 512 * q < p <= 512 * q + 512
    ensures Top(v, i) == 512 * q - 512 * j && Top(v, i) < p <= Top(v, i + 1)
  {
    TopFormula(v, i, 0);
  }

  // clmt_clust for the byte before the file pointer, and the sector it is in.
  method MappedSector(fp: Fil, ofs: dword, tbl: array<dword>, ghost tlen: nat)
    returns (clst: dword, dsc: dword, ghost i: nat, ghost j: nat)
    requires fp.Core() && 0 < ofs <= fp.fsize
    requires MapOf(tbl[..], fp.chain, tlen) && 2 * |Frags(fp.chain)| + 2 <= tlen
    ensures i < |fp.chain| && clst == fp.chain[i] && j < fp.fs.vol.csize && dsc == At(fp.fs.vol, clst, j)
    ensures Top(fp.fs.vol, i) < ofs <= Top(fp.fs.vol, i + 1)
    ensures ofs % 512 != 0 ==> Top(fp.fs.vol, i) + 512 * j < ofs < Top(fp.fs.vol, i) + 512 * j + 512
  {
    Unseal(fp);
    var c;
    c, i, j := MappedCluster(fp, ofs, tbl, tlen);
    SectorOfFile(fp, i, j);
    clst := c;
    dsc := SectorBehind(fp, clst, (ofs - 1) / 512 % fp.fs.vol.csize, i);
  }

  method MappedCluster(fp: Fil, ofs: dword, tbl: array<dword>, ghost tlen: nat)
    returns (clst: nat, ghost i: nat, ghost j: nat)
    requires fp.Core() && 0 < fp.fs.vol.csize && 0 < ofs <= fp.fsize
    requires MapOf(tbl[..], fp.chain, tlen) && 2 * |Frags(fp.chain)| + 2 <= tlen
    ensures i < |fp.chain| && clst == fp.chain[i] && j == (ofs - 1) / 512 % fp.fs.vol.csize < fp.fs.vol.csize
    ensures Top(fp.fs.vol, i) < ofs <= Top(fp.fs.vol, i + 1)
    ensures ofs % 512 != 0 ==> Top(fp.fs.vol, i) + 512 * j < ofs < Top(fp.fs.vol, i) + 512 * j + 512
  {
    i, j := PlaceBefore(fp.fs.vol, ofs);
    WithinChain(fp, i);
    clst := ClmtClust(fp.fs.vol, tbl, ofs - 1, fp.chain, tlen, i);
  }

  // clust2sect of cluster i of the file, plus the sector within it.
  method SectorBehind(fp: Fil, clst: dword, csect: nat, ghost i: nat) returns (dsc: dword)
    requires fp.Core() && i < |fp.chain| && clst == fp.chain[i] && csect < fp.fs.vol.csize
    ensures dsc == At(fp.fs.vol, clst, csect)
  {
    Unseal(fp);
    SectorOfFile(fp, i, csect);
    dsc := ClustToSect(fp.fs.vol, clst);
    assert dsc != 0;
    dsc := dsc + csect;
  }

  /**
   * f_lseek with a complete link map: the pointer goes to the target, clipped at the end of the
   * file, and the file is as consistent as after a seek along the FAT.
   */
  method FSeekMapped(fp: Fil, ofs: dword, tbl: array<dword>, ghost tlen: nat) returns (res: FResult)
    requires fp.Valid()
    requires MapOf(tbl[..], fp.chain, tlen) && 2 * |Frags(fp.chain)| + 2 <= tlen
    modifies fp.fs`disk, fp.fs`logical, fp`clust, fp`dirty, fp`dsect, fp.buf, fp`fptr, fp`pos, fp`sec
    ensures fp.Valid() && res == fp.err
    ensures OthersKept<seq<byte>>(fp.fs.vol, fp.others, old(fp.fs.logical), fp.fs.logical)
    ensures fp.Content() == old(fp.Content())
    ensures fp.fptr == if res != Ok then old(fp.fptr) else if ofs > fp.fsize then fp.fsize else ofs
  {
    NothingKept<seq<byte>>(fp.fs.vol, fp.others, fp.fs.logical);
    res := fp.err;
    if res == Ok {
      var target := if ofs > fp.fsize then fp.fsize else ofs;
      if target == 0 {
        fp.fptr := 0;
        PointerAtTop(fp);
      } else {
        LandMapped(fp, target, tbl, tlen);
      }
    }
  }

  method LandMapped(fp: Fil, ofs: dword, tbl: array<dword>, ghost tlen: nat)
    requires fp.Core() && 0 < ofs <= fp.fsize
    requires MapOf(tbl[..], fp.chain, tlen) && 2 * |Frags(fp.chain)| + 2 <= tlen
    modifies fp.fs`disk, fp.fs`logical, fp`clust, fp`dirty, fp`dsect, fp.buf, fp`fptr, fp`pos, fp`sec
    ensures fp.Core() && fp.AtPointer() && fp.fptr == ofs
    ensures OthersKept<seq<byte>>(fp.fs.vol, fp.others, old(fp.fs.logical), fp.fs.logical)
  {
    var clst, dsc;
    ghost var i, j;
    clst, dsc, i, j := MappedSector(fp, ofs, tbl, tlen);
    LandAt(fp, ofs, clst, dsc, i, j);
  }

  // Put the pointer at ofs, in sector j of cluster i.
  method LandAt(fp: Fil, ofs: dword, clst: dword, dsc: dword, ghost i: nat, ghost j: nat)
    requires fp.Core() && 0 < ofs <= |fp.bytes| && i < |fp.chain| && clst == fp.chain[i]
    requires j < fp.fs.vol.csize && dsc == At(fp.fs.vol, clst, j) && Top(fp.fs.vol, i) < ofs <= Top(fp.fs.vol, i + 1)
    requires ofs % 512 != 0 ==> Top(fp.fs.vol, i) + 512 * j < ofs < Top(fp.fs.vol, i) + 512 * j + 512
    modifies fp.fs`disk, fp.fs`logical, fp`clust, fp`dirty, fp`dsect, fp.buf, fp`fptr, fp`pos, fp`sec
    ensures fp.Core() && fp.AtPointer() && fp.fptr == ofs
    ensures OthersKept<seq<byte>>(fp.fs.vol, fp.others, old(fp.fs.logical), fp.fs.logical)
  {
    NothingKept<seq<byte>>(fp.fs.vol, fp.others, fp.fs.logical);
    fp.fptr := ofs;
    fp.clust := clst;
    fp.pos, fp.sec := i, j;
    if ofs % 512 != 0 {
      SwitchBuffer(fp, dsc, i, j);
    }
    Stand(fp);
  }
}
