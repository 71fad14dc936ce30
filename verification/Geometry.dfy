/**
 * Where the regions of a mounted FAT volume lie, and how cluster numbers map to sectors.
 */
module Geometry {
  import opened Types
  import opened FatTable

  // The fields of FATFS that mounting computes and that stay fixed afterwards.
  datatype Volume = Volume(
    fsType: FatType,   // fs_type
    csize: nat,        // sectors per cluster
    nFats: nat,        // FAT copies
    nRootdir: nat,     // root directory entries (FAT12/16)
    nFatent: nat,      // clusters + 2
    fsize: nat,        // sectors per FAT
    volbase: nat,
    fatbase: nat,
    dirbase: nat,      // root directory sector, or cluster number on FAT32
    database: nat)
  {
    function FatArea(): nat {
      if nFats == 2 then 2 * fsize else fsize
    }

    function DataEnd(): int {
      ClusterStart(nFatent)
    }

    // The order of the regions: reserved sectors, FATs, static root directory, data.
    ghost predicate Layout() {
      && (nFats == 1 || nFats == 2)
      && 0 < fsize && 0 < csize && 3 <= nFatent < 0x0FFF_FFFF
      && volbase < fatbase
      && fatbase + FatArea() <= database < 0xFFFF_FFFF
    }

    // The remaining conditions find_volume checks. They are stated behind a quantifier so
    // that proofs which do not need this arithmetic are not burdened with it; mentioning
    // LookVolume(0) brings them in.
    ghost predicate Checked() {
      forall k :: LookVolume(k) ==>
        && csize in {1, 2, 4, 8, 16, 32, 64, 128}
        && (match fsType
            case Fat12 => nFatent < 4088
            case Fat16 => 4088 <= nFatent < 65528
            case Fat32 => 65528 <= nFatent)
        && TableFits(fsType, nFatent, fsize * 512)
        && nRootdir % 16 == 0
        && fatbase + FatArea() + nRootdir / 16 == database
        && (fsType == Fat32 ==> nRootdir == 0)
        && (fsType != Fat32 ==> 0 < nRootdir && dirbase == fatbase + FatArea())
        && DataEnd() < 0xFFFF_FFFF
    }

    // What find_volume establishes before it accepts a volume.
    ghost predicate Valid() {
      Layout() && Checked() == true
    }

    predicate InFat(s: int) {
      fatbase <= s < fatbase + fsize
    }

    predicate InMirror(s: int) {
      nFats == 2 && fatbase + fsize <= s < fatbase + 2 * fsize
    }

    predicate InData(s: int) {
      database <= s < DataEnd()
    }

    // First sector of cluster c: database + (c - 2) * csize, as StartFormula shows.
    function ClusterStart(c: nat): int {
      if c <= 2 then database else ClusterStart(c - 1) + csize
    }

    predicate InCluster(c: nat, s: int) {
      ClusterStart(c) <= s < ClusterStart(c) + csize
    }
  }

  // The drive is large enough for the volume.
  ghost predicate Fits(v: Volume, sectors: nat) {
    forall k :: LookVolume(k) ==> v.DataEnd() <= sectors
  }

  // The two disks differ at most in the FAT copies.
  ghost predicate SameOutsideFat<S>(v: Volume, l: seq<S>, m: seq<S>) {
    |l| == |m| &&
    forall s {:trigger l[s]} {:trigger m[s]} :: 0 <= s < |l| && !v.InFat(s) && !v.InMirror(s) ==> m[s] == l[s]
  }

  // The end-of-chain value create_chain writes, as get_fat returns it.
  function EndMark(t: FatType): nat {
    Span(t) - 1
  }

  lemma EndMarkEndsChains(v: Volume)
    requires v.Valid()
    ensures v.nFatent <= EndMark(v.fsType) && EndMark(v.fsType) == 0x0FFF_FFFF % Span(v.fsType)
  {
    assert LookVolume(0);
  }

  lemma {:induction false} StartFormula(v: Volume, c: nat)
    requires 2 <= c
    ensures v.ClusterStart(c) == v.database + (c - 2) * v.csize
  {
    if c > 2 {
      StartFormula(v, c - 1);
    }
  }

  /** clust2sect, with the unsigned subtraction that rejects clusters 0 and 1. */
  function ClustToSect(v: Volume, clst: dword): (s: nat)
    requires v.Valid()
    ensures 2 <= clst < v.nFatent ==> s == v.ClusterStart(clst) && v.InData(s) && v.InData(s + v.csize - 1)
    ensures s == 0 <==> !(2 <= clst < v.nFatent)
  {
    var i := Sub32(clst, 2);
    if i >= v.nFatent - 2 then
      0
    else
      ClusterFits(v, clst);
      StartFormula(v, clst);
      i * v.csize + v.database
  }

  lemma ClusterFits(v: Volume, c: nat)
    requires v.Valid() && 2 <= c < v.nFatent
    ensures v.database <= v.ClusterStart(c) && v.ClusterStart(c) + v.csize <= v.DataEnd() < 0xFFFF_FFFF
  {
    assert LookVolume(0);
    ClusterOrder(v, c, v.nFatent);
    if 2 < c {
      ClusterOrder(v, 2, c);
    }
  }

  lemma {:induction false} ClusterOrder(v: Volume, c: nat, d: nat)
    requires 2 <= c < d
    ensures v.ClusterStart(c) + v.csize <= v.ClusterStart(d)
  {
    if c < d - 1 {
      ClusterOrder(v, c, d - 1);
    }
  }

  /** Distinct clusters occupy disjoint sector ranges. */
  lemma ClustersDisjoint(v: Volume, c: nat, d: nat, s: int)
    requires 2 <= c && 2 <= d
    requires v.InCluster(c, s) && v.InCluster(d, s)
    ensures c == d
  {
    if c != d {
      ClusterOrder(v, if c < d then c else d, if c < d then d else c);
    }
  }

  /**
   * On a valid volume the boot region, the FATs, the static root directory and the data
   * area do not overlap, and every byte get_fat can look at lies inside the first FAT.
   */
  lemma RegionsDisjoint(v: Volume, c: nat)
    requires v.Valid() && c < v.nFatent
    ensures v.volbase < v.fatbase < v.fatbase + v.fsize <= v.fatbase + v.FatArea() <= v.database < v.DataEnd()
    ensures v.fsType != Fat32 ==> v.dirbase == v.fatbase + v.FatArea() && v.dirbase + v.nRootdir / 16 == v.database
    ensures v.fsType == Fat12 ==> v.InFat(v.fatbase + (c + c / 2) / 512) && v.InFat(v.fatbase + (c + c / 2 + 1) / 512)
    ensures v.fsType == Fat16 ==> v.InFat(v.fatbase + c / 256)
    ensures v.fsType == Fat32 ==> v.InFat(v.fatbase + c / 128)
  {
    assert LookVolume(0);
    ClusterOrder(v, 2, v.nFatent);
  }
}
