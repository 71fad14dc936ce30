/**
 * f_mkfs lays a volume out and records it in a BPB; find_volume reads the layout back.
 */
module Mkfs {
  import opened Basics
  import opened Types
  import opened FatTable
  import opened Geometry
  import opened FileData

  // The fields of a boot sector that find_volume reads.
  datatype Bpb = Bpb(
    bytsPerSec: nat, secPerClus: nat, rsvdSecCnt: nat, numFats: nat, rootEntCnt: nat,
    totSec16: nat, totSec32: nat, fatSz16: nat, fatSz32: nat, rootClus: nat)
  {
    // Each field fits into its bytes on the disk.
    predicate Stored() {
      && bytsPerSec < 0x1_0000 && secPerClus < 0x100 && rsvdSecCnt < 0x1_0000 && numFats < 0x100
      && rootEntCnt < 0x1_0000 && totSec16 < 0x1_0000 && totSec32 < 0x1_0000_0000
      && fatSz16 < 0x1_0000 && fatSz32 < 0x1_0000_0000 && rootClus < 0x1_0000_0000
    }
  }

  const MIN_FAT16: nat := 4086
  const MIN_FAT32: nat := 65526

  function TypeOf(clusters: nat): FatType {
    if clusters >= MIN_FAT32 then Fat32 else if clusters >= MIN_FAT16 then Fat16 else Fat12
  }

  // x & (x - 1) == 0.
  predicate ZeroOrPow2(x: nat) {
    x == 0 || x == 1 || (x % 2 == 0 && ZeroOrPow2(x / 2))
  }

  // How many clusters of c sectors there is room for.
  function Clusters(room: nat, c: nat): (n: nat)
    requires 0 < c
    ensures n * c <= room < n * c + c && n <= room
  {
    var n := room / c;
    assert room == n * c + room % c;
    AtLeast(n, c);
    n
  }

  lemma AtLeast(q: nat, c: nat)
    requires 0 < c
    ensures q <= q * c
  {
    assert q * c == q + q * (c - 1);
  }

  // A DWORD.
  function Word32(x: int): dword {
    x % 0x1_0000_0000
  }

  // Bytes of FAT that find_volume asks for.
  function FatBytesNeeded(t: FatType, n: nat): nat {
    match t
    case Fat12 => n * 3 / 2 + n % 2
    case Fat16 => n * 2
    case Fat32 => Word32(n * 4)
  }

  // The checks of find_volume on the fields themselves; sysect sectors come before the data.
  predicate Accepted(b: Bpb, sysect: nat) {
    && b.bytsPerSec == 512 && (b.numFats == 1 || b.numFats == 2)
    && b.secPerClus != 0 && ZeroOrPow2(b.secPerClus)
    && b.rootEntCnt % 16 == 0 && b.rsvdSecCnt != 0 && sysect <= SectorsOnVolume(b)
  }

  // find_volume on the boot sector at bsect: the volume, unless a check fails.
  function FindVolume(bsect: nat, b: Bpb): Option<Volume> {
    var fasize := Word32(SectorsPerFat(b) * b.numFats);
    VolumeFrom(bsect, b, fasize, Word32(b.rsvdSecCnt + fasize + b.rootEntCnt / 16))
  }

  // The checks and boundaries, for so many sectors of FATs and before the data.
  function VolumeFrom(bsect: nat, b: Bpb, fasize: nat, sysect: nat): Option<Volume> {
    if !Accepted(b, sysect) then None
    else Boundaries(bsect, b, fasize, sysect, Clusters(SectorsOnVolume(b) - sysect, b.secPerClus))
  }

  // The second half of find_volume, from the number of clusters on.
  function Boundaries(bsect: nat, b: Bpb, fasize: nat, sysect: nat, nclst: nat): Option<Volume> {
    var t, nFatent := TypeOf(nclst), Word32(nclst + 2);
    var fatbase := Word32(bsect + b.rsvdSecCnt);
    if nclst == 0 then None
    else if (t == Fat32) != (b.rootEntCnt == 0) then None
    else if SectorsPerFat(b) < Word32(FatBytesNeeded(t, nFatent) + 511) / 512 then None
    else Some(Volume(t, b.secPerClus, b.numFats, b.rootEntCnt, nFatent, SectorsPerFat(b), bsect, fatbase,
                     if t == Fat32 then b.rootClus else Word32(fatbase + fasize), Word32(bsect + sysect)))
  }

  // No sum of find_volume overflows, the volume ends below the last sector number, and there are
  // fewer clusters than 28-bit entries can tell from end marks.
  predicate Sane(bsect: nat, b: Bpb) {
    && SystemSectors(b) < 0x1_0000_0000
    && bsect + SectorsOnVolume(b) < 0xFFFF_FFFF
    && SectorsOnVolume(b) < 0x0FFF_FFF0
  }

  lemma FatHolds(t: FatType, n: nat, fsize: nat)
    requires n < 0x0FFF_FFFF && (FatBytesNeeded(t, n) + 511) / 512 <= fsize
    ensures TableFits(t, n, fsize * 512)
  {
    var x := FatBytesNeeded(t, n);
    InSectors(x, fsize);
    EntriesInBytes(t, n, fsize * 512);
  }

  lemma EntriesInBytes(t: FatType, n: nat, bytes: nat)
    requires n < 0x0FFF_FFFF && FatBytesNeeded(t, n) <= bytes
    ensures TableFits(t, n, bytes)
  {
    if t == Fat32 {
      Small(n * 4);
    } else if t == Fat12 {
      OneAndAHalf(n);
    }
  }

  lemma OneAndAHalf(n: nat)
    ensures n * 3 / 2 + n % 2 == 3 * (n / 2) + 2 * (n % 2)
  {
    var h, r := n / 2, n % 2;
    assert n * 3 == 2 * (3 * h + r) + r;
  }

  lemma InSectors(x: nat, m: nat)
    ensures (x + 511) / 512 <= m <==> x <= m * 512
  {
  }

  lemma ClusterSizes(c: nat)
    requires 0 < c < 0x100 && ZeroOrPow2(c)
    ensures c in {1, 2, 4, 8, 16, 32, 64, 128}
  {
    if c >= 2 {
      ClusterSizes(c / 2);
    }
  }

  function SectorsOnVolume(b: Bpb): nat {
    if b.totSec16 == 0 then b.totSec32 else b.totSec16
  }

  function SectorsPerFat(b: Bpb): nat {
    if b.fatSz16 == 0 then b.fatSz32 else b.fatSz16
  }

  // Sectors before the data area.
  function SystemSectors(b: Bpb): nat {
    b.rsvdSecCnt + SectorsPerFat(b) * b.numFats + b.rootEntCnt / 16
  }

  // What find_volume computes when nothing overflows.
  lemma WithoutOverflow(bsect: nat, b: Bpb)
    requires b.Stored() && Sane(bsect, b)
    ensures FindVolume(bsect, b) == Unbounded(bsect, b)
  {
    var fasize, sysect := SectorsPerFat(b) * b.numFats, SystemSectors(b);
    SystemSmall(b, fasize);
    VolumeSmall(bsect, b, fasize, sysect);
  }

  lemma VolumeSmall(bsect: nat, b: Bpb, fasize: nat, sysect: nat)
    requires bsect + SectorsOnVolume(b) < 0xFFFF_FFFF && SectorsOnVolume(b) < 0x0FFF_FFF0 && b.rsvdSecCnt + fasize <= sysect
    ensures VolumeFrom(bsect, b, fasize, sysect) == UnboundedFrom(bsect, b, fasize, sysect)
  {
    if Accepted(b, sysect) {
      BoundariesSmall(bsect, b, fasize, sysect, Clusters(SectorsOnVolume(b) - sysect, b.secPerClus));
    }
  }

  lemma SystemSmall(b: Bpb, fasize: nat)
    requires b.Stored() && SystemSectors(b) < 0x1_0000_0000 && fasize == SectorsPerFat(b) * b.numFats
    ensures Word32(fasize) == fasize && Word32(b.rsvdSecCnt + fasize + b.rootEntCnt / 16) == SystemSectors(b)
  {
    Small(fasize);
    Small(SystemSectors(b));
  }

  lemma BoundariesSmall(bsect: nat, b: Bpb, fasize: nat, sysect: nat, nclst: nat)
    requires nclst * 4 + 519 < 0x1_0000_0000 && bsect + b.rsvdSecCnt + fasize < 0x1_0000_0000 && bsect + sysect < 0x1_0000_0000
    ensures Boundaries(bsect, b, fasize, sysect, nclst) == UnboundedBoundaries(bsect, b, fasize, sysect, nclst)
  {
    Small(nclst + 2);
    Small((nclst + 2) * 4);
    Small(FatBytesNeeded(TypeOf(nclst), nclst + 2) + 511);
    Small(bsect + b.rsvdSecCnt);
    Small(bsect + b.rsvdSecCnt + fasize);
    Small(bsect + sysect);
  }

  lemma Small(x: nat)
    requires x < 0x1_0000_0000
    ensures Word32(x) == x
  {
  }

  // The same over unbounded integers.
  function Unbounded(bsect: nat, b: Bpb): Option<Volume> {
    UnboundedFrom(bsect, b, SectorsPerFat(b) * b.numFats, SystemSectors(b))
  }

  function UnboundedFrom(bsect: nat, b: Bpb, fasize: nat, sysect: nat): Option<Volume> {
    if !Accepted(b, sysect) then None
    else UnboundedBoundaries(bsect, b, fasize, sysect, Clusters(SectorsOnVolume(b) - sysect, b.secPerClus))
  }

  function UnboundedBoundaries(bsect: nat, b: Bpb, fasize: nat, sysect: nat, nclst: nat): Option<Volume> {
    var t := TypeOf(nclst);
    if nclst == 0 then None
    else if (t == Fat32) != (b.rootEntCnt == 0) then None
    else if SectorsPerFat(b) < (FatBytesNeeded(t, nclst + 2) + 511) / 512 then None
    else Some(Volume(t, b.secPerClus, b.numFats, b.rootEntCnt, nclst + 2, SectorsPerFat(b), bsect, bsect + b.rsvdSecCnt,
                     if t == Fat32 then b.rootClus else bsect + b.rsvdSecCnt + fasize, bsect + sysect))
  }

  /**
   * Every volume find_volume accepts is well laid out: FAT, root directory and data follow each
   * other, the FAT has room for every entry and the data area ends inside the volume.
   */
  lemma MountedIsValid(bsect: nat, b: Bpb)
    requires b.Stored() && Sane(bsect, b) && FindVolume(bsect, b).Some?
    ensures var v := FindVolume(bsect, b).value; v.Valid() && v.DataEnd() <= bsect + SectorsOnVolume(b)
  {
    WithoutOverflow(bsect, b);
    var v := FindVolume(bsect, b).value;
    var room := SectorsOnVolume(b) - SystemSectors(b);
    ClusterSizes(b.secPerClus);
    StartFormula(v, v.nFatent);
    FatHolds(v.fsType, v.nFatent, v.fsize);
    FatAreaIs(v);
    assert v.DataEnd() == v.database + Clusters(room, v.csize) * v.csize;
    assert v.Layout();
    ChecksPass(v);
  }

  // The boot sector b records volume v.
  ghost predicate Records(b: Bpb, v: Volume) {
    && b.bytsPerSec == 512 && b.numFats == v.nFats && b.secPerClus == v.csize && b.rootEntCnt == v.nRootdir
    && v.volbase + b.rsvdSecCnt == v.fatbase && SectorsPerFat(b) == v.fsize
    && (v.fsType == Fat32 ==> b.rootClus == v.dirbase)
    && v.DataEnd() <= v.volbase + SectorsOnVolume(b) < v.DataEnd() + v.csize
  }

  /** Mounting finds every valid volume that a boot sector records, and nothing else. */
  lemma MountsIff(bsect: nat, b: Bpb, v: Volume)
    requires b.Stored() && Sane(bsect, b)
    ensures FindVolume(bsect, b) == Some(v) <==> v.Valid() && v.volbase == bsect && Records(b, v)
  {
    if FindVolume(bsect, b) == Some(v) {
      MountedIsValid(bsect, b);
      MountedIsRecorded(bsect, b, v);
    } else if v.Valid() && v.volbase == bsect && Records(b, v) {
      RecordedIsFound(b, v);
    }
  }

  lemma MountedIsRecorded(bsect: nat, b: Bpb, v: Volume)
    requires b.Stored() && Sane(bsect, b) && FindVolume(bsect, b) == Some(v)
    ensures v.volbase == bsect && Records(b, v)
  {
    WithoutOverflow(bsect, b);
    StartFormula(v, v.nFatent);
    assert v.DataEnd() == v.database + Clusters(SectorsOnVolume(b) - SystemSectors(b), v.csize) * v.csize;
  }

  lemma RecordedIsFound(b: Bpb, v: Volume)
    requires b.Stored() && Sane(v.volbase, b) && v.Valid() && Records(b, v)
    ensures FindVolume(v.volbase, b) == Some(v)
  {
    WithoutOverflow(v.volbase, b);
    UnboundedFinds(b, v, SectorsPerFat(b) * b.numFats, SystemSectors(b));
  }

  lemma UnboundedFinds(b: Bpb, v: Volume, fasize: nat, sysect: nat)
    requires v.Valid() && Records(b, v) && fasize == SectorsPerFat(b) * b.numFats && sysect == SystemSectors(b)
    ensures UnboundedFrom(v.volbase, b, fasize, sysect) == Some(v)
  {
    RecordedFields(b, v);
    RecordedClusters(b, v);
    BoundariesRecorded(b, v, fasize, sysect);
  }

  lemma BoundariesRecorded(b: Bpb, v: Volume, fasize: nat, sysect: nat)
    requires Records(b, v) && v.nFatent >= 3 && v.database == v.volbase + sysect && v.fsType == TypeOf(v.nFatent - 2)
    requires (v.fsType == Fat32) == (b.rootEntCnt == 0)
    requires v.dirbase == if v.fsType == Fat32 then b.rootClus else v.volbase + b.rsvdSecCnt + fasize
    requires (FatBytesNeeded(v.fsType, v.nFatent) + 511) / 512 <= SectorsPerFat(b)
    ensures UnboundedBoundaries(v.volbase, b, fasize, sysect, v.nFatent - 2) == Some(v)
  {
  }

  lemma RecordedFields(b: Bpb, v: Volume)
    requires v.Valid() && Records(b, v)
    ensures v.database == v.volbase + SystemSectors(b) && v.csize != 0 && SystemSectors(b) <= SectorsOnVolume(b)
    ensures Accepted(b, SystemSectors(b)) && v.fsType == TypeOf(v.nFatent - 2)
    ensures (v.fsType == Fat32) == (b.rootEntCnt == 0)
    ensures v.dirbase == if v.fsType == Fat32 then b.rootClus else v.volbase + b.rsvdSecCnt + SectorsPerFat(b) * b.numFats
    ensures (FatBytesNeeded(v.fsType, v.nFatent) + 511) / 512 <= SectorsPerFat(b)
  {
    assert LookVolume(0);
    FatAreaIs(v);
    SizesArePow2(v.csize);
    DataBehind(v, v.nFatent);
    FatNeeds(v.fsType, v.nFatent, v.fsize);
  }

  lemma {:induction false} DataBehind(v: Volume, c: nat)
    ensures v.database <= v.ClusterStart(c)
  {
    if c > 2 {
      DataBehind(v, c - 1);
    }
  }

  lemma RecordedClusters(b: Bpb, v: Volume)
    requires v.Layout() && Records(b, v) && v.database == v.volbase + SystemSectors(b)
    requires SystemSectors(b) <= SectorsOnVolume(b)
    ensures Clusters(SectorsOnVolume(b) - SystemSectors(b), v.csize) == v.nFatent - 2
  {
    StartFormula(v, v.nFatent);
    OnlyQuotient(SectorsOnVolume(b) - SystemSectors(b), v.csize, v.nFatent - 2);
  }

  lemma SizesArePow2(c: nat)
    requires c in {1, 2, 4, 8, 16, 32, 64, 128}
    ensures ZeroOrPow2(c)
  {
    assert ZeroOrPow2(1) && ZeroOrPow2(2) && ZeroOrPow2(4) && ZeroOrPow2(8);
    assert ZeroOrPow2(16) && ZeroOrPow2(32) && ZeroOrPow2(64);
  }

  lemma OnlyQuotient(room: nat, c: nat, n: nat)
    requires 0 < c && n * c <= room < n * c + c
    ensures Clusters(room, c) == n
  {
    var m := Clusters(room, c);
    if m < n {
      AtLeastOneMore(m, n, c);
    } else if n < m {
      AtLeastOneMore(n, m, c);
    }
  }

  // A FAT with room for n entries has as many sectors as find_volume asks for.
  lemma FatNeeds(t: FatType, n: nat, fsize: nat)
    requires n < 0x0FFF_FFFF && TableFits(t, n, fsize * 512)
    ensures (FatBytesNeeded(t, n) + 511) / 512 <= fsize
  {
    InSectors(FatBytesNeeded(t, n), fsize);
    if t == Fat32 {
      Small(n * 4);
    } else if t == Fat12 {
      OneAndAHalf(n);
    }
  }

  /** A volume with two FATs: FAT16, 8145 clusters of four sectors. */
  lemma TwoFatsMounted()
    ensures FindVolume(0, Bpb(512, 4, 1, 2, 512, 32680, 0, 32, 0, 0)) == Some(Volume(Fat16, 4, 2, 512, 8147, 32, 0, 1, 65, 97))
  {
    var b := Bpb(512, 4, 1, 2, 512, 32680, 0, 32, 0, 0);
    assert SystemSectors(b) == 97;
    WithoutOverflow(0, b);
    SizesArePow2(4);
    OnlyQuotient(32583, 4, 8145);
    assert UnboundedBoundaries(0, b, 64, 97, 8145) == Some(Volume(Fat16, 4, 2, 512, 8147, 32, 0, 1, 65, 97));
  }

  lemma FatAreaIs(v: Volume)
    requires v.nFats == 1 || v.nFats == 2
    ensures v.FatArea() == v.fsize * v.nFats
  {
  }

  lemma ChecksPass(v: Volume)
    requires v.csize in {1, 2, 4, 8, 16, 32, 64, 128} && v.nFatent >= 2 && v.fsType == TypeOf(v.nFatent - 2)
    requires TableFits(v.fsType, v.nFatent, v.fsize * 512)
    requires v.nRootdir % 16 == 0 && v.fatbase + v.FatArea() + v.nRootdir / 16 == v.database
    requires (v.fsType == Fat32) == (v.nRootdir == 0) && (v.fsType != Fat32 ==> v.dirbase == v.fatbase + v.FatArea())
    requires v.DataEnd() < 0xFFFF_FFFF
    ensures v.Checked()
  {
  }

  // Formatting. ------------------------------------------------------------------------------

  // Where f_mkfs puts things: cluster size, FAT size and the sectors it writes from.
  datatype Layout = Layout(t: FatType, au: nat, nRsv: nat, nFat: nat, nDir: nat, nClst: nat)
  {
    function FatStart(bVol: nat): nat {
      bVol + nRsv
    }

    function RootStart(bVol: nat): nat {
      bVol + nRsv + nFat
    }

    function DataStart(bVol: nat): nat {
      bVol + nRsv + nFat + nDir
    }
  }

  const VST: seq<nat> := [1024, 512, 256, 128, 64, 32, 16, 8, 4, 2, 0]
  const CST: seq<nat> := [32768, 16384, 8192, 4096, 2048, 16384, 8192, 4096, 2048, 1024, 512]

  // The first threshold from i on that vs reaches; the last one is 0.
  function Reached(vs: nat, i: nat): (k: nat)
    requires i <= 10
    ensures i <= k <= 10
    decreases 10 - i
  {
    if i == 10 || vs >= VST[i] then i else Reached(vs, i + 1)
  }

  // The automatic choice of the allocation unit, in bytes: the entry of CST at the first
  // threshold that vs reaches.
  method AutoUnit(vs: nat) returns (au: nat)
    ensures au == CST[Reached(vs, 0)]
    ensures exists i :: 0 <= i < 11 && vs >= VST[i] && (forall k :: 0 <= k < i ==> vs < VST[k]) && au == CST[i]
    ensures au in {512, 1024, 2048, 4096, 8192, 16384, 32768}
  {
    var i := 0;
    while vs < VST[i]
      invariant 0 <= i < 11 && (forall k :: 0 <= k < i ==> vs < VST[k]) && Reached(vs, 0) == Reached(vs, i)
      decreases 11 - i
    {
      i := i + 1;
    }
    au := CST[i];
  }

  lemma HalfPow2(x: nat)
    requires ZeroOrPow2(x) && 2 <= x
    ensures x % 2 == 0 && ZeroOrPow2(x / 2)
  {
  }

  // A power of two is one after division by 512, if it is large enough.
  lemma SectorsPow2(x: nat)
    requires ZeroOrPow2(x) && 512 <= x
    ensures ZeroOrPow2(x / 512) && 1 <= x / 512
  {
    HalfPow2(x);
    HalfPow2(x / 2);
    HalfPow2(x / 2 / 2);
    EighthPow2(x / 2 / 2 / 2);
    By512(x);
  }

  lemma By512(x: nat)
    ensures x / 2 / 2 / 2 / 64 == x / 512
  {
    assert x / 2 / 2 / 2 == x / 8;
  }

  lemma EighthPow2(x: nat)
    requires ZeroOrPow2(x) && 64 <= x
    ensures ZeroOrPow2(x / 64)
  {
    HalfPow2(x);
    HalfPow2(x / 2);
    HalfPow2(x / 4);
    HalfPow2(x / 8);
    HalfPow2(x / 16);
    HalfPow2(x / 32);
  }

  // The allocation unit in bytes or sectors: the caller's wish, or one chosen by size.
  function Wished(nVol: nat, wish: nat): nat {
    if ZeroOrPow2(wish) && wish != 0 then wish else CST[Reached(nVol / 2000, 0)]
  }

  // The allocation unit in sectors.
  function Unit(nVol: nat, wish: nat): nat {
    InSectorUnits(Wished(nVol, wish))
  }

  function InSectorUnits(w: nat): nat {
    var s := if w >= 512 then w / 512 else w;
    if s > 128 then 128 else s
  }

  method AllocationUnit(nVol: nat, wish: nat) returns (au: nat)
    ensures au == Unit(nVol, wish) && au != 0
  {
    au := if ZeroOrPow2(wish) then wish else 0;
    if au == 0 {
      au := AutoUnit(nVol / 2000);
    }
    if au >= 512 {
      au := au / 512;
    }
    // The test for 0 that follows in f_mkfs never fires.
    assert au != 0;
    if au > 128 {
      au := 128;
    }
  }

  /** Clusters are a power of two of at most 128 sectors; a wish in sectors is granted. */
  lemma UnitPow2(nVol: nat, wish: nat)
    ensures 1 <= Unit(nVol, wish) <= 128 && ZeroOrPow2(Unit(nVol, wish))
    ensures ZeroOrPow2(wish) && 0 < wish <= 128 ==> Unit(nVol, wish) == wish
  {
    var w := Wished(nVol, wish);
    AutoPow2(Reached(nVol / 2000, 0));
    if w >= 512 {
      SectorsPow2(w);
    }
    assert ZeroOrPow2(128) by {
      AutoPow2(10);
      HalfPow2(512);
      HalfPow2(256);
    }
  }

  /** The automatic choice for a drive of so many sectors, and a wish given in bytes. */
  lemma UnitTable(nVol: nat)
    ensures Unit(nVol, 0) ==
      if nVol >= 2048000 then 64 else if nVol >= 1024000 then 32 else if nVol >= 512000 then 16
      else if nVol >= 256000 then 8 else if nVol >= 128000 then 4 else if nVol >= 64000 then 32
      else if nVol >= 32000 then 16 else if nVol >= 16000 then 8 else if nVol >= 8000 then 4
      else if nVol >= 4000 then 2 else 1
    ensures Unit(nVol, 4096) == 8 && Unit(nVol, 65536) == 128 && Unit(nVol, 3) == Unit(nVol, 0)
  {
    var vs := nVol / 2000;
    assert Reached(vs, 0) ==
      if vs >= 1024 then 0 else if vs >= 512 then 1 else if vs >= 256 then 2 else if vs >= 128 then 3
      else if vs >= 64 then 4 else if vs >= 32 then 5 else if vs >= 16 then 6 else if vs >= 8 then 7
      else if vs >= 4 then 8 else if vs >= 2 then 9 else 10;
    Powers();
    AutoPow2(0);
    assert ZeroOrPow2(65536) by {
      assert ZeroOrPow2(32768);
    }
  }

  lemma AutoPow2(i: nat)
    requires i < 11
    ensures ZeroOrPow2(CST[i]) && 512 <= CST[i]
  {
    Powers();
  }

  lemma Powers()
    ensures ZeroOrPow2(512) && ZeroOrPow2(1024) && ZeroOrPow2(2048) && ZeroOrPow2(4096)
    ensures ZeroOrPow2(8192) && ZeroOrPow2(16384) && ZeroOrPow2(32768)
  {
    assert ZeroOrPow2(1) && ZeroOrPow2(2) && ZeroOrPow2(4) && ZeroOrPow2(8) && ZeroOrPow2(16);
    assert ZeroOrPow2(32) && ZeroOrPow2(64) && ZeroOrPow2(128) && ZeroOrPow2(256);
  }

  // Sectors per FAT before alignment, for so many clusters.
  function FatSectors(t: FatType, n: nat): nat {
    match t
    case Fat32 => Word32(Word32(n * 4) + 8 + 511) / 512
    case Fat16 => (n * 2 + 4 + 511) / 512
    case Fat12 => ((n * 3 + 1) / 2 + 3 + 511) / 512
  }

  function Reserved(t: FatType): nat {
    if t == Fat32 then 32 else 1
  }

  function RootSectors(t: FatType): nat {
    if t == Fat32 then 0 else 32
  }

  // The FAT sized for n clusters has room for the entries of n or fewer.
  lemma FatSuffices(t: FatType, n: nat, m: nat)
    requires m <= n && n * 4 + 519 < 0x1_0000_0000
    ensures (FatBytesNeeded(t, m + 2) + 511) / 512 <= FatSectors(t, n)
  {
    Small((m + 2) * 4);
    Small(n * 4);
    Small(n * 4 + 8 + 511);
    OneAndAHalf(m + 2);
    HalfMore(n);
    HalfMore(m);
  }

  lemma HalfMore(n: nat)
    ensures (n * 3 + 1) / 2 == 3 * (n / 2) + 2 * (n % 2)
  {
    var h, r := n / 2, n % 2;
    assert n * 3 + 1 == 2 * (3 * h + 2 * r) + (1 - r);
  }

  // The boot sector of a layout.
  function BootSector(l: Layout, nVol: nat): Bpb {
    Bpb(512, l.au, Word16(l.nRsv), 1, if l.t == Fat32 then 0 else 512,
        if nVol < 0x1_0000 then nVol else 0, if nVol < 0x1_0000 then 0 else nVol,
        if l.t == Fat32 then 0 else Word16(l.nFat), if l.t == Fat32 then l.nFat else 0, if l.t == Fat32 then 2 else 0)
  }

  // A WORD.
  function Word16(x: nat): nat {
    x % 0x1_0000
  }

  // The volume a layout stands for.
  function VolumeOf(l: Layout, bVol: nat): Volume {
    Volume(l.t, l.au, 1, if l.t == Fat32 then 0 else 512, l.nClst + 2, l.nFat, bVol, l.FatStart(bVol),
           if l.t == Fat32 then 2 else l.RootStart(bVol), l.DataStart(bVol))
  }

  // At least one cluster remains.
  predicate Room(l: Layout, nVol: nat) {
    l.DataStart(0) + l.au <= nVol
  }

  // What f_mkfs guarantees of the layout it writes, when it counts on n clusters at first.
  predicate Sized(l: Layout, nVol: nat, n: nat) {
    && 1 <= l.au <= 128 && ZeroOrPow2(l.au) && n * 4 + 519 < 0x1_0000_0000 && nVol < 0x1_0000_0000
    && l.t == TypeOf(n) && l.nDir == RootSectors(l.t)
    && Reserved(l.t) <= l.nRsv <= Reserved(l.t) + 32767
    && FatSectors(l.t, n) <= l.nFat <= FatSectors(l.t, n) + 32767
    && (l.DataStart(0) <= nVol ==> l.nClst == Clusters(nVol - l.DataStart(0), l.au))
    && (l.t == Fat16 ==> l.nClst >= MIN_FAT16) && (l.t == Fat32 ==> l.nClst >= MIN_FAT32)
  }

  lemma FewerClusters(nVol: nat, less: nat, au: nat)
    requires 0 < au && less <= nVol
    ensures Clusters(nVol - less, au) <= Clusters(nVol, au)
  {
    var m, n := Clusters(nVol - less, au), Clusters(nVol, au);
    if n < m {
      AtLeastOneMore(n, m, au);
    }
  }

  lemma AtLeastOneMore(n: nat, m: nat, c: nat)
    requires n < m
    ensures n * c + c <= m * c
  {
    assert m * c == n * c + (m - n) * c;
    AtLeast(c, m - n);
    assert c * (m - n) == (m - n) * c;
  }

  lemma FatSectorsBound(t: FatType, n: nat)
    requires t == TypeOf(n) && n * 4 + 519 < 0x1_0000_0000
    ensures 0 < FatSectors(t, n) < 0x80_0001 && (t != Fat32 ==> FatSectors(t, n) <= 256)
  {
    Small(n * 4);
    Small(n * 4 + 519);
    HalfMore(n);
  }

  // Nothing is cut off in the 16-bit fields.
  lemma FieldsFit(l: Layout, nVol: nat, n: nat)
    requires Sized(l, nVol, n)
    ensures Word16(l.nRsv) == l.nRsv && (l.t != Fat32 ==> Word16(l.nFat) == l.nFat) && 0 < l.nFat
    ensures l.DataStart(0) < 0x1_0000_0000 && l.nFat < 0x1_0000_0000
  {
    FatSectorsBound(l.t, n);
  }

  /**
   * Mounting what f_mkfs wrote recovers the same volume if and only if at least one cluster
   * remains behind the aligned system area.
   */
  lemma RoundTrip(l: Layout, bVol: nat, nVol: nat, n: nat)
    requires Sized(l, nVol, n) && n == Clusters(nVol, l.au) && bVol + nVol + 0x8000 < 0x1_0000_0000 && 0 < nVol
    ensures FindVolume(bVol, BootSector(l, nVol)) == if Room(l, nVol) then Some(VolumeOf(l, bVol)) else None
  {
    var b, sysect := BootSector(l, nVol), l.DataStart(0);
    FieldsFit(l, nVol, n);
    BootFields(l, nVol, n);
    if sysect <= nVol {
      var m := Clusters(nVol - sysect, l.au);
      FewerClusters(nVol, sysect, l.au);
      ClustersLeft(l, nVol, n);
      BoundariesSmall(bVol, b, l.nFat, sysect, m);
      assert FindVolume(bVol, b) == UnboundedBoundaries(bVol, b, l.nFat, sysect, m);
      BoundariesOf(l, bVol, nVol, m);
    }
  }

  // The boundaries that the fields of the boot sector stand for.
  lemma BoundariesOf(l: Layout, bVol: nat, nVol: nat, m: nat)
    requires var b := BootSector(l, nVol); SectorsPerFat(b) == l.nFat && b.rsvdSecCnt == l.nRsv
    requires m > 0 ==> TypeOf(m) == l.t && (FatBytesNeeded(l.t, m + 2) + 511) / 512 <= l.nFat
    ensures UnboundedBoundaries(bVol, BootSector(l, nVol), l.nFat, l.DataStart(0), m)
         == if m == 0 then None else Some(VolumeOf(l.(nClst := m), bVol))
  {
  }

  lemma BootFields(l: Layout, nVol: nat, n: nat)
    requires Sized(l, nVol, n) && 0 < nVol && l.DataStart(0) < 0x1_0000_0000 && l.nFat < 0x1_0000_0000
    requires Word16(l.nRsv) == l.nRsv && (l.t != Fat32 ==> Word16(l.nFat) == l.nFat) && 0 < l.nFat
    ensures var b := BootSector(l, nVol);
      && SectorsOnVolume(b) == nVol && SectorsPerFat(b) == l.nFat && b.rsvdSecCnt == l.nRsv
      && Word32(SectorsPerFat(b) * b.numFats) == l.nFat
      && Word32(b.rsvdSecCnt + l.nFat + b.rootEntCnt / 16) == l.DataStart(0)
  {
    Small(l.nFat);
    Small(l.DataStart(0));
  }

  // The clusters that remain: of the type chosen before, and with room in the FAT.
  lemma ClustersLeft(l: Layout, nVol: nat, n: nat)
    requires Sized(l, nVol, n) && l.DataStart(0) <= nVol && l.nClst <= n
    ensures l.nClst * 4 + 519 < 0x1_0000_0000 && (l.nClst == 0 <==> !Room(l, nVol))
    ensures l.nClst > 0 ==> TypeOf(l.nClst) == l.t && (FatBytesNeeded(l.t, l.nClst + 2) + 511) / 512 <= l.nFat
  {
    FatSuffices(l.t, n, l.nClst);
    NoneOrSome(nVol - l.DataStart(0), l.au);
  }

  lemma NoneOrSome(room: nat, c: nat)
    requires 0 < c
    ensures Clusters(room, c) == 0 <==> room < c
  {
    var m := Clusters(room, c);
    if m > 0 {
      AtLeast(c, m);
      assert c * m == m * c;
    }
  }

  // The alignment block in sectors: the drive's answer, if it is usable.
  function BlockSize(answer: nat): nat {
    if answer == 0 || answer > 32768 then 1 else answer
  }

  // How far the data area moves up to begin on a block boundary. (The mask of the C code clears
  // the remainder, as block sizes are powers of two.)
  function AlignGap(bData: nat, n: nat): (gap: nat)
    requires 0 < n
    ensures gap < n && (bData + gap) % n == 0
  {
    var up := bData + n - 1;
    NextMultiple(bData, n);
    up - up % n - bData
  }

  lemma NextMultiple(x: nat, n: nat)
    requires 0 < n
    ensures var up := x + n - 1; x <= up - up % n < x + n && (up - up % n) % n == 0
  {
    var up := x + n - 1;
    var q := up / n;
    PosFormula(n, q);
    assert up - up % n == Pos(n, q);
    PosDiv(n, q, Pos(n, q));
  }

  // The layout of f_mkfs before the data area is aligned.
  function Plan(nVol: nat, wish: nat): (l: Layout)
    requires 0 < Unit(nVol, wish)
  {
    PlanFor(Unit(nVol, wish), Clusters(nVol, Unit(nVol, wish)))
  }

  function PlanFor(au: nat, n: nat): Layout {
    Layout(TypeOf(n), au, Reserved(TypeOf(n)), FatSectors(TypeOf(n), n), RootSectors(TypeOf(n)), n)
  }

  method PlanVolume(nVol: nat, wish: nat) returns (l: Layout, ghost n: nat)
    requires nVol < 0x1_0000_0000
    ensures 0 < Unit(nVol, wish) == l.au && n == Clusters(nVol, l.au) && l == Plan(nVol, wish) == PlanFor(l.au, n)
  {
    var au := AllocationUnit(nVol, wish);
    var nClst := Clusters(nVol, au);
    n := nClst;
    var t := TypeOf(nClst);
    l := Layout(t, au, Reserved(t), FatSectors(t, nClst), RootSectors(t), nClst);
  }

  // The alignment: FAT32 gets more reserved sectors, FAT12 and FAT16 a larger FAT.
  function Aligned(l: Layout, gap: nat): Layout {
    if l.t == Fat32 then l.(nRsv := l.nRsv + gap) else l.(nFat := l.nFat + gap)
  }

  // Mounting boot sector b gives the volume of the layout if a cluster remains, else nothing.
  // (In two steps, so that contracts carry it as a name.)
  predicate Recovers(l: Layout, bVol: nat, b: Bpb, remains: bool) {
    Recovered(l, bVol, b, remains) == true
  }

  predicate Recovered(l: Layout, bVol: nat, b: Bpb, remains: bool) {
    FindVolume(bVol, b) == if remains then Some(VolumeOf(l, bVol)) else None
  }

  lemma BootSectorRecovers(l: Layout, bVol: nat, nVol: nat, n: nat)
    requires Sized(l, nVol, n) && n == Clusters(nVol, l.au) && bVol + nVol + 0x8000 < 0x1_0000_0000 && 0 < nVol
    ensures Recovers(l, bVol, BootSector(l, nVol), Room(l, nVol))
  {
    RoundTrip(l, bVol, nVol, n);
  }

  predicate OnBlock(sector: nat, block: nat)
    requires 0 < block
  {
    sector % block == 0
  }

  // The layout after the alignment.
  function Final(plan: Layout, bVol: nat, nVol: nat, block: nat): Layout
    requires 0 < block && 0 < plan.au
  {
    var l := Aligned(plan, AlignGap(plan.DataStart(bVol), block));
    l.(nClst := Remaining(l, nVol))
  }

  // Too few clusters for the type of FAT. FAT12 passes with any number.
  predicate TooFew(l: Layout) {
    (l.t == Fat16 && l.nClst < MIN_FAT16) || (l.t == Fat32 && l.nClst < MIN_FAT32)
  }

  // The size test of f_mkfs, before the alignment.
  predicate LargeEnough(nVol: nat, bVol: nat, wish: nat)
    requires 0 < Unit(nVol, wish)
  {
    Plan(nVol, wish).DataStart(bVol) + Unit(nVol, wish) - bVol <= nVol
  }

  // f_mkfs gives up.
  predicate Refuses(nVol: nat, bVol: nat, wish: nat, block: nat)
    requires 0 < block && 0 < Unit(nVol, wish)
  {
    !LargeEnough(nVol, bVol, wish) || TooFew(Final(Plan(nVol, wish), bVol, nVol, block))
  }

  // f_mkfs from the alignment to the final check of the FAT type.
  method AlignVolume(plan: Layout, bVol: nat, nVol: nat, block: nat, ghost n: nat) returns (res: FResult, l: Layout)
    requires 0 < block <= 32768 && plan.DataStart(bVol) + plan.au <= bVol + nVol && nVol < 0x1_0000_0000
    requires 1 <= plan.au <= 128 && ZeroOrPow2(plan.au) && plan.t == TypeOf(n) && plan.nDir == RootSectors(plan.t)
    requires plan.nRsv == Reserved(plan.t) && plan.nFat == FatSectors(plan.t, n)
    ensures (res == Ok || res == MkfsAborted) && l.au == plan.au && OnBlock(l.DataStart(bVol), block)
    ensures Moved(l, plan, bVol, block) && res == if TooFew(Final(plan, bVol, nVol, block)) then MkfsAborted else Ok
    ensures res == Ok && n * 4 + 519 < 0x1_0000_0000 ==> Sized(l, nVol, n) == true
  {
    var gap := AlignGap(plan.DataStart(bVol), block);
    l := Aligned(plan, gap);
    l := l.(nClst := Remaining(l, nVol));
    res := if TooFew(l) then MkfsAborted else Ok;
    AlignedIsSized(plan, gap, nVol, n);
  }

  // The final number of clusters; the subtraction wraps if the system area is too large.
  function Remaining(l: Layout, nVol: nat): nat
    requires 0 < l.au
  {
    Clusters(Word32(nVol - l.nRsv - l.nFat - l.nDir), l.au)
  }

  lemma AlignedIsSized(plan: Layout, gap: nat, nVol: nat, n: nat)
    requires gap < 32768 && nVol < 0x1_0000_0000 && 1 <= plan.au <= 128 && ZeroOrPow2(plan.au)
    requires plan.t == TypeOf(n) && plan.nDir == RootSectors(plan.t)
    requires plan.nRsv == Reserved(plan.t) && plan.nFat == FatSectors(plan.t, n)
    ensures var l := Aligned(plan, gap).(nClst := Remaining(Aligned(plan, gap), nVol));
      && (forall bVol: nat :: l.DataStart(bVol) == plan.DataStart(bVol) + gap)
      && ((l.t == Fat16 && l.nClst < MIN_FAT16) || (l.t == Fat32 && l.nClst < MIN_FAT32)
          || n * 4 + 519 >= 0x1_0000_0000 || Sized(l, nVol, n))
  {
    var l := Aligned(plan, gap);
    if l.DataStart(0) <= nVol {
      Small(nVol - l.DataStart(0));
    }
  }

  // Where a volume of n sectors begins: behind a partition table, unless it is the whole drive.
  function VolumeStart(sfd: bool): nat {
    if sfd then 0 else 63
  }

  // A cluster remains after alignment, in terms of what f_mkfs is called with.
  predicate Remains(nSectors: nat, sfd: bool, wish: nat, blockAnswer: nat)
    requires 128 <= nSectors && 0 < Unit(nSectors - VolumeStart(sfd), wish)
  {
    var bVol := VolumeStart(sfd);
    var plan := Plan(nSectors - bVol, wish);
    plan.DataStart(0) + AlignGap(plan.DataStart(bVol), BlockSize(blockAnswer)) + plan.au <= nSectors - bVol
  }

  ghost predicate ValidUpTo(v: Volume, end: nat) {
    v.Valid() && v.DataEnd() <= end
  }

  lemma RemainsIsRoom(nSectors: nat, sfd: bool, wish: nat, blockAnswer: nat, l: Layout)
    requires 128 <= nSectors && 0 < Unit(nSectors - VolumeStart(sfd), wish) == l.au
    requires Moved(l, Plan(nSectors - VolumeStart(sfd), wish), VolumeStart(sfd), BlockSize(blockAnswer))
    ensures Room(l, nSectors - VolumeStart(sfd)) == Remains(nSectors, sfd, wish, blockAnswer)
  {
  }

  /**
   * f_mkfs: if it does not refuse the drive, then mounting the boot sector it writes gives the
   * very volume it laid out, exactly when a cluster remains after alignment, and that volume is
   * valid; the data area begins on a block boundary. (n is the number of clusters it counts on
   * at first; with more than 2^30 of them the size of the FAT wraps.)
   */
  method FMkfs(nSectors: nat, sfd: bool, wish: nat, blockAnswer: nat)
    returns (res: FResult, bVol: nat, l: Layout, b: Bpb, ghost n: nat)
    requires nSectors + 0x8000 < 0x1_0000_0000 && ZeroOrPow2(blockAnswer)
    ensures (res == DiskErr <==> nSectors < 128) && 1 <= l.au <= 128
    ensures nSectors >= 128 ==> bVol == VolumeStart(sfd) && 0 < Unit(nSectors - VolumeStart(sfd), wish) == l.au
    ensures nSectors >= 128 ==> n == Clusters(nSectors - VolumeStart(sfd), l.au)
    ensures nSectors >= 128 ==>
      res == if Refuses(nSectors - VolumeStart(sfd), VolumeStart(sfd), wish, BlockSize(blockAnswer)) then MkfsAborted else Ok
    ensures res == Ok && n * 4 + 519 < 0x1_0000_0000 ==>
      Recovers(l, bVol, b, Remains(nSectors, sfd, wish, blockAnswer)) == true
    ensures res == Ok && nSectors < 0x0FFF_FFF0 && Remains(nSectors, sfd, wish, blockAnswer) ==>
      ValidUpTo(VolumeOf(l, bVol), nSectors) == true
    ensures res == Ok ==> OnBlock(l.DataStart(bVol), BlockSize(blockAnswer)) == true
    ensures res == Ok && ZeroOrPow2(wish) && 0 < wish <= 128 ==> l.au == wish
  {
    bVol, l, n := 0, Layout(Fat12, 1, 0, 0, 0, 0), 0;
    b := BootSector(l, 0);
    res := DiskErr;
    if nSectors >= 128 {
      bVol := VolumeStart(sfd);
      res, l, b, n := Format(nSectors, sfd, wish, blockAnswer);
    }
  }

  // f_mkfs on a drive that is large enough.
  method Format(nSectors: nat, sfd: bool, wish: nat, blockAnswer: nat)
    returns (res: FResult, l: Layout, b: Bpb, ghost n: nat)
    requires 128 <= nSectors && nSectors + 0x8000 < 0x1_0000_0000 && ZeroOrPow2(blockAnswer)
    ensures 1 <= l.au <= 128
    ensures n == Clusters(nSectors - VolumeStart(sfd), l.au) && 0 < Unit(nSectors - VolumeStart(sfd), wish) == l.au
    ensures res == if Refuses(nSectors - VolumeStart(sfd), VolumeStart(sfd), wish, BlockSize(blockAnswer)) then MkfsAborted else Ok
    ensures res == Ok && n * 4 + 519 < 0x1_0000_0000 ==>
      Recovers(l, VolumeStart(sfd), b, Remains(nSectors, sfd, wish, blockAnswer)) == true
    ensures res == Ok && nSectors < 0x0FFF_FFF0 && Remains(nSectors, sfd, wish, blockAnswer) ==>
      ValidUpTo(VolumeOf(l, VolumeStart(sfd)), nSectors) == true
    ensures res == Ok ==> OnBlock(l.DataStart(VolumeStart(sfd)), BlockSize(blockAnswer)) == true
    ensures res == Ok && ZeroOrPow2(wish) && 0 < wish <= 128 ==> l.au == wish
  {
    var bVol := VolumeStart(sfd);
    var nVol := nSectors - bVol;
    res, l, n := MakeVolume(bVol, nVol, wish, BlockSize(blockAnswer));
    b := BootSector(l, nVol);
    if res == Ok && n * 4 + 519 < 0x1_0000_0000 {
      BootSectorRecovers(l, bVol, nVol, n);
      RemainsIsRoom(nSectors, sfd, wish, blockAnswer, l);
      if Room(l, nVol) && nSectors < 0x0FFF_FFF0 {
        FormattedIsValid(l, bVol, nVol, n);
      }
    }
  }

  // f_mkfs up to the point where it writes to the drive.
  method MakeVolume(bVol: nat, nVol: nat, wish: nat, block: nat) returns (res: FResult, l: Layout, ghost n: nat)
    requires nVol < 0x1_0000_0000 && 0 < block <= 32768
    ensures 1 <= l.au <= 128 && 0 < Unit(nVol, wish) == l.au && n == Clusters(nVol, l.au)
    ensures res == if Refuses(nVol, bVol, wish, block) then MkfsAborted else Ok
    ensures res == Ok && n * 4 + 519 < 0x1_0000_0000 ==> Sized(l, nVol, n) == true
    ensures res == Ok ==> OnBlock(l.DataStart(bVol), block) == true && Moved(l, Plan(nVol, wish), bVol, block) == true
    ensures ZeroOrPow2(wish) && 0 < wish <= 128 ==> l.au == wish
  {
    UnitPow2(nVol, wish);
    l, n := PlanVolume(nVol, wish);
    if nVol < l.DataStart(bVol) + l.au - bVol {
      res := MkfsAborted;
    } else {
      res, l := AlignVolume(l, bVol, nVol, block, n);
    }
  }

  // The data area of l is that of the plan, moved to a block boundary.
  predicate Moved(l: Layout, plan: Layout, bVol: nat, block: nat)
    requires 0 < block
  {
    l.DataStart(0) == plan.DataStart(0) + AlignGap(plan.DataStart(bVol), block)
  }

  /** A volume that f_mkfs made and find_volume accepts is valid, if it has fewer than 2^28 sectors. */
  lemma FormattedIsValid(l: Layout, bVol: nat, nVol: nat, n: nat)
    requires Sized(l, nVol, n) && n == Clusters(nVol, l.au) && Room(l, nVol) && 0 < nVol < 0x0FFF_FFF0
    requires bVol + nVol + 0x8000 < 0x1_0000_0000
    ensures ValidUpTo(VolumeOf(l, bVol), bVol + nVol)
  {
    RoundTrip(l, bVol, nVol, n);
    FieldsFit(l, nVol, n);
    BootFields(l, nVol, n);
    MountedIsValid(bVol, BootSector(l, nVol));
  }

  /**
   * f_mkfs tests the size before it aligns, and FAT12 is not checked again: a partition on a
   * drive of 131 sectors with 32-sector clusters and 8-sector blocks passes, and no cluster remains.
   */
  lemma NothingRemains()
    ensures Unit(68, 32) == 32 && !Refuses(68, 63, 32, 8) && !Remains(131, false, 32, 8)
  {
    assert ZeroOrPow2(32) by {
      assert ZeroOrPow2(1) && ZeroOrPow2(2) && ZeroOrPow2(4) && ZeroOrPow2(8) && ZeroOrPow2(16);
    }
    assert Unit(68, 32) == 32;
    assert Plan(68, 32) == Layout(Fat12, 32, 1, 1, 32, 2);
    assert BlockSize(8) == 8 && AlignGap(97, 8) == 7;
  }

  /** On this drive, 584 sectors with 8-sector blocks, a cluster remains whatever is wished for. */
  lemma DriveRemains(sfd: bool, wish: nat)
    ensures 0 < Unit(584 - VolumeStart(sfd), wish) && Remains(584, sfd, wish, 8)
  {
    var nVol := 584 - VolumeStart(sfd);
    UnitPow2(nVol, wish);
    ClusterSizes(Unit(nVol, wish));
    var n := Clusters(nVol, Unit(nVol, wish));
    HalfMore(n);
    assert FatSectors(Fat12, n) <= 3;
  }

  // The cluster size that is chosen for a volume of fewer than 128000 sectors.
  lemma SmallUnit(nVol: nat)
    requires nVol < 128000
    ensures 1 <= Unit(nVol, 0) <= 32 && (nVol < 4000 ==> Unit(nVol, 0) == 1) && Clusters(nVol, Unit(nVol, 0)) < 4000
  {
    var vs := nVol / 2000;
    assert nVol == 2000 * vs + nVol % 2000;
    SmallReached(vs);
    FewClusters(nVol, Unit(nVol, 0));
  }

  lemma SmallReached(vs: nat)
    requires vs < 64
    ensures var i := Reached(vs, 0); i >= 5 && CST[i] / 512 * 2 > vs && (vs < 2 ==> i == 10) && CST[i] in {512, 1024, 2048, 4096, 8192, 16384}
  {
    assert Reached(vs, 0) == Reached(vs, 5);
  }

  /**
   * Every drive of 64 KB to 62 MB is formatted, with FAT12, if no cluster size is wished for and
   * the blocks of the drive are no larger than eight sectors.
   */
  lemma SmallDrives(nSectors: nat, sfd: bool, blockAnswer: nat)
    requires 128 <= nSectors < 128000 && BlockSize(blockAnswer) <= 8
    ensures var nVol := nSectors - VolumeStart(sfd);
      && 0 < Unit(nVol, 0) && !Refuses(nVol, VolumeStart(sfd), 0, BlockSize(blockAnswer))
      && Remains(nSectors, sfd, 0, blockAnswer) && Plan(nVol, 0).t == Fat12
  {
    var nVol := nSectors - VolumeStart(sfd);
    SmallUnit(nVol);
    var au := Unit(nVol, 0);
    SmallPlan(nVol, au, Clusters(nVol, au));
  }

  lemma SmallPlan(nVol: nat, au: nat, n: nat)
    requires 0 < au == Unit(nVol, 0) && n == Clusters(nVol, au) < 4000
    ensures var l := Plan(nVol, 0);
      l.t == Fat12 && l.au == au && l.nRsv == 1 && l.nFat <= 12 && l.nDir == 32
  {
    HalfMore(n);
  }

  lemma FewClusters(nVol: nat, au: nat)
    requires 0 < au && nVol < 4000 * au
    ensures Clusters(nVol, au) < 4000
  {
    var n := Clusters(nVol, au);
    if n >= 4000 {
      AtLeastTimes(4000, n, au);
    }
  }

  lemma AtLeastTimes(a: nat, b: nat, c: nat)
    requires a <= b
    ensures a * c <= b * c
  {
  }

  /** And what it is formatted with can be mounted. */
  method FormatSmall(nSectors: nat, sfd: bool, blockAnswer: nat) returns (v: Volume, b: Bpb)
    requires 128 <= nSectors < 128000 && BlockSize(blockAnswer) <= 8 && ZeroOrPow2(blockAnswer)
    ensures FindVolume(VolumeStart(sfd), b) == Some(v) && v.Valid() && v.DataEnd() <= nSectors && v.nFatent >= 3
  {
    SmallDrives(nSectors, sfd, blockAnswer);
    ghost var n;
    var res, bVol, l;
    res, bVol, l, b, n := FMkfs(nSectors, sfd, 0, blockAnswer);
    v := VolumeOf(l, bVol);
  }
}
