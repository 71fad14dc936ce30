/**
 * The drive under the file system: 512-byte sectors kept in a flash memory that is written
 * 4 KB at a time. Addresses and lengths are multiples of 512 bytes throughout and are counted
 * in blocks of that size.
 */
module Diskio {
  import opened Types
  import opened Geometry
  import opened FileMap

  // NOR_FLASH_START_ADDR, and a flash sector, in blocks.
  const START: nat := 416
  const FLASH_SECTOR: nat := 8

  class Flash {
    var blocks: seq<Sector>

    constructor (blocks: seq<Sector>)
      ensures this.blocks == blocks
    {
      this.blocks := blocks;
    }

    // QSpiFlashRead.
    method Read(addr: nat, n: nat) returns (data: seq<Sector>)
      requires addr + n <= |blocks|
      ensures data == blocks[addr..addr + n]
    {
      data := blocks[addr..addr + n];
    }

    // QSpiWriteOneSector: erase and write one flash sector.
    method WriteOneSector(addr: nat, data: seq<Sector>)
      requires addr % FLASH_SECTOR == 0 && addr + FLASH_SECTOR <= |blocks| && |data| == FLASH_SECTOR
      modifies this
      ensures blocks == Patched(old(blocks), addr, data)
    {
      blocks := blocks[..addr] + data + blocks[addr + FLASH_SECTOR..];
    }
  }

  // b with the blocks from addr on replaced by data.
  function Patched<S>(b: seq<S>, addr: nat, data: seq<S>): (r: seq<S>)
    requires addr + |data| <= |b|
    ensures |r| == |b|
  {
    b[..addr] + data + b[addr + |data|..]
  }

  lemma PatchedAt<S>(b: seq<S>, addr: nat, data: seq<S>, t: nat)
    requires addr + |data| <= |b| && t < |b|
    ensures Patched(b, addr, data)[t] == if addr <= t < addr + |data| then data[t - addr] else b[t]
  {
  }

  // Read-modify-write of one flash sector: w goes to its blocks from p on.
  method ModifySector(fl: Flash, index: nat, p: nat, w: seq<Sector>)
    requires p + |w| <= FLASH_SECTOR && START + index * 8 + FLASH_SECTOR <= |fl.blocks|
    modifies fl
    ensures fl.blocks == Patched(old(fl.blocks), START + index * 8 + p, w)
  {
    var addr := START + index * 8;
    var tempbuf := fl.Read(addr, FLASH_SECTOR);
    tempbuf := tempbuf[..p] + w + tempbuf[p + |w|..];
    ghost var b := fl.blocks;
    fl.WriteOneSector(addr, tempbuf);
    PatchedTwice(b, addr, p, w);
  }

  lemma PatchedTwice<S>(b: seq<S>, addr: nat, p: nat, w: seq<S>)
    requires p + |w| <= 8 && addr + 8 <= |b|
    ensures Patched(b, addr, Patched(b[addr..addr + 8], p, w)) == Patched(b, addr + p, w)
  {
    var d := Patched(b[addr..addr + 8], p, w);
    forall t | 0 <= t < |b| ensures Patched(b, addr, d)[t] == Patched(b, addr + p, w)[t] {
      PatchedAt(b, addr, d, t);
      PatchedAt(b, addr + p, w, t);
      if addr <= t < addr + 8 {
        PatchedAt(b[addr..addr + 8], p, w, t - addr);
      }
    }
  }

  // How many of count sectors, from position p of a flash sector on, are written before the
  // last flash sector is.
  function BeforeLast(p: nat, count: nat): (k: nat)
    requires p < 8
    ensures k <= count
  {
    if count <= 8 - p then 0 else 8 - p + (count - (8 - p) - 1) / 8 * 8
  }

  // The sectors that end up on the drive. The last flash sector, if it is not the first, gets its
  // data from behind the first piece of the buffer, wherever it lies itself.
  function Arriving<S>(buff: seq<S>, p: nat): (w: seq<S>)
    requires p < 8
    ensures |w| == |buff|
  {
    var k := BeforeLast(p, |buff|);
    if k == 0 then buff else buff[..k] + buff[8 - p..8 - p + |buff| - k]
  }

  // The flash sectors that hold the addressed sectors.
  predicate OnFlash(sector: nat, count: nat, size: nat) {
    START + (sector + count + 7) / 8 * 8 <= size && START + sector / 8 * 8 + 8 <= size
  }

  lemma NextOnFlash(sector: nat, count: nat, i: nat, size: nat)
    requires OnFlash(sector, count, size) && 1 <= i && 8 - sector % 8 + 8 * (i - 1) < count
    ensures var index, done := sector / 8 + i, 8 - sector % 8 + 8 * (i - 1);
      START + index * 8 == START + sector + done && START + index * 8 + 8 <= size
  {
  }

  lemma Prefixes<S>(s: seq<S>, k: nat, n: nat)
    requires k + n <= |s|
    ensures s[..k] + s[k..k + n] == s[..k + n]
  {
  }

  /**
   * disk_write, for any number of sectors: exactly the addressed sectors change, and what they
   * get is Arriving.
   */
  method DiskWrite(fl: Flash, buff: seq<Sector>, sector: nat, count: nat)
    requires |buff| == count && OnFlash(sector, count, |fl.blocks|)
    modifies fl
    ensures START + sector + count <= |fl.blocks|
    ensures fl.blocks == Patched(old(fl.blocks), START + sector, Arriving(buff, sector % 8))
  {
    var writeSector, writePoint := sector / 8, sector % 8;
    if count <= 8 - writePoint {
      ModifySector(fl, writeSector, writePoint, buff);
    } else {
      ModifySector(fl, writeSector, writePoint, buff[..8 - writePoint]);
      WriteRest(fl, buff, sector, count, old(fl.blocks));
    }
  }

  // All but the last left sectors of buff are on the flash, or all have arrived.
  ghost predicate Progress(fl: Flash, b: seq<Sector>, buff: seq<Sector>, addr: nat, p: nat, left: nat)
    requires p < 8
    reads fl
  {
    && left <= |buff| && addr + |buff| <= |b| == |fl.blocks|
    && fl.blocks == Patched(b, addr, if left > 0 then buff[..|buff| - left] else Arriving(buff, p))
  }

  // The loop of disk_write over the flash sectors after the first.
  method WriteRest(fl: Flash, buff: seq<Sector>, sector: nat, count: nat, ghost b: seq<Sector>)
    requires |buff| == count && OnFlash(sector, count, |b|) && 8 - sector % 8 < count
    requires Progress(fl, b, buff, START + sector, sector % 8, count - (8 - sector % 8))
    modifies fl
    ensures Progress(fl, b, buff, START + sector, sector % 8, 0)
  {
    var writeSector, p := sector / 8, sector % 8;
    var sectorCnt, i := count - (8 - p), 1;
    while sectorCnt > 0
      invariant 0 <= sectorCnt <= count - (8 - p) && 1 <= i && Progress(fl, b, buff, START + sector, p, sectorCnt) == true
      invariant sectorCnt > 0 ==> count - sectorCnt == 8 - p + 8 * (i - 1)
      decreases sectorCnt
    {
      NextOnFlash(sector, count, i, |b|);
      if sectorCnt <= 8 {
        LastPiece(buff, p, i, sectorCnt);
      }
      sectorCnt := WriteNext(fl, buff, START + sector, p, writeSector + i, sectorCnt, b);
      i := i + 1;
    }
  }

  // One round of that loop: sectorCnt sectors are left, and left of them behind it.
  method WriteNext(fl: Flash, buff: seq<Sector>, ghost addr: nat, p: nat, index: nat, sectorCnt: nat, ghost b: seq<Sector>)
    returns (left: nat)
    requires p < 8 && 8 - p + sectorCnt <= |buff| && 0 < sectorCnt && Progress(fl, b, buff, addr, p, sectorCnt)
    requires START + index * 8 == addr + |buff| - sectorCnt && START + index * 8 + 8 <= |b|
    requires sectorCnt <= 8 ==> Arriving(buff, p) == buff[..|buff| - sectorCnt] + buff[8 - p..8 - p + sectorCnt]
    modifies fl
    ensures Progress(fl, b, buff, addr, p, left) && left == if sectorCnt > 8 then sectorCnt - 8 else 0
  {
    var done := |buff| - sectorCnt;
    if sectorCnt > 8 {
      WritePiece(fl, index, buff[done..done + 8], b, addr, buff[..done]);
      Prefixes(buff, done, 8);
      left := sectorCnt - 8;
    } else {
      WritePiece(fl, index, buff[8 - p..8 - p + sectorCnt], b, addr, buff[..done]);
      left := 0;
    }
  }

  // One round: the next flash sector gets w.
  method WritePiece(fl: Flash, index: nat, w: seq<Sector>, ghost b: seq<Sector>, ghost addr: nat, ghost u: seq<Sector>)
    requires |w| <= 8 && START + index * 8 + 8 <= |fl.blocks| == |b| && START + index * 8 == addr + |u|
    requires fl.blocks == Patched(b, addr, u)
    modifies fl
    ensures fl.blocks == Patched(b, addr, u + w)
  {
    ModifySector(fl, index, 0, w);
    PatchedNext(b, addr, u, w);
  }

  lemma PatchedNext<S>(b: seq<S>, addr: nat, u: seq<S>, w: seq<S>)
    requires addr + |u| + |w| <= |b|
    ensures Patched(Patched(b, addr, u), addr + |u|, w) == Patched(b, addr, u + w)
  {
    forall t | 0 <= t < |b| ensures Patched(Patched(b, addr, u), addr + |u|, w)[t] == Patched(b, addr, u + w)[t] {
      PatchedAt(Patched(b, addr, u), addr + |u|, w, t);
      PatchedAt(b, addr, u, t);
      PatchedAt(b, addr, u + w, t);
    }
  }

  lemma LastPiece<S>(buff: seq<S>, p: nat, i: nat, left: nat)
    requires p < 8 && 1 <= i && 0 < left <= 8 && |buff| == 8 - p + 8 * (i - 1) + left
    ensures Arriving(buff, p) == buff[..|buff| - left] + buff[8 - p..8 - p + left]
  {
    BeforeLastPiece(p, i, left);
  }

  lemma BeforeLastPiece(p: nat, i: nat, left: nat)
    requires p < 8 && 1 <= i && 0 < left <= 8
    ensures BeforeLast(p, 8 - p + 8 * (i - 1) + left) == 8 - p + 8 * (i - 1)
  {
  }

  // What the caller asked for: every sector of the buffer in its place.
  ghost predicate WritesRight(p: nat, count: nat)
    requires p < 8
  {
    forall buff: seq<Sector> :: |buff| == count ==> Arriving(buff, p) == buff
  }

  /** disk_write writes what it is given, whatever that is, exactly for at most two flash sectors. */
  lemma WritesRightIff(p: nat, count: nat)
    requires p < 8
    ensures WritesRight(p, count) <==> p + count <= 16
  {
    if p + count <= 16 {
      forall buff: seq<Sector> | |buff| == count ensures Arriving(buff, p) == buff {
      }
    } else {
      WrongBuffer(p, count);
    }
  }

  // A buffer that a write across three flash sectors garbles: the sector that the last piece
  // takes its data from differs from the one that belongs there.
  lemma WrongBuffer(p: nat, count: nat)
    requires p < 8 && 16 < p + count
    ensures !WritesRight(p, count)
  {
    var zero: Sector, one: Sector := seq(512, _ => 0), seq(512, _ => 1);
    var k := BeforeLast(p, count);
    var buff: seq<Sector> := seq(count, t => if t == k then one else zero);
    assert zero[0] != one[0];
    assert 8 - p < k < count;
    assert Arriving(buff, p)[k] == buff[8 - p] == zero && buff[k] == one;
  }

  // Reading. -----------------------------------------------------------------------------------

  // How far disk_read's address has moved after i sectors.
  function Moved(i: nat): nat {
    if i == 0 then 0 else Moved(i - 1) + (i - 1)
  }

  lemma {:induction false} MovedGrows(i: nat, j: nat)
    requires i <= j
    ensures Moved(i) <= Moved(j)
  {
    if i < j {
      MovedGrows(i, j - 1);
    }
  }

  // The sectors at the places disk_read goes through.
  function Gathered<S>(b: seq<S>, addr: nat, n: nat): (r: seq<S>)
    requires n > 0 ==> addr + Moved(n - 1) < |b|
    ensures |r| == n && forall i :: 0 <= i < n ==> addr + Moved(i) < |b| && r[i] == b[addr + Moved(i)]
  {
    if n == 0 then [] else
      MovedGrows(if n == 1 then 0 else n - 2, n - 1);
      Gathered(b, addr, n - 1) + [b[addr + Moved(n - 1)]]
  }

  /** disk_read, as long as it stays on the flash: sector i comes from sector + Moved(i). */
  method DiskRead(fl: Flash, sector: nat, count: nat) returns (buff: seq<Sector>)
    requires count > 0 ==> START + sector + Moved(count - 1) < |fl.blocks|
    ensures buff == Gathered<Sector>(fl.blocks, START + sector, count)
  {
    var readOffset := sector;
    buff := [];
    var i := 0;
    while i < count
      invariant i <= count && readOffset == sector + Moved(i)
      invariant i > 0 ==> START + sector + Moved(i - 1) < |fl.blocks|
      invariant buff == Gathered<Sector>(fl.blocks, START + sector, i)
    {
      MovedGrows(i, count - 1);
      var data := fl.Read(START + readOffset, 1);
      buff := buff + data;
      readOffset := readOffset + i;
      i := i + 1;
    }
  }

  // What disk_read gathers stays on the flash.
  predicate Stays(size: nat, addr: nat, count: nat) {
    addr + count <= size && (count > 0 ==> addr + Moved(count - 1) < size)
  }

  // What the caller asked for: the sectors from the address on, whatever is on the flash.
  ghost predicate ReadsRight(count: nat) {
    forall b: seq<Sector>, addr: nat :: Stays(|b|, addr, count) ==> Gathered(b, addr, count) == b[addr..addr + count]
  }

  /** disk_read returns what is on the flash for one sector only: the second one is the first again. */
  lemma ReadsRightIff(count: nat)
    ensures ReadsRight(count) <==> count <= 1
  {
    if count > 1 {
      var zero: Sector, one: Sector := seq(512, _ => 0), seq(512, _ => 1);
      var b: seq<Sector> := seq(count + Moved(count - 1), t => if t == 1 then one else zero);
      assert zero[0] != one[0] && Moved(1) == 0;
      assert Stays(|b|, 0, count) && Gathered(b, 0, count)[1] == zero && b[0..0 + count][1] == one;
    } else {
      forall b: seq<Sector>, addr: nat | Stays(|b|, addr, count) ensures Gathered(b, addr, count) == b[addr..addr + count] {
        assert count == 1 ==> Gathered(b, addr, count)[0] == b[addr];
      }
    }
  }

  /**
   * What f_mkfs arranges: with the data area on a flash sector boundary and a cluster size that
   * divides a flash sector, every transfer that is clipped at the end of its cluster stays inside
   * one flash sector. With one sector per cluster every transfer is a single sector.
   */
  lemma ClippedTransferRight(v: Volume, c: nat, j: nat, cc: nat)
    requires v.Valid() && 2 <= c < v.nFatent && v.database % 8 == 0 && v.csize in {1, 2, 4, 8}
    requires 0 < cc && j + cc <= v.csize
    ensures At(v, c, j) % 8 + cc <= 8 && WritesRight(At(v, c, j) % 8, cc) == true
    ensures v.csize == 1 ==> cc == 1 && ReadsRight(cc) == true
  {
    ClippedInside(v, c, j, cc);
    WritesRightIff(At(v, c, j) % 8, cc);
    ReadsRightIff(cc);
  }

  lemma ClippedInside(v: Volume, c: nat, j: nat, cc: nat)
    requires v.Valid() && 2 <= c < v.nFatent && v.database % 8 == 0 && v.csize in {1, 2, 4, 8}
    requires 0 < cc && j + cc <= v.csize
    ensures At(v, c, j) % 8 + cc <= 8
  {
    ClusterFits(v, c);
    StartAligned(v, c);
    InsideSector(v.ClusterStart(c), v.csize, j, cc);
  }

  lemma InsideSector(s: nat, c: nat, j: nat, cc: nat)
    requires c in {1, 2, 4, 8} && s % c == 0 && j + cc <= c && 0 < cc
    ensures (s + j) % 8 + cc <= 8
  {
    RoomInSector(s / 8, s % 8, c, s);
    Shifted(s, j);
  }

  lemma Shifted(s: nat, j: nat)
    requires s % 8 + j < 8
    ensures (s + j) % 8 == s % 8 + j
  {
  }

  lemma RoomInSector(q: nat, r: nat, c: nat, s: nat)
    requires c in {1, 2, 4, 8} && s == 8 * q + r && r < 8 && s % c == 0
    ensures r + c <= 8
  {
    var k := s / c;
    if c == 2 {
      assert r == 2 * (k - 4 * q);
    } else if c == 4 {
      assert r == 4 * (k - 2 * q);
    } else if c == 8 {
      assert r == 8 * (k - q);
    }
  }

  // Clusters begin at multiples of their size within a flash sector.
  lemma {:induction false} StartAligned(v: Volume, c: nat)
    requires v.database % 8 == 0 && v.csize in {1, 2, 4, 8}
    ensures v.ClusterStart(c) % v.csize == 0
  {
    if c > 2 {
      StartAligned(v, c - 1);
      NextAligned(v.ClusterStart(c - 1), v.csize);
    } else {
      Coarser(v.database, v.csize);
    }
  }

  lemma NextAligned(s: int, c: nat)
    requires c in {1, 2, 4, 8} && s % c == 0
    ensures (s + c) % c == 0
  {
  }

  lemma Coarser(s: int, c: nat)
    requires c in {1, 2, 4, 8} && s % 8 == 0
    ensures s % c == 0
  {
  }
}
