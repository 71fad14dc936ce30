/**
 * The file system on the drive it is made for: f_mkfs, asked for no cluster size, makes clusters
 * of one sector on blocks of the flash, and for the transfers on such a volume the drive is a row
 * of sectors, as the file layer takes it to be.
 */
module Drive {
  import opened Types
  import opened Geometry
  import opened FileMap
  import opened Diskio
  import Mkfs

  // NOR_FLASH_SECTOR_COUNT, and the answer to GET_BLOCK_SIZE.
  const SECTORS: nat := 584
  const BLOCK: nat := 8

  // The sectors of the drive.
  function Disk<S>(blocks: seq<S>): (d: seq<S>)
    requires |blocks| == START + SECTORS
    ensures |d| == SECTORS
  {
    blocks[START..]
  }

  /** With no wish, a cluster is one sector. */
  lemma OneSectorClusters(sfd: bool)
    ensures Mkfs.Unit(SECTORS - Mkfs.VolumeStart(sfd), 0) == 1
  {
    var vs := (SECTORS - Mkfs.VolumeStart(sfd)) / 2000;
    assert vs == 0;
  }

  // A volume on this drive.
  ghost predicate OnDrive(v: Volume) {
    v.Valid() && v.DataEnd() <= SECTORS && v.database % BLOCK == 0
  }

  /** f_mkfs with no wish, and mounting what it wrote. */
  method FormatDrive(sfd: bool) returns (v: Volume)
    ensures OnDrive(v) && v.csize == 1
  {
    Mkfs.DriveRemains(sfd, 0);
    OneSectorClusters(sfd);
    ghost var n;
    var res, bVol, l, b;
    res, bVol, l, b, n := Mkfs.FMkfs(SECTORS, sfd, 0, BLOCK);
    v := Mkfs.VolumeOf(l, bVol);
  }

  // The transfers of the file layer: cc sectors from sector j of cluster c on, clipped at the end of the cluster.
  ghost predicate Clipped(v: Volume, c: nat, j: nat, cc: nat) {
    2 <= c < v.nFatent && 0 < cc && j + cc <= v.csize
  }

  lemma ClippedOnDrive(v: Volume, c: nat, j: nat, cc: nat)
    requires OnDrive(v) && Clipped(v, c, j, cc)
    ensures 0 <= At(v, c, j) && At(v, c, j) + cc <= SECTORS && OnFlash(At(v, c, j), cc, START + SECTORS)
  {
    ClusterFits(v, c);
  }

  /** A clipped write replaces sectors of the drive, if a cluster divides a flash sector. */
  method WriteClipped(fl: Flash, v: Volume, buff: seq<Sector>, c: nat, j: nat, cc: nat)
    requires |fl.blocks| == START + SECTORS && OnDrive(v) && Clipped(v, c, j, cc) && |buff| == cc
    requires v.csize in {1, 2, 4, 8}
    modifies fl
    ensures |fl.blocks| == START + SECTORS && 0 <= At(v, c, j) && At(v, c, j) + cc <= SECTORS
    ensures Disk(fl.blocks) == Patched(Disk(old(fl.blocks)), At(v, c, j), buff)
  {
    ClippedOnDrive(v, c, j, cc);
    ClippedTransferRight(v, c, j, cc);
    assert Arriving(buff, At(v, c, j) % 8) == buff;
    DiskWrite(fl, buff, At(v, c, j), cc);
    PatchedBehind(old(fl.blocks), START, At(v, c, j), buff);
  }

  lemma PatchedBehind<S>(b: seq<S>, start: nat, addr: nat, w: seq<S>)
    requires start + addr + |w| <= |b|
    ensures Patched(b, start + addr, w)[start..] == Patched(b[start..], addr, w)
  {
    forall t | 0 <= t < |b| - start ensures Patched(b, start + addr, w)[start + t] == Patched(b[start..], addr, w)[t] {
      PatchedAt(b, start + addr, w, start + t);
      PatchedAt(b[start..], addr, w, t);
    }
  }

  /** With one sector per cluster, a clipped read gives the sectors of the drive. */
  method ReadClipped(fl: Flash, v: Volume, c: nat, j: nat, cc: nat) returns (buff: seq<Sector>)
    requires |fl.blocks| == START + SECTORS && OnDrive(v) && Clipped(v, c, j, cc) && v.csize == 1
    ensures 0 <= At(v, c, j) && At(v, c, j) + cc <= SECTORS
    ensures buff == Disk(fl.blocks)[At(v, c, j)..At(v, c, j) + cc]
  {
    ClippedOnDrive(v, c, j, cc);
    ClippedTransferRight(v, c, j, cc);
    assert Moved(0) == 0 && Stays(|fl.blocks|, START + At(v, c, j), cc);
    buff := DiskRead(fl, At(v, c, j), cc);
  }
}
