/**
 * An open file: the state f_read, f_write and f_lseek share, and what ties it to the volume.
 * The file's data is its clusters on the logical disk, overlaid with a dirty sector buffer.
 */
module File {
  import opened Types
  import opened Geometry
  import opened Window
  import opened ClusterChains
  import opened FileData
  import opened FileMap

  // FIL.
  class Fil {
    const fs: Fatfs
    const buf: array<byte>
    var canRead: bool    // FA_READ
    var canWrite: bool   // FA_WRITE
    var written: bool    // FA__WRITTEN
    var dirty: bool      // FA__DIRTY
    var err: FResult
    var fptr: dword
    var fsize: dword
    var sclust: dword
    var clust: dword
    var dsect: dword

    // The chains of everything else; this file's chain, its sectors per cluster and all their
    // bytes, of which the file is the first fsize; the place of clust in the chain and the
    // sector of that cluster the pointer is inside of.
    ghost const others: set<seq<nat>>
    ghost var chain: seq<nat>
    ghost var data: seq<seq<seq<byte>>>
    ghost var bytes: seq<byte>
    ghost var pos: nat
    ghost var sec: nat

    constructor (fs: Fatfs, sclust: dword, fsize: dword, canRead: bool, canWrite: bool,
                 ghost others: set<seq<nat>>, ghost chain: seq<nat>, ghost data: seq<seq<seq<byte>>>)
      ensures this.fs == fs && this.sclust == sclust && this.fsize == fsize
      ensures this.canRead == canRead && this.canWrite == canWrite && !written && !dirty
      ensures err == Ok && fptr == clust == dsect == 0
      ensures this.others == others && this.chain == chain && this.data == data
      ensures bytes == Flat<byte>(Flat<seq<byte>>(data))
      ensures fresh(buf) && buf.Length == 512
    {
      this.fs, this.sclust, this.fsize := fs, sclust, fsize;
      this.canRead, this.canWrite, written, dirty := canRead, canWrite, false, false;
      err, fptr, clust, dsect := Ok, 0, 0, 0;
      buf := new byte[512];
      this.others, this.chain, this.data, pos, sec := others, chain, data, 0, 0;
      bytes := Flat<byte>(Flat<seq<byte>>(data));
    }

    // The file's contents.
    ghost function Content(): seq<byte>
      requires fsize <= |bytes|
      reads this
    {
      bytes[..fsize]
    }

    // Everything but the place of the file pointer. (Behind quantifiers, like
    // Volume.Checked; Sound is what they hide.)
    ghost predicate Core()
      reads `fsize, `chain, `data, `bytes, `sclust, `dirty, `dsect, buf
      reads fs`winsect, fs`wflag, fs`disk, fs`logical, fs`fat, fs.win
    {
      fsize <= |bytes| && SoundKept() == true
    }

    ghost predicate SoundKept()
      reads `fsize, `chain, `data, `bytes, `sclust, `dirty, `dsect, buf
      reads fs`winsect, fs`wflag, fs`disk, fs`logical, fs`fat, fs.win
    {
      forall k :: LookFile(k) ==> Sound()
    }

    ghost predicate Sound()
      reads `fsize, `chain, `data, `bytes, `sclust, `dirty, `dsect, buf
      reads fs`winsect, fs`wflag, fs`disk, fs`logical, fs`fat, fs.win
    {
      && fs.Valid() && buf.Length == 512 && buf != fs.win
      && |data| == |chain| && Uniform<seq<byte>>(data, fs.vol.csize)
      && bytes == Flat<byte>(Flat<seq<byte>>(data))
      && sclust == (if chain == [] then 0 else chain[0])
      && Mapped()
    }

    ghost predicate Mapped()
      requires buf.Length == 512
      reads `chain, `data, `dirty, `dsect, buf, fs`winsect, fs`logical, fs`fat
    {
      Consistent<seq<byte>>(fs.vol, others, chain, data, fs.fat, fs.logical, fs.winsect, dirty, dsect, buf[..])
    }

    // Where the file pointer is: behind the top of cluster pos, and off a sector boundary
    // the buffer holds its sector.
    ghost predicate AtPointer()
      reads `fptr, `pos, `sec, `clust, `dsect, `chain, `bytes
    {
      fptr <= |bytes| && Placed() == true
    }

    ghost predicate Placed()
      reads `fptr, `pos, `sec, `clust, `dsect, `chain
    {
      forall k :: LookFile(k) ==> InPlace()
    }

    ghost predicate InPlace()
      reads `fptr, `pos, `sec, `clust, `dsect, `chain
    {
        && (fptr > 0 ==> pos < |chain| && clust == chain[pos] && Top(fs.vol, pos) < fptr <= Top(fs.vol, pos + 1))
        && (fptr % 512 != 0 ==>
            && sec < fs.vol.csize && dsect == At(fs.vol, clust, sec)
            && Top(fs.vol, pos) + 512 * sec < fptr < Top(fs.vol, pos) + 512 * sec + 512)
    }

    ghost predicate Valid()
      reads this, buf, fs, fs.win
    {
      Core() && AtPointer() && fptr <= fsize
    }
  }

  // The parts of Core that do not mention the chain on the disk.
  ghost predicate Shape(fp: Fil)
    reads fp`fsize, fp`chain, fp`data, fp`bytes
    reads fp.fs`winsect, fp.fs`wflag, fp.fs`disk, fp.fs`logical, fp.fs`fat, fp.fs.win
  {
    && fp.fs.Valid() && fp.buf.Length == 512 && fp.buf != fp.fs.win
    && |fp.data| == |fp.chain| && Uniform<seq<byte>>(fp.data, fp.fs.vol.csize)
    && fp.bytes == Flat<byte>(Flat<seq<byte>>(fp.data))
    && fp.fsize <= |fp.bytes|
  }

  lemma Seal(fp: Fil)
    requires Shape(fp) && fp.sclust == (if fp.chain == [] then 0 else fp.chain[0])
    requires Consistent<seq<byte>>(fp.fs.vol, fp.others, fp.chain, fp.data, fp.fs.fat, fp.fs.logical, fp.fs.winsect,
                                   fp.dirty, fp.dsect, fp.buf[..])
    ensures fp.Core()
  {
  }

  lemma Unseal(fp: Fil)
    requires fp.Core()
    ensures Shape(fp) && fp.sclust == (if fp.chain == [] then 0 else fp.chain[0])
    ensures Consistent<seq<byte>>(fp.fs.vol, fp.others, fp.chain, fp.data, fp.fs.fat, fp.fs.logical, fp.fs.winsect,
                                  fp.dirty, fp.dsect, fp.buf[..])
  {
    assert LookFile(0);
  }

  lemma Stand(fp: Fil)
    requires fp.InPlace() && fp.fptr <= |fp.bytes|
    ensures fp.AtPointer()
  {
  }

  lemma WhereIs(fp: Fil)
    requires fp.AtPointer()
    ensures fp.InPlace() && fp.fptr <= |fp.bytes|
  {
    assert LookFile(0);
  }

  lemma PointerAtTop(fp: Fil)
    requires fp.fptr == 0
    ensures fp.AtPointer()
  {
    Stand(fp);
  }

  // The end of f_open for an existing file: the file object of a chain on the disk.
  method OpenFile(fs: Fatfs, sclust: dword, fsize: dword, canRead: bool, canWrite: bool,
                  ghost others: set<seq<nat>>, ghost chain: seq<nat>) returns (fp: Fil)
    requires fs.Valid() && Forest(fs.fat, WithOwn(others, chain)) && chain !in others
    requires sclust == (if chain == [] then 0 else chain[0])
    requires fs.logical != [] && fsize <= |Flat<byte>(Flat<seq<byte>>(OnDisk<seq<byte>>(fs.vol, chain, fs.logical)))|
    requires !Mine(fs.vol, others, fs.winsect)
    ensures fp.Valid() && fresh(fp) && fresh(fp.buf)
    ensures fp.fs == fs && fp.others == others && fp.chain == chain
    ensures fp.canRead == canRead && fp.canWrite == canWrite && fp.err == Ok && fp.fptr == 0 && fp.fsize == fsize
    ensures fp.Content() == Flat<byte>(Flat<seq<byte>>(OnDisk<seq<byte>>(fs.vol, chain, fs.logical)))[..fsize]
  {
    Reveal(fs);
    ghost var data := OnDisk<seq<byte>>(fs.vol, chain, fs.logical);
    fp := new Fil(fs, sclust, fsize, canRead, canWrite, others, chain, data);
    Opened<seq<byte>>(fs.vol, others, chain, fs.fat, fs.logical, fs.winsect, fp.buf[..]);
    Seal(fp);
    PointerAtTop(fp);
  }

  // Byte position of the top of cluster i of a chain.
  ghost function Top(v: Volume, i: nat): nat {
    Pos(512, Pos(v.csize, i))
  }

  // Write back the sector buffer if it is dirty.
  method FlushBuffer(fp: Fil)
    requires fp.Core()
    modifies fp`dirty, fp.fs`disk, fp.fs`logical
    ensures fp.Core() && !fp.dirty
    ensures OthersKept<seq<byte>>(fp.fs.vol, fp.others, old(fp.fs.logical), fp.fs.logical)
  {
    Unseal(fp);
    if fp.dirty {
      DirtyIsMine(fp);
      Flushed<seq<byte>>(fp.fs.vol, fp.others, fp.chain, fp.data, fp.fs.fat, fp.fs.logical, fp.fs.winsect, fp.dsect, fp.buf[..]);
      DiskWriteData(fp.fs, fp.buf[..], fp.dsect);
      fp.dirty := false;
      Seal(fp);
    }
  }

  lemma DirtyIsMine(fp: Fil)
    requires fp.Core() && fp.dirty
    ensures fp.fs.vol.database <= fp.dsect < |fp.fs.logical| && fp.dsect != fp.fs.winsect
  {
    assert LookFile(0) && LookMap(0);
  }

  // What Core says about sector j of cluster i of the file.
  lemma SectorOfFile(fp: Fil, i: nat, j: nat)
    requires fp.Core() && i < |fp.chain| && j < fp.fs.vol.csize
    ensures 2 <= fp.chain[i] < fp.fs.vol.nFatent
    ensures var s := At(fp.fs.vol, fp.chain[i], j);
            && fp.fs.vol.database <= s < |fp.fs.logical| && s != fp.fs.winsect
            && i < |fp.data| && j < |fp.data[i]|
            && fp.data[i][j] == Seen<seq<byte>>(fp.fs.logical, fp.dirty, fp.dsect, fp.buf[..], s)
  {
    assert LookFile(0) && LookMap(0);
    ClusterOnVolume(fp.fs.vol, fp.fs.fat, fp.others, fp.chain, |fp.fs.logical|, i, j);
  }

  // The buffer, once its sector is a sector of the file, holds what is seen there.
  lemma BufferOfFile(fp: Fil, i: nat, j: nat)
    requires fp.Core() && i < |fp.chain| && j < fp.fs.vol.csize && fp.dsect == At(fp.fs.vol, fp.chain[i], j)
    ensures i < |fp.data| && j < |fp.data[i]| && fp.buf[..] == fp.data[i][j]
  {
    assert LookFile(0) && LookMap(0);
    ClusterOnVolume(fp.fs.vol, fp.fs.fat, fp.others, fp.chain, |fp.fs.logical|, i, j);
  }
}
