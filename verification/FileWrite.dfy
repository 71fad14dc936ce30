/**
 * f_write: bytes go to the sector buffer, or whole sectors straight to the disk.
 */
module FileWrite {
  import opened Types
  import opened Geometry
  import opened Window
  import opened Allocator
  import opened FileData
  import opened FileMap
  import opened File
  import opened FileChain

  // Every byte position of the file, in clusters, sectors and bytes.
  lemma TopFormula(v: Volume, i: nat, j: nat)
    ensures Top(v, i) + 512 * j == Pos(512, Pos(v.csize, i) + j)
    ensures Top(v, i + 1) == Top(v, i) + 512 * v.csize
    ensures Top(v, i) == 512 * Pos(v.csize, i)
  {
    PosFormula(512, Pos(v.csize, i));
    PosFormula(512, Pos(v.csize, i) + j);
    PosFormula(512, Pos(v.csize, i + 1));
  }

  // On a sector boundary behind the top of cluster i: the sector within the cluster.
  lemma SectorInCluster(v: Volume, i: nat, p: nat)
    requires 0 < v.csize && p % 512 == 0 && Top(v, i) < p <= Top(v, i + 1)
    ensures p == Top(v, i + 1) ==> p / 512 % v.csize == 0
    ensures p < Top(v, i + 1) ==>
      var j := p / 512 % v.csize; 0 < j && p == Top(v, i) + 512 * j
  {
    TopFormula(v, i, 0);
    TopFormula(v, i + 1, 0);
    var k := p / 512;
    assert p == 512 * k;
    if p == Top(v, i + 1) {
      PosDiv(v.csize, i + 1, k);
    } else {
      PosDiv(v.csize, i, k);
    }
  }

  // All sectors of the file have 512 bytes.
  lemma FileSectors(fp: Fil)
    requires fp.Core()
    ensures Uniform<byte>(Flat<seq<byte>>(fp.data), 512)
  {
    Unseal(fp);
    forall i, j | 0 <= i < |fp.data| && 0 <= j < |fp.data[i]| ensures |fp.data[i][j]| == 512 {
      SectorOfFile(fp, i, j);
    }
    FlatUniform<byte>(fp.data, 512);
  }

  lemma {:induction false} FlatUniform<T>(x: seq<seq<seq<T>>>, n: nat)
    requires forall i, j :: 0 <= i < |x| && 0 <= j < |x[i]| ==> |x[i][j]| == n
    ensures Uniform<T>(Flat<seq<T>>(x), n)
  {
    if x != [] {
      FlatUniform<T>(x[..|x| - 1], n);
    }
  }

  // Whole sectors y stored at sector j of cluster i, as bytes.
  lemma SectorsAsBytes(v: Volume, data: seq<seq<seq<byte>>>, i: nat, j: nat, y: seq<seq<byte>>)
    requires Uniform<seq<byte>>(data, v.csize) && Uniform<byte>(Flat<seq<byte>>(data), 512) && Uniform<byte>(y, 512)
    requires i < |data| && j + |y| <= v.csize
    ensures var d := data[i := Splice<seq<byte>>(data[i], j, y)];
            var b := Flat<byte>(Flat<seq<byte>>(data));
            && Uniform<seq<byte>>(d, v.csize) && Uniform<byte>(Flat<seq<byte>>(d), 512)
            && Top(v, i) + 512 * j + |Flat<byte>(y)| <= |b|
            && Flat<byte>(Flat<seq<byte>>(d)) == Splice<byte>(b, Top(v, i) + 512 * j, Flat<byte>(y))
  {
    SpliceInRow<seq<byte>>(data, v.csize, i, j, y);
    SpliceRows<byte>(Flat<seq<byte>>(data), 512, Pos(v.csize, i) + j, y);
    TopFormula(v, i, j);
    FlatSize<byte>(y, 512);
  }

  // The file's sector j of cluster i, as bytes.
  lemma SectorInBytes(v: Volume, data: seq<seq<seq<byte>>>, i: nat, j: nat)
    requires Uniform<seq<byte>>(data, v.csize) && Uniform<byte>(Flat<seq<byte>>(data), 512)
    requires i < |data| && j < v.csize
    ensures var b := Flat<byte>(Flat<seq<byte>>(data));
            var p := Top(v, i) + 512 * j;
            p + 512 <= |b| && b[p..p + 512] == data[i][j]
  {
    RowAt<seq<byte>>(data, v.csize, i);
    var k := Pos(v.csize, i) + j;
    assert Flat<seq<byte>>(data)[Pos(v.csize, i)..Pos(v.csize, i) + v.csize][j] == Flat<seq<byte>>(data)[k];
    RowAt<byte>(Flat<seq<byte>>(data), 512, k);
    TopFormula(v, i, j);
  }

  // Account for what was stored in the file.
  ghost method SetData(fp: Fil, d: seq<seq<seq<byte>>>)
    requires fp.fs.Valid() && fp.buf.Length == 512 && fp.buf != fp.fs.win
    requires |d| == |fp.chain| && Uniform<seq<byte>>(d, fp.fs.vol.csize) && fp.fsize <= |Flat<byte>(Flat<seq<byte>>(d))|
    requires fp.sclust == (if fp.chain == [] then 0 else fp.chain[0])
    requires Consistent<seq<byte>>(fp.fs.vol, fp.others, fp.chain, d, fp.fs.fat, fp.fs.logical, fp.fs.winsect,
                                   fp.dirty, fp.dsect, fp.buf[..])
    modifies fp`data, fp`bytes
    ensures fp.Core() && fp.data == d && fp.bytes == Flat<byte>(Flat<seq<byte>>(d))
  {
    fp.data, fp.bytes := d, Flat<byte>(Flat<seq<byte>>(d));
    Seal(fp);
  }

  // disk_write of cc sectors, past the window.
  method WriteSectors(fs: Fatfs, bytes: seq<byte>, sect: nat, cc: nat)
    requires fs.Valid() && |bytes| == 512 * cc
    requires fs.vol.database <= sect && sect + cc <= |fs.disk| && !(sect <= fs.winsect < sect + cc)
    modifies fs`disk, fs`logical
    ensures fs.Valid()
    ensures Stored<seq<byte>>(old(fs.logical), sect, Rows<byte>(bytes, 512), fs.logical)
    ensures |Rows<byte>(bytes, 512)| == cc
  {
    var t := 0;
    while t < cc
      invariant t <= cc && fs.Valid() && |fs.logical| == |old(fs.logical)|
      invariant forall s :: 0 <= s < |fs.logical| && !(sect <= s < sect + t) ==> fs.logical[s] == old(fs.logical)[s]
      invariant forall k {:trigger Pos(512, k)} :: 0 <= k < t ==>
        Pos(512, k) + 512 <= |bytes| && fs.logical[sect + k] == bytes[Pos(512, k)..Pos(512, k) + 512]
    {
      PosFormula(512, t);
      DiskWriteData(fs, bytes[512 * t..512 * t + 512], sect + t);
      t := t + 1;
    }
    PosFormula(512, cc);
    StoredRows<byte>(old(fs.logical), sect, bytes, 512, cc, fs.logical);
  }

  // The run of sectors j..j+cc-1 of cluster i: on the disk, and away from the window.
  lemma RunOfFile(fp: Fil, i: nat, j: nat, cc: nat)
    requires fp.Core() && i < |fp.chain| && 0 < cc && j + cc <= fp.fs.vol.csize
    ensures var s := At(fp.fs.vol, fp.chain[i], j);
            && fp.fs.vol.database <= s && s + cc <= |fp.fs.disk| < 0x1_0000_0000
            && !(s <= fp.fs.winsect < s + cc)
    ensures fp.dsect != 0 ==> fp.fs.vol.database <= fp.dsect < |fp.fs.disk|
    ensures !fp.dirty && fp.dsect != 0 ==> fp.dsect < |fp.fs.logical| && fp.buf[..] == fp.fs.logical[fp.dsect]
  {
    assert LookFile(0) && LookMap(0);
    SectorOfFile(fp, i, j);
    SectorOfFile(fp, i, j + cc - 1);
    if At(fp.fs.vol, fp.chain[i], j) <= fp.fs.winsect < At(fp.fs.vol, fp.chain[i], j) + cc {
      SectorOfFile(fp, i, j + (fp.fs.winsect - At(fp.fs.vol, fp.chain[i], j)));
    }
  }

  lemma RowOfBytes(bytes: seq<byte>, cc: nat, k: nat)
    requires |bytes| == 512 * cc && k < cc
    ensures |Rows<byte>(bytes, 512)| == cc && Rows<byte>(bytes, 512)[k] == bytes[512 * k..512 * k + 512]
  {
    PosFormula(512, cc);
    PosFormula(512, k);
    FlatRows<byte>(bytes, 512, cc);
    RowAt<byte>(Rows<byte>(bytes, 512), 512, k);
  }

  // mem_cpy into the sector buffer at offset o.
  method CopyToBuffer(fp: Fil, w: seq<byte>, o: nat)
    requires fp.buf.Length == 512 && o + |w| <= 512
    modifies fp.buf
    ensures fp.buf[..] == Splice<byte>(old(fp.buf[..]), o, w)
  {
    forall k | 0 <= k < |w| {
      fp.buf[o + k] := w[k];
    }
  }

  // Refill the buffer if it was overtaken by a direct write.
  method RefillBuffer(fp: Fil, bytes: seq<byte>, sect: dword, cc: nat, ghost l: seq<Sector>)
    requires fp.buf.Length == 512 && |bytes| == 512 * cc && !fp.dirty
    requires Stored<seq<byte>>(l, sect, Rows<byte>(bytes, 512), fp.fs.logical) && |Rows<byte>(bytes, 512)| == cc
    requires sect + cc <= |l| < 0x1_0000_0000
    modifies fp`dirty, fp.buf
    ensures !fp.dirty
    ensures fp.dsect < |l| ==> fp.buf[..] == (if sect <= fp.dsect < sect + cc then fp.fs.logical[fp.dsect] else old(fp.buf[..]))
  {
    if Sub32(fp.dsect, sect) < cc {
      var k := fp.dsect - sect;
      RowOfBytes(bytes, cc, k);
      CopyToBuffer(fp, bytes[512 * k..512 * k + 512], 0);
      fp.dirty := false;
    }
  }

  // disk_write of whole sectors, and the refill behind it.
  method WriteThrough(fp: Fil, bytes: seq<byte>, sect: dword, cc: nat)
    requires fp.fs.Valid() && fp.buf.Length == 512 && fp.buf != fp.fs.win && |bytes| == 512 * cc && !fp.dirty
    requires fp.fs.vol.database <= sect && sect + cc <= |fp.fs.disk| < 0x1_0000_0000
    requires !(sect <= fp.fs.winsect < sect + cc)
    modifies fp.fs`disk, fp.fs`logical, fp`dirty, fp.buf
    ensures fp.fs.Valid() && !fp.dirty && |Rows<byte>(bytes, 512)| == cc
    ensures Stored<seq<byte>>(old(fp.fs.logical), sect, Rows<byte>(bytes, 512), fp.fs.logical) == true
    ensures fp.dsect < |old(fp.fs.logical)| ==>
      fp.buf[..] == (if sect <= fp.dsect < sect + cc then fp.fs.logical[fp.dsect] else old(fp.buf[..]))
  {
    ghost var l := fp.fs.logical;
    WriteSectors(fp.fs, bytes, sect, cc);
    RefillBuffer(fp, bytes, sect, cc, l);
  }

  // The direct transfer of f_write: whole sectors go to the disk, and the buffer follows
  // if it holds one of them.
  method DirectWrite(fp: Fil, bytes: seq<byte>, sect: dword, cc: nat, ghost i: nat, ghost j: nat)
    requires fp.Core() && !fp.dirty && i < |fp.chain| && 0 < cc && j + cc <= fp.fs.vol.csize
    requires |bytes| == 512 * cc && sect == At(fp.fs.vol, fp.chain[i], j)
    modifies fp.fs`disk, fp.fs`logical, fp`dirty, fp.buf, fp`data, fp`bytes
    ensures fp.Core() && !fp.dirty
    ensures OthersKept<seq<byte>>(fp.fs.vol, fp.others, old(fp.fs.logical), fp.fs.logical)
    ensures Top(fp.fs.vol, i) + 512 * j + |bytes| <= |old(fp.bytes)|
    ensures fp.bytes == Splice<byte>(old(fp.bytes), Top(fp.fs.vol, i) + 512 * j, bytes)
  {
    Unseal(fp);
    FileSectors(fp);
    RunOfFile(fp, i, j, cc);
    DirectAsBytes(fp.fs.vol, fp.data, bytes, cc, i, j);
    ghost var l, b, y := fp.fs.logical, fp.buf[..], Rows<byte>(bytes, 512);
    ghost var d := fp.data[i := Splice<seq<byte>>(fp.data[i], j, y)];
    WriteThrough(fp, bytes, sect, cc);
    Written<seq<byte>>(fp.fs.vol, fp.others, fp.chain, fp.data, fp.fs.fat, l, fp.fs.winsect, fp.dsect, b, i, j, y,
                       fp.fs.logical, fp.buf[..]);
    SetData(fp, d);
  }

  lemma DirectAsBytes(v: Volume, data: seq<seq<seq<byte>>>, bytes: seq<byte>, cc: nat, i: nat, j: nat)
    requires Uniform<seq<byte>>(data, v.csize) && Uniform<byte>(Flat<seq<byte>>(data), 512)
    requires i < |data| && j + cc <= v.csize && |bytes| == 512 * cc
    ensures |Rows<byte>(bytes, 512)| == cc
    ensures var d := data[i := Splice<seq<byte>>(data[i], j, Rows<byte>(bytes, 512))];
            var b := Flat<byte>(Flat<seq<byte>>(data));
            && Uniform<seq<byte>>(d, v.csize)
            && Top(v, i) + 512 * j + |bytes| <= |b|
            && Flat<byte>(Flat<seq<byte>>(d)) == Splice<byte>(b, Top(v, i) + 512 * j, bytes)
  {
    PosFormula(512, cc);
    FlatRows<byte>(bytes, 512, cc);
    SectorsAsBytes(v, data, i, j, Rows<byte>(bytes, 512));
  }

  // Fill the buffer with the sector, unless it is there or the file ends before it.
  method FetchSector(fp: Fil, sect: dword)
    requires fp.fs.Valid() && fp.buf.Length == 512
    requires fp.fs.vol.database <= sect < |fp.fs.disk| && sect != fp.fs.winsect
    modifies fp`dsect, fp.buf
    ensures fp.dsect == sect
    ensures fp.buf[..] == if old(fp.dsect) == sect || fp.fsize <= fp.fptr then old(fp.buf[..]) else fp.fs.logical[sect]
  {
    if fp.dsect != sect {
      if fp.fptr < fp.fsize {
        var data := DiskReadData(fp.fs, sect);
        CopyToBuffer(fp, data, 0);
      }
    }
    fp.dsect := sect;
  }

  // The buffered part of f_write: fetch the sector at a sector boundary, unless the file
  // ends here, and store bytes w at offset o of the buffer.
  method PartialWrite(fp: Fil, w: seq<byte>, sect: dword, o: nat, ghost i: nat, ghost j: nat)
    requires fp.Core() && i < |fp.chain| && j < fp.fs.vol.csize && sect == At(fp.fs.vol, fp.chain[i], j)
    requires o + |w| <= 512 && fp.fptr == Top(fp.fs.vol, i) + 512 * j + o
    requires if o == 0 then !fp.dirty else fp.dsect == sect
    modifies fp`dirty, fp`dsect, fp.buf, fp`data, fp`bytes
    ensures fp.Core() == true && fp.dirty && fp.dsect == sect
    ensures Wrote<byte>(old(fp.bytes), fp.bytes, fp.fptr, w, fp.fsize) == true
  {
    Unseal(fp);
    FileSectors(fp);
    ghost var dirty, dsect, b := fp.dirty, fp.dsect, fp.buf[..];
    LoadSector(fp, sect, o, i, j);
    ghost var y := Splice<byte>(fp.buf[..], o, w);
    ghost var d := fp.data[i := Splice<seq<byte>>(fp.data[i], j, [y])];
    PartialAsBytes(fp.fs.vol, fp.data, i, j, o, w, fp.buf[..], fp.fsize);
    Buffered<seq<byte>>(fp.fs.vol, fp.others, fp.chain, fp.data, fp.fs.fat, fp.fs.logical, fp.fs.winsect, dirty, dsect, b, i, j, y);
    KeepPart(fp, w, o, y, d);
  }

  // Store bytes w at offset o of the buffer, which makes it y and the file's data d.
  method KeepPart(fp: Fil, w: seq<byte>, o: nat, ghost y: seq<byte>, ghost d: seq<seq<seq<byte>>>)
    requires fp.fs.Valid() && fp.buf.Length == 512 && fp.buf != fp.fs.win && o + |w| <= 512 && y == Splice<byte>(fp.buf[..], o, w)
    requires |d| == |fp.chain| && Uniform<seq<byte>>(d, fp.fs.vol.csize) && fp.fsize <= |Flat<byte>(Flat<seq<byte>>(d))|
    requires fp.sclust == (if fp.chain == [] then 0 else fp.chain[0])
    requires Consistent<seq<byte>>(fp.fs.vol, fp.others, fp.chain, d, fp.fs.fat, fp.fs.logical, fp.fs.winsect, true, fp.dsect, y)
    modifies fp`dirty, fp.buf, fp`data, fp`bytes
    ensures fp.Core() == true && fp.dirty && fp.bytes == Flat<byte>(Flat<seq<byte>>(d))
  {
    CopyToBuffer(fp, w, o);
    fp.dirty := true;
    assert fp.buf[..] == y;
    SetData(fp, d);
  }

  // At a sector boundary, put sector j of cluster i into the buffer unless the file ends here.
  method LoadSector(fp: Fil, sect: dword, o: nat, ghost i: nat, ghost j: nat)
    requires fp.Core() && i < |fp.chain| && j < fp.fs.vol.csize && sect == At(fp.fs.vol, fp.chain[i], j)
    requires if o == 0 then !fp.dirty else fp.dsect == sect
    modifies fp`dsect, fp.buf
    ensures fp.dsect == sect && i < |fp.data| && j < |fp.data[i]|
    ensures fp.buf[..] == fp.data[i][j] || (o == 0 && fp.fsize <= fp.fptr)
  {
    Unseal(fp);
    RunOfFile(fp, i, j, 1);
    SectorOfFile(fp, i, j);
    if o == 0 {
      FetchSector(fp, sect);
    } else {
      BufferOfFile(fp, i, j);
    }
  }

  // Bytes w put at offset o of sector j of cluster i, over what it held or, where the file
  // ends, over anything.
  lemma PartialAsBytes(v: Volume, data: seq<seq<seq<byte>>>, i: nat, j: nat, o: nat, w: seq<byte>, x: seq<byte>, lim: nat)
    requires Uniform<seq<byte>>(data, v.csize) && Uniform<byte>(Flat<seq<byte>>(data), 512)
    requires i < |data| && j < v.csize && |x| == 512 && o + |w| <= 512 && lim <= |Flat<byte>(Flat<seq<byte>>(data))|
    requires x == data[i][j] || (o == 0 && lim <= Top(v, i) + 512 * j)
    ensures Uniform<seq<byte>>(data[i := Splice<seq<byte>>(data[i], j, [Splice<byte>(x, o, w)])], v.csize)
    ensures Wrote<byte>(Flat<byte>(Flat<seq<byte>>(data)),
                        Flat<byte>(Flat<seq<byte>>(data[i := Splice<seq<byte>>(data[i], j, [Splice<byte>(x, o, w)])])),
                        Top(v, i) + 512 * j + o, w, lim)
  {
    var y := Splice<byte>(x, o, w);
    var b, d := Flat<byte>(Flat<seq<byte>>(data)), data[i := Splice<seq<byte>>(data[i], j, [y])];
    var q := Top(v, i) + 512 * j;
    SectorAsBytes(v, data, i, j, y);
    SectorInBytes(v, data, i, j);
    WrotePart<byte>(b, q, 512, o, w, x, lim);
  }

  // One sector replaced.
  lemma SectorAsBytes(v: Volume, data: seq<seq<seq<byte>>>, i: nat, j: nat, y: seq<byte>)
    requires Uniform<seq<byte>>(data, v.csize) && Uniform<byte>(Flat<seq<byte>>(data), 512)
    requires i < |data| && j < v.csize && |y| == 512
    ensures var d, b := data[i := Splice<seq<byte>>(data[i], j, [y])], Flat<byte>(Flat<seq<byte>>(data));
      && Uniform<seq<byte>>(d, v.csize) && Top(v, i) + 512 * j + 512 <= |b|
      && Flat<byte>(Flat<seq<byte>>(d)) == Splice<byte>(b, Top(v, i) + 512 * j, y)
  {
    SectorsAsBytes(v, data, i, j, [y]);
    FlatOne<byte>(y);
  }

  // On a cluster boundary, f_write goes on to the file's next cluster, which may be new.
  method EnterCluster(fp: Fil, ghost n: nat) returns (full: bool)
    requires fp.Core() && fp.AtPointer() && fp.fptr == Top(fp.fs.vol, n)
    requires if fp.fptr == 0 then n == 0 else n == fp.pos + 1
    modifies fp.fs`wflag, fp.fs`disk, fp.fs`winsect, fp.fs.win, fp.fs`logical, fp.fs`fat, fp.fs`log
    modifies fp.fs`lastClust, fp.fs`freeClust, fp.fs`fsiFlag, fp`sclust, fp`chain, fp`data, fp`bytes, fp`clust
    ensures fp.Core() && OthersKept<seq<byte>>(fp.fs.vol, fp.others, old(fp.fs.logical), fp.fs.logical)
    ensures old(fp.chain) <= fp.chain && old(fp.bytes) <= fp.bytes
    ensures |fp.chain| > |old(fp.chain)| ==> !full && |fp.chain| == n + 1
    ensures full ==> fp.clust == old(fp.clust) && Busy(fp.fs.fat, 2, fp.fs.vol.nFatent)
    ensures !full ==> n < |fp.chain| && fp.clust == fp.chain[n]
    ensures old(Guarded(fp)) ==> Guarded(fp)
  {
    Unseal(fp);
    WhereIs(fp);
    var clst;
    if fp.fptr == 0 {
      clst := fp.sclust;
      FirstCluster(fp);
      if clst == 0 {
        clst := NextOrNew(fp, 0, 0);
      }
    } else {
      LinkOfFile(fp, fp.pos);
      clst := NextOrNew(fp, fp.clust, fp.pos);
    }
    full := clst == 0;
    if !full {
      fp.clust := clst;
    }
  }

  lemma FirstCluster(fp: Fil)
    requires fp.Core()
    ensures fp.sclust == 0 <==> fp.chain == []
  {
    Unseal(fp);
    if fp.chain != [] {
      LinkOfFile(fp, 0);
    }
  }

  // Where f_write stands: sector j of cluster i, with o bytes of the sector behind it.
  ghost predicate Standing(fp: Fil, i: nat, j: nat, o: nat)
    reads fp
  {
    && i < |fp.chain| && fp.clust == fp.chain[i] && j < fp.fs.vol.csize && o < 512
    && fp.fptr == Top(fp.fs.vol, i) + 512 * j + o
  }

  lemma InsideOffset(v: Volume, i: nat, j: nat, p: nat)
    requires Top(v, i) + 512 * j < p < Top(v, i) + 512 * j + 512
    ensures p == Top(v, i) + 512 * j + p % 512
  {
    TopFormula(v, i, 0);
    SectorOffset(Pos(v.csize, i) + j, p);
  }

  lemma SectorOffset(k: nat, p: nat)
    requires 512 * k <= p < 512 * k + 512
    ensures p % 512 == p - 512 * k
  {
  }

  // Off a sector boundary the pointer stands inside the buffered sector.
  lemma InsideSector(fp: Fil)
    requires fp.Core() && fp.AtPointer() && fp.fptr % 512 != 0
    ensures Standing(fp, fp.pos, fp.sec, fp.fptr % 512) && fp.dsect == At(fp.fs.vol, fp.clust, fp.sec)
  {
    WhereIs(fp);
    InsideOffset(fp.fs.vol, fp.pos, fp.sec, fp.fptr);
  }

  // Move the file pointer on by n bytes inside the cluster.
  method Advance(fp: Fil, n: nat, ghost i: nat, ghost j: nat, ghost o: nat)
    requires fp.Core() && Standing(fp, i, j, o) && 0 < n && j + (o + n + 511) / 512 <= fp.fs.vol.csize
    requires fp.fptr + n <= 0xFFFF_FFFF && fp.fptr + n <= |fp.bytes|
    requires (o + n) % 512 != 0 ==> o + n < 512 && fp.dsect == At(fp.fs.vol, fp.clust, j)
    modifies fp`fptr, fp`pos, fp`sec
    ensures fp.Core() && fp.AtPointer() && fp.fptr == old(fp.fptr) + n
  {
    AdvancePlace(fp.fs.vol, i, j, o, n);
    fp.fptr := fp.fptr + n;
    fp.pos, fp.sec := i, j;
    Stand(fp);
  }

  // Where that is.
  lemma AdvancePlace(v: Volume, i: nat, j: nat, o: nat, n: nat)
    requires o < 512 && 0 < n && j + (o + n + 511) / 512 <= v.csize && ((o + n) % 512 != 0 ==> o + n < 512)
    ensures var p := Top(v, i) + 512 * j + o + n;
      && Top(v, i) < p <= Top(v, i + 1)
      && (p % 512 != 0 ==> (o + n) % 512 != 0 && j < v.csize && p < Top(v, i) + 512 * j + 512)
  {
    TopFormula(v, i, j);
    var k := Pos(v.csize, i);
    var m := (o + n + 511) / 512;
    assert o + n <= 512 * m;
    if (o + n) % 512 == 0 {
      assert o + n == 512 * ((o + n) / 512);
      WholeSectors(k + j + (o + n) / 512);
    }
  }

  lemma WholeSectors(k: nat)
    ensures 512 * k % 512 == 0
  {
  }

  // A round of f_write's loop that transfers whole sectors, clipped at the cluster boundary.
  method WriteWhole(fp: Fil, rest: seq<byte>, sect: dword, csect: nat, ghost i: nat) returns (wcnt: nat)
    requires fp.Core() && !fp.dirty && Standing(fp, i, csect, 0) && sect == At(fp.fs.vol, fp.clust, csect)
    requires 512 <= |rest| && fp.fptr + |rest| <= 0xFFFF_FFFF
    modifies fp.fs`disk, fp.fs`logical, fp`dirty, fp.buf, fp`data, fp`bytes, fp`fptr, fp`pos, fp`sec
    ensures fp.Core() && fp.AtPointer() && 0 < wcnt <= |rest| && fp.fptr == old(fp.fptr) + wcnt
    ensures OthersKept<seq<byte>>(fp.fs.vol, fp.others, old(fp.fs.logical), fp.fs.logical)
    ensures Wrote<byte>(old(fp.bytes), fp.bytes, old(fp.fptr), rest[..wcnt], fp.fsize)
  {
    Unseal(fp);
    var cc := |rest| / 512;
    if csect + cc > fp.fs.vol.csize {
      cc := fp.fs.vol.csize - csect;
    }
    wcnt := 512 * cc;
    ghost var b := fp.bytes;
    DirectWrite(fp, rest[..wcnt], sect, cc, i, csect);
    WroteSplice<byte>(b, fp.fptr, rest[..wcnt], fp.fsize);
    Advance(fp, wcnt, i, csect, 0);
  }

  // A round of f_write's loop that stores part of a sector in the buffer.
  method WritePart(fp: Fil, rest: seq<byte>, sect: dword, ghost csect: nat, ghost i: nat, o: nat) returns (wcnt: nat)
    requires fp.Core() && Standing(fp, i, csect, o) && sect == At(fp.fs.vol, fp.clust, csect)
    requires rest != [] && (o == 0 ==> |rest| < 512) && fp.fptr + |rest| <= 0xFFFF_FFFF
    requires if o == 0 then !fp.dirty else fp.dsect == sect
    modifies fp`dirty, fp`dsect, fp.buf, fp`data, fp`bytes, fp`fptr, fp`pos, fp`sec
    ensures fp.Core() && fp.AtPointer() && 0 < wcnt <= |rest| && fp.fptr == old(fp.fptr) + wcnt
    ensures Wrote<byte>(old(fp.bytes), fp.bytes, old(fp.fptr), rest[..wcnt], fp.fsize)
  {
    Unseal(fp);
    wcnt := 512 - o;
    if wcnt > |rest| {
      wcnt := |rest|;
    }
    PartialWrite(fp, rest[..wcnt], sect, o, i, csect);
    Advance(fp, wcnt, i, csect, o);
  }

  // Sector boundary: find the cluster, entering the next one if needed. In C this is the
  // head of f_write's loop body, down to the write-back of the buffer.
  method PrepareSector(fp: Fil) returns (full: bool, csect: nat, ghost i: nat)
    requires fp.Core() && fp.AtPointer() && fp.fptr % 512 == 0
    modifies fp.fs`wflag, fp.fs`disk, fp.fs`winsect, fp.fs.win, fp.fs`logical, fp.fs`fat, fp.fs`log
    modifies fp.fs`lastClust, fp.fs`freeClust, fp.fs`fsiFlag, fp`sclust, fp`chain, fp`data, fp`bytes, fp`clust, fp`dirty
    ensures fp.Core() && OthersKept<seq<byte>>(fp.fs.vol, fp.others, old(fp.fs.logical), fp.fs.logical)
    ensures old(fp.chain) <= fp.chain && old(fp.bytes) <= fp.bytes
    ensures full ==> fp.AtPointer() && Busy(fp.fs.fat, 2, fp.fs.vol.nFatent)
    ensures !full ==> Standing(fp, i, csect, 0) && !fp.dirty
    ensures |fp.chain| > |old(fp.chain)| ==> !full && |fp.chain| == i + 1
    ensures old(Guarded(fp)) ==> Guarded(fp)
  {
    csect, i := SectorOfPointer(fp);
    full := false;
    if csect == 0 {
      full := EnterCluster(fp, i);
    }
    if full {
      Stand(fp);
    } else {
      FlushBuffer(fp);
    }
  }

  // At a sector boundary: the sector within the cluster, and the cluster it is in, which is
  // the next one when that sector is its first.
  method SectorOfPointer(fp: Fil) returns (csect: nat, ghost i: nat)
    requires fp.Core() && fp.AtPointer() && fp.fptr % 512 == 0
    ensures fp.InPlace() && csect < fp.fs.vol.csize && fp.fptr == Top(fp.fs.vol, i) + 512 * csect
    ensures if csect != 0 then i < |fp.chain| && fp.clust == fp.chain[i] else i == if fp.fptr == 0 then 0 else fp.pos + 1
  {
    Unseal(fp);
    WhereIs(fp);
    csect := SectorIndex(fp.fs.vol, fp.fptr, fp.pos);
    i := if fp.fptr == 0 then 0 else if csect == 0 then fp.pos + 1 else fp.pos;
  }

  // The sector within its cluster of a position on a sector boundary, behind the top of
  // cluster i.
  method SectorIndex(v: Volume, p: nat, ghost i: nat) returns (csect: nat)
    requires 0 < v.csize && p % 512 == 0 && (p == 0 || Top(v, i) < p <= Top(v, i + 1))
    ensures csect < v.csize && (p == 0 ==> csect == 0)
    ensures p > 0 ==> p == if csect == 0 then Top(v, i + 1) else Top(v, i) + 512 * csect
  {
    csect := p / 512 % v.csize;
    if p > 0 {
      SectorInCluster(v, i, p);
    }
  }

  // clust2sect of the current cluster, plus the sector within it.
  method CurrentSector(fp: Fil, csect: nat, ghost i: nat) returns (sect: dword)
    requires fp.Core() && i < |fp.chain| && fp.clust == fp.chain[i] && csect < fp.fs.vol.csize
    ensures sect == At(fp.fs.vol, fp.clust, csect) && sect != 0
  {
    Unseal(fp);
    SectorOfFile(fp, i, csect);
    sect := ClustToSect(fp.fs.vol, fp.clust);
    assert sect != 0;
    sect := sect + csect;
  }

  // A round of f_write's loop that begins on a sector boundary.
  method WriteAtBoundary(fp: Fil, rest: seq<byte>) returns (wcnt: nat, full: bool)
    requires fp.Core() && fp.AtPointer() && rest != [] && fp.fptr % 512 == 0 && fp.fptr + |rest| <= 0xFFFF_FFFF
    modifies fp.fs`wflag, fp.fs`disk, fp.fs`winsect, fp.fs.win, fp.fs`logical, fp.fs`fat, fp.fs`log
    modifies fp.fs`lastClust, fp.fs`freeClust, fp.fs`fsiFlag, fp`sclust, fp`chain, fp`data, fp`bytes, fp`clust, fp`dirty
    modifies fp`dsect, fp.buf, fp`fptr, fp`pos, fp`sec
    ensures fp.Core() && fp.AtPointer() && wcnt <= |rest| && fp.fptr == old(fp.fptr) + wcnt
    ensures OthersKept<seq<byte>>(fp.fs.vol, fp.others, old(fp.fs.logical), fp.fs.logical)
    ensures old(fp.chain) <= fp.chain
    ensures |fp.chain| > |old(fp.chain)| ==> Top(fp.fs.vol, |fp.chain| - 1) < fp.fptr
    ensures Wrote<byte>(old(fp.bytes), fp.bytes, old(fp.fptr), rest[..wcnt], fp.fsize)
    ensures if full then wcnt == 0 && Busy(fp.fs.fat, 2, fp.fs.vol.nFatent) else wcnt > 0
    ensures old(Guarded(fp)) ==> Guarded(fp)
  {
    ghost var b := fp.bytes;
    var csect;
    ghost var i;
    full, csect, i := PrepareSector(fp);
    WroteNothing<byte>(b, fp.bytes, fp.fptr, fp.fsize);
    wcnt := 0;
    if !full {
      ghost var b1 := fp.bytes;
      wcnt := WriteHere(fp, rest, csect, i);
      WroteMore<byte>(b, b1, fp.bytes, old(fp.fptr), [], rest[..wcnt], fp.fsize);
    }
  }

  // Whole sectors, if there is at least one to write, or part of a sector.
  method WriteHere(fp: Fil, rest: seq<byte>, csect: nat, ghost i: nat) returns (wcnt: nat)
    requires fp.Core() && !fp.dirty && Standing(fp, i, csect, 0) && rest != [] && fp.fptr + |rest| <= 0xFFFF_FFFF
    modifies fp.fs`disk, fp.fs`logical, fp`dirty, fp`dsect, fp.buf, fp`data, fp`bytes, fp`fptr, fp`pos, fp`sec
    ensures fp.Core() && fp.AtPointer() && 0 < wcnt <= |rest| && fp.fptr == old(fp.fptr) + wcnt
    ensures OthersKept<seq<byte>>(fp.fs.vol, fp.others, old(fp.fs.logical), fp.fs.logical)
    ensures Wrote<byte>(old(fp.bytes), fp.bytes, old(fp.fptr), rest[..wcnt], fp.fsize)
  {
    var sect := CurrentSector(fp, csect, i);
    if |rest| / 512 > 0 {
      wcnt := WriteWhole(fp, rest, sect, csect, i);
    } else {
      wcnt := WritePart(fp, rest, sect, csect, i, 0);
    }
  }

  // One round of f_write's loop.
  method WriteRound(fp: Fil, rest: seq<byte>) returns (wcnt: nat, full: bool)
    requires fp.Core() && fp.AtPointer() && rest != [] && fp.fptr + |rest| <= 0xFFFF_FFFF
    modifies fp.fs`wflag, fp.fs`disk, fp.fs`winsect, fp.fs.win, fp.fs`logical, fp.fs`fat, fp.fs`log
    modifies fp.fs`lastClust, fp.fs`freeClust, fp.fs`fsiFlag, fp`sclust, fp`chain, fp`data, fp`bytes, fp`clust, fp`dirty
    modifies fp`dsect, fp.buf, fp`fptr, fp`pos, fp`sec
    ensures fp.Core() && fp.AtPointer() && wcnt <= |rest| && fp.fptr == old(fp.fptr) + wcnt
    ensures OthersKept<seq<byte>>(fp.fs.vol, fp.others, old(fp.fs.logical), fp.fs.logical)
    ensures old(fp.chain) <= fp.chain
    ensures |fp.chain| > |old(fp.chain)| ==> Top(fp.fs.vol, |fp.chain| - 1) < fp.fptr
    ensures Wrote<byte>(old(fp.bytes), fp.bytes, old(fp.fptr), rest[..wcnt], fp.fsize)
    ensures if full then wcnt == 0 && Busy(fp.fs.fat, 2, fp.fs.vol.nFatent) else wcnt > 0
    ensures old(Guarded(fp)) ==> Guarded(fp)
  {
    if fp.fptr % 512 == 0 {
      wcnt, full := WriteAtBoundary(fp, rest);
    } else {
      full := false;
      InsideSector(fp);
      wcnt := WritePart(fp, rest, fp.dsect, fp.sec, fp.pos, fp.fptr % 512);
    }
  }

  // The loop of f_write.
  method WriteLoop(fp: Fil, wbuff: seq<byte>) returns (bw: nat)
    requires fp.Core() && fp.AtPointer() && fp.fptr + |wbuff| <= 0xFFFF_FFFF
    modifies fp.fs`wflag, fp.fs`disk, fp.fs`winsect, fp.fs.win, fp.fs`logical, fp.fs`fat, fp.fs`log
    modifies fp.fs`lastClust, fp.fs`freeClust, fp.fs`fsiFlag, fp`sclust, fp`chain, fp`data, fp`bytes, fp`clust, fp`dirty
    modifies fp`dsect, fp.buf, fp`fptr, fp`pos, fp`sec
    ensures fp.Core() && fp.AtPointer() && bw <= |wbuff| && fp.fptr == old(fp.fptr) + bw
    ensures OthersKept<seq<byte>>(fp.fs.vol, fp.others, old(fp.fs.logical), fp.fs.logical)
    ensures old(fp.chain) <= fp.chain
    ensures |fp.chain| > |old(fp.chain)| ==> Top(fp.fs.vol, |fp.chain| - 1) < fp.fptr
    ensures Wrote<byte>(old(fp.bytes), fp.bytes, old(fp.fptr), wbuff[..bw], fp.fsize)
    ensures bw < |wbuff| ==> Busy(fp.fs.fat, 2, fp.fs.vol.nFatent)
    ensures old(Guarded(fp)) ==> Guarded(fp)
  {
    bw := 0;
    WroteNothing<byte>(fp.bytes, fp.bytes, fp.fptr, fp.fsize);
    while bw < |wbuff|
      invariant fp.Core() && fp.AtPointer() && bw <= |wbuff| && fp.fptr == old(fp.fptr) + bw
      invariant OthersKept<seq<byte>>(fp.fs.vol, fp.others, old(fp.fs.logical), fp.fs.logical)
      invariant Wrote<byte>(old(fp.bytes), fp.bytes, old(fp.fptr), wbuff[..bw], fp.fsize)
      invariant old(fp.chain) <= fp.chain
      invariant |fp.chain| > |old(fp.chain)| ==> Top(fp.fs.vol, |fp.chain| - 1) < fp.fptr
      invariant old(Guarded(fp)) ==> Guarded(fp)
    {
      ghost var b1 := fp.bytes;
      var wcnt, full := WriteRound(fp, wbuff[bw..]);
      WroteOn<byte>(old(fp.bytes), b1, fp.bytes, old(fp.fptr), wbuff, bw, wcnt, fp.fsize);
      if full {
        break;
      }
      bw := bw + wcnt;
    }
  }

  // The next piece of w.
  lemma WroteOn<T>(b0: seq<T>, b1: seq<T>, b2: seq<T>, p: nat, w: seq<T>, k: nat, n: nat, lim: nat)
    requires k + n <= |w| && Wrote(b0, b1, p, w[..k], lim) && Wrote(b1, b2, p + k, w[k..][..n], lim)
    ensures Wrote(b0, b2, p, w[..k + n], lim)
  {
    WroteMore(b0, b1, b2, p, w[..k], w[k..][..n], lim);
    assert w[..k] + w[k..][..n] == w[..k + n];
  }

  // Set the size of the file, within its clusters.
  method Resize(fp: Fil, n: dword)
    requires fp.Core() && n <= |fp.bytes|
    modifies fp`fsize
    ensures fp.Core() && fp.fsize == n
  {
    Unseal(fp);
    fp.fsize := n;
    Seal(fp);
  }

  lemma SpliceNothing<T>(b: seq<T>, p: nat, w: seq<T>)
    requires p <= |b|
    ensures Splice(b, p, w[..0]) == b
  {
  }

  lemma NothingKept<S>(v: Volume, others: set<seq<nat>>, l: seq<S>)
    ensures OthersKept(v, others, l, l)
  {
  }

  // f_write past its checks.
  method WriteUpTo(fp: Fil, wbuff: seq<byte>) returns (bw: nat)
    requires fp.Valid() && fp.fptr + |wbuff| <= 0xFFFF_FFFF
    modifies fp.fs`wflag, fp.fs`disk, fp.fs`winsect, fp.fs.win, fp.fs`logical, fp.fs`fat, fp.fs`log
    modifies fp.fs`lastClust, fp.fs`freeClust, fp.fs`fsiFlag, fp`sclust, fp`chain, fp`data, fp`bytes, fp`clust, fp`dirty
    modifies fp`dsect, fp.buf, fp`fptr, fp`pos, fp`sec, fp`fsize, fp`written
    ensures fp.Valid() && fp.written && bw <= |wbuff| && fp.fptr == old(fp.fptr) + bw
    ensures OthersKept<seq<byte>>(fp.fs.vol, fp.others, old(fp.fs.logical), fp.fs.logical)
    ensures old(fp.chain) <= fp.chain
    ensures |fp.chain| > |old(fp.chain)| ==> Top(fp.fs.vol, |fp.chain| - 1) < fp.fptr
    ensures fp.Content() == Splice<byte>(old(fp.Content()), old(fp.fptr), wbuff[..bw])
    ensures bw < |wbuff| ==> Busy(fp.fs.fat, 2, fp.fs.vol.nFatent)
    ensures old(Guarded(fp)) ==> Guarded(fp)
  {
    ghost var b, p := fp.bytes, fp.fptr;
    bw := WriteLoop(fp, wbuff);
    WroteIsSplice<byte>(b, fp.bytes, p, wbuff[..bw], fp.fsize);
    if fp.fptr > fp.fsize {
      Resize(fp, fp.fptr);
    }
    fp.written := true;
  }

  /**
   * f_write on an open file. The bytes written are spliced into the file's contents at the
   * file pointer; fewer than asked for are written only when no cluster is free, and none
   * when the file pointer would pass 4 GB. Other chains' sectors are untouched.
   */
  method FWrite(fp: Fil, buff: seq<byte>) returns (res: FResult, bw: nat)
    requires fp.Valid() && |buff| < 0x1_0000_0000
    modifies fp.fs`wflag, fp.fs`disk, fp.fs`winsect, fp.fs.win, fp.fs`logical, fp.fs`fat, fp.fs`log
    modifies fp.fs`lastClust, fp.fs`freeClust, fp.fs`fsiFlag, fp`sclust, fp`chain, fp`data, fp`bytes, fp`clust, fp`dirty
    modifies fp`dsect, fp.buf, fp`fptr, fp`pos, fp`sec, fp`fsize, fp`written
    ensures fp.Valid() && res == (if fp.err != Ok then fp.err else if !fp.canWrite then Denied else Ok)
    ensures OthersKept<seq<byte>>(fp.fs.vol, fp.others, old(fp.fs.logical), fp.fs.logical)
    ensures old(fp.chain) <= fp.chain
    ensures |fp.chain| > |old(fp.chain)| ==> Top(fp.fs.vol, |fp.chain| - 1) < fp.fptr
    ensures res != Ok ==> bw == 0
    ensures bw <= |buff| && fp.fptr == old(fp.fptr) + bw
    ensures fp.Content() == Splice<byte>(old(fp.Content()), old(fp.fptr), buff[..bw])
    ensures res == Ok && bw < |buff| ==>
      Busy(fp.fs.fat, 2, fp.fs.vol.nFatent) || (bw == 0 && old(fp.fptr) + |buff| > 0xFFFF_FFFF)
    ensures res == Ok ==> fp.written
    ensures old(Guarded(fp)) ==> Guarded(fp)
  {
    bw := 0;
    SpliceNothing<byte>(fp.Content(), fp.fptr, buff);
    NothingKept<seq<byte>>(fp.fs.vol, fp.others, fp.fs.logical);
    if fp.err != Ok {
      return fp.err, 0;
    }
    if !fp.canWrite {
      return Denied, 0;
    }
    var btw := |buff|;
    if Add32(fp.fptr, btw) < fp.fptr {
      btw := 0;
    }
    bw := WriteUpTo(fp, buff[..btw]);
    assert buff[..btw][..bw] == buff[..bw];
    res := Ok;
  }
}
