/**
 * How the sectors of an open file lie on the disk, and what every kind of store does to
 * them. S stands for the contents of a sector; nothing here looks inside one.
 */
module FileMap {
  import opened Types
  import opened Geometry
  import opened ClusterChains
  import opened FileData

  // Sector s belongs to one of the given chains.
  ghost predicate Foreign(v: Volume, others: set<seq<nat>>, s: int) {
    exists c :: Covered(others, c) && v.InCluster(c, s)
  }

  // Data sector s is free or belongs to the open file.
  ghost predicate Mine(v: Volume, others: set<seq<nat>>, s: int) {
    v.InData(s) && !Foreign(v, others, s)
  }

  // Nothing but FAT sectors and the file's own sectors differ.
  ghost predicate OthersKept<S>(v: Volume, others: set<seq<nat>>, l: seq<S>, m: seq<S>) {
    |l| == |m| &&
    forall s {:trigger l[s]} {:trigger m[s]} ::
      0 <= s < |l| && !v.InFat(s) && !v.InMirror(s) && !Mine(v, others, s) ==> m[s] == l[s]
  }

  // Sector j of the cluster with number c.
  function At(v: Volume, c: nat, j: nat): int {
    v.ClusterStart(c) + j
  }

  // What is seen at sector s: the disk, except that a dirty buffer covers dsect.
  function Seen<S>(l: seq<S>, dirty: bool, dsect: nat, buf: S, s: int): S
    requires 0 <= s < |l|
  {
    if dirty && s == dsect then buf else l[s]
  }

  // data shows the sectors of the chain.
  ghost predicate Shows<S>(v: Volume, chain: seq<nat>, data: seq<seq<S>>, l: seq<S>, dirty: bool, dsect: nat, buf: S) {
    |data| == |chain| && Uniform(data, v.csize) &&
    forall i, j {:trigger data[i][j]} {:trigger At(v, chain[i], j)} :: 0 <= i < |chain| && 0 <= j < v.csize ==>
      0 <= At(v, chain[i], j) < |l| && data[i][j] == Seen(l, dirty, dsect, buf, At(v, chain[i], j))
  }

  // The whole invariant of an open file's sectors, stated behind a quantifier like
  // Volume.Checked.
  ghost predicate Consistent<S>(v: Volume, others: set<seq<nat>>, chain: seq<nat>, data: seq<seq<S>>, f: seq<nat>,
                                l: seq<S>, winsect: nat, dirty: bool, dsect: nat, buf: S)
  {
    Agrees(v, others, chain, data, f, l, winsect, dirty, dsect, buf) == true
  }

  ghost predicate Agrees<S>(v: Volume, others: set<seq<nat>>, chain: seq<nat>, data: seq<seq<S>>, f: seq<nat>,
                            l: seq<S>, winsect: nat, dirty: bool, dsect: nat, buf: S)
  {
    forall k :: LookMap(k) ==>
      && Forest(f, WithOwn(others, chain)) && chain !in others
      && v.database <= |l| && Fits(v, |l|)
      && !Mine(v, others, winsect)
      && (dsect != 0 ==> Mine(v, others, dsect) && dsect < |l|)
      && (dirty ==> dsect != 0)
      && (!dirty && dsect != 0 ==> buf == l[dsect])
      && Shows(v, chain, data, l, dirty, dsect, buf)
  }

  ghost function WithOwn(others: set<seq<nat>>, chain: seq<nat>): set<seq<nat>> {
    if chain == [] then others else others + {chain}
  }

  // The sectors of a chain on disk l.
  ghost function OnDisk<S>(v: Volume, chain: seq<nat>, l: seq<S>): (data: seq<seq<S>>)
    requires l != []
    ensures |data| == |chain| && Uniform(data, v.csize)
  {
    seq(|chain|, i requires 0 <= i < |chain| => ClusterOnDisk(v, chain[i], l))
  }

  ghost function ClusterOnDisk<S>(v: Volume, c: nat, l: seq<S>): (x: seq<S>)
    requires l != []
    ensures |x| == v.csize
  {
    seq(v.csize, j requires 0 <= j < v.csize => if 0 <= At(v, c, j) < |l| then l[At(v, c, j)] else l[0])
  }

  // Cluster i of the file lies inside the data area and on the disk.
  lemma ClusterOnVolume(v: Volume, f: seq<nat>, others: set<seq<nat>>, chain: seq<nat>, n: nat, i: nat, j: nat)
    requires v.Valid() && |f| == v.nFatent && Fits(v, n) && Forest(f, WithOwn(others, chain)) && chain !in others
    requires i < |chain| && j < v.csize
    ensures 2 <= chain[i] < v.nFatent && v.InCluster(chain[i], At(v, chain[i], j))
    ensures v.database <= At(v, chain[i], j) < n && At(v, chain[i], j) < v.DataEnd()
    ensures Mine(v, others, At(v, chain[i], j))
  {
    assert LookVolume(0);
    assert chain in WithOwn(others, chain);
    ClusterFits(v, chain[i]);
    OwnIsMine(v, f, others, chain, chain[i], At(v, chain[i], j));
  }

  // A cluster of a chain outside others has no foreign sectors.
  lemma OwnIsMine(v: Volume, f: seq<nat>, others: set<seq<nat>>, chain: seq<nat>, c: nat, s: int)
    requires v.Valid() && |f| == v.nFatent && Forest(f, WithOwn(others, chain)) && chain !in others
    requires c in chain && v.InCluster(c, s)
    ensures Mine(v, others, s)
  {
    assert chain in WithOwn(others, chain);
    assert 2 <= c < v.nFatent;
    ClusterFits(v, c);
    assert forall t :: t in others ==> Apart(t, chain);
    NotForeign(v, f, others, WithOwn(others, chain), c, s);
  }

  lemma NotForeign(v: Volume, f: seq<nat>, others: set<seq<nat>>, cs: set<seq<nat>>, c: nat, s: int)
    requires v.Valid() && |f| == v.nFatent && Forest(f, cs) && others <= cs
    requires 2 <= c && v.InCluster(c, s) && forall t :: t in others ==> c !in t
    ensures !Foreign(v, others, s)
  {
    if Foreign(v, others, s) {
      var d :| Covered(others, d) && v.InCluster(d, s);
      var t :| t in others && d in t;
      assert Chain(f, t);
      ClustersDisjoint(v, c, d, s);
    }
  }

  /** Two sectors of the file coincide only if they are the same sector of the same cluster. */
  lemma SectorsDistinct(v: Volume, f: seq<nat>, chain: seq<nat>, i: nat, j: nat, i': nat, j': nat)
    requires v.Valid() && |f| == v.nFatent && Chain(f, chain)
    requires i < |chain| && i' < |chain| && j < v.csize && j' < v.csize
    requires At(v, chain[i], j) == At(v, chain[i'], j')
    ensures i == i' && j == j'
  {
    ClustersDisjoint(v, chain[i], chain[i'], At(v, chain[i], j));
    if i < i' {
      ChainDistinct(f, chain, i, i');
    } else if i' < i {
      ChainDistinct(f, chain, i', i);
    }
  }

  // A file as f_open finds it on the disk.
  lemma Opened<S>(v: Volume, others: set<seq<nat>>, chain: seq<nat>, f: seq<nat>, l: seq<S>, winsect: nat, buf: S)
    requires v.Valid() && |f| == v.nFatent && v.database <= |l| && Fits(v, |l|)
    requires Forest(f, WithOwn(others, chain)) && chain !in others && !Mine(v, others, winsect) && l != []
    ensures Consistent(v, others, chain, OnDisk(v, chain, l), f, l, winsect, false, 0, buf)
  {
    var data := OnDisk(v, chain, l);
    forall i, j | 0 <= i < |chain| && 0 <= j < v.csize
      ensures 0 <= At(v, chain[i], j) < |l| && data[i][j] == l[At(v, chain[i], j)]
    {
      ClusterOnVolume(v, f, others, chain, |l|, i, j);
    }
  }

  // Writing back the buffer.
  lemma Flushed<S>(v: Volume, others: set<seq<nat>>, chain: seq<nat>, data: seq<seq<S>>, f: seq<nat>,
                   l: seq<S>, winsect: nat, dsect: nat, buf: S)
    requires Consistent(v, others, chain, data, f, l, winsect, true, dsect, buf) && dsect < |l|
    ensures Consistent(v, others, chain, data, f, l[dsect := buf], winsect, false, dsect, buf)
    ensures OthersKept(v, others, l, l[dsect := buf])
  {
    assert LookMap(0);
    ShowsFlushed(v, chain, data, l, dsect, buf);
  }

  lemma ShowsFlushed<S>(v: Volume, chain: seq<nat>, data: seq<seq<S>>, l: seq<S>, dsect: nat, buf: S)
    requires Shows(v, chain, data, l, true, dsect, buf) && dsect < |l|
    ensures Shows(v, chain, data, l[dsect := buf], false, dsect, buf)
  {
    var m := l[dsect := buf];
    forall i, j | 0 <= i < |chain| && 0 <= j < v.csize
      ensures 0 <= At(v, chain[i], j) < |m| && data[i][j] == Seen(m, false, dsect, buf, At(v, chain[i], j))
    {}
  }

  // Moving the window into the FAT.
  lemma WindowMoved<S>(v: Volume, others: set<seq<nat>>, chain: seq<nat>, data: seq<seq<S>>, f: seq<nat>,
                       l: seq<S>, winsect: nat, winsect': nat, dirty: bool, dsect: nat, buf: S)
    requires v.Layout() && Consistent(v, others, chain, data, f, l, winsect, dirty, dsect, buf) && v.InFat(winsect')
    ensures Consistent(v, others, chain, data, f, l, winsect', dirty, dsect, buf)
  {
    assert LookMap(0);
  }

  // A change of the FAT only, which leaves this file's chain as it is or replaces it by a
  // prefix or an extension.
  lemma ShowsFrame<S>(v: Volume, others: set<seq<nat>>, chain: seq<nat>, data: seq<seq<S>>, f: seq<nat>,
                      l: seq<S>, m: seq<S>, dirty: bool, dsect: nat, buf: S)
    requires v.Valid() && |f| == v.nFatent && v.database <= |l| && Fits(v, |l|)
    requires Forest(f, WithOwn(others, chain)) && chain !in others
    requires Shows(v, chain, data, l, dirty, dsect, buf) && SameOutsideFat(v, l, m)
    ensures Shows(v, chain, data, m, dirty, dsect, buf)
  {
    forall i, j | 0 <= i < |chain| && 0 <= j < v.csize
      ensures 0 <= At(v, chain[i], j) < |m| && data[i][j] == Seen(m, dirty, dsect, buf, At(v, chain[i], j))
    {
      ClusterOnVolume(v, f, others, chain, |l|, i, j);
    }
  }

  // The sectors of cluster c as they are seen.
  ghost function ClusterSeen<S>(v: Volume, c: nat, l: seq<S>, dirty: bool, dsect: nat, buf: S): (x: seq<S>)
    requires forall j :: 0 <= j < v.csize ==> 0 <= At(v, c, j) < |l|
    ensures |x| == v.csize
  {
    seq(v.csize, j requires 0 <= j < v.csize => Seen(l, dirty, dsect, buf, At(v, c, j)))
  }

  // The chain grew by cluster ncl.
  lemma Extended<S>(v: Volume, others: set<seq<nat>>, chain: seq<nat>, data: seq<seq<S>>, f: seq<nat>, l: seq<S>,
                    winsect: nat, dirty: bool, dsect: nat, buf: S, ncl: nat, g: seq<nat>, m: seq<S>, winsect': nat)
    requires v.Valid() && |f| == |g| == v.nFatent && Consistent(v, others, chain, data, f, l, winsect, dirty, dsect, buf)
    requires Forest(g, WithOwn(others, chain + [ncl])) && chain + [ncl] !in others
    requires SameOutsideFat(v, l, m) && v.InFat(winsect')
    ensures forall j :: 0 <= j < v.csize ==> 0 <= At(v, ncl, j) < |m|
    ensures Consistent(v, others, chain + [ncl], data + [ClusterSeen(v, ncl, m, dirty, dsect, buf)], g, m, winsect',
                       dirty, dsect, buf)
  {
    assert LookMap(0);
    ShowsFrame(v, others, chain, data, f, l, m, dirty, dsect, buf);
    forall j | 0 <= j < v.csize ensures v.database <= At(v, ncl, j) < |m| {
      ClusterOnVolume(v, g, others, chain + [ncl], |m|, |chain|, j);
    }
    if dsect != 0 {
      MineKept(v, others, l, m, dsect);
    }
    ShowsExtended(v, chain, data, m, dirty, dsect, buf, ncl);
  }

  lemma ShowsExtended<S>(v: Volume, chain: seq<nat>, data: seq<seq<S>>, m: seq<S>, dirty: bool, dsect: nat, buf: S, ncl: nat)
    requires Shows(v, chain, data, m, dirty, dsect, buf)
    requires forall j :: 0 <= j < v.csize ==> 0 <= At(v, ncl, j) < |m|
    ensures Shows(v, chain + [ncl], data + [ClusterSeen(v, ncl, m, dirty, dsect, buf)], m, dirty, dsect, buf)
  {
    var d := data + [ClusterSeen(v, ncl, m, dirty, dsect, buf)];
    forall i, j | 0 <= i < |d| && 0 <= j < v.csize
      ensures 0 <= At(v, (chain + [ncl])[i], j) < |m|
      ensures d[i][j] == Seen(m, dirty, dsect, buf, At(v, (chain + [ncl])[i], j))
    {
      if i < |chain| {
        assert d[i][j] == data[i][j];
      }
    }
  }

  lemma MineKept<S>(v: Volume, others: set<seq<nat>>, l: seq<S>, m: seq<S>, s: int)
    requires v.Layout() && SameOutsideFat(v, l, m) && Mine(v, others, s) && 0 <= s < |l|
    ensures m[s] == l[s]
  {
  }

  // No sector of the file but sector j of cluster i is the sector s.
  ghost predicate OnlyAt(v: Volume, chain: seq<nat>, i: nat, j: nat, s: int) {
    forall i', j' {:trigger At(v, chain[i'], j')} ::
      0 <= i' < |chain| && 0 <= j' < v.csize && At(v, chain[i'], j') == s ==> i' == i && j' == j
  }

  lemma OnlyThere(v: Volume, others: set<seq<nat>>, f: seq<nat>, chain: seq<nat>, i: nat, j: nat)
    requires v.Valid() && |f| == v.nFatent && Forest(f, WithOwn(others, chain)) && i < |chain| && j < v.csize
    ensures OnlyAt(v, chain, i, j, At(v, chain[i], j))
  {
    assert chain in WithOwn(others, chain);
    forall i', j' | 0 <= i' < |chain| && 0 <= j' < v.csize && At(v, chain[i'], j') == At(v, chain[i], j)
      ensures i' == i && j' == j
    {
      SectorsDistinct(v, f, chain, i, j, i', j');
    }
  }

  lemma ShowsBuffered<S>(v: Volume, chain: seq<nat>, data: seq<seq<S>>, l: seq<S>, dirty: bool, dsect: nat, buf: S,
                         i: nat, j: nat, buf': S, s: nat)
    requires Shows(v, chain, data, l, dirty, dsect, buf) && i < |chain| && j < v.csize
    requires s == At(v, chain[i], j) && OnlyAt(v, chain, i, j, s) && (dirty ==> dsect == s)
    ensures Shows(v, chain, data[i := Splice(data[i], j, [buf'])], l, true, s, buf')
  {
    var d := data[i := Splice(data[i], j, [buf'])];
    forall i', j' | 0 <= i' < |chain| && 0 <= j' < v.csize
      ensures |d[i']| == v.csize && 0 <= At(v, chain[i'], j') < |l|
      ensures d[i'][j'] == Seen(l, true, s, buf', At(v, chain[i'], j'))
    {
      SplicedElement(data, v.csize, i, j, [buf'], i', j');
    }
    assert Uniform(d, v.csize);
  }

  // Bytes were stored into the buffer, which now holds sector j of cluster i.
  lemma Buffered<S>(v: Volume, others: set<seq<nat>>, chain: seq<nat>, data: seq<seq<S>>, f: seq<nat>, l: seq<S>,
                    winsect: nat, dirty: bool, dsect: nat, buf: S, i: nat, j: nat, buf': S)
    requires v.Valid() && |f| == v.nFatent && Consistent(v, others, chain, data, f, l, winsect, dirty, dsect, buf)
    requires |data| == |chain| && Uniform(data, v.csize)
    requires i < |chain| && j < v.csize && (dirty ==> dsect == At(v, chain[i], j))
    ensures 0 <= At(v, chain[i], j)
    ensures Consistent(v, others, chain, data[i := Splice(data[i], j, [buf'])], f, l, winsect, true, At(v, chain[i], j), buf')
  {
    assert LookMap(0);
    ClusterOnVolume(v, f, others, chain, |l|, i, j);
    OnlyThere(v, others, f, chain, i, j);
    ShowsBuffered(v, chain, data, l, dirty, dsect, buf, i, j, buf', At(v, chain[i], j));
  }

  lemma ShowsWritten<S>(v: Volume, chain: seq<nat>, data: seq<seq<S>>, l: seq<S>, dsect: nat, buf: S,
                        i: nat, j: nat, y: seq<S>, m: seq<S>, buf': S)
    requires Shows(v, chain, data, l, false, dsect, buf) && i < |chain| && j + |y| <= v.csize
    requires Stored(l, At(v, chain[i], j), y, m)
    requires forall q :: 0 <= q < v.csize ==> OnlyAt(v, chain, i, q, At(v, chain[i], q))
    ensures Shows(v, chain, data[i := Splice(data[i], j, y)], m, false, dsect, buf')
  {
    var d := data[i := Splice(data[i], j, y)];
    forall i', j' | 0 <= i' < |chain| && 0 <= j' < v.csize
      ensures |d[i']| == v.csize && 0 <= At(v, chain[i'], j') < |m| && d[i'][j'] == m[At(v, chain[i'], j')]
    {
      SplicedElement(data, v.csize, i, j, y, i', j');
      var q := j + (At(v, chain[i'], j') - At(v, chain[i], j));
      if j <= q < j + |y| {
        assert OnlyAt(v, chain, i, q, At(v, chain[i], q));
      }
    }
    assert Uniform(d, v.csize);
  }

  // Sectors y were written to the disk at sector j of cluster i; the buffer follows.
  lemma Written<S>(v: Volume, others: set<seq<nat>>, chain: seq<nat>, data: seq<seq<S>>, f: seq<nat>, l: seq<S>,
                   winsect: nat, dsect: nat, buf: S, i: nat, j: nat, y: seq<S>, m: seq<S>, buf': S)
    requires v.Valid() && |f| == v.nFatent && Consistent(v, others, chain, data, f, l, winsect, false, dsect, buf)
    requires |data| == |chain| && Uniform(data, v.csize)
    requires i < |chain| && j + |y| <= v.csize && Stored(l, At(v, chain[i], j), y, m)
    requires dsect < |l| ==> buf' == if At(v, chain[i], j) <= dsect < At(v, chain[i], j) + |y| then m[dsect] else buf
    ensures Consistent(v, others, chain, data[i := Splice(data[i], j, y)], f, m, winsect, false, dsect, buf')
    ensures OthersKept(v, others, l, m)
  {
    assert LookMap(0);
    forall q | 0 <= q < v.csize ensures OnlyAt(v, chain, i, q, At(v, chain[i], q)) {
      OnlyThere(v, others, f, chain, i, q);
    }
    ShowsWritten(v, chain, data, l, dsect, buf, i, j, y, m, buf');
    forall s | At(v, chain[i], j) <= s < At(v, chain[i], j) + |y| ensures Mine(v, others, s) {
      ClusterOnVolume(v, f, others, chain, |l|, i, s - v.ClusterStart(chain[i]));
    }
  }

  // The buffer was loaded with sector j of cluster i.
  lemma Loaded<S>(v: Volume, others: set<seq<nat>>, chain: seq<nat>, data: seq<seq<S>>, f: seq<nat>, l: seq<S>,
                  winsect: nat, dsect: nat, buf: S, i: nat, j: nat, buf': S)
    requires v.Valid() && |f| == v.nFatent && Consistent(v, others, chain, data, f, l, winsect, false, dsect, buf)
    requires i < |chain| && j < v.csize && 0 <= At(v, chain[i], j) < |l| && buf' == l[At(v, chain[i], j)]
    ensures Consistent(v, others, chain, data, f, l, winsect, false, At(v, chain[i], j), buf')
  {
    assert LookMap(0);
    ClusterOnVolume(v, f, others, chain, |l|, i, j);
    ShowsLoaded(v, chain, data, l, dsect, buf, At(v, chain[i], j), buf');
  }

  lemma ShowsLoaded<S>(v: Volume, chain: seq<nat>, data: seq<seq<S>>, l: seq<S>, dsect: nat, buf: S, dsect': nat, buf': S)
    requires Shows(v, chain, data, l, false, dsect, buf)
    ensures Shows(v, chain, data, l, false, dsect', buf')
  {
    forall i, j | 0 <= i < |chain| && 0 <= j < v.csize
      ensures 0 <= At(v, chain[i], j) < |l| && data[i][j] == Seen(l, false, dsect', buf', At(v, chain[i], j))
    {}
  }
}
