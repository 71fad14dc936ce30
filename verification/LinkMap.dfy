/**
 * The cluster link map of the fast seek: a table of the fragments of a file's chain, and the
 * lookup in it.
 */
module LinkMap {
  import opened Basics
  import opened Types
  import opened Geometry
  import opened Window
  import opened FatAccess
  import opened ClusterChains

  // A run of consecutive clusters: how many, and the first of them.
  datatype Frag = Frag(len: nat, top: nat)

  // The length of the run at the head of s.
  function Run(s: seq<nat>): (n: nat)
    requires s != []
    ensures 1 <= n <= |s|
  {
    if |s| == 1 || s[1] != s[0] + 1 then 1 else 1 + Run(s[1..])
  }

  // The maximal runs of s.
  function Frags(s: seq<nat>): seq<Frag>
    decreases |s|
  {
    if s == [] then [] else [Frag(Run(s), s[0])] + Frags(s[Run(s)..])
  }

  // The items of the table after its size, up to the terminator.
  function Encode(fr: seq<Frag>): (t: seq<nat>)
    ensures |t| == 2 * |fr|
  {
    if fr == [] then [] else Encode(fr[..|fr| - 1]) + [fr[|fr| - 1].len, fr[|fr| - 1].top]
  }

  lemma EncodeMore(fr: seq<Frag>, x: Frag)
    ensures Encode(fr + [x]) == Encode(fr) + [x.len, x.top]
  {
    assert (fr + [x])[..|fr|] == fr;
  }

  /** The table holds, for each fragment, its number of clusters and then its first cluster. */
  lemma {:induction false} EncodedAt(fr: seq<Frag>, i: nat)
    requires i < |fr|
    ensures Encode(fr)[2 * i] == fr[i].len && Encode(fr)[2 * i + 1] == fr[i].top
  {
    var init := fr[..|fr| - 1];
    if i < |init| {
      EncodedAt(init, i);
      assert init[i] == fr[i];
    }
  }

  // n clusters follow each other at the head of s, and the next one does not.
  lemma {:induction false} RunIs(s: seq<nat>, n: nat)
    requires 1 <= n <= |s|
    requires forall i :: 0 <= i < n - 1 ==> s[i + 1] == s[i] + 1
    requires n == |s| || s[n] != s[n - 1] + 1
    ensures Run(s) == n
  {
    if n > 1 {
      assert s[1] == s[0] + 1;
      var t := s[1..];
      forall i | 0 <= i < n - 2 ensures t[i + 1] == t[i] + 1 {
        assert t[i] == s[i + 1] && t[i + 1] == s[i + 1 + 1];
      }
      RunIs(t, n - 1);
    }
  }

  lemma {:induction false} RunStep(s: seq<nat>, i: nat)
    requires s != [] && i < Run(s)
    ensures i < |s| && s[i] == s[0] + i
  {
    if i > 0 {
      assert s[1] == s[0] + 1;
      RunStep(s[1..], i - 1);
    }
  }

  // The end mark of the chain reads as the number behind its last cluster.
  ghost predicate Runaway(f: seq<nat>, s: seq<nat>) {
    s != [] && s[|s| - 1] < |f| && f[s[|s| - 1]] == s[|s| - 1] + 1
  }

  /** On a volume of one cluster, the end mark 3 does. */
  lemma OneClusterRunsAway()
    ensures var f, s := [0xFF8, 0xFFF, 3], [2]; Chain(f, s) && Runaway(f, s)
  {
    var f := [0xFF8, 0xFFF, 3];
    assert f[2] == 3;
  }

  /**
   * It is the one mark, and the one cluster, for which that happens: the last cluster of the
   * volume, marked with the number behind it. A larger mark, such as create_chain writes, does not.
   */
  lemma RunsAwayIff(f: seq<nat>, s: seq<nat>)
    requires Chain(f, s)
    ensures Runaway(f, s) <==> s[|s| - 1] == |f| - 1 && f[|f| - 1] == |f|
  {
  }

  lemma OwnMarksEnd(v: Volume, f: seq<nat>, s: seq<nat>)
    requires v.Valid() && |f| == v.nFatent && Chain(f, s) && f[s[|s| - 1]] == EndMark(v.fsType)
    ensures !Runaway(f, s)
  {
    assert LookVolume(0);
  }

  // The inner loop of f_lseek(CREATE_LINKMAP): measure the fragment that starts at cluster k.
  // It fails only where the end mark looks like the next cluster.
  method Measure(fs: Fatfs, tcl: dword, ghost s: seq<nat>, ghost k: nat) returns (ncl: nat, cl: dword, failed: bool)
    requires fs.Valid() && Chain(fs.fat, s) && k < |s| && tcl == s[k]
    modifies fs`wflag, fs`disk, fs`winsect, fs.win
    ensures fs.Valid() && (failed <==> k + Run(s[k..]) == |s| && Runaway(fs.fat, s))
    ensures !failed ==> ncl == Run(s[k..]) && if k + ncl < |s| then cl == s[k + ncl] else fs.vol.nFatent <= cl
  {
    ncl, cl, failed := 0, tcl, false;
    ghost var r := s[k..];
    while true
      invariant fs.Valid() && ncl <= |r|
      invariant if ncl < |r| then cl == r[ncl] else cl == fs.vol.nFatent && Runaway(fs.fat, s)
      invariant forall i :: 0 <= i < ncl && i + 1 < |r| ==> r[i + 1] == r[i] + 1
      decreases |r| - ncl
    {
      if ncl == |r| {
        RunIs(r, ncl);
      } else {
        LinkAt(fs.vol.nFatent, fs.fat, s, k + ncl);
      }
      var pcl := cl;
      ncl := ncl + 1;
      cl := GetFat(fs, cl);
      if cl <= 1 {
        failed := true;
        return;
      }
      if cl != pcl + 1 {
        break;
      }
    }
    RunIs(r, ncl);
  }

  // The clusters of the first fragments, one after the other.
  function Expand(fr: seq<Frag>): seq<nat> {
    if fr == [] then [] else seq(fr[0].len, i requires 0 <= i < fr[0].len => fr[0].top + i) + Expand(fr[1..])
  }

  /** The fragments describe the chain. */
  lemma {:induction false} ExpandFrags(s: seq<nat>)
    ensures Expand(Frags(s)) == s
    decreases |s|
  {
    if s != [] {
      var n := Run(s);
      var rest := s[n..];
      ExpandFrags(rest);
      RunIsRange(s);
      ExpandHead(Frag(n, s[0]), Frags(rest));
      SplitAt(s, n);
    }
  }

  lemma SplitAt(s: seq<nat>, n: nat)
    requires n <= |s|
    ensures s[..n] + s[n..] == s
  {
  }

  lemma ExpandHead(x: Frag, fr: seq<Frag>)
    ensures Expand([x] + fr) == seq(x.len, i requires 0 <= i < x.len => x.top + i) + Expand(fr)
  {
    assert ([x] + fr)[1..] == fr;
  }

  lemma RunIsRange(s: seq<nat>)
    requires s != []
    ensures seq(Run(s), i requires 0 <= i < Run(s) => s[0] + i) == s[..Run(s)]
  {
    var n := Run(s);
    var a := seq(n, i requires 0 <= i < n => s[0] + i);
    forall i | 0 <= i < n ensures a[i] == s[i] {
      RunStep(s, i);
    }
    assert a == s[..n];
  }

  /** The fragments are maximal: the next one never continues the one before. */
  lemma {:induction false} FragsMaximal(s: seq<nat>, i: nat)
    requires i + 1 < |Frags(s)|
    ensures Frags(s)[i].top + Frags(s)[i].len != Frags(s)[i + 1].top
    decreases |s|
  {
    var n, fr := Run(s), Frags(s);
    assert fr[0] == Frag(n, s[0]) && fr[1..] == Frags(s[n..]);
    if i == 0 {
      RunEnds(s);
      RunStep(s, n - 1);
      assert fr[1] == fr[1..][0];
    } else {
      FragsMaximal(s[n..], i - 1);
      assert fr[i] == fr[1..][i - 1] && fr[i + 1] == fr[1..][i];
    }
  }

  lemma {:induction false} RunEnds(s: seq<nat>)
    requires s != []
    ensures Run(s) < |s| ==> s[Run(s)] != s[Run(s) - 1] + 1
  {
    if |s| > 1 && s[1] == s[0] + 1 {
      RunEnds(s[1..]);
    }
  }

  // What f_lseek(CREATE_LINKMAP) leaves in the table: the number of items needed, and the
  // fragments with a terminator behind them if they fit.
  ghost predicate MapOf(tbl: seq<dword>, s: seq<nat>, tlen: nat) {
    var n := 2 * |Frags(s)| + 2;
    && 0 < |tbl| && tbl[0] == n
    && (n <= tlen ==> n <= |tbl| && Has(tbl, Frags(s)) && tbl[n - 1] == 0)
  }

  // done are the fragments of the first k clusters of s.
  ghost predicate Upto(s: seq<nat>, done: seq<Frag>, k: nat) {
    k <= |s| && |done| <= k && Rest(s, done, k) == true
  }

  // (Behind a key, like Volume.Checked.)
  ghost predicate Rest(s: seq<nat>, done: seq<Frag>, k: nat)
    requires k <= |s|
  {
    forall q :: LookFrags(q) ==> Frags(s) == done + Frags(s[k..])
  }

  ghost predicate LookFrags(k: int) {
    true
  }

  // The table has the fragments done behind its first item.
  ghost predicate Has(tbl: seq<dword>, done: seq<Frag>) {
    2 * |done| + 1 <= |tbl| && Items(tbl, done) == true
  }

  ghost predicate Items(tbl: seq<dword>, done: seq<Frag>)
    requires 2 * |done| + 1 <= |tbl|
  {
    tbl[1..2 * |done| + 1] == Encode(done)
  }

  // t with two items set.
  function Set2(t: seq<dword>, i: nat, x: dword, j: nat, y: dword): (u: seq<dword>)
    requires i < |t| && j < |t|
    ensures |u| == |t|
  {
    var u: seq<dword> := t[i := x];
    u[j := y]
  }

  // Store a fragment if the table has room for it.
  method StoreFrag(tbl: array<dword>, tlen: dword, ulen: nat, ncl: dword, tcl: dword, ghost done: seq<Frag>)
    requires ulen == 2 * |done| + 4 && tlen <= tbl.Length
    requires ulen <= tlen ==> Has(tbl[..], done)
    modifies tbl
    ensures ulen <= tlen ==> Has(tbl[..], done + [Frag(ncl, tcl)])
  {
    if ulen <= tlen {
      ghost var t := tbl[..];
      tbl[ulen - 3] := ncl;
      tbl[ulen - 2] := tcl;
      assert tbl[..] == Set2(t, 2 * |done| + 1, ncl, 2 * |done| + 2, tcl);
      ItemsMore(t, done, ncl, tcl);
    }
  }

  lemma ItemsMore(t: seq<dword>, done: seq<Frag>, ncl: dword, tcl: dword)
    requires Has(t, done) && 2 * |done| + 3 <= |t|
    ensures Has(Set2(t, 2 * |done| + 1, ncl, 2 * |done| + 2, tcl), done + [Frag(ncl, tcl)])
  {
    var n, u := 2 * |done|, Set2(t, 2 * |done| + 1, ncl, 2 * |done| + 2, tcl);
    EncodeMore(done, Frag(ncl, tcl));
    assert u[1..n + 3] == t[1..n + 1] + [ncl, tcl];
  }

  /**
   * f_lseek(CREATE_LINKMAP): the size reported is 2 + 2 * (number of fragments), and the table
   * holds them if it is large enough. It fails exactly when the end mark of the chain reads as
   * the number behind its last cluster, as then the measuring loop runs on.
   */
  method CreateLinkMap(fs: Fatfs, sclust: dword, tbl: array<dword>, ghost s: seq<nat>) returns (res: FResult)
    requires fs.Valid() && (if s == [] then sclust == 0 else Chain(fs.fat, s) && sclust == s[0])
    requires 0 < tbl.Length && tbl[0] <= tbl.Length && tbl as object != fs.win as object
    modifies fs`wflag, fs`disk, fs`winsect, fs.win, tbl
    ensures fs.Valid() && (res == IntErr <==> Runaway(fs.fat, s))
    ensures res != IntErr ==> MapOf(tbl[..], s, old(tbl[0]))
    ensures res != IntErr ==> res == if 2 * |Frags(s)| + 2 <= old(tbl[0]) then Ok else NotEnoughCore
  {
    var tlen, ulen := tbl[0], 2;
    res := Ok;
    NoneDone(s, tbl[..]);
    if sclust != 0 {
      ChainLength(fs.fat, s);
      res, ulen := MapFragments(fs, sclust, tbl, tlen, s);
    }
    if res == Ok {
      ghost var t := tbl[..];
      tbl[0] := ulen;
      if ulen <= tlen {
        tbl[ulen - 1] := 0;
        assert tbl[..] == Set2(t, 0, ulen, ulen - 1, 0);
        HasKept(t, Frags(s), ulen, ulen - 1);
      } else {
        res := NotEnoughCore;
      }
    }
  }

  lemma HasKept(t: seq<dword>, fr: seq<Frag>, x: dword, i: nat)
    requires Has(t, fr) && 2 * |fr| + 1 <= i < |t|
    ensures Has(Set2(t, 0, x, i, 0), fr)
  {
    assert Set2(t, 0, x, i, 0)[1..2 * |fr| + 1] == t[1..2 * |fr| + 1];
  }

  // The outer loop of f_lseek(CREATE_LINKMAP): one round for each fragment.
  method MapFragments(fs: Fatfs, sclust: dword, tbl: array<dword>, tlen: dword, ghost s: seq<nat>)
    returns (res: FResult, ulen: nat)
    requires fs.Valid() && Chain(fs.fat, s) && sclust == s[0] && 0 < tbl.Length && tlen <= tbl.Length
    requires tbl as object != fs.win as object
    modifies fs`wflag, fs`disk, fs`winsect, fs.win, tbl
    ensures fs.Valid() && (res == IntErr <==> Runaway(fs.fat, s)) && (res == IntErr || res == Ok)
    ensures res == Ok ==> ulen == 2 * |Frags(s)| + 2 && |Frags(s)| <= |s|
    ensures res == Ok && ulen <= tlen ==> Has(tbl[..], Frags(s))
  {
    var cl, more := sclust, true;
    res, ulen := Ok, 2;
    ghost var done: seq<Frag>, k: nat := [], 0;
    NoneDone(s, tbl[..]);
    while more
      invariant fs.Valid() && Upto(s, done, k) && ulen == 2 * |done| + 2 && (res == Ok || (res == IntErr && !more))
      invariant more ==> k < |s| && cl == s[k]
      invariant res == IntErr ==> Runaway(fs.fat, s)
      invariant res == Ok && !more ==> k == |s| && !Runaway(fs.fat, s)
      invariant res == Ok && ulen <= tlen ==> Has(tbl[..], done)
      decreases more, |s| - k
    {
      var ncl;
      res, ncl, cl := MapOne(fs, cl, tbl, tlen, ulen + 2, s, k, done);
      more := res == Ok && cl < fs.vol.nFatent;
      if res == Ok {
        ulen := ulen + 2;
        done, k := done + [Frag(ncl, s[k])], k + ncl;
      }
    }
    if res == Ok {
      AllDone(s, done);
    }
  }

  lemma NoneDone(s: seq<nat>, t: seq<dword>)
    requires t != []
    ensures Upto(s, [], 0) && Has(t, [])
  {
    assert s[0..] == s;
  }

  lemma AllDone(s: seq<nat>, done: seq<Frag>)
    requires Upto(s, done, |s|)
    ensures done == Frags(s)
  {
    assert LookFrags(0);
    assert s[|s|..] == [];
    assert done + [] == done;
  }

  // One fragment: measure it, and store it if there is room.
  method MapOne(fs: Fatfs, tcl: dword, tbl: array<dword>, tlen: dword, ulen: nat, ghost s: seq<nat>, ghost k: nat,
                ghost done: seq<Frag>) returns (res: FResult, ncl: nat, cl: dword)
    requires fs.Valid() && Chain(fs.fat, s) && k < |s| && tcl == s[k] && tlen <= tbl.Length && tbl as object != fs.win as object
    requires ulen == 2 * |done| + 4 && Upto(s, done, k)
    requires ulen - 2 <= tlen ==> Has(tbl[..], done)
    modifies fs`wflag, fs`disk, fs`winsect, fs.win, tbl
    ensures fs.Valid() && (res == Ok || res == IntErr)
    ensures res == IntErr ==> Runaway(fs.fat, s)
    ensures res == Ok ==> 0 < ncl && Upto(s, done + [Frag(ncl, s[k])], k + ncl)
    ensures res == Ok ==> if cl < fs.vol.nFatent then k + ncl < |s| && cl == s[k + ncl] else k + ncl == |s| && !Runaway(fs.fat, s)
    ensures res == Ok && ulen <= tlen ==> Has(tbl[..], done + [Frag(ncl, s[k])])
  {
    var failed;
    ncl, cl, failed := Measure(fs, tcl, s, k);
    NextFrag(s, k, done);
    res := IntErr;
    if !failed {
      res := Ok;
      FragBounds(fs.vol, fs.fat, s, k, ncl);
      StoreFrag(tbl, tlen, ulen, ncl, tcl, done);
    }
  }

  lemma FragBounds(v: Volume, f: seq<nat>, s: seq<nat>, k: nat, n: nat)
    requires Chain(f, s) && |f| == v.nFatent < 0x1_0000_0000 && k + n <= |s|
    ensures n < 0x1_0000_0000 && (k + n < |s| ==> s[k + n] < v.nFatent)
  {
    ChainLength(f, s);
  }

  lemma NextFrag(s: seq<nat>, k: nat, done: seq<Frag>)
    requires k < |s| && Upto(s, done, k)
    ensures var n := Run(s[k..]); Upto(s, done + [Frag(n, s[k])], k + n)
  {
    assert LookFrags(0);
    var r := s[k..];
    var n := Run(r);
    DropDrop(s, k, n);
    var x, rest := [Frag(n, r[0])], Frags(r[n..]);
    assert Frags(r) == x + rest;
    Assoc<Frag>(done, x, rest);
  }

  lemma DropDrop<T>(s: seq<T>, k: nat, n: nat)
    requires k + n <= |s|
    ensures s[k..][n..] == s[k + n..]
  {
  }

  /** A chain has no more clusters than the FAT has entries. */
  lemma ChainLength(f: seq<nat>, s: seq<nat>)
    requires Chain(f, s)
    ensures |s| <= |f|
  {
    var free := seq(|f|, _ => 0);
    ZerosBound(free);
    var used := set i | 0 <= i < |s| :: s[i];
    forall i, j | 0 <= i < j < |s| ensures s[i] != s[j] {
      ChainDistinct(f, s, i, j);
    }
    CountDistinct(s);
    assert used <= Zeros(free);
    SubsetSize(used, Zeros(free));
  }

  lemma {:induction false} CountDistinct(s: seq<nat>)
    requires forall i, j :: 0 <= i < j < |s| ==> s[i] != s[j]
    ensures |set i | 0 <= i < |s| :: s[i]| == |s|
  {
    if s != [] {
      var t := s[..|s| - 1];
      CountDistinct(t);
      var u, w := set i | 0 <= i < |t| :: t[i], set i | 0 <= i < |s| :: s[i];
      assert w == u + {s[|s| - 1]};
    }
  }

  lemma {:induction false} SubsetSize(a: set<nat>, b: set<nat>)
    requires a <= b
    ensures |a| <= |b|
  {
    if a != {} {
      var x :| x in a;
      SubsetSize(a - {x}, b - {x});
    }
  }

  // Fragment j of a table begins with cluster number Before(fr, j) of the file.
  function Before(fr: seq<Frag>, j: nat): nat
    requires j <= |fr|
  {
    if j == 0 then 0 else Before(fr, j - 1) + fr[j - 1].len
  }

  // Items 1 + 2 * j and 2 + 2 * j of the table are those of fragment j.
  lemma {:induction false} EncodeAt(fr: seq<Frag>, j: nat)
    requires j < |fr|
    ensures Encode(fr)[2 * j] == fr[j].len && Encode(fr)[2 * j + 1] == fr[j].top
  {
    if j < |fr| - 1 {
      EncodeAt(fr[..|fr| - 1], j);
    }
  }

  lemma {:induction false} BeforeFirst(fr: seq<Frag>, j: nat)
    requires 0 < |fr| && 0 < j <= |fr|
    ensures Before(fr, j) == fr[0].len + Before(fr[1..], j - 1)
  {
    if j > 1 {
      BeforeFirst(fr, j - 1);
      assert fr[j - 1] == fr[1..][j - 2];
    }
  }

  /** Cluster i of the chain lies in the fragment that i falls into, by the fragments' lengths. */
  lemma {:induction false} ClusterInFrag(s: seq<nat>, j: nat, i: nat)
    requires j < |Frags(s)| && Before(Frags(s), j) <= i < Before(Frags(s), j) + Frags(s)[j].len
    ensures i < |s| && s[i] == Frags(s)[j].top + (i - Before(Frags(s), j))
    decreases |s|
  {
    var n, fr := Run(s), Frags(s);
    assert fr[0] == Frag(n, s[0]) && fr[1..] == Frags(s[n..]);
    if j == 0 {
      RunStep(s, i);
    } else {
      BeforeFirst(fr, j);
      assert fr[j] == fr[1..][j - 1];
      ClusterInFrag(s[n..], j - 1, i - n);
    }
  }

  lemma {:induction false} FragLengths(s: seq<nat>)
    ensures Before(Frags(s), |Frags(s)|) == |s|
    ensures forall j :: 0 <= j < |Frags(s)| ==> 0 < Frags(s)[j].len
    decreases |s|
  {
    if s != [] {
      var n, fr := Run(s), Frags(s);
      assert fr[0] == Frag(n, s[0]) && fr[1..] == Frags(s[n..]);
      FragLengths(s[n..]);
      BeforeFirst(fr, |fr|);
      forall j | 0 <= j < |fr| ensures 0 < fr[j].len {
        if j > 0 {
          assert fr[j] == fr[1..][j - 1];
        }
      }
    }
  }

  lemma AllClusters(s: seq<nat>, j: nat)
    requires j <= |Frags(s)|
    ensures j == |Frags(s)| ==> Before(Frags(s), j) == |s|
  {
    FragLengths(s);
  }

  // What the table holds, item by item.
  lemma MapItems(tbl: seq<dword>, s: seq<nat>, tlen: nat, j: nat)
    requires MapOf(tbl, s, tlen) && 2 * |Frags(s)| + 2 <= tlen && j <= |Frags(s)|
    ensures 2 * j + 1 < |tbl| && (j == |Frags(s)| ==> tbl[2 * j + 1] == 0)
    ensures j < |Frags(s)| ==> 2 * j + 2 < |tbl| && tbl[2 * j + 1] == Frags(s)[j].len > 0 && tbl[2 * j + 2] == Frags(s)[j].top
  {
    FragLengths(s);
    if j < |Frags(s)| {
      EncodeAt(Frags(s), j);
      var t := tbl[1..2 * |Frags(s)| + 1];
      assert t[2 * j] == tbl[2 * j + 1] && t[2 * j + 1] == tbl[2 * j + 2];
    }
  }

  /**
   * clmt_clust on a complete table: it finds cluster number cl of the file, or 0 when the file
   * has no such cluster.
   */
  method ClmtClust(v: Volume, tbl: array<dword>, ofs: dword, ghost s: seq<nat>, ghost tlen: nat, ghost i: nat) returns (clst: nat)
    requires 0 < v.csize && MapOf(tbl[..], s, tlen) && 2 * |Frags(s)| + 2 <= tlen && i == ofs / 512 / v.csize
    ensures clst == if i < |s| then s[i] else 0
  {
    var p, cl: int := 1, ofs / 512 / v.csize;
    ghost var j := 0;
    while true
      invariant 0 <= cl && j <= |Frags(s)| && p == 2 * j + 1 && i == Before(Frags(s), j) + cl
      decreases |Frags(s)| - j
    {
      MapItems(tbl[..], s, tlen, j);
      AllClusters(s, j);
      var ncl := tbl[p];
      p := p + 1;
      if ncl == 0 {
        return 0;
      }
      if cl < ncl {
        break;
      }
      cl := cl - ncl;
      p := p + 1;
      j := j + 1;
    }
    ClusterInFrag(s, j, i);
    clst := cl + tbl[p];
  }
}
