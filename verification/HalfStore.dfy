/**
 * A FAT12 entry that lies across two sectors is stored in two pieces, and the drive may hold the
 * first piece alone. Which values stand in the entry then, and when that is safe.
 */
module HalfStore {
  import opened FatTable
  import opened Window
  import opened ClusterChains
  import opened CrashSafety

  // A live entry leads to cluster i of the chain.
  ghost predicate Reaches(live: set<nat>, s: seq<nat>, i: nat) {
    exists j :: 0 <= j <= i < |s| && s[j] in live
  }

  // Whatever value h stands in the entry of a cluster of a forest: paths from used clusters that
  // pass it stay among used clusters, if it leads to one.
  lemma {:induction false} PathStaysUsed(f: seq<nat>, cs: set<seq<nat>>, live: set<nat>, c: nat, h: nat, p: seq<nat>, k: nat)
    requires Forest(f, cs) && Anchored(live, cs) && c < |f| && Path(f[c := h], live, p) && k < |p|
    requires h != 0 && (2 <= h < |f| ==> f[h] != 0)
    ensures f[p[k]] != 0
  {
    if k == 0 {
      UsedIffCovered(f, cs, p[0]);
    } else {
      PathStaysUsed(f, cs, live, c, h, p, k - 1);
      var x := p[k - 1];
      assert f[c := h][x] == p[k];
      if x != c {
        UsedIffCovered(f, cs, x);
        NextIsUsed(f, cs, x);
      }
    }
  }

  lemma NextIsUsed(f: seq<nat>, cs: set<seq<nat>>, x: nat)
    requires Forest(f, cs) && 2 <= x < |f| && f[x] != 0 && 2 <= f[x] < |f|
    ensures f[f[x]] != 0
  {
    assert Covered(cs, x);
    var s :| s in cs && x in s;
    var i :| 0 <= i < |s| && s[i] == x;
    LinkAt(|f|, f, s, i);
    assert s[i + 1] in s && Covered(cs, s[i + 1]);
    UsedIffCovered(f, cs, s[i + 1]);
  }

  // The chain up to cluster i is a path, also with another value in its entry.
  lemma StretchIsPath(f: seq<nat>, s: seq<nat>, live: set<nat>, j: nat, i: nat, h: nat)
    requires Chain(f, s) && j <= i < |s| && s[j] in live
    ensures Path(f[s[i] := h], live, s[j..i + 1])
  {
    var g, p := f[s[i] := h], s[j..i + 1];
    forall m {:trigger g[p[m]]} | 0 <= m < |p| - 1 ensures g[p[m]] == p[m + 1] {
      ChainDistinct(f, s, j + m, i);
      assert f[s[j + m]] == s[j + m + 1];
    }
  }

  lemma UsedValueSafe(f: seq<nat>, cs: set<seq<nat>>, live: set<nat>, c: nat, h: nat)
    requires Forest(f, cs) && Anchored(live, cs) && c < |f| && h != 0 && (2 <= h < |f| ==> f[h] != 0)
    ensures Safe(Snapshot(f[c := h], live))
  {
    forall p | Path(f[c := h], live, p) ensures f[c := h][p[|p| - 1]] != 0 {
      PathStaysUsed(f, cs, live, c, h, p, |p| - 1);
    }
  }

  lemma FreeValueUnsafe(f: seq<nat>, live: set<nat>, s: seq<nat>, i: nat, h: nat)
    requires Chain(f, s) && Reaches(live, s, i) && (h == 0 || (2 <= h < |f| && f[h] == 0))
    ensures s[i] < |f| && !Safe(Snapshot(f[s[i] := h], live))
  {
    var j :| 0 <= j <= i && s[j] in live;
    var p := s[j..i + 1];
    StretchIsPath(f, s, live, j, i, h);
    assert p[|p| - 1] == s[i];
    if h != 0 {
      StepToFree(f, s, i, h, live, p);
    }
  }

  /**
   * A value h in the entry of a cluster that a live directory entry leads to is safe if and only
   * if it is not 0 and does not name a free cluster.
   */
  lemma ValueSafeIff(f: seq<nat>, cs: set<seq<nat>>, live: set<nat>, s: seq<nat>, i: nat, h: nat)
    requires Forest(f, cs) && Anchored(live, cs) && s in cs && Reaches(live, s, i)
    ensures s[i] < |f|
    ensures Safe(Snapshot(f[s[i] := h], live)) <==> h != 0 && (2 <= h < |f| ==> f[h] != 0)
  {
    LinkAt(|f|, f, s, i);
    if h != 0 && (2 <= h < |f| ==> f[h] != 0) {
      UsedValueSafe(f, cs, live, s[i], h);
    } else {
      FreeValueUnsafe(f, live, s, i, h);
    }
  }

  lemma StepToFree(f: seq<nat>, s: seq<nat>, i: nat, h: nat, live: set<nat>, p: seq<nat>)
    requires Chain(f, s) && i < |s| && 2 <= h < |f| && f[h] == 0
    requires Path(f[s[i] := h], live, p) && p[|p| - 1] == s[i]
    ensures !Safe(Snapshot(f[s[i] := h], live))
  {
    var g, q := f[s[i] := h], p + [h];
    LinkAt(|f|, f, s, i);
    assert f[s[i]] != 0;
    forall m {:trigger g[q[m]]} | 0 <= m < |q| - 1 ensures g[q[m]] == q[m + 1] {
      if m < |p| - 1 {
        assert g[p[m]] == p[m + 1];
      }
    }
    assert Path(g, live, q) && q[|q| - 1] == h;
  }

  /** Anything may stand in a cluster that no live entry leads to: the one taken, or those freed. */
  lemma ElsewhereSafe(f: seq<nat>, cs: set<seq<nat>>, ds: set<seq<nat>>, live: set<nat>, c: nat, h: nat)
    requires Forest(f, cs) && ds <= cs && Anchored(live, ds) && c < |f| && !Covered(ds, c)
    ensures Safe(Snapshot(f[c := h], live))
  {
    ChainsFrame(f, f[c := h], ds);
    AnchoredIsSafe(f[c := h], live, ds);
  }

  // What the second store of create_chain leaves half done: an end mark, half of it the new cluster.
  lemma HalfLink(mark: nat, ncl: nat, odd: bool)
    requires 0xFF0 <= mark < 0x1000
    ensures Half12(mark, ncl, odd) == if odd then 0xFF0 + ncl % 0x10 else 0xF00 + ncl % 0x100
  {
  }

  /**
   * On FAT12, the half link of create_chain is safe if and only if the cluster it seems to name is
   * not free; with fewer than 0xF00 entries there is no such cluster.
   */
  lemma HalfLinkSafeIff(f: seq<nat>, cs: set<seq<nat>>, live: set<nat>, s: seq<nat>, ncl: nat)
    requires Forest(f, cs) && Anchored(live, cs) && s in cs && Reaches(live, s, |s| - 1)
    requires s[|s| - 1] < |f| && 0xFF0 <= f[s[|s| - 1]] < 0x1000
    ensures var c := s[|s| - 1]; var h := Half12(f[c], ncl, c % 2 == 1);
      && (Safe(Snapshot(f[c := h], live)) <==> h >= |f| || f[h] != 0)
      && (|f| <= 0xF00 ==> Safe(Snapshot(f[c := h], live)))
  {
    var c := s[|s| - 1];
    var h := Half12(f[c], ncl, c % 2 == 1);
    HalfLink(f[c], ncl, c % 2 == 1);
    var safe := ValueIsSafe(f, cs, live, s, |s| - 1, c, h);
    assert safe <==> h >= |f| || f[h] != 0;
  }

  lemma ValueIsSafe(f: seq<nat>, cs: set<seq<nat>>, live: set<nat>, s: seq<nat>, i: nat, c: nat, h: nat) returns (safe: bool)
    requires Forest(f, cs) && Anchored(live, cs) && s in cs && Reaches(live, s, i) && c == s[i]
    ensures c < |f| && safe == Safe(Snapshot(f[c := h], live))
    ensures safe <==> h != 0 && (2 <= h < |f| ==> f[h] != 0)
  {
    ValueSafeIff(f, cs, live, s, i, h);
    safe := h != 0 && (2 <= h < |f| ==> f[h] != 0);
  }


  // A volume of 4000 entries, where a live file has the one cluster 682.
  function LargeFat(): (f: seq<nat>)
    ensures |f| == 4000
  {
    seq(4000, c => if c == 682 then 0xFFF else 0)
  }

  /** There, stretching the file by cluster 5 goes through a state that is not safe. */
  lemma HalfLinkIsUnsafe()
    ensures var f := LargeFat();
      Chain(f, [682]) && At12(682) % 512 == 511 && !Safe(Snapshot(f[682 := Half12(f[682], 5, false)], {682}))
  {
    var f, s := LargeFat(), [682];
    assert f[682] == 0xFFF && f[0xF05] == 0;
    assert 682 in s && s in {s};
    assert Forest(f, {s});
    assert Anchored({682}, {s}) by {
      assert Covered({s}, 682);
    }
    assert s[0] in {682};
    assert Reaches({682}, s, 0);
    HalfLinkSafeIff(f, {s}, {682}, s, 5);
  }
}
