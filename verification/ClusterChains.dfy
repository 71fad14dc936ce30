/**
 * The FAT as an abstract array: entry c holds 0 (free), the next cluster of a chain, or a
 * value past the last cluster (end of chain). A well-formed FAT is a forest of disjoint
 * chains that cover exactly the clusters in use.
 */
module ClusterChains {

  ghost predicate Chain(f: seq<nat>, s: seq<nat>) {
    && s != []
    && (forall i :: 0 <= i < |s| ==> 2 <= s[i] < |f|)
    && (forall i {:trigger f[s[i]]} :: 0 <= i < |s| - 1 ==> f[s[i]] == s[i + 1])
    && |f| <= f[s[|s| - 1]]
  }

  ghost predicate Forest(f: seq<nat>, cs: set<seq<nat>>) {
    && (forall s :: s in cs ==> Chain(f, s))
    && PairwiseDisjoint(cs)
    && (forall c :: 2 <= c < |f| && f[c] != 0 ==> Covered(cs, c))
  }

  ghost predicate PairwiseDisjoint(cs: set<seq<nat>>) {
    forall s, t :: s in cs && t in cs && s != t ==> Apart(s, t)
  }

  ghost predicate Apart(s: seq<nat>, t: seq<nat>) {
    forall x :: x in s ==> x !in t
  }

  ghost predicate Covered(cs: set<seq<nat>>, c: nat) {
    exists s :: s in cs && c in s
  }

  // What a FAT of n entries says about cluster k of a chain.
  lemma LinkAt(n: nat, f: seq<nat>, s: seq<nat>, k: nat)
    requires Chain(f, s) && |f| == n && k < |s|
    ensures 2 <= s[k] < n
    ensures k + 1 < |s| ==> f[s[k]] == s[k + 1] && 2 <= s[k + 1] < n
    ensures k + 1 == |s| ==> n <= f[s[k]]
  {
  }

  /** Chains are acyclic: no cluster occurs twice. */
  lemma {:induction false} ChainDistinct(f: seq<nat>, s: seq<nat>, i: nat, j: nat)
    requires Chain(f, s) && i < j < |s|
    ensures s[i] != s[j]
    decreases |s| - j
  {
    assert f[s[i]] == s[i + 1];
    if j < |s| - 1 {
      assert f[s[j]] == s[j + 1];
      ChainDistinct(f, s, i + 1, j + 1);
    }
  }

  /** A chain is determined by its first cluster. */
  lemma {:induction false} ChainUnique(f: seq<nat>, s: seq<nat>, t: seq<nat>)
    requires Chain(f, s) && Chain(f, t) && s[0] == t[0]
    ensures s == t
  {
    assert |s| > 1 ==> f[s[0]] == s[1];
    assert |t| > 1 ==> f[t[0]] == t[1];
    if |s| > 1 {
      ChainUnique(f, s[1..], t[1..]);
      assert s == [s[0]] + s[1..] && t == [t[0]] + t[1..];
    } else {
      assert s == [s[0]] && t == [t[0]];
    }
  }

  // In a forest, a cluster is in use exactly when some chain holds it.
  lemma UsedIffCovered(f: seq<nat>, cs: set<seq<nat>>, c: nat)
    requires Forest(f, cs) && 2 <= c < |f|
    ensures f[c] != 0 <==> Covered(cs, c)
    ensures f[c] != 1
  {
    if s :| s in cs && c in s {
      var i :| 0 <= i < |s| && s[i] == c;
      assert i < |s| - 1 ==> s[i + 1] >= 2;
    }
  }

  // The FAT after create_chain took free cluster ncl, for a new chain (clst == 0) or behind clst.
  function Linked(f: seq<nat>, clst: nat, ncl: nat, e: nat): (g: seq<nat>)
    requires clst < |f| && ncl < |f|
    ensures |g| == |f|
  {
    if clst == 0 then f[ncl := e] else f[ncl := e][clst := ncl]
  }

  // Chains not touching the changed clusters survive.
  lemma ChainFrame(f: seq<nat>, g: seq<nat>, s: seq<nat>)
    requires Chain(f, s) && |g| == |f| && forall x :: x in s ==> x < |f| && g[x] == f[x]
    ensures Chain(g, s)
  {
    assert forall i :: 0 <= i < |s| ==> s[i] in s;
  }

  // A chain that stays holds only clusters that are neither in old nor in new chains.
  lemma KeptApart(f: seq<nat>, cs: set<seq<nat>>, was: set<seq<nat>>, now: set<seq<nat>>, s: seq<nat>, x: nat)
    requires Forest(f, cs) && was <= cs && s in cs && s !in was && x in s
    requires forall t, y :: t in now && y in t ==> y < |f| && (f[y] == 0 || Covered(was, y))
    ensures x < |f| && f[x] != 0 && !Covered(was, x) && !Covered(now, x)
  {
    UsedIffCovered(f, cs, x);
    assert forall u :: u in was ==> Apart(u, s);
  }

  lemma StaysDisjoint(f: seq<nat>, cs: set<seq<nat>>, was: set<seq<nat>>, now: set<seq<nat>>)
    requires Forest(f, cs) && was <= cs && PairwiseDisjoint(now)
    requires forall t, y :: t in now && y in t ==> y < |f| && (f[y] == 0 || Covered(was, y))
    ensures PairwiseDisjoint(cs - was + now)
  {
    forall s, t | s in cs - was && t in now ensures Apart(s, t) && Apart(t, s) {
      forall x | x in s && x in t ensures false {
        KeptApart(f, cs, was, now, s, x);
        assert Covered(now, x);
      }
    }
  }

  /**
   * The frame of all chain operations: replacing the chains in was by the chains in now
   * keeps the forest, if outside both the FAT is unchanged, the new chains are built from
   * old and free clusters only, and the old clusters left over are free.
   */
  lemma Replaced(f: seq<nat>, cs: set<seq<nat>>, g: seq<nat>, was: set<seq<nat>>, now: set<seq<nat>>)
    requires |g| == |f| && Forest(f, cs) && was <= cs && PairwiseDisjoint(now)
    requires forall s :: s in now ==> Chain(g, s)
    requires forall s, x :: s in now && x in s ==> x < |f| && (f[x] == 0 || Covered(was, x))
    requires forall c :: 0 <= c < |f| && !Covered(now, c) ==> g[c] == if Covered(was, c) then 0 else f[c]
    ensures Forest(g, cs - was + now)
  {
    var ds := cs - was + now;
    StaysDisjoint(f, cs, was, now);
    forall s | s in cs - was ensures Chain(g, s) {
      forall x | x in s ensures x < |f| && g[x] == f[x] {
        KeptApart(f, cs, was, now, s, x);
      }
      ChainFrame(f, g, s);
    }
    forall c | 2 <= c < |g| && g[c] != 0 ensures Covered(ds, c) {
      if Covered(now, c) {
        var s :| s in now && c in s;
        assert s in ds;
      } else {
        var s :| s in cs && c in s;
        assert s !in was;
        assert s in ds;
      }
    }
  }

  /** create_chain(0): one more chain, every other chain as before. */
  lemma Created(f: seq<nat>, cs: set<seq<nat>>, ncl: nat, e: nat)
    requires Forest(f, cs) && 2 <= ncl < |f| && f[ncl] == 0 && |f| <= e
    ensures Forest(Linked(f, 0, ncl, e), cs + {[ncl]})
  {
    assert [ncl] in {[ncl]} && ncl in [ncl];
    Replaced(f, cs, Linked(f, 0, ncl, e), {}, {[ncl]});
    assert cs - {} + {[ncl]} == cs + {[ncl]};
  }

  /** create_chain(last cluster of s): s grows by one, every other chain as before. */
  lemma Stretched(f: seq<nat>, cs: set<seq<nat>>, s: seq<nat>, ncl: nat, e: nat)
    requires Forest(f, cs) && s in cs && 2 <= ncl < |f| && f[ncl] == 0 && |f| <= e
    ensures s[|s| - 1] < |f| && Forest(Linked(f, s[|s| - 1], ncl, e), cs - {s} + {s + [ncl]})
  {
    var last := s[|s| - 1];
    var g, t := Linked(f, last, ncl, e), s + [ncl];
    UsedIffCovered(f, cs, ncl);
    assert ncl !in s;
    forall i | 0 <= i < |t| - 1 ensures g[t[i]] == t[i + 1] {
      assert s[i] in s;
      if i < |s| - 1 {
        ChainDistinct(f, s, i, |s| - 1);
        assert f[s[i]] == s[i + 1];
      }
    }
    assert Chain(g, t);
    SingleCover(s);
    SingleCover(t);
    Replaced(f, cs, g, {s}, {t});
  }

  lemma SingleCover(s: seq<nat>)
    ensures forall c :: Covered({s}, c) <==> c in s
  {
    assert s in {s};
  }

  lemma PairCover(s: seq<nat>, t: seq<nat>)
    ensures forall c :: Covered({s, t}, c) <==> c in s || c in t
  {
    assert s in {s, t} && t in {s, t};
  }

  // f with the clusters of s free.
  function Freed(f: seq<nat>, s: seq<nat>): (g: seq<nat>)
    ensures |g| == |f|
  {
    seq(|f|, c requires 0 <= c < |f| => if c in s then 0 else f[c])
  }

  /** remove_chain(first cluster of s): exactly the clusters of s become free. */
  lemma Removed(f: seq<nat>, cs: set<seq<nat>>, s: seq<nat>)
    requires Forest(f, cs) && s in cs
    ensures Forest(Freed(f, s), cs - {s})
  {
    SingleCover(s);
    Replaced(f, cs, Freed(f, s), {s}, {});
    assert cs - {s} + {} == cs - {s};
  }

  /** An end mark in the k-th cluster cuts a chain in two. */
  lemma Cut(f: seq<nat>, cs: set<seq<nat>>, s: seq<nat>, k: nat, e: nat)
    requires Forest(f, cs) && s in cs && 0 < k < |s| && |f| <= e
    ensures s[k - 1] < |f| && Forest(f[s[k - 1] := e], cs - {s} + {s[..k], s[k..]})
  {
    var a, b, y := s[..k], s[k..], s[k - 1];
    assert s == a + b && a[k - 1] == y;
    CutChains(f, s, k, e);
    CutForest(f, cs, s, f[y := e], a, b, y);
  }

  lemma CutForest(f: seq<nat>, cs: set<seq<nat>>, s: seq<nat>, g: seq<nat>, a: seq<nat>, b: seq<nat>, y: nat)
    requires Forest(f, cs) && s in cs && s == a + b && y in a
    requires y < |f| && |g| == |f| && g == f[y := g[y]]
    requires Chain(g, a) && Chain(g, b) && Apart(a, b) && Apart(b, a)
    ensures Forest(g, cs - {s} + {a, b})
  {
    var was, now := {s}, {a, b};
    forall c | 0 <= c < |f| && !Covered(now, c)
      ensures g[c] == if Covered(was, c) then 0 else f[c]
    {
      SingleCover(s);
      PairCover(a, b);
      assert c != y && c !in s;
    }
    forall t, x | t in now && x in t
      ensures x < |f| && (f[x] == 0 || Covered(was, x))
    {
      SingleCover(s);
      assert t == a || t == b;
      assert x in s;
    }
    Replaced(f, cs, g, was, now);
  }

  // Cutting the links of a single chain.
  lemma CutChains(f: seq<nat>, s: seq<nat>, k: nat, e: nat)
    requires Chain(f, s) && 0 < k < |s| && |f| <= e
    ensures s[k - 1] < |f|
    ensures var g := f[s[k - 1] := e]; Chain(g, s[..k]) && Chain(g, s[k..])
    ensures Apart(s[..k], s[k..]) && Apart(s[k..], s[..k])
  {
    var m := k - 1;
    var g := f[s[m] := e];
    forall i | 0 <= i < |s| && i != m ensures g[s[i]] == f[s[i]] {
      ChainDistinct(f, s, if i < m then i else m, if i < m then m else i);
    }
    var b := s[k..];
    assert forall i :: 0 <= i < |b| ==> b[i] == s[k + i];
    PartsApart(f, s, k);
  }

  lemma PartsApart(f: seq<nat>, s: seq<nat>, m: nat)
    requires Chain(f, s) && m <= |s|
    ensures Apart(s[..m], s[m..]) && Apart(s[m..], s[..m])
  {
    forall x | x in s[..m] && x in s[m..] ensures false {
      var i :| 0 <= i < m && s[i] == x;
      var j :| 0 <= j < |s[m..]| && s[m..][j] == x;
      ChainDistinct(f, s, i, m + j);
    }
  }

  // The clusters get_fat reports free.
  ghost function Zeros(f: seq<nat>): set<nat> {
    set c | 2 <= c < |f| && f[c] == 0
  }

  ghost function NonZeros(f: seq<nat>): set<nat> {
    set c | 0 <= c < |f| && f[c] != 0
  }

  lemma {:induction false} ZerosBound(f: seq<nat>)
    ensures |Zeros(f)| <= |f|
  {
    if f != [] {
      var n := |f| - 1;
      ZerosBound(f[..n]);
      assert Zeros(f) == Zeros(f[..n]) + if 2 <= n && f[n] == 0 then {n} else {};
    }
  }

  lemma ZerosAfterFree(f: seq<nat>, c: nat)
    requires 2 <= c < |f| && f[c] != 0
    ensures |Zeros(f[c := 0])| == |Zeros(f)| + 1
  {
    assert Zeros(f[c := 0]) == Zeros(f) + {c};
  }

  lemma ZerosAfterLink(f: seq<nat>, clst: nat, ncl: nat, e: nat)
    requires 2 <= ncl < |f| && f[ncl] == 0 && e != 0 && clst < |f| && (clst != 0 ==> f[clst] != 0)
    ensures |Zeros(Linked(f, clst, ncl, e))| == |Zeros(f)| - 1
  {
    assert Zeros(f) == Zeros(Linked(f, clst, ncl, e)) + {ncl};
  }

  /**
   * What remove_chain does to any FAT at all, well-formed or not: it frees the clusters it
   * meets until it leaves the table or meets an entry 0 or 1. It ends even on a cycle,
   * because every step leaves one non-zero entry less.
   */
  ghost function Unchain(f: seq<nat>, c: nat): (g: seq<nat>)
    requires 2 <= c
    ensures |g| == |f|
    decreases NonZeros(f)
  {
    if c < |f| && 1 < f[c] then
      assert c in NonZeros(f) && c !in NonZeros(f[c := 0]);
      Unchain(f[c := 0], f[c])
    else f
  }

  /** On the tail of a chain, remove_chain frees exactly that tail. */
  lemma {:induction false} UnchainTail(f: seq<nat>, s: seq<nat>)
    requires Chain(f, s)
    ensures Unchain(f, s[0]) == Freed(f, s)
    decreases |s|
  {
    var g := f[s[0] := 0];
    if |s| == 1 {
      assert Unchain(g, f[s[0]]) == g;
      assert g == Freed(f, s);
    } else {
      var t := s[1..];
      forall x | x in t ensures g[x] == f[x] {
        var i :| 0 <= i < |t| && t[i] == x;
        ChainDistinct(f, s, 0, i + 1);
      }
      assert Chain(f, t);
      ChainFrame(f, g, t);
      UnchainTail(g, t);
      assert s == [s[0]] + t;
      assert Freed(g, t) == Freed(f, s);
    }
  }
}
