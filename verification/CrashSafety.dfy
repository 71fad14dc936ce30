/**
 * What an interruption can leave behind. A snapshot of the FAT is safe if following the
 * chain of any live directory entry never arrives at a free cluster, so that at worst
 * clusters in use are orphaned.
 */
module CrashSafety {
  import opened Window
  import opened ClusterChains
  import opened Allocator

  // p starts at a live directory entry and follows FAT links.
  ghost predicate Path(f: seq<nat>, live: set<nat>, p: seq<nat>) {
    && p != [] && p[0] in live
    && (forall i :: 0 <= i < |p| ==> 2 <= p[i] < |f|)
    && (forall i {:trigger f[p[i]]} :: 0 <= i < |p| - 1 ==> f[p[i]] == p[i + 1])
  }

  ghost predicate Safe(s: Snapshot) {
    forall p :: Path(s.fat, s.live, p) ==> s.fat[p[|p| - 1]] != 0
  }

  ghost predicate AllSafe(log: seq<Snapshot>) {
    forall i :: 0 <= i < |log| ==> Safe(log[i])
  }

  // Every live entry names a cluster of one of the chains.
  ghost predicate Anchored(live: set<nat>, cs: set<seq<nat>>) {
    forall c :: c in live ==> Covered(cs, c)
  }

  // No live directory entry names a cluster of the chain.
  ghost predicate Unnamed(live: set<nat>, chain: seq<nat>) {
    forall c :: c in live ==> c !in chain
  }

  ghost predicate Chains(f: seq<nat>, cs: set<seq<nat>>) {
    forall s :: s in cs ==> Chain(f, s)
  }

  lemma {:induction false} PathStaysInChain(f: seq<nat>, live: set<nat>, p: seq<nat>, s: seq<nat>, k: nat)
    requires Path(f, live, p) && Chain(f, s) && p[0] in s && k < |p|
    ensures p[k] in s
  {
    if k > 0 {
      PathStaysInChain(f, live, p, s, k - 1);
      var i :| 0 <= i < |s| && s[i] == p[k - 1];
      assert f[p[k - 1]] == p[k];
      assert i < |s| - 1 ==> f[s[i]] == s[i + 1];
    }
  }

  /** Complete chains under all live entries make a snapshot safe. */
  lemma AnchoredIsSafe(f: seq<nat>, live: set<nat>, cs: set<seq<nat>>)
    requires Chains(f, cs) && Anchored(live, cs)
    ensures Safe(Snapshot(f, live))
  {
    forall p | Path(f, live, p) ensures f[p[|p| - 1]] != 0 {
      assert Covered(cs, p[0]);
      var s :| s in cs && p[0] in s;
      PathStaysInChain(f, live, p, s, |p| - 1);
      var i :| 0 <= i < |s| && s[i] == p[|p| - 1];
      assert i < |s| - 1 ==> f[s[i]] == s[i + 1];
    }
  }

  lemma AnchoredReplace(live: set<nat>, cs: set<seq<nat>>, s: seq<nat>, now: set<seq<nat>>)
    requires Anchored(live, cs)
    requires forall c :: c in live && c in s ==> Covered(now, c)
    ensures Anchored(live, cs - {s} + now)
  {
    forall c | c in live ensures Covered(cs - {s} + now, c) {
      if c in s {
        var t :| t in now && c in t;
        assert t in cs - {s} + now;
      } else {
        var u :| u in cs && c in u;
        assert u in cs - {s} + now;
      }
    }
  }

  lemma ChainsFrame(f: seq<nat>, g: seq<nat>, cs: set<seq<nat>>)
    requires Chains(f, cs) && |g| == |f|
    requires forall s, x :: s in cs && x in s ==> x < |f| && g[x] == f[x]
    ensures Chains(g, cs)
  {
    forall s | s in cs ensures Chain(g, s) {
      ChainFrame(f, g, s);
    }
  }

  /** create_chain: the new cluster gets its end mark before anything links to it. */
  lemma CreateIsSafe(f: seq<nat>, cs: set<seq<nat>>, clst: nat, s: seq<nat>, ncl: nat, e: nat, live: set<nat>)
    requires Forest(f, cs) && Anchored(live, cs) && 2 <= ncl < |f| && f[ncl] == 0 && |f| <= e
    requires clst != 0 ==> s in cs && clst == s[|s| - 1]
    ensures clst < |f| && AllSafe(LinkLog(f, clst, ncl, e, live))
  {
    var g := f[ncl := e];
    UsedIffCovered(f, cs, ncl);
    ChainsFrame(f, g, cs);
    AnchoredIsSafe(g, live, cs);
    if clst != 0 {
      LinkedIsSafe(f, cs, clst, s, ncl, e, live);
    }
  }

  lemma LinkedIsSafe(f: seq<nat>, cs: set<seq<nat>>, clst: nat, s: seq<nat>, ncl: nat, e: nat, live: set<nat>)
    requires Forest(f, cs) && Anchored(live, cs) && 2 <= ncl < |f| && f[ncl] == 0 && |f| <= e
    requires s in cs && s != [] && clst == s[|s| - 1]
    ensures clst < |f| && Safe(Snapshot(Linked(f, clst, ncl, e), live))
  {
    var t := s + [ncl];
    Stretched(f, cs, s, ncl, e);
    SingleCover(t);
    AnchoredReplace(live, cs, s, {t});
    AnchoredIsSafe(Linked(f, clst, ncl, e), live, cs - {s} + {t});
  }

  // Freeing a chain piece by piece leaves the other chains alone.
  lemma {:induction false} UnchainIsSafe(f: seq<nat>, s: seq<nat>, cs: set<seq<nat>>, live: set<nat>)
    requires Chain(f, s) && Chains(f, cs) && Anchored(live, cs)
    requires forall t :: t in cs ==> Apart(t, s)
    ensures AllSafe(UnchainLog(f, s[0], live))
    decreases |s|
  {
    var g := f[s[0] := 0];
    assert s[0] in s;
    ChainsFrame(f, g, cs);
    AnchoredIsSafe(g, live, cs);
    if |s| == 1 {
      assert UnchainLog(g, f[s[0]], live) == [];
    } else {
      TailAfterFree(f, s);
      UnchainIsSafe(g, s[1..], cs, live);
    }
  }

  lemma TailAfterFree(f: seq<nat>, s: seq<nat>)
    requires Chain(f, s) && |s| > 1
    ensures f[s[0]] == s[1] && Chain(f[s[0] := 0], s[1..])
    ensures forall x :: x in s[1..] ==> x in s
  {
    var g, t := f[s[0] := 0], s[1..];
    forall x | x in t ensures g[x] == f[x] {
      var i :| 0 <= i < |t| && t[i] == x;
      ChainDistinct(f, s, 0, i + 1);
    }
    assert Chain(f, t);
    ChainFrame(f, g, t);
  }

  // remove_chain ends with every cluster of the chain free.
  lemma {:induction false} UnchainLogLast(f: seq<nat>, s: seq<nat>, live: set<nat>)
    requires Chain(f, s)
    ensures var l := UnchainLog(f, s[0], live); l != [] && l[|l| - 1] == Snapshot(Freed(f, s), live)
    decreases |s|
  {
    var g := f[s[0] := 0];
    if |s| == 1 {
      assert UnchainLog(g, f[s[0]], live) == [];
      assert g == Freed(f, s);
    } else {
      TailAfterFree(f, s);
      UnchainLogLast(g, s[1..], live);
      assert Freed(g, s[1..]) == Freed(f, s) by {
        assert s == [s[0]] + s[1..];
      }
    }
  }

  /**
   * remove_chain on a chain of a forest passes through safe states only, if and only if no
   * live entry names one of its clusters. f_unlink and a partial f_truncate arrange for
   * that first; f_truncate at offset 0 and f_open with FA_CREATE_ALWAYS do not.
   */
  lemma RemoveSafeIff(f: seq<nat>, cs: set<seq<nat>>, s: seq<nat>, live: set<nat>)
    requires Forest(f, cs) && s in cs && Anchored(live, cs)
    ensures AllSafe(UnchainLog(f, s[0], live)) <==> Unnamed(live, s)
  {
    if c :| c in live && c in s {
      UnchainLogLast(f, s, live);
      var l := UnchainLog(f, s[0], live);
      assert Path(l[|l| - 1].fat, live, [c]);
      assert !Safe(l[|l| - 1]);
    } else {
      forall c | c in live ensures Covered(cs - {s}, c) {
        assert Covered(cs, c);
        var u :| u in cs && c in u;
        assert u in cs - {s};
      }
      UnchainIsSafe(f, s, cs - {s}, live);
    }
  }

  lemma CutAnchored(cs: set<seq<nat>>, s: seq<nat>, a: seq<nat>, b: seq<nat>, live: set<nat>)
    requires s == a + b && Anchored(live, cs)
    ensures Anchored(live, cs - {s} + {a, b})
  {
    PairCover(a, b);
    AnchoredReplace(live, cs, s, {a, b});
  }

  lemma TailSafeIff(g: seq<nat>, ds: set<seq<nat>>, b: seq<nat>, c: nat, live: set<nat>)
    requires Forest(g, ds) && b in ds && Anchored(live, ds) && b != [] && c == b[0] && 2 <= c
    ensures AllSafe([Snapshot(g, live)] + UnchainLog(g, c, live)) <==> Unnamed(live, b)
  {
    AnchoredIsSafe(g, live, ds);
    RemoveSafeIff(g, ds, b, live);
    FirstSafe(Snapshot(g, live), UnchainLog(g, c, live));
  }

  lemma FirstSafe(s: Snapshot, log: seq<Snapshot>)
    requires Safe(s)
    ensures AllSafe([s] + log) <==> AllSafe(log)
  {
    if AllSafe([s] + log) {
      forall i | 0 <= i < |log| ensures Safe(log[i]) {
        assert ([s] + log)[i + 1] == log[i];
      }
    }
  }

  /**
   * A partial f_truncate: the tail is cut off by an end mark before it is freed. Every state
   * on the way is safe if and only if no live entry names a cluster of the tail.
   */
  lemma PartialTruncateSafeIff(f: seq<nat>, cs: set<seq<nat>>, s: seq<nat>, k: nat, e: nat, live: set<nat>)
    requires Forest(f, cs) && s in cs && 0 < k < |s| && |f| <= e && Anchored(live, cs)
    ensures s[k - 1] < |f| && 2 <= s[k]
    ensures AllSafe([Snapshot(f[s[k - 1] := e], live)] + UnchainLog(f[s[k - 1] := e], s[k], live)) <==> Unnamed(live, s[k..])
  {
    var a, b := s[..k], s[k..];
    LinkAt(|f|, f, s, k);
    Cut(f, cs, s, k, e);
    Halves(s, k);
    CutAnchored(cs, s, a, b, live);
    TailSafeIff(f[s[k - 1] := e], cs - {s} + {a, b}, b, s[k], live);
  }

  lemma Halves<T>(s: seq<T>, k: nat)
    requires k <= |s|
    ensures s == s[..k] + s[k..]
  {
  }
}
