/**
 * Runs of create_chain and remove_chain, between which directory entries come and go: the FAT
 * stays a forest of chains, the free-cluster count stays right, and every state of the FAT on the
 * way is safe.
 */
module AllocatorRun {
  import opened Types
  import opened Geometry
  import opened Window
  import opened ClusterChains
  import opened Allocator
  import opened CrashSafety
  import opened FatAccess

  // create_chain(0), create_chain of cluster i of a chain, remove_chain of a chain's first cluster,
  // and a change of the directory, after which its entries name the clusters live.
  datatype Op = New | Extend(chain: seq<nat>, i: nat) | Remove(chain: seq<nat>) | Enter(live: set<nat>)

  // The FAT, the free-cluster count, the chains, and the clusters that directory entries name.
  datatype State = State(fat: seq<nat>, count: dword, chains: set<seq<nat>>, live: set<nat>)

  // free_clust before the first count.
  const UNKNOWN: dword := 0xFFFF_FFFF

  // A caller names chains, and removes only those that no directory entry names any more.
  ghost predicate Legal(s: State, op: Op) {
    match op
    case New => true
    case Extend(t, i) => t in s.chains && i < |t|
    case Remove(t) => t in s.chains && t != [] && 2 <= t[0] && Unnamed(s.live, t)
    case Enter(live) => Anchored(live, s.chains)
  }

  // The chains after a cluster is taken.
  ghost function NewChains(s: State, op: Op, ncl: nat): set<seq<nat>> {
    match op
    case New => s.chains + {[ncl]}
    case Extend(t, i) => s.chains - {t} + {t + [ncl]}
    case Remove(t) => s.chains - {t}
    case Enter(live) => s.chains
  }

  // A free cluster is taken and linked behind clst, or none is free.
  ghost predicate Taking(s: State, clst: nat, chains: set<seq<nat>>, ncl: nat, e: nat, log: seq<Snapshot>, s': State)
    requires clst < |s.fat|
  {
    if ncl == 0 then Busy(s.fat, 2, |s.fat|) && s' == s && log == []
    else
      && 2 <= ncl < |s.fat| && s.fat[ncl] == 0 && log == LinkLog(s.fat, clst, ncl, e, s.live)
      && s' == State(Linked(s.fat, clst, ncl, e), if s.count == UNKNOWN then UNKNOWN else Sub32(s.count, 1), chains, s.live)
  }

  // What the contracts of the two functions say about one call. e is the end mark.
  ghost predicate Step(s: State, op: Op, ncl: nat, e: nat, log: seq<Snapshot>, s': State) {
    match op
    case New => |s.fat| > 0 && Taking(s, 0, NewChains(s, op, ncl), ncl, e, log, s')
    case Extend(t, i) =>
      if i + 1 < |t| then ncl == t[i + 1] && s' == s && log == []
      else i < |t| && t[i] < |s.fat| && Taking(s, t[i], NewChains(s, op, ncl), ncl, e, log, s')
    case Remove(t) =>
      && t != [] && 2 <= t[0] && s'.fat == Unchain(s.fat, t[0]) && s'.chains == s.chains - {t}
      && s'.live == s.live && log == UnchainLog(s.fat, t[0], s.live)
      && (s.count == |Zeros(s.fat)| ==> s'.count == |Zeros(s'.fat)|) && (s.count == UNKNOWN ==> s'.count == UNKNOWN)
    case Enter(live) => s' == s.(live := live) && log == [Snapshot(s.fat, live)]
  }

  ghost predicate Inv(s: State) {
    Forest(s.fat, s.chains) && Anchored(s.live, s.chains) && (s.count == UNKNOWN || s.count == |Zeros(s.fat)|)
  }

  lemma NewKeeps(s: State, ncl: nat, e: nat, log: seq<Snapshot>, s': State)
    requires Inv(s) && 0 < |s.fat| <= e && Taking(s, 0, NewChains(s, New, ncl), ncl, e, log, s') && ncl != 0
    ensures Inv(s') && AllSafe(log)
  {
    Created(s.fat, s.chains, ncl, e);
    AnchoredMore(s.live, s.chains, {[ncl]});
    CreateIsSafe(s.fat, s.chains, 0, [], ncl, e, s.live);
    CountKept(s, 0, ncl, e);
  }

  lemma ExtendKeeps(s: State, t: seq<nat>, ncl: nat, e: nat, log: seq<Snapshot>, s': State)
    requires Inv(s) && t in s.chains && t != [] && t[|t| - 1] < |s.fat| <= e && ncl != 0
    requires Taking(s, t[|t| - 1], NewChains(s, Extend(t, |t| - 1), ncl), ncl, e, log, s')
    ensures Inv(s') && AllSafe(log)
  {
    LinkAt(|s.fat|, s.fat, t, |t| - 1);
    Stretched(s.fat, s.chains, t, ncl, e);
    SingleCover(t + [ncl]);
    AnchoredReplace(s.live, s.chains, t, {t + [ncl]});
    CreateIsSafe(s.fat, s.chains, t[|t| - 1], t, ncl, e, s.live);
    CountKept(s, t[|t| - 1], ncl, e);
  }

  lemma CountKept(s: State, clst: nat, ncl: nat, e: nat)
    requires s.count == UNKNOWN || s.count == |Zeros(s.fat)|
    requires clst < |s.fat| && Searches(s.fat, clst) && 2 <= ncl < |s.fat| && s.fat[ncl] == 0 && e != 0
    ensures s.count != UNKNOWN ==> Sub32(s.count, 1) == |Zeros(Linked(s.fat, clst, ncl, e))|
  {
    if s.count != UNKNOWN {
      CountAfterCreate(s.fat, s.count, clst, ncl, e);
    }
  }

  lemma AnchoredMore(live: set<nat>, cs: set<seq<nat>>, more: set<seq<nat>>)
    requires Anchored(live, cs)
    ensures Anchored(live, cs + more)
  {
    forall c | c in live ensures Covered(cs + more, c) {
      var s :| s in cs && c in s;
      assert s in cs + more;
    }
  }

  lemma RemoveKeeps(s: State, t: seq<nat>, e: nat, log: seq<Snapshot>, s': State)
    requires Inv(s) && Legal(s, Remove(t)) && Step(s, Remove(t), 0, e, log, s')
    ensures Inv(s') && AllSafe(log)
  {
    assert Chain(s.fat, t);
    UnchainTail(s.fat, t);
    Removed(s.fat, s.chains, t);
    AnchoredReplace(s.live, s.chains, t, {});
    assert s.chains - {t} + {} == s.chains - {t};
    RemoveSafeIff(s.fat, s.chains, t, s.live);
  }

  lemma StepKeeps(s: State, op: Op, ncl: nat, e: nat, log: seq<Snapshot>, s': State)
    requires Inv(s) && Legal(s, op) && |s.fat| <= e && Step(s, op, ncl, e, log, s')
    ensures Inv(s') && AllSafe(log) && |s'.fat| == |s.fat|
  {
    match op {
      case New =>
        if ncl != 0 {
          NewKeeps(s, ncl, e, log, s');
        }
      case Extend(t, i) =>
        if i + 1 == |t| && ncl != 0 {
          ExtendKeeps(s, t, ncl, e, log, s');
        }
      case Remove(t) =>
        RemoveKeeps(s, t, e, log, s');
      case Enter(live) =>
        AnchoredIsSafe(s.fat, live, s.chains);
    }
  }

  // Any calls and changes of the directory, one after the other.
  ghost predicate Run(states: seq<State>, ops: seq<Op>, replies: seq<nat>, logs: seq<seq<Snapshot>>, e: nat) {
    && |states| == |ops| + 1 && |replies| == |logs| == |ops|
    && forall i :: 0 <= i < |ops| ==>
         Legal(states[i], ops[i]) && Step(states[i], ops[i], replies[i], e, logs[i], states[i + 1])
  }

  /**
   * Over every run, from any forest: the FAT is a forest of the chains that the calls made, the
   * count, once known, is the number of free entries, and an interruption between any two changes
   * is safe, of a FAT entry or of the directory.
   */
  lemma {:induction false} RunKeeps(states: seq<State>, ops: seq<Op>, replies: seq<nat>, logs: seq<seq<Snapshot>>, e: nat,
                                    i: nat)
    requires Run(states, ops, replies, logs, e) && Inv(states[0]) && |states[0].fat| <= e && i <= |ops|
    ensures Inv(states[i]) && |states[i].fat| == |states[0].fat|
    ensures forall k :: 0 <= k < i ==> AllSafe(logs[k])
  {
    if i > 0 {
      RunKeeps(states, ops, replies, logs, e, i - 1);
      StepKeeps(states[i - 1], ops[i - 1], replies[i - 1], e, logs[i - 1], states[i]);
    }
  }

  // The volume shows the state s.
  ghost predicate Shows(fs: Fatfs, s: State)
    reads fs`fat, fs`freeClust, fs`live
  {
    s.fat == fs.fat && s.count == fs.freeClust && s.live == fs.live
  }

  /** Each call of create_chain is such a step, and adds its states to the log. */
  method Create(fs: Fatfs, clst: dword, ghost op: Op, ghost s: State)
    returns (ncl: dword, ghost log: seq<Snapshot>, ghost s': State)
    requires fs.Valid() && Shows(fs, s) && Inv(s) && Legal(s, op)
    requires (op.New? && clst == 0) || (op.Extend? && clst == op.chain[op.i])
    modifies fs`wflag, fs`disk, fs`winsect, fs.win, fs`logical, fs`fat, fs`log, fs`lastClust, fs`freeClust, fs`fsiFlag
    ensures fs.Valid() && Shows(fs, s') && Step(s, op, ncl, EndMark(fs.vol.fsType), log, s')
    ensures fs.log == old(fs.log) + log && Inv(s') && AllSafe(log)
  {
    EndMarkEndsChains(fs.vol);
    NoOnesInForest(s.fat, s.chains);
    ghost var e := EndMark(fs.vol.fsType);
    LinkNamed(s, op, clst);
    ncl := CreateChain(fs, clst);
    if !Searches(s.fat, clst) || ncl == 0 {
      log, s' := [], s;
    } else {
      log, s' := LinkLog(s.fat, clst, ncl, e, fs.live), State(fs.fat, fs.freeClust, NewChains(s, op, ncl), fs.live);
    }
    StepKeeps(s, op, ncl, e, log, s');
  }

  // What the FAT says about the cluster that a legal call names.
  lemma LinkNamed(s: State, op: Op, clst: nat)
    requires Inv(s) && Legal(s, op) && |s.fat| > 0
    requires (op.New? && clst == 0) || (op.Extend? && clst == op.chain[op.i])
    ensures clst < |s.fat|
    ensures Searches(s.fat, clst) <==> op.New? || op.i + 1 == |op.chain|
    ensures !Searches(s.fat, clst) ==> Fetch(s.fat, clst) == op.chain[op.i + 1] && 2 <= op.chain[op.i + 1]
  {
    if op.Extend? {
      assert Chain(s.fat, op.chain);
      LinkAt(|s.fat|, s.fat, op.chain, op.i);
    }
  }

  /** And each call of remove_chain. */
  method RemoveOne(fs: Fatfs, clst: dword, ghost t: seq<nat>, ghost s: State)
    returns (res: FResult, ghost log: seq<Snapshot>, ghost s': State)
    requires fs.Valid() && Shows(fs, s) && Inv(s) && Legal(s, Remove(t)) && clst == t[0]
    modifies fs`wflag, fs`disk, fs`winsect, fs.win, fs`logical, fs`fat, fs`log, fs`freeClust, fs`fsiFlag
    ensures fs.Valid() && Shows(fs, s') && Step(s, Remove(t), 0, EndMark(fs.vol.fsType), log, s') && res == Ok
    ensures fs.log == old(fs.log) + log && Inv(s') && AllSafe(log)
  {
    EndMarkEndsChains(fs.vol);
    NoOnesInForest(s.fat, s.chains);
    NeverFails(s.fat, t[0]);
    assert Chain(s.fat, t);
    res := RemoveChain(fs, clst);
    log := UnchainLog(s.fat, t[0], fs.live);
    s' := State(fs.fat, fs.freeClust, s.chains - {t}, fs.live);
    StepKeeps(s, Remove(t), 0, EndMark(fs.vol.fsType), log, s');
  }
}
