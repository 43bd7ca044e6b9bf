/** Runs of the cluster allocator: the FAT stays a forest and no cluster is ever lost. */
module AllocatorRuns {
  import opened Chains

  /** What the allocator is asked to do to the chains of a volume. */
  datatype AllocOp =
    | NewChain(ncl: nat)
    | Stretch(ch: seq<nat>, ncl: nat)
    | Remove(ch: seq<nat>)
    | Truncate(ch: seq<nat>, k: nat)

  /** A table with the chains on it. */
  datatype Vol = Vol(fat: seq<nat>, chains: set<seq<nat>>)

  /** `op` names a free cluster and a chain of the volume. */
  ghost predicate Enabled(v: Vol, op: AllocOp) {
    match op
    case NewChain(ncl) => InTable(v.fat, ncl) && v.fat[ncl] == 0
    case Stretch(ch, ncl) => ch in v.chains && ch != [] && InTable(v.fat, ncl) && v.fat[ncl] == 0
    case Remove(ch) => ch in v.chains && ch != []
    case Truncate(ch, k) => ch in v.chains && 0 < k < |ch|
  }

  /** What create_chain, remove_chain and f_truncate make of the table, and which chains are there then. */
  ghost function Next(v: Vol, op: AllocOp, end: nat): (r: Vol)
    requires Forest(v.fat, v.chains) && Enabled(v, op)
  {
    match op
    case NewChain(ncl) => Vol(Linked(v.fat, 0, ncl, end), v.chains + {[ncl]})
    case Stretch(ch, ncl) =>
      assert IsChain(v.fat, ch);
      Vol(Linked(v.fat, ch[|ch| - 1], ncl, end), v.chains - {ch} + {ch + [ncl]})
    case Remove(ch) =>
      assert IsChain(v.fat, ch);
      Vol(Removed(v.fat, ch[0]).0, v.chains - {ch})
    case Truncate(ch, k) =>
      assert IsChain(v.fat, ch);
      Vol(Cut(v.fat, ch, k, end), v.chains - {ch} + {ch[..k]})
  }

  /** Every step keeps the chains disjoint, acyclic and complete. */
  lemma NextForest(v: Vol, op: AllocOp, end: nat)
    requires Forest(v.fat, v.chains) && Enabled(v, op) && end >= |v.fat|
    ensures var r := Next(v, op, end); |r.fat| == |v.fat| && Forest(r.fat, r.chains)
  {
    match op
    case NewChain(ncl) => CreatedForest(v.fat, v.chains, ncl, end);
    case Stretch(ch, ncl) => StretchedForest(v.fat, v.chains, ch, ncl, end);
    case Remove(ch) =>
      assert IsChain(v.fat, ch);
      RemovedChain(v.fat, ch);
      RemovedForest(v.fat, v.chains, ch);
    case Truncate(ch, k) => CutForest(v.fat, v.chains, ch, k, end);
  }

  // ----- conservation -----

  /** Number of clusters on the chains `s`. */
  ghost function OnChains(s: set<seq<nat>>): nat {
    if s == {} then 0 else
      var ch :| ch in s;
      |ch| + OnChains(s - {ch})
  }

  /** It does not matter which chain is counted first. */
  lemma {:induction false} OnChainsPick(s: set<seq<nat>>, x: seq<nat>)
    requires x in s
    ensures OnChains(s) == |x| + OnChains(s - {x})
    decreases |s|
  {
    var ch :| ch in s && OnChains(s) == |ch| + OnChains(s - {ch});
    if ch != x {
      OnChainsPick(s - {ch}, x);
      OnChainsPick(s - {x}, ch);
      assert s - {ch} - {x} == s - {x} - {ch};
    }
  }

  /** Free clusters and clusters on chains are all there are. */
  lemma {:induction false} Conservation(fat: seq<nat>, s: set<seq<nat>>)
    requires |fat| >= 2 && Forest(fat, s)
    ensures FreeCount(fat) + OnChains(s) == |fat| - 2
    decreases |s|
  {
    if s == {} {
      assert forall c: nat | InTable(fat, c) :: !OnSome(s, c);
      AllFree(fat, 2, |fat|);
    } else {
      var ch :| ch in s;
      ChainAllocated(fat, ch);
      RemovedForest(fat, s, ch);
      FreedCount(fat, ch);
      OnChainsPick(s, ch);
      Conservation(Freed(fat, ch), s - {ch});
    }
  }

  lemma {:induction false} AllFree(fat: seq<nat>, a: nat, b: nat)
    requires a <= b <= |fat| && forall c: nat | a <= c < b :: fat[c] == 0
    ensures Zeros(fat, a, b) == b - a
    decreases b
  {
    if a < b {
      AllFree(fat, a, b - 1);
    }
  }

  // ----- runs -----

  /** Every operation is enabled when its turn comes. */
  ghost predicate Runs(v: Vol, ops: seq<AllocOp>, end: nat)
    requires Forest(v.fat, v.chains) && end >= |v.fat|
    decreases |ops|
  {
    ops == [] || (Enabled(v, ops[0]) && (NextForest(v, ops[0], end); Runs(Next(v, ops[0], end), ops[1..], end)))
  }

  ghost function After(v: Vol, ops: seq<AllocOp>, end: nat): Vol
    requires Forest(v.fat, v.chains) && end >= |v.fat| && Runs(v, ops, end)
    decreases |ops|
  {
    if ops == [] then v else
      NextForest(v, ops[0], end);
      After(Next(v, ops[0], end), ops[1..], end)
  }

  /** After any run the table is a forest of the chains the run left, none of them lost a cluster, and an
      exact count of free clusters is the size of the table less what the chains hold. */
  lemma {:induction false} RunKeeps(v: Vol, ops: seq<AllocOp>, end: nat)
    requires Forest(v.fat, v.chains) && end >= |v.fat| >= 2 && Runs(v, ops, end)
    ensures var r := After(v, ops, end);
            && |r.fat| == |v.fat| && Forest(r.fat, r.chains)
            && FreeCount(r.fat) + OnChains(r.chains) == FreeCount(v.fat) + OnChains(v.chains) == |v.fat| - 2
    decreases |ops|
  {
    Conservation(v.fat, v.chains);
    if ops != [] {
      NextForest(v, ops[0], end);
      RunKeeps(Next(v, ops[0], end), ops[1..], end);
    }
  }

  /** A chain that no operation of a run names is there after the run, with the same links. */
  lemma {:induction false} UnnamedChainStays(v: Vol, ops: seq<AllocOp>, end: nat, x: seq<nat>)
    requires Forest(v.fat, v.chains) && end >= |v.fat| && Runs(v, ops, end) && x in v.chains
    requires forall op | op in ops :: op.NewChain? || op.ch != x
    ensures x in After(v, ops, end).chains
    decreases |ops|
  {
    if ops != [] {
      assert ops[0] in ops;
      NextForest(v, ops[0], end);
      UnnamedChainStays(Next(v, ops[0], end), ops[1..], end, x);
    }
  }
}
