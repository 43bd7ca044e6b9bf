/** Runs of create_chain and remove_chain themselves, on the drive: each call is a step of the table, or finds the
    volume full. */
module AllocatorCalls {
  import opened Geometry
  import opened Volume
  import opened Chains
  import opened ClusterAlloc
  import opened AllocatorRuns

  /** What the callers of the allocator do with the chains they own: begin one, stretch one behind its last cluster,
      remove one. */
  datatype Call = Create | Grow(i: nat) | Delete(i: nat)

  /** What the owner of a chain remembers. */
  datatype Ends = Ends(first: nat, last: nat)

  /** The owners' numbers are the ends of different chains of the volume. */
  ghost predicate Owned(v: Vol, files: seq<Ends>, chs: seq<seq<nat>>) {
    Forest(v.fat, v.chains) && Listed(v.chains, files, chs)
  }

  ghost predicate Listed(s: set<seq<nat>>, files: seq<Ends>, chs: seq<seq<nat>>) {
    && |chs| == |files|
    && (forall i | 0 <= i < |chs| :: chs[i] in s && IsEnds(files[i], chs[i]))
    && (forall i, j | 0 <= i < j < |chs| :: chs[i] != chs[j])
  }

  ghost predicate IsEnds(f: Ends, ch: seq<nat>) {
    ch != [] && f.first == ch[0] && f.last == ch[|ch| - 1]
  }

  /** What a call may answer: 0 when the volume is full or there is no such chain, else the cluster it took. */
  ghost predicate Answers(v: Vol, chs: seq<seq<nat>>, call: Call, answer: nat)
    requires |v.fat| >= 2
  {
    match call
    case Create => if FreeCount(v.fat) == 0 then answer == 0 else answer >= 2
    case Grow(i) => if i >= |chs| || FreeCount(v.fat) == 0 then answer == 0 else answer >= 2
    case Delete(i) => answer == 0
  }

  /** The step of the table that a call makes: none when it gets nothing. */
  ghost function StepOf(chs: seq<seq<nat>>, call: Call, answer: nat): seq<AllocOp> {
    match call
    case Create => if answer == 0 then [] else [NewChain(answer)]
    case Grow(i) => if i >= |chs| || answer == 0 then [] else [Stretch(chs[i], answer)]
    case Delete(i) => if i >= |chs| then [] else [Remove(chs[i])]
  }

  /** The chains of the callers then. */
  ghost function ChainsAfter(chs: seq<seq<nat>>, call: Call, answer: nat): seq<seq<nat>> {
    match call
    case Create => if answer == 0 then chs else chs + [[answer]]
    case Grow(i) => if i >= |chs| || answer == 0 then chs else chs[i := chs[i] + [answer]]
    case Delete(i) => if i >= |chs| then chs else chs[..i] + chs[i + 1..]
  }

  /** Calls, their answers, and the steps they make: each answer is what the volume has at that time. */
  ghost predicate Conversed(v: Vol, chs: seq<seq<nat>>, calls: seq<Call>, answers: seq<nat>, ops: seq<AllocOp>,
                            end: nat)
    decreases |calls|
  {
    && |v.fat| >= 2 && Forest(v.fat, v.chains)
    && if calls == [] then answers == [] && ops == []
       else
         && answers != [] && Answers(v, chs, calls[0], answers[0])
         && var step, then' := StepOf(chs, calls[0], answers[0]), ChainsAfter(chs, calls[0], answers[0]);
            if step == [] then Conversed(v, then', calls[1..], answers[1..], ops, end)
            else
              && ops != [] && ops[0] == step[0] && Enabled(v, step[0])
              && Conversed(Next(v, step[0], end), then', calls[1..], answers[1..], ops[1..], end)
  }

  lemma FirstFreeMeans(fat: seq<nat>, scl: nat, ncl: nat)
    requires 1 <= scl < |fat| && Unbroken(fat) && FirstFree(fat, scl, ncl)
    ensures if FreeCount(fat) == 0 then ncl == 0 else InTable(fat, ncl) && fat[ncl] == 0
  {
    ZerosNone(fat, 2, |fat|);
  }

  /** create_chain on a forest: for a new chain or behind the last cluster of one, it takes a free cluster, and
      fails exactly when there is none. */
  method Allocate(fs: Fatfs, clst: nat, ghost s: set<seq<nat>>, ghost ch: seq<nat>) returns (ncl: nat)
    requires fs.Valid() && fs.freeClust < 0x1_0000_0000 && |fs.fat| >= 3 && Forest(fs.fat, s)
    requires if clst == 0 then ch == [] else ch in s && ch != [] && clst == ch[|ch| - 1]
    modifies fs`disk, fs`logical, fs`fat, fs`wflag, fs`winsect, fs`lastClust, fs`freeClust, fs`fsiDirty, fs.win
    ensures fs.Valid() && fs.freeClust < 0x1_0000_0000 && |fs.fat| == |old(fs.fat)|
    ensures if FreeCount(old(fs.fat)) == 0 then ncl == 0 && fs.fat == old(fs.fat)
            else InTable(old(fs.fat), ncl) && old(fs.fat)[ncl] == 0 && (clst == 0 || InTable(old(fs.fat), clst))
                 && fs.fat == Linked(old(fs.fat), clst, ncl, EndMark(fs.geo.fsType))
    ensures old(FreeExact(fs)) ==> FreeExact(fs)
  {
    hide Fatfs.Valid, SameOutsideFats, FirstFree, FreeCount, Forest, IsChain, Unbroken;
    ghost var fat, last := fs.fat, fs.lastClust;
    ForestUnbroken(fat, s);
    if clst != 0 {
      LastCluster(fat, s, ch);
    }
    ncl := CreateChain(fs, clst);
    FirstFreeMeans(fat, if clst != 0 then clst else if 1 <= last < |fat| then last else 1, ncl);
    if ncl >= 2 {
      LinkedCount(fat, clst, ncl, EndMark(fs.geo.fsType));
      FreeCountBound(fat);
    }
  }

  lemma LastCluster(fat: seq<nat>, s: set<seq<nat>>, ch: seq<nat>)
    requires Forest(fat, s) && ch in s && ch != []
    ensures InTable(fat, ch[|ch| - 1]) && fat[ch[|ch| - 1]] >= |fat|
  {
    assert IsChain(fat, ch);
    assert InTable(fat, ch[|ch| - 1]);
  }

  /** One cluster less is free. */
  lemma LinkedCount(fat: seq<nat>, clst: nat, ncl: nat, end: nat)
    requires InTable(fat, ncl) && fat[ncl] == 0 && end > 0 && (clst == 0 || (InTable(fat, clst) && fat[clst] != 0))
    ensures FreeCount(Linked(fat, clst, ncl, end)) == FreeCount(fat) - 1
  {
    ZerosUpdate(fat, 2, |fat|, ncl, end);
    if clst != 0 {
      ZerosUpdate(fat[ncl := end], 2, |fat|, clst, ncl);
    }
  }

  // ----- what a call does to the chains -----

  lemma ListedMore(s: set<seq<nat>>, files: seq<Ends>, chs: seq<seq<nat>>, ch: seq<nat>, f: Ends)
    requires Listed(s, files, chs) && IsEnds(f, ch) && forall i | 0 <= i < |chs| :: chs[i] != ch
    ensures Listed(s + {ch}, files + [f], chs + [ch])
  {
    hide IsEnds;
  }

  lemma ListedLonger(s: set<seq<nat>>, files: seq<Ends>, chs: seq<seq<nat>>, i: nat, ch: seq<nat>, f: Ends)
    requires Listed(s, files, chs) && i < |chs| && IsEnds(f, ch) && forall j | 0 <= j < |chs| :: chs[j] != ch
    ensures i < |files| && Listed(s - {chs[i]} + {ch}, files[i := f], chs[i := ch])
  {
    hide IsEnds;
  }

  lemma ListedFewer(s: set<seq<nat>>, files: seq<Ends>, chs: seq<seq<nat>>, i: nat)
    requires Listed(s, files, chs) && i < |chs|
    ensures i < |files| && Listed(s - {chs[i]}, files[..i] + files[i + 1..], chs[..i] + chs[i + 1..])
  {
    hide IsEnds;
    var fl, cs := files[..i] + files[i + 1..], chs[..i] + chs[i + 1..];
    forall j | 0 <= j < |cs| ensures cs[j] in s - {chs[i]} && IsEnds(fl[j], cs[j]) {
      var k := if j < i then j else j + 1;
      assert cs[j] == chs[k] && fl[j] == files[k];
    }
    forall j, k | 0 <= j < k < |cs| ensures cs[j] != cs[k] {
      assert cs[j] == chs[if j < i then j else j + 1] && cs[k] == chs[if k < i then k else k + 1];
    }
  }

  /** A chain with a cluster that was free is none of those there are. */
  lemma NoneOfThem(fat: seq<nat>, s: set<seq<nat>>, files: seq<Ends>, chs: seq<seq<nat>>, ch: seq<nat>, ncl: nat)
    requires Forest(fat, s) && Listed(s, files, chs) && InTable(fat, ncl) && fat[ncl] == 0 && ncl in ch
    ensures forall i | 0 <= i < |chs| :: chs[i] != ch
  {
    forall i | 0 <= i < |chs| ensures chs[i] != ch {
      assert IsChain(fat, chs[i]);
      hide IsChain;
      NotOnChain(fat, chs[i], ncl);
    }
  }

  lemma OwnedMore(v: Vol, files: seq<Ends>, chs: seq<seq<nat>>, ncl: nat, end: nat)
    requires Owned(v, files, chs) && Enabled(v, NewChain(ncl)) && end >= |v.fat|
    ensures Owned(Next(v, NewChain(ncl), end), files + [Ends(ncl, ncl)], chs + [[ncl]])
  {
    NextForest(v, NewChain(ncl), end);
    hide Forest, Listed, IsChain, Linked;
    NoneOfThem(v.fat, v.chains, files, chs, [ncl], ncl);
    ListedMore(v.chains, files, chs, [ncl], Ends(ncl, ncl));
  }

  lemma OwnedLonger(v: Vol, files: seq<Ends>, chs: seq<seq<nat>>, i: nat, ncl: nat, end: nat)
    requires Owned(v, files, chs) && i < |chs| && Enabled(v, Stretch(chs[i], ncl)) && end >= |v.fat|
    ensures i < |files|
    ensures Owned(Next(v, Stretch(chs[i], ncl), end), files[i := Ends(files[i].first, ncl)], chs[i := chs[i] + [ncl]])
  {
    NextForest(v, Stretch(chs[i], ncl), end);
    ChainEnds(v, files, chs, i);
    var ch := chs[i] + [ncl];
    assert ch[0] == chs[i][0] && ch[|ch| - 1] == ncl;
    hide Forest, Listed, IsChain, Linked;
    NoneOfThem(v.fat, v.chains, files, chs, ch, ncl);
    ListedLonger(v.chains, files, chs, i, ch, Ends(files[i].first, ncl));
  }

  lemma OwnedFewer(v: Vol, files: seq<Ends>, chs: seq<seq<nat>>, i: nat, end: nat)
    requires Owned(v, files, chs) && i < |chs| && end >= |v.fat|
    ensures i < |files| && Enabled(v, Remove(chs[i]))
    ensures Owned(Next(v, Remove(chs[i]), end), files[..i] + files[i + 1..], chs[..i] + chs[i + 1..])
  {
    ListedFewer(v.chains, files, chs, i);
    ChainEnds(v, files, chs, i);
    NextForest(v, Remove(chs[i]), end);
    hide Forest, Listed, IsChain, Removed;
  }

  /** create_chain for a new chain. */
  method DoCreate(fs: Fatfs, files: seq<Ends>, ghost v: Vol, ghost chs: seq<seq<nat>>)
    returns (answer: nat, files': seq<Ends>, ghost chs': seq<seq<nat>>, ghost ops: seq<AllocOp>)
    requires fs.Valid() && fs.freeClust < 0x1_0000_0000 && |fs.fat| >= 3 && fs.fat == v.fat && Owned(v, files, chs)
    modifies fs`disk, fs`logical, fs`fat, fs`wflag, fs`winsect, fs`lastClust, fs`freeClust, fs`fsiDirty, fs.win
    ensures fs.Valid() && fs.freeClust < 0x1_0000_0000 && |fs.fat| == |v.fat| <= EndMark(fs.geo.fsType)
            && fs.geo == old(fs.geo)
    ensures Answers(v, chs, Create, answer) && ops == StepOf(chs, Create, answer)
    ensures chs' == ChainsAfter(chs, Create, answer)
    ensures if ops == [] then fs.fat == v.fat && Owned(v, files', chs')
            else
              && |ops| == 1 && Enabled(v, ops[0]) && fs.fat == Next(v, ops[0], EndMark(fs.geo.fsType)).fat
              && Owned(Next(v, ops[0], EndMark(fs.geo.fsType)), files', chs')
    ensures old(FreeExact(fs)) ==> FreeExact(fs)
  {
    MarkBehind(fs);
    hide Fatfs.Valid, Forest, IsChain, FreeCount, Linked, Removed, SameOutsideFats, Listed;
    ListedLength(v, files, chs);
    answer, files', chs', ops := 0, files, chs, [];
    answer := Allocate(fs, 0, v.chains, []);
    if answer != 0 {
      ops := [NewChain(answer)];
      OwnedMore(v, files, chs, answer, EndMark(fs.geo.fsType));
      files', chs' := files + [Ends(answer, answer)], chs + [[answer]];
    }
  }

  /** create_chain behind the last cluster of a chain. */
  method DoGrow(fs: Fatfs, files: seq<Ends>, i: nat, ghost v: Vol, ghost chs: seq<seq<nat>>)
    returns (answer: nat, files': seq<Ends>, ghost chs': seq<seq<nat>>, ghost ops: seq<AllocOp>)
    requires fs.Valid() && fs.freeClust < 0x1_0000_0000 && |fs.fat| >= 3 && fs.fat == v.fat && Owned(v, files, chs)
    modifies fs`disk, fs`logical, fs`fat, fs`wflag, fs`winsect, fs`lastClust, fs`freeClust, fs`fsiDirty, fs.win
    ensures fs.Valid() && fs.freeClust < 0x1_0000_0000 && |fs.fat| == |v.fat| <= EndMark(fs.geo.fsType)
            && fs.geo == old(fs.geo)
    ensures Answers(v, chs, Grow(i), answer) && ops == StepOf(chs, Grow(i), answer)
    ensures chs' == ChainsAfter(chs, Grow(i), answer)
    ensures if ops == [] then fs.fat == v.fat && Owned(v, files', chs')
            else
              && |ops| == 1 && Enabled(v, ops[0]) && fs.fat == Next(v, ops[0], EndMark(fs.geo.fsType)).fat
              && Owned(Next(v, ops[0], EndMark(fs.geo.fsType)), files', chs')
    ensures old(FreeExact(fs)) ==> FreeExact(fs)
  {
    MarkBehind(fs);
    hide Fatfs.Valid, Forest, IsChain, FreeCount, Linked, Removed, SameOutsideFats, Listed;
    ListedLength(v, files, chs);
    answer, files', chs', ops := 0, files, chs, [];
    if i < |files| {
      ChainEnds(v, files, chs, i);
      answer := Allocate(fs, files[i].last, v.chains, chs[i]);
      if answer != 0 {
        ops := [Stretch(chs[i], answer)];
        OwnedLonger(v, files, chs, i, answer, EndMark(fs.geo.fsType));
        files', chs' := files[i := Ends(files[i].first, answer)], chs[i := chs[i] + [answer]];
      }
    }
  }

  /** remove_chain. */
  method DoDelete(fs: Fatfs, files: seq<Ends>, i: nat, ghost v: Vol, ghost chs: seq<seq<nat>>)
    returns (answer: nat, files': seq<Ends>, ghost chs': seq<seq<nat>>, ghost ops: seq<AllocOp>)
    requires fs.Valid() && fs.freeClust < 0x1_0000_0000 && |fs.fat| >= 3 && fs.fat == v.fat && Owned(v, files, chs)
    modifies fs`disk, fs`logical, fs`fat, fs`wflag, fs`winsect, fs`lastClust, fs`freeClust, fs`fsiDirty, fs.win
    ensures fs.Valid() && fs.freeClust < 0x1_0000_0000 && |fs.fat| == |v.fat| <= EndMark(fs.geo.fsType)
            && fs.geo == old(fs.geo)
    ensures Answers(v, chs, Delete(i), answer) && ops == StepOf(chs, Delete(i), answer)
    ensures chs' == ChainsAfter(chs, Delete(i), answer)
    ensures if ops == [] then fs.fat == v.fat && Owned(v, files', chs')
            else
              && |ops| == 1 && Enabled(v, ops[0]) && fs.fat == Next(v, ops[0], EndMark(fs.geo.fsType)).fat
              && Owned(Next(v, ops[0], EndMark(fs.geo.fsType)), files', chs')
    ensures old(FreeExact(fs)) ==> FreeExact(fs)
  {
    MarkBehind(fs);
    hide Fatfs.Valid, Forest, IsChain, FreeCount, Linked, Removed, SameOutsideFats, Listed;
    ListedLength(v, files, chs);
    answer, files', chs', ops := 0, files, chs, [];
    if i < |files| {
      ChainEnds(v, files, chs, i);
      OwnedFewer(v, files, chs, i, EndMark(fs.geo.fsType));
      var res := Release(fs, files[i].first, chs[i]);
      ops := [Remove(chs[i])];
      files', chs' := files[..i] + files[i + 1..], chs[..i] + chs[i + 1..];
    }
  }

  /** One call. */
  method Do(fs: Fatfs, files: seq<Ends>, call: Call, ghost v: Vol, ghost chs: seq<seq<nat>>)
    returns (answer: nat, files': seq<Ends>, ghost chs': seq<seq<nat>>, ghost ops: seq<AllocOp>)
    requires fs.Valid() && fs.freeClust < 0x1_0000_0000 && |fs.fat| >= 3 && fs.fat == v.fat && Owned(v, files, chs)
    modifies fs`disk, fs`logical, fs`fat, fs`wflag, fs`winsect, fs`lastClust, fs`freeClust, fs`fsiDirty, fs.win
    ensures fs.Valid() && fs.freeClust < 0x1_0000_0000 && |fs.fat| == |v.fat| <= EndMark(fs.geo.fsType)
            && fs.geo == old(fs.geo)
    ensures Answers(v, chs, call, answer) && ops == StepOf(chs, call, answer)
    ensures chs' == ChainsAfter(chs, call, answer)
    ensures if ops == [] then fs.fat == v.fat && Owned(v, files', chs')
            else
              && |ops| == 1 && Enabled(v, ops[0]) && fs.fat == Next(v, ops[0], EndMark(fs.geo.fsType)).fat
              && Owned(Next(v, ops[0], EndMark(fs.geo.fsType)), files', chs')
    ensures old(FreeExact(fs)) ==> FreeExact(fs)
  {
    hide *;
    match call {
      case Create =>
        answer, files', chs', ops := DoCreate(fs, files, v, chs);
      case Grow(i) =>
        answer, files', chs', ops := DoGrow(fs, files, i, v, chs);
      case Delete(i) =>
        answer, files', chs', ops := DoDelete(fs, files, i, v, chs);
    }
  }

  lemma ListedLength(v: Vol, files: seq<Ends>, chs: seq<seq<nat>>)
    requires Owned(v, files, chs)
    ensures |files| == |chs|
  {
  }

  lemma MarkBehind(fs: Fatfs)
    requires fs.Valid()
    ensures |fs.fat| <= EndMark(fs.geo.fsType)
  {
  }

  lemma ChainEnds(v: Vol, files: seq<Ends>, chs: seq<seq<nat>>, i: nat)
    requires Owned(v, files, chs) && i < |files|
    ensures |chs| == |files| && chs[i] in v.chains && chs[i] != [] && files[i] == Ends(chs[i][0], chs[i][|chs[i]| - 1])
    ensures IsChain(v.fat, chs[i]) && files[i].first >= 2 && files[i].last >= 2
  {
    assert IsChain(v.fat, chs[i]);
    assert InTable(v.fat, chs[i][0]) && InTable(v.fat, chs[i][|chs[i]| - 1]);
  }

  /** remove_chain on a whole chain. */
  method Release(fs: Fatfs, clst: nat, ghost ch: seq<nat>) returns (res: FResult)
    requires fs.Valid() && fs.freeClust < 0x1_0000_0000 && |fs.fat| >= 3 && IsChain(fs.fat, ch) && clst == ch[0]
    modifies fs`disk, fs`logical, fs`fat, fs`wflag, fs`winsect, fs`freeClust, fs`fsiDirty, fs.win
    ensures fs.Valid() && fs.freeClust < 0x1_0000_0000 && |fs.fat| == |old(fs.fat)| && res == FrOk
    ensures fs.fat == Removed(old(fs.fat), clst).0
    ensures old(FreeExact(fs)) ==> FreeExact(fs)
  {
    hide Fatfs.Valid, FreeCount, SameOutsideFats;
    FreeCountBound(fs.fat);
    RemovedChain(fs.fat, ch);
    assert InTable(fs.fat, ch[0]);
    res := RemoveChain(fs, clst);
  }

  // ----- runs -----

  lemma AfterOne(v: Vol, op: AllocOp, ops: seq<AllocOp>, end: nat)
    requires Forest(v.fat, v.chains) && end >= |v.fat| && Enabled(v, op)
    requires |Next(v, op, end).fat| == |v.fat| && Forest(Next(v, op, end).fat, Next(v, op, end).chains)
    requires Runs(Next(v, op, end), ops, end)
    ensures Runs(v, [op] + ops, end) && After(v, [op] + ops, end) == After(Next(v, op, end), ops, end)
  {
    hide Forest, Enabled, Next;
    assert ([op] + ops)[1..] == ops;
  }

  /** Any calls, in any order: the table makes a run of allocator steps, one for each call that found what it needs;
      the owners still have the ends of their chains, every cluster is free or on a chain, and an exact free cluster
      count stays exact. */
  method RunCalls(fs: Fatfs, files: seq<Ends>, calls: seq<Call>, ghost v: Vol, ghost chs: seq<seq<nat>>)
    returns (answers: seq<nat>, files': seq<Ends>, ghost v': Vol, ghost chs': seq<seq<nat>>, ghost ops: seq<AllocOp>)
    requires fs.Valid() && fs.freeClust < 0x1_0000_0000 && |fs.fat| >= 3 && fs.fat == v.fat && Owned(v, files, chs)
    modifies fs`disk, fs`logical, fs`fat, fs`wflag, fs`winsect, fs`lastClust, fs`freeClust, fs`fsiDirty, fs.win
    decreases |calls|
    ensures fs.Valid() && fs.freeClust < 0x1_0000_0000 && fs.fat == v'.fat && Owned(v', files', chs')
            && |answers| == |calls|
    ensures fs.geo == old(fs.geo)
    ensures |v.fat| <= EndMark(fs.geo.fsType) && Forest(v.fat, v.chains)
    ensures Runs(v, ops, EndMark(fs.geo.fsType)) && v' == After(v, ops, EndMark(fs.geo.fsType)) && |ops| <= |calls|
    ensures Conversed(v, chs, calls, answers, ops, EndMark(fs.geo.fsType))
    ensures |v'.fat| == |v.fat| && FreeCount(v'.fat) + OnChains(v'.chains) == |v.fat| - 2
    ensures old(FreeExact(fs)) ==> FreeExact(fs)
  {
    MarkBehind(fs);
    OwnedForest(v, files, chs);
    hide *;
    ghost var end := EndMark(fs.geo.fsType);
    Conservation(v.fat, v.chains);
    if calls == [] {
      RunsNothing(v, chs, end);
      return [], files, v, chs, [];
    }
    var a, fl;
    ghost var c, op;
    a, fl, c, op := Do(fs, files, calls[0], v, chs);
    ghost var w := if op == [] then v else Next(v, op[0], end);
    OwnedForest(w, fl, c);
    answers, files', v', chs', ops := RunCalls(fs, fl, calls[1..], w, c);
    OneConversed(v, chs, calls, a, answers, ops, end);
    if op == [] {
      assert op + ops == ops;
    } else {
      assert op == [op[0]];
      AfterOne(v, op[0], ops, end);
    }
    answers, ops := [a] + answers, op + ops;
  }

  lemma OwnedForest(v: Vol, files: seq<Ends>, chs: seq<seq<nat>>)
    requires Owned(v, files, chs)
    ensures Forest(v.fat, v.chains)
  {
  }

  lemma OneConversed(v: Vol, chs: seq<seq<nat>>, calls: seq<Call>, a: nat, answers: seq<nat>, ops: seq<AllocOp>,
                     end: nat)
    requires |v.fat| >= 2 && Forest(v.fat, v.chains) && calls != [] && Answers(v, chs, calls[0], a)
    requires var step, then' := StepOf(chs, calls[0], a), ChainsAfter(chs, calls[0], a);
             if step == [] then Conversed(v, then', calls[1..], answers, ops, end)
             else Enabled(v, step[0]) && Conversed(Next(v, step[0], end), then', calls[1..], answers, ops, end)
    ensures Conversed(v, chs, calls, [a] + answers, StepOf(chs, calls[0], a) + ops, end)
  {
    hide Forest, Enabled, Next, FreeCount;
    assert ([a] + answers)[1..] == answers;
    var step := StepOf(chs, calls[0], a);
    assert step != [] ==> (step + ops)[1..] == ops;
    assert step == [] ==> step + ops == ops;
  }

  lemma RunsNothing(v: Vol, chs: seq<seq<nat>>, end: nat)
    requires Forest(v.fat, v.chains) && end >= |v.fat| >= 2
    ensures Runs(v, [], end) && After(v, [], end) == v && Conversed(v, chs, [], [], [], end)
  {
  }
}
