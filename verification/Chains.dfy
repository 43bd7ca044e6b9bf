/** The FAT as a forest of cluster chains, and what allocating, removing and truncating do to it. */
module Chains {
  import opened Geometry

  /** Cluster numbers that have an entry. */
  predicate InTable(fat: seq<nat>, c: nat) {
    2 <= c < |fat|
  }

  /** `ch` is a complete cluster chain: linked, without repetition, closed by an end mark. */
  ghost predicate IsChain(fat: seq<nat>, ch: seq<nat>) {
    && |ch| > 0
    && (forall i | 0 <= i < |ch| :: InTable(fat, ch[i]))
    && (forall i, j | 0 <= i < j < |ch| :: ch[i] != ch[j])
    && (forall i | 0 <= i < |ch| - 1 :: fat[ch[i]] == ch[i + 1])
    && fat[ch[|ch| - 1]] >= |fat|
  }

  /** No entry holds 1, which create_chain and f_getfree take for an error. */
  ghost predicate Unbroken(fat: seq<nat>) {
    forall c: nat | InTable(fat, c) :: fat[c] != 1
  }

  /** On a forest none does. */
  lemma ForestUnbroken(fat: seq<nat>, s: set<seq<nat>>)
    requires Forest(fat, s)
    ensures Unbroken(fat)
  {
    forall c: nat | InTable(fat, c) && fat[c] != 0 ensures fat[c] != 1 {
      assert OnSome(s, c);
      var ch :| ch in s && c in ch;
      var i :| 0 <= i < |ch| && ch[i] == c;
      if i + 1 < |ch| {
        assert InTable(fat, ch[i + 1]);
      }
    }
  }

  ghost predicate Apart(x: seq<nat>, y: seq<nat>) {
    forall c | c in x :: c !in y
  }

  ghost predicate OnSome(s: set<seq<nat>>, c: nat) {
    exists ch :: ch in s && c in ch
  }

  /** The chains `s` are disjoint and every allocated cluster lies on one of them. */
  ghost predicate Forest(fat: seq<nat>, s: set<seq<nat>>) {
    && (forall ch | ch in s :: IsChain(fat, ch))
    && (forall x, y | x in s && y in s && x != y :: Apart(x, y))
    && (forall c: nat | InTable(fat, c) && fat[c] != 0 :: OnSome(s, c))
  }

  // ----- free clusters -----

  /** Number of zero entries in [a, b). */
  function Zeros(fat: seq<nat>, a: nat, b: nat): (n: nat)
    requires a <= b <= |fat|
    ensures n <= b - a
  {
    if a == b then 0 else Zeros(fat, a, b - 1) + if fat[b - 1] == 0 then 1 else 0
  }

  /** Number of free clusters. */
  function FreeCount(fat: seq<nat>): nat
    requires |fat| >= 2
  {
    Zeros(fat, 2, |fat|)
  }

  lemma {:induction false} ZerosUpdate(fat: seq<nat>, a: nat, b: nat, c: nat, v: nat)
    requires a <= b <= |fat| && c < |fat|
    ensures Zeros(fat[c := v], a, b) ==
            Zeros(fat, a, b) + if a <= c < b then (if v == 0 then 1 else 0) - (if fat[c] == 0 then 1 else 0) else 0
    decreases b
  {
    if a < b {
      ZerosUpdate(fat, a, b - 1, c, v);
    }
  }

  lemma {:induction false} ZerosSplit(fat: seq<nat>, a: nat, m: nat, b: nat)
    requires a <= m <= b <= |fat|
    ensures Zeros(fat, a, b) == Zeros(fat, a, m) + Zeros(fat, m, b)
    decreases b
  {
    if m < b {
      ZerosSplit(fat, a, m, b - 1);
    }
  }

  /** No zero entry counted means none there, and the other way round. */
  lemma {:induction false} ZerosNone(fat: seq<nat>, a: nat, b: nat)
    requires a <= b <= |fat|
    ensures Zeros(fat, a, b) == 0 <==> forall c: nat | a <= c < b :: fat[c] != 0
    decreases b
  {
    if a < b {
      ZerosNone(fat, a, b - 1);
    }
  }

  // ----- removing a chain -----

  /** remove_chain on numbers: follows links from `c`, freeing what it leaves, until a number out of the
      table, a free entry, or an entry holding 1. Each step frees a used entry, so it ends on any table. */
  ghost function Removed(fat: seq<nat>, c: nat): (r: (seq<nat>, FResult))
    ensures |r.0| == |fat|
    decreases |fat| - Zeros(fat, 0, |fat|)
  {
    if c >= |fat| then (fat, FrOk)
    else if fat[c] == 0 then (fat, FrOk)
    else if fat[c] == 1 then (fat, FrIntErr)
    else
      ZerosUpdate(fat, 0, |fat|, c, 0);
      Removed(fat[c := 0], fat[c])
  }

  /** `fat` with the clusters `cs` free. */
  ghost function Freed(fat: seq<nat>, cs: seq<nat>): (r: seq<nat>)
    ensures |r| == |fat|
  {
    seq(|fat|, c requires 0 <= c < |fat| => if c in cs then 0 else fat[c])
  }

  /** Removing from the first cluster of a chain frees exactly that chain. */
  lemma {:induction false} RemovedChain(fat: seq<nat>, ch: seq<nat>)
    requires IsChain(fat, ch)
    ensures Removed(fat, ch[0]) == (Freed(fat, ch), FrOk)
    decreases |ch|
  {
    var fat' := fat[ch[0] := 0];
    assert fat[ch[0]] >= 2 by { assert InTable(fat, ch[0]); assert |ch| > 1 ==> InTable(fat, ch[1]); }
    if |ch| == 1 {
      assert Freed(fat, ch) == fat';
      assert Removed(fat', fat[ch[0]]) == (fat', FrOk);
    } else {
      assert ch[0] == ch[..1][0] && ch == [ch[0]] + ch[1..];
      RemovedChain(fat', ch[1..]);
      assert Freed(fat', ch[1..]) == Freed(fat, ch);
    }
  }

  /** A cluster on a chain is used. */
  lemma ChainAllocated(fat: seq<nat>, ch: seq<nat>)
    requires IsChain(fat, ch)
    ensures forall i | 0 <= i < |ch| :: InTable(fat, ch[i]) && fat[ch[i]] != 0
  {
    forall i | 0 <= i < |ch| ensures fat[ch[i]] != 0 {
      if i + 1 < |ch| {
        assert InTable(fat, ch[i + 1]);
      }
    }
  }

  lemma {:induction false} FreedCount(fat: seq<nat>, ch: seq<nat>)
    requires |fat| >= 2 && forall i | 0 <= i < |ch| :: InTable(fat, ch[i]) && fat[ch[i]] != 0
    requires forall i, j | 0 <= i < j < |ch| :: ch[i] != ch[j]
    ensures FreeCount(Freed(fat, ch)) == FreeCount(fat) + |ch|
    decreases |ch|
  {
    if ch == [] {
      assert Freed(fat, ch) == fat;
    } else {
      var k := |ch| - 1;
      FreedCount(fat, ch[..k]);
      assert ch == ch[..k] + [ch[k]];
      assert Freed(fat, ch) == Freed(fat, ch[..k])[ch[k] := 0];
      ZerosUpdate(Freed(fat, ch[..k]), 2, |fat|, ch[k], 0);
    }
  }

  /** Removing a chain of the forest leaves the forest without that chain. */
  lemma RemovedForest(fat: seq<nat>, s: set<seq<nat>>, ch: seq<nat>)
    requires Forest(fat, s) && ch in s
    ensures Forest(Freed(fat, ch), s - {ch})
  {
    var fat' := Freed(fat, ch);
    forall x | x in s - {ch} ensures IsChain(fat', x) {
      assert Apart(x, ch);
      OtherChainKept(fat, fat', ch, x);
    }
    forall c: nat | InTable(fat', c) && fat'[c] != 0 ensures OnSome(s - {ch}, c) {
      assert fat[c] != 0 && OnSome(s, c);
    }
  }

  /** A chain none of whose entries changed is still a chain. */
  lemma OtherChainKept(fat: seq<nat>, fat': seq<nat>, touched: seq<nat>, x: seq<nat>)
    requires IsChain(fat, x) && |fat'| == |fat|
    requires forall c | c in x :: c !in touched
    requires forall c | 0 <= c < |fat| && c !in touched :: fat'[c] == fat[c]
    ensures IsChain(fat', x)
  {
    forall i | 0 <= i < |x| ensures fat'[x[i]] == fat[x[i]] {
      assert x[i] in x;
    }
  }

  // ----- creating and stretching a chain -----

  /** Position of cluster `c` in the search that starts behind `scl` and wraps around at `n`. */
  function SearchOrder(n: nat, scl: nat, c: nat): nat
    requires 1 <= scl < n && 2 <= c < n
  {
    if c > scl then c - scl - 1 else n - 1 - scl + (c - 2)
  }

  /** The cluster at position `i` of the search. */
  function SearchVisit(n: nat, scl: nat, i: nat): nat
    requires 1 <= scl < n && i < n - 2
  {
    if scl + 1 + i < n then scl + 1 + i else scl + 3 + i - n
  }

  /** The search visits every cluster exactly once. */
  lemma SearchVisitsAll(n: nat, scl: nat)
    requires 1 <= scl < n
    ensures forall i: nat | i < n - 2 ::
              2 <= SearchVisit(n, scl, i) < n && SearchOrder(n, scl, SearchVisit(n, scl, i)) == i
    ensures forall c: nat | 2 <= c < n ::
              SearchOrder(n, scl, c) < n - 2 && SearchVisit(n, scl, SearchOrder(n, scl, c)) == c
  {
  }

  /** No cluster before position `p` of the search is free or holds 1. */
  ghost predicate PassedOver(fat: seq<nat>, scl: nat, p: nat)
    requires 1 <= scl < |fat|
  {
    forall c: nat | InTable(fat, c) && SearchOrder(|fat|, scl, c) < p :: fat[c] > 1
  }

  /** No cluster from `from` on and below `to` is free or holds 1. */
  ghost predicate UsedFrom(fat: seq<nat>, from: nat, to: nat) {
    forall c: nat | from <= c < to && InTable(fat, c) :: fat[c] > 1
  }

  /** No cluster behind `scl` and before `c`, when the end of the table is followed by cluster 2, is free or holds 1. */
  ghost predicate UsedUpTo(fat: seq<nat>, scl: nat, c: nat) {
    if c > scl then UsedFrom(fat, scl + 1, c) else UsedFrom(fat, scl + 1, |fat|) && UsedFrom(fat, 2, c)
  }

  /** The search order in plain comparisons. */
  lemma PassedMeans(fat: seq<nat>, scl: nat, c: nat)
    requires 1 <= scl < |fat| && InTable(fat, c)
    ensures PassedOver(fat, scl, SearchOrder(|fat|, scl, c)) <==> UsedUpTo(fat, scl, c)
  {
  }

  /** The answer `r` of the search behind `scl`: the first free cluster, 1 when an entry holding 1 comes
      first, 0 when every cluster is used. */
  ghost predicate FirstFree(fat: seq<nat>, scl: nat, r: nat) {
    if r >= 2 then
      r < |fat| && fat[r] == 0 && UsedUpTo(fat, scl, r)
    else if r == 1 then
      exists c: nat :: InTable(fat, c) && fat[c] == 1 && UsedUpTo(fat, scl, c)
    else
      UsedFrom(fat, 2, |fat|)
  }

  /** A table with two free clusters: behind cluster 5 the search finds the one at the end, behind cluster 6 it goes on
      from cluster 2. */
  lemma FirstFreeThere(r: nat)
    ensures var fat := [0xFF8, 0xFFF, 0xFFF, 0, 0xFFF, 0xFFF, 0];
            && (FirstFree(fat, 5, r) <==> r == 6) && (FirstFree(fat, 6, r) <==> r == 3)
            && (FirstFree(fat, 1, r) <==> r == 3) && (FirstFree(fat[6 := 1], 5, r) <==> r == 1)
  {
    var fat := [0xFF8, 0xFFF, 0xFFF, 0, 0xFFF, 0xFFF, 0];
    assert InTable(fat, 3) && InTable(fat, 6) && fat[3] == fat[6] == 0;
    assert InTable(fat[6 := 1], 3) && InTable(fat[6 := 1], 6) && fat[6 := 1][6] == 1;
  }

  /** The table after cluster `ncl` was allocated, behind `clst` unless that is 0. */
  function Linked(fat: seq<nat>, clst: nat, ncl: nat, end: nat): (r: seq<nat>)
    requires InTable(fat, ncl) && (clst == 0 || InTable(fat, clst))
    ensures |r| == |fat|
  {
    if clst == 0 then fat[ncl := end] else fat[ncl := end][clst := ncl]
  }

  /** Stretching a chain appends the new cluster to it. */
  lemma StretchedChain(fat: seq<nat>, ch: seq<nat>, ncl: nat, end: nat)
    requires IsChain(fat, ch) && InTable(fat, ncl) && fat[ncl] == 0 && end >= |fat|
    ensures IsChain(Linked(fat, ch[|ch| - 1], ncl, end), ch + [ncl])
  {
    var fat' := Linked(fat, ch[|ch| - 1], ncl, end);
    NotOnChain(fat, ch, ncl);
    var ch' := ch + [ncl];
    forall i | 0 <= i < |ch'| - 1 ensures fat'[ch'[i]] == ch'[i + 1] {
      assert ch'[i] == ch[i];
    }
  }

  lemma NotOnChain(fat: seq<nat>, ch: seq<nat>, c: nat)
    requires IsChain(fat, ch) && InTable(fat, c) && fat[c] == 0
    ensures c !in ch
  {
    forall i | 0 <= i < |ch| ensures ch[i] != c {
      if i + 1 < |ch| {
        assert InTable(fat, ch[i + 1]);
      }
    }
  }

  /** A chain of formerly free clusters joins the forest. */
  lemma JoinedForest(fat: seq<nat>, fat': seq<nat>, s: set<seq<nat>>, ch: seq<nat>)
    requires Forest(fat, s) && |fat'| == |fat| && IsChain(fat', ch)
    requires forall c | c in ch :: InTable(fat, c) && fat[c] == 0
    requires forall c: nat | c < |fat| && c !in ch :: fat'[c] == fat[c]
    ensures Forest(fat', s + {ch})
  {
    hide IsChain;
    forall x | x in s ensures IsChain(fat', x) && Apart(x, ch) && Apart(ch, x) {
      StaysApart(fat, x, [], ch);
      OtherChainKept(fat, fat', ch, x);
    }
    forall c: nat | InTable(fat', c) && fat'[c] != 0 ensures OnSome(s + {ch}, c) {
      if c in ch {
        assert ch in s + {ch};
      } else {
        Covered(fat, s, s + {ch}, c);
      }
    }
  }

  /** A new chain joins the forest. */
  lemma CreatedForest(fat: seq<nat>, s: set<seq<nat>>, ncl: nat, end: nat)
    requires Forest(fat, s) && InTable(fat, ncl) && fat[ncl] == 0 && end >= |fat|
    ensures Forest(Linked(fat, 0, ncl, end), s + {[ncl]})
  {
    JoinedForest(fat, Linked(fat, 0, ncl, end), s, [ncl]);
  }

  /** An allocated cluster stays covered when the chain that held it is still there. */
  lemma Covered(fat: seq<nat>, s: set<seq<nat>>, s': set<seq<nat>>, c: nat)
    requires Forest(fat, s) && InTable(fat, c) && fat[c] != 0
    requires forall x | x in s && c in x :: x in s'
    ensures OnSome(s', c)
  {
    assert OnSome(s, c);
    var x :| x in s && c in x;
    assert x in s';
  }

  /** A chain of the forest replaced by one made of its own and of free clusters. */
  lemma ReplacedForest(fat: seq<nat>, fat': seq<nat>, s: set<seq<nat>>, ch: seq<nat>, ch': seq<nat>)
    requires Forest(fat, s) && ch in s && |fat'| == |fat|
    requires IsChain(fat', ch')
    requires forall c | c in ch' :: c in ch || (InTable(fat, c) && fat[c] == 0)
    requires forall c: nat | c < |fat| && c !in ch && c !in ch' :: fat'[c] == fat[c]
    requires forall c: nat | InTable(fat, c) && c in ch && c !in ch' :: fat'[c] == 0
    ensures Forest(fat', s - {ch} + {ch'})
  {
    hide IsChain;
    var s' := s - {ch} + {ch'};
    forall x | x in s && x != ch ensures IsChain(fat', x) && Apart(x, ch') && Apart(ch', x) {
      assert Apart(x, ch) && Apart(ch, x);
      StaysApart(fat, x, ch, ch');
      OtherChainKept(fat, fat', ch + ch', x);
    }
    forall c: nat | InTable(fat', c) && fat'[c] != 0 ensures OnSome(s', c) {
      if c in ch' {
        assert ch' in s';
      } else {
        Covered(fat, s, s', c);
      }
    }
  }

  lemma StaysApart(fat: seq<nat>, x: seq<nat>, ch: seq<nat>, ch': seq<nat>)
    requires IsChain(fat, x) && Apart(ch, x)
    requires forall c | c in ch' :: c in ch || (InTable(fat, c) && fat[c] == 0)
    ensures Apart(x, ch') && Apart(ch', x)
  {
    forall c | c in ch' ensures c !in x {
      if c !in ch {
        NotOnChain(fat, x, c);
      }
    }
  }

  /** Stretching replaces one chain of the forest by the longer one and touches no other. */
  lemma StretchedForest(fat: seq<nat>, s: set<seq<nat>>, ch: seq<nat>, ncl: nat, end: nat)
    requires Forest(fat, s) && ch in s && InTable(fat, ncl) && fat[ncl] == 0 && end >= |fat|
    ensures Forest(Linked(fat, ch[|ch| - 1], ncl, end), s - {ch} + {ch + [ncl]})
  {
    StretchedChain(fat, ch, ncl, end);
    assert ch[|ch| - 1] in ch;
    ReplacedForest(fat, Linked(fat, ch[|ch| - 1], ncl, end), s, ch, ch + [ncl]);
  }

  // ----- truncating a chain -----

  /** The table after the chain `ch` was cut behind its first `k` clusters. */
  ghost function Cut(fat: seq<nat>, ch: seq<nat>, k: nat, end: nat): (r: seq<nat>)
    requires IsChain(fat, ch) && 0 < k <= |ch|
    ensures |r| == |fat|
  {
    Freed(fat[ch[k - 1] := end], ch[k..])
  }

  /** Cutting keeps the first `k` clusters as a chain; ending the chain there makes the rest a chain of its own. */
  lemma CutChain(fat: seq<nat>, ch: seq<nat>, k: nat, end: nat)
    requires IsChain(fat, ch) && 0 < k < |ch| && end >= |fat|
    ensures IsChain(fat[ch[k - 1] := end], ch[k..])
    ensures IsChain(Cut(fat, ch, k, end), ch[..k])
  {
    var mid := fat[ch[k - 1] := end];
    var fat' := Cut(fat, ch, k, end);
    forall i | 0 <= i < k ensures ch[i] !in ch[k..] {
      forall j | 0 <= j < |ch| - k ensures ch[k..][j] != ch[i] {
        assert ch[k..][j] == ch[k + j];
      }
    }
    assert forall i | 0 <= i < k :: fat'[ch[i]] == mid[ch[i]];
  }

  /** Cutting replaces one chain of the forest by its first `k` clusters and touches no other. */
  lemma CutForest(fat: seq<nat>, s: set<seq<nat>>, ch: seq<nat>, k: nat, end: nat)
    requires Forest(fat, s) && ch in s && 0 < k < |ch| && end >= |fat|
    ensures Forest(Cut(fat, ch, k, end), s - {ch} + {ch[..k]})
  {
    CutChain(fat, ch, k, end);
    assert ch == ch[..k] + ch[k..];
    assert ch[k - 1] == ch[..k][k - 1];
    ReplacedForest(fat, Cut(fat, ch, k, end), s, ch, ch[..k]);
  }
}
