/** The cluster link map table: the run-length form of a cluster chain used by fast seek. */
module LinkMap {

  /** Length of the leading run of consecutive cluster numbers. */
  function RunLength(ch: seq<nat>): (n: nat)
    ensures n <= |ch| && (ch != [] ==> n > 0)
  {
    if |ch| <= 1 then |ch|
    else if ch[1] == ch[0] + 1 then 1 + RunLength(ch[1..])
    else 1
  }

  /** The leading run consists of consecutive numbers and cannot be extended. */
  lemma {:induction false} RunIsMaximal(ch: seq<nat>)
    ensures forall k | 0 <= k < RunLength(ch) :: ch[k] == ch[0] + k
    ensures RunLength(ch) < |ch| ==> ch[RunLength(ch)] != ch[RunLength(ch) - 1] + 1
  {
    if |ch| > 1 && ch[1] == ch[0] + 1 {
      RunIsMaximal(ch[1..]);
      forall k | 0 < k < RunLength(ch) ensures ch[k] == ch[0] + k {
        assert ch[k] == ch[1..][k - 1];
      }
    }
  }

  /** A run that consists of consecutive numbers and cannot be extended is the leading one. */
  lemma {:induction false} RunLengthIs(ch: seq<nat>, n: nat)
    requires 0 < n <= |ch| && forall k | 0 <= k < n :: ch[k] == ch[0] + k
    requires n < |ch| ==> ch[n] != ch[n - 1] + 1
    ensures RunLength(ch) == n
    decreases n
  {
    if n > 1 {
      assert ch[1] == ch[0] + 1;
      forall k | 0 <= k < n - 1 ensures ch[1..][k] == ch[1..][0] + k {
        assert ch[1..][k] == ch[k + 1];
      }
      RunLengthIs(ch[1..], n - 1);
    }
  }

  /** Number of maximal contiguous runs of the chain. */
  function Runs(ch: seq<nat>): nat {
    if ch == [] then 0 else 1 + Runs(ch[RunLength(ch)..])
  }

  /** A cluster more is one run more at most. */
  lemma {:induction false} RunsNext(ch: seq<nat>, c: nat)
    ensures Runs(ch) <= Runs(ch + [c]) <= Runs(ch) + 1
  {
    var n := RunLength(ch);
    var next := ch + [c];
    RunIsMaximal(ch);
    if ch == [] {
      assert next[1..] == [];
    } else if n < |ch| || c != ch[|ch| - 1] + 1 {
      assert forall k | 0 <= k < n :: next[k] == ch[k];
      assert next[n] == if n < |ch| then ch[n] else c;
      RunLengthIs(next, n);
      assert next[n..] == ch[n..] + [c];
      if n < |ch| {
        RunsNext(ch[n..], c);
      } else {
        assert next[n..] == [c] && [c][1..] == [];
      }
    } else {
      assert forall k | 0 <= k < n :: next[k] == ch[k];
      RunLengthIs(next, n + 1);
      assert next[n + 1..] == [] && ch[n..] == [];
    }
  }

  /** Clusters behind a chain never make it fewer runs, and one more each at most. */
  lemma {:induction false} RunsPrefix(ch: seq<nat>, k: nat)
    requires k <= |ch|
    ensures Runs(ch[..k]) <= Runs(ch) <= Runs(ch[..k]) + (|ch| - k)
    decreases |ch| - k
  {
    if k < |ch| {
      RunsNext(ch[..k], ch[k]);
      assert ch[..k] + [ch[k]] == ch[..k + 1];
      RunsPrefix(ch, k + 1);
    } else {
      assert ch[..k] == ch;
    }
  }

  /** The fragments of the chain: length and first cluster of every run. */
  function Fragments(ch: seq<nat>): (t: seq<nat>)
    ensures |t| == 2 * Runs(ch)
  {
    if ch == [] then [] else [RunLength(ch), ch[0]] + Fragments(ch[RunLength(ch)..])
  }

  /** clmt_clust on the table `t` behind its size item: the number of the `cl`-th cluster, 0 behind the last. */
  function Lookup(t: seq<nat>, cl: nat): nat {
    if |t| < 2 || t[0] == 0 then 0
    else if cl < t[0] then cl + t[1]
    else Lookup(t[2..], cl - t[0])
  }

  /** The table of a chain, whatever follows its terminator, finds every cluster of the chain and nothing behind it. */
  lemma {:induction false} LookupFragments(ch: seq<nat>, rest: seq<nat>, k: nat)
    ensures Lookup(Fragments(ch) + [0] + rest, k) == if k < |ch| then ch[k] else 0
    decreases |ch|
  {
    var t := Fragments(ch) + [0] + rest;
    if ch != [] {
      var n := RunLength(ch);
      RunIsMaximal(ch);
      assert t[2..] == Fragments(ch[n..]) + [0] + rest;
      if k >= n {
        LookupFragments(ch[n..], rest, k - n);
      }
    }
  }

  /** Table `t` (size item first) is a link map of chain `ch`. */
  ghost predicate MapsChain(t: seq<nat>, ch: seq<nat>) {
    && |Fragments(ch)| + 2 <= |t|
    && t[1..|Fragments(ch)| + 2] == Fragments(ch) + [0]
  }

  /** clmt_clust: the cluster of offset `ofs` on a volume of `csize` sectors a cluster, 0 behind the last fragment. */
  method ClmtClust(cltbl: array<nat>, ofs: nat, csize: nat, ghost ch: seq<nat>) returns (r: nat)
    requires csize > 0 && MapsChain(cltbl[..], ch)
    ensures r == if ofs / 512 / csize < |ch| then ch[ofs / 512 / csize] else 0
  {
    r := FindFragment(cltbl, ofs / 512 / csize, ch);
  }

  /** The search loop of clmt_clust. */
  method FindFragment(cltbl: array<nat>, order: nat, ghost ch: seq<nat>) returns (r: nat)
    requires MapsChain(cltbl[..], ch)
    ensures r == if order < |ch| then ch[order] else 0
  {
    hide Fragments, RunLength;
    var p: nat, cl: nat := 1, order;
    ghost var rest := ch;
    while true
      invariant p + |Fragments(rest)| + 1 <= cltbl.Length
      invariant cltbl[p..p + |Fragments(rest)| + 1] == Fragments(rest) + [0]
      invariant cl < |rest| <==> order < |ch|
      invariant cl < |rest| ==> rest[cl] == ch[order]
      decreases |rest|
    {
      ghost var t := Fragments(rest) + [0];
      FirstFragment(rest);
      var ncl := cltbl[p];
      assert ncl == cltbl[p..p + |t|][0];
      if ncl == 0 {
        return 0;
      }
      assert cltbl[p + 1] == cltbl[p..p + |t|][1];
      if cl < ncl {
        return cl + cltbl[p + 1];
      }
      cl, p := cl - ncl, p + 2;
      assert cltbl[p..p + |t| - 2] == t[2..];
      rest := rest[ncl..];
    }
  }

  /** The head of a table: its terminator, or the first run of the chain in front of the table of the rest. */
  lemma FirstFragment(ch: seq<nat>)
    ensures var t := Fragments(ch) + [0];
            if ch == [] then t == [0]
            else
              && 0 < t[0] <= |ch| && |t| > 2
              && (forall k | 0 <= k < t[0] :: ch[k] == t[1] + k)
              && t[2..] == Fragments(ch[t[0]..]) + [0]
  {
    if ch != [] {
      RunIsMaximal(ch);
      var n := RunLength(ch);
      var rest := Fragments(ch[n..]);
      assert Fragments(ch) == [n, ch[0]] + rest;
      hide *;
      assert [n, ch[0]] + rest + [0] == [n, ch[0]] + (rest + [0]);
    }
  }
}
