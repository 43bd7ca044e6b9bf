/** What dir_find finds in a sequence of directory entries, and why a name that was just registered is found. */
module DirScan {
  import opened Bytes
  import opened Lfn

  const NO_ORD: nat := 0xFF   // no long name sequence is open
  const NO_LFN: nat := 0xFFFF // the object has no long name

  /** The name a search is for: the 8.3 form, whether that form stands for the name at all, and the long form in its
      buffer, if the search is for that, too. */
  datatype Wanted = Wanted(sfn: seq<byte>, loss: bool, lfn: seq<wchar>, withLfn: bool)

  predicate Proper(w: Wanted) {
    |w.sfn| == 11 && |w.lfn| == MAX_LFN + 1 && w.sfn[0] != 0 && w.sfn[0] as int != DDE
  }

  /** An entry that holds nothing. */
  predicate Blank(e: seq<byte>)
    requires |e| == 32
  {
    e[0] == 0 || e[0] as int == DDE
  }

  function Attr(e: seq<byte>): nat
    requires |e| == 32
  {
    e[11] as int % 0x40
  }

  /** sum_sfn of the first 11 bytes. */
  function SumSfn(e: seq<byte>): byte
    requires |e| >= 11
  {
    SumFrom(e, 0, 0)
  }

  function SumFrom(e: seq<byte>, i: nat, sum: byte): byte
    requires |e| >= 11 && i <= 11
    decreases 11 - i
  {
    if i == 11 then sum else SumFrom(e, i + 1, (sum as int / 2 + sum as int % 2 * 0x80 + e[i] as int) % 0x100)
  }

  /** One turn of the sum: it is rotated to the right by one bit, the byte is added, eight bits are kept. */
  lemma SumTurn(e: seq<byte>, i: nat, sum: byte, next: byte)
    requires |e| == 11 && i < 11 && next == (sum as int / 2 + sum as int % 2 * 128 + e[i] as int) % 256
    ensures SumFrom(e, i, sum) == SumFrom(e, i + 1, next)
  {
  }

  lemma SumOver(e: seq<byte>, sum: byte)
    requires |e| == 11
    ensures SumFrom(e, 11, sum) == sum && SumSfn(e) == SumFrom(e, 0, 0)
  {
  }

  /** The checksum of README.TXT. */
  lemma SumExample(e: seq<byte>)
    requires e == [0x52, 0x45, 0x41, 0x44, 0x4D, 0x45, 0x20, 0x20, 0x54, 0x58, 0x54]
    ensures SumSfn(e) == 0x73
  {
    hide *;
    SumTurn(e, 0, 0x00, 0x52);
    SumTurn(e, 1, 0x52, 0x6E);
    SumTurn(e, 2, 0x6E, 0x78);
    SumTurn(e, 3, 0x78, 0x80);
    SumTurn(e, 4, 0x80, 0x8D);
    SumTurn(e, 5, 0x8D, 0x0B);
    SumTurn(e, 6, 0x0B, 0xA5);
    SumTurn(e, 7, 0xA5, 0xF2);
    SumTurn(e, 8, 0xF2, 0xCD);
    SumTurn(e, 9, 0xCD, 0x3E);
    SumTurn(e, 10, 0x3E, 0x73);
    SumOver(e, 0x73);
  }

  /** Where a long name sequence stands: the order expected next, its checksum, the index of its first entry. */
  datatype Seek = Seek(ord: nat, sum: byte, idx: nat)

  const FRESH: Seek := Seek(NO_ORD, 0xFF, NO_LFN)

  datatype Verdict = Hit(idx: nat) | EndMark | Next(s: Seek)

  /** dir_find on the entry at index `i`. */
  function Judge(e: seq<byte>, w: Wanted, up: wchar -> wchar, s: Seek, i: nat): Verdict
    requires |e| == 32 && Proper(w)
  {
    var c, a := e[0] as int, Attr(e);
    if c == 0 then EndMark
    else if c == DDE || (a / 8 % 2 == 1 && a != AM_LFN) then Next(s.(ord := NO_ORD))
    else if a == AM_LFN then
      if !w.withLfn then Next(s)
      else
        var s1 := if c / LLE % 2 == 1 then Seek(c - LLE, e[13], i) else s;
        var c1 := if c / LLE % 2 == 1 then c - LLE else c;
        Next(s1.(ord := if c1 == s1.ord && s1.sum == e[13] && Matches(e, w.lfn, up) then (s1.ord + 0xFF) % 0x100
          else NO_ORD))
    else if s.ord == 0 && s.sum == SumSfn(e) then Hit(s.idx)
    else if !w.loss && e[..11] == w.sfn then Hit(NO_LFN)
    else Next(Seek(NO_ORD, s.sum, NO_LFN))
  }

  datatype Found = Found(at: nat, lfnIdx: nat) | NotFound

  predicate Table(es: seq<seq<byte>>) {
    forall i | 0 <= i < |es| :: |es[i]| == 32
  }

  /** dir_find from entry `i` on. */
  function Scan(es: seq<seq<byte>>, w: Wanted, up: wchar -> wchar, s: Seek, i: nat): Found
    requires Table(es) && Proper(w) && i <= |es|
    decreases |es| - i
  {
    if i == |es| then NotFound
    else match Judge(es[i], w, up, s, i)
         case Hit(idx) => Found(i, idx)
         case EndMark => NotFound
         case Next(s') => Scan(es, w, up, s', i + 1)
  }

  /** Behind the first zero entry every entry starts with zero. */
  predicate ZeroTail(es: seq<seq<byte>>)
    requires Table(es)
  {
    forall i, j | 0 <= i < j < |es| && es[i][0] == 0 :: es[j][0] == 0
  }

  /** Entries `k` to `k + n - 1` are blank, and they start behind an entry in use. */
  predicate FreeRun(es: seq<seq<byte>>, n: nat, k: nat)
    requires Table(es)
  {
    && n >= 1 && k + n <= |es|
    && (forall i | k <= i < k + n :: Blank(es[i]))
    && (k > 0 ==> !Blank(es[k - 1]))
  }

  lemma RunInside(es: seq<seq<byte>>, n: nat, k: nat)
    requires Table(es) && FreeRun(es, n, k)
    ensures n >= 1 && k + n <= |es|
  {
  }

  /** No entry before such a run is zero. */
  lemma NoZeroBefore(es: seq<seq<byte>>, n: nat, k: nat)
    requires Table(es) && ZeroTail(es) && FreeRun(es, n, k)
    ensures forall i | 0 <= i < k :: es[i][0] != 0
  {
    assert k > 0 ==> es[k - 1][0] != 0;
  }

  /** Where nothing was found in front of entry `k`, nothing is found there in a table that agrees so far: the search
      comes to entry `k`, with some sequence state. */
  lemma {:induction false} ScanReaches(es: seq<seq<byte>>, fs: seq<seq<byte>>, w: Wanted, up: wchar -> wchar, s: Seek,
                                       i: nat, k: nat) returns (t: Seek)
    requires Table(es) && Table(fs) && Proper(w) && i <= k <= |es| && k <= |fs|
    requires forall j | i <= j < k :: fs[j] == es[j] && es[j][0] != 0
    requires Scan(es, w, up, s, i) == NotFound
    ensures Scan(fs, w, up, s, i) == Scan(fs, w, up, t, k)
    decreases k - i
  {
    hide Judge;
    t := s;
    if i < k {
      JudgeUsed(es[i], w, up, s, i);
      t := ScanReaches(es, fs, w, up, Judge(es[i], w, up, s, i).s, i + 1, k);
    }
  }

  lemma JudgeUsed(e: seq<byte>, w: Wanted, up: wchar -> wchar, s: Seek, i: nat)
    requires |e| == 32 && Proper(w) && e[0] != 0
    ensures Judge(e, w, up, s, i) != EndMark
  {
  }

  // ----- a name in the table -----

  /** The entries of a name: its long name segments, the highest first, then the 8.3 entry. */
  ghost predicate Registered(es: seq<seq<byte>>, k: nat, n: nat, w: Wanted, name: seq<wchar>)
    requires Table(es) && Proper(w)
  {
    && n >= 1 && k + n <= |es|
    && IsShort(es[k + n - 1], w.sfn)
    && (n > 1 ==> Nameable(name) && n - 1 == SegmentCount(|name|) && InBuffer(w.lfn, name)
                  && forall i | k <= i < k + n - 1 :: SegmentAt(es[i], 0, name, k + n - 1 - i, SumSfn(w.sfn)))
  }

  /** `fs` is `es` but for the `n` entries from `k` on. */
  ghost predicate SameBut(es: seq<seq<byte>>, fs: seq<seq<byte>>, k: nat, n: nat)
    ensures SameBut(es, fs, k, n) ==> |fs| == |es|
  {
    |fs| == |es| && forall i | 0 <= i < |es| && !(k <= i < k + n) :: fs[i] == es[i]
  }

  /** A short entry of a plain file. */
  predicate IsShort(e: seq<byte>, sfn: seq<byte>)
    requires |e| == 32
  {
    e[..11] == sfn && e[11] == 0
  }

  lemma SumOfShort(e: seq<byte>, sfn: seq<byte>)
    requires |e| == 32 && |sfn| == 11 && e[..11] == sfn
    ensures SumSfn(e) == SumSfn(sfn) && e[0] == sfn[0]
  {
    SumSame(e, sfn, 0, 0);
    assert e[..11][0] == e[0];
  }

  lemma {:induction false} SumSame(e: seq<byte>, sfn: seq<byte>, i: nat, sum: byte)
    requires |e| == 32 && |sfn| == 11 && e[..11] == sfn && i <= 11
    ensures SumFrom(e, i, sum) == SumFrom(sfn, i, sum)
    decreases 11 - i
  {
    if i < 11 {
      assert e[..11][i] == e[i];
      SumSame(e, sfn, i + 1, (sum as int / 2 + sum as int % 2 * 0x80 + e[i] as int) % 0x100);
    }
  }

  /** The segments of a name are recognised one after the other, down to order 0. */
  lemma {:induction false} SegmentsRecognised(es: seq<seq<byte>>, k: nat, n: nat, w: Wanted, name: seq<wchar>,
                                              up: wchar -> wchar, s: Seek, j: nat)
    requires Table(es) && Proper(w) && CaseMap(up) && Registered(es, k, n, w, name) && n > 1 && |name| < MAX_LFN
             && w.withLfn
    requires j < n && (j > 0 ==> s == Seek(n - 1 - j, SumSfn(w.sfn), k))
    ensures Scan(es, w, up, s, k + j) == Scan(es, w, up, Seek(0, SumSfn(w.sfn), k), k + n - 1)
    decreases n - j
  {
    hide Matches, SegmentAt, SumSfn, InBuffer, Nameable, Judge;
    if j < n - 1 {
      OneRecognised(es, k, n, w, name, up, s, j);
      SegmentsRecognised(es, k, n, w, name, up, Seek(n - 2 - j, SumSfn(w.sfn), k), j + 1);
    }
  }

  lemma OneRecognised(es: seq<seq<byte>>, k: nat, n: nat, w: Wanted, name: seq<wchar>, up: wchar -> wchar, s: Seek,
                      j: nat)
    requires Table(es) && Proper(w) && CaseMap(up) && Registered(es, k, n, w, name) && n > 1 && |name| < MAX_LFN
             && w.withLfn
    requires j < n - 1 && (j > 0 ==> s == Seek(n - 1 - j, SumSfn(w.sfn), k)) && k + j < |es|
    ensures Judge(es[k + j], w, up, s, k + j) == Next(Seek(n - 2 - j, SumSfn(w.sfn), k))
  {
    hide Matches, SumSfn;
    var e, ord := es[k + j], n - 1 - j;
    assert SegmentAt(e, 0, name, ord, SumSfn(w.sfn));
    SegmentMatches(e, 0, name, ord, SumSfn(w.sfn), w.lfn, up);
    assert e[0..32] == e;
    SelfAgrees(name, w.lfn, ord, up);
  }

  lemma SelfAgrees(name: seq<wchar>, b: seq<wchar>, ord: nat, up: wchar -> wchar)
    requires Nameable(name) && InBuffer(b, name) && |name| < MAX_LFN && Order(name, ord)
    ensures Agrees(name, b, ord, up)
  {
    assert forall i | 0 <= i < |name| :: b[..|name|][i] == b[i];
  }

  /** The main property: in a table where a search for a name finds nothing, the name registered in a run of blank
      entries is found, at its short entry and with its long name, and the entries
      outside the run are as they were. */
  lemma RegisteredFound(es: seq<seq<byte>>, fs: seq<seq<byte>>, k: nat, n: nat, w: Wanted, v: Wanted,
                        name: seq<wchar>, up: wchar -> wchar)
    requires Table(es) && Table(fs) && Proper(w) && Proper(v) && CaseMap(up) && ZeroTail(es) && FreeRun(es, n, k)
             && |fs| == |es|
    requires v.loss == w.loss && v.lfn == w.lfn && v.withLfn == w.withLfn && (v.loss || v.sfn == w.sfn)
    requires Scan(es, w, up, FRESH, 0) == NotFound
    requires Registered(fs, k, n, v, name) && SameBut(es, fs, k, n)
    requires |name| < MAX_LFN && (n == 1 ==> !v.loss) && (n > 1 ==> v.withLfn)
    ensures Scan(fs, v, up, FRESH, 0).Found? && Scan(fs, v, up, FRESH, 0).at == k + n - 1
    ensures n > 1 ==> Scan(fs, v, up, FRESH, 0).lfnIdx == k
  {
    RunInside(es, n, k);
    hide *;
    NoZeroBefore(es, n, k);
    SameSearch(es, w, v, up, FRESH, 0);
    var t := ScanReaches(es, fs, v, up, FRESH, 0, k);
    if n > 1 {
      SegmentsRecognised(fs, k, n, v, name, up, t, 0);
      ShortHit(fs, k, n, v, name, up, Seek(0, SumSfn(v.sfn), k));
    } else {
      ShortHit(fs, k, n, v, name, up, t);
    }
  }

  /** Searches that differ in an 8.3 form that is not looked for are the same. */
  lemma {:induction false} SameSearch(es: seq<seq<byte>>, w: Wanted, v: Wanted, up: wchar -> wchar, s: Seek, i: nat)
    requires Table(es) && Proper(w) && Proper(v) && i <= |es|
    requires v.loss == w.loss && v.lfn == w.lfn && v.withLfn == w.withLfn && (v.loss || v.sfn == w.sfn)
    ensures Scan(es, w, up, s, i) == Scan(es, v, up, s, i)
    decreases |es| - i
  {
    hide Matches, SumSfn;
    if i < |es| {
      assert Judge(es[i], w, up, s, i) == Judge(es[i], v, up, s, i);
      if Judge(es[i], w, up, s, i).Next? {
        SameSearch(es, w, v, up, Judge(es[i], w, up, s, i).s, i + 1);
      }
    }
  }

  lemma ShortHit(es: seq<seq<byte>>, k: nat, n: nat, w: Wanted, name: seq<wchar>, up: wchar -> wchar, s: Seek)
    requires Table(es) && Proper(w) && Registered(es, k, n, w, name)
    requires (s.ord == 0 && s.sum == SumSfn(w.sfn)) || !w.loss
    ensures Scan(es, w, up, s, k + n - 1).Found? && Scan(es, w, up, s, k + n - 1).at == k + n - 1
    ensures s.ord == 0 && s.sum == SumSfn(w.sfn) ==> Scan(es, w, up, s, k + n - 1).lfnIdx == s.idx
  {
    JudgeShort(es[k + n - 1], w, up, s, k + n - 1);
    hide Judge, Registered;
  }

  lemma JudgeShort(e: seq<byte>, w: Wanted, up: wchar -> wchar, s: Seek, i: nat)
    requires |e| == 32 && Proper(w) && IsShort(e, w.sfn) && ((s.ord == 0 && s.sum == SumSfn(w.sfn)) || !w.loss)
    ensures Judge(e, w, up, s, i).Hit? && (s.ord == 0 && s.sum == SumSfn(w.sfn) ==> Judge(e, w, up, s, i).idx == s.idx)
  {
    hide SumSfn, Matches;
    SumOfShort(e, w.sfn);
    hide IsShort;
    assert Attr(e) == 0 by {
      ShortAttr(e, w.sfn);
    }
    hide Attr;
  }

  lemma ShortAttr(e: seq<byte>, sfn: seq<byte>)
    requires |e| == 32 && IsShort(e, sfn)
    ensures Attr(e) == 0
  {
  }

  // ----- what a search ends on -----

  /** Entry `e` is the long name segment of order `o`, the first of its name in the table if `first`: attribute 0x0F,
      the order in byte 0 with 0x40 for the first, checksum `sum` in byte 13, characters that agree with the buffer. */
  predicate Segment(e: seq<byte>, w: Wanted, up: wchar -> wchar, o: nat, sum: byte, first: bool)
    requires |e| == 32 && Proper(w)
  {
    && 1 <= o <= 20 && e[11] % 0x40 == 0x0F && e[0] as int == (if first then o + 0x40 else o) && e[13] == sum
    && Matches(e, w.lfn, up)
  }

  /** Entries `k` to `i - 1` are segments of one name, in descending order down to `o + 1`. */
  ghost predicate SegmentRun(es: seq<seq<byte>>, w: Wanted, up: wchar -> wchar, k: nat, i: nat, o: nat, sum: byte)
    requires Table(es) && Proper(w)
  {
    && w.withLfn && k < i <= |es|
    && forall j: nat | k <= j < i :: Segment(es[j], w, up, o + (i - j), sum, j == k)
  }

  /** All segments of a name with this checksum stand in front of entry `i`. */
  ghost predicate RunTo(es: seq<seq<byte>>, w: Wanted, up: wchar -> wchar, i: nat, sum: byte)
    requires Table(es) && Proper(w)
  {
    exists k: nat :: SegmentRun(es, w, up, k, i, 0, sum)
  }

  /** Entry `i` is in use and no volume label, and the name that is wanted: the segments in front of it, with its
      checksum, are those of the long name, or its 8.3 form is the wanted one and stands for the name. */
  ghost predicate Target(es: seq<seq<byte>>, w: Wanted, up: wchar -> wchar, i: nat)
    requires Table(es) && Proper(w) && i < |es|
  {
    && es[i][0] != 0 && es[i][0] != 0xE5 && es[i][11] / 8 % 2 == 0
    && (RunTo(es, w, up, i, SumSfn(es[i])) || (!w.loss && es[i][..11] == w.sfn))
  }

  /** What the state of the search says in front of entry `i`: the run of segments that ends there, if there is one. */
  ghost predicate Knows(es: seq<seq<byte>>, w: Wanted, up: wchar -> wchar, s: Seek, i: nat)
    requires Table(es) && Proper(w)
  {
    && (s.ord != NO_ORD ==> SegmentRun(es, w, up, s.idx, i, s.ord, s.sum))
    && forall k: nat, o: nat, sum: byte | SegmentRun(es, w, up, k, i, o, sum) :: s == Seek(o, sum, k)
  }

  /** A search in these entries ends on entry `at`: it is the first target, and no entry in front of it is zero; there
      its long name begins where `lfnIdx` says, or its 8.3 form is the wanted one. */
  ghost predicate FirstTarget(es: seq<seq<byte>>, w: Wanted, up: wchar -> wchar, at: nat, lfnIdx: nat)
    requires Table(es) && Proper(w)
  {
    && at < |es| && Target(es, w, up, at)
    && (forall j: nat | j < at :: es[j][0] != 0 && !Target(es, w, up, j))
    && (if lfnIdx == 0xFFFF then !w.loss && es[at][..11] == w.sfn
        else SegmentRun(es, w, up, lfnIdx, at, 0, SumSfn(es[at])))
  }

  /** No target stands in front of the first zero entry. */
  ghost predicate NoTarget(es: seq<seq<byte>>, w: Wanted, up: wchar -> wchar)
    requires Table(es) && Proper(w)
  {
    forall i: nat | i < |es| && (forall j: nat | j <= i :: es[j][0] != 0) :: !Target(es, w, up, i)
  }

  /** dir_find ends on the first target in front of the first zero entry, or there is none. */
  lemma ScanMeans(es: seq<seq<byte>>, w: Wanted, up: wchar -> wchar)
    requires Table(es) && Proper(w) && |es| <= 0x1_0000
    ensures match Scan(es, w, up, FRESH, 0)
            case Found(at, lfnIdx) => FirstTarget(es, w, up, at, lfnIdx)
            case NotFound => NoTarget(es, w, up)
  {
    assert Knows(es, w, up, FRESH, 0);
    hide Target, SegmentRun, SumSfn, Scan, Knows, Proper;
    ScanFrom(es, w, up, FRESH, 0);
  }

  lemma {:induction false} ScanFrom(es: seq<seq<byte>>, w: Wanted, up: wchar -> wchar, s: Seek, i: nat)
    requires Table(es) && Proper(w) && i <= |es| <= 0x1_0000 && Knows(es, w, up, s, i)
    ensures var f := Scan(es, w, up, s, i);
            if f.Found? then
              && i <= f.at < |es| && Target(es, w, up, f.at)
              && (forall j: nat | i <= j < f.at :: es[j][0] != 0 && !Target(es, w, up, j))
              && (if f.lfnIdx == 0xFFFF then !w.loss && es[f.at][..11] == w.sfn
                  else SegmentRun(es, w, up, f.lfnIdx, f.at, 0, SumSfn(es[f.at])))
            else forall k: nat | i <= k < |es| && (forall j: nat | i <= j <= k :: es[j][0] != 0) ::
              !Target(es, w, up, k)
    decreases |es| - i
  {
    hide Judge, SumSfn, Target, SegmentRun, Knows, Proper;
    if i < |es| {
      JudgeMeans(es, w, up, s, i);
      if Judge(es[i], w, up, s, i).Next? {
        ScanFrom(es, w, up, Judge(es[i], w, up, s, i).s, i + 1);
      }
    }
  }

  lemma JudgeMeans(es: seq<seq<byte>>, w: Wanted, up: wchar -> wchar, s: Seek, i: nat)
    requires Table(es) && Proper(w) && i < |es| <= 0x1_0000 && Knows(es, w, up, s, i)
    ensures match Judge(es[i], w, up, s, i)
            case EndMark => es[i][0] == 0
            case Next(s') => es[i][0] != 0 && !Target(es, w, up, i) && Knows(es, w, up, s', i + 1)
            case Hit(idx) =>
              && es[i][0] != 0 && Target(es, w, up, i)
              && if idx == 0xFFFF then !w.loss && es[i][..11] == w.sfn
                 else SegmentRun(es, w, up, idx, i, 0, SumSfn(es[i]))
  {
    var e := es[i];
    if e[0] == 0 {
    } else if Attr(e) == AM_LFN && e[0] as int != DDE {
      SegmentJudged(es, w, up, s, i);
    } else {
      NoSegment(es, w, up, s, i);
    }
  }

  /** The last segment of a run, and the run without it. */
  lemma RunEnds(es: seq<seq<byte>>, w: Wanted, up: wchar -> wchar, k: nat, i: nat, o: nat, sum: byte)
    requires Table(es) && Proper(w) && i < |es| && SegmentRun(es, w, up, k, i + 1, o, sum)
    ensures Segment(es[i], w, up, o + 1, sum, k == i) && (k < i ==> SegmentRun(es, w, up, k, i, o + 1, sum))
  {
    hide Segment;
    if k < i {
      forall j: nat | k <= j < i ensures Segment(es[j], w, up, o + 1 + (i - j), sum, j == k) {
        assert o + 1 + (i - j) == o + (i + 1 - j);
      }
    }
  }

  lemma RunGrows(es: seq<seq<byte>>, w: Wanted, up: wchar -> wchar, k: nat, i: nat, o: nat, sum: byte)
    requires Table(es) && Proper(w) && i < |es| && w.withLfn && Segment(es[i], w, up, o + 1, sum, k == i)
    requires k == i || SegmentRun(es, w, up, k, i, o + 1, sum)
    ensures SegmentRun(es, w, up, k, i + 1, o, sum)
  {
    hide Segment;
    forall j: nat | k <= j < i + 1 ensures Segment(es[j], w, up, o + (i + 1 - j), sum, j == k) {
      assert o + 1 + (i - j) == o + (i + 1 - j);
    }
  }

  /** An entry that is no segment ends every run. */
  lemma NoSegment(es: seq<seq<byte>>, w: Wanted, up: wchar -> wchar, s: Seek, i: nat)
    requires Table(es) && Proper(w) && i < |es| <= 0x1_0000 && Knows(es, w, up, s, i)
    requires es[i][0] != 0 && (es[i][0] as int == DDE || Attr(es[i]) != AM_LFN)
    ensures match Judge(es[i], w, up, s, i)
            case EndMark => false
            case Next(s') => !Target(es, w, up, i) && Knows(es, w, up, s', i + 1)
            case Hit(idx) =>
              && Target(es, w, up, i)
              && if idx == 0xFFFF then !w.loss && es[i][..11] == w.sfn
                 else SegmentRun(es, w, up, idx, i, 0, SumSfn(es[i]))
  {
    OtherJudged(es[i], w, up, s, i);
    hide *;
    NoRunBehind(es, w, up, i, i + 1);
    OpenRun(es, w, up, s, i, SumSfn(es[i]));
    BehindRuns(es, w, up, i + 1);
    TargetIs(es, w, up, i);
  }

  /** An entry that is neither zero nor a segment. */
  lemma OtherJudged(e: seq<byte>, w: Wanted, up: wchar -> wchar, s: Seek, i: nat)
    requires |e| == 32 && Proper(w) && e[0] != 0 && (e[0] as int == DDE || Attr(e) != AM_LFN)
    ensures var v := Judge(e, w, up, s, i);
            if e[0] == 0xE5 || e[11] / 8 % 2 == 1 then v == Next(s.(ord := NO_ORD))
            else if s.ord == 0 && s.sum == SumSfn(e) then v == Hit(s.idx)
            else if !w.loss && e[..11] == w.sfn then v == Hit(0xFFFF)
            else v == Next(Seek(NO_ORD, s.sum, NO_LFN))
  {
    LabelBit(e);
    hide SumSfn, Matches, Attr;
  }

  lemma LabelBit(e: seq<byte>)
    requires |e| == 32
    ensures Attr(e) / 8 % 2 == e[11] / 8 % 2 && AM_LFN / 8 % 2 == 1
  {
    var q: nat, r: nat := e[11] / 0x40, e[11] % 0x40;
    assert e[11] == 0x40 * q + r && e[11] as int / 8 == 8 * q + r / 8;
  }

  /** The run that ends in front of entry `i` is the one the search has open. */
  lemma OpenRun(es: seq<seq<byte>>, w: Wanted, up: wchar -> wchar, s: Seek, i: nat, sum: byte)
    requires Table(es) && Proper(w) && Knows(es, w, up, s, i)
    ensures RunTo(es, w, up, i, sum) <==> s.ord == 0 && s.sum == sum
    ensures s.ord == 0 && s.sum == sum ==> SegmentRun(es, w, up, s.idx, i, 0, sum) && s.idx < i
  {
    hide SegmentRun;
    if s.ord == 0 && s.sum == sum {
      RunBegins(es, w, up, s.idx, i, 0, sum);
    }
  }

  lemma BehindRuns(es: seq<seq<byte>>, w: Wanted, up: wchar -> wchar, i: nat)
    requires Table(es) && Proper(w)
    requires forall k: nat, o: nat, sum: byte :: !SegmentRun(es, w, up, k, i, o, sum)
    ensures forall s: Seek | s.ord == NO_ORD :: Knows(es, w, up, s, i)
  {
    hide SegmentRun;
  }

  lemma TargetIs(es: seq<seq<byte>>, w: Wanted, up: wchar -> wchar, i: nat)
    requires Table(es) && Proper(w) && i < |es|
    ensures Target(es, w, up, i) <==>
              && es[i][0] != 0 && es[i][0] != 0xE5 && es[i][11] / 8 % 2 == 0
              && (RunTo(es, w, up, i, SumSfn(es[i])) || (!w.loss && es[i][..11] == w.sfn))
  {
    hide SumSfn, SegmentRun;
  }

  lemma NoRunBehind(es: seq<seq<byte>>, w: Wanted, up: wchar -> wchar, i: nat, next: nat)
    requires Table(es) && Proper(w) && i < |es| && next == i + 1
    requires es[i][0] as int == DDE || Attr(es[i]) != AM_LFN
    ensures forall k: nat, o: nat, sum: byte :: !SegmentRun(es, w, up, k, next, o, sum)
  {
    hide Matches, SegmentRun;
    forall k: nat, o: nat, sum: byte ensures !SegmentRun(es, w, up, k, next, o, sum) {
      if SegmentRun(es, w, up, k, next, o, sum) {
        RunEnds(es, w, up, k, i, o, sum);
        assert false;
      }
    }
  }

  lemma RunBegins(es: seq<seq<byte>>, w: Wanted, up: wchar -> wchar, k: nat, i: nat, o: nat, sum: byte)
    requires Table(es) && Proper(w) && SegmentRun(es, w, up, k, i, o, sum)
    ensures k < i <= |es| && w.withLfn
  {
  }

  lemma SegmentJudged(es: seq<seq<byte>>, w: Wanted, up: wchar -> wchar, s: Seek, i: nat)
    requires Table(es) && Proper(w) && i < |es| <= 0x1_0000 && Knows(es, w, up, s, i)
    requires es[i][0] != 0 && es[i][0] as int != DDE && Attr(es[i]) == AM_LFN
    ensures var v := Judge(es[i], w, up, s, i); v.Next? && !Target(es, w, up, i) && Knows(es, w, up, v.s, i + 1)
  {
    var e, v := es[i], Judge(es[i], w, up, s, i);
    assert e[11] / 8 % 2 == 1;
    JudgedSegment(e, w, up, s, i);
    hide Judge, SumSfn, Matches, SegmentRun, Segment;
    if s.ord != NO_ORD {
      RunBegins(es, w, up, s.idx, i, s.ord, s.sum);
    }
    if w.withLfn && v.s.ord != NO_ORD {
      RunGrows(es, w, up, v.s.idx, i, v.s.ord, v.s.sum);
    }
    forall k: nat, o: nat, sum: byte | SegmentRun(es, w, up, k, i + 1, o, sum) ensures v.s == Seek(o, sum, k) {
      RunBegins(es, w, up, k, i + 1, o, sum);
      RunEnds(es, w, up, k, i, o, sum);
      SegmentNext(e, w, up, s, i, o, sum, k);
    }
  }

  /** A sequence that is open behind a long name entry has that entry as its last segment. */
  lemma JudgedSegment(e: seq<byte>, w: Wanted, up: wchar -> wchar, s: Seek, i: nat)
    requires |e| == 32 && Proper(w) && e[0] != 0 && e[0] as int != DDE && Attr(e) == AM_LFN
    ensures Judge(e, w, up, s, i).Next?
    ensures !w.withLfn ==> Judge(e, w, up, s, i).s == s
    ensures var t := Judge(e, w, up, s, i).s;
            w.withLfn && t.ord != NO_ORD ==>
              (t.idx == i && Segment(e, w, up, t.ord + 1, t.sum, true))
              || (s == Seek(t.ord + 1, t.sum, t.idx) && Segment(e, w, up, t.ord + 1, t.sum, false))
  {
    hide Matches;
    if w.withLfn && Judge(e, w, up, s, i).s.ord != NO_ORD {
      assert Matches(e, w.lfn, up);
      MatchingOrder(e, w.lfn, up);
      if e[0] / 0x40 % 2 == 1 {
        FirstSegment(e, w, up, s, i);
      } else {
        LaterSegment(e, w, up, s, i);
      }
    }
  }

  lemma FirstSegment(e: seq<byte>, w: Wanted, up: wchar -> wchar, s: Seek, i: nat)
    requires |e| == 32 && Proper(w) && Attr(e) == AM_LFN && w.withLfn && Matches(e, w.lfn, up)
    requires 0x41 <= e[0] <= 0x40 + 20
    ensures Judge(e, w, up, s, i) == Next(Seek(e[0] - 0x41, e[13], i))
    ensures Segment(e, w, up, e[0] - 0x40, e[13], true)
  {
    hide Matches;
  }

  lemma LaterSegment(e: seq<byte>, w: Wanted, up: wchar -> wchar, s: Seek, i: nat)
    requires |e| == 32 && Proper(w) && Attr(e) == AM_LFN && w.withLfn && 1 <= e[0] <= 20
    requires Judge(e, w, up, s, i).Next? && Judge(e, w, up, s, i).s.ord != NO_ORD
    ensures var t := Judge(e, w, up, s, i).s;
            s == Seek(t.ord + 1, t.sum, t.idx) && Segment(e, w, up, t.ord + 1, t.sum, false)
  {
    hide Matches;
  }

  /** Behind a segment the sequence is open: begun by the first one, or gone on with. */
  lemma SegmentNext(e: seq<byte>, w: Wanted, up: wchar -> wchar, s: Seek, i: nat, o: nat, sum: byte, k: nat)
    requires |e| == 32 && Proper(w) && w.withLfn && Segment(e, w, up, o + 1, sum, k == i)
    requires k == i || s == Seek(o + 1, sum, k)
    ensures Judge(e, w, up, s, i) == Next(Seek(o, sum, k))
  {
    hide Matches;
  }

  /** Only the orders 1 to 20 can match: the buffer has no more segments. */
  lemma MatchingOrder(e: seq<byte>, b: seq<wchar>, up: wchar -> wchar)
    requires |e| == 32 && |b| == MAX_LFN + 1 && Matches(e, b, up)
    ensures 1 <= (if e[0] / 0x40 % 2 == 1 then e[0] - 0x40 else e[0]) <= 20
  {
  }

  // ----- letter case -----

  /** Searches for names that differ in letter case only are the same. */
  lemma {:induction false} CaseBlind(es: seq<seq<byte>>, w: Wanted, v: Wanted, up: wchar -> wchar, s: Seek, i: nat)
    requires Table(es) && Proper(w) && Proper(v) && CaseMap(up) && i <= |es|
    requires v.sfn == w.sfn && v.loss == w.loss && v.withLfn == w.withLfn
    requires forall p | 0 <= p < |w.lfn| :: up(w.lfn[p]) == up(v.lfn[p])
    ensures Scan(es, w, up, s, i) == Scan(es, v, up, s, i)
    decreases |es| - i
  {
    hide CmpFrom, SumSfn;
    if i < |es| {
      CmpBlind(es[i], w.lfn, v.lfn, up, CmpBase(es[i][0]), 0, 1);
      assert Judge(es[i], w, up, s, i) == Judge(es[i], v, up, s, i);
      hide Judge;
      if Judge(es[i], w, up, s, i).Next? {
        CaseBlind(es, w, v, up, Judge(es[i], w, up, s, i).s, i + 1);
      }
    }
  }

  lemma {:induction false} CmpBlind(e: seq<byte>, b: seq<wchar>, b': seq<wchar>, up: wchar -> wchar, i: nat, s: nat,
                                    wc: wchar)
    requires |e| == 32 && |b| == |b'| == MAX_LFN + 1 && s <= 13 && CaseMap(up)
    requires forall p | 0 <= p < |b| :: up(b[p]) == up(b'[p])
    ensures CmpFrom(e, b, up, i, s, wc) == CmpFrom(e, b', up, i, s, wc)
    decreases 13 - s
  {
    if s < 13 {
      var uc: wchar := LdWord(e, LfnOfs(s));
      if wc != 0 {
        CmpBlind(e, b, b', up, i + 1, s + 1, up(uc));
      } else {
        CmpBlind(e, b, b', up, i, s + 1, 0);
      }
    } else if i <= MAX_LFN {
      assert up(b[i]) == up(b'[i]);
    }
  }

  // ----- the 8.3 form alone -----

  /** A search for an 8.3 form and nothing else, as dir_register makes it for its candidates. */
  function ShortOnly(w: Wanted, sfn: seq<byte>): Wanted {
    w.(sfn := sfn, loss := false, withLfn := false)
  }

  /** Where a search for a name finds nothing, a search for its 8.3 form finds nothing, if that form stands for it. */
  lemma {:induction false} ShortAbsent(es: seq<seq<byte>>, w: Wanted, up: wchar -> wchar, s: Seek, t: Seek, i: nat)
    requires Table(es) && Proper(w) && i <= |es| && !w.loss && t.ord != 0 && Scan(es, w, up, s, i) == NotFound
    ensures Scan(es, ShortOnly(w, w.sfn), up, t, i) == NotFound
    decreases |es| - i
  {
    hide Matches, SumSfn;
    if i < |es| {
      ShortPasses(es[i], w, up, s, t, i);
      hide Judge, ShortOnly;
      var v := ShortOnly(w, w.sfn);
      if Judge(es[i], w, up, s, i).Next? {
        ShortAbsent(es, w, up, Judge(es[i], w, up, s, i).s, Judge(es[i], v, up, t, i).s, i + 1);
      }
    }
  }

  lemma ShortPasses(e: seq<byte>, w: Wanted, up: wchar -> wchar, s: Seek, t: Seek, i: nat)
    requires |e| == 32 && Proper(w) && !w.loss && t.ord != 0 && !Judge(e, w, up, s, i).Hit?
    ensures var u := Judge(e, ShortOnly(w, w.sfn), up, t, i);
            if Judge(e, w, up, s, i).EndMark? then u.EndMark? else u.Next? && u.s.ord != 0
  {
    hide Matches, SumSfn;
  }

  /** A registered name is found by its 8.3 form alone: the search passes over the segments of the long name. */
  lemma ShortFound(es: seq<seq<byte>>, fs: seq<seq<byte>>, k: nat, n: nat, w: Wanted, sfn: seq<byte>,
                   name: seq<wchar>, up: wchar -> wchar)
    requires Table(es) && Table(fs) && Proper(w) && Proper(w.(sfn := sfn)) && ZeroTail(es) && FreeRun(es, n, k)
             && |fs| == |es|
    requires Scan(es, ShortOnly(w, sfn), up, FRESH, 0) == NotFound
    requires Registered(fs, k, n, w.(sfn := sfn), name)
    requires SameBut(es, fs, k, n)
    ensures var found := Scan(fs, ShortOnly(w, sfn), up, FRESH, 0); found.Found? && found.at == k + n - 1
  {
    RunInside(es, n, k);
    var v := ShortOnly(w, sfn);
    assert Registered(fs, k, n, v, name) && !v.loss && Proper(v) && !v.withLfn by {
      hide SegmentAt, SumSfn, Nameable, InBuffer, IsShort;
    }
    hide *;
    NoZeroBefore(es, n, k);
    var t := ScanReaches(es, fs, v, up, FRESH, 0, k);
    SegmentsPassed(fs, k, n, v, name, up, t, 0);
    ShortHit(fs, k, n, v, name, up, t);
  }

  lemma {:induction false} SegmentsPassed(es: seq<seq<byte>>, k: nat, n: nat, v: Wanted, name: seq<wchar>,
                                          up: wchar -> wchar, s: Seek, j: nat)
    requires Table(es) && Proper(v) && Registered(es, k, n, v, name) && !v.withLfn && j < n
    ensures Scan(es, v, up, s, k + j) == Scan(es, v, up, s, k + n - 1)
    decreases n - j
  {
    hide SegmentAt, SumSfn, Nameable, InBuffer, IsShort, Judge;
    if j < n - 1 {
      assert SegmentAt(es[k + j], 0, name, n - 1 - j, SumSfn(v.sfn));
      SegmentPassed(es[k + j], name, n - 1 - j, SumSfn(v.sfn), v, up, s, k + j);
      SegmentsPassed(es, k, n, v, name, up, s, j + 1);
    }
  }

  lemma SegmentPassed(e: seq<byte>, name: seq<wchar>, ord: nat, sum: byte, v: Wanted, up: wchar -> wchar, s: Seek,
                      i: nat)
    requires |e| == 32 && Proper(v) && !v.withLfn
    requires Order(name, ord) && Nameable(name) && SegmentAt(e, 0, name, ord, sum)
    ensures Judge(e, v, up, s, i) == Next(s)
  {
    hide LdWord, Matches, SumSfn, Char;
  }

  // ----- tables that grow -----

  function Zeros32(): (e: seq<byte>)
    ensures |e| == 32
  {
    seq(32, i => 0)
  }

  /** `fs` is `es` with zero entries behind it. */
  predicate Extended(es: seq<seq<byte>>, fs: seq<seq<byte>>) {
    |es| <= |fs| && fs[..|es|] == es && forall i | |es| <= i < |fs| :: fs[i] == Zeros32()
  }

  lemma ExtendedFacts(es: seq<seq<byte>>, fs: seq<seq<byte>>)
    requires Table(es) && Extended(es, fs)
    ensures Table(fs) && (ZeroTail(es) ==> ZeroTail(fs)) && forall i | 0 <= i < |es| :: fs[i] == es[i]
  {
    forall i | 0 <= i < |es| ensures fs[i] == es[i] {
      assert fs[..|es|][i] == fs[i];
    }
  }

  lemma ExtendedOn(es: seq<seq<byte>>, fs: seq<seq<byte>>, gs: seq<seq<byte>>)
    requires Extended(es, fs) && Extended(fs, gs)
    ensures Extended(es, gs)
  {
    assert gs[..|es|] == gs[..|fs|][..|es|];
    forall i | |es| <= i < |gs| ensures gs[i] == Zeros32() {
      if i < |fs| {
        assert gs[..|fs|][i] == gs[i];
      }
    }
  }

  /** What is not found in a table is not found behind it in zero entries. */
  lemma {:induction false} ScanExtended(es: seq<seq<byte>>, fs: seq<seq<byte>>, w: Wanted, up: wchar -> wchar,
                                        s: Seek, i: nat)
    requires Table(es) && Table(fs) && Proper(w) && i <= |es| && Extended(es, fs) && Scan(es, w, up, s, i) == NotFound
    ensures Scan(fs, w, up, s, i) == NotFound
    decreases |es| - i
  {
    hide Matches, SumSfn;
    if i < |es| {
      ExtendedFacts(es, fs);
      hide Judge;
      if Judge(es[i], w, up, s, i).Next? {
        ScanExtended(es, fs, w, up, Judge(es[i], w, up, s, i).s, i + 1);
      }
    } else if i < |fs| {
      assert fs[i][0] == 0;
    }
  }
}
