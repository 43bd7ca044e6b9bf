/** Long file names cut into directory entries of 13 characters: fit_lfn, pick_lfn, cmp_lfn, sum_sfn. */
module Lfn {
  import opened Bytes

  type wchar = x: nat | x < 0x1_0000

  const MAX_LFN: nat := 255   // ffconf.h, _MAX_LFN; the buffer has one element more
  const LLE: nat := 0x40      // last long entry flag
  const AM_LFN: nat := 0x0F
  const DDE: byte := 0xE5     // mark of a deleted entry, in its first byte

  /** Offset of character `s` in an entry. */
  function LfnOfs(s: nat): (o: nat)
    requires s < 13
    ensures 1 <= o <= 30
  {
    if s < 5 then 1 + 2 * s else if s < 11 then 4 + 2 * s else 6 + 2 * s
  }

  /** Character `p` of a name as it is stored: a zero behind the last one, then fillers. */
  function Char(name: seq<wchar>, p: nat): wchar {
    if p < |name| then name[p] else if p == |name| then 0 else 0xFFFF
  }

  /** Number of entries a name takes. */
  function SegmentCount(n: nat): nat {
    (n + 12) / 13
  }

  /** Names the functions are called with: not empty, at most 255 characters, neither 0 nor the filler in them. */
  predicate Nameable(name: seq<wchar>) {
    1 <= |name| <= MAX_LFN && forall i | 0 <= i < |name| :: name[i] != 0 && name[i] != 0xFFFF
  }

  /** A name in the buffer, terminated unless it fills it. */
  predicate InBuffer(b: seq<wchar>, name: seq<wchar>) {
    |b| == MAX_LFN + 1 && |name| <= MAX_LFN && b[..|name|] == name && b[|name|] == 0
  }

  /** The order byte of segment `ord`: only the highest one is marked. */
  function OrderByte(n: nat, ord: nat): nat {
    if ord == SegmentCount(n) then ord + LLE else ord
  }

  /** The entry at offset `o` of `w` is segment `ord` of the name. */
  ghost predicate SegmentAt(w: seq<byte>, o: nat, name: seq<wchar>, ord: nat, sum: byte)
    requires ord >= 1
  {
    && o + 32 <= |w|
    && w[o] as int == OrderByte(|name|, ord) && w[o + 11] as int == AM_LFN && w[o + 12] == 0 && w[o + 13] == sum
    && LdWord(w, o + 26) == 0
    && forall s: nat | s < 13 :: LdWord(w, o + LfnOfs(s)) == Char(name, (ord - 1) * 13 + s)
  }

  /** Where the thirteen characters are: in bytes 1 to 10, 14 to 25 and 28 to 31. */
  lemma Offsets()
    ensures LfnOfs(0) == 1 && LfnOfs(1) == 3 && LfnOfs(2) == 5 && LfnOfs(3) == 7 && LfnOfs(4) == 9
    ensures LfnOfs(5) == 14 && LfnOfs(6) == 16 && LfnOfs(7) == 18 && LfnOfs(8) == 20 && LfnOfs(9) == 22
    ensures LfnOfs(10) == 24 && LfnOfs(11) == 28 && LfnOfs(12) == 30
  {
  }

  /** The one segment of the name abc, byte by byte: first of its name and last, filled up behind its end. */
  lemma SegmentBytes(w: seq<byte>, sum: byte)
    requires |w| == 32 && SegmentAt(w, 0, [0x61, 0x62, 0x63], 1, sum)
    ensures w == [0x41, 0x61, 0, 0x62, 0, 0x63, 0, 0, 0, 0xFF, 0xFF, 0x0F, 0, sum, 0xFF, 0xFF, 0xFF, 0xFF, 0xFF, 0xFF,
                  0xFF, 0xFF, 0xFF, 0xFF, 0xFF, 0xFF, 0, 0, 0xFF, 0xFF, 0xFF, 0xFF]
  {
    var name: seq<wchar> := [0x61, 0x62, 0x63];
    Offsets();
    hide LdWord;
    forall s: nat | s < 13 ensures LdWord(w, LfnOfs(s)) == Char(name, s) {
      assert LdWord(w, 0 + LfnOfs(s)) == Char(name, (1 - 1) * 13 + s);
    }
    forall s: nat | s < 13
      ensures w[LfnOfs(s)] as int == Char(name, s) % 0x100 && w[LfnOfs(s) + 1] as int == Char(name, s) / 0x100
    {
      WordBytes(w, LfnOfs(s), Char(name, s));
    }
    WordBytes(w, 26, 0);
    hide *;
  }

  lemma WordBytes(w: seq<byte>, o: nat, v: nat)
    requires o + 2 <= |w| && LdWord(w, o) == v
    ensures w[o] as int == v % 0x100 && w[o + 1] as int == v / 0x100
  {
  }

  /** Segment 2 of a name of 14 characters carries the mark, segment 1 does not; a name takes one entry for each 13. */
  lemma SegmentOrders(n: nat)
    ensures OrderByte(14, 2) == 0x42 && OrderByte(14, 1) == 1 && OrderByte(255, 20) == 0x54 && OrderByte(13, 1) == 0x41
    ensures 13 * SegmentCount(n) >= n && (n > 0 ==> 13 * (SegmentCount(n) - 1) < n) && SegmentCount(0) == 0
  {
  }

  /** Segment numbers of a name. */
  predicate Order(name: seq<wchar>, ord: nat) {
    1 <= ord <= SegmentCount(|name|)
  }

  /** ST_WORD into an array. */
  method StoreWord(dir: array<byte>, o: nat, v: nat)
    requires o + 2 <= dir.Length && v < 0x1_0000
    modifies dir
    ensures LdWord(dir[..], o) == v
    ensures forall i | 0 <= i < dir.Length && i != o && i != o + 1 :: dir[i] == old(dir[i])
    ensures forall k: nat | k + 2 <= dir.Length && (k + 2 <= o || o + 2 <= k) ::
              LdWord(dir[..], k) == LdWord(old(dir[..]), k)
  {
    dir[o] := v % 0x100;
    dir[o + 1] := v / 0x100;
  }

  /** fit_lfn: segment `ord` of the name into the entry at `o`. */
  method FitLfn(lfnbuf: seq<wchar>, dir: array<byte>, o: nat, ord: nat, sum: byte, ghost name: seq<wchar>)
    requires Nameable(name) && InBuffer(lfnbuf, name) && Order(name, ord) && o + 32 <= dir.Length
    modifies dir
    ensures SegmentAt(dir[..], o, name, ord, sum)
    ensures forall i | 0 <= i < dir.Length && !(o <= i < o + 32) :: dir[i] == old(dir[i])
  {
    dir[o + 13] := sum;
    dir[o + 11] := 0x0F;
    dir[o + 12] := 0;
    StoreWord(dir, o + 26, 0);
    hide LdWord, SegmentAt;
    ghost var base := (ord - 1) * 13;
    var i := (ord - 1) * 13;
    var s: nat, wc: nat := 0, 0;
    while s < 13
      invariant s <= 13
      invariant if base + s <= |name| then i == base + s && wc != 0xFFFF else wc == 0xFFFF && i == |name| + 1
      invariant dir[o + 13] == sum && dir[o + 11] == 0x0F && dir[o + 12] == 0 && LdWord(dir[..], o + 26) == 0
      invariant forall t: nat | t < s :: LdWord(dir[..], o + LfnOfs(t)) == Char(name, base + t)
      invariant forall j | 0 <= j < dir.Length && !(o <= j < o + 32) :: dir[j] == old(dir[j])
    {
      if wc != 0xFFFF {
        wc := lfnbuf[i];
        i := i + 1;
      }
      StoreWord(dir, o + LfnOfs(s), wc);
      if wc == 0 {
        wc := 0xFFFF;
      }
      s := s + 1;
    }
    var last := ord;
    if wc == 0xFFFF || lfnbuf[i] == 0 {
      last := ord + LLE;
    }
    ghost var w := dir[..];
    dir[o] := last;
    SegmentMade(w, dir[..], o, name, ord, sum);
  }

  lemma SegmentMade(w: seq<byte>, w': seq<byte>, o: nat, name: seq<wchar>, ord: nat, sum: byte)
    requires ord >= 1 && o + 32 <= |w| == |w'| && w' == w[o := w'[o]] && w'[o] as int == OrderByte(|name|, ord)
    requires w[o + 11] as int == AM_LFN && w[o + 12] == 0 && w[o + 13] == sum && LdWord(w, o + 26) == 0
    requires forall s: nat | s < 13 :: LdWord(w, o + LfnOfs(s)) == Char(name, (ord - 1) * 13 + s)
    ensures SegmentAt(w', o, name, ord, sum)
  {
    forall s: nat | s < 13 ensures LdWord(w', o + LfnOfs(s)) == LdWord(w, o + LfnOfs(s)) {
    }
  }

  // ----- comparing -----

  /** ff_wtoupper, of which only this matters: zero and nothing else becomes zero. */
  ghost predicate CaseMap(up: wchar -> wchar) {
    up(0) == 0 && forall c: wchar | c != 0 :: up(c) != 0
  }

  /** Name and buffer agree from position `f` up to position `t`, as far as the name goes. */
  ghost predicate AgreesOn(a: seq<wchar>, b: seq<wchar>, up: wchar -> wchar, f: nat, t: nat)
    requires |b| == MAX_LFN + 1
  {
    forall p: nat | f <= p < t && p <= |a| :: p < MAX_LFN && up(Char(a, p)) == up(b[p])
  }

  /** Segment `ord` of name `a` agrees with the buffer `b` as far as the name goes, and a name that ends with its last
      segment ends in the buffer too. */
  ghost predicate Agrees(a: seq<wchar>, b: seq<wchar>, ord: nat, up: wchar -> wchar)
    requires |b| == MAX_LFN + 1 && Nameable(a)
  {
    ord >= 1 && AgreesOn(a, b, up, (ord - 1) * 13, ord * 13) && (|a| == ord * 13 ==> b[|a|] == 0)
  }

  /** Where an entry with order byte `c` belongs in the buffer; order 0 wraps around. */
  function CmpBase(c: byte): nat {
    var u := if c as int / LLE % 2 == 1 then c as int - LLE else c as int;
    if u == 0 then 0xFFFF_FFF3 else (u - 1) * 13
  }

  /** cmp_lfn from character `s` of entry `e` on, at place `i` of the buffer; `wc` is the last character seen. */
  function CmpFrom(e: seq<byte>, b: seq<wchar>, up: wchar -> wchar, i: nat, s: nat, wc: wchar): bool
    requires |e| == 32 && |b| == MAX_LFN + 1 && s <= 13
    decreases 13 - s
  {
    if s == 13 then !(e[0] as int / LLE % 2 == 1 && wc != 0 && i <= MAX_LFN && b[i] != 0)
    else
      var uc: wchar := LdWord(e, LfnOfs(s));
      if wc != 0 then i < MAX_LFN && up(uc) == up(b[i]) && CmpFrom(e, b, up, i + 1, s + 1, up(uc))
      else uc == 0xFFFF && CmpFrom(e, b, up, i, s + 1, 0)
  }

  /** Entry `e` agrees with the name in the buffer. */
  function Matches(e: seq<byte>, b: seq<wchar>, up: wchar -> wchar): bool
    requires |e| == 32 && |b| == MAX_LFN + 1
  {
    CmpFrom(e, b, up, CmpBase(e[0]), 0, 1)
  }

  /** cmp_lfn. */
  method CmpLfn(lfnbuf: seq<wchar>, dir: array<byte>, o: nat, up: wchar -> wchar) returns (r: bool)
    requires |lfnbuf| == MAX_LFN + 1 && o + 32 <= dir.Length
    ensures r == Matches(dir[o..o + 32], lfnbuf, up)
  {
    hide LdWord, LfnOfs, CmpBase;
    var e := dir[o..o + 32];
    var i: nat := CmpBase(e[0]);
    var s: nat, wc: wchar := 0, 1;
    while s < 13
      invariant s <= 13 && (wc != 0 && s > 0 ==> i <= MAX_LFN)
      invariant Matches(e, lfnbuf, up) == CmpFrom(e, lfnbuf, up, i, s, wc)
    {
      var uc: wchar := LdWord(e, LfnOfs(s));
      if wc != 0 {
        wc := up(uc);
        if i >= MAX_LFN || wc != up(lfnbuf[i]) {
          return false;
        }
        i := i + 1;
      } else if uc != 0xFFFF {
        return false;
      }
      s := s + 1;
    }
    r := !(e[0] as int / LLE % 2 == 1 && wc != 0 && lfnbuf[i] != 0);
  }

  /** On a segment of a stored name cmp_lfn checks agreement. */
  lemma SegmentMatches(w: seq<byte>, o: nat, a: seq<wchar>, ord: nat, sum: byte, b: seq<wchar>, up: wchar -> wchar)
    requires CaseMap(up) && |b| == MAX_LFN + 1 && Nameable(a) && Order(a, ord) && SegmentAt(w, o, a, ord, sum)
    ensures Matches(w[o..o + 32], b, up) <==> Agrees(a, b, ord, up)
  {
    var e := w[o..o + 32];
    assert e[0] == w[o];
    hide CmpFrom, AgreesOn;
    forall s: nat | s < 13 ensures LdWord(e, LfnOfs(s)) == Char(a, (ord - 1) * 13 + s) {
      assert LdWord(w, o + LfnOfs(s)) == Char(a, (ord - 1) * 13 + s);
    }
    SegmentMatchesFrom(e, a, ord, b, up, (ord - 1) * 13, 0, 1);
    assert CmpBase(e[0]) == (ord - 1) * 13;
  }

  /** One position more. */
  lemma AgreesNext(a: seq<wchar>, b: seq<wchar>, up: wchar -> wchar, f: nat, t: nat)
    requires |b| == MAX_LFN + 1
    ensures f < t ==> (AgreesOn(a, b, up, f, t) <==>
              (f <= |a| ==> f < MAX_LFN && up(Char(a, f)) == up(b[f])) && AgreesOn(a, b, up, f + 1, t))
    ensures f == t ==> AgreesOn(a, b, up, f, t)
  {
    hide Char;
    if f < t && AgreesOn(a, b, up, f + 1, t) && (f <= |a| ==> f < MAX_LFN && up(Char(a, f)) == up(b[f])) {
      forall p: nat | f <= p < t && p <= |a| ensures p < MAX_LFN && up(Char(a, p)) == up(b[p]) {
        var c := Char(a, p);
      }
    }
  }

  /** At the end of the segment: the last segment of a name that fills it must end in the buffer too. */
  lemma SegmentEnds(e: seq<byte>, a: seq<wchar>, ord: nat, b: seq<wchar>, up: wchar -> wchar, i: nat, wc: wchar)
    requires |b| == MAX_LFN + 1 && Nameable(a) && Order(a, ord) && |e| == 32
    requires e[0] as int == OrderByte(|a|, ord)
    requires if ord * 13 <= |a| then i == ord * 13 && wc != 0 else wc == 0
    ensures CmpFrom(e, b, up, i, 13, wc) <==> (|a| == ord * 13 ==> b[|a|] == 0)
  {
  }

  lemma {:induction false} SegmentMatchesFrom(e: seq<byte>, a: seq<wchar>, ord: nat, b: seq<wchar>,
                                              up: wchar -> wchar, i: nat, s: nat, wc: wchar)
    requires CaseMap(up) && |b| == MAX_LFN + 1 && Nameable(a) && Order(a, ord) && |e| == 32 && s <= 13
    requires e[0] as int == OrderByte(|a|, ord) && forall t: nat | t < 13 ::
             LdWord(e, LfnOfs(t)) == Char(a, (ord - 1) * 13 + t)
    requires if (ord - 1) * 13 + s <= |a| then i == (ord - 1) * 13 + s && wc != 0 else wc == 0
    ensures CmpFrom(e, b, up, i, s, wc) <==>
              AgreesOn(a, b, up, (ord - 1) * 13 + s, ord * 13) && (|a| == ord * 13 ==> b[|a|] == 0)
    decreases 13 - s
  {
    hide LdWord, LfnOfs, AgreesOn, OrderByte;
    AgreesNext(a, b, up, (ord - 1) * 13 + s, ord * 13);
    if s == 13 {
      SegmentEnds(e, a, ord, b, up, i, wc);
    } else {
      var uc: wchar := LdWord(e, LfnOfs(s));
      assert uc == Char(a, (ord - 1) * 13 + s);
      if wc == 0 {
        SegmentMatchesFrom(e, a, ord, b, up, i, s + 1, 0);
      } else if i < MAX_LFN {
        SegmentMatchesFrom(e, a, ord, b, up, i + 1, s + 1, up(uc));
      }
    }
  }

  /** The names are equal but for case. */
  ghost predicate SameName(a: seq<wchar>, b: seq<wchar>, up: wchar -> wchar) {
    |a| == |b| && forall i | 0 <= i < |a| :: up(a[i]) == up(b[i])
  }

  /** All segments of a stored name agree with a name in the buffer if and only if the names are equal but for case;
      a name of 255 characters agrees with none, not even itself. */
  lemma AllAgree(a: seq<wchar>, b: seq<wchar>, buf: seq<wchar>, up: wchar -> wchar)
    requires CaseMap(up) && Nameable(a) && InBuffer(buf, b) && forall i | 0 <= i < |b| :: b[i] != 0
    ensures (forall ord: nat | Order(a, ord) :: Agrees(a, buf, ord, up)) <==> |a| < 255 && SameName(a, b, up)
  {
    if forall ord: nat | Order(a, ord) :: Agrees(a, buf, ord, up) {
      AgreeingNames(a, b, buf, up);
    }
    if |a| < MAX_LFN && SameName(a, b, up) {
      assert forall i | 0 <= i < |b| :: buf[..|b|][i] == b[i];
      forall ord: nat | Order(a, ord) ensures Agrees(a, buf, ord, up) {
      }
    }
  }

  lemma AgreeingNames(a: seq<wchar>, b: seq<wchar>, buf: seq<wchar>, up: wchar -> wchar)
    requires CaseMap(up) && Nameable(a) && InBuffer(buf, b) && forall i | 0 <= i < |b| :: b[i] != 0
    requires forall ord: nat | Order(a, ord) :: Agrees(a, buf, ord, up)
    ensures |a| < MAX_LFN && SameName(a, b, up)
  {
    assert forall i | 0 <= i < |b| :: buf[..|b|][i] == b[i];
    forall p: nat | p < |a| ensures up(a[p]) == up(buf[p]) && p < MAX_LFN {
      SegmentOf(a, p);
      assert Agrees(a, buf, p / 13 + 1, up);
    }
    var last := SegmentCount(|a|);
    assert Order(a, last) && Agrees(a, buf, last, up);
    assert (last - 1) * 13 <= |a| && up(0) == 0;
    assert |a| < last * 13 ==> up(buf[|a|]) == 0;
    assert buf[|b|] == 0;
  }

  lemma SegmentOf(a: seq<wchar>, p: nat)
    requires p < |a|
    ensures Order(a, p / 13 + 1) && p / 13 * 13 <= p < (p / 13 + 1) * 13
  {
  }

  // ----- reading back -----

  /** pick_lfn: fails only on the last segment of a name that leaves no room for the terminator it always adds. */
  method PickLfn(lfnbuf: array<wchar>, dir: array<byte>, o: nat, ghost a: seq<wchar>, ghost ord: nat, ghost sum: byte)
    returns (ok: bool)
    requires lfnbuf.Length == MAX_LFN + 1 && Nameable(a) && Order(a, ord) && SegmentAt(dir[..], o, a, ord, sum)
    modifies lfnbuf
    ensures ok <==> ord < SegmentCount(|a|) || |a| <= 253
    ensures ok ==> forall p: nat | (ord - 1) * 13 <= p < ord * 13 && p < |a| :: lfnbuf[p] == a[p]
    ensures ok && ord == SegmentCount(|a|) ==> lfnbuf[|a|] == 0
    ensures ord < SegmentCount(|a|) ==> forall p: nat | p <= MAX_LFN && !((ord - 1) * 13 <= p < ord * 13) ::
            lfnbuf[p] == old(lfnbuf[p])
  {
    var c: nat := dir[o];
    ghost var base := (ord - 1) * 13;
    var i := (c % 0x40 - 1) * 13;
    assert i == base;
    var s: nat, wc: wchar := 0, 1;
    ok := true;
    while s < 13
      invariant s <= 13
      invariant if base + s <= |a| then i == base + s && wc != 0 else wc == 0 && i == |a| + 1
      invariant i <= MAX_LFN
      invariant forall p: nat | base <= p < base + s && p <= |a| :: lfnbuf[p] == Char(a, p)
      invariant forall p: nat | p <= MAX_LFN && !(base <= p < base + s) :: lfnbuf[p] == old(lfnbuf[p])
    {
      var uc: wchar := LdWord(dir[..], o + LfnOfs(s));
      assert uc == Char(a, base + s);
      if wc != 0 {
        if i >= MAX_LFN {
          return false;
        }
        wc := uc;
        lfnbuf[i] := uc;
        i := i + 1;
      } else if uc != 0xFFFF {
        return false;
      }
      s := s + 1;
    }
    if c / LLE % 2 == 1 {
      if i >= MAX_LFN {
        return false;
      }
      lfnbuf[i] := 0;
    }
  }

  /** All segments of a name one behind the other, the highest first, as dir_register stores them. */
  ghost predicate NameStored(dir: seq<byte>, name: seq<wchar>, sum: byte) {
    && 32 * SegmentCount(|name|) <= |dir|
    && forall k: nat | k < SegmentCount(|name|) :: SegmentAt(dir, 32 * k, name, SegmentCount(|name|) - k, sum)
  }

  method StoreName(lfnbuf: seq<wchar>, dir: array<byte>, sum: byte, ghost name: seq<wchar>)
    requires Nameable(name) && InBuffer(lfnbuf, name) && dir.Length >= 32 * SegmentCount(|name|)
    modifies dir
    ensures NameStored(dir[..], name, sum)
  {
    var n: nat := 0;
    while n < MAX_LFN && lfnbuf[n] != 0
      invariant n <= |name|
      invariant n < |name| ==> lfnbuf[..|name|][n] == lfnbuf[n]
    {
      n := n + 1;
      assert n < |name| ==> lfnbuf[..|name|][n] == lfnbuf[n];
    }
    assert n == |name|;
    var nent: nat := SegmentCount(n);
    ghost var all := nent;
    while nent > 0
      invariant nent <= all
      invariant forall k: nat | k < all - nent :: SegmentAt(dir[..], 32 * k, name, all - k, sum)
    {
      ghost var before := dir[..];
      FitLfn(lfnbuf, dir, 32 * (SegmentCount(n) - nent), nent, sum, name);
      forall k: nat | k < all - nent ensures SegmentAt(dir[..], 32 * k, name, all - k, sum) {
        SegmentKept(before, dir[..], 32 * k, name, all - k, sum);
      }
      nent := nent - 1;
    }
  }

  lemma SegmentKept(w: seq<byte>, w': seq<byte>, o: nat, name: seq<wchar>, ord: nat, sum: byte)
    requires ord >= 1 && SegmentAt(w, o, name, ord, sum) && |w'| == |w| && forall i | o <= i < o + 32 :: w'[i] == w[i]
    ensures SegmentAt(w', o, name, ord, sum)
  {
  }

  /** The segments read back as dir_read does: the name is rebuilt exactly when it has 253 characters or fewer. */
  method PickName(lfnbuf: array<wchar>, dir: array<byte>, ghost name: seq<wchar>, ghost sum: byte) returns (ok: bool)
    requires lfnbuf.Length == MAX_LFN + 1 && Nameable(name) && NameStored(dir[..], name, sum)
    modifies lfnbuf
    ensures ok <==> |name| <= 253
    ensures ok ==> InBuffer(lfnbuf[..], name)
  {
    hide LdWord, LfnOfs, Char, OrderByte;
    var k: nat := 0;
    ok := true;
    ghost var all := SegmentCount(|name|);
    var more := true;
    while more && ok
      invariant k <= all && (more <==> k < all) && ok
      invariant k > 0 ==> |name| < MAX_LFN - 1 && lfnbuf[|name|] == 0
      invariant forall p: nat | (all - k) * 13 <= p < |name| :: lfnbuf[p] == name[p]
      decreases all - k
    {
      assert SegmentAt(dir[..], 32 * k, name, all - k, sum);
      OrderOf(dir[32 * k], name, all - k);
      more := dir[32 * k] as int % 0x40 != 1;
      ok := PickLfn(lfnbuf, dir, 32 * k, name, all - k, sum);
      if !ok {
        return;
      }
      k := k + 1;
    }
    assert lfnbuf[..|name|] == name;
  }

  /** Segment 1 is the last one to be read. */
  lemma OrderOf(c: byte, name: seq<wchar>, ord: nat)
    requires Nameable(name) && Order(name, ord) && c == OrderByte(|name|, ord)
    ensures c % 0x40 != 1 <==> ord > 1
  {
  }

  /** Storing a name and reading it back: it comes back, exactly when it has 253 characters or fewer. */
  method EchoLongName(lfnbuf: seq<wchar>, sum: byte, ghost name: seq<wchar>) returns (ok: bool, read: array<wchar>)
    requires Nameable(name) && InBuffer(lfnbuf, name)
    ensures read.Length == 256 && (ok <==> |name| <= 253)
    ensures ok ==> InBuffer(read[..], name)
  {
    assert MAX_LFN == 255;
    hide *;
    var dir := new byte[MAX_LFN_BYTES](_ => 0);
    SegmentsBound(name);
    StoreName(lfnbuf, dir, sum, name);
    read := new wchar[MAX_LFN + 1](_ => 0);
    ok := PickName(read, dir, name, sum);
  }

  const MAX_LFN_BYTES: nat := 32 * 20

  lemma SegmentsBound(name: seq<wchar>)
    requires Nameable(name)
    ensures 32 * SegmentCount(|name|) <= MAX_LFN_BYTES
  {
  }
}
