/** gen_numname: short names with a number, for names that have no 8.3 form of their own. */
module NumNames {
  import opened Bytes
  import opened Lfn
  import ShortNames

  const TILDE: nat := 0x7E
  const BLANK: nat := 0x20

  // ----- the number -----

  /** `x` with the bit of weight `p` inverted. */
  function Flip(x: nat, p: nat): nat
    requires p in {1, 0x20, 0x1000}
  {
    if x / p % 2 == 1 then x - p else x + p
  }

  /** One bit into the checksum: shifted in, and reduced by the polynomial 0x11021 when bit 16 comes up. */
  function HashBit(sr: nat, bit: nat): (r: nat)
    requires sr < 0x1_0000 && bit < 2
    ensures r < 0x1_0000
  {
    var x := 2 * sr + bit;
    if x >= 0x1_0000 then Flip(Flip(Flip(x - 0x1_0000, 0x1000), 0x20), 1) else x
  }

  /** The bits of `wc` from bit `i` on. */
  function HashBits(sr: nat, wc: nat, i: nat): (r: nat)
    requires sr < 0x1_0000 && i <= 16
    ensures r < 0x1_0000
    decreases 16 - i
  {
    if i == 16 then sr else HashBits(HashBit(sr, wc % 2), wc / 2, i + 1)
  }

  /** The characters of the name from `k` on, up to its terminator. */
  function HashName(sr: nat, lfn: seq<wchar>, k: nat): (r: nat)
    requires sr < 0x1_0000 && k <= |lfn|
    ensures r < 0x1_0000
    decreases |lfn| - k
  {
    if k == |lfn| || lfn[k] == 0 then sr else HashName(HashBits(sr, lfn[k], 0), lfn, k + 1)
  }

  /** The number in candidate `n`: itself up to 5, then a checksum of the long name that starts from it. */
  function NumberFor(lfn: seq<wchar>, n: nat): (r: nat)
    requires n < 0x1_0000
    ensures r < 0x1_0000
  {
    if n > 5 then HashName(n, lfn, 0) else n
  }

  /** The numbers up to 5 are taken as they are; from 6 on a checksum of the name takes their place. */
  lemma NumberExamples(lfn: seq<wchar>, n: nat)
    requires n <= 5
    ensures NumberFor(lfn, n) == n
    ensures lfn == [0x61, 0x62] || (|lfn| > 2 && lfn[0] == 0x61 && lfn[1] == 0x62 && lfn[2] == 0) ==>
              NumberFor(lfn, 6) == 0x459E
  {
    HashOfA();
    HashOfB();
    hide HashBits;
    if |lfn| >= 2 && lfn[0] == 0x61 && lfn[1] == 0x62 && (|lfn| == 2 || lfn[2] == 0) {
      assert HashName(0x459E, lfn, 2) == 0x459E;
      assert HashName(0xE6C6, lfn, 1) == 0x459E;
    }
  }

  /** One turn of the loop over the bits of a character. */
  lemma BitTurn(sr: nat, wc: nat, i: nat, next: nat)
    requires sr < 0x1_0000 && i < 16 && next == HashBit(sr, wc % 2)
    ensures HashBits(sr, wc, i) == HashBits(next, wc / 2, i + 1)
  {
  }

  lemma AllBits(sr: nat, wc: nat)
    requires sr < 0x1_0000
    ensures HashBits(sr, wc, 16) == sr
  {
  }

  lemma HashOfA()
    ensures HashBits(0x6, 0x61, 0) == 0xE6C6
  {
    hide HashBits;
    HashOfAOn();
    BitTurn(0x6, 0x61, 0, 0xD);
    BitTurn(0xD, 0x30, 1, 0x1A);
    BitTurn(0x1A, 0x18, 2, 0x34);
    BitTurn(0x34, 0xC, 3, 0x68);
    BitTurn(0x68, 0x6, 4, 0xD0);
    BitTurn(0xD0, 0x3, 5, 0x1A1);
    BitTurn(0x1A1, 0x1, 6, 0x343);
    BitTurn(0x343, 0x0, 7, 0x686);
  }

  lemma HashOfAOn()
    ensures HashBits(0x686, 0x0, 8) == 0xE6C6
  {
    hide HashBits;
    BitTurn(0x686, 0x0, 8, 0xD0C);
    BitTurn(0xD0C, 0x0, 9, 0x1A18);
    BitTurn(0x1A18, 0x0, 10, 0x3430);
    BitTurn(0x3430, 0x0, 11, 0x6860);
    BitTurn(0x6860, 0x0, 12, 0xD0C0);
    BitTurn(0xD0C0, 0x0, 13, 0xB1A1);
    BitTurn(0xB1A1, 0x0, 14, 0x7363);
    BitTurn(0x7363, 0x0, 15, 0xE6C6);
    AllBits(0xE6C6, 0);
  }

  lemma HashOfB()
    ensures HashBits(0xE6C6, 0x62, 0) == 0x459E
  {
    hide HashBits;
    HashOfBOn();
    BitTurn(0xE6C6, 0x62, 0, 0xDDAD);
    BitTurn(0xDDAD, 0x31, 1, 0xAB7A);
    BitTurn(0xAB7A, 0x18, 2, 0x46D5);
    BitTurn(0x46D5, 0xC, 3, 0x8DAA);
    BitTurn(0x8DAA, 0x6, 4, 0xB75);
    BitTurn(0xB75, 0x3, 5, 0x16EB);
    BitTurn(0x16EB, 0x1, 6, 0x2DD7);
    BitTurn(0x2DD7, 0x0, 7, 0x5BAE);
  }

  lemma HashOfBOn()
    ensures HashBits(0x5BAE, 0x0, 8) == 0x459E
  {
    hide HashBits;
    BitTurn(0x5BAE, 0x0, 8, 0xB75C);
    BitTurn(0xB75C, 0x0, 9, 0x7E99);
    BitTurn(0x7E99, 0x0, 10, 0xFD32);
    BitTurn(0xFD32, 0x0, 11, 0xEA45);
    BitTurn(0xEA45, 0x0, 12, 0xC4AB);
    BitTurn(0xC4AB, 0x0, 13, 0x9977);
    BitTurn(0x9977, 0x0, 14, 0x22CF);
    BitTurn(0x22CF, 0x0, 15, 0x459E);
    AllBits(0x459E, 0);
  }

  method HashCharacter(sr: nat, wc0: wchar) returns (r: nat)
    requires sr < 0x1_0000
    ensures r == HashBits(sr, wc0, 0)
  {
    r := sr;
    var wc: nat := wc0;
    var i: nat := 0;
    while i < 16
      invariant i <= 16 && r < 0x1_0000 && HashBits(r, wc, i) == HashBits(sr, wc0, 0)
    {
      r := HashBit(r, wc % 2);
      wc := wc / 2;
      i := i + 1;
    }
  }

  // ----- its digits -----

  function HexDigit(d: nat): (c: byte)
    requires d < 16
    ensures c as int != TILDE && c as int != BLANK
  {
    if d < 10 then 0x30 + d else 0x37 + d
  }

  function DigitValue(c: byte): int {
    if c < 0x3A then c - 0x30 else c - 0x37
  }

  /** Hexadecimal, without leading zeros. */
  function Digits(n: nat): (s: seq<byte>)
    ensures |s| >= 1 && forall i | 0 <= i < |s| :: s[i] as int != TILDE && s[i] as int != BLANK
  {
    if n < 16 then [HexDigit(n)] else Digits(n / 16) + [HexDigit(n % 16)]
  }

  function ValueOf(s: seq<byte>): int {
    if s == [] then 0 else 16 * ValueOf(s[..|s| - 1]) + DigitValue(s[|s| - 1])
  }

  /** The digits of a number stand for it. */
  lemma {:induction false} DigitsStand(n: nat)
    ensures ValueOf(Digits(n)) == n
  {
    if n >= 16 {
      DigitsStand(n / 16);
      assert Digits(n)[..|Digits(n)| - 1] == Digits(n / 16);
    } else {
      assert Digits(n)[..0] == [];
    }
  }

  lemma DigitsShort(n: nat)
    requires n < 0x1_0000
    ensures |Digits(n)| <= 4
  {
    assert n / 16 / 16 / 16 < 16;
    assert |Digits(n / 16 / 16 / 16)| == 1;
    assert n / 16 / 16 < 256 && |Digits(n / 16 / 16)| <= 2;
    assert n / 16 < 4096 && |Digits(n / 16)| <= 3;
  }

  // ----- the name -----

  /** How much of `src` is kept in front of `i`: up to a blank, whole double-byte characters only. */
  function Kept(src: seq<byte>, i: nat, j: nat): (r: nat)
    requires |src| == 11 && j <= i <= 8
    ensures j <= r <= i
    decreases i - j
  {
    if j < i && src[j] as int != BLANK then
      if ShortNames.Lead(src[j]) then
        if j == i - 1 then j else Kept(src, i, j + 2)
      else Kept(src, i, j + 1)
    else j
  }

  /** A short name with number `num` behind what is kept of `src`, and the extension of `src`. */
  function Numbered(src: seq<byte>, num: nat): (r: seq<byte>)
    requires |src| == 11 && num < 0x1_0000
    ensures |r| == 11
  {
    DigitsShort(num);
    var i := 7 - |Digits(num)|;
    var j := Kept(src, i, 0);
    src[..j] + ([0x7E] + Digits(num)) + Blanks(i - j) + src[8..]
  }

  /** In figures: what is kept ends at the first blank, or leaves off before a double-byte character that would be cut,
      or has the full length. */
  lemma {:induction false} KeptMeans(src: seq<byte>, i: nat, j: nat)
    requires |src| == 11 && j <= i <= 8
    ensures var r := Kept(src, i, j); r == i || src[r] == 0x20 || (r == i - 1 && 0x81 <= src[r] <= 0xFE)
    ensures (forall k | j <= k < i :: src[k] < 0x81) ==>
              var r := Kept(src, i, j); (r == i || src[r] == 0x20) && forall k | j <= k < r :: src[k] != 0x20
    decreases i - j
  {
    if j < i && src[j] as int != BLANK {
      if ShortNames.Lead(src[j]) {
        if j < i - 1 {
          KeptMeans(src, i, j + 2);
        }
      } else {
        KeptMeans(src, i, j + 1);
      }
    }
  }

  /** Numbered names byte by byte: LONGFI~1.TXT, LON~A0F3.TXT, and AB~5.C. */
  lemma NumberedExamples(a: seq<byte>, b: seq<byte>)
    requires a == [0x4C, 0x4F, 0x4E, 0x47, 0x46, 0x49, 0x4C, 0x45, 0x54, 0x58, 0x54]
    requires b == [0x41, 0x42, 0x20, 0x20, 0x20, 0x20, 0x20, 0x20, 0x43, 0x20, 0x20]
    ensures Numbered(a, 1) == [0x4C, 0x4F, 0x4E, 0x47, 0x46, 0x49, 0x7E, 0x31, 0x54, 0x58, 0x54]
    ensures Numbered(a, 0xA0F3) == [0x4C, 0x4F, 0x4E, 0x7E, 0x41, 0x30, 0x46, 0x33, 0x54, 0x58, 0x54]
    ensures Numbered(b, 5) == [0x41, 0x42, 0x7E, 0x35, 0x20, 0x20, 0x20, 0x20, 0x43, 0x20, 0x20]
  {
    hide *;
    KeptExamples(a, b);
    FourDigits();
    NumberedParts(a, 1);
    NumberedParts(b, 5);
    NumberedParts(a, 0xA0F3);
  }

  lemma NumberedParts(src: seq<byte>, num: nat)
    requires |src| == 11 && num < 0x1_0000
    ensures |Digits(num)| <= 4
    ensures var i := 7 - |Digits(num)|;
            Numbered(src, num) == src[..Kept(src, i, 0)] + ([0x7E] + Digits(num))
                                  + seq(i - Kept(src, i, 0), _ => 0x20) + src[8..]
  {
    DigitsShort(num);
  }

  lemma KeptExamples(a: seq<byte>, b: seq<byte>)
    requires a == [0x4C, 0x4F, 0x4E, 0x47, 0x46, 0x49, 0x4C, 0x45, 0x54, 0x58, 0x54]
    requires b == [0x41, 0x42, 0x20, 0x20, 0x20, 0x20, 0x20, 0x20, 0x43, 0x20, 0x20]
    ensures Kept(a, 6, 0) == 6 && Kept(a, 3, 0) == 3 && Kept(b, 6, 0) == 2
  {
    hide *;
    KeptMeans(a, 6, 0);
    KeptMeans(a, 3, 0);
    KeptMeans(b, 6, 0);
    assert b[0] == 0x41 && b[1] == 0x42 && b[2] == 0x20;
  }

  lemma FourDigits()
    ensures Digits(1) == [0x31] && Digits(5) == [0x35] && Digits(0xA0F3) == [0x41, 0x30, 0x46, 0x33]
  {
    assert Digits(0xA) == [0x41] && Digits(0xA0) == [0x41, 0x30] && Digits(0xA0F) == [0x41, 0x30, 0x46];
  }

  /** A double-byte character that would be cut is left out. */
  lemma CutExample()
    ensures Numbered([0x41, 0x42, 0x43, 0x44, 0x45, 0x81, 0x41, 0x46, 0x20, 0x20, 0x20], 2) ==
            [0x41, 0x42, 0x43, 0x44, 0x45, 0x7E, 0x32, 0x20, 0x20, 0x20, 0x20]
  {
    var src: seq<byte> := [0x41, 0x42, 0x43, 0x44, 0x45, 0x81, 0x41, 0x46, 0x20, 0x20, 0x20];
    assert Kept(src, 6, 5) == 5 && Kept(src, 6, 4) == 5 && Kept(src, 6, 3) == 5 && Kept(src, 6, 2) == 5;
    assert Kept(src, 6, 1) == 5 && Kept(src, 6, 0) == 5 && Digits(2) == [0x32];
    hide Kept, Digits;
  }

  function Blanks(n: nat): (r: seq<byte>)
    ensures |r| == n && forall i | 0 <= i < n :: r[i] as int == BLANK
  {
    seq(n, _ => 0x20)
  }

  /** Behind the last tilde among the first `n` bytes. */
  function TildeEnd(s: seq<byte>, n: nat): (r: nat)
    requires n <= |s|
    ensures r <= n
  {
    if n > 0 && s[n - 1] as int != TILDE then TildeEnd(s, n - 1) else n
  }

  function UpToBlank(s: seq<byte>): seq<byte> {
    if s == [] || s[0] as int == BLANK then [] else [s[0]] + UpToBlank(s[1..])
  }

  /** The number a reader finds in a short name. */
  function NumberIn(name: seq<byte>): int
    requires |name| == 11
  {
    ValueOf(UpToBlank(name[TildeEnd(name, 8)..8]))
  }

  lemma {:induction false} TildeAt(s: seq<byte>, n: nat, k: nat)
    requires k < n <= |s| && s[k] as int == TILDE && forall i | k < i < n :: s[i] as int != TILDE
    ensures TildeEnd(s, n) == k + 1
  {
    if k < n - 1 {
      TildeAt(s, n - 1, k);
    }
  }

  lemma {:induction false} BlankAt(s: seq<byte>, n: nat)
    requires forall i | 0 <= i < |s| :: s[i] as int != BLANK
    ensures UpToBlank(s + Blanks(n)) == s
  {
    if s != [] {
      BlankAt(s[1..], n);
      assert (s + Blanks(n))[1..] == s[1..] + Blanks(n);
    }
  }

  /** The number is read back from the name, so different numbers give different names; the extension stays, and so
      does the first byte unless it is blank. */
  lemma NumberBack(src: seq<byte>, num: nat)
    requires |src| == 11 && num < 0x1_0000
    ensures NumberIn(Numbered(src, num)) == num
    ensures Numbered(src, num)[8..] == src[8..]
    ensures Numbered(src, num)[0] == if src[0] as int == BLANK then 0x7E else src[0]
  {
    DigitsShort(num);
    DigitsStand(num);
    var d := Digits(num);
    var j := Kept(src, 7 - |d|, 0);
    var b := Blanks(7 - j - |d|);
    var r := Numbered(src, num);
    assert r == src[..j] + ([0x7E] + d) + b + src[8..];
    hide Digits, Blanks, Kept, ValueOf, TildeEnd, UpToBlank, Numbered;
    NamePieces(r, src, j, d, b);
    TildeAt(r, 8, j);
    BlankAt(d, 7 - j - |d|);
    KeptFirst(src, 7 - |d|);
  }

  lemma NamePieces(r: seq<byte>, src: seq<byte>, j: nat, d: seq<byte>, b: seq<byte>)
    requires |src| == 11 && j + 1 + |d| + |b| == 8 && r == src[..j] + ([0x7E] + d) + b + src[8..]
    requires forall i | 0 <= i < |d| :: d[i] as int != TILDE
    requires forall i | 0 <= i < |b| :: b[i] as int == BLANK
    ensures |r| == 11 && r[j] as int == TILDE && r[j + 1..8] == d + b && r[8..] == src[8..]
    ensures forall i | j < i < 8 :: r[i] as int != TILDE
    ensures j > 0 ==> r[0] == src[0]
  {
    forall i | j < i < 8 ensures r[i] == (d + b)[i - j - 1] {}
  }

  lemma KeptFirst(src: seq<byte>, i: nat)
    requires |src| == 11 && 3 <= i <= 8
    ensures Kept(src, i, 0) == 0 <==> src[0] as int == BLANK
  {
  }

  /** Candidate `n` for a name whose 8.3 form is `src`. */
  function Candidate(src: seq<byte>, lfn: seq<wchar>, n: nat): (r: seq<byte>)
    requires |src| == 11 && n < 0x1_0000
    ensures |r| == 11
  {
    Numbered(src, NumberFor(lfn, n))
  }

  /** gen_numname. */
  method GenNumName(src: seq<byte>, lfn: seq<wchar>, n: nat) returns (dst: seq<byte>)
    requires |src| == 11 && n < 0x1_0000
    ensures dst == Candidate(src, lfn, n)
  {
    var num := n;
    if n > 5 {
      num := HashAll(lfn, n);
    }
    var ns, i := TildeAndDigits(num);
    var j := BaseLength(src, i);
    dst := PutTail(src, j, ns, i);
    hide Kept, Digits, Blanks;
  }

  /** The last loop: from `j0` on the bytes of `ns` from `i0` on, then blanks. */
  method PutTail(src: seq<byte>, j0: nat, ns: seq<byte>, i0: nat) returns (dst: seq<byte>)
    requires |src| == 11 && |ns| == 8 && j0 <= i0 <= 8
    ensures dst == src[..j0] + ns[i0..] + Blanks(i0 - j0) + src[8..]
  {
    dst := src;
    var j, i := j0, i0;
    while j < 8
      invariant j0 <= j <= 8 && i == (if i0 + (j - j0) < 8 then i0 + (j - j0) else 8) && |dst| == 11
      invariant forall m | 0 <= m < 11 && !(j0 <= m < j) :: dst[m] == src[m]
      invariant forall m | j0 <= m < j :: dst[m] == if m - j0 < 8 - i0 then ns[i0 + m - j0] else 0x20
    {
      var c: byte := if i < 8 then ns[i] else 0x20;
      dst := dst[j := c];
      j := j + 1;
      if i < 8 {
        i := i + 1;
      }
    }
  }

  method HashAll(lfn: seq<wchar>, n: nat) returns (sr: nat)
    requires n < 0x1_0000
    ensures sr == HashName(n, lfn, 0)
  {
    sr := n;
    var k: nat := 0;
    while k < |lfn| && lfn[k] != 0
      invariant k <= |lfn| && sr < 0x1_0000 && HashName(sr, lfn, k) == HashName(n, lfn, 0)
    {
      sr := HashCharacter(sr, lfn[k]);
      k := k + 1;
    }
  }

  /** The conversion of the number, right-aligned in eight bytes, a tilde in front. */
  method TildeAndDigits(num: nat) returns (ns: seq<byte>, i: nat)
    requires num < 0x1_0000
    ensures |ns| == 8 && i == 7 - |Digits(num)| && ns[i..] == [0x7E] + Digits(num)
  {
    DigitsShort(num);
    ns, i := Blanks(8), 7;
    var rest, more := num, true;
    while more
      invariant |ns| == 8 && i <= 7
      invariant if more then Digits(rest) + ns[i + 1..] == Digits(num) else ns[i + 1..] == Digits(num)
      decreases rest, more
    {
      var c: byte := rest % 16 + 0x30;
      if c > 0x39 {
        c := c + 7;
      }
      ghost var before := ns[i + 1..];
      ns := ns[i := c];
      assert ns[i..] == [c] + before;
      i := i - 1;
      rest := rest / 16;
      more := rest != 0;
    }
    ns := ns[i := 0x7E];
    assert ns[i..] == [0x7E] + ns[i + 1..];
  }

  /** The loop that looks for the place of the number. */
  method BaseLength(src: seq<byte>, i: nat) returns (j: nat)
    requires |src| == 11 && i <= 8
    ensures j == Kept(src, i, 0)
  {
    j := 0;
    while j < i && src[j] as int != BLANK
      invariant j <= i && Kept(src, i, j) == Kept(src, i, 0)
    {
      if ShortNames.Lead(src[j]) {
        if j == i - 1 {
          break;
        }
        j := j + 1;
      }
      j := j + 1;
    }
  }
}
