/** create_name and get_fileinfo: path segments in 8.3 form and back. */
module ShortNames {
  import opened Bytes
  import Lfn

  type wchar = Lfn.wchar

  const SPACE: nat := 0x20
  const DOT: nat := 0x2E
  const NDDE: byte := 0x05   // what stands for the mark of a deleted entry in a name

  // ----- characters -----

  /** Ends a segment: a control character or a separator. */
  predicate Ends(c: byte) {
    c < 0x20 || c == 0x2F || c == 0x5C
  }

  /** Not allowed in a long name. */
  predicate Illegal(c: wchar) {
    c in [0x22, 0x2A, 0x3A, 0x3C, 0x3E, 0x3F, 0x7C, 0x7F]
  }

  /** Not allowed in an 8.3 form. */
  predicate Replaced(c: wchar) {
    c in [0x2B, 0x2C, 0x3B, 0x3D, 0x5B, 0x5D]
  }

  predicate IsUpper(c: wchar) {
    0x41 <= c <= 0x5A
  }

  predicate IsLower(c: wchar) {
    0x61 <= c <= 0x7A
  }

  function ToUpper(c: wchar): (r: wchar)
    ensures r >= 0x100 <==> c >= 0x100
  {
    if IsLower(c) then c - 0x20 else c
  }

  predicate Blanked(c: wchar) {
    c == SPACE || c == DOT
  }

  predicate Ascii(s: seq<wchar>) {
    forall i | 0 <= i < |s| :: s[i] < 0x80
  }

  /** First byte of a double-byte character in code page 936. */
  predicate Lead(c: byte) {
    0x81 <= c <= 0xFE
  }

  /** Second byte of one. */
  predicate Trail(c: byte) {
    0x40 <= c <= 0x7E || 0x80 <= c <= 0xFE
  }

  /** The tables: ff_convert to and from Unicode, above ASCII, and ff_wtoupper. */
  datatype CodePage = CodePage(unicode: wchar -> wchar, oem: wchar -> wchar, upper: wchar -> wchar)

  /** ff_convert: ASCII stays; 0 for a code the table does not have. */
  function Convert(table: wchar -> wchar, w: wchar): wchar {
    if w < 0x80 then w else table(w)
  }

  /** The characters by themselves: what ends a segment, what a long name must not have, what an 8.3 form replaces, what
      is stripped, letter case, what no table changes, and the bytes of double-byte characters. */
  lemma Characters(c: wchar, b: byte, table: wchar -> wchar)
    ensures Illegal(c) <==> c < 0x80 && c as char in "\"*:<>?|\U{7F}"
    ensures Replaced(c) <==> c < 0x80 && c as char in "+,;=[]"
    ensures Ends(b) <==> b as char < ' ' || b as char == '/' || b as char == '\\'
    ensures Blanked(c) <==> c == ' ' as int || c == '.' as int
    ensures ToUpper(c) == if 'a' as int <= c <= 'z' as int then c - 'a' as int + 'A' as int else c
    ensures Convert(table, c) == if c <= 127 then c else table(c)
    ensures Lead(b) <==> 129 <= b <= 254
    ensures Trail(b) <==> 64 <= b <= 254 && b != 127
  {
  }

  /** What the tables keep: no other code becomes ASCII or the filler of long names, capitals are those of ASCII and
      never blanks, and a code is one byte or a double-byte character. */
  ghost predicate Tables(cp: CodePage) {
    && (forall w: wchar | w >= 0x80 :: cp.unicode(w) == 0 || 0x80 <= cp.unicode(w) < 0xFFFF)
    && (forall w: wchar :: if w < 0x80 then cp.upper(w) == ToUpper(w) else cp.upper(w) > SPACE && cp.upper(w) != DOT)
    && (forall w: wchar | w >= 0x80 :: Coded(cp.oem(w)))
  }

  predicate Coded(w: wchar) {
    w == 0 || 0x80 <= w < 0x100 || (w >= 0x100 && Lead(w / 0x100) && Trail(w % 0x100))
  }

  /** The code that stands for a character in an 8.3 form, letter case of ASCII aside; 0 without one. */
  function OemOf(cp: CodePage, c: wchar): wchar {
    if c < 0x80 then c else Convert(cp.oem, cp.upper(c))
  }

  // ----- parts of a name -----

  /** Length of `s` without the spaces and dots at its end. */
  function StrippedLen(s: seq<wchar>, n: nat): (r: nat)
    requires n <= |s|
    ensures r <= n && (r > 0 ==> !Blanked(s[r - 1])) && forall i | r <= i < n :: Blanked(s[i])
  {
    if n > 0 && Blanked(s[n - 1]) then StrippedLen(s, n - 1) else n
  }

  /** The segment with its trailing spaces and dots stripped. */
  function Stripped(s: seq<wchar>): seq<wchar> {
    s[..StrippedLen(s, |s|)]
  }

  /** Behind the last dot of `s`, 0 without one. */
  function ExtStart(s: seq<wchar>, n: nat): (d: nat)
    requires n <= |s|
    ensures d <= n && (d > 0 ==> s[d - 1] == DOT) && forall i | d <= i < n :: s[i] != DOT
  {
    if n > 0 && s[n - 1] != DOT then ExtStart(s, n - 1) else n
  }

  /** The letter cases a part of a name has. */
  predicate HasUpper(s: seq<wchar>) {
    exists i :: 0 <= i < |s| && IsUpper(s[i])
  }

  predicate HasLower(s: seq<wchar>) {
    exists i :: 0 <= i < |s| && IsLower(s[i])
  }

  /** The bytes of a code, one or two. */
  function CodeBytes(w: wchar): (r: seq<byte>)
    ensures |r| == if w >= 0x100 then 2 else 1
  {
    if w >= 0x100 then [w / 0x100, w % 0x100] else [w]
  }

  /** The bytes that character adds to an 8.3 form. */
  function Code(cp: CodePage, c: wchar): (r: seq<byte>)
    ensures |r| == if OemOf(cp, c) >= 0x100 then 2 else 1
  {
    CodeBytes(ToUpper(OemOf(cp, c)))
  }

  function Codes(cp: CodePage, s: seq<wchar>): seq<byte> {
    if s == [] then [] else Codes(cp, s[..|s| - 1]) + Code(cp, s[|s| - 1])
  }

  /** An 8.3 form keeps the character. */
  predicate Kept(cp: CodePage, c: wchar) {
    !Blanked(c) && OemOf(cp, c) != 0 && !Replaced(OemOf(cp, c))
  }

  predicate AllKept(cp: CodePage, s: seq<wchar>) {
    forall i | 0 <= i < |s| :: Kept(cp, s[i])
  }

  /** Behind the last dot if something else than spaces and dots stands before it, else 0. */
  function ExtAt(name: seq<wchar>): (e: nat)
    ensures e <= |name| && (e > 0 ==> e > 1 && name[e - 1] == DOT)
  {
    var d := ExtStart(name, |name|);
    if StrippedLen(name, d) == 0 then 0 else d
  }

  /** What stands before that dot. */
  function BodyOf(name: seq<wchar>): seq<wchar> {
    if ExtAt(name) == 0 then name else name[..ExtAt(name) - 1]
  }

  /** What stands behind it. */
  function ExtOf(name: seq<wchar>): seq<wchar> {
    if ExtAt(name) == 0 then [] else name[ExtAt(name)..]
  }

  /** A name that an 8.3 form can hold, letter case aside. */
  predicate Shape83(cp: CodePage, name: seq<wchar>) {
    && BodyOf(name) != [] && |Codes(cp, BodyOf(name))| <= 8 && |Codes(cp, ExtOf(name))| <= 3
    && AllKept(cp, BodyOf(name)) && AllKept(cp, ExtOf(name)) && (ExtAt(name) > 0 ==> ExtOf(name) != [])
  }

  /** No part of it mixes upper and lower case. */
  predicate OneCase(name: seq<wchar>) {
    && !(HasLower(BodyOf(name)) && HasUpper(BodyOf(name)))
    && !(HasLower(ExtOf(name)) && HasUpper(ExtOf(name)))
  }

  /** A name that an 8.3 form and two case flags can hold. */
  predicate Exact83(cp: CodePage, name: seq<wchar>) {
    Shape83(cp, name) && Ascii(name) && OneCase(name)
  }

  function Padded(s: seq<byte>, n: nat): (r: seq<byte>)
    requires |s| <= n
    ensures |r| == n
  {
    s + seq(n - |s|, _ => 0x20)
  }

  /** The first byte must not be the mark of a deleted entry. */
  function Marked(fn: seq<byte>): (r: seq<byte>)
    requires fn != []
    ensures |r| == |fn| && r[0] != Lfn.DDE && r[1..] == fn[1..] && r[0] == if fn[0] == 0xE5 then 0x05 else fn[0]
  {
    if fn[0] == Lfn.DDE then fn[0 := NDDE] else fn
  }

  /** A character in an 8.3 form: an underscore for one that has no place there. */
  function Shortened(cp: CodePage, c: wchar): (r: seq<byte>)
    ensures 1 <= |r| <= 2
  {
    if OemOf(cp, c) == 0 || Replaced(OemOf(cp, c)) then [0x5F] else Code(cp, c)
  }

  /** As many characters from the start as there is room for, without spaces and dots. */
  function Fit(cp: CodePage, s: seq<wchar>, room: nat): (r: seq<byte>)
    ensures |r| <= room
  {
    if s == [] then []
    else if Blanked(s[0]) then Fit(cp, s[1..], room)
    else if |Shortened(cp, s[0])| > room then []
    else Shortened(cp, s[0]) + Fit(cp, s[1..], room - |Shortened(cp, s[0])|)
  }

  function Fields(cp: CodePage, name: seq<wchar>): (fn: seq<byte>)
    ensures |fn| == 11
  {
    Padded(Fit(cp, BodyOf(name), 8), 8) + Padded(Fit(cp, ExtOf(name), 3), 3)
  }

  /** The 8.3 form of a name. */
  function Form(cp: CodePage, name: seq<wchar>): (fn: seq<byte>)
    ensures |fn| == 11
  {
    Marked(Fields(cp, name))
  }

  /** The form of a name that fits has all its characters. */
  lemma FormWhole(cp: CodePage, name: seq<wchar>)
    requires Shape83(cp, name)
    ensures Form(cp, name) == Marked(Padded(Codes(cp, BodyOf(name)), 8) + Padded(Codes(cp, ExtOf(name)), 3))
  {
    hide BodyOf, ExtOf, ExtAt, Codes, Fit, AllKept, Marked, Padded;
    FitKept(cp, BodyOf(name), 8);
    FitKept(cp, ExtOf(name), 3);
  }

  /** The form of a name that does not fit, byte by byte: characters replaced, left out and cut off. The name is
      "+a .b.cdef", its form _AB.CDE. */
  lemma FormExample(cp: CodePage, name: seq<wchar>)
    requires name == [0x2B, 0x61, 0x20, 0x2E, 0x62, 0x2E, 0x63, 0x64, 0x65, 0x66]
    ensures Form(cp, name) == [0x5F, 0x41, 0x42, 0x20, 0x20, 0x20, 0x20, 0x20, 0x43, 0x44, 0x45] && !Shape83(cp, name)
  {
    ExampleParts(name);
    BodyFit(cp, name[..5]);
    ExtFit(cp, name[6..]);
    LostFirst(cp, name);
    FormParts(cp, name);
    hide *;
    ExampleFields();
  }

  lemma FormParts(cp: CodePage, name: seq<wchar>)
    ensures Form(cp, name) == Marked(Padded(Fit(cp, BodyOf(name), 8), 8) + Padded(Fit(cp, ExtOf(name), 3), 3))
  {
  }

  lemma ExampleFields()
    ensures Marked(Padded([0x5F, 0x41, 0x42], 8) + Padded([0x43, 0x44, 0x45], 3)) ==
            [0x5F, 0x41, 0x42, 0x20, 0x20, 0x20, 0x20, 0x20, 0x43, 0x44, 0x45]
  {
  }

  lemma LostFirst(cp: CodePage, name: seq<wchar>)
    requires BodyOf(name) != [] && BodyOf(name)[0] == 0x2B
    ensures !Shape83(cp, name)
  {
    hide ExtAt, BodyOf, ExtOf, Codes;
    assert !Kept(cp, BodyOf(name)[0]);
  }

  lemma BodyFit(cp: CodePage, s: seq<wchar>)
    requires |s| == 5 && s[0] == 0x2B && s[1] == 0x61 && s[2] == 0x20 && s[3] == 0x2E && s[4] == 0x62
    ensures Fit(cp, s, 8) == [0x5F, 0x41, 0x42]
  {
    FitPut(cp, s, 8, 0x5F);
    FitPut(cp, s[1..], 7, 0x41);
    FitSkip(cp, s[2..], 6);
    FitSkip(cp, s[3..], 6);
    FitPut(cp, s[4..], 6, 0x42);
    FitEnd(cp, s[5..], 5);
    hide *;
  }

  lemma ExtFit(cp: CodePage, s: seq<wchar>)
    requires |s| == 4 && s[0] == 0x63 && s[1] == 0x64 && s[2] == 0x65 && s[3] == 0x66
    ensures Fit(cp, s, 3) == [0x43, 0x44, 0x45]
  {
    FitPut(cp, s, 3, 0x43);
    FitPut(cp, s[1..], 2, 0x44);
    FitPut(cp, s[2..], 1, 0x45);
    FitFull(cp, s[3..]);
    hide *;
  }

  lemma ExampleParts(name: seq<wchar>)
    requires |name| == 10 && name[3] == DOT && name[4] == 0x62 && name[5] == DOT
    requires forall i | 6 <= i < 10 :: name[i] != DOT
    ensures BodyOf(name) == name[..5] && ExtOf(name) == name[6..] && ExtAt(name) == 6
  {
    assert !Blanked(name[4]);
    hide ExtStart, StrippedLen;
  }

  lemma FitPut(cp: CodePage, s: seq<wchar>, room: nat, b: byte)
    requires s != [] && 0 < s[0] < 0x80 && !Blanked(s[0]) && room > 0
    requires b == if Replaced(s[0]) then 0x5F else ToUpper(s[0])
    ensures Fit(cp, s, room) == [b] + Fit(cp, s[1..], room - 1)
  {
  }

  lemma FitSkip(cp: CodePage, s: seq<wchar>, room: nat)
    requires s != [] && Blanked(s[0])
    ensures Fit(cp, s, room) == Fit(cp, s[1..], room)
  {
  }

  lemma FitEnd(cp: CodePage, s: seq<wchar>, room: nat)
    requires s == []
    ensures Fit(cp, s, room) == []
  {
  }

  lemma FitFull(cp: CodePage, s: seq<wchar>)
    requires s != [] && !Blanked(s[0])
    ensures Fit(cp, s, 0) == []
  {
  }

  lemma {:induction false} FitKept(cp: CodePage, s: seq<wchar>, room: nat)
    requires AllKept(cp, s) && |Codes(cp, s)| <= room
    ensures Fit(cp, s, room) == Codes(cp, s)
  {
    if s != [] {
      assert s == [s[0]] + s[1..] && Kept(cp, s[0]);
      CodesJoined(cp, [s[0]], s[1..]);
      assert Codes(cp, [s[0]]) == Code(cp, s[0]) by {
        CodesLast(cp, [], s[0]);
        assert [] + [s[0]] == [s[0]];
      }
      FitKept(cp, s[1..], room - |Code(cp, s[0])|);
    }
  }

  /** Flags of fn[NS] that matter here. */
  datatype Flags = Flags(loss: bool, lfn: bool, body: bool, ext: bool)

  /** The case flags tell the letters of a name that has one case in each part. */
  predicate CaseFlags(name: seq<wchar>, flags: Flags) {
    (flags.body <==> HasLower(BodyOf(name))) && (flags.ext <==> HasLower(ExtOf(name)))
  }

  // ----- letter case -----

  /** One character as good as another but for case: an 8.3 form has the same bytes for it. */
  lemma SameCharacter(cp: CodePage, a: wchar, b: wchar)
    requires Tables(cp) && cp.upper(a) == cp.upper(b)
    ensures (a == DOT <==> b == DOT) && (a == SPACE <==> b == SPACE)
    ensures Kept(cp, a) == Kept(cp, b) && Code(cp, a) == Code(cp, b) && Shortened(cp, a) == Shortened(cp, b)
  {
    OemUpper(cp, a);
    OemUpper(cp, b);
  }

  /** The code of a character in capitals is one of its capital. */
  lemma OemUpper(cp: CodePage, c: wchar)
    requires Tables(cp)
    ensures ToUpper(OemOf(cp, c)) == ToUpper(Convert(cp.oem, cp.upper(c)))
    ensures OemOf(cp, c) == 0 <==> Convert(cp.oem, cp.upper(c)) == 0
    ensures Replaced(OemOf(cp, c)) <==> Replaced(Convert(cp.oem, cp.upper(c)))
  {
  }

  /** Names that are equal but for case have the same parts but for case. */
  lemma SameParts(cp: CodePage, a: seq<wchar>, b: seq<wchar>)
    requires Tables(cp) && Lfn.SameName(a, b, cp.upper)
    ensures ExtAt(a) == ExtAt(b)
    ensures Lfn.SameName(BodyOf(a), BodyOf(b), cp.upper) && Lfn.SameName(ExtOf(a), ExtOf(b), cp.upper)
  {
    hide Tables;
    forall i | 0 <= i < |a| ensures (a[i] == DOT <==> b[i] == DOT) && (a[i] == SPACE <==> b[i] == SPACE) {
      SameCharacter(cp, a[i], b[i]);
    }
    SameDots(a, b, |a|);
    SameStrip(a, b, ExtStart(a, |a|));
  }

  lemma {:induction false} SameDots(a: seq<wchar>, b: seq<wchar>, n: nat)
    requires n <= |a| == |b| && forall i | 0 <= i < |a| :: a[i] == DOT <==> b[i] == DOT
    ensures ExtStart(a, n) == ExtStart(b, n)
  {
    if n > 0 {
      SameDots(a, b, n - 1);
    }
  }

  lemma {:induction false} SameStrip(a: seq<wchar>, b: seq<wchar>, n: nat)
    requires n <= |a| == |b| && forall i | 0 <= i < |a| :: Blanked(a[i]) <==> Blanked(b[i])
    ensures StrippedLen(a, n) == StrippedLen(b, n)
  {
    if n > 0 {
      SameStrip(a, b, n - 1);
    }
  }

  lemma {:induction false} SameFit(cp: CodePage, a: seq<wchar>, b: seq<wchar>, room: nat)
    requires Tables(cp) && Lfn.SameName(a, b, cp.upper)
    ensures Fit(cp, a, room) == Fit(cp, b, room)
  {
    hide Tables, Shortened, Code, Kept;
    if a != [] {
      SameCharacter(cp, a[0], b[0]);
      SameFit(cp, a[1..], b[1..], room);
      if |Shortened(cp, a[0])| <= room {
        SameFit(cp, a[1..], b[1..], room - |Shortened(cp, a[0])|);
      }
    }
  }

  lemma {:induction false} SameCodes(cp: CodePage, a: seq<wchar>, b: seq<wchar>)
    requires Tables(cp) && Lfn.SameName(a, b, cp.upper)
    ensures Codes(cp, a) == Codes(cp, b) && (AllKept(cp, a) <==> AllKept(cp, b))
  {
    hide Tables, Code, Kept;
    forall i | 0 <= i < |a| ensures Kept(cp, a[i]) == Kept(cp, b[i]) {
      SameCharacter(cp, a[i], b[i]);
    }
    if a != [] {
      SameCharacter(cp, a[|a| - 1], b[|a| - 1]);
      SameCodes(cp, a[..|a| - 1], b[..|a| - 1]);
    }
  }

  /** Names that are equal but for case have the same 8.3 form, and both lose something or neither does. */
  lemma SameForm(cp: CodePage, a: seq<wchar>, b: seq<wchar>)
    requires Tables(cp) && Lfn.SameName(a, b, cp.upper)
    ensures Form(cp, a) == Form(cp, b) && (Shape83(cp, a) <==> Shape83(cp, b))
  {
    SameParts(cp, a, b);
    hide Tables, BodyOf, ExtOf, ExtAt, Codes, Fit, AllKept, Marked, Padded;
    SameFit(cp, BodyOf(a), BodyOf(b), 8);
    SameFit(cp, ExtOf(a), ExtOf(b), 3);
    SameCodes(cp, BodyOf(a), BodyOf(b));
    SameCodes(cp, ExtOf(a), ExtOf(b));
  }

  /** An 8.3 form does not begin like a blank entry. */
  lemma FormStarts(cp: CodePage, name: seq<wchar>)
    ensures Form(cp, name)[0] != 0 && Form(cp, name)[0] != Lfn.DDE
  {
    FitStarts(cp, BodyOf(name), 8);
    hide BodyOf, ExtOf, Fit;
  }

  lemma {:induction false} FitStarts(cp: CodePage, s: seq<wchar>, room: nat)
    ensures Fit(cp, s, room) != [] ==> Fit(cp, s, room)[0] != 0
  {
    if s != [] && Blanked(s[0]) {
      FitStarts(cp, s[1..], room);
    }
  }

  // ----- the entry of a name -----

  /** fn[NS] & (NS_BODY | NS_EXT), which an entry keeps. */
  function CaseByte(flags: Flags): byte {
    (if flags.body then 8 else 0) + if flags.ext then 16 else 0
  }

  /** A short entry as it is made: the 8.3 form, the letter-case flags, zeros. */
  function ShortEntry(sfn: seq<byte>, nt: byte): (e: seq<byte>)
    requires |sfn| == 11
    ensures |e| == 32 && e[..11] == sfn && e[11] == 0 && e[12] == nt
  {
    sfn + [0, nt] + seq(19, _ => 0)
  }

  /** The bit of weight `m` is set. */
  predicate HasFlag(nt: byte, m: nat)
    requires m > 0
  {
    nt / m % 2 == 1
  }

  /** What an entry says of the letter cases. */
  function FlagsOf(e: seq<byte>): Flags
    requires |e| == 32
  {
    Flags(false, false, HasFlag(e[12], 8), HasFlag(e[12], 16))
  }

  /** The flags come back from the entry. */
  lemma FlagsStored(sfn: seq<byte>, flags: Flags)
    requires |sfn| == 11
    ensures var back := FlagsOf(ShortEntry(sfn, CaseByte(flags))); back.body == flags.body && back.ext == flags.ext
    ensures var e := ShortEntry(sfn, CaseByte(flags));
            && e[..11] == sfn && e[12] == (if flags.body then 0x08 else 0) + (if flags.ext then 0x10 else 0)
            && forall i | 11 <= i < 32 && i != 12 :: e[i] == 0
  {
  }

  // ----- printing -----

  /** get_fileinfo from byte `i` of the entry on. */
  function PrintFrom(dir: seq<byte>, flags: Flags, i: nat): seq<byte>
    requires |dir| == 11 && i <= 11
    decreases 11 - i
  {
    if i == 11 then [] else Printed(dir, flags, i) + PrintFrom(dir, flags, i + 1)
  }

  /** What one byte of the entry adds. */
  function Printed(dir: seq<byte>, flags: Flags, i: nat): seq<byte>
    requires |dir| == 11 && i < 11
  {
    if dir[i] == SPACE then [] else DotBefore(i) + [Shown(dir[i], if i >= 8 then flags.ext else flags.body)]
  }

  /** The dot in front of an extension. */
  function DotBefore(i: nat): seq<byte> {
    if i == 8 then [0x2E] else []
  }

  /** A character of an entry, in lower case if its part has that flag. */
  function Shown(c: byte, lower: bool): byte {
    if c == NDDE then Lfn.DDE else if IsUpper(c) && lower then c + 0x20 else c
  }

  /** get_fileinfo: the 8.3 name of an entry. */
  method GetFileInfo(dir: seq<byte>) returns (p: seq<byte>)
    requires |dir| == 32
    ensures p == PrintFrom(dir[..11], FlagsOf(dir), 0)
  {
    hide *;
    p := [];
    var i: nat := 0;
    ghost var form, flags := dir[..11], FlagsOf(dir);
    PrintsNothing(form, flags);
    while i < 11
      invariant i <= 11 && p + PrintFrom(form, flags, i) == PrintFrom(form, flags, 0)
    {
      ghost var before := p;
      var c := dir[i];
      i := i + 1;
      if c != SPACE {
        var dot, shown := ShowByte(c, i, dir[12]);
        p := p + dot + [shown];
        CaseOf(dir, i - 1);
      }
      PrintStep(form, flags, before, p, i - 1);
    }
    assert p + [] == p;
  }

  lemma PrintsNothing(dir: seq<byte>, flags: Flags)
    requires |dir| == 11
    ensures PrintFrom(dir, flags, 11) == [] && [] + PrintFrom(dir, flags, 0) == PrintFrom(dir, flags, 0)
  {
  }

  lemma CaseOf(dir: seq<byte>, i: nat)
    requires |dir| == 32
    ensures (if i >= 8 then HasFlag(dir[12], 16) else HasFlag(dir[12], 8)) ==
            if i >= 8 then FlagsOf(dir).ext else FlagsOf(dir).body
  {
  }

  /** The dot that may come first, and the character as it is shown; `i` is one more than its place. */
  method ShowByte(c: byte, i: nat, nt: byte) returns (dot: seq<byte>, shown: byte)
    requires i > 0
    ensures dot == DotBefore(i - 1) && shown == Shown(c, if i - 1 >= 8 then HasFlag(nt, 16) else HasFlag(nt, 8))
  {
    shown := c;
    if c == NDDE {
      shown := Lfn.DDE;
    }
    dot := [];
    if i == 9 {
      dot := [0x2E];
    }
    if IsUpper(shown) && HasFlag(nt, if i >= 9 then 16 else 8) {
      shown := shown + 0x20;
    }
  }

  lemma PrintStep(dir: seq<byte>, flags: Flags, before: seq<byte>, after: seq<byte>, k: nat)
    requires |dir| == 11 && k < 11
    requires after == if dir[k] == SPACE then before
                      else before + DotBefore(k) + [Shown(dir[k], if k >= 8 then flags.ext else flags.body)]
    ensures after + PrintFrom(dir, flags, k + 1) == before + PrintFrom(dir, flags, k)
  {
    var rest := PrintFrom(dir, flags, k + 1);
    assert PrintFrom(dir, flags, k) == Printed(dir, flags, k) + rest;
    if dir[k] == SPACE {
      assert [] + rest == rest;
    } else {
      var dot, shown := DotBefore(k), Shown(dir[k], if k >= 8 then flags.ext else flags.body);
      assert Printed(dir, flags, k) == dot + [shown];
      hide *;
      Spliced(before, dot, [shown], rest);
    }
  }

  lemma Spliced(a: seq<byte>, b: seq<byte>, c: seq<byte>, d: seq<byte>)
    ensures a + b + c + d == a + (b + c + d)
  {
  }

  /** A field that shows as the characters `shown`. */
  ghost predicate Shows(dir: seq<byte>, o: nat, len: nat, shown: seq<wchar>, lower: bool)
    requires o + len <= |dir|
  {
    && |shown| <= len
    && (forall j | o <= j < o + |shown| :: dir[j] != SPACE && Shown(dir[j], lower) == shown[j - o])
    && (forall j | o + |shown| <= j < o + len :: dir[j] == SPACE)
  }

  /** A field prints as what it shows. */
  lemma {:induction false} FieldPrinted(dir: seq<byte>, flags: Flags, o: nat, len: nat, part: seq<wchar>, k: nat)
    requires |dir| == 11 && ((o == 0 && len == 8) || (o == 8 && len == 3)) && k <= |part|
    requires Shows(dir, o, len, part, if o == 8 then flags.ext else flags.body)
    ensures o + k <= 11
    ensures PrintFrom(dir, flags, o + k)
         == (if k == 0 && part != [] then DotBefore(o) else []) + part[k..] + PrintFrom(dir, flags, o + len)
    decreases |part| - k
  {
    if k == |part| {
      Padding(dir, flags, o + k, o + len);
    } else {
      assert dir[o + k] != SPACE && Shown(dir[o + k], if o == 8 then flags.ext else flags.body) == part[k];
      assert PrintFrom(dir, flags, o + k) == DotBefore(o + k) + [part[k]] + PrintFrom(dir, flags, o + k + 1);
      assert k != 0 ==> DotBefore(o + k) == [];
      hide *;
      FieldPrinted(dir, flags, o, len, part, k + 1);
      FieldJoined(if k == 0 then DotBefore(o) else [], part, k, PrintFrom(dir, flags, o + len));
    }
  }

  lemma FieldJoined(dot: seq<byte>, part: seq<wchar>, k: nat, rest: seq<byte>)
    requires k < |part|
    ensures dot + [part[k]] + (part[k + 1..] + rest) == dot + part[k..] + rest
    ensures [] + part[k + 1..] + rest == part[k + 1..] + rest
  {
    assert part[k..] == [part[k]] + part[k + 1..];
  }

  lemma {:induction false} Padding(dir: seq<byte>, flags: Flags, i: nat, end: nat)
    requires |dir| == 11 && i <= end <= 11 && forall j | i <= j < end :: dir[j] == SPACE
    ensures PrintFrom(dir, flags, i) == PrintFrom(dir, flags, end)
    decreases end - i
  {
    if i < end {
      Padding(dir, flags, i + 1, end);
      assert dir[i] == SPACE;
    }
  }

  /** Both fields, with the dot between them. */
  lemma FieldsPrinted(dir: seq<byte>, flags: Flags, body: seq<wchar>, ext: seq<wchar>)
    requires |dir| == 11 && Shows(dir, 0, 8, body, flags.body) && Shows(dir, 8, 3, ext, flags.ext)
    ensures PrintFrom(dir, flags, 0) == body + if ext == [] then [] else [0x2E] + ext
  {
    assert PrintFrom(dir, flags, 11) == [] && DotBefore(0) == [] && DotBefore(8) == [0x2E];
    hide *;
    FieldPrinted(dir, flags, 0, 8, body, 0);
    FieldPrinted(dir, flags, 8, 3, ext, 0);
    var rest: seq<wchar> := if ext == [] then [] else [0x2E] + ext;
    FieldsJoined(body, ext, rest);
  }

  lemma FieldsJoined(body: seq<wchar>, ext: seq<wchar>, rest: seq<wchar>)
    ensures body[0..] == body && ext[0..] == ext && [] + body == body && [] + ext == ext && rest + [] == rest
    ensures [] + rest == rest
  {
  }

  /** A name held in its form and flags prints as it was, letter case included. */
  lemma PrintBack(cp: CodePage, name: seq<wchar>, flags: Flags)
    requires Exact83(cp, name) && CaseFlags(name, flags) && forall i | 0 <= i < |name| :: name[i] >= 0x20
    ensures PrintFrom(Form(cp, name), flags, 0) == name
  {
    var body, ext := BodyOf(name), ExtOf(name);
    PartsClean(name);
    FormWhole(cp, name);
    AsciiForm(cp, body, ext);
    var fn := Form(cp, name);
    assert fn == Marked(Padded(Codes(cp, body), 8) + Padded(Codes(cp, ext), 3));
    assert fn[0..8] == Padded(Codes(cp, body), 8) && fn[8..11] == Padded(Codes(cp, ext), 3);
    hide BodyOf, ExtOf, ExtAt, Codes, HasUpper, HasLower, AllKept, Ascii, PrintFrom, Form, Marked, Padded, Shows;
    AsciiShows(cp, fn, 0, 8, body, flags.body);
    AsciiShows(cp, fn, 8, 3, ext, flags.ext);
    FieldsPrinted(fn, flags, body, ext);
    WholeName(name);
  }

  lemma PartsClean(name: seq<wchar>)
    requires forall i | 0 <= i < |name| :: name[i] >= 0x20
    ensures forall i | 0 <= i < |BodyOf(name)| :: BodyOf(name)[i] >= 0x20
    ensures forall i | 0 <= i < |ExtOf(name)| :: ExtOf(name)[i] >= 0x20
    ensures Ascii(name) ==> Ascii(BodyOf(name)) && Ascii(ExtOf(name))
  {
    hide ExtAt;
  }

  /** Nothing is marked in it. */
  lemma AsciiForm(cp: CodePage, body: seq<wchar>, ext: seq<wchar>)
    requires Ascii(body) && body != [] && |Codes(cp, body)| <= 8 && |Codes(cp, ext)| <= 3
    ensures var fields := Padded(Codes(cp, body), 8) + Padded(Codes(cp, ext), 3);
            var fn := Marked(fields);
            fn == fields && fn[0..8] == Padded(Codes(cp, body), 8) && fn[8..11] == Padded(Codes(cp, ext), 3)
  {
    AsciiCodes(cp, body);
    var fields := Padded(Codes(cp, body), 8) + Padded(Codes(cp, ext), 3);
    assert fields[0] == Codes(cp, body)[0] == ToUpper(body[0]) < 0x80;
    hide Codes;
  }

  lemma AsciiShows(cp: CodePage, fn: seq<byte>, o: nat, len: nat, part: seq<wchar>, lower: bool)
    requires o + len <= |fn| && |Codes(cp, part)| <= len && fn[o..o + len] == Padded(Codes(cp, part), len)
    requires Ascii(part) && AllKept(cp, part) && (forall i | 0 <= i < |part| :: part[i] >= 0x20)
    requires !(HasLower(part) && HasUpper(part)) && (lower <==> HasLower(part))
    ensures Shows(fn, o, len, part, lower)
  {
    AsciiCodes(cp, part);
    forall j | o <= j < o + len
      ensures j < o + |part| ==> fn[j] != SPACE && Shown(fn[j], lower) == part[j - o]
      ensures j >= o + |part| ==> fn[j] == SPACE
    {
      assert fn[j] == fn[o..o + len][j - o];
      if j < o + |part| {
        var c := part[j - o];
        assert Kept(cp, c) && fn[j] == ToUpper(c);
        assert (IsLower(c) ==> HasLower(part)) && (IsUpper(c) ==> HasUpper(part));
      }
    }
  }

  lemma {:induction false} AsciiCodes(cp: CodePage, s: seq<wchar>)
    requires Ascii(s)
    ensures |Codes(cp, s)| == |s| && forall i | 0 <= i < |s| :: Codes(cp, s)[i] == ToUpper(s[i])
  {
    if s != [] {
      AsciiCodes(cp, s[..|s| - 1]);
    }
  }

  /** A name held in its form prints without the flags as its codes: capitals, in the code page. */
  lemma PrintUpper(cp: CodePage, name: seq<wchar>, flags: Flags)
    requires Tables(cp) && Shape83(cp, name) && !flags.body && !flags.ext
    requires forall i | 0 <= i < |name| :: name[i] >= 0x20
    ensures PrintFrom(Form(cp, name), flags, 0) == Codes(cp, name)
  {
    var body, ext := BodyOf(name), ExtOf(name);
    PartsClean(name);
    CodesPrint(cp, body);
    CodesPrint(cp, ext);
    var fn := Form(cp, name);
    FormWhole(cp, name);
    assert |Codes(cp, body)| <= 8 && |Codes(cp, ext)| <= 3;
    assert fn == Marked(Padded(Codes(cp, body), 8) + Padded(Codes(cp, ext), 3));
    hide *;
    MarkedShows(Codes(cp, body), Codes(cp, ext));
    FieldsPrinted(fn, flags, Codes(cp, body), Codes(cp, ext));
    CodesWhole(cp, name);
  }

  lemma MarkedShows(body: seq<byte>, ext: seq<byte>)
    requires |body| <= 8 && |ext| <= 3
    requires (forall i | 0 <= i < |body| :: body[i] > SPACE) && forall i | 0 <= i < |ext| :: ext[i] > SPACE
    ensures var fn := Marked(Padded(body, 8) + Padded(ext, 3));
            Shows(fn, 0, 8, body, false) && Shows(fn, 8, 3, ext, false)
  {
    var fields := Padded(body, 8) + Padded(ext, 3);
    var fn := Marked(fields);
    assert forall j | 0 < j < 11 :: fn[j] == fn[1..][j - 1] == fields[j];
  }

  /** No byte of a code is a space or reads as something else. */
  lemma {:induction false} CodesPrint(cp: CodePage, s: seq<wchar>)
    requires Tables(cp) && AllKept(cp, s) && forall i | 0 <= i < |s| :: s[i] >= 0x20
    ensures forall i | 0 <= i < |Codes(cp, s)| :: Codes(cp, s)[i] > SPACE
    ensures |Codes(cp, s)| >= |s|
  {
    if s != [] {
      CodesPrint(cp, s[..|s| - 1]);
      assert Kept(cp, s[|s| - 1]);
    }
  }

  lemma CodesWhole(cp: CodePage, name: seq<wchar>)
    requires Shape83(cp, name)
    ensures Codes(cp, name)
         == Codes(cp, BodyOf(name)) + if Codes(cp, ExtOf(name)) == [] then [] else [0x2E] + Codes(cp, ExtOf(name))
  {
    var body, ext := BodyOf(name), ExtOf(name);
    WholeName(name);
    CodesGrow(cp, ext, 0);
    assert Code(cp, 0x2E) == [0x2E] && Codes(cp, []) == [];
    assert Codes(cp, [0x2E]) == [0x2E];
    assert ext[..|ext|] == ext;
    hide *;
    if ext == [] {
      assert body + [] == body;
    } else {
      CodesJoined(cp, body, [0x2E] + ext);
      CodesJoined(cp, [0x2E], ext);
    }
  }

  lemma {:induction false} CodesJoined(cp: CodePage, a: seq<wchar>, b: seq<wchar>)
    ensures Codes(cp, a + b) == Codes(cp, a) + Codes(cp, b)
  {
    hide *;
    if b == [] {
      NoCodes(cp, a);
    } else {
      var front, c := b[..|b| - 1], b[|b| - 1];
      CodesJoined(cp, a, front);
      Reattached(a, b);
      CodesLast(cp, front, c);
      CodesLast(cp, a + front, c);
      Associates(Codes(cp, a), Codes(cp, front), Code(cp, c));
    }
  }

  lemma NoCodes(cp: CodePage, a: seq<wchar>)
    ensures Codes(cp, a + []) == Codes(cp, a) + Codes(cp, [])
  {
    assert a + [] == a;
  }

  lemma Reattached(a: seq<wchar>, b: seq<wchar>)
    requires b != []
    ensures b == b[..|b| - 1] + [b[|b| - 1]] && a + b == a + b[..|b| - 1] + [b[|b| - 1]]
  {
  }

  lemma Associates(a: seq<byte>, b: seq<byte>, c: seq<byte>)
    ensures a + b + c == a + (b + c)
  {
  }

  lemma CodesLast(cp: CodePage, s: seq<wchar>, c: wchar)
    ensures Codes(cp, s + [c]) == Codes(cp, s) + Code(cp, c)
  {
    var t := s + [c];
    assert t[..|t| - 1] == s;
  }

  lemma {:induction false} CodesGrow(cp: CodePage, s: seq<wchar>, n: nat)
    requires n <= |s|
    ensures |Codes(cp, s)| >= |Codes(cp, s[..n])| + |s| - n
    decreases |s|
  {
    if n < |s| {
      CodesGrow(cp, s[..|s| - 1], n);
      assert s[..|s| - 1][..n] == s[..n];
    } else {
      assert s[..n] == s;
    }
  }

  lemma WholeName(name: seq<wchar>)
    requires ExtAt(name) > 0 ==> ExtOf(name) != []
    ensures BodyOf(name) + (if ExtOf(name) == [] then [] else [0x2E] + ExtOf(name)) == name
  {
    var d: nat := ExtAt(name);
    if d == 0 {
      assert name + [] == name;
    } else {
      assert ExtOf(name) == name[d..] && BodyOf(name) == name[..d - 1] && name[d - 1] == 0x2E;
      hide *;
      Joined(name, d);
    }
  }

  lemma Joined(name: seq<wchar>, d: nat)
    requires 0 < d <= |name| && name[d - 1] == 0x2E
    ensures name[..d - 1] + ([0x2E] + name[d..]) == name
  {
  }
}
