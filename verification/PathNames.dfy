/** create_name: a segment of a path as a name and in 8.3 form. */
module PathNames {
  import opened Bytes
  import opened ShortNames
  import Lfn

  lemma CodesNext(cp: CodePage, part: seq<wchar>, n: nat)
    requires n < |part|
    ensures Codes(cp, part[..n + 1]) == Codes(cp, part[..n]) + Code(cp, part[n])
  {
    assert part[..n + 1] == part[..n] + [part[n]];
    CodesLast(cp, part[..n], part[n]);
  }

  // ----- the 8.3 form -----

  /** Two bits of the variable `b`: capitals and small capitals seen in a part. */
  datatype Case = Case(upper: bool, lower: bool)

  function Seen(b: Case, w: wchar): Case {
    if IsUpper(w) then b.(upper := true) else if IsLower(w) then b.(lower := true) else b
  }

  const NONE := Case(false, false)

  predicate Tells(b: Case, part: seq<wchar>) {
    (b.upper <==> HasUpper(part)) && (b.lower <==> HasLower(part))
  }

  /** The first `n` characters of `part` are kept and fit. */
  ghost predicate PartAt(cp: CodePage, part: seq<wchar>, n: nat, room: nat) {
    n <= |part| && AllKept(cp, part[..n]) && |Codes(cp, part[..n])| <= room
  }

  /** How far the loop got, as long as nothing was lost: `si` characters are read, `i` of `ni` places are filled. */
  ghost predicate Progress(cp: CodePage, name: seq<wchar>, si: nat, i: nat, ni: nat) {
    var e := ExtAt(name);
    && si <= |name|
    && if ni == 8 then
         PartAt(cp, BodyOf(name), si, 8) && i == |Codes(cp, BodyOf(name)[..si])|
       else
         && ni == 11 && 0 < e <= si && PartAt(cp, BodyOf(name), |BodyOf(name)|, 8)
         && PartAt(cp, ExtOf(name), si - e, 3) && i == 8 + |Codes(cp, ExtOf(name)[..si - e])|
  }

  /** What is known of the letters read: `wide` if one is not ASCII, else their cases by part. */
  ghost predicate Letters(name: seq<wchar>, si: nat, ni: nat, wide: bool, body: Case, b: Case) {
    si <= |name| && (wide <==> !Ascii(name[..si])) && (!wide ==> Cases(name, si, ni, body, b))
  }

  ghost predicate Cases(name: seq<wchar>, si: nat, ni: nat, body: Case, b: Case)
    requires si <= |name|
  {
    var e := ExtAt(name);
    if ni == 8 then si <= |BodyOf(name)| && Tells(b, BodyOf(name)[..si])
    else 0 < e <= si && Tells(body, BodyOf(name)) && Tells(b, ExtOf(name)[..si - e])
  }

  function Blank(): (fn: seq<byte>)
    ensures |fn| == 11
  {
    seq(11, _ => 0x20)
  }

  /** A character other than the extension's dot is one of its part. */
  lemma InPart(name: seq<wchar>, k: nat)
    requires k < |name| && k + 1 != ExtAt(name)
    ensures var e := ExtAt(name);
            if e == 0 || k < e then k < |BodyOf(name)| && BodyOf(name)[k] == name[k]
            else k - e < |ExtOf(name)| && ExtOf(name)[k - e] == name[k]
  {
    hide ExtAt;
  }

  /** A character that is not kept: no 8.3 name. */
  lemma LostChar(cp: CodePage, name: seq<wchar>, k: nat)
    requires k < |name| && !Kept(cp, name[k]) && k + 1 != ExtAt(name)
    ensures !Shape83(cp, name)
  {
    InPart(name, k);
    hide ExtAt, BodyOf, ExtOf, Kept, Codes;
  }

  /** No room for the next character. */
  lemma TooLong(cp: CodePage, name: seq<wchar>, k: nat, i: nat, ni: nat)
    requires k < |name| && k + 1 != ExtAt(name) && i + |Code(cp, name[k])| > ni && Progress(cp, name, k, i, ni)
    ensures !Shape83(cp, name)
  {
    InPart(name, k);
    hide Code, Codes, AllKept;
    if ni == 8 {
      assert k <= |BodyOf(name)|;
      SplitName(name);
      hide BodyOf, ExtOf, ExtAt;
      OverLong(cp, BodyOf(name), k, 8);
    } else {
      hide BodyOf, ExtOf, ExtAt;
      OverLong(cp, ExtOf(name), k - ExtAt(name), 3);
    }
  }

  lemma SplitName(name: seq<wchar>)
    ensures var e := ExtAt(name);
            if e == 0 then BodyOf(name) == name && ExtOf(name) == []
            else |BodyOf(name)| == e - 1 > 0 && |ExtOf(name)| == |name| - e
  {
    hide ExtAt;
  }

  lemma OverLong(cp: CodePage, part: seq<wchar>, n: nat, len: nat)
    requires n < |part| && |Codes(cp, part[..n])| + |Code(cp, part[n])| > len
    ensures |Codes(cp, part)| > len
  {
    hide *;
    CodesNext(cp, part, n);
    CodesGrow(cp, part, n + 1);
  }

  /** The last dot: from the body to the extension. */
  lemma EnterExt(cp: CodePage, name: seq<wchar>, k: nat, i: nat, wide: bool, body: Case, b: Case)
    requires k < |name| && k + 1 == ExtAt(name) && Progress(cp, name, k, i, 8) && Letters(name, k, 8, wide, body, b)
    ensures Progress(cp, name, k + 1, 8, 11) && Letters(name, k + 1, 11, wide, b, NONE)
  {
    SplitName(name);
    AsciiNext(name, k);
    assert BodyOf(name)[..k] == BodyOf(name) && ExtOf(name)[..0] == [];
    hide BodyOf, ExtOf, ExtAt, Ascii;
  }

  /** One character more. */
  lemma PutChar(cp: CodePage, name: seq<wchar>, k: nat, i: nat, ni: nat)
    requires k < |name| && k + 1 != ExtAt(name) && Kept(cp, name[k]) && i + |Code(cp, name[k])| <= ni
    requires Progress(cp, name, k, i, ni)
    ensures Progress(cp, name, k + 1, i + |Code(cp, name[k])|, ni)
  {
    InPart(name, k);
    SplitName(name);
    hide BodyOf, ExtOf, ExtAt, Kept, Code, Codes, AllKept;
    if ni == 8 {
      PartNext(cp, BodyOf(name), k, 8);
    } else {
      PartNext(cp, ExtOf(name), k - ExtAt(name), 3);
    }
  }

  lemma PartNext(cp: CodePage, part: seq<wchar>, n: nat, room: nat)
    requires n < |part| && PartAt(cp, part, n, room) && Kept(cp, part[n])
    requires |Codes(cp, part[..n])| + |Code(cp, part[n])| <= room
    ensures PartAt(cp, part, n + 1, room)
    ensures |Codes(cp, part[..n + 1])| == |Codes(cp, part[..n])| + |Code(cp, part[n])|
  {
    CodesNext(cp, part, n);
    assert part[..n + 1] == part[..n] + [part[n]];
    hide Codes, Code, Kept;
  }

  lemma PutLetter(cp: CodePage, name: seq<wchar>, k: nat, ni: nat, wide: bool, body: Case, b: Case)
    requires k < |name| && (ni == 8 || ni == 11) && k + 1 != ExtAt(name)
    requires Letters(name, k, ni, wide, body, b)
    ensures Letters(name, k + 1, ni, wide || name[k] >= 0x80, body, Seen(b, OemOf(cp, name[k])))
  {
    AsciiNext(name, k);
    hide Ascii, Cases, Seen, ExtStart;
    if !wide && name[k] < 0x80 {
      CaseStep(name, k, ni, body, b);
    }
  }

  lemma AsciiNext(s: seq<wchar>, k: nat)
    requires k < |s|
    ensures Ascii(s[..k + 1]) <==> Ascii(s[..k]) && s[k] < 0x80
  {
    assert s[..k + 1] == s[..k] + [s[k]];
  }

  lemma CaseStep(name: seq<wchar>, k: nat, ni: nat, body: Case, b: Case)
    requires k < |name| && (ni == 8 || ni == 11) && k + 1 != ExtAt(name) && Cases(name, k, ni, body, b)
    ensures Cases(name, k + 1, ni, body, Seen(b, name[k]))
  {
    InPart(name, k);
    SplitName(name);
    hide HasUpper, HasLower, Seen, BodyOf, ExtOf, ExtAt;
    if ni == 8 {
      TellsNext(BodyOf(name), k, b);
    } else {
      TellsNext(ExtOf(name), k - ExtAt(name), b);
    }
  }

  lemma TellsNext(part: seq<wchar>, n: nat, b: Case)
    requires n < |part| && Tells(b, part[..n])
    ensures Tells(Seen(b, part[n]), part[..n + 1])
  {
    assert part[..n + 1] == part[..n] + [part[n]];
    hide HasUpper, HasLower;
    CaseNext(part[..n], part[n]);
  }

  lemma CaseNext(part: seq<wchar>, c: wchar)
    ensures HasUpper(part + [c]) <==> HasUpper(part) || IsUpper(c)
    ensures HasLower(part + [c]) <==> HasLower(part) || IsLower(c)
  {
    var next := part + [c];
    assert next[|part|] == c;
    assert forall i | 0 <= i < |part| :: next[i] == part[i];
  }

  /** At the end of the name. */
  lemma Finish(cp: CodePage, name: seq<wchar>, i: nat, ni: nat, wide: bool, body: Case, b: Case)
    requires name != [] && !Blanked(name[|name| - 1])
    requires Progress(cp, name, |name|, i, ni) && Letters(name, |name|, ni, wide, body, b)
    ensures Shape83(cp, name) && (wide <==> !Ascii(name))
    ensures !wide ==> if ni == 8 then Tells(b, BodyOf(name)) && Tells(NONE, ExtOf(name))
                      else Tells(body, BodyOf(name)) && Tells(b, ExtOf(name))
  {
    SplitName(name);
    assert name[..|name|] == name;
    assert BodyOf(name)[..|BodyOf(name)|] == BodyOf(name) && ExtOf(name)[..|ExtOf(name)|] == ExtOf(name);
    assert ExtOf(name) == [] ==> AllKept(cp, ExtOf(name)) && Codes(cp, ExtOf(name)) == [];
    hide BodyOf, ExtOf, ExtAt, Ascii, AllKept, Codes;
  }

  // ----- what the fields hold, lost or not -----

  /** `used` is what the first `n` characters of `part` put into a field with `room` places; `i` are filled, all of them
      as soon as a character did not fit. */
  ghost predicate Upto(cp: CodePage, part: seq<wchar>, n: nat, room: nat, used: seq<byte>, i: int) {
    && n <= |part| && |used| <= room && i <= room && (i < room ==> i == |used|)
    && Fit(cp, part, room) == used + if i == room then [] else Fit(cp, part[n..], room - |used|)
  }

  lemma {:induction false} UptoBlanks(cp: CodePage, part: seq<wchar>, n: nat, room: nat)
    requires n <= |part| && room > 0 && forall j | 0 <= j < n :: Blanked(part[j])
    ensures Upto(cp, part, n, room, [], 0)
  {
    if n == 0 {
      assert part[0..] == part;
    } else {
      UptoBlanks(cp, part, n - 1, room);
      UptoBlank(cp, part, n - 1, room, [], 0);
    }
  }

  lemma UptoBlank(cp: CodePage, part: seq<wchar>, n: nat, room: nat, used: seq<byte>, i: int)
    requires n < |part| && Blanked(part[n]) && Upto(cp, part, n, room, used, i)
    ensures Upto(cp, part, n + 1, room, used, i)
  {
    assert part[n..][1..] == part[n + 1..];
  }

  lemma UptoChar(cp: CodePage, part: seq<wchar>, n: nat, room: nat, used: seq<byte>, i: int)
    requires n < |part| && !Blanked(part[n]) && Upto(cp, part, n, room, used, i) && i < room
    ensures var c := Shortened(cp, part[n]);
            if i + |c| <= room then Upto(cp, part, n + 1, room, used + c, i + |c|)
            else Upto(cp, part, n + 1, room, used, room)
  {
    var c, rest := Shortened(cp, part[n]), part[n + 1..];
    assert part[n..][0] == part[n] && part[n..][1..] == rest;
    if i + |c| <= room {
      var more := Fit(cp, rest, room - |used| - |c|);
      assert Fit(cp, part[n..], room - |used|) == c + more;
      hide Fit;
      assert used + (c + more) == used + c + more;
    } else {
      assert used + [] == used;
    }
  }

  /** Nothing more fits, or nothing is left. */
  lemma UptoEnd(cp: CodePage, part: seq<wchar>, n: nat, room: nat, used: seq<byte>, i: int)
    requires Upto(cp, part, n, room, used, i) && (i == room || n == |part|)
    ensures Fit(cp, part, room) == used && Upto(cp, part, |part|, room, used, i)
  {
    assert used + [] == used;
    assert part[|part|..] == [];
  }

  /** The fields after `si` characters; `used` is in the field at hand. */
  ghost predicate Placed(cp: CodePage, name: seq<wchar>, fn: seq<byte>, si: nat, i: nat, ni: nat, used: seq<byte>) {
    var e := ExtAt(name);
    && si <= |name|
    && if ni == 8 then
         Upto(cp, BodyOf(name), si, 8, used, i) && fn == Padded(used, 8) + Padded([], 3)
       else
         && ni == 11 && 0 < e <= si && i >= 8 && Upto(cp, ExtOf(name), si - e, 3, used, i - 8)
         && fn == Padded(Fit(cp, BodyOf(name), 8), 8) + Padded(used, 3)
  }

  lemma PlacedBlank(cp: CodePage, name: seq<wchar>, fn: seq<byte>, k: nat, i: nat, ni: nat, used: seq<byte>)
    requires k < |name| && Blanked(name[k]) && k + 1 != ExtAt(name) && Placed(cp, name, fn, k, i, ni, used)
    ensures Placed(cp, name, fn, k + 1, i, ni, used)
  {
    InPart(name, k);
    SplitName(name);
    hide BodyOf, ExtOf, ExtAt, Fit, Padded;
    if ni == 8 {
      UptoBlank(cp, BodyOf(name), k, 8, used, i);
    } else {
      UptoBlank(cp, ExtOf(name), k - ExtAt(name), 3, used, i - 8);
    }
  }

  /** A character that is no blank: put in place if it fits. */
  lemma PlacedChar(cp: CodePage, name: seq<wchar>, fn: seq<byte>, k: nat, i: nat, ni: nat, used: seq<byte>)
    requires k < |name| && !Blanked(name[k]) && k + 1 != ExtAt(name) && i < ni && Placed(cp, name, fn, k, i, ni, used)
    ensures var c := Shortened(cp, name[k]);
            |fn| == 11 && ni <= 11
            && if i + |c| <= ni then Placed(cp, name, Splice(fn, i, c), k + 1, i + |c|, ni, used + c)
               else Placed(cp, name, fn, k + 1, ni, ni, used)
  {
    InPart(name, k);
    SplitName(name);
    var c := Shortened(cp, name[k]);
    hide BodyOf, ExtOf, ExtAt, Fit, Shortened;
    if ni == 8 {
      UptoChar(cp, BodyOf(name), k, 8, used, i);
      if i + |c| <= 8 {
        FirstField(used, c);
      }
    } else {
      UptoChar(cp, ExtOf(name), k - ExtAt(name), 3, used, i - 8);
      if i + |c| <= 11 {
        SecondField(Padded(Fit(cp, BodyOf(name), 8), 8), used, c);
      }
    }
  }

  lemma FirstField(used: seq<byte>, c: seq<byte>)
    requires |used| + |c| <= 8
    ensures Splice(Padded(used, 8) + Padded([], 3), |used|, c) == Padded(used + c, 8) + Padded([], 3)
  {
  }

  lemma SecondField(first: seq<byte>, used: seq<byte>, c: seq<byte>)
    requires |first| == 8 && |used| + |c| <= 3
    ensures Splice(first + Padded(used, 3), 8 + |used|, c) == first + Padded(used + c, 3)
  {
  }

  /** The last dot. */
  lemma PlacedDot(cp: CodePage, name: seq<wchar>, fn: seq<byte>, k: nat, i: nat, used: seq<byte>)
    requires k <= |BodyOf(name)| && ExtAt(name) > 0 && (i >= 8 || k + 1 == ExtAt(name))
    requires Placed(cp, name, fn, k, i, 8, used)
    ensures Placed(cp, name, fn, ExtAt(name), 8, 11, [])
  {
    SplitName(name);
    hide BodyOf, ExtOf, ExtAt, Fit, Padded;
    UptoEnd(cp, BodyOf(name), k, 8, used, i);
    UptoBlanks(cp, ExtOf(name), 0, 3);
  }

  /** At the end, or as soon as nothing more fits into the last field. */
  lemma PlacedEnd(cp: CodePage, name: seq<wchar>, fn: seq<byte>, k: nat, i: nat, ni: nat, used: seq<byte>)
    requires Placed(cp, name, fn, k, i, ni, used) && (i >= ni || k == |name|) && (ni == 8 ==> ExtAt(name) == 0)
    ensures fn == Fields(cp, name) && Placed(cp, name, fn, |name|, i, ni, used)
  {
    SplitName(name);
    assert Fit(cp, [], 3) == [];
    hide BodyOf, ExtOf, ExtAt, Fit, Padded;
    if ni == 8 {
      UptoEnd(cp, BodyOf(name), k, 8, used, i);
    } else {
      UptoEnd(cp, ExtOf(name), k - ExtAt(name), 3, used, i - 8);
    }
  }

  // ----- the loop -----

  /** Spaces and dots in front. */
  method LeadingBlanks(name: seq<wchar>) returns (si: nat)
    requires name != [] && !Blanked(name[|name| - 1])
    ensures si < |name| && !Blanked(name[si]) && forall j | 0 <= j < si :: Blanked(name[j])
  {
    si := 0;
    while Blanked(name[si])
      invariant si < |name| && forall j | 0 <= j < si :: Blanked(name[j])
      decreases |name| - si
    {
      si := si + 1;
    }
  }

  /** Behind the last dot. */
  method LastDot(name: seq<wchar>) returns (d: nat)
    ensures d == ExtStart(name, |name|)
  {
    d := |name|;
    while d > 0 && name[d - 1] != DOT
      invariant d <= |name| && ExtStart(name, |name|) == ExtStart(name, d)
    {
      d := d - 1;
    }
  }

  /** A character above ASCII is converted and remembered. */
  method ToOem(cp: CodePage, c: wchar, seen: bool) returns (w: wchar, wide: bool)
    ensures w == OemOf(cp, c) && (wide <==> seen || c >= 0x80)
  {
    w, wide := c, seen;
    if w >= 0x80 {
      w := Convert(cp.oem, cp.upper(w));
      wide := true;
    }
  }

  /** A character that is not lost: its codes, and whether it is not ASCII. */
  method PutCode(fn: seq<byte>, i: nat, w: wchar, b: Case) returns (fn': seq<byte>, i': nat, b': Case)
    requires i < |fn| && (w >= 0x100 ==> i + 1 < |fn|)
    ensures i' == (if w >= 0x100 then i + 2 else i + 1) && b' == Seen(b, w)
    ensures |fn'| == |fn| && fn' == Splice(fn, i, CodeBytes(ToUpper(w)))
  {
    fn', i', b' := fn, i, b;
    var c := w;
    if w >= 0x100 {
      fn' := fn'[i' := w / 0x100];
      i' := i' + 1;
    } else if IsUpper(w) {
      b' := b'.(upper := true);
    } else if IsLower(w) {
      b' := b'.(lower := true);
      c := w - 0x20;
    }
    fn' := fn'[i' := c % 0x100];
    i' := i' + 1;
  }

  /** What is known in the loop. */
  ghost predicate Known(cp: CodePage, name: seq<wchar>, fn: seq<byte>, si: nat, i: nat, ni: nat, loss: bool, wide: bool,
                        high: Case, b: Case, used: seq<byte>) {
    && Placed(cp, name, fn, si, i, ni, used)
    && if loss then !Shape83(cp, name) else Progress(cp, name, si, i, ni) && Letters(name, si, ni, wide, high, b)
  }

  /** Where the extension begins, seen from the first character that is neither space nor dot. */
  lemma ExtSeen(name: seq<wchar>, start: nat)
    requires start < |name| && !Blanked(name[start]) && forall j | 0 <= j < start :: Blanked(name[j])
    ensures ExtAt(name) == if ExtStart(name, |name|) > start then ExtStart(name, |name|) else 0
  {
    hide ExtStart;
  }

  lemma Starts(cp: CodePage, name: seq<wchar>, start: nat)
    requires start < |name| && !Blanked(name[start]) && forall j | 0 <= j < start :: Blanked(name[j])
    ensures Known(cp, name, Blank(), start, 0, 8, start > 0, false, NONE, NONE, [])
  {
    SplitName(name);
    ExtSeen(name, start);
    assert Blank() == Padded([], 8) + Padded([], 3);
    var body := BodyOf(name);
    assert start < |body| && forall j | 0 <= j < start :: body[j] == name[j] by {
      InPart(name, start);
    }
    hide ExtAt, BodyOf, ExtOf, Fit, Padded, ExtStart;
    UptoBlanks(cp, body, start, 8);
    if start > 0 {
      LostChar(cp, name, 0);
    } else {
      assert body[..0] == [];
    }
  }

  /** A double-byte character that does not fit. */
  lemma LostWide(cp: CodePage, name: seq<wchar>, fn: seq<byte>, k: nat, i: nat, ni: nat, loss: bool, wide: bool,
                 high: Case, b: Case, used: seq<byte>, wide': bool)
    requires k < |name| && !Blanked(name[k]) && k + 1 != ExtAt(name) && OemOf(cp, name[k]) >= 0x100 && i == ni - 1
    requires Known(cp, name, fn, k, i, ni, loss, wide, high, b, used)
    ensures Known(cp, name, fn, k + 1, ni, ni, true, wide', high, b, used)
  {
    hide Placed, Shape83, Progress, Letters, OemOf, ExtAt, Blanked;
    assert |Shortened(cp, name[k])| == |Code(cp, name[k])| == 2;
    PlacedChar(cp, name, fn, k, i, ni, used);
    if !loss {
      TooLong(cp, name, k, i, ni);
    }
  }

  /** A character that has no place in an 8.3 form. */
  lemma LostBad(cp: CodePage, name: seq<wchar>, fn: seq<byte>, k: nat, i: nat, ni: nat, loss: bool, wide: bool,
                high: Case, b: Case, used: seq<byte>, wide': bool)
    requires k < |name| && !Blanked(name[k]) && k + 1 != ExtAt(name) && i < ni
    requires OemOf(cp, name[k]) == 0 || Replaced(OemOf(cp, name[k]))
    requires Known(cp, name, fn, k, i, ni, loss, wide, high, b, used)
    ensures |fn| == 11 && ni <= 11
    ensures Known(cp, name, Splice(fn, i, CodeBytes(ToUpper(0x5F))), k + 1, i + 1, ni, true, wide', high, Seen(b, 0x5F),
                  used + Shortened(cp, name[k]))
  {
    hide Placed, Shape83, Progress, Letters, OemOf, ExtAt, Blanked, Replaced;
    assert Shortened(cp, name[k]) == [0x5F] == CodeBytes(ToUpper(0x5F));
    PlacedChar(cp, name, fn, k, i, ni, used);
    LostChar(cp, name, k);
  }

  /** A character that is kept. */
  lemma KeptChar(cp: CodePage, name: seq<wchar>, fn: seq<byte>, k: nat, i: nat, ni: nat, loss: bool, wide: bool,
                 high: Case, b: Case, used: seq<byte>, w: wchar)
    requires k < |name| && !Blanked(name[k]) && k + 1 != ExtAt(name) && i < ni && (ni == 8 || ni == 11)
    requires w == OemOf(cp, name[k]) && w != 0 && !Replaced(w) && (w >= 0x100 ==> i < ni - 1)
    requires Known(cp, name, fn, k, i, ni, loss, wide, high, b, used)
    ensures |fn| == 11 && (w >= 0x100 ==> i + 2 <= ni)
    ensures Known(cp, name, Splice(fn, i, CodeBytes(ToUpper(w))), k + 1, if w >= 0x100 then i + 2 else i + 1, ni, loss,
                  wide || name[k] >= 0x80, high, Seen(b, w), used + Shortened(cp, name[k]))
  {
    hide Placed, Shape83, Progress, Letters, OemOf, ExtAt, Blanked, Replaced, CodeBytes;
    assert Shortened(cp, name[k]) == CodeBytes(ToUpper(w)) == Code(cp, name[k]);
    PlacedChar(cp, name, fn, k, i, ni, used);
    if !loss {
      PutChar(cp, name, k, i, ni);
      PutLetter(cp, name, k, ni, wide, high, b);
    }
  }

  /** The end of the loop body: a character of the name that is put in place, or is lost. */
  method PutNext(cp: CodePage, name: seq<wchar>, fn: seq<byte>, k: nat, i: nat, ni: nat, loss: bool, wide: bool,
                 b: Case, ghost high: Case, ghost used: seq<byte>)
    returns (fn': seq<byte>, i': nat, loss': bool, wide': bool, b': Case, ghost used': seq<byte>)
    requires k < |name| && !Blanked(name[k]) && k + 1 != ExtAt(name)
    requires |fn| == 11 && (ni == 8 || ni == 11) && i < ni && Known(cp, name, fn, k, i, ni, loss, wide, high, b, used)
    ensures |fn'| == 11 && i' <= ni && Known(cp, name, fn', k + 1, i', ni, loss', wide', high, b', used')
  {
    hide *;
    fn', i', loss', b', used' := fn, i, loss, b, used;
    var w;
    w, wide' := ToOem(cp, name[k], wide);
    if w >= 0x100 && i >= ni - 1 {
      LostWide(cp, name, fn, k, i, ni, loss, wide, high, b, used, wide');
      loss', i' := true, ni;
      return;
    }
    if w == 0 || Replaced(w) {
      LostBad(cp, name, fn, k, i, ni, loss, wide, high, b, used, wide');
      w, loss' := 0x5F, true;
    } else {
      KeptChar(cp, name, fn, k, i, ni, loss, wide, high, b, used, w);
    }
    used' := used + Shortened(cp, name[k]);
    fn', i', b' := PutCode(fn, i, w, b);
  }

  lemma LostBlank(cp: CodePage, name: seq<wchar>, fn: seq<byte>, k: nat, i: nat, ni: nat, loss: bool, wide: bool,
                  high: Case, b: Case, used: seq<byte>)
    requires k < |name| && (name[k] == SPACE || (name[k] == DOT && k + 1 != ExtAt(name)))
    requires Known(cp, name, fn, k, i, ni, loss, wide, high, b, used)
    ensures Known(cp, name, fn, k + 1, i, ni, true, wide, high, b, used)
  {
    hide Placed, Shape83, Progress, Letters, ExtAt;
    assert !Kept(cp, name[k]) && k + 1 != ExtAt(name);
    LostChar(cp, name, k);
    PlacedBlank(cp, name, fn, k, i, ni, used);
  }

  lemma NoRoom(cp: CodePage, name: seq<wchar>, fn: seq<byte>, k: nat, i: nat, ni: nat, loss: bool, wide: bool,
               high: Case, b: Case, used: seq<byte>)
    requires k < |name| && k + 1 != ExtAt(name) && i >= ni
    requires Known(cp, name, fn, k, i, ni, loss, wide, high, b, used)
    ensures !Shape83(cp, name) && Known(cp, name, fn, k, i, ni, true, wide, high, b, used)
  {
    hide Placed, Shape83, Progress, Letters, ExtAt;
    if !loss {
      TooLong(cp, name, k, i, ni);
    }
  }

  /** Nothing more fits into the last field. */
  lemma Stops(cp: CodePage, name: seq<wchar>, fn: seq<byte>, k: nat, i: nat, ni: nat, wide: bool, high: Case, b: Case,
              used: seq<byte>)
    requires i >= ni && (ni == 8 ==> ExtAt(name) <= k) && Known(cp, name, fn, k, i, ni, true, wide, high, b, used)
    ensures Known(cp, name, fn, |name|, i, ni, true, wide, high, b, used)
  {
    assert ni == 8 ==> ExtAt(name) == 0 by {
      SplitName(name);
      hide ExtAt, BodyOf, ExtOf, Fit, Padded, Shape83;
    }
    hide Placed, Shape83, ExtAt;
    PlacedEnd(cp, name, fn, k, i, ni, used);
  }

  /** On to the extension. */
  lemma Enters(cp: CodePage, name: seq<wchar>, fn: seq<byte>, k: nat, i: nat, loss: bool, wide: bool, high: Case,
               b: Case, used: seq<byte>)
    requires k < ExtAt(name) && (k + 1 == ExtAt(name) || (i >= 8 && loss))
    requires Known(cp, name, fn, k, i, 8, loss, wide, high, b, used)
    ensures Known(cp, name, fn, ExtAt(name), 8, 11, loss, wide, b, NONE, [])
  {
    SplitName(name);
    hide Placed, Shape83, Progress, Letters, ExtAt;
    PlacedDot(cp, name, fn, k, i, used);
    if !loss {
      EnterExt(cp, name, k, i, wide, high, b);
    }
  }

  /** A field is full or the last dot is reached: is anything lost, and is that the end? Else the extension begins. */
  method PartOver(cp: CodePage, name: seq<wchar>, fn: seq<byte>, si: nat, d: nat, i: nat, ni: nat, loss: bool,
                  ghost wide: bool, ghost high: Case, ghost b: Case, ghost used: seq<byte>)
    returns (over: bool, loss': bool)
    requires 0 < si <= |name| && (ni == 8 || ni == 11) && (i >= ni || si == d) && (ni == 11 ==> i >= ni && d < si)
    requires ExtAt(name) == d || (ExtAt(name) == 0 && d < si)
    requires Known(cp, name, fn, si - 1, i, ni, loss, wide, high, b, used)
    ensures over ==> Known(cp, name, fn, |name|, i, ni, loss', wide, high, b, used)
    ensures !over ==> ni == 8 && si <= d && Known(cp, name, fn, d, 8, 11, loss', wide, b, NONE, [])
  {
    hide *;
    if ni == 11 {
      NoRoom(cp, name, fn, si - 1, i, ni, loss, wide, high, b, used);
      Stops(cp, name, fn, si - 1, i, ni, wide, high, b, used);
      return true, true;
    }
    loss' := loss;
    if si != d {
      NoRoom(cp, name, fn, si - 1, i, ni, loss, wide, high, b, used);
      loss' := true;
    }
    over := si > d;
    if over {
      Stops(cp, name, fn, si - 1, i, ni, wide, high, b, used);
    } else {
      Enters(cp, name, fn, si - 1, i, loss', wide, high, b, used);
    }
  }

  /** The loop of create_name that fills the two fields: `high` are the case bits of the body once it is left. */
  method FillForm(cp: CodePage, name: seq<wchar>, start: nat, d: nat)
    returns (fn: seq<byte>, loss: bool, wide: bool, i: nat, ni: nat, high: Case, b: Case, ghost used: seq<byte>)
    requires start < |name| && !Blanked(name[start]) && forall j | 0 <= j < start :: Blanked(name[j])
    requires d == ExtStart(name, |name|)
    ensures |fn| == 11 && (ni == 8 || ni == 11) && Known(cp, name, fn, |name|, i, ni, loss, wide, high, b, used)
  {
    hide *;
    fn := Blank();
    loss, wide, used := start > 0, false, [];
    var si: nat := start;
    b, high, i, ni := NONE, NONE, 0, 8;
    Starts(cp, name, start);
    ExtSeen(name, start);
    while si < |name|
      invariant |fn| == 11 && start <= si <= |name| && (ni == 8 || ni == 11) && i <= ni && (ni == 11 ==> d <= si)
      invariant Known(cp, name, fn, si, i, ni, loss, wide, high, b, used)
      decreases |name| - si
    {
      var w := name[si];
      si := si + 1;
      if w == SPACE || (w == DOT && si != d) {
        LostBlank(cp, name, fn, si - 1, i, ni, loss, wide, high, b, used);
        loss := true;
        continue;
      }
      if i >= ni || si == d {
        var over;
        over, loss := PartOver(cp, name, fn, si, d, i, ni, loss, wide, high, b, used);
        if over {
          break;
        }
        si, i, ni := d, 8, 11;
        high, b, used := b, NONE, [];
        continue;
      }
      Blanks(w);
      fn, i, loss, wide, b, used := PutNext(cp, name, fn, si - 1, i, ni, loss, wide, b, high, used);
    }
  }

  lemma Blanks(w: wchar)
    ensures Blanked(w) <==> w == SPACE || w == DOT
  {
  }

  /** create_name, second half: the 8.3 form of a name, told what is lost and whether it needs long entries. */
  method ShortForm(cp: CodePage, name: seq<wchar>) returns (fn: seq<byte>, flags: Flags)
    requires name != [] && !Blanked(name[|name| - 1])
    ensures fn == Form(cp, name) && FlagsFor(cp, name, flags)
  {
    var start := LeadingBlanks(name);
    var d := LastDot(name);
    var loss, wide, i, ni, high, b;
    ghost var used;
    fn, loss, wide, i, ni, high, b, used := FillForm(cp, name, start, d);
    Finished(cp, name, fn, i, ni, loss, wide, high, b, used);
    hide Known, Form, Fields, FlagsFor, Shape83, Tells, BodyOf, ExtOf, Ascii;
    if fn[0] == Lfn.DDE {
      fn := fn[0 := NDDE];
    }
    assert fn == Form(cp, name) by {
      MarkedFields(cp, name);
    }
    if ni == 8 {
      high, b := b, NONE;
    }
    var lfn := loss || wide;
    if (high.upper && high.lower) || (b.upper && b.lower) {
      lfn := true;
    }
    flags := Flags(loss, lfn, !lfn && high.lower && !high.upper, !lfn && b.lower && !b.upper);
    FlagsMade(cp, name, loss, wide, high, b, flags);
  }

  lemma MarkedFields(cp: CodePage, name: seq<wchar>)
    ensures var fn := Fields(cp, name); Form(cp, name) == if fn[0] == Lfn.DDE then fn[0 := NDDE] else fn
  {
    hide Fields;
  }

  lemma FlagsMade(cp: CodePage, name: seq<wchar>, loss: bool, wide: bool, body: Case, ext: Case, flags: Flags)
    requires loss <==> !Shape83(cp, name)
    requires !loss ==> (wide <==> !Ascii(name))
    requires !loss && !wide ==> Tells(body, BodyOf(name)) && Tells(ext, ExtOf(name))
    requires flags.loss == loss
    requires flags.lfn == (loss || wide || (body.upper && body.lower) || (ext.upper && ext.lower))
    requires flags.body == (!flags.lfn && body.lower && !body.upper)
    requires flags.ext == (!flags.lfn && ext.lower && !ext.upper)
    ensures FlagsFor(cp, name, flags)
  {
    hide Shape83, BodyOf, ExtOf, Ascii, HasUpper, HasLower;
  }

  lemma Finished(cp: CodePage, name: seq<wchar>, fn: seq<byte>, i: nat, ni: nat, loss: bool, wide: bool, high: Case,
                 b: Case, used: seq<byte>)
    requires name != [] && !Blanked(name[|name| - 1])
    requires Known(cp, name, fn, |name|, i, ni, loss, wide, high, b, used)
    ensures fn == Fields(cp, name) && (loss <==> !Shape83(cp, name))
    ensures !loss ==> (wide <==> !Ascii(name))
    ensures !loss && !wide ==> var (body, ext) := if ni == 8 then (b, NONE) else (high, b);
                               Tells(body, BodyOf(name)) && Tells(ext, ExtOf(name))
  {
    assert ni == 8 ==> ExtAt(name) == 0 by {
      SplitName(name);
      hide ExtAt, BodyOf, ExtOf, Fit, Padded, Shape83, Progress, Letters;
    }
    hide Placed, Shape83, Progress, Letters, Ascii, BodyOf, ExtOf, ExtAt, Fields;
    PlacedEnd(cp, name, fn, |name|, i, ni, used);
    if !loss {
      Finish(cp, name, i, ni, wide, high, b);
    }
  }

  // ----- a path segment -----

  /** A C string: a zero at its end. */
  predicate Path(path: seq<byte>) {
    path != [] && path[|path| - 1] == 0
  }

  /** Where the segment begins: behind all separators. */
  function SegStart(path: seq<byte>, at: nat): (r: nat)
    requires Path(path) && at < |path|
    ensures at <= r < |path|
    decreases |path| - at
  {
    if path[at] == 0x2F || path[at] == 0x5C then SegStart(path, at + 1) else at
  }

  /** A character code of the code page, as it can stand in a segment. */
  predicate Legal(w: wchar) {
    if w < 0x100 then !Lead(w) && !Ends(w) else Lead(w / 0x100) && Trail(w % 0x100)
  }

  /** A double-byte character. */
  function Pair(high: byte, low: byte): wchar {
    high * 0x100 + low
  }

  function Spell(codes: seq<wchar>): seq<byte> {
    if codes == [] then [] else CodeBytes(codes[0]) + Spell(codes[1..])
  }

  /** The codes up to the end of a segment, unless a double-byte character is broken. */
  datatype Spelt = Broken | Spelt(codes: seq<wchar>, end: nat)

  function Prefixed(codes: seq<wchar>, s: Spelt): Spelt {
    if s.Broken? then Broken else Spelt(codes + s.codes, s.end)
  }

  function CodesAt(path: seq<byte>, i: nat): (r: Spelt)
    requires Path(path) && i < |path|
    ensures r.Spelt? ==> i <= r.end < |path| && Ends(path[r.end])
    decreases |path| - i
  {
    if Ends(path[i]) then Spelt([], i)
    else if !Lead(path[i]) then Prefixed([path[i]], CodesAt(path, i + 1))
    else if Trail(path[i + 1]) then Prefixed([Pair(path[i], path[i + 1])], CodesAt(path, i + 2))
    else Broken
  }

  predicate AllLegal(codes: seq<wchar>) {
    forall k | 0 <= k < |codes| :: Legal(codes[k])
  }

  /** The codes of a segment are the one list of codes that is spelled there, up to where a segment ends. */
  lemma SpelledOnce(path: seq<byte>, i: nat, codes: seq<wchar>, end: nat)
    requires Path(path) && i < |path|
    ensures CodesAt(path, i) == Spelt(codes, end)
       <==> AllLegal(codes) && i <= end < |path| && path[i..end] == Spell(codes) && Ends(path[end])
  {
    hide *;
    if CodesAt(path, i) == Spelt(codes, end) {
      SpelledThere(path, i);
    }
    if AllLegal(codes) && i <= end < |path| && path[i..end] == Spell(codes) && Ends(path[end]) {
      SpelledOnly(path, i, codes, end);
    }
  }

  lemma {:induction false} SpelledThere(path: seq<byte>, i: nat)
    requires Path(path) && i < |path|
    ensures var s := CodesAt(path, i); s.Spelt? ==> AllLegal(s.codes) && path[i..s.end] == Spell(s.codes)
    decreases |path| - i
  {
    var s := CodesAt(path, i);
    if s.Spelt? && s.codes != [] {
      var n := FirstCode(path, i);
      SpelledThere(path, i + n);
      hide Legal, Lead, Trail, Ends, CodeBytes, CodesAt;
      Chopped(path, i, n, s.end);
    }
  }

  /** The bytes of the first character and the rest. */
  lemma FirstCode(path: seq<byte>, i: nat) returns (n: nat)
    requires Path(path) && i < |path| && CodesAt(path, i).Spelt? && CodesAt(path, i).codes != []
    ensures var s := CodesAt(path, i);
            0 < n && i + n < |path| && Legal(s.codes[0]) && path[i..i + n] == CodeBytes(s.codes[0])
            && CodesAt(path, i + n) == Spelt(s.codes[1..], s.end)
  {
    if Lead(path[i]) {
      n := 2;
      PairBytes(path[i], path[i + 1]);
    } else {
      n := 1;
    }
    var s, t := CodesAt(path, i), CodesAt(path, i + n);
    assert s == Prefixed([s.codes[0]], t);
    assert s.codes[1..] == t.codes;
    assert |path[i..i + n]| == n && path[i..i + n][0] == path[i] && (n == 2 ==> path[i..i + n][1] == path[i + 1]);
  }

  lemma PairBytes(high: byte, low: byte)
    requires Lead(high) && Trail(low)
    ensures Legal(Pair(high, low)) && CodeBytes(Pair(high, low)) == [high, low]
  {
  }

  lemma Chopped(path: seq<byte>, i: nat, n: nat, end: nat)
    requires i + n <= end <= |path|
    ensures path[i..end] == path[i..i + n] + path[i + n..end]
  {
  }

  lemma {:induction false} SpelledOnly(path: seq<byte>, i: nat, codes: seq<wchar>, end: nat)
    requires Path(path) && i <= end < |path| && AllLegal(codes) && path[i..end] == Spell(codes) && Ends(path[end])
    ensures CodesAt(path, i) == Spelt(codes, end)
    decreases |codes|
  {
    if codes != [] {
      var n := |CodeBytes(codes[0])|;
      FirstSpelled(path, i, codes, end);
      hide *;
      SpelledOnly(path, i + n, codes[1..], end);
      assert codes == [codes[0]] + codes[1..];
      PrefixedTo([codes[0]], codes[1..], end);
    }
  }

  lemma PrefixedTo(a: seq<wchar>, b: seq<wchar>, end: nat)
    ensures Prefixed(a, Spelt(b, end)) == Spelt(a + b, end)
  {
  }

  /** The first code of a spelling is the one that is read. */
  lemma FirstSpelled(path: seq<byte>, i: nat, codes: seq<wchar>, end: nat)
    requires Path(path) && i <= end < |path| && AllLegal(codes) && path[i..end] == Spell(codes) && codes != []
    ensures var n := |CodeBytes(codes[0])|;
            i + n <= end && path[i + n..end] == Spell(codes[1..]) && AllLegal(codes[1..])
            && CodesAt(path, i) == Prefixed([codes[0]], CodesAt(path, i + n))
  {
    var bs := CodeBytes(codes[0]);
    var n, rest := |bs|, Spell(codes[1..]);
    assert path[i..end] == bs + rest && bs != [];
    assert path[i] == path[i..end][0] == bs[0] && (n == 2 ==> path[i + 1] == path[i..end][1] == bs[1]);
    assert Legal(codes[0]);
    hide Spell, AllLegal;
    assert path[i..end][n..] == rest;
  }

  /** What the tables make of the codes. */
  function Unicode(cp: CodePage, codes: seq<wchar>): (r: seq<wchar>)
    ensures |r| == |codes|
  {
    seq(|codes|, i requires 0 <= i < |codes| => Convert(cp.unicode, codes[i]))
  }

  /** Characters of a long name: the table has them and they are not illegal. */
  predicate Allowed(name: seq<wchar>) {
    |name| <= 255 && forall i | 0 <= i < |name| :: name[i] != 0 && !Illegal(name[i])
  }

  datatype Created = Invalid | Created(name: seq<wchar>, fn: seq<byte>, flags: Flags, next: nat, last: bool)

  /** The loop that skips separators. */
  method SkipSeparators(path: seq<byte>, at: nat) returns (p: nat)
    requires Path(path) && at < |path|
    ensures p == SegStart(path, at)
  {
    p := at;
    while path[p] == 0x2F || path[p] == 0x5C
      invariant p < |path| && SegStart(path, p) == SegStart(path, at)
      decreases |path| - p
    {
      p := p + 1;
    }
  }

  /** One character of one or two bytes; `ok` is false if the second is missing. */
  method ReadCode(path: seq<byte>, si: nat) returns (ok: bool, w: wchar, next: nat)
    requires Path(path) && si < |path| && !Ends(path[si])
    ensures ok ==> si < next < |path| && CodesAt(path, si) == Prefixed([w], CodesAt(path, next))
    ensures !ok ==> CodesAt(path, si) == Broken
  {
    ok, w, next := true, path[si], si + 1;
    if Lead(path[si]) {
      var b := path[next];
      next := next + 1;
      if !Trail(b) {
        return false, w, next;
      }
      w := Pair(path[si], b);
    }
  }

  /** create_name, first part: the characters of the segment. */
  method CutSegment(cp: CodePage, path: seq<byte>, at: nat) returns (ok: bool, lfn: seq<wchar>, si: nat)
    requires Path(path) && at < |path|
    ensures var s := CodesAt(path, SegStart(path, at));
            (ok <==> s.Spelt? && Allowed(Unicode(cp, s.codes)))
            && (ok ==> lfn == Unicode(cp, s.codes) && si == s.end)
  {
    var p := SkipSeparators(path, at);
    assert p < |path|;
    hide *;
    ok, lfn, si := true, [], p;
    ghost var done: seq<wchar> := [];
    CutStarts(cp, path, p);
    while !Ends(path[si])
      invariant si < |path| && CodesAt(path, p) == Prefixed(done, CodesAt(path, si))
      invariant lfn == Unicode(cp, done) && Allowed(lfn)
      decreases |path| - si
    {
      if |lfn| >= Lfn.MAX_LFN {
        CutTooLong(cp, path, p, si, done);
        return false, lfn, si;
      }
      var whole, w, next := ReadCode(path, si);
      if !whole {
        CutBroken(done);
        return false, lfn, si;
      }
      ghost var code := w;
      w := Convert(cp.unicode, w);
      if w == 0 || Illegal(w) {
        CutRefused(cp, done, code, CodesAt(path, next));
        return false, lfn, si;
      }
      CutNext(cp, done, code, CodesAt(path, next));
      lfn := lfn + [w];
      si, done := next, done + [code];
    }
    CutEnds(path, done, si);
  }

  lemma CutStarts(cp: CodePage, path: seq<byte>, p: nat)
    requires Path(path) && p < |path|
    ensures CodesAt(path, p) == Prefixed([], CodesAt(path, p)) && [] == Unicode(cp, []) && Allowed([])
  {
    hide CodesAt;
  }

  lemma CutEnds(path: seq<byte>, done: seq<wchar>, si: nat)
    requires Path(path) && si < |path| && Ends(path[si])
    ensures Prefixed(done, CodesAt(path, si)) == Spelt(done, si)
  {
    assert done + [] == done;
  }

  lemma CutTooLong(cp: CodePage, path: seq<byte>, p: nat, si: nat, done: seq<wchar>)
    requires Path(path) && si < |path| && p < |path| && !Ends(path[si]) && |Unicode(cp, done)| >= Lfn.MAX_LFN
    requires CodesAt(path, p) == Prefixed(done, CodesAt(path, si))
    ensures CodesAt(path, p).Spelt? ==> !Allowed(Unicode(cp, CodesAt(path, p).codes))
  {
  }

  lemma CutBroken(done: seq<wchar>)
    ensures Prefixed(done, Broken) == Broken
  {
  }

  lemma CutRefused(cp: CodePage, done: seq<wchar>, w: wchar, s: Spelt)
    requires Convert(cp.unicode, w) == 0 || Illegal(Convert(cp.unicode, w))
    ensures var t := Prefixed(done, Prefixed([w], s)); t.Spelt? ==> !Allowed(Unicode(cp, t.codes))
  {
    var t := Prefixed(done, Prefixed([w], s));
    if t.Spelt? {
      assert t.codes[|done|] == w;
      assert Unicode(cp, t.codes)[|done|] == Convert(cp.unicode, w);
    }
  }

  lemma CutNext(cp: CodePage, done: seq<wchar>, w: wchar, s: Spelt)
    requires Allowed(Unicode(cp, done)) && |done| < Lfn.MAX_LFN
    requires Convert(cp.unicode, w) != 0 && !Illegal(Convert(cp.unicode, w))
    ensures Prefixed(done, Prefixed([w], s)) == Prefixed(done + [w], s)
    ensures Unicode(cp, done + [w]) == Unicode(cp, done) + [Convert(cp.unicode, w)] && Allowed(Unicode(cp, done + [w]))
  {
    if s.Spelt? {
      assert done + ([w] + s.codes) == done + [w] + s.codes;
    }
    var u := Unicode(cp, done + [w]);
    assert u == Unicode(cp, done) + [Convert(cp.unicode, w)];
  }

  /** The loop that strips spaces and dots from the end. */
  method StripEnd(lfn: seq<wchar>) returns (name: seq<wchar>)
    ensures name == Stripped(lfn) && name <= lfn && (name != [] ==> !Blanked(name[|name| - 1]))
  {
    var di: nat := |lfn|;
    while di > 0 && Blanked(lfn[di - 1])
      invariant di <= |lfn|
      invariant StrippedLen(lfn, di) == StrippedLen(lfn, |lfn|)
    {
      di := di - 1;
    }
    name := lfn[..di];
  }

  /** What create_name makes of the segment at `at`: refused, or the stripped name, its form and its flags, and where
      the next segment starts. */
  ghost predicate CreatedFrom(cp: CodePage, path: seq<byte>, at: nat, r: Created)
    requires Path(path) && at < |path|
  {
    var s := CodesAt(path, SegStart(path, at));
    if s.Broken? || !Allowed(Unicode(cp, s.codes)) || Stripped(Unicode(cp, s.codes)) == [] then r.Invalid?
    else
      && r.Created? && r.name == Stripped(Unicode(cp, s.codes)) && FlagsFor(cp, r.name, r.flags)
      && r.fn == Form(cp, r.name) && r.next == s.end + 1 && (r.last <==> path[s.end] < 0x20)
  }

  ghost predicate FlagsFor(cp: CodePage, name: seq<wchar>, flags: Flags) {
    && (flags.loss <==> !Shape83(cp, name)) && (flags.lfn <==> !Exact83(cp, name))
    && if flags.lfn then !flags.body && !flags.ext else CaseFlags(name, flags)
  }

  /** create_name: the segment of the path at `at`. */
  method CreateName(cp: CodePage, path: seq<byte>, at: nat) returns (r: Created)
    requires Path(path) && at < |path|
    ensures CreatedFrom(cp, path, at, r)
  {
    hide CodesAt, SegStart, Unicode, Allowed, Stripped, FlagsFor, Form, Blanked;
    var ok, lfn, si := CutSegment(cp, path, at);
    if !ok {
      return Invalid;
    }
    var name := StripEnd(lfn);
    if name == [] {
      return Invalid;
    }
    var fn, flags := ShortForm(cp, name);
    r := Created(name, fn, flags, si + 1, path[si] < 0x20);
  }

  lemma NameClean(cp: CodePage, path: seq<byte>, i: nat)
    requires Path(path) && i < |path| && Tables(cp) && CodesAt(path, i).Spelt?
    requires Allowed(Unicode(cp, CodesAt(path, i).codes))
    ensures forall j | 0 <= j < |CodesAt(path, i).codes| :: Unicode(cp, CodesAt(path, i).codes)[j] >= 0x20
  {
    SpelledThere(path, i);
    hide CodesAt, Spell;
  }

  /** A segment that is ASCII in Unicode is so in the path. */
  lemma AsciiSegment(cp: CodePage, path: seq<byte>, i: nat)
    requires Path(path) && i < |path| && Tables(cp) && CodesAt(path, i).Spelt?
    requires Allowed(Unicode(cp, CodesAt(path, i).codes)) && Ascii(Stripped(Unicode(cp, CodesAt(path, i).codes)))
    ensures path[i..CodesAt(path, i).end] == Unicode(cp, CodesAt(path, i).codes)
  {
    SpelledThere(path, i);
    var codes := CodesAt(path, i).codes;
    var u := Unicode(cp, codes);
    hide CodesAt, Spell;
    forall k | 0 <= k < |codes|
      ensures codes[k] == u[k] < 0x80
    {
      assert k < |Stripped(u)| ==> Stripped(u)[k] == u[k];
      assert u[k] == Convert(cp.unicode, codes[k]) != 0;
    }
    assert codes == u;
    SpellAscii(codes);
  }

  lemma {:induction false} SpellAscii(codes: seq<wchar>)
    requires Ascii(codes)
    ensures Spell(codes) == codes
  {
    if codes != [] {
      SpellAscii(codes[1..]);
      assert codes == [codes[0]] + codes[1..];
    }
  }

  /** What the entry of a name prints as: the segment as it was given, trailing spaces and dots aside, if it needs no
      long entries; its codes in capitals, if only letter case or characters above ASCII ask for them. */
  ghost predicate PrintsAs(cp: CodePage, path: seq<byte>, at: nat, r: Created, p: seq<byte>)
    requires Path(path) && at < |path| && r.Created?
  {
    var start := SegStart(path, at);
    if !r.flags.lfn then CodesAt(path, start).Spelt? && p == Stripped(path[start..CodesAt(path, start).end])
    else !r.flags.loss ==> p == Codes(cp, r.name)
  }

  lemma EntryPrints(cp: CodePage, path: seq<byte>, at: nat, r: Created)
    requires Path(path) && at < |path| && Tables(cp) && CreatedFrom(cp, path, at, r) && r.Created?
    ensures |r.fn| == 11
    ensures var dir := ShortEntry(r.fn, CaseByte(r.flags));
            PrintsAs(cp, path, at, r, PrintFrom(dir[..11], FlagsOf(dir), 0))
  {
    CreatedMeans(cp, path, at, r);
    var dir := ShortEntry(r.fn, CaseByte(r.flags));
    FlagsStored(r.fn, r.flags);
    hide CodesAt, SegStart, Unicode, Allowed, Stripped, Form, Shape83, Exact83, CaseFlags, PrintFrom, Codes, FlagsOf;
    hide CreatedFrom, Tables, ShortEntry;
    Exactly(cp, r.name, r.flags, FlagsOf(dir));
    if !r.flags.loss {
      var start := SegStart(path, at);
      NameClean(cp, path, start);
      StrippedClean(Unicode(cp, CodesAt(path, start).codes));
      if r.flags.lfn {
        PrintUpper(cp, r.name, FlagsOf(dir));
      } else {
        PrintBack(cp, r.name, FlagsOf(dir));
        AsciiSegment(cp, path, start);
      }
    }
  }

  /** create_name, the entry that is made of it, and get_fileinfo. */
  method EchoName(cp: CodePage, path: seq<byte>, at: nat) returns (r: Created, p: seq<byte>)
    requires Path(path) && at < |path| && Tables(cp)
    ensures CreatedFrom(cp, path, at, r) && (r.Created? ==> PrintsAs(cp, path, at, r, p))
  {
    p := [];
    hide *;
    r := CreateName(cp, path, at);
    if r.Created? {
      EntryPrints(cp, path, at, r);
      p := GetFileInfo(ShortEntry(r.fn, CaseByte(r.flags)));
    }
  }

  lemma CreatedMeans(cp: CodePage, path: seq<byte>, at: nat, r: Created)
    requires Path(path) && at < |path| && CreatedFrom(cp, path, at, r) && r.Created?
    ensures var s := CodesAt(path, SegStart(path, at));
            s.Spelt? && Allowed(Unicode(cp, s.codes)) && r.name == Stripped(Unicode(cp, s.codes)) && r.name != []
    ensures r.fn == Form(cp, r.name) && |r.fn| == 11
    ensures (r.flags.loss <==> !Shape83(cp, r.name)) && (r.flags.lfn <==> !Exact83(cp, r.name))
    ensures if r.flags.lfn then !r.flags.body && !r.flags.ext else CaseFlags(r.name, r.flags)
  {
    hide CodesAt, SegStart, Unicode, Allowed, Stripped, Form, Shape83, Exact83, CaseFlags;
  }

  lemma Exactly(cp: CodePage, name: seq<wchar>, flags: Flags, back: Flags)
    requires back.body == flags.body && back.ext == flags.ext
    ensures Exact83(cp, name) ==> Shape83(cp, name) && Ascii(name)
    ensures CaseFlags(name, flags) ==> CaseFlags(name, back)
  {
  }

  lemma StrippedClean(u: seq<wchar>)
    requires forall j | 0 <= j < |u| :: u[j] >= 0x20
    ensures forall j | 0 <= j < |Stripped(u)| :: Stripped(u)[j] >= 0x20
  {
  }
}
