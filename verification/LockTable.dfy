/** The table of open objects: chk_lock, inc_lock, dec_lock. */
module LockTable {
  import opened Geometry

  /** The object an entry stands for: volume, start cluster of its directory, index in it. */
  datatype Key = Key(fs: nat, clu: nat, idx: nat)

  /** FILESEM; `fs` 0: blank entry. `ctr` counts readers; 0x100 stands for a writer. */
  datatype Sem = Sem(fs: nat, clu: nat, idx: nat, ctr: nat)

  function KeyOf(s: Sem): Key {
    Key(s.fs, s.clu, s.idx)
  }

  /** A handle that has not been closed. */
  datatype Handle = Handle(slot: nat, key: Key, write: bool)

  const WRITER: nat := 0x100

  datatype Grant = Granted | Locked | TooMany

  /** Every live entry has its own key, every handle its live entry, and every entry counts its handles. */
  ghost predicate Consistent(files: seq<Sem>, held: multiset<Handle>) {
    && Distinct(files)
    && (forall h | h in held :: h.slot < |files| && files[h.slot].fs != 0 && KeyOf(files[h.slot]) == h.key)
    && (forall i | 0 <= i < |files| && files[i].fs != 0 :: Counted(files[i], i, held))
  }

  ghost predicate Distinct(files: seq<Sem>) {
    forall i, j | 0 <= i < j < |files| && files[i].fs != 0 :: KeyOf(files[i]) != KeyOf(files[j])
  }

  ghost predicate Counted(s: Sem, i: nat, held: multiset<Handle>) {
    var readers, writers := held[Handle(i, KeyOf(s), false)], held[Handle(i, KeyOf(s), true)];
    (s.ctr == 0x100 && writers == 1 && readers == 0) || (s.ctr == readers && 1 <= readers <= 255 && writers == 0)
  }

  /** Where an object is in the table, the size of the table when it is not there. */
  function SlotFrom(files: seq<Sem>, key: Key, i: nat): (r: nat)
    requires i <= |files|
    ensures i <= r <= |files| && (r < |files| ==> KeyOf(files[r]) == key)
    ensures forall j | i <= j < r :: KeyOf(files[j]) != key
    decreases |files| - i
  {
    if i == |files| || KeyOf(files[i]) == key then i else SlotFrom(files, key, i + 1)
  }

  /** The answer of chk_lock. */
  ghost function Check(files: seq<Sem>, key: Key, acc: nat): Grant {
    var i := SlotFrom(files, key, 0);
    if i == |files| then
      if (exists j :: 0 <= j < |files| && files[j].fs == 0) || acc == 2 then Granted else TooMany
    else if acc != 0 || files[i].ctr == WRITER then Locked
    else Granted
  }

  /** The table after inc_lock gave out entry `i`. */
  ghost predicate Registered(files: seq<Sem>, files': seq<Sem>, key: Key, acc: nat, i: nat) {
    && i < |files| == |files'| && files' == files[i := files'[i]]
    && (SlotFrom(files, key, 0) == i || (files[i].fs == 0 && SlotFrom(files, key, 0) == |files|))
    && var ctr := if KeyOf(files[i]) == key then files[i].ctr else 0;
       files'[i] == Sem(key.fs, key.clu, key.idx, if acc != 0 then WRITER else (ctr + 1) % 0x1_0000)
         && (acc != 0 ==> ctr == 0)
  }

  class Locks {
    const files: array<Sem>
    ghost var held: multiset<Handle>

    constructor (n: nat)
      ensures Valid() && fresh(files) && files.Length == n && held == multiset{}
      ensures forall i | 0 <= i < n :: files[i].fs == 0
    {
      files := new Sem[n](_ => Sem(0, 0, 0, 0));
      held := multiset{};
    }

    ghost predicate Valid()
      reads this, files
    {
      Consistent(files[..], held)
    }

    /** The search both functions start with. */
    method Find(key: Key) returns (i: nat)
      ensures i == SlotFrom(files[..], key, 0)
    {
      i := 0;
      while i < files.Length && KeyOf(files[i]) != key
        invariant i <= files.Length && SlotFrom(files[..], key, 0) == SlotFrom(files[..], key, i)
      {
        i := i + 1;
      }
    }

    /** chk_lock: with `acc` 0 read, 1 write, 2 delete or rename. */
    method ChkLock(key: Key, acc: nat) returns (res: Grant)
      requires key.fs != 0 && acc < 3
      ensures res == Check(files[..], key, acc)
    {
      var i, be := 0, false;
      while i < files.Length
        invariant i <= files.Length && SlotFrom(files[..], key, 0) == SlotFrom(files[..], key, i)
        invariant be <==> exists j :: 0 <= j < i && files[..][j].fs == 0
      {
        if files[i].fs != 0 {
          if KeyOf(files[i]) == key {
            break;
          }
        } else {
          be := true;
          assert files[..][i].fs == 0;
        }
        i := i + 1;
      }
      if i == files.Length {
        return if be || acc == 2 then Granted else TooMany;
      }
      res := if acc != 0 || files[i].ctr == WRITER then Locked else Granted;
    }

    /** inc_lock: the entry of the object, made if it is not there, counts one handle more; 0 when there is no room for
        it or a second handle would write. */
    method IncLock(key: Key, acc: nat) returns (r: nat)
      requires key.fs != 0 && acc < 3
      modifies files
      ensures r > 0 ==> Registered(old(files[..]), files[..], key, acc, r - 1)
      ensures r == 0 ==> var i := SlotFrom(old(files[..]), key, 0);
                         if i == files.Length then forall j | 0 <= j < files.Length :: old(files[j].fs) != 0
                         else acc != 0 && old(files[i].ctr) != 0
      ensures r == 0 ==> files[..] == old(files[..])
    {
      ghost var before := files[..];
      var i := Find(key);
      if i == files.Length {
        i := 0;
        while i < files.Length && files[i].fs != 0
          invariant i <= files.Length && forall j | 0 <= j < i :: files[j].fs != 0
        {
          i := i + 1;
        }
        if i == files.Length {
          return 0;
        }
        files[i] := Sem(key.fs, key.clu, key.idx, 0);
      }
      if acc != 0 && files[i].ctr != 0 {
        return 0;
      }
      files[i] := files[i].(ctr := if acc != 0 then WRITER else (files[i].ctr + 1) % 0x1_0000);
      r := i + 1;
      assert files[..] == before[i := files[i]];
    }

    /** Opening an object: chk_lock, and inc_lock when that grants it. The table goes on counting handles exactly unless
        a 256th reader is let in. */
    method Open(key: Key, write: bool) returns (res: Grant, h: Handle)
      requires Valid() && key.fs != 0
      modifies this`held, files
      ensures Valid() <==> write || !old(Crowded(files[..], key))
      ensures res == Locked <==> exists g :: g in old(held) && g.key == key && (write || g.write)
      ensures res == TooMany <==> (forall g | g in old(held) :: g.key != key) && forall i | 0 <= i < files.Length ::
              old(files[i].fs) != 0
      ensures if res == Granted then held == old(held) + multiset{h} && h.key == key && h.write == write
              && h.slot < files.Length
              else held == old(held)
    {
      hide Consistent, Check, Registered, Crowded;
      res := ChkLock(key, if write then 1 else 0);
      h := Handle(0, key, write);
      CheckMeans(files[..], held, key, if write then 1 else 0);
      CrowdedMeans(files[..], held, key);
      if res != Granted {
        return;
      }
      ghost var before := files[..];
      var r := IncLock(key, if write then 1 else 0);
      h := Handle(r - 1, key, write);
      held := held + multiset{h};
      Opened(before, files[..], old(held), h);
    }

    /** dec_lock on a handle that is open. */
    method Close(h: Handle) returns (res: FResult)
      requires Valid() && h in held
      modifies this`held, files
      ensures Valid() && res == FrOk && held == old(held) - multiset{h}
    {
      ghost var before := files[..];
      res := DecLock(h.slot + 1);
      held := held - multiset{h};
      Closed(before, files[..], old(held), h);
    }

    /** dec_lock. */
    method DecLock(i: nat) returns (res: FResult)
      modifies files
      ensures res == if 1 <= i <= files.Length then FrOk else FrIntErr
      ensures 1 <= i <= files.Length ==> files[..] == old(files[..])[i - 1 := Decremented(old(files[i - 1]))]
      ensures !(1 <= i <= files.Length) ==> files[..] == old(files[..])
    {
      if i == 0 || i - 1 >= files.Length {
        return FrIntErr;
      }
      var n := files[i - 1].ctr;
      if n == WRITER {
        n := 0;
      }
      if n > 0 {
        n := n - 1;
      }
      files[i - 1] := files[i - 1].(ctr := n);
      if n == 0 {
        files[i - 1] := files[i - 1].(fs := 0);
      }
      res := FrOk;
    }
  }

  function Decremented(s: Sem): Sem {
    var n := if s.ctr == WRITER || s.ctr == 0 then 0 else s.ctr - 1;
    Sem(if n == 0 then 0 else s.fs, s.clu, s.idx, n)
  }

  /** What chk_lock answers, said in terms of the handles; and after it grants an open, inc_lock does not fail. */
  lemma CheckMeans(files: seq<Sem>, held: multiset<Handle>, key: Key, acc: nat)
    requires Consistent(files, held) && key.fs != 0 && acc < 3
    ensures var res, i := Check(files, key, acc), SlotFrom(files, key, 0);
            && (res == Locked <==> exists g :: g in held && g.key == key && (acc != 0 || g.write))
            && (res == TooMany <==>
                acc != 2 && (forall g | g in held :: g.key != key)
                && forall j | 0 <= j < |files| :: files[j].fs != 0)
            && (res == Granted && i < |files| ==> acc == 0 && files[i].ctr < WRITER)
            && (res == Granted && i == |files| && acc != 2 ==> exists j :: 0 <= j < |files| && files[j].fs == 0)
  {
    var i := SlotFrom(files, key, 0);
    if i < |files| {
      assert Counted(files[i], i, held);
      var r, w := Handle(i, key, false), Handle(i, key, true);
      forall g | g in held && g.key == key ensures g == r || g == w {
        assert g.slot == i;
      }
      assert r in held || w in held;
    }
  }

  /** The object has 255 readers; one more would look like a writer. */
  predicate Crowded(files: seq<Sem>, key: Key) {
    var i := SlotFrom(files, key, 0);
    i < |files| && files[i].ctr == 255
  }

  /** A crowded object has no writer, so chk_lock lets another reader in. */
  lemma CrowdedMeans(files: seq<Sem>, held: multiset<Handle>, key: Key)
    requires Consistent(files, held) && key.fs != 0
    ensures Crowded(files, key) ==> Check(files, key, 0) == Granted && Check(files, key, 1) == Locked
  {
  }

  /** What chk_lock grants and inc_lock registers keeps the table exact if and only if the object was not crowded. */
  lemma Opened(files: seq<Sem>, files': seq<Sem>, held: multiset<Handle>, h: Handle)
    requires Consistent(files, held) && h.key.fs != 0 && Check(files, h.key, if h.write then 1 else 0) == Granted
    requires Registered(files, files', h.key, if h.write then 1 else 0, h.slot)
    ensures h.slot < |files|
    ensures Consistent(files', held + multiset{h}) <==> !Crowded(files, h.key)
  {
    var i := SlotFrom(files, h.key, 0);
    if i < |files| {
      assert Counted(files[i], i, held);
    }
    if Crowded(files, h.key) {
      assert !Counted(files'[i], i, held + multiset{h});
    } else {
      SlotCounted(files, files'[h.slot], held, h);
      OtherKeys(files, held, h);
      StillConsistent(files, files'[h.slot], held, h);
    }
  }

  lemma StillConsistent(files: seq<Sem>, s: Sem, held: multiset<Handle>, h: Handle)
    requires Consistent(files, held) && h.slot < |files|
    requires KeyOf(s) == h.key && s.fs != 0 && Counted(s, h.slot, held + multiset{h})
    requires forall g | g in held && g.slot == h.slot :: g.key == h.key
    requires forall j | 0 <= j < |files| && j != h.slot :: KeyOf(files[j]) != h.key
    ensures Consistent(files[h.slot := s], held + multiset{h})
  {
    StillDistinct(files, s, h);
    hide Counted, Distinct;
    var files', held' := files[h.slot := s], held + multiset{h};
    forall g | g in held' ensures g.slot < |files'| && files'[g.slot].fs != 0 && KeyOf(files'[g.slot]) == g.key {
      assert g == h || g in held;
    }
    forall j | 0 <= j < |files'| && files'[j].fs != 0 ensures Counted(files'[j], j, held') {
      if j != h.slot {
        CountedElsewhere(files[j], j, held, h);
      }
    }
  }

  lemma OtherKeys(files: seq<Sem>, held: multiset<Handle>, h: Handle)
    requires Consistent(files, held) && h.key.fs != 0 && h.slot < |files|
    requires SlotFrom(files, h.key, 0) == h.slot || SlotFrom(files, h.key, 0) == |files|
    ensures forall j | 0 <= j < |files| && j != h.slot :: KeyOf(files[j]) != h.key
  {
    hide SlotFrom;
  }

  lemma StillDistinct(files: seq<Sem>, s: Sem, h: Handle)
    requires Distinct(files) && h.slot < |files| && KeyOf(s) == h.key
    requires forall j | 0 <= j < |files| && j != h.slot :: KeyOf(files[j]) != h.key
    ensures Distinct(files[h.slot := s])
  {
  }

  lemma CountedElsewhere(s: Sem, i: nat, held: multiset<Handle>, h: Handle)
    requires i != h.slot
    ensures Counted(s, i, held + multiset{h}) == Counted(s, i, held)
  {
  }

  /** The entry that was registered counts one handle more. */
  lemma SlotCounted(files: seq<Sem>, s: Sem, held: multiset<Handle>, h: Handle)
    requires Consistent(files, held) && h.key.fs != 0 && h.slot < |files|
    requires var i := SlotFrom(files, h.key, 0);
             if i == |files| then files[h.slot].fs == 0
               && s == Sem(h.key.fs, h.key.clu, h.key.idx, if h.write then WRITER else 1)
             else i == h.slot && files[i].ctr < WRITER - 1 && (h.write ==> files[i].ctr == 0)
                  && s == Sem(h.key.fs, h.key.clu, h.key.idx, if h.write then WRITER else files[i].ctr + 1)
    ensures KeyOf(s) == h.key && s.fs != 0 && Counted(s, h.slot, held + multiset{h})
    ensures forall g | g in held && g.slot == h.slot :: g.key == h.key
  {
    hide SlotFrom;
    var i, r, w := SlotFrom(files, h.key, 0), Handle(h.slot, h.key, false), Handle(h.slot, h.key, true);
    if i == |files| {
      assert r !in held && w !in held;
    } else {
      assert Counted(files[i], i, held);
    }
  }

  lemma Closed(files: seq<Sem>, files': seq<Sem>, held: multiset<Handle>, h: Handle)
    requires Consistent(files, held) && h in held && h.slot < |files|
             && files' == files[h.slot := Decremented(files[h.slot])]
    ensures Consistent(files', held - multiset{h})
  {
    var held' := held - multiset{h};
    assert Counted(files[h.slot], h.slot, held) && KeyOf(files[h.slot]) == h.key;
    var r, w := Handle(h.slot, h.key, false), Handle(h.slot, h.key, true);
    forall g | g in held' ensures g.slot < |files'| && files'[g.slot].fs != 0 && KeyOf(files'[g.slot]) == g.key {
      assert g in held;
      if g.slot == h.slot {
        assert g == r || g == w;
        assert held'[r] > 0 || held'[w] > 0;
      }
    }
    forall i | 0 <= i < |files'| && files'[i].fs != 0 ensures Counted(files'[i], i, held') {
      if i != h.slot {
        assert Counted(files[i], i, held);
      }
    }
  }

  /** When every handle is closed the table is empty. */
  lemma AllClosed(files: seq<Sem>, held: multiset<Handle>)
    requires Consistent(files, held) && held == multiset{}
    ensures forall i | 0 <= i < |files| :: files[i].fs == 0
  {
    forall i | 0 <= i < |files| ensures files[i].fs == 0 {
      assert !Counted(files[i], i, held);
    }
  }

  /** One object with 255 readers in a table of one entry: a 256th is let in, its entry then stands for a writer, and
      the first of the 256 to close frees it. */
  lemma ReaderTooMany()
    ensures var key := Key(1, 0, 0);
            var files, held := [Sem(1, 0, 0, 255)], multiset{}[Handle(0, key, false) := 255];
            var files' := [Sem(1, 0, 0, 256)];
            && Consistent(files, held) && Check(files, key, 0) == Granted && Registered(files, files', key, 0, 0)
            && Crowded(files, key) && !Consistent(files', held + multiset{Handle(0, key, false)})
            && Check(files', key, 0) == Locked && Decremented(files'[0]).fs == 0
  {
    var key := Key(1, 0, 0);
    var files, held := [Sem(1, 0, 0, 255)], multiset{}[Handle(0, key, false) := 255];
    assert Counted(files[0], 0, held);
    assert SlotFrom(files, key, 0) == 0;
    assert Consistent(files, held);
    Opened(files, [Sem(1, 0, 0, 256)], held, Handle(0, key, false));
  }

  // ----- runs -----

  /** A program opens an object, or closes the n-th of the handles it holds. */
  datatype LockOp = OpenOp(key: Key, write: bool) | CloseOp(n: nat)

  /** Any opens and closes, up to the first that lets a 256th reader in: the table fits the handles held, and with none
      held it is empty. */
  method Run(t: Locks, ops: seq<LockOp>) returns (handles: seq<Handle>, done: nat)
    requires t.Valid() && t.held == multiset{}
    requires forall op | op in ops :: op.OpenOp? ==> op.key.fs != 0
    modifies t`held, t.files
    ensures t.Valid() && t.held == multiset(handles)
    ensures done <= |ops|
            && (done < |ops| ==> ops[done].OpenOp? && !ops[done].write && Crowded(t.files[..], ops[done].key))
    ensures handles == [] ==> forall i | 0 <= i < t.files.Length :: t.files[i].fs == 0
  {
    handles, done := [], 0;
    hide Consistent, Locks.Valid;
    var ok := true;
    while done < |ops| && ok
      invariant done <= |ops| && t.Valid() && t.held == multiset(handles)
      invariant !ok ==> done < |ops| && ops[done].OpenOp? && !ops[done].write && Crowded(t.files[..], ops[done].key)
      decreases |ops| - done, ok
    {
      assert ops[done] in ops;
      match ops[done] {
        case OpenOp(key, write) => ok, handles := DoOpen(t, key, write, handles);
        case CloseOp(n) => handles := DoClose(t, n, handles);
      }
      if ok {
        done := done + 1;
      }
    }
    Emptied(t, handles);
  }

  method DoOpen(t: Locks, key: Key, write: bool, handles: seq<Handle>) returns (ok: bool, handles': seq<Handle>)
    requires t.Valid() && t.held == multiset(handles) && key.fs != 0
    modifies t`held, t.files
    ensures t.Valid() && t.held == multiset(handles') && (!ok ==> !write && Crowded(t.files[..], key))
  {
    hide Consistent;
    ok, handles' := true, handles;
    var i := t.Find(key);
    if !write && i < t.files.Length && t.files[i].ctr == WRITER - 1 {
      ok := false;
    } else {
      var res, h := t.Open(key, write);
      if res == Granted {
        handles' := handles + [h];
      }
    }
  }

  method DoClose(t: Locks, n: nat, handles: seq<Handle>) returns (handles': seq<Handle>)
    requires t.Valid() && t.held == multiset(handles)
    modifies t`held, t.files
    ensures t.Valid() && t.held == multiset(handles')
  {
    hide Consistent;
    handles' := handles;
    if n < |handles| {
      WithoutOne(handles, n);
      var res := t.Close(handles[n]);
      handles' := handles[..n] + handles[n + 1..];
    }
  }

  lemma WithoutOne(handles: seq<Handle>, n: nat)
    requires n < |handles|
    ensures handles[n] in multiset(handles)
    ensures multiset(handles[..n] + handles[n + 1..]) == multiset(handles) - multiset{handles[n]}
  {
    assert handles == handles[..n] + [handles[n]] + handles[n + 1..];
  }

  lemma Emptied(t: Locks, handles: seq<Handle>)
    requires t.Valid() && t.held == multiset(handles)
    ensures handles == [] ==> forall i | 0 <= i < t.files.Length :: t.files[i].fs == 0
  {
    if handles == [] {
      AllClosed(t.files[..], t.held);
      assert forall i | 0 <= i < t.files.Length :: t.files[..][i] == t.files[i];
    }
  }
}
