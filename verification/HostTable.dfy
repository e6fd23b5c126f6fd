/** The host's symbol tables: the interning of names into one string pool, and the merge of
    the files by UUID. */
module HostTable {
  import opened Machine
  import opened SymbolText

  datatype Sym = Sym(off: u32, addr: u64)
  datatype Kc = Kc(uuid: seq<byte>, syms: seq<Sym>)

  /** The value of a `kcs_state`. */
  datatype Tables = Tables(kcs: seq<Kc>, maxsymcnt: nat, pool: seq<byte>)

  const EMPTY: Tables := Tables([], 0, [])

  // ---- Interning ----

  /** `memmem` from `from` on: the least offset at which `needle` stands. */
  function Find(h: seq<byte>, needle: seq<byte>, from: nat): (r: Option<nat>)
    ensures r.Some? ==> from <= r.value && At(h, r.value, needle)
    ensures forall j :: from <= j && (r.Some? ==> j < r.value) ==> !At(h, j, needle)
    decreases |h| - from
  {
    if from + |needle| > |h| then None
    else if At(h, from, needle) then Some(from)
    else Find(h, needle, from + 1)
  }

  /** The offset of `name` and the new pool; `None` where the host's assertion on a new offset fails. */
  function Intern(pool: seq<byte>, name: seq<byte>): Option<(u32, seq<byte>)> {
    match Find(pool, name + [0], 0)
    case Some(o) => Some((Wrap32(o), pool))
    case None => if Wrap32(|pool|) == |pool| then Some((|pool|, pool + (name + [0]))) else None
  }

  /** `off` denotes exactly `name`, as a C string of the pool. */
  ghost predicate Names(pool: seq<byte>, off: nat, name: seq<byte>) {
    At(pool, off, name + [0])
  }

  /** `name` is not found at 2^32 or behind, where the truncation of its offset is not asserted. */
  ghost predicate Near(pool: seq<byte>, name: seq<byte>) {
    var found := Find(pool, name + [0], 0);
    found.Some? ==> found.value < TWO_32
  }

  /** A new or a found offset denotes the name exactly if it was not found at 2^32 or behind; the truncated
      offset is smaller, and the name stands nowhere in front of where it was found. The pool only grows. */
  lemma InternNames(pool: seq<byte>, name: seq<byte>)
    requires Intern(pool, name).Some?
    ensures var (off, pool') := Intern(pool, name).value;
            pool <= pool' && off + |name| < |pool'| && (Names(pool', off, name) <==> Near(pool, name))
  {
    hide At, Find;
    var found := Find(pool, name + [0], 0);
    if found.None? {
      Appended(pool, name + [0]);
    } else {
      FoundInside(pool, name + [0]);
      Truncated(found.value);
    }
  }

  lemma FoundNames(pool: seq<byte>, name: seq<byte>)
    requires Find(pool, name + [0], 0).Some?
    ensures Names(pool, Find(pool, name + [0], 0).value, name)
  {
    FoundInside(pool, name + [0]);
  }

  lemma NowhereFound(pool: seq<byte>, name: seq<byte>)
    requires Find(pool, name + [0], 0).None?
    ensures forall o: nat :: !Names(pool, o, name)
  {
  }

  lemma Appended(pool: seq<byte>, s: seq<byte>)
    ensures At(pool + s, |pool|, s)
  {
    AtIsSlice(pool + s, |pool|, s);
  }

  lemma FoundInside(pool: seq<byte>, s: seq<byte>)
    requires Find(pool, s, 0).Some? && s != []
    ensures var o := Find(pool, s, 0).value;
            o + |s| <= |pool| && At(pool, o, s) && forall j: nat :: j < o ==> !At(pool, j, s)
  {
    assert At(pool, Find(pool, s, 0).value, s);
  }

  lemma Truncated(o: nat)
    ensures Wrap32(o) == o <==> o < TWO_32
    ensures o >= TWO_32 ==> Wrap32(o) < o
  {
  }

  /** The pool holds every name once: a name that stands anywhere in it, with its terminator, is not added again,
      and any other is appended. Only that can fail, when the pool has reached 2^32. */
  lemma InternOnce(pool: seq<byte>, name: seq<byte>)
    ensures (exists o: nat :: Names(pool, o, name)) ==> Intern(pool, name).Some? && Intern(pool, name).value.1 == pool
    ensures !(exists o: nat :: Names(pool, o, name)) ==>
              if |pool| < TWO_32 then Intern(pool, name) == Some((|pool|, pool + (name + [0])))
              else Intern(pool, name) == None
  {
    hide Names, Find, At;
    if Find(pool, name + [0], 0).Some? {
      FoundNames(pool, name);
    } else {
      NowhereFound(pool, name);
    }
  }

  /** Whether an offset inside the pool denotes a name is decided: no later append changes it. */
  lemma NamesStay(pool: seq<byte>, pool': seq<byte>, off: nat, name: seq<byte>)
    requires pool <= pool' && off + |name| < |pool|
    ensures Names(pool', off, name) <==> Names(pool, off, name)
  {
    if Names(pool, off, name) {
      AtExtend(pool, pool'[|pool|..], off, name + [0]);
      assert pool' == pool + pool'[|pool|..];
    }
  }

  /** The recorded symbols are the definitions, in order. */
  ghost predicate Denotes(pool: seq<byte>, syms: seq<Sym>, defs: seq<Def>) {
    |syms| == |defs| &&
    forall j :: 0 <= j < |syms| ==> syms[j].addr == defs[j].addr && Names(pool, syms[j].off, defs[j].name)
  }

  /** The recorded symbols have the addresses of the definitions and offsets with room for their names. */
  ghost predicate Recorded(pool: seq<byte>, syms: seq<Sym>, defs: seq<Def>) {
    |syms| == |defs| &&
    forall j :: 0 <= j < |syms| ==> syms[j].addr == defs[j].addr && syms[j].off + |defs[j].name| < |pool|
  }

  lemma DenotesStay(pool: seq<byte>, pool': seq<byte>, syms: seq<Sym>, defs: seq<Def>)
    requires pool <= pool' && Recorded(pool, syms, defs)
    ensures Recorded(pool', syms, defs) && (Denotes(pool', syms, defs) <==> Denotes(pool, syms, defs))
  {
    hide Names;
    forall j | 0 <= j < |syms|
      ensures Names(pool', syms[j].off, defs[j].name) <==> Names(pool, syms[j].off, defs[j].name)
    {
      NamesStay(pool, pool', syms[j].off, defs[j].name);
    }
  }

  // ---- The update, file by file ----

  /** The index of `uuid` in the array, or the array's length. */
  function FindKc(kcs: seq<Kc>, uuid: seq<byte>, from: nat): (k: nat)
    requires from <= |kcs|
    ensures from <= k <= |kcs|
    ensures k < |kcs| ==> kcs[k].uuid == uuid
    ensures forall j :: from <= j < k ==> kcs[j].uuid != uuid
    decreases |kcs| - from
  {
    if from == |kcs| || kcs[from].uuid == uuid then from else FindKc(kcs, uuid, from + 1)
  }

  function AddSym(st: Tables, k: nat, d: Def): Option<Tables>
    requires k < |st.kcs|
  {
    match Intern(st.pool, d.name)
    case None => None
    case Some((off, pool)) =>
      var kc := st.kcs[k];
      Some(st.(kcs := st.kcs[k := kc.(syms := kc.syms + [Sym(off, d.addr)])], pool := pool))
  }

  function AddSyms(st: Tables, k: nat, defs: seq<Def>): (r: Option<Tables>)
    requires k < |st.kcs|
    ensures r.Some? ==> |r.value.kcs| == |st.kcs|
    decreases |defs|
  {
    if defs == [] then Some(st) else
      match AddSym(st, k, defs[0])
      case None => None
      case Some(st') => AddSyms(st', k, defs[1..])
  }

  function AddSymsTail(st: Tables, k: nat, defs: seq<Def>): Option<Tables>
    requires k < |st.kcs| && defs != []
  {
    match AddSym(st, k, defs[0])
    case None => None
    case Some(st') => AddSyms(st', k, defs[1..])
  }

  /** The array with a slot for `uuid`. */
  function WithSlot(st: Tables, uuid: seq<byte>): Tables {
    if FindKc(st.kcs, uuid, 0) < |st.kcs| then st else st.(kcs := st.kcs + [Kc(uuid, [])])
  }

  function NoteMax(st: Tables, k: nat): Tables
    requires k < |st.kcs|
  {
    st.(maxsymcnt := if |st.kcs[k].syms| > st.maxsymcnt then |st.kcs[k].syms| else st.maxsymcnt)
  }

  /** One file: skipped when its header is malformed, read up to its first malformed line otherwise. */
  function AddFile(st: Tables, t: seq<byte>): Option<Tables> {
    match Header(t, 0)
    case None => Some(st)
    case Some((uuid, p)) =>
      var k := FindKc(st.kcs, uuid, 0);
      match AddSyms(WithSlot(st, uuid), k, Symbols(t, p).0)
      case None => None
      case Some(st') => Some(NoteMax(st', k))
  }

  /** The state after the first `n` files. */
  function AddFiles(files: seq<seq<byte>>, n: nat): Option<Tables>
    requires n <= |files|
  {
    if n == 0 then Some(EMPTY) else
      match AddFiles(files, n - 1)
      case None => None
      case Some(st) => AddFile(st, files[n - 1])
  }

  // ---- What the state means ----

  /** The definitions in `t` if its header carries `uuid`. */
  function FileDefs(t: seq<byte>, uuid: seq<byte>): seq<Def> {
    match Header(t, 0)
    case None => []
    case Some((u, p)) => if u == uuid then Symbols(t, p).0 else []
  }

  /** All definitions for `uuid` in the first `n` files, in file order. */
  function Definitions(files: seq<seq<byte>>, n: nat, uuid: seq<byte>): seq<Def>
    requires n <= |files|
  {
    if n == 0 then [] else Definitions(files, n - 1, uuid) + FileDefs(files[n - 1], uuid)
  }

  ghost predicate WellFormed(st: Tables) {
    && (forall i :: 0 <= i < |st.kcs| ==> |st.kcs[i].uuid| == 16 && |st.kcs[i].syms| <= st.maxsymcnt)
    && (forall i, j :: 0 <= i < j < |st.kcs| ==> st.kcs[i].uuid != st.kcs[j].uuid)
  }

  /** The state holds, for each UUID, exactly the definitions of the first `n` files. */
  ghost predicate Represents(st: Tables, files: seq<seq<byte>>, n: nat)
    requires n <= |files|
  {
    && (forall i :: 0 <= i < |st.kcs| ==>
          Denotes(st.pool, st.kcs[i].syms, Definitions(files, n, st.kcs[i].uuid)))
    && (forall u :: FindKc(st.kcs, u, 0) == |st.kcs| ==> Definitions(files, n, u) == [])
  }

  // ---- Which names are lost ----

  /** No name is found at 2^32 or behind when it is added. */
  ghost predicate NamesNear(st: Tables, k: nat, defs: seq<Def>)
    requires k < |st.kcs|
    decreases |defs|
  {
    defs != [] ==>
      && Near(st.pool, defs[0].name)
      && (AddSym(st, k, defs[0]).Some? ==> NamesNear(AddSym(st, k, defs[0]).value, k, defs[1..]))
  }

  ghost predicate FileNear(st: Tables, t: seq<byte>) {
    Header(t, 0).Some? ==>
      var (uuid, p) := Header(t, 0).value;
      NamesNear(WithSlot(st, uuid), FindKc(st.kcs, uuid, 0), Symbols(t, p).0)
  }

  ghost predicate IsFor(t: seq<byte>, uuid: seq<byte>) { Header(t, 0).Some? && Header(t, 0).value.0 == uuid }

  /** No name of the first `n` files is found at 2^32 or behind when it is added for `uuid`. */
  ghost predicate UuidNear(files: seq<seq<byte>>, n: nat, uuid: seq<byte>)
    requires n <= |files|
  {
    n != 0 ==>
      && UuidNear(files, n - 1, uuid)
      && match AddFiles(files, n - 1)
         case None => true
         case Some(st) => IsFor(files[n - 1], uuid) ==> FileNear(st, files[n - 1])
  }

  /** The state records, for each UUID, the definitions of the first `n` files, and its offsets denote their
      names exactly if none of these was found at 2^32 or behind. */
  ghost predicate Tracks(st: Tables, files: seq<seq<byte>>, n: nat)
    requires n <= |files|
  {
    && (forall i :: 0 <= i < |st.kcs| ==>
          SlotTracks(st.pool, st.kcs[i], Definitions(files, n, st.kcs[i].uuid), UuidNear(files, n, st.kcs[i].uuid)))
    && (forall u :: FindKc(st.kcs, u, 0) == |st.kcs| ==> Definitions(files, n, u) == [] && UuidNear(files, n, u))
  }

  ghost predicate SlotTracks(pool: seq<byte>, kc: Kc, defs: seq<Def>, near: bool) {
    Recorded(pool, kc.syms, defs) && (Denotes(pool, kc.syms, defs) <==> near)
  }

  /** Adding symbols to slot `k` extends what the slot records, and what it denotes exactly if all of them are
      near; other slots stay. */
  lemma {:induction false} AddSymsDenotes(st: Tables, k: nat, defs: seq<Def>, done: seq<Def>)
    requires k < |st.kcs| && AddSyms(st, k, defs).Some?
    requires Recorded(st.pool, st.kcs[k].syms, done)
    ensures var r := AddSyms(st, k, defs).value;
            && st.pool <= r.pool && Recorded(r.pool, r.kcs[k].syms, done + defs)
            && (Denotes(r.pool, r.kcs[k].syms, done + defs)
                <==> Denotes(st.pool, st.kcs[k].syms, done) && NamesNear(st, k, defs))
    decreases |defs|
  {
    hide Denotes, Recorded, Near, Intern;
    if defs == [] {
      assert done + defs == done;
    } else {
      var st' := AddSym(st, k, defs[0]).value;
      AddSymDenotes(st, k, defs[0], done);
      AddSymsDenotes(st', k, defs[1..], done + [defs[0]]);
      assert done + [defs[0]] + defs[1..] == done + defs;
    }
  }

  lemma AddSymDenotes(st: Tables, k: nat, d: Def, done: seq<Def>)
    requires k < |st.kcs| && AddSym(st, k, d).Some?
    requires Recorded(st.pool, st.kcs[k].syms, done)
    ensures var r := AddSym(st, k, d).value;
            && st.pool <= r.pool && Recorded(r.pool, r.kcs[k].syms, done + [d])
            && (Denotes(r.pool, r.kcs[k].syms, done + [d])
                <==> Denotes(st.pool, st.kcs[k].syms, done) && Near(st.pool, d.name))
  {
    hide Names, Near, Denotes, Recorded, Intern;
    InternNames(st.pool, d.name);
    var (off, pool) := Intern(st.pool, d.name).value;
    DenotesStay(st.pool, pool, st.kcs[k].syms, done);
    OneMore(pool, st.kcs[k].syms, done, Sym(off, d.addr), d);
  }

  lemma OneMore(pool: seq<byte>, syms: seq<Sym>, done: seq<Def>, sym: Sym, d: Def)
    requires Recorded(pool, syms, done) && sym.addr == d.addr && sym.off + |d.name| < |pool|
    ensures Recorded(pool, syms + [sym], done + [d])
    ensures Denotes(pool, syms + [sym], done + [d]) <==> Denotes(pool, syms, done) && Names(pool, sym.off, d.name)
  {
    hide Names;
    var all, defs := syms + [sym], done + [d];
    assert forall j :: 0 <= j < |syms| ==> all[j] == syms[j] && defs[j] == done[j];
    assert all[|syms|] == sym && defs[|syms|] == d;
  }

  /** Adding symbols touches the one slot only, which grows by them. */
  lemma {:induction false} AddSymsShape(st: Tables, k: nat, defs: seq<Def>)
    requires k < |st.kcs| && AddSyms(st, k, defs).Some?
    ensures var r := AddSyms(st, k, defs).value;
            && r.kcs == st.kcs[k := r.kcs[k]] && r.kcs[k].uuid == st.kcs[k].uuid && r.maxsymcnt == st.maxsymcnt
            && |r.kcs[k].syms| == |st.kcs[k].syms| + |defs|
    decreases |defs|
  {
    if defs != [] {
      AddSymsShape(AddSym(st, k, defs[0]).value, k, defs[1..]);
    }
  }

  lemma {:induction false} PoolGrows(st: Tables, k: nat, defs: seq<Def>)
    requires k < |st.kcs| && AddSyms(st, k, defs).Some?
    ensures st.pool <= AddSyms(st, k, defs).value.pool
    decreases |defs|
  {
    if defs != [] {
      PoolGrows(AddSym(st, k, defs[0]).value, k, defs[1..]);
    }
  }

  /** One more file keeps the state's meaning. */
  lemma AddFileRepresents(st: Tables, files: seq<seq<byte>>, n: nat)
    requires 0 < n <= |files| && AddFiles(files, n).Some? && AddFiles(files, n - 1) == Some(st)
    requires WellFormed(st) && Tracks(st, files, n - 1)
    ensures Tracks(AddFiles(files, n).value, files, n)
  {
    hide Symbols, Header, AddSyms, Denotes, Recorded, Tracks, FindKc, WellFormed, Definitions, WithSlot, NamesNear;
    hide UuidNear;
    var t := files[n - 1];
    if Header(t, 0).None? {
      SkippedFileRepresents(st, files, n);
    } else {
      var (uuid, p) := Header(t, 0).value;
      var k := FindKc(st.kcs, uuid, 0);
      var st1 := WithSlot(st, uuid);
      SlotDenotes(st, uuid, files, n - 1);
      AddSymsDenotes(st1, k, Symbols(t, p).0, Definitions(files, n - 1, uuid));
      AddSymsShape(st1, k, Symbols(t, p).0);
      ThisFile(st, files, n, uuid);
      MergeRepresents(st, AddSyms(st1, k, Symbols(t, p).0).value, uuid, files, n);
    }
  }

  lemma SkippedFileRepresents(st: Tables, files: seq<seq<byte>>, n: nat)
    requires 0 < n <= |files| && Tracks(st, files, n - 1) && Header(files[n - 1], 0).None?
    ensures Tracks(st, files, n)
  {
    hide SlotTracks, FindKc, Header, Symbols, FileNear, AddFiles;
    forall u
      ensures Definitions(files, n, u) == Definitions(files, n - 1, u)
      ensures UuidNear(files, n, u) <==> UuidNear(files, n - 1, u)
    {
      assert FileDefs(files[n - 1], u) == [];
    }
  }

  /** `r` is `st` with the file's definitions in the slot of `uuid`. */
  ghost predicate Merged(st: Tables, r: Tables, uuid: seq<byte>) {
    var k := FindKc(st.kcs, uuid, 0);
    var st1 := WithSlot(st, uuid);
    st.maxsymcnt == r.maxsymcnt && |r.kcs| == |st1.kcs| && r.kcs[k].uuid == uuid && r.kcs == st1.kcs[k := r.kcs[k]]
  }

  /** The state after file `n` where its header carries `uuid`: the slot of the UUID is up to date. */
  ghost predicate Advanced(st: Tables, r: Tables, uuid: seq<byte>, files: seq<seq<byte>>, n: nat) {
    && 0 < n <= |files|
    && Merged(st, r, uuid) && st.pool <= r.pool && IsFor(files[n - 1], uuid) && FindKc(st.kcs, uuid, 0) < |r.kcs|
    && SlotTracks(r.pool, r.kcs[FindKc(st.kcs, uuid, 0)], Definitions(files, n, uuid), UuidNear(files, n, uuid))
  }

  lemma MergeRepresents(st: Tables, r: Tables, uuid: seq<byte>, files: seq<seq<byte>>, n: nat)
    requires Advanced(st, r, uuid, files, n) && WellFormed(st) && Tracks(st, files, n - 1)
    ensures Tracks(NoteMax(r, FindKc(st.kcs, uuid, 0)), files, n)
  {
    hide SlotTracks, WellFormed, Definitions, UuidNear, AddFiles, IsFor, Merged, FindKc;
    NoteKeeps(r, FindKc(st.kcs, uuid, 0));
    forall i | 0 <= i < |r.kcs|
      ensures SlotTracks(r.pool, r.kcs[i], Definitions(files, n, r.kcs[i].uuid), UuidNear(files, n, r.kcs[i].uuid))
    {
      SlotRepresents(st, r, uuid, files, n, i);
    }
    forall u | FindKc(r.kcs, u, 0) == |r.kcs|
      ensures Definitions(files, n, u) == [] && UuidNear(files, n, u)
    {
      AbsentStays(st, r, uuid, u);
      OtherFile(files, n, uuid, u);
    }
  }

  lemma NoteKeeps(r: Tables, k: nat)
    requires k < |r.kcs|
    ensures NoteMax(r, k).kcs == r.kcs && NoteMax(r, k).pool == r.pool
  {
  }

  lemma MergeWellFormed(st: Tables, r: Tables, uuid: seq<byte>)
    requires WellFormed(st) && Merged(st, r, uuid) && |uuid| == 16
    ensures WellFormed(NoteMax(r, FindKc(st.kcs, uuid, 0)))
  {
    assert st.maxsymcnt == r.maxsymcnt && FindKc(st.kcs, uuid, 0) < |r.kcs|;
    hide Merged, FindKc, WithSlot;
    var r' := NoteMax(r, FindKc(st.kcs, uuid, 0));
    forall i | 0 <= i < |r.kcs|
      ensures |r'.kcs[i].uuid| == 16 && |r'.kcs[i].syms| <= r'.maxsymcnt
    {
      MergedSlots(st, r, uuid, i);
    }
    forall i, j | 0 <= i < j < |r.kcs|
      ensures r'.kcs[i].uuid != r'.kcs[j].uuid
    {
      MergedSlots(st, r, uuid, i);
      MergedSlots(st, r, uuid, j);
    }
  }

  lemma OtherFile(files: seq<seq<byte>>, n: nat, uuid: seq<byte>, u: seq<byte>)
    requires 0 < n <= |files| && IsFor(files[n - 1], uuid) && uuid != u
    ensures Definitions(files, n, u) == Definitions(files, n - 1, u)
    ensures UuidNear(files, n, u) <==> UuidNear(files, n - 1, u)
  {
    hide FileNear, Symbols, Header, AddFiles;
    assert FileDefs(files[n - 1], u) == [];
  }

  lemma ThisFile(st: Tables, files: seq<seq<byte>>, n: nat, uuid: seq<byte>)
    requires 0 < n <= |files| && AddFiles(files, n - 1) == Some(st) && IsFor(files[n - 1], uuid)
    ensures Definitions(files, n, uuid) == Definitions(files, n - 1, uuid) + FileDefs(files[n - 1], uuid)
    ensures UuidNear(files, n, uuid) <==> UuidNear(files, n - 1, uuid) && FileNear(st, files[n - 1])
  {
    hide FileNear, Symbols, Header, AddFiles, FileDefs, IsFor;
  }

  lemma SlotRepresents(st: Tables, r: Tables, uuid: seq<byte>, files: seq<seq<byte>>, n: nat, i: nat)
    requires Advanced(st, r, uuid, files, n) && WellFormed(st) && Tracks(st, files, n - 1) && i < |r.kcs|
    ensures SlotTracks(r.pool, r.kcs[i], Definitions(files, n, r.kcs[i].uuid), UuidNear(files, n, r.kcs[i].uuid))
  {
    hide SlotTracks, UuidNear, AddFiles, Definitions, IsFor, FindKc, WellFormed, Tracks, Merged;
    MergedSlots(st, r, uuid, i);
    if i != FindKc(st.kcs, uuid, 0) {
      OtherFile(files, n, uuid, st.kcs[i].uuid);
      TracksAt(st, files, n - 1, i);
      TracksStay(st.pool, r.pool, st.kcs[i], Definitions(files, n - 1, st.kcs[i].uuid),
                 UuidNear(files, n - 1, st.kcs[i].uuid));
    }
  }

  lemma MergedSlots(st: Tables, r: Tables, uuid: seq<byte>, i: nat)
    requires WellFormed(st) && Merged(st, r, uuid) && i < |r.kcs|
    ensures var k := FindKc(st.kcs, uuid, 0);
            if i == k then r.kcs[i].uuid == uuid else i < |st.kcs| && r.kcs[i] == st.kcs[i] && st.kcs[i].uuid != uuid
  {
    SlotsDiffer(st, uuid, FindKc(st.kcs, uuid, 0));
  }

  lemma TracksAt(st: Tables, files: seq<seq<byte>>, n: nat, i: nat)
    requires n <= |files| && Tracks(st, files, n) && i < |st.kcs|
    ensures SlotTracks(st.pool, st.kcs[i], Definitions(files, n, st.kcs[i].uuid), UuidNear(files, n, st.kcs[i].uuid))
  {
    hide SlotTracks, AddFiles, Definitions, UuidNear;
  }

  lemma TracksStay(pool: seq<byte>, pool': seq<byte>, kc: Kc, defs: seq<Def>, near: bool)
    requires pool <= pool' && SlotTracks(pool, kc, defs, near)
    ensures SlotTracks(pool', kc, defs, near)
  {
    hide Denotes, Recorded;
    DenotesStay(pool, pool', kc.syms, defs);
  }

  lemma SlotsDiffer(st: Tables, uuid: seq<byte>, k: nat)
    requires WellFormed(st) && k == FindKc(st.kcs, uuid, 0)
    ensures forall i :: 0 <= i < |st.kcs| && i != k ==> st.kcs[i].uuid != uuid
  {
  }

  lemma AbsentStays(st: Tables, r: Tables, uuid: seq<byte>, u: seq<byte>)
    requires FindKc(r.kcs, u, 0) == |r.kcs| && Merged(st, r, uuid)
    ensures u != uuid && FindKc(st.kcs, u, 0) == |st.kcs|
  {
    var k := FindKc(st.kcs, uuid, 0);
    assert r.kcs[k].uuid == uuid;
    assert forall i :: 0 <= i < |st.kcs| ==> r.kcs[i].uuid == st.kcs[i].uuid;
  }

  lemma SlotDenotes(st: Tables, uuid: seq<byte>, files: seq<seq<byte>>, n: nat)
    requires n <= |files| && WellFormed(st) && Tracks(st, files, n) && |uuid| == 16
    ensures var k := FindKc(st.kcs, uuid, 0);
            var st1 := WithSlot(st, uuid);
            && k < |st1.kcs| && st1.kcs[k].uuid == uuid && st1.pool == st.pool && st1.maxsymcnt == st.maxsymcnt
            && SlotTracks(st1.pool, st1.kcs[k], Definitions(files, n, uuid), UuidNear(files, n, uuid))
  {
    hide Definitions, UuidNear, AddFiles;
  }

  /** Over every run, for each UUID in file order: each recorded offset denotes its symbol's name, if and only if
      no name was found at 2^32 or behind. */
  lemma {:induction false} FilesRepresent(files: seq<seq<byte>>, n: nat)
    requires n <= |files| && AddFiles(files, n).Some?
    ensures Tracks(AddFiles(files, n).value, files, n)
  {
    hide AddFile, SlotTracks;
    if n != 0 {
      FilesWellFormed(files, n - 1);
      FilesRepresent(files, n - 1);
      AddFileRepresents(AddFiles(files, n - 1).value, files, n);
    }
  }

  lemma {:induction false} SmallPoolNear(st: Tables, k: nat, defs: seq<Def>)
    requires k < |st.kcs| && AddSyms(st, k, defs).Some? && |AddSyms(st, k, defs).value.pool| <= TWO_32
    ensures NamesNear(st, k, defs)
    decreases |defs|
  {
    hide Find;
    if defs != [] {
      PoolGrows(st, k, defs);
      PoolIsNear(st.pool, defs[0].name);
      SmallPoolNear(AddSym(st, k, defs[0]).value, k, defs[1..]);
    }
  }

  lemma PoolIsNear(pool: seq<byte>, name: seq<byte>)
    requires |pool| <= TWO_32
    ensures Near(pool, name)
  {
    hide Find;
    if Find(pool, name + [0], 0).Some? {
      FoundInside(pool, name + [0]);
    }
  }

  lemma {:induction false} SmallFilesNear(files: seq<seq<byte>>, n: nat, uuid: seq<byte>)
    requires n <= |files| && AddFiles(files, n).Some? && |AddFiles(files, n).value.pool| <= TWO_32
    ensures UuidNear(files, n, uuid)
  {
    hide NamesNear, AddSyms, Symbols, Header;
    if n != 0 {
      var st := AddFiles(files, n - 1).value;
      FilePoolGrows(st, files[n - 1]);
      SmallFilesNear(files, n - 1, uuid);
      if IsFor(files[n - 1], uuid) {
        var (u, p) := Header(files[n - 1], 0).value;
        SlotUuid(st, u);
        SmallPoolNear(WithSlot(st, u), FindKc(st.kcs, u, 0), Symbols(files[n - 1], p).0);
      }
    }
  }

  /** A pool of at most 4 GiB, as in every blob that can be uploaded, loses no name. */
  lemma SmallPoolRepresents(files: seq<seq<byte>>, n: nat)
    requires n <= |files| && AddFiles(files, n).Some? && |AddFiles(files, n).value.pool| <= TWO_32
    ensures Represents(AddFiles(files, n).value, files, n)
  {
    hide AddFiles, UuidNear, Definitions, Denotes, Recorded;
    FilesRepresent(files, n);
    var st := AddFiles(files, n).value;
    forall i | 0 <= i < |st.kcs|
      ensures Denotes(st.pool, st.kcs[i].syms, Definitions(files, n, st.kcs[i].uuid))
    {
      SmallFilesNear(files, n, st.kcs[i].uuid);
    }
  }

  /** A name that is lost: behind a name of 2^32 times "a" and then "b", the name "b" is found at 2^32 and
      recorded at 0, where the long name starts. */
  lemma LongNameHides(uuid: seq<byte>, x: u64, y: u64)
    ensures var long: seq<byte> := seq(TWO_32, _ => 97) + [98];
            var defs := [Def(long, x), Def([98], y)];
            var r := AddSyms(Tables([Kc(uuid, [])], 0, []), 0, defs);
            && r.Some? && r.value.kcs[0].syms == [Sym(0, x), Sym(0, y)]
            && !Denotes(r.value.pool, r.value.kcs[0].syms, defs)
  {
    hide Find, At;
    var long: seq<byte> := seq(TWO_32, _ => 97) + [98];
    var pool := long + [0];
    FirstInterned(long);
    LastLetter(pool);
    var st := Tables([Kc(uuid, [])], 0, []);
    var st1 := Tables([Kc(uuid, [Sym(0, x)])], 0, pool);
    var st2 := Tables([Kc(uuid, [Sym(0, x), Sym(0, y)])], 0, pool);
    assert [] + [Sym(0, x)] == [Sym(0, x)] && [Sym(0, x)] + [Sym(0, y)] == [Sym(0, x), Sym(0, y)];
    assert st.kcs[0 := Kc(uuid, [Sym(0, x)])] == st1.kcs && st1.kcs[0 := Kc(uuid, [Sym(0, x), Sym(0, y)])] == st2.kcs;
    assert AddSym(st, 0, Def(long, x)) == Some(st1);
    assert AddSym(st1, 0, Def([98], y)) == Some(st2);
    AddTwo(st, st1, st2, Def(long, x), Def([98], y));
    NotAtStart(pool);
  }

  lemma FirstInterned(name: seq<byte>)
    ensures Intern([], name) == Some((0, name + [0]))
  {
    assert [] + (name + [0]) == name + [0];
  }

  lemma LastLetter(pool: seq<byte>)
    requires |pool| == TWO_32 + 2 && (forall i :: 0 <= i < TWO_32 ==> pool[i] == 97)
    requires pool[TWO_32] == 98 && pool[TWO_32 + 1] == 0
    ensures Intern(pool, [98]) == Some((0, pool))
  {
    var needle: seq<byte> := [98] + [0];
    assert At(pool, TWO_32, needle);
    forall j: nat | j < TWO_32
      ensures !At(pool, j, needle)
    {
      assert pool[j + 0] != needle[0];
    }
    assert Find(pool, needle, 0) == Some(TWO_32);
  }

  lemma NotAtStart(pool: seq<byte>)
    requires pool != [] && pool[0] == 97
    ensures !Names(pool, 0, [98])
  {
    var needle: seq<byte> := [98] + [0];
    assert pool[0 + 0] != needle[0];
  }

  lemma AddTwo(st: Tables, st1: Tables, st2: Tables, d: Def, e: Def)
    requires |st.kcs| == |st1.kcs| == |st2.kcs| == 1 && AddSym(st, 0, d) == Some(st1) && AddSym(st1, 0, e) == Some(st2)
    ensures AddSyms(st, 0, [d, e]) == Some(st2)
  {
    hide AddSym;
    assert [d, e][1..] == [e] && [e][1..] == [];
    assert AddSyms(st2, 0, []) == Some(st2);
    assert AddSyms(st1, 0, [e]) == Some(st2);
  }

  /** Over every run: one slot a UUID, and `maxsymcnt` bounds every slot. */
  lemma {:induction false} FilesWellFormed(files: seq<seq<byte>>, n: nat)
    requires n <= |files| && AddFiles(files, n).Some?
    ensures WellFormed(AddFiles(files, n).value)
  {
    hide AddFile;
    if n != 0 {
      FilesWellFormed(files, n - 1);
      FileWellFormed(AddFiles(files, n - 1).value, files[n - 1]);
    }
  }

  lemma FileWellFormed(st: Tables, t: seq<byte>)
    requires WellFormed(st) && AddFile(st, t).Some?
    ensures WellFormed(AddFile(st, t).value)
  {
    hide WellFormed, Symbols, AddSyms, FindKc;
    if Header(t, 0).Some? {
      var (uuid, p) := Header(t, 0).value;
      var k := FindKc(st.kcs, uuid, 0);
      SlotUuid(st, uuid);
      AddSymsShape(WithSlot(st, uuid), k, Symbols(t, p).0);
      MergeWellFormed(st, AddSyms(WithSlot(st, uuid), k, Symbols(t, p).0).value, uuid);
    }
  }

  /** The count is that of some slot, or there is no symbol at all. */
  ghost predicate Reached(st: Tables) {
    st.maxsymcnt == 0 || exists i :: 0 <= i < |st.kcs| && |st.kcs[i].syms| == st.maxsymcnt
  }

  /** Over every run, `maxsymcnt` is the size of the largest slot. */
  lemma {:induction false} MaxIsReached(files: seq<seq<byte>>, n: nat)
    requires n <= |files| && AddFiles(files, n).Some?
    ensures Reached(AddFiles(files, n).value)
  {
    hide AddFile, Reached, WellFormed;
    if n != 0 {
      FilesWellFormed(files, n - 1);
      MaxIsReached(files, n - 1);
      FileReached(AddFiles(files, n - 1).value, files[n - 1]);
    } else {
      NothingReached();
    }
  }

  lemma NothingReached()
    ensures Reached(EMPTY)
  {
  }

  lemma FileReached(st: Tables, t: seq<byte>)
    requires WellFormed(st) && Reached(st) && AddFile(st, t).Some?
    ensures Reached(AddFile(st, t).value)
  {
    hide Symbols, AddSyms, Header, Reached, WellFormed;
    if Header(t, 0).Some? {
      var (uuid, p) := Header(t, 0).value;
      var k, st1 := FindKc(st.kcs, uuid, 0), WithSlot(st, uuid);
      SlotUuid(st, uuid);
      WithSlotReached(st, uuid);
      AddSymsShape(st1, k, Symbols(t, p).0);
      SlotReached(st1, AddSyms(st1, k, Symbols(t, p).0).value, k);
    }
  }

  lemma WithSlotReached(st: Tables, uuid: seq<byte>)
    requires WellFormed(st) && Reached(st)
    ensures var k, st1 := FindKc(st.kcs, uuid, 0), WithSlot(st, uuid);
            k < |st1.kcs| && |st1.kcs[k].syms| <= st1.maxsymcnt && Reached(st1)
  {
    if st.maxsymcnt != 0 {
      var i :| 0 <= i < |st.kcs| && |st.kcs[i].syms| == st.maxsymcnt;
      assert WithSlot(st, uuid).kcs[i] == st.kcs[i];
    }
  }

  lemma SlotReached(st: Tables, r: Tables, k: nat)
    requires k < |st.kcs| && |st.kcs[k].syms| <= st.maxsymcnt && Reached(st) && r.maxsymcnt == st.maxsymcnt
    requires |r.kcs| == |st.kcs| && r.kcs == st.kcs[k := r.kcs[k]] && |st.kcs[k].syms| <= |r.kcs[k].syms|
    ensures Reached(NoteMax(r, k))
  {
    if st.maxsymcnt != 0 {
      var i :| 0 <= i < |st.kcs| && |st.kcs[i].syms| == st.maxsymcnt;
      assert i != k ==> r.kcs[i] == st.kcs[i];
    }
  }

  lemma SlotUuid(st: Tables, uuid: seq<byte>)
    ensures var k := FindKc(st.kcs, uuid, 0); var st1 := WithSlot(st, uuid);
            k < |st1.kcs| && st1.kcs[k].uuid == uuid && st1.maxsymcnt == st.maxsymcnt
  {
  }

  lemma FilePoolGrows(st: Tables, t: seq<byte>)
    requires AddFile(st, t).Some?
    ensures st.pool <= AddFile(st, t).value.pool
  {
    if Header(t, 0).Some? {
      var (uuid, p) := Header(t, 0).value;
      PoolGrows(WithSlot(st, uuid), FindKc(st.kcs, uuid, 0), Symbols(t, p).0);
    }
  }

  lemma SymbolsStep(t: seq<byte>, p: nat)
    requires Symbol(t, p).Got?
    ensures var Got(name, addr, next) := Symbol(t, p);
            var defs := Symbols(t, p).0;
            defs != [] && defs[0] == Def(name, addr) && defs[1..] == Symbols(t, next).0
  {
  }

  // ---- The state as the program keeps it ----

  class KcsState {
    var kcs: seq<Kc>
    var maxsymcnt: nat
    var symstr: seq<byte>

    function State(): Tables
      reads this
    {
      Tables(kcs, maxsymcnt, symstr)
    }

    constructor ()
      ensures State() == EMPTY
    {
      kcs, maxsymcnt, symstr := [], 0, [];
    }

    /** Appends one symbol to slot `k`; `ok` is false where the assertion on the offset fails. */
    method AddSymbol(k: nat, name: seq<byte>, address: u64) returns (ok: bool)
      requires k < |kcs|
      modifies this
      ensures ok ==> |kcs| == |old(kcs)|
      ensures match AddSym(old(State()), k, Def(name, address))
              case None => !ok
              case Some(st) => ok && State() == st
    {
      var off: u32;
      var found := Find(symstr, name + [0], 0);
      if found.Some? {
        off := Wrap32(found.value);
      } else {
        var size := |symstr|;
        symstr := symstr + (name + [0]);
        off := Wrap32(size);
        if off != size {
          return false;
        }
      }
      kcs := kcs[k := kcs[k].(syms := kcs[k].syms + [Sym(off, address)])];
      return true;
    }

    /** The UUID search of the update loop. */
    method FindUuid(uuid: seq<byte>) returns (k: nat)
      ensures k == FindKc(kcs, uuid, 0)
    {
      k := 0;
      while k < |kcs|
        invariant k <= |kcs| && FindKc(kcs, uuid, 0) == FindKc(kcs, uuid, k)
      {
        if kcs[k].uuid == uuid {
          return;
        }
        k := k + 1;
      }
    }

    method UpdateFile(text: seq<byte>) returns (ok: bool)
      modifies this
      ensures match AddFile(old(State()), text)
              case None => !ok
              case Some(st) => ok && State() == st
    {
      var tp := new TextParser(text);
      var uuid := tp.ParseHeader();
      if uuid.None? {
        return true;
      }
      var k := FindUuid(uuid.value);
      if k == |kcs| {
        kcs := kcs + [Kc(uuid.value, [])];
      }
      ok := ParseSymbols(tp, k);
      if ok && |kcs[k].syms| > maxsymcnt {
        maxsymcnt := |kcs[k].syms|;
      }
    }

    /** The loop over the symbols of one file. */
    method ParseSymbols(tp: TextParser, k: nat) returns (ok: bool)
      requires k < |kcs| && tp.Valid()
      modifies this, tp
      ensures match AddSyms(old(State()), k, Symbols(tp.text, old(tp.p)).0)
              case None => !ok
              case Some(st) => ok && State() == st
    {
      hide Symbol, AddSym;
      while true
        invariant tp.Valid() && k < |kcs|
        invariant AddSyms(State(), k, Symbols(tp.text, tp.p).0)
               == AddSyms(old(State()), k, Symbols(tp.text, old(tp.p)).0)
        decreases |tp.text| + 1 - tp.p
      {
        ghost var st, before := State(), tp.p;
        var parsed, symbol, address := tp.ParseSymbol();
        assert State() == st;
        if !parsed || symbol.None? {
          return true;
        }
        SymbolsStep(tp.text, before);
        assert AddSyms(st, k, Symbols(tp.text, before).0) == AddSymsTail(st, k, Symbols(tp.text, before).0);
        ok := AddSymbol(k, symbol.value, address);
        if !ok {
          return false;
        }
      }
    }
  }
}
