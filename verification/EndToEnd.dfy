/** From symbol files on the host to lookups on the device, and the chain of tables as a map. */
module EndToEnd {
  import opened Machine
  import opened SymbolText
  import opened HostTable
  import opened HostBlob
  import opened DeviceSymbols
  import opened BlobRoundTrip
  import SymbolGrammar

  // ---- Which blobs give readable tables ----

  const LAST_OFFSET: u32 := 0xFFFF_FFFF

  /** The table that an accepted blob becomes. */
  function Built(data: seq<byte>, uuid: seq<byte>, base: u64, next: u64): SymbolTable
    requires ParseBlob(data, uuid).Accepted?
  {
    var parsed := ParseBlob(data, uuid);
    SymbolTable(base, TableBytes(base, next, parsed.entries, parsed.strings))
  }

  /** The blob is accepted and `malloc` has room for its table. */
  predicate Granted(data: seq<byte>, uuid: seq<byte>, available: nat) {
    ParseBlob(data, uuid).Accepted? && Needed(data, uuid) <= available
  }

  function Needed(data: seq<byte>, uuid: seq<byte>): nat
    requires ParseBlob(data, uuid).Accepted?
  {
    32 + 16 * |ParseBlob(data, uuid).entries| + |ParseBlob(data, uuid).strings|
  }

  /** What `malloc` returns for the table lies below the end of the address space. */
  predicate InSpace(data: seq<byte>, uuid: seq<byte>, base: u64, available: nat) {
    Granted(data, uuid, available) ==> base + Needed(data, uuid) < TWO_64
  }

  /** `malloc` does not fail on the table of `data`. */
  predicate Fits(data: seq<byte>, uuid: seq<byte>, base: u64, available: nat) {
    ParseBlob(data, uuid).Accepted? ==> Granted(data, uuid, available) && InSpace(data, uuid, base, available)
  }

  /** An accepted blob gives a table whose every pointer starts a terminated string in its allocation,
      exactly when no symbol offset is 2^32 - 1, where the parser's 32-bit sum wraps to zero. */
  lemma AcceptedIsReadable(data: seq<byte>, uuid: seq<byte>, base: u64, next: u64, available: nat)
    requires |data| < TWO_32 && Granted(data, uuid, available) && InSpace(data, uuid, base, available)
    ensures Readable(Built(data, uuid, base, next)) <==>
            forall e <- ParseBlob(data, uuid).entries :: e.off != LAST_OFFSET
  {
    hide Readable, TableBytes, ReadEntries, FindDescriptor, U32At;
    var Accepted(es, strings) := ParseBlob(data, uuid);
    BuiltReadable(Built(data, uuid, base, next), next, es, strings);
    TableSize(Built(data, uuid, base, next), next, es, strings);
    AcceptedOffsets(data, uuid);
  }

  lemma AcceptedOffsets(data: seq<byte>, uuid: seq<byte>)
    requires |data| < TWO_32 && ParseBlob(data, uuid).Accepted?
    ensures var Accepted(es, strings) := ParseBlob(data, uuid);
            forall i :: 0 <= i < |es| ==> (es[i].off < |strings| <==> es[i].off != LAST_OFFSET)
  {
    hide FindDescriptor;
  }

  /** The excluded family is not empty: a small blob with that offset passes every check. */
  lemma LastOffsetIsAccepted(uuid: seq<byte>)
    requires |uuid| == 16
    ensures var data := Serialize(Tables([Kc(uuid, [Sym(LAST_OFFSET, 0)])], 1, [0]));
            && |data| == 45 && ParseBlob(data, uuid) == Accepted([Sym(LAST_OFFSET, 0)], [0])
            && !Readable(Built(data, uuid, 0x1000, 0))
  {
    hide Readable, TableBytes, ReadEntries, FindDescriptor, U32At, ParseBlob;
    var st := Tables([Kc(uuid, [Sym(LAST_OFFSET, 0)])], 1, [0]);
    var data := Serialize(st);
    assert TablesOf(st.kcs, 1) == [] + Table(st.kcs[0]);
    BlobPieces(st);
    ParsesBack(st, uuid);
    assert ParseBlob(data, uuid).entries[0].off == LAST_OFFSET;
    AcceptedIsReadable(data, uuid, 0x1000, 0, 100);
  }

  // ---- A chain as a map ----

  /** The names of one table, the first entry of a name winning. */
  ghost function TableMap(tab: SymbolTable, i: nat): map<seq<byte>, u64>
    requires Readable(tab) && i <= Count(tab)
    decreases Count(tab) - i
  {
    if i == Count(tab) then map[] else TableMap(tab, i + 1)[NameAt(tab, i) := AddressAt(tab, i)]
  }

  /** The override of the tables, the newest table winning. */
  ghost function ChainMap(chain: seq<SymbolTable>): map<seq<byte>, u64>
    requires AllReadable(chain)
  {
    if chain == [] then map[] else ChainMap(chain[1..]) + TableMap(chain[0], 0)
  }

  lemma {:induction false} TableLookupIsMap(tab: SymbolTable, name: seq<byte>, i: nat)
    requires Readable(tab) && i <= Count(tab)
    ensures TableLookup(tab, name, i) ==
            if name in TableMap(tab, i) then Some(TableMap(tab, i)[name]) else None
    decreases Count(tab) - i
  {
    hide Readable, Count, NameAt, AddressAt;
    ReadableBounds(tab);
    if i < Count(tab) {
      TableLookupIsMap(tab, name, i + 1);
    }
  }

  /** The lookup refines the map. */
  lemma {:induction false} LookupIsMap(chain: seq<SymbolTable>, name: seq<byte>)
    requires AllReadable(chain)
    ensures ChainLookup(chain, name) == if name in ChainMap(chain) then ChainMap(chain)[name] else 0
    decreases |chain|
  {
    hide Readable;
    if chain != [] {
      TableLookupIsMap(chain[0], name, 0);
      LookupIsMap(chain[1..], name);
    }
  }

  /** An upload that is accepted and gets its memory overrides the map, every other leaves it. */
  lemma LoadOverrides(chain: seq<SymbolTable>, data: seq<byte>, uuid: seq<byte>, base: u64, available: nat)
    requires AllReadable(chain)
    requires Granted(data, uuid, available) ==> Readable(Built(data, uuid, base, HeadPointer(chain)))
    ensures AllReadable(LoadChain(chain, data, uuid, base, available))
    ensures ChainMap(LoadChain(chain, data, uuid, base, available)) ==
            if Granted(data, uuid, available)
            then ChainMap(chain) + TableMap(Built(data, uuid, base, HeadPointer(chain)), 0) else ChainMap(chain)
  {
    hide Readable, TableBytes, ParseBlob, LoadChain, TableMap, ChainMap, HeadPointer;
    LoadCases(chain, data, uuid, base, available);
    if Granted(data, uuid, available) {
      ChainMapCons(Built(data, uuid, base, HeadPointer(chain)), chain);
    }
  }

  lemma ChainMapCons(tab: SymbolTable, chain: seq<SymbolTable>)
    requires Readable(tab) && AllReadable(chain)
    ensures AllReadable([tab] + chain) && ChainMap([tab] + chain) == ChainMap(chain) + TableMap(tab, 0)
  {
    hide Readable, TableMap;
    var r := [tab] + chain;
    assert r[0] == tab && r[1..] == chain;
    assert forall i :: 0 <= i < |chain| ==> r[i + 1] == chain[i];
  }

  // ---- A run of uploads ----

  /** One upload, with what `malloc` returns and can give. */
  datatype Upload = Upload(data: seq<byte>, base: u64, available: nat)

  /** The map of a parsed blob, the first entry of a name winning. */
  ghost function EntryMap(es: seq<Sym>, strings: seq<byte>, i: nat): map<seq<byte>, u64>
    requires i <= |es| && forall k :: 0 <= k < |es| ==> es[k].off < |strings|
    decreases |es| - i
  {
    if i == |es| then map[] else EntryMap(es, strings, i + 1)[CStr(strings, es[i].off) := es[i].addr]
  }

  /** The uploads that the lookups may rely on, rejected ones and those that get no memory included: the fields
      of the struct fit, and no offset of an accepted blob is 2^32 - 1. */
  ghost predicate Usable(u: Upload, uuid: seq<byte>) {
    && |u.data| < TWO_32 && InSpace(u.data, uuid, u.base, u.available) && !Overruns(u.data, uuid, u.available)
    && (Granted(u.data, uuid, u.available) ==> forall e <- ParseBlob(u.data, uuid).entries :: e.off != LAST_OFFSET)
  }

  function Run(uploads: seq<Upload>, n: nat, uuid: seq<byte>): seq<SymbolTable>
    requires n <= |uploads|
  {
    if n == 0 then [] else
      var u := uploads[n - 1];
      LoadChain(Run(uploads, n - 1, uuid), u.data, uuid, u.base, u.available)
  }

  ghost function UploadMap(u: Upload, uuid: seq<byte>): map<seq<byte>, u64>
    requires Usable(u, uuid)
  {
    if Granted(u.data, uuid, u.available) then
      AcceptedOffsets(u.data, uuid);
      EntryMap(ParseBlob(u.data, uuid).entries, ParseBlob(u.data, uuid).strings, 0)
    else map[]
  }

  ghost function RunMap(uploads: seq<Upload>, n: nat, uuid: seq<byte>): map<seq<byte>, u64>
    requires n <= |uploads| && forall u <- uploads :: Usable(u, uuid)
  {
    if n == 0 then map[] else RunMap(uploads, n - 1, uuid) + UploadMap(uploads[n - 1], uuid)
  }

  lemma {:induction false} BuiltMap(tab: SymbolTable, next: u64, es: seq<Sym>, strings: seq<byte>, i: nat)
    requires |es| < TWO_32 && tab.mem == TableBytes(tab.base, next, es, strings) && Readable(tab)
    requires tab.base + |tab.mem| < TWO_64 && (forall k :: 0 <= k < |es| ==> es[k].off < |strings|)
    requires i <= |es| == Count(tab)
    ensures TableMap(tab, i) == EntryMap(es, strings, i)
    decreases |es| - i
  {
    hide TableBytes, Readable, Count, CStr, NameOffset, AddressAt;
    if i < |es| {
      BuiltEntry(tab, next, es, strings, i);
      BuiltName(tab, next, es, strings, es[i].off);
      BuiltMap(tab, next, es, strings, i + 1);
    }
  }

  /** One upload turns the map of the chain into its override by the map of the blob. */
  lemma UploadIsOverride(chain: seq<SymbolTable>, u: Upload, uuid: seq<byte>)
    requires AllReadable(chain) && Usable(u, uuid)
    ensures var after := LoadChain(chain, u.data, uuid, u.base, u.available);
            AllReadable(after) && ChainMap(after) == ChainMap(chain) + UploadMap(u, uuid)
  {
    hide Readable, TableBytes, ParseBlob, LoadChain, TableMap, ChainMap, HeadPointer, EntryMap;
    var parsed, next := ParseBlob(u.data, uuid), HeadPointer(chain);
    if Granted(u.data, uuid, u.available) {
      var tab := Built(u.data, uuid, u.base, next);
      AcceptedShape(u.data, uuid);
      AcceptedOffsets(u.data, uuid);
      TableSize(tab, next, parsed.entries, parsed.strings);
      AcceptedIsReadable(u.data, uuid, u.base, next, u.available);
      BuiltCount(tab, next, parsed.entries, parsed.strings);
      BuiltMap(tab, next, parsed.entries, parsed.strings, 0);
    }
    LoadOverrides(chain, u.data, uuid, u.base, u.available);
  }

  /** Over any run of uploads, a name looks up to what the newest blob with the name says first. */
  lemma {:induction false} RunIsMap(uploads: seq<Upload>, n: nat, uuid: seq<byte>, name: seq<byte>)
    requires n <= |uploads| && forall u <- uploads :: Usable(u, uuid)
    ensures AllReadable(Run(uploads, n, uuid)) && ChainMap(Run(uploads, n, uuid)) == RunMap(uploads, n, uuid)
    ensures ChainLookup(Run(uploads, n, uuid), name) ==
            if name in RunMap(uploads, n, uuid) then RunMap(uploads, n, uuid)[name] else 0
  {
    hide Readable, Usable, LoadChain, UploadMap, ChainLookup;
    if n != 0 {
      RunIsMap(uploads, n - 1, uuid, name);
      UploadIsOverride(Run(uploads, n - 1, uuid), uploads[n - 1], uuid);
    }
    LookupIsMap(Run(uploads, n, uuid), name);
  }

  /** `malloc` returns different addresses, and never null, for the tables that stay allocated. */
  ghost predicate FreshBases(uploads: seq<Upload>, uuid: seq<byte>) {
    && (forall i :: 0 <= i < |uploads| && Loads(uploads[i], uuid) ==> uploads[i].base != 0)
    && (forall i, j :: 0 <= i < j < |uploads| && Loads(uploads[i], uuid) && Loads(uploads[j], uuid) ==>
          uploads[i].base != uploads[j].base)
  }

  ghost predicate Loads(u: Upload, uuid: seq<byte>) { Granted(u.data, uuid, u.available) }

  /** Over any run of uploads, the tables are linked in memory in the order of the chain, so that the lookup may
      go along the links. */
  lemma {:induction false} RunIsWired(uploads: seq<Upload>, n: nat, uuid: seq<byte>)
    requires n <= |uploads| && FreshBases(uploads, uuid)
    ensures var chain := Run(uploads, n, uuid);
            Wired(chain) && forall t :: 0 <= t < |chain| ==> LoadedAt(uploads, n, uuid, chain[t].base)
  {
    hide LoadChain, Wired, Loads, LoadedAt;
    if n != 0 {
      RunIsWired(uploads, n - 1, uuid);
      var chain, u := Run(uploads, n - 1, uuid), uploads[n - 1];
      LoadsOrNot(chain, u, uuid);
      forall b: u64
        ensures LoadedAt(uploads, n, uuid, b) <==>
                LoadedAt(uploads, n - 1, uuid, b) || (Loads(u, uuid) && b == u.base)
        ensures Loads(u, uuid) && LoadedAt(uploads, n - 1, uuid, b) ==> b != u.base
      {
        OneMoreLoaded(uploads, n, uuid, b);
      }
      OneMoreLoaded(uploads, n, uuid, u.base);
      assert Loads(u, uuid) ==> Unused(chain, u.base);
      LoadKeepsWires(chain, u.data, uuid, u.base, u.available);
    } else {
      NothingWired();
    }
  }

  /** One of the first `n` uploads got its table at `b`. */
  ghost predicate LoadedAt(uploads: seq<Upload>, n: nat, uuid: seq<byte>, b: u64)
    requires n <= |uploads|
  {
    exists i :: 0 <= i < n && Loads(uploads[i], uuid) && uploads[i].base == b
  }

  lemma OneMoreLoaded(uploads: seq<Upload>, n: nat, uuid: seq<byte>, b: u64)
    requires 0 < n <= |uploads| && FreshBases(uploads, uuid)
    ensures LoadedAt(uploads, n, uuid, b) <==>
            LoadedAt(uploads, n - 1, uuid, b) || (Loads(uploads[n - 1], uuid) && b == uploads[n - 1].base)
    ensures Loads(uploads[n - 1], uuid) && LoadedAt(uploads, n - 1, uuid, b) ==> b != uploads[n - 1].base
    ensures Loads(uploads[n - 1], uuid) ==> uploads[n - 1].base != 0
  {
    hide Loads;
  }

  lemma NothingWired()
    ensures Wired([])
  {
  }

  lemma LoadsOrNot(chain: seq<SymbolTable>, u: Upload, uuid: seq<byte>)
    ensures var after := LoadChain(chain, u.data, uuid, u.base, u.available);
            if Loads(u, uuid) then |after| == |chain| + 1 && after[0].base == u.base && after[1..] == chain
            else after == chain
  {
    hide ParseBlob, TableBytes;
    LoadCases(chain, u.data, uuid, u.base, u.available);
  }

  // ---- Files to lookups ----

  /** The address of the first definition of `name` from index `i` on. */
  function FirstDef(defs: seq<Def>, name: seq<byte>, i: nat): Option<u64>
    requires i <= |defs|
    decreases |defs| - i
  {
    if i == |defs| then None
    else if defs[i].name == name then Some(defs[i].addr)
    else FirstDef(defs, name, i + 1)
  }

  ghost predicate NoNul(s: seq<byte>) { forall i :: 0 <= i < |s| ==> s[i] != 0 }

  lemma {:induction false} SymbolsNoNul(t: seq<byte>, p: nat)
    ensures forall d <- Symbols(t, p).0 :: NoNul(d.name)
    decreases |t| + 1 - p
  {
    if Symbol(t, p).Got? {
      SymbolNoNul(t, p);
      hide Symbol, NoNul;
      SymbolsNoNul(t, Symbol(t, p).next);
    }
  }

  lemma SymbolNoNul(t: seq<byte>, p: nat)
    requires Symbol(t, p).Got?
    ensures NoNul(Symbol(t, p).name)
  {
    var q := Trivia(t, p);
    IdentSpan(t, q);
    var name := t[q..IdentEnd(t, q)];
    assert forall i :: 0 <= i < |name| ==> name[i] == t[q + i];
  }

  lemma {:induction false} DefinitionsNoNul(files: seq<seq<byte>>, n: nat, uuid: seq<byte>)
    requires n <= |files|
    ensures forall d <- Definitions(files, n, uuid) :: NoNul(d.name)
  {
    hide NoNul, Symbols, Header;
    if n != 0 {
      DefinitionsNoNul(files, n - 1, uuid);
      if Header(files[n - 1], 0).Some? {
        SymbolsNoNul(files[n - 1], Header(files[n - 1], 0).value.1);
      }
    }
  }

  // The pool is empty or ends with the terminator of its last string.

  ghost predicate Closed(pool: seq<byte>) { pool == [] || pool[|pool| - 1] == 0 }

  lemma {:induction false} AddSymsClosed(st: Tables, k: nat, defs: seq<Def>)
    requires k < |st.kcs| && AddSyms(st, k, defs).Some? && Closed(st.pool)
    ensures Closed(AddSyms(st, k, defs).value.pool)
    decreases |defs|
  {
    if defs != [] {
      AddSymsClosed(AddSym(st, k, defs[0]).value, k, defs[1..]);
    }
  }

  lemma {:induction false} FilesClosed(files: seq<seq<byte>>, n: nat)
    requires n <= |files| && AddFiles(files, n).Some?
    ensures Closed(AddFiles(files, n).value.pool)
  {
    hide Symbols, Header, AddSyms, Closed;
    if n != 0 {
      FilesClosed(files, n - 1);
      var st, t := AddFiles(files, n - 1).value, files[n - 1];
      if Header(t, 0).Some? {
        var (uuid, p) := Header(t, 0).value;
        AddSymsClosed(WithSlot(st, uuid), FindKc(st.kcs, uuid, 0), Symbols(t, p).0);
      }
    } else {
      NothingClosed();
    }
  }

  lemma NothingClosed()
    ensures Closed([])
  {
  }

  /** A recorded name keeps its offset inside the pool. */
  lemma NamesInside(pool: seq<byte>, off: nat, name: seq<byte>)
    requires Names(pool, off, name)
    ensures off < |pool|
  {
  }

  /** Entry by entry, a table built from what the host recorded finds what the files define. */
  lemma {:induction false} BuiltLookup(tab: SymbolTable, next: u64, es: seq<Sym>, strings: seq<byte>,
                                       defs: seq<Def>, name: seq<byte>, i: nat)
    requires |es| < TWO_32 && tab.mem == TableBytes(tab.base, next, es, strings) && Readable(tab)
    requires tab.base + |tab.mem| < TWO_64 && Denotes(strings, es, defs) && (forall d <- defs :: NoNul(d.name))
    requires i <= |es| == Count(tab)
    ensures TableLookup(tab, name, i) == FirstDef(defs, name, i)
    decreases |es| - i
  {
    hide TableBytes, Readable, Count, CStr, NameOffset, AddressAt, Names, NoNul;
    if i < |es| {
      BuiltNameAt(tab, next, es, strings, defs[i].name, i);
      BuiltEntry(tab, next, es, strings, i);
      BuiltLookup(tab, next, es, strings, defs, name, i + 1);
    }
  }

  lemma BuiltNameAt(tab: SymbolTable, next: u64, es: seq<Sym>, strings: seq<byte>, name: seq<byte>, i: nat)
    requires |es| < TWO_32 && tab.mem == TableBytes(tab.base, next, es, strings) && Readable(tab)
    requires tab.base + |tab.mem| < TWO_64 && i < |es| == Count(tab)
    requires Names(strings, es[i].off, name) && NoNul(name)
    ensures NameAt(tab, i) == name
  {
    hide TableBytes, Count, CStr, NameOffset, Readable, At, Terminated;
    NamesInside(strings, es[i].off, name);
    BuiltEntry(tab, next, es, strings, i);
    BuiltName(tab, next, es, strings, es[i].off);
    CStrIsName(strings, es[i].off, name);
  }

  /** What the host recorded, the device accepts or has nothing of. */
  lemma HostBlobParses(files: seq<seq<byte>>, uuid: seq<byte>)
    requires HostOutput(files).Some? && |HostOutput(files).value| < TWO_32
    ensures var data := HostOutput(files).value;
            var defs := Definitions(files, |files|, uuid);
            match ParseBlob(data, uuid)
            case Accepted(es, strings) =>
              Denotes(strings, es, defs) && forall i :: 0 <= i < |es| ==> es[i].off < |strings|
            case _ => defs == []
  {
    hide ParseBlob, Serialize, Denotes, Represents, WellFormed, Definitions, OffsetsFit;
    var st := AddFiles(files, |files|).value;
    FilesWellFormed(files, |files|);
    SmallPool(st);
    SmallPoolRepresents(files, |files|);
    FilesClosed(files, |files|);
    RecordedInside(st, files);
    ParsesBack(st, uuid);
    SlotMeans(st, files, uuid);
  }

  /** The host's blob never overruns the device's allocation, however much memory there is; so what the
      command leaves is `LoadChain`. */
  lemma HostBlobHasRoom(files: seq<seq<byte>>, uuid: seq<byte>, available: nat)
    requires HostOutput(files).Some? && |HostOutput(files).value| < TWO_32
    ensures !Overruns(HostOutput(files).value, uuid, available)
  {
    hide Serialize, WellFormed, OffsetsFit, U32At, TableOffset, Overruns;
    var st := AddFiles(files, |files|).value;
    FilesWellFormed(files, |files|);
    HeaderReads(st);
    InsideHasRoom(Serialize(st), uuid, available);
  }

  lemma SmallPool(st: Tables)
    requires WellFormed(st) && |Serialize(st)| < TWO_32
    ensures |st.pool| < TWO_32
  {
    SmallBlob(st);
  }

  lemma RecordedInside(st: Tables, files: seq<seq<byte>>)
    requires Represents(st, files, |files|)
    ensures forall i, j :: 0 <= i < |st.kcs| && 0 <= j < |st.kcs[i].syms| ==>
              st.kcs[i].syms[j].off < |st.pool| && Wrap32(st.kcs[i].syms[j].off + 1) <= |st.pool|
  {
    hide Definitions, Names;
    forall i, j | 0 <= i < |st.kcs| && 0 <= j < |st.kcs[i].syms|
      ensures st.kcs[i].syms[j].off < |st.pool|
    {
      NamesInside(st.pool, st.kcs[i].syms[j].off, Definitions(files, |files|, st.kcs[i].uuid)[j].name);
    }
  }

  lemma SlotMeans(st: Tables, files: seq<seq<byte>>, uuid: seq<byte>)
    requires Represents(st, files, |files|)
    ensures var k := FindKc(st.kcs, uuid, 0);
            var defs := Definitions(files, |files|, uuid);
            && (k == |st.kcs| ==> defs == [])
            && (k < |st.kcs| ==> Denotes(st.pool, st.kcs[k].syms, defs))
            && (k < |st.kcs| && st.pool == [] ==> defs == [])
  {
    hide Definitions;
    var k := FindKc(st.kcs, uuid, 0);
    var defs := Definitions(files, |files|, uuid);
    if k < |st.kcs| && defs != [] {
      NamesInside(st.pool, st.kcs[k].syms[0].off, defs[0].name);
    }
  }

  /** End to end: after the host's blob for `files` is uploaded to a device with kernelcache `uuid`, every
      name looks up to its first definition among the well-formed symbol lines of the files with that
      UUID, and every other name as before. */
  lemma UploadedLookup(files: seq<seq<byte>>, uuid: seq<byte>, chain: seq<SymbolTable>,
                       base: u64, available: nat, name: seq<byte>)
    requires HostOutput(files).Some? && |HostOutput(files).value| < TWO_32 && AllReadable(chain)
    requires Fits(HostOutput(files).value, uuid, base, available)
    ensures var after := LoadChain(chain, HostOutput(files).value, uuid, base, available);
            AllReadable(after) && ChainLookup(after, name) ==
              match FirstDef(Definitions(files, |files|, uuid), name, 0)
              case Some(address) => address
              case None => ChainLookup(chain, name)
  {
    hide ParseBlob, HostOutput, Denotes, Readable, TableBytes, Definitions, NoNul, TableLookup;
    var data := HostOutput(files).value;
    var defs := Definitions(files, |files|, uuid);
    HostBlobParses(files, uuid);
    if ParseBlob(data, uuid).Accepted? {
      var Accepted(es, strings) := ParseBlob(data, uuid);
      var next := HeadPointer(chain);
      var tab := SymbolTable(base, TableBytes(base, next, es, strings));
      AcceptedShape(data, uuid);
      TableSize(tab, next, es, strings);
      BuiltReadable(tab, next, es, strings);
      BuiltCount(tab, next, es, strings);
      DefinitionsNoNul(files, |files|, uuid);
      BuiltLookup(tab, next, es, strings, defs, name, 0);
      var after := LoadChain(chain, data, uuid, base, available);
      assert after == [tab] + chain;
      assert after[1..] == chain;
    }
  }

  lemma AcceptedShape(data: seq<byte>, uuid: seq<byte>)
    requires ParseBlob(data, uuid).Accepted?
    ensures var Accepted(es, strings) := ParseBlob(data, uuid);
            |es| < TWO_32 && strings != [] && strings[|strings| - 1] == 0
  {
  }

  /** On a fresh device a name that no file of the UUID defines looks up to zero. */
  lemma FreshDeviceLookup(files: seq<seq<byte>>, uuid: seq<byte>, base: u64, available: nat, name: seq<byte>)
    requires HostOutput(files).Some? && |HostOutput(files).value| < TWO_32
    requires Fits(HostOutput(files).value, uuid, base, available)
    ensures var after := LoadChain([], HostOutput(files).value, uuid, base, available);
            var first := FirstDef(Definitions(files, |files|, uuid), name, 0);
            AllReadable(after) && ChainLookup(after, name) == if first.Some? then first.value else 0
  {
    UploadedLookup(files, uuid, [], base, available, name);
  }

  // ---- From printed files to lookups ----

  ghost predicate AllPrinted(files: seq<seq<byte>>, ls: seq<SymbolGrammar.Layout>) {
    && |files| == |ls|
    && forall i :: 0 <= i < |ls| ==> SymbolGrammar.Valid(ls[i]) && files[i] == SymbolGrammar.Print(ls[i])
  }

  /** What the first `n` layouts define for `uuid`. */
  ghost function LayoutDefs(ls: seq<SymbolGrammar.Layout>, n: nat, uuid: seq<byte>): seq<Def>
    requires n <= |ls| && forall i :: 0 <= i < |ls| ==> SymbolGrammar.Valid(ls[i])
  {
    if n == 0 then []
    else
      var l := ls[n - 1];
      LayoutDefs(ls, n - 1, uuid)
      + if SymbolGrammar.UuidBytes(l.uuid, 16) == uuid then SymbolGrammar.Defs(l.body, l.tail) else []
  }

  lemma {:induction false} PrintedDefinitions(files: seq<seq<byte>>, ls: seq<SymbolGrammar.Layout>, n: nat,
      uuid: seq<byte>)
    requires AllPrinted(files, ls) && n <= |files|
    ensures Definitions(files, n, uuid) == LayoutDefs(ls, n, uuid)
  {
    hide Header, Symbols, SymbolGrammar.Valid, SymbolGrammar.Print, SymbolGrammar.UuidBytes, SymbolGrammar.Defs;
    if n > 0 {
      PrintedDefinitions(files, ls, n - 1, uuid);
      SymbolGrammar.PrintedFilesParse(ls[n - 1]);
    }
  }

  /** A file that is printed up to a malformed line defines what the lines in front of it define. */
  lemma PartlyPrintedDefines(t: seq<byte>, l: SymbolGrammar.Layout, uuid: seq<byte>)
    requires SymbolGrammar.Valid(l) && l.tail == None && At(t, 0, SymbolGrammar.Print(l))
    requires Symbol(t, |SymbolGrammar.Print(l)|) == Bad
    ensures FileDefs(t, uuid) ==
            if SymbolGrammar.UuidBytes(l.uuid, 16) == uuid then SymbolGrammar.Defs(l.body, None) else []
  {
    hide Header, Symbols, Symbol, At, SymbolGrammar.PrintHeader, SymbolGrammar.PrintBody, SymbolGrammar.UuidBytes;
    hide SymbolGrammar.Defs;
    AtSplit(t, 0, SymbolGrammar.PrintHeader(l), SymbolGrammar.PrintBody(l.body, None));
    SymbolGrammar.HeaderParses(t, l);
    SymbolGrammar.MalformedEnds(t, |SymbolGrammar.PrintHeader(l)|, l.body);
  }

  /** From the documented format to the device: whatever comments and empty lines the files are printed with,
      a fresh device looks every name up as the first layout that defines it says. */
  lemma PrintedLookup(files: seq<seq<byte>>, ls: seq<SymbolGrammar.Layout>, uuid: seq<byte>,
                      base: u64, available: nat, name: seq<byte>)
    requires AllPrinted(files, ls) && HostOutput(files).Some? && |HostOutput(files).value| < TWO_32
    requires Fits(HostOutput(files).value, uuid, base, available)
    ensures var after := LoadChain([], HostOutput(files).value, uuid, base, available);
            var first := FirstDef(LayoutDefs(ls, |ls|, uuid), name, 0);
            AllReadable(after) && ChainLookup(after, name) == if first.Some? then first.value else 0
  {
    hide HostOutput, Fits, Definitions, LayoutDefs, LoadChain, ChainLookup, FirstDef, AllReadable;
    FreshDeviceLookup(files, uuid, base, available, name);
    PrintedDefinitions(files, ls, |files|, uuid);
  }
}
