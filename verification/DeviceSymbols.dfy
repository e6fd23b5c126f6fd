/** The device's symbol tables: the parser of the uploaded blob, the single allocation
    of a table, the chain of tables, and the lookup. */
module DeviceSymbols {
  import opened Machine
  import opened HostTable

  // ---- Parsing the blob ----

  datatype Search = Broken | Absent | Found(offset: nat)

  /** The descriptor loop: `n` descriptors left, the cursor at `p`. */
  function FindDescriptor(data: seq<byte>, p: nat, n: nat, uuid: seq<byte>): Search
    decreases n
  {
    if n == 0 then Absent
    else if p + 20 > |data| then Broken
    else if data[p..p + 16] == uuid then
      if U32At(data, p + 16) > |data| then Broken else Found(U32At(data, p + 16))
    else FindDescriptor(data, p + 20, n - 1, uuid)
  }

  /** Descriptor `i` of the blob: its UUID and its table offset. */
  predicate DescriptorFits(data: seq<byte>, i: nat) { 8 + 20 * i + 20 <= |data| }

  function DescriptorUuid(data: seq<byte>, i: nat): seq<byte>
    requires DescriptorFits(data, i)
  {
    data[8 + 20 * i..8 + 20 * i + 16]
  }

  function DescriptorOffset(data: seq<byte>, i: nat): u32
    requires DescriptorFits(data, i)
  {
    U32At(data, 8 + 20 * i + 16)
  }

  /** The descriptors in front of `k` are in the blob and are for other UUIDs. */
  ghost predicate OthersBefore(data: seq<byte>, uuid: seq<byte>, k: nat) {
    forall j: nat :: j < k ==> DescriptorFits(data, j) && DescriptorUuid(data, j) != uuid
  }

  /** Descriptor `k` is the first one for `uuid`, and its table is in the blob. */
  ghost predicate FirstFor(data: seq<byte>, uuid: seq<byte>, n: nat, k: nat) {
    && k < n && OthersBefore(data, uuid, k) && DescriptorFits(data, k)
    && DescriptorUuid(data, k) == uuid && DescriptorOffset(data, k) <= |data|
  }

  /** The loop finds the first descriptor with the UUID. It fails when it runs out of the blob before one
      or when that one's offset does, and finds nothing when all of them are for other UUIDs. */
  lemma FirstMatch(data: seq<byte>, n: nat, uuid: seq<byte>)
    ensures match FindDescriptor(data, 8, n, uuid)
            case Found(o) => exists k: nat :: FirstFor(data, uuid, n, k) && o == DescriptorOffset(data, k)
            case Absent => OthersBefore(data, uuid, n)
            case Broken => exists k: nat :: k < n && OthersBefore(data, uuid, k)
                             && (!DescriptorFits(data, k)
                                 || (DescriptorUuid(data, k) == uuid && DescriptorOffset(data, k) > |data|))
  {
    FirstMatchFrom(data, 0, n, uuid);
  }

  lemma {:induction false} FirstMatchFrom(data: seq<byte>, i: nat, n: nat, uuid: seq<byte>)
    requires i <= n && OthersBefore(data, uuid, i)
    ensures match FindDescriptor(data, 8 + 20 * i, n - i, uuid)
            case Found(o) => exists k: nat :: FirstFor(data, uuid, n, k) && o == DescriptorOffset(data, k)
            case Absent => OthersBefore(data, uuid, n)
            case Broken => exists k: nat :: k < n && OthersBefore(data, uuid, k)
                             && (!DescriptorFits(data, k)
                                 || (DescriptorUuid(data, k) == uuid && DescriptorOffset(data, k) > |data|))
    decreases n - i
  {
    hide U32At;
    if i < n && DescriptorFits(data, i) && DescriptorUuid(data, i) != uuid {
      FirstMatchFrom(data, i + 1, n, uuid);
    } else if i < n && DescriptorFits(data, i) && DescriptorOffset(data, i) <= |data| {
      assert FirstFor(data, uuid, n, i);
    }
  }

  /** The symbol loop. The offset test is a 32-bit sum, as in the source. */
  function ReadEntries(data: seq<byte>, p: nat, n: nat, stringsSize: nat): (r: Option<seq<Sym>>)
    ensures r.Some? ==> |r.value| == n && (n > 0 ==> p + 12 * n <= |data|)
    ensures r.Some? ==> forall i :: 0 <= i < n ==> Wrap32(r.value[i].off + 1) <= stringsSize
  {
    if n == 0 then Some([]) else
      match ReadEntries(data, p, n - 1, stringsSize)
      case None => None
      case Some(es) =>
        var q := p + 12 * (n - 1);
        if q + 12 > |data| || Wrap32(U32At(data, q) + 1) > stringsSize then None
        else Some(es + [Sym(U32At(data, q), U64At(data, q + 4))])
  }

  datatype Parsed = Rejected | Missing | Accepted(entries: seq<Sym>, strings: seq<byte>)

  function ParseBlob(data: seq<byte>, uuid: seq<byte>): (r: Parsed)
    ensures r.Accepted? ==> r.strings != [] && r.strings[|r.strings| - 1] == 0
    ensures r.Accepted? ==> |r.entries| < TWO_32
  {
    if |data| < 8 then Rejected else
      match FindDescriptor(data, 8, U32At(data, 0), uuid)
      case Broken => Rejected
      case Absent => Missing
      case Found(o) =>
        if o + 4 > |data| || U32At(data, 4) >= |data| || data[|data| - 1] != 0 then Rejected else
          match ReadEntries(data, o + 4, U32At(data, o), |data| - U32At(data, 4))
          case None => Rejected
          case Some(es) => Accepted(es, data[U32At(data, 4)..])
  }

  // ---- The documented format ----

  /** Entry `j` of the symbols at `p`. */
  function EntryOf(data: seq<byte>, p: nat, j: nat): Sym
    requires p + 12 * j + 12 <= |data|
  {
    Sym(U32At(data, p + 12 * j), U64At(data, p + 12 * j + 4))
  }

  ghost predicate EntriesHold(data: seq<byte>, p: nat, es: seq<Sym>, stringsSize: nat) {
    && (es != [] ==> p + 12 * |es| <= |data|)
    && forall j :: 0 <= j < |es| ==> es[j] == EntryOf(data, p, j) && Wrap32(es[j].off + 1) <= stringsSize
  }

  lemma {:induction false} EntriesRead(data: seq<byte>, p: nat, es: seq<Sym>, stringsSize: nat)
    ensures ReadEntries(data, p, |es|, stringsSize) == Some(es) <==> EntriesHold(data, p, es, stringsSize)
  {
    hide U32At, U64At, Wrap32;
    if es != [] {
      var n := |es| - 1;
      EntriesRead(data, p, es[..n], stringsSize);
      assert es == es[..n] + [es[n]];
      assert forall j :: 0 <= j < n ==> es[..n][j] == es[j];
    }
  }

  lemma FirstIsFound(data: seq<byte>, uuid: seq<byte>, n: nat, k: nat)
    requires FirstFor(data, uuid, n, k)
    ensures DescriptorFits(data, k) && FindDescriptor(data, 8, n, uuid) == Found(DescriptorOffset(data, k))
  {
    hide FindDescriptor, DescriptorUuid, DescriptorOffset, DescriptorFits;
    FirstMatch(data, n, uuid);
  }

  /** The blob holds the table `es` for `uuid` and the strings: in the header the count of descriptors and the
      offset of the strings, at the first descriptor's offset the count of symbols and then the symbols, and
      at the end strings of which the last is terminated. */
  ghost predicate BlobHolds(data: seq<byte>, uuid: seq<byte>, es: seq<Sym>, strings: seq<byte>) {
    && |data| >= 8 && U32At(data, 4) < |data| && strings == data[U32At(data, 4)..] && data[|data| - 1] == 0
    && exists k: nat ::
         && FirstFor(data, uuid, U32At(data, 0), k)
         && var o := DescriptorOffset(data, k);
            o + 4 <= |data| && |es| == U32At(data, o) && EntriesHold(data, o + 4, es, |strings|)
  }

  /** Acceptance is exactly the documented format, with the parser's own test on the symbol offsets. */
  lemma AcceptedIsFormat(data: seq<byte>, uuid: seq<byte>, es: seq<Sym>, strings: seq<byte>)
    ensures ParseBlob(data, uuid) == Accepted(es, strings) <==> BlobHolds(data, uuid, es, strings)
  {
    hide U32At, FindDescriptor, ReadEntries, EntriesHold, OthersBefore, DescriptorUuid, FirstFor;
    if |data| >= 8 && U32At(data, 4) < |data| {
      var n: nat, size := U32At(data, 0), |data| - U32At(data, 4);
      FirstMatch(data, n, uuid);
      forall k: nat | FirstFor(data, uuid, n, k)
        ensures DescriptorFits(data, k) && FindDescriptor(data, 8, n, uuid) == Found(DescriptorOffset(data, k))
      {
        FirstIsFound(data, uuid, n, k);
      }
      if FindDescriptor(data, 8, n, uuid).Found? {
        EntriesRead(data, FindDescriptor(data, 8, n, uuid).offset + 4, es, size);
      }
    }
  }

  // ---- The request for memory ----

  /** The size that is asked for: struct, two arrays and strings, in 64 bits. The size of the strings wraps
      when their offset is behind the end, which is tested only afterwards. */
  function RequestSize(size: nat, stringsOffset: u32, count: u32): u64 {
    Wrap64(32 + count * 8 + count * 8 + Wrap64(size - stringsOffset))
  }

  /** What an upload asks `malloc` for; `None` when parsing ends before. */
  function Request(data: seq<byte>, uuid: seq<byte>): Option<u64> {
    if |data| < 8 then None else
      match FindDescriptor(data, 8, U32At(data, 0), uuid)
      case Found(o) => if o + 4 > |data| then None else Some(RequestSize(|data|, U32At(data, 4), U32At(data, o)))
      case _ => None
  }

  /** The granted allocation ends before the struct's fields do, and these are set all the same. */
  predicate Overruns(data: seq<byte>, uuid: seq<byte>, available: nat) {
    var r := Request(data, uuid);
    r.Some? && r.value <= available && r.value < 32
  }

  /** The exact condition: a granted allocation has no room for the fields if and only if the strings'
      offset is behind the end by more than the arrays' size and by no more than arrays and struct. */
  lemma OverrunsExactly(size: nat, stringsOffset: u32, count: u32, available: nat)
    requires size < TWO_32 && RequestSize(size, stringsOffset, count) <= available
    ensures RequestSize(size, stringsOffset, count) < 32 <==>
            stringsOffset > size && 16 * count < stringsOffset - size <= 32 + 16 * count
  {
  }

  /** No upload whose strings' offset is inside it overruns; so no accepted one does. */
  lemma InsideHasRoom(data: seq<byte>, uuid: seq<byte>, available: nat)
    requires |data| < TWO_32 && |data| >= 8 && U32At(data, 4) <= |data|
    ensures !Overruns(data, uuid, available)
  {
    hide U32At, FindDescriptor, RequestSize;
    forall count: u32
      ensures RequestSize(|data|, U32At(data, 4), count) >= 32
    {
      RoomInside(|data|, U32At(data, 4), count);
    }
  }

  lemma RoomInside(size: nat, stringsOffset: u32, count: u32)
    requires size < TWO_32 && stringsOffset <= size
    ensures RequestSize(size, stringsOffset, count) >= 32
  {
  }

  /** An upload of 32 bytes that asks for 8 and is rejected: one descriptor, one symbol, strings at 72. */
  lemma ShortRequest(uuid: seq<byte>, available: nat)
    requires |uuid| == 16 && available >= 8
    ensures var data := LE32(1) + LE32(72) + uuid + LE32(28) + LE32(1);
            && |data| == 32 && Request(data, uuid) == Some(8)
            && Overruns(data, uuid, available) && ParseBlob(data, uuid) == Rejected
  {
    hide At, LE32, U32At, FindDescriptor, ReadEntries;
    var h, u, o, c := LE32(1) + LE32(72), uuid, LE32(28), LE32(1);
    var data := h + u + o + c;
    AtWhole(data);
    AtSplit(data, 0, h + u + o, c);
    AtSplit(data, 0, h + u, o);
    AtSplit(data, 0, h, u);
    AtSplit(data, 0, LE32(1), LE32(72));
    WordHere(data, 0, 1);
    WordHere(data, 4, 72);
    WordHere(data, 24, 28);
    WordHere(data, 28, 1);
    AtIsSlice(data, 8, u);
    OneDescriptor(data, uuid);
  }

  lemma AtWhole(data: seq<byte>)
    ensures At(data, 0, data)
  {
  }

  lemma OneDescriptor(data: seq<byte>, uuid: seq<byte>)
    requires |data| >= 28 && data[8..24] == uuid && U32At(data, 24) <= |data|
    ensures FindDescriptor(data, 8, 1, uuid) == Found(U32At(data, 24))
  {
    hide U32At;
  }

  // ---- The allocation ----

  function Pointers(es: seq<Sym>, strings: nat, n: nat): (s: seq<byte>)
    requires n <= |es|
    ensures |s| == 8 * n
  {
    if n == 0 then [] else Pointers(es, strings, n - 1) + LE64(Wrap64(strings + es[n - 1].off))
  }

  function Addresses(es: seq<Sym>, n: nat): (s: seq<byte>)
    requires n <= |es|
    ensures |s| == 8 * n
  {
    if n == 0 then [] else Addresses(es, n - 1) + LE64(es[n - 1].addr)
  }

  /** The `kernelcache_symbol_table` struct: next, count, and the two array pointers. */
  function Struct(base: u64, next: u64, count: u64): (s: seq<byte>)
    ensures |s| == 32
  {
    LE64(next) + LE64(count) + LE64(Wrap64(base + 32)) + LE64(Wrap64(base + 32 + 8 * count))
  }

  /** Struct, pointer array, address array and strings tile the allocation. */
  function TableBytes(base: u64, next: u64, es: seq<Sym>, strings: seq<byte>): (s: seq<byte>)
    requires |es| < TWO_32
    ensures |s| == 32 + 16 * |es| + |strings|
  {
    Struct(base, next, |es|) + Pointers(es, base + 32 + 16 * |es|, |es|) + Addresses(es, |es|) + strings
  }

  /** A table on the chain: the address and the contents of its allocation. */
  datatype SymbolTable = SymbolTable(base: u64, mem: seq<byte>)

  function HeadPointer(chain: seq<SymbolTable>): u64 {
    if chain == [] then 0 else chain[0].base
  }

  /** The chain after one upload; `base` is what `malloc` returns, `available` what it can give. */
  function LoadChain(chain: seq<SymbolTable>, data: seq<byte>, uuid: seq<byte>, base: u64, available: nat)
    : seq<SymbolTable>
  {
    match ParseBlob(data, uuid)
    case Accepted(es, strings) =>
      if 32 + 16 * |es| + |strings| <= available
      then [SymbolTable(base, TableBytes(base, HeadPointer(chain), es, strings))] + chain
      else chain
    case _ => chain
  }

  // ---- Reading a table ----

  function Count(tab: SymbolTable): nat
    requires |tab.mem| >= 32
  {
    U64At(tab.mem, 8)
  }

  /** Where the struct's two array pointers lead, as offsets into the allocation. */
  function SymbolArray(tab: SymbolTable): int
    requires |tab.mem| >= 32
  {
    U64At(tab.mem, 16) - tab.base
  }

  function AddressArray(tab: SymbolTable): int
    requires |tab.mem| >= 32
  {
    U64At(tab.mem, 24) - tab.base
  }

  /** The struct and both arrays lie in the allocation. */
  predicate Shaped(tab: SymbolTable) {
    && |tab.mem| >= 32
    && 0 <= SymbolArray(tab) && SymbolArray(tab) + 8 * Count(tab) <= |tab.mem|
    && 0 <= AddressArray(tab) && AddressArray(tab) + 8 * Count(tab) <= |tab.mem|
  }

  /** Where the `i`th symbol pointer leads, as an offset into the allocation. */
  function NameOffset(tab: SymbolTable, i: nat): int
    requires Shaped(tab) && i < Count(tab)
  {
    U64At(tab.mem, SymbolArray(tab) + 8 * i) - tab.base
  }

  /** Every symbol pointer starts a NUL-terminated string inside the allocation. */
  ghost predicate Readable(tab: SymbolTable) {
    && Shaped(tab)
    && forall i :: 0 <= i < Count(tab) ==>
         0 <= NameOffset(tab, i) <= |tab.mem| && Terminated(tab.mem, NameOffset(tab, i))
  }

  function NameAt(tab: SymbolTable, i: nat): seq<byte>
    requires Readable(tab) && i < Count(tab)
  {
    CStr(tab.mem, NameOffset(tab, i))
  }

  function AddressAt(tab: SymbolTable, i: nat): u64
    requires Shaped(tab) && i < Count(tab)
  {
    U64At(tab.mem, AddressArray(tab) + 8 * i)
  }

  /** The scan of one table from entry `i` on. */
  function TableLookup(tab: SymbolTable, name: seq<byte>, i: nat): Option<u64>
    requires Readable(tab) && i <= Count(tab)
    decreases Count(tab) - i
  {
    if i == Count(tab) then None
    else if NameAt(tab, i) == name then Some(AddressAt(tab, i))
    else TableLookup(tab, name, i + 1)
  }

  ghost predicate AllReadable(chain: seq<SymbolTable>) {
    forall i :: 0 <= i < |chain| ==> Readable(chain[i])
  }

  /** The scan of the chain. */
  function ChainLookup(chain: seq<SymbolTable>, name: seq<byte>): u64
    requires AllReadable(chain)
  {
    if chain == [] then 0 else
      match TableLookup(chain[0], name, 0)
      case Some(a) => a
      case None => ChainLookup(chain[1..], name)
  }

  // ---- The chain in memory ----

  /** The struct's link. */
  function NextOf(tab: SymbolTable): u64
    requires |tab.mem| >= 32
  {
    U64At(tab.mem, 0)
  }

  /** The tables are linked in memory as they stand in the sequence: each one's first word is the address of the
      next, the last one's is null, and no two have the same address. */
  ghost predicate Wired(chain: seq<SymbolTable>) {
    && (forall i :: 0 <= i < |chain| ==> LinkedAt(chain, i))
    && (forall i, j :: 0 <= i < j < |chain| ==> chain[i].base != chain[j].base)
  }

  ghost predicate LinkedAt(chain: seq<SymbolTable>, i: nat)
    requires i < |chain|
  {
    && chain[i].base != 0 && |chain[i].mem| >= 32
    && NextOf(chain[i]) == if i + 1 < |chain| then chain[i + 1].base else 0
  }

  /** The address is not null, and none of a table of the chain. */
  ghost predicate Unused(chain: seq<SymbolTable>, base: u64) {
    base != 0 && forall i :: 0 <= i < |chain| ==> chain[i].base != base
  }

  /** The table that a pointer leads to. */
  function TableAt(chain: seq<SymbolTable>, p: u64): (r: Option<SymbolTable>)
    ensures r.Some? ==> r.value in chain && r.value.base == p
    ensures r.None? ==> forall i :: 0 <= i < |chain| ==> chain[i].base != p
  {
    if chain == [] then None
    else if chain[0].base == p then Some(chain[0])
    else TableAt(chain[1..], p)
  }

  lemma InChain(chain: seq<SymbolTable>, p: u64)
    requires AllReadable(chain) && TableAt(chain, p).Some?
    ensures Readable(TableAt(chain, p).value)
  {
    hide Readable;
  }

  /** In memory: from the table at `p` on, along the links, `hops` tables at most. */
  function FollowLookup(chain: seq<SymbolTable>, p: u64, name: seq<byte>, hops: nat): u64
    requires AllReadable(chain)
    decreases hops
  {
    if p == 0 || hops == 0 || TableAt(chain, p).None? then 0 else
      InChain(chain, p);
      var tab := TableAt(chain, p).value;
      match TableLookup(tab, name, 0)
      case Some(a) => a
      case None => FollowLookup(chain, NextOf(tab), name, hops - 1)
  }

  lemma TableAtBase(chain: seq<SymbolTable>, i: nat)
    requires Wired(chain) && i < |chain|
    ensures TableAt(chain, chain[i].base) == Some(chain[i])
  {
    var t := TableAt(chain, chain[i].base).value;
    var j :| 0 <= j < |chain| && chain[j] == t;
  }

  /** Along the links or along the sequence, the lookup is the same. */
  lemma FollowIsLookup(chain: seq<SymbolTable>, name: seq<byte>)
    requires Wired(chain) && AllReadable(chain)
    ensures FollowLookup(chain, HeadPointer(chain), name, |chain|) == ChainLookup(chain, name)
  {
    hide Readable;
    FollowFrom(chain, name, 0);
    assert chain[0..] == chain;
  }

  lemma {:induction false} FollowFrom(chain: seq<SymbolTable>, name: seq<byte>, i: nat)
    requires Wired(chain) && AllReadable(chain) && i <= |chain|
    ensures FollowLookup(chain, if i < |chain| then chain[i].base else 0, name, |chain| - i)
         == ChainLookup(chain[i..], name)
    decreases |chain| - i
  {
    hide Readable, TableAt;
    if i < |chain| {
      TableAtBase(chain, i);
      assert LinkedAt(chain, i);
      FollowFrom(chain, name, i + 1);
      assert chain[i..][0] == chain[i] && chain[i..][1..] == chain[i + 1..];
    }
  }

  /** A load keeps the links, if `malloc` returns an unused address for the table. */
  lemma LoadKeepsWires(chain: seq<SymbolTable>, data: seq<byte>, uuid: seq<byte>, base: u64, available: nat)
    requires Wired(chain)
    requires LoadChain(chain, data, uuid, base, available) != chain ==> Unused(chain, base)
    ensures Wired(LoadChain(chain, data, uuid, base, available))
  {
    hide ParseBlob, TableBytes, Wired, NextOf, HeadPointer, Unused;
    LoadCases(chain, data, uuid, base, available);
    var after := LoadChain(chain, data, uuid, base, available);
    if after != chain {
      var Accepted(es, strings) := ParseBlob(data, uuid);
      FirstLink(after[0], HeadPointer(chain), es, strings);
      WiredCons(after[0], chain);
    }
  }

  lemma WiredCons(tab: SymbolTable, chain: seq<SymbolTable>)
    requires Wired(chain) && Unused(chain, tab.base) && |tab.mem| >= 32 && NextOf(tab) == HeadPointer(chain)
    ensures Wired([tab] + chain)
  {
    hide NextOf;
    var after := [tab] + chain;
    forall i | 0 <= i < |after|
      ensures LinkedAt(after, i)
    {
      if i > 0 { assert LinkedAt(chain, i - 1); }
    }
    forall i, j | 0 <= i < j < |after|
      ensures after[i].base != after[j].base
    {
      assert after[j] == chain[j - 1];
    }
  }

  lemma FirstLink(tab: SymbolTable, next: u64, es: seq<Sym>, strings: seq<byte>)
    requires |es| < TWO_32 && tab.mem == TableBytes(tab.base, next, es, strings)
    ensures |tab.mem| >= 32 && NextOf(tab) == next
  {
    hide At, LE64, TableBytes;
    TableSize(tab, next, es, strings);
    TablePieces(tab.mem, tab.base, next, es, strings);
    DoubleWordHere(tab.mem, 0, next);
  }

  // ---- What a built table holds ----

  lemma {:induction false} PointersAt(m: seq<byte>, o: nat, es: seq<Sym>, strings: nat, n: nat, i: nat)
    requires i < n <= |es| && At(m, o, Pointers(es, strings, n))
    ensures At(m, o + 8 * i, LE64(Wrap64(strings + es[i].off)))
  {
    hide At;
    AtSplit(m, o, Pointers(es, strings, n - 1), LE64(Wrap64(strings + es[n - 1].off)));
    if i < n - 1 {
      PointersAt(m, o, es, strings, n - 1, i);
    }
  }

  lemma {:induction false} AddressesAt(m: seq<byte>, o: nat, es: seq<Sym>, n: nat, i: nat)
    requires i < n <= |es| && At(m, o, Addresses(es, n))
    ensures At(m, o + 8 * i, LE64(es[i].addr))
  {
    hide At;
    AtSplit(m, o, Addresses(es, n - 1), LE64(es[n - 1].addr));
    if i < n - 1 {
      AddressesAt(m, o, es, n - 1, i);
    }
  }

  /** The struct's fields and the other three parts of the allocation, at their offsets. */
  lemma TablePieces(m: seq<byte>, base: u64, next: u64, es: seq<Sym>, strings: seq<byte>)
    requires |es| < TWO_32 && m == TableBytes(base, next, es, strings)
    ensures At(m, 0, LE64(next)) && At(m, 8, LE64(|es|))
    ensures At(m, 16, LE64(Wrap64(base + 32))) && At(m, 24, LE64(Wrap64(base + 32 + 8 * |es|)))
    ensures At(m, 32, Pointers(es, base + 32 + 16 * |es|, |es|))
    ensures At(m, 32 + 8 * |es|, Addresses(es, |es|))
    ensures At(m, 32 + 16 * |es|, strings)
  {
    AtIsSlice(m, 0, m);
    assert m[0..|m|] == m;
    hide At, LE64;
    var s := Struct(base, next, |es|);
    var p := Pointers(es, base + 32 + 16 * |es|, |es|);
    var a := Addresses(es, |es|);
    AtSplit(m, 0, s + p + a, strings);
    AtSplit(m, 0, s + p, a);
    AtSplit(m, 0, s, p);
    var w1, w2, w3, w4 := LE64(next), LE64(|es|), LE64(Wrap64(base + 32)), LE64(Wrap64(base + 32 + 8 * |es|));
    AtSplit(m, 0, w1 + w2 + w3, w4);
    AtSplit(m, 0, w1 + w2, w3);
    AtSplit(m, 0, w1, w2);
  }

  lemma BuiltCount(tab: SymbolTable, next: u64, es: seq<Sym>, strings: seq<byte>)
    requires |es| < TWO_32 && tab.mem == TableBytes(tab.base, next, es, strings)
    ensures Count(tab) == |es|
  {
    hide At, LE64, TableBytes;
    TablePieces(tab.mem, tab.base, next, es, strings);
    DoubleWordHere(tab.mem, 8, |es|);
  }

  /** The array pointers of a built table lead to its arrays. */
  lemma BuiltShape(tab: SymbolTable, next: u64, es: seq<Sym>, strings: seq<byte>)
    requires |es| < TWO_32 && tab.mem == TableBytes(tab.base, next, es, strings)
    requires tab.base + |tab.mem| < TWO_64
    ensures Shaped(tab) && Count(tab) == |es| && SymbolArray(tab) == 32 && AddressArray(tab) == 32 + 8 * |es|
  {
    hide At, LE64, TableBytes, Wrap64;
    TablePieces(tab.mem, tab.base, next, es, strings);
    BuiltCount(tab, next, es, strings);
    TableSize(tab, next, es, strings);
    DoubleWordHere(tab.mem, 16, Wrap64(tab.base + 32));
    DoubleWordHere(tab.mem, 24, Wrap64(tab.base + 32 + 8 * |es|));
    Unwrapped(tab.base + 32);
    Unwrapped(tab.base + 32 + 8 * |es|);
  }

  lemma Unwrapped(x: nat)
    requires x < TWO_64
    ensures Wrap64(x) == x
  {
  }

  /** Entry `i` of a built table: its address, and where its pointer leads. */
  lemma BuiltEntry(tab: SymbolTable, next: u64, es: seq<Sym>, strings: seq<byte>, i: nat)
    requires |es| < TWO_32 && tab.mem == TableBytes(tab.base, next, es, strings) && i < |es|
    requires tab.base + |tab.mem| < TWO_64
    ensures Shaped(tab) && Count(tab) == |es| && AddressAt(tab, i) == es[i].addr
    ensures es[i].off <= |strings| ==> NameOffset(tab, i) == 32 + 16 * |es| + es[i].off
    ensures es[i].off > |strings| ==> NameOffset(tab, i) < 0 || NameOffset(tab, i) > |tab.mem|
  {
    hide At, LE64, Pointers, Addresses, TableBytes, Wrap64;
    TablePieces(tab.mem, tab.base, next, es, strings);
    BuiltShape(tab, next, es, strings);
    var p := tab.base + 32 + 16 * |es|;
    PointersAt(tab.mem, 32, es, p, |es|, i);
    DoubleWordHere(tab.mem, 32 + 8 * i, Wrap64(p + es[i].off));
    AddressesAt(tab.mem, 32 + 8 * |es|, es, |es|, i);
    DoubleWordHere(tab.mem, 32 + 8 * |es| + 8 * i, es[i].addr);
    TableSize(tab, next, es, strings);
    PointerLeads(tab.base, 32 + 16 * |es|, |strings|, es[i].off);
  }

  /** A pointer past the allocation stays outside, with or without a 64-bit wrap. */
  lemma PointerLeads(base: u64, front: nat, size: nat, off: u32)
    requires front < TWO_64 - TWO_32 && base + front + size < TWO_64
    ensures var o := Wrap64(base + front + off) - base;
            if off <= size then o == front + off else o < 0 || o > front + size
  {
  }

  /** A pointer into the strings reads the string there. */
  lemma BuiltName(tab: SymbolTable, next: u64, es: seq<Sym>, strings: seq<byte>, o: nat)
    requires |es| < TWO_32 && tab.mem == TableBytes(tab.base, next, es, strings) && o <= |strings|
    ensures Terminated(tab.mem, 32 + 16 * |es| + o) <==> Terminated(strings, o)
    ensures CStr(tab.mem, 32 + 16 * |es| + o) == CStr(strings, o)
  {
    hide CStr, Terminated;
    CStrBehind(Struct(tab.base, next, |es|) + Pointers(es, tab.base + 32 + 16 * |es|, |es|) + Addresses(es, |es|),
        strings, o);
  }

  /** A table is readable exactly when every entry's offset lies in the strings. */
  lemma BuiltReadable(tab: SymbolTable, next: u64, es: seq<Sym>, strings: seq<byte>)
    requires |es| < TWO_32 && tab.mem == TableBytes(tab.base, next, es, strings)
    requires tab.base + |tab.mem| < TWO_64 && strings != [] && strings[|strings| - 1] == 0
    ensures Readable(tab) <==> forall i :: 0 <= i < |es| ==> es[i].off < |strings|
  {
    hide TableBytes, Terminated, NameOffset, Shaped, SymbolArray, AddressArray, Count;
    BuiltShape(tab, next, es, strings);
    forall i | 0 <= i < |es|
      ensures (0 <= NameOffset(tab, i) <= |tab.mem| && Terminated(tab.mem, NameOffset(tab, i)))
          <==> es[i].off < |strings|
    {
      BuiltEntry(tab, next, es, strings, i);
      if es[i].off <= |strings| {
        BuiltName(tab, next, es, strings, es[i].off);
        EndIsOpen(strings, es[i].off);
      }
    }
    TableSize(tab, next, es, strings);
  }

  lemma TableSize(tab: SymbolTable, next: u64, es: seq<Sym>, strings: seq<byte>)
    requires |es| < TWO_32 && tab.mem == TableBytes(tab.base, next, es, strings)
    ensures |tab.mem| == 32 + 16 * |es| + |strings|
  {
  }

  lemma EndIsOpen(m: seq<byte>, o: nat)
    requires m != [] && m[|m| - 1] == 0 && o <= |m|
    ensures Terminated(m, o) <==> o < |m|
  {
    if o < |m| { LastNulTerminates(m, o); }
  }

  lemma TableFromPieces(m: seq<byte>, base: u64, next: u64, es: seq<Sym>, strings: seq<byte>)
    requires |es| < TWO_32 && |m| == 32 + 16 * |es| + |strings|
    requires At(m, 0, LE64(next)) && At(m, 8, StructTail(base, |es|))
    requires At(m, 32, Pointers(es, base + 32 + 16 * |es|, |es|))
    requires At(m, 32 + 8 * |es|, Addresses(es, |es|)) && At(m, 32 + 16 * |es|, strings)
    ensures m == TableBytes(base, next, es, strings)
  {
    hide At, LE64;
    var s := Struct(base, next, |es|);
    var p := Pointers(es, base + 32 + 16 * |es|, |es|);
    var a := Addresses(es, |es|);
    assert s == LE64(next) + StructTail(base, |es|);
    AtSplit(m, 0, LE64(next), StructTail(base, |es|));
    AtSplit(m, 0, s, p);
    AtSplit(m, 0, s + p, a);
    AtSplit(m, 0, s + p + a, strings);
    AtIsSlice(m, 0, s + p + a + strings);
    assert m[0..|m|] == m;
  }

  /** The fields that are set before the strings are known to be sound: count and array pointers. */
  function StructTail(base: u64, count: u64): (s: seq<byte>)
    ensures |s| == 24
  {
    LE64(count) + (LE64(Wrap64(base + 32)) + LE64(Wrap64(base + 32 + 8 * count)))
  }

  lemma {:induction false} PointersPrefix(es: seq<Sym>, e: Sym, strings: nat, n: nat)
    requires n <= |es|
    ensures Pointers(es + [e], strings, n) == Pointers(es, strings, n)
    ensures Addresses(es + [e], n) == Addresses(es, n)
  {
    if n != 0 {
      PointersPrefix(es, e, strings, n - 1);
    }
  }

  lemma ArraysStep(es: seq<Sym>, e: Sym, strings: nat)
    ensures Pointers(es + [e], strings, |es| + 1) == Pointers(es, strings, |es|) + LE64(Wrap64(strings + e.off))
    ensures Addresses(es + [e], |es| + 1) == Addresses(es, |es|) + LE64(e.addr)
  {
    hide LE64;
    PointersPrefix(es, e, strings, |es|);
  }

  lemma {:induction false} EntriesFail(data: seq<byte>, p: nat, i: nat, n: nat, size: nat)
    requires i <= n && ReadEntries(data, p, i, size).None?
    ensures ReadEntries(data, p, n, size).None?
  {
    if i < n {
      EntriesFail(data, p, i, n - 1, size);
    }
  }

  // ---- The commands ----

  datatype Outcome = Linked | NoMatch | Invalid | NoMemory | Overrun

  /** The `kernelcache_symbol_table` chain of the device, head first. */
  class SymbolChain {
    var chain: seq<SymbolTable>

    constructor ()
      ensures chain == []
    {
      chain := [];
    }

    /** The descriptor loop; the cursor is checked against the end before every read. */
    method FindKernelcache(data: seq<byte>, count: nat, uuid: seq<byte>) returns (found: Search)
      ensures found == FindDescriptor(data, 8, count, uuid)
    {
      var p := 8;
      for i := 0 to count
        invariant p == 8 + 20 * i
        invariant FindDescriptor(data, 8, count, uuid) == FindDescriptor(data, p, count - i, uuid)
      {
        if p + 16 > |data| {
          return Broken;
        }
        var candidate := data[p..p + 16];
        p := p + 16;
        if p + 4 > |data| {
          return Broken;
        }
        var offset := U32At(data, p);
        p := p + 4;
        if candidate == uuid {
          return if offset > |data| then Broken else Found(offset);
        }
      }
      return Absent;
    }

    /** The symbol loop: fills the pointer and the address array. */
    method ReadSymbols(data: seq<byte>, start: nat, count: nat, stringsSize: nat, base: u64, mem: array<byte>)
      returns (ok: bool)
      requires mem.Length >= 32 + 16 * count && At(mem[..], 8, StructTail(base, count % TWO_64))
      modifies mem
      ensures At(mem[..], 8, StructTail(base, count % TWO_64))
      ensures match ReadEntries(data, start, count, stringsSize)
              case None => !ok
              case Some(es) => ok && At(mem[..], 32, Pointers(es, base + 32 + 16 * count, count))
                               && At(mem[..], 32 + 8 * count, Addresses(es, count))
    {
      hide At, Splice, LE64, StructTail, U32At, U64At;
      ghost var es: seq<Sym> := [];
      var p := start;
      var strings := base + 32 + 8 * count + 8 * count;
      EmptyArrays(mem[..], count);
      for i := 0 to count
        invariant p == start + 12 * i && |es| == i
        invariant ReadEntries(data, start, i, stringsSize) == Some(es)
        invariant At(mem[..], 8, StructTail(base, count % TWO_64))
        invariant At(mem[..], 32, Pointers(es, strings, i)) && At(mem[..], 32 + 8 * count, Addresses(es, i))
      {
        if p + 4 > |data| || p + 12 > |data| || Wrap32(U32At(data, p) + 1) > stringsSize {
          EntriesFail(data, start, i + 1, count, stringsSize);
          return false;
        }
        var offset, address := U32At(data, p), U64At(data, p + 4);
        p := p + 12;
        EntryStored(mem[..], es, Sym(offset, address), base, strings, count);
        Store(mem, 32 + 8 * i, LE64(Wrap64(strings + offset)));
        Store(mem, 32 + 8 * count + 8 * i, LE64(address));
        es := es + [Sym(offset, address)];
      }
      return true;
    }
  
    /** The "kernelcache-symbols" command: on any error the chain stays as it was. Where the fields of the
        struct do not fit, which is before they are set, the model ends; what the source then overwrites,
        tables of the chain perhaps, it does not say. */
    method CommandKernelcacheSymbols(data: seq<byte>, uuid: seq<byte>, base: u64, available: nat)
      returns (outcome: Outcome)
      requires |data| < TWO_32
      modifies this
      ensures outcome.Overrun? <==> Overruns(data, uuid, available)
      ensures !outcome.Overrun? ==> chain == LoadChain(old(chain), data, uuid, base, available)
      ensures outcome.Linked? <==> ParseBlob(data, uuid).Accepted? && Request(data, uuid).value <= available
      ensures outcome.NoMatch? <==> ParseBlob(data, uuid).Missing?
      ensures outcome.NoMemory? <==> Request(data, uuid).Some? && Request(data, uuid).value > available
      ensures outcome.NoMatch? || outcome.Invalid? || outcome.NoMemory? ==> chain == old(chain)
      ensures !outcome.Overrun? && Wired(old(chain)) && Unused(old(chain), base) ==> Wired(chain)
    {
      hide FindDescriptor, ReadEntries, TableBytes, U32At, LoadChain, HeadPointer, At, StructTail, Wired, Unused;
      LoadCases(chain, data, uuid, base, available);
      if Wired(chain) && Unused(chain, base) {
        LoadKeepsWires(chain, data, uuid, base, available);
      }
      var size := |data|;
      if 4 > size || 8 > size {
        return Invalid;
      }
      var kernelcacheCount := U32At(data, 0);
      var stringsOffset := U32At(data, 4);
      var found := FindKernelcache(data, kernelcacheCount, uuid);
      if found.Absent? {
        return NoMatch;
      }
      if found.Broken? || found.offset + 4 > size {
        return Invalid;
      }
      var count: nat := U32At(data, found.offset);
      var arraySize: nat := count * 8;
      var stringsSize: nat := Wrap64(size - stringsOffset);
      var allocation := Wrap64(32 + arraySize + arraySize + stringsSize);
      AllocationExact(count, size, stringsOffset);
      if allocation > available {
        return NoMemory;
      }
      var mem := new byte[allocation];
      if allocation < 32 {
        return Overrun;
      }
      BuildStart(mem[..], base, count);
      Store(mem, 8, StructTail(base, count));
      if stringsOffset > size || stringsSize < 1 || data[stringsOffset + stringsSize - 1] != 0 {
        return Invalid;
      }
      var ok := FillTable(data, found.offset, count, stringsOffset, base, mem);
      if !ok {
        return Invalid;
      }
      chain := [SymbolTable(base, mem[..])] + chain;
      return Linked;
    }

    /** Fills the allocation behind the fields that are set already: the two arrays, the strings, the link. */
    method FillTable(data: seq<byte>, offset: nat, count: nat, stringsOffset: nat, base: u64, mem: array<byte>)
      returns (ok: bool)
      requires count < TWO_32 && stringsOffset <= |data| && mem.Length == 32 + 16 * count + (|data| - stringsOffset)
      requires At(mem[..], 8, StructTail(base, count))
      modifies mem
      ensures match ReadEntries(data, offset + 4, count, |data| - stringsOffset)
              case None => !ok
              case Some(es) => ok && mem[..] == TableBytes(base, HeadPointer(chain), es, data[stringsOffset..])
    {
      hide FindDescriptor, ReadEntries, At, Splice, LE64, StructTail, TableBytes, Pointers, Addresses, HeadPointer;
      assert count % TWO_64 == count;
      ok := ReadSymbols(data, offset + 4, count, |data| - stringsOffset, base, mem);
      if !ok {
        return;
      }
      ghost var es := ReadEntries(data, offset + 4, count, |data| - stringsOffset).value;
      BuildEnd(mem[..], base, HeadPointer(chain), es, data[stringsOffset..]);
      Store(mem, 32 + 8 * count + 8 * count, data[stringsOffset..]);
      Store(mem, 0, LE64(HeadPointer(chain)));
    }

    /** The lookup: along the links from the newest table on, entries from the first on. */
    method Lookup(name: seq<byte>) returns (address: u64)
      requires AllReadable(chain) && Wired(chain)
      ensures address == ChainLookup(chain, name)
    {
      hide Readable, NameAt, AddressAt, Count, Shaped, NextOf, TableAt;
      var p := HeadPointer(chain);
      ghost var t := 0;
      assert chain != [] ==> LinkedAt(chain, 0);
      while p != 0
        invariant t <= |chain| && (t < |chain| ==> p != 0) && p == if t < |chain| then chain[t].base else 0
        invariant ChainLookup(chain[t..], name) == ChainLookup(chain, name)
        decreases |chain| - t
      {
        TableAtBase(chain, t);
        assert LinkedAt(chain, t);
        var tab := TableAt(chain, p).value;
        ReadableBounds(tab);
        assert chain[t..][0] == tab && chain[t..][1..] == chain[t + 1..];
        var i := 0;
        while i < Count(tab)
          invariant i <= Count(tab)
          invariant TableLookup(tab, name, i) == TableLookup(tab, name, 0)
        {
          if NameAt(tab, i) == name {
            return AddressAt(tab, i);
          }
          i := i + 1;
        }
        p := NextOf(tab);
        t := t + 1;
        assert t < |chain| ==> LinkedAt(chain, t);
      }
      return 0;
    }
  }

  lemma ReadableBounds(tab: SymbolTable)
    requires Readable(tab)
    ensures Shaped(tab)
  {
  }

  lemma LoadCases(chain: seq<SymbolTable>, data: seq<byte>, uuid: seq<byte>, base: u64, available: nat)
    ensures var parsed := ParseBlob(data, uuid);
            LoadChain(chain, data, uuid, base, available) ==
              if parsed.Accepted? && 32 + 16 * |parsed.entries| + |parsed.strings| <= available
              then [SymbolTable(base, TableBytes(base, HeadPointer(chain), parsed.entries, parsed.strings))] + chain
              else chain
  {
  }

  lemma AllocationExact(count: u32, size: nat, stringsOffset: u32)
    requires size < TWO_32
    ensures var stringsSize := Wrap64(size - stringsOffset);
            && Wrap64(32 + count * 8 + count * 8 + stringsSize) == RequestSize(size, stringsOffset, count)
            && (stringsOffset <= size ==> stringsSize == size - stringsOffset
                                          && RequestSize(size, stringsOffset, count) == 32 + 16 * count + stringsSize)
  {
  }

  lemma BuildStart(m: seq<byte>, base: u64, count: u32)
    requires |m| >= 32
    ensures count % TWO_64 == count && At(Splice(m, 8, StructTail(base, count)), 8, StructTail(base, count))
  {
    hide At, Splice, StructTail;
    SpliceAt(m, 8, StructTail(base, count));
  }

  /** The strings and the link to the old head complete the allocation. */
  lemma BuildEnd(m: seq<byte>, base: u64, next: u64, es: seq<Sym>, strings: seq<byte>)
    requires |es| < TWO_32 && |m| == 32 + 16 * |es| + |strings|
    requires At(m, 8, StructTail(base, |es|))
    requires At(m, 32, Pointers(es, base + 32 + 16 * |es|, |es|)) && At(m, 32 + 8 * |es|, Addresses(es, |es|))
    ensures Splice(Splice(m, 32 + 16 * |es|, strings), 0, LE64(next)) == TableBytes(base, next, es, strings)
  {
    hide At, Splice, LE64, StructTail, TableBytes;
    var tail := StructTail(base, |es|);
    var p, a := Pointers(es, base + 32 + 16 * |es|, |es|), Addresses(es, |es|);
    var o := 32 + 16 * |es|;
    var m1 := Splice(m, o, strings);
    var r := Splice(m1, 0, LE64(next));
    SpliceAt(m, o, strings);
    SpliceAt(m1, 0, LE64(next));
    SpliceKeeps(m, o, strings, 8, tail);
    SpliceKeeps(m, o, strings, 32, p);
    SpliceKeeps(m, o, strings, 32 + 8 * |es|, a);
    SpliceKeeps(m1, 0, LE64(next), 8, tail);
    SpliceKeeps(m1, 0, LE64(next), 32, p);
    SpliceKeeps(m1, 0, LE64(next), 32 + 8 * |es|, a);
    SpliceKeeps(m1, 0, LE64(next), o, strings);
    TableFromPieces(r, base, next, es, strings);
  }

  lemma EmptyArrays(m: seq<byte>, count: nat)
    requires |m| >= 32 + 16 * count
    ensures At(m, 32, Pointers([], 0, 0)) && At(m, 32 + 8 * count, Addresses([], 0))
  {
  }

  /** One round of the symbol loop, on the allocation's contents. */
  lemma EntryStored(m: seq<byte>, es: seq<Sym>, e: Sym, base: u64, strings: nat, count: nat)
    requires |es| < count && |m| >= 32 + 16 * count
    requires At(m, 8, StructTail(base, count % TWO_64))
    requires At(m, 32, Pointers(es, strings, |es|)) && At(m, 32 + 8 * count, Addresses(es, |es|))
    ensures var i := |es|;
            var r := Splice(Splice(m, 32 + 8 * i, LE64(Wrap64(strings + e.off))),
                            32 + 8 * count + 8 * i, LE64(e.addr));
            && At(r, 8, StructTail(base, count % TWO_64))
            && At(r, 32, Pointers(es + [e], strings, i + 1)) && At(r, 32 + 8 * count, Addresses(es + [e], i + 1))
  {
    hide At, Splice, LE64, StructTail, Pointers, Addresses;
    var i := |es|;
    var w, a := LE64(Wrap64(strings + e.off)), LE64(e.addr);
    var m1 := Splice(m, 32 + 8 * i, w);
    ArraysStep(es, e, strings);
    SpliceKeeps(m, 32 + 8 * i, w, 8, StructTail(base, count % TWO_64));
    SpliceKeeps(m1, 32 + 8 * count + 8 * i, a, 8, StructTail(base, count % TWO_64));
    SpliceAppends(m, 32, Pointers(es, strings, i), w);
    SpliceKeeps(m1, 32 + 8 * count + 8 * i, a, 32, Pointers(es, strings, i) + w);
    SpliceKeeps(m, 32 + 8 * i, w, 32 + 8 * count, Addresses(es, i));
    SpliceAppends(m1, 32 + 8 * count, Addresses(es, i), a);
  }
}
