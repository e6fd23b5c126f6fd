/** The serialized form of the host's tables, and the method that writes it. */
module HostBlob {
  import opened Machine
  import opened HostTable

  // ---- Layout ----

  function Entries(syms: seq<Sym>, n: nat): (s: seq<byte>)
    requires n <= |syms|
    ensures |s| == 12 * n
  {
    if n == 0 then [] else Entries(syms, n - 1) + (LE32(syms[n - 1].off) + LE64(syms[n - 1].addr))
  }

  function Table(kc: Kc): (s: seq<byte>)
    ensures |s| == 4 + 12 * |kc.syms|
  {
    LE32(Wrap32(|kc.syms|)) + Entries(kc.syms, |kc.syms|)
  }

  /** The symbol tables of the first `n` kernelcaches. */
  function TablesOf(kcs: seq<Kc>, n: nat): seq<byte>
    requires n <= |kcs|
  {
    if n == 0 then [] else TablesOf(kcs, n - 1) + Table(kcs[n - 1])
  }

  /** Where the tables start: behind the two header words and the descriptors. */
  function Base(kcs: seq<Kc>): nat { 8 + 20 * |kcs| }

  function TableOffset(kcs: seq<Kc>, i: nat): nat
    requires i <= |kcs|
  {
    Base(kcs) + |TablesOf(kcs, i)|
  }

  function Descriptor(kcs: seq<Kc>, i: nat): seq<byte>
    requires i < |kcs|
  {
    kcs[i].uuid + LE32(Wrap32(TableOffset(kcs, i)))
  }

  function Descriptors(kcs: seq<Kc>, n: nat): seq<byte>
    requires n <= |kcs|
  {
    if n == 0 then [] else Descriptors(kcs, n - 1) + Descriptor(kcs, n - 1)
  }

  function HeaderWords(st: Tables): (s: seq<byte>)
    ensures |s| == 8
  {
    LE32(Wrap32(|st.kcs|)) + LE32(Wrap32(TableOffset(st.kcs, |st.kcs|)))
  }

  /** The whole blob: header, descriptors, tables and strings, one behind the other. */
  function Serialize(st: Tables): seq<byte> {
    HeaderWords(st) + (Descriptors(st.kcs, |st.kcs|) + (TablesOf(st.kcs, |st.kcs|) + st.pool))
  }

  /** What the host allocates before it knows the final size. */
  function AllocationSize(st: Tables): nat {
    8 + 20 * |st.kcs| + TablesSpace(|st.kcs|, st.maxsymcnt) + |st.pool|
  }

  function TablesSpace(n: nat, max: nat): nat { n * (4 + 12 * max) }

  lemma {:induction false} DescriptorsSize(kcs: seq<Kc>, n: nat)
    requires n <= |kcs| && forall i :: 0 <= i < n ==> |kcs[i].uuid| == 16
    ensures |Descriptors(kcs, n)| == 20 * n
  {
    if n != 0 {
      DescriptorsSize(kcs, n - 1);
    }
  }

  /** `n` tables fit in `n` times the space of the largest. */
  lemma {:induction false} TablesFit(kcs: seq<Kc>, n: nat, max: nat)
    requires n <= |kcs| && forall i :: 0 <= i < n ==> |kcs[i].syms| <= max
    ensures |TablesOf(kcs, n)| <= TablesSpace(n, max)
  {
    if n != 0 {
      TablesFit(kcs, n - 1, max);
      assert TablesSpace(n, max) == TablesSpace(n - 1, max) + (4 + 12 * max);
    }
  }

  lemma {:induction false} TablesGrow(kcs: seq<Kc>, i: nat, n: nat)
    requires i <= n <= |kcs|
    ensures |TablesOf(kcs, i)| <= |TablesOf(kcs, n)|
    ensures i < n ==> |TablesOf(kcs, i)| + 4 + 12 * |kcs[i].syms| <= |TablesOf(kcs, n)|
  {
    if i < n {
      TablesGrow(kcs, i, n - 1);
    }
  }

  /** The up-front allocation always suffices, so neither `offset` assertion can fail. */
  lemma AllocationSuffices(st: Tables, i: nat)
    requires WellFormed(st) && i <= |st.kcs|
    ensures TableOffset(st.kcs, i) + |st.pool| <= AllocationSize(st)
    ensures i < |st.kcs| ==> TableOffset(st.kcs, i) + 4 + 12 * |st.kcs[i].syms| <= AllocationSize(st)
    ensures |Serialize(st)| == TableOffset(st.kcs, |st.kcs|) + |st.pool| <= AllocationSize(st)
  {
    hide TablesSpace, TablesOf, Descriptors;
    TablesFit(st.kcs, |st.kcs|, st.maxsymcnt);
    TablesGrow(st.kcs, i, |st.kcs|);
    DescriptorsSize(st.kcs, |st.kcs|);
  }

  /** The host's check on each table offset. */
  ghost predicate OffsetsFit(kcs: seq<Kc>) {
    forall i :: 0 <= i < |kcs| ==> TableOffset(kcs, i) < TWO_32
  }

  // ---- Writing ----

  /** What the loop over the kernelcaches has written after `i` of them. */
  ghost predicate Written(blob: seq<byte>, st: Tables, i: nat) {
    && i <= |st.kcs|
    && At(blob, 0, LE32(Wrap32(|st.kcs|)))
    && At(blob, 8, Descriptors(st.kcs, i))
    && At(blob, Base(st.kcs), TablesOf(st.kcs, i))
  }

  /** Writes the entries of one table behind its count. */
  method WriteEntries(blob: array<byte>, kc: Kc, start: nat) returns (offset: nat)
    requires start + 4 + 12 * |kc.syms| <= blob.Length
    modifies blob
    ensures offset == start + 4 + 12 * |kc.syms|
    ensures blob[..] == Splice(old(blob[..]), start, Table(kc))
  {
    hide Splice, Entries;
    EntriesSteps(kc.syms);
    ghost var before := blob[..];
    var count := LE32(Wrap32(|kc.syms|));
    Store(blob, start, count);
    offset := start + 4;
    SpliceEmpty(before, start, count);
    for i := 0 to |kc.syms|
      invariant offset == start + 4 + 12 * i
      invariant blob[..] == Splice(before, start, count + Entries(kc.syms, i))
    {
      Store(blob, offset, LE32(kc.syms[i].off));
      offset := offset + 4;
      Store(blob, offset, LE64(kc.syms[i].addr));
      offset := offset + 8;
      SpliceTwice(before, start, count, Entries(kc.syms, i), LE32(kc.syms[i].off), LE64(kc.syms[i].addr));
    }
  }

  lemma EntriesSteps(syms: seq<Sym>)
    ensures Entries(syms, 0) == []
    ensures forall i :: 0 <= i < |syms| ==>
              Entries(syms, i + 1) == Entries(syms, i) + (LE32(syms[i].off) + LE64(syms[i].addr))
  {
  }

  lemma SpliceEmpty(m: seq<byte>, o: nat, s: seq<byte>)
    requires o + |s| <= |m|
    ensures Splice(m, o, s) == Splice(m, o, s + [])
  {
    assert s + [] == s;
  }

  lemma SpliceTwice(m: seq<byte>, o: nat, c: seq<byte>, a: seq<byte>, b: seq<byte>, d: seq<byte>)
    requires o + |c| + |a| + |b| + |d| <= |m|
    ensures Splice(Splice(Splice(m, o, c + a), o + |c| + |a|, b), o + |c| + |a| + |b|, d)
         == Splice(m, o, c + (a + (b + d)))
  {
    SpliceJoin(m, o, c + a, b);
    SpliceJoin(m, o, c + a + b, d);
    assert c + a + b + d == c + (a + (b + d));
  }

  lemma SpliceJoin(m: seq<byte>, o: nat, a: seq<byte>, b: seq<byte>)
    requires o + |a| + |b| <= |m|
    ensures Splice(Splice(m, o, a), o + |a|, b) == Splice(m, o, a + b)
  {
  }

  /** One round of the loop: the descriptor and the table of kernelcache `i`. */
  lemma WrittenStep(m: seq<byte>, st: Tables, i: nat)
    requires WellFormed(st) && i < |st.kcs| && Written(m, st, i) && |m| == AllocationSize(st)
    ensures var d, o := 8 + 20 * i, TableOffset(st.kcs, i);
            && o + 4 + 12 * |st.kcs[i].syms| <= |m| && d + 20 <= Base(st.kcs)
            && var r := Splice(Splice(Splice(m, d, st.kcs[i].uuid), d + 16, LE32(Wrap32(o))), o, Table(st.kcs[i]));
            && Written(r, st, i + 1)
  {
    hide At, Splice, AllocationSize, LE32, TablesSpace, Table;
    AllocationSuffices(st, i);
    DescriptorsSize(st.kcs, i);
    var uuid, d, o := st.kcs[i].uuid, 8 + 20 * i, TableOffset(st.kcs, i);
    var w := LE32(Wrap32(o));
    var count := LE32(Wrap32(|st.kcs|));
    var ds, ts, tab := Descriptors(st.kcs, i), TablesOf(st.kcs, i), Table(st.kcs[i]);
    var a := Splice(m, d, uuid);
    var b := Splice(a, d + 16, w);
    SpliceAppends(m, 8, ds, uuid);
    SpliceAppends(a, 8, ds + uuid, w);
    SpliceAppends(b, Base(st.kcs), ts, tab) by {
      SpliceKeeps(m, d, uuid, Base(st.kcs), ts);
      SpliceKeeps(a, d + 16, w, Base(st.kcs), ts);
    }
    assert ds + uuid + w == ds + (uuid + w);
    SpliceKeeps(b, o, tab, 8, ds + uuid + w);
    SpliceKeeps(m, d, uuid, 0, count);
    SpliceKeeps(a, d + 16, w, 0, count);
    SpliceKeeps(b, o, tab, 0, count);
  }

  /** After the last round: the offset of the strings, and the strings. */
  lemma WrittenAll(m: seq<byte>, st: Tables)
    requires WellFormed(st) && Written(m, st, |st.kcs|) && |m| == AllocationSize(st)
    ensures var o := TableOffset(st.kcs, |st.kcs|);
            && 8 <= o && o + |st.pool| <= |m| && |Serialize(st)| == o + |st.pool|
            && Splice(Splice(m, 4, LE32(Wrap32(o))), o, st.pool)[..o + |st.pool|] == Serialize(st)
  {
    hide At, Splice, AllocationSize, LE32, TablesSpace, TablesOf, Descriptors;
    AllocationSuffices(st, |st.kcs|);
    DescriptorsSize(st.kcs, |st.kcs|);
    var o := TableOffset(st.kcs, |st.kcs|);
    var w, count := LE32(Wrap32(o)), LE32(Wrap32(|st.kcs|));
    var ds, ts := Descriptors(st.kcs, |st.kcs|), TablesOf(st.kcs, |st.kcs|);
    var a := Splice(m, 4, w);
    var b := Splice(a, o, st.pool);
    SpliceAppends(m, 0, count, w);
    SpliceKeeps(a, o, st.pool, 0, count + w);
    SpliceKeeps(m, 4, w, 8, ds);
    SpliceKeeps(a, o, st.pool, 8, ds);
    SpliceKeeps(m, 4, w, Base(st.kcs), ts);
    SpliceAppends(a, Base(st.kcs), ts, st.pool);
    AtSplit(b, 8, ds, ts + st.pool);
    AtSplit(b, 0, count + w, ds + (ts + st.pool));
    AtIsSlice(b, 0, Serialize(st));
  }

  /** Serializes the tables; `None` where the assertion on a table's offset fails. */
  method Generate(st: Tables) returns (blob: Option<seq<byte>>)
    requires WellFormed(st) && AllocationSize(st) < TWO_64
    ensures blob == if OffsetsFit(st.kcs) then Some(Serialize(st)) else None
  {
    hide At, Splice, WellFormed, LE32, LE64, TablesSpace, Table, Serialize, AllocationSize, TablesOf, Written;
    var size := 4 + 4;
    var kcDescSize := 16 + 4;
    size := size + |st.kcs| * kcDescSize;
    var offset := size;
    var symSize := 4 + 8;
    var kcSymsSize := 4 + st.maxsymcnt * symSize;
    size := size + |st.kcs| * kcSymsSize;
    size := size + |st.pool|;
    SizeIsAllocation(st, size);
    var mem := new byte[size];
    Start(mem[..], st);
    Store(mem, 0, LE32(Wrap32(|st.kcs|)));
    var kcDesc := 4 + 4;
    NoTables(st.kcs);
    for i := 0 to |st.kcs|
      invariant kcDesc == 8 + 20 * i && offset == TableOffset(st.kcs, i)
      invariant Written(mem[..], st, i)
      invariant forall j :: 0 <= j < i ==> TableOffset(st.kcs, j) < TWO_32
    {
      if Wrap32(offset) != offset {
        return None;
      }
      var kc := st.kcs[i];
      WrittenStep(mem[..], st, i);
      Uuid16(st, i);
      Store(mem, kcDesc, kc.uuid);
      kcDesc := kcDesc + 16;
      Store(mem, kcDesc, LE32(Wrap32(offset)));
      kcDesc := kcDesc + 4;
      offset := WriteEntries(mem, kc, offset);
      NextOffset(st.kcs, i);
      assert offset <= size by { AllocationSuffices(st, i); }
    }
    WrittenAll(mem[..], st);
    assert offset + |st.pool| <= size;
    Store(mem, 4, LE32(Wrap32(offset)));
    size := offset + |st.pool|;
    Store(mem, offset, st.pool);
    assert mem[..size] == mem[..][..size];
    blob := Some(mem[..size]);
  }

  lemma NoTables(kcs: seq<Kc>)
    ensures TableOffset(kcs, 0) == Base(kcs)
  {
  }

  lemma NextOffset(kcs: seq<Kc>, i: nat)
    requires i < |kcs|
    ensures TableOffset(kcs, i + 1) == TableOffset(kcs, i) + 4 + 12 * |kcs[i].syms|
  {
  }

  lemma Uuid16(st: Tables, i: nat)
    requires WellFormed(st) && i < |st.kcs|
    ensures |st.kcs[i].uuid| == 16
  {
  }

  lemma SizeIsAllocation(st: Tables, size: nat)
    requires size == 8 + |st.kcs| * 20 + |st.kcs| * (4 + st.maxsymcnt * 12) + |st.pool|
    ensures size == AllocationSize(st) && Base(st.kcs) <= size
  {
    assert st.maxsymcnt * 12 == 12 * st.maxsymcnt;
  }

  lemma Start(m: seq<byte>, st: Tables)
    requires |m| >= Base(st.kcs)
    ensures Written(Splice(m, 0, LE32(Wrap32(|st.kcs|))), st, 0)
  {
    SpliceAt(m, 0, LE32(Wrap32(|st.kcs|)));
  }

  /** What the host program produces from the ordered list of mapped symbol files. */
  ghost function HostOutput(files: seq<seq<byte>>): Option<seq<byte>> {
    match AddFiles(files, |files|)
    case None => None
    case Some(st) => if OffsetsFit(st.kcs) then Some(Serialize(st)) else None
  }

  /** The generator: reads the files in order, then serializes. */
  method GenerateTable(files: seq<seq<byte>>) returns (blob: Option<seq<byte>>)
    requires AddFiles(files, |files|).Some? ==> AllocationSize(AddFiles(files, |files|).value) < TWO_64
    ensures blob == HostOutput(files)
  {
    hide AddFile, OffsetsFit, Serialize, WellFormed, AllocationSize;
    var state := new KcsState();
    for i := 0 to |files|
      invariant AddFiles(files, i) == Some(state.State())
    {
      var ok := state.UpdateFile(files[i]);
      if !ok {
        AbortIsFinal(files, i + 1, |files|);
        return None;
      }
    }
    FilesWellFormed(files, |files|);
    blob := Generate(state.State());
  }

  lemma {:induction false} AbortIsFinal(files: seq<seq<byte>>, i: nat, n: nat)
    requires i <= n <= |files| && AddFiles(files, i).None?
    ensures AddFiles(files, n).None?
  {
    hide AddFile;
    if i < n {
      AbortIsFinal(files, i, n - 1);
    }
  }
}
