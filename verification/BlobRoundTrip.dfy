/** The device's parser inverts the host's serializer. */
module BlobRoundTrip {
  import opened Machine
  import opened HostTable
  import opened HostBlob
  import opened DeviceSymbols

  // ---- Where the pieces of the blob stand ----

  lemma {:induction false} EntryAt(m: seq<byte>, o: nat, syms: seq<Sym>, n: nat, j: nat)
    requires j < n <= |syms| && At(m, o, Entries(syms, n))
    ensures At(m, o + 12 * j, LE32(syms[j].off)) && At(m, o + 12 * j + 4, LE64(syms[j].addr))
  {
    hide At, LE32, LE64;
    var last := LE32(syms[n - 1].off) + LE64(syms[n - 1].addr);
    AtSplit(m, o, Entries(syms, n - 1), last);
    if j < n - 1 {
      EntryAt(m, o, syms, n - 1, j);
    } else {
      AtSplit(m, o + 12 * j, LE32(syms[j].off), LE64(syms[j].addr));
    }
  }

  lemma {:induction false} TableAt(m: seq<byte>, o: nat, kcs: seq<Kc>, n: nat, k: nat)
    requires k < n <= |kcs| && At(m, o, TablesOf(kcs, n))
    ensures At(m, o + |TablesOf(kcs, k)|, Table(kcs[k]))
  {
    hide At, Table;
    AtSplit(m, o, TablesOf(kcs, n - 1), Table(kcs[n - 1]));
    if k < n - 1 {
      TableAt(m, o, kcs, n - 1, k);
    }
  }

  lemma {:induction false} DescriptorAt(m: seq<byte>, kcs: seq<Kc>, n: nat, i: nat)
    requires i < n <= |kcs| && (forall j :: 0 <= j < n ==> |kcs[j].uuid| == 16)
    requires At(m, 8, Descriptors(kcs, n))
    ensures At(m, 8 + 20 * i, kcs[i].uuid) && At(m, 8 + 20 * i + 16, LE32(Wrap32(TableOffset(kcs, i))))
  {
    hide At, LE32, TableOffset;
    DescriptorsSize(kcs, n - 1);
    AtSplit(m, 8, Descriptors(kcs, n - 1), Descriptor(kcs, n - 1));
    if i < n - 1 {
      DescriptorAt(m, kcs, n - 1, i);
    } else {
      AtSplit(m, 8 + 20 * i, kcs[i].uuid, LE32(Wrap32(TableOffset(kcs, i))));
    }
  }

  /** Header words, descriptors, tables and strings, at their offsets: together they tile the blob. */
  lemma BlobPieces(st: Tables)
    requires WellFormed(st)
    ensures var b, n := Serialize(st), |st.kcs|;
            && At(b, 0, LE32(Wrap32(n))) && At(b, 4, LE32(Wrap32(TableOffset(st.kcs, n))))
            && At(b, 8, Descriptors(st.kcs, n)) && 8 + |Descriptors(st.kcs, n)| == Base(st.kcs)
            && At(b, Base(st.kcs), TablesOf(st.kcs, n))
            && At(b, TableOffset(st.kcs, n), st.pool) && TableOffset(st.kcs, n) + |st.pool| == |b|
  {
    hide At, LE32, TablesOf, Descriptors;
    var b, n := Serialize(st), |st.kcs|;
    var w, v := LE32(Wrap32(n)), LE32(Wrap32(TableOffset(st.kcs, n)));
    var ds, ts := Descriptors(st.kcs, n), TablesOf(st.kcs, n);
    DescriptorsSize(st.kcs, n);
    AtIsSlice(b, 0, b);
    assert b[0..|b|] == b;
    AtSplit(b, 0, w + v, ds + (ts + st.pool));
    AtSplit(b, 0, w, v);
    AtSplit(b, 8, ds, ts + st.pool);
    AtSplit(b, Base(st.kcs), ts, st.pool);
  }

  /** A blob below 4 GiB: every count and offset in it is below 2^32, and the host's checks pass. */
  lemma SmallBlob(st: Tables)
    requires WellFormed(st) && |Serialize(st)| < TWO_32
    ensures |st.kcs| < TWO_32 && OffsetsFit(st.kcs) && TableOffset(st.kcs, |st.kcs|) + |st.pool| < TWO_32
    ensures forall i :: 0 <= i < |st.kcs| ==>
              TableOffset(st.kcs, i) + 4 + 12 * |st.kcs[i].syms| <= TableOffset(st.kcs, |st.kcs|)
  {
    hide At, LE32;
    BlobPieces(st);
    forall i | 0 <= i < |st.kcs|
      ensures TableOffset(st.kcs, i) + 4 + 12 * |st.kcs[i].syms| <= TableOffset(st.kcs, |st.kcs|)
    {
      TablesGrow(st.kcs, i, |st.kcs|);
    }
  }

  // ---- Parsing it ----

  /** The descriptor loop finds the slot of the UUID. */
  lemma {:induction false} FindsSlot(st: Tables, uuid: seq<byte>, i: nat)
    requires WellFormed(st) && |Serialize(st)| < TWO_32 && i <= |st.kcs|
    ensures var b, k := Serialize(st), FindKc(st.kcs, uuid, i);
            FindDescriptor(b, 8 + 20 * i, |st.kcs| - i, uuid) ==
              if k < |st.kcs| then Found(TableOffset(st.kcs, k)) else Absent
    decreases |st.kcs| - i
  {
    hide Serialize, TableOffset, U32At;
    if i < |st.kcs| {
      DescriptorReads(st, i);
      FindsSlot(st, uuid, i + 1);
    }
  }

  lemma DescriptorReads(st: Tables, i: nat)
    requires WellFormed(st) && |Serialize(st)| < TWO_32 && i < |st.kcs|
    ensures var b, p := Serialize(st), 8 + 20 * i;
            && p + 20 <= |b| && b[p..p + 16] == st.kcs[i].uuid
            && U32At(b, p + 16) == TableOffset(st.kcs, i) <= |b|
  {
    hide At, LE32, Serialize, TableOffset, Descriptors, TablesOf;
    var b := Serialize(st);
    BlobPieces(st);
    SmallBlob(st);
    DescriptorAt(b, st.kcs, |st.kcs|, i);
    AtIsSlice(b, 8 + 20 * i, st.kcs[i].uuid);
    WordHere(b, 8 + 20 * i + 16, Wrap32(TableOffset(st.kcs, i)));
  }

  /** The symbol loop reads a table back, when the strings contain every offset. */
  lemma {:induction false} ReadsTable(b: seq<byte>, o: nat, syms: seq<Sym>, j: nat, size: nat)
    requires j <= |syms| && At(b, o, Entries(syms, |syms|))
    requires forall i :: 0 <= i < j ==> Wrap32(syms[i].off + 1) <= size
    ensures ReadEntries(b, o, j, size) == Some(syms[..j])
  {
    hide At, LE32, LE64, Entries, Wrap32, U32At, U64At;
    if j != 0 {
      ReadsTable(b, o, syms, j - 1, size);
      EntryReads(b, o, syms, j - 1);
      assert syms[..j] == syms[..j - 1] + [syms[j - 1]];
    }
  }

  lemma EntryReads(b: seq<byte>, o: nat, syms: seq<Sym>, j: nat)
    requires j < |syms| && At(b, o, Entries(syms, |syms|))
    ensures var q := o + 12 * j;
            q + 12 <= |b| && U32At(b, q) == syms[j].off && U64At(b, q + 4) == syms[j].addr
  {
    hide *;
    EntryAt(b, o, syms, |syms|, j);
    EntryWords(b, o + 12 * j, syms[j]);
  }

  lemma EntryWords(b: seq<byte>, q: nat, s: Sym)
    requires At(b, q, LE32(s.off)) && At(b, q + 4, LE64(s.addr))
    ensures q + 12 <= |b| && U32At(b, q) == s.off && U64At(b, q + 4) == s.addr
  {
    hide *;
    WordHere(b, q, s.off);
    DoubleWordHere(b, q + 4, s.addr);
  }

  /** Round trip: parsing the blob for a UUID gives that UUID's symbols and the string pool. */
  lemma ParsesBack(st: Tables, uuid: seq<byte>)
    requires WellFormed(st) && |Serialize(st)| < TWO_32
    requires forall i, j :: 0 <= i < |st.kcs| && 0 <= j < |st.kcs[i].syms| ==>
               Wrap32(st.kcs[i].syms[j].off + 1) <= |st.pool|
    ensures var k := FindKc(st.kcs, uuid, 0);
            ParseBlob(Serialize(st), uuid) ==
              if k == |st.kcs| then Missing
              else if st.pool == [] || st.pool[|st.pool| - 1] != 0 then Rejected
              else Accepted(st.kcs[k].syms, st.pool)
  {
    hide FindDescriptor, ReadEntries, Serialize, TableOffset, FindKc, U32At, WellFormed, Wrap32;
    var b, n, k := Serialize(st), |st.kcs|, FindKc(st.kcs, uuid, 0);
    HeaderReads(st);
    FindsSlot(st, uuid, 0);
    if k < n {
      TableReads(st, k);
    }
  }

  lemma HeaderReads(st: Tables)
    requires WellFormed(st) && |Serialize(st)| < TWO_32
    ensures var b, n := Serialize(st), |st.kcs|;
            && |b| >= 8 && U32At(b, 0) == n && U32At(b, 4) == TableOffset(st.kcs, n) == |b| - |st.pool|
            && b[U32At(b, 4)..] == st.pool
            && (st.pool != [] ==> b[|b| - 1] == st.pool[|st.pool| - 1])
  {
    hide At, LE32, Serialize, TableOffset, Descriptors, TablesOf, U32At;
    BlobPieces(st);
    SmallBlob(st);
    var b, n := Serialize(st), |st.kcs|;
    WordHere(b, 0, Wrap32(n));
    WordHere(b, 4, Wrap32(TableOffset(st.kcs, n)));
    AtIsSlice(b, TableOffset(st.kcs, n), st.pool);
    assert b[|b| - |st.pool|..] == st.pool;
  }

  lemma TableReads(st: Tables, k: nat)
    requires WellFormed(st) && |Serialize(st)| < TWO_32 && k < |st.kcs|
    requires forall j :: 0 <= j < |st.kcs[k].syms| ==> Wrap32(st.kcs[k].syms[j].off + 1) <= |st.pool|
    ensures var b, o := Serialize(st), TableOffset(st.kcs, k);
            && o + 4 <= |b| && U32At(b, o) == |st.kcs[k].syms|
            && ReadEntries(b, o + 4, |st.kcs[k].syms|, |st.pool|) == Some(st.kcs[k].syms)
  {
    hide At, LE32, Serialize, Descriptors, TablesOf, Entries, ReadEntries, U32At;
    BlobPieces(st);
    SmallBlob(st);
    var b, kc, o := Serialize(st), st.kcs[k], TableOffset(st.kcs, k);
    TableAt(b, Base(st.kcs), st.kcs, |st.kcs|, k);
    AtSplit(b, o, LE32(Wrap32(|kc.syms|)), Entries(kc.syms, |kc.syms|));
    WordHere(b, o, Wrap32(|kc.syms|));
    ReadsTable(b, o + 4, kc.syms, |kc.syms|, |st.pool|);
    assert kc.syms[..|kc.syms|] == kc.syms;
  }
}
