/** A small kernel extension, byte by byte, with any relocations: what the parser makes of it at every base
    address, that it can be loaded, and accepted ones on which the load goes wrong. */
module KextSample {
  import opened Machine
  import opened AsciiText
  import opened MachO
  import opened KextScan
  import opened KextCleared
  import opened KextParse
  import opened KextImage
  import opened KextLoaded
  import opened KextAccepted
  import opened KextLoader
  import opened DeviceSymbols
  import opened HostTable
  import opened KextOverlap
  import opened Pointers

  function Zeros(n: nat): (s: seq<byte>)
    ensures |s| == n
  {
    if n == 0 then [] else [0] + Zeros(n - 1)
  }

  // ---- The pieces ----

  function HeaderPiece(): (s: seq<byte>)
    ensures |s| == 32
  {
    LE32(0xfeedfacf) + (Zeros(8) + (LE32(0xb) + (LE32(4) + (LE32(192) + Zeros(8)))))
  }

  /** One segment at `base`, 0x4000 bytes of memory, of which the file has the first 224. */
  function SegmentPiece(base: u64): (s: seq<byte>)
    ensures |s| == 72
  {
    LE32(0x19) + (LE32(72) + (Zeros(16) + (LE64(base) + (LE64(0x4000) + (LE64(0) + (LE64(224) + Zeros(16)))))))
  }

  /** Two symbols at 224, the strings at 256. */
  function SymtabPiece(): (s: seq<byte>)
    ensures |s| == 24
  {
    LE32(0x2) + (LE32(24) + (LE32(224) + (LE32(2) + (LE32(256) + LE32(13)))))
  }

  /** `l` local relocations at 269, and `e` external ones behind them. */
  function DysymtabPiece(l: u32, e: u32): (s: seq<byte>)
    requires 269 + 8 * l < TWO_32
    ensures |s| == 80
  {
    LE32(0xb) + (LE32(80) + (Zeros(56) + (LE32(269 + 8 * l) + (LE32(e) + (LE32(269) + LE32(l))))))
  }

  /** `_kmod_info`, defined in a section. */
  function KmodPiece(base: u64): (s: seq<byte>)
    requires base + 0x4000 < TWO_64
    ensures |s| == 16
  {
    LE32(0) + ([0x0e, 1, 0, 0] + LE64(base + 0x1000))
  }

  /** An undefined symbol. */
  function ImportPiece(): (s: seq<byte>)
    ensures |s| == 16
  {
    LE32(11) + ([1, 0, 0, 0] + LE64(0))
  }

  const IMPORT_NAME: seq<byte> := [102]

  function NamesPiece(): (s: seq<byte>)
    ensures |s| == 13
  {
    (Text("_kmod_info") + [0]) + (IMPORT_NAME + [0])
  }

  // The second words of a local relocation of 8 bytes, and of an external one to symbol 1.
  const LOCAL: u32 := 0x600_0000
  const EXTERNAL: u32 := 0xe00_0001

  /** The first `n` relocations of one kind. */
  function RelocationsPiece(addresses: seq<u32>, kind: u32, n: nat): (s: seq<byte>)
    requires n <= |addresses|
    ensures |s| == 8 * n
  {
    if n == 0 then [] else RelocationsPiece(addresses, kind, n - 1) + (LE32(addresses[n - 1]) + LE32(kind))
  }

  /** The parameters of a sample: its base and the addresses of its relocations; anything may stand behind it. */
  datatype Recipe = Recipe(base: u64, locals: seq<u32>, externals: seq<u32>, rest: seq<byte>)

  predicate Possible(r: Recipe) {
    && r.base + 0x4000 < TWO_64 && 269 + 8 * |r.locals| + 8 * |r.externals| + |r.rest| < TWO_32
    && (forall a <- r.locals :: a < 0x8000_0000) && (forall a <- r.externals :: a < 0x8000_0000)
  }

  /** A possible sample with this base and these relocations. */
  predicate Has(r: Recipe, base: u64, locals: seq<u32>, externals: seq<u32>) {
    Possible(r) && r.base == base && r.locals == locals && r.externals == externals
  }

  /** The header and the first three commands. */
  function Front(r: Recipe): (f: seq<byte>)
    requires Possible(r)
    ensures |f| == 208
  {
    HeaderPiece() + (SegmentPiece(r.base) + (SymtabPiece() + DysymtabPiece(|r.locals|, |r.externals|)))
  }

  /** What stands behind the first word of the fourth command. */
  function Back(r: Recipe): (f: seq<byte>)
    requires Possible(r)
    ensures |f| == 57 + 8 * |r.locals| + 8 * |r.externals| + |r.rest|
  {
    LE32(16) + (Zeros(8) + (KmodPiece(r.base) + (ImportPiece() + (NamesPiece()
    + (RelocationsPiece(r.locals, LOCAL, |r.locals|)
    + (RelocationsPiece(r.externals, EXTERNAL, |r.externals|) + r.rest))))))
  }

  /** The kernel extension with `kind` as its fourth command. */
  function SampleOf(r: Recipe, kind: u32): (f: seq<byte>)
    requires Possible(r)
    ensures |f| == 269 + 8 * |r.locals| + 8 * |r.externals| + |r.rest|
  {
    Front(r) + (LE32(kind) + Back(r))
  }

  /** The sample: its fourth command is the split-info command. */
  function Sample(r: Recipe): (f: seq<byte>)
    requires Possible(r)
  {
    SampleOf(r, 0x1e)
  }

  /** What the parser leaves of it. */
  function SampleLeft(r: Recipe): (f: seq<byte>)
    requires Possible(r)
  {
    SampleOf(r, 0x4100001e)
  }

  /** Where the pieces stand. */
  ghost predicate Built(f: seq<byte>, r: Recipe, kind: u32)
    requires Possible(r)
  {
    && |f| < TWO_32 && |f| >= 269
    && At(f, 0, HeaderPiece()) && At(f, 32, SegmentPiece(r.base)) && At(f, 104, SymtabPiece())
    && At(f, 128, DysymtabPiece(|r.locals|, |r.externals|))
    && At(f, 208, LE32(kind)) && At(f, 212, LE32(16))
    && At(f, 224, KmodPiece(r.base)) && At(f, 240, ImportPiece())
    && At(f, 256, NamesPiece()) && At(f, 269, RelocationsPiece(r.locals, LOCAL, |r.locals|))
    && At(f, 269 + 8 * |r.locals|, RelocationsPiece(r.externals, EXTERNAL, |r.externals|))
  }

  lemma SamplePieces(r: Recipe, kind: u32)
    requires Possible(r)
    ensures Built(SampleOf(r, kind), r, kind)
  {
    hide HeaderPiece, SegmentPiece, SymtabPiece, DysymtabPiece, LE32, Zeros;
    hide KmodPiece, ImportPiece, NamesPiece, RelocationsPiece, At;
    var f := SampleOf(r, kind);
    AtWhole(f);
    AtSplit(f, 0, Front(r), LE32(kind) + Back(r));
    AtSplit(f, 208, LE32(kind), Back(r));
    FrontPieces(f, r);
    BackPieces(f, r);
  }

  lemma FrontPieces(f: seq<byte>, r: Recipe)
    requires Possible(r) && At(f, 0, Front(r))
    ensures At(f, 0, HeaderPiece()) && At(f, 32, SegmentPiece(r.base)) && At(f, 104, SymtabPiece())
    ensures At(f, 128, DysymtabPiece(|r.locals|, |r.externals|))
  {
    hide HeaderPiece, SegmentPiece, SymtabPiece, DysymtabPiece, At;
    var r3 := DysymtabPiece(|r.locals|, |r.externals|);
    var r2 := SymtabPiece() + r3;
    AtSplit(f, 0, HeaderPiece(), SegmentPiece(r.base) + r2);
    AtSplit(f, 32, SegmentPiece(r.base), r2);
    AtSplit(f, 104, SymtabPiece(), r3);
  }

  lemma BackPieces(f: seq<byte>, r: Recipe)
    requires Possible(r) && At(f, 212, Back(r))
    ensures At(f, 212, LE32(16)) && At(f, 224, KmodPiece(r.base)) && At(f, 240, ImportPiece())
    ensures At(f, 256, NamesPiece()) && At(f, 269, RelocationsPiece(r.locals, LOCAL, |r.locals|))
    ensures At(f, 269 + 8 * |r.locals|, RelocationsPiece(r.externals, EXTERNAL, |r.externals|))
  {
    hide KmodPiece, ImportPiece, NamesPiece, RelocationsPiece, At, LE32, Zeros;
    var l := |r.locals|;
    var r8 := RelocationsPiece(r.externals, EXTERNAL, |r.externals|) + r.rest;
    var r7 := RelocationsPiece(r.locals, LOCAL, l) + r8;
    var r6 := NamesPiece() + r7;
    var r5 := ImportPiece() + r6;
    var r4 := KmodPiece(r.base) + r5;
    AtSplit(f, 212, LE32(16), Zeros(8) + r4);
    AtSplit(f, 216, Zeros(8), r4);
    AtSplit(f, 224, KmodPiece(r.base), r5);
    AtSplit(f, 240, ImportPiece(), r6);
    AtSplit(f, 256, NamesPiece(), r7);
    AtSplit(f, 269, RelocationsPiece(r.locals, LOCAL, l), r8);
    AtSplit(f, 269 + 8 * l, RelocationsPiece(r.externals, EXTERNAL, |r.externals|), r.rest);
  }

  /** The split-info command of the sample, and what is left of it: one byte is changed, and no other is. */
  lemma SampleDestroyed(r: Recipe)
    requires Possible(r)
    ensures At(Sample(r), 208, [0x1e, 0, 0, 0, 16, 0, 0, 0]) && Destroy(Sample(r), 208) == SampleLeft(r)
    ensures forall v :: 0 <= v < |Sample(r)| ==> SampleLeft(r)[v] == if v == 211 then 0x41 else Sample(r)[v]
  {
    hide LE32, Front, Back, U32At, At;
    var f, g := Sample(r), SampleLeft(r);
    SamplePieces(r, 0x1e);
    PiecesHere(f, r, 0x1e);
    WordHere(f, 208, 0x1e);
    WordHere(f, 212, 16);
    SplitWords(f);
    SpliceWord(Front(r), LE32(0x1e), Back(r), LE32(0x4100001e));
    DestroyByte(f, 208);
    FourthByte(f, 208);
  }

  lemma SplitWords(f: seq<byte>)
    requires |f| >= 216 && U32At(f, 208) == 0x1e && U32At(f, 212) == 16
    ensures At(f, 208, [0x1e, 0, 0, 0, 16, 0, 0, 0])
  {
    WordBytes(f, 208);
    WordBytes(f, 212);
  }

  lemma SpliceWord(a: seq<byte>, w: seq<byte>, b: seq<byte>, v: seq<byte>)
    requires |w| == |v|
    ensures Splice(a + (w + b), |a|, v) == a + (v + b)
  {
    SpliceBytes(a + (w + b), |a|, v);
  }

  // ---- What is read ----

  lemma HeaderReads(f: seq<byte>)
    requires At(f, 0, HeaderPiece())
    ensures |f| >= 32 && Magic(f) == MH_MAGIC_64 && FileType(f) == MH_KEXT_BUNDLE
    ensures CmdCount(f) == 4 && CmdsEnd(f) == 224
  {
    hide At, LE32, U32At, Zeros;
    var r4 := LE32(192) + Zeros(8);
    var r3 := LE32(4) + r4;
    var r2 := LE32(0xb) + r3;
    AtSplit(f, 0, LE32(0xfeedfacf), Zeros(8) + r2);
    AtSplit(f, 4, Zeros(8), r2);
    AtSplit(f, 12, LE32(0xb), r3);
    AtSplit(f, 16, LE32(4), r4);
    AtSplit(f, 20, LE32(192), Zeros(8));
    WordHere(f, 0, 0xfeedfacf);
    WordHere(f, 12, 0xb);
    WordHere(f, 16, 4);
    WordHere(f, 20, 192);
    AtEnds(f, 24, Zeros(8));
  }

  lemma AtEnds(f: seq<byte>, o: nat, s: seq<byte>)
    requires At(f, o, s)
    ensures o + |s| <= |f|
  {
  }

  predicate SegmentHere(f: seq<byte>, o: nat, base: u64) {
    && o + 72 <= |f| && Cmd(f, o) == LC_SEGMENT_64 && CmdSize(f, o) == 72
    && VmAddr(f, o) == base && VmSize(f, o) == 0x4000 && FileOff(f, o) == 0 && FileSize(f, o) == 224
  }

  lemma SegmentReads(f: seq<byte>, o: nat, base: u64)
    requires At(f, o, SegmentPiece(base))
    ensures SegmentHere(f, o, base)
  {
    hide At, LE32, LE64, U32At, U64At, Zeros;
    var r3 := LE64(base) + (LE64(0x4000) + (LE64(0) + (LE64(224) + Zeros(16))));
    var r2 := Zeros(16) + r3;
    AtSplit(f, o, LE32(0x19), LE32(72) + r2);
    AtSplit(f, o + 4, LE32(72), r2);
    AtSplit(f, o + 8, Zeros(16), r3);
    WordHere(f, o, 0x19);
    WordHere(f, o + 4, 72);
    RangeReads(f, o, base);
  }

  /** The four words behind the segment's name. */
  lemma RangeReads(f: seq<byte>, o: nat, base: u64)
    requires At(f, o + 24, LE64(base) + (LE64(0x4000) + (LE64(0) + (LE64(224) + Zeros(16)))))
    ensures o + 72 <= |f| && VmAddr(f, o) == base && VmSize(f, o) == 0x4000
    ensures FileOff(f, o) == 0 && FileSize(f, o) == 224
  {
    hide At, LE32, LE64, U32At, U64At, Zeros;
    var r6 := LE64(224) + Zeros(16);
    var r5 := LE64(0) + r6;
    var r4 := LE64(0x4000) + r5;
    AtSplit(f, o + 24, LE64(base), r4);
    AtSplit(f, o + 32, LE64(0x4000), r5);
    AtSplit(f, o + 40, LE64(0), r6);
    AtSplit(f, o + 48, LE64(224), Zeros(16));
    DoubleWordHere(f, o + 24, base);
    DoubleWordHere(f, o + 32, 0x4000);
    DoubleWordHere(f, o + 40, 0);
    DoubleWordHere(f, o + 48, 224);
    AtEnds(f, o + 56, Zeros(16));
  }

  predicate SymtabHere(f: seq<byte>, o: nat) {
    && o + 24 <= |f| && Cmd(f, o) == LC_SYMTAB && CmdSize(f, o) == 24
    && SymOff(f, o) == 224 && SymCount(f, o) == 2 && StrOff(f, o) == 256
  }

  lemma SymtabReads(f: seq<byte>, o: nat)
    requires At(f, o, SymtabPiece())
    ensures SymtabHere(f, o)
  {
    hide At, LE32, U32At;
    var r4 := LE32(256) + LE32(13);
    var r3 := LE32(2) + r4;
    var r2 := LE32(224) + r3;
    AtSplit(f, o, LE32(0x2), LE32(24) + r2);
    AtSplit(f, o + 4, LE32(24), r2);
    AtSplit(f, o + 8, LE32(224), r3);
    AtSplit(f, o + 12, LE32(2), r4);
    AtSplit(f, o + 16, LE32(256), LE32(13));
    WordHere(f, o, 0x2);
    WordHere(f, o + 4, 24);
    WordHere(f, o + 8, 224);
    WordHere(f, o + 12, 2);
    WordHere(f, o + 16, 256);
    WordHere(f, o + 20, 13);
  }

  predicate DysymtabHere(f: seq<byte>, o: nat, l: u32, e: u32) {
    && o + 80 <= |f| && Cmd(f, o) == LC_DYSYMTAB && CmdSize(f, o) == 80
    && ExtRelOff(f, o) == 269 + 8 * l && ExtRelCount(f, o) == e && LocRelOff(f, o) == 269 && LocRelCount(f, o) == l
  }

  lemma DysymtabReads(f: seq<byte>, o: nat, l: u32, e: u32)
    requires 269 + 8 * l < TWO_32 && At(f, o, DysymtabPiece(l, e))
    ensures DysymtabHere(f, o, l, e)
  {
    hide At, LE32, U32At, Zeros;
    var r5 := LE32(269) + LE32(l);
    var r4 := LE32(e) + r5;
    var r3 := LE32(269 + 8 * l) + r4;
    var r2 := Zeros(56) + r3;
    AtSplit(f, o, LE32(0xb), LE32(80) + r2);
    AtSplit(f, o + 4, LE32(80), r2);
    AtSplit(f, o + 8, Zeros(56), r3);
    AtSplit(f, o + 64, LE32(269 + 8 * l), r4);
    AtSplit(f, o + 68, LE32(e), r5);
    AtSplit(f, o + 72, LE32(269), LE32(l));
    WordHere(f, o, 0xb);
    WordHere(f, o + 4, 80);
    WordHere(f, o + 64, 269 + 8 * l);
    WordHere(f, o + 68, e);
    WordHere(f, o + 72, 269);
    WordHere(f, o + 76, l);
  }

  lemma KmodReads(f: seq<byte>, o: nat, base: u64)
    requires base + 0x4000 < TWO_64 && At(f, o, KmodPiece(base))
    ensures o + 16 <= |f| && StrIndex(f, o) == 0 && InSection(f, o) && SymValue(f, o) == base + 0x1000
  {
    hide At, LE32, LE64, U32At, U64At;
    var kind: seq<byte> := [0x0e, 1, 0, 0];
    AtSplit(f, o, LE32(0), kind + LE64(base + 0x1000));
    AtSplit(f, o + 4, kind, LE64(base + 0x1000));
    WordHere(f, o, 0);
    DoubleWordHere(f, o + 8, base + 0x1000);
    AtIndex(f, o + 4, kind);
    assert f[o + 4] == kind[0];
  }

  lemma ImportReads(f: seq<byte>, o: nat)
    requires At(f, o, ImportPiece())
    ensures o + 16 <= |f| && StrIndex(f, o) == 11 && !InSection(f, o)
  {
    hide At, LE32, LE64, U32At, U64At;
    var kind: seq<byte> := [1, 0, 0, 0];
    AtSplit(f, o, LE32(11), kind + LE64(0));
    AtSplit(f, o + 4, kind, LE64(0));
    WordHere(f, o, 11);
    DoubleWordHere(f, o + 8, 0);
    AtIndex(f, o + 4, kind);
    assert f[o + 4] == kind[0];
  }

  lemma NamesRead(f: seq<byte>, o: nat)
    requires At(f, o, NamesPiece())
    ensures Terminated(f, o) && CStr(f, o) == KMOD_INFO_NAME
    ensures Terminated(f, o + 11) && CStr(f, o + 11) == IMPORT_NAME && o + 13 <= |f|
  {
    hide At, CStr, Terminated;
    assert Text("_kmod_info") == KMOD_INFO_NAME;
    AtSplit(f, o, KMOD_INFO_NAME + [0], IMPORT_NAME + [0]);
    CStrIsName(f, o, KMOD_INFO_NAME);
    CStrIsName(f, o + 11, IMPORT_NAME);
    AtEnds(f, o + 11, IMPORT_NAME + [0]);
  }

  lemma {:induction false} RelocationAt(f: seq<byte>, o: nat, addresses: seq<u32>, kind: u32, n: nat, j: nat)
    requires j < n <= |addresses| && At(f, o, RelocationsPiece(addresses, kind, n))
    ensures o + 8 * j + 8 <= |f| && U32At(f, o + 8 * j) == addresses[j] && U32At(f, o + 8 * j + 4) == kind
  {
    hide At, LE32, U32At;
    var last := LE32(addresses[n - 1]) + LE32(kind);
    AtSplit(f, o, RelocationsPiece(addresses, kind, n - 1), last);
    if j < n - 1 {
      RelocationAt(f, o, addresses, kind, n - 1, j);
    } else {
      AtSplit(f, o + 8 * j, LE32(addresses[j]), LE32(kind));
      WordHere(f, o + 8 * j, addresses[j]);
      WordHere(f, o + 8 * j + 4, kind);
    }
  }

  /** The pieces that the lemmas below read. */
  lemma PiecesHere(f: seq<byte>, r: Recipe, kind: u32)
    requires Possible(r) && Built(f, r, kind)
    ensures At(f, 104, SymtabPiece()) && At(f, 224, KmodPiece(r.base)) && At(f, 240, ImportPiece())
    ensures At(f, 256, NamesPiece()) && At(f, 269, RelocationsPiece(r.locals, LOCAL, |r.locals|))
    ensures At(f, 269 + 8 * |r.locals|, RelocationsPiece(r.externals, EXTERNAL, |r.externals|))
    ensures At(f, 0, HeaderPiece()) && At(f, 32, SegmentPiece(r.base))
    ensures At(f, 128, DysymtabPiece(|r.locals|, |r.externals|)) && 269 <= |f| < TWO_32
    ensures At(f, 208, LE32(kind)) && At(f, 212, LE32(16))
  {
    hide HeaderPiece, SegmentPiece, SymtabPiece, DysymtabPiece, LE32;
    hide KmodPiece, ImportPiece, NamesPiece, RelocationsPiece, At;
  }

  lemma LocalWord(f: seq<byte>, o: nat, address: u32)
    requires o + 8 <= |f| && U32At(f, o) == address < 0x8000_0000 && U32At(f, o + 4) == LOCAL
    ensures RelAddress(f, o) == address && !RelExtern(f, o) && RelLength(f, o) == 3
  {
    hide U32At;
  }

  lemma ExternalWord(f: seq<byte>, o: nat, address: u32)
    requires o + 8 <= |f| && U32At(f, o) == address < 0x8000_0000 && U32At(f, o + 4) == EXTERNAL
    ensures RelAddress(f, o) == address && RelExtern(f, o) && RelLength(f, o) == 3 && RelSymbol(f, o) == 1
  {
    hide U32At;
  }

  /** The relocations at `o`, as read. */
  ghost predicate LocalsHere(f: seq<byte>, o: nat, addresses: seq<u32>) {
    && o + 8 * |addresses| <= |f|
    && forall j :: 0 <= j < |addresses| ==>
         && RelAddress(f, o + 8 * j) == addresses[j] && !RelExtern(f, o + 8 * j) && RelLength(f, o + 8 * j) == 3
  }

  ghost predicate ExternalsHere(f: seq<byte>, o: nat, addresses: seq<u32>) {
    && o + 8 * |addresses| <= |f|
    && forall j :: 0 <= j < |addresses| ==>
         && RelAddress(f, o + 8 * j) == addresses[j] && RelExtern(f, o + 8 * j)
         && RelLength(f, o + 8 * j) == 3 && RelSymbol(f, o + 8 * j) == 1
  }

  lemma LocalsRead(f: seq<byte>, o: nat, addresses: seq<u32>)
    requires At(f, o, RelocationsPiece(addresses, LOCAL, |addresses|)) && forall a <- addresses :: a < 0x8000_0000
    ensures LocalsHere(f, o, addresses)
  {
    hide At, U32At, RelocationsPiece, RelAddress, RelExtern, RelLength;
    AtEnds(f, o, RelocationsPiece(addresses, LOCAL, |addresses|));
    forall j | 0 <= j < |addresses|
      ensures RelAddress(f, o + 8 * j) == addresses[j] && !RelExtern(f, o + 8 * j) && RelLength(f, o + 8 * j) == 3
    {
      RelocationAt(f, o, addresses, LOCAL, |addresses|, j);
      assert addresses[j] in addresses;
      LocalWord(f, o + 8 * j, addresses[j]);
    }
  }

  lemma ExternalsRead(f: seq<byte>, o: nat, addresses: seq<u32>)
    requires At(f, o, RelocationsPiece(addresses, EXTERNAL, |addresses|)) && forall a <- addresses :: a < 0x8000_0000
    ensures ExternalsHere(f, o, addresses)
  {
    hide At, U32At, RelocationsPiece, RelAddress, RelExtern, RelLength, RelSymbol;
    AtEnds(f, o, RelocationsPiece(addresses, EXTERNAL, |addresses|));
    forall j | 0 <= j < |addresses|
      ensures RelAddress(f, o + 8 * j) == addresses[j] && RelExtern(f, o + 8 * j)
      ensures RelLength(f, o + 8 * j) == 3 && RelSymbol(f, o + 8 * j) == 1
    {
      RelocationAt(f, o, addresses, EXTERNAL, |addresses|, j);
      assert addresses[j] in addresses;
      ExternalWord(f, o + 8 * j, addresses[j]);
    }
  }

  // ---- What the parser makes of it ----

  /** The load information of the sample. */
  function SampleKext(r: Recipe): Kext
    requires Possible(r)
  {
    Kext(SampleLeft(r), [32, 104, 128, 208], [32], r.base, 0x4000, 104, 128, r.base + 0x1000)
  }

  /** The commands of the sample. */
  predicate CommandsHere(f: seq<byte>, base: u64, l: u32, e: u32) {
    && 269 + 8 * l + 8 * e <= |f| < TWO_32 && CmdSize(f, 208) == 16
    && SegmentHere(f, 32, base) && SymtabHere(f, 104) && DysymtabHere(f, 128, l, e)
  }

  /** The walk over the four commands. */
  lemma SampleWalk(f: seq<byte>, g: seq<byte>, base: u64, l: u32, e: u32)
    requires base + 0x4000 < TWO_64 && CommandsHere(f, base, l, e) && Cmd(f, 208) == 0x1e
    requires Destroy(f, 208) == g && Cmd(g, 208) == 0x4100001e
    ensures Walk(Start(f), 32, 224, 4) == Some(Scan(g, [32, 104, 128, 208], [32], base, base + 0x4000, 104, 128))
  {
    hide Cmd, CmdSize, VmAddr, VmSize, FileOff, FileSize, SymOff, SymCount, StrOff, ExtRelOff, ExtRelCount, LocRelOff;
    hide LocRelCount, Walk, Splice;
    var s1 := Scan(f, [32], [32], base, base + 0x4000, 0, 0);
    var s2 := Scan(f, [32, 104], [32], base, base + 0x4000, 104, 0);
    var s3 := Scan(f, [32, 104, 128], [32], base, base + 0x4000, 104, 128);
    var s4 := Scan(g, [32, 104, 128, 208], [32], base, base + 0x4000, 104, 128);
    assert [] + [32] == [32];
    assert Step(Start(f), 32, 224) == Some(s1);
    assert [32] + [104] == [32, 104];
    assert Step(s1, 104, 224) == Some(s2);
    assert [32, 104] + [128] == [32, 104, 128];
    assert Step(s2, 128, 224) == Some(s3);
    assert [32, 104, 128] + [208] == [32, 104, 128, 208];
    DestroyKeepsSize(f, 208);
    assert Step(s3, 208, 224) == Some(s4) by { hide Destroy; }
    WalkFour(Start(f), s1, s2, s3, s4);
  }

  lemma WalkFour(s0: Scan, s1: Scan, s2: Scan, s3: Scan, s4: Scan)
    requires 224 <= |s0.buf| == |s4.buf| && s0.buf == s1.buf == s2.buf == s3.buf
    requires Step(s0, 32, 224) == Some(s1) && CmdSize(s0.buf, 32) == 72
    requires Step(s1, 104, 224) == Some(s2) && CmdSize(s0.buf, 104) == 24
    requires Step(s2, 128, 224) == Some(s3) && CmdSize(s0.buf, 128) == 80
    requires Step(s3, 208, 224) == Some(s4)
    ensures Walk(s0, 32, 224, 4) == Some(s4)
  {
    hide Step, CmdSize;
    assert Walk(s4, 208 + CmdSize(s4.buf, 208), 224, 0) == Some(s4);
    assert Walk(s3, 208, 224, 1) == Some(s4);
    assert Walk(s2, 128, 224, 2) == Some(s4);
    assert Walk(s1, 104, 224, 3) == Some(s4);
  }

  /** What is read of the two symbols. */
  predicate SymbolsHere(f: seq<byte>, kmod: u64) {
    && 269 <= |f| < TWO_32
    && StrIndex(f, 224) == 0 && InSection(f, 224) && SymValue(f, 224) == kmod
    && StrIndex(f, 240) == 11 && !InSection(f, 240)
    && Terminated(f, 256) && CStr(f, 256) == KMOD_INFO_NAME && Terminated(f, 267) && CStr(f, 267) == IMPORT_NAME
  }

  lemma SymbolsRead(f: seq<byte>, base: u64)
    requires base + 0x4000 < TWO_64 && 269 <= |f| < TWO_32
    requires At(f, 224, KmodPiece(base)) && At(f, 240, ImportPiece()) && At(f, 256, NamesPiece())
    ensures SymbolsHere(f, base + 0x1000)
  {
    hide StrIndex, SymValue, InSection, At, Terminated, CStr, KmodPiece, ImportPiece, NamesPiece;
    KmodReads(f, 224, base);
    ImportReads(f, 240);
    NamesRead(f, 256);
  }

  lemma SampleSymbols(f: seq<byte>, base: u64)
    requires base + 0x4000 < TWO_64 && SymtabHere(f, 104) && SymbolsHere(f, base + 0x1000)
    ensures StringOk(f, 104, 0) && StringOk(f, 104, 1) && Stroff(f, 104, 0) == 256 && Stroff(f, 104, 1) == 267
    ensures CheckSymbols(f, 104, 2, base, base + 0x4000) == Some(base + 0x1000)
  {
    hide SymOff, SymCount, StrOff, StrIndex, SymValue, InSection, CheckSymbols, Cmd, CmdSize, Terminated, CStr;
    assert Nlist(f, 104, 0) == 224 && Nlist(f, 104, 1) == 240;
    assert CheckSymbol(f, 104, 0, base, base + 0x4000, 0) == Some(base + 0x1000);
    assert CheckSymbol(f, 104, 1, base, base + 0x4000, base + 0x1000) == Some(base + 0x1000);
    TwoSymbols(f, 104, base, base + 0x4000, base + 0x1000);
  }

  lemma TwoSymbols(f: seq<byte>, symtab: nat, vmBase: u64, vmEnd: u64, kmod: u64)
    requires symtab + 24 <= |f| && SymOff(f, symtab) + 32 <= |f|
    requires CheckSymbol(f, symtab, 0, vmBase, vmEnd, 0) == Some(kmod)
    ensures CheckSymbols(f, symtab, 2, vmBase, vmEnd) == CheckSymbol(f, symtab, 1, vmBase, vmEnd, kmod)
  {
    hide CheckSymbol, SymOff;
    assert CheckSymbols(f, symtab, 0, vmBase, vmEnd) == Some(0);
    assert CheckSymbols(f, symtab, 1, vmBase, vmEnd) == Some(kmod);
  }

  /** Everything that is read of the sample. */
  ghost predicate SampleHere(f: seq<byte>, r: Recipe, kind: u32)
    requires Possible(r) && |f| >= 269
  {
    && Magic(f) == MH_MAGIC_64 && FileType(f) == MH_KEXT_BUNDLE && CmdCount(f) == 4 && CmdsEnd(f) == 224
    && CommandsHere(f, r.base, |r.locals|, |r.externals|) && Cmd(f, 208) == kind
    && SymbolsHere(f, r.base + 0x1000) && LocalsHere(f, 269, r.locals)
    && ExternalsHere(f, 269 + 8 * |r.locals|, r.externals)
  }

  lemma SampleSize(r: Recipe, kind: u32)
    requires Possible(r)
    ensures |SampleOf(r, kind)| == 269 + 8 * |r.locals| + 8 * |r.externals| + |r.rest| < TWO_32
  {
  }

  lemma SampleReads(r: Recipe, kind: u32)
    requires Possible(r)
    ensures SampleHere(SampleOf(r, kind), r, kind)
  {
    hide SampleOf, Built, At, U32At, LE32, HeaderPiece, SegmentPiece, SymtabPiece, DysymtabPiece, KmodPiece;
    hide ImportPiece, NamesPiece;
    hide RelocationsPiece, SegmentHere, SymtabHere, DysymtabHere, SymbolsHere, LocalsHere, ExternalsHere;
    hide Magic, FileType, CmdCount, SizeOfCmds;
    var f := SampleOf(r, kind);
    SampleSize(r, kind);
    SamplePieces(r, kind);
    PiecesHere(f, r, kind);
    WordHere(f, 208, kind);
    WordHere(f, 212, 16);
    HeaderReads(f);
    SegmentReads(f, 32, r.base);
    SymtabReads(f, 104);
    DysymtabReads(f, 128, |r.locals|, |r.externals|);
    SymbolsRead(f, r.base);
    LocalsRead(f, 269, r.locals);
    ExternalsRead(f, 269 + 8 * |r.locals|, r.externals);
  }

  lemma SampleTables(f: seq<byte>, l: u32, e: u32)
    requires 269 + 8 * l + 8 * e <= |f| && SymtabHere(f, 104) && DysymtabHere(f, 128, l, e)
    ensures TablesInside(f, 104, 128)
  {
    hide SymOff, SymCount, StrOff, ExtRelOff, ExtRelCount, LocRelOff, LocRelCount, Cmd, CmdSize;
  }

  lemma ImportIsHere(f: seq<byte>, base: u64)
    requires base + 0x4000 < TWO_64 && SymtabHere(f, 104) && SymbolsHere(f, base + 0x1000)
    ensures ImportHere(f) && SymCount(f, 104) == 2
  {
    hide SymOff, SymCount, StrOff, StringOk, CheckSymbols, Cmd;
    hide CmdSize, CStr, Terminated, StrIndex, SymValue, InSection;
    SampleSymbols(f, base);
  }

  /** The symbol resolves if it is needed, and every relocation passes the bounds test. */
  ghost predicate Relocates(r: Recipe, chain: seq<SymbolTable>)
    requires AllReadable(chain)
  {
    && (r.externals != [] ==> ChainLookup(chain, IMPORT_NAME) != 0)
    && (forall a <- r.locals :: RelInBounds(r.base, 0x4000, a))
    && (forall a <- r.externals :: RelInBounds(r.base, 0x4000, a))
  }

  lemma SampleLocals(f: seq<byte>, base: u64, locals: seq<u32>, e: u32)
    requires |locals| < TWO_32 && LocalsHere(f, 269, locals) && DysymtabHere(f, 128, |locals|, e)
    ensures LocalsOk(f, 128, base, 0x4000) <==> forall a <- locals :: RelInBounds(base, 0x4000, a)
  {
    hide RelInBounds, RelAddress, RelExtern, RelLength, LocRelOff, LocRelCount, ExtRelOff, ExtRelCount, Cmd, CmdSize;
    forall j | 0 <= j < |locals|
      ensures LocRelOk(f, 128, base, 0x4000, j) <==> RelInBounds(base, 0x4000, locals[j])
    {
      assert LocRel(f, 128, j) == 269 + 8 * j;
    }
    if LocalsOk(f, 128, base, 0x4000) {
      forall a | a in locals
        ensures RelInBounds(base, 0x4000, a)
      {
        var j :| 0 <= j < |locals| && locals[j] == a;
        assert LocRelOk(f, 128, base, 0x4000, j);
      }
    }
  }

  /** Symbol 1 is the name that the external relocations refer to. */
  ghost predicate ImportHere(f: seq<byte>) {
    && SymtabHere(f, 104) && 269 <= |f| && CStr(f, 267) == IMPORT_NAME
    && Stroff(f, 104, 0) == 256 && Stroff(f, 104, 1) == 267
  }

  lemma ImportStrings(f: seq<byte>)
    requires ImportHere(f)
    ensures SymOff(f, 104) + SymCount(f, 104) * 16 <= |f| && SymCount(f, 104) == 2
    ensures forall i :: 0 <= i < SymCount(f, 104) ==> Stroff(f, 104, i) <= |f|
  {
    hide Stroff, SymOff, SymCount, StrOff, CStr, Cmd, CmdSize;
  }

  ghost predicate ExternalOk(f: seq<byte>, base: u64, chain: seq<SymbolTable>, j: nat)
    requires ImportHere(f) && 224 <= |f| && ExtRel(f, 128, j) + 8 <= |f| && AllReadable(chain)
  {
    ImportStrings(f);
    ExtRelOk(f, 104, 128, base, 0x4000, chain, j)
  }

  lemma SampleExternal(f: seq<byte>, base: u64, l: u32, externals: seq<u32>, chain: seq<SymbolTable>, j: nat)
    requires |externals| < TWO_32 && ImportHere(f) && DysymtabHere(f, 128, l, |externals|)
    requires ExternalsHere(f, 269 + 8 * l, externals) && AllReadable(chain) && j < |externals|
    ensures ExtRel(f, 128, j) + 8 <= |f|
    ensures ExternalOk(f, base, chain, j) <==>
            ChainLookup(chain, IMPORT_NAME) != 0 && RelInBounds(base, 0x4000, externals[j])
  {
    hide RelInBounds, RelAddress, RelExtern, RelLength, RelSymbol, LocRelOff, LocRelCount, ExtRelOff, ExtRelCount;
    hide Cmd, CmdSize, Stroff, CStr, AllReadable, ChainLookup, SymOff, SymCount, StrOff;
    assert ExtRel(f, 128, j) == 269 + 8 * l + 8 * j;
  }

  lemma SampleExternals(f: seq<byte>, base: u64, l: u32, externals: seq<u32>, chain: seq<SymbolTable>)
    requires |externals| < TWO_32 && ImportHere(f) && DysymtabHere(f, 128, l, |externals|)
    requires ExternalsHere(f, 269 + 8 * l, externals) && AllReadable(chain)
    requires TablesInside(f, 104, 128) && forall i :: 0 <= i < SymCount(f, 104) ==> StringOk(f, 104, i)
    ensures ExternalsOk(f, 104, 128, base, 0x4000, chain) <==>
            && (externals != [] ==> ChainLookup(chain, IMPORT_NAME) != 0)
            && forall a <- externals :: RelInBounds(base, 0x4000, a)
  {
    hide RelInBounds, ExtRelOff, ExtRelCount, ExtRelOk, TablesInside, LocRelOff, LocRelCount, ImportHere, ExternalsHere;
    hide Cmd, CmdSize, Stroff, StringOk, CStr, AllReadable, ChainLookup, SymOff, SymCount, StrOff, Terminated;
    ImportStrings(f);
    forall j | 0 <= j < |externals|
      ensures ExtRel(f, 128, j) + 8 <= |f|
      ensures ExtRelOk(f, 104, 128, base, 0x4000, chain, j) <==>
              ChainLookup(chain, IMPORT_NAME) != 0 && RelInBounds(base, 0x4000, externals[j])
    {
      SampleExternal(f, base, l, externals, chain, j);
      assert ExternalOk(f, base, chain, j) == ExtRelOk(f, 104, 128, base, 0x4000, chain, j);
    }
    if ExternalsOk(f, 104, 128, base, 0x4000, chain) {
      if externals != [] {
        assert ExtRelOk(f, 104, 128, base, 0x4000, chain, 0);
      }
      forall a | a in externals
        ensures RelInBounds(base, 0x4000, a)
      {
        var j :| 0 <= j < |externals| && externals[j] == a;
        assert ExtRelOk(f, 104, 128, base, 0x4000, chain, j);
      }
    }
  }

  /** The parser accepts the sample, at every base, exactly if its relocations pass. */
  lemma SampleParses(r: Recipe, chain: seq<SymbolTable>)
    requires Possible(r) && AllReadable(chain)
    ensures ParseSpec(Sample(r), chain) == if Relocates(r, chain) then Some(SampleKext(r)) else None
  {
    hide Walk, CheckSymbols, AllReadable, RelInBounds, Magic, FileType, SizeOfCmds, CmdCount, ExternalsOk;
    hide SymOff, SymCount, StrOff, ExtRelOff, ExtRelCount, LocRelOff, LocRelCount, LocalsOk, ChainLookup, Cmd, CmdSize;
    hide LocalsHere, ExternalsHere, StringOk, SegmentHere, SymbolsHere, SampleOf, Destroy;
    var f, g, l, e := Sample(r), SampleLeft(r), |r.locals|, |r.externals|;
    SampleReads(r, 0x1e);
    SampleReads(r, 0x4100001e);
    SampleDestroyed(r);
    SampleWalk(f, g, r.base, l, e);
    SampleSymbols(g, r.base);
    SampleTables(g, l, e);
    SampleLocals(g, r.base, r.locals, e);
    ImportIsHere(g, r.base);
    SampleExternals(g, r.base, l, r.externals, chain);
    assert Wrap64(r.base + 0x4000 - r.base) == 0x4000;
  }

  // ---- Samples that load, and samples that do not ----

  /** The slots of the sample. */
  ghost predicate SlotsHere(x: Kext, r: Recipe) {
    && x.dysymtab + 80 <= |x.file| && LocCount(x) == |r.locals| && ExtCount(x) == |r.externals|
    && LocRel(x.file, x.dysymtab, LocCount(x)) <= |x.file| && ExtRel(x.file, x.dysymtab, ExtCount(x)) <= |x.file|
    && (forall j :: 0 <= j < LocCount(x) ==> LocSlot(x, j) == Wrap64(r.locals[j] - r.base))
    && (forall j :: 0 <= j < ExtCount(x) ==> ExtSlot(x, j) == Wrap64(r.externals[j] - r.base))
    && (forall j :: 0 <= j < LocCount(x) ==> RelAddress(x.file, LocRel(x.file, x.dysymtab, j)) == r.locals[j])
  }

  lemma SampleSlots(r: Recipe)
    requires Possible(r)
    ensures SlotsHere(SampleKext(r), r) && CmdsEnd(SampleLeft(r)) == 224
  {
    hide SampleOf, RelAddress, RelExtern, RelLength, RelSymbol;
    hide LocRelOff, LocRelCount, ExtRelOff, ExtRelCount, Cmd, CmdSize;
    hide Magic, FileType, CmdCount, SizeOfCmds, SegmentHere, SymtabHere, SymbolsHere;
    SampleReads(r, 0x4100001e);
    var x := SampleKext(r);
    forall j | 0 <= j < LocCount(x)
      ensures LocRel(x.file, x.dysymtab, j) == 269 + 8 * j
    {
    }
    forall j | 0 <= j < ExtCount(x)
      ensures ExtRel(x.file, x.dysymtab, j) == 269 + 8 * |r.locals| + 8 * j
    {
    }
  }

  /** Accepted and allocatable, but the slot is outside the image: at base 0x1000 with a relocation at 0x800. */
  lemma SlotOutside(r: Recipe, chain: seq<SymbolTable>)
    requires Has(r, 0x1000, [0x800], []) && AllReadable(chain)
    ensures var parsed := ParseSpec(Sample(r), chain);
            && parsed.Some? && AllocPasses(parsed.value.vmSize)
            && !LocalsReady(parsed.value, AllocSize(parsed.value.vmSize))
  {
    hide ParseSpec, AllReadable, SampleOf, LocalsReady, Slot, RelAddress, ChainLookup;
    SampleParses(r, chain);
    SampleSlots(r);
    var x := SampleKext(r);
    AcceptedLocals(Sample(r), chain, AllocSize(x.vmSize));
    assert RelAddress(x.file, LocRel(x.file, x.dysymtab, 0)) == 0x800;
  }

  /** At base zero an accepted sample is allocatable and ready. */
  lemma SampleIsReady(r: Recipe, chain: seq<SymbolTable>)
    requires Possible(r) && AllReadable(chain) && r.base == 0 && Relocates(r, chain)
    ensures ParseSpec(Sample(r), chain) == Some(SampleKext(r)) && Ready(SampleKext(r), chain, 0x4000)
    ensures AllocPasses(0x4000) && AllocSize(0x4000) == 0x4000
  {
    hide ParseSpec, AllReadable, SampleOf, Ready, LocalsAtBase, ExternalsAtBase, Relocates;
    SampleParses(r, chain);
    AcceptedIsReady(Sample(r), chain, 0x4000);
  }

  /** What the theorems about the loaded image ask for, a kernel extension has: at base zero, with a local relocation
      at 0x200 and an external one at 0x300, the sample is accepted, allocatable, ready and separate. */
  lemma SampleLoads(r: Recipe, chain: seq<SymbolTable>)
    requires Has(r, 0, [0x200], [0x300]) && AllReadable(chain) && ChainLookup(chain, IMPORT_NAME) != 0
    ensures var x := SampleKext(r);
            && ParseSpec(Sample(r), chain) == Some(x) && AllocPasses(x.vmSize) && AllocSize(x.vmSize) == 0x4000
            && Ready(x, chain, 0x4000) && Separate(x, chain, 0x4000) && LocCount(x) == 1 && ExtCount(x) == 1
  {
    hide ParseSpec, AllReadable, SampleOf, Ready, ChainLookup, Slot, RelAddress, LocRelOff, LocRelCount, ExtRelOff;
    hide ExtRelCount, SizeOfCmds;
    SampleIsReady(r, chain);
    SampleSlots(r);
  }

  /** A chain of one table with one symbol, as the lemma above asks for. */
  lemma OneSymbolChain(base: u64, address: u64)
    requires base + 50 < TWO_64
    ensures var chain := [SymbolTable(base, TableBytes(base, 0, [Sym(0, address)], IMPORT_NAME + [0]))];
            AllReadable(chain) && ChainLookup(chain, IMPORT_NAME) == address
  {
    hide TableBytes, Readable, Count, NameAt, AddressAt, CStr, Terminated, NameOffset, Shaped;
    var es, strings := [Sym(0, address)], IMPORT_NAME + [0];
    var tab := SymbolTable(base, TableBytes(base, 0, es, strings));
    TableSize(tab, 0, es, strings);
    BuiltReadable(tab, 0, es, strings);
    NameOfOne(tab, es, strings);
    assert [tab][1..] == [];
    assert TableLookup(tab, IMPORT_NAME, 0) == Some(address);
  }

  lemma NameOfOne(tab: SymbolTable, es: seq<Sym>, strings: seq<byte>)
    requires |es| == 1 && es[0].off == 0 && strings == IMPORT_NAME + [0] && Readable(tab)
    requires tab.mem == TableBytes(tab.base, 0, es, strings) && tab.base + |tab.mem| < TWO_64
    ensures Count(tab) == 1 && NameAt(tab, 0) == IMPORT_NAME && AddressAt(tab, 0) == es[0].addr
  {
    hide TableBytes, Readable, Count, CStr, Terminated, At;
    BuiltEntry(tab, 0, es, strings, 0);
    BuiltName(tab, 0, es, strings, 0);
    AtWhole(strings);
    CStrIsName(strings, 0, IMPORT_NAME);
  }

  /** So the "kextload" command's own demands can be met, whatever stands behind the sample. */
  lemma SampleIsLoadable(r: Recipe, chain: seq<SymbolTable>)
    requires Has(r, 0, [0x200], [0x300]) && AllReadable(chain) && ChainLookup(chain, IMPORT_NAME) != 0
    ensures Loadable(Sample(r), chain)
  {
    hide ParseSpec, AllReadable, SampleOf, Ready, LocalsAtBase, ExternalsAtBase, Behind, CountersApart, AllocSize;
    hide ChainLookup;
    SampleLoads(r, chain);
    var x := SampleKext(r);
    AcceptedIsReady(Sample(r), chain, 0x4000);
    BehindIsApart(x, chain, 0x4000);
  }

  /** Accepted, allocatable and loadable, but its relocation at 56 is the segment's `vmaddr` field: whenever
      the slide is not zero the loaded image is not the specified one. */
  lemma SlotOnField(r: Recipe, chain: seq<SymbolTable>, k: Kernel, kext: u64, image: seq<byte>)
    requires Has(r, 0, [56], []) && AllReadable(chain) && |image| == 0x4000 && KextSlide(k, kext, 0) != 0
    ensures var x := SampleKext(r);
            && ParseSpec(Sample(r), chain) == Some(x) && AllocPasses(x.vmSize) && AllocSize(x.vmSize) == |image|
            && Ready(x, chain, |image|) && CountersApart(x, chain, |image|)
            && !CommandsDone(x, k, kext, LoadImage(x, k, kext, chain, image))
            && !Loaded(x, chain, k, kext, FileImage(x, image), LoadImage(x, k, kext, chain, image))
  {
    hide ParseSpec, AllReadable, SampleOf, ChainLookup, Slot, RelAddress, LocRelOff, LocRelCount, ExtRelOff, KextSlide;
    hide ExtRelCount, SizeOfCmds, LoadImage, CommandsDone, LocHits, CommandsReady, ExternalsReady, FileImage;
    SampleIsReady(r, chain);
    SampleSlots(r);
    var x := SampleKext(r);
    OneHit(x, 56);
    SlotOnSegment(x, k, kext, chain, image, 0);
  }

  lemma OneHit(x: Kext, s: nat)
    requires x.dysymtab + 80 <= |x.file| && LocRel(x.file, x.dysymtab, LocCount(x)) <= |x.file|
    requires LocCount(x) == 1 && LocSlot(x, 0) == s
    ensures LocHits(x, s) == 1
  {
    hide Slot, LocRelOff, LocRelCount;
    var table: nat := LocRelOff(x.file, x.dysymtab);
    assert Slot(x.file, table + 8 * 0, x.vmBase) == s;
    HitsOfOne(x.file, table, x.vmBase, 1, s, 0);
  }

  /** Accepted, allocatable and loadable, with two relocations at 0x200: the loaded image is the specified one if
      and only if the slide is zero. */
  lemma TwoAtOneAddress(r: Recipe, chain: seq<SymbolTable>, k: Kernel, kext: u64, image: seq<byte>)
    requires Has(r, 0, [0x200, 0x200], []) && AllReadable(chain) && |image| == 0x4000
    ensures var x := SampleKext(r);
            && ParseSpec(Sample(r), chain) == Some(x) && AllocPasses(x.vmSize) && AllocSize(x.vmSize) == |image|
            && Ready(x, chain, |image|) && CountersApart(x, chain, |image|)
            && (Loaded(x, chain, k, kext, FileImage(x, image), LoadImage(x, k, kext, chain, image))
                <==> KextSlide(k, kext, 0) == 0)
  {
    hide ParseSpec, AllReadable, SampleOf, ChainLookup, Slot, RelAddress, LocRelOff, LocRelCount, ExtRelOff, KextSlide;
    hide ExtRelCount, SizeOfCmds, LoadImage, Loaded, LocHits, CommandsReady, ExternalsReady, FileImage;
    SampleIsReady(r, chain);
    SampleSlots(r);
    var x := SampleKext(r);
    assert Behind(x, chain, 0x4000) && Aligned(x, chain, 0x4000);
    BehindIsApart(x, chain, 0x4000);
    TwoHits(x, 0x200);
    LoadedExactly(x, k, kext, chain, image);
    var slide := KextSlide(k, kext, 0);
    assert (LocHits(x, LocSlot(x, 0)) - 1) * slide == slide;
  }

  lemma TwoHits(x: Kext, s: nat)
    requires x.dysymtab + 80 <= |x.file| && LocRel(x.file, x.dysymtab, LocCount(x)) <= |x.file|
    requires LocCount(x) == 2 && LocSlot(x, 0) == s && LocSlot(x, 1) == s
    ensures LocHits(x, s) == 2
  {
    hide Slot, LocRelOff, LocRelCount;
    var table: nat := LocRelOff(x.file, x.dysymtab);
    assert Slot(x.file, table + 8 * 0, x.vmBase) == s && Slot(x.file, table + 8 * 1, x.vmBase) == s;
    HitsOfTwo(x.file, table, x.vmBase, 2, s, 0, 1);
  }

  /** Accepted, allocatable and ready, but its relocation at 204 is the count that the relocation loop still
      reads. */
  lemma SlotOnCounter(r: Recipe, chain: seq<SymbolTable>)
    requires Has(r, 0, [204], []) && AllReadable(chain)
    ensures var x := SampleKext(r);
            && ParseSpec(Sample(r), chain) == Some(x) && AllocPasses(x.vmSize) && AllocSize(x.vmSize) == 0x4000
            && Ready(x, chain, 0x4000) && !CountersApart(x, chain, 0x4000)
  {
    hide ParseSpec, AllReadable, SampleOf, ChainLookup, Slot, RelAddress, LocRelOff, LocRelCount, ExtRelOff;
    hide ExtRelCount, SizeOfCmds, CommandsReady, ExternalsReady;
    SampleIsReady(r, chain);
    SampleSlots(r);
    var x := SampleKext(r);
    assert !Clear(LocSlot(x, 0), x.dysymtab + 76, x.dysymtab + 80);
  }
}
