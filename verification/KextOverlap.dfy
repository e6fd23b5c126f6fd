/** What relocating and linking do where slots coincide or lie on a command field, which no check excludes. */
module KextOverlap {
  import opened Arithmetic
  import opened Machine
  import opened MachO
  import opened KextParse
  import opened KextImage
  import opened KextLoaded
  import opened DeviceSymbols
  import opened Pointers

  // ---- Local relocations ----

  /** How many of the first `n` relocations of the table have the slot `s`. */
  function Hits(f: seq<byte>, table: nat, vmBase: u64, n: nat, s: nat): (h: nat)
    requires table + 8 * n <= |f|
    ensures h <= n
  {
    if n == 0 then 0
    else Hits(f, table, vmBase, n - 1, s) + if Slot(f, table + 8 * (n - 1), vmBase) == s then 1 else 0
  }

  /** Each of the relocations is 8 bytes wide and not external, and its slot is `s` or clear of it. */
  ghost predicate Meets(f: seq<byte>, table: nat, vmBase: u64, n: nat, s: nat, size: nat) {
    && table + 8 * n <= |f| && s + 8 <= size
    && forall j :: 0 <= j < n ==>
         && !RelExtern(f, table + 8 * j) && RelLength(f, table + 8 * j) == 3
         && Slot(f, table + 8 * j, vmBase) + 8 <= size
         && (Slot(f, table + 8 * j, vmBase) == s || Clear(Slot(f, table + 8 * j, vmBase), s, s + 8))
  }

  /** The eight bytes at `s` gain the slide once for each relocation that has them as its slot. */
  lemma {:induction false} RelocateHits(image: seq<byte>, f: seq<byte>, table: nat, vmBase: u64, slide: u64,
                                        n: nat, s: nat)
    requires Meets(f, table, vmBase, n, s, |image|)
    ensures U64At(Relocate(image, f, table, vmBase, slide, n), s)
         == Wrap64(U64At(image, s) + Hits(f, table, vmBase, n, s) * slide)
  {
    hide Splice, LE64, Slot, RelExtern, RelLength, U64At, Wrap64;
    if n == 0 {
      WrapId(U64At(image, s));
    } else {
      RelocateHits(image, f, table, vmBase, slide, n - 1, s);
      var m := Relocate(image, f, table, vmBase, slide, n - 1);
      var last := Slot(f, table + 8 * (n - 1), vmBase);
      var w := LE64(Wrap64(U64At(m, last) + slide));
      if last == s {
        SpliceAt(m, s, w);
        DoubleWordHere(Splice(m, s, w), s, Wrap64(U64At(m, s) + slide));
        var h := Hits(f, table, vmBase, n - 1, s);
        WrapSum(U64At(image, s) + h * slide, slide);
        Distribute(h, 1, slide);
      } else {
        AgreeSplice(m, last, w, s, s + 8);
        AgreeDouble(m, Splice(m, last, w), s);
      }
    }
  }

  /** How many local relocations have the slot `s`. */
  function LocHits(x: Kext, s: nat): nat
    requires x.dysymtab + 80 <= |x.file| && LocRel(x.file, x.dysymtab, LocCount(x)) <= |x.file|
  {
    Hits(x.file, LocRelOff(x.file, x.dysymtab), x.vmBase, LocCount(x), s)
  }

  /** Every local slot is `s` or clear of it, and the counters that relocation sets are clear of it. */
  ghost predicate LocalsMeet(x: Kext, size: nat, s: nat)
    requires LocalsReady(x, size)
  {
    && s + 8 <= size
    && (forall j :: 0 <= j < LocCount(x) ==> LocSlot(x, j) == s || Clear(LocSlot(x, j), s, s + 8))
    && (s + 8 <= x.symtab + 12 || x.symtab + 16 <= s) && (s + 8 <= x.dysymtab + 76 || x.dysymtab + 80 <= s)
  }

  lemma MeetsHere(x: Kext, size: nat, s: nat)
    requires LocalsReady(x, size) && LocalsMeet(x, size, s)
    ensures Meets(x.file, LocRelOff(x.file, x.dysymtab), x.vmBase, LocCount(x), s, size)
  {
    hide Slot, RelExtern, RelLength, Clear;
    var table := LocRelOff(x.file, x.dysymtab);
    forall j | 0 <= j < LocCount(x)
      ensures !RelExtern(x.file, table + 8 * j) && RelLength(x.file, table + 8 * j) == 3
      ensures Slot(x.file, table + 8 * j, x.vmBase) + 8 <= size
      ensures Slot(x.file, table + 8 * j, x.vmBase) == s || Clear(Slot(x.file, table + 8 * j, x.vmBase), s, s + 8)
    {
      LocKind(x, size, j);
      assert LocSlot(x, j) == Slot(x.file, table + 8 * j, x.vmBase);
    }
  }

  lemma RelocatedHits(x: Kext, k: Kernel, kext: u64, m: seq<byte>, s: nat)
    requires x.symtab + 24 <= |m| && x.dysymtab + 80 <= |m| && LocalsReady(x, |m|) && LocalsMeet(x, |m|, s)
    ensures U64At(RelocateImage(x, k, kext, m), s)
         == Wrap64(U64At(m, s) + LocHits(x, s) * KextSlide(k, kext, x.vmBase))
  {
    hide LE32, Splice, Relocate, KextSlide, U64At, Slot, Hits, Clear, Meets, Wrap64, Agree;
    LocSlots(x, |m|);
    MeetsHere(x, |m|, s);
    var table, slide := LocRelOff(x.file, x.dysymtab), KextSlide(k, kext, x.vmBase);
    var r := Relocate(m, x.file, table, x.vmBase, slide, LocCount(x));
    RelocateHits(m, x.file, table, x.vmBase, slide, LocCount(x), s);
    AgreeSelf(r, s, s + 8);
    CountersLeave(x, r, r, s, s + 8);
    AgreeDouble(r, RelocateImage(x, k, kext, m), s);
  }

  lemma SameWrap(a: int, b: int)
    ensures Wrap64(a) == Wrap64(b) <==> Wrap64(a - b) == 0
  {
  }

  /** A slot that `h` relocations have is as specified exactly if the slides beyond the first cancel out. */
  lemma SlotExactly(x: Kext, k: Kernel, kext: u64, m: seq<byte>, j: nat)
    requires x.symtab + 24 <= |m| && x.dysymtab + 80 <= |m| && LocalsReady(x, |m|) && j < LocCount(x)
    requires LocalsMeet(x, |m|, LocSlot(x, j))
    ensures var s, slide := LocSlot(x, j), KextSlide(k, kext, x.vmBase);
            U64At(RelocateImage(x, k, kext, m), s) == Wrap64(U64At(m, s) + slide)
            <==> Wrap64((LocHits(x, s) - 1) * slide) == 0
  {
    hide LocHits, KextSlide, RelocateImage, U64At, Wrap64, Slot, LocalsMeet;
    var s, slide := LocSlot(x, j), KextSlide(k, kext, x.vmBase);
    var h: int := LocHits(x, s);
    RelocatedHits(x, k, kext, m, s);
    SameWrap(U64At(m, s) + h * slide, U64At(m, s) + slide);
    Distribute(h, 1, slide);
  }

  /** Every two local slots are the same or clear of each other, and the counters are clear of them. */
  ghost predicate LocalsAligned(x: Kext, size: nat)
    requires LocalsReady(x, size)
  {
    forall j :: 0 <= j < LocCount(x) ==> LocalsMeet(x, size, LocSlot(x, j))
  }

  /** Relocation does what is specified if and only if at every slot the slides beyond the first cancel out. */
  lemma LocalsDoneExactly(x: Kext, k: Kernel, kext: u64, m: seq<byte>)
    requires x.symtab + 24 <= |m| && x.dysymtab + 80 <= |m| && LocalsReady(x, |m|) && LocalsAligned(x, |m|)
    ensures LocalsDone(x, k, kext, m, RelocateImage(x, k, kext, m)) <==>
            forall j :: 0 <= j < LocCount(x) ==>
              Wrap64((LocHits(x, LocSlot(x, j)) - 1) * KextSlide(k, kext, x.vmBase)) == 0
  {
    hide LocHits, KextSlide, RelocateImage, U64At, Wrap64, Slot, LocalsMeet;
    forall j | 0 <= j < LocCount(x)
      ensures var s, slide := LocSlot(x, j), KextSlide(k, kext, x.vmBase);
              U64At(RelocateImage(x, k, kext, m), s) == Wrap64(U64At(m, s) + slide)
              <==> Wrap64((LocHits(x, s) - 1) * slide) == 0
    {
      SlotExactly(x, k, kext, m, j);
    }
  }

  lemma {:induction false} HitsOfTwo(f: seq<byte>, table: nat, vmBase: u64, n: nat, s: nat, i: nat, j: nat)
    requires table + 8 * n <= |f| && i < j
    requires forall h :: 0 <= h < n ==> (Slot(f, table + 8 * h, vmBase) == s <==> h == i || h == j)
    ensures Hits(f, table, vmBase, n, s) == (if i < n then 1 else 0) + (if j < n then 1 else 0)
  {
    hide Slot;
    if n > 0 {
      HitsOfTwo(f, table, vmBase, n - 1, s, i, j);
      assert Slot(f, table + 8 * (n - 1), vmBase) == s <==> n - 1 == i || n - 1 == j;
    }
  }

  /** Relocations `i` and `j`, and no other, have the slot `s`. */
  ghost predicate OnlyTwo(x: Kext, size: nat, i: nat, j: nat, s: nat)
    requires LocalsReady(x, size)
  {
    i < j < LocCount(x) && forall h :: 0 <= h < LocCount(x) ==> (LocSlot(x, h) == s <==> h == i || h == j)
  }

  /** Two local relocations on one slot: it ends with the slide added twice, so relocation does what is
      specified of the slot if and only if the slide is zero. */
  lemma TwoOnOneSlot(x: Kext, k: Kernel, kext: u64, m: seq<byte>, i: nat, j: nat)
    requires x.symtab + 24 <= |m| && x.dysymtab + 80 <= |m| && LocalsReady(x, |m|) && i < LocCount(x)
    requires OnlyTwo(x, |m|, i, j, LocSlot(x, i)) && LocalsMeet(x, |m|, LocSlot(x, i))
    ensures var s, slide, r := LocSlot(x, i), KextSlide(k, kext, x.vmBase), RelocateImage(x, k, kext, m);
            && U64At(r, s) == Wrap64(U64At(m, s) + 2 * slide)
            && (U64At(r, s) == Wrap64(U64At(m, s) + slide) <==> slide == 0)
            && (slide != 0 ==> !LocalsDone(x, k, kext, m, r))
  {
    hide KextSlide, RelocateImage, U64At, Slot, LocalsMeet, Hits;
    var s, table := LocSlot(x, i), LocRelOff(x.file, x.dysymtab);
    forall h | 0 <= h < LocCount(x)
      ensures Slot(x.file, table + 8 * h, x.vmBase) == s <==> h == i || h == j
    {
      assert LocSlot(x, h) == Slot(x.file, table + 8 * h, x.vmBase);
    }
    HitsOfTwo(x.file, table, x.vmBase, LocCount(x), s, i, j);
    RelocatedHits(x, k, kext, m, s);
    SameWrap(U64At(m, s) + 2 * KextSlide(k, kext, x.vmBase), U64At(m, s) + KextSlide(k, kext, x.vmBase));
  }

  // ---- A slot on a command field ----

  /** Relocating and linking move eight bytes that no external slot and no counter touches. */
  lemma FieldMoves(x: Kext, k: Kernel, kext: u64, chain: seq<SymbolTable>, m: seq<byte>, s: nat)
    requires x.symtab + 24 <= |m| && x.dysymtab + 80 <= |m| && LocalsReady(x, |m|) && ExternalsReady(x, chain, |m|)
    requires LocalsMeet(x, |m|, s) && (s + 8 <= x.dysymtab + 68 || x.dysymtab + 72 <= s)
    requires forall j :: 0 <= j < ExtCount(x) ==> Clear(ExtSlot(x, j), s, s + 8)
    ensures U64At(LinkImage(x, k, chain, RelocateImage(x, k, kext, m)), s)
         == Wrap64(U64At(m, s) + LocHits(x, s) * KextSlide(k, kext, x.vmBase))
  {
    hide RelocateImage, LinkImage, U64At, AllReadable, Target, KextSlide, LocHits, Wrap64, Agree, Clear, Slot;
    hide RelExtern, RelLength, RelSymbol, LinkName, Nlist;
    assert s + 8 <= |m|;
    RelocatedHits(x, k, kext, m, s);
    var r := RelocateImage(x, k, kext, m);
    LinkImageLeaves(x, k, chain, r, s, s + 8);
    AgreeDouble(r, LinkImage(x, k, chain, r), s);
  }

  /** A segment's `vmaddr` field is apart from the counters. */
  lemma SegmentApart(x: Kext, size: nat, i: nat)
    requires CommandsReady(x, size) && i < |x.segs|
    ensures x.symtab + 24 <= size && x.dysymtab + 80 <= size && x.segs[i] + 72 <= |x.file| && x.segs[i] + 72 <= size
    ensures x.segs[i] + 32 <= x.dysymtab + 68 || x.dysymtab + 72 <= x.segs[i] + 24
  {
    hide Placed, Apart;
    assert Placed(x.file, x.segs, x.vmBase, size);
    SegmentInFile(x, size, i);
  }

  lemma SegmentInFile(x: Kext, size: nat, i: nat)
    requires Placed(x.file, x.segs, x.vmBase, size) && i < |x.segs|
    ensures x.segs[i] + 72 <= |x.file|
  {
  }

  /** Local relocations on a segment's `vmaddr` field: it ends off by the slide for each of them, so the load
      does what is specified of the commands only if these slides cancel out. */
  lemma SlotOnSegment(x: Kext, k: Kernel, kext: u64, chain: seq<SymbolTable>, image: seq<byte>, i: nat)
    requires Ready(x, chain, |image|) && i < |x.segs| && CmdsEnd(x.file) <= KmodAddress(x)
    requires LocalsMeet(x, |image|, x.segs[i] + 24)
    requires forall j :: 0 <= j < ExtCount(x) ==> Clear(ExtSlot(x, j), x.segs[i] + 24, x.segs[i] + 32)
    ensures x.segs[i] + 72 <= |x.file| && x.segs[i] + 72 <= |image|
    ensures var after := LoadImage(x, k, kext, chain, image);
            var specified := VmAddr(x.file, x.segs[i]) - x.vmBase + SaForPtr(k, kext);
            var off := LocHits(x, x.segs[i] + 24) * KextSlide(k, kext, x.vmBase);
            && VmAddr(after, x.segs[i]) == Wrap64(specified + off)
            && (VmAddr(after, x.segs[i]) == Wrap64(specified) <==> Wrap64(off) == 0)
            && (Wrap64(off) != 0 ==> !CommandsDone(x, k, kext, after))
  {
    hide MapImage, RelocateImage, LinkImage, U64At, AllReadable, Target, KextSlide, SaForPtr;
    hide LocHits, Wrap64, LocalsMeet;
    hide CommandsReady, Clear, Slot, RelExtern, RelLength, RelSymbol, LinkName, Nlist;
    SegmentApart(x, |image|, i);
    var m := MapImage(x, k, kext, image);
    MapSets(x, k, kext, image);
    FieldMoves(x, k, kext, chain, m, x.segs[i] + 24);
    var specified := VmAddr(x.file, x.segs[i]) - x.vmBase + SaForPtr(k, kext);
    var off := LocHits(x, x.segs[i] + 24) * KextSlide(k, kext, x.vmBase);
    WrapSum(specified, off);
    SameWrap(specified + off, specified);
  }

  // ---- External relocations ----

  /** Every two external slots are the same or clear of each other, and the counter is clear of them. */
  ghost predicate ExternalsAligned(x: Kext, chain: seq<SymbolTable>, size: nat)
    requires ExternalsReady(x, chain, size)
  {
    && (forall i, j :: 0 <= i < ExtCount(x) && 0 <= j < ExtCount(x) ==>
          ExtSlot(x, i) == ExtSlot(x, j) || Clear(ExtSlot(x, i), ExtSlot(x, j), ExtSlot(x, j) + 8))
    && (forall j :: 0 <= j < ExtCount(x) ==> Clear(ExtSlot(x, j), x.dysymtab + 68, x.dysymtab + 72))
  }

  /** External relocations that share a slot resolve to the same address. */
  ghost predicate SharersAgree(x: Kext, chain: seq<SymbolTable>, size: nat)
    requires ExternalsReady(x, chain, size)
  {
    forall i, j :: 0 <= i < ExtCount(x) && 0 <= j < ExtCount(x) && ExtSlot(x, i) == ExtSlot(x, j) ==>
      Target(x, chain, i) == Target(x, chain, j)
  }

  /** The last of the relocations from `j` on that have the slot of `j`. */
  lemma {:induction false} LastOf(x: Kext, chain: seq<SymbolTable>, size: nat, j: nat) returns (last: nat)
    requires ExternalsReady(x, chain, size) && ExternalsAligned(x, chain, size) && j < ExtCount(x)
    ensures j <= last < ExtCount(x) && ExtSlot(x, last) == ExtSlot(x, j) && LastAtSlot(x, chain, size, last)
    decreases ExtCount(x) - j
  {
    hide AllReadable, Target, Slot, RelExtern, RelLength, Clear, LinkName, Nlist, RelSymbol;
    if i :| j < i < ExtCount(x) && ExtSlot(x, i) == ExtSlot(x, j) {
      last := LastOf(x, chain, size, i);
    } else {
      last := j;
    }
  }

  lemma SameTarget(k: Kernel, a: u64, b: u64)
    ensures VaForSa(k, a) == VaForSa(k, b) <==> a == b
  {
    Inverses(k, a);
    Inverses(k, b);
  }

  /** Where relocations share a slot, the one at `j` gets what is specified if and only if the last of them
      resolves to the same address. */
  lemma SharedExactly(x: Kext, k: Kernel, chain: seq<SymbolTable>, m: seq<byte>, j: nat, last: nat)
    requires x.dysymtab + 80 <= |m| && ExternalsReady(x, chain, |m|) && j < ExtCount(x) && last < ExtCount(x)
    requires ExtSlot(x, last) == ExtSlot(x, j) && LastAtSlot(x, chain, |m|, last)
    ensures U64At(LinkImage(x, k, chain, m), ExtSlot(x, j)) == VaForSa(k, Target(x, chain, j))
            <==> Target(x, chain, j) == Target(x, chain, last)
  {
    hide LinkImage, U64At, AllReadable, Linkable, Slot, RelExtern, RelLength, Resolved, VaForSa, LastAtSlot;
    LinkedLast(x, k, chain, m, last);
    SameTarget(k, Target(x, chain, j), Target(x, chain, last));
  }

  /** Linking does what is specified if and only if relocations that share a slot resolve to the same address. */
  lemma ExternalsDoneExactly(x: Kext, k: Kernel, chain: seq<SymbolTable>, m: seq<byte>)
    requires x.dysymtab + 80 <= |m| && ExternalsReady(x, chain, |m|) && ExternalsAligned(x, chain, |m|)
    ensures ExternalsDone(x, chain, k, LinkImage(x, k, chain, m)) <==>
            SharersAgree(x, chain, |m|)
  {
    hide LinkImage, U64At, AllReadable, Slot, RelExtern, RelLength, Resolved, VaForSa, LastAtSlot, Target;
    hide ExternalsAligned, LinkName, Nlist, RelSymbol;
    var after := LinkImage(x, k, chain, m);
    if ExternalsDone(x, chain, k, after) {
      forall i, j | 0 <= i < ExtCount(x) && 0 <= j < ExtCount(x) && ExtSlot(x, i) == ExtSlot(x, j)
        ensures Target(x, chain, i) == Target(x, chain, j)
      {
        SameTarget(k, Target(x, chain, i), Target(x, chain, j));
      }
    }
    if SharersAgree(x, chain, |m|) {
      forall j | 0 <= j < ExtCount(x)
        ensures U64At(after, ExtSlot(x, j)) == VaForSa(k, Target(x, chain, j))
      {
        var last := LastOf(x, chain, |m|, j);
        SharedExactly(x, k, chain, m, j, last);
      }
    }
  }

  // ---- The whole load ----

  /** Slots of one kind are the same or clear of each other, and local and external slots are clear of each
      other. */
  ghost predicate Aligned(x: Kext, chain: seq<SymbolTable>, size: nat)
    requires Ready(x, chain, size)
  {
    && (forall i, j :: 0 <= i < LocCount(x) && 0 <= j < LocCount(x) ==>
          LocSlot(x, i) == LocSlot(x, j) || Clear(LocSlot(x, i), LocSlot(x, j), LocSlot(x, j) + 8))
    && (forall i, j :: 0 <= i < ExtCount(x) && 0 <= j < ExtCount(x) ==>
          ExtSlot(x, i) == ExtSlot(x, j) || Clear(ExtSlot(x, i), ExtSlot(x, j), ExtSlot(x, j) + 8))
    && (forall i, j :: 0 <= i < LocCount(x) && 0 <= j < ExtCount(x) ==>
          Clear(ExtSlot(x, j), LocSlot(x, i), LocSlot(x, i) + 8))
  }

  /** At every local slot the slides beyond the first cancel out. */
  ghost predicate SlidesCancel(x: Kext, size: nat, slide: u64)
    requires LocalsReady(x, size)
  {
    forall j :: 0 <= j < LocCount(x) ==> Wrap64((LocHits(x, LocSlot(x, j)) - 1) * slide) == 0
  }

  /** What linking asks of the slots. */
  lemma AlignedParts(x: Kext, chain: seq<SymbolTable>, size: nat)
    requires Ready(x, chain, size) && Behind(x, chain, size) && Aligned(x, chain, size)
    ensures LocalsReady(x, size) && ExternalsReady(x, chain, size) && CommandsReady(x, size)
    ensures x.symtab + 24 <= size && x.dysymtab + 80 <= size && x.dysymtab + 80 <= |x.file|
    ensures LocalsAligned(x, size) && ExternalsAligned(x, chain, size)
  {
    hide AllReadable, Target, Slot, RelExtern, RelLength, LinkName, Nlist, RelSymbol, Placed, Apart;
  }

  /** What a local slot asks of its surroundings. */
  lemma LocalApart(x: Kext, chain: seq<SymbolTable>, size: nat, j: nat)
    requires Ready(x, chain, size) && Behind(x, chain, size) && Aligned(x, chain, size) && j < LocCount(x)
    ensures LocSlot(x, j) + 8 <= size && ClearOfFields(x, LocSlot(x, j), LocSlot(x, j) + 8)
    ensures LocalsMeet(x, size, LocSlot(x, j)) && x.dysymtab + 72 <= LocSlot(x, j)
    ensures forall i :: 0 <= i < ExtCount(x) ==> Clear(ExtSlot(x, i), LocSlot(x, j), LocSlot(x, j) + 8)
  {
    hide AllReadable, Target, Slot, RelExtern, RelLength, LinkName, Nlist, RelSymbol, Placed, Apart;
  }

  /** In the loaded image, a local slot has gained the slide once for each relocation that names it. */
  lemma LoadedLocal(x: Kext, k: Kernel, kext: u64, chain: seq<SymbolTable>, image: seq<byte>, j: nat)
    requires Ready(x, chain, |image|) && Behind(x, chain, |image|) && Aligned(x, chain, |image|) && j < LocCount(x)
    ensures U64At(LoadImage(x, k, kext, chain, image), LocSlot(x, j))
         == Wrap64(U64At(FileImage(x, image), LocSlot(x, j))
                   + LocHits(x, LocSlot(x, j)) * KextSlide(k, kext, x.vmBase))
  {
    hide FileImage, MapImage, RelocateImage, LinkImage, U64At, KextSlide, LocHits, Wrap64, Agree, Clear, LocalsMeet;
    hide Behind, Aligned, ClearOfFields, AllReadable, Target, Slot, RelExtern, RelLength, LinkName, Nlist, RelSymbol;
    hide Placed, Apart;
    AlignedParts(x, chain, |image|);
    LocalApart(x, chain, |image|, j);
    var s, m := LocSlot(x, j), MapImage(x, k, kext, image);
    MapLeaves(x, k, kext, image, s, s + 8);
    AgreeDouble(FileImage(x, image), m, s);
    FieldMoves(x, k, kext, chain, m, s);
  }

  /** In the loaded image, an external slot holds the slid address of the last relocation that names it. */
  lemma LoadedExternal(x: Kext, k: Kernel, kext: u64, chain: seq<SymbolTable>, image: seq<byte>, j: nat, last: nat)
    requires Ready(x, chain, |image|) && j < ExtCount(x) && last < ExtCount(x) && ExtSlot(x, last) == ExtSlot(x, j)
    requires LastAtSlot(x, chain, |image|, last)
    ensures U64At(LoadImage(x, k, kext, chain, image), ExtSlot(x, j)) == VaForSa(k, Target(x, chain, last))
  {
    hide MapImage, RelocateImage, LinkImage, U64At, AllReadable, Target, VaForSa, LastAtSlot, Slot, Placed, Apart;
    hide RelExtern, RelLength, LinkName, Nlist, RelSymbol;
    LinkedLast(x, k, chain, RelocateImage(x, k, kext, MapImage(x, k, kext, image)), last);
  }

  lemma LocalExactly(x: Kext, k: Kernel, kext: u64, chain: seq<SymbolTable>, image: seq<byte>, j: nat)
    requires Ready(x, chain, |image|) && Behind(x, chain, |image|) && Aligned(x, chain, |image|) && j < LocCount(x)
    ensures var s, slide := LocSlot(x, j), KextSlide(k, kext, x.vmBase);
            U64At(LoadImage(x, k, kext, chain, image), s) == Wrap64(U64At(FileImage(x, image), s) + slide)
            <==> Wrap64((LocHits(x, s) - 1) * slide) == 0
  {
    hide FileImage, LoadImage, U64At, KextSlide, LocHits, Wrap64, Behind, Aligned, ExternalsReady, CommandsReady;
    hide Slot, RelExtern, RelLength;
    LoadedLocal(x, k, kext, chain, image, j);
    var s, slide := LocSlot(x, j), KextSlide(k, kext, x.vmBase);
    var h: int := LocHits(x, s);
    SameWrap(U64At(FileImage(x, image), s) + h * slide, U64At(FileImage(x, image), s) + slide);
    Distribute(h, 1, slide);
  }

  lemma LocalsExactly(x: Kext, k: Kernel, kext: u64, chain: seq<SymbolTable>, image: seq<byte>)
    requires Ready(x, chain, |image|) && Behind(x, chain, |image|) && Aligned(x, chain, |image|)
    ensures LocalsDone(x, k, kext, FileImage(x, image), LoadImage(x, k, kext, chain, image))
            <==> SlidesCancel(x, |image|, KextSlide(k, kext, x.vmBase))
  {
    hide FileImage, LoadImage, U64At, KextSlide, LocHits, Wrap64, Behind, Aligned, ExternalsReady, CommandsReady;
    hide Slot, RelExtern, RelLength;
    forall j | 0 <= j < LocCount(x)
      ensures var s, slide := LocSlot(x, j), KextSlide(k, kext, x.vmBase);
              U64At(LoadImage(x, k, kext, chain, image), s) == Wrap64(U64At(FileImage(x, image), s) + slide)
              <==> Wrap64((LocHits(x, s) - 1) * slide) == 0
    {
      LocalExactly(x, k, kext, chain, image, j);
    }
  }

  lemma ExternalsExactly(x: Kext, k: Kernel, kext: u64, chain: seq<SymbolTable>, image: seq<byte>)
    requires Ready(x, chain, |image|) && Behind(x, chain, |image|) && Aligned(x, chain, |image|)
    ensures ExternalsDone(x, chain, k, LoadImage(x, k, kext, chain, image)) <==> SharersAgree(x, chain, |image|)
  {
    hide MapImage, RelocateImage, LinkImage, Behind, Aligned, ExternalsDone, ExternalsAligned, LocalsAligned;
    hide LocalsReady, ExternalsReady, CommandsReady;
    AlignedParts(x, chain, |image|);
    ExternalsDoneExactly(x, k, chain, RelocateImage(x, k, kext, MapImage(x, k, kext, image)));
  }

  /** The exact condition for the whole load: with the slots behind the load commands and aligned, the image is
      the specified one if and only if at every local slot the slides beyond the first cancel out and external
      relocations that share a slot resolve to the same address. */
  lemma LoadedExactly(x: Kext, k: Kernel, kext: u64, chain: seq<SymbolTable>, image: seq<byte>)
    requires Ready(x, chain, |image|) && Behind(x, chain, |image|) && Aligned(x, chain, |image|)
    ensures HoldsFile(FileImage(x, image), image, x.file, x.segs, x.vmBase)
    ensures Loaded(x, chain, k, kext, FileImage(x, image), LoadImage(x, k, kext, chain, image))
            <==> SlidesCancel(x, |image|, KextSlide(k, kext, x.vmBase)) && SharersAgree(x, chain, |image|)
  {
    hide LoadImage, CommandsDone, LocalsDone, ExternalsDone, HoldsFile, OutsideFields, OutsideSlots, SlidesCancel;
    hide LocalsReady, ExternalsReady, CommandsReady, FileImage, Behind, Aligned, SharersAgree, KextSlide;
    ImageHoldsFile(x, image);
    LocalsExactly(x, k, kext, chain, image);
    ExternalsExactly(x, k, kext, chain, image);
    LoadedCommands(x, k, kext, chain, image);
    forall v | 0 <= v < |image| && OutsideFields(x, v) && OutsideSlots(x, chain, |image|, v)
      ensures LoadImage(x, k, kext, chain, image)[v] == FileImage(x, image)[v]
    {
      LoadedRest(x, k, kext, chain, image, v);
    }
  }

  lemma {:induction false} HitsOfOne(f: seq<byte>, table: nat, vmBase: u64, n: nat, s: nat, i: nat)
    requires table + 8 * n <= |f|
    requires forall h :: 0 <= h < n ==> (Slot(f, table + 8 * h, vmBase) == s <==> h == i)
    ensures Hits(f, table, vmBase, n, s) == if i < n then 1 else 0
  {
    hide Slot;
    if n > 0 {
      HitsOfOne(f, table, vmBase, n - 1, s, i);
      assert Slot(f, table + 8 * (n - 1), vmBase) == s <==> n - 1 == i;
    }
  }

  /** Separate slots meet the condition: no slot is named twice. */
  lemma SeparateMeets(x: Kext, chain: seq<SymbolTable>, size: nat, slide: u64)
    requires Ready(x, chain, size) && Separate(x, chain, size)
    ensures Behind(x, chain, size) && Aligned(x, chain, size)
    ensures SlidesCancel(x, size, slide) && SharersAgree(x, chain, size)
  {
    hide AllReadable, Target, Slot, RelExtern, RelLength, LinkName, Nlist, RelSymbol, Behind, CommandsReady, LocHits;
    forall j | 0 <= j < LocCount(x)
      ensures LocHits(x, LocSlot(x, j)) == 1
    {
      SeparateHits(x, chain, size, j);
    }
  }

  lemma SeparateHits(x: Kext, chain: seq<SymbolTable>, size: nat, j: nat)
    requires Ready(x, chain, size) && Separate(x, chain, size) && j < LocCount(x)
    ensures LocHits(x, LocSlot(x, j)) == 1
  {
    hide AllReadable, Target, Slot, RelExtern, RelLength, LinkName, Nlist, RelSymbol, Behind, CommandsReady, Hits;
    hide ExternalsReady;
    var table, s := LocRelOff(x.file, x.dysymtab), LocSlot(x, j);
    forall h | 0 <= h < LocCount(x)
      ensures Slot(x.file, table + 8 * h, x.vmBase) == s <==> h == j
    {
      assert LocSlot(x, h) == Slot(x.file, table + 8 * h, x.vmBase);
    }
    HitsOfOne(x.file, table, x.vmBase, LocCount(x), s, j);
  }

  /** The image after map, relocate and link is the specified one where the slots are separate: segment bytes at
      their places, every site set to its value, every other byte as the memory was. */
  lemma LoadMeetsSpecification(x: Kext, k: Kernel, kext: u64, chain: seq<SymbolTable>, image: seq<byte>)
    requires Ready(x, chain, |image|) && Separate(x, chain, |image|)
    ensures HoldsFile(FileImage(x, image), image, x.file, x.segs, x.vmBase)
    ensures Loaded(x, chain, k, kext, FileImage(x, image), LoadImage(x, k, kext, chain, image))
  {
    hide *;
    SeparateMeets(x, chain, |image|, KextSlide(k, kext, x.vmBase));
    LoadedExactly(x, k, kext, chain, image);
  }

  /** `Separate` is sufficient, and not necessary: two relocations of one slot violate it, and where they
      resolve alike linking does what is specified all the same. */
  lemma SeparateIsStronger(x: Kext, k: Kernel, chain: seq<SymbolTable>, m: seq<byte>, i: nat, j: nat)
    requires Ready(x, chain, |m|) && ExternalsAligned(x, chain, |m|)
    requires i < j < ExtCount(x) && ExtSlot(x, i) == ExtSlot(x, j)
    requires SharersAgree(x, chain, |m|)
    ensures !Separate(x, chain, |m|) && ExternalsDone(x, chain, k, LinkImage(x, k, chain, m))
  {
    hide LinkImage, U64At, AllReadable, Slot, VaForSa, Target, ExternalsAligned, ExternalsDone, LocalsReady;
    ExternalsDoneExactly(x, k, chain, m);
    assert !Clear(ExtSlot(x, i), ExtSlot(x, j), ExtSlot(x, j) + 8);
  }
}
