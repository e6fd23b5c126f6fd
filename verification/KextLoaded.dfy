/** What the finished image is: a byte-by-byte specification of a loaded kext, and the proof that the
    loader's stages build exactly that. */
module KextLoaded {
  import opened Machine
  import opened MachO
  import opened KextParse
  import opened KextImage
  import opened DeviceSymbols
  import opened Pointers

  // ---- The sites the loader writes ----

  function LocCount(x: Kext): nat
    requires x.dysymtab + 80 <= |x.file|
  {
    LocRelCount(x.file, x.dysymtab)
  }

  function ExtCount(x: Kext): nat
    requires x.dysymtab + 80 <= |x.file|
  {
    ExtRelCount(x.file, x.dysymtab)
  }

  function LocSlot(x: Kext, j: nat): nat
    requires x.dysymtab + 80 <= |x.file| && LocRel(x.file, x.dysymtab, j) + 8 <= |x.file|
  {
    Slot(x.file, LocRel(x.file, x.dysymtab, j), x.vmBase)
  }

  function ExtSlot(x: Kext, j: nat): nat
    requires x.dysymtab + 80 <= |x.file| && ExtRel(x.file, x.dysymtab, j) + 8 <= |x.file|
  {
    Slot(x.file, ExtRel(x.file, x.dysymtab, j), x.vmBase)
  }

  /** The address and size fields of `kmod_info` in the image. */
  function KmodAddress(x: Kext): int { x.kmod - x.vmBase + 156 }

  function KmodSize(x: Kext): int { x.kmod - x.vmBase + 164 }

  /** The commands are inside the file and the image, apart from each other. */
  ghost predicate CommandsReady(x: Kext, size: nat) {
    && |x.file| >= 32 && CmdsEnd(x.file) <= |x.file| && CmdsEnd(x.file) <= size
    && Placed(x.file, x.segs, x.vmBase, size) && Apart(x.file, x.segs)
    && SegsInside(x.segs, CmdsEnd(x.file))
    && x.segs != [] && VmAddr(x.file, x.segs[0]) == x.vmBase && FileOff(x.file, x.segs[0]) == 0
    && FileSize(x.file, x.segs[0]) >= CmdsEnd(x.file)
    && x.symtab + 24 <= CmdsEnd(x.file) && x.dysymtab + 80 <= CmdsEnd(x.file)
    && (forall k :: 0 <= k < |x.segs| ==> x.symtab + 24 <= x.segs[k] || x.segs[k] + 72 <= x.symtab)
    && (forall k :: 0 <= k < |x.segs| ==> x.dysymtab + 80 <= x.segs[k] || x.segs[k] + 72 <= x.dysymtab)
    && (x.symtab + 24 <= x.dysymtab || x.dysymtab + 80 <= x.symtab)
    && x.vmBase <= x.kmod && KmodSize(x) + 8 <= size
  }

  /** The local relocations are inside the file, their slots inside the image. */
  ghost predicate LocalsReady(x: Kext, size: nat) {
    && x.dysymtab + 80 <= |x.file| && LocRel(x.file, x.dysymtab, LocCount(x)) <= |x.file|
    && (forall j :: 0 <= j < LocCount(x) ==>
          && LocSlot(x, j) + 8 <= size
          && !RelExtern(x.file, LocRel(x.file, x.dysymtab, j)) && RelLength(x.file, LocRel(x.file, x.dysymtab, j)) == 3)
  }

  /** The external relocations are inside the file and resolve, their slots are inside the image. */
  ghost predicate ExternalsReady(x: Kext, chain: seq<SymbolTable>, size: nat) {
    && x.dysymtab + 80 <= |x.file| && AllReadable(chain)
    && Linkable(x.file, x.symtab, ExtRelOff(x.file, x.dysymtab), ExtCount(x))
    && (forall j :: 0 <= j < ExtCount(x) ==>
          && ExtSlot(x, j) + 8 <= size
          && RelExtern(x.file, ExtRel(x.file, x.dysymtab, j)) && RelLength(x.file, ExtRel(x.file, x.dysymtab, j)) == 3
          && Target(x, chain, j) != 0)
  }

  /** The address that external relocation `j` resolves to. */
  function Target(x: Kext, chain: seq<SymbolTable>, j: nat): u64
    requires x.dysymtab + 80 <= |x.file| && AllReadable(chain)
    requires Linkable(x.file, x.symtab, ExtRelOff(x.file, x.dysymtab), ExtCount(x)) && j < ExtCount(x)
  {
    assert ExtRel(x.file, x.dysymtab, j) == ExtRelOff(x.file, x.dysymtab) + 8 * j;
    Resolved(x.file, x.symtab, ExtRel(x.file, x.dysymtab, j), chain)
  }

  ghost predicate Ready(x: Kext, chain: seq<SymbolTable>, size: nat) {
    CommandsReady(x, size) && LocalsReady(x, size) && ExternalsReady(x, chain, size)
  }

  /** The slots and the `kmod_info` fields are behind the load commands, and the slots clear of the fields. */
  ghost predicate Behind(x: Kext, chain: seq<SymbolTable>, size: nat)
    requires Ready(x, chain, size)
  {
    var end := CmdsEnd(x.file);
    && end <= KmodAddress(x)
    && (forall j :: 0 <= j < LocCount(x) ==>
          end <= LocSlot(x, j) && Clear(LocSlot(x, j), KmodAddress(x), KmodSize(x) + 8))
    && (forall j :: 0 <= j < ExtCount(x) ==>
          end <= ExtSlot(x, j) && Clear(ExtSlot(x, j), KmodAddress(x), KmodSize(x) + 8))
  }

  /** What makes the loaded image the specified one, and the loader does not check: the slots are behind the load
      commands, and neither they nor the `kmod_info` fields overlap each other. Sufficient, not necessary. */
  ghost predicate Separate(x: Kext, chain: seq<SymbolTable>, size: nat)
    requires Ready(x, chain, size)
  {
    && Behind(x, chain, size)
    && (forall i, j :: 0 <= i < LocCount(x) && 0 <= j < LocCount(x) && i != j ==>
          Clear(LocSlot(x, i), LocSlot(x, j), LocSlot(x, j) + 8))
    && (forall i, j :: 0 <= i < ExtCount(x) && 0 <= j < ExtCount(x) && i != j ==>
          Clear(ExtSlot(x, i), ExtSlot(x, j), ExtSlot(x, j) + 8))
    && (forall i, j :: 0 <= i < LocCount(x) && 0 <= j < ExtCount(x) ==>
          Clear(LocSlot(x, i), ExtSlot(x, j), ExtSlot(x, j) + 8))
  }

  /** The word at `w` is out of reach of the `kmod_info` fields and of the local slots. */
  ghost predicate WordApart(x: Kext, size: nat, w: nat)
    requires LocalsReady(x, size)
  {
    && (w + 4 <= KmodAddress(x) || KmodSize(x) + 8 <= w)
    && forall j :: 0 <= j < LocCount(x) ==> Clear(LocSlot(x, j), w, w + 4)
  }

  /** No store reaches a word that the loader still reads from the mapped commands: the two relocation counts
      and the offset of the strings. */
  ghost predicate CountersApart(x: Kext, chain: seq<SymbolTable>, size: nat)
    requires Ready(x, chain, size)
  {
    && WordApart(x, size, x.dysymtab + 76) && WordApart(x, size, x.dysymtab + 68) && WordApart(x, size, x.symtab + 16)
    && forall j :: 0 <= j < ExtCount(x) ==> Clear(ExtSlot(x, j), x.dysymtab + 68, x.dysymtab + 72)
  }

  lemma BehindIsApart(x: Kext, chain: seq<SymbolTable>, size: nat)
    requires Ready(x, chain, size) && Behind(x, chain, size)
    ensures CountersApart(x, chain, size)
  {
    hide AllReadable, Target, Placed, Apart, Linkable, Slot;
  }

  // ---- The specification of the image ----

  ghost predicate LocalsDone(x: Kext, k: Kernel, kext: u64, m: seq<byte>, after: seq<byte>)
    requires LocalsReady(x, |m|) && |after| == |m|
  {
    forall j :: 0 <= j < LocCount(x) ==>
      U64At(after, LocSlot(x, j)) == Wrap64(U64At(m, LocSlot(x, j)) + KextSlide(k, kext, x.vmBase))
  }

  ghost predicate ExternalsDone(x: Kext, chain: seq<SymbolTable>, k: Kernel, after: seq<byte>)
    requires ExternalsReady(x, chain, |after|)
  {
    forall j :: 0 <= j < ExtCount(x) ==> U64At(after, ExtSlot(x, j)) == VaForSa(k, Target(x, chain, j))
  }

  ghost predicate CommandsDone(x: Kext, k: Kernel, kext: u64, after: seq<byte>)
    requires CommandsReady(x, |after|)
  {
    && (forall i :: 0 <= i < |x.segs| ==>
          VmAddr(after, x.segs[i]) == Wrap64(VmAddr(x.file, x.segs[i]) - x.vmBase + SaForPtr(k, kext)))
    && U64At(after, KmodAddress(x)) == SaForPtr(k, kext) && U64At(after, KmodSize(x)) == x.vmSize
    && U32At(after, x.symtab + 12) == 0 && U32At(after, x.dysymtab + 68) == 0 && U32At(after, x.dysymtab + 76) == 0
  }

  /** Image offset `v` belongs to no command field that the loader sets. */
  ghost predicate OutsideFields(x: Kext, v: nat) {
    && (forall k :: 0 <= k < |x.segs| ==> v + 1 <= x.segs[k] + 24 || x.segs[k] + 32 <= v)
    && (v + 1 <= KmodAddress(x) || KmodSize(x) + 8 <= v)
    && (v + 1 <= x.symtab + 12 || x.symtab + 16 <= v)
    && (v + 1 <= x.dysymtab + 68 || x.dysymtab + 72 <= v)
    && (v + 1 <= x.dysymtab + 76 || x.dysymtab + 80 <= v)
  }

  /** Image offset `v` belongs to no slot. */
  ghost predicate OutsideSlots(x: Kext, chain: seq<SymbolTable>, size: nat, v: nat)
    requires LocalsReady(x, size) && ExternalsReady(x, chain, size)
  {
    && (forall j :: 0 <= j < LocCount(x) ==> Clear(LocSlot(x, j), v, v + 1))
    && (forall j :: 0 <= j < ExtCount(x) ==> Clear(ExtSlot(x, j), v, v + 1))
  }

  /** The loaded image, byte by byte, relative to `m`, the file's segments at their places: each local
      slot plus the slide, each external slot the slid address of its symbol, the segment addresses,
      the two `kmod_info` fields and the three zeroed counters set, and every other byte unchanged. */
  ghost predicate Loaded(x: Kext, chain: seq<SymbolTable>, k: Kernel, kext: u64, m: seq<byte>, after: seq<byte>)
    requires Ready(x, chain, |m|)
  {
    && |after| == |m|
    && LocalsDone(x, k, kext, m, after) && ExternalsDone(x, chain, k, after) && CommandsDone(x, k, kext, after)
    && (forall v :: 0 <= v < |m| && OutsideFields(x, v) && OutsideSlots(x, chain, |m|, v) ==> after[v] == m[v])
  }

  // ---- The stages ----

  /** The memory after the segments are copied. */
  function FileImage(x: Kext, image: seq<byte>): (r: seq<byte>)
    requires CommandsReady(x, |image|)
    ensures |r| == |image|
  {
    Copy(image, x.file, x.segs, x.vmBase, |x.segs|)
  }

  /** The memory after `kext_map`. */
  function MapImage(x: Kext, k: Kernel, kext: u64, image: seq<byte>): (r: seq<byte>)
    requires CommandsReady(x, |image|)
    ensures |r| == |image|
  {
    var sa := SaForPtr(k, kext);
    var m := Patch(FileImage(x, image), x.segs, x.vmBase, sa, |x.segs|);
    Splice(Splice(m, KmodAddress(x), LE64(sa)), KmodSize(x), LE64(x.vmSize))
  }

  lemma LocSlots(x: Kext, size: nat)
    requires LocalsReady(x, size)
    ensures forall j :: 0 <= j < LocCount(x) ==>
              Slot(x.file, LocRelOff(x.file, x.dysymtab) + 8 * j, x.vmBase) + 8 <= size
  {
    forall j | 0 <= j < LocCount(x)
      ensures Slot(x.file, LocRelOff(x.file, x.dysymtab) + 8 * j, x.vmBase) + 8 <= size
    {
      assert LocSlot(x, j) + 8 <= size;
    }
  }

  lemma ExtSlots(x: Kext, chain: seq<SymbolTable>, size: nat)
    requires ExternalsReady(x, chain, size)
    ensures forall j :: 0 <= j < ExtCount(x) ==>
              Slot(x.file, ExtRelOff(x.file, x.dysymtab) + 8 * j, x.vmBase) + 8 <= size
  {
    forall j | 0 <= j < ExtCount(x)
      ensures Slot(x.file, ExtRelOff(x.file, x.dysymtab) + 8 * j, x.vmBase) + 8 <= size
    {
      assert ExtSlot(x, j) + 8 <= size;
    }
  }

  /** The memory after `kext_relocate`. */
  function RelocateImage(x: Kext, k: Kernel, kext: u64, m: seq<byte>): (r: seq<byte>)
    requires x.symtab + 24 <= |m| && x.dysymtab + 80 <= |m| && x.dysymtab + 80 <= |x.file|
    requires LocalsReady(x, |m|)
    ensures |r| == |m|
  {
    LocSlots(x, |m|);
    var r := Relocate(m, x.file, LocRelOff(x.file, x.dysymtab), x.vmBase, KextSlide(k, kext, x.vmBase), LocCount(x));
    Splice(Splice(r, x.dysymtab + 76, LE32(0)), x.symtab + 12, LE32(0))
  }

  /** The memory after `kext_link`. */
  function LinkImage(x: Kext, k: Kernel, chain: seq<SymbolTable>, m: seq<byte>): (r: seq<byte>)
    requires x.dysymtab + 80 <= |m| && ExternalsReady(x, chain, |m|)
    ensures |r| == |m|
  {
    ExtSlots(x, chain, |m|);
    var r := Link(m, x.file, x.symtab, ExtRelOff(x.file, x.dysymtab), x.vmBase, k, chain, ExtCount(x));
    Splice(r, x.dysymtab + 68, LE32(0))
  }

  // ---- What each stage leaves ----

  ghost predicate ClearOfFields(x: Kext, a: nat, b: nat) {
    && (forall i :: 0 <= i < |x.segs| ==> b <= x.segs[i] + 24 || x.segs[i] + 32 <= a)
    && (b <= KmodAddress(x) || KmodSize(x) + 8 <= a)
  }

  lemma MapLeaves(x: Kext, k: Kernel, kext: u64, image: seq<byte>, a: nat, b: nat)
    requires CommandsReady(x, |image|) && a <= b <= |image| && ClearOfFields(x, a, b)
    ensures Agree(FileImage(x, image), MapImage(x, k, kext, image), a, b)
  {
    hide Agree, LE64, Splice, FileImage, Patch, Placed, Apart;
    var m, sa := FileImage(x, image), SaForPtr(k, kext);
    var p := Patch(m, x.segs, x.vmBase, sa, |x.segs|);
    PatchLeaves(m, x.segs, x.vmBase, sa, |x.segs|, a, b);
    var q := Splice(p, KmodAddress(x), LE64(sa));
    AgreeSplice(p, KmodAddress(x), LE64(sa), a, b);
    AgreeSplice(q, KmodSize(x), LE64(x.vmSize), a, b);
    AgreeTrans(m, p, q, a, b);
    AgreeTrans(m, q, MapImage(x, k, kext, image), a, b);
  }

  lemma RelocateImageLeaves(x: Kext, k: Kernel, kext: u64, m: seq<byte>, a: nat, b: nat)
    requires x.symtab + 24 <= |m| && x.dysymtab + 80 <= |m| && LocalsReady(x, |m|) && a <= b <= |m|
    requires forall j :: 0 <= j < LocCount(x) ==> Clear(LocSlot(x, j), a, b)
    requires (b <= x.symtab + 12 || x.symtab + 16 <= a) && (b <= x.dysymtab + 76 || x.dysymtab + 80 <= a)
    ensures Agree(m, RelocateImage(x, k, kext, m), a, b)
  {
    hide Agree, LE32, Splice, Relocate, KextSlide;
    LocSlots(x, |m|);
    var table, slide := LocRelOff(x.file, x.dysymtab), KextSlide(k, kext, x.vmBase);
    forall j | 0 <= j < LocCount(x)
      ensures Clear(Slot(x.file, table + 8 * j, x.vmBase), a, b)
    {
      assert Clear(LocSlot(x, j), a, b);
    }
    var r := Relocate(m, x.file, table, x.vmBase, slide, LocCount(x));
    RelocateLeaves(m, x.file, table, x.vmBase, slide, LocCount(x), a, b);
    CountersLeave(x, m, r, a, b);
  }

  lemma CountersLeave(x: Kext, m: seq<byte>, r: seq<byte>, a: nat, b: nat)
    requires x.symtab + 24 <= |r| && x.dysymtab + 80 <= |r| && a <= b <= |r| && Agree(m, r, a, b)
    requires (b <= x.symtab + 12 || x.symtab + 16 <= a) && (b <= x.dysymtab + 76 || x.dysymtab + 80 <= a)
    ensures Agree(m, Splice(Splice(r, x.dysymtab + 76, LE32(0)), x.symtab + 12, LE32(0)), a, b)
  {
    hide Agree, LE32, Splice;
    var q := Splice(r, x.dysymtab + 76, LE32(0));
    AgreeSplice(r, x.dysymtab + 76, LE32(0), a, b);
    AgreeSplice(q, x.symtab + 12, LE32(0), a, b);
    AgreeTrans(m, r, q, a, b);
    AgreeTrans(m, q, Splice(q, x.symtab + 12, LE32(0)), a, b);
  }

  lemma LinkImageLeaves(x: Kext, k: Kernel, chain: seq<SymbolTable>, m: seq<byte>, a: nat, b: nat)
    requires x.dysymtab + 80 <= |m| && ExternalsReady(x, chain, |m|) && a <= b <= |m|
    requires forall j :: 0 <= j < ExtCount(x) ==> Clear(ExtSlot(x, j), a, b)
    requires b <= x.dysymtab + 68 || x.dysymtab + 72 <= a
    ensures Agree(m, LinkImage(x, k, chain, m), a, b)
  {
    hide Agree, LE32, Splice, Link, Target, AllReadable;
    ExtSlots(x, chain, |m|);
    var table := ExtRelOff(x.file, x.dysymtab);
    forall j | 0 <= j < ExtCount(x)
      ensures Clear(Slot(x.file, table + 8 * j, x.vmBase), a, b)
    {
      assert Clear(ExtSlot(x, j), a, b);
    }
    var r := Link(m, x.file, x.symtab, table, x.vmBase, k, chain, ExtCount(x));
    LinkLeaves(m, x.file, x.symtab, table, x.vmBase, k, chain, ExtCount(x), a, b);
    AgreeSplice(r, x.dysymtab + 68, LE32(0), a, b);
    AgreeTrans(m, r, Splice(r, x.dysymtab + 68, LE32(0)), a, b);
  }

  // ---- What each stage sets ----

  /** The mapped header and load commands are those of the file. */
  lemma HeaderMapped(x: Kext, image: seq<byte>)
    requires CommandsReady(x, |image|)
    ensures Agree(x.file, FileImage(x, image), 0, CmdsEnd(x.file))
  {
    hide VmAddr, FileOff, FileSize, Copy;
    CopyPlaces(image, x.file, x.segs, x.vmBase, |x.segs|, 0);
    var bytes := FileBytes(x.file, x.segs[0]);
    AtIndex(FileImage(x, image), 0, bytes);
    assert forall i :: 0 <= i < |bytes| ==> bytes[i] == x.file[i];
  }

  lemma MapSets(x: Kext, k: Kernel, kext: u64, image: seq<byte>)
    requires CommandsReady(x, |image|) && CmdsEnd(x.file) <= KmodAddress(x)
    ensures var r := MapImage(x, k, kext, image);
            && U64At(r, KmodAddress(x)) == SaForPtr(k, kext) && U64At(r, KmodSize(x)) == x.vmSize
            && forall i :: 0 <= i < |x.segs| ==>
                 VmAddr(r, x.segs[i]) == Wrap64(VmAddr(x.file, x.segs[i]) - x.vmBase + SaForPtr(k, kext))
  {
    hide Agree, LE64, Splice, FileImage, Patch, Placed, Apart, U64At;
    var m, sa := FileImage(x, image), SaForPtr(k, kext);
    var p := Patch(m, x.segs, x.vmBase, sa, |x.segs|);
    var q := Splice(p, KmodAddress(x), LE64(sa));
    var r := Splice(q, KmodSize(x), LE64(x.vmSize));
    SpliceAt(p, KmodAddress(x), LE64(sa));
    SpliceKeeps(q, KmodSize(x), LE64(x.vmSize), KmodAddress(x), LE64(sa));
    DoubleWordHere(r, KmodAddress(x), sa);
    SpliceAt(q, KmodSize(x), LE64(x.vmSize));
    DoubleWordHere(r, KmodSize(x), x.vmSize);
    forall i | 0 <= i < |x.segs|
      ensures VmAddr(r, x.segs[i]) == Wrap64(VmAddr(x.file, x.segs[i]) - x.vmBase + sa)
    {
      PatchSets(m, x.segs, x.vmBase, sa, |x.segs|, i);
      MappedAddress(x, image, i);
      AgreeSplice(p, KmodAddress(x), LE64(sa), x.segs[i] + 24, x.segs[i] + 32);
      AgreeDouble(p, q, x.segs[i] + 24);
      AgreeSplice(q, KmodSize(x), LE64(x.vmSize), x.segs[i] + 24, x.segs[i] + 32);
      AgreeDouble(q, r, x.segs[i] + 24);
    }
  }

  lemma MappedAddress(x: Kext, image: seq<byte>, i: nat)
    requires CommandsReady(x, |image|) && i < |x.segs|
    ensures VmAddr(FileImage(x, image), x.segs[i]) == VmAddr(x.file, x.segs[i])
  {
    hide FileImage, U64At, Placed, Apart;
    HeaderMapped(x, image);
    AgreeDouble(x.file, FileImage(x, image), x.segs[i] + 24);
  }

  lemma LocKind(x: Kext, size: nat, j: nat)
    requires LocalsReady(x, size) && j < LocCount(x)
    ensures var lr := LocRelOff(x.file, x.dysymtab) + 8 * j;
            lr + 8 <= |x.file| && !RelExtern(x.file, lr) && RelLength(x.file, lr) == 3
  {
    assert LocRel(x.file, x.dysymtab, j) == LocRelOff(x.file, x.dysymtab) + 8 * j;
  }

  /** Every later external slot is clear of slot `j`, and so is the counter that linking sets. */
  ghost predicate LastAtSlot(x: Kext, chain: seq<SymbolTable>, size: nat, j: nat)
    requires ExternalsReady(x, chain, size) && j < ExtCount(x)
  {
    && (forall i :: j < i < ExtCount(x) ==> Clear(ExtSlot(x, i), ExtSlot(x, j), ExtSlot(x, j) + 8))
    && Clear(ExtSlot(x, j), x.dysymtab + 68, x.dysymtab + 72)
  }

  lemma LaterClear(x: Kext, chain: seq<SymbolTable>, size: nat, j: nat)
    requires ExternalsReady(x, chain, size) && j < ExtCount(x) && LastAtSlot(x, chain, size, j)
    ensures var table, s := ExtRelOff(x.file, x.dysymtab), ExtSlot(x, j);
            table + 8 * j + 8 <= table + 8 * ExtCount(x) <= |x.file| && Slot(x.file, table + 8 * j, x.vmBase) == s
            && SlotsClear(x.file, table, x.vmBase, j + 1, ExtCount(x), s, s + 8)
  {
    hide Slot, RelExtern, RelLength, RelSymbol, AllReadable, Target, Clear, LinkName, Nlist, ExtRelOff, ExtRelCount;
    var table, s := ExtRelOff(x.file, x.dysymtab), ExtSlot(x, j);
    forall i | j < i < ExtCount(x)
      ensures Clear(Slot(x.file, table + 8 * i, x.vmBase), s, s + 8)
    {
      assert Clear(ExtSlot(x, i), s, s + 8);
    }
  }

  lemma SlotsFitHere(x: Kext, chain: seq<SymbolTable>, size: nat)
    requires ExternalsReady(x, chain, size)
    ensures SlotsFit(x.file, ExtRelOff(x.file, x.dysymtab), x.vmBase, ExtCount(x), size)
  {
    hide Slot, RelExtern, RelLength, RelSymbol, AllReadable, Target, LinkName, Nlist;
    ExtSlots(x, chain, size);
  }

  /** The last relocation of a slot decides what it holds. */
  lemma LinkedLast(x: Kext, k: Kernel, chain: seq<SymbolTable>, m: seq<byte>, j: nat)
    requires x.dysymtab + 80 <= |m| && ExternalsReady(x, chain, |m|) && j < ExtCount(x) && LastAtSlot(x, chain, |m|, j)
    ensures U64At(LinkImage(x, k, chain, m), ExtSlot(x, j)) == VaForSa(k, Target(x, chain, j))
  {
    hide Agree, LE32, Splice, Link, U64At, RelExtern, RelLength, AllReadable, Resolved, VaForSa, Slot, SlotsFit;
    hide SlotsClear, RelSymbol, LinkName, Nlist;
    SlotsFitHere(x, chain, |m|);
    LaterClear(x, chain, |m|, j);
    ExtKind(x, chain, |m|, j);
    var table, s := ExtRelOff(x.file, x.dysymtab), ExtSlot(x, j);
    LinkLast(m, x.file, x.symtab, table, x.vmBase, k, chain, ExtCount(x), j);
    CounterLeaves(Link(m, x.file, x.symtab, table, x.vmBase, k, chain, ExtCount(x)), x.dysymtab + 68, s);
  }

  lemma CounterLeaves(m: seq<byte>, o: nat, s: nat)
    requires o + 4 <= |m| && s + 8 <= |m| && Clear(s, o, o + 4)
    ensures U64At(Splice(m, o, LE32(0)), s) == U64At(m, s)
  {
    hide Agree, LE32, Splice, U64At;
    AgreeSplice(m, o, LE32(0), s, s + 8);
    AgreeDouble(m, Splice(m, o, LE32(0)), s);
  }

  lemma ExtKind(x: Kext, chain: seq<SymbolTable>, size: nat, j: nat)
    requires ExternalsReady(x, chain, size) && j < ExtCount(x)
    ensures var er := ExtRelOff(x.file, x.dysymtab) + 8 * j;
            && er + 8 <= |x.file| && RelExtern(x.file, er) && RelLength(x.file, er) == 3
            && Resolved(x.file, x.symtab, er, chain) == Target(x, chain, j) != 0
  {
    hide Resolved, AllReadable;
    assert ExtRel(x.file, x.dysymtab, j) == ExtRelOff(x.file, x.dysymtab) + 8 * j;
  }

  lemma CountersSet(x: Kext, k: Kernel, kext: u64, m: seq<byte>)
    requires x.symtab + 24 <= |m| && x.dysymtab + 80 <= |m| && LocalsReady(x, |m|)
    requires x.symtab + 24 <= x.dysymtab || x.dysymtab + 80 <= x.symtab
    ensures var r := RelocateImage(x, k, kext, m); U32At(r, x.symtab + 12) == 0 && U32At(r, x.dysymtab + 76) == 0
  {
    hide LE32, Splice, At, Relocate, KextSlide, U32At;
    LocSlots(x, |m|);
    var r := Relocate(m, x.file, LocRelOff(x.file, x.dysymtab), x.vmBase, KextSlide(k, kext, x.vmBase), LocCount(x));
    var q := Splice(r, x.dysymtab + 76, LE32(0));
    SpliceAt(r, x.dysymtab + 76, LE32(0));
    SpliceKeeps(q, x.symtab + 12, LE32(0), x.dysymtab + 76, LE32(0));
    SpliceAt(q, x.symtab + 12, LE32(0));
    WordHere(Splice(q, x.symtab + 12, LE32(0)), x.dysymtab + 76, 0);
    WordHere(Splice(q, x.symtab + 12, LE32(0)), x.symtab + 12, 0);
  }

  lemma ExtCounterSet(x: Kext, k: Kernel, chain: seq<SymbolTable>, m: seq<byte>)
    requires x.dysymtab + 80 <= |m| && ExternalsReady(x, chain, |m|)
    ensures U32At(LinkImage(x, k, chain, m), x.dysymtab + 68) == 0
  {
    hide LE32, Splice, At, Link, U32At, AllReadable;
    ExtSlots(x, chain, |m|);
    var r := Link(m, x.file, x.symtab, ExtRelOff(x.file, x.dysymtab), x.vmBase, k, chain, ExtCount(x));
    SpliceAt(r, x.dysymtab + 68, LE32(0));
    WordHere(Splice(r, x.dysymtab + 68, LE32(0)), x.dysymtab + 68, 0);
  }

  // ---- The whole load ----

  /** The memory after mapping, relocating and linking. */
  function LoadImage(x: Kext, k: Kernel, kext: u64, chain: seq<SymbolTable>, image: seq<byte>): (r: seq<byte>)
    requires Ready(x, chain, |image|)
    ensures |r| == |image|
  {
    LinkImage(x, k, chain, RelocateImage(x, k, kext, MapImage(x, k, kext, image)))
  }

  /** Command fields and the `kmod_info` fields are out of reach of the later stages. */
  lemma FieldStays(x: Kext, k: Kernel, kext: u64, chain: seq<SymbolTable>, image: seq<byte>, a: nat, b: nat)
    requires Ready(x, chain, |image|) && Behind(x, chain, |image|) && a <= b <= |image|
    requires b <= CmdsEnd(x.file) || (KmodAddress(x) <= a && b <= KmodSize(x) + 8)
    requires b <= x.symtab + 12 || x.symtab + 16 <= a
    requires b <= x.dysymtab + 68 || x.dysymtab + 72 <= a
    requires b <= x.dysymtab + 76 || x.dysymtab + 80 <= a
    ensures Agree(MapImage(x, k, kext, image), LoadImage(x, k, kext, chain, image), a, b)
  {
    hide FileImage, MapImage, RelocateImage, LinkImage, Agree, AllReadable, Target, Placed, Apart;
    var m := MapImage(x, k, kext, image);
    var r := RelocateImage(x, k, kext, m);
    forall j | 0 <= j < LocCount(x)
      ensures Clear(LocSlot(x, j), a, b)
    {
    }
    forall j | 0 <= j < ExtCount(x)
      ensures Clear(ExtSlot(x, j), a, b)
    {
    }
    RelocateImageLeaves(x, k, kext, m, a, b);
    LinkImageLeaves(x, k, chain, r, a, b);
    AgreeTrans(m, r, LinkImage(x, k, chain, r), a, b);
  }

  lemma LoadedCommands(x: Kext, k: Kernel, kext: u64, chain: seq<SymbolTable>, image: seq<byte>)
    requires Ready(x, chain, |image|) && Behind(x, chain, |image|)
    ensures CommandsDone(x, k, kext, LoadImage(x, k, kext, chain, image))
  {
    hide FileImage, MapImage, RelocateImage, LinkImage, LoadImage, U64At, U32At, Agree, AllReadable, Target;
    hide Placed, Apart, Linkable, LocalsReady, ExternalsReady, Behind;
    var m, after := MapImage(x, k, kext, image), LoadImage(x, k, kext, chain, image);
    KmodBehind(x, chain, |image|);
    MapSets(x, k, kext, image);
    FieldStays(x, k, kext, chain, image, KmodAddress(x), KmodAddress(x) + 8);
    AgreeDouble(m, after, KmodAddress(x));
    FieldStays(x, k, kext, chain, image, KmodSize(x), KmodSize(x) + 8);
    AgreeDouble(m, after, KmodSize(x));
    forall i | 0 <= i < |x.segs|
      ensures VmAddr(after, x.segs[i]) == VmAddr(m, x.segs[i])
    {
      FieldStays(x, k, kext, chain, image, x.segs[i] + 24, x.segs[i] + 32);
      AgreeDouble(m, after, x.segs[i] + 24);
    }
    CountersZero(x, k, kext, chain, image);
  }

  lemma KmodBehind(x: Kext, chain: seq<SymbolTable>, size: nat)
    requires Ready(x, chain, size) && Behind(x, chain, size)
    ensures CmdsEnd(x.file) <= KmodAddress(x)
  {
  }

  lemma CountersZero(x: Kext, k: Kernel, kext: u64, chain: seq<SymbolTable>, image: seq<byte>)
    requires Ready(x, chain, |image|) && Behind(x, chain, |image|)
    ensures var after := LoadImage(x, k, kext, chain, image);
            U32At(after, x.symtab + 12) == 0 && U32At(after, x.dysymtab + 68) == 0 && U32At(after, x.dysymtab + 76) == 0
  {
    hide FileImage, MapImage, RelocateImage, LinkImage, U32At, Agree, AllReadable, Target, Placed, Apart, Linkable;
    var m := MapImage(x, k, kext, image);
    var r := RelocateImage(x, k, kext, m);
    CountersSet(x, k, kext, m);
    ExtCounterSet(x, k, chain, r);
    LinkImageLeaves(x, k, chain, r, x.symtab + 12, x.symtab + 16);
    AgreeWord(r, LinkImage(x, k, chain, r), x.symtab + 12);
    LinkImageLeaves(x, k, chain, r, x.dysymtab + 76, x.dysymtab + 80);
    AgreeWord(r, LinkImage(x, k, chain, r), x.dysymtab + 76);
  }

  /** In the loaded image, counted from its start, `kmod_info` has the kext's static address behind its link,
      version, identifier, two names of 64 bytes, and reference count and list, and the kext's size behind that. */
  lemma LoadedKmod(x: Kext, k: Kernel, kext: u64, chain: seq<SymbolTable>, image: seq<byte>)
    requires Ready(x, chain, |image|) && Behind(x, chain, |image|)
    ensures var after, o := LoadImage(x, k, kext, chain, image), x.kmod - x.vmBase + 8 + 4 + 4 + 64 + 64 + 4 + 8;
            U64At(after, o) == SaForPtr(k, kext) && U64At(after, o + 8) == x.vmSize
  {
    hide FileImage, MapImage, RelocateImage, LinkImage, LoadImage, U64At, U32At, AllReadable, Target, Behind;
    hide Placed, Apart, Linkable, LocalsReady, ExternalsReady;
    LoadedCommands(x, k, kext, chain, image);
  }

  lemma LoadedRest(x: Kext, k: Kernel, kext: u64, chain: seq<SymbolTable>, image: seq<byte>, v: nat)
    requires Ready(x, chain, |image|) && v < |image|
    requires OutsideFields(x, v) && OutsideSlots(x, chain, |image|, v)
    ensures LoadImage(x, k, kext, chain, image)[v] == FileImage(x, image)[v]
  {
    hide FileImage, MapImage, RelocateImage, LinkImage, AllReadable, Target, Placed, Apart, Linkable;
    var m := MapImage(x, k, kext, image);
    var r := RelocateImage(x, k, kext, m);
    MapLeaves(x, k, kext, image, v, v + 1);
    RelocateImageLeaves(x, k, kext, m, v, v + 1);
    LinkImageLeaves(x, k, chain, r, v, v + 1);
  }

  lemma ImageHoldsFile(x: Kext, image: seq<byte>)
    requires CommandsReady(x, |image|)
    ensures HoldsFile(FileImage(x, image), image, x.file, x.segs, x.vmBase)
  {
    hide HoldsFile, Copy;
    CopyHoldsFile(image, x.file, x.segs, x.vmBase);
  }

  // ---- The specification determines the image ----

  lemma SameDouble(a: seq<byte>, b: seq<byte>, o: nat, v: nat)
    requires o + 8 <= |a| && o + 8 <= |b| && U64At(a, o) == U64At(b, o) && o <= v < o + 8
    ensures a[v] == b[v]
  {
    ToLEFromLE(a[o..o + 8]);
    ToLEFromLE(b[o..o + 8]);
    assert a[o..o + 8][v - o] == b[o..o + 8][v - o];
  }

  lemma SameWord(a: seq<byte>, b: seq<byte>, o: nat, v: nat)
    requires o + 4 <= |a| && o + 4 <= |b| && U32At(a, o) == U32At(b, o) && o <= v < o + 4
    ensures a[v] == b[v]
  {
    ToLEFromLE(a[o..o + 4]);
    ToLEFromLE(b[o..o + 4]);
    assert a[o..o + 4][v - o] == b[o..o + 4][v - o];
  }

  /** No byte is left open: two images that meet the specification are equal. */
  lemma LoadedIsUnique(x: Kext, chain: seq<SymbolTable>, k: Kernel, kext: u64, m: seq<byte>, a: seq<byte>, b: seq<byte>)
    requires Ready(x, chain, |m|) && Loaded(x, chain, k, kext, m, a) && Loaded(x, chain, k, kext, m, b)
    ensures a == b
  {
    forall v | 0 <= v < |m|
      ensures a[v] == b[v]
    {
      LoadedByte(x, chain, k, kext, m, a, b, v);
    }
  }

  lemma LoadedByte(x: Kext, chain: seq<SymbolTable>, k: Kernel, kext: u64, m: seq<byte>, a: seq<byte>,
      b: seq<byte>, v: nat)
    requires Ready(x, chain, |m|) && Loaded(x, chain, k, kext, m, a) && Loaded(x, chain, k, kext, m, b) && v < |m|
    ensures a[v] == b[v]
  {
    hide U64At, U32At, KextSlide, VaForSa, SaForPtr, Target, AllReadable, Placed, Apart, LinkName;
    if j :| 0 <= j < LocCount(x) && !Clear(LocSlot(x, j), v, v + 1) {
      SameDouble(a, b, LocSlot(x, j), v);
    } else if j :| 0 <= j < ExtCount(x) && !Clear(ExtSlot(x, j), v, v + 1) {
      SameDouble(a, b, ExtSlot(x, j), v);
    } else if !OutsideFields(x, v) {
      FieldByte(x, k, kext, a, b, v);
    }
  }

  lemma FieldByte(x: Kext, k: Kernel, kext: u64, a: seq<byte>, b: seq<byte>, v: nat)
    requires CommandsReady(x, |a|) && |a| == |b| && v < |a| && !OutsideFields(x, v)
    requires CommandsDone(x, k, kext, a) && CommandsDone(x, k, kext, b)
    ensures a[v] == b[v]
  {
    hide U64At, U32At, SaForPtr, Placed, Apart;
    if i :| 0 <= i < |x.segs| && x.segs[i] + 24 <= v < x.segs[i] + 32 {
      SameDouble(a, b, x.segs[i] + 24, v);
    } else if KmodAddress(x) <= v < KmodSize(x) {
      SameDouble(a, b, KmodAddress(x), v);
    } else if KmodSize(x) <= v < KmodSize(x) + 8 {
      SameDouble(a, b, KmodSize(x), v);
    } else if x.symtab + 12 <= v < x.symtab + 16 {
      SameWord(a, b, x.symtab + 12, v);
    } else if x.dysymtab + 68 <= v < x.dysymtab + 72 {
      SameWord(a, b, x.dysymtab + 68, v);
    } else {
      SameWord(a, b, x.dysymtab + 76, v);
    }
  }

  // ---- The meaning of relocated pointers ----

  /** A local slot that held the address `t` of a byte of segment `i` leads, after relocation, to the place
      in the image where the segment's byte for `t` was copied. */
  lemma RelocatedSlotLeads(x: Kext, chain: seq<SymbolTable>, k: Kernel, kext: u64, image: seq<byte>, after: seq<byte>,
                           j: nat, i: nat)
    requires CommandsReady(x, |image|) && Ready(x, chain, |image|)
    requires Loaded(x, chain, k, kext, FileImage(x, image), after) && j < LocCount(x) && i < |x.segs|
    requires var t := U64At(FileImage(x, image), LocSlot(x, j));
             VmAddr(x.file, x.segs[i]) <= t < VmAddr(x.file, x.segs[i]) + FileSize(x.file, x.segs[i])
    ensures var t := U64At(FileImage(x, image), LocSlot(x, j));
            && PtrForVa(k, U64At(after, LocSlot(x, j))) == Wrap64(kext + (t - x.vmBase))
            && t - x.vmBase < |image|
            && FileImage(x, image)[t - x.vmBase]
               == x.file[FileOff(x.file, x.segs[i]) + (t - VmAddr(x.file, x.segs[i]))]
  {
    hide *;
    SlotPointer(x, chain, k, kext, FileImage(x, image), after, j);
    PlacedByte(x, image, i, U64At(FileImage(x, image), LocSlot(x, j)));
  }

  lemma SlotPointer(x: Kext, chain: seq<SymbolTable>, k: Kernel, kext: u64, m: seq<byte>, after: seq<byte>, j: nat)
    requires Ready(x, chain, |m|) && Loaded(x, chain, k, kext, m, after) && j < LocCount(x)
    ensures x.dysymtab + 80 <= |x.file| && LocRel(x.file, x.dysymtab, j) + 8 <= |x.file|
    ensures LocSlot(x, j) + 8 <= |m| == |after|
    ensures PtrForVa(k, U64At(after, LocSlot(x, j))) == Wrap64(kext + (U64At(m, LocSlot(x, j)) - x.vmBase))
  {
    hide U64At, KextSlide, ExternalsDone, CommandsDone, ExternalsReady, CommandsReady, PtrForVa;
    RelocatedPointer(k, kext, x.vmBase, U64At(m, LocSlot(x, j)));
  }

  lemma PlacedByte(x: Kext, image: seq<byte>, i: nat, t: u64)
    requires CommandsReady(x, |image|) && i < |x.segs|
    requires VmAddr(x.file, x.segs[i]) <= t < VmAddr(x.file, x.segs[i]) + FileSize(x.file, x.segs[i])
    ensures 0 <= t - x.vmBase < |image|
    ensures FileImage(x, image)[t - x.vmBase] == x.file[FileOff(x.file, x.segs[i]) + (t - VmAddr(x.file, x.segs[i]))]
  {
    hide FileImage, VmAddr, FileOff, FileSize, At, CommandsReady;
    SegmentAt(x, image, i);
    var o, bytes := VmAddr(x.file, x.segs[i]) - x.vmBase, FileBytes(x.file, x.segs[i]);
    AtIndex(FileImage(x, image), o, bytes);
  }

  lemma SegmentAt(x: Kext, image: seq<byte>, i: nat)
    requires CommandsReady(x, |image|) && i < |x.segs|
    ensures x.segs[i] + 72 <= |x.file| && x.vmBase <= VmAddr(x.file, x.segs[i])
    ensures FileOff(x.file, x.segs[i]) + FileSize(x.file, x.segs[i]) <= |x.file|
    ensures At(FileImage(x, image), VmAddr(x.file, x.segs[i]) - x.vmBase, FileBytes(x.file, x.segs[i]))
  {
    hide FileImage, VmAddr, FileOff, FileSize, At;
    ImageHoldsFile(x, image);
  }
}
