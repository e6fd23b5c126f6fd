/** What acceptance by `kext_parse` and `kext_alloc` guarantees to the stages behind them, which check
    nothing themselves. */
module KextAccepted {
  import opened Machine
  import opened MachO
  import opened KextScan
  import opened KextParse
  import opened KextImage
  import opened KextLoaded
  import opened DeviceSymbols
  import opened Pointers

  // ---- The file after parsing ----

  /** Only load commands are edited: the Mach-O header stays. */
  lemma {:induction false} WalkLeavesHeader(s: Scan, lc: nat, end: nat, n: nat)
    requires ScanOk(s, end) && end <= |s.buf| && lc == Next(s.buf, s.offs) && Walk(s, lc, end, n).Some? && |s.buf| >= 32
    ensures Agree(s.buf, Walk(s, lc, end, n).value.buf, 0, 32)
    decreases n
  {
    hide ScanOk, Step, Next, CmdSize, Agree;
    if n != 0 {
      var s' := Step(s, lc, end).value;
      StepKeeps(s, lc, end);
      StepLeavesHeader(s, lc, end);
      WalkLeavesHeader(s', lc + CmdSize(s'.buf, lc), end, n - 1);
      AgreeTrans(s.buf, s'.buf, Walk(s, lc, end, n).value.buf, 0, 32);
    } else {
      AgreeSelf(s.buf, 0, 32);
    }
  }

  lemma StepLeavesHeader(s: Scan, lc: nat, end: nat)
    requires ScanOk(s, end) && end <= |s.buf| && lc == Next(s.buf, s.offs) && Step(s, lc, end).Some? && |s.buf| >= 32
    ensures Agree(s.buf, Step(s, lc, end).value.buf, 0, 32)
  {
    hide Destroy, Cmd, CmdSize, SegList, SegChain, SymtabOk, DysymtabOk, Cleaned;
    WalkBound(s.buf, s.offs, end);
    StepBuffer(s, lc, end);
    DestroyByte(s.buf, lc);
  }

  /** The facts about an accepted file that do not depend on the symbols. */
  ghost predicate Walked(x: Kext) {
    && |x.file| >= 32 && CmdsEnd(x.file) <= |x.file|
    && IsWalk(x.file, x.offs, CmdsEnd(x.file)) && |x.offs| == CmdCount(x.file) && Cleaned(x.file, x.offs)
    && x.segs != [] && SegList(x.file, x.offs, x.segs, CmdsEnd(x.file))
    && x.vmBase + x.vmSize < TWO_64
    && SegChain(x.file, x.segs, CmdsEnd(x.file), x.vmBase, x.vmBase + x.vmSize, |x.file|)
    && SymtabOk(x.file, x.offs, x.symtab, CmdsEnd(x.file), |x.file|)
    && DysymtabOk(x.file, x.offs, x.dysymtab, CmdsEnd(x.file), |x.file|)
  }

  /** The scan at the end of an accepting walk. */
  ghost function FinalScan(f: seq<byte>): Scan
    requires |f| >= 32 && CmdsEnd(f) <= |f| && Walk(Start(f), 32, CmdsEnd(f), CmdCount(f)).Some?
  {
    Walk(Start(f), 32, CmdsEnd(f), CmdCount(f)).value
  }

  lemma ParsedScan(f: seq<byte>, chain: seq<SymbolTable>)
    requires |f| >= 32 && AllReadable(chain) && ParseSpec(f, chain).Some?
    ensures CmdsEnd(f) <= |f| && Walk(Start(f), 32, CmdsEnd(f), CmdCount(f)).Some?
    ensures var s := FinalScan(f); var x := ParseSpec(f, chain).value;
            && s.segs != [] && s.symtab != 0 && s.dysymtab != 0 && TablesInside(s.buf, s.symtab, s.dysymtab)
            && CheckTables(s, chain) == Some(x)
            && x.file == s.buf && x.offs == s.offs && x.segs == s.segs && x.vmBase == s.vmBase
            && x.vmSize == Wrap64(s.vmaddr - s.vmBase) && x.symtab == s.symtab && x.dysymtab == s.dysymtab
  {
    hide Walk, CheckSymbols, Relocatable, TablesInside, StringOk, ScanOk;
    StartOk(f, CmdsEnd(f));
    WalkKeeps(Start(f), 32, CmdsEnd(f), CmdCount(f));
    ScanTables(FinalScan(f), CmdsEnd(f));
  }

  /** Acceptance implies the facts of the walk; segments end exactly at `vmBase + vmSize`. */
  lemma AcceptedWalk(f: seq<byte>, chain: seq<SymbolTable>)
    requires |f| >= 32 && AllReadable(chain) && ParseSpec(f, chain).Some?
    ensures Walked(ParseSpec(f, chain).value) && |ParseSpec(f, chain).value.file| == |f|
    ensures Agree(f, ParseSpec(f, chain).value.file, 0, 32)
  {
    hide Walk, CheckTables, ParseSpec, TablesInside, IsWalk, Cleaned, SegList, SegChain, SymtabOk, DysymtabOk, Agree;
    ParsedScan(f, chain);
    var end := CmdsEnd(f);
    StartOk(f, end);
    WalkKeeps(Start(f), 32, end, CmdCount(f));
    WalkLeavesHeader(Start(f), 32, end, CmdCount(f));
    var s := FinalScan(f);
    SameHeaderFields(f, s.buf);
    ChainExtent(s, end);
  }

  lemma SameHeaderFields(f: seq<byte>, g: seq<byte>)
    requires |f| >= 32 && Agree(f, g, 0, 32)
    ensures |g| >= 32 && CmdsEnd(g) == CmdsEnd(f) && CmdCount(g) == CmdCount(f)
  {
    AgreeWord(f, g, 16);
    AgreeWord(f, g, 20);
  }

  lemma ChainExtent(s: Scan, end: nat)
    requires ScanOk(s, end) && s.segs != []
    ensures s.vmBase <= s.vmaddr && s.vmBase + Wrap64(s.vmaddr - s.vmBase) == s.vmaddr
  {
    hide VmAddr, VmSize, FileOff, FileSize, IsWalk, Cleaned, SymtabOk, DysymtabOk, SegChain;
    SegListFits(s.buf, s.offs, s.segs, end);
    SegmentsBounded(s.buf, s.segs, end, s.vmBase, s.vmaddr, |s.buf|, 0);
  }

  // ---- Allocation ----

  /** `(size + 0x3fff) & ~0x3fff` in 64 bits. */
  function AllocSize(vmSize: u64): u64 {
    var n := Wrap64(vmSize + 0x3fff);
    n - n % 0x4000
  }

  /** The test of `kext_alloc` on the truncated size. */
  predicate AllocPasses(vmSize: u64) { Wrap32(AllocSize(vmSize)) >= vmSize }

  /** The test passes exactly up to 2^32 - 0x4000, and the allocation is then the least multiple of the
      page size that holds the kext. */
  lemma AllocIsExact(vmSize: u64)
    ensures AllocPasses(vmSize) <==> vmSize <= TWO_32 - 0x4000
    ensures AllocPasses(vmSize) ==>
              && Wrap32(AllocSize(vmSize)) == AllocSize(vmSize) && AllocSize(vmSize) % 0x4000 == 0
              && vmSize <= AllocSize(vmSize) < vmSize + 0x4000
  {
  }

  // ---- Segments in file and image ----

  /** In an allocated kext the 64-bit file test is exact: every segment's bytes are in the file and its
      place is in the image. */
  lemma SegmentsPlaced(x: Kext, size: nat)
    requires Walked(x) && |x.file| < TWO_32 && x.vmSize <= TWO_32 - 0x4000 && x.vmSize <= size
    ensures Placed(x.file, x.segs, x.vmBase, size) && Apart(x.file, x.segs)
  {
    hide VmAddr, VmSize, FileOff, FileSize, IsWalk, Cleaned, SymtabOk, DysymtabOk, SegList, SegChain;
    var f, end, top := x.file, CmdsEnd(x.file), x.vmBase + x.vmSize;
    SegListFits(f, x.offs, x.segs, end);
    forall k | 0 <= k < |x.segs|
      ensures x.vmBase <= VmAddr(f, x.segs[k]) && FileSize(f, x.segs[k]) <= VmSize(f, x.segs[k])
      ensures VmAddr(f, x.segs[k]) - x.vmBase + FileSize(f, x.segs[k]) <= size
      ensures FileOff(f, x.segs[k]) + FileSize(f, x.segs[k]) <= |f|
    {
      SegmentsBounded(f, x.segs, end, x.vmBase, top, |f|, k);
      SegmentFits(f, x.segs, end, x.vmBase, top, |f|, k);
    }
    forall j, k | 0 <= j < k < |x.segs|
      ensures VmAddr(f, x.segs[j]) + FileSize(f, x.segs[j]) <= VmAddr(f, x.segs[k])
    {
      SegmentsAscend(f, x.segs, end, x.vmBase, top, |f|, j, k);
    }
  }

  lemma SegmentFits(f: seq<byte>, segs: seq<nat>, end: nat, vmBase: u64, vmaddr: u64, size: nat, k: nat)
    requires forall i :: 0 <= i < |segs| ==> segs[i] + 72 <= |f|
    requires SegChain(f, segs, end, vmBase, vmaddr, size) && k < |segs|
    ensures SegFits(f, segs[k], size)
  {
  }

  /** Two commands at different offsets do not overlap. */
  lemma CommandsApart(f: seq<byte>, offs: seq<nat>, end: nat, o: nat, p: nat)
    requires IsWalk(f, offs, end) && o in offs && p in offs && o != p
    requires o + 8 <= |f| && p + 8 <= |f|
    ensures o + CmdSize(f, o) <= p || p + CmdSize(f, p) <= o
  {
    hide CmdSize;
    var i :| 0 <= i < |offs| && offs[i] == o;
    var j :| 0 <= j < |offs| && offs[j] == p;
    if i < j { WalkOrder(f, offs, end, i, j); } else { WalkOrder(f, offs, end, j, i); }
  }

  lemma SegmentsInside(x: Kext)
    requires Walked(x)
    ensures SegsInside(x.segs, CmdsEnd(x.file))
    ensures x.symtab + 24 <= CmdsEnd(x.file) && x.dysymtab + 80 <= CmdsEnd(x.file)
    ensures forall k :: 0 <= k < |x.segs| ==> x.symtab + 24 <= x.segs[k] || x.segs[k] + 72 <= x.symtab
    ensures forall k :: 0 <= k < |x.segs| ==> x.dysymtab + 80 <= x.segs[k] || x.segs[k] + 72 <= x.dysymtab
    ensures x.symtab + 24 <= x.dysymtab || x.dysymtab + 80 <= x.symtab
  {
    hide Cmd, CmdSize, IsWalk, Cleaned, SegChain, SymOff, SymCount, StrOff;
    hide ExtRelOff, ExtRelCount, LocRelOff, LocRelCount, SizeOfCmds;
    var f, end := x.file, CmdsEnd(x.file);
    forall k | 0 <= k < |x.segs|
      ensures x.symtab + 24 <= x.segs[k] || x.segs[k] + 72 <= x.symtab
      ensures x.dysymtab + 80 <= x.segs[k] || x.segs[k] + 72 <= x.dysymtab
    {
      assert SegCommand(f, x.offs, x.segs[k], end);
      CommandsApart(f, x.offs, end, x.symtab, x.segs[k]);
      CommandsApart(f, x.offs, end, x.dysymtab, x.segs[k]);
    }
    CommandsApart(f, x.offs, end, x.symtab, x.dysymtab);
    forall k | 0 <= k < |x.segs|
      ensures x.segs[k] + 72 <= end
    {
      assert SegCommand(f, x.offs, x.segs[k], end);
    }
  }

  lemma FirstSegment(x: Kext)
    requires Walked(x)
    ensures x.segs[0] + 72 <= |x.file| && VmAddr(x.file, x.segs[0]) == x.vmBase
    ensures FileOff(x.file, x.segs[0]) == 0 && FileSize(x.file, x.segs[0]) >= CmdsEnd(x.file)
  {
    SegListFits(x.file, x.offs, x.segs, CmdsEnd(x.file));
    hide VmAddr, VmSize, FileOff, FileSize, IsWalk, Cleaned, SymtabOk, DysymtabOk, SegList, SegFits;
  }

  // ---- kmod_info ----

  /** A recorded `kmod_info` lies in the kext. */
  lemma {:induction false} KmodInside(f: seq<byte>, symtab: nat, n: nat, vmBase: u64, vmEnd: u64)
    requires symtab + 24 <= |f| && SymOff(f, symtab) + n * 16 <= |f|
    requires CheckSymbols(f, symtab, n, vmBase, vmEnd).Some?
    ensures var kmod := CheckSymbols(f, symtab, n, vmBase, vmEnd).value;
            kmod != 0 ==> vmBase <= kmod && kmod + 196 <= vmEnd
  {
    hide StringOk, InSection, SymValue, SymOff, StrIndex, StrOff, CStr;
    if n != 0 {
      KmodInside(f, symtab, n - 1, vmBase, vmEnd);
    }
  }

  lemma AcceptedKmod(f: seq<byte>, chain: seq<SymbolTable>)
    requires |f| >= 32 && AllReadable(chain) && ParseSpec(f, chain).Some?
    ensures var x := ParseSpec(f, chain).value; x.vmBase <= x.kmod && x.kmod + 196 <= x.vmBase + x.vmSize
  {
    hide Walk, ParseSpec, IsWalk, Cleaned, SegList, SegChain, SymtabOk, DysymtabOk, Agree, Relocatable;
    hide StringOk, CheckSymbols;
    ParsedScan(f, chain);
    StartOk(f, CmdsEnd(f));
    WalkKeeps(Start(f), 32, CmdsEnd(f), CmdCount(f));
    var s := FinalScan(f);
    ChainExtent(s, CmdsEnd(f));
    KmodInside(s.buf, s.symtab, SymCount(s.buf, s.symtab), s.vmBase, s.vmaddr);
  }

  // ---- Relocations ----

  /** Acceptance means that every symbol has its string and every relocation its checks. */
  lemma AcceptedTables(f: seq<byte>, chain: seq<SymbolTable>)
    requires |f| >= 32 && AllReadable(chain) && ParseSpec(f, chain).Some?
    ensures var x := ParseSpec(f, chain).value;
            && TablesInside(x.file, x.symtab, x.dysymtab)
            && (forall i :: 0 <= i < SymCount(x.file, x.symtab) ==> StringOk(x.file, x.symtab, i))
            && Relocatable(x.file, x.symtab, x.dysymtab, x.vmBase, x.vmSize, chain)
  {
    hide Walk, ParseSpec, Relocatable, StringOk, CheckSymbols, TablesInside;
    ParsedScan(f, chain);
    var s := FinalScan(f);
    SymbolRange(s.buf, s.symtab, s.dysymtab);
    SymbolStrings(s.buf, s.symtab, SymCount(s.buf, s.symtab), s.vmBase, s.vmaddr);
  }

  lemma SymbolRange(f: seq<byte>, symtab: nat, dysymtab: nat)
    requires TablesInside(f, symtab, dysymtab)
    ensures symtab + 24 <= |f| && SymOff(f, symtab) + SymCount(f, symtab) * 16 <= |f|
  {
  }

  /** Every local relocation is at or above the base. */
  ghost predicate LocalsAtBase(x: Kext) {
    && x.dysymtab + 80 <= |x.file| && LocRel(x.file, x.dysymtab, LocCount(x)) <= |x.file|
    && forall j :: 0 <= j < LocCount(x) ==> x.vmBase <= RelAddress(x.file, LocRel(x.file, x.dysymtab, j))
  }

  /** Every external relocation is at or above the base. */
  ghost predicate ExternalsAtBase(x: Kext) {
    && x.dysymtab + 80 <= |x.file| && ExtRel(x.file, x.dysymtab, ExtCount(x)) <= |x.file|
    && forall j :: 0 <= j < ExtCount(x) ==> x.vmBase <= RelAddress(x.file, ExtRel(x.file, x.dysymtab, j))
  }

  lemma AcceptedLocal(x: Kext, size: nat, j: nat)
    requires x.dysymtab + 80 <= |x.file| && LocRel(x.file, x.dysymtab, LocCount(x)) <= |x.file|
    requires LocalsOk(x.file, x.dysymtab, x.vmBase, x.vmSize) && x.vmSize <= size < TWO_32 && j < LocCount(x)
    ensures !RelExtern(x.file, LocRel(x.file, x.dysymtab, j)) && RelLength(x.file, LocRel(x.file, x.dysymtab, j)) == 3
    ensures LocSlot(x, j) + 8 <= size <==> x.vmBase <= RelAddress(x.file, LocRel(x.file, x.dysymtab, j))
    ensures x.vmBase == 0 ==> 0 <= RelAddress(x.file, LocRel(x.file, x.dysymtab, j))
  {
    hide RelAddress, RelExtern, RelLength, RelInBounds, Slot;
    assert LocRelOk(x.file, x.dysymtab, x.vmBase, x.vmSize, j);
    SlotInsideExactly(x.file, LocRel(x.file, x.dysymtab, j), x.vmBase, x.vmSize, size);
    AtZero(x.file, LocRel(x.file, x.dysymtab, j), x.vmBase, x.vmSize);
  }

  /** At base zero, the bounds test leaves no negative address. */
  lemma AtZero(f: seq<byte>, rel: nat, vmBase: u64, vmSize: u64)
    requires rel + 8 <= |f| && RelInBounds(vmBase, vmSize, RelAddress(f, rel)) && vmSize < TWO_32
    ensures vmBase == 0 ==> 0 <= RelAddress(f, rel)
  {
    if vmBase == 0 { SlotInside(f, rel, vmSize); }
  }

  /** At every base: relocation skips nothing and all its slots are in the image, if and only if every local
      address is at or above the base. At base zero they all are. */
  lemma AcceptedLocals(f: seq<byte>, chain: seq<SymbolTable>, size: nat)
    requires |f| >= 32 && AllReadable(chain) && ParseSpec(f, chain).Some?
    requires ParseSpec(f, chain).value.vmSize <= size < TWO_32
    ensures var x := ParseSpec(f, chain).value;
            (LocalsReady(x, size) <==> LocalsAtBase(x)) && (x.vmBase == 0 ==> LocalsAtBase(x))
  {
    hide ParseSpec, StringOk, ExtRelOk, LocalsOk, AllReadable, RelAddress, RelExtern, RelLength, RelInBounds, Slot;
    AcceptedTables(f, chain);
    var x := ParseSpec(f, chain).value;
    forall j | 0 <= j < LocCount(x)
      ensures !RelExtern(x.file, LocRel(x.file, x.dysymtab, j)) && RelLength(x.file, LocRel(x.file, x.dysymtab, j)) == 3
      ensures LocSlot(x, j) + 8 <= size <==> x.vmBase <= RelAddress(x.file, LocRel(x.file, x.dysymtab, j))
      ensures x.vmBase == 0 ==> 0 <= RelAddress(x.file, LocRel(x.file, x.dysymtab, j))
    {
      AcceptedLocal(x, size, j);
    }
  }

  /** The parser's 32-bit string offset and the linker's 64-bit one agree. */
  lemma StringOffsetsAgree(f: seq<byte>, symtab: nat, rel: nat)
    requires symtab + 24 <= |f| && rel + 8 <= |f| && Nlist(f, symtab, RelSymbol(f, rel)) + 16 <= |f|
    requires StringOk(f, symtab, RelSymbol(f, rel))
    ensures LinkName(f, symtab, rel) == Stroff(f, symtab, RelSymbol(f, rel)) < |f|
  {
    hide StrOff, StrIndex, RelSymbol, Nlist, Terminated;
  }

  /** One external relocation: resolved by the linker as it was by the parser, and in the image exactly if it
      is at or above the base. */
  lemma AcceptedExternal(x: Kext, chain: seq<SymbolTable>, size: nat, j: nat)
    requires TablesInside(x.file, x.symtab, x.dysymtab) && AllReadable(chain)
    requires forall i :: 0 <= i < SymCount(x.file, x.symtab) ==> StringOk(x.file, x.symtab, i)
    requires Relocatable(x.file, x.symtab, x.dysymtab, x.vmBase, x.vmSize, chain)
    requires x.vmSize <= size < TWO_32 && j < ExtCount(x)
    ensures var er := ExtRel(x.file, x.dysymtab, j);
            && Nlist(x.file, x.symtab, RelSymbol(x.file, er)) + 16 <= |x.file|
            && LinkName(x.file, x.symtab, er) < |x.file|
            && Terminated(x.file, LinkName(x.file, x.symtab, er))
            && RelExtern(x.file, er) && RelLength(x.file, er) == 3
            && Resolved(x.file, x.symtab, er, chain) != 0
            && (ExtSlot(x, j) + 8 <= size <==> x.vmBase <= RelAddress(x.file, er))
            && (x.vmBase == 0 ==> 0 <= RelAddress(x.file, er))
  {
    hide AllReadable, RelAddress, RelExtern, RelLength, RelSymbol, RelInBounds, Slot, CStr, StrOff, StrIndex, LinkName;
    StringsInside(x.file, x.symtab, SymCount(x.file, x.symtab));
    var er := ExtRel(x.file, x.dysymtab, j);
    assert ExtRelOk(x.file, x.symtab, x.dysymtab, x.vmBase, x.vmSize, chain, j);
    assert StringOk(x.file, x.symtab, RelSymbol(x.file, er));
    StringOffsetsAgree(x.file, x.symtab, er);
    SlotInsideExactly(x.file, er, x.vmBase, x.vmSize, size);
    AtZero(x.file, er, x.vmBase, x.vmSize);
  }

  /** At every base: linking skips nothing and all its slots are in the image, if and only if every external
      address is at or above the base. At base zero they all are. */
  lemma AcceptedExternals(f: seq<byte>, chain: seq<SymbolTable>, size: nat)
    requires |f| >= 32 && AllReadable(chain) && ParseSpec(f, chain).Some?
    requires ParseSpec(f, chain).value.vmSize <= size < TWO_32
    ensures var x := ParseSpec(f, chain).value;
            (ExternalsReady(x, chain, size) <==> ExternalsAtBase(x)) && (x.vmBase == 0 ==> ExternalsAtBase(x))
  {
    hide ParseSpec, StringOk, Relocatable, AllReadable, RelAddress, RelExtern, RelLength, RelSymbol, Slot;
    hide Nlist, LinkName, Resolved, Terminated;
    AcceptedTables(f, chain);
    var x := ParseSpec(f, chain).value;
    forall j | 0 <= j < ExtCount(x)
      ensures var er := ExtRelOff(x.file, x.dysymtab) + 8 * j;
              Nlist(x.file, x.symtab, RelSymbol(x.file, er)) + 16 <= |x.file|
                  && LinkName(x.file, x.symtab, er) <= |x.file|
    {
      AcceptedExternal(x, chain, size, j);
    }
    forall j | 0 <= j < ExtCount(x)
      ensures var er := ExtRel(x.file, x.dysymtab, j);
              && Target(x, chain, j) != 0 && RelExtern(x.file, er) && RelLength(x.file, er) == 3
              && (ExtSlot(x, j) + 8 <= size <==> x.vmBase <= RelAddress(x.file, er))
              && (x.vmBase == 0 ==> 0 <= RelAddress(x.file, er))
    {
      AcceptedExternal(x, chain, size, j);
    }
  }

  /** Link totality: for a kext that the parser accepts and the allocator can hold, the later stages take none
      of their skip branches and stay inside file and image, if and only if every relocation is at or above
      the base; at base zero always. */
  lemma AcceptedIsReady(f: seq<byte>, chain: seq<SymbolTable>, size: nat)
    requires 32 <= |f| < TWO_32 && AllReadable(chain) && ParseSpec(f, chain).Some?
    requires AllocPasses(ParseSpec(f, chain).value.vmSize) && size == AllocSize(ParseSpec(f, chain).value.vmSize)
    ensures var x := ParseSpec(f, chain).value;
            && size < TWO_32 && CommandsReady(x, size)
            && (Ready(x, chain, size) <==> LocalsAtBase(x) && ExternalsAtBase(x))
            && (x.vmBase == 0 ==> LocalsAtBase(x) && ExternalsAtBase(x))
  {
    AllocIsExact(ParseSpec(f, chain).value.vmSize);
    AcceptedCommands(f, chain, size);
    hide ParseSpec, AllReadable, CommandsReady, LocalsReady, ExternalsReady, AllocSize, LocalsAtBase, ExternalsAtBase;
    AcceptedLocals(f, chain, size);
    AcceptedExternals(f, chain, size);
  }

  /** The command part holds for any base address. */
  lemma AcceptedCommands(f: seq<byte>, chain: seq<SymbolTable>, size: nat)
    requires 32 <= |f| < TWO_32 && AllReadable(chain) && ParseSpec(f, chain).Some?
    requires ParseSpec(f, chain).value.vmSize <= TWO_32 - 0x4000 && ParseSpec(f, chain).value.vmSize <= size
    ensures CommandsReady(ParseSpec(f, chain).value, size)
  {
    hide ParseSpec, AllReadable, VmAddr, VmSize, FileOff, FileSize, IsWalk, Cleaned, SegList, SegChain, SymtabOk;
    hide DysymtabOk, Placed, Apart, SegsInside;
    var x := ParseSpec(f, chain).value;
    AcceptedWalk(f, chain);
    SegmentsPlaced(x, size);
    SegmentsInside(x);
    FirstSegment(x);
    AcceptedKmod(f, chain);
    HeaderFits(x, size);
  }

  lemma HeaderFits(x: Kext, size: nat)
    requires Walked(x) && Placed(x.file, x.segs, x.vmBase, size)
    ensures CmdsEnd(x.file) <= size
  {
    hide VmAddr, VmSize, FileOff, FileSize, IsWalk, Cleaned, SegList, SegChain, SymtabOk, DysymtabOk;
    FirstSegment(x);
  }

  // ---- The walks over file and image ----

  /** The walk over the mapped copy visits the commands that the parser validated: the copy of the
      segments and every later write leave all the commands' headers and sizes. */
  lemma MappedWalk(x: Kext, k: Kernel, kext: u64, image: seq<byte>, m: nat)
    requires Walked(x) && CommandsReady(x, |image|) && m <= |x.segs|
    ensures var p := Patch(FileImage(x, image), x.segs, x.vmBase, SaForPtr(k, kext), m);
            IsWalk(p, x.offs, CmdsEnd(x.file)) && Cleaned(p, x.offs)
  {
    hide IsWalk, Cleaned, SegChain, SymtabOk, DysymtabOk, Placed, Apart, FileImage, Patch, Agree;
    hide SameCommands, CmdSize, Cmd;
    var f, end, g := x.file, CmdsEnd(x.file), FileImage(x, image);
    var p := Patch(g, x.segs, x.vmBase, SaForPtr(k, kext), m);
    WalkHeaders(f, x.offs, end);
    HeaderMapped(x, image);
    forall i | 0 <= i < |x.offs|
      ensures Agree(f, p, x.offs[i], x.offs[i] + 8)
    {
      HeaderUnpatched(x, image, k, kext, m, i);
    }
    SameHeadersWalk(f, p, x.offs, end);
  }

  /** A command's header keeps clear of every patched `vmaddr`. */
  lemma HeaderUnpatched(x: Kext, image: seq<byte>, k: Kernel, kext: u64, m: nat, i: nat)
    requires Walked(x) && CommandsReady(x, |image|) && m <= |x.segs| && i < |x.offs|
    ensures Agree(x.file, Patch(FileImage(x, image), x.segs, x.vmBase, SaForPtr(k, kext), m), x.offs[i], x.offs[i] + 8)
  {
    hide Cleaned, SegChain, SymtabOk, DysymtabOk, Placed, Apart, FileImage, Patch, CmdSize, Cmd;
    var f, end, g, o := x.file, CmdsEnd(x.file), FileImage(x, image), x.offs[i];
    HeaderMapped(x, image);
    forall j | 0 <= j < m
      ensures o + 8 <= x.segs[j] + 24 || x.segs[j] + 32 <= o
    {
      assert SegCommand(f, x.offs, x.segs[j], end);
      if o > x.segs[j] {
        var h :| 0 <= h < |x.offs| && x.offs[h] == x.segs[j];
        HigherIsLater(f, x.offs, end, h, i);
      }
    }
    PatchLeaves(g, x.segs, x.vmBase, SaForPtr(k, kext), m, o, o + 8);
  }

  lemma HigherIsLater(f: seq<byte>, offs: seq<nat>, end: nat, h: nat, i: nat)
    requires IsWalk(f, offs, end) && h < |offs| && i < |offs| && offs[h] < offs[i]
    ensures offs[h] + CmdSize(f, offs[h]) <= offs[i]
  {
    hide CmdSize;
    if h < i { WalkOrder(f, offs, end, h, i); } else { WalkOrder(f, offs, end, i, h); }
  }

  lemma SameHeadersWalk(f: seq<byte>, g: seq<byte>, offs: seq<nat>, end: nat)
    requires IsWalk(f, offs, end) && Cleaned(f, offs) && end <= |g|
    requires forall i :: 0 <= i < |offs| ==> Agree(f, g, offs[i], offs[i] + 8)
    ensures IsWalk(g, offs, end) && Cleaned(g, offs)
    ensures forall i :: 0 <= i < |offs| ==>
              Cmd(g, offs[i]) == Cmd(f, offs[i]) && CmdSize(g, offs[i]) == CmdSize(f, offs[i])
  {
    hide Cmd, CmdSize, Agree;
    forall i | 0 <= i < |offs|
      ensures offs[i] + 8 <= |g| && Cmd(g, offs[i]) == Cmd(f, offs[i]) && CmdSize(g, offs[i]) == CmdSize(f, offs[i])
    {
      AgreeCommand(f, g, offs[i]);
    }
  }
}
