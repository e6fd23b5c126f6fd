/** The kext loader as the program runs it: `kext_load_info` and the functions that fill and use it. */
module KextLoader {
  import opened Machine
  import opened MachO
  import opened KextScan
  import opened KextParse
  import opened KextImage
  import opened KextLoaded
  import opened KextOverlap
  import opened KextAccepted
  import opened DeviceSymbols
  import opened Pointers
  import opened PrelinkInfo

  /** Where the walk stands in front of command `i`. */
  function Position(f: seq<byte>, offs: seq<nat>, i: nat): nat
    requires i <= |offs| && forall j :: 0 <= j < |offs| ==> offs[j] + 8 <= |f|
  {
    if i == 0 then 32 else offs[i - 1] + CmdSize(f, offs[i - 1])
  }

  /** Exactly the first `n` segments are behind `lc`. */
  ghost predicate Passed(segs: seq<nat>, n: nat, lc: nat) {
    n <= |segs| && (forall j :: 0 <= j < n ==> segs[j] < lc) && (forall j :: n <= j < |segs| ==> lc <= segs[j])
  }

  /** The walk meets the segments in order, each once. */
  lemma SegmentTurn(f: seq<byte>, offs: seq<nat>, segs: seq<nat>, end: nat, i: nat, n: nat)
    requires IsWalk(f, offs, end) && SegList(f, offs, segs, end) && i < |offs| && Passed(segs, n, offs[i])
    ensures if Cmd(f, offs[i]) == LC_SEGMENT_64
            then n < |segs| && segs[n] == offs[i] && Passed(segs, n + 1, offs[i] + CmdSize(f, offs[i]))
            else Passed(segs, n, offs[i] + CmdSize(f, offs[i]))
  {
    hide Cmd, CmdSize;
    var o := offs[i];
    if Cmd(f, o) == LC_SEGMENT_64 {
      var j :| 0 <= j < |segs| && segs[j] == o;
      assert SegCommand(f, offs, segs[n], end);
    }
    forall j | 0 <= j < |segs| && o < segs[j]
      ensures o + CmdSize(f, o) <= segs[j]
    {
      assert SegCommand(f, offs, segs[j], end);
      var h :| 0 <= h < |offs| && offs[h] == segs[j];
      HigherIsLater(f, offs, end, i, h);
    }
    if Cmd(f, o) != LC_SEGMENT_64 {
      forall j | n <= j < |segs|
        ensures o != segs[j]
      {
        assert SegCommand(f, offs, segs[j], end);
      }
    }
  }

  /** At the end of the walk every segment has been met. */
  lemma AllPassed(f: seq<byte>, offs: seq<nat>, segs: seq<nat>, end: nat, n: nat)
    requires IsWalk(f, offs, end) && SegList(f, offs, segs, end) && offs != [] && Passed(segs, n, Next(f, offs))
    ensures n == |segs|
  {
    hide Cmd, CmdSize, Next;
    if n < |segs| {
      assert SegCommand(f, offs, segs[n], end);
      var h :| 0 <= h < |offs| && offs[h] == segs[n];
      WalkBefore(f, offs, end, h);
    }
  }

  /** `struct kext_load_info`. Command pointers are offsets from the header, which is the upload buffer
      until `Map` and the image from then on; 0 is the null pointer. */
  class KextLoadInfo {
    const header: array<byte>
    var vmSize: u64
    var vmBase: u64
    var kmodInfo: u64
    var symtab: nat
    var dysymtab: nat
    var nlist: nat
    var extrel: nat
    var locrel: nat
    var kext: array<byte>
    var kextPtr: u64

    constructor (header: array<byte>)
      ensures this.header == header && fresh(kext) && kext.Length == 0
      ensures vmBase == 0 && kmodInfo == 0 && symtab == 0 && dysymtab == 0
    {
      this.header := header;
      vmSize, vmBase, kmodInfo, symtab, dysymtab, nlist, extrel, locrel := 0, 0, 0, 0, 0, 0, 0, 0;
      kext, kextPtr := new byte[0], 0;
    }

    // ---- kext_parse ----

    /** The fields and locals of the walk are those of `s`. */
    ghost predicate AtScan(s: Scan, vmaddr: u64, found: bool)
      reads this, header
    {
      && header[..] == s.buf && vmBase == s.vmBase && symtab == s.symtab && dysymtab == s.dysymtab
      && found == (s.segs != []) && (found ==> vmaddr == s.vmaddr)
    }

    method ValidateSegment(lc: nat, end: nat, vmaddr: u64, found: bool, ghost s: Scan)
      returns (ok: bool, vmEnd: u64)
      requires AtScan(s, vmaddr, found) && lc + 8 <= header.Length && lc + CmdSize(s.buf, lc) <= header.Length
      modifies this
      ensures kmodInfo == old(kmodInfo)
      ensures match CheckSegment(s, lc, end)
              case None => !ok
              case Some(s') => ok && AtScan(s', vmEnd, true)
    {
      hide CmdSize, FileOff, FileSize, VmAddr, VmSize;
      vmEnd := vmaddr;
      var f := header[..];
      if CmdSize(f, lc) < 72 {
        return false, vmEnd;
      }
      if FileOff(f, lc) > |f| || Wrap64(FileOff(f, lc) + FileSize(f, lc)) > |f| || FileSize(f, lc) > VmSize(f, lc) {
        return false, vmEnd;
      }
      if Wrap64(VmAddr(f, lc) + VmSize(f, lc)) < VmAddr(f, lc) {
        return false, vmEnd;
      }
      if !found {
        vmEnd := VmAddr(f, lc);
        vmBase := vmEnd;
        if FileOff(f, lc) != 0 || FileSize(f, lc) < end {
          return false, vmEnd;
        }
      }
      if VmAddr(f, lc) != vmEnd {
        return false, vmEnd;
      }
      vmEnd := Wrap64(vmEnd + VmSize(f, lc));
      return true, vmEnd;
    }

    method ValidateSymtab(lc: nat, ghost s: Scan, ghost vmaddr: u64, ghost found: bool) returns (ok: bool)
      requires AtScan(s, vmaddr, found) && lc + 8 <= header.Length && lc + CmdSize(s.buf, lc) <= header.Length
      modifies this
      ensures kmodInfo == old(kmodInfo)
      ensures match CheckSymtab(s, lc)
              case None => !ok
              case Some(s') => ok && AtScan(s', vmaddr, found)
    {
      hide CmdSize, SymOff, SymCount, StrOff;
      var f := header[..];
      if symtab != 0 || CmdSize(f, lc) < 24 {
        return false;
      }
      var size := SymCount(f, lc) as int * 16;
      if SymOff(f, lc) > |f| || SymOff(f, lc) + size > |f| || StrOff(f, lc) >= |f| {
        return false;
      }
      symtab := lc;
      return true;
    }

    method ValidateDysymtab(lc: nat, ghost s: Scan, ghost vmaddr: u64, ghost found: bool) returns (ok: bool)
      requires AtScan(s, vmaddr, found) && lc + 8 <= header.Length && lc + CmdSize(s.buf, lc) <= header.Length
      modifies this
      ensures kmodInfo == old(kmodInfo)
      ensures match CheckDysymtab(s, lc)
              case None => !ok
              case Some(s') => ok && AtScan(s', vmaddr, found)
    {
      hide CmdSize, ExtRelOff, ExtRelCount, LocRelOff, LocRelCount;
      var f := header[..];
      if dysymtab != 0 || CmdSize(f, lc) < 80 {
        return false;
      }
      var size := ExtRelCount(f, lc) as int * 8;
      if ExtRelOff(f, lc) > |f| || ExtRelOff(f, lc) + size > |f| {
        return false;
      }
      size := LocRelCount(f, lc) as int * 8;
      if LocRelOff(f, lc) > |f| || LocRelOff(f, lc) + size > |f| {
        return false;
      }
      dysymtab := lc;
      return true;
    }

    /** One round of the load-command loop. */
    method VisitCommand(lc: nat, end: nat, vmaddr: u64, found: bool, ghost s: Scan)
      returns (ok: bool, vmEnd: u64, found': bool)
      requires AtScan(s, vmaddr, found) && end <= header.Length
      modifies this, header
      ensures kmodInfo == old(kmodInfo)
      ensures match Step(s, lc, end)
              case None => !ok
              case Some(s') => ok && AtScan(s', vmEnd, found')
    {
      hide Cmd, CmdSize, Splice, CheckSegment, CheckSymtab, CheckDysymtab;
      vmEnd, found' := vmaddr, found;
      if lc + 8 > end || lc + CmdSize(header[..], lc) > end || Cmd(header[..], lc) == LC_SEGMENT {
        return false, vmEnd, found';
      }
      DestroyKeepsSize(s.buf, lc);
      if Cmd(header[..], lc) == LC_SEGMENT_SPLIT_INFO {
        Store(header, lc, LE32(DESTROYED_SPLIT_INFO));
      }
      ghost var t := s.(buf := Destroy(s.buf, lc), offs := s.offs + [lc]);
      assert header[..] == t.buf;
      var cmd := Cmd(header[..], lc);
      if cmd == LC_SEGMENT_64 {
        ok, vmEnd := ValidateSegment(lc, end, vmaddr, found, t);
        found' := true;
      } else if cmd == LC_SYMTAB {
        ok := ValidateSymtab(lc, t, vmaddr, found);
      } else if cmd == LC_DYSYMTAB {
        ok := ValidateDysymtab(lc, t, vmaddr, found);
      } else {
        ok := true;
      }
    }

    /** The load-command loop of the parser. */
    method WalkCommands() returns (ok: bool, vmaddr: u64, found: bool)
      requires header.Length >= 32 && CmdsEnd(header[..]) <= header.Length
      requires vmBase == 0 && symtab == 0 && dysymtab == 0
      modifies this, header
      ensures kmodInfo == old(kmodInfo)
      ensures var f := old(header[..]);
              match Walk(Start(f), 32, CmdsEnd(f), CmdCount(f))
              case None => !ok
              case Some(s) => ok && AtScan(s, vmaddr, found)
    {
      hide Step, CmdSize, CmdCount, SizeOfCmds;
      ghost var f := header[..];
      ghost var s := Start(f);
      var lc: nat, end: nat, count: nat := 32, CmdsEnd(header[..]), CmdCount(header[..]);
      vmaddr, found := 0, false;
      for i := 0 to count
        invariant AtScan(s, vmaddr, found) && |s.buf| == header.Length && kmodInfo == old(kmodInfo)
        invariant Walk(Start(f), 32, end, count) == Walk(s, lc, end, count - i)
      {
        ghost var s0 := s;
        ok, vmaddr, found := VisitCommand(lc, end, vmaddr, found, s0);
        if !ok {
          return;
        }
        s := Step(s0, lc, end).value;
        lc := lc + CmdSize(header[..], lc);
      }
      ok := true;
    }

    /** The symbol loop: strings and addresses, and the one `_kmod_info`. */
    method ValidateSymbols(vmEnd: u64) returns (ok: bool)
      requires symtab + 24 <= header.Length && kmodInfo == 0
      requires SymOff(header[..], symtab) + SymCount(header[..], symtab) * 16 <= header.Length
      modifies this`kmodInfo, this`nlist
      ensures nlist == SymOff(header[..], symtab)
      ensures match CheckSymbols(header[..], symtab, SymCount(header[..], symtab), vmBase, vmEnd)
              case None => !ok
              case Some(kmod) => ok && kmodInfo == kmod
    {
      hide SymOff, SymCount, StrOff, StrIndex, SymValue, InSection, CStr, Terminated;
      var f := header[..];
      nlist := SymOff(f, symtab);
      for i := 0 to SymCount(f, symtab)
        invariant nlist == SymOff(f, symtab)
        invariant CheckSymbols(f, symtab, i, vmBase, vmEnd) == Some(kmodInfo)
      {
        var nl := nlist + 16 * i;
        ghost var before := kmodInfo;
        var stroff := Wrap32(StrOff(f, symtab) + StrIndex(f, nl));
        if stroff < StrOff(f, symtab) || stroff >= |f| || !Terminated(f, stroff) {
          SymbolFails(f, symtab, i, vmBase, vmEnd);
          return false;
        }
        var address := SymValue(f, nl);
        if InSection(f, nl) && (address < vmBase || vmEnd < address) {
          SymbolFails(f, symtab, i, vmBase, vmEnd);
          return false;
        }
        if CStr(f, stroff) == KMOD_INFO_NAME {
          if kmodInfo != 0 || !InSection(f, nl)
            || Wrap64(address + 196) < address || Wrap64(address + 196) > vmEnd {
            SymbolFails(f, symtab, i, vmBase, vmEnd);
            return false;
          }
          kmodInfo := address;
        }
      }
      return true;
    }

    /** The loop over the external relocations. A missing symbol is noted and the loop goes on; a bad
        relocation ends it. */
    method ValidateExternals(symbols: SymbolChain) returns (ok: bool)
      requires AllReadable(symbols.chain) && Wired(symbols.chain) && TablesInside(header[..], symtab, dysymtab)
      requires nlist == SymOff(header[..], symtab)
      requires forall i :: 0 <= i < SymCount(header[..], symtab) ==> StringOk(header[..], symtab, i)
      modifies this`extrel
      ensures extrel == ExtRelOff(header[..], dysymtab)
      ensures ok <==> ExternalsOk(header[..], symtab, dysymtab, vmBase, vmSize, symbols.chain)
    {
      hide SymOff, SymCount, StrOff, StrIndex, CStr, StringOk, AllReadable, RelAddress, RelExtern, RelLength, RelSymbol;
      hide ExtRelOff, ExtRelCount, LocRelOff, LocRelCount, ChainLookup;
      var f := header[..];
      StringsInside(f, symtab, SymCount(f, symtab));
      extrel := ExtRelOff(f, dysymtab);
      var missing := false;
      for j := 0 to ExtRelCount(f, dysymtab)
        invariant extrel == ExtRelOff(f, dysymtab)
        invariant missing <==>
                  exists i :: 0 <= i < j && !ExtRelOk(f, symtab, dysymtab, vmBase, vmSize, symbols.chain, i)
      {
        var er := extrel + 8 * j;
        assert er == ExtRel(f, dysymtab, j);
        if !RelExtern(f, er) || RelLength(f, er) != 3 || RelSymbol(f, er) >= SymCount(f, symtab) {
          assert !ExtRelOk(f, symtab, dysymtab, vmBase, vmSize, symbols.chain, j);
          return false;
        }
        var nl := nlist + 16 * RelSymbol(f, er);
        var stroff := Wrap32(StrOff(f, symtab) + StrIndex(f, nl));
        assert stroff == Stroff(f, symtab, RelSymbol(f, er));
        var resolved := symbols.Lookup(CStr(f, stroff));
        if resolved == 0 {
          assert !ExtRelOk(f, symtab, dysymtab, vmBase, vmSize, symbols.chain, j);
          missing := true;
          continue;
        }
        if !RelInBounds(vmBase, vmSize, RelAddress(f, er)) {
          assert !ExtRelOk(f, symtab, dysymtab, vmBase, vmSize, symbols.chain, j);
          return false;
        }
        assert ExtRelOk(f, symtab, dysymtab, vmBase, vmSize, symbols.chain, j);
      }
      return !missing;
    }

    /** The loop over the local relocations. */
    method ValidateLocals() returns (ok: bool)
      requires dysymtab + 80 <= header.Length
      requires LocRelOff(header[..], dysymtab) + LocRelCount(header[..], dysymtab) * 8 <= header.Length
      modifies this`locrel
      ensures locrel == LocRelOff(header[..], dysymtab)
      ensures ok <==> LocalsOk(header[..], dysymtab, vmBase, vmSize)
    {
      hide RelAddress, RelExtern, RelLength, LocRelOff, LocRelCount, RelInBounds;
      var f := header[..];
      locrel := LocRelOff(f, dysymtab);
      for j := 0 to LocRelCount(f, dysymtab)
        invariant locrel == LocRelOff(f, dysymtab)
        invariant forall i :: 0 <= i < j ==> LocRelOk(f, dysymtab, vmBase, vmSize, i)
      {
        var lr := locrel + 8 * j;
        assert lr == LocRel(f, dysymtab, j);
        if RelExtern(f, lr) || RelLength(f, lr) != 3 || !RelInBounds(vmBase, vmSize, RelAddress(f, lr)) {
          assert !LocRelOk(f, dysymtab, vmBase, vmSize, j);
          return false;
        }
      }
      return true;
    }

    /** The fields hold what the parser found. */
    ghost predicate Holds(x: Kext)
      reads this, header
    {
      && header[..] == x.file && vmBase == x.vmBase && vmSize == x.vmSize && kmodInfo == x.kmod
      && symtab == x.symtab && dysymtab == x.dysymtab
      && symtab + 24 <= header.Length && nlist == SymOff(x.file, symtab)
      && dysymtab + 80 <= header.Length
      && extrel == ExtRelOff(x.file, dysymtab) && locrel == LocRelOff(x.file, dysymtab)
    }

    method Parse(symbols: SymbolChain) returns (ok: bool)
      requires header.Length >= 32 && AllReadable(symbols.chain) && Wired(symbols.chain)
      requires vmBase == 0 && kmodInfo == 0 && symtab == 0 && dysymtab == 0
      modifies this, header
      ensures match ParseSpec(old(header[..]), symbols.chain)
              case None => !ok
              case Some(x) => ok && Holds(x)
    {
      hide Walk, CheckSymbols, ExternalsOk, LocalsOk, TablesInside, AllReadable, ScanOk;
      hide Magic, FileType, SizeOfCmds, CmdCount, SymOff, SymCount, ExtRelOff, LocRelOff;
      ghost var f := header[..];
      if Magic(header[..]) != MH_MAGIC_64 || FileType(header[..]) != MH_KEXT_BUNDLE {
        return false;
      }
      if CmdsEnd(header[..]) > header.Length {
        return false;
      }
      var vmaddr, found;
      ok, vmaddr, found := WalkCommands();
      if !ok {
        return;
      }
      ghost var s := Walk(Start(f), 32, CmdsEnd(f), CmdCount(f)).value;
      vmSize := Wrap64(vmaddr - vmBase);
      if !found || symtab == 0 || dysymtab == 0 {
        return false;
      }
      ScannedTables(f);
      TablesBounds(s.buf, symtab, dysymtab);
      ok := ValidateSymbols(vmaddr);
      if !ok || kmodInfo == 0 {
        return false;
      }
      SymbolStrings(s.buf, symtab, SymCount(s.buf, symtab), vmBase, vmaddr);
      ok := ValidateExternals(symbols);
      if ok {
        ok := ValidateLocals();
      }
    }

    // ---- kext_alloc ----

    /** `alloc_static` gives `memory`, of the 32-bit size it is asked for, at `address`, or fails. */
    method Alloc(memory: Option<array<byte>>, address: u64) returns (ok: bool)
      requires memory.Some? ==> memory.value.Length == Wrap32(AllocSize(vmSize))
      modifies this`kext, this`kextPtr
      ensures ok <==> AllocPasses(vmSize) && memory.Some?
      ensures ok ==> kext == memory.value && kextPtr == address
    {
      var allocSize := AllocSize(vmSize);
      if Wrap32(allocSize) < vmSize {
        return false;
      }
      if memory.None? {
        return false;
      }
      kext, kextPtr := memory.value, address;
      return true;
    }

    // ---- kext_map ----

    /** The first loop: copies every segment to its place. */
    method CopySegments(ghost x: Kext)
      requires Holds(x) && Walked(x) && CommandsReady(x, kext.Length) && kext != header
      modifies kext
      ensures kext[..] == FileImage(x, old(kext[..])) && header[..] == old(header[..])
    {
      hide Cmd, CmdSize, VmAddr, FileOff, FileSize, Splice, Walked, CommandsReady, FileImage, CmdCount, Passed;
      hide Position, Copy;
      ghost var image := kext[..];
      ImageIsCopy(x, image);
      CopyNone(image, x.file, x.segs, x.vmBase);
      ghost var n := 0;
      var lc, count := 32, CmdCount(header[..]);
      WalkStarts(x);
      for i := 0 to count
        invariant header[..] == x.file && |x.offs| == count
        invariant lc == Position(x.file, x.offs, i) && Passed(x.segs, n, lc) && n <= |x.segs|
        invariant kext[..] == Copy(image, x.file, x.segs, x.vmBase, n)
      {
        WalkTurn(x, i, n, lc);
        if Cmd(header[..], lc) == LC_SEGMENT_64 {
          CopyStep(image, x.file, x.segs, x.vmBase, n);
          var f := header[..];
          var vmoff := VmAddr(f, lc) - vmBase;
          Store(kext, vmoff, f[FileOff(f, lc)..FileOff(f, lc) + FileSize(f, lc)]);
          n := n + 1;
        }
        lc := lc + CmdSize(header[..], lc);
      }
      WalkEnds(x, n);
    }

    /** The second loop, over the mapped copy: sets every segment's static address. */
    method PatchSegments(ghost x: Kext, k: Kernel, ghost image: seq<byte>)
      requires Holds(x) && Walked(x) && CommandsReady(x, kext.Length) && kext != header
      requires |image| == kext.Length && kext[..] == FileImage(x, image)
      modifies kext
      ensures kext[..] == Patch(FileImage(x, image), x.segs, x.vmBase, SaForPtr(k, kextPtr), |x.segs|)
      ensures header[..] == old(header[..])
    {
      hide Cmd, CmdSize, VmAddr, Splice, LE64, IsWalk, SegList, SegChain, Cleaned, SymtabOk, DysymtabOk, FileImage;
      hide Placed, Apart, SizeOfCmds, CmdCount, Passed, SaForPtr;
      ghost var g := FileImage(x, image);
      ghost var n := 0;
      MappedCount(x, image);
      var lc, count := 32, CmdCount(kext[..]);
      WalkStarts(x);
      for i := 0 to count
        invariant header[..] == x.file && |x.offs| == count
        invariant lc == Position(x.file, x.offs, i) && Passed(x.segs, n, lc) && n <= |x.segs|
        invariant kext[..] == Patch(g, x.segs, x.vmBase, SaForPtr(k, kextPtr), n)
      {
        WalkTurn(x, i, n, lc);
        MappedCommand(x, k, kextPtr, image, n, i);
        if Cmd(kext[..], lc) == LC_SEGMENT_64 {
          Store(kext, lc + 24, LE64(Wrap64(VmAddr(kext[..], lc) - vmBase + SaForPtr(k, kextPtr))));
          n := n + 1;
          MappedCommand(x, k, kextPtr, image, n, i);
        }
        lc := lc + CmdSize(kext[..], lc);
      }
      WalkEnds(x, n);
    }

    method Map(ghost x: Kext, k: Kernel)
      requires Holds(x) && Walked(x) && CommandsReady(x, kext.Length) && kext != header
      modifies kext
      ensures kext[..] == MapImage(x, k, kextPtr, old(kext[..])) && header[..] == old(header[..])
    {
      hide Splice, LE64, FileImage, Patch, SaForPtr, Walked, Placed, Apart, SegsInside;
      ghost var image := kext[..];
      CopySegments(x);
      PatchSegments(x, k, image);
      var vmoff := kmodInfo - vmBase;
      Store(kext, vmoff + 156, LE64(SaForPtr(k, kextPtr)));
      Store(kext, vmoff + 164, LE64(vmSize));
    }

    // ---- kext_relocate and kext_link ----

    /** Applies the local relocations; the count is read from the mapped command in every round. */
    method Relocate(ghost x: Kext, k: Kernel)
      requires Holds(x) && kext != header && LocalsReady(x, kext.Length)
      requires x.symtab + 24 <= kext.Length && x.dysymtab + 80 <= kext.Length
      requires LocRelCount(kext[..], x.dysymtab) == LocCount(x)
      requires forall j :: 0 <= j < LocCount(x) ==> Clear(LocSlot(x, j), x.dysymtab + 76, x.dysymtab + 80)
      modifies kext
      ensures kext[..] == RelocateImage(x, k, kextPtr, old(kext[..])) && header[..] == old(header[..])
    {
      hide Splice, LE64, LE32, RelExtern, RelLength, Slot, U64At, LocRelOff, LocRelCount, KextSlide, VaForPtr;
      ghost var m := kext[..];
      var kextVaSlide := Wrap64(VaForPtr(k, kextPtr) - vmBase);
      assert kextVaSlide == KextSlide(k, kextPtr, x.vmBase) by { SlideIs(k, kextPtr, vmBase); }
      LocSlots(x, kext.Length);
      var j := 0;
      while j < LocRelCount(kext[..], dysymtab)
        invariant header[..] == x.file && j <= LocCount(x) == LocRelCount(kext[..], dysymtab)
        invariant kext[..] == KextImage.Relocate(m, x.file, locrel, x.vmBase, kextVaSlide, j)
        decreases LocCount(x) - j
      {
        var f := header[..];
        var lr := locrel + 8 * j;
        assert Slot(x.file, lr, x.vmBase) + 8 <= kext.Length;
        LocCountStays(x, m, kextVaSlide, j);
        if !(RelExtern(f, lr) || RelLength(f, lr) != 3) {
          var vmoff := Slot(f, lr, vmBase);
          Store(kext, vmoff, LE64(Wrap64(U64At(kext[..], vmoff) + kextVaSlide)));
        }
        j := j + 1;
      }
      Store(kext, dysymtab + 76, LE32(0));
      Store(kext, symtab + 12, LE32(0));
    }

    /** Resolves the external relocations; names come from the string table of the unmapped file. */
    method Link(ghost x: Kext, k: Kernel, symbols: SymbolChain)
      requires Holds(x) && kext != header && ExternalsReady(x, symbols.chain, kext.Length) && Wired(symbols.chain)
      requires x.symtab + 24 <= kext.Length && x.dysymtab + 80 <= kext.Length
      requires ExtRelCount(kext[..], x.dysymtab) == ExtCount(x)
      requires StrOff(kext[..], x.symtab) == StrOff(x.file, x.symtab)
      requires forall j :: 0 <= j < ExtCount(x) ==> Clear(ExtSlot(x, j), x.dysymtab + 68, x.dysymtab + 72)
      modifies kext
      ensures kext[..] == LinkImage(x, k, symbols.chain, old(kext[..])) && header[..] == old(header[..])
    {
      hide Splice, LE64, LE32, RelExtern, RelLength, RelSymbol, Slot, ExtRelOff, ExtRelCount, VaForSa;
      hide AllReadable, StrIndex, StrOff, SymOff, CStr, ChainLookup, Target;
      ghost var m := kext[..];
      ghost var chain := symbols.chain;
      var strtab := StrOff(kext[..], symtab);
      ExtSlots(x, chain, kext.Length);
      var j := 0;
      while j < ExtRelCount(kext[..], dysymtab)
        invariant header[..] == x.file && symbols.chain == chain && j <= ExtCount(x) == ExtRelCount(kext[..], dysymtab)
        invariant kext[..] == KextImage.Link(m, x.file, x.symtab, extrel, x.vmBase, k, chain, j)
        decreases ExtCount(x) - j
      {
        var f := header[..];
        var er := extrel + 8 * j;
        assert Slot(x.file, er, x.vmBase) + 8 <= kext.Length;
        ExtCountStays(x, m, k, chain, j);
        if !(!RelExtern(f, er) || RelLength(f, er) != 3) {
          var nl := nlist + 16 * RelSymbol(f, er);
          assert nl == Nlist(f, symtab, RelSymbol(f, er));
          var name := CStr(f, strtab + StrIndex(f, nl));
          var symbolSa := symbols.Lookup(name);
          assert symbolSa == Resolved(f, x.symtab, er, chain);
          if symbolSa != 0 {
            Store(kext, Slot(f, er, vmBase), LE64(VaForSa(k, symbolSa)));
          }
        }
        j := j + 1;
      }
      Store(kext, dysymtab + 68, LE32(0));
    }
  }

  lemma SlideIs(k: Kernel, kext: u64, vmBase: u64)
    ensures KextSlide(k, kext, vmBase) == Wrap64(VaForPtr(k, kext) - vmBase)
  {
  }

  /** No slot reaches the counter that the loop reads. */
  lemma LocCountStays(x: Kext, m: seq<byte>, slide: u64, j: nat)
    requires LocalsReady(x, |m|) && x.dysymtab + 80 <= |m| && j < LocCount(x)
    requires forall i :: 0 <= i < LocCount(x) ==> Clear(LocSlot(x, i), x.dysymtab + 76, x.dysymtab + 80)
    requires forall i :: 0 <= i < LocCount(x) ==>
               Slot(x.file, LocRelOff(x.file, x.dysymtab) + 8 * i, x.vmBase) + 8 <= |m|
    ensures var r := KextImage.Relocate(m, x.file, LocRelOff(x.file, x.dysymtab), x.vmBase, slide, j + 1);
            LocRelCount(r, x.dysymtab) == LocRelCount(m, x.dysymtab)
  {
    hide Slot, RelExtern, RelLength, U32At, KextImage.Relocate, Agree;
    var table := LocRelOff(x.file, x.dysymtab);
    forall i | 0 <= i < j + 1
      ensures Clear(Slot(x.file, table + 8 * i, x.vmBase), x.dysymtab + 76, x.dysymtab + 80)
    {
      assert Clear(LocSlot(x, i), x.dysymtab + 76, x.dysymtab + 80);
    }
    RelocateLeaves(m, x.file, table, x.vmBase, slide, j + 1, x.dysymtab + 76, x.dysymtab + 80);
    AgreeWord(m, KextImage.Relocate(m, x.file, table, x.vmBase, slide, j + 1), x.dysymtab + 76);
  }

  lemma ExtCountStays(x: Kext, m: seq<byte>, k: Kernel, chain: seq<SymbolTable>, j: nat)
    requires ExternalsReady(x, chain, |m|) && x.dysymtab + 80 <= |m| && j < ExtCount(x)
    requires forall i :: 0 <= i < ExtCount(x) ==> Clear(ExtSlot(x, i), x.dysymtab + 68, x.dysymtab + 72)
    requires forall i :: 0 <= i < ExtCount(x) ==>
               Slot(x.file, ExtRelOff(x.file, x.dysymtab) + 8 * i, x.vmBase) + 8 <= |m|
    ensures var r := KextImage.Link(m, x.file, x.symtab, ExtRelOff(x.file, x.dysymtab), x.vmBase, k, chain, j + 1);
            ExtRelCount(r, x.dysymtab) == ExtRelCount(m, x.dysymtab)
  {
    hide Slot, RelExtern, RelLength, RelSymbol, U32At, KextImage.Link, Agree, AllReadable, Target, LinkName, Nlist;
    var table := ExtRelOff(x.file, x.dysymtab);
    forall i | 0 <= i < j + 1
      ensures Clear(Slot(x.file, table + 8 * i, x.vmBase), x.dysymtab + 68, x.dysymtab + 72)
    {
      assert Clear(ExtSlot(x, i), x.dysymtab + 68, x.dysymtab + 72);
    }
    LinkLeaves(m, x.file, x.symtab, table, x.vmBase, k, chain, j + 1, x.dysymtab + 68, x.dysymtab + 72);
    AgreeWord(m, KextImage.Link(m, x.file, x.symtab, table, x.vmBase, k, chain, j + 1), x.dysymtab + 68);
  }

  /** The tables that the accepting walk recorded lie in the file. */
  lemma ScannedTables(f: seq<byte>)
    requires |f| >= 32 && CmdsEnd(f) <= |f| && Walk(Start(f), 32, CmdsEnd(f), CmdCount(f)).Some?
    requires var s := FinalScan(f); s.symtab != 0 && s.dysymtab != 0
    ensures var s := FinalScan(f); TablesInside(s.buf, s.symtab, s.dysymtab)
  {
    hide Walk, TablesInside, ScanOk;
    StartOk(f, CmdsEnd(f));
    WalkKeeps(Start(f), 32, CmdsEnd(f), CmdCount(f));
    ScanTables(FinalScan(f), CmdsEnd(f));
  }

  lemma TablesBounds(f: seq<byte>, symtab: nat, dysymtab: nat)
    requires TablesInside(f, symtab, dysymtab)
    ensures symtab + 24 <= |f| && SymOff(f, symtab) + SymCount(f, symtab) * 16 <= |f|
    ensures dysymtab + 80 <= |f| && LocRelOff(f, dysymtab) + LocRelCount(f, dysymtab) * 8 <= |f|
  {
  }

  // ---- The load-command loops ----

  lemma WalkStarts(x: Kext)
    requires Walked(x)
    ensures |x.offs| == CmdCount(x.file) && (forall j :: 0 <= j < |x.offs| ==> x.offs[j] + 8 <= |x.file|)
    ensures Position(x.file, x.offs, 0) == 32 && Passed(x.segs, 0, 32)
  {
    hide Cmd, CmdSize, SegChain, SymtabOk, DysymtabOk, Cleaned;
    forall j | 0 <= j < |x.segs|
      ensures 32 <= x.segs[j]
    {
      assert SegCommand(x.file, x.offs, x.segs[j], CmdsEnd(x.file));
    }
  }

  lemma WalkAt(x: Kext, i: nat)
    requires Walked(x) && i < |x.offs|
    ensures forall j :: 0 <= j < |x.offs| ==> x.offs[j] + 8 <= |x.file|
    ensures Position(x.file, x.offs, i) == x.offs[i] && x.offs[i] + 8 <= CmdsEnd(x.file) <= |x.file|
    ensures Position(x.file, x.offs, i + 1) == x.offs[i] + CmdSize(x.file, x.offs[i])
  {
    hide Cmd, CmdSize, SegChain, SegList, SymtabOk, DysymtabOk, Cleaned;
    if i > 0 {
      assert x.offs[(i - 1) + 1] == x.offs[i - 1] + CmdSize(x.file, x.offs[i - 1]);
    }
  }

  /** Turn `i` of a load-command loop that stands at `lc` and has met `n` segments. */
  lemma WalkTurn(x: Kext, i: nat, n: nat, lc: nat)
    requires Walked(x) && i < |x.offs| && (forall j :: 0 <= j < |x.offs| ==> x.offs[j] + 8 <= |x.file|)
    requires lc == Position(x.file, x.offs, i) && Passed(x.segs, n, lc)
    ensures lc == x.offs[i] && lc + 8 <= |x.file| && Position(x.file, x.offs, i + 1) == lc + CmdSize(x.file, lc)
    ensures if Cmd(x.file, lc) == LC_SEGMENT_64
            then n < |x.segs| && x.segs[n] == lc && Passed(x.segs, n + 1, lc + CmdSize(x.file, lc))
            else Passed(x.segs, n, lc + CmdSize(x.file, lc))
  {
    hide Cmd, CmdSize, SegChain, SymtabOk, DysymtabOk, Cleaned, IsWalk, SegList, Passed, Position;
    WalkAt(x, i);
    SegmentTurn(x.file, x.offs, x.segs, CmdsEnd(x.file), i, n);
  }

  lemma ImageIsCopy(x: Kext, image: seq<byte>)
    requires CommandsReady(x, |image|)
    ensures |x.file| >= 32 && Placed(x.file, x.segs, x.vmBase, |image|)
    ensures FileImage(x, image) == Copy(image, x.file, x.segs, x.vmBase, |x.segs|)
  {
    hide Placed, Apart, Copy;
  }

  lemma WalkEnds(x: Kext, n: nat)
    requires Walked(x) && (forall j :: 0 <= j < |x.offs| ==> x.offs[j] + 8 <= |x.file|)
    requires Passed(x.segs, n, Position(x.file, x.offs, |x.offs|))
    ensures n == |x.segs|
  {
    hide Cmd, CmdSize, SegChain, SymtabOk, DysymtabOk, Cleaned, IsWalk, Passed;
    assert SegCommand(x.file, x.offs, x.segs[0], CmdsEnd(x.file));
    AllPassed(x.file, x.offs, x.segs, CmdsEnd(x.file), n);
  }

  lemma MappedCount(x: Kext, image: seq<byte>)
    requires CommandsReady(x, |image|)
    ensures CmdCount(FileImage(x, image)) == CmdCount(x.file)
  {
    hide FileImage, Placed, Apart;
    HeaderMapped(x, image);
    AgreeWord(x.file, FileImage(x, image), 16);
  }

  /** In the mapped copy, however many segments are patched, command `i` reads as in the file. */
  lemma MappedCommand(x: Kext, k: Kernel, kext: u64, image: seq<byte>, n: nat, i: nat)
    requires Walked(x) && CommandsReady(x, |image|) && n <= |x.segs| && i < |x.offs|
    ensures var p := Patch(FileImage(x, image), x.segs, x.vmBase, SaForPtr(k, kext), n); var o := x.offs[i];
            && o + 8 <= |p| && o + 8 <= |x.file| && Cmd(p, o) == Cmd(x.file, o) && CmdSize(p, o) == CmdSize(x.file, o)
  {
    hide FileImage, Patch, Placed, Apart, Walked, Cmd, CmdSize;
    HeaderUnpatched(x, image, k, kext, n, i);
    AgreeCommand(x.file, Patch(FileImage(x, image), x.segs, x.vmBase, SaForPtr(k, kext), n), x.offs[i]);
  }

  lemma SymbolFails(f: seq<byte>, symtab: nat, i: nat, vmBase: u64, vmEnd: u64)
    requires symtab + 24 <= |f| && i < SymCount(f, symtab) && SymOff(f, symtab) + SymCount(f, symtab) * 16 <= |f|
    requires CheckSymbols(f, symtab, i + 1, vmBase, vmEnd).None?
    ensures CheckSymbols(f, symtab, SymCount(f, symtab), vmBase, vmEnd).None?
  {
    SymbolsFail(f, symtab, i + 1, SymCount(f, symtab), vmBase, vmEnd);
  }

  lemma {:induction false} SymbolsFail(f: seq<byte>, symtab: nat, i: nat, n: nat, vmBase: u64, vmEnd: u64)
    requires symtab + 24 <= |f| && i <= n && SymOff(f, symtab) + n * 16 <= |f|
    requires CheckSymbols(f, symtab, i, vmBase, vmEnd).None?
    ensures CheckSymbols(f, symtab, n, vmBase, vmEnd).None?
  {
    hide SymOff, CheckSymbol;
    if i < n {
      SymbolsFail(f, symtab, i, n - 1, vmBase, vmEnd);
    }
  }

  // ---- The command ----

  /** What the "kextload" command relies on, and the parser does not check: the relocations of an accepted
      kext are at or above its base, and no store reaches a word that the loader still reads. */
  ghost predicate Loadable(f: seq<byte>, chain: seq<SymbolTable>)
    requires |f| < TWO_32 && AllReadable(chain)
  {
    |f| >= 0x4000 && ParseSpec(f, chain).Some? ==>
      var x := ParseSpec(f, chain).value;
      AllocPasses(x.vmSize) ==> LocalsAtBase(x) && ExternalsAtBase(x) && ApartAt(f, chain, x)
  }

  ghost predicate ApartAt(f: seq<byte>, chain: seq<SymbolTable>, x: Kext)
    requires 32 <= |f| < TWO_32 && AllReadable(chain) && ParseSpec(f, chain) == Some(x)
    requires LocalsAtBase(x) && ExternalsAtBase(x) && AllocPasses(x.vmSize)
  {
    AcceptedIsReady(f, chain, AllocSize(x.vmSize));
    CountersApart(x, chain, AllocSize(x.vmSize))
  }

  /** The fields of the mapped symbol-table commands that the later stages read are those of the file. */
  lemma MappedTables(x: Kext, k: Kernel, kext: u64, chain: seq<SymbolTable>, image: seq<byte>)
    requires Ready(x, chain, |image|) && CountersApart(x, chain, |image|)
    ensures var m := MapImage(x, k, kext, image); var r := RelocateImage(x, k, kext, m);
            && LocRelCount(m, x.dysymtab) == LocCount(x)
            && ExtRelCount(r, x.dysymtab) == ExtCount(x) && StrOff(r, x.symtab) == StrOff(x.file, x.symtab)
  {
    hide FileImage, MapImage, RelocateImage, Agree, AllReadable, Target, Placed, Apart, Linkable, U32At, WordApart;
    var m := MapImage(x, k, kext, image);
    MappedWord(x, k, kext, image, x.dysymtab + 76);
    MappedWord(x, k, kext, image, x.dysymtab + 68);
    MappedWord(x, k, kext, image, x.symtab + 16);
    RelocatedWord(x, k, kext, m, x.dysymtab + 68);
    RelocatedWord(x, k, kext, m, x.symtab + 16);
  }

  lemma MappedWord(x: Kext, k: Kernel, kext: u64, image: seq<byte>, o: nat)
    requires CommandsReady(x, |image|) && LocalsReady(x, |image|) && WordApart(x, |image|, o)
    requires (x.symtab <= o && o + 4 <= x.symtab + 24) || (x.dysymtab <= o && o + 4 <= x.dysymtab + 80)
    ensures U32At(MapImage(x, k, kext, image), o) == U32At(x.file, o)
  {
    hide FileImage, MapImage, AllReadable, Target, Placed, Apart, Linkable, U32At, LocalsReady;
    HeaderMapped(x, image);
    MapLeaves(x, k, kext, image, o, o + 4);
    AgreeWord(x.file, FileImage(x, image), o);
    AgreeWord(FileImage(x, image), MapImage(x, k, kext, image), o);
  }

  lemma RelocatedWord(x: Kext, k: Kernel, kext: u64, m: seq<byte>, o: nat)
    requires CommandsReady(x, |m|) && LocalsReady(x, |m|) && WordApart(x, |m|, o)
    requires o == x.dysymtab + 68 || o == x.symtab + 16
    ensures U32At(RelocateImage(x, k, kext, m), o) == U32At(m, o)
  {
    hide RelocateImage, AllReadable, Target, Placed, Apart, Linkable, U32At;
    RelocateImageLeaves(x, k, kext, m, o, o + 4);
    AgreeWord(m, RelocateImage(x, k, kext, m), o);
  }

  lemma ApartParts(x: Kext, chain: seq<SymbolTable>, size: nat)
    requires Ready(x, chain, size) && CountersApart(x, chain, size)
    ensures x.symtab + 24 <= size && x.dysymtab + 80 <= size && LocalsReady(x, size) && ExternalsReady(x, chain, size)
    ensures CommandsReady(x, size)
    ensures forall j :: 0 <= j < LocCount(x) ==> Clear(LocSlot(x, j), x.dysymtab + 76, x.dysymtab + 80)
    ensures forall j :: 0 <= j < ExtCount(x) ==> Clear(ExtSlot(x, j), x.dysymtab + 68, x.dysymtab + 72)
  {
    hide AllReadable, Target, Placed, Apart, Clear;
  }

  /** The "kextload" command. On success the memory that `alloc_static` gave is the mapped, relocated and
      linked file, and that is the specified image, relative to what the memory held before, where the slots
      are separate, and where they are merely behind and aligned exactly under the stated condition; and in the
      prelink section, if that has a footer, there is a dictionary whose numbers are the kext's address, its
      size and the address of its `kmod_info` in the image. On failure the section is as it was. */
  method CommandKextload(data: array<byte>, symbols: SymbolChain, k: Kernel,
                         memory: Option<array<byte>>, address: u64,
                         prelink: PrelinkSection, template: seq<byte>) returns (info: KextLoadInfo, ok: bool)
    requires data.Length < TWO_32 && AllReadable(symbols.chain) && Wired(symbols.chain)
    requires Loadable(data[..], symbols.chain)
    requires memory.Some? ==> memory.value != data && memory.value != prelink.mem
    requires prelink.mem != data && Template(template) && CanInsert(prelink.State(), template)
    requires memory.Some? && data.Length >= 0x4000 && ParseSpec(data[..], symbols.chain).Some? ==>
               memory.value.Length == Wrap32(AllocSize(ParseSpec(data[..], symbols.chain).value.vmSize))
    modifies data, prelink, prelink.mem, if memory.Some? then {memory.value} else {}
    ensures fresh(info)
    ensures ok <==> data.Length >= 0x4000 && memory.Some? && ParseSpec(old(data[..]), symbols.chain).Some?
                    && AllocPasses(ParseSpec(old(data[..]), symbols.chain).value.vmSize)
    ensures ok ==>
              var x := ParseSpec(old(data[..]), symbols.chain).value;
              var image, after := old(if memory.Some? then memory.value[..] else []), memory.value[..];
              && info.Holds(x) && info.kext == memory.value && info.kextPtr == address
              && Ready(x, symbols.chain, |image|)
              && HoldsFile(FileImage(x, image), image, x.file, x.segs, x.vmBase)
              && after == LoadImage(x, k, address, symbols.chain, image)
              && (Separate(x, symbols.chain, |image|) ==>
                    Loaded(x, symbols.chain, k, address, FileImage(x, image), after))
              && (Behind(x, symbols.chain, |image|) && Aligned(x, symbols.chain, |image|) ==>
                    (Loaded(x, symbols.chain, k, address, FileImage(x, image), after) <==>
                     SlidesCancel(x, |image|, KextSlide(k, address, x.vmBase))
                     && SharersAgree(x, symbols.chain, |image|)))
              && (match Insert(old(prelink.State()), template,
                               KextRecord(k, address, x.vmSize, Wrap64(address + x.kmod - x.vmBase)))
                  case None => prelink.State() == old(prelink.State())
                  case Some(s) => prelink.State() == s)
              && Inserted(old(prelink.State()), prelink.State(), template, k, address, x.vmSize,
                          Wrap64(address + x.kmod - x.vmBase))
    ensures !ok ==> prelink.State() == old(prelink.State())
  {
    hide Insert, Template, CanInsert, KextRecord, Inserted;
    hide ParseSpec, AllReadable, AllocSize, AllocPasses, Ready, Separate, MapImage, RelocateImage, LinkImage;
    hide Loaded, HoldsFile, FileImage, Walked, CommandsReady, LocalsReady, ExternalsReady, LocCount, ExtCount;
    hide LocSlot, ExtSlot, LocRelCount, ExtRelCount, StrOff, CountersApart, Clear, LocalsAtBase, ExternalsAtBase;
    hide Behind, Aligned, SlidesCancel, SharersAgree, KextSlide;
    ghost var f, chain := data[..], symbols.chain;
    ghost var image := if memory.Some? then memory.value[..] else [];
    info := new KextLoadInfo(data);
    if data.Length < 0x4000 {
      return info, false;
    }
    ok := info.Parse(symbols);
    if !ok {
      return;
    }
    ghost var x := ParseSpec(f, chain).value;
    ok := info.Alloc(memory, address);
    if !ok {
      return;
    }
    AcceptedWalk(f, chain);
    AcceptedIsReady(f, chain, AllocSize(x.vmSize));
    AllocIsExact(x.vmSize);
    ApartParts(x, chain, |image|);
    MappedTables(x, k, address, chain, image);
    info.Map(x, k);
    info.Relocate(x, k);
    info.Link(x, k, symbols);
    ImageHoldsFile(x, image);
    if Behind(x, chain, |image|) && Aligned(x, chain, |image|) {
      LoadedExactly(x, k, address, chain, image);
    }
    if Separate(x, chain, |image|) {
      LoadMeetsSpecification(x, k, address, chain, image);
    }
    var record := KextRecord(k, info.kextPtr, info.vmSize, Wrap64(info.kextPtr + info.kmodInfo - info.vmBase));
    InsertDescribes(prelink.State(), template, k, address, x.vmSize, Wrap64(address + x.kmod - x.vmBase));
    var _ := prelink.KextInsert(template, record);
  }
}
