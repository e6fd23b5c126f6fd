/** The checks of `kext_parse` on symbols and relocations, and what it makes of a file as a whole. */
module KextParse {
  import opened Machine
  import opened AsciiText
  import opened MachO
  import opened KextScan
  import opened DeviceSymbols

  // "_kmod_info"
  const KMOD_INFO_NAME: seq<byte> := [95, 107, 109, 111, 100, 95, 105, 110, 102, 111]

  /** What `kext_parse` leaves behind: the edited file and the load information. */
  datatype Kext = Kext(file: seq<byte>, offs: seq<nat>, segs: seq<nat>, vmBase: u64, vmSize: u64,
                       symtab: nat, dysymtab: nat, kmod: u64)

  /** The end of the load commands. */
  function CmdsEnd(f: seq<byte>): nat
    requires |f| >= 32
  {
    32 + SizeOfCmds(f)
  }

  // ---- Symbols ----

  /** The tables that the commands point to lie in the file. */
  ghost predicate TablesInside(f: seq<byte>, symtab: nat, dysymtab: nat) {
    && symtab + 24 <= |f| && SymOff(f, symtab) + SymCount(f, symtab) * 16 <= |f| && StrOff(f, symtab) < |f|
    && dysymtab + 80 <= |f|
    && ExtRelOff(f, dysymtab) + ExtRelCount(f, dysymtab) * 8 <= |f|
    && LocRelOff(f, dysymtab) + LocRelCount(f, dysymtab) * 8 <= |f|
  }

  function Nlist(f: seq<byte>, symtab: nat, i: nat): nat
    requires symtab + 24 <= |f|
  {
    SymOff(f, symtab) + 16 * i
  }

  /** The string offset of symbol `i` as the parser computes it: a 32-bit sum. */
  function Stroff(f: seq<byte>, symtab: nat, i: nat): u32
    requires symtab + 24 <= |f| && Nlist(f, symtab, i) + 16 <= |f|
  {
    Wrap32(StrOff(f, symtab) + StrIndex(f, Nlist(f, symtab, i)))
  }

  /** The symbol's string starts in the file, without a wrap, and ends there. */
  predicate StringOk(f: seq<byte>, symtab: nat, i: nat)
    requires symtab + 24 <= |f| && Nlist(f, symtab, i) + 16 <= |f|
  {
    var o := Stroff(f, symtab, i);
    StrOff(f, symtab) <= o < |f| && Terminated(f, o)
  }

  /** The checks on symbol `i`; `kmod` is the `_kmod_info` address found so far, 0 for none. */
  function CheckSymbol(f: seq<byte>, symtab: nat, i: nat, vmBase: u64, vmEnd: u64, kmod: u64): Option<u64>
    requires symtab + 24 <= |f| && Nlist(f, symtab, i) + 16 <= |f|
  {
    var nl := Nlist(f, symtab, i);
    var value := SymValue(f, nl);
    if !StringOk(f, symtab, i) then None
    else if InSection(f, nl) && (value < vmBase || vmEnd < value) then None
    else if CStr(f, Stroff(f, symtab, i)) != KMOD_INFO_NAME then Some(kmod)
    else if kmod != 0 || !InSection(f, nl) then None
    else if Wrap64(value + 196) < value || Wrap64(value + 196) > vmEnd then None
    else Some(value)
  }

  /** The state after the first `n` symbols. */
  function CheckSymbols(f: seq<byte>, symtab: nat, n: nat, vmBase: u64, vmEnd: u64): Option<u64>
    requires symtab + 24 <= |f| && SymOff(f, symtab) + n * 16 <= |f|
  {
    if n == 0 then Some(0) else
      match CheckSymbols(f, symtab, n - 1, vmBase, vmEnd)
      case None => None
      case Some(kmod) => CheckSymbol(f, symtab, n - 1, vmBase, vmEnd, kmod)
  }

  // ---- Relocations ----

  /** The bounds test on a relocation address, 64-bit sums included. */
  predicate RelInBounds(vmBase: u64, vmSize: u64, address: int) {
    var v := Wrap64(vmBase + address);
    vmBase <= v <= vmSize && Wrap64(v + 8) <= vmSize
  }

  /** The test passes exactly the addresses whose eight bytes lie between the base and the size, counted from the
      base; no negative one and no sum that wraps does. */
  lemma InBoundsExactly(vmBase: u64, vmSize: u64, address: int)
    requires -0x8000_0000 <= address < 0x8000_0000 && vmSize < TWO_64 - 0x8000_0000
    ensures RelInBounds(vmBase, vmSize, address) <==> 0 <= address && vmBase + address + 8 <= vmSize
  {
  }

  /** The name that is searched for. */
  lemma KmodName()
    ensures KMOD_INFO_NAME == Text("_kmod_info")
  {
  }

  function ExtRel(f: seq<byte>, dysymtab: nat, j: nat): nat
    requires dysymtab + 80 <= |f|
  {
    ExtRelOff(f, dysymtab) + 8 * j
  }

  function LocRel(f: seq<byte>, dysymtab: nat, j: nat): nat
    requires dysymtab + 80 <= |f|
  {
    LocRelOff(f, dysymtab) + 8 * j
  }

  /** External relocation `j` is well formed, resolves, and writes inside the kext. */
  predicate ExtRelOk(f: seq<byte>, symtab: nat, dysymtab: nat, vmBase: u64, vmSize: u64,
                     chain: seq<SymbolTable>, j: nat)
    requires symtab + 24 <= |f| && dysymtab + 80 <= |f| && ExtRel(f, dysymtab, j) + 8 <= |f|
    requires SymOff(f, symtab) + SymCount(f, symtab) * 16 <= |f| && AllReadable(chain)
    requires forall i :: 0 <= i < SymCount(f, symtab) ==> Stroff(f, symtab, i) <= |f|
  {
    var er := ExtRel(f, dysymtab, j);
    && RelExtern(f, er) && RelLength(f, er) == 3 && RelSymbol(f, er) < SymCount(f, symtab)
    && ChainLookup(chain, CStr(f, Stroff(f, symtab, RelSymbol(f, er)))) != 0
    && RelInBounds(vmBase, vmSize, RelAddress(f, er))
  }

  predicate LocRelOk(f: seq<byte>, dysymtab: nat, vmBase: u64, vmSize: u64, j: nat)
    requires dysymtab + 80 <= |f| && LocRel(f, dysymtab, j) + 8 <= |f|
  {
    var lr := LocRel(f, dysymtab, j);
    !RelExtern(f, lr) && RelLength(f, lr) == 3 && RelInBounds(vmBase, vmSize, RelAddress(f, lr))
  }

  // ---- Acceptance ----

  /** All symbols have strings in the file. */
  lemma {:induction false} SymbolStrings(f: seq<byte>, symtab: nat, n: nat, vmBase: u64, vmEnd: u64)
    requires symtab + 24 <= |f| && SymOff(f, symtab) + n * 16 <= |f|
    requires CheckSymbols(f, symtab, n, vmBase, vmEnd).Some?
    ensures forall i :: 0 <= i < n ==> StringOk(f, symtab, i)
  {
    hide StringOk, InSection, SymValue, SymOff, StrOff, StrIndex, CStr;
    if n != 0 {
      SymbolStrings(f, symtab, n - 1, vmBase, vmEnd);
    }
  }

  predicate IsKmod(f: seq<byte>, symtab: nat, i: nat)
    requires symtab + 24 <= |f| && Nlist(f, symtab, i) + 16 <= |f|
  {
    Stroff(f, symtab, i) <= |f| && CStr(f, Stroff(f, symtab, i)) == KMOD_INFO_NAME
  }

  function ValueOf(f: seq<byte>, symtab: nat, i: nat): u64
    requires symtab + 24 <= |f| && Nlist(f, symtab, i) + 16 <= |f|
  {
    SymValue(f, Nlist(f, symtab, i))
  }

  /** The symbol is well formed by itself. */
  predicate SymbolFits(f: seq<byte>, symtab: nat, i: nat, vmBase: u64, vmEnd: u64)
    requires symtab + 24 <= |f| && Nlist(f, symtab, i) + 16 <= |f|
  {
    && StringOk(f, symtab, i)
    && (InSection(f, Nlist(f, symtab, i)) ==> vmBase <= ValueOf(f, symtab, i) <= vmEnd)
    && (IsKmod(f, symtab, i) ==> InSection(f, Nlist(f, symtab, i)) && ValueOf(f, symtab, i) + 196 <= vmEnd)
  }

  /** The first `n` symbols are well formed, and `kmod` is the value of the one `_kmod_info`; such symbols with
      the value 0 in front of it do not count. */
  ghost predicate SymbolFacts(f: seq<byte>, symtab: nat, n: nat, vmBase: u64, vmEnd: u64, kmod: u64)
    requires symtab + 24 <= |f| && SymOff(f, symtab) + n * 16 <= |f|
  {
    && (forall i :: 0 <= i < n ==> SymbolFits(f, symtab, i, vmBase, vmEnd))
    && (forall i, j :: 0 <= i < j < n && IsKmod(f, symtab, i) && IsKmod(f, symtab, j) ==> ValueOf(f, symtab, i) == 0)
    && (kmod != 0 ==> exists i :: 0 <= i < n && IsKmod(f, symtab, i) && ValueOf(f, symtab, i) == kmod)
    && (kmod == 0 ==> forall i :: 0 <= i < n && IsKmod(f, symtab, i) ==> ValueOf(f, symtab, i) == 0)
  }

  lemma FactsStep(f: seq<byte>, symtab: nat, n: nat, vmBase: u64, vmEnd: u64, kmod: u64)
    requires n > 0 && symtab + 24 <= |f| && SymOff(f, symtab) + n * 16 <= |f|
    ensures SymbolFacts(f, symtab, n, vmBase, vmEnd, kmod) <==>
            && SymbolFits(f, symtab, n - 1, vmBase, vmEnd)
            && if IsKmod(f, symtab, n - 1)
               then SymbolFacts(f, symtab, n - 1, vmBase, vmEnd, 0) && kmod == ValueOf(f, symtab, n - 1)
               else SymbolFacts(f, symtab, n - 1, vmBase, vmEnd, kmod)
  {
    hide SymOff, IsKmod, ValueOf, SymbolFits;
    if SymbolFacts(f, symtab, n, vmBase, vmEnd, kmod) && IsKmod(f, symtab, n - 1) {
      assert forall i :: 0 <= i < n - 1 && IsKmod(f, symtab, i) ==> ValueOf(f, symtab, i) == 0;
    }
  }

  lemma NoFacts(f: seq<byte>, symtab: nat, vmBase: u64, vmEnd: u64, kmod: u64)
    requires symtab + 24 <= |f| && SymOff(f, symtab) <= |f|
    ensures SymbolFacts(f, symtab, 0, vmBase, vmEnd, kmod) <==> kmod == 0
  {
  }

  /** The symbol loop accepts exactly these facts. */
  lemma {:induction false} SymbolsExactly(f: seq<byte>, symtab: nat, n: nat, vmBase: u64, vmEnd: u64, kmod: u64)
    requires symtab + 24 <= |f| && SymOff(f, symtab) + n * 16 <= |f|
    ensures CheckSymbols(f, symtab, n, vmBase, vmEnd) == Some(kmod) <==> SymbolFacts(f, symtab, n, vmBase, vmEnd, kmod)
  {
    hide SymOff, IsKmod, ValueOf, SymbolFits, SymbolFacts, CheckSymbol;
    if n == 0 {
      NoFacts(f, symtab, vmBase, vmEnd, kmod);
    } else {
      FactsStep(f, symtab, n, vmBase, vmEnd, kmod);
      SymbolsExactly(f, symtab, n - 1, vmBase, vmEnd, 0);
      SymbolsExactly(f, symtab, n - 1, vmBase, vmEnd, kmod);
      var before := CheckSymbols(f, symtab, n - 1, vmBase, vmEnd);
      if before.Some? {
        SymbolExactly(f, symtab, n - 1, vmBase, vmEnd, before.value);
      }
    }
  }

  lemma SymbolExactly(f: seq<byte>, symtab: nat, i: nat, vmBase: u64, vmEnd: u64, kmod: u64)
    requires symtab + 24 <= |f| && Nlist(f, symtab, i) + 16 <= |f|
    ensures CheckSymbol(f, symtab, i, vmBase, vmEnd, kmod) ==
            if !SymbolFits(f, symtab, i, vmBase, vmEnd) || (IsKmod(f, symtab, i) && kmod != 0) then None
            else if IsKmod(f, symtab, i) then Some(ValueOf(f, symtab, i)) else Some(kmod)
  {
    hide InSection, SymValue, SymOff, StrOff, StrIndex, CStr, Terminated;
  }

  lemma StringsInside(f: seq<byte>, symtab: nat, n: nat)
    requires symtab + 24 <= |f| && SymOff(f, symtab) + n * 16 <= |f|
    requires forall i :: 0 <= i < n ==> StringOk(f, symtab, i)
    ensures forall i :: 0 <= i < n ==> Stroff(f, symtab, i) <= |f|
  {
    hide SymOff, StrOff, StrIndex, Terminated;
    forall i | 0 <= i < n
      ensures Stroff(f, symtab, i) <= |f|
    {
      assert StringOk(f, symtab, i);
    }
  }

  lemma StartOk(f: seq<byte>, end: nat)
    requires 32 <= end <= |f|
    ensures ScanOk(Start(f), end) && Next(f, []) == 32
  {
    assert IsWalk(f, [], end);
    assert SegList(f, [], [], end);
    assert SegChain(f, [], end, 0, 0, |f|);
    assert Cleaned(f, []);
  }

  /** Every external relocation passes its checks. */
  ghost predicate ExternalsOk(f: seq<byte>, symtab: nat, dysymtab: nat, vmBase: u64, vmSize: u64,
                              chain: seq<SymbolTable>)
    requires TablesInside(f, symtab, dysymtab) && AllReadable(chain)
    requires forall i :: 0 <= i < SymCount(f, symtab) ==> StringOk(f, symtab, i)
  {
    StringsInside(f, symtab, SymCount(f, symtab));
    forall j :: 0 <= j < ExtRelCount(f, dysymtab) ==> ExtRelOk(f, symtab, dysymtab, vmBase, vmSize, chain, j)
  }

  /** Every local relocation passes its checks. */
  ghost predicate LocalsOk(f: seq<byte>, dysymtab: nat, vmBase: u64, vmSize: u64)
    requires dysymtab + 80 <= |f| && LocRelOff(f, dysymtab) + LocRelCount(f, dysymtab) * 8 <= |f|
  {
    forall j :: 0 <= j < LocRelCount(f, dysymtab) ==> LocRelOk(f, dysymtab, vmBase, vmSize, j)
  }

  /** The checks that follow the walk. */
  ghost predicate Relocatable(f: seq<byte>, symtab: nat, dysymtab: nat, vmBase: u64, vmSize: u64,
                              chain: seq<SymbolTable>)
    requires TablesInside(f, symtab, dysymtab) && AllReadable(chain)
    requires forall i :: 0 <= i < SymCount(f, symtab) ==> StringOk(f, symtab, i)
  {
    ExternalsOk(f, symtab, dysymtab, vmBase, vmSize, chain) && LocalsOk(f, dysymtab, vmBase, vmSize)
  }

  ghost function CheckTables(s: Scan, chain: seq<SymbolTable>): Option<Kext>
    requires s.symtab != 0 && s.dysymtab != 0 && TablesInside(s.buf, s.symtab, s.dysymtab) && AllReadable(chain)
  {
    var f := s.buf;
    var vmSize := Wrap64(s.vmaddr - s.vmBase);
    match CheckSymbols(f, s.symtab, SymCount(f, s.symtab), s.vmBase, s.vmaddr)
    case None => None
    case Some(kmod) =>
      SymbolStrings(f, s.symtab, SymCount(f, s.symtab), s.vmBase, s.vmaddr);
      if kmod != 0 && Relocatable(f, s.symtab, s.dysymtab, s.vmBase, vmSize, chain)
      then Some(Kext(f, s.offs, s.segs, s.vmBase, vmSize, s.symtab, s.dysymtab, kmod)) else None
  }

  lemma ScanTables(s: Scan, end: nat)
    requires ScanOk(s, end) && s.symtab != 0 && s.dysymtab != 0
    ensures TablesInside(s.buf, s.symtab, s.dysymtab)
  {
  }

  /** What `kext_parse` makes of a file, against the symbols loaded so far. */
  ghost function ParseSpec(f: seq<byte>, chain: seq<SymbolTable>): Option<Kext>
    requires |f| >= 32 && AllReadable(chain)
  {
    if Magic(f) != MH_MAGIC_64 || FileType(f) != MH_KEXT_BUNDLE || CmdsEnd(f) > |f| then None else
      match Walk(Start(f), 32, CmdsEnd(f), CmdCount(f))
      case None => None
      case Some(s) =>
        if s.segs == [] || s.symtab == 0 || s.dysymtab == 0 then None else
          StartOk(f, CmdsEnd(f));
          WalkKeeps(Start(f), 32, CmdsEnd(f), CmdCount(f));
          ScanTables(s, CmdsEnd(f));
          CheckTables(s, chain)
  }
}
