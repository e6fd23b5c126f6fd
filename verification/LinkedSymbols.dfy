/** The two programs together: what a symbol file on the host says is what a loaded kext calls. */
module LinkedSymbols {
  import opened Machine
  import opened MachO
  import opened Pointers
  import opened HostTable
  import opened HostBlob
  import opened DeviceSymbols
  import opened EndToEnd
  import opened KextParse
  import opened KextImage
  import opened KextLoaded

  /** The name that external relocation `j` refers to. */
  function ExternalName(x: Kext, chain: seq<SymbolTable>, size: nat, j: nat): seq<byte>
    requires ExternalsReady(x, chain, size) && j < ExtCount(x)
  {
    CStr(x.file, LinkName(x.file, x.symtab, ExtRelOff(x.file, x.dysymtab) + 8 * j))
  }

  /** Every external slot holds the slid address that its name looks up to. */
  lemma SlotHoldsLookup(x: Kext, chain: seq<SymbolTable>, k: Kernel, kext: u64, m: seq<byte>, after: seq<byte>, j: nat)
    requires Ready(x, chain, |m|) && Loaded(x, chain, k, kext, m, after) && j < ExtCount(x)
    ensures AllReadable(chain) && ChainLookup(chain, ExternalName(x, chain, |m|, j)) != 0
    ensures ExtSlot(x, j) + 8 <= |after|
    ensures U64At(after, ExtSlot(x, j)) == VaForSa(k, ChainLookup(chain, ExternalName(x, chain, |m|, j)))
  {
    hide CommandsReady, LocalsReady, LocalsDone, CommandsDone, OutsideFields, OutsideSlots, ChainLookup, AllReadable;
    hide U64At, ExtSlot, CStr, LinkName, VaForSa;
    TargetIsLookup(x, chain, |m|, j);
  }

  lemma TargetIsLookup(x: Kext, chain: seq<SymbolTable>, size: nat, j: nat)
    requires ExternalsReady(x, chain, size) && j < ExtCount(x)
    ensures Target(x, chain, j) == ChainLookup(chain, ExternalName(x, chain, size, j))
  {
    hide ChainLookup, AllReadable, CStr, LinkName, ExtSlot;
  }

  /** After the host's blob is uploaded to a fresh device and a kext is loaded, every external slot holds the
      slid address of its name's first definition in the symbol files; there always is one. */
  lemma SlotHoldsDefinition(files: seq<seq<byte>>, uuid: seq<byte>, base: u64, available: nat,
                            x: Kext, k: Kernel, kext: u64, m: seq<byte>, after: seq<byte>, j: nat)
    requires HostOutput(files).Some? && |HostOutput(files).value| < TWO_32
    requires Fits(HostOutput(files).value, uuid, base, available)
    requires var chain := LoadChain([], HostOutput(files).value, uuid, base, available);
             Ready(x, chain, |m|) && Loaded(x, chain, k, kext, m, after) && j < ExtCount(x)
    ensures var chain := LoadChain([], HostOutput(files).value, uuid, base, available);
            var first := FirstDef(Definitions(files, |files|, uuid), ExternalName(x, chain, |m|, j), 0);
            ExtSlot(x, j) + 8 <= |after| && first.Some? && U64At(after, ExtSlot(x, j)) == VaForSa(k, first.value)
  {
    var chain := LoadChain([], HostOutput(files).value, uuid, base, available);
    var name := ExternalName(x, chain, |m|, j);
    hide *;
    FreshDeviceLookup(files, uuid, base, available, name);
    SlotHoldsLookup(x, chain, k, kext, m, after, j);
  }
}
