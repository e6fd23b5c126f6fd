/** The Mach-O structures that the kext loader reads, as fields at byte offsets. */
module MachO {
  import opened Machine

  const MH_MAGIC_64: u32 := 0xfeedfacf
  const MH_KEXT_BUNDLE: u32 := 0xb
  const LC_SEGMENT: u32 := 0x1
  const LC_SYMTAB: u32 := 0x2
  const LC_DYSYMTAB: u32 := 0xb
  const LC_SEGMENT_64: u32 := 0x19
  const LC_SEGMENT_SPLIT_INFO: u32 := 0x1e
  /** `LC_SEGMENT_SPLIT_INFO ^ 0x41000000`. */
  const DESTROYED_SPLIT_INFO: u32 := 0x4100001e

  // ---- mach_header_64 ----

  function Magic(f: seq<byte>): u32 requires |f| >= 32 { U32At(f, 0) }
  function FileType(f: seq<byte>): u32 requires |f| >= 32 { U32At(f, 12) }
  function CmdCount(f: seq<byte>): u32 requires |f| >= 32 { U32At(f, 16) }
  function SizeOfCmds(f: seq<byte>): u32 requires |f| >= 32 { U32At(f, 20) }

  // ---- load_command ----

  function Cmd(f: seq<byte>, o: nat): u32 requires o + 8 <= |f| { U32At(f, o) }
  function CmdSize(f: seq<byte>, o: nat): u32 requires o + 8 <= |f| { U32At(f, o + 4) }

  // ---- segment_command_64 ----

  function VmAddr(f: seq<byte>, o: nat): u64 requires o + 72 <= |f| { U64At(f, o + 24) }
  function VmSize(f: seq<byte>, o: nat): u64 requires o + 72 <= |f| { U64At(f, o + 32) }
  function FileOff(f: seq<byte>, o: nat): u64 requires o + 72 <= |f| { U64At(f, o + 40) }
  function FileSize(f: seq<byte>, o: nat): u64 requires o + 72 <= |f| { U64At(f, o + 48) }

  // ---- symtab_command and dysymtab_command ----

  function SymOff(f: seq<byte>, o: nat): u32 requires o + 24 <= |f| { U32At(f, o + 8) }
  function SymCount(f: seq<byte>, o: nat): u32 requires o + 24 <= |f| { U32At(f, o + 12) }
  function StrOff(f: seq<byte>, o: nat): u32 requires o + 24 <= |f| { U32At(f, o + 16) }

  function ExtRelOff(f: seq<byte>, o: nat): u32 requires o + 80 <= |f| { U32At(f, o + 64) }
  function ExtRelCount(f: seq<byte>, o: nat): u32 requires o + 80 <= |f| { U32At(f, o + 68) }
  function LocRelOff(f: seq<byte>, o: nat): u32 requires o + 80 <= |f| { U32At(f, o + 72) }
  function LocRelCount(f: seq<byte>, o: nat): u32 requires o + 80 <= |f| { U32At(f, o + 76) }

  // ---- nlist_64 ----

  function StrIndex(f: seq<byte>, o: nat): u32 requires o + 16 <= |f| { U32At(f, o) }
  function SymValue(f: seq<byte>, o: nat): u64 requires o + 16 <= |f| { U64At(f, o + 8) }

  /** Not a debugging symbol (`N_STAB`), and defined in a section (`N_TYPE` is `N_SECT`). */
  predicate InSection(f: seq<byte>, o: nat)
    requires o + 16 <= |f|
  {
    var t := f[o + 4] as bv8;
    t & 0xe0 == 0 && t & 0x0e == 0x0e
  }

  // ---- relocation_info ----

  /** The signed 32-bit `r_address`. */
  function RelAddress(f: seq<byte>, o: nat): int
    requires o + 8 <= |f|
  {
    var a := U32At(f, o);
    if a >= 0x8000_0000 then a - TWO_32 else a
  }

  function RelSymbol(f: seq<byte>, o: nat): nat requires o + 8 <= |f| { U32At(f, o + 4) % 0x100_0000 }
  function RelLength(f: seq<byte>, o: nat): nat requires o + 8 <= |f| { U32At(f, o + 4) / 0x200_0000 % 4 }
  predicate RelExtern(f: seq<byte>, o: nat) requires o + 8 <= |f| { U32At(f, o + 4) / 0x800_0000 % 2 == 1 }

  // ---- Reading across buffers ----

  /** The two buffers agree on `[a, b)`. */
  ghost predicate Agree(f: seq<byte>, g: seq<byte>, a: nat, b: nat) {
    b <= |f| && b <= |g| && forall i :: a <= i < b ==> f[i] == g[i]
  }

  lemma AgreeTrans(f: seq<byte>, g: seq<byte>, h: seq<byte>, a: nat, b: nat)
    requires Agree(f, g, a, b) && Agree(g, h, a, b)
    ensures Agree(f, h, a, b)
  {
  }

  /** A copy leaves every range that it does not touch. */
  lemma AgreeSplice(m: seq<byte>, o: nat, s: seq<byte>, a: nat, b: nat)
    requires o + |s| <= |m| && b <= |m| && (b <= o || o + |s| <= a)
    ensures Agree(m, Splice(m, o, s), a, b)
  {
    SpliceBytes(m, o, s);
  }

  lemma AgreeWord(f: seq<byte>, g: seq<byte>, o: nat)
    requires Agree(f, g, o, o + 4)
    ensures U32At(f, o) == U32At(g, o)
  {
    assert f[o..o + 4] == g[o..o + 4];
  }

  lemma AgreeDouble(f: seq<byte>, g: seq<byte>, o: nat)
    requires Agree(f, g, o, o + 8)
    ensures U64At(f, o) == U64At(g, o)
  {
    assert f[o..o + 8] == g[o..o + 8];
  }

  lemma AgreeCommand(f: seq<byte>, g: seq<byte>, o: nat)
    requires Agree(f, g, o, o + 8)
    ensures Cmd(f, o) == Cmd(g, o) && CmdSize(f, o) == CmdSize(g, o)
  {
    AgreeWord(f, g, o);
    AgreeWord(f, g, o + 4);
  }

  lemma AgreeSegment(f: seq<byte>, g: seq<byte>, o: nat)
    requires Agree(f, g, o, o + 72)
    ensures VmAddr(f, o) == VmAddr(g, o) && VmSize(f, o) == VmSize(g, o)
    ensures FileOff(f, o) == FileOff(g, o) && FileSize(f, o) == FileSize(g, o)
  {
    AgreeDouble(f, g, o + 24);
    AgreeDouble(f, g, o + 32);
    AgreeDouble(f, g, o + 40);
    AgreeDouble(f, g, o + 48);
  }

  lemma AgreeSymtab(f: seq<byte>, g: seq<byte>, o: nat)
    requires Agree(f, g, o, o + 24)
    ensures SymOff(f, o) == SymOff(g, o) && SymCount(f, o) == SymCount(g, o) && StrOff(f, o) == StrOff(g, o)
  {
    AgreeWord(f, g, o + 8);
    AgreeWord(f, g, o + 12);
    AgreeWord(f, g, o + 16);
  }

  lemma AgreeDysymtab(f: seq<byte>, g: seq<byte>, o: nat)
    requires Agree(f, g, o, o + 80)
    ensures ExtRelOff(f, o) == ExtRelOff(g, o) && ExtRelCount(f, o) == ExtRelCount(g, o)
    ensures LocRelOff(f, o) == LocRelOff(g, o) && LocRelCount(f, o) == LocRelCount(g, o)
  {
    AgreeWord(f, g, o + 64);
    AgreeWord(f, g, o + 68);
    AgreeWord(f, g, o + 72);
    AgreeWord(f, g, o + 76);
  }

  /** A word is the weighted sum of its bytes. */
  lemma WordBytes(f: seq<byte>, o: nat)
    requires o + 4 <= |f|
    ensures U32At(f, o)
         == f[o] as int + f[o + 1] as int * 0x100 + f[o + 2] as int * 0x1_0000 + f[o + 3] as int * 0x100_0000
  {
    var s := f[o..o + 4];
    assert s[1..][0] == f[o + 1] && s[1..][1..][0] == f[o + 2] && s[1..][1..][1..][0] == f[o + 3];
    assert s[1..][1..][1..][1..] == [];
    assert FromLE(s[1..][1..][1..]) == f[o + 3];
    assert FromLE(s[1..][1..]) == f[o + 2] as int + f[o + 3] as int * 0x100;
    assert FromLE(s[1..]) == f[o + 1] as int + f[o + 2] as int * 0x100 + f[o + 3] as int * 0x1_0000;
  }
}
