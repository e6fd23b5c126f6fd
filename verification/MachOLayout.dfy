/** The layout of the Mach-O structures, member by member: where each field that is read stands among the members
    of its structure, for all their values. */
module MachOLayout {
  import opened Arithmetic
  import opened Machine
  import opened MachO
  import opened KextParse

  /** Consecutive 32-bit members, and 64-bit ones. */
  function Words(ws: seq<u32>, n: nat): (s: seq<byte>)
    requires n <= |ws|
    ensures |s| == 4 * n
  {
    if n == 0 then [] else Words(ws, n - 1) + LE32(ws[n - 1])
  }

  function Doubles(ds: seq<u64>, n: nat): (s: seq<byte>)
    requires n <= |ds|
    ensures |s| == 8 * n
  {
    if n == 0 then [] else Doubles(ds, n - 1) + LE64(ds[n - 1])
  }

  lemma {:induction false} WordsRead(f: seq<byte>, o: nat, ws: seq<u32>, n: nat)
    requires n <= |ws| && At(f, o, Words(ws, n))
    ensures o + 4 * n <= |f| && forall i :: 0 <= i < n ==> U32At(f, o + 4 * i) == ws[i]
  {
    hide At, U32At, LE32;
    if n != 0 {
      AtSplit(f, o, Words(ws, n - 1), LE32(ws[n - 1]));
      WordsRead(f, o, ws, n - 1);
      WordHere(f, o + 4 * (n - 1), ws[n - 1]);
    } else {
      AtInside(f, o, Words(ws, n));
    }
  }

  lemma {:induction false} DoublesRead(f: seq<byte>, o: nat, ds: seq<u64>, n: nat)
    requires n <= |ds| && At(f, o, Doubles(ds, n))
    ensures o + 8 * n <= |f| && forall i :: 0 <= i < n ==> U64At(f, o + 8 * i) == ds[i]
  {
    hide At, U64At, LE64;
    if n != 0 {
      AtSplit(f, o, Doubles(ds, n - 1), LE64(ds[n - 1]));
      DoublesRead(f, o, ds, n - 1);
      DoubleWordHere(f, o + 8 * (n - 1), ds[n - 1]);
    } else {
      AtInside(f, o, Doubles(ds, n));
    }
  }

  lemma AtInside(f: seq<byte>, o: nat, s: seq<byte>)
    requires At(f, o, s)
    ensures o + |s| <= |f|
  {
  }

  /** `mach_header_64`: magic, cputype, cpusubtype, filetype, ncmds, sizeofcmds, flags, reserved. */
  lemma HeaderFields(f: seq<byte>, ws: seq<u32>)
    requires |ws| == 8 && At(f, 0, Words(ws, 8))
    ensures |f| >= 32 && Magic(f) == ws[0] && FileType(f) == ws[3] && CmdCount(f) == ws[4] && SizeOfCmds(f) == ws[5]
  {
    hide At, U32At, Words;
    WordsRead(f, 0, ws, 8);
  }

  /** `load_command`: cmd, cmdsize. */
  lemma CommandFields(f: seq<byte>, o: nat, ws: seq<u32>)
    requires |ws| == 2 && At(f, o, Words(ws, 2))
    ensures o + 8 <= |f| && Cmd(f, o) == ws[0] && CmdSize(f, o) == ws[1]
  {
    hide At, U32At, Words;
    WordsRead(f, o, ws, 2);
  }

  /** `segment_command_64`: cmd, cmdsize, sixteen bytes of name, vmaddr, vmsize, fileoff, filesize, and sixteen
      bytes more. */
  lemma SegmentFields(f: seq<byte>, o: nat, ws: seq<u32>, name: seq<byte>, ds: seq<u64>, rest: seq<byte>)
    requires |ws| == 2 && |name| == 16 && |ds| == 4 && |rest| == 16
    requires At(f, o, Words(ws, 2) + (name + (Doubles(ds, 4) + rest)))
    ensures o + 72 <= |f| && Cmd(f, o) == ws[0] && CmdSize(f, o) == ws[1]
    ensures VmAddr(f, o) == ds[0] && VmSize(f, o) == ds[1] && FileOff(f, o) == ds[2] && FileSize(f, o) == ds[3]
  {
    hide At, U32At, U64At, Words, Doubles;
    AtSplit(f, o, Words(ws, 2), name + (Doubles(ds, 4) + rest));
    AtSplit(f, o + 8, name, Doubles(ds, 4) + rest);
    AtSplit(f, o + 24, Doubles(ds, 4), rest);
    WordsRead(f, o, ws, 2);
    DoublesRead(f, o + 24, ds, 4);
    AtInside(f, o + 56, rest);
  }

  /** `symtab_command`: cmd, cmdsize, symoff, nsyms, stroff, strsize. */
  lemma SymtabFields(f: seq<byte>, o: nat, ws: seq<u32>)
    requires |ws| == 6 && At(f, o, Words(ws, 6))
    ensures o + 24 <= |f| && Cmd(f, o) == ws[0] && CmdSize(f, o) == ws[1]
    ensures SymOff(f, o) == ws[2] && SymCount(f, o) == ws[3] && StrOff(f, o) == ws[4]
  {
    hide At, U32At, Words;
    WordsRead(f, o, ws, 6);
  }

  /** `dysymtab_command`: cmd, cmdsize, fourteen members on symbols, modules and indirect symbols, and then
      extreloff, nextrel, locreloff, nlocrel. */
  lemma DysymtabFields(f: seq<byte>, o: nat, ws: seq<u32>)
    requires |ws| == 20 && At(f, o, Words(ws, 20))
    ensures o + 80 <= |f| && Cmd(f, o) == ws[0] && CmdSize(f, o) == ws[1]
    ensures ExtRelOff(f, o) == ws[16] && ExtRelCount(f, o) == ws[17]
    ensures LocRelOff(f, o) == ws[18] && LocRelCount(f, o) == ws[19]
  {
    hide At, U32At, Words;
    WordsRead(f, o, ws, 20);
  }

  /** The four types of a symbol that is defined in a section. */
  predicate IsSection(kind: byte) { kind == 0x0e || kind == 0x0f || kind == 0x1e || kind == 0x1f }

  /** `nlist_64`: n_strx, n_type, n_sect, n_desc in two bytes, n_value. A symbol is defined in a section if no
      debugging bit is set and the type bits are all set, whatever the two bits for private and external are. */
  lemma NlistFields(f: seq<byte>, o: nat, strx: u32, kind: byte, sect: byte, desc: seq<byte>, value: u64)
    requires |desc| == 2 && At(f, o, LE32(strx) + ([kind, sect] + (desc + LE64(value))))
    ensures o + 16 <= |f| && StrIndex(f, o) == strx && SymValue(f, o) == value
    ensures InSection(f, o) <==> IsSection(kind)
  {
    hide At, U32At, U64At, LE32, LE64, InSection;
    AtSplit(f, o, LE32(strx), [kind, sect] + (desc + LE64(value)));
    AtSplit(f, o + 4, [kind, sect], desc + LE64(value));
    AtSplit(f, o + 6, desc, LE64(value));
    WordHere(f, o, strx);
    DoubleWordHere(f, o + 8, value);
    AtIndex(f, o + 4, [kind, sect]);
    SectionTypes(f, o);
  }

  lemma SectionTypes(f: seq<byte>, o: nat)
    requires o + 16 <= |f|
    ensures InSection(f, o) <==> IsSection(f[o + 4])
  {
    TypeBits(f[o + 4] as bv8);
  }

  lemma TypeBits(t: bv8)
    ensures t & 0xe0 == 0 && t & 0x0e == 0x0e <==> t == 0x0e || t == 0x0f || t == 0x1e || t == 0x1f
  {
  }

  /** One `nlist_64`, as far as it is read. */
  datatype Entry = Entry(strx: u32, kind: byte, sect: byte, desc: seq<byte>, value: u64)

  function EntryBytes(e: Entry): seq<byte> { LE32(e.strx) + ([e.kind, e.sect] + (e.desc + LE64(e.value))) }

  function Table(es: seq<Entry>, n: nat): seq<byte>
    requires n <= |es|
  {
    if n == 0 then [] else Table(es, n - 1) + EntryBytes(es[n - 1])
  }

  lemma {:induction false} EntryAt(f: seq<byte>, o: nat, es: seq<Entry>, n: nat, i: nat)
    requires i < n <= |es| && (forall e <- es :: |e.desc| == 2) && At(f, o, Table(es, n))
    ensures |Table(es, n)| == 16 * n && At(f, o + 16 * i, EntryBytes(es[i]))
  {
    hide At, EntryBytes;
    TableSize(es, n - 1);
    EntrySize(es[n - 1]);
    AtSplit(f, o, Table(es, n - 1), EntryBytes(es[n - 1]));
    if i < n - 1 {
      EntryAt(f, o, es, n - 1, i);
    }
  }

  lemma EntrySize(e: Entry)
    requires |e.desc| == 2
    ensures |EntryBytes(e)| == 16
  {
  }

  lemma {:induction false} TableSize(es: seq<Entry>, n: nat)
    requires n <= |es| && forall e <- es :: |e.desc| == 2
    ensures |Table(es, n)| == 16 * n
  {
    hide EntryBytes;
    if n != 0 {
      TableSize(es, n - 1);
      EntrySize(es[n - 1]);
    }
  }

  /** Symbol `i` is the `i`th entry of the table that stands at the offset in the symbol-table command. */
  lemma SymbolFields(f: seq<byte>, symtab: nat, es: seq<Entry>, i: nat)
    requires symtab + 24 <= |f| && i < |es| && (forall e <- es :: |e.desc| == 2)
    requires At(f, SymOff(f, symtab), Table(es, |es|))
    ensures var o := Nlist(f, symtab, i);
            && o + 16 <= |f| && StrIndex(f, o) == es[i].strx && SymValue(f, o) == es[i].value
            && (InSection(f, o) <==> IsSection(es[i].kind))
  {
    hide At, Table, StrIndex, SymValue, InSection, SymOff;
    EntryAt(f, SymOff(f, symtab), es, |es|, i);
    NlistFields(f, Nlist(f, symtab, i), es[i].strx, es[i].kind, es[i].sect, es[i].desc, es[i].value);
  }

  /** `relocation_info`: the signed r_address, and then from the lowest bit on 24 bits of r_symbolnum, one of
      r_pcrel, two of r_length, one of r_extern and four of r_type. */
  lemma RelocationFields(f: seq<byte>, o: nat, a: int, s: nat, p: nat, l: nat, e: nat, t: nat)
    requires -0x8000_0000 <= a < 0x8000_0000 && s < 0x100_0000 && p < 2 && l < 4 && e < 2 && t < 16
    requires o + 8 <= |f| && U32At(f, o) == a % TWO_32
    requires U32At(f, o + 4) == s + p * 0x100_0000 + l * 0x200_0000 + e * 0x800_0000 + t * 0x1000_0000
    ensures RelAddress(f, o) == a && RelSymbol(f, o) == s && RelLength(f, o) == l && (RelExtern(f, o) <==> e == 1)
  {
    hide U32At;
    RelocationBits(U32At(f, o + 4), s, p, l, e, t);
  }

  lemma RelocationBits(w: nat, s: nat, p: nat, l: nat, e: nat, t: nat)
    requires s < 0x100_0000 && p < 2 && l < 4 && e < 2 && t < 16
    requires w == s + p * 0x100_0000 + l * 0x200_0000 + e * 0x800_0000 + t * 0x1000_0000
    ensures w % 0x100_0000 == s && w / 0x200_0000 % 4 == l && w / 0x800_0000 % 2 == e
  {
    DivModUnique(w, 0x100_0000, p + 2 * l + 8 * e + 16 * t, s);
    DivModUnique(w, 0x200_0000, l + 4 * e + 8 * t, s + p * 0x100_0000);
    DivModUnique(w, 0x800_0000, e + 2 * t, s + p * 0x100_0000 + l * 0x200_0000);
  }

  /** A 64-bit word is its low half and its high half. */
  lemma DoubleHalves(f: seq<byte>, o: nat)
    requires o + 8 <= |f|
    ensures U64At(f, o) == U32At(f, o) + U32At(f, o + 4) as int * TWO_32
  {
    var s, hi := f[o..o + 8], f[o + 4..o + 8];
    WordBytes(f, o);
    assert s[1..] == f[o + 1..o + 8] && s[1..][1..] == f[o + 2..o + 8] && s[1..][1..][1..] == f[o + 3..o + 8];
    assert s[1..][1..][1..][1..] == hi;
    assert FromLE(s[1..][1..][1..]) == f[o + 3] + 0x100 * FromLE(hi);
    assert FromLE(s[1..][1..]) == f[o + 2] + 0x100 * FromLE(s[1..][1..][1..]);
    assert FromLE(s[1..]) == f[o + 1] + 0x100 * FromLE(s[1..][1..]);
  }
}
