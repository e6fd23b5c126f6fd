/** Acceptance as an if-and-only-if: a kernel extension is accepted exactly when it has the facts of this module,
    with any number of split-info commands. */
module KextConverse {
  import opened Machine
  import opened MachO
  import opened KextScan
  import opened KextParse
  import opened KextAccepted
  import opened KextCleared
  import opened KextLoader
  import opened DeviceSymbols

  /** What is claimed of an upload: its commands, the segments among them, and the two tables. */
  datatype Claim = Claim(offs: seq<nat>, segs: seq<nat>, vmBase: u64, vmEnd: u64, symtab: nat, dysymtab: nat)

  /** `o` is the only command of its kind among the visited ones. */
  ghost predicate OnlyOne(f: seq<byte>, offs: seq<nat>, o: nat)
    requires o + 8 <= |f|
  {
    && o in offs
    && forall i :: 0 <= i < |offs| && offs[i] + 8 <= |f| && Cmd(f, offs[i]) == Cmd(f, o) ==> offs[i] == o
  }

  /** The commands are a walk without 32-bit segments; the segments among them follow each other without a gap,
      the first maps the header; there is one symbol table and one dynamic one. */
  ghost predicate CommandFacts(f: seq<byte>, c: Claim, end: nat) {
    && IsWalk(f, c.offs, end) && (forall i :: 0 <= i < |c.offs| ==> Cmd(f, c.offs[i]) != 0x1)
    && c.segs != [] && SegList(f, c.offs, c.segs, end) && SegChain(f, c.segs, end, c.vmBase, c.vmEnd, |f|)
    && SymtabOk(f, c.offs, c.symtab, end, |f|) && OnlyOne(f, c.offs, c.symtab)
    && DysymtabOk(f, c.offs, c.dysymtab, end, |f|) && OnlyOne(f, c.offs, c.dysymtab)
  }

  /** What the facts are about: the upload with its split-info commands destroyed. */
  ghost function After(u: seq<byte>, c: Claim): (f: seq<byte>)
    ensures |f| == |u|
  {
    Cleared(u, c.offs)
  }

  /** Whether the walk has met command `o` before its turn `i`. */
  predicate Met(offs: seq<nat>, i: nat, o: nat)
    requires i <= |offs|
  {
    o in offs[..i]
  }

  /** Where the first `p` segments end. */
  function EndOf(f: seq<byte>, segs: seq<nat>, p: nat): u64
    requires p <= |segs| && forall k :: 0 <= k < |segs| ==> segs[k] + 72 <= |f|
  {
    if p == 0 then 0 else Wrap64(VmAddr(f, segs[p - 1]) + VmSize(f, segs[p - 1]))
  }

  /** The state of the walk before turn `i`, with `p` segments met. */
  ghost function StateAt(u: seq<byte>, c: Claim, i: nat, p: nat): Scan
    requires i <= |c.offs| && p <= |c.segs| && forall k :: 0 <= k < |c.segs| ==> c.segs[k] + 72 <= |u|
  {
    Scan(Cleared(u, c.offs[..i]), c.offs[..i], c.segs[..p], if p == 0 then 0 else c.vmBase,
         EndOf(After(u, c), c.segs, p),
         if Met(c.offs, i, c.symtab) then c.symtab else 0, if Met(c.offs, i, c.dysymtab) then c.dysymtab else 0)
  }

  lemma SegmentsFit(f: seq<byte>, c: Claim, end: nat)
    requires CommandFacts(f, c, end)
    ensures forall k :: 0 <= k < |c.segs| ==> c.segs[k] + 72 <= |f|
    ensures end <= |f| && forall j :: 0 <= j < |c.offs| ==> c.offs[j] + 8 <= |f|
  {
    hide SegChain, SymtabOk, DysymtabOk, Cmd, CmdSize, OnlyOne;
  }

  /** A command with a size that is in turn has not been met before. */
  lemma InTurn(f: seq<byte>, c: Claim, end: nat, i: nat)
    requires CommandFacts(f, c, end) && i < |c.offs| && c.offs[i] + 8 <= |f| && CmdSize(f, c.offs[i]) > 0
    ensures !Met(c.offs, i, c.offs[i])
  {
    hide SegChain, SymtabOk, DysymtabOk, Cmd, CmdSize, OnlyOne, SegList;
    if Met(c.offs, i, c.offs[i]) {
      var j :| 0 <= j < i && c.offs[j] == c.offs[i];
      WalkOrder(f, c.offs, end, j, i);
    }
  }

  /** The checks that segment `p` passes. */
  lemma SegmentPasses(f: seq<byte>, c: Claim, end: nat, p: nat)
    requires CommandFacts(f, c, end) && p < |c.segs|
    requires forall k :: 0 <= k < |c.segs| ==> c.segs[k] + 72 <= |f|
    ensures var o := c.segs[p];
            && Cmd(f, o) == LC_SEGMENT_64 && CmdSize(f, o) >= 72 && o + CmdSize(f, o) <= end <= |f|
            && SegFits(f, o, |f|) && VmAddr(f, o) == (if p == 0 then c.vmBase else EndOf(f, c.segs, p))
            && (p == 0 ==> FileOff(f, o) == 0 && FileSize(f, o) >= end)
            && o != c.symtab && o != c.dysymtab
  {
    hide VmAddr, VmSize, FileOff, FileSize, CmdSize, Cmd, IsWalk, OnlyOne;
    assert SegCommand(f, c.offs, c.segs[p], end);
    assert SegFits(f, c.segs[p], |f|);
    if p > 0 {
      assert SegFits(f, c.segs[p - 1], |f|);
      assert VmAddr(f, c.segs[(p - 1) + 1]) == VmAddr(f, c.segs[p - 1]) + VmSize(f, c.segs[p - 1]);
    }
  }

  lemma MetNext(offs: seq<nat>, i: nat, o: nat)
    requires i < |offs|
    ensures offs[..i] + [offs[i]] == offs[..i + 1] && (Met(offs, i + 1, o) <==> Met(offs, i, o) || offs[i] == o)
  {
    assert offs[..i] + [offs[i]] == offs[..i + 1];
  }

  /** What the walk reads of command `i` in its turn, after destroying it, is what stands in the file that is
      left behind. */
  lemma TurnReads(u: seq<byte>, c: Claim, end: nat, i: nat)
    requires CommandFacts(After(u, c), c, end) && i < |c.offs| && c.offs[i] + 8 <= |u|
    ensures var f, o := After(u, c), c.offs[i]; var b := Cleared(u, c.offs[..i]);
            var d := Destroy(b, o);
            && d == Cleared(u, c.offs[..i + 1])
            && o + 8 <= end <= |u| && o + CmdSize(b, o) <= end && Cmd(b, o) != LC_SEGMENT
            && Cmd(d, o) == Cmd(f, o) && CmdSize(d, o) == CmdSize(b, o) == CmdSize(f, o)
            && Agree(d, f, o, o + CmdSize(f, o))
  {
    hide Cleared, Destroy, Cmd, CmdSize, SegChain, SegList, SymtabOk, DysymtabOk, OnlyOne;
    var f, o := After(u, c), c.offs[i];
    var b := Cleared(u, c.offs[..i]);
    assert c.offs[..i] + [o] == c.offs[..i + 1];
    DestroyClears(u, c.offs[..i], o);
    LaterLeave(u, c.offs, end, i);
    AgreeCommand(Destroy(b, o), f, o);
    DestroyKeepsSize(b, o);
    DestroyedKind(b, o);
  }

  lemma DestroyedKind(f: seq<byte>, o: nat)
    requires o + 8 <= |f|
    ensures Cmd(f, o) == LC_SEGMENT ==> Cmd(Destroy(f, o), o) == 0x1
  {
  }

  /** Turn `i` on a segment. */
  lemma SegmentStep(u: seq<byte>, c: Claim, end: nat, i: nat, p: nat)
    requires CommandFacts(After(u, c), c, end) && i < |c.offs| && p < |c.segs| && c.segs[p] == c.offs[i]
    requires forall k :: 0 <= k < |c.segs| ==> c.segs[k] + 72 <= |u|
    ensures end <= |u| && Step(StateAt(u, c, i, p), c.offs[i], end) == Some(StateAt(u, c, i + 1, p + 1))
  {
    hide VmAddr, VmSize, FileOff, FileSize, CmdSize, Cmd, CommandFacts, Met, Cleared, Destroy;
    var f, o := After(u, c), c.offs[i];
    var d := Cleared(u, c.offs[..i + 1]);
    SegmentPasses(f, c, end, p);
    TurnReads(u, c, end, i);
    AgreeSegment(d, f, o);
    MetNext(c.offs, i, c.symtab);
    MetNext(c.offs, i, c.dysymtab);
    assert c.segs[..p] + [o] == c.segs[..p + 1];
    assert CheckSegment(StateAt(u, c, i, p).(buf := d, offs := c.offs[..i + 1]), o, end)
        == Some(StateAt(u, c, i + 1, p + 1));
  }

  /** Turn `i` on any other command. */
  lemma OtherStep(u: seq<byte>, c: Claim, end: nat, i: nat, p: nat)
    requires CommandFacts(After(u, c), c, end) && i < |c.offs| && p <= |c.segs|
    requires forall k :: 0 <= k < |c.segs| ==> c.segs[k] + 72 <= |u|
    requires c.offs[i] + 8 <= |u| && Cmd(After(u, c), c.offs[i]) != LC_SEGMENT_64
    ensures end <= |u| && Step(StateAt(u, c, i, p), c.offs[i], end) == Some(StateAt(u, c, i + 1, p))
  {
    hide VmAddr, VmSize, CmdSize, Cmd, SegChain, SegList, SymOff, SymCount, StrOff, ExtRelOff, ExtRelCount, LocRelOff;
    hide LocRelCount, Cleared, Destroy, IsWalk, EndOf;
    var f, o := After(u, c), c.offs[i];
    var d := Cleared(u, c.offs[..i + 1]);
    assert c.offs[..i] + [o] == c.offs[..i + 1];
    TurnReads(u, c, end, i);
    if o == c.symtab {
      AgreeSymtab(d, f, o);
      InTurn(f, c, end, i);
    } else if o == c.dysymtab {
      AgreeDysymtab(d, f, o);
      InTurn(f, c, end, i);
    }
  }

  lemma InOrder(f: seq<byte>, c: Claim, end: nat, i: nat)
    requires CommandFacts(f, c, end) && i <= |c.offs|
    requires forall j :: 0 <= j < |c.offs| ==> c.offs[j] + 8 <= |f|
    ensures i < |c.offs| ==> Position(f, c.offs, i) == c.offs[i]
    ensures i < |c.offs| ==> Position(f, c.offs, i + 1) == c.offs[i] + CmdSize(f, c.offs[i])
    ensures i == |c.offs| && i > 0 ==> Position(f, c.offs, i) == Next(f, c.offs)
  {
    hide SegChain, SymtabOk, DysymtabOk, Cmd, CmdSize, OnlyOne, SegList;
    if 0 < i < |c.offs| {
      assert c.offs[(i - 1) + 1] == c.offs[i - 1] + CmdSize(f, c.offs[i - 1]);
    }
  }

  /** From every turn on, the walk goes to the end. */
  lemma {:induction false} FactualWalk(u: seq<byte>, c: Claim, end: nat, i: nat, p: nat)
    requires CommandFacts(After(u, c), c, end) && i <= |c.offs| && p <= |c.segs|
    requires forall k :: 0 <= k < |c.segs| ==> c.segs[k] + 72 <= |u|
    requires forall j :: 0 <= j < |c.offs| ==> c.offs[j] + 8 <= |u|
    requires Passed(c.segs, p, Position(After(u, c), c.offs, i))
    ensures end <= |u|
    ensures Walk(StateAt(u, c, i, p), Position(After(u, c), c.offs, i), end, |c.offs| - i)
         == Some(StateAt(u, c, |c.offs|, |c.segs|))
    decreases |c.offs| - i
  {
    hide Step, StateAt, Cmd, CmdSize, SegChain, SymtabOk, DysymtabOk, OnlyOne, Passed, Position, IsWalk, Cleared, After;
    var f := After(u, c);
    SegmentsFit(f, c, end);
    InOrder(f, c, end, i);
    if i == |c.offs| {
      assert SegCommand(f, c.offs, c.segs[0], end);
      AllPassed(f, c.offs, c.segs, end, p);
    } else {
      var n := if Cmd(f, c.offs[i]) == LC_SEGMENT_64 then p + 1 else p;
      SegmentTurn(f, c.offs, c.segs, end, i, p);
      if n > p { SegmentStep(u, c, end, i, p); } else { OtherStep(u, c, end, i, p); }
      StateReads(u, c, end, i, n);
      FactualWalk(u, c, end, i + 1, n);
    }
  }

  lemma StateReads(u: seq<byte>, c: Claim, end: nat, i: nat, p: nat)
    requires CommandFacts(After(u, c), c, end) && i < |c.offs| && p <= |c.segs|
    requires forall k :: 0 <= k < |c.segs| ==> c.segs[k] + 72 <= |u|
    requires c.offs[i] + 8 <= |u|
    ensures CmdSize(StateAt(u, c, i + 1, p).buf, c.offs[i]) == CmdSize(After(u, c), c.offs[i])
  {
    hide CommandFacts, Cleared, CmdSize, Destroy, EndOf;
    TurnReads(u, c, end, i);
  }

  /** The whole walk. */
  lemma WalkAccepts(u: seq<byte>, c: Claim, end: nat)
    requires CommandFacts(After(u, c), c, end)
    ensures end <= |u| && Walk(Start(u), 32, end, |c.offs|)
         == Some(Scan(After(u, c), c.offs, c.segs, c.vmBase, c.vmEnd, c.symtab, c.dysymtab))
  {
    hide Walk, CommandFacts, StateAt, Passed, Cleared;
    SegmentsFit(After(u, c), c, end);
    StartsPassed(After(u, c), c, end);
    FactualWalk(u, c, end, 0, 0);
    StateStarts(u, c);
    StateEnds(u, c, end);
  }

  lemma StateStarts(u: seq<byte>, c: Claim)
    requires forall k :: 0 <= k < |c.segs| ==> c.segs[k] + 72 <= |u|
    ensures StateAt(u, c, 0, 0) == Start(u)
  {
    hide Cleared;
    NothingCleared(u);
    assert c.offs[..0] == [] && c.segs[..0] == [];
  }

  lemma StateEnds(u: seq<byte>, c: Claim, end: nat)
    requires CommandFacts(After(u, c), c, end) && forall k :: 0 <= k < |c.segs| ==> c.segs[k] + 72 <= |u|
    ensures StateAt(u, c, |c.offs|, |c.segs|)
         == Scan(After(u, c), c.offs, c.segs, c.vmBase, c.vmEnd, c.symtab, c.dysymtab)
  {
    hide VmAddr, VmSize, FileOff, FileSize, CmdSize, Cmd, IsWalk, SegList, Cleared;
    assert c.offs[..|c.offs|] == c.offs && c.segs[..|c.segs|] == c.segs;
    assert SegFits(After(u, c), c.segs[|c.segs| - 1], |u|);
  }

  lemma StartsPassed(f: seq<byte>, c: Claim, end: nat)
    requires CommandFacts(f, c, end)
    ensures Passed(c.segs, 0, 32)
  {
    hide SegChain, SymtabOk, DysymtabOk, Cmd, CmdSize, OnlyOne, IsWalk;
    forall j | 0 <= j < |c.segs|
      ensures 32 <= c.segs[j]
    {
      assert SegCommand(f, c.offs, c.segs[j], end);
    }
  }

  // ---- The other direction ----

  /** A recorded table is the only command of its kind so far, and an unrecorded kind has not occurred. */
  ghost predicate Recorded(s: Scan) {
    forall i :: 0 <= i < |s.offs| ==>
      && s.offs[i] + 8 <= |s.buf|
      && (Cmd(s.buf, s.offs[i]) == LC_SYMTAB ==> s.offs[i] == s.symtab)
      && (Cmd(s.buf, s.offs[i]) == LC_DYSYMTAB ==> s.offs[i] == s.dysymtab)
  }

  lemma StepRecords(s: Scan, lc: nat, end: nat)
    requires ScanOk(s, end) && end <= |s.buf| && lc == Next(s.buf, s.offs) && Step(s, lc, end).Some?
    requires Recorded(s)
    ensures Recorded(Step(s, lc, end).value)
  {
    hide Cmd, CmdSize, Destroy, SegList, SegChain, SymtabOk, DysymtabOk;
    var r, g := Step(s, lc, end).value, Destroy(s.buf, lc);
    StepBuffer(s, lc, end);
    DestroyKeepsSize(s.buf, lc);
    WalkBound(s.buf, s.offs, end);
    WalkHeaders(s.buf, s.offs, end);
    DestroyKeepsWalk(s.buf, s.offs, end);
    forall i | 0 <= i < |s.offs|
      ensures Cmd(g, s.offs[i]) == Cmd(s.buf, s.offs[i]) && s.offs[i] > 0
    {
      SameHeader(s.buf, g, s.offs, s.offs[i]);
    }
    assert forall i :: 0 <= i < |r.offs| ==> r.offs[i] == if i < |s.offs| then s.offs[i] else lc;
  }

  lemma {:induction false} WalkRecords(s: Scan, lc: nat, end: nat, n: nat)
    requires ScanOk(s, end) && end <= |s.buf| && lc == Next(s.buf, s.offs) && Walk(s, lc, end, n).Some?
    requires Recorded(s)
    ensures Recorded(Walk(s, lc, end, n).value)
    decreases n
  {
    hide ScanOk, Step, Next, CmdSize, Recorded;
    if n != 0 {
      StepKeeps(s, lc, end);
      StepRecords(s, lc, end);
      var s' := Step(s, lc, end).value;
      WalkRecords(s', lc + CmdSize(s'.buf, lc), end, n - 1);
    }
  }

  lemma RecordedIsOnly(s: Scan, end: nat)
    requires ScanOk(s, end) && Recorded(s) && s.symtab != 0 && s.dysymtab != 0
    ensures s.symtab + 8 <= |s.buf| && OnlyOne(s.buf, s.offs, s.symtab)
    ensures s.dysymtab + 8 <= |s.buf| && OnlyOne(s.buf, s.offs, s.dysymtab)
  {
    hide Cmd, CmdSize, SegList, SegChain, IsWalk, Cleaned;
  }

  // ---- Acceptance ----

  /** The facts about header, commands, symbols and relocations. */
  ghost predicate Facts(f: seq<byte>, chain: seq<SymbolTable>, c: Claim, kmod: u64)
    requires |f| >= 32 && AllReadable(chain)
  {
    && Magic(f) == 0xfeedfacf && FileType(f) == 0xb && 32 + SizeOfCmds(f) <= |f|
    && CommandFacts(f, c, 32 + SizeOfCmds(f)) && |c.offs| == CmdCount(f)
    && TablesInside(f, c.symtab, c.dysymtab)
    && (forall i :: 0 <= i < SymCount(f, c.symtab) ==> StringOk(f, c.symtab, i))
    && SymbolFacts(f, c.symtab, SymCount(f, c.symtab), c.vmBase, c.vmEnd, kmod) && kmod != 0
    && Relocatable(f, c.symtab, c.dysymtab, c.vmBase, Wrap64(c.vmEnd - c.vmBase), chain)
  }

  lemma SameHeaders(f: seq<byte>, g: seq<byte>)
    requires |f| >= 32 && Agree(f, g, 0, 32)
    ensures |g| >= 32 && Magic(g) == Magic(f) && FileType(g) == FileType(f)
    ensures CmdCount(g) == CmdCount(f) && CmdsEnd(g) == CmdsEnd(f)
  {
    AgreeWord(f, g, 0);
    AgreeWord(f, g, 12);
    AgreeWord(f, g, 16);
    AgreeWord(f, g, 20);
  }

  /** The converse of acceptance: an upload that has all these facts, with its split-info commands destroyed, is
      accepted, with exactly what is claimed of it. */
  lemma FactsAreAccepted(u: seq<byte>, chain: seq<SymbolTable>, c: Claim, kmod: u64)
    requires |u| >= 32 && AllReadable(chain) && Facts(After(u, c), chain, c, kmod)
    ensures ParseSpec(u, chain)
         == Some(Kext(After(u, c), c.offs, c.segs, c.vmBase, Wrap64(c.vmEnd - c.vmBase), c.symtab, c.dysymtab, kmod))
  {
    hide Walk, CheckSymbols, SymbolFacts, Relocatable, StringOk, AllReadable, TablesInside, Magic, FileType, SizeOfCmds;
    hide CmdCount, SymCount, SymOff, IsWalk, SegList, SegChain, OnlyOne, Cleared;
    var f := After(u, c);
    WalkVisits(f, c.offs, CmdsEnd(f));
    HeaderIsUpload(u, c.offs);
    SameHeaders(u, f);
    WalkAccepts(u, c, CmdsEnd(u));
    SymbolRange(f, c.symtab, c.dysymtab);
    SymbolsExactly(f, c.symtab, SymCount(f, c.symtab), c.vmBase, c.vmEnd, kmod);
  }

  lemma WalkVisits(f: seq<byte>, offs: seq<nat>, end: nat)
    requires IsWalk(f, offs, end)
    ensures forall i :: 0 <= i < |offs| ==> 32 <= offs[i]
  {
  }

  /** What is claimed of an accepted kernel extension. */
  function ClaimOf(x: Kext): Claim
    requires x.vmBase + x.vmSize < TWO_64
  {
    Claim(x.offs, x.segs, x.vmBase, x.vmBase + x.vmSize, x.symtab, x.dysymtab)
  }

  /** `x` is the upload with its split-info commands destroyed, and has all the facts. */
  ghost predicate IsKext(u: seq<byte>, chain: seq<SymbolTable>, x: Kext)
    requires |u| >= 32 && AllReadable(chain)
  {
    && x.file == Cleared(u, x.offs) && x.vmBase + x.vmSize < TWO_64
    && Facts(x.file, chain, ClaimOf(x), x.kmod)
  }

  /** Acceptance is exactly these facts. */
  lemma AcceptedExactly(u: seq<byte>, chain: seq<SymbolTable>, x: Kext)
    requires |u| >= 32 && AllReadable(chain)
    ensures ParseSpec(u, chain) == Some(x) <==> IsKext(u, chain, x)
  {
    hide ParseSpec, Facts, Cleared;
    if ParseSpec(u, chain) == Some(x) {
      AcceptedIsCleared(u, chain);
      AcceptedFacts(u, chain);
    } else if IsKext(u, chain, x) {
      FactsAreAccepted(u, chain, ClaimOf(x), x.kmod);
    }
  }

  lemma AcceptedFacts(u: seq<byte>, chain: seq<SymbolTable>)
    requires |u| >= 32 && AllReadable(chain) && ParseSpec(u, chain).Some?
    ensures var x := ParseSpec(u, chain).value;
            |x.file| >= 32 && x.vmBase + x.vmSize < TWO_64 && Facts(x.file, chain, ClaimOf(x), x.kmod)
  {
    hide ParseSpec, IsWalk, SegList, SegChain, Relocatable, TablesInside, StringOk, Magic, FileType, SizeOfCmds;
    hide CmdCount, SymCount, SymOff, CheckSymbols, SymbolFacts, OnlyOne, Cmd;
    var x := ParseSpec(u, chain).value;
    AcceptedWalk(u, chain);
    AcceptedTables(u, chain);
    SameHeaders(u, x.file);
    AcceptedHeader(u, chain);
    AcceptedOnly(u, chain);
    AcceptedSymbols(u, chain);
    NoSegment(x);
  }

  lemma NoSegment(x: Kext)
    requires Walked(x)
    ensures forall i :: 0 <= i < |x.offs| ==> x.offs[i] + 8 <= |x.file| && Cmd(x.file, x.offs[i]) != 0x1
  {
    hide Cmd, CmdSize, SegList, SegChain, SymtabOk, DysymtabOk;
  }

  lemma AcceptedHeader(u: seq<byte>, chain: seq<SymbolTable>)
    requires |u| >= 32 && AllReadable(chain) && ParseSpec(u, chain).Some?
    ensures Magic(u) == 0xfeedfacf && FileType(u) == 0xb && CmdsEnd(u) <= |u|
  {
    hide Walk, Magic, FileType, SizeOfCmds, CheckTables;
  }

  lemma AcceptedOnly(u: seq<byte>, chain: seq<SymbolTable>)
    requires |u| >= 32 && AllReadable(chain) && ParseSpec(u, chain).Some?
    ensures var x := ParseSpec(u, chain).value;
            && x.symtab + 8 <= |x.file| && OnlyOne(x.file, x.offs, x.symtab)
            && x.dysymtab + 8 <= |x.file| && OnlyOne(x.file, x.offs, x.dysymtab)
  {
    hide Walk, ParseSpec, ScanOk, OnlyOne, CheckTables, TablesInside;
    ParsedScan(u, chain);
    StartOk(u, CmdsEnd(u));
    WalkKeeps(Start(u), 32, CmdsEnd(u), CmdCount(u));
    WalkRecords(Start(u), 32, CmdsEnd(u), CmdCount(u));
    RecordedIsOnly(FinalScan(u), CmdsEnd(u));
  }

  lemma AcceptedSymbols(u: seq<byte>, chain: seq<SymbolTable>)
    requires |u| >= 32 && AllReadable(chain) && ParseSpec(u, chain).Some?
    ensures var x := ParseSpec(u, chain).value;
            && TablesInside(x.file, x.symtab, x.dysymtab) && x.kmod != 0 && x.vmBase + x.vmSize < TWO_64
            && SymbolFacts(x.file, x.symtab, SymCount(x.file, x.symtab), x.vmBase, x.vmBase + x.vmSize, x.kmod)
  {
    hide Walk, ParseSpec, ScanOk, SymbolFacts, CheckSymbols, Relocatable, TablesInside, StringOk;
    ParsedScan(u, chain);
    StartOk(u, CmdsEnd(u));
    WalkKeeps(Start(u), 32, CmdsEnd(u), CmdCount(u));
    var s := FinalScan(u);
    ChainExtent(s, CmdsEnd(u));
    SymbolRange(s.buf, s.symtab, s.dysymtab);
    SymbolsExactly(s.buf, s.symtab, SymCount(s.buf, s.symtab), s.vmBase, s.vmaddr, ParseSpec(u, chain).value.kmod);
  }
}
