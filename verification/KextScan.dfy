/** The load-command walk of `kext_parse`: what it checks, and what holds of the commands it visited. */
module KextScan {
  import opened Machine
  import opened MachO

  /** The state of the walk. `offs` lists the visited commands, `segs` the `LC_SEGMENT_64`s among them. */
  datatype Scan = Scan(buf: seq<byte>, offs: seq<nat>, segs: seq<nat>, vmBase: u64, vmaddr: u64,
                       symtab: nat, dysymtab: nat)

  function Start(f: seq<byte>): Scan { Scan(f, [], [], 0, 0, 0, 0) }

  // ---- The checks on one command ----

  function CheckSegment(s: Scan, lc: nat, end: nat): Option<Scan>
    requires lc + 8 <= |s.buf| && lc + CmdSize(s.buf, lc) <= |s.buf|
  {
    var f := s.buf;
    if CmdSize(f, lc) < 72 then None
    else if FileOff(f, lc) > |f| || Wrap64(FileOff(f, lc) + FileSize(f, lc)) > |f|
      || FileSize(f, lc) > VmSize(f, lc) then None
    else if Wrap64(VmAddr(f, lc) + VmSize(f, lc)) < VmAddr(f, lc) then None
    else if s.segs == [] && (FileOff(f, lc) != 0 || FileSize(f, lc) < end) then None
    else if s.segs != [] && VmAddr(f, lc) != s.vmaddr then None
    else Some(s.(segs := s.segs + [lc],
                 vmBase := if s.segs == [] then VmAddr(f, lc) else s.vmBase,
                 vmaddr := Wrap64(VmAddr(f, lc) + VmSize(f, lc))))
  }

  function CheckSymtab(s: Scan, lc: nat): Option<Scan>
    requires lc + 8 <= |s.buf| && lc + CmdSize(s.buf, lc) <= |s.buf|
  {
    var f := s.buf;
    if s.symtab != 0 || CmdSize(f, lc) < 24 then None
    else if SymOff(f, lc) > |f| || SymOff(f, lc) + SymCount(f, lc) * 16 > |f| then None
    else if StrOff(f, lc) >= |f| then None
    else Some(s.(symtab := lc))
  }

  function CheckDysymtab(s: Scan, lc: nat): Option<Scan>
    requires lc + 8 <= |s.buf| && lc + CmdSize(s.buf, lc) <= |s.buf|
  {
    var f := s.buf;
    if s.dysymtab != 0 || CmdSize(f, lc) < 80 then None
    else if ExtRelOff(f, lc) > |f| || ExtRelOff(f, lc) + ExtRelCount(f, lc) * 8 > |f| then None
    else if LocRelOff(f, lc) > |f| || LocRelOff(f, lc) + LocRelCount(f, lc) * 8 > |f| then None
    else Some(s.(dysymtab := lc))
  }

  /** Destroys a split-info command in the buffer. */
  function Destroy(f: seq<byte>, lc: nat): (g: seq<byte>)
    requires lc + 8 <= |f|
    ensures |g| == |f|
  {
    if Cmd(f, lc) == LC_SEGMENT_SPLIT_INFO then Splice(f, lc, LE32(DESTROYED_SPLIT_INFO)) else f
  }

  lemma DestroyKeepsSize(f: seq<byte>, lc: nat)
    requires lc + 8 <= |f|
    ensures CmdSize(Destroy(f, lc), lc) == CmdSize(f, lc)
  {
    if Cmd(f, lc) == LC_SEGMENT_SPLIT_INFO {
      SpliceFrame(f, lc, LE32(DESTROYED_SPLIT_INFO), lc + 4, lc + 8);
    }
  }

  /** One round of the walk at `lc`. */
  function Step(s: Scan, lc: nat, end: nat): (r: Option<Scan>)
    requires end <= |s.buf|
    ensures r.Some? ==> lc + 8 <= end && |r.value.buf| == |s.buf|
  {
    if lc + 8 > end || lc + CmdSize(s.buf, lc) > end || Cmd(s.buf, lc) == LC_SEGMENT then None else
      var s' := s.(buf := Destroy(s.buf, lc), offs := s.offs + [lc]);
      DestroyKeepsSize(s.buf, lc);
      var cmd := Cmd(s'.buf, lc);
      if cmd == LC_SEGMENT_64 then CheckSegment(s', lc, end)
      else if cmd == LC_SYMTAB then CheckSymtab(s', lc)
      else if cmd == LC_DYSYMTAB then CheckDysymtab(s', lc)
      else Some(s')
  }

  /** `n` rounds from `lc` on. */
  function Walk(s: Scan, lc: nat, end: nat, n: nat): (r: Option<Scan>)
    requires end <= |s.buf|
    ensures r.Some? ==> |r.value.buf| == |s.buf|
    decreases n
  {
    if n == 0 then Some(s) else
      match Step(s, lc, end)
      case None => None
      case Some(s') => Walk(s', lc + CmdSize(s'.buf, lc), end, n - 1)
  }

  // ---- What holds of the visited commands ----

  /** `offs` is a walk over commands inside [32, end): each starts where the one before it ends. */
  ghost predicate IsWalk(f: seq<byte>, offs: seq<nat>, end: nat) {
    && end <= |f|
    && (forall i :: 0 <= i < |offs| ==> 32 <= offs[i] && offs[i] + 8 <= end && offs[i] + CmdSize(f, offs[i]) <= end)
    && (offs != [] ==> offs[0] == 32)
    && (forall i :: 0 <= i < |offs| - 1 ==> offs[i + 1] == offs[i] + CmdSize(f, offs[i]))
  }

  /** Where the walk stands after its last command. */
  function Next(f: seq<byte>, offs: seq<nat>): nat
    requires offs != [] ==> offs[|offs| - 1] + 8 <= |f|
  {
    if offs == [] then 32 else offs[|offs| - 1] + CmdSize(f, offs[|offs| - 1])
  }

  /** No visited command is a 32-bit segment or a live split-info command. */
  ghost predicate Cleaned(f: seq<byte>, offs: seq<nat>)
    requires forall i :: 0 <= i < |offs| ==> offs[i] + 8 <= |f|
  {
    forall i :: 0 <= i < |offs| ==> Cmd(f, offs[i]) != LC_SEGMENT && Cmd(f, offs[i]) != LC_SEGMENT_SPLIT_INFO
  }

  /** Command `o` ends at or before `lc`; one of size zero is `lc` itself. */
  ghost predicate Before(f: seq<byte>, o: nat, lc: nat)
    requires o + 8 <= |f|
  {
    o + CmdSize(f, o) <= lc && (CmdSize(f, o) == 0 ==> o == lc)
  }

  /** Everything visited ends before the walk's position. */
  lemma {:induction false} WalkOrder(f: seq<byte>, offs: seq<nat>, end: nat, i: nat, j: nat)
    requires IsWalk(f, offs, end) && i < j < |offs|
    ensures Before(f, offs[i], offs[j])
    decreases j
  {
    if i < j - 1 {
      WalkOrder(f, offs, end, i, j - 1);
    }
  }

  lemma WalkBefore(f: seq<byte>, offs: seq<nat>, end: nat, i: nat)
    requires IsWalk(f, offs, end) && i < |offs|
    ensures Before(f, offs[i], Next(f, offs))
  {
    if i < |offs| - 1 {
      WalkOrder(f, offs, end, i, |offs| - 1);
    }
  }

  /** Destroying a command changes its fourth byte only. */
  lemma DestroyByte(f: seq<byte>, lc: nat)
    requires lc + 8 <= |f|
    ensures forall i :: 0 <= i < |f| && i != lc + 3 ==> Destroy(f, lc)[i] == f[i]
    ensures Cmd(f, lc) == LC_SEGMENT_SPLIT_INFO ==>
              Cmd(Destroy(f, lc), lc) == DESTROYED_SPLIT_INFO && f[lc] == 0x1e && f[lc + 1] == 0
                  && f[lc + 2] == 0 && f[lc + 3] == 0
  {
    if Cmd(f, lc) == LC_SEGMENT_SPLIT_INFO {
      WordBytes(f, lc);
      var w := LE32(DESTROYED_SPLIT_INFO);
      SpliceBytes(f, lc, w);
      SpliceAt(f, lc, w);
      WordHere(Splice(f, lc, w), lc, DESTROYED_SPLIT_INFO);
      WordBytes(Splice(f, lc, w), lc);
    }
  }

  /** Destroying a command does not touch the header of any command before it, even where commands are
      shorter than their own header and overlap. */
  lemma DestroyKeepsHeader(f: seq<byte>, o: nat, lc: nat)
    requires o + 8 <= |f| && lc + 8 <= |f| && Before(f, o, lc) && Cmd(f, o) != LC_SEGMENT_SPLIT_INFO
    ensures Agree(f, Destroy(f, lc), o, o + 8)
  {
    DestroyByte(f, lc);
    WordBytes(f, o + 4);
  }

  /** `g` carries the same commands as `f` at every visited offset. */
  ghost predicate SameCommands(f: seq<byte>, g: seq<byte>, offs: seq<nat>) {
    forall i :: 0 <= i < |offs| ==>
      Agree(f, g, offs[i], offs[i] + 8) && Agree(f, g, offs[i], offs[i] + CmdSize(f, offs[i]))
  }

  lemma SameHeader(f: seq<byte>, g: seq<byte>, offs: seq<nat>, o: nat)
    requires SameCommands(f, g, offs) && o in offs
    ensures o + 8 <= |f| && o + 8 <= |g| && Cmd(g, o) == Cmd(f, o) && CmdSize(g, o) == CmdSize(f, o)
  {
    var i :| 0 <= i < |offs| && offs[i] == o;
    AgreeCommand(f, g, o);
  }

  lemma WalkSame(f: seq<byte>, g: seq<byte>, offs: seq<nat>, end: nat)
    requires SameCommands(f, g, offs) && IsWalk(f, offs, end) && end <= |g|
    ensures IsWalk(g, offs, end) && Next(g, offs) == Next(f, offs)
  {
    hide Cmd, CmdSize;
    forall i | 0 <= i < |offs|
      ensures CmdSize(g, offs[i]) == CmdSize(f, offs[i])
    {
      SameHeader(f, g, offs, offs[i]);
    }
  }

  lemma CleanedSame(f: seq<byte>, g: seq<byte>, offs: seq<nat>)
    requires SameCommands(f, g, offs) && (forall i :: 0 <= i < |offs| ==> offs[i] + 8 <= |f|) && Cleaned(f, offs)
    ensures (forall i :: 0 <= i < |offs| ==> offs[i] + 8 <= |g|) && Cleaned(g, offs)
  {
    hide Cmd, CmdSize;
    forall i | 0 <= i < |offs|
      ensures offs[i] + 8 <= |g| && Cmd(g, offs[i]) == Cmd(f, offs[i])
    {
      SameHeader(f, g, offs, offs[i]);
    }
  }

  /** Destroying the command behind a cleaned walk leaves all the visited commands. */
  lemma DestroyKeepsWalk(f: seq<byte>, offs: seq<nat>, end: nat)
    requires IsWalk(f, offs, end) && Cleaned(f, offs) && Next(f, offs) + 8 <= |f|
    ensures SameCommands(f, Destroy(f, Next(f, offs)), offs)
  {
    hide Destroy, Cmd, CmdSize;
    var lc := Next(f, offs);
    forall i | 0 <= i < |offs|
      ensures Agree(f, Destroy(f, lc), offs[i], offs[i] + 8)
      ensures Agree(f, Destroy(f, lc), offs[i], offs[i] + CmdSize(f, offs[i]))
    {
      WalkBefore(f, offs, end, i);
      DestroyKeepsHeader(f, offs[i], lc);
      DestroyByte(f, lc);
    }
  }

  /** The walk goes on over the command that was just checked. */
  lemma WalkExtends(f: seq<byte>, offs: seq<nat>, end: nat)
    requires IsWalk(f, offs, end) && Cleaned(f, offs)
    requires var lc := Next(f, offs);
             lc + 8 <= end && lc + CmdSize(f, lc) <= end && Cmd(f, lc) != LC_SEGMENT
    ensures var lc := Next(f, offs); var g := Destroy(f, lc);
            && SameCommands(f, g, offs)
            && IsWalk(g, offs + [lc], end) && Cleaned(g, offs + [lc])
            && Next(g, offs + [lc]) == lc + CmdSize(g, lc)
  {
    hide Destroy, Cmd, CmdSize, SameCommands;
    var lc := Next(f, offs);
    var g := Destroy(f, lc);
    DestroyKeepsWalk(f, offs, end);
    WalkSame(f, g, offs, end);
    CleanedSame(f, g, offs);
    DestroyKeepsSize(f, lc);
    DestroyedIsClean(f, lc);
  }

  lemma DestroyedIsClean(f: seq<byte>, lc: nat)
    requires lc + 8 <= |f| && Cmd(f, lc) != LC_SEGMENT
    ensures Cmd(Destroy(f, lc), lc) != LC_SEGMENT && Cmd(Destroy(f, lc), lc) != LC_SEGMENT_SPLIT_INFO
  {
    DestroyByte(f, lc);
  }

  // ---- Segments ----

  /** `segs` lists, in order, the segment commands among the visited ones. */
  ghost predicate SegList(f: seq<byte>, offs: seq<nat>, segs: seq<nat>, end: nat) {
    && (forall k :: 0 <= k < |segs| ==> SegCommand(f, offs, segs[k], end))
    && (forall i :: 0 <= i < |offs| && offs[i] + 8 <= |f| && Cmd(f, offs[i]) == LC_SEGMENT_64 ==> offs[i] in segs)
    && (forall j, k :: 0 <= j < k < |segs| ==> segs[j] + 72 <= segs[k])
  }

  ghost predicate SegCommand(f: seq<byte>, offs: seq<nat>, o: nat, end: nat) {
    && o in offs && o + 8 <= |f| && Cmd(f, o) == LC_SEGMENT_64
    && CmdSize(f, o) >= 72 && 32 <= o && o + CmdSize(f, o) <= end <= |f|
  }

  /** The checks on one segment: its bytes are in the file and its addresses do not wrap. */
  ghost predicate SegFits(f: seq<byte>, o: nat, fileSize: nat)
    requires o + 72 <= |f|
  {
    && FileOff(f, o) <= fileSize && Wrap64(FileOff(f, o) + FileSize(f, o)) <= fileSize
    && FileSize(f, o) <= VmSize(f, o) && VmAddr(f, o) + VmSize(f, o) < TWO_64
  }

  /** The segments follow each other without a gap from `vmBase` to `vmaddr`; the first maps the header. */
  ghost predicate SegChain(f: seq<byte>, segs: seq<nat>, end: nat, vmBase: u64, vmaddr: u64, fileSize: nat)
    requires forall k :: 0 <= k < |segs| ==> segs[k] + 72 <= |f|
  {
    && (forall k :: 0 <= k < |segs| ==> SegFits(f, segs[k], fileSize))
    && (forall k :: 0 <= k < |segs| - 1 ==> VmAddr(f, segs[k + 1]) == VmAddr(f, segs[k]) + VmSize(f, segs[k]))
    && (segs != [] ==>
          && VmAddr(f, segs[0]) == vmBase && FileOff(f, segs[0]) == 0 && FileSize(f, segs[0]) >= end
          && vmaddr == VmAddr(f, segs[|segs| - 1]) + VmSize(f, segs[|segs| - 1]))
  }

  lemma SegListSame(f: seq<byte>, g: seq<byte>, offs: seq<nat>, segs: seq<nat>, end: nat)
    requires SameCommands(f, g, offs) && SegList(f, offs, segs, end) && end <= |g|
    ensures SegList(g, offs, segs, end)
    ensures forall k :: 0 <= k < |segs| ==> segs[k] + 72 <= |f| && Agree(f, g, segs[k], segs[k] + 72)
  {
    hide Cmd, CmdSize;
    forall k | 0 <= k < |segs|
      ensures SegCommand(g, offs, segs[k], end) && Agree(f, g, segs[k], segs[k] + 72)
    {
      SameHeader(f, g, offs, segs[k]);
      var i :| 0 <= i < |offs| && offs[i] == segs[k];
    }
    forall i | 0 <= i < |offs| && offs[i] + 8 <= |g| && Cmd(g, offs[i]) == LC_SEGMENT_64
      ensures offs[i] in segs
    {
      SameHeader(f, g, offs, offs[i]);
    }
  }

  lemma SegChainSame(f: seq<byte>, g: seq<byte>, segs: seq<nat>, end: nat, vmBase: u64, vmaddr: u64, size: nat)
    requires forall k :: 0 <= k < |segs| ==> segs[k] + 72 <= |f| && Agree(f, g, segs[k], segs[k] + 72)
    requires SegChain(f, segs, end, vmBase, vmaddr, size)
    ensures forall k :: 0 <= k < |segs| ==> segs[k] + 72 <= |g|
    ensures SegChain(g, segs, end, vmBase, vmaddr, size)
  {
    hide VmAddr, VmSize, FileOff, FileSize;
    forall k | 0 <= k < |segs|
      ensures VmAddr(f, segs[k]) == VmAddr(g, segs[k]) && VmSize(f, segs[k]) == VmSize(g, segs[k])
      ensures FileOff(f, segs[k]) == FileOff(g, segs[k]) && FileSize(f, segs[k]) == FileSize(g, segs[k])
    {
      AgreeSegment(f, g, segs[k]);
    }
  }

  // ---- Symbol tables ----

  ghost predicate SymtabOk(f: seq<byte>, offs: seq<nat>, o: nat, end: nat, fileSize: nat) {
    && o in offs && o + 8 <= |f| && Cmd(f, o) == LC_SYMTAB && CmdSize(f, o) >= 24
    && 32 <= o && o + CmdSize(f, o) <= end <= |f|
    && SymOff(f, o) + SymCount(f, o) * 16 <= fileSize && StrOff(f, o) < fileSize
  }

  ghost predicate DysymtabOk(f: seq<byte>, offs: seq<nat>, o: nat, end: nat, fileSize: nat) {
    && o in offs && o + 8 <= |f| && Cmd(f, o) == LC_DYSYMTAB && CmdSize(f, o) >= 80
    && 32 <= o && o + CmdSize(f, o) <= end <= |f|
    && ExtRelOff(f, o) + ExtRelCount(f, o) * 8 <= fileSize
    && LocRelOff(f, o) + LocRelCount(f, o) * 8 <= fileSize
  }

  lemma SymtabSame(f: seq<byte>, g: seq<byte>, offs: seq<nat>, o: nat, end: nat, size: nat)
    requires SameCommands(f, g, offs) && SymtabOk(f, offs, o, end, size) && end <= |g|
    ensures SymtabOk(g, offs, o, end, size) && Agree(f, g, o, o + 24)
  {
    hide Cmd, CmdSize, SymOff, SymCount, StrOff;
    SameHeader(f, g, offs, o);
    var i :| 0 <= i < |offs| && offs[i] == o;
    AgreeSymtab(f, g, o);
  }

  lemma DysymtabSame(f: seq<byte>, g: seq<byte>, offs: seq<nat>, o: nat, end: nat, size: nat)
    requires SameCommands(f, g, offs) && DysymtabOk(f, offs, o, end, size) && end <= |g|
    ensures DysymtabOk(g, offs, o, end, size) && Agree(f, g, o, o + 80)
  {
    hide Cmd, CmdSize, ExtRelOff, ExtRelCount, LocRelOff, LocRelCount;
    SameHeader(f, g, offs, o);
    var i :| 0 <= i < |offs| && offs[i] == o;
    AgreeDysymtab(f, g, o);
  }

  // ---- The invariant of the walk ----

  ghost predicate ScanOk(s: Scan, end: nat) {
    && IsWalk(s.buf, s.offs, end) && Cleaned(s.buf, s.offs)
    && SegList(s.buf, s.offs, s.segs, end)
    && SegChain(s.buf, s.segs, end, s.vmBase, s.vmaddr, |s.buf|)
    && (s.symtab != 0 ==> SymtabOk(s.buf, s.offs, s.symtab, end, |s.buf|))
    && (s.dysymtab != 0 ==> DysymtabOk(s.buf, s.offs, s.dysymtab, end, |s.buf|))
  }

  /** The state between destroying and checking: the command is visited but not yet recorded. */
  lemma SegListSkips(f: seq<byte>, offs: seq<nat>, segs: seq<nat>, end: nat, lc: nat)
    requires SegList(f, offs, segs, end) && lc + 8 <= |f| && Cmd(f, lc) != LC_SEGMENT_64
    ensures SegList(f, offs + [lc], segs, end)
  {
    hide Cmd, CmdSize;
    assert forall k :: 0 <= k < |segs| ==> SegCommand(f, offs + [lc], segs[k], end);
  }

  lemma SegListTakes(f: seq<byte>, offs: seq<nat>, segs: seq<nat>, end: nat)
    requires SegList(f, offs, segs, end) && IsWalk(f, offs, end)
    requires Next(f, offs) + 8 <= end && Cmd(f, Next(f, offs)) == LC_SEGMENT_64
    requires 72 <= CmdSize(f, Next(f, offs)) <= end - Next(f, offs) && 32 <= Next(f, offs)
    ensures SegList(f, offs + [Next(f, offs)], segs + [Next(f, offs)], end)
  {
    hide Cmd, CmdSize;
    var lc := Next(f, offs);
    forall k | 0 <= k < |segs|
      ensures segs[k] + 72 <= lc && SegCommand(f, offs + [lc], segs[k], end)
    {
      var i :| 0 <= i < |offs| && offs[i] == segs[k];
      WalkBefore(f, offs, end, i);
    }
    assert SegCommand(f, offs + [lc], lc, end);
  }

  lemma SegChainTakes(f: seq<byte>, segs: seq<nat>, end: nat, vmBase: u64, vmaddr: u64, size: nat, lc: nat)
    requires (forall k :: 0 <= k < |segs| ==> segs[k] + 72 <= |f|) && lc + 72 <= |f|
    requires SegChain(f, segs, end, vmBase, vmaddr, size)
    requires FileOff(f, lc) <= size && Wrap64(FileOff(f, lc) + FileSize(f, lc)) <= size
    requires FileSize(f, lc) <= VmSize(f, lc) && Wrap64(VmAddr(f, lc) + VmSize(f, lc)) >= VmAddr(f, lc)
    requires if segs == [] then FileOff(f, lc) == 0 && FileSize(f, lc) >= end && vmBase == VmAddr(f, lc)
             else VmAddr(f, lc) == vmaddr
    ensures SegChain(f, segs + [lc], end, vmBase, Wrap64(VmAddr(f, lc) + VmSize(f, lc)), size)
  {
    hide VmAddr, VmSize, FileOff, FileSize;
    var all := segs + [lc];
    assert SegFits(f, lc, size);
    assert forall k :: 0 <= k < |all| ==> SegFits(f, all[k], size);
  }

  /** Destroying the next command keeps the invariant's facts about the visited ones. */
  lemma DestroyKeepsScan(s: Scan, end: nat)
    requires ScanOk(s, end) && Next(s.buf, s.offs) + 8 <= |s.buf|
    ensures ScanOk(s.(buf := Destroy(s.buf, Next(s.buf, s.offs))), end)
    ensures Next(Destroy(s.buf, Next(s.buf, s.offs)), s.offs) == Next(s.buf, s.offs)
  {
    hide Destroy, Cmd, CmdSize, SameCommands, SegList, SegChain, SymtabOk, DysymtabOk, IsWalk, Cleaned;
    var f, lc := s.buf, Next(s.buf, s.offs);
    var g := Destroy(f, lc);
    WalkBound(f, s.offs, end);
    DestroyKeepsWalk(f, s.offs, end);
    WalkSame(f, g, s.offs, end);
    WalkHeaders(f, s.offs, end);
    CleanedSame(f, g, s.offs);
    SegListSame(f, g, s.offs, s.segs, end);
    SegChainSame(f, g, s.segs, end, s.vmBase, s.vmaddr, |f|);
    if s.symtab != 0 { SymtabSame(f, g, s.offs, s.symtab, end, |f|); }
    if s.dysymtab != 0 { DysymtabSame(f, g, s.offs, s.dysymtab, end, |f|); }
  }

  lemma WalkBound(f: seq<byte>, offs: seq<nat>, end: nat)
    requires IsWalk(f, offs, end)
    ensures end <= |f| && 32 <= Next(f, offs)
  {
  }

  lemma WalkHeaders(f: seq<byte>, offs: seq<nat>, end: nat)
    requires IsWalk(f, offs, end)
    ensures forall i :: 0 <= i < |offs| ==> offs[i] + 8 <= |f|
  {
  }

  /** One accepted round keeps the invariant and moves to the end of the command. */
  lemma StepKeeps(s: Scan, lc: nat, end: nat)
    requires ScanOk(s, end) && end <= |s.buf| && lc == Next(s.buf, s.offs) && Step(s, lc, end).Some?
    ensures var r := Step(s, lc, end).value;
            ScanOk(r, end) && r.offs == s.offs + [lc] && Next(r.buf, r.offs) == lc + CmdSize(r.buf, lc)
  {
    hide Destroy, Cmd, CmdSize, SegList, SegChain, SymtabOk, DysymtabOk, Cleaned, IsWalk;
    var g := Destroy(s.buf, lc);
    var t := s.(buf := g);
    DestroyKeepsScan(s, end);
    WalkBound(s.buf, s.offs, end);
    WalkExtends(s.buf, s.offs, end);
    DestroyKeepsSize(s.buf, lc);
    var r := Step(s, lc, end).value;
    StepBuffer(s, lc, end);
    if Cmd(g, lc) == LC_SEGMENT_64 {
      TakesSegment(t, lc, end, r);
    } else {
      SegListSkips(g, s.offs, s.segs, end, lc);
      TakesOther(t, lc, end, r);
    }
  }

  lemma StepBuffer(s: Scan, lc: nat, end: nat)
    requires end <= |s.buf| && Step(s, lc, end).Some?
    ensures Step(s, lc, end).value.buf == Destroy(s.buf, lc) && Step(s, lc, end).value.offs == s.offs + [lc]
  {
  }

  lemma TakesSegment(t: Scan, lc: nat, end: nat, r: Scan)
    requires ScanOk(t, end) && lc == Next(t.buf, t.offs) && lc + 8 <= end && lc + CmdSize(t.buf, lc) <= end
    requires IsWalk(t.buf, t.offs + [lc], end) && Cleaned(t.buf, t.offs + [lc])
    requires Cmd(t.buf, lc) == LC_SEGMENT_64 && CheckSegment(t.(offs := t.offs + [lc]), lc, end) == Some(r)
    ensures ScanOk(r, end)
  {
    hide Cmd, CmdSize, Cleaned, IsWalk, VmAddr, VmSize, FileOff, FileSize, SegList, SegChain;
    WalkBound(t.buf, t.offs, end);
    SegListTakes(t.buf, t.offs, t.segs, end);
    SegListFits(t.buf, t.offs, t.segs, end);
    ChainEnd(t.buf, t.segs, end, t.vmBase, t.vmaddr, |t.buf|, VmAddr(t.buf, lc));
    SegChainTakes(t.buf, t.segs, end, if t.segs == [] then VmAddr(t.buf, lc) else t.vmBase, t.vmaddr, |t.buf|, lc);
  }

  lemma SegListFits(f: seq<byte>, offs: seq<nat>, segs: seq<nat>, end: nat)
    requires SegList(f, offs, segs, end)
    ensures forall k :: 0 <= k < |segs| ==> segs[k] + 72 <= |f|
  {
  }

  lemma ChainEnd(f: seq<byte>, segs: seq<nat>, end: nat, vmBase: u64, vmaddr: u64, size: nat, base': u64)
    requires forall k :: 0 <= k < |segs| ==> segs[k] + 72 <= |f|
    requires SegChain(f, segs, end, vmBase, vmaddr, size)
    ensures segs == [] ==> SegChain(f, segs, end, base', vmaddr, size)
  {
  }

  lemma TakesOther(t: Scan, lc: nat, end: nat, r: Scan)
    requires ScanOk(t, end) && lc == Next(t.buf, t.offs) && lc + 8 <= end && lc + CmdSize(t.buf, lc) <= end
    requires IsWalk(t.buf, t.offs + [lc], end) && Cleaned(t.buf, t.offs + [lc])
    requires SegList(t.buf, t.offs + [lc], t.segs, end)
    requires var t' := t.(offs := t.offs + [lc]);
             var cmd := Cmd(t.buf, lc);
             Some(r) == if cmd == LC_SYMTAB then CheckSymtab(t', lc)
                        else if cmd == LC_DYSYMTAB then CheckDysymtab(t', lc) else Some(t')
    ensures ScanOk(r, end)
  {
    hide Cmd, CmdSize, Cleaned, IsWalk, SegList, SegChain;
    hide SymOff, SymCount, StrOff, ExtRelOff, ExtRelCount, LocRelOff, LocRelCount;
    WalkBound(t.buf, t.offs, end);
  }

  /** The whole walk: every state it reaches satisfies the invariant. */
  lemma {:induction false} WalkKeeps(s: Scan, lc: nat, end: nat, n: nat)
    requires ScanOk(s, end) && end <= |s.buf| && lc == Next(s.buf, s.offs) && Walk(s, lc, end, n).Some?
    ensures var r := Walk(s, lc, end, n).value; ScanOk(r, end) && |r.offs| == |s.offs| + n && |r.buf| == |s.buf|
    decreases n
  {
    hide ScanOk, Step, Next, CmdSize;
    if n != 0 {
      StepKeeps(s, lc, end);
      var s' := Step(s, lc, end).value;
      WalkKeeps(s', lc + CmdSize(s'.buf, lc), end, n - 1);
    }
  }
}
