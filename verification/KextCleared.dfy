/** What the parser makes of the split-info commands: in the file that it leaves behind, one byte of each of them is
    changed, and no other byte is. */
module KextCleared {
  import opened Machine
  import opened MachO
  import opened KextScan
  import opened KextParse
  import opened KextAccepted
  import opened DeviceSymbols

  /** The command word at `o` is 0x1e. */
  predicate IsSplitInfo(u: seq<byte>, o: nat) { At(u, o, [0x1e, 0, 0, 0]) }

  /** `v` is the fourth byte of a split-info command among `offs`. */
  ghost predicate SplitByte(u: seq<byte>, offs: seq<nat>, v: nat) {
    exists i :: 0 <= i < |offs| && IsSplitInfo(u, offs[i]) && v == offs[i] + 3
  }

  /** The upload with the split-info commands among `offs` destroyed: 0x41 in each of their fourth bytes. */
  ghost function Cleared(u: seq<byte>, offs: seq<nat>): (f: seq<byte>)
    ensures |f| == |u|
  {
    seq(|u|, v requires 0 <= v < |u| => if SplitByte(u, offs, v) then 0x41 else u[v])
  }

  lemma SplitInfoIs(u: seq<byte>, o: nat)
    requires o + 8 <= |u|
    ensures IsSplitInfo(u, o) <==> u[o] == 0x1e && u[o + 1] == 0 && u[o + 2] == 0 && u[o + 3] == 0
    ensures IsSplitInfo(u, o) <==> Cmd(u, o) == LC_SEGMENT_SPLIT_INFO
  {
    WordBytes(u, o);
    if IsSplitInfo(u, o) {
      AtIndex(u, o, [0x1e, 0, 0, 0]);
    }
  }

  lemma NothingCleared(u: seq<byte>)
    ensures Cleared(u, []) == u
  {
  }

  lemma SplitBytes(u: seq<byte>, offs: seq<nat>, o: nat, v: nat)
    ensures SplitByte(u, offs + [o], v) <==> SplitByte(u, offs, v) || (IsSplitInfo(u, o) && v == o + 3)
  {
    hide IsSplitInfo;
    var all := offs + [o];
    assert all[|offs|] == o && forall i :: 0 <= i < |offs| ==> all[i] == offs[i];
    if SplitByte(u, offs, v) {
      var i :| 0 <= i < |offs| && IsSplitInfo(u, offs[i]) && v == offs[i] + 3;
      assert all[i] == offs[i];
    }
  }

  /** A command among the destroyed ones is a split-info command exactly if it was one in the upload and has not
      been destroyed itself: no other destroyed byte can make it one, or hide that it is. */
  lemma StillSplitInfo(u: seq<byte>, offs: seq<nat>, o: nat)
    requires o + 8 <= |u|
    ensures IsSplitInfo(Cleared(u, offs), o) <==> IsSplitInfo(u, o) && !SplitByte(u, offs, o + 3)
  {
    hide IsSplitInfo, SplitByte;
    var f := Cleared(u, offs);
    SplitInfoIs(u, o);
    SplitInfoIs(f, o);
    if IsSplitInfo(u, o) {
      NotHidden(u, offs, o, o);
      NotHidden(u, offs, o, o + 1);
      NotHidden(u, offs, o, o + 2);
    }
  }

  lemma NotHidden(u: seq<byte>, offs: seq<nat>, o: nat, v: nat)
    requires o + 8 <= |u| && IsSplitInfo(u, o) && o <= v < o + 3
    ensures !SplitByte(u, offs, v)
  {
    hide IsSplitInfo;
    if SplitByte(u, offs, v) {
      var i :| 0 <= i < |offs| && IsSplitInfo(u, offs[i]) && v == offs[i] + 3;
      SplitInfosApart(u, offs[i], o);
    }
  }

  /** The words of two split-info commands do not overlap. */
  lemma SplitInfosApart(u: seq<byte>, p: nat, o: nat)
    requires IsSplitInfo(u, p) && IsSplitInfo(u, o) && p < o
    ensures p + 4 <= o
  {
    AtIndex(u, p, [0x1e, 0, 0, 0]);
    FirstIs(u, o);
    assert forall k :: p < k < p + 4 ==> u[k] == 0;
  }

  lemma FirstIs(u: seq<byte>, o: nat)
    requires IsSplitInfo(u, o)
    ensures o + 4 <= |u| && u[o] == 0x1e
  {
    AtIndex(u, o, [0x1e, 0, 0, 0]);
  }

  /** Destroying one more command. */
  lemma DestroyClears(u: seq<byte>, offs: seq<nat>, o: nat)
    requires o + 8 <= |u|
    ensures Destroy(Cleared(u, offs), o) == Cleared(u, offs + [o])
  {
    hide IsSplitInfo, SplitByte, Destroy;
    var f := Cleared(u, offs);
    var g, h := Destroy(f, o), Cleared(u, offs + [o]);
    StillSplitInfo(u, offs, o);
    SplitInfoIs(f, o);
    DestroyByte(f, o);
    FourthByte(f, o);
    forall v | 0 <= v < |u|
      ensures g[v] == h[v]
    {
      SplitBytes(u, offs, o, v);
    }
  }

  lemma FourthByte(f: seq<byte>, o: nat)
    requires o + 8 <= |f|
    ensures Destroy(f, o)[o + 3] == if Cmd(f, o) == LC_SEGMENT_SPLIT_INFO then 0x41 else f[o + 3]
  {
    DestroyByte(f, o);
    WordBytes(Destroy(f, o), o);
  }

  /** The buffer of the walk at every time. */
  lemma {:induction false} WalkClears(u: seq<byte>, s: Scan, lc: nat, end: nat, n: nat)
    requires s.buf == Cleared(u, s.offs) && end <= |u| && Walk(s, lc, end, n).Some?
    ensures var r := Walk(s, lc, end, n).value; r.buf == Cleared(u, r.offs)
    decreases n
  {
    hide Step, Cleared, CmdSize;
    if n != 0 {
      var s' := Step(s, lc, end).value;
      StepBuffer(s, lc, end);
      DestroyClears(u, s.offs, lc);
      WalkClears(u, s', lc + CmdSize(s'.buf, lc), end, n - 1);
    }
  }

  /** The file that an accepted upload leaves behind: the fourth byte of each visited split-info command is 0x41,
      and every other byte is the upload's. */
  lemma AcceptedIsCleared(u: seq<byte>, chain: seq<SymbolTable>)
    requires |u| >= 32 && AllReadable(chain) && ParseSpec(u, chain).Some?
    ensures var x := ParseSpec(u, chain).value; x.file == Cleared(u, x.offs)
  {
    hide Walk, ParseSpec, Cleared, CheckTables;
    ParsedScan(u, chain);
    NothingCleared(u);
    WalkClears(u, Start(u), 32, CmdsEnd(u), CmdCount(u));
  }

  lemma HeaderIsUpload(u: seq<byte>, offs: seq<nat>)
    requires |u| >= 32 && forall i :: 0 <= i < |offs| ==> 32 <= offs[i]
    ensures Agree(u, Cleared(u, offs), 0, 32)
  {
  }

  /** A command keeps its header and its contents when the ones behind it are destroyed. */
  lemma LaterLeave(u: seq<byte>, offs: seq<nat>, end: nat, i: nat)
    requires IsWalk(Cleared(u, offs), offs, end) && i < |offs|
    ensures var f, g := Cleared(u, offs), Cleared(u, offs[..i + 1]);
            Agree(g, f, offs[i], offs[i] + 8) && Agree(g, f, offs[i], offs[i] + CmdSize(f, offs[i]))
  {
    hide IsSplitInfo, Cleared, CmdSize;
    var f, g := Cleared(u, offs), Cleared(u, offs[..i + 1]);
    forall v: nat | offs[i] <= v < |u| && (v < offs[i] + 8 || v < offs[i] + CmdSize(f, offs[i]))
      ensures g[v] == f[v]
    {
      LaterLeaves(u, offs, end, i, v);
    }
  }

  lemma LaterLeaves(u: seq<byte>, offs: seq<nat>, end: nat, i: nat, v: nat)
    requires IsWalk(Cleared(u, offs), offs, end) && i < |offs| && offs[i] <= v < |u|
    requires v < offs[i] + 8 || v < offs[i] + CmdSize(Cleared(u, offs), offs[i])
    ensures Cleared(u, offs[..i + 1])[v] == Cleared(u, offs)[v]
  {
    hide IsSplitInfo, IsWalk, CmdSize;
    var f := Cleared(u, offs);
    WalkHeaders(f, offs, end);
    if SplitByte(u, offs, v) {
      var j :| 0 <= j < |offs| && IsSplitInfo(u, offs[j]) && v == offs[j] + 3;
      if j > i && offs[j] != offs[i] {
        WalkOrder(f, offs, end, i, j);
        FarBehind(u, offs, offs[i], offs[j]);
      } else {
        assert offs[..i + 1][if j > i then i else j] == offs[j];
      }
    }
    if SplitByte(u, offs[..i + 1], v) {
      var j :| 0 <= j < i + 1 && IsSplitInfo(u, offs[..i + 1][j]) && v == offs[..i + 1][j] + 3;
      assert offs[..i + 1][j] == offs[j];
    }
  }

  /** A destroyed command that starts behind another one does not reach into its header. */
  lemma FarBehind(u: seq<byte>, offs: seq<nat>, o: nat, p: nat)
    requires o + 8 <= |u| && p + 8 <= |u| && p in offs && IsSplitInfo(u, p)
    requires Before(Cleared(u, offs), o, p) && o != p
    ensures o + 8 <= p + 3 && o + CmdSize(Cleared(u, offs), o) <= p + 3
  {
    hide IsSplitInfo;
    var f := Cleared(u, offs);
    var i :| 0 <= i < |offs| && offs[i] == p;
    assert SplitByte(u, offs, p + 3);
    WordBytes(f, o + 4);
  }
}
