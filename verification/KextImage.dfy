/** The image of a kext as the loader builds it: copied segments, patched commands, relocated and
    linked slots. Each stage is a function of the bytes before it. */
module KextImage {
  import opened Machine
  import opened MachO
  import opened KextScan
  import opened KextParse
  import opened DeviceSymbols
  import opened Pointers

  // ---- Tiling ----

  /** Segments come in address order, each at or behind the end of those before it. */
  lemma {:induction false} SegmentsAscend(f: seq<byte>, segs: seq<nat>, end: nat, vmBase: u64, vmaddr: u64,
                                          size: nat, j: nat, k: nat)
    requires forall i :: 0 <= i < |segs| ==> segs[i] + 72 <= |f|
    requires SegChain(f, segs, end, vmBase, vmaddr, size) && j < k < |segs|
    ensures VmAddr(f, segs[j]) + VmSize(f, segs[j]) <= VmAddr(f, segs[k])
    decreases k
  {
    hide VmAddr, VmSize, FileOff, FileSize;
    if j < k - 1 {
      SegmentsAscend(f, segs, end, vmBase, vmaddr, size, j, k - 1);
      assert SegFits(f, segs[k - 1], size);
    }
  }

  lemma SegmentsBounded(f: seq<byte>, segs: seq<nat>, end: nat, vmBase: u64, vmaddr: u64, size: nat, k: nat)
    requires forall i :: 0 <= i < |segs| ==> segs[i] + 72 <= |f|
    requires SegChain(f, segs, end, vmBase, vmaddr, size) && k < |segs|
    ensures vmBase <= VmAddr(f, segs[k]) && VmAddr(f, segs[k]) + VmSize(f, segs[k]) <= vmaddr
  {
    hide VmAddr, VmSize, FileOff, FileSize;
    assert SegFits(f, segs[0], size) && SegFits(f, segs[k], size);
    if k > 0 { SegmentsAscend(f, segs, end, vmBase, vmaddr, size, 0, k); }
    if k < |segs| - 1 { SegmentsAscend(f, segs, end, vmBase, vmaddr, size, k, |segs| - 1); }
  }

  /** The segments partition [vmBase, vmaddr): every address is in exactly one. */
  lemma {:induction false} SegmentsPartition(f: seq<byte>, segs: seq<nat>, end: nat, vmBase: u64, vmaddr: u64,
                                             size: nat, a: u64)
    requires forall i :: 0 <= i < |segs| ==> segs[i] + 72 <= |f|
    requires SegChain(f, segs, end, vmBase, vmaddr, size) && segs != []
    ensures vmBase <= a < vmaddr <==>
            exists k :: 0 <= k < |segs| && VmAddr(f, segs[k]) <= a < VmAddr(f, segs[k]) + VmSize(f, segs[k])
    ensures forall j, k :: 0 <= j < k < |segs| ==>
              !(VmAddr(f, segs[j]) <= a < VmAddr(f, segs[j]) + VmSize(f, segs[j])
                && VmAddr(f, segs[k]) <= a < VmAddr(f, segs[k]) + VmSize(f, segs[k]))
  {
    hide VmAddr, VmSize, FileOff, FileSize, SegChain;
    forall j, k | 0 <= j < k < |segs|
      ensures VmAddr(f, segs[j]) + VmSize(f, segs[j]) <= VmAddr(f, segs[k])
    {
      SegmentsAscend(f, segs, end, vmBase, vmaddr, size, j, k);
    }
    forall k | 0 <= k < |segs|
      ensures vmBase <= VmAddr(f, segs[k]) && VmAddr(f, segs[k]) + VmSize(f, segs[k]) <= vmaddr
    {
      SegmentsBounded(f, segs, end, vmBase, vmaddr, size, k);
    }
    if vmBase <= a < vmaddr {
      LastEnd(f, segs, end, vmBase, vmaddr, size);
      var k := SegmentOf(f, segs, end, vmBase, vmaddr, size, a, |segs|);
    }
  }

  lemma LastEnd(f: seq<byte>, segs: seq<nat>, end: nat, vmBase: u64, vmaddr: u64, size: nat)
    requires forall i :: 0 <= i < |segs| ==> segs[i] + 72 <= |f|
    requires SegChain(f, segs, end, vmBase, vmaddr, size) && segs != []
    ensures VmAddr(f, segs[|segs| - 1]) + VmSize(f, segs[|segs| - 1]) == vmaddr
  {
  }

  /** The segment of an address below the end of the first `n` segments. */
  lemma {:induction false} SegmentOf(f: seq<byte>, segs: seq<nat>, end: nat, vmBase: u64, vmaddr: u64,
                                     size: nat, a: u64, n: nat) returns (k: nat)
    requires forall i :: 0 <= i < |segs| ==> segs[i] + 72 <= |f|
    requires SegChain(f, segs, end, vmBase, vmaddr, size) && 0 < n <= |segs|
    requires vmBase <= a < VmAddr(f, segs[n - 1]) + VmSize(f, segs[n - 1])
    ensures k < n && VmAddr(f, segs[k]) <= a < VmAddr(f, segs[k]) + VmSize(f, segs[k])
    decreases n
  {
    hide VmAddr, VmSize, FileOff, FileSize;
    k := n - 1;
    if a < VmAddr(f, segs[n - 1]) {
      k := SegmentOf(f, segs, end, vmBase, vmaddr, size, a, n - 1);
    }
  }

  // ---- Mapping ----

  /** Every segment's bytes are in the file, and its place in the image. */
  ghost predicate Placed(f: seq<byte>, segs: seq<nat>, vmBase: u64, size: nat) {
    forall k :: 0 <= k < |segs| ==>
      && segs[k] + 72 <= |f| && vmBase <= VmAddr(f, segs[k])
      && VmAddr(f, segs[k]) - vmBase + FileSize(f, segs[k]) <= size
      && FileOff(f, segs[k]) + FileSize(f, segs[k]) <= |f|
  }

  /** The bytes of segment `o` in the file. */
  function FileBytes(f: seq<byte>, o: nat): seq<byte>
    requires o + 72 <= |f| && FileOff(f, o) + FileSize(f, o) <= |f|
  {
    f[FileOff(f, o)..FileOff(f, o) + FileSize(f, o)]
  }

  /** The image after the first `k` segments are copied. */
  function Copy(image: seq<byte>, f: seq<byte>, segs: seq<nat>, vmBase: u64, k: nat): (r: seq<byte>)
    requires Placed(f, segs, vmBase, |image|) && k <= |segs|
    ensures |r| == |image|
  {
    if k == 0 then image
    else Splice(Copy(image, f, segs, vmBase, k - 1), VmAddr(f, segs[k - 1]) - vmBase, FileBytes(f, segs[k - 1]))
  }

  lemma CopyNone(image: seq<byte>, f: seq<byte>, segs: seq<nat>, vmBase: u64)
    requires Placed(f, segs, vmBase, |image|)
    ensures Copy(image, f, segs, vmBase, 0) == image
  {
  }

  lemma CopyStep(image: seq<byte>, f: seq<byte>, segs: seq<nat>, vmBase: u64, k: nat)
    requires Placed(f, segs, vmBase, |image|) && k < |segs|
    ensures var at, m := VmAddr(f, segs[k]) - vmBase, Copy(image, f, segs, vmBase, k);
            && 0 <= at && at + |FileBytes(f, segs[k])| <= |image|
            && Splice(m, at, FileBytes(f, segs[k])) == Copy(image, f, segs, vmBase, k + 1)
  {
    hide VmAddr, FileOff, FileSize, Splice;
  }

  /** `m` holds each segment's file bytes at its place, and the bytes of `image` everywhere else. */
  ghost predicate HoldsFile(m: seq<byte>, image: seq<byte>, f: seq<byte>, segs: seq<nat>, vmBase: u64)
    requires Placed(f, segs, vmBase, |image|)
  {
    && |m| == |image|
    && (forall k :: 0 <= k < |segs| ==> At(m, VmAddr(f, segs[k]) - vmBase, FileBytes(f, segs[k])))
    && (forall v :: 0 <= v < |m| && !Backed(f, segs, vmBase, v) ==> m[v] == image[v])
  }

  /** Image offset `v` has a byte in the file. */
  ghost predicate Backed(f: seq<byte>, segs: seq<nat>, vmBase: u64, v: nat)
    requires forall k :: 0 <= k < |segs| ==> segs[k] + 72 <= |f|
  {
    exists k :: 0 <= k < |segs| && Covers(f, segs[k], vmBase, v)
  }

  ghost predicate Covers(f: seq<byte>, o: nat, vmBase: u64, v: nat)
    requires o + 72 <= |f|
  {
    VmAddr(f, o) <= vmBase + v < VmAddr(f, o) + FileSize(f, o)
  }

  /** The places of the segments do not overlap. */
  ghost predicate Apart(f: seq<byte>, segs: seq<nat>)
    requires forall k :: 0 <= k < |segs| ==> segs[k] + 72 <= |f|
  {
    forall j, k :: 0 <= j < k < |segs| ==> VmAddr(f, segs[j]) + FileSize(f, segs[j]) <= VmAddr(f, segs[k])
  }

  /** Copying the segments one after the other places each, whatever the memory held. */
  lemma {:induction false} CopyPlaces(image: seq<byte>, f: seq<byte>, segs: seq<nat>, vmBase: u64, k: nat, j: nat)
    requires Placed(f, segs, vmBase, |image|) && Apart(f, segs) && j < k <= |segs|
    ensures At(Copy(image, f, segs, vmBase, k), VmAddr(f, segs[j]) - vmBase, FileBytes(f, segs[j]))
  {
    hide At, Splice, VmAddr, FileOff, FileSize;
    var m := Copy(image, f, segs, vmBase, k - 1);
    var o := VmAddr(f, segs[k - 1]) - vmBase;
    if j < k - 1 {
      CopyPlaces(image, f, segs, vmBase, k - 1, j);
      SpliceKeeps(m, o, FileBytes(f, segs[k - 1]), VmAddr(f, segs[j]) - vmBase, FileBytes(f, segs[j]));
    } else {
      SpliceAt(m, o, FileBytes(f, segs[k - 1]));
    }
  }

  lemma {:induction false} CopyLeaves(image: seq<byte>, f: seq<byte>, segs: seq<nat>, vmBase: u64, k: nat, v: nat)
    requires Placed(f, segs, vmBase, |image|) && k <= |segs| && v < |image|
    requires forall j :: 0 <= j < k ==> !Covers(f, segs[j], vmBase, v)
    ensures Copy(image, f, segs, vmBase, k)[v] == image[v]
  {
    if k > 0 {
      hide Splice, VmAddr, FileOff, FileSize;
      CopyLeaves(image, f, segs, vmBase, k - 1, v);
      assert !Covers(f, segs[k - 1], vmBase, v);
      SpliceBytes(Copy(image, f, segs, vmBase, k - 1), VmAddr(f, segs[k - 1]) - vmBase, FileBytes(f, segs[k - 1]));
    }
  }

  lemma CopyHoldsFile(image: seq<byte>, f: seq<byte>, segs: seq<nat>, vmBase: u64)
    requires Placed(f, segs, vmBase, |image|) && Apart(f, segs)
    ensures HoldsFile(Copy(image, f, segs, vmBase, |segs|), image, f, segs, vmBase)
  {
    hide At, Copy, VmAddr, FileOff, FileSize, FileBytes, Covers;
    var m := Copy(image, f, segs, vmBase, |segs|);
    forall k | 0 <= k < |segs|
      ensures At(m, VmAddr(f, segs[k]) - vmBase, FileBytes(f, segs[k]))
    {
      CopyPlaces(image, f, segs, vmBase, |segs|, k);
    }
    forall v | 0 <= v < |m| && !Backed(f, segs, vmBase, v)
      ensures m[v] == image[v]
    {
      CopyLeaves(image, f, segs, vmBase, |segs|, v);
    }
  }

  // ---- Patching the mapped commands ----

  ghost predicate SegsInside(segs: seq<nat>, size: nat) {
    && (forall k :: 0 <= k < |segs| ==> segs[k] + 72 <= size)
    && (forall j, k :: 0 <= j < k < |segs| ==> segs[j] + 72 <= segs[k])
  }

  /** The image after the `vmaddr` of the first `k` segments is set; each round reads the image. */
  function Patch(image: seq<byte>, segs: seq<nat>, vmBase: u64, sa: u64, k: nat): (r: seq<byte>)
    requires k <= |segs| && forall i :: 0 <= i < |segs| ==> segs[i] + 72 <= |image|
    ensures |r| == |image|
  {
    if k == 0 then image else
      var m := Patch(image, segs, vmBase, sa, k - 1);
      Splice(m, segs[k - 1] + 24, LE64(Wrap64(VmAddr(m, segs[k - 1]) - vmBase + sa)))
  }

  lemma AgreeSelf(m: seq<byte>, a: nat, b: nat)
    requires b <= |m|
    ensures Agree(m, m, a, b)
  {
  }

  /** Everything but the patched fields stays. */
  lemma {:induction false} PatchLeaves(image: seq<byte>, segs: seq<nat>, vmBase: u64, sa: u64, k: nat, a: nat, b: nat)
    requires SegsInside(segs, |image|) && k <= |segs| && a <= b <= |image|
    requires forall j :: 0 <= j < k ==> b <= segs[j] + 24 || segs[j] + 32 <= a
    ensures Agree(image, Patch(image, segs, vmBase, sa, k), a, b)
  {
    if k > 0 {
      hide Splice, LE64, VmAddr, Agree;
      PatchLeaves(image, segs, vmBase, sa, k - 1, a, b);
      var m := Patch(image, segs, vmBase, sa, k - 1);
      var w := LE64(Wrap64(VmAddr(m, segs[k - 1]) - vmBase + sa));
      AgreeSplice(m, segs[k - 1] + 24, w, a, b);
      AgreeTrans(image, m, Splice(m, segs[k - 1] + 24, w), a, b);
    } else {
      AgreeSelf(image, a, b);
    }
  }

  /** Each segment's `vmaddr` is patched exactly once: from its value in the file. */
  lemma {:induction false} PatchSets(image: seq<byte>, segs: seq<nat>, vmBase: u64, sa: u64, k: nat, j: nat)
    requires SegsInside(segs, |image|) && j < k <= |segs|
    ensures VmAddr(Patch(image, segs, vmBase, sa, k), segs[j]) == Wrap64(VmAddr(image, segs[j]) - vmBase + sa)
  {
    hide Splice, LE64;
    var m := Patch(image, segs, vmBase, sa, k - 1);
    var o := segs[k - 1] + 24;
    var w := LE64(Wrap64(VmAddr(m, segs[k - 1]) - vmBase + sa));
    if j < k - 1 {
      PatchSets(image, segs, vmBase, sa, k - 1, j);
      SpliceFrame(m, o, w, segs[j] + 24, segs[j] + 32);
    } else {
      PatchLeaves(image, segs, vmBase, sa, k - 1, o, o + 8);
      AgreeDouble(image, m, o);
      SpliceAt(m, o, w);
      DoubleWordHere(Splice(m, o, w), o, Wrap64(VmAddr(m, segs[k - 1]) - vmBase + sa));
    }
  }

  // ---- Relocating and linking ----

  /** The image offset that the loader writes for a relocation. */
  function Slot(f: seq<byte>, rel: nat, vmBase: u64): nat
    requires rel + 8 <= |f|
  {
    Wrap64(RelAddress(f, rel) - vmBase)
  }

  /** `r_address` counts from the first segment's address, so the slot should be `r_address` itself;
      the loader's slot is that exactly when the kext starts at address zero. */
  lemma SlotIsAddress(f: seq<byte>, rel: nat, vmBase: u64)
    requires rel + 8 <= |f| && RelAddress(f, rel) >= 0
    ensures Slot(f, rel, vmBase) == RelAddress(f, rel) <==> vmBase == 0
  {
  }

  /** For every base: of the relocations that pass the bounds test, exactly those at or above `vmBase` are
      written inside the kext; the others miss even the whole allocation. */
  lemma SlotInsideExactly(f: seq<byte>, rel: nat, vmBase: u64, vmSize: u64, size: nat)
    requires rel + 8 <= |f| && RelInBounds(vmBase, vmSize, RelAddress(f, rel)) && vmSize <= size < TWO_32
    ensures Slot(f, rel, vmBase) + 8 <= size <==> vmBase <= RelAddress(f, rel)
    ensures Slot(f, rel, vmBase) + 8 <= vmSize <==> vmBase <= RelAddress(f, rel)
  {
    hide RelAddress;
    var address := RelAddress(f, rel);
    assert -0x8000_0000 <= address < 0x8000_0000 by { SignedAddress(f, rel); }
    assert address >= 0;
  }

  lemma SignedAddress(f: seq<byte>, rel: nat)
    requires rel + 8 <= |f|
    ensures -0x8000_0000 <= RelAddress(f, rel) < 0x8000_0000
  {
  }

  /** At base zero the bounds test puts the slot and its eight bytes inside the kext. */
  lemma SlotInside(f: seq<byte>, rel: nat, vmSize: u64)
    requires rel + 8 <= |f| && RelInBounds(0, vmSize, RelAddress(f, rel)) && vmSize < TWO_32
    ensures Slot(f, rel, 0) == RelAddress(f, rel) && Slot(f, rel, 0) + 8 <= vmSize
  {
  }

  /** The image after the first `n` local relocations of the table at `table`. */
  function Relocate(image: seq<byte>, f: seq<byte>, table: nat, vmBase: u64, slide: u64, n: nat): (r: seq<byte>)
    requires table + 8 * n <= |f| && forall j :: 0 <= j < n ==> Slot(f, table + 8 * j, vmBase) + 8 <= |image|
    ensures |r| == |image|
  {
    if n == 0 then image else
      var m := Relocate(image, f, table, vmBase, slide, n - 1);
      var lr := table + 8 * (n - 1);
      if RelExtern(f, lr) || RelLength(f, lr) != 3 then m
      else Splice(m, Slot(f, lr, vmBase), LE64(Wrap64(U64At(m, Slot(f, lr, vmBase)) + slide)))
  }

  /** The name of an external relocation as the linker computes it: a 64-bit sum. */
  function LinkName(f: seq<byte>, symtab: nat, rel: nat): nat
    requires rel + 8 <= |f| && symtab + 24 <= |f| && Nlist(f, symtab, RelSymbol(f, rel)) + 16 <= |f|
  {
    StrOff(f, symtab) + StrIndex(f, Nlist(f, symtab, RelSymbol(f, rel)))
  }

  /** The symbols of the external relocations and their strings are in the file. */
  ghost predicate Linkable(f: seq<byte>, symtab: nat, table: nat, n: nat) {
    symtab + 24 <= |f| && table + 8 * n <= |f| &&
    forall j :: 0 <= j < n ==>
      Nlist(f, symtab, RelSymbol(f, table + 8 * j)) + 16 <= |f| && LinkName(f, symtab, table + 8 * j) <= |f|
  }

  /** The address that external relocation `rel` resolves to. */
  function Resolved(f: seq<byte>, symtab: nat, rel: nat, chain: seq<SymbolTable>): u64
    requires rel + 8 <= |f| && symtab + 24 <= |f| && Nlist(f, symtab, RelSymbol(f, rel)) + 16 <= |f|
    requires LinkName(f, symtab, rel) <= |f| && AllReadable(chain)
  {
    ChainLookup(chain, CStr(f, LinkName(f, symtab, rel)))
  }

  /** One round of the linking loop, on the relocation at `er`. */
  function LinkOne(m: seq<byte>, f: seq<byte>, symtab: nat, er: nat, vmBase: u64, k: Kernel,
                   chain: seq<SymbolTable>): (r: seq<byte>)
    requires er + 8 <= |f| && symtab + 24 <= |f| && Nlist(f, symtab, RelSymbol(f, er)) + 16 <= |f|
    requires LinkName(f, symtab, er) <= |f| && AllReadable(chain) && Slot(f, er, vmBase) + 8 <= |m|
    ensures |r| == |m|
  {
    if !RelExtern(f, er) || RelLength(f, er) != 3 || Resolved(f, symtab, er, chain) == 0 then m
    else Splice(m, Slot(f, er, vmBase), LE64(VaForSa(k, Resolved(f, symtab, er, chain))))
  }

  /** The slots of the first `n` relocations of the table at `table` lie in the image. */
  ghost predicate SlotsFit(f: seq<byte>, table: nat, vmBase: u64, n: nat, size: nat)
    requires table + 8 * n <= |f|
  {
    forall j :: 0 <= j < n ==> Slot(f, table + 8 * j, vmBase) + 8 <= size
  }

  /** The image after the first `n` external relocations of the table at `table`. */
  function Link(image: seq<byte>, f: seq<byte>, symtab: nat, table: nat, vmBase: u64, k: Kernel,
                chain: seq<SymbolTable>, n: nat): (r: seq<byte>)
    requires Linkable(f, symtab, table, n) && AllReadable(chain)
    requires SlotsFit(f, table, vmBase, n, |image|)
    ensures |r| == |image|
  {
    if n == 0 then image
    else LinkOne(Link(image, f, symtab, table, vmBase, k, chain, n - 1), f, symtab, table + 8 * (n - 1), vmBase, k,
        chain)
  }

  // ---- Frames of the two loops ----

  ghost predicate Clear(slot: nat, a: nat, b: nat) { b <= slot || slot + 8 <= a }

  /** Local relocations that are external or not of 8 bytes are skipped: a byte changes only if it is in the slot of
      another one. */
  lemma {:induction false} RelocateSkips(image: seq<byte>, f: seq<byte>, table: nat, vmBase: u64, slide: u64, n: nat,
                                         v: nat)
    requires table + 8 * n <= |f| && (forall j :: 0 <= j < n ==> Slot(f, table + 8 * j, vmBase) + 8 <= |image|)
    requires v < |image| && forall j :: 0 <= j < n ==>
               || RelExtern(f, table + 8 * j) || RelLength(f, table + 8 * j) != 3
               || Clear(Slot(f, table + 8 * j, vmBase), v, v + 1)
    ensures Relocate(image, f, table, vmBase, slide, n)[v] == image[v]
  {
    hide RelExtern, RelLength, Slot, U64At, LE64, Splice;
    if n != 0 {
      var m, lr := Relocate(image, f, table, vmBase, slide, n - 1), table + 8 * (n - 1);
      RelocateSkips(image, f, table, vmBase, slide, n - 1, v);
      SpliceBytes(m, Slot(f, lr, vmBase), LE64(Wrap64(U64At(m, Slot(f, lr, vmBase)) + slide)));
    }
  }

  /** External relocations that are not external, not of 8 bytes, or not resolved are skipped. */
  lemma {:induction false} LinkSkips(image: seq<byte>, f: seq<byte>, symtab: nat, table: nat, vmBase: u64, k: Kernel,
                                     chain: seq<SymbolTable>, n: nat, v: nat)
    requires Linkable(f, symtab, table, n) && AllReadable(chain) && SlotsFit(f, table, vmBase, n, |image|)
    requires v < |image| && forall j :: 0 <= j < n ==>
               || !RelExtern(f, table + 8 * j) || RelLength(f, table + 8 * j) != 3
               || Resolved(f, symtab, table + 8 * j, chain) == 0 || Clear(Slot(f, table + 8 * j, vmBase), v, v + 1)
    ensures Link(image, f, symtab, table, vmBase, k, chain, n)[v] == image[v]
  {
    hide RelExtern, RelLength, RelSymbol, Slot, LE64, Splice, Resolved, AllReadable, LinkName, Nlist;
    if n != 0 {
      var m, er := Link(image, f, symtab, table, vmBase, k, chain, n - 1), table + 8 * (n - 1);
      LinkSkips(image, f, symtab, table, vmBase, k, chain, n - 1, v);
      SpliceBytes(m, Slot(f, er, vmBase), LE64(VaForSa(k, Resolved(f, symtab, er, chain))));
    }
  }

  lemma {:induction false} RelocateLeaves(image: seq<byte>, f: seq<byte>, table: nat, vmBase: u64, slide: u64,
                                          n: nat, a: nat, b: nat)
    requires table + 8 * n <= |f| && forall j :: 0 <= j < n ==> Slot(f, table + 8 * j, vmBase) + 8 <= |image|
    requires a <= b <= |image| && forall j :: 0 <= j < n ==> Clear(Slot(f, table + 8 * j, vmBase), a, b)
    ensures Agree(image, Relocate(image, f, table, vmBase, slide, n), a, b)
  {
    if n > 0 {
      hide Splice, LE64, Slot, RelExtern, RelLength, Agree;
      RelocateLeaves(image, f, table, vmBase, slide, n - 1, a, b);
      var m := Relocate(image, f, table, vmBase, slide, n - 1);
      var slot := Slot(f, table + 8 * (n - 1), vmBase);
      var w := LE64(Wrap64(U64At(m, slot) + slide));
      assert Clear(slot, a, b);
      AgreeSplice(m, slot, w, a, b);
      AgreeTrans(image, m, Splice(m, slot, w), a, b);
    } else {
      AgreeSelf(image, a, b);
    }
  }

  lemma LinkStep(image: seq<byte>, f: seq<byte>, symtab: nat, table: nat, vmBase: u64,
                 k: Kernel, chain: seq<SymbolTable>, n: nat)
    requires n > 0 && Linkable(f, symtab, table, n) && AllReadable(chain)
    requires SlotsFit(f, table, vmBase, n, |image|)
    ensures Link(image, f, symtab, table, vmBase, k, chain, n)
         == LinkOne(Link(image, f, symtab, table, vmBase, k, chain, n - 1), f, symtab, table + 8 * (n - 1), vmBase,
             k, chain)
  {
    hide Slot, RelSymbol, LinkName, Nlist, AllReadable, LinkOne;
  }

  lemma SlotsFitLess(f: seq<byte>, table: nat, vmBase: u64, n: nat, size: nat)
    requires n > 0 && table + 8 * n <= |f| && SlotsFit(f, table, vmBase, n, size)
    ensures SlotsFit(f, table, vmBase, n - 1, size) && Slot(f, table + 8 * (n - 1), vmBase) + 8 <= size
  {
    hide Slot;
  }

  lemma SlotFits(f: seq<byte>, table: nat, vmBase: u64, n: nat, size: nat, j: nat)
    requires j < n && table + 8 * n <= |f| && SlotsFit(f, table, vmBase, n, size)
    ensures Slot(f, table + 8 * j, vmBase) + 8 <= size
  {
    hide Slot;
  }

  lemma LinkableLess(f: seq<byte>, symtab: nat, table: nat, n: nat)
    requires n > 0 && Linkable(f, symtab, table, n)
    ensures Linkable(f, symtab, table, n - 1) && symtab + 24 <= |f| && table + 8 * n <= |f|
    ensures var er := table + 8 * (n - 1);
            Nlist(f, symtab, RelSymbol(f, er)) + 16 <= |f| && LinkName(f, symtab, er) <= |f|
  {
    hide RelSymbol, LinkName, Nlist;
  }

  lemma {:induction false} LinkLeaves(image: seq<byte>, f: seq<byte>, symtab: nat, table: nat, vmBase: u64,
                                      k: Kernel, chain: seq<SymbolTable>, n: nat, a: nat, b: nat)
    requires Linkable(f, symtab, table, n) && AllReadable(chain)
    requires SlotsFit(f, table, vmBase, n, |image|)
    requires a <= b <= |image| && forall j :: 0 <= j < n ==> Clear(Slot(f, table + 8 * j, vmBase), a, b)
    ensures Agree(image, Link(image, f, symtab, table, vmBase, k, chain, n), a, b)
  {
    if n > 0 {
      hide Slot, RelSymbol, LinkName, Nlist, AllReadable, Agree, LinkOne, Link, Clear, RelExtern, RelLength;
      hide Resolved, Splice, Linkable, SlotsFit;
      LinkableLess(f, symtab, table, n);
      SlotsFitLess(f, table, vmBase, n, |image|);
      LinkLeaves(image, f, symtab, table, vmBase, k, chain, n - 1, a, b);
      var m := Link(image, f, symtab, table, vmBase, k, chain, n - 1);
      var er := table + 8 * (n - 1);
      assert Clear(Slot(f, er, vmBase), a, b);
      LinkStep(image, f, symtab, table, vmBase, k, chain, n);
      LinkOneLeaves(m, f, symtab, er, vmBase, k, chain, a, b);
      AgreeTrans(image, m, LinkOne(m, f, symtab, er, vmBase, k, chain), a, b);
    } else {
      hide Agree, Slot;
      AgreeSelf(image, a, b);
    }
  }

  lemma LinkOneLeaves(m: seq<byte>, f: seq<byte>, symtab: nat, er: nat, vmBase: u64, k: Kernel,
                      chain: seq<SymbolTable>, a: nat, b: nat)
    requires er + 8 <= |f| && symtab + 24 <= |f| && Nlist(f, symtab, RelSymbol(f, er)) + 16 <= |f|
    requires LinkName(f, symtab, er) <= |f| && AllReadable(chain) && Slot(f, er, vmBase) + 8 <= |m|
    requires a <= b <= |m| && Clear(Slot(f, er, vmBase), a, b)
    ensures Agree(m, LinkOne(m, f, symtab, er, vmBase, k, chain), a, b)
  {
    hide Splice, LE64, RelExtern, RelLength, RelSymbol, LinkName, Nlist, Slot, Resolved, AllReadable, Agree;
    AgreeSplice(m, Slot(f, er, vmBase), LE64(VaForSa(k, Resolved(f, symtab, er, chain))), a, b);
    AgreeSelf(m, a, b);
  }

  /** The slots of the relocations from `lo` up to `n` keep clear of [a, b). */
  ghost predicate SlotsClear(f: seq<byte>, table: nat, vmBase: u64, lo: nat, n: nat, a: nat, b: nat)
    requires table + 8 * n <= |f|
  {
    forall i :: lo <= i < n ==> Clear(Slot(f, table + 8 * i, vmBase), a, b)
  }

  /** The last relocation of a slot decides: the slot holds the slid address of that one's symbol. */
  lemma {:induction false} LinkLast(image: seq<byte>, f: seq<byte>, symtab: nat, table: nat, vmBase: u64,
                                    k: Kernel, chain: seq<SymbolTable>, n: nat, j: nat)
    requires Linkable(f, symtab, table, n) && AllReadable(chain)
    requires SlotsFit(f, table, vmBase, n, |image|)
    requires j < n && RelExtern(f, table + 8 * j) && RelLength(f, table + 8 * j) == 3
    requires Resolved(f, symtab, table + 8 * j, chain) != 0
    requires SlotsClear(f, table, vmBase, j + 1, n, Slot(f, table + 8 * j, vmBase), Slot(f, table + 8 * j, vmBase) + 8)
    ensures U64At(Link(image, f, symtab, table, vmBase, k, chain, n), Slot(f, table + 8 * j, vmBase))
         == VaForSa(k, Resolved(f, symtab, table + 8 * j, chain))
  {
    hide Slot, RelExtern, RelLength, RelSymbol, LinkName, Nlist, Resolved, U64At, AllReadable, VaForSa, Agree, LinkOne;
    hide Link, Linkable, SlotsFit, Clear;
    LinkableLess(f, symtab, table, n);
    SlotsFitLess(f, table, vmBase, n, |image|);
    LinkStep(image, f, symtab, table, vmBase, k, chain, n);
    var m := Link(image, f, symtab, table, vmBase, k, chain, n - 1);
    var er := table + 8 * (n - 1);
    var s := Slot(f, table + 8 * j, vmBase);
    if j < n - 1 {
      assert s + 8 <= |image| by { SlotFits(f, table, vmBase, n, |image|, j); }
      LinkLast(image, f, symtab, table, vmBase, k, chain, n - 1, j);
      assert Clear(Slot(f, er, vmBase), s, s + 8);
      LinkOneLeaves(m, f, symtab, er, vmBase, k, chain, s, s + 8);
      AgreeDouble(m, LinkOne(m, f, symtab, er, vmBase, k, chain), s);
    } else {
      LinkOneSets(m, f, symtab, er, vmBase, k, chain);
    }
  }

  lemma LinkOneSets(m: seq<byte>, f: seq<byte>, symtab: nat, er: nat, vmBase: u64, k: Kernel,
                    chain: seq<SymbolTable>)
    requires er + 8 <= |f| && symtab + 24 <= |f| && Nlist(f, symtab, RelSymbol(f, er)) + 16 <= |f|
    requires LinkName(f, symtab, er) <= |f| && AllReadable(chain) && Slot(f, er, vmBase) + 8 <= |m|
    requires RelExtern(f, er) && RelLength(f, er) == 3 && Resolved(f, symtab, er, chain) != 0
    ensures U64At(LinkOne(m, f, symtab, er, vmBase, k, chain), Slot(f, er, vmBase))
         == VaForSa(k, Resolved(f, symtab, er, chain))
  {
    hide Splice, LE64, RelExtern, RelLength, RelSymbol, LinkName, Nlist, Slot, Resolved, AllReadable, U64At, VaForSa;
    var s, va := Slot(f, er, vmBase), VaForSa(k, Resolved(f, symtab, er, chain));
    SpliceAt(m, s, LE64(va));
    DoubleWordHere(Splice(m, s, LE64(va)), s, va);
  }
}
