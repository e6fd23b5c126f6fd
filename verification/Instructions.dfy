/** Instruction words: bit fields, address formation, and the patch of `OSKext::initWithPrelinkedInfoDict`. */
module Instructions {
  import opened Arithmetic
  import opened Machine
  import opened AsciiText
  import opened Pointers

  // ---- Shifts of 64-bit values ----

  function Shl(x: u64, n: nat): u64 { Wrap64(x * Pow(2, n)) }

  function Shr(x: u64, n: nat): (r: u64)
  {
    Quotient(x, Pow(2, n));
    x / Pow(2, n)
  }

  lemma Quotient(x: u64, m: nat)
    requires m > 0
    ensures 0 <= x / m <= x
  {
    if x / m > x { AtLeastOnce(m, x / m); }
  }

  /** The value as `intmax_t`. */
  function Signed(x: u64): int { if x < 0x8000_0000_0000_0000 then x else x - TWO_64 }

  /** The arithmetic right shift, which rounds down. */
  function Sar(x: u64, n: nat): u64 { Wrap64(Signed(x) / Pow(2, n)) }

  function Bits(x: u64, sign: bool, hi: nat, lo: nat, shift: nat): u64
    requires lo <= hi < 64 && shift <= 64 - (hi - lo + 1)
  {
    var d := 64 - (hi - lo + 1);
    if sign then Sar(Shl(Sar(x, lo), d), d - shift) else Shr(Shl(Shr(x, lo), d), d - shift)
  }

  /** The unsigned number in bits `hi` to `lo`. */
  function BitField(x: u64, hi: nat, lo: nat): (f: nat)
    requires lo <= hi
    ensures f < Pow(2, hi - lo + 1)
  {
    x / Pow(2, lo) % Pow(2, hi - lo + 1)
  }

  /** A `w`-bit number read as two's complement. */
  function SignExtend(f: nat, w: nat): int
    requires w > 0
  {
    if f < Pow(2, w - 1) then f else f - Pow(2, w)
  }

  /** Shifting left by `d` keeps the low `w = 64 - d` bits, as a multiple of 2^d. */
  lemma ShlKeepsLow(y: u64, w: nat)
    requires w <= 64
    ensures Shl(y, 64 - w) == (y % Pow(2, w)) * Pow(2, 64 - w)
  {
    PowSum(2, w, 64 - w);
    Powers();
    ModScale(y, Pow(2, w), Pow(2, 64 - w));
  }

  /** The final right shift leaves a factor 2^shift. */
  lemma BackShift(f: int, d: nat, shift: nat)
    requires shift <= d
    ensures (f * Pow(2, d)) / Pow(2, d - shift) == f * Pow(2, shift)
  {
    PowSum(2, shift, d - shift);
    Associate(f, Pow(2, shift), Pow(2, d - shift));
    DivModUnique(f * Pow(2, d), Pow(2, d - shift), f * Pow(2, shift), 0);
  }

  /** Subtracting `c * w * l` before dividing by `l` does not change the quotient modulo `w`. */
  lemma DropHigh(x: int, l: nat, w: nat, c: nat)
    requires l > 0 && w > 0
    ensures (x - (c * w) * l) / l % w == x / l % w
  {
    Distribute(0, c * w, l);
    ModPlus(x, l, -(c * w));
    Distribute(0, c, w);
    ModPlus(x / l, w, 0 - c);
  }

  lemma WordFactors(a: nat, b: nat)
    requires a + b <= 64
    ensures Pow(2, 64 - a - b) * Pow(2, a) * Pow(2, b) == TWO_64
  {
    Powers();
    PowSum(2, 64 - a - b, a);
    PowSum(2, 64 - b, b);
  }

  lemma WrapKeepsLow(v: int, w: nat)
    requires w <= 64
    ensures Wrap64(v) % Pow(2, w) == v % Pow(2, w)
  {
    hide Pow;
    WordFactors(0, w);
    One();
    ModMod(v, Pow(2, w), Pow(2, 64 - w));
  }

  lemma One()
    ensures Pow(2, 0) == 1 && Pow(2, 1) == 2
  {
  }

  /** The arithmetic shift does not change the `w` bits above `lo`. */
  lemma SarKeepsField(x: u64, lo: nat, w: nat)
    requires lo + w <= 64
    ensures Sar(x, lo) % Pow(2, w) == x / Pow(2, lo) % Pow(2, w)
  {
    hide Pow, Wrap64;
    WrapKeepsLow(Signed(x) / Pow(2, lo), w);
    WordFactors(w, lo);
    DropHigh(x, Pow(2, lo), Pow(2, w), Pow(2, 64 - w - lo));
  }

  /** Without a sign, the extracted bits are the field times 2^shift. */
  lemma UnsignedBits(x: u64, hi: nat, lo: nat, shift: nat)
    requires lo <= hi < 64 && shift <= 64 - (hi - lo + 1)
    ensures Bits(x, false, hi, lo, shift) == BitField(x, hi, lo) * Pow(2, shift)
  {
    hide Shl, Pow;
    var w := hi - lo + 1;
    ShlKeepsLow(Shr(x, lo), w);
    BackShift(BitField(x, hi, lo), 64 - w, shift);
  }

  /** With a sign, they are the sign-extended field times 2^shift, modulo 2^64. */
  lemma SignedBits(x: u64, hi: nat, lo: nat, shift: nat)
    requires lo <= hi < 64 && shift <= 64 - (hi - lo + 1)
    ensures Bits(x, true, hi, lo, shift) == Wrap64(SignExtend(BitField(x, hi, lo), hi - lo + 1) * Pow(2, shift))
  {
    hide Shl, Pow, Wrap64;
    var w := hi - lo + 1;
    var d, f := 64 - w, BitField(x, hi, lo);
    SarKeepsField(x, lo, w);
    ShlKeepsLow(Sar(x, lo), w);
    SignedField(f, w);
    BackShift(SignExtend(f, w), d, shift);
  }

  /** Moved to the top of the word, the field carries its sign. */
  lemma SignedField(f: nat, w: nat)
    requires 0 < w <= 64 && f < Pow(2, w)
    ensures 0 <= f * Pow(2, 64 - w) < TWO_64 && Signed(f * Pow(2, 64 - w)) == SignExtend(f, w) * Pow(2, 64 - w)
  {
    hide Pow;
    Powers();
    PowSum(2, w, 64 - w);
    PowSum(2, w - 1, 64 - w);
    Ordered(f, Pow(2, w), Pow(2, 64 - w));
    Ordered(f, Pow(2, w - 1), Pow(2, 64 - w));
    Distribute(f, Pow(2, w), Pow(2, 64 - w));
  }

  lemma Ordered(a: nat, b: nat, c: nat)
    requires c > 0
    ensures 0 <= a * c && (a < b <==> a * c < b * c)
  {
    Distribute(b, a, c);
    Distribute(a, b, c);
    if a < b { AtLeastOnce(b - a, c); } else if b < a { AtLeastOnce(a - b, c); }
  }

  // ---- Bitwise operations ----

  function BitOr(a: nat, b: nat): nat {
    if a == 0 then b
    else if b == 0 then a
    else (if a % 2 == 1 || b % 2 == 1 then 1 else 0) + 2 * BitOr(a / 2, b / 2)
  }

  function BitAnd(a: nat, b: nat): nat {
    if a == 0 || b == 0 then 0
    else (if a % 2 == 1 && b % 2 == 1 then 1 else 0) + 2 * BitAnd(a / 2, b / 2)
  }

  /** Of numbers without common bits, the bitwise or is the sum. */
  lemma {:induction false} OrDisjoint(a: nat, b: nat, k: nat)
    requires a % Pow(2, k) == 0 && b < Pow(2, k)
    ensures BitOr(a, b) == a + b
  {
    if k != 0 {
      Halve(a, Pow(2, k - 1));
      OrDisjoint(a / 2, b / 2, k - 1);
    }
  }

  lemma Halve(a: nat, m: nat)
    requires m > 0
    ensures a % (2 * m) == a / 2 % m * 2 + a % 2
  {
    var q, r := a / 2 / m, a / 2 % m;
    Associate(q, 2, m);
    assert a == q * (2 * m) + (2 * r + a % 2);
    DivModUnique(a, 2 * m, q, 2 * r + a % 2);
  }

  /** Masking with ones from bit `k` up to bit `n` clears the low `k` bits. */
  lemma {:induction false} ClearLow(x: nat, n: nat, k: nat)
    requires k <= n && x < Pow(2, n)
    ensures Pow(2, n) >= Pow(2, k) && BitAnd(x, Pow(2, n) - Pow(2, k)) == x - x % Pow(2, k)
  {
    if n == 0 {
    } else if k == 0 {
      ClearLow(x / 2, n - 1, 0);
      assert (Pow(2, n) - 1) / 2 == Pow(2, n - 1) - 1;
    } else {
      ClearLow(x / 2, n - 1, k - 1);
      Halve(x, Pow(2, k - 1));
      assert (Pow(2, n) - Pow(2, k)) / 2 == Pow(2, n - 1) - Pow(2, k - 1);
    }
  }

  // ---- ADRP and ADD ----

  const NOT_FFF: u64 := TWO_64 - 0x1000

  /** The pointer that the two instructions at `at` form; 0 for NULL. */
  function Resolve(k: Kernel, adrp: u32, add: u32, at: u64): u64 {
    var reg0 := Bits(adrp, false, 4, 0, 0);
    var reg1 := Bits(add, false, 4, 0, 0);
    var reg2 := Bits(add, false, 9, 5, 0);
    if reg0 != reg1 || reg1 != reg2 || reg0 == 0x1F then 0
    else
      var imm0 := BitOr(Bits(adrp, true, 23, 5, 14), Bits(adrp, false, 30, 29, 12));
      var imm1 := Bits(add, false, 21, 10, 0);
      PtrForVa(k, Wrap64(BitAnd(VaForPtr(k, at), NOT_FFF) + imm0 + imm1))
  }

  /** The signed 21-bit page count of an ADRP: `immhi` above `immlo`. */
  function AdrpPages(adrp: u32): int {
    SignExtend(BitField(adrp, 23, 5) * 4 + BitField(adrp, 30, 29), 21)
  }

  /** Pages relative to the page of `pc`, and an offset. */
  function PageTarget(pc: u64, pages: int, offset: int): u64 {
    Wrap64(pc - pc % 0x1000 + pages * 0x1000 + offset)
  }

  lemma SignSplit(hi: nat, lo: nat)
    requires hi < 0x8_0000 && lo < 4
    ensures SignExtend(hi * 4 + lo, 21) == SignExtend(hi, 19) * 4 + lo
  {
    hide Pow;
    Powers();
    PowSum(2, 18, 1);
    PowSum(2, 20, 1);
    One();
  }

  /** The combined immediate is the page count times the page size. */
  lemma AdrpImmediate(adrp: u32)
    ensures BitOr(Bits(adrp, true, 23, 5, 14), Bits(adrp, false, 30, 29, 12)) % TWO_64
         == Wrap64(AdrpPages(adrp) * 0x1000)
  {
    hide Bits, BitField, BitOr, Wrap64, SignExtend, Pow;
    Powers();
    var hi, lo := BitField(adrp, 23, 5), BitField(adrp, 30, 29);
    SignedBits(adrp, 23, 5, 14);
    UnsignedBits(adrp, 30, 29, 12);
    SignSplit(hi, lo);
    var v := SignExtend(hi, 19) * 0x4000;
    WrapKeepsLow(v, 14);
    ModPlus(0, 0x4000, SignExtend(hi, 19));
    OrDisjoint(Wrap64(v), lo * 0x1000, 14);
    WrapSum(v, lo * 0x1000);
    assert BitOr(Wrap64(v), lo * 0x1000) == Wrap64(v) + lo * 0x1000;
    WrapIs(Wrap64(v) + lo * 0x1000);
  }

  lemma WrapIs(x: int)
    ensures Wrap64(x) == x % TWO_64
  {
  }

  /** For every pair of words, what is resolved are the pages and the offset that they encode. */
  lemma ResolveMeaning(k: Kernel, adrp: u32, add: u32, at: u64)
    ensures var d, e, n := BitField(adrp, 4, 0), BitField(add, 4, 0), BitField(add, 9, 5);
            Resolve(k, adrp, add, at)
            == if d == e == n && d != 31
               then PtrForVa(k, PageTarget(VaForPtr(k, at), AdrpPages(adrp), BitField(add, 21, 10)))
               else 0
  {
    hide Bits, BitField, BitOr, BitAnd, Wrap64, SignExtend, Pow, PtrForVa, VaForPtr, AdrpPages;
    Powers();
    One();
    UnsignedBits(adrp, 4, 0, 0);
    UnsignedBits(add, 4, 0, 0);
    UnsignedBits(add, 9, 5, 0);
    UnsignedBits(add, 21, 10, 0);
    AdrpImmediate(adrp);
    var pc := VaForPtr(k, at);
    ClearLow(pc, 64, 12);
    var imm0 := BitOr(Bits(adrp, true, 23, 5, 14), Bits(adrp, false, 30, 29, 12));
    var base, imm1 := pc - pc % 0x1000, BitField(add, 21, 10);
    WrapIs(imm0);
    WrapSum(imm0, base + imm1);
    WrapSum(AdrpPages(adrp) * 0x1000, base + imm1);
  }

  /** ADRP and ADD (immediate, without shift) as section C6.2 of the Arm Architecture Reference Manual encodes them. */
  function Adrp(rd: nat, pages: int): u32
    requires rd < 32 && -0x10_0000 <= pages < 0x10_0000
  {
    var u := pages % 0x20_0000;
    0x9000_0000 + (u % 4) * 0x2000_0000 + (u / 4) * 32 + rd
  }

  function AddImmediate(rd: nat, rn: nat, imm12: nat): u32
    requires rd < 32 && rn < 32 && imm12 < 0x1000
  {
    0x9100_0000 + imm12 * 0x400 + rn * 32 + rd
  }

  lemma AdrpParts(rd: nat, hi: nat, lo: nat)
    requires rd < 32 && hi < 0x8_0000 && lo < 4
    ensures var w := 0x9000_0000 + lo * 0x2000_0000 + hi * 32 + rd;
            w < TWO_32 && BitField(w, 4, 0) == rd && BitField(w, 23, 5) == hi && BitField(w, 30, 29) == lo
  {
    hide Pow;
    Powers();
    One();
    var w: nat := 0x9000_0000 + lo * 0x2000_0000 + hi * 32 + rd;
    DivModUnique(w, 32, 0x480_0000 + lo * 0x100_0000 + hi, rd);
    DivModUnique(w / 32, 0x8_0000, 0x90 + lo * 32, hi);
    DivModUnique(w, 0x2000_0000, 4 + lo, 0x1000_0000 + hi * 32 + rd);
    DivModUnique(w, 1, w, 0);
  }

  lemma PagesSign(pages: int)
    requires -0x10_0000 <= pages < 0x10_0000
    ensures SignExtend(pages % 0x20_0000, 21) == pages
  {
    hide Pow;
    Powers();
    One();
    PowSum(2, 20, 1);
  }

  lemma AdrpFields(rd: nat, pages: int)
    requires rd < 32 && -0x10_0000 <= pages < 0x10_0000
    ensures BitField(Adrp(rd, pages), 4, 0) == rd && AdrpPages(Adrp(rd, pages)) == pages
  {
    hide BitField, SignExtend;
    var u := pages % 0x20_0000;
    AdrpParts(rd, u / 4, u % 4);
    PagesSign(pages);
  }

  lemma AddFields(rd: nat, rn: nat, imm12: nat)
    requires rd < 32 && rn < 32 && imm12 < 0x1000
    ensures var w := AddImmediate(rd, rn, imm12);
            BitField(w, 4, 0) == rd && BitField(w, 9, 5) == rn && BitField(w, 21, 10) == imm12
  {
    hide Pow;
    Powers();
    One();
    var w := AddImmediate(rd, rn, imm12);
    DivModUnique(w, 32, 0x488_0000 + imm12 * 32 + rn, rd);
    DivModUnique(w / 32, 32, 0x24_4000 + imm12, rn);
    DivModUnique(w, 0x400, 0x24_4000 + imm12, rn * 32 + rd);
    DivModUnique(w / 0x400, 0x1000, 0x244, imm12);
    DivModUnique(w, 1, w, 0);
  }

  /** The number of pages from `pc` to `va`, around the end of the address space if that is nearer. */
  function PageDistance(pc: u64, va: u64): int {
    var q := (va / 0x1000 - pc / 0x1000) % 0x10_0000_0000_0000;
    if q < 0x8_0000_0000_0000 then q else q - 0x10_0000_0000_0000
  }

  lemma PagesLead(pc: u64, va: u64)
    ensures PageTarget(pc, PageDistance(pc, va), va % 0x1000) == va
  {
    var d := va / 0x1000 - pc / 0x1000;
    var c := d / 0x10_0000_0000_0000;
    assert -1 <= c <= 0;
  }

  /** Resolving inverts the encoding: for every place of the code, every pointer within reach of an ADRP and
      every register but 31, the two encoded instructions resolve to the pointer. */
  lemma ResolveInverts(k: Kernel, at: u64, p: u64, rd: nat)
    requires rd < 31 && -0x10_0000 <= PageDistance(VaForPtr(k, at), VaForPtr(k, p)) < 0x10_0000
    ensures var pc, va := VaForPtr(k, at), VaForPtr(k, p);
            Resolve(k, Adrp(rd, PageDistance(pc, va)), AddImmediate(rd, rd, va % 0x1000), at) == p
  {
    hide Resolve, BitField, Adrp, AddImmediate, AdrpPages, PageDistance, PageTarget, PtrForVa, VaForPtr;
    var pc, va := VaForPtr(k, at), VaForPtr(k, p);
    AdrpFields(rd, PageDistance(pc, va));
    AddFields(rd, rd, va % 0x1000);
    ResolveMeaning(k, Adrp(rd, PageDistance(pc, va)), AddImmediate(rd, rd, va % 0x1000), at);
    PagesLead(pc, va);
    Inverses(k, p);
  }

  // ---- The patch ----

  // "_PrelinkBundlePath"
  const BUNDLE_PATH: seq<byte> := [95, 80, 114, 101, 108, 105, 110, 107, 66, 117, 110, 100, 108, 101, 80, 97, 116, 104]

  const MAX_SEARCH: nat := 30

  predicate Matches(insn: bv32, pattern: bv32, mask: bv32) { insn & mask == pattern }

  predicate IsSubSp(insn: bv32) { Matches(insn, 0xD10003FF, 0xFFF01FFF) }

  predicate IsStp(insn: bv32) { Matches(insn, 0xA9006FFC, 0xFFC0FFFF) }

  predicate IsPrologue(insn: bv32) { IsSubSp(insn) || IsStp(insn) }

  predicate IsMovX2(insn: bv32) { Matches(insn, 0xAA0203E0, 0xFFFFFFE0) }

  /** MOV Xd, Xm: ORR (shifted register) with XZR as the first operand. */
  function MovRegister(d: bv32, m: bv32): bv32
    requires d < 32 && m < 32
  {
    0xAA0003E0 | (m << 16) | d
  }

  /** SUB (immediate, 64-bit, without shift) and STP (signed offset, 64-bit). */
  function SubImmediate(d: bv32, n: bv32, imm12: bv32): bv32
    requires d < 32 && n < 32 && imm12 < 0x1000
  {
    0xD1000000 | (imm12 << 10) | (n << 5) | d
  }

  function StorePair(t: bv32, t2: bv32, n: bv32, imm7: bv32): bv32
    requires t < 32 && t2 < 32 && n < 32 && imm7 < 128
  {
    0xA9000000 | (imm7 << 15) | (t2 << 10) | (n << 5) | t
  }

  /** The pattern is exactly the instruction MOV Xn, X2. */
  lemma MovX2Is(insn: bv32)
    ensures IsMovX2(insn) <==> insn == MovRegister(Rd(insn), 2)
  {
  }

  /** The register that an instruction writes. */
  function Rd(insn: bv32): (d: bv32)
    ensures d < 32
  {
    insn & 31
  }

  function WithXzr(insn: bv32): bv32 { insn | 0x001F0000 }

  function Value(insn: bv32): u32 { insn as u32 }

  /** Setting the bits turns it into MOV Xn, XZR with the same n, which the pattern no longer matches. */
  lemma ZeroedMov(insn: bv32)
    requires IsMovX2(insn)
    ensures WithXzr(insn) == MovRegister(Rd(insn), 31) && !IsMovX2(WithXzr(insn))
  {
  }

  /** The first prologue pattern is SUB SP, SP, #imm with an offset below 0x400, in multiples of 8. */
  lemma SubSpIs(insn: bv32)
    ensures IsSubSp(insn) <==>
              var imm12 := (insn >> 10) & 0xFFF;
              insn == SubImmediate(31, 31, imm12) && imm12 < 0x400 && imm12 & 7 == 0
  {
  }

  /** The second is STP X28, X27, [SP, #imm] with any 7-bit immediate that is even. */
  lemma StpIs(insn: bv32)
    ensures IsStp(insn) <==>
              var imm7 := (insn >> 15) & 127;
              insn == StorePair(28, 27, 31, imm7) && imm7 & 1 == 0
  {
  }

  /** A prologue starts with either of them. */
  lemma PrologueIs(insn: bv32)
    ensures IsPrologue(insn) <==>
              var imm12, imm7 := (insn >> 10) & 0xFFF, (insn >> 15) & 127;
              || (insn == SubImmediate(31, 31, imm12) && imm12 < 0x400 && imm12 & 7 == 0)
              || (insn == StorePair(28, 27, 31, imm7) && imm7 & 1 == 0)
  {
    SubSpIs(insn);
    StpIs(insn);
  }

  /** The second pattern goes beyond the offsets below 0x100 that it is meant for: it also matches
      STP X28, X27, [SP, #0x1F0] and STP X28, X27, [SP, #-0x10]. */
  lemma StpBeyond()
    ensures IsStp(StorePair(28, 27, 31, 0x1F0 / 8)) && IsStp(StorePair(28, 27, 31, 128 - 0x10 / 8))
  {
  }

  // ---- The backward search ----

  /** `p` is the prologue instruction nearest to `at`, at most thirty instructions in front of it. */
  ghost predicate PrologueAt(code: seq<bv32>, at: nat, p: nat)
    requires at < |code|
  {
    && p <= at <= p + 30 && IsPrologue(code[p])
    && forall q :: p < q <= at ==> !IsPrologue(code[q])
  }

  /** `i` is the MOV Xn, X2 that comes first behind the prologue. */
  ghost predicate SavesX2(code: seq<bv32>, at: nat, i: nat)
    requires at < |code|
  {
    exists p: nat :: PrologueAt(code, at, p) && FirstMovBehind(code, at, p, i)
  }

  ghost predicate FirstMovBehind(code: seq<bv32>, at: nat, p: nat, i: nat)
    requires at < |code|
  {
    p < i <= at && IsMovX2(code[i]) && forall q :: p < q < i ==> !IsMovX2(code[q])
  }

  /** At most one instruction is to be patched. */
  lemma SavesX2Unique(code: seq<bv32>, at: nat, i: nat, j: nat)
    requires at < |code| && SavesX2(code, at, i) && SavesX2(code, at, j)
    ensures i == j
  {
    var p: nat :| PrologueAt(code, at, p) && FirstMovBehind(code, at, p, i);
    var r: nat :| PrologueAt(code, at, r) && FirstMovBehind(code, at, r, j);
    assert p == r;
  }

  /** The pattern match at `at` belongs to the function: the third and fourth instructions form the address
      of the string "_PrelinkBundlePath". `base` is the pointer to the code, `str` reads a C string. */
  ghost predicate IsInitFunction(k: Kernel, code: seq<bv32>, base: u64, at: nat, str: u64 -> seq<byte>)
    requires at + 4 <= |code|
  {
    var target := Resolve(k, Value(code[at + 2]), Value(code[at + 3]), Wrap64(base + 4 * (at + 2)));
    target != 0 && str(target) == BUNDLE_PATH
  }

  lemma PathText()
    ensures BUNDLE_PATH == Text("_PrelinkBundlePath")
  {
  }

  /** Where the two words are ADRP and ADD on one register, the match belongs to the function exactly if the
      string at the page and offset that they encode is the path. */
  lemma InitFunctionIs(k: Kernel, code: seq<bv32>, base: u64, at: nat, str: u64 -> seq<byte>, rd: nat, pages: int,
                       imm12: nat)
    requires at + 4 <= |code| && rd < 31 && -0x10_0000 <= pages < 0x10_0000 && imm12 < 0x1000
    requires code[at + 2] as u32 == Adrp(rd, pages) && code[at + 3] as u32 == AddImmediate(rd, rd, imm12)
    ensures var pc := VaForPtr(k, Wrap64(base + 4 * (at + 2)));
            var target := PtrForVa(k, PageTarget(pc, pages, imm12));
            IsInitFunction(k, code, base, at, str) <==> target != 0 && str(target) == Text("_PrelinkBundlePath")
  {
    hide Resolve, BitField, Adrp, AddImmediate, AdrpPages, PageTarget, PtrForVa, VaForPtr, Wrap64;
    PathText();
    AdrpFields(rd, pages);
    AddFields(rd, rd, imm12);
    ResolveMeaning(k, Adrp(rd, pages), AddImmediate(rd, rd, imm12), Wrap64(base + 4 * (at + 2)));
  }

  /** The search does not leave the code. */
  ghost predicate SearchInside(code: seq<bv32>, at: nat)
    requires at < |code|
  {
    at >= 30 || exists p :: 0 <= p <= at && IsPrologue(code[p])
  }

  /** Searches backwards for the prologue and records the instruction that saves X2. */
  method FindX2(code: array<bv32>, at: nat) returns (x2: Option<nat>)
    requires at < code.Length && SearchInside(code[..], at)
    ensures x2.Some? ==> x2.value < code.Length && SavesX2(code[..], at, x2.value)
    ensures x2.None? ==> forall i: nat :: !SavesX2(code[..], at, i)
  {
    hide IsPrologue, IsMovX2;
    x2 := None;
    var i := 0;
    while true
      invariant 0 <= i <= MAX_SEARCH + 1 && (i <= MAX_SEARCH ==> i <= at)
      invariant forall q :: at - i < q <= at && 0 <= q ==> !IsPrologue(code[q])
      invariant x2.None? ==> forall q :: at - i < q <= at && 0 <= q ==> !IsMovX2(code[q])
      invariant x2.Some? ==> at - i < x2.value <= at && IsMovX2(code[x2.value])
                             && forall q :: at - i < q < x2.value && 0 <= q ==> !IsMovX2(code[q])
      decreases MAX_SEARCH + 1 - i
    {
      if i > MAX_SEARCH {
        return None;
      }
      if IsPrologue(code[at - i]) {
        break;
      }
      if IsMovX2(code[at - i]) {
        x2 := Some(at - i);
      }
      i := i + 1;
    }
    assert PrologueAt(code[..], at, at - i);
  }

  /** The callback on a match at `at`. */
  method OSKextInitPatch(k: Kernel, code: array<bv32>, base: u64, at: nat, str: u64 -> seq<byte>) returns (ok: bool)
    requires at + 4 <= code.Length
    requires IsInitFunction(k, code[..], base, at, str) ==> SearchInside(code[..], at)
    modifies code
    ensures ok <==> IsInitFunction(k, old(code[..]), base, at, str) && exists i: nat :: SavesX2(old(code[..]), at, i)
    ensures ok ==> exists i: nat :: SavesX2(old(code[..]), at, i)
                     && code[..] == old(code[..])[i := MovRegister(Rd(old(code[i])), 31)]
    ensures !ok ==> code[..] == old(code[..])
  {
    hide PrologueAt, SearchInside, MovRegister, Resolve, IsMovX2, Rd, WithXzr, Value, SavesX2;
    ghost var before := code[..];
    var target := Resolve(k, Value(code[at + 2]), Value(code[at + 3]), Wrap64(base + 4 * (at + 2)));
    if target == 0 || str(target) != BUNDLE_PATH {
      return false;
    }
    var x2 := FindX2(code, at);
    assert code[..] == before;
    if x2.None? {
      assert forall i: nat :: !SavesX2(before, at, i);
      return false;
    }
    SavesInside(before, at, x2.value);
    ZeroedMov(code[x2.value]);
    code[x2.value] := WithXzr(code[x2.value]);
    return true;
  }

  lemma SavesInside(code: seq<bv32>, at: nat, i: nat)
    requires at < |code| && SavesX2(code, at, i)
    ensures i <= at && IsMovX2(code[i])
  {
  }
}
