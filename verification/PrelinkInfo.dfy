/** Hexadecimal fields, and the insertion of kext dictionaries into the prelink info section. */
module PrelinkInfo {
  import opened Arithmetic
  import opened Machine
  import opened AsciiText
  import opened SymbolText
  import opened SymbolGrammar
  import opened HostTable
  import opened Pointers

  // ---- format_hex ----

  function HexChar(d: nat): byte
    requires d < 16
  {
    if d < 10 then 48 + d else 87 + d
  }

  /** `v` as `n` digits, the least significant one last. */
  function HexText(n: nat, v: nat): (s: seq<byte>)
    ensures |s| == n
  {
    if n == 0 then [] else HexText(n - 1, v / 16) + [HexChar(v % 16)]
  }

  lemma HexCharIsDigit(d: nat)
    requires d < 16
    ensures HexDigit(HexChar(d)) == d
  {
  }

  /** The digits are in lower case. */
  lemma HexCharIs(d: nat)
    requires d < 16
    ensures HexChar(d) == Ascii("0123456789abcdef"[d])
  {
  }

  /** The text is the base-16 representation of `v` modulo 16^n. */
  lemma {:induction false} HexTextValue(n: nat, v: nat)
    ensures AllHex(HexText(n, v)) && HexValue(HexText(n, v)) == v % Pow(16, n)
  {
    if n != 0 {
      HexTextValue(n - 1, v / 16);
      HexCharIsDigit(v % 16);
      var s := HexText(n, v);
      assert s[..|s| - 1] == HexText(n - 1, v / 16);
      DivTwice(v, Pow(16, n - 1));
    }
  }

  /** Dividing by 16 and then by `m`, or the other way round, is dividing by `16 * m`. */
  lemma DivTwice(v: nat, m: nat)
    requires m > 0
    ensures 16 * m > 0 && v / 16 / m == v / (16 * m) == v / m / 16
    ensures v % (16 * m) == (v / 16 % m) * 16 + v % 16
  {
    DivFirst(v, m, v / 16 / m, v / 16 % m);
    DivSecond(v, m, v / m / 16, v / m % 16);
  }

  lemma DivFirst(v: nat, m: nat, q: nat, b: nat)
    requires v / 16 == q * m + b && b < m
    ensures v / (16 * m) == q && v % (16 * m) == b * 16 + v % 16
  {
    Regroup(q, m);
    assert v == 16 * (q * m) + (16 * b + v % 16);
    DivModUnique(v, 16 * m, q, 16 * b + v % 16);
  }

  lemma DivSecond(v: nat, m: nat, q: nat, d: nat)
    requires m > 0 && v / m == q * 16 + d && d < 16
    ensures v / (16 * m) == q
  {
    assert v == (v / m) * m + v % m;
    Distribute(q * 16, d, m);
    Regroup(q, m);
    Bounded(d, m);
    DivModUnique(v, 16 * m, q, d * m + v % m);
  }

  lemma Regroup(q: nat, m: nat)
    ensures q * (16 * m) == 16 * (q * m) == q * 16 * m
  {
  }

  lemma Bounded(d: nat, m: nat)
    requires d < 16
    ensures 0 <= d * m <= 15 * m
  {
  }

  /** The digit at distance `i` from the end is the `i`th base-16 digit. */
  lemma {:induction false} HexTextDigit(n: nat, v: nat, i: nat)
    requires i < n
    ensures HexText(n, v)[n - 1 - i] == HexChar(v / Pow(16, i) % 16)
  {
    if i != 0 {
      HexTextDigit(n - 1, v / 16, i - 1);
      DivTwice(v, Pow(16, i - 1));
    }
  }

  /** More digits go in front. */
  lemma {:induction false} HexTextFront(n: nat, v: nat)
    ensures HexText(n + 1, v) == [HexChar(v / Pow(16, n) % 16)] + HexText(n, v)
  {
    if n != 0 {
      HexTextFront(n - 1, v / 16);
      DivTwice(v, Pow(16, n - 1));
      assert HexText(n + 1, v) == HexText(n, v / 16) + [HexChar(v % 16)];
    }
  }

  /** Writes `value` as `n` hexadecimal characters at `at`, from the last to the first. */
  method FormatHex(buf: array<byte>, at: nat, n: nat, value: u64)
    requires at + n <= buf.Length
    modifies buf
    ensures buf[..] == Splice(old(buf[..]), at, HexText(n, value))
  {
    hide Splice, HexChar, HexText, Pow;
    ghost var m := buf[..];
    var v: nat := value;
    FormatStart(m, at + n, value);
    for i := 0 to n
      invariant v == value / Pow(16, i)
      invariant buf[..] == Splice(m, at + n - i, HexText(i, value))
    {
      FormatStep(m, at + n - (i + 1), i, value);
      Store(buf, at + n - (i + 1), [HexChar(v % 16)]);
      v := v / 16;
    }
  }

  lemma FormatStart(m: seq<byte>, o: nat, value: u64)
    requires o <= |m|
    ensures value / Pow(16, 0) == value && HexText(0, value) == [] && Splice(m, o, []) == m
  {
    assert Pow(16, 0) == 1;
  }

  lemma FormatStep(m: seq<byte>, o: nat, i: nat, value: u64)
    requires o + i + 1 <= |m|
    ensures Splice(Splice(m, o + 1, HexText(i, value)), o, [HexChar(value / Pow(16, i) % 16)])
         == Splice(m, o, HexText(i + 1, value))
    ensures value / Pow(16, i) / 16 == value / Pow(16, i + 1)
  {
    HexTextFront(i, value);
    SpliceFront(m, o, HexChar(value / Pow(16, i) % 16), HexText(i, value));
    DivTwice(value, Pow(16, i));
  }

  lemma SpliceFront(m: seq<byte>, o: nat, c: byte, s: seq<byte>)
    requires o + 1 + |s| <= |m|
    ensures Splice(Splice(m, o + 1, s), o, [c]) == Splice(m, o, [c] + s)
  {
    SpliceBytes(m, o + 1, s);
    SpliceBytes(Splice(m, o + 1, s), o, [c]);
    SpliceBytes(m, o, [c] + s);
  }

  /** Round trip across the two programs: the host's parser reads back what the device formats. */
  lemma FormattedParses(t: seq<byte>, p: nat, v: u64)
    requires At(t, p, HEX_PREFIX + HexText(16, v))
    requires p + 18 < |t| ==> HexDigit(t[p + 18]) == -1
    ensures HexU64(t, p) == Some(v)
  {
    hide At, HexText, HexDigit, AllHex;
    AtSplit(t, p, HEX_PREFIX, HexText(16, v));
    HexTextValue(16, v);
    Pow16();
    HexAt(t, p, HexText(16, v));
  }

  // ---- The dictionary ----

  // "</array></dict>"
  const FOOTER: seq<byte> := [60, 47, 97, 114, 114, 97, 121, 62, 60, 47, 100, 105, 99, 116, 62]
  // "NNN0", "NNN1", "ADDRESS", "SIZE", "KMODINFO"
  const ID_KEY_0: seq<byte> := [78, 78, 78, 48]
  const ID_KEY_1: seq<byte> := [78, 78, 78, 49]
  const ADDRESS_KEY: seq<byte> := [65, 68, 68, 82, 69, 83, 83]
  const SIZE_KEY: seq<byte> := [83, 73, 90, 69]
  const KMOD_KEY: seq<byte> := [75, 77, 79, 68, 73, 78, 70, 79]

  /** The texts that the device searches for. */
  lemma KeyTexts()
    ensures FOOTER == Text("</array></dict>") && ID_KEY_0 == Text("NNN0") && ID_KEY_1 == Text("NNN1")
    ensures ADDRESS_KEY == Text("ADDRESS") && SIZE_KEY == Text("SIZE") && KMOD_KEY == Text("KMODINFO")
  {
  }

  /** What is written into the dictionary of one kext: static address, size, static `kmod_info` address. */
  datatype Record = Record(address: u64, size: u64, kmod: u64)

  /** The first placeholder `key` in the template, with room for its field. */
  predicate HasField(t: seq<byte>, key: seq<byte>, width: nat) {
    Find(t, key, 0).Some? && Find(t, key, 0).value + width <= |t|
  }

  function Field(t: seq<byte>, key: seq<byte>): nat
    requires Find(t, key, 0).Some?
  {
    Find(t, key, 0).value
  }

  /** The placeholder stands there, and nowhere in front. */
  lemma FieldIsFirst(t: seq<byte>, key: seq<byte>, width: nat)
    requires HasField(t, key, width) && key != []
    ensures At(t, Field(t, key), key) && forall p: nat :: p < Field(t, key) ==> !At(t, p, key)
  {
    FoundInside(t, key);
  }

  ghost predicate AwayFrom(a: nat, n: nat, b: nat, m: nat) { a + n <= b || b + m <= a }

  /** A dictionary template: a C string with the five placeholders, their fields apart. */
  ghost predicate Template(t: seq<byte>) {
    && HasField(t, ADDRESS_KEY, 16) && HasField(t, SIZE_KEY, 16) && HasField(t, KMOD_KEY, 16)
    && HasField(t, ID_KEY_0, 4) && HasField(t, ID_KEY_1, 4)
    && var a, s, m, i, j := Field(t, ADDRESS_KEY), Field(t, SIZE_KEY), Field(t, KMOD_KEY),
                            Field(t, ID_KEY_0), Field(t, ID_KEY_1);
    && AwayFrom(a, 16, s, 16) && AwayFrom(a, 16, m, 16) && AwayFrom(s, 16, m, 16)
    && AwayFrom(i, 4, a, 16) && AwayFrom(i, 4, s, 16) && AwayFrom(i, 4, m, 16)
    && AwayFrom(j, 4, a, 16) && AwayFrom(j, 4, s, 16) && AwayFrom(j, 4, m, 16) && AwayFrom(i, 4, j, 4)
    && forall k :: 0 <= k < |t| ==> t[k] != 0
  }

  /** The dictionary of a kext with identifier `id`. */
  function Dictionary(t: seq<byte>, e: Record, id: u32): (d: seq<byte>)
    requires Template(t)
    ensures |d| == |t|
  {
    var d1 := Splice(t, Field(t, ADDRESS_KEY), HexText(16, e.address));
    var d2 := Splice(d1, Field(t, SIZE_KEY), HexText(16, e.size));
    var d3 := Splice(d2, Field(t, KMOD_KEY), HexText(16, e.kmod));
    var d4 := Splice(d3, Field(t, ID_KEY_0), HexText(4, id));
    Splice(d4, Field(t, ID_KEY_1), HexText(4, id))
  }

  /** All five fields stand in the finished dictionary. */
  lemma DictionaryFields(t: seq<byte>, e: Record, id: u32)
    requires Template(t)
    ensures var d := Dictionary(t, e, id);
            && At(d, Field(t, ADDRESS_KEY), HexText(16, e.address)) && At(d, Field(t, SIZE_KEY), HexText(16, e.size))
            && At(d, Field(t, KMOD_KEY), HexText(16, e.kmod))
            && At(d, Field(t, ID_KEY_0), HexText(4, id)) && At(d, Field(t, ID_KEY_1), HexText(4, id))
  {
    hide At, Splice, HexText, Find;
    var a, s, m, i, j := Field(t, ADDRESS_KEY), Field(t, SIZE_KEY), Field(t, KMOD_KEY), Field(t, ID_KEY_0),
        Field(t, ID_KEY_1);
    var w1, w2, w3, w := HexText(16, e.address), HexText(16, e.size), HexText(16, e.kmod), HexText(4, id);
    var d1 := Splice(t, a, w1);
    var d2 := Splice(d1, s, w2);
    var d3 := Splice(d2, m, w3);
    var d4 := Splice(d3, i, w);
    SpliceAt(t, a, w1);
    SpliceAt(d1, s, w2);
    SpliceAt(d2, m, w3);
    SpliceAt(d3, i, w);
    SpliceAt(d4, j, w);
    SpliceKeeps(d1, s, w2, a, w1);
    SpliceKeeps(d2, m, w3, a, w1);
    SpliceKeeps(d3, i, w, a, w1);
    SpliceKeeps(d4, j, w, a, w1);
    SpliceKeeps(d2, m, w3, s, w2);
    SpliceKeeps(d3, i, w, s, w2);
    SpliceKeeps(d4, j, w, s, w2);
    SpliceKeeps(d3, i, w, m, w3);
    SpliceKeeps(d4, j, w, m, w3);
    SpliceKeeps(d4, j, w, i, w);
  }

  /** Position `p` is in none of the five fields. */
  predicate Fixed(t: seq<byte>, p: nat)
    requires Template(t)
  {
    && !(Field(t, ADDRESS_KEY) <= p < Field(t, ADDRESS_KEY) + 16)
        && !(Field(t, SIZE_KEY) <= p < Field(t, SIZE_KEY) + 16)
    && !(Field(t, KMOD_KEY) <= p < Field(t, KMOD_KEY) + 16)
    && !(Field(t, ID_KEY_0) <= p < Field(t, ID_KEY_0) + 4) && !(Field(t, ID_KEY_1) <= p < Field(t, ID_KEY_1) + 4)
  }

  lemma SpliceByte(m: seq<byte>, o: nat, s: seq<byte>, p: nat)
    requires o + |s| <= |m| && p < |m| && !(o <= p < o + |s|)
    ensures Splice(m, o, s)[p] == m[p]
  {
    SpliceBytes(m, o, s);
  }

  /** The rest of the dictionary is the template. */
  lemma DictionaryFixed(t: seq<byte>, e: Record, id: u32, p: nat)
    requires Template(t) && p < |t| && Fixed(t, p)
    ensures Dictionary(t, e, id)[p] == t[p]
  {
    hide Splice, HexText, Find;
    var d1 := Splice(t, Field(t, ADDRESS_KEY), HexText(16, e.address));
    var d2 := Splice(d1, Field(t, SIZE_KEY), HexText(16, e.size));
    var d3 := Splice(d2, Field(t, KMOD_KEY), HexText(16, e.kmod));
    var d4 := Splice(d3, Field(t, ID_KEY_0), HexText(4, id));
    SpliceByte(t, Field(t, ADDRESS_KEY), HexText(16, e.address), p);
    SpliceByte(d1, Field(t, SIZE_KEY), HexText(16, e.size), p);
    SpliceByte(d2, Field(t, KMOD_KEY), HexText(16, e.kmod), p);
    SpliceByte(d3, Field(t, ID_KEY_0), HexText(4, id), p);
    SpliceByte(d4, Field(t, ID_KEY_1), HexText(4, id), p);
  }

  /** The field of `key` is written as "0x", sixteen digits, and then something that is not a digit. */
  predicate Number(t: seq<byte>, key: seq<byte>)
    requires Template(t) && HasField(t, key, 16)
  {
    var f := Field(t, key);
    && f >= 2 && f + 17 <= |t| && t[f - 2] == HEX_PREFIX[0] && t[f - 1] == HEX_PREFIX[1] && HexDigit(t[f + 16]) == -1
    && Fixed(t, f - 2) && Fixed(t, f - 1) && Fixed(t, f + 16)
  }

  lemma NumberParses(t: seq<byte>, d: seq<byte>, key: seq<byte>, v: u64)
    requires Template(t) && HasField(t, key, 16) && Number(t, key) && |d| == |t|
    requires At(d, Field(t, key), HexText(16, v))
    requires forall p: nat :: p < |t| && Fixed(t, p) ==> d[p] == t[p]
    ensures HexU64(d, Field(t, key) - 2) == Some(v)
  {
    hide Template, Fixed, Find, HexU64, HexText, At, HexDigit;
    var f := Field(t, key);
    TwoHere(d, f - 2);
    AtSplit(d, f - 2, HEX_PREFIX, HexText(16, v));
    FormattedParses(d, f - 2, v);
  }

  lemma TwoHere(d: seq<byte>, p: nat)
    requires p + 2 <= |d| && d[p] == HEX_PREFIX[0] && d[p + 1] == HEX_PREFIX[1]
    ensures At(d, p, HEX_PREFIX)
  {
  }

  /** What the kernel reads back: the entry's three numbers. */
  lemma RecordReadsBack(t: seq<byte>, e: Record, id: u32)
    requires Template(t) && Number(t, ADDRESS_KEY) && Number(t, SIZE_KEY) && Number(t, KMOD_KEY)
    ensures var d := Dictionary(t, e, id);
            && HexU64(d, Field(t, ADDRESS_KEY) - 2) == Some(e.address)
            && HexU64(d, Field(t, SIZE_KEY) - 2) == Some(e.size)
            && HexU64(d, Field(t, KMOD_KEY) - 2) == Some(e.kmod)
  {
    hide Dictionary, HexU64, HexText, At, Number, Fixed, Field;
    var d := Dictionary(t, e, id);
    DictionaryFields(t, e, id);
    forall p: nat | p < |t| && Fixed(t, p)
      ensures d[p] == t[p]
    {
      DictionaryFixed(t, e, id, p);
    }
    NumberParses(t, d, ADDRESS_KEY, e.address);
    NumberParses(t, d, SIZE_KEY, e.size);
    NumberParses(t, d, KMOD_KEY, e.kmod);
  }

  /** The entry of a kext in memory, with its addresses unslid. */
  function KextRecord(k: Kernel, kext: u64, size: u64, kmod: u64): Record {
    Record(SaForPtr(k, kext), size, SaForPtr(k, kmod))
  }

  /** The three numbers that stand in the dictionary `d` of a template: converted to pointers the addresses are
      those of the kext and of its `kmod_info`, and the size is the kext's. */
  ghost predicate Describes(t: seq<byte>, d: seq<byte>, k: Kernel, kext: u64, size: u64, kmod: u64)
    requires Template(t) && Number(t, ADDRESS_KEY) && Number(t, SIZE_KEY) && Number(t, KMOD_KEY)
  {
    var address, bytes, info := HexU64(d, Field(t, ADDRESS_KEY) - 2), HexU64(d, Field(t, SIZE_KEY) - 2),
                                HexU64(d, Field(t, KMOD_KEY) - 2);
    && address.Some? && PtrForSa(k, address.value) == kext
    && bytes == Some(size)
    && info.Some? && PtrForSa(k, info.value) == kmod
  }

  /** The numbers in the dictionary lead back to the kext, its size and its `kmod_info`. */
  lemma RecordLeads(t: seq<byte>, k: Kernel, kext: u64, size: u64, kmod: u64, id: u32)
    requires Template(t) && Number(t, ADDRESS_KEY) && Number(t, SIZE_KEY) && Number(t, KMOD_KEY)
    ensures Describes(t, Dictionary(t, KextRecord(k, kext, size, kmod), id), k, kext, size, kmod)
  {
    hide Dictionary, HexU64, Number, Template, HasField, Field, SaForPtr, PtrForSa;
    RecordReadsBack(t, KextRecord(k, kext, size, kmod), id);
    Inverses(k, kext);
    Inverses(k, kmod);
  }

  /** The identifier field holds the identifier modulo 16^4. */
  lemma IdentifierValue(v: u32)
    ensures HexValue(HexText(4, v)) == v % 0x1_0000
  {
    hide HexText, HexValue, AllHex, Pow;
    HexTextValue(4, v);
    FourDigits();
  }

  lemma FourDigits()
    ensures Pow(16, 4) == 0x1_0000
  {
    assert Pow(16, 2) == 0x100;
  }

  /** Dictionaries less than 65536 insertions apart carry different identifiers. */
  lemma IdentifiersDiffer(id: u32, i: nat, j: nat)
    requires i < j < i + 0x1_0000
    ensures HexText(4, Wrap32(id + i)) != HexText(4, Wrap32(id + j))
  {
    hide HexText, HexValue;
    IdentifierValue(Wrap32(id + i));
    IdentifierValue(Wrap32(id + j));
  }

  // ---- The section ----

  /** The memory from the section's start on, its recorded size, and the next identifier. */
  datatype Section = Section(mem: seq<byte>, size: nat, id: u32)

  ghost predicate Scannable(s: Section) {
    && s.size <= |s.mem| && s.mem != [] && s.mem[|s.mem| - 1] == 0
    && exists i :: 0 <= i < s.size && s.mem[i] != 0
  }

  /** The position behind the last byte before `p` that is not NUL. */
  function Trim(m: seq<byte>, p: nat): (q: nat)
    requires p <= |m| && exists i :: 0 <= i < p && m[i] != 0
    ensures 0 < q <= p && m[q - 1] != 0 && forall i :: q <= i < p ==> m[i] == 0
    decreases p
  {
    if m[p - 1] != 0 then p else Trim(m, p - 1)
  }

  /** The last position up to `p` at which the C string is the footer. */
  function LastFooter(m: seq<byte>, p: nat): (q: Option<nat>)
    ensures q.Some? ==> q.value <= p && At(m, q.value, FOOTER + [0])
    ensures forall i: nat :: (q.Some? ==> q.value < i) && i <= p ==> !At(m, i, FOOTER + [0])
    decreases p
  {
    if At(m, p, FOOTER + [0]) then Some(p) else if p == 0 then None else LastFooter(m, p - 1)
  }

  /** Where the next dictionary goes. */
  function Spot(s: Section): Option<nat>
    requires Scannable(s)
  {
    LastFooter(s.mem, Trim(s.mem, s.size))
  }

  /** The section can be scanned, and the dictionary and the footer fit behind the content. */
  ghost predicate CanInsert(s: Section, t: seq<byte>) {
    Scannable(s) && (Spot(s).Some? ==> Spot(s).value + |t| + |FOOTER| + 1 <= |s.mem|)
  }

  /** The section after one insertion; `None` when it has no footer. */
  function Insert(s: Section, t: seq<byte>, e: Record): Option<Section>
    requires CanInsert(s, t) && Template(t)
  {
    match Spot(s)
    case None => None
    case Some(q) =>
      Some(Section(Splice(s.mem, q, Dictionary(t, e, s.id) + (FOOTER + [0])), s.size + |t|, Wrap32(s.id + 1)))
  }

  /** What an insertion changes: at the place of the footer there now is a dictionary that describes the kext, and
      then the footer; the bytes in front are as before. */
  ghost predicate Inserted(s: Section, s': Section, t: seq<byte>, k: Kernel, kext: u64, size: u64, kmod: u64)
    requires CanInsert(s, t) && Template(t)
  {
    match Spot(s)
    case None => s' == s
    case Some(q) =>
      && q + |t| <= |s'.mem| == |s.mem| && s'.size == s.size + |t| && s'.id == Wrap32(s.id + 1)
      && s'.mem[..q] == s.mem[..q] && At(s'.mem, q + |t|, FOOTER + [0])
      && (Number(t, ADDRESS_KEY) && Number(t, SIZE_KEY) && Number(t, KMOD_KEY) ==>
            Describes(t, s'.mem[q..q + |t|], k, kext, size, kmod))
  }

  lemma InsertDescribes(s: Section, t: seq<byte>, k: Kernel, kext: u64, size: u64, kmod: u64)
    requires CanInsert(s, t) && Template(t)
    ensures var r := Insert(s, t, KextRecord(k, kext, size, kmod));
            Inserted(s, if r.Some? then r.value else s, t, k, kext, size, kmod)
  {
    hide Spot, Dictionary, Describes, Number, KextRecord, At, Splice, Scannable, Find;
    if Spot(s).Some? {
      var q, d := Spot(s).value, Dictionary(t, KextRecord(k, kext, size, kmod), s.id);
      DictionaryHere(s.mem, q, d, FOOTER + [0]);
      if Number(t, ADDRESS_KEY) && Number(t, SIZE_KEY) && Number(t, KMOD_KEY) {
        RecordLeads(t, k, kext, size, kmod, s.id);
      }
    }
  }

  lemma DictionaryHere(m: seq<byte>, q: nat, d: seq<byte>, b: seq<byte>)
    requires q + |d| + |b| <= |m|
    ensures var r := Splice(m, q, d + b); r[..q] == m[..q] && r[q..q + |d|] == d && At(r, q + |d|, b)
  {
    SpliceBytes(m, q, d + b);
  }

  // ---- Any number of insertions ----

  /** The memory is `content`, the footer, and zeros; the recorded size takes in the footer. */
  ghost predicate SectionHolds(s: Section, content: seq<byte>) {
    && At(s.mem, 0, content + FOOTER)
    && |content| + |FOOTER| <= s.size <= |s.mem| && |content| + |FOOTER| < |s.mem|
    && forall i :: |content| + |FOOTER| <= i < |s.mem| ==> s.mem[i] == 0
  }

  /** The footer is not found at a later position of itself. */
  lemma NoLaterFooter(m: seq<byte>, c: nat, p: nat)
    requires At(m, c, FOOTER + [0]) && c < p <= c + |FOOTER|
    ensures !At(m, p, FOOTER + [0])
  {
    AtIndex(m, c, FOOTER + [0]);
    var b := FOOTER + [0];
    assert p == c + 8 ==> m[c + 10] == b[10] != b[2];
    assert p != c + 8 ==> m[p] == b[p - c] != b[0];
    if p == c + 8 {
      assert m[p + 2] != b[2];
    } else {
      assert m[p + 0] != b[0];
    }
  }

  /** Where a section holds its content, the dictionary goes directly behind it. */
  lemma SpotHere(s: Section, content: seq<byte>)
    requires SectionHolds(s, content)
    ensures Scannable(s) && Spot(s) == Some(|content|)
    ensures At(s.mem, |content|, FOOTER + [0])
  {
    var m, c, e := s.mem, |content|, |content| + |FOOTER|;
    hide At;
    AtSplit(m, 0, content, FOOTER);
    FooterEnds(m, c);
    assert m[e - 1] != 0;
    assert Trim(m, s.size) == e;
    forall p | c < p <= e
      ensures !At(m, p, FOOTER + [0])
    {
      NoLaterFooter(m, c, p);
    }
  }

  lemma FooterEnds(m: seq<byte>, c: nat)
    requires At(m, c, FOOTER) && c + |FOOTER| < |m| && m[c + |FOOTER|] == 0
    ensures At(m, c, FOOTER + [0]) && m[c + |FOOTER| - 1] == 62
  {
    AtIndex(m, c, FOOTER);
  }

  /** There is room for `k` more dictionaries. */
  predicate Room(s: Section, content: seq<byte>, t: seq<byte>, k: nat) {
    |content| + k * |t| + |FOOTER| < |s.mem| && s.size + k * |t| <= |s.mem|
  }

  /** One insertion appends the dictionary to the content, and the section can be searched again. */
  lemma InsertKeeps(s: Section, content: seq<byte>, t: seq<byte>, e: Record)
    requires Template(t) && SectionHolds(s, content) && Room(s, content, t, 1)
    ensures CanInsert(s, t) && Insert(s, t, e).Some?
    ensures var s' := Insert(s, t, e).value;
            SectionHolds(s', content + Dictionary(t, e, s.id)) && |s'.mem| == |s.mem|
            && s'.size == s.size + |t| && s'.id == Wrap32(s.id + 1)
  {
    hide At, Spot, Scannable, Splice, Dictionary, Template, HasField;
    SpotHere(s, content);
    var d := Dictionary(t, e, s.id);
    AtSplit(s.mem, 0, content, FOOTER);
    SpliceAppends(s.mem, 0, content, d + (FOOTER + [0]));
    var m := Splice(s.mem, |content|, d + (FOOTER + [0]));
    assert content + (d + (FOOTER + [0])) == (content + d + FOOTER) + [0];
    AtSplit(m, 0, content + d + FOOTER, [0]);
    ZerosStay(s.mem, |content|, |FOOTER|, d + (FOOTER + [0]));
  }

  lemma ZerosStay(m: seq<byte>, c: nat, f: nat, w: seq<byte>)
    requires c + |w| <= |m| && |w| > f && w[|w| - 1] == 0
    requires forall i :: c + f <= i < |m| ==> m[i] == 0
    ensures forall i :: c + |w| - 1 <= i < |m| ==> Splice(m, c, w)[i] == 0
  {
    SpliceBytes(m, c, w);
  }

  /** Consecutive insertions; `None` once one of them does not happen. */
  ghost function InsertAll(s: Section, t: seq<byte>, es: seq<Record>): Option<Section>
    requires Template(t)
    decreases |es|
  {
    if es == [] then Some(s)
    else if !CanInsert(s, t) then None
    else
      match Insert(s, t, es[0])
      case None => None
      case Some(s') => InsertAll(s', t, es[1..])
  }

  /** The dictionaries one behind the other, with consecutive identifiers. */
  function Dictionaries(t: seq<byte>, es: seq<Record>, id: u32): (d: seq<byte>)
    requires Template(t)
  {
    if es == [] then [] else Dictionary(t, es[0], id) + Dictionaries(t, es[1..], Wrap32(id + 1))
  }

  lemma Times(k: nat, n: nat)
    requires k > 0
    ensures k * n == n + (k - 1) * n && (k - 1) * n >= 0
  {
  }

  lemma NextId(id: u32, k: nat)
    requires k > 0
    ensures Wrap32(Wrap32(id + 1) + (k - 1)) == Wrap32(id + k)
  {
  }

  lemma NoId(id: u32)
    ensures Wrap32(id + 0) == id
  {
  }

  lemma RoomForOne(s: Section, content: seq<byte>, t: seq<byte>, k: nat)
    requires k > 0 && Room(s, content, t, k)
    ensures Room(s, content, t, 1)
  {
    Times(k, |t|);
  }

  lemma RoomLeft(s: Section, content: seq<byte>, s': Section, content': seq<byte>, t: seq<byte>, k: nat)
    requires k > 0 && Room(s, content, t, k)
    requires |content'| == |content| + |t| && s'.size == s.size + |t| && |s'.mem| == |s.mem|
    ensures Room(s', content', t, k - 1)
  {
    Times(k, |t|);
  }

  /** After any number of insertions the section holds the original content and then
      every dictionary in order; its size has grown by one template length for each. */
  lemma {:induction false} InsertAllHolds(s: Section, content: seq<byte>, t: seq<byte>, es: seq<Record>)
    requires Template(t) && SectionHolds(s, content) && Room(s, content, t, |es|)
    ensures InsertAll(s, t, es).Some?
    ensures var s' := InsertAll(s, t, es).value;
            SectionHolds(s', content + Dictionaries(t, es, s.id)) && |s'.mem| == |s.mem|
            && s'.size == s.size + |es| * |t| && s'.id == Wrap32(s.id + |es|)
    decreases |es|
  {
    hide SectionHolds, CanInsert, Insert, Dictionary, Template, HasField, Room, Wrap32;
    if es == [] {
      NoId(s.id);
      assert content + Dictionaries(t, es, s.id) == content;
    } else {
      Times(|es|, |t|);
      RoomForOne(s, content, t, |es|);
      InsertKeeps(s, content, t, es[0]);
      var s1 := Insert(s, t, es[0]).value;
      var d := Dictionary(t, es[0], s.id);
      RoomLeft(s, content, s1, content + d, t, |es|);
      NextId(s.id, |es|);
      InsertAllHolds(s1, content + d, t, es[1..]);
      assert content + d + Dictionaries(t, es[1..], s1.id) == content + Dictionaries(t, es, s.id);
    }
  }

  /** The `k`th inserted dictionary stands behind `k` template lengths and has the `k`th identifier. */
  lemma {:induction false} DictionaryStands(t: seq<byte>, es: seq<Record>, id: u32, k: nat)
    requires Template(t) && k < |es|
    ensures At(Dictionaries(t, es, id), k * |t|, Dictionary(t, es[k], Wrap32(id + k)))
    decreases k
  {
    hide Dictionary, Template, HasField, At;
    var d, rest := Dictionary(t, es[0], id), Dictionaries(t, es[1..], Wrap32(id + 1));
    if k == 0 {
      AtFront(d, rest);
      NoId(id);
    } else {
      Times(k, |t|);
      NextId(id, k);
      DictionaryStands(t, es[1..], Wrap32(id + 1), k - 1);
      AtBehind(d, rest, (k - 1) * |t|, Dictionary(t, es[k], Wrap32(id + k)));
    }
  }

  lemma AtFront(s: seq<byte>, more: seq<byte>)
    ensures At(s + more, 0, s)
  {
  }

  lemma AtBehind(front: seq<byte>, m: seq<byte>, o: nat, s: seq<byte>)
    requires At(m, o, s)
    ensures At(front + m, |front| + o, s)
  {
  }

  // ---- Writing ----

  /** A copy inside a copy. */
  lemma SpliceInside(m: seq<byte>, q: nat, s: seq<byte>, o: nat, w: seq<byte>)
    requires q + |s| <= |m| && o + |w| <= |s|
    ensures Splice(Splice(m, q, s), q + o, w) == Splice(m, q, Splice(s, o, w))
  {
    SpliceBytes(m, q, s);
    SpliceBytes(Splice(m, q, s), q + o, w);
    SpliceBytes(s, o, w);
    SpliceBytes(m, q, Splice(s, o, w));
  }

  lemma SpliceFirst(a: seq<byte>, b: seq<byte>, o: nat, w: seq<byte>)
    requires o + |w| <= |a|
    ensures Splice(a + b, o, w) == Splice(a, o, w) + b
  {
    SpliceBytes(a + b, o, w);
    SpliceBytes(a, o, w);
  }

  /** One formatted field of the dictionary, written in place. */
  lemma FieldWritten(m: seq<byte>, q: nat, d: seq<byte>, b: seq<byte>, o: nat, w: seq<byte>)
    requires q + |d| + |b| <= |m| && o + |w| <= |d|
    ensures Splice(Splice(m, q, d + b), q + o, w) == Splice(m, q, Splice(d, o, w) + b)
  {
    hide Splice;
    SpliceInside(m, q, d + b, o, w);
    SpliceFirst(d, b, o, w);
  }

  /** Copying the template and then the footer over its terminator. */
  lemma TemplateWritten(m: seq<byte>, q: nat, t: seq<byte>, b: seq<byte>)
    requires q + |t| + |b| <= |m| && |b| >= 1
    ensures Splice(Splice(m, q, t + [0]), q + |t|, b) == Splice(m, q, t + b)
  {
    SpliceBytes(m, q, t + [0]);
    SpliceBytes(Splice(m, q, t + [0]), q + |t|, b);
    SpliceBytes(m, q, t + b);
  }

  class PrelinkSection {
    const mem: array<byte>
    var size: nat
    var kextId: u32

    constructor (mem: array<byte>, size: nat)
      ensures this.mem == mem && this.size == size && kextId == 0
    {
      this.mem := mem;
      this.size := size;
      kextId := 0;
    }

    ghost function State(): Section
      reads this, mem
    {
      Section(mem[..], size, kextId)
    }

    /** The backward scans: over the padding, then to the footer. */
    method FindSpot() returns (spot: Option<nat>)
      requires Scannable(State())
      ensures spot == Spot(State())
    {
      hide At;
      var p: nat := size;
      while mem[p - 1] == 0
        invariant 0 < p <= size && (exists i :: 0 <= i < p && mem[i] != 0) && mem[..] == State().mem
        invariant Trim(mem[..], p) == Trim(mem[..], size)
        decreases p
      {
        p := p - 1;
      }
      while !At(mem[..], p, FOOTER + [0])
        invariant p <= mem.Length && LastFooter(mem[..], p) == LastFooter(mem[..], Trim(mem[..], size))
        decreases p
      {
        if p == 0 {
          return None;
        }
        p := p - 1;
      }
      return Some(p);
    }

    /** Writes one formatted field at the first placeholder of the template. */
    method PatchField(q: nat, ghost m: seq<byte>, ghost d: seq<byte>, ghost b: seq<byte>, o: nat, n: nat, value: u64)
      requires |m| == mem.Length && q + |d| + |b| <= |m| && o + n <= |d| && mem[..] == Splice(m, q, d + b)
      modifies mem
      ensures mem[..] == Splice(m, q, Splice(d, o, HexText(n, value)) + b)
    {
      hide Splice, HexText;
      FieldWritten(m, q, d, b, o, HexText(n, value));
      FormatHex(mem, q + o, n, value);
    }

    /** Inserts the dictionary of a kext in front of the footer. */
    method KextInsert(t: seq<byte>, e: Record) returns (ok: bool)
      requires CanInsert(State(), t) && Template(t)
      modifies this, mem
      ensures match Insert(old(State()), t, e)
              case None => !ok && State() == old(State())
              case Some(s) => ok && State() == s
    {
      hide Splice, HexText, At, Find, AwayFrom, Scannable, Spot;
      ghost var m := mem[..];
      var spot := FindSpot();
      if spot.None? {
        return false;
      }
      var q := spot.value;
      ghost var b := FOOTER + [0];
      Store(mem, q, t + [0]);
      Store(mem, q + |t|, FOOTER + [0]);
      TemplateWritten(m, q, t, b);
      TemplateStands(m, q, t, b);
      var text := mem[q..q + |t|];
      assert text == t;
      var a, s, k := Field(text, ADDRESS_KEY), Field(text, SIZE_KEY), Field(text, KMOD_KEY);
      var i, j := Field(text, ID_KEY_0), Field(text, ID_KEY_1);
      ghost var d := t;
      PatchField(q, m, d, b, a, 16, e.address);
      d := Splice(d, a, HexText(16, e.address));
      PatchField(q, m, d, b, s, 16, e.size);
      d := Splice(d, s, HexText(16, e.size));
      PatchField(q, m, d, b, k, 16, e.kmod);
      d := Splice(d, k, HexText(16, e.kmod));
      PatchField(q, m, d, b, i, 4, kextId);
      d := Splice(d, i, HexText(4, kextId));
      PatchField(q, m, d, b, j, 4, kextId);
      size := size + |t|;
      kextId := Wrap32(kextId + 1);
      return true;
    }
  }

  lemma TemplateStands(m: seq<byte>, q: nat, t: seq<byte>, b: seq<byte>)
    requires q + |t| + |b| <= |m|
    ensures Splice(m, q, t + b)[q..q + |t|] == t
  {
    SpliceBytes(m, q, t + b);
  }
}
