/** The symbol file format in literal characters: its alphabets and fixed texts, and files that are printed from
    values, with digits in either case. */
module SymbolAlphabet {
  import opened Arithmetic
  import opened Machine
  import opened AsciiText
  import opened SymbolText
  import opened SymbolGrammar

  const UPPER: string := "0123456789ABCDEF"
  const LOWER: string := "0123456789abcdef"

  // ---- The alphabets ----

  predicate Among(c: byte, s: string) { exists i :: 0 <= i < |s| && c == Ascii(s[i]) }

  /** The digit `d` is written in either case, and nothing else is a digit. */
  lemma HexDigitIs(c: byte, d: nat)
    requires d < 16
    ensures HexDigit(c) == d <==> c == Ascii(UPPER[d]) || c == Ascii(LOWER[d])
    ensures HexDigit(c) == -1 <==> !Among(c, UPPER) && !Among(c, LOWER)
  {
    DigitCodes(d);
    var v := HexDigit(c);
    if v != -1 {
      DigitCodes(v);
    }
    forall i | 0 <= i < 16
      ensures HexDigit(Ascii(UPPER[i])) == i && HexDigit(Ascii(LOWER[i])) == i
    {
      DigitCodes(i);
    }
  }

  lemma DigitCodes(d: nat)
    requires d < 16
    ensures Ascii(UPPER[d]) == (if d < 10 then 48 + d else 55 + d)
    ensures Ascii(LOWER[d]) == (if d < 10 then 48 + d else 87 + d)
  {
  }

  /** The 63 characters of an identifier. */
  lemma IdentIs(c: byte)
    ensures IsIdent(c) <==>
              || Among(c, "abcdefghijklm") || Among(c, "nopqrstuvwxyz")
              || Among(c, "ABCDEFGHIJKLM") || Among(c, "NOPQRSTUVWXYZ") || Among(c, "0123456789") || c == Ascii('_')
  {
    hide Among;
    LowerLetters(c);
    UpperLetters(c);
    DecimalDigits(c);
  }

  /** Consecutive codes. */
  lemma AmongRange(c: byte, s: string, first: int)
    requires forall i :: 0 <= i < |s| ==> Ascii(s[i]) == first + i
    ensures Among(c, s) <==> first <= c < first + |s|
  {
    if first <= c < first + |s| { assert Ascii(s[c - first]) == c; }
  }

  lemma LowerLetters(c: byte)
    ensures Among(c, "abcdefghijklm") <==> 97 <= c <= 109
    ensures Among(c, "nopqrstuvwxyz") <==> 110 <= c <= 122
  {
    hide Among;
    AmongRange(c, "abcdefghijklm", 97);
    AmongRange(c, "nopqrstuvwxyz", 110);
  }

  lemma UpperLetters(c: byte)
    ensures Among(c, "ABCDEFGHIJKLM") <==> 65 <= c <= 77
    ensures Among(c, "NOPQRSTUVWXYZ") <==> 78 <= c <= 90
  {
    hide Among;
    AmongRange(c, "ABCDEFGHIJKLM", 65);
    AmongRange(c, "NOPQRSTUVWXYZ", 78);
  }

  lemma DecimalDigits(c: byte)
    ensures Among(c, "0123456789") <==> 48 <= c <= 57
  {
    hide Among;
    AmongRange(c, "0123456789", 48);
  }

  lemma BlankIs(c: byte)
    ensures IsBlank(c) <==> c == Ascii(' ') || c == Ascii('\t')
  {
  }

  /** The fixed texts of the format, and the line structure. */
  lemma FixedTexts()
    ensures [NL] == Text("\n") && [HASH] == Text("#") && [DASH] == Text("-") && HEX_PREFIX == Text("0x")
    ensures UUID_DIRECTIVE == Text("KERNELCACHE UUID:") && DEVICE_DIRECTIVE == Text("DEVICE:")
  {
  }

  // ---- Files printed from values ----

  function Digit(d: nat, upper: bool): byte
    requires d < 16
  {
    Ascii(if upper then UPPER[d] else LOWER[d])
  }

  /** The digits of `v`, each in the case that `upper` says. */
  function Digits(v: nat, upper: seq<bool>): (s: seq<byte>)
    ensures |s| == |upper|
  {
    if upper == [] then [] else
      var n := |upper| - 1;
      Digits(v / 16, upper[..n]) + [Digit(v % 16, upper[n])]
  }

  /** The digits of a UUID's first `n` bytes. */
  function UuidDigits(u: seq<byte>, upper: seq<bool>, n: nat): (s: seq<byte>)
    requires n <= |u| && |upper| == 2 * |u|
    ensures |s| == 2 * n
  {
    if n == 0 then [] else
      UuidDigits(u, upper, n - 1) + [Digit(u[n - 1] / 16, upper[2 * n - 2]), Digit(u[n - 1] % 16, upper[2 * n - 1])]
  }

  lemma DigitReads(d: nat, upper: bool)
    requires d < 16
    ensures HexDigit(Digit(d, upper)) == d
  {
    HexDigitIs(Digit(d, upper), d);
  }

  /** A number is read back from its digits, whatever their case. */
  lemma {:induction false} DigitsRead(v: nat, upper: seq<bool>)
    requires v < Pow(16, |upper|)
    ensures AllHex(Digits(v, upper)) && HexValue(Digits(v, upper)) == v
  {
    hide HexDigit, Digit;
    if upper != [] {
      var n := |upper| - 1;
      DigitsRead(v / 16, upper[..n]);
      DigitReads(v % 16, upper[n]);
      assert Digits(v, upper)[..n] == Digits(v / 16, upper[..n]);
    }
  }

  lemma AddressRead(v: u64, upper: seq<bool>)
    requires |upper| == 16
    ensures AllHex(Digits(v, upper)) && HexAddr(Digits(v, upper)) == v
  {
    hide Digits, HexValue, Pow, AllHex;
    Pow16();
    DigitsRead(v, upper);
  }

  /** A UUID is read back from its digits, whatever their case. */
  lemma {:induction false} UuidRead(u: seq<byte>, upper: seq<bool>, n: nat)
    requires n <= |u| && |upper| == 2 * |u|
    ensures var d := UuidDigits(u, upper, n); AllHex(d) && UuidBytes(d, n) == u[..n]
  {
    hide HexDigit, Digit;
    if n != 0 {
      var c, d := UuidDigits(u, upper, n - 1), UuidDigits(u, upper, n);
      UuidRead(u, upper, n - 1);
      DigitReads(u[n - 1] / 16, upper[2 * n - 2]);
      DigitReads(u[n - 1] % 16, upper[2 * n - 1]);
      UuidBytesOfPrefix(c, d, n - 1);
      assert u[..n] == u[..n - 1] + [u[n - 1]];
    }
  }

  lemma {:induction false} UuidBytesOfPrefix(c: seq<byte>, d: seq<byte>, n: nat)
    requires 2 * n <= |c| <= |d| && AllHex(c) && AllHex(d) && c == d[..|c|]
    ensures UuidBytes(c, n) == UuidBytes(d, n)
  {
    hide HexDigit;
    if n != 0 {
      UuidBytesOfPrefix(c, d, n - 1);
    }
  }

  /** The line defines `d`: any blanks behind the name, and any blanks and comment behind the number. */
  ghost predicate Defines(e: Entry, d: Def) {
    e.Define? && e.name == d.name && exists upper: seq<bool> :: |upper| == 16 && e.digits == Digits(d.addr, upper)
  }

  ghost predicate LineCarries(e: Entry, defs: seq<Def>) {
    if e.Define? then |defs| == 1 && Defines(e, defs[0]) else defs == []
  }

  /** The lines define `defs` in order, and nothing else. */
  ghost predicate Carries(es: seq<Entry>, tail: Option<Entry>, defs: seq<Def>)
    decreases |es|
  {
    if es != [] then exists n :: 0 <= n <= |defs| && LineCarries(es[0], defs[..n]) && Carries(es[1..], tail, defs[n..])
    else if tail.Some? then LineCarries(tail.value, defs)
    else defs == []
  }

  lemma LineDefs(e: Entry, defs: seq<Def>)
    requires ValidEntry(e) && LineCarries(e, defs)
    ensures EntryDefs(e) == defs
  {
    hide Digits, HexValue;
    if e.Define? {
      var upper: seq<bool> :| |upper| == 16 && e.digits == Digits(defs[0].addr, upper);
      AddressRead(defs[0].addr, upper);
    }
  }

  lemma {:induction false} CarriedDefs(es: seq<Entry>, tail: Option<Entry>, defs: seq<Def>)
    requires ValidBody(es, tail) && Carries(es, tail, defs)
    ensures Defs(es, tail) == defs
    decreases |es|
  {
    hide ValidEntry, LineCarries, EntryDefs;
    if es != [] {
      var n :| 0 <= n <= |defs| && LineCarries(es[0], defs[..n]) && Carries(es[1..], tail, defs[n..]);
      LineDefs(es[0], defs[..n]);
      CarriedDefs(es[1..], tail, defs[n..]);
      assert defs[..n] + defs[n..] == defs;
    } else if tail.Some? {
      LineDefs(tail.value, defs);
    }
  }

  /** A file that is printed from a UUID and from definitions, with digits in either case, parses to them. */
  lemma PrintedValuesParse(l: Layout, u: seq<byte>, upper: seq<bool>, defs: seq<Def>)
    requires Valid(l) && |u| == 16 && |upper| == 32 && l.uuid == UuidDigits(u, upper, 16)
    requires Carries(l.body, l.tail, defs)
    ensures Parses(Print(l), u, defs)
  {
    hide UuidDigits, UuidBytes, Print, Parses, Carries;
    UuidRead(u, upper, 16);
    assert u[..16] == u;
    CarriedDefs(l.body, l.tail, defs);
    PrintedFilesParse(l);
  }
}
