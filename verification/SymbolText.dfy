/** The text parser of the host program: a cursor over one mapped symbol file.
    Each cursor method is tied to a function of the text and the old position. */
module SymbolText {
  import opened Arithmetic
  import opened Machine

  const NL: byte := 10
  const HASH: byte := 35
  const DASH: byte := 45
  // "0x"
  const HEX_PREFIX: seq<byte> := [48, 120]
  // "KERNELCACHE UUID:"
  const UUID_DIRECTIVE: seq<byte> := [75, 69, 82, 78, 69, 76, 67, 65, 67, 72, 69, 32, 85, 85, 73, 68, 58]
  // "DEVICE:"
  const DEVICE_DIRECTIVE: seq<byte> := [68, 69, 86, 73, 67, 69, 58]

  predicate IsBlank(c: byte) { c == 32 || c == 9 }

  predicate IsIdent(c: byte) {
    97 <= c <= 122 || 65 <= c <= 90 || 48 <= c <= 57 || c == 95
  }

  function HexDigit(c: byte): (d: int)
    ensures -1 <= d < 16
  {
    if 48 <= c <= 57 then c - 48
    else if 65 <= c <= 70 then c - 65 + 10
    else if 97 <= c <= 102 then c - 97 + 10
    else -1
  }

  // ---- What each cursor step reads ----

  function LineEnd(t: seq<byte>, p: nat): (q: nat)
    ensures p <= q && (p <= |t| ==> q <= |t|)
    decreases |t| - p
  {
    if p < |t| && t[p] != NL then LineEnd(t, p + 1) else p
  }

  function NextLine(t: seq<byte>, p: nat): nat { LineEnd(t, p) + 1 }

  function Blanks(t: seq<byte>, p: nat): (q: nat)
    ensures p <= q && (p <= |t| ==> q <= |t|)
    decreases |t| - p
  {
    if p < |t| && IsBlank(t[p]) then Blanks(t, p + 1) else p
  }

  function LineComment(t: seq<byte>, p: nat): (q: nat)
    ensures p <= q && (p <= |t| ==> q <= |t|)
  {
    if p < |t| && t[p] == HASH then LineEnd(t, p) else p
  }

  function Comments(t: seq<byte>, p: nat): (q: nat)
    ensures p <= q && (p <= |t| + 1 ==> q <= |t| + 1)
    decreases |t| + 1 - p
  {
    if p < |t| && t[p] == HASH then Comments(t, NextLine(t, p)) else p
  }

  function Trivia(t: seq<byte>, p: nat): (q: nat)
    ensures p <= q && (p <= |t| + 1 ==> q <= |t| + 1)
    decreases |t| + 1 - p
  {
    if p < |t| && (t[p] == HASH || t[p] == NL) then Trivia(t, NextLine(t, p)) else p
  }

  predicate Match(t: seq<byte>, p: nat, s: seq<byte>) {
    p < |t| && At(t, p, s)
  }

  function IdentEnd(t: seq<byte>, p: nat): (q: nat)
    ensures p <= q && (p <= |t| ==> q <= |t|)
    decreases |t| - p
  {
    if p < |t| && IsIdent(t[p]) then IdentEnd(t, p + 1) else p
  }

  function HexByte(t: seq<byte>, p: nat): Option<byte> {
    if p + 2 <= |t| && HexDigit(t[p]) != -1 && HexDigit(t[p + 1]) != -1
    then Some(HexDigit(t[p]) * 16 + HexDigit(t[p + 1])) else None
  }

  /** The big-endian value of `n` hexadecimal bytes. */
  function HexRun(t: seq<byte>, p: nat, n: nat): (v: Option<nat>)
    ensures v.Some? ==> v.value < Pow(0x100, n) && (p <= |t| ==> p + 2 * n <= |t|)
  {
    if n == 0 then Some(0) else
      match HexRun(t, p, n - 1)
      case None => None
      case Some(v) =>
        match HexByte(t, p + 2 * (n - 1))
        case None => None
        case Some(b) => Some(v * 0x100 + b)
  }

  function HexU64(t: seq<byte>, p: nat): (v: Option<u64>)
    ensures v.Some? ==> p + 18 <= |t|
  {
    if !Match(t, p, HEX_PREFIX) then None else
      match HexRun(t, p + 2, 8)
      case None => None
      case Some(v) =>
        if p + 18 < |t| && HexDigit(t[p + 18]) != -1 then None else
          WordBounds(); Some(v)
  }

  /** What the scans skip is of the kind they skip, and what stops them is not. */
  lemma {:induction false} LineEndSpan(t: seq<byte>, p: nat)
    requires p <= |t|
    ensures forall k :: p <= k < LineEnd(t, p) ==> t[k] != NL
    ensures LineEnd(t, p) < |t| ==> t[LineEnd(t, p)] == NL
    decreases |t| - p
  {
    if p < |t| && t[p] != NL { LineEndSpan(t, p + 1); }
  }

  lemma {:induction false} BlanksSpan(t: seq<byte>, p: nat)
    requires p <= |t|
    ensures forall k :: p <= k < Blanks(t, p) ==> IsBlank(t[k])
    ensures Blanks(t, p) < |t| ==> !IsBlank(t[Blanks(t, p)])
    decreases |t| - p
  {
    if p < |t| && IsBlank(t[p]) { BlanksSpan(t, p + 1); }
  }

  lemma {:induction false} IdentSpan(t: seq<byte>, p: nat)
    requires p <= |t|
    ensures forall k :: p <= k < IdentEnd(t, p) ==> IsIdent(t[k])
    ensures IdentEnd(t, p) < |t| ==> !IsIdent(t[IdentEnd(t, p)])
    decreases |t| - p
  {
    if p < |t| && IsIdent(t[p]) { IdentSpan(t, p + 1); }
  }

  // ---- Header and symbols ----

  function Separator(i: nat): seq<byte> {
    if i == 15 then [NL] else if i == 3 || i == 5 || i == 7 || i == 9 then [DASH] else []
  }

  /** The first `n` bytes of a UUID at `p` with the separators behind them, and the position after. */
  function UuidPrefix(t: seq<byte>, p: nat, n: nat): (r: Option<(seq<byte>, nat)>)
    ensures r.Some? ==> |r.value.0| == n && p <= r.value.1 && (p <= |t| ==> r.value.1 <= |t|)
  {
    if n == 0 then Some(([], p)) else
      match UuidPrefix(t, p, n - 1)
      case None => None
      case Some((u, q)) =>
        match HexByte(t, q)
        case None => None
        case Some(b) =>
          var sep := Separator(n - 1);
          if sep == [] then Some((u + [b], q + 2))
          else if Match(t, q + 2, sep) then Some((u + [b], q + 3)) else None
  }

  function Directives(t: seq<byte>, p: nat): (r: Option<nat>)
    ensures r.Some? ==> p < r.value <= |t|
    decreases |t| + 1 - p
  {
    var q := Comments(t, p);
    if Match(t, q, DEVICE_DIRECTIVE) then Directives(t, NextLine(t, q + |DEVICE_DIRECTIVE|))
    else if Match(t, q, [NL]) then Some(q + 1)
    else None
  }

  /** The UUID in the header and the position after it; `None` when the header is malformed. */
  function Header(t: seq<byte>, p: nat): (r: Option<(seq<byte>, nat)>)
    ensures r.Some? ==> |r.value.0| == 16 && p < r.value.1 <= |t|
  {
    var q := Comments(t, p);
    if !Match(t, q, UUID_DIRECTIVE) then None else
      match UuidPrefix(t, Blanks(t, q + |UUID_DIRECTIVE|), 16)
      case None => None
      case Some((u, q')) =>
        match Directives(t, q')
        case None => None
        case Some(q'') => Some((u, q''))
  }

  datatype Item = End | Bad | Got(name: seq<byte>, addr: u64, next: nat)

  /** The next symbol line at `p`, comments and empty lines skipped. */
  function Symbol(t: seq<byte>, p: nat): (r: Item)
    ensures r.Got? ==> p < r.next <= |t|
  {
    var q := Trivia(t, p);
    if q >= |t| then End else
      var e := IdentEnd(t, q);
      var g := Blanks(t, e);
      if e == q || g == e then Bad else
        match HexU64(t, g)
        case None => Bad
        case Some(v) =>
          var k := LineComment(t, Blanks(t, g + 18));
          if k >= |t| then Got(t[q..e], v, k)
          else if Match(t, k, [NL]) then Got(t[q..e], v, k + 1)
          else Bad
  }

  datatype Def = Def(name: seq<byte>, addr: u64)

  /** All definitions up to the first malformed line, and whether the end of the file was reached. */
  function Symbols(t: seq<byte>, p: nat): (r: (seq<Def>, bool))
    decreases |t| + 1 - p
  {
    match Symbol(t, p)
    case End => ([], true)
    case Bad => ([], false)
    case Got(name, addr, next) =>
      var rest := Symbols(t, next);
      ([Def(name, addr)] + rest.0, rest.1)
  }

  /** From `p` on the symbols of `defs` follow each other, at the positions `ps`, and no further one. */
  ghost predicate Listed(t: seq<byte>, p: nat, defs: seq<Def>, ps: seq<nat>) {
    && |ps| == |defs| + 1 && ps[0] == p && !Symbol(t, ps[|defs|]).Got?
    && forall i :: 0 <= i < |defs| ==> Symbol(t, ps[i]) == Got(defs[i].name, defs[i].addr, ps[i + 1])
  }

  /** The definitions are the symbols in order, up to the end of the file or the first malformed line. */
  lemma {:induction false} SymbolsListed(t: seq<byte>, p: nat) returns (ps: seq<nat>)
    ensures Listed(t, p, Symbols(t, p).0, ps) && Symbols(t, p).1 == Symbol(t, ps[|ps| - 1]).End?
    decreases |t| + 1 - p
  {
    hide Symbol;
    ps := [p];
    if Symbol(t, p).Got? {
      var next := Symbol(t, p).next;
      NextInside(t, p);
      var rest := SymbolsListed(t, next);
      ps := [p] + rest;
    }
  }

  lemma NextInside(t: seq<byte>, p: nat)
    requires Symbol(t, p).Got?
    ensures p < Symbol(t, p).next <= |t|
  {
  }

  /** There is one such list. */
  lemma {:induction false} ListedOnce(t: seq<byte>, p: nat, defs: seq<Def>, ps: seq<nat>)
    requires Listed(t, p, defs, ps)
    ensures Symbols(t, p) == (defs, Symbol(t, ps[|defs|]).End?)
    decreases |defs|
  {
    hide Symbol;
    if defs != [] {
      ListedOnce(t, ps[1], defs[1..], ps[1..]);
      assert [defs[0]] + defs[1..] == defs;
    }
  }

  // ---- The cursor ----

  class TextParser {
    const text: seq<byte>
    var p: nat

    constructor (text: seq<byte>)
      ensures this.text == text && p == 0
    {
      this.text := text;
      p := 0;
    }

    /** The cursor may stand one past the end after the last line is skipped. */
    ghost predicate Valid()
      reads this
    {
      p <= |text| + 1
    }

    predicate AtEnd()
      reads this
    {
      p >= |text|
    }

    method SkipLine()
      requires p <= |text|
      modifies this
      ensures Valid() && p == NextLine(text, old(p))
    {
      SkipToLineEnd();
      p := p + 1;
    }

    method SkipToLineEnd()
      requires p <= |text|
      modifies this
      ensures p <= |text| && p == LineEnd(text, old(p))
    {
      while p < |text| && text[p] != NL
        invariant p <= |text| && LineEnd(text, p) == LineEnd(text, old(p))
      {
        p := p + 1;
      }
    }

    method SkipBlanks() returns (skipped: bool)
      requires Valid()
      modifies this
      ensures Valid() && p == Blanks(text, old(p)) && skipped == (p != old(p))
    {
      skipped := false;
      while p < |text| && IsBlank(text[p])
        invariant old(p) <= p <= |text| + 1 && Blanks(text, p) == Blanks(text, old(p))
        invariant skipped == (p != old(p))
      {
        p := p + 1;
        skipped := true;
      }
    }

    method SkipLineComment()
      requires Valid()
      modifies this
      ensures Valid() && p == LineComment(text, old(p))
    {
      if p < |text| && text[p] == HASH {
        SkipToLineEnd();
      }
    }

    method SkipComments()
      requires Valid()
      modifies this
      ensures Valid() && p == Comments(text, old(p))
    {
      while p < |text| && text[p] == HASH
        invariant Valid() && Comments(text, p) == Comments(text, old(p))
        decreases |text| + 1 - p
      {
        SkipLine();
      }
    }

    method SkipCommentsOrEmpty()
      requires Valid()
      modifies this
      ensures Valid() && p == Trivia(text, old(p))
    {
      while p < |text| && (text[p] == HASH || text[p] == NL)
        invariant Valid() && Trivia(text, p) == Trivia(text, old(p))
        decreases |text| + 1 - p
      {
        SkipLine();
      }
    }

    method TryMatch(s: seq<byte>) returns (ok: bool)
      requires Valid()
      modifies this
      ensures Valid() && ok == Match(text, old(p), s)
      ensures p == if ok then old(p) + |s| else old(p)
    {
      AtIsSlice(text, p, s);
      if p < |text| && p + |s| <= |text| && text[p..p + |s|] == s {
        p := p + |s|;
        return true;
      }
      return false;
    }

    method TryIdent() returns (ident: Option<seq<byte>>)
      requires p <= |text|
      modifies this
      ensures p <= |text| && p == IdentEnd(text, old(p))
      ensures ident == if p == old(p) then None else Some(text[old(p)..p])
    {
      var q := p;
      while q < |text|
        invariant p <= q <= |text| && IdentEnd(text, q) == IdentEnd(text, p)
      {
        if !IsIdent(text[q]) {
          break;
        }
        q := q + 1;
      }
      if q == p {
        return None;
      }
      ident := Some(text[p..q]);
      p := q;
    }

    method TryHexByte() returns (b: Option<byte>)
      requires Valid()
      modifies this
      ensures Valid() && b == HexByte(text, old(p))
      ensures p == if b.Some? then old(p) + 2 else old(p)
    {
      if p + 2 <= |text| {
        var hi, lo := HexDigit(text[p]), HexDigit(text[p + 1]);
        if hi != -1 && lo != -1 {
          p := p + 2;
          return Some(hi * 16 + lo);
        }
      }
      return None;
    }

    method TryHexU64() returns (value: Option<u64>)
      requires Valid()
      modifies this
      ensures Valid() && value == HexU64(text, old(p))
      ensures p == if value.Some? then old(p) + 18 else old(p)
    {
      hide HexRun, HexByte, HexDigit, Pow;
      var b := p;
      NoHexRun(text, b + 2);
      var ok := TryMatch(HEX_PREFIX);
      if !ok {
        return None;
      }
      var v: u64 := 0;
      for i := 0 to 8
        invariant Valid() && p == b + 2 + 2 * i
        invariant HexRun(text, b + 2, i) == Some(v)
      {
        var d := TryHexByte();
        HexRunStep(text, b + 2, i);
        if d.None? {
          p := b;
          return None;
        }
        v := Wrap64(v * 0x100) + d.value;
      }
      if p < |text| && HexDigit(text[p]) != -1 {
        p := b;
        return None;
      }
      return Some(v);
    }

    /** The UUID loop of the header. */
    method ParseUuid() returns (uuid: Option<seq<byte>>)
      requires Valid()
      modifies this
      ensures Valid()
      ensures match UuidPrefix(text, old(p), 16)
              case None => uuid == None
              case Some((u, q)) => uuid == Some(u) && p == q
    {
      var u: seq<byte> := [];
      for i := 0 to 16
        invariant Valid() && UuidPrefix(text, old(p), i) == Some((u, p))
      {
        var b := TryHexByte();
        UuidPrefixStep(text, old(p), i);
        var ok := b.Some?;
        if ok && Separator(i) != [] {
          ok := TryMatch(Separator(i));
        }
        if !ok {
          return None;
        }
        u := u + [b.value];
      }
      return Some(u);
    }

    /** The loop over "DEVICE" directives and comments, up to the blank line. */
    method ParseDirectives() returns (ok: bool)
      requires Valid()
      modifies this
      ensures Valid()
      ensures match Directives(text, old(p))
              case None => !ok
              case Some(q) => ok && p == q
    {
      while true
        invariant Valid() && Directives(text, p) == Directives(text, old(p))
        decreases |text| + 1 - p
      {
        SkipComments();
        ok := TryMatch(DEVICE_DIRECTIVE);
        if ok {
          SkipLine();
          continue;
        }
        ok := TryMatch([NL]);
        return ok;
      }
    }

    method ParseHeader() returns (uuid: Option<seq<byte>>)
      requires Valid()
      modifies this
      ensures Valid()
      ensures match Header(text, old(p))
              case None => uuid == None
              case Some((u, q)) => uuid == Some(u) && p == q
    {
      SkipComments();
      var ok := TryMatch(UUID_DIRECTIVE);
      if !ok {
        return None;
      }
      var _ := SkipBlanks();
      uuid := ParseUuid();
      if uuid.Some? {
        ok := ParseDirectives();
        if !ok {
          return None;
        }
      }
    }

    /** `symbol` is `None` with `ok` at the end of the file. */
    method ParseSymbol() returns (ok: bool, symbol: Option<seq<byte>>, address: u64)
      requires Valid()
      modifies this
      ensures Valid()
      ensures match Symbol(text, old(p))
              case End => ok && symbol == None
              case Bad => !ok && symbol == None
              case Got(name, addr, next) => ok && symbol == Some(name) && address == addr && p == next
    {
      symbol, address := None, 0;
      SkipCommentsOrEmpty();
      if AtEnd() {
        return true, None, 0;
      }
      var ident := TryIdent();
      if ident.None? {
        return false, None, 0;
      }
      ok := SkipBlanks();
      if !ok {
        return false, None, 0;
      }
      var value := TryHexU64();
      if value.None? {
        return false, None, 0;
      }
      address := value.value;
      var _ := SkipBlanks();
      SkipLineComment();
      ok := AtEnd();
      if !ok {
        ok := TryMatch([NL]);
      }
      if ok {
        symbol := ident;
      }
    }
  }

  lemma NoHexRun(t: seq<byte>, p: nat)
    ensures HexRun(t, p, 0) == Some(0)
  {
  }

  /** One more byte of a run: a failure is final, and no 64-bit value overflows in the first eight. */
  lemma HexRunStep(t: seq<byte>, p: nat, i: nat)
    requires i < 8 && HexRun(t, p, i).Some?
    ensures Wrap64(HexRun(t, p, i).value * 0x100) <= TWO_64 - 0x100
    ensures match HexByte(t, p + 2 * i)
            case None => HexRun(t, p, 8) == None
            case Some(b) => HexRun(t, p, i + 1) == Some(Wrap64(HexRun(t, p, i).value * 0x100) + b)
  {
    WordBounds();
    PowMonotone(i + 1, 8);
    if HexByte(t, p + 2 * i).None? {
      RunFails(t, p, i + 1, 8);
    }
  }

  lemma UuidPrefixStep(t: seq<byte>, p: nat, i: nat)
    requires i < 16 && UuidPrefix(t, p, i).Some?
    ensures var (u, q) := UuidPrefix(t, p, i).value;
            match HexByte(t, q)
            case None => UuidPrefix(t, p, 16) == None
            case Some(b) =>
              if Separator(i) == [] then UuidPrefix(t, p, i + 1) == Some((u + [b], q + 2))
              else if Match(t, q + 2, Separator(i)) then UuidPrefix(t, p, i + 1) == Some((u + [b], q + 3))
              else UuidPrefix(t, p, 16) == None
  {
    if UuidPrefix(t, p, i + 1).None? {
      PrefixFails(t, p, i + 1, 16);
    }
  }

  lemma {:induction false} PowMonotone(i: nat, j: nat)
    requires i <= j
    ensures Pow(0x100, i) <= Pow(0x100, j)
    decreases j
  {
    if i < j {
      PowMonotone(i, j - 1);
    }
  }

  lemma {:induction false} RunFails(t: seq<byte>, p: nat, i: nat, n: nat)
    requires i <= n && HexRun(t, p, i).None?
    ensures HexRun(t, p, n).None?
    decreases n
  {
    if i < n {
      RunFails(t, p, i, n - 1);
    }
  }

  lemma {:induction false} PrefixFails(t: seq<byte>, p: nat, i: nat, n: nat)
    requires i <= n && UuidPrefix(t, p, i).None?
    ensures UuidPrefix(t, p, n).None?
    decreases n
  {
    if i < n {
      PrefixFails(t, p, i, n - 1);
    }
  }
}
