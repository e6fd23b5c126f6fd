/** The documented format of a symbol file as abstract syntax, and the proof that
    the parser accepts exactly the printed forms and returns the printed values. */
module SymbolGrammar {
  import opened Arithmetic
  import opened Machine
  import opened SymbolText

  // ---- Abstract syntax ----

  datatype Directive = Remark(text: seq<byte>) | Device(text: seq<byte>)

  datatype Entry =
    | Blank
    | Note(text: seq<byte>)
    | Define(name: seq<byte>, gap: seq<byte>, digits: seq<byte>, trail: seq<byte>, note: Option<seq<byte>>)

  /** `tail` is a last line that the end of the file, not a newline, ends. */
  datatype Layout = Layout(preface: seq<seq<byte>>, gap: seq<byte>, uuid: seq<byte>,
                           directives: seq<Directive>, body: seq<Entry>, tail: Option<Entry>)

  ghost predicate AllBlank(s: seq<byte>) { forall i | 0 <= i < |s| :: IsBlank(s[i]) }

  ghost predicate AllHex(s: seq<byte>) { forall i | 0 <= i < |s| :: HexDigit(s[i]) != -1 }

  ghost predicate AllIdent(s: seq<byte>) { forall i | 0 <= i < |s| :: IsIdent(s[i]) }

  ghost predicate ValidEntry(e: Entry) {
    match e
    case Blank => true
    case Note(text) => OneLine(text)
    case Define(name, gap, digits, trail, note) =>
      && name != [] && AllIdent(name)
      && gap != [] && AllBlank(gap)
      && |digits| == 16 && AllHex(digits)
      && AllBlank(trail)
      && (note.Some? ==> OneLine(note.value))
  }

  ghost predicate ValidBody(es: seq<Entry>, tail: Option<Entry>) {
    && (forall e <- es :: ValidEntry(e))
    && (tail.Some? ==> ValidEntry(tail.value) && !tail.value.Blank?)
  }

  ghost predicate Valid(l: Layout) {
    && (forall s <- l.preface :: OneLine(s))
    && AllBlank(l.gap)
    && |l.uuid| == 32 && AllHex(l.uuid)
    && (forall d <- l.directives :: OneLine(d.text))
    && ValidBody(l.body, l.tail)
  }

  // ---- Printing ----

  ghost predicate OneLine(s: seq<byte>) { forall i | 0 <= i < |s| :: s[i] != NL }

  function PrintNote(text: seq<byte>): seq<byte> { [HASH] + text }

  function PrintOptNote(note: Option<seq<byte>>): seq<byte> {
    if note.Some? then PrintNote(note.value) else []
  }

  function PrintEntry(e: Entry): seq<byte> {
    match e
    case Blank => []
    case Note(text) => PrintNote(text)
    case Define(name, gap, digits, trail, note) =>
      name + (gap + (HEX_PREFIX + (digits + (trail + PrintOptNote(note)))))
  }

  function PrintBody(es: seq<Entry>, tail: Option<Entry>): seq<byte> {
    if es != [] then PrintEntry(es[0]) + ([NL] + PrintBody(es[1..], tail))
    else if tail.Some? then PrintEntry(tail.value)
    else []
  }

  function PrintDirective(d: Directive): seq<byte> {
    if d.Remark? then PrintNote(d.text) else DEVICE_DIRECTIVE + d.text
  }

  /** The directives and the blank line that ends the header. */
  function PrintDirectives(ds: seq<Directive>): seq<byte> {
    if ds == [] then [NL] else PrintDirective(ds[0]) + ([NL] + PrintDirectives(ds[1..]))
  }

  function PrintPreface(notes: seq<seq<byte>>): seq<byte> {
    if notes == [] then [] else PrintNote(notes[0]) + ([NL] + PrintPreface(notes[1..]))
  }

  function PrintUuid(digits: seq<byte>, n: nat): seq<byte>
    requires 2 * n <= |digits|
  {
    if n == 0 then [] else PrintUuid(digits, n - 1) + ([digits[2 * n - 2], digits[2 * n - 1]] + Separator(n - 1))
  }

  function PrintHeader(l: Layout): seq<byte>
    requires |l.uuid| == 32
  {
    PrintPreface(l.preface) + (UUID_DIRECTIVE + (l.gap + (PrintUuid(l.uuid, 16) + PrintDirectives(l.directives))))
  }

  function Print(l: Layout): seq<byte>
    requires |l.uuid| == 32
  {
    PrintHeader(l) + PrintBody(l.body, l.tail)
  }

  /** The number of separators in front of byte `n` of a printed UUID. */
  function Separators(n: nat): nat {
    if n < 4 then 0 else if n < 6 then 1 else if n < 8 then 2 else if n < 10 then 3 else if n < 16 then 4 else 5
  }

  /** The 8-4-4-4-12 text form of section 4 of RFC 9562: the digits of byte `k` stand behind those of
      the bytes before it, dashes follow bytes 3, 5, 7 and 9, and a newline follows byte 15. */
  lemma {:induction false} UuidTextForm(d: seq<byte>, n: nat)
    requires |d| == 32 && n <= 16
    ensures |PrintUuid(d, n)| == 2 * n + Separators(n)
    ensures forall k :: 0 <= k < n ==> PrintUuid(d, n)[2 * k + Separators(k)] == d[2 * k]
    ensures forall k :: 0 <= k < n ==> PrintUuid(d, n)[2 * k + 1 + Separators(k)] == d[2 * k + 1]
    ensures forall k :: 0 <= k < n && Separators(k) < Separators(k + 1) ==>
              PrintUuid(d, n)[2 * k + 2 + Separators(k)] == if k == 15 then NL else DASH
  {
    if n != 0 {
      UuidTextForm(d, n - 1);
      var s := PrintUuid(d, n - 1);
      assert PrintUuid(d, n) == s + ([d[2 * n - 2], d[2 * n - 1]] + Separator(n - 1));
    }
  }

  // ---- Values ----

  function HexValue(s: seq<byte>): int {
    if s == [] then 0 else HexValue(s[..|s| - 1]) * 16 + HexDigit(s[|s| - 1])
  }

  function UuidBytes(d: seq<byte>, n: nat): seq<byte>
    requires 2 * n <= |d| && AllHex(d)
  {
    if n == 0 then [] else UuidBytes(d, n - 1) + [HexDigit(d[2 * n - 2]) * 16 + HexDigit(d[2 * n - 1])]
  }

  lemma {:induction false} HexValueBound(s: seq<byte>)
    requires AllHex(s)
    ensures 0 <= HexValue(s) < Pow(16, |s|)
  {
    if s != [] {
      HexValueBound(s[..|s| - 1]);
    }
  }

  function HexAddr(s: seq<byte>): u64
    requires AllHex(s) && |s| == 16
  {
    HexValueBound(s); Pow16();
    HexValue(s)
  }

  lemma Pow16()
    ensures Pow(16, 16) == TWO_64
  {
    assert Pow(16, 4) == 0x1_0000;
    assert Pow(16, 8) == TWO_32;
    assert Pow(16, 12) == 0x1_0000_0000_0000;
  }

  function EntryDefs(e: Entry): seq<Def>
    requires ValidEntry(e)
  {
    if e.Define? then [Def(e.name, HexAddr(e.digits))] else []
  }

  function Defs(es: seq<Entry>, tail: Option<Entry>): seq<Def>
    requires ValidBody(es, tail)
  {
    if es != [] then EntryDefs(es[0]) + Defs(es[1..], tail)
    else if tail.Some? then EntryDefs(tail.value)
    else []
  }

  // ---- Spans ----

  lemma {:induction false} HexRunSpan(t: seq<byte>, p: nat, n: nat)
    requires p + 2 * n <= |t|
    ensures AllHex(t[p..p + 2 * n]) <==> HexRun(t, p, n).Some?
    ensures HexRun(t, p, n).Some? ==> HexRun(t, p, n).value == HexValue(t[p..p + 2 * n])
  {
    hide HexDigit, Pow;
    if n != 0 {
      HexRunSpan(t, p, n - 1);
      var s := t[p..p + 2 * n];
      var r := t[p..p + 2 * n - 2];
      assert s == r + [t[p + 2 * n - 2], t[p + 2 * n - 1]];
      assert s[..|s| - 1] == r + [t[p + 2 * n - 2]];
      assert s[..|s| - 1][..|s| - 2] == r;
      assert HexValue(s) == HexValue(r) * 0x100 + HexDigit(s[|s| - 2]) * 16 + HexDigit(s[|s| - 1]);
    }
  }

  lemma FirstIs(t: seq<byte>, p: nat, s: seq<byte>)
    requires At(t, p, s) && s != []
    ensures p < |t| && t[p] == s[0]
  {
    assert t[p + 0] == s[0];
  }

  // ---- Printed symbol lines parse ----

  /** The pieces of a printed definition, one behind the other. */
  lemma DefinePieces(t: seq<byte>, p: nat, e: Entry)
    requires e.Define?
    ensures At(t, p, PrintEntry(e)) <==>
      && At(t, p, e.name) && At(t, p + |e.name|, e.gap) && At(t, p + |e.name| + |e.gap|, HEX_PREFIX)
      && At(t, p + |e.name| + |e.gap| + |HEX_PREFIX|, e.digits)
      && At(t, p + |e.name| + |e.gap| + |HEX_PREFIX| + |e.digits|, e.trail)
      && At(t, p + |e.name| + |e.gap| + |HEX_PREFIX| + |e.digits| + |e.trail|, PrintOptNote(e.note))
    ensures |PrintEntry(e)| == |e.name| + |e.gap| + |HEX_PREFIX| + |e.digits| + |e.trail| + |PrintOptNote(e.note)|
  {
    hide At;
    AtSplit6(t, p, e.name, e.gap, HEX_PREFIX, e.digits, e.trail, PrintOptNote(e.note));
  }

  lemma AtSplit6(t: seq<byte>, p: nat, a: seq<byte>, b: seq<byte>, c: seq<byte>,
                 d: seq<byte>, e: seq<byte>, f: seq<byte>)
    ensures At(t, p, a + (b + (c + (d + (e + f))))) <==>
      && At(t, p, a) && At(t, p + |a|, b) && At(t, p + |a| + |b|, c)
      && At(t, p + |a| + |b| + |c|, d)
      && At(t, p + |a| + |b| + |c| + |d|, e)
      && At(t, p + |a| + |b| + |c| + |d| + |e|, f)
  {
    hide At;
    AtSplit3(t, p, a, b, c + (d + (e + f)));
    AtSplit3(t, p + |a| + |b|, c, d, e + f);
    AtSplit(t, p + |a| + |b| + |c| + |d|, e, f);
  }

  lemma AtSplit3(t: seq<byte>, p: nat, a: seq<byte>, b: seq<byte>, c: seq<byte>)
    ensures At(t, p, a + (b + c)) <==> At(t, p, a) && At(t, p + |a|, b) && At(t, p + |a| + |b|, c)
  {
    AtSplit(t, p, a, b + c);
    AtSplit(t, p + |a|, b, c);
  }

  /** What the cursors find on a line decides what the line is. */
  lemma CursorsDecide(t: seq<byte>, p: nat, g: nat, x: nat, c: nat, addr: u64)
    requires p < g < x && x + 18 <= c <= |t|
    requires Trivia(t, p) == p && IdentEnd(t, p) == g && Blanks(t, g) == x && Blanks(t, x + 18) == c
    requires HexU64(t, x) == Some(addr) && EndsLine(t, LineComment(t, c))
    ensures var k := LineComment(t, c); Symbol(t, p) == Got(t[p..g], addr, if k < |t| then k + 1 else k)
  {
    hide Trivia, IdentEnd, Blanks, HexU64, LineComment;
  }

  lemma IdentAt(t: seq<byte>, p: nat, name: seq<byte>)
    requires At(t, p, name) && AllIdent(name) && name != []
    requires p + |name| < |t| ==> !IsIdent(t[p + |name|])
    ensures IdentEnd(t, p) == p + |name| && Trivia(t, p) == p
  {
    IdentSpan(t, p);
    AtIndex(t, p, name);
    assert IsIdent(t[p]);
  }

  lemma BlanksAt(t: seq<byte>, p: nat, gap: seq<byte>)
    requires At(t, p, gap) && AllBlank(gap) && (p + |gap| < |t| ==> !IsBlank(t[p + |gap|]))
    ensures Blanks(t, p) == p + |gap|
    ensures gap != [] ==> p < |t| && IsBlank(t[p])
  {
    BlanksSpan(t, p);
    AtIndex(t, p, gap);
  }

  lemma HexAt(t: seq<byte>, x: nat, d: seq<byte>)
    requires |d| == 16 && AllHex(d) && At(t, x, HEX_PREFIX) && At(t, x + 2, d)
    requires x + 18 < |t| ==> HexDigit(t[x + 18]) == -1
    ensures x < |t| && t[x] == 48 && HexU64(t, x) == Some(HexAddr(d))
  {
    FirstIs(t, x, HEX_PREFIX);
    AtIsSlice(t, x + 2, d);
    HexRunSpan(t, x + 2, 8);
  }

  lemma Kinds(c: byte)
    ensures IsBlank(c) ==> !IsIdent(c) && HexDigit(c) == -1
    ensures c == HASH || c == NL ==> !IsBlank(c) && !IsIdent(c) && HexDigit(c) == -1
    ensures c == 48 ==> !IsBlank(c)
  {
  }

  /** A newline or the end of the file stands at `q`. */
  predicate EndsLine(t: seq<byte>, q: nat) { q == |t| || (q < |t| && t[q] == NL) }

  /** A line at `p`, its newline, and what follows. */
  lemma LineAt(t: seq<byte>, p: nat, line: seq<byte>, rest: seq<byte>)
    requires At(t, p, line + ([NL] + rest))
    ensures At(t, p, line) && p + |line| < |t| && t[p + |line|] == NL && At(t, p + |line| + 1, rest)
    ensures |line + ([NL] + rest)| == |line| + 1 + |rest|
  {
    AtSplit(t, p, line, [NL] + rest);
    AtSplit(t, p + |line|, [NL], rest);
    AtIndex(t, p + |line|, [NL]);
  }

  /** A printed comment at `p` reaches to the end of its line. */
  lemma NoteAt(t: seq<byte>, p: nat, text: seq<byte>)
    requires OneLine(text) && At(t, p, PrintNote(text))
    requires EndsLine(t, p + |text| + 1)
    ensures p < |t| && t[p] == HASH && LineEnd(t, p) == p + |text| + 1
  {
    hide At;
    LineEndSpan(t, p);
    AtIndex(t, p, PrintNote(text));
    assert t[p] == HASH;
    assert forall k :: p < k < p + |text| + 1 ==> t[k] == text[k - p - 1];
  }

  lemma OptNoteAt(t: seq<byte>, p: nat, note: Option<seq<byte>>)
    requires (note.Some? ==> OneLine(note.value)) && At(t, p, PrintOptNote(note))
    requires EndsLine(t, p + |PrintOptNote(note)|)
    ensures LineComment(t, p) == p + |PrintOptNote(note)|
    ensures p < |t| ==> t[p] == HASH || t[p] == NL
  {
    if note.Some? {
      NoteAt(t, p, note.value);
    }
  }

  /** A printed definition at `p`, ended by a newline or the end of the file, is read back. */
  lemma DefineParses(t: seq<byte>, p: nat, e: Entry)
    requires e.Define? && ValidEntry(e) && At(t, p, PrintEntry(e))
    requires EndsLine(t, p + |PrintEntry(e)|)
    ensures var q := p + |PrintEntry(e)|;
            Symbol(t, p) == Got(e.name, HexAddr(e.digits), if q < |t| then q + 1 else q)
  {
    hide At, IsIdent, IsBlank, HexDigit, PrintEntry, AllHex, AllBlank, AllIdent, OneLine, LineComment;
    hide Symbol, Trivia, IdentEnd, Blanks, HexU64, HexAddr, PrintOptNote, PrintNote, HexRun, HexValue;
    DefinePieces(t, p, e);
    var g := p + |e.name|;
    var x := g + |e.gap|;
    var h := x + |HEX_PREFIX| + |e.digits|;
    var c := h + |e.trail|;
    OptNoteAt(t, c, e.note);
    if c < |t| { Kinds(t[c]); }
    BlanksAt(t, h, e.trail);
    if h < |t| { Kinds(t[h]); }
    HexAt(t, x, e.digits);
    Kinds(t[x]);
    BlanksAt(t, g, e.gap);
    Kinds(t[g]);
    IdentAt(t, p, e.name);
    CursorsDecide(t, p, g, x, c, HexAddr(e.digits));
    AtIsSlice(t, p, e.name);
  }

  /** Every printed body parses to its definitions and reaches the end of the file. */
  lemma {:induction false} BodyParses(t: seq<byte>, p: nat, es: seq<Entry>, tail: Option<Entry>)
    requires ValidBody(es, tail)
    requires At(t, p, PrintBody(es, tail)) && p + |PrintBody(es, tail)| == |t|
    ensures Symbols(t, p).1 && Symbols(t, p).0 == Defs(es, tail)
    decreases |es|
  {
    hide At, Symbol, PrintEntry, ValidEntry, EntryDefs;
    if es != [] {
      LineAt(t, p, PrintEntry(es[0]), PrintBody(es[1..], tail));
      BodyParses(t, p + |PrintEntry(es[0])| + 1, es[1..], tail);
      EntryParses(t, p, es[0]);
    } else if tail.Some? {
      EntryParses(t, p, tail.value);
    } else {
      EndParses(t);
    }
  }

  /** Printed lines at `p` give their definitions, and the rest of the text goes on behind them. */
  lemma {:induction false} LinesParse(t: seq<byte>, p: nat, es: seq<Entry>)
    requires ValidBody(es, None) && At(t, p, PrintBody(es, None))
    ensures var q := p + |PrintBody(es, None)|;
            Symbols(t, p).0 == Defs(es, None) + Symbols(t, q).0 && Symbols(t, p).1 == Symbols(t, q).1
    decreases |es|
  {
    hide At, Symbol, PrintEntry, ValidEntry, EntryDefs;
    if es != [] {
      LineAt(t, p, PrintEntry(es[0]), PrintBody(es[1..], None));
      LinesParse(t, p + |PrintEntry(es[0])| + 1, es[1..]);
      EntryParses(t, p, es[0]);
    }
  }

  /** A malformed line ends the file: the definitions in front of it count, and nothing behind it does. */
  lemma MalformedEnds(t: seq<byte>, p: nat, es: seq<Entry>)
    requires ValidBody(es, None) && At(t, p, PrintBody(es, None))
    requires Symbol(t, p + |PrintBody(es, None)|) == Bad
    ensures Symbols(t, p) == (Defs(es, None), false)
  {
    hide At, Symbol, Defs, PrintBody;
    LinesParse(t, p, es);
    assert Symbols(t, p + |PrintBody(es, None)|) == ([], false);
    assert Defs(es, None) + [] == Defs(es, None);
  }

  lemma EndParses(t: seq<byte>)
    ensures Symbols(t, |t|) == ([], true)
  {
  }

  /** One printed line: comments and empty lines are skipped, a definition is returned. */
  lemma EntryParses(t: seq<byte>, p: nat, e: Entry)
    requires ValidEntry(e) && At(t, p, PrintEntry(e))
    requires EndsLine(t, p + |PrintEntry(e)|) && (e.Blank? ==> p < |t|)
    ensures var q := p + |PrintEntry(e)|;
            if q < |t| then Symbols(t, p).0 == EntryDefs(e) + Symbols(t, q + 1).0
                && Symbols(t, p).1 == Symbols(t, q + 1).1
            else Symbols(t, p).0 == EntryDefs(e) && Symbols(t, p).1
  {
    var q := p + |PrintEntry(e)|;
    match e
    case Blank =>
      assert Trivia(t, p) == Trivia(t, p + 1);
      SkipSame(t, p, p + 1);
    case Note(text) =>
      NoteAt(t, p, text);
      assert Trivia(t, p) == Trivia(t, q + 1);
      SkipSame(t, p, q + 1);
      assert q == |t| ==> Symbol(t, q + 1) == End;
    case Define(_, _, _, _, _) =>
      DefineParses(t, p, e);
  }

  lemma SkipSame(t: seq<byte>, p: nat, q: nat)
    requires Trivia(t, p) == Trivia(t, q)
    ensures Symbols(t, p) == Symbols(t, q) && Symbols(t, q).0 == [] + Symbols(t, q).0
  {
    SymbolSame(t, p, q);
    hide Symbol, Trivia;
  }

  lemma SymbolSame(t: seq<byte>, p: nat, q: nat)
    requires Trivia(t, p) == Trivia(t, q)
    ensures Symbol(t, p) == Symbol(t, q)
  {
    hide Trivia, Match, IdentEnd, Blanks, HexU64, LineComment;
  }

  // ---- Printed headers parse ----

  lemma {:induction false} UuidParses(t: seq<byte>, p: nat, d: seq<byte>, n: nat)
    requires |d| == 32 && AllHex(d) && n <= 16 && At(t, p, PrintUuid(d, n))
    ensures UuidPrefix(t, p, n).Some?
    ensures UuidPrefix(t, p, n).value.0 == UuidBytes(d, n)
    ensures UuidPrefix(t, p, n).value.1 == p + |PrintUuid(d, n)|
  {
    hide At, Match, HexByte, IsIdent, HexDigit, PrintUuid;
    if n == 0 {
      NoUuid(d);
    } else {
      UuidPieces(t, p, d, n - 1);
      UuidParses(t, p, d, n - 1);
      UuidByteAt(t, p + |PrintUuid(d, n - 1)|, d, n - 1);
    }
  }

  lemma UuidPieces(t: seq<byte>, p: nat, d: seq<byte>, n: nat)
    requires 2 * n + 2 <= |d| && At(t, p, PrintUuid(d, n + 1))
    ensures |PrintUuid(d, n + 1)| == |PrintUuid(d, n)| + 2 + |Separator(n)|
    ensures var q := p + |PrintUuid(d, n)|;
            At(t, p, PrintUuid(d, n)) && At(t, q, [d[2 * n], d[2 * n + 1]]) && At(t, q + 2, Separator(n))
  {
    hide At;
    var q := p + |PrintUuid(d, n)|;
    AtSplit(t, p, PrintUuid(d, n), [d[2 * n], d[2 * n + 1]] + Separator(n));
    AtSplit(t, q, [d[2 * n], d[2 * n + 1]], Separator(n));
  }

  lemma UuidByteAt(t: seq<byte>, q: nat, d: seq<byte>, k: nat)
    requires |d| == 32 && AllHex(d) && k < 16 && At(t, q, [d[2 * k], d[2 * k + 1]])
    requires At(t, q + 2, Separator(k))
    ensures HexByte(t, q) == Some(HexDigit(d[2 * k]) * 16 + HexDigit(d[2 * k + 1]))
    ensures Separator(k) != [] ==> Match(t, q + 2, Separator(k))
  {
    AtIndex(t, q, [d[2 * k], d[2 * k + 1]]);
    assert t[q] == d[2 * k] && t[q + 1] == d[2 * k + 1];
  }

  lemma {:induction false} PrefaceParses(t: seq<byte>, p: nat, notes: seq<seq<byte>>)
    requires (forall s <- notes :: OneLine(s)) && At(t, p, PrintPreface(notes))
    ensures Comments(t, p) == Comments(t, p + |PrintPreface(notes)|)
    decreases |notes|
  {
    if notes != [] {
      var q := p + |PrintNote(notes[0])|;
      LineAt(t, p, PrintNote(notes[0]), PrintPreface(notes[1..]));
      NoteAt(t, p, notes[0]);
      PrefaceParses(t, q + 1, notes[1..]);
    }
  }

  lemma {:induction false} DirectivesParse(t: seq<byte>, p: nat, ds: seq<Directive>)
    requires (forall d <- ds :: OneLine(d.text)) && At(t, p, PrintDirectives(ds))
    ensures Directives(t, p) == Some(p + |PrintDirectives(ds)|)
    decreases |ds|
  {
    hide At, PrintDirective;
    if ds != [] {
      var q := p + |PrintDirective(ds[0])|;
      LineAt(t, p, PrintDirective(ds[0]), PrintDirectives(ds[1..]));
      DirectivesParse(t, q + 1, ds[1..]);
      DirectiveParses(t, p, ds[0]);
    } else {
      AtIndex(t, p, [NL]);
      assert Comments(t, p) == p && !Match(t, p, DEVICE_DIRECTIVE) by { FirstByteDecides(t, p, DEVICE_DIRECTIVE); }
    }
  }

  lemma FirstByteDecides(t: seq<byte>, p: nat, s: seq<byte>)
    requires p < |t| && s != [] && t[p] != s[0]
    ensures !Match(t, p, s)
  {
    if Match(t, p, s) {
      AtIndex(t, p, s);
    }
  }

  lemma DirectivesSkip(t: seq<byte>, p: nat, q: nat)
    requires Comments(t, p) == Comments(t, q)
    ensures Directives(t, p) == Directives(t, q)
  {
  }

  lemma DirectiveParses(t: seq<byte>, p: nat, d: Directive)
    requires OneLine(d.text) && At(t, p, PrintDirective(d))
    requires p + |PrintDirective(d)| < |t| && t[p + |PrintDirective(d)|] == NL
    ensures Directives(t, p) == Directives(t, p + |PrintDirective(d)| + 1)
  {
    var q := p + |PrintDirective(d)|;
    if d.Remark? {
      NoteAt(t, p, d.text);
      assert Comments(t, p) == Comments(t, q + 1);
      assert Directives(t, p) == Directives(t, q + 1) by { DirectivesSkip(t, p, q + 1); }
    } else {
      var x := p + |DEVICE_DIRECTIVE|;
      AtSplit(t, p, DEVICE_DIRECTIVE, d.text);
      assert t[p] == 68 by { AtIndex(t, p, DEVICE_DIRECTIVE); }
      assert NextLine(t, x) == q + 1 by { AtIndex(t, x, d.text); LineEndSpan(t, x); }
      assert Comments(t, p) == p && Match(t, p, DEVICE_DIRECTIVE);
    }
  }

  // ---- The two directions ----

  /** The parser reads `t` to its end and returns `uuid` and `defs`. */
  ghost predicate Parses(t: seq<byte>, uuid: seq<byte>, defs: seq<Def>) {
    && Header(t, 0).Some? && Header(t, 0).value.0 == uuid
    && Symbols(t, Header(t, 0).value.1).1 && Symbols(t, Header(t, 0).value.1).0 == defs
  }

  lemma HeaderParses(t: seq<byte>, l: Layout)
    requires Valid(l) && At(t, 0, PrintHeader(l))
    ensures Header(t, 0).Some?
    ensures Header(t, 0).value.0 == UuidBytes(l.uuid, 16) && Header(t, 0).value.1 == |PrintHeader(l)|
  {
    hide At, IsBlank, HexDigit, PrintUuid, PrintPreface, PrintDirectives, Directives, UuidPrefix, Blanks, UuidBytes;
    var q := |PrintPreface(l.preface)|;
    var g := q + |UUID_DIRECTIVE|;
    var u := g + |l.gap|;
    HeaderPieces(t, l);
    PrefaceParses(t, 0, l.preface);
    FirstIs(t, q, UUID_DIRECTIVE);
    UuidStart(t, u, l.uuid);
    BlanksAt(t, g, l.gap);
    UuidParses(t, u, l.uuid, 16);
    DirectivesParse(t, u + |PrintUuid(l.uuid, 16)|, l.directives);
  }

  lemma UuidStart(t: seq<byte>, u: nat, d: seq<byte>)
    requires |d| == 32 && AllHex(d) && At(t, u, PrintUuid(d, 16))
    ensures u < |t| && !IsBlank(t[u])
  {
    UuidTextForm(d, 16);
    assert PrintUuid(d, 16)[2 * 0 + Separators(0)] == d[2 * 0];
    FirstIs(t, u, PrintUuid(d, 16));
  }

  lemma HeaderPieces(t: seq<byte>, l: Layout)
    requires |l.uuid| == 32
    ensures At(t, 0, PrintHeader(l)) <==>
      && At(t, 0, PrintPreface(l.preface))
      && At(t, |PrintPreface(l.preface)|, UUID_DIRECTIVE)
      && At(t, |PrintPreface(l.preface)| + |UUID_DIRECTIVE|, l.gap)
      && At(t, |PrintPreface(l.preface)| + |UUID_DIRECTIVE| + |l.gap|, PrintUuid(l.uuid, 16))
      && At(t, |PrintPreface(l.preface)| + |UUID_DIRECTIVE| + |l.gap| + |PrintUuid(l.uuid, 16)|,
            PrintDirectives(l.directives))
  {
    hide At;
    var a, b, c, d, e := PrintPreface(l.preface), UUID_DIRECTIVE, l.gap, PrintUuid(l.uuid, 16),
        PrintDirectives(l.directives);
    AtSplit3(t, 0, a, b, c + (d + e));
    AtSplit3(t, |a| + |b|, c, d, e);
  }

  /** Round trip: every file in the documented format, with any comments and empty lines, parses to
      the UUID and the definitions it was printed from. */
  lemma PrintedFilesParse(l: Layout)
    requires Valid(l)
    ensures Parses(Print(l), UuidBytes(l.uuid, 16), Defs(l.body, l.tail))
  {
    var t := Print(l);
    assert At(t, 0, t);
    AtSplit(t, 0, PrintHeader(l), PrintBody(l.body, l.tail));
    hide At;
    HeaderParses(t, l);
    BodyParses(t, |PrintHeader(l)|, l.body, l.tail);
  }

  // ---- Parsed files are printed files ----

  lemma LineJoin(t: seq<byte>, p: nat, line: seq<byte>, rest: seq<byte>)
    requires At(t, p, line) && p + |line| < |t| && t[p + |line|] == NL && At(t, p + |line| + 1, rest)
    ensures At(t, p, line + ([NL] + rest))
    ensures |line + ([NL] + rest)| == |line| + 1 + |rest|
  {
    AtSplit(t, p, line, [NL] + rest);
    AtSplit(t, p + |line|, [NL], rest);
  }

  lemma SliceAt(t: seq<byte>, p: nat, q: nat)
    requires p <= q <= |t|
    ensures At(t, p, t[p..q])
  {
    AtIsSlice(t, p, t[p..q]);
  }

  /** A comment that runs to the end of its line is printed from its text. */
  lemma NoteSound(t: seq<byte>, p: nat)
    requires p < |t| && t[p] == HASH
    ensures LineEnd(t, p) > p && EndsLine(t, LineEnd(t, p))
    ensures var text := t[p + 1..LineEnd(t, p)];
            OneLine(text) && At(t, p, PrintNote(text)) && p + |PrintNote(text)| == LineEnd(t, p)
  {
    LineEndSpan(t, p);
    var q := LineEnd(t, p);
    var text := t[p + 1..q];
    assert forall i :: 0 <= i < |text| ==> text[i] == t[p + 1 + i];
    AtSplit(t, p, [HASH], text);
  }

  lemma OptNoteSound(t: seq<byte>, c: nat) returns (note: Option<seq<byte>>)
    requires c <= |t|
    ensures At(t, c, PrintOptNote(note)) && c + |PrintOptNote(note)| == LineComment(t, c)
    ensures note.Some? ==> OneLine(note.value)
  {
    note := None;
    if c < |t| && t[c] == HASH {
      NoteSound(t, c);
      note := Some(t[c + 1..LineEnd(t, c)]);
    }
  }

  lemma BlankSlice(t: seq<byte>, p: nat)
    requires p <= |t|
    ensures AllBlank(t[p..Blanks(t, p)]) && At(t, p, t[p..Blanks(t, p)])
  {
    BlanksSpan(t, p);
    var s := t[p..Blanks(t, p)];
    assert forall i :: 0 <= i < |s| ==> s[i] == t[p + i];
  }

  lemma IdentSlice(t: seq<byte>, p: nat)
    requires p <= |t|
    ensures AllIdent(t[p..IdentEnd(t, p)]) && At(t, p, t[p..IdentEnd(t, p)])
  {
    IdentSpan(t, p);
    var s := t[p..IdentEnd(t, p)];
    assert forall i :: 0 <= i < |s| ==> s[i] == t[p + i];
  }

  lemma DigitSlice(t: seq<byte>, x: nat)
    requires HexU64(t, x).Some?
    ensures AllHex(t[x + 2..x + 18]) && At(t, x, HEX_PREFIX) && At(t, x + 2, t[x + 2..x + 18])
  {
    HexRunSpan(t, x + 2, 8);
    SliceAt(t, x + 2, x + 18);
  }

  /** A symbol line is printed from its pieces. */
  lemma DefineSound(t: seq<byte>, p: nat) returns (e: Entry)
    requires p < |t| && Trivia(t, p) == p && Symbol(t, p).Got?
    ensures e.Define? && ValidEntry(e) && At(t, p, PrintEntry(e)) && EndsLine(t, p + |PrintEntry(e)|)
    ensures var q := p + |PrintEntry(e)|; Symbol(t, p).next == if q < |t| then q + 1 else q
  {
    hide At, IsIdent, IsBlank, HexDigit, LineComment, AllIdent, AllBlank, AllHex, OneLine, PrintEntry, HexU64;
    var g := IdentEnd(t, p);
    var x := Blanks(t, g);
    var h := x + 18;
    var k := LineComment(t, Blanks(t, h));
    IdentSlice(t, p);
    BlankSlice(t, g);
    DigitSlice(t, x);
    BlankSlice(t, h);
    var note := OptNoteSound(t, Blanks(t, h));
    assert EndsLine(t, k) by { if Match(t, k, [NL]) { FirstIs(t, k, [NL]); } }
    e := Define(t[p..g], t[g..x], t[x + 2..h], t[h..Blanks(t, h)], note);
    DefinePieces(t, p, e);
  }

  /** The line at `p` is printed from some entry, and the symbols after it go on behind its newline. */
  lemma EntrySound(t: seq<byte>, p: nat) returns (e: Entry)
    requires p < |t| && Symbols(t, p).1
    ensures ValidEntry(e) && At(t, p, PrintEntry(e)) && EndsLine(t, p + |PrintEntry(e)|)
    ensures e.Blank? ==> p + |PrintEntry(e)| < |t|
    ensures p + |PrintEntry(e)| < |t| ==> Symbols(t, p + |PrintEntry(e)| + 1).1
  {
    if t[p] == NL || t[p] == HASH {
      e := SkippedSound(t, p);
    } else {
      hide PrintEntry, Symbol, At, EndsLine, ValidEntry;
      assert Symbol(t, p).Got? by { NotTheEnd(t, p); }
      e := DefineSound(t, p);
    }
  }

  lemma NotTheEnd(t: seq<byte>, p: nat)
    requires p < |t| && t[p] != NL && t[p] != HASH
    ensures Trivia(t, p) == p && Symbol(t, p) != End
  {
  }

  lemma SkippedSound(t: seq<byte>, p: nat) returns (e: Entry)
    requires p < |t| && Symbols(t, p).1 && (t[p] == NL || t[p] == HASH)
    ensures ValidEntry(e) && At(t, p, PrintEntry(e)) && EndsLine(t, p + |PrintEntry(e)|)
    ensures e.Blank? ==> p + |PrintEntry(e)| < |t|
    ensures p + |PrintEntry(e)| < |t| ==> Symbols(t, p + |PrintEntry(e)| + 1).1
  {
    hide PrintEntry, Symbols;
    if t[p] == NL {
      e := Blank;
      BlankPrint();
      SkipSame(t, p, p + 1);
    } else {
      NoteSound(t, p);
      var q := LineEnd(t, p);
      e := Note(t[p + 1..q]);
      NotePrint(e);
      SkipSame(t, p, q + 1);
    }
  }

  lemma BlankPrint()
    ensures PrintEntry(Blank) == []
  {
  }

  lemma NotePrint(e: Entry)
    requires e.Note?
    ensures PrintEntry(e) == PrintNote(e.text)
  {
  }

  lemma {:induction false} BodySound(t: seq<byte>, p: nat) returns (es: seq<Entry>, tail: Option<Entry>)
    requires p <= |t| && Symbols(t, p).1
    ensures ValidBody(es, tail) && At(t, p, PrintBody(es, tail)) && p + |PrintBody(es, tail)| == |t|
    decreases |t| - p
  {
    hide At, Symbols, PrintEntry, ValidEntry, Symbol;
    es, tail := [], None;
    if p < |t| {
      var e := EntrySound(t, p);
      var q := p + |PrintEntry(e)|;
      if q < |t| {
        var rest;
        rest, tail := BodySound(t, q + 1);
        es := [e] + rest;
        assert es[1..] == rest;
        LineJoin(t, p, PrintEntry(e), PrintBody(rest, tail));
      } else {
        tail := Some(e);
      }
    } else {
      EmptyAt(t);
    }
  }

  lemma EmptyAt(t: seq<byte>)
    ensures At(t, |t|, [])
  {
  }

  lemma {:induction false} PrefaceSound(t: seq<byte>, p: nat) returns (notes: seq<seq<byte>>)
    requires p <= |t| && Comments(t, p) < |t|
    ensures forall s <- notes :: OneLine(s)
    ensures At(t, p, PrintPreface(notes)) && p + |PrintPreface(notes)| == Comments(t, p)
    decreases |t| - p
  {
    hide At;
    notes := [];
    if t[p] == HASH {
      var q := LineEnd(t, p);
      NoteSound(t, p);
      var rest := PrefaceSound(t, q + 1);
      var text := t[p + 1..q];
      notes := [text] + rest;
      assert notes[1..] == rest;
      LineJoin(t, p, PrintNote(text), PrintPreface(rest));
    } else {
      SliceAt(t, p, p);
    }
  }

  lemma {:induction false} DirectivesSound(t: seq<byte>, p: nat) returns (ds: seq<Directive>)
    requires p <= |t| && Directives(t, p).Some?
    ensures forall d <- ds :: OneLine(d.text)
    ensures At(t, p, PrintDirectives(ds)) && p + |PrintDirectives(ds)| == Directives(t, p).value
    decreases |t| - p
  {
    hide At, Match, PrintDirective, Directives, OneLine;
    if (p < |t| && t[p] == HASH) || Match(t, p, DEVICE_DIRECTIVE) {
      var d := DirectiveSound(t, p);
      var q := p + |PrintDirective(d)|;
      var rest := DirectivesSound(t, q + 1);
      ds := [d] + rest;
      assert ds[1..] == rest;
      LineJoin(t, p, PrintDirective(d), PrintDirectives(rest));
    } else {
      ds := [];
      BlankLineSound(t, p);
    }
  }

  lemma BlankLineSound(t: seq<byte>, p: nat)
    requires Directives(t, p).Some?
    requires !(p < |t| && t[p] == HASH) && !Match(t, p, DEVICE_DIRECTIVE)
    ensures At(t, p, PrintDirectives([])) && p + |PrintDirectives([])| == Directives(t, p).value
  {
  }

  lemma DirectiveSound(t: seq<byte>, p: nat) returns (d: Directive)
    requires Directives(t, p).Some?
    requires (p < |t| && t[p] == HASH) || Match(t, p, DEVICE_DIRECTIVE)
    ensures OneLine(d.text) && At(t, p, PrintDirective(d))
    ensures var q := p + |PrintDirective(d)|; q < |t| && t[q] == NL && Directives(t, p) == Directives(t, q + 1)
  {
    hide At, Match, PrintDirective, Directives, LineEnd, OneLine;
    if p < |t| && t[p] == HASH {
      NoteSound(t, p);
      CommentStep(t, p);
      d := Remark(t[p + 1..LineEnd(t, p)]);
      RemarkPrint(d);
      DirectivesSkip(t, p, LineEnd(t, p) + 1);
      DirectivesInside(t, LineEnd(t, p) + 1);
    } else {
      MatchFits(t, p, DEVICE_DIRECTIVE);
      DeviceSound(t, p);
      DeviceStep(t, p);
      d := Device(t[p + |DEVICE_DIRECTIVE|..LineEnd(t, p + |DEVICE_DIRECTIVE|)]);
      DirectivesInside(t, LineEnd(t, p + |DEVICE_DIRECTIVE|) + 1);
    }
  }

  lemma CommentStep(t: seq<byte>, p: nat)
    requires p < |t| && t[p] == HASH
    ensures Comments(t, p) == Comments(t, LineEnd(t, p) + 1)
  {
  }

  lemma DeviceStep(t: seq<byte>, p: nat)
    requires Match(t, p, DEVICE_DIRECTIVE)
    ensures Directives(t, p) == Directives(t, LineEnd(t, p + |DEVICE_DIRECTIVE|) + 1)
  {
    hide Match, LineEnd;
    MatchFits(t, p, DEVICE_DIRECTIVE);
    assert Comments(t, p) == p;
  }

  lemma MatchFits(t: seq<byte>, p: nat, s: seq<byte>)
    requires Match(t, p, s)
    ensures p < |t| && p + |s| <= |t| && (s != [] ==> t[p] == s[0])
  {
    if s != [] {
      FirstIs(t, p, s);
    }
  }

  lemma DirectivesInside(t: seq<byte>, p: nat)
    requires Directives(t, p).Some?
    ensures p < |t|
  {
  }

  lemma RemarkPrint(d: Directive)
    requires d.Remark?
    ensures PrintDirective(d) == PrintNote(d.text)
  {
  }

  lemma DeviceSound(t: seq<byte>, p: nat)
    requires Match(t, p, DEVICE_DIRECTIVE) && p + |DEVICE_DIRECTIVE| <= |t|
    ensures var x := p + |DEVICE_DIRECTIVE|; var d := Device(t[x..LineEnd(t, x)]);
            OneLine(d.text) && At(t, p, PrintDirective(d)) && p + |PrintDirective(d)| == LineEnd(t, x)
            && EndsLine(t, LineEnd(t, x))
  {
    hide At;
    var x := p + |DEVICE_DIRECTIVE|;
    var text := t[x..LineEnd(t, x)];
    RestOfLine(t, x);
    AtSplit(t, p, DEVICE_DIRECTIVE, text);
  }

  lemma RestOfLine(t: seq<byte>, x: nat)
    requires x <= |t|
    ensures var text := t[x..LineEnd(t, x)]; OneLine(text) && At(t, x, text) && EndsLine(t, LineEnd(t, x))
  {
    LineEndSpan(t, x);
    var text := t[x..LineEnd(t, x)];
    assert forall i :: 0 <= i < |text| ==> text[i] == t[x + i];
  }

  lemma {:induction false} UuidSound(t: seq<byte>, p: nat, n: nat) returns (d: seq<byte>)
    requires p <= |t| && UuidPrefix(t, p, n).Some?
    ensures |d| == 2 * n && AllHex(d)
    ensures At(t, p, PrintUuid(d, n)) && p + |PrintUuid(d, n)| == UuidPrefix(t, p, n).value.1
  {
    hide At, HexDigit, PrintUuid;
    if n == 0 {
      d := [];
      SliceAt(t, p, p);
      NoUuid(d);
    } else {
      var c := UuidSound(t, p, n - 1);
      var q := UuidPrefix(t, p, n - 1).value.1;
      d := c + [t[q], t[q + 1]];
      UuidOfPrefix(c, d, n - 1);
      UuidByteSound(t, q, n - 1);
      UuidJoin(t, p, d, n - 1);
    }
  }

  lemma NoUuid(d: seq<byte>)
    ensures PrintUuid(d, 0) == []
  {
  }

  lemma {:induction false} UuidOfPrefix(c: seq<byte>, d: seq<byte>, n: nat)
    requires 2 * n <= |c| <= |d| && forall i :: 0 <= i < |c| ==> c[i] == d[i]
    ensures PrintUuid(c, n) == PrintUuid(d, n)
  {
    if n != 0 {
      UuidOfPrefix(c, d, n - 1);
    }
  }

  lemma UuidByteSound(t: seq<byte>, q: nat, k: nat)
    requires HexByte(t, q).Some? && (Separator(k) != [] ==> Match(t, q + 2, Separator(k)))
    ensures HexDigit(t[q]) != -1 && HexDigit(t[q + 1]) != -1
    ensures At(t, q, [t[q], t[q + 1]]) && At(t, q + 2, Separator(k))
  {
  }

  lemma UuidJoin(t: seq<byte>, p: nat, d: seq<byte>, n: nat)
    requires 2 * n + 2 <= |d| && At(t, p, PrintUuid(d, n))
    requires At(t, p + |PrintUuid(d, n)|, [d[2 * n], d[2 * n + 1]])
    requires At(t, p + |PrintUuid(d, n)| + 2, Separator(n))
    ensures At(t, p, PrintUuid(d, n + 1))
    ensures |PrintUuid(d, n + 1)| == |PrintUuid(d, n)| + 2 + |Separator(n)|
  {
    hide At;
    var q := p + |PrintUuid(d, n)|;
    AtSplit(t, q, [d[2 * n], d[2 * n + 1]], Separator(n));
    AtSplit(t, p, PrintUuid(d, n), [d[2 * n], d[2 * n + 1]] + Separator(n));
  }

  lemma HeaderSound(t: seq<byte>) returns (l: Layout)
    requires Header(t, 0).Some?
    ensures Valid(l) && l.body == [] && l.tail == None
    ensures At(t, 0, PrintHeader(l)) && |PrintHeader(l)| == Header(t, 0).value.1
  {
    hide At, IsBlank, AllBlank, AllHex, PrintUuid, PrintPreface, PrintDirectives, Blanks, OneLine;
    var q := Comments(t, 0);
    var g := q + |UUID_DIRECTIVE|;
    MatchFits(t, q, UUID_DIRECTIVE);
    var u := Blanks(t, g);
    BlanksFit(t, g);
    var v := UuidPrefix(t, u, 16).value.1;
    var preface := PrefaceSound(t, 0);
    BlankSlice(t, g);
    var digits := UuidSound(t, u, 16);
    var ds := DirectivesSound(t, v);
    l := Layout(preface, t[g..u], digits, ds, [], None);
    HeaderPieces(t, l);
  }

  lemma BlanksFit(t: seq<byte>, g: nat)
    requires g <= |t|
    ensures g <= Blanks(t, g) <= |t|
  {
  }

  /** Completeness of the format: whatever the parser accepts is the print of some layout, which
      carries the UUID and the definitions that the parser returned. */
  lemma ParsedFilesArePrinted(t: seq<byte>, uuid: seq<byte>, defs: seq<Def>) returns (l: Layout)
    requires Parses(t, uuid, defs)
    ensures Valid(l) && Print(l) == t && UuidBytes(l.uuid, 16) == uuid && Defs(l.body, l.tail) == defs
  {
    hide At, Symbols, Header, PrintHeader, PrintBody;
    var h := HeaderSound(t);
    var es, tail := BodySound(t, |PrintHeader(h)|);
    l := h.(body := es, tail := tail);
    assert PrintHeader(l) == PrintHeader(h) by { HeaderOnly(h, l); }
    AtSplit(t, 0, PrintHeader(l), PrintBody(es, tail));
    AtIsSlice(t, 0, Print(l));
    assert t[..|t|] == t;
    PrintedFilesParse(l);
  }

  lemma HeaderOnly(h: Layout, l: Layout)
    requires |h.uuid| == 32 && l == h.(body := l.body, tail := l.tail)
    ensures PrintHeader(l) == PrintHeader(h)
  {
  }
}
