/** Bytes, fixed-width integers, little-endian words and C strings: the memory
    vocabulary shared by the host program and the device module. */
module Machine {
  import opened Arithmetic

  type byte = b: int | 0 <= b < 0x100
  type u32 = x: int | 0 <= x < 0x1_0000_0000
  type u64 = x: int | 0 <= x < 0x1_0000_0000_0000_0000

  const TWO_32: int := 0x1_0000_0000
  const TWO_64: int := 0x1_0000_0000_0000_0000

  datatype Option<+T> = None | Some(value: T)

  /** Truncation to `uint32_t` and `uint64_t`; `%` is Euclidean, so negative differences wrap as in C. */
  function Wrap32(x: int): u32 { x % TWO_32 }

  function Wrap64(x: int): u64 { x % TWO_64 }

  // ---- Little-endian words ----

  function FromLE(s: seq<byte>): nat {
    if s == [] then 0 else s[0] + 0x100 * FromLE(s[1..])
  }

  function ToLE(v: nat, n: nat): (s: seq<byte>)
    ensures |s| == n
  {
    if n == 0 then [] else [v % 0x100] + ToLE(v / 0x100, n - 1)
  }

  lemma {:induction false} FromLEBound(s: seq<byte>)
    ensures FromLE(s) < Pow(0x100, |s|)
  {
    if s != [] {
      FromLEBound(s[1..]);
    }
  }

  lemma WordBounds()
    ensures Pow(0x100, 4) == TWO_32 && Pow(0x100, 8) == TWO_64
  {
    assert Pow(0x100, 2) == 0x1_0000;
    assert Pow(0x100, 4) == TWO_32;
    assert Pow(0x100, 6) == 0x1_0000_0000_0000;
  }

  /** Decoding inverts encoding on every value of the width. */
  lemma {:induction false} LERoundTrip(v: nat, n: nat)
    requires v < Pow(0x100, n)
    ensures FromLE(ToLE(v, n)) == v
  {
    if n != 0 {
      assert v / 0x100 < Pow(0x100, n - 1);
      LERoundTrip(v / 0x100, n - 1);
      assert ToLE(v, n)[1..] == ToLE(v / 0x100, n - 1);
    }
  }

  function U32At(m: seq<byte>, o: nat): u32
    requires o + 4 <= |m|
  {
    FromLEBound(m[o..o + 4]); WordBounds();
    FromLE(m[o..o + 4])
  }

  function U64At(m: seq<byte>, o: nat): u64
    requires o + 8 <= |m|
  {
    FromLEBound(m[o..o + 8]); WordBounds();
    FromLE(m[o..o + 8])
  }

  function LE32(v: u32): (s: seq<byte>)
    ensures |s| == 4 && FromLE(s) == v
  {
    WordBounds(); LERoundTrip(v, 4);
    ToLE(v, 4)
  }

  function LE64(v: u64): (s: seq<byte>)
    ensures |s| == 8 && FromLE(s) == v
  {
    WordBounds(); LERoundTrip(v, 8);
    ToLE(v, 8)
  }

  /** Encoding inverts decoding: a word's bytes are determined by its value. */
  lemma {:induction false} ToLEFromLE(s: seq<byte>)
    ensures ToLE(FromLE(s), |s|) == s
  {
    if s != [] {
      ToLEFromLE(s[1..]);
      assert FromLE(s) / 0x100 == FromLE(s[1..]) && FromLE(s) % 0x100 == s[0];
    }
  }

  // ---- Memory ----

  /** `s` stands in `m` at offset `o`. */
  predicate At(m: seq<byte>, o: nat, s: seq<byte>) {
    o + |s| <= |m| && forall i :: 0 <= i < |s| ==> m[o + i] == s[i]
  }

  lemma AtIsSlice(m: seq<byte>, o: nat, s: seq<byte>)
    ensures At(m, o, s) <==> o + |s| <= |m| && m[o..o + |s|] == s
  {
    if o + |s| <= |m| {
      var w := m[o..o + |s|];
      assert forall i :: 0 <= i < |s| ==> w[i] == m[o + i];
    }
  }

  lemma AtSplit(m: seq<byte>, o: nat, s: seq<byte>, t: seq<byte>)
    ensures At(m, o, s + t) <==> At(m, o, s) && At(m, o + |s|, t)
  {
    assert forall i :: 0 <= i < |s| ==> (s + t)[i] == s[i];
    assert forall i :: 0 <= i < |t| ==> (s + t)[|s| + i] == t[i];
  }

  lemma AtIndex(m: seq<byte>, o: nat, s: seq<byte>)
    requires At(m, o, s)
    ensures o + |s| <= |m| && forall k :: o <= k < o + |s| ==> m[k] == s[k - o]
  {
    forall k | o <= k < o + |s|
      ensures m[k] == s[k - o]
    {
      assert m[o + (k - o)] == s[k - o];
    }
  }

  /** Bytes behind the end do not change what stands in front of it. */
  lemma AtExtend(m: seq<byte>, more: seq<byte>, o: nat, s: seq<byte>)
    requires At(m, o, s)
    ensures At(m + more, o, s)
  {
  }

  /** The memory after `memcpy(m + o, s, |s|)`. */
  function Splice(m: seq<byte>, o: nat, s: seq<byte>): (r: seq<byte>)
    requires o + |s| <= |m|
    ensures |r| == |m|
  {
    m[..o] + s + m[o + |s|..]
  }

  lemma SpliceBytes(m: seq<byte>, o: nat, s: seq<byte>)
    requires o + |s| <= |m|
    ensures forall i :: 0 <= i < |m| ==> Splice(m, o, s)[i] == if o <= i < o + |s| then s[i - o] else m[i]
  {
  }

  /** The copy stands at its place. */
  lemma SpliceAt(m: seq<byte>, o: nat, s: seq<byte>)
    requires o + |s| <= |m|
    ensures At(Splice(m, o, s), o, s)
  {
    SpliceBytes(m, o, s);
  }

  /** The copy leaves what stands elsewhere. */
  lemma SpliceKeeps(m: seq<byte>, o: nat, s: seq<byte>, p: nat, t: seq<byte>)
    requires o + |s| <= |m| && At(m, p, t)
    requires p + |t| <= o || o + |s| <= p
    ensures At(Splice(m, o, s), p, t)
  {
    SpliceBytes(m, o, s);
  }

  /** A range that the copy does not touch reads the same. */
  lemma SpliceFrame(m: seq<byte>, o: nat, s: seq<byte>, a: nat, b: nat)
    requires o + |s| <= |m| && a <= b <= |m|
    requires b <= o || o + |s| <= a
    ensures Splice(m, o, s)[a..b] == m[a..b]
  {
    SpliceBytes(m, o, s);
  }

  /** `memcpy` into an array. */
  method Store(a: array<byte>, o: nat, s: seq<byte>)
    requires o + |s| <= a.Length
    modifies a
    ensures a[..] == Splice(old(a[..]), o, s)
  {
    forall i | 0 <= i < |s| {
      a[o + i] := s[i];
    }
    SpliceBytes(old(a[..]), o, s);
  }

  /** Extends what stands at `o` by the copy behind it. */
  lemma SpliceAppends(m: seq<byte>, o: nat, done: seq<byte>, s: seq<byte>)
    requires o + |done| + |s| <= |m| && At(m, o, done)
    ensures At(Splice(m, o + |done|, s), o, done + s)
  {
    hide At, Splice;
    SpliceAt(m, o + |done|, s);
    SpliceKeeps(m, o + |done|, s, o, done);
    AtSplit(Splice(m, o + |done|, s), o, done, s);
  }

  /** The words that stand in memory are the words that are read. */
  lemma WordHere(m: seq<byte>, o: nat, v: u32)
    requires At(m, o, LE32(v))
    ensures o + 4 <= |m| && U32At(m, o) == v
  {
    AtIsSlice(m, o, LE32(v));
  }

  lemma DoubleWordHere(m: seq<byte>, o: nat, v: u64)
    requires At(m, o, LE64(v))
    ensures o + 8 <= |m| && U64At(m, o) == v
  {
    AtIsSlice(m, o, LE64(v));
  }

  // ---- C strings ----

  /** `o + strnlen(m + o, |m| - o)`: the first NUL at or after `o`, or the end of the memory. */
  function NulAt(m: seq<byte>, o: nat): (e: nat)
    requires o <= |m|
    ensures o <= e <= |m|
    ensures forall k :: o <= k < e ==> m[k] != 0
    ensures e < |m| ==> m[e] == 0
    decreases |m| - o
  {
    if o == |m| || m[o] == 0 then o else NulAt(m, o + 1)
  }

  /** The C string that starts at `o`. */
  function CStr(m: seq<byte>, o: nat): seq<byte>
    requires o <= |m|
  {
    m[o..NulAt(m, o)]
  }

  /** The string at `o` ends with a NUL inside `m`. */
  predicate Terminated(m: seq<byte>, o: nat) {
    o <= |m| && NulAt(m, o) < |m|
  }

  /** A NUL-terminated copy of `name` reads back as `name`, and conversely. */
  lemma CStrIsName(m: seq<byte>, o: nat, name: seq<byte>)
    requires forall i :: 0 <= i < |name| ==> name[i] != 0
    ensures At(m, o, name + [0]) <==> Terminated(m, o) && CStr(m, o) == name
  {
    AtSplit(m, o, name, [0]);
    if At(m, o, name + [0]) {
      AtIndex(m, o, name);
      AtIndex(m, o + |name|, [0]);
      assert m[o + |name|] == 0;
      assert NulAt(m, o) == o + |name|;
    }
    AtIsSlice(m, o, name);
  }

  /** Memory in front of a string does not change it. */
  lemma {:induction false} CStrBehind(front: seq<byte>, m: seq<byte>, o: nat)
    requires o <= |m|
    ensures NulAt(front + m, |front| + o) == |front| + NulAt(m, o)
    ensures CStr(front + m, |front| + o) == CStr(m, o)
    ensures Terminated(front + m, |front| + o) <==> Terminated(m, o)
  {
    NulBehind(front, m, o);
    var w := front + m;
    var e := NulAt(m, o);
    assert w[|front| + o..|front| + e] == m[o..e];
  }

  lemma {:induction false} NulBehind(front: seq<byte>, m: seq<byte>, o: nat)
    requires o <= |m|
    ensures NulAt(front + m, |front| + o) == |front| + NulAt(m, o)
    decreases |m| - o
  {
    if o < |m| {
      assert (front + m)[|front| + o] == m[o];
      if m[o] != 0 {
        NulBehind(front, m, o + 1);
      }
    }
  }

  /** In a memory that ends with a NUL, every string that starts inside is terminated. */
  lemma LastNulTerminates(m: seq<byte>, o: nat)
    requires m != [] && m[|m| - 1] == 0 && o < |m|
    ensures Terminated(m, o)
  {
  }
}
