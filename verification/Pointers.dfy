/** The conversions between static kernelcache addresses, slid virtual addresses and pointers. */
module Pointers {
  import opened Arithmetic
  import opened Machine

  /** Where the kernelcache's Mach-O header is in memory, and the kernel slide. */
  datatype Kernel = Kernel(header: u64, slide: u64)

  const STATIC_BASE: u64 := 0xFFFF_FFF0_0700_4000

  function SaForVa(k: Kernel, va: u64): u64 { Wrap64(va - k.slide) }
  function VaForSa(k: Kernel, sa: u64): u64 { Wrap64(sa + k.slide) }
  function PtrForSa(k: Kernel, sa: u64): u64 { Wrap64(sa - STATIC_BASE + k.header) }
  function PtrForVa(k: Kernel, va: u64): u64 { PtrForSa(k, SaForVa(k, va)) }
  function SaForPtr(k: Kernel, ptr: u64): u64 { Wrap64(ptr - k.header + STATIC_BASE) }
  function VaForPtr(k: Kernel, ptr: u64): u64 { VaForSa(k, SaForPtr(k, ptr)) }

  /** Sums modulo 2^64 do not depend on where they are reduced. */
  lemma WrapSum(x: int, y: int)
    ensures Wrap64(Wrap64(x) + y) == Wrap64(x + y)
  {
    var q := x / TWO_64;
    assert x == q * TWO_64 + Wrap64(x);
    assert (Wrap64(x) + y) % TWO_64 == (Wrap64(x) + y + q * TWO_64) % TWO_64 by { ModPlus(Wrap64(x) + y, TWO_64, q); }
  }

  /** The conversions invert each other, for every kernel position and slide. */
  lemma Inverses(k: Kernel, x: u64)
    ensures SaForVa(k, VaForSa(k, x)) == x && VaForSa(k, SaForVa(k, x)) == x
    ensures SaForPtr(k, PtrForSa(k, x)) == x && PtrForSa(k, SaForPtr(k, x)) == x
    ensures PtrForVa(k, VaForPtr(k, x)) == x && VaForPtr(k, PtrForVa(k, x)) == x
  {
    hide Wrap64;
    WrapId(x);
    var slide: int, header: int, first: int := k.slide, k.header, STATIC_BASE;
    forall y: u64
      ensures SaForVa(k, VaForSa(k, y)) == y && VaForSa(k, SaForVa(k, y)) == y
      ensures SaForPtr(k, PtrForSa(k, y)) == y && PtrForSa(k, SaForPtr(k, y)) == y
    {
      WrapId(y);
      WrapSum(y + slide, -slide);
      WrapSum(y - slide, slide);
      WrapSum(y - first + header, -header + first);
      WrapSum(y - header + first, -first + header);
    }
  }

  lemma WrapId(x: u64)
    ensures Wrap64(x) == x
  {
  }

  /** The static address 0xFFFFFFF007004000 is that of the kernelcache's Mach-O header, and places move with it;
      virtual addresses are static ones plus the slide. */
  lemma Anchored(k: Kernel, d: int)
    ensures PtrForSa(k, Wrap64(0xFFFF_FFF0_0700_4000 + d)) == Wrap64(k.header + d)
    ensures SaForPtr(k, Wrap64(k.header + d)) == Wrap64(0xFFFF_FFF0_0700_4000 + d)
    ensures VaForSa(k, Wrap64(d)) == Wrap64(d + k.slide) && PtrForVa(k, Wrap64(d + k.slide)) == PtrForSa(k, Wrap64(d))
  {
    hide Wrap64;
    var slide: int, header: int, first: int := k.slide, k.header, STATIC_BASE;
    WrapSum(first + d, -first + header);
    WrapSum(header + d, -header + first);
    WrapSum(d, slide);
    WrapSum(d + slide, -slide);
  }

  /** What relocation adds to a pointer into the kext: the distance from `vmBase` to the kext's
      virtual address. */
  function KextSlide(k: Kernel, kext: u64, vmBase: u64): u64 {
    Wrap64(VaForPtr(k, kext) - vmBase)
  }

  /** Meaning of pointers: a relocated static address, converted back to a pointer, is the place of the
      byte that the address named, at its distance from `vmBase` in the image. */
  lemma RelocatedPointer(k: Kernel, kext: u64, vmBase: u64, t: u64)
    ensures PtrForVa(k, Wrap64(t + KextSlide(k, kext, vmBase))) == Wrap64(kext + t - vmBase)
  {
    hide Wrap64;
    var va := VaForPtr(k, kext);
    WrapSum(va - vmBase, t);
    assert Wrap64(t + KextSlide(k, kext, vmBase)) == Wrap64(va + (t - vmBase));
    PtrOfSum(k, va, t - vmBase);
    Inverses(k, kext);
  }

  /** A pointer moves with the address it was converted from. */
  lemma PtrOfSum(k: Kernel, va: u64, d: int)
    ensures PtrForVa(k, Wrap64(va + d)) == Wrap64(PtrForVa(k, va) + d)
  {
    hide Wrap64;
    var slide: int, header: int, first: int := k.slide, k.header, STATIC_BASE;
    WrapSum(va + d, -slide);
    WrapSum(va + d - slide, -first + header);
    WrapSum(va - slide, -first + header);
    WrapSum(va - slide - first + header, d);
    assert Wrap64(Wrap64(va + d) - slide) == Wrap64(va + d - slide);
    assert PtrForVa(k, Wrap64(va + d)) == Wrap64(Wrap64(va + d - slide) - first + header);
    assert PtrForVa(k, va) == Wrap64(Wrap64(va - slide) - first + header);
  }
}
