/** Physical memory as 64-bit words; frame f holds the 512 words from 512 * f on. */
module Ram {
  import opened Words

  predicate HasFrame(m: seq<u64>, f: nat) {
    512 * f + 512 <= |m|
  }

  /** Word i of frame f. */
  function Entry(m: seq<u64>, f: nat, i: nat): u64 {
    if HasFrame(m, f) && i < 512 then m[512 * f + i] else 0
  }

  function SetEntry(m: seq<u64>, f: nat, i: nat, w: u64): (r: seq<u64>)
    ensures |r| == |m|
  {
    if HasFrame(m, f) && i < 512 then m[512 * f + i := w] else m
  }

  /** memset(frame, 0, pages * PAGE_SIZE). */
  function ZeroedPages(m: seq<u64>, f: nat, pages: nat): (r: seq<u64>)
    ensures |r| == |m|
  {
    seq(|m|, k requires 0 <= k < |m| => if 512 * f <= k < 512 * (f + pages) then 0 else m[k])
  }

  method ZeroPages(ram: array<u64>, f: nat, pages: nat)
    requires 512 * (f + pages) <= ram.Length
    modifies ram
    ensures ram[..] == ZeroedPages(old(ram[..]), f, pages)
  {
    forall k | 512 * f <= k < 512 * (f + pages) { ram[k] := 0; }
  }

  lemma EntryAfterSet(m: seq<u64>, f: nat, i: nat, w: u64, g: nat, j: nat)
    requires HasFrame(m, f) && i < 512 && j < 512
    ensures Entry(SetEntry(m, f, i, w), g, j) == if g == f && j == i then w else Entry(m, g, j)
  {
  }

  lemma EntryAfterZero(m: seq<u64>, f: nat, g: nat, j: nat)
    ensures Entry(ZeroedPages(m, f, 1), g, j) == if g == f then 0 else Entry(m, g, j)
  {
  }
}

/** Physical memory byte by byte: eight to a word, the lowest first. */
module Bytes {
  import opened Words
  import opened Arithmetic

  /** 256 to the power k. */
  function Scale(k: nat): (p: nat)
    requires k < 8
    ensures p > 0
  {
    if k == 0 then 1 else 256 * Scale(k - 1)
  }

  function ByteOf(w: nat, k: nat): byte
    requires k < 8
  {
    w / Scale(k) % 256
  }

  /** w with byte k replaced. */
  function SetByte(w: u64, k: nat, b: byte): u64
    requires k < 8
  {
    ByteFits(w, k, b);
    w % Scale(k) + Scale(k) * (b + 256 * (w / Scale(k) / 256))
  }

  lemma ScaleIs()
    ensures Scale(0) == 1 && Scale(1) == 0x100 && Scale(2) == 0x1_0000 && Scale(3) == 0x100_0000
    ensures Scale(4) == 0x1_0000_0000 && Scale(5) == 0x100_0000_0000 && Scale(6) == 0x1_0000_0000_0000
    ensures Scale(7) == 0x100_0000_0000_0000
  {
    assert Scale(3) == 256 * Scale(2);
    assert Scale(5) == 256 * Scale(4);
    assert Scale(6) == 256 * Scale(5);
  }

  /** Any byte fits between what is below byte k and what is above it. */
  lemma ByteFits(w: u64, k: nat, b: byte)
    requires k < 8
    ensures 0 <= w % Scale(k) + Scale(k) * (b + 256 * (w / Scale(k) / 256)) < 0x1_0000_0000_0000_0000
  {
    TopFits(w, k);
    FitsAround(w % Scale(k), Scale(k), b, w / Scale(k) / 256, 0x1_0000_0000_0000_0000 / Scale(k));
  }

  lemma FitsAround(low: nat, p: nat, b: byte, high: nat, n: nat)
    requires low < p && 256 * high + 256 <= n
    ensures 0 <= low + p * (b + 256 * high) < n * p
  {
    var x := b + 256 * high;
    MulLe(x + 1, n, p);
    assert (x + 1) * p == x * p + p;
  }

  lemma TopFits(w: u64, k: nat)
    requires k < 8
    ensures 0x1_0000_0000_0000_0000 / Scale(k) * Scale(k) == 0x1_0000_0000_0000_0000
    ensures 256 * (w / Scale(k) / 256) + 256 <= 0x1_0000_0000_0000_0000 / Scale(k)
  {
    ScaleIs();
  }

  lemma ByteAfterSet(w: u64, k: nat, b: byte, j: nat)
    requires k < 8 && j < 8
    ensures ByteOf(SetByte(w, k, b), j) == if j == k then b else ByteOf(w, j)
  {
    hide Scale;
    var p := Scale(k);
    var low, high := w % p, w / p / 256;
    var r := SetByte(w, k, b);
    DivByParts(r, p, b + 256 * high, low);
    DivByParts(b + 256 * high, 256, high, b);
    if j > k {
      HigherByte(r, k, j);
      HigherByte(w, k, j);
    } else if j < k {
      LowerByte(r, k, j);
      LowerByte(w, k, j);
    }
  }

  /** A byte above k depends only on what is above k ... */
  lemma HigherByte(w: nat, k: nat, j: nat)
    requires k < j < 8
    ensures ByteOf(w, j) == ByteOf(w / Scale(k) / 256, j - k - 1)
  {
    ScalesApart(j, k);
    HigherPart(w, Scale(k), Scale(j - k - 1));
  }

  lemma HigherPart(w: nat, p: nat, q: nat)
    requires p > 0 && q > 0
    ensures p * (256 * q) > 0 && w / (p * (256 * q)) == w / p / 256 / q
  {
    MulLe(1, p, 256 * q);
    DivDiv(w, p, 256 * q);
    DivDiv(w / p, 256, q);
  }

  /** ... and one below k only on what is below. */
  lemma LowerByte(w: nat, k: nat, j: nat)
    requires j < k < 8
    ensures ByteOf(w, j) == ByteOf(w % Scale(k), j)
  {
    ScalesApart(k, j);
    LowerPart(w, Scale(j), Scale(k - j - 1));
  }

  lemma ScalesApart(k: nat, j: nat)
    requires j < k < 8
    ensures Scale(k) == Scale(j) * (256 * Scale(k - j - 1))
  {
    ScaleIs();
  }

  lemma LowerPart(w: nat, p: nat, q: nat)
    requires p > 0 && q > 0
    ensures p * (256 * q) > 0 && w / p % 256 == w % (p * (256 * q)) / p % 256
  {
    MulLe(1, p, 256 * q);
    var s := p * (256 * q);
    var low, high := w % s, w / s;
    DivMod(w, s);
    DivMod(low, p);
    Regroup(p, q, high);
    assert p * (256 * (q * high) + low / p) == p * (256 * (q * high)) + p * (low / p);
    DivByParts(w, p, 256 * (q * high) + low / p, low % p);
    ModAdds(low / p, q * high);
  }

  lemma Regroup(p: nat, q: nat, h: nat)
    ensures (p * (256 * q)) * h == p * (256 * (q * h))
  {
    assert (256 * q) * h == 256 * (q * h);
    assert (p * (256 * q)) * h == p * ((256 * q) * h);
  }

  lemma ModAdds(x: nat, y: nat)
    ensures (256 * y + x) % 256 == x % 256
  {
    DivMod(x, 256);
    DivByParts(256 * y + x, 256, y + x / 256, x % 256);
  }

  lemma DivDiv(w: nat, a: nat, b: nat)
    requires a > 0 && b > 0
    ensures a * b > 0 && w / a / b == w / (a * b)
  {
    DivMod(w, a);
    DivMod(w / a, b);
    var q, r := w / a / b, w / a % b;
    MulLe(1, b, a);
    MulLe(r, b - 1, a);
    assert w == (a * b) * q + (a * r + w % a);
    DivByParts(w, a * b, q, a * r + w % a);
  }

  /** The byte at address a. */
  function ByteAt(m: seq<u64>, a: nat): byte {
    if a / 8 < |m| then ByteOf(m[a / 8], a % 8) else 0
  }

  function SetByteAt(m: seq<u64>, a: nat, b: byte): (r: seq<u64>)
    ensures |r| == |m|
  {
    if a / 8 < |m| then m[a / 8 := SetByte(m[a / 8], a % 8, b)] else m
  }

  lemma ByteAfterStore(m: seq<u64>, a: nat, b: byte, c: nat)
    requires a / 8 < |m|
    ensures ByteAt(SetByteAt(m, a, b), c) == if c == a then b else ByteAt(m, c)
  {
    hide ByteOf, SetByte;
    if c / 8 == a / 8 {
      ByteAfterSet(m[a / 8], a % 8, b, c % 8);
    }
  }

  /** memcpy from `bytes` to address a, one byte after another. */
  function Copied(m: seq<u64>, a: nat, bytes: seq<byte>): (r: seq<u64>)
    ensures |r| == |m|
    decreases |bytes|
  {
    if bytes == [] then m
    else
      var n := |bytes| - 1;
      SetByteAt(Copied(m, a, bytes[..n]), a + n, bytes[n])
  }

  lemma {:induction false} CopiedBytes(m: seq<u64>, a: nat, bytes: seq<byte>, c: nat)
    requires a + |bytes| <= 8 * |m|
    ensures ByteAt(Copied(m, a, bytes), c) == if a <= c < a + |bytes| then bytes[c - a] else ByteAt(m, c)
    decreases |bytes|
  {
    hide ByteAt, SetByteAt;
    if bytes != [] {
      var n := |bytes| - 1;
      CopiedBytes(m, a, bytes[..n], c);
      ByteAfterStore(Copied(m, a, bytes[..n]), a + n, bytes[n], c);
    }
  }

  /** Words that the copy does not reach are not written. */
  lemma {:induction false} CopiedWords(m: seq<u64>, a: nat, bytes: seq<byte>, k: nat)
    requires k < |m| && (8 * k + 8 <= a || a + |bytes| <= 8 * k)
    ensures Copied(m, a, bytes)[k] == m[k]
    decreases |bytes|
  {
    hide SetByte;
    if bytes != [] {
      CopiedWords(m, a, bytes[..|bytes| - 1], k);
    }
  }
}

/** kernel/src/include/paging.h */
module Paging {
  import opened Words
  import opened Arithmetic

  /** Pages of the 48-bit address space. */
  const PAGES: nat := 0x10_0000_0000
  const ADDR_LIMIT: nat := 0x4000_0000_0000_0000

  function P1(addr: u64): (i: nat)
    ensures i < 512
  {
    addr / 0x1000 % 512
  }

  function P2(addr: u64): (i: nat)
    ensures i < 512
  {
    addr / 0x20_0000 % 512
  }

  function P3(addr: u64): (i: nat)
    ensures i < 512
  {
    addr / 0x4000_0000 % 512
  }

  function P4(addr: u64): (i: nat)
    ensures i < 512
  {
    addr / 0x80_0000_0000 % 512
  }

  /** The page an address falls in, as the hardware walk sees it: bits 12 to 47. */
  function Page(addr: u64): (v: nat)
    ensures v < PAGES
  {
    addr / 0x1000 % PAGES
  }

  /** Index that a walk for page v uses in the table of this level. */
  function Index(v: nat, level: nat): (i: nat)
    ensures i < 512
  {
    if level == 1 then v % 512
    else if level == 2 then v / 512 % 512
    else if level == 3 then v / 0x4_0000 % 512
    else v / 0x800_0000 % 512
  }

  /** The part of v consumed before the table of this level is reached. */
  function Prefix(v: nat, level: nat): nat {
    if level == 1 then v / 512
    else if level == 2 then v / 0x4_0000
    else if level == 3 then v / 0x800_0000
    else v / PAGES
  }

  lemma PrefixSplits(v: nat, level: nat)
    requires 2 <= level <= 4 && v < PAGES
    ensures Prefix(v, level - 1) == 512 * Prefix(v, level) + Index(v, level)
  {
  }

  lemma IndicesOfAddress(addr: u64)
    ensures P1(addr) == Index(Page(addr), 1) && P2(addr) == Index(Page(addr), 2)
    ensures P3(addr) == Index(Page(addr), 3) && P4(addr) == Index(Page(addr), 4)
  {
    var x0, x1 := addr / 0x1000, addr / 0x1000 / 512;
    var x2 := x1 / 512;
    var x3 := x2 / 512;
    var top := x3 / 512;
    DivByParts(addr, 0x20_0000, x1, 0x1000 * (x0 % 512) + addr % 0x1000);
    DivByParts(addr, 0x4000_0000, x2, 0x20_0000 * (x1 % 512) + addr % 0x20_0000);
    DivByParts(addr, 0x80_0000_0000, x3, 0x4000_0000 * (x2 % 512) + addr % 0x4000_0000);
    var v := 512 * (512 * (512 * (x3 % 512) + x2 % 512) + x1 % 512) + x0 % 512;
    DivByParts(x0, PAGES, top, v);
    IndicesOfParts(x3 % 512, x2 % 512, x1 % 512, x0 % 512);
  }

  lemma IndicesOfParts(a: nat, b: nat, c: nat, d: nat)
    requires a < 512 && b < 512 && c < 512 && d < 512
    ensures var v := 512 * (512 * (512 * a + b) + c) + d;
            Index(v, 4) == a && Index(v, 3) == b && Index(v, 2) == c && Index(v, 1) == d
  {
    var v := 512 * (512 * (512 * a + b) + c) + d;
    DivByParts(v, 512, 512 * (512 * a + b) + c, d);
    DivByParts(v, 0x4_0000, 512 * a + b, 512 * c + d);
    DivByParts(v, 0x800_0000, a, 512 * (512 * b + c) + d);
  }

  /** The four indices name a page and nothing else does: equal indices, equal pages. */
  lemma IndicesAreInjective(a: u64, b: u64)
    ensures Page(a) == Page(b) <==> P4(a) == P4(b) && P3(a) == P3(b) && P2(a) == P2(b) && P1(a) == P1(b)
  {
    var v, w := Page(a), Page(b);
    IndicesOfAddress(a);
    IndicesOfAddress(b);
    PageFromIndices(v);
    PageFromIndices(w);
  }

  /** The low 48 bits of an address are its four indices, 9 bits each, and its offset in the page. */
  lemma AddressFromIndices(addr: u64)
    ensures addr % 0x1_0000_0000_0000 ==
            0x80_0000_0000 * P4(addr) + 0x4000_0000 * P3(addr) + 0x20_0000 * P2(addr) + 0x1000 * P1(addr)
            + addr % 0x1000
  {
    hide P1, P2, P3, P4, Index, Page;
    IndicesOfAddress(addr);
    PageFromIndices(Page(addr));
    PageAndOffset(addr);
  }

  lemma PageAndOffset(addr: u64)
    ensures addr % 0x1_0000_0000_0000 == 4096 * Page(addr) + addr % 4096
  {
    DivByParts(addr, 0x1_0000_0000_0000, addr / 4096 / PAGES, 4096 * (addr / 4096 % PAGES) + addr % 4096);
  }

  lemma PageFromIndices(v: nat)
    requires v < PAGES
    ensures v == 512 * (512 * (512 * Index(v, 4) + Index(v, 3)) + Index(v, 2)) + Index(v, 1)
  {
    PrefixSplits(v, 4);
    PrefixSplits(v, 3);
    PrefixSplits(v, 2);
  }

  /** PTE(phys, flags) for flags below bit 12: the address bits 12 to 61, the flags and the present bit. */
  function Pte(phys: u64, flags: nat): u64
    requires flags < 4096
  {
    phys % ADDR_LIMIT - phys % 4096 + flags + (1 - flags % 2)
  }

  /** Frame number in an entry, that is (entry & PAGE_ADDR_MASK) / PAGE_SIZE. */
  function FrameOf(e: u64): nat {
    e % ADDR_LIMIT / 4096
  }

  /** An entry's low 12 bits are the flags with the present bit, and its bits 12 to 61 those of the address. */
  lemma PteFields(phys: u64, flags: nat)
    requires flags < 4096
    ensures Pte(phys, flags) % 4096 == (if flags % 2 == 1 then flags else flags + 1)
    ensures Pte(phys, flags) / 4096 == phys / 4096 % 0x4_0000_0000_0000
    ensures FrameOf(Pte(phys, flags)) == phys / 4096 % 0x4_0000_0000_0000
  {
    DivByParts(phys, 0x4000_0000_0000_0000, phys / 4096 / 0x4_0000_0000_0000,
               4096 * (phys / 4096 % 0x4_0000_0000_0000) + phys % 4096);
  }

  /** The frame in any entry is its bits 12 to 61. */
  lemma FrameIsBits(e: u64)
    ensures FrameOf(e) == e / 4096 % 0x4_0000_0000_0000
  {
    DivByParts(e, 0x4000_0000_0000_0000, e / 4096 / 0x4_0000_0000_0000,
               4096 * (e / 4096 % 0x4_0000_0000_0000) + e % 4096);
  }

  const FRAME_LIMIT: nat := 0x4_0000_0000_0000

  lemma FrameOfPte(f: nat, flags: nat)
    requires f < FRAME_LIMIT && flags < 4096
    ensures FrameOf(Pte(4096 * f, flags)) == f && Pte(4096 * f, flags) != 0
  {
  }

  const PAGE_ADDR_MASK: bv64 := 0x3FFF_FFFF_FFFF_F000

  /** The macro itself, on machine words. */
  function PteBits(phys: bv64, flags: bv64): bv64 {
    (phys & PAGE_ADDR_MASK) | (flags | 1)
  }

  /** An entry gives its address back exactly when the flags set no address bit the frame lacks. */
  lemma AddressSurvivesFlags(phys: bv64, flags: bv64)
    ensures PteBits(phys, flags) & PAGE_ADDR_MASK == phys & PAGE_ADDR_MASK
       <==> flags & PAGE_ADDR_MASK & !phys == 0
  {
  }

  lemma OrIsSum(a: bv64, b: bv64)
    requires a & b == 0
    ensures a | b == a + b
  {
  }

  /**
   * For flags below bit 12 nothing carries between address, flags and present bit: the macro is
   * the sum of its three fields, and each field what is left of a word when the lower bits are
   * taken off. Pte writes that sum for integers, one term for each, as a reader can compare.
   */
  lemma PteBitsAreASum(phys: bv64, flags: bv64)
    requires flags < 4096
    ensures PteBits(phys, flags) == (phys & PAGE_ADDR_MASK) + (flags | 1)
    ensures flags | 1 == flags + (if flags & 1 == 0 then 1 else 0)
    ensures phys & 0x3FFF_FFFF_FFFF_FFFF == (phys & PAGE_ADDR_MASK) + (phys & 0xFFF)
  {
    hide PteBits;
    FieldsJoin(phys, flags);
    PresentBitJoins(flags);
    AddressJoins(phys);
  }

  lemma FieldsJoin(phys: bv64, flags: bv64)
    requires flags < 4096
    ensures PteBits(phys, flags) == (phys & PAGE_ADDR_MASK) + (flags | 1)
  {
    FieldsApart(phys, flags);
    OrIsSum(phys & PAGE_ADDR_MASK, flags | 1);
  }

  lemma PresentBitJoins(flags: bv64)
    ensures flags | 1 == flags + (if flags & 1 == 0 then 1 else 0)
  {
    if flags & 1 == 0 { OrIsSum(flags, 1); }
  }

  lemma AddressJoins(phys: bv64)
    ensures phys & 0x3FFF_FFFF_FFFF_FFFF == (phys & PAGE_ADDR_MASK) + (phys & 0xFFF)
  {
    AddressParts(phys);
    OrIsSum(phys & PAGE_ADDR_MASK, phys & 0xFFF);
  }

  lemma FieldsApart(phys: bv64, flags: bv64)
    requires flags < 4096
    ensures (phys & PAGE_ADDR_MASK) & (flags | 1) == 0
  {
  }

  lemma AddressParts(phys: bv64)
    ensures (phys & PAGE_ADDR_MASK) & (phys & 0xFFF) == 0
    ensures phys & 0x3FFF_FFFF_FFFF_FFFF == (phys & PAGE_ADDR_MASK) | (phys & 0xFFF)
  {
  }

  predicate Survives(phys: bv64, flags: bv64) {
    PteBits(phys, flags) & PAGE_ADDR_MASK == phys & PAGE_ADDR_MASK
  }

  /**
   * The flags argument is an int, sign extended to 64 bits. It is safe for tables and pages at every
   * address exactly when it is below 4096, which is what the other modules ask of it.
   */
  lemma SafeFlagsIff(flags: bv64)
    requires flags < 0x8000_0000 || flags >= 0xFFFF_FFFF_8000_0000
    ensures (forall phys: bv64 :: Survives(phys, flags)) <==> flags < 4096
  {
    hide Survives, PteBits;
    if flags < 4096 {
      forall phys: bv64 ensures Survives(phys, flags) {
        SmallFlags(phys, flags);
      }
    } else {
      WideFlags(flags);
    }
  }

  lemma SmallFlags(phys: bv64, flags: bv64)
    requires flags < 4096
    ensures Survives(phys, flags)
  {
    AddressSurvivesFlags(phys, flags);
    assert flags & PAGE_ADDR_MASK == 0;
  }

  lemma WideFlags(flags: bv64)
    requires 4096 <= flags < 0x8000_0000 || flags >= 0xFFFF_FFFF_8000_0000
    ensures !Survives(0, flags)
  {
    AddressSurvivesFlags(0, flags);
    assert flags & PAGE_ADDR_MASK != 0;
  }
}
