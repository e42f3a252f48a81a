/** kernel/src/util/datastructures/bitmap.c: a packed set of bits held in 64-bit words. */
module Bits {

  /** BIT(pos), for a position already reduced modulo 64: one shifted left k times. */
  function Bit(k: nat): bv64
    requires k < 64
  {
    if k == 0 then 1 else Twice(Bit(k - 1))
  }

  function Twice(b: bv64): bv64 {
    b << 1
  }

  function And(a: bv64, b: bv64): bv64 {
    a & b
  }

  predicate TestBit(w: bv64, k: nat)
    requires k < 64
  {
    And(w, Bit(k)) != 0
  }

  function Put(w: bv64, k: nat, value: bool): bv64
    requires k < 64
  {
    PutMask(w, Bit(k), value)
  }

  function PutMask(w: bv64, b: bv64, value: bool): bv64 {
    if value then w | b else w & !b
  }

  lemma TwiceFacts(a: bv64, b: bv64)
    ensures And(1, Twice(b)) == 0 && And(Twice(b), 1) == 0
    ensures And(a, b) == 0 ==> And(Twice(a), Twice(b)) == 0
    ensures a == 0 ==> Twice(a) == 0
  {
  }

  function ByteUp(b: bv64): bv64 {
    b << 8
  }

  lemma TwiceEightTimes(b: bv64)
    ensures Twice(Twice(Twice(Twice(Twice(Twice(Twice(Twice(b)))))))) == ByteUp(b)
  {
  }

  lemma NextBit(k: nat)
    requires k + 1 < 64
    ensures Bit(k + 1) == Twice(Bit(k))
  {
    hide Twice;
  }

  lemma NextByte(k: nat)
    requires k + 8 < 64
    ensures Bit(k + 8) == ByteUp(Bit(k))
  {
    hide *;
    NextBit(k);
    NextBit(k + 1);
    NextBit(k + 2);
    NextBit(k + 3);
    NextBit(k + 4);
    NextBit(k + 5);
    NextBit(k + 6);
    NextBit(k + 7);
    TwiceEightTimes(Bit(k));
  }

  lemma TopBit()
    ensures Bit(63) == 0x8000_0000_0000_0000
  {
    assert Bit(2) == 4;
    assert Bit(4) == 16;
    assert Bit(6) == 64;
    assert Bit(7) == 0x80;
    NextByte(7);
    assert Bit(15) == 0x8000;
    NextByte(15);
    assert Bit(23) == 0x80_0000;
    NextByte(23);
    assert Bit(31) == 0x8000_0000;
    NextByte(31);
    NextByte(39);
    NextByte(47);
    NextByte(55);
  }

  /** Were bit k zero, the top bit would be too. */
  lemma {:induction false} BitIsNonzero(k: nat)
    requires k < 64
    ensures Bit(k) != 0
    decreases 64 - k
  {
    if k == 63 {
      TopBit();
    } else {
      hide Twice;
      BitIsNonzero(k + 1);
      TwiceFacts(Bit(k), 0);
    }
  }

  lemma {:induction false} BitsAreDistinct(i: nat, j: nat)
    requires i < 64 && j < 64 && i != j
    ensures And(Bit(i), Bit(j)) == 0
  {
    hide And, Twice;
    if i == 0 {
      TwiceFacts(0, Bit(j - 1));
    } else if j == 0 {
      TwiceFacts(0, Bit(i - 1));
    } else {
      BitsAreDistinct(i - 1, j - 1);
      TwiceFacts(Bit(i - 1), Bit(j - 1));
    }
  }

  lemma MaskThenAnd(w: bv64, b: bv64, c: bv64, value: bool)
    requires And(b, c) == 0
    ensures And(PutMask(w, b, value), c) == And(w, c)
    ensures And(PutMask(w, b, value), b) == if value then b else 0
  {
  }

  /** Setting or clearing bit k changes what a test of bit k says, and nothing else. */
  lemma PutThenTest(w: bv64, k: nat, j: nat, value: bool)
    requires k < 64 && j < 64
    ensures TestBit(Put(w, k, value), j) == if j == k then value else TestBit(w, j)
  {
    hide Bit, And, PutMask;
    if j == k {
      BitIsNonzero(k);
      ZeroMask(Bit(k));
      MaskThenAnd(w, Bit(k), 0, value);
    } else {
      BitsAreDistinct(k, j);
      MaskThenAnd(w, Bit(k), Bit(j), value);
    }
  }

  lemma ZeroMask(b: bv64)
    ensures And(b, 0) == 0 && And(0, b) == 0
    ensures And(0xffff_ffff_ffff_ffff, b) == b
  {
  }

  lemma UniformWords(k: nat)
    requires k < 64
    ensures TestBit(0xffff_ffff_ffff_ffff, k) && !TestBit(0, k)
  {
    hide Bit, And;
    BitIsNonzero(k);
    ZeroMask(Bit(k));
  }
}

/** What the bitmap operations mean, on the plain sequence of bits. */
module BitSeq {

  predicate FreeRun(s: seq<bool>, p: nat, n: nat)
  {
    p + n <= |s| && forall i :: p <= i < p + n ==> !s[i]
  }

  /** The lowest position at or above p that starts n clear bits. */
  function FirstFitFrom(s: seq<bool>, n: nat, p: nat): (r: int)
    ensures r >= 0 ==> r + n <= |s|
    decreases |s| - p
  {
    if p + n > |s| then -1
    else if FreeRun(s, p, n) then p
    else FirstFitFrom(s, n, p + 1)
  }

  function FirstFit(s: seq<bool>, n: nat): int
  {
    FirstFitFrom(s, n, 0)
  }

  lemma {:induction false} FirstFitFromIsLeast(s: seq<bool>, n: nat, p: nat)
    ensures var r := FirstFitFrom(s, n, p);
            if r < 0 then forall q: nat | p <= q :: !FreeRun(s, q, n)
            else p <= r && FreeRun(s, r, n) && forall q: nat | p <= q < r :: !FreeRun(s, q, n)
    decreases |s| - p
  {
    if p + n <= |s| && !FreeRun(s, p, n) {
      FirstFitFromIsLeast(s, n, p + 1);
    }
  }

  function Filled(s: seq<bool>, from: nat, to: nat, value: bool): (r: seq<bool>)
    ensures |r| == |s|
  {
    seq(|s|, i requires 0 <= i < |s| => if from <= i < to then value else s[i])
  }

  /** Number of clear bits. */
  function FreeCount(s: seq<bool>): nat
  {
    if s == [] then 0 else FreeCount(s[..|s| - 1]) + if s[|s| - 1] then 0 else 1
  }

  lemma {:induction false} NothingFree(s: seq<bool>)
    requires forall p :: 0 <= p < |s| ==> s[p]
    ensures FreeCount(s) == 0
  {
    if s != [] {
      NothingFree(s[..|s| - 1]);
    }
  }

  lemma {:induction false} FreeCountFlip(s: seq<bool>, p: nat)
    requires p < |s| && !s[p]
    ensures FreeCount(s[p := true]) == FreeCount(s) - 1
  {
    var t := s[p := true];
    if p == |s| - 1 {
      assert t[..|s| - 1] == s[..|s| - 1];
    } else {
      FreeCountFlip(s[..|s| - 1], p);
      assert t[..|s| - 1] == s[..|s| - 1][p := true];
    }
  }

  /** Taking a clear run out of the set removes exactly its length from the count ... */
  lemma {:induction false} FreeCountOfFill(s: seq<bool>, p: nat, n: nat)
    requires FreeRun(s, p, n)
    ensures FreeCount(Filled(s, p, p + n, true)) == FreeCount(s) - n
  {
    if n == 0 {
      assert Filled(s, p, p, true) == s;
    } else {
      FreeCountOfFill(s, p, n - 1);
      var t := Filled(s, p, p + n - 1, true);
      FreeCountFlip(t, p + n - 1);
      assert t[p + n - 1 := true] == Filled(s, p, p + n, true);
    }
  }

  /** ... and giving a wholly set run back adds it again. */
  lemma FreeCountOfClear(s: seq<bool>, p: nat, n: nat)
    requires p + n <= |s| && forall i :: p <= i < p + n ==> s[i]
    ensures FreeCount(Filled(s, p, p + n, false)) == FreeCount(s) + n
  {
    var t := Filled(s, p, p + n, false);
    FreeCountOfFill(t, p, n);
    assert Filled(t, p, p + n, true) == s;
  }
}

module Bitmaps {
  import opened Bits
  import opened BitSeq

  function CalculateSize(bits: nat): (r: nat)
    ensures bits <= 8 * r < bits + 64 && r % 8 == 0
  {
    (bits + 63) / 64 * 8
  }

  class Bitmap {
    var bits: nat
    var dataSize: nat
    var data: array<bv64>

    ghost predicate Valid()
      reads this
    {
      bits > 0 && dataSize == CalculateSize(bits) && data.Length * 8 == dataSize
    }

    /** The set as a sequence of booleans, one for each position. */
    ghost function Contents(): (s: seq<bool>)
      requires Valid()
      reads this, data
      ensures |s| == bits
    {
      seq(bits, p requires 0 <= p < bits reads this, data =>
        data.Length * 8 == CalculateSize(bits) && TestBit(data[p / 64], p % 64))
    }

    constructor (bits: nat, data: array<bv64>)
      requires bits > 0 && data.Length * 8 == CalculateSize(bits)
      modifies data
      ensures Valid() && this.bits == bits && this.data == data
      ensures Contents() == seq(bits, _ => false)
    {
      this.bits := bits;
      this.dataSize := CalculateSize(bits);
      this.data := data;
      new;
      forall i | 0 <= i < data.Length { data[i] := 0; }
      forall k | 0 <= k < 64 ensures !TestBit(0, k) { UniformWords(k); }
    }

    method Set(pos: nat, value: bool)
      requires Valid() && pos < bits
      modifies data
      ensures Valid() && Contents() == old(Contents())[pos := value]
    {
      hide TestBit, Put;
      data[pos / 64] := Put(data[pos / 64], pos % 64, value);
      forall p | 0 <= p < bits ensures Contents()[p] == old(Contents())[pos := value][p] {
        PutThenTest(old(data[pos / 64]), pos % 64, p % 64, value);
      }
    }

    method Check(pos: nat) returns (r: bool)
      requires Valid() && pos < bits
      ensures r == Contents()[pos]
    {
      r := TestBit(data[pos / 64], pos % 64);
    }

    method FillAll(value: bool)
      requires Valid()
      modifies data
      ensures Valid() && Contents() == seq(bits, _ => value)
    {
      forall i | 0 <= i < data.Length {
        data[i] := if value then 0xffff_ffff_ffff_ffff else 0;
      }
      forall k | 0 <= k < 64
        ensures TestBit(0xffff_ffff_ffff_ffff, k) && !TestBit(0, k)
      {
        UniformWords(k);
      }
    }

    /** The two bounds are the source's assertions; from >= to leaves the set alone. */
    method Fill(from: nat, to: nat, value: bool)
      requires Valid() && from < bits && to <= bits
      modifies data
      ensures Valid() && Contents() == Filled(old(Contents()), from, to, value)
    {
      hide TestBit;
      var pos := from;
      while pos < to
        invariant from <= pos && (pos <= to || pos == from)
        invariant Valid() && Contents() == Filled(old(Contents()), from, pos, value)
      {
        Set(pos, value);
        pos := pos + 1;
      }
    }

    /** First fit; 0 stands both for position 0 and for "there is no such run". */
    method Find(length: nat) returns (r: nat)
      requires Valid() && length > 0
      ensures var p := FirstFit(Contents(), length); r == if p < 0 then 0 else p
    {
      hide TestBit;
      var start, current := 0, 0;
      ghost var s := Contents();
      var pos := 0;
      while pos < bits
        invariant 0 <= start <= pos <= bits
        invariant current == pos - start < length
        invariant forall i :: start <= i < pos ==> !s[i]
        invariant FirstFit(s, length) == FirstFitFrom(s, length, start)
      {
        var isSet := Check(pos);
        if !isSet {
          current := current + 1;
          if current == length {
            return start;
          }
        } else {
          SkipPast(s, length, start, pos);
          start := pos + 1;
          current := 0;
        }
        pos := pos + 1;
      }
      return 0;
    }
  }

  /** A set bit at `pos` rules out every run that begins in start..pos and would cover it. */
  lemma {:induction false} SkipPast(s: seq<bool>, n: nat, start: nat, pos: nat)
    requires start <= pos < |s| && s[pos] && pos < start + n
    ensures FirstFitFrom(s, n, start) == FirstFitFrom(s, n, pos + 1)
    decreases pos - start
  {
    if start < pos {
      SkipPast(s, n, start + 1, pos);
    }
  }
}
