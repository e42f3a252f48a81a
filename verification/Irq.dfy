/** kernel/src/driver/irq.c: interrupt vectors, handed out by a bitmap that does have a position 0. */
module Irq {
  import opened BitSeq
  import opened Bitmaps

  /** What bitmapFind answers to irqAllocVector: 0 for the first position and for none at all. */
  function Found(bits: seq<bool>): (v: nat)
    ensures |bits| > 0 ==> v < |bits|
  {
    var p := FirstFit(bits, 1);
    if p < 0 then 0 else p
  }

  /** irqAllocVector, on a bitmap of at least one bit. */
  method AllocVector(bitmap: Bitmap) returns (vector: int)
    requires bitmap.Valid() && bitmap.bits > 0
    modifies bitmap.data
    ensures bitmap.Valid() && bitmap.bits == old(bitmap.bits)
    ensures var v := Found(old(bitmap.Contents()));
            v < bitmap.bits && vector == v + 32 && bitmap.Contents() == old(bitmap.Contents())[v := true]
  {
    FirstFitFromIsLeast(bitmap.Contents(), 1, 0);
    var found := bitmap.Find(1);
    bitmap.Set(found, true);
    vector := found + 32;
  }

  /** The positions that n calls get. */
  function Vectors(bits: seq<bool>, n: nat): (vs: seq<nat>)
    requires |bits| > 0
    ensures |vs| == n
    decreases n
  {
    if n == 0 then [] else [Found(bits)] + Vectors(bits[Found(bits) := true], n - 1)
  }

  /** One call gets a position nobody has exactly when one is left; else it gets position 0 again. */
  lemma FreshIffLeft(bits: seq<bool>)
    requires |bits| > 0
    ensures !bits[Found(bits)] <==> FreeCount(bits) > 0
    ensures FreeCount(bits) == 0 ==> Found(bits) == 0 && bits[0 := true] == bits
    ensures FreeCount(bits) > 0 ==> FreeCount(bits[Found(bits) := true]) == FreeCount(bits) - 1
  {
    hide FreeCount;
    FirstFitFromIsLeast(bits, 1, 0);
    var v := Found(bits);
    if FirstFit(bits, 1) >= 0 {
      assert !bits[v];
      FreeCountFlip(bits, v);
    } else {
      forall p | 0 <= p < |bits| ensures bits[p] {
        assert !FreeRun(bits, p, 1);
      }
      NothingFree(bits);
      assert bits[0 := true] == bits;
    }
  }

  /**
   * Of n calls the first ones, as many as positions were free, get different positions that nobody
   * had; every later one gets position 0, which is then in use.
   */
  lemma {:induction false} VectorsAreFreshWhileTheyLast(bits: seq<bool>, n: nat, i: nat)
    requires |bits| > 0 && i < n
    ensures Vectors(bits, n)[i] < |bits|
    ensures i < FreeCount(bits) ==>
              && !bits[Vectors(bits, n)[i]]
              && forall j :: 0 <= j < n && j < FreeCount(bits) && j != i ==> Vectors(bits, n)[j] != Vectors(bits, n)[i]
    ensures i >= FreeCount(bits) ==> Vectors(bits, n)[i] == 0
    decreases n
  {
    hide FreeCount;
    FreshIffLeft(bits);
    var v := Found(bits);
    var rest := bits[v := true];
    var vs := Vectors(bits, n);
    forall j | 0 < j < n
      ensures vs[j] < |bits|
      ensures j < FreeCount(bits) ==> !bits[vs[j]] && vs[j] != v
      ensures j >= FreeCount(bits) ==> vs[j] == 0
      ensures forall l :: 0 < l < n && l < FreeCount(bits) && j < FreeCount(bits) && l != j ==> vs[l] != vs[j]
    {
      VectorsAreFreshWhileTheyLast(rest, n - 1, j - 1);
      forall l | 0 < l < n && l < FreeCount(bits) && j < FreeCount(bits) && l != j ensures vs[l] != vs[j] {
        assert vs[l] == Vectors(rest, n - 1)[l - 1];
      }
    }
  }

  /** So n calls all get different, unused positions exactly when that many are free. */
  lemma VectorsAreFreshIff(bits: seq<bool>, n: nat)
    requires |bits| > 0
    ensures (&& (forall i :: 0 <= i < n ==> Vectors(bits, n)[i] < |bits| && !bits[Vectors(bits, n)[i]])
             && (forall i, j :: 0 <= i < j < n ==> Vectors(bits, n)[i] != Vectors(bits, n)[j]))
            <==> n <= FreeCount(bits)
  {
    hide FreeCount, Vectors;
    forall i | 0 <= i < n ensures Vectors(bits, n)[i] < |bits| {
      VectorsAreFreshWhileTheyLast(bits, n, i);
    }
    if n <= FreeCount(bits) {
      forall i | 0 <= i < n
        ensures !bits[Vectors(bits, n)[i]] && forall j :: i < j < n ==> Vectors(bits, n)[i] != Vectors(bits, n)[j]
      {
        VectorsAreFreshWhileTheyLast(bits, n, i);
      }
    } else {
      LastIsNotFresh(bits, n);
    }
  }

  /** With too few positions, a call gets 0 although it is in use: from the start or by a call before. */
  lemma LastIsNotFresh(bits: seq<bool>, n: nat)
    requires |bits| > 0 && n > FreeCount(bits)
    ensures Vectors(bits, n)[n - 1] == 0
    ensures bits[0] || exists i :: 0 <= i < n - 1 && Vectors(bits, n)[i] == 0
  {
    hide FreeCount;
    VectorsAreFreshWhileTheyLast(bits, n, n - 1);
    if !bits[0] {
      FirstIsZero(bits, n);
      SomeFree(bits);
    }
  }

  lemma SomeFree(bits: seq<bool>)
    requires |bits| > 0 && !bits[0]
    ensures FreeCount(bits) > 0
  {
    FreeCountFlip(bits, 0);
  }

  const HANDLERS: nat := 224

  /**
   * After irqInit, with only the last vector in use, 223 calls get vectors of their own and the next
   * gets vector 32 again.
   */
  lemma AfterInit(n: nat)
    requires n > 0
    ensures var bits := seq(HANDLERS, _ => false)[HANDLERS - 1 := true];
            FreeCount(bits) == 223 && (n > 223 ==> Vectors(bits, n)[n - 1] == 0 && Vectors(bits, n)[0] == 0)
  {
    hide FreeCount, Vectors;
    var all := seq(HANDLERS, _ => false);
    AllFree(all);
    FreeCountFlip(all, HANDLERS - 1);
    var bits := all[HANDLERS - 1 := true];
    if n > 223 {
      VectorsAreFreshWhileTheyLast(bits, n, n - 1);
      FirstIsZero(bits, n);
    }
  }

  lemma FirstIsZero(bits: seq<bool>, n: nat)
    requires |bits| > 0 && !bits[0] && n > 0
    ensures Vectors(bits, n)[0] == 0
  {
    FirstFitFromIsLeast(bits, 1, 0);
    assert FreeRun(bits, 0, 1);
  }

  lemma {:induction false} AllFree(bits: seq<bool>)
    requires forall p :: 0 <= p < |bits| ==> !bits[p]
    ensures FreeCount(bits) == |bits|
  {
    if bits != [] { AllFree(bits[..|bits| - 1]); }
  }
}
