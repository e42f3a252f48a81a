/**
 * One CPU left alone, in the interleaved machine: bit by bit and lock by lock, every call does
 * what the sequential one does, and is over when it has done so.
 */
module Solo {
  import opened Options
  import opened Sequences
  import opened BitSeq
  import opened PageOwnership
  import opened SlabModel
  import opened SlabRuns
  import opened Interleavings
  import Bitmaps

  /** n steps of CPU i, with nobody else moving. */
  ghost function Alone(m: Machine, shapes: seq<Shape>, i: nat, c: Call, n: nat): (r: Option<Machine>)
    requires Sized(m, shapes) && i < |m.pcs|
    ensures r.Some? ==> Sized(r.value, shapes) && |r.value.pcs| == |m.pcs|
    decreases n
  {
    if n == 0 then Some(m)
    else match Interleavings.Step(m, shapes, i, c)
      case None => None
      case Some(m1) => Alone(m1, shapes, i, c, n - 1)
  }

  lemma {:induction false} AloneInTurn(m: Machine, shapes: seq<Shape>, i: nat, c: Call, n: nat, k: nat)
    requires Sized(m, shapes) && i < |m.pcs|
    ensures Alone(m, shapes, i, c, n + k) ==
            match Alone(m, shapes, i, c, n) case None => None case Some(m1) => Alone(m1, shapes, i, c, k)
    decreases n
  {
    hide Interleavings.Step;
    if n > 0 {
      match Interleavings.Step(m, shapes, i, c) {
        case None =>
        case Some(m1) => AloneInTurn(m1, shapes, i, c, n - 1, k);
      }
    }
  }

  lemma FirstStep(m: Machine, shapes: seq<Shape>, i: nat, c: Call, m1: Machine, n: nat)
    requires Sized(m, shapes) && i < |m.pcs| && Interleavings.Step(m, shapes, i, c) == Some(m1)
    ensures Alone(m, shapes, i, c, n + 1) == Alone(m1, shapes, i, c, n)
  {
  }

  lemma LastStep(m: Machine, shapes: seq<Shape>, i: nat, c: Call)
    requires Sized(m, shapes) && i < |m.pcs| && Interleavings.Step(m, shapes, i, c) == None
    ensures Alone(m, shapes, i, c, 1) == None
  {
  }

  /** The search, one bit a step, ends at the first fit, or with a panic. */
  lemma {:induction false} ScanAlone(m: Machine, shapes: seq<Shape>, i: nat, c: Call, pages: nat, owner: Option<nat>,
      pos: nat, start: nat)
    returns (n: nat)
    requires Sized(m, shapes) && i < |m.pcs| && m.pcs[i] == Scan(pages, owner, pos, start)
    requires pages > 0 && |m.bits| > 0 && m.bits[0] && start <= pos <= |m.bits| && pos - start < pages
    requires forall k :: start <= k < pos ==> !m.bits[k]
    ensures var p := FirstFitFrom(m.bits, pages, start);
            Alone(m, shapes, i, c, n) == if p < 0 then None else Some(Interleavings.At(m, i, Fill(pages, owner, p, p)))
    decreases |m.bits| - pos
  {
    FirstFitFromIsLeast(m.bits, pages, start);
    FirstHere(m.bits, pages, start);
    hide FirstFitFrom, Alone;
    if pos >= |m.bits| {
      n := 1;
      LastStep(m, shapes, i, c);
    } else if m.bits[pos] || pos + 1 - start != pages {
      var next := if m.bits[pos] then pos + 1 else start;
      if m.bits[pos] { Bitmaps.SkipPast(m.bits, pages, start, pos); }
      var m1 := Interleavings.At(m, i, Scan(pages, owner, pos + 1, next));
      var k := ScanAlone(m1, shapes, i, c, pages, owner, pos + 1, next);
      n := k + 1;
      FirstStep(m, shapes, i, c, m1, k);
      var p := FirstFitFrom(m.bits, pages, next);
      if p >= 0 { AtTwice(m, i, Scan(pages, owner, pos + 1, next), Fill(pages, owner, p, p)); }
    } else {
      assert FreeRun(m.bits, start, pages);
      n := 1;
      FirstStep(m, shapes, i, c, Interleavings.At(m, i, Fill(pages, owner, start, start)), 0);
      NoSteps(Interleavings.At(m, i, Fill(pages, owner, start, start)), shapes, i, c);
    }
  }

  lemma AtTwice(m: Machine, i: nat, a: Pc, b: Pc)
    requires i < |m.pcs|
    ensures Interleavings.At(Interleavings.At(m, i, a), i, b) == Interleavings.At(m, i, b)
  {
  }

  lemma NoSteps(m: Machine, shapes: seq<Shape>, i: nat, c: Call)
    requires Sized(m, shapes) && i < |m.pcs|
    ensures Alone(m, shapes, i, c, 0) == Some(m)
  {
  }

  lemma FirstHere(s: seq<bool>, n: nat, p: nat)
    ensures p + n > |s| ==> FirstFitFrom(s, n, p) < 0
    ensures FreeRun(s, p, n) ==> FirstFitFrom(s, n, p) == p
  {
  }

  /** The run found is marked, one bit a step, up to the drop of the lock. */
  lemma {:induction false} FillAlone(m: Machine, shapes: seq<Shape>, i: nat, c: Call, pages: nat, owner: Option<nat>,
      start: nat, pos: nat)
    returns (n: nat)
    requires Sized(m, shapes) && i < |m.pcs| && m.pcs[i] == Fill(pages, owner, start, pos)
    requires start <= pos <= start + pages <= |m.bits|
    ensures var bits := Filled(m.bits, pos, start + pages, true);
            Alone(m, shapes, i, c, n) ==
            Some(CommitAlloc(m.(bits := bits), i, Fill(pages, owner, start, start + pages)))
    decreases start + pages - pos
  {
    hide CommitAlloc, Alone;
    if pos == start + pages {
      n := 1;
      assert Filled(m.bits, pos, start + pages, true) == m.bits;
      FirstStep(m, shapes, i, c, CommitAlloc(m, i, m.pcs[i]), 0);
      NoSteps(CommitAlloc(m, i, m.pcs[i]), shapes, i, c);
    } else {
      var m1 := Interleavings.At(m, i, Fill(pages, owner, start, pos + 1)).(bits := m.bits[pos := true]);
      var k := FillAlone(m1, shapes, i, c, pages, owner, start, pos + 1);
      n := k + 1;
      FirstStep(m, shapes, i, c, m1, k);
      assert Filled(m1.bits, pos + 1, start + pages, true) == Filled(m.bits, pos, start + pages, true);
      var bits := Filled(m.bits, pos, start + pages, true);
      CommitForgets(m1, m.(bits := bits), i, Fill(pages, owner, start, start + pages));
    }
  }

  lemma CommitForgets(m: Machine, m': Machine, i: nat, pc: Pc)
    requires i < |m.pcs| && pc.Fill? && |m'.pcs| == |m.pcs| && m.pcs[i := m'.pcs[i]] == m'.pcs
    requires m.(pcs := m'.pcs, bits := m'.bits) == m'
    ensures CommitAlloc(m.(bits := m'.bits), i, pc) == CommitAlloc(m', i, pc)
  {
    assert m.pcs[i := if pc.owner.Some? then AddSlab(pc.owner.value, pc.start) else Idle] ==
           m'.pcs[i := if pc.owner.Some? then AddSlab(pc.owner.value, pc.start) else Idle];
  }

  /** What a call that found its pages leaves. */
  function Served(m: Machine, i: nat, pages: nat, owner: Option<nat>, p: nat, bits: seq<bool>): Machine
    requires i < |m.pcs|
  {
    m.(bits := bits, done := bits, pmmFlag := false, log := m.log + [PageOwnership.Alloc(pages)],
       owned := m.owned + [Range(p, pages)],
       pcs := m.pcs[i := if owner.Some? then AddSlab(owner.value, p) else Idle])
  }

  lemma MarkAlone(m: Machine, shapes: seq<Shape>, i: nat, c: Call, pages: nat, owner: Option<nat>, p: nat)
    returns (n: nat)
    requires Sized(m, shapes) && i < |m.pcs| && m.pcs[i] == Fill(pages, owner, p, p) && p + pages <= |m.bits|
    ensures Alone(m, shapes, i, c, n) == Some(Served(m, i, pages, owner, p, Filled(m.bits, p, p + pages, true)))
  {
    hide Alone, Filled;
    n := FillAlone(m, shapes, i, c, pages, owner, p, p);
  }

  lemma FirstIsTaken(bits: seq<bool>, pages: nat)
    requires pages > 0 && |bits| > 0 && bits[0]
    ensures var p := FirstFitFrom(bits, pages, 0);
            match TakePages(bits, pages)
            case None => p < 0
            case Some((addr, after)) =>
              addr / 4096 == p && 0 <= p && p + pages <= |bits| && after == Filled(bits, p, p + pages, true)
  {
    FirstFitFromIsLeast(bits, pages, 0);
    hide FirstFitFrom, Filled;
  }

  /** pmmAlloc from the moment it has its lock. */
  lemma SearchAlone(m: Machine, shapes: seq<Shape>, i: nat, c: Call, pages: nat, owner: Option<nat>) returns (n: nat)
    requires Sized(m, shapes) && i < |m.pcs| && m.pcs[i] == Scan(pages, owner, 0, 0)
    requires pages > 0 && |m.bits| > 0 && m.bits[0]
    ensures match TakePages(m.bits, pages)
            case None => Alone(m, shapes, i, c, n) == None
            case Some((addr, bits)) => Alone(m, shapes, i, c, n) == Some(Served(m, i, pages, owner, addr / 4096, bits))
  {
    FirstIsTaken(m.bits, pages);
    hide FirstFitFrom, FirstFit, TakePages, Filled, Alone, Served;
    n := ScanAlone(m, shapes, i, c, pages, owner, 0, 0);
    if TakePages(m.bits, pages).Some? {
      var p := FirstFitFrom(m.bits, pages, 0);
      var m1 := Interleavings.At(m, i, Fill(pages, owner, p, p));
      var b := MarkAlone(m1, shapes, i, c, pages, owner, p);
      AloneInTurn(m, shapes, i, c, n, b);
      n := n + b;
      ServedFrom(m, i, Fill(pages, owner, p, p), pages, owner, p, Filled(m.bits, p, p + pages, true));
    }
  }

  lemma ServedFrom(m: Machine, i: nat, pc: Pc, pages: nat, owner: Option<nat>, p: nat, bits: seq<bool>)
    requires i < |m.pcs|
    ensures Served(Interleavings.At(m, i, pc), i, pages, owner, p, bits) == Served(m, i, pages, owner, p, bits)
  {
  }

  /** pmmAlloc, from the moment it spins on its lock to the drop, for a caller or for a cache. */
  lemma TakeAlone(m: Machine, shapes: seq<Shape>, i: nat, c: Call, pages: nat, owner: Option<nat>) returns (n: nat)
    requires Sized(m, shapes) && i < |m.pcs| && m.pcs[i] == WantPmm(pages, owner) && !m.pmmFlag
    requires pages > 0 && |m.bits| > 0 && m.bits[0]
    ensures match TakePages(m.bits, pages)
            case None => Alone(m, shapes, i, c, n) == None
            case Some((addr, bits)) => Alone(m, shapes, i, c, n) == Some(Served(m, i, pages, owner, addr / 4096, bits))
  {
    hide TakePages, Alone, Served;
    var m1 := Interleavings.At(m, i, Scan(pages, owner, 0, 0)).(pmmFlag := true);
    var k := SearchAlone(m1, shapes, i, c, pages, owner);
    n := k + 1;
    FirstStep(m, shapes, i, c, m1, k);
    if TakePages(m.bits, pages).Some? {
      var (addr, bits) := TakePages(m.bits, pages).value;
      ServedSame(m, m1, i, pages, owner, addr / 4096, bits);
    }
  }

  lemma ServedSame(m: Machine, m2: Machine, i: nat, pages: nat, owner: Option<nat>, p: nat, bits: seq<bool>)
    requires i < |m.pcs| == |m2.pcs| && m2 == m.(pmmFlag := true, pcs := m.pcs[i := m2.pcs[i]])
    ensures Served(m2, i, pages, owner, p, bits) == Served(m, i, pages, owner, p, bits)
  {
  }

  /** pmmAlloc as a whole. */
  lemma PmmAllocAlone(m: Machine, shapes: seq<Shape>, i: nat, pages: nat) returns (n: nat)
    requires Sized(m, shapes) && i < |m.pcs| && m.pcs[i] == Idle && !m.pmmFlag && pages > 0
    requires |m.bits| > 0 && m.bits[0]
    ensures match TakePages(m.bits, pages)
            case None => Alone(m, shapes, i, PmmAlloc(pages), n) == None
            case Some((addr, bits)) =>
              Alone(m, shapes, i, PmmAlloc(pages), n) ==
              Some(m.(bits := bits, done := bits, log := m.log + [PageOwnership.Alloc(pages)],
                      owned := m.owned + [Range(addr / 4096, pages)]))
  {
    hide TakePages, Alone;
    var m1 := Interleavings.At(m, i, WantPmm(pages, None));
    FirstStep(m, shapes, i, PmmAlloc(pages), m1, 0);
    var k := TakeAlone(m1, shapes, i, PmmAlloc(pages), pages, None);
    n := k + 1;
    FirstStep(m, shapes, i, PmmAlloc(pages), m1, k);
    assert m1.pcs[i := Idle] == m.pcs;
  }

  lemma {:induction false} ClearAlone(m: Machine, shapes: seq<Shape>, i: nat, c: Call, r: Range, pos: nat)
    returns (n: nat)
    requires Sized(m, shapes) && i < |m.pcs| && m.pcs[i] == Clear(r, pos) && r in m.owned
    requires r.start <= pos <= r.start + r.pages <= |m.bits|
    ensures var bits := Filled(m.bits, pos, r.start + r.pages, false);
            Alone(m, shapes, i, c, n) ==
            Some(m.(bits := bits, done := bits, pmmFlag := false, owned := DropAt(m.owned, IndexOf(m.owned, r)),
                    log := m.log + [PageOwnership.Free(IndexOf(m.owned, r))], pcs := m.pcs[i := Idle]))
    decreases r.start + r.pages - pos
  {
    hide IndexOf, DropAt;
    var end := r.start + r.pages;
    if pos == end {
      n := 1;
      assert Filled(m.bits, pos, end, false) == m.bits;
      NoSteps(CommitFree(m, i, r), shapes, i, c);
    } else {
      var m1 := Interleavings.At(m, i, Clear(r, pos + 1)).(bits := m.bits[pos := false]);
      var k := ClearAlone(m1, shapes, i, c, r, pos + 1);
      n := k + 1;
      FirstStep(m, shapes, i, c, m1, k);
      assert Filled(m1.bits, pos + 1, end, false) == Filled(m.bits, pos, end, false);
      assert m1.pcs[i := Idle] == m.pcs[i := Idle];
    }
  }

  /** pmmFree as a whole. */
  lemma PmmFreeAlone(m: Machine, shapes: seq<Shape>, i: nat, r: Range) returns (n: nat)
    requires Sized(m, shapes) && i < |m.pcs| && m.pcs[i] == Idle && !m.pmmFlag && MayCall(m, PmmFree(r))
    requires r.start + r.pages <= |m.bits|
    ensures var bits := Filled(m.bits, r.start, r.start + r.pages, false);
            Alone(m, shapes, i, PmmFree(r), n) ==
            Some(m.(bits := bits, done := bits, owned := DropAt(m.owned, IndexOf(m.owned, r)),
                    log := m.log + [PageOwnership.Free(IndexOf(m.owned, r))]))
  {
    hide IndexOf, DropAt, Filled, Alone;
    var m1 := Interleavings.At(m, i, WantFree(r));
    var m2 := Interleavings.At(m1, i, Clear(r, r.start)).(pmmFlag := true);
    var k := ClearAlone(m2, shapes, i, PmmFree(r), r, r.start);
    n := k + 2;
    FirstStep(m1, shapes, i, PmmFree(r), m2, k);
    FirstStep(m, shapes, i, PmmFree(r), m1, k + 1);
    assert m2.pcs[i := Idle] == m.pcs;
  }

  /** slabAlloc from the moment it spins on the cache's lock, when a cell is free. */
  lemma TakeCellAlone(m: Machine, shapes: seq<Shape>, i: nat, c: Call, k: nat)
    requires Sized(m, shapes) && i < |m.pcs| && m.pcs[i] == WantCache(k) && k < |m.caches| && !m.cacheFlags[k]
    requires m.caches[k].HasFree() && m.caches[k].Front() in m.caches[k].chain
    requires m.caches[k].chain[m.caches[k].Front()] != []
    ensures var cache := m.caches[k];
            Alone(m, shapes, i, c, 3) ==
            Some(m.(caches := m.caches[k := Take(cache)], pcs := m.pcs[i := Idle],
                    objects := m.objects + [Object(k, cache.Front(), cache.chain[cache.Front()][0])]))
  {
    hide Take, Alone;
    var cache := m.caches[k];
    var m1 := WithFlag(Interleavings.At(m, i, InCache(k)), k, true);
    var m2 := WithCache(Interleavings.At(m1, i, Taken(k)), k, Take(cache))
                .(objects := m.objects + [Object(k, cache.Front(), cache.chain[cache.Front()][0])]);
    var m3 := WithFlag(Interleavings.At(m2, i, Idle), k, false);
    FirstStep(m, shapes, i, c, m1, 2);
    FirstStep(m1, shapes, i, c, m2, 1);
    FirstStep(m2, shapes, i, c, m3, 0);
    NoSteps(m3, shapes, i, c);
    assert m3.cacheFlags == m.cacheFlags && m3.pcs == m.pcs[i := Idle];
  }

  /** slabAlloc as a whole, with a new slab and a second try when it needs one. */
  lemma SlabAllocAlone(m: Machine, shapes: seq<Shape>, i: nat, k: nat) returns (n: nat)
    requires Sized(m, shapes) && i < |m.pcs| && m.pcs[i] == Idle && k < |m.caches|
    requires !m.pmmFlag && !m.cacheFlags[k] && |m.bits| > 0 && m.bits[0]
    requires SlabRuns.Inv(System(m.bits, m.caches, m.objects), shapes)
    ensures match SlabRuns.Apply(System(m.bits, m.caches, m.objects), shapes, AllocOp(k))
            case None => Alone(m, shapes, i, SlabAlloc(k), n) == None
            case Some(s) =>
              && Alone(m, shapes, i, SlabAlloc(k), n).Some?
              && var m' := Alone(m, shapes, i, SlabAlloc(k), n).value;
              && m'.bits == s.bits && m'.caches == s.caches && m'.objects == s.live
              && m'.pcs == m.pcs && m'.pmmFlag == m.pmmFlag && m'.cacheFlags == m.cacheFlags
  {
    hide Take, Grow, TakePages, Alone, SlabRuns.Inv, Consistent;
    var call, cache := SlabAlloc(k), m.caches[k];
    var m1 := Interleavings.At(m, i, WantCache(k));
    FrontOfCache(m, shapes, k);
    if cache.HasFree() {
      TakeCellAlone(m1, shapes, i, call, k);
      n := 4;
      FirstStep(m, shapes, i, call, m1, 3);
      assert m1.pcs[i := Idle] == m.pcs;
    } else {
      var m2 := WithFlag(Interleavings.At(m1, i, InCache(k)), k, true);
      var m3 := Interleavings.At(m2, i, WantPmm(1, Some(k)));
      var a := TakeAlone(m3, shapes, i, call, 1, Some(k));
      FirstStep(m2, shapes, i, call, m3, a);
      FirstStep(m1, shapes, i, call, m2, a + 1);
      FirstStep(m, shapes, i, call, m1, a + 2);
      n := a + 3;
      if TakePages(m.bits, 1).Some? {
        AloneInTurn(m, shapes, i, call, a + 3, 5);
        AddAlone(Alone(m, shapes, i, call, a + 3).value, shapes, i, call, k, TakePages(m.bits, 1).value.0 / 4096);
        n := a + 8;
        assert m.pcs[i := Idle] == m.pcs && m.cacheFlags[k := false] == m.cacheFlags;
      }
    }
  }

  lemma FrontOfCache(m: Machine, shapes: seq<Shape>, k: nat)
    requires SlabRuns.Inv(System(m.bits, m.caches, m.objects), shapes) && k < |m.caches| && |shapes| == |m.caches|
    ensures m.caches[k].HasFree() ==>
              m.caches[k].Front() in m.caches[k].chain && m.caches[k].chain[m.caches[k].Front()] != []
    ensures shapes[k].cells > 0
  {
  }

  /** The new slab is put in the cache, the lock dropped and taken again, and a cell taken. */
  lemma AddAlone(m: Machine, shapes: seq<Shape>, i: nat, c: Call, k: nat, p: nat)
    requires Sized(m, shapes) && i < |m.pcs| && m.pcs[i] == AddSlab(k, p) && k < |m.caches| && shapes[k].cells > 0
    ensures var cache := Grow(m.caches[k], shapes[k].cells, p);
            && cache.HasFree() && cache.Front() == p && p in cache.chain && cache.chain[p] != []
            && Alone(m, shapes, i, c, 5) ==
               Some(m.(caches := m.caches[k := Take(cache)], pcs := m.pcs[i := Idle],
                       cacheFlags := m.cacheFlags[k := false],
                       objects := m.objects + [Object(k, p, cache.chain[p][0])]))
  {
    hide Take, Alone;
    var cache := Grow(m.caches[k], shapes[k].cells, p);
    var m1 := WithCache(Interleavings.At(m, i, Retry(k)), k, cache);
    var m2 := WithFlag(Interleavings.At(m1, i, WantCache(k)), k, false);
    FirstStep(m, shapes, i, c, m1, 4);
    FirstStep(m1, shapes, i, c, m2, 3);
    TakeCellAlone(m2, shapes, i, c, k);
    assert m2.caches[k := Take(cache)] == m.caches[k := Take(cache)] && m2.pcs[i := Idle] == m.pcs[i := Idle];
  }

  /** slabFree inside its lock. */
  lemma GivingAlone(m: Machine, shapes: seq<Shape>, i: nat, c: Call, x: Object)
    requires Sized(m, shapes) && i < |m.pcs| && m.pcs[i] == Giving(x) && x in m.objects
    requires x.cache < |m.caches| && x.page in m.caches[x.cache].chain
    ensures Alone(m, shapes, i, c, 2) ==
            Some(m.(caches := m.caches[x.cache := Give(m.caches[x.cache], shapes[x.cache].cells, x.page, x.cell)],
                    cacheFlags := m.cacheFlags[x.cache := false], pcs := m.pcs[i := Idle],
                    objects := DropAt(m.objects, IndexOf(m.objects, x))))
  {
    hide Give, Alone, IndexOf, DropAt;
    var k := x.cache;
    var cache := Give(m.caches[k], shapes[k].cells, x.page, x.cell);
    var m1 := WithCache(Interleavings.At(m, i, Given(k)), k, cache)
                .(objects := DropAt(m.objects, IndexOf(m.objects, x)));
    var m2 := WithFlag(Interleavings.At(m1, i, Idle), k, false);
    FirstStep(m, shapes, i, c, m1, 1);
    FirstStep(m1, shapes, i, c, m2, 0);
    NoSteps(m2, shapes, i, c);
    assert m2.pcs == m.pcs[i := Idle];
  }

  /** slabFree as a whole. */
  lemma SlabFreeAlone(m: Machine, shapes: seq<Shape>, i: nat, x: Object)
    requires Sized(m, shapes) && i < |m.pcs| && m.pcs[i] == Idle && MayCall(m, SlabFree(x))
    requires x.cache < |m.caches| && !m.cacheFlags[x.cache] && x.page in m.caches[x.cache].chain
    ensures Alone(m, shapes, i, SlabFree(x), 4) ==
            Some(m.(caches := m.caches[x.cache := Give(m.caches[x.cache], shapes[x.cache].cells, x.page, x.cell)],
                    objects := DropAt(m.objects, IndexOf(m.objects, x))))
  {
    hide Give, Alone, IndexOf, DropAt;
    var call, k := SlabFree(x), x.cache;
    var m1 := Interleavings.At(m, i, WantGive(x));
    var m2 := WithFlag(Interleavings.At(m1, i, Giving(x)), k, true);
    FirstStep(m, shapes, i, call, m1, 3);
    FirstStep(m1, shapes, i, call, m2, 2);
    GivingAlone(m2, shapes, i, call, x);
    assert m2.pcs[i := Idle] == m.pcs && m2.cacheFlags[k := false] == m.cacheFlags;
  }
}
