/** Whole runs of slabAlloc and slabFree on any number of caches over one page allocator. */
module SlabRuns {
  import opened Words
  import opened Options
  import Sequences
  import opened BitSeq
  import opened PageOwnership
  import opened SlabModel
  import opened SlabLayout
  import Slabs
  import opened SlabMemory

  /** An object handed out and not given back: its cache, page and cell. */
  datatype Object = Object(cache: nat, page: nat, cell: nat)

  datatype System = System(bits: seq<bool>, caches: seq<Cache>, live: seq<Object>)

  datatype Op = AllocOp(cache: nat) | FreeOp(index: nat)

  /** One call; None when it panics, or names no cache or no live object. */
  ghost function Apply(s: System, shapes: seq<Shape>, op: Op): Option<System>
    requires |shapes| == |s.caches|
  {
    match op
    case AllocOp(k) =>
      if k >= |shapes| then None
      else (match AllocStep(shapes[k], s.caches[k], s.bits)
            case None => None
            case Some((c, bits)) =>
              if c.HasFree() && c.Front() in c.chain && c.chain[c.Front()] != []
              then Some(System(bits, s.caches[k := Take(c)], s.live + [Object(k, c.Front(), c.chain[c.Front()][0])]))
              else None)
    case FreeOp(i) =>
      if i < |s.live| && s.live[i].cache < |shapes| && s.live[i].page in s.caches[s.live[i].cache].chain
      then var x := s.live[i];
           Some(s.(caches := s.caches[x.cache := Give(s.caches[x.cache], shapes[x.cache].cells, x.page, x.cell)],
                   live := s.live[..i] + s.live[i + 1..]))
      else None
  }

  ghost function Run(s: System, shapes: seq<Shape>, ops: seq<Op>): Option<System>
    requires |shapes| == |s.caches|
    decreases |ops|
  {
    if ops == [] then Some(s)
    else match Apply(s, shapes, ops[0])
      case None => None
      case Some(s') => Run(s', shapes, ops[1..])
  }

  ghost predicate PagesApart(caches: seq<Cache>) {
    forall j, k, p :: 0 <= j < k < |caches| && p in caches[j].chain ==> p !in caches[k].chain
  }

  ghost predicate CachesOk(bits: seq<bool>, caches: seq<Cache>, shapes: seq<Shape>)
  {
    && |shapes| == |caches|
    && PagesApart(caches)
    && forall k :: 0 <= k < |caches| ==>
         shapes[k].Fits() && Consistent(caches[k], shapes[k].cells) && Slabs.SlabCache.Marked(caches[k], bits)
  }

  ghost predicate LiveIn(caches: seq<Cache>, shapes: seq<Shape>, x: Object)
    requires |shapes| == |caches|
  {
    x.cache < |caches| && IsLive(caches[x.cache], shapes[x.cache].cells, x.page, x.cell)
  }

  /** Sum of usedObj over all slabs of all caches. */
  function TotalUsed(caches: seq<Cache>, shapes: seq<Shape>): int
    requires |shapes| == |caches|
  {
    if caches == [] then 0
    else Used(caches[0], shapes[0].cells) + TotalUsed(caches[1..], shapes[1..])
  }

  /** The list of objects handed out is exactly the set of used cells, and the counters count it. */
  ghost predicate Inv(s: System, shapes: seq<Shape>)
  {
    && CachesOk(s.bits, s.caches, shapes)
    && NoDuplicates(s.live)
    && (forall x :: x in s.live <==> LiveIn(s.caches, shapes, x))
    && TotalUsed(s.caches, shapes) == |s.live|
  }

  lemma {:induction false} TotalUsedAfterUpdate(caches: seq<Cache>, shapes: seq<Shape>, k: nat, c: Cache)
    requires |shapes| == |caches| && k < |caches|
    ensures TotalUsed(caches[k := c], shapes) ==
            TotalUsed(caches, shapes) + Used(c, shapes[k].cells) - Used(caches[k], shapes[k].cells)
    decreases |caches|
  {
    hide Used;
    if k > 0 {
      TotalUsedAfterUpdate(caches[1..], shapes[1..], k - 1, c);
      assert caches[k := c][1..] == caches[1..][k - 1 := c];
    } else {
      assert caches[k := c][1..] == caches[1..];
    }
  }

  /** A new slab's page was free, so it is in no cache. */
  lemma GrowKeepsCaches(bits: seq<bool>, caches: seq<Cache>, shapes: seq<Shape>, k: nat)
    requires CachesOk(bits, caches, shapes) && k < |caches| && TakePages(bits, 1).Some?
    ensures var p := TakePages(bits, 1).value.0 / PAGE_SIZE;
            && p !in caches[k].chain
            && CachesOk(TakePages(bits, 1).value.1, caches[k := Grow(caches[k], shapes[k].cells, p)], shapes)
  {
    hide Consistent, Used, IsLive, AllCells;
    FirstFitFromIsLeast(bits, 1, 0);
    var p: nat := FirstFit(bits, 1);
    assert FreeRun(bits, p, 1);
    assert TakePages(bits, 1).value == (p * PAGE_SIZE, Filled(bits, p, p + 1, true));
    GrowAddsNothingLive(caches[k], shapes[k].cells, p);
  }

  /** A slab on a page that is marked used and in no cache yet. */
  lemma GrowKeepsInv(s: System, shapes: seq<Shape>, k: nat, p: nat)
    requires Inv(s, shapes) && k < |shapes| && |shapes| == |s.caches| && p < |s.bits| && s.bits[p]
    requires forall j :: 0 <= j < |s.caches| ==> p !in s.caches[j].chain
    ensures Inv(System(s.bits, s.caches[k := Grow(s.caches[k], shapes[k].cells, p)], s.live), shapes)
  {
    hide Consistent, Used, IsLive, AllCells;
    var c := Grow(s.caches[k], shapes[k].cells, p);
    GrowAddsNothingLive(s.caches[k], shapes[k].cells, p);
    TotalUsedAfterUpdate(s.caches, shapes, k, c);
    forall x ensures LiveIn(s.caches[k := c], shapes, x) <==> LiveIn(s.caches, shapes, x) { }
  }

  lemma SamePagesKeepCaches(bits: seq<bool>, caches: seq<Cache>, shapes: seq<Shape>, k: nat, c: Cache)
    requires CachesOk(bits, caches, shapes) && k < |caches|
    requires Consistent(c, shapes[k].cells) && c.chain.Keys == caches[k].chain.Keys
    ensures CachesOk(bits, caches[k := c], shapes)
  {
    hide Consistent;
    assert forall p :: p in c.chain <==> p in caches[k].chain;
  }

  /** The state between a slabAlloc's new slab, if it needs one, and its taking of a cell. */
  lemma AllocStepKeepsInv(s: System, shapes: seq<Shape>, k: nat) returns (s1: System)
    requires Inv(s, shapes) && k < |shapes| && AllocStep(shapes[k], s.caches[k], s.bits).Some?
    ensures var (c, bits) := AllocStep(shapes[k], s.caches[k], s.bits).value;
            s1 == System(bits, s.caches[k := c], s.live) && Inv(s1, shapes) && c.HasFree()
  {
    hide Consistent, Used, TakePages, IsLive;
    var (c, bits) := AllocStep(shapes[k], s.caches[k], s.bits).value;
    s1 := System(bits, s.caches[k := c], s.live);
    if s.caches[k].HasFree() {
      assert s.caches[k := c] == s.caches;
    } else {
      GrowKeepsCaches(s.bits, s.caches, shapes, k);
      var p := TakePages(s.bits, 1).value.0 / PAGE_SIZE;
      GrowAddsNothingLive(s.caches[k], shapes[k].cells, p);
      TotalUsedAfterUpdate(s.caches, shapes, k, c);
      forall x ensures LiveIn(s1.caches, shapes, x) <==> LiveIn(s.caches, shapes, x) { }
    }
  }

  lemma TakeKeepsInv(s: System, shapes: seq<Shape>, k: nat) returns (s': System)
    requires Inv(s, shapes) && k < |shapes| && s.caches[k].HasFree()
    ensures var c := s.caches[k];
            && c.Front() in c.chain && c.chain[c.Front()] != []
            && s' == System(s.bits, s.caches[k := Take(c)], s.live + [Object(k, c.Front(), c.chain[c.Front()][0])])
            && Inv(s', shapes)
  {
    hide Consistent, Used, IsLive, Take, NoDuplicates;
    var c := s.caches[k];
    TakeMakesOneLive(c, shapes[k].cells);
    FrontIsFree(c, shapes[k].cells);
    SamePagesKeepCaches(s.bits, s.caches, shapes, k, Take(c));
    TotalUsedAfterUpdate(s.caches, shapes, k, Take(c));
    var x := Object(k, c.Front(), c.chain[c.Front()][0]);
    s' := System(s.bits, s.caches[k := Take(c)], s.live + [x]);
    forall y ensures LiveIn(s'.caches, shapes, y) <==> LiveIn(s.caches, shapes, y) || y == x { }
    assert x !in s.live;
    AppendNew(s.live, x);
  }

  lemma AppendNew<T>(s: seq<T>, x: T)
    requires NoDuplicates(s) && x !in s
    ensures NoDuplicates(s + [x])
    ensures forall y :: y in s + [x] <==> y in s || y == x
  {
    forall i | 0 <= i < |s| ensures s[i] in s { }
  }

  lemma RemoveAt<T>(s: seq<T>, i: nat)
    requires NoDuplicates(s) && i < |s|
    ensures NoDuplicates(s[..i] + s[i + 1..])
    ensures forall y :: y in s[..i] + s[i + 1..] <==> y in s && y != s[i]
  {
    Sequences.RemovedFrom(s, i);
  }

  lemma FreeKeepsInv(s: System, shapes: seq<Shape>, i: nat)
    requires Inv(s, shapes) && i < |s.live|
    ensures Apply(s, shapes, FreeOp(i)).Some? && Inv(Apply(s, shapes, FreeOp(i)).value, shapes)
  {
    hide Consistent, Used, Give, NoDuplicates;
    var x := s.live[i];
    assert x in s.live && LiveIn(s.caches, shapes, x);
    var c, cells := s.caches[x.cache], shapes[x.cache].cells;
    var d := Give(c, cells, x.page, x.cell);
    var s' := Apply(s, shapes, FreeOp(i)).value;
    hide IsLive;
    GiveEndsOneLife(c, cells, x.page, x.cell);
    SamePagesKeepCaches(s.bits, s.caches, shapes, x.cache, d);
    TotalUsedAfterUpdate(s.caches, shapes, x.cache, d);
    forall y ensures LiveIn(s'.caches, shapes, y) <==> LiveIn(s.caches, shapes, y) && y != x { }
    RemoveAt(s.live, i);
  }

  /** Caches as slabInitCache leaves them. */
  lemma {:induction false} FreshCaches(bits: seq<bool>, shapes: seq<Shape>)
    requires forall k :: 0 <= k < |shapes| ==> shapes[k].Fits()
    ensures Inv(System(bits, seq(|shapes|, _ => Cache([], [], [], map[])), []), shapes)
  {
    NothingUsed(shapes);
  }

  lemma {:induction false} NothingUsed(shapes: seq<Shape>)
    ensures TotalUsed(seq(|shapes|, _ => Cache([], [], [], map[])), shapes) == 0
  {
    if shapes != [] {
      var c := seq(|shapes|, _ => Cache([], [], [], map[]));
      assert c[1..] == seq(|shapes[1..]|, _ => Cache([], [], [], map[]));
      NothingUsed(shapes[1..]);
    }
  }

  lemma StepKeepsInv(s: System, shapes: seq<Shape>, op: Op)
    requires Inv(s, shapes) && Apply(s, shapes, op).Some?
    ensures Inv(Apply(s, shapes, op).value, shapes)
  {
    hide Inv;
    SizesAgree(s, shapes);
    match op {
      case AllocOp(k) =>
        var s1 := AllocStepKeepsInv(s, shapes, k);
        var s2 := TakeKeepsInv(s1, shapes, k);
        assert s1.caches[k := s2.caches[k]] == s.caches[k := s2.caches[k]];
      case FreeOp(i) => FreeKeepsInv(s, shapes, i);
    }
  }

  /** Over every run: the live objects are exactly the used cells, and usedObj counts them. */
  lemma {:induction false} EveryRunKeepsInv(s: System, shapes: seq<Shape>, ops: seq<Op>)
    requires Inv(s, shapes) && Run(s, shapes, ops).Some?
    ensures Inv(Run(s, shapes, ops).value, shapes)
    decreases |ops|
  {
    hide Inv, Apply;
    SizesAgree(s, shapes);
    if ops != [] {
      StepKeepsInv(s, shapes, ops[0]);
      SizesAgree(Apply(s, shapes, ops[0]).value, shapes);
      EveryRunKeepsInv(Apply(s, shapes, ops[0]).value, shapes, ops[1..]);
    }
  }

  lemma InvFacts(s: System, shapes: seq<Shape>)
    requires Inv(s, shapes)
    ensures |shapes| == |s.caches| && PagesApart(s.caches) && CachesOk(s.bits, s.caches, shapes) && NoDuplicates(s.live)
    ensures forall x :: x in s.live <==> LiveIn(s.caches, shapes, x)
  {
  }

  lemma SizesAgree(s: System, shapes: seq<Shape>)
    requires Inv(s, shapes)
    ensures |shapes| == |s.caches|
  {
  }

  /** slabAlloc fails only when a new slab is needed and no page is free. */
  lemma AllocFailsOnlyWhenFull(s: System, shapes: seq<Shape>, k: nat)
    requires Inv(s, shapes) && k < |shapes|
    ensures Apply(s, shapes, AllocOp(k)).None? <==> !s.caches[k].HasFree() && TakePages(s.bits, 1).None?
  {
    hide Inv, TakePages;
    SizesAgree(s, shapes);
    if AllocStep(shapes[k], s.caches[k], s.bits).Some? {
      var s1 := AllocStepKeepsInv(s, shapes, k);
      var s2 := TakeKeepsInv(s1, shapes, k);
    }
  }

  /** Bytes that the holder of an object may use: from its pointer to the end of its cell. */
  function FirstByte(shapes: seq<Shape>, x: Object): nat
    requires x.cache < |shapes|
  {
    UserPointer(shapes[x.cache], x.page, x.cell)
  }

  function EndByte(shapes: seq<Shape>, x: Object): nat
    requires x.cache < |shapes|
  {
    CellAddr(shapes[x.cache], x.page, x.cell) + 8 * shapes[x.cache].words
  }

  /** Every live object is aligned, past its slab's header, and inside the one page it rounds down to. */
  lemma ObjectInItsPage(s: System, shapes: seq<Shape>, x: Object)
    requires Inv(s, shapes) && x in s.live
    ensures x.cache < |shapes|
    ensures var a, e := FirstByte(shapes, x), EndByte(shapes, x);
            && a % 8 == 0 && 4096 * x.page + 40 < a && e == a + 8 * shapes[x.cache].words - 8
            && e <= 4096 * x.page + 4096 && a / 4096 == x.page
  {
    hide Consistent, Used;
    assert LiveIn(s.caches, shapes, x);
    var sh := shapes[x.cache];
    CellsInPage(sh, x.cell);
    ObjectBytes(sh, x.page, x.cell);
  }

  lemma ObjectBytes(sh: Shape, p: nat, i: nat)
    requires sh.Fits() && CellWord(sh, i) + sh.words <= 512
    ensures UserPointer(sh, p, i) % 8 == 0 && UserPointer(sh, p, i) / 4096 == p
    ensures 4096 * p + 40 < UserPointer(sh, p, i)
    ensures CellAddr(sh, p, i) + 8 * sh.words <= 4096 * p + 4096
  {
    CellWordLow(sh, i);
    hide CellWord;
    var w := CellWord(sh, i);
    assert 4096 * p + 8 * (w + 1) < 4096 * (p + 1);
  }

  /** No two live objects of any caches share a byte. */
  lemma ObjectsAreDisjoint(s: System, shapes: seq<Shape>, i: nat, j: nat)
    requires Inv(s, shapes) && i < |s.live| && j < |s.live| && i != j
    ensures s.live[i].cache < |shapes| && s.live[j].cache < |shapes|
    ensures || EndByte(shapes, s.live[i]) <= FirstByte(shapes, s.live[j])
            || EndByte(shapes, s.live[j]) <= FirstByte(shapes, s.live[i])
  {
    var x, y := s.live[i], s.live[j];
    ObjectInItsPage(s, shapes, x);
    ObjectInItsPage(s, shapes, y);
    if x.page == y.page {
      assert LiveIn(s.caches, shapes, x) && LiveIn(s.caches, shapes, y);
      assert x.cache == y.cache by { SameCache(s, shapes, x, y); }
      assert x.cell != y.cell;
      var sh := shapes[x.cache];
      if x.cell < y.cell {
        CellsInOrder(sh, x.cell, y.cell);
      } else {
        CellsInOrder(sh, y.cell, x.cell);
      }
    }
  }

  lemma SameCache(s: System, shapes: seq<Shape>, x: Object, y: Object)
    requires Inv(s, shapes) && LiveIn(s.caches, shapes, x) && LiveIn(s.caches, shapes, y) && x.page == y.page
    ensures x.cache == y.cache
  {
    hide Consistent, Used, NoDuplicates;
    assert x.page in s.caches[x.cache].chain && y.page in s.caches[y.cache].chain;
  }

  /** Writing through a live pointer never reaches the link word of a free cell. */
  lemma ObjectsMissFreeLinks(s: System, shapes: seq<Shape>, x: Object, k: nat, p: nat, f: nat)
    requires Inv(s, shapes) && x in s.live
    requires k < |s.caches| && p in s.caches[k].chain && f in s.caches[k].chain[p]
    ensures x.cache < |shapes| && |shapes| == |s.caches|
    ensures EndByte(shapes, x) <= CellAddr(shapes[k], p, f) || CellAddr(shapes[k], p, f) + 8 <= FirstByte(shapes, x)
  {
    ObjectInItsPage(s, shapes, x);
    assert LiveIn(s.caches, shapes, x);
    var sh := shapes[k];
    assert ChainOk(s.caches[k].chain[p], sh.cells);
    CellsInPage(sh, f);
    ObjectBytes(sh, p, f);
    if p == x.page {
      assert x.cache == k;
      assert x.cell != f;
      if x.cell < f {
        CellsInOrder(sh, x.cell, f);
      } else {
        CellsInOrder(sh, f, x.cell);
      }
    }
  }
}
