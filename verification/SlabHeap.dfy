/**
 * Whole runs on memory itself: any number of slab caches in one physical memory, and holders who
 * store what they like in their objects. Every step computes from memory words and the bit set alone.
 */
module SlabHeap {
  import opened Words
  import opened Options
  import Sequences
  import opened Ram
  import opened Paging
  import opened PageOwnership
  import opened LinkedList
  import opened SlabModel
  import opened SlabLayout
  import opened SlabSteps
  import opened SlabMemory
  import opened SlabFrames
  import SlabRuns

  /** A cache's constants: the shape of its cells and the address of its list heads. */
  datatype Site = Site(sh: Shape, lists: nat)

  /** A pointer that slabAlloc on this cache returned. */
  datatype Handout = Handout(cache: nat, addr: u64)

  datatype Heap = Heap(ram: seq<u64>, bits: seq<bool>, live: seq<Handout>)

  /** A free passes the link word in front of a live pointer; a store writes word w of a live object. */
  datatype Op = AllocOp(cache: nat) | FreeOp(index: nat) | StoreOp(index: nat, w: nat, value: u64)

  ghost predicate SitesFit(sites: seq<Site>) {
    forall k :: 0 <= k < |sites| ==> sites[k].sh.Fits() && sites[k].lists + 32 < WORD
  }

  /** One call; None when it panics, or for a pointer or word that is no holder's. */
  ghost function Apply(h: Heap, sites: seq<Site>, op: Op): (r: Option<Heap>)
    requires SitesFit(sites) && |h.bits| <= FRAME_LIMIT
    ensures r.Some? ==> |r.value.bits| == |h.bits|
  {
    match op
    case AllocOp(k) =>
      if k >= |sites| then None
      else (match Allocated(h.ram, sites[k].sh, sites[k].lists, h.bits)
            case None => None
            case Some((m, bits, r)) => Some(Heap(m, bits, h.live + [Handout(k, r)])))
    case FreeOp(i) =>
      if i < |h.live| && h.live[i].cache < |sites| && h.live[i].addr >= 8
      then Some(h.(ram := Given(h.ram, sites[h.live[i].cache].lists, h.live[i].addr - 8),
                   live := h.live[..i] + h.live[i + 1..]))
      else None
    case StoreOp(i, w, v) =>
      if i < |h.live| && h.live[i].cache < |sites| && w + 1 < sites[h.live[i].cache].sh.words
      then Some(h.(ram := Store(h.ram, h.live[i].addr + 8 * w, v)))
      else None
  }

  ghost function Run(h: Heap, sites: seq<Site>, ops: seq<Op>): Option<Heap>
    requires SitesFit(sites) && |h.bits| <= FRAME_LIMIT
    decreases |ops|
  {
    if ops == [] then Some(h)
    else match Apply(h, sites, ops[0])
      case None => None
      case Some(h') => Run(h', sites, ops[1..])
  }

  function Shapes(sites: seq<Site>): (r: seq<Shape>)
    ensures |r| == |sites| && forall k :: 0 <= k < |sites| ==> r[k] == sites[k].sh
  {
    seq(|sites|, k requires 0 <= k < |sites| => sites[k].sh)
  }

  /** The pointer that stands for an object. */
  function PointerTo(sites: seq<Site>, x: SlabRuns.Object): nat
    requires x.cache < |sites|
  {
    UserPointer(sites[x.cache].sh, x.page, x.cell)
  }

  /** Memory and bit set fit, and the list heads lie in pages the allocator never hands out. */
  ghost predicate Placed(h: Heap, sites: seq<Site>)
  {
    && SitesFit(sites)
    && |h.bits| <= FRAME_LIMIT && 512 * |h.bits| <= |h.ram|
    && (forall j, k :: 0 <= j < |sites| && 0 <= k < |sites| && j != k ==>
          sites[j].lists + 48 <= sites[k].lists || sites[k].lists + 48 <= sites[j].lists)
    && (forall k, p: nat :: 0 <= k < |sites| && p < |h.bits| && !Away(sites[k].lists, p) ==> h.bits[p])
  }

  /** Memory holds every cache, and no cache's heads lie in a slab of any. */
  ghost predicate Standing(ram: seq<u64>, sites: seq<Site>, caches: seq<Cache>)
    requires |caches| == |sites|
  {
    && (forall k :: 0 <= k < |sites| ==> Represents(ram, sites[k].sh, sites[k].lists, caches[k]))
    && (forall j, k, p :: 0 <= j < |sites| && 0 <= k < |sites| && p in caches[j].chain ==> Away(sites[k].lists, p))
  }

  /** The pointers handed out are those of the objects, in order. */
  ghost predicate Pointers(live: seq<Handout>, sites: seq<Site>, objects: seq<SlabRuns.Object>) {
    && |live| == |objects|
    && forall i :: 0 <= i < |live| ==>
         objects[i].cache < |sites| && live[i].cache == objects[i].cache && live[i].addr == PointerTo(sites, objects[i])
  }

  ghost predicate Inv(h: Heap, sites: seq<Site>, caches: seq<Cache>, objects: seq<SlabRuns.Object>)
  {
    && |caches| == |sites|
    && Placed(h, sites)
    && Standing(h.ram, sites, caches)
    && Pointers(h.live, sites, objects)
    && SlabRuns.Inv(SlabRuns.System(h.bits, caches, objects), Shapes(sites))
  }

  /** Two caches' pages and heads are apart. */
  lemma CachesApart(h: Heap, sites: seq<Site>, caches: seq<Cache>, j: nat, k: nat)
    requires |caches| == |sites| && Placed(h, sites) && SlabRuns.PagesApart(caches)
    requires j < |sites| && k < |sites| && j != k
    requires forall i, p :: 0 <= i < |sites| && p in caches[j].chain ==> Away(sites[i].lists, p)
    requires forall i, p :: 0 <= i < |sites| && p in caches[k].chain ==> Away(sites[i].lists, p)
    ensures LieApart(sites[j].lists, caches[j].chain.Keys, sites[k].lists, caches[k].chain.Keys)
  {
    hide Away;
  }

  /** A change of cache k that keeps all words but its own leaves every cache standing. */
  lemma StandingAfter(h: Heap, sites: seq<Site>, caches: seq<Cache>, m': seq<u64>, k: nat, c: Cache)
    requires |caches| == |sites| && Placed(h, sites) && Standing(h.ram, sites, caches) && k < |sites|
    requires Represents(m', sites[k].sh, sites[k].lists, c)
    requires Kept(h.ram, m', sites[k].sh, sites[k].lists, c.chain.Keys)
    requires SlabRuns.PagesApart(caches[k := c])
    requires forall i, p :: 0 <= i < |sites| && p in c.chain ==> Away(sites[i].lists, p)
    ensures Standing(m', sites, caches[k := c])
  {
    hide Represents, Away, Kept, LieApart;
    var caches' := caches[k := c];
    forall j | 0 <= j < |sites| && j != k
      ensures Represents(m', sites[j].sh, sites[j].lists, caches'[j])
    {
      CachesApart(h, sites, caches', j, k);
      OtherCacheKept(h.ram, m', sites[k].sh, sites[k].lists, c.chain.Keys, sites[j].sh, sites[j].lists, caches[j]);
    }
  }

  lemma CachePages(h: Heap, sites: seq<Site>, caches: seq<Cache>, objects: seq<SlabRuns.Object>, k: nat)
    requires Inv(h, sites, caches, objects) && k < |sites|
    ensures Represents(h.ram, sites[k].sh, sites[k].lists, caches[k])
    ensures forall p :: p in caches[k].chain ==> p < |h.bits| && h.bits[p]
    ensures forall p: nat :: p < |h.bits| && !Away(sites[k].lists, p) ==> h.bits[p]
    ensures forall i, p :: 0 <= i < |sites| && p in caches[k].chain ==> Away(sites[i].lists, p)
  {
    hide Represents, Away;
    assert SlabRuns.CachesOk(h.bits, caches, Shapes(sites));
  }

  /** slabAlloc on one of several caches in memory. */
  lemma AllocStands(h: Heap, sites: seq<Site>, caches: seq<Cache>, objects: seq<SlabRuns.Object>, k: nat)
    returns (s': SlabRuns.System)
    requires Inv(h, sites, caches, objects) && Apply(h, sites, AllocOp(k)).Some?
    ensures SlabRuns.Apply(SlabRuns.System(h.bits, caches, objects), Shapes(sites), SlabRuns.AllocOp(k)) == Some(s')
    ensures Inv(Apply(h, sites, AllocOp(k)).value, sites, s'.caches, s'.live)
    ensures s'.bits == Apply(h, sites, AllocOp(k)).value.bits
    ensures k < |sites| && |s'.caches| == |sites|
    ensures Kept(h.ram, Apply(h, sites, AllocOp(k)).value.ram, sites[k].sh, sites[k].lists, s'.caches[k].chain.Keys)
  {
    hide Represents, Away, Kept, Take, Allocated, SlabRuns.Inv, UserPointer, TakePages;
    var sh, lists, c := sites[k].sh, sites[k].lists, caches[k];
    var s, shapes := SlabRuns.System(h.bits, caches, objects), Shapes(sites);
    CachePages(h, sites, caches, objects, k);
    AllocatedIs(h.ram, sh, lists, c, h.bits);
    AllocatedKept(h.ram, sh, lists, c, h.bits);
    var (d, bits) := AllocStep(sh, c, h.bits).value;
    s' := SlabRuns.Apply(s, shapes, SlabRuns.AllocOp(k)).value;
    SlabRuns.StepKeepsInv(s, shapes, SlabRuns.AllocOp(k));
    var x := SlabRuns.Object(k, d.Front(), d.chain[d.Front()][0]);
    assert s' == SlabRuns.System(bits, caches[k := Take(d)], objects + [x]);
    var h' := Apply(h, sites, AllocOp(k)).value;
    SlabRuns.InvFacts(s', shapes);
    NewPageIsAway(h, sites, caches, objects, k);
    SamePages(h.ram, sh, lists, c, h.bits);
    StandingAfter(h, sites, caches, h'.ram, k, Take(d));
    KeptLength(h.ram, h'.ram, sh, lists, Take(d).chain.Keys);
    PlacedAfter(h, sites, caches, objects, k, h');
  }

  /** Taking a cell adds no page to those that slabAlloc's new slab, if any, added. */
  lemma SamePages(m: seq<u64>, sh: Shape, lists: nat, c: Cache, bits: seq<bool>)
    requires Represents(m, sh, lists, c) && AllocStep(sh, c, bits).Some?
    requires var d := AllocStep(sh, c, bits).value.0; d.HasFree() && d.Front() in d.chain && d.chain[d.Front()] != []
    ensures var d := AllocStep(sh, c, bits).value.0; Take(d).chain.Keys == d.chain.Keys
  {
    hide ListsAt, SlabAt, TakePages, Consistent, AllCells;
    var d := AllocStep(sh, c, bits).value.0;
    assert d.chain[d.Front() := d.chain[d.Front()][1..]].Keys == d.chain.Keys;
  }

  lemma NewPageIsAway(h: Heap, sites: seq<Site>, caches: seq<Cache>, objects: seq<SlabRuns.Object>, k: nat)
    requires Inv(h, sites, caches, objects) && k < |sites| && AllocStep(sites[k].sh, caches[k], h.bits).Some?
    ensures var d := AllocStep(sites[k].sh, caches[k], h.bits).value.0;
            forall i, p :: 0 <= i < |sites| && p in d.chain ==> Away(sites[i].lists, p)
  {
    hide Represents, Away, TakePages, AllCells;
    CachePages(h, sites, caches, objects, k);
    if !caches[k].HasFree() {
      TakenPageIsFree(h.bits);
      GrownPages(caches[k], sites[k].sh.cells, TakePages(h.bits, 1).value.0 / PAGE_SIZE);
    }
  }

  lemma PlacedAfter(h: Heap, sites: seq<Site>, caches: seq<Cache>, objects: seq<SlabRuns.Object>, k: nat, h': Heap)
    requires Inv(h, sites, caches, objects) && k < |sites| && AllocStep(sites[k].sh, caches[k], h.bits).Some?
    requires h'.bits == AllocStep(sites[k].sh, caches[k], h.bits).value.1 && |h'.ram| == |h.ram|
    ensures Placed(h', sites)
  {
    hide Represents, Away, TakePages, AllCells;
    if !caches[k].HasFree() {
      TakenPageIsFree(h.bits);
    }
  }

  /** What the invariant says of one live object. */
  lemma LiveFacts(h: Heap, sites: seq<Site>, caches: seq<Cache>, objects: seq<SlabRuns.Object>, i: nat)
    requires Inv(h, sites, caches, objects) && i < |h.live|
    ensures |objects| == |h.live| && h.live[i].cache == objects[i].cache < |sites|
    ensures var x, sh := objects[i], sites[objects[i].cache].sh;
            && IsLive(caches[x.cache], sh.cells, x.page, x.cell) && x.page in caches[x.cache].chain && sh.Fits()
            && h.live[i].addr == UserPointer(sh, x.page, x.cell) == CellAddr(sh, x.page, x.cell) + 8
            && HasFrame(h.ram, x.page) && x.page < FRAME_LIMIT
            && forall k :: 0 <= k < |sites| ==> Away(sites[k].lists, x.page)
  {
    hide Represents, Away, CellAddr;
    var s, shapes := SlabRuns.System(h.bits, caches, objects), Shapes(sites);
    SlabRuns.InvFacts(s, shapes);
    var x := objects[i];
    assert x in s.live && SlabRuns.LiveIn(caches, shapes, x);
    RepresentsFacts(h.ram, sites[x.cache].sh, sites[x.cache].lists, caches[x.cache]);
    SlabIsInMemory(h.ram, sites[x.cache].sh, x.page, caches[x.cache].chain[x.page]);
    PointerPastLink(sites[x.cache].sh, x.page, x.cell);
  }

  lemma PointerPastLink(sh: Shape, p: nat, i: nat)
    ensures UserPointer(sh, p, i) == CellAddr(sh, p, i) + 8
  {
  }

  /** slabFree on one of several caches in memory. */
  lemma FreeStands(h: Heap, sites: seq<Site>, caches: seq<Cache>, objects: seq<SlabRuns.Object>, i: nat)
    returns (s': SlabRuns.System)
    requires Inv(h, sites, caches, objects) && i < |h.live|
    ensures Apply(h, sites, FreeOp(i)).Some?
    ensures SlabRuns.Apply(SlabRuns.System(h.bits, caches, objects), Shapes(sites), SlabRuns.FreeOp(i)) == Some(s')
    ensures Inv(Apply(h, sites, FreeOp(i)).value, sites, s'.caches, s'.live)
    ensures s'.bits == Apply(h, sites, FreeOp(i)).value.bits
    ensures h.live[i].cache < |sites| && |s'.caches| == |sites|
    ensures var k := h.live[i].cache;
            Kept(h.ram, Apply(h, sites, FreeOp(i)).value.ram, sites[k].sh, sites[k].lists, s'.caches[k].chain.Keys)
  {
    hide Represents, Away, Kept, Give, Given, SlabRuns.Inv, SlabRuns.LiveIn, UserPointer, CellAddr, IsLive, Consistent;
    var s, shapes := SlabRuns.System(h.bits, caches, objects), Shapes(sites);
    SlabRuns.InvFacts(s, shapes);
    SlabRuns.FreeKeepsInv(s, shapes, i);
    s' := SlabRuns.Apply(s, shapes, SlabRuns.FreeOp(i)).value;
    LiveFacts(h, sites, caches, objects, i);
    var x := objects[i];
    var k := x.cache;
    var sh, lists, c := sites[k].sh, sites[k].lists, caches[k];
    CachePages(h, sites, caches, objects, k);
    GivenStands(h.ram, sh, lists, c, x.page, x.cell);
    var d := Give(c, sh.cells, x.page, x.cell);
    var h' := Apply(h, sites, FreeOp(i)).value;
    assert s' == SlabRuns.System(h.bits, caches[k := d], objects[..i] + objects[i + 1..]);
    SlabRuns.InvFacts(s', shapes);
    assert forall p :: p in d.chain <==> p in d.chain.Keys;
    StandingAfter(h, sites, caches, h'.ram, k, d);
  }

  /** Where word w of an object is. */
  lemma ObjectWordAt(sh: Shape, p: nat, i: nat, w: nat)
    requires sh.Fits() && i < sh.cells && w + 1 < sh.words && p < FRAME_LIMIT
    ensures UserPointer(sh, p, i) + 8 * w == 4096 * p + 8 * (CellWord(sh, i) + 1 + w)
    ensures InObject(sh, i, CellWord(sh, i) + 1 + w) && CellWord(sh, i) + 1 + w < 512
    ensures !HeaderOrLink(sh, CellWord(sh, i) + 1 + w)
  {
    CellAddrFits(sh, p, i);
    ObjectsAreApart(sh, i, CellWord(sh, i) + 1 + w);
  }

  /** A holder's store disturbs no cache. */
  lemma StoreStands(h: Heap, sites: seq<Site>, caches: seq<Cache>, objects: seq<SlabRuns.Object>, i: nat, w: nat,
      v: u64)
    requires Inv(h, sites, caches, objects) && Apply(h, sites, StoreOp(i, w, v)).Some?
    ensures Inv(Apply(h, sites, StoreOp(i, w, v)).value, sites, caches, objects)
  {
    hide Represents, Away, SlabRuns.Inv, UserPointer, CellAddr, CellWord, Store, SetEntry, InObject, HeaderOrLink;
    SlabRuns.InvFacts(SlabRuns.System(h.bits, caches, objects), Shapes(sites));
    LiveFacts(h, sites, caches, objects, i);
    var x := objects[i];
    var sh := sites[x.cache].sh;
    var g := CellWord(sh, x.cell) + 1 + w;
    ObjectWordAt(sh, x.page, x.cell, w);
    StoreIsSetEntry(h.ram, x.page, g, v);
    forall k | 0 <= k < |sites|
      ensures Represents(SetEntry(h.ram, x.page, g, v), sites[k].sh, sites[k].lists, caches[k])
    {
      assert x.page in caches[k].chain ==> k == x.cache;
      ObjectStoreKept(h.ram, x.page, x.cell, g, v, sh, sites[k].sh, sites[k].lists, caches[k]);
    }
  }

  // ---- what happens to the words of objects

  /** What cache k writes never reaches a word of a live object. */
  lemma ObjectWordsKept(h: Heap, sites: seq<Site>, caches: seq<Cache>, objects: seq<SlabRuns.Object>, i: nat, w: nat,
                        m: seq<u64>, m': seq<u64>, k: nat)
    requires Inv(h, sites, caches, objects) && i < |h.live| && k < |sites|
    requires h.live[i].cache < |sites| && w + 1 < sites[h.live[i].cache].sh.words
    requires Kept(m, m', sites[k].sh, sites[k].lists, caches[k].chain.Keys)
    ensures Load(m', h.live[i].addr + 8 * w) == Load(m, h.live[i].addr + 8 * w)
  {
    hide Represents, SlabRuns.Inv, UserPointer, CellAddr, CellWord, InObject, HeaderOrLink, Load;
    SlabRuns.InvFacts(SlabRuns.System(h.bits, caches, objects), Shapes(sites));
    LiveFacts(h, sites, caches, objects, i);
    var x := objects[i];
    var sh := sites[x.cache].sh;
    var g := CellWord(sh, x.cell) + 1 + w;
    ObjectWordAt(sh, x.page, x.cell, w);
    WordIsAt(x.page, g);
    assert x.page in caches[k].chain ==> k == x.cache;
    assert !Bookkeeping(sites[k].sh, sites[k].lists, caches[k].chain.Keys, 4096 * x.page + 8 * g);
  }

  /** Words of different objects are different words. */
  lemma ObjectWordsDiffer(h: Heap, sites: seq<Site>, caches: seq<Cache>, objects: seq<SlabRuns.Object>, i: nat,
      w: nat, j: nat, u: nat)
    requires Inv(h, sites, caches, objects) && i < |h.live| && j < |h.live| && i != j
    requires h.live[i].cache < |sites| && w + 1 < sites[h.live[i].cache].sh.words
    requires h.live[j].cache < |sites| && u + 1 < sites[h.live[j].cache].sh.words
    ensures h.live[i].addr % 8 == 0 && h.live[j].addr % 8 == 0
    ensures h.live[i].addr + 8 * w != h.live[j].addr + 8 * u
  {
    hide Represents, Away, SlabRuns.Inv, CellAddr, UserPointer, SlabRuns.LiveIn;
    var s, shapes := SlabRuns.System(h.bits, caches, objects), Shapes(sites);
    LiveFacts(h, sites, caches, objects, i);
    LiveFacts(h, sites, caches, objects, j);
    assert objects[i] in s.live && objects[j] in s.live;
    SlabRuns.ObjectInItsPage(s, shapes, objects[i]);
    SlabRuns.ObjectInItsPage(s, shapes, objects[j]);
    SlabRuns.ObjectsAreDisjoint(s, shapes, i, j);
  }

  /** Word w of the object behind pointer x. */
  function WordOf(ram: seq<u64>, x: Handout, w: nat): u64 {
    Load(ram, x.addr + 8 * w)
  }

  predicate IsWord(sites: seq<Site>, x: Handout, w: nat) {
    x.cache < |sites| && w + 1 < sites[x.cache].sh.words
  }

  predicate Frees(h: Heap, op: Op, x: Handout) {
    op.FreeOp? && op.index < |h.live| && h.live[op.index] == x
  }

  /** The word after one call: what its holder has just stored, or what it was. */
  function StoredBy(h: Heap, op: Op, x: Handout, w: nat, before: u64): u64 {
    if op.StoreOp? && op.index < |h.live| && h.live[op.index] == x && op.w == w then op.value else before
  }

  /** The word at b is in some cache's list heads or slabs. */
  predicate InSomeCache(sites: seq<Site>, caches: seq<Cache>, b: nat) {
    exists k :: 0 <= k < |sites| && k < |caches|
      && (sites[k].lists <= b < sites[k].lists + 48 || b / 4096 in caches[k].chain)
  }

  ghost predicate Stepped(h: Heap, sites: seq<Site>, caches: seq<Cache>, op: Op, h': Heap, caches': seq<Cache>)
  {
    && |caches| == |caches'| == |sites|
    && (forall k, p :: 0 <= k < |sites| && p in caches[k].chain ==> p in caches'[k].chain)
    && (forall x, w: nat :: x in h.live && !Frees(h, op, x) && IsWord(sites, x, w) ==>
          x in h'.live && WordOf(h'.ram, x, w) == StoredBy(h, op, x, w, WordOf(h.ram, x, w)))
    && (forall b: nat :: b % 8 == 0 && !InSomeCache(sites, caches', b) ==> Load(h'.ram, b) == Load(h.ram, b))
  }

  lemma KeptOutside(m: seq<u64>, m': seq<u64>, sites: seq<Site>, caches: seq<Cache>, k: nat, b: nat)
    requires |caches| == |sites| && k < |sites| && Kept(m, m', sites[k].sh, sites[k].lists, caches[k].chain.Keys)
    requires b % 8 == 0 && !InSomeCache(sites, caches, b)
    ensures Load(m', b) == Load(m, b)
  {
    hide Load, HeaderOrLink;
    assert !Bookkeeping(sites[k].sh, sites[k].lists, caches[k].chain.Keys, b);
  }

  lemma LiveDistinct(h: Heap, sites: seq<Site>, caches: seq<Cache>, objects: seq<SlabRuns.Object>)
    requires Inv(h, sites, caches, objects)
    ensures forall i, j :: 0 <= i < j < |h.live| ==> h.live[i] != h.live[j]
  {
    hide Represents, Away, SlabRuns.Inv, CellAddr, UserPointer, SlabRuns.LiveIn;
    forall i, j | 0 <= i < j < |h.live| ensures h.live[i] != h.live[j] {
      LiveFacts(h, sites, caches, objects, i);
      LiveFacts(h, sites, caches, objects, j);
      ObjectWordsDiffer(h, sites, caches, objects, i, 0, j, 0);
    }
  }

  /** A write by one cache, seen by the holders and by the rest of memory. */
  lemma CacheWriteSteps(h: Heap, sites: seq<Site>, caches: seq<Cache>, op: Op, h': Heap, caches': seq<Cache>,
                        objects': seq<SlabRuns.Object>, k: nat)
    requires Inv(h', sites, caches', objects') && |caches| == |sites| && |caches'| == |sites| && k < |sites|
    requires Kept(h.ram, h'.ram, sites[k].sh, sites[k].lists, caches'[k].chain.Keys) && !op.StoreOp?
    requires forall j, p :: 0 <= j < |sites| && p in caches[j].chain ==> p in caches'[j].chain
    requires forall x :: x in h.live && !Frees(h, op, x) ==> x in h'.live
    ensures Stepped(h, sites, caches, op, h', caches')
  {
    hide Inv, Kept, Load, InSomeCache, Frees;
    forall x, w: nat | x in h.live && !Frees(h, op, x) && IsWord(sites, x, w)
      ensures WordOf(h'.ram, x, w) == WordOf(h.ram, x, w)
    {
      var i :| 0 <= i < |h'.live| && h'.live[i] == x;
      ObjectWordsKept(h', sites, caches', objects', i, w, h.ram, h'.ram, k);
    }
    forall b: nat | b % 8 == 0 && !InSomeCache(sites, caches', b) ensures Load(h'.ram, b) == Load(h.ram, b) {
      KeptOutside(h.ram, h'.ram, sites, caches', k, b);
    }
  }

  lemma AllocSteps(h: Heap, sites: seq<Site>, caches: seq<Cache>, objects: seq<SlabRuns.Object>, k: nat)
    returns (s': SlabRuns.System)
    requires Inv(h, sites, caches, objects) && Apply(h, sites, AllocOp(k)).Some?
    ensures SlabRuns.Apply(SlabRuns.System(h.bits, caches, objects), Shapes(sites), SlabRuns.AllocOp(k)) == Some(s')
    ensures Inv(Apply(h, sites, AllocOp(k)).value, sites, s'.caches, s'.live)
    ensures s'.bits == Apply(h, sites, AllocOp(k)).value.bits
    ensures Stepped(h, sites, caches, AllocOp(k), Apply(h, sites, AllocOp(k)).value, s'.caches)
  {
    hide Inv, Kept, SlabRuns.Apply, Stepped, Frees, Given, Store, Allocated;
    s' := AllocStands(h, sites, caches, objects, k);
    InvSizes(h, sites, caches, objects);
    PagesGrow(h, sites, caches, objects, SlabRuns.AllocOp(k), s');
    CacheWriteSteps(h, sites, caches, AllocOp(k), Apply(h, sites, AllocOp(k)).value, s'.caches, s'.live, k);
  }

  lemma InvSizes(h: Heap, sites: seq<Site>, caches: seq<Cache>, objects: seq<SlabRuns.Object>)
    requires Inv(h, sites, caches, objects)
    ensures SitesFit(sites) && |h.bits| <= FRAME_LIMIT && |caches| == |sites|
  {
  }

  /** No slab is ever given up. */
  lemma PagesGrow(h: Heap, sites: seq<Site>, caches: seq<Cache>, objects: seq<SlabRuns.Object>, op: SlabRuns.Op,
      s': SlabRuns.System)
    requires |caches| == |sites|
    requires SlabRuns.Apply(SlabRuns.System(h.bits, caches, objects), Shapes(sites), op) == Some(s')
    ensures |s'.caches| == |sites|
    ensures forall k, p :: 0 <= k < |sites| && p in caches[k].chain ==> p in s'.caches[k].chain
  {
    hide TakePages;
  }

  lemma FreeSteps(h: Heap, sites: seq<Site>, caches: seq<Cache>, objects: seq<SlabRuns.Object>, i: nat)
    returns (s': SlabRuns.System)
    requires Inv(h, sites, caches, objects) && i < |h.live|
    ensures Apply(h, sites, FreeOp(i)).Some?
    ensures SlabRuns.Apply(SlabRuns.System(h.bits, caches, objects), Shapes(sites), SlabRuns.FreeOp(i)) == Some(s')
    ensures Inv(Apply(h, sites, FreeOp(i)).value, sites, s'.caches, s'.live)
    ensures s'.bits == Apply(h, sites, FreeOp(i)).value.bits
    ensures Stepped(h, sites, caches, FreeOp(i), Apply(h, sites, FreeOp(i)).value, s'.caches)
  {
    hide Inv, Kept, SlabRuns.Apply, Stepped, Given, Store, Allocated;
    s' := FreeStands(h, sites, caches, objects, i);
    InvSizes(h, sites, caches, objects);
    var h' := Apply(h, sites, FreeOp(i)).value;
    PagesGrow(h, sites, caches, objects, SlabRuns.FreeOp(i), s');
    Sequences.RemovedFrom(h.live, i);
    CacheWriteSteps(h, sites, caches, FreeOp(i), h', s'.caches, s'.live, h.live[i].cache);
  }

  /** The address a holder stores to is an aligned word of memory inside a slab. */
  lemma StoreAddress(h: Heap, sites: seq<Site>, caches: seq<Cache>, objects: seq<SlabRuns.Object>, i: nat, w: nat)
    requires Inv(h, sites, caches, objects) && i < |h.live| && IsWord(sites, h.live[i], w)
    ensures var a := h.live[i].addr + 8 * w;
            && a % 8 == 0 && a / 8 < |h.ram| && h.live[i].addr % 8 == 0 && InSomeCache(sites, caches, a)
  {
    hide Represents, Away, SlabRuns.Inv, CellAddr, UserPointer, CellWord;
    LiveFacts(h, sites, caches, objects, i);
    var x, sh := objects[i], sites[objects[i].cache].sh;
    ObjectWordAt(sh, x.page, x.cell, w);
    WordIsAt(x.page, CellWord(sh, x.cell) + 1 + w);
    MemoryHolds(h.ram, x.page, CellWord(sh, x.cell) + 1 + w);
  }

  /** A store to word w of object i, seen from word u of object j. */
  lemma StoreSeen(h: Heap, sites: seq<Site>, caches: seq<Cache>, objects: seq<SlabRuns.Object>, i: nat, w: nat,
      v: u64, j: nat, u: nat)
    requires Inv(h, sites, caches, objects) && i < |h.live| && IsWord(sites, h.live[i], w)
    requires j < |h.live| && IsWord(sites, h.live[j], u)
    ensures WordOf(Store(h.ram, h.live[i].addr + 8 * w, v), h.live[j], u) ==
            if h.live[i] == h.live[j] && w == u then v else WordOf(h.ram, h.live[j], u)
  {
    hide Inv, Load, Store, InSomeCache;
    StoreAddress(h, sites, caches, objects, i, w);
    StoreAddress(h, sites, caches, objects, j, u);
    if i != j {
      LiveDistinct(h, sites, caches, objects);
      ObjectWordsDiffer(h, sites, caches, objects, i, w, j, u);
    }
    LoadAfterStore(h.ram, h.live[i].addr + 8 * w, v, h.live[j].addr + 8 * u);
  }

  lemma StoreUnseen(h: Heap, sites: seq<Site>, caches: seq<Cache>, objects: seq<SlabRuns.Object>, i: nat, w: nat,
      v: u64, b: nat)
    requires Inv(h, sites, caches, objects) && i < |h.live| && IsWord(sites, h.live[i], w)
    requires b % 8 == 0 && !InSomeCache(sites, caches, b)
    ensures Load(Store(h.ram, h.live[i].addr + 8 * w, v), b) == Load(h.ram, b)
  {
    hide Inv, Load, Store, InSomeCache;
    StoreAddress(h, sites, caches, objects, i, w);
    LoadAfterStore(h.ram, h.live[i].addr + 8 * w, v, b);
  }

  lemma StoreSteps(h: Heap, sites: seq<Site>, caches: seq<Cache>, objects: seq<SlabRuns.Object>, i: nat, w: nat, v: u64)
    requires Inv(h, sites, caches, objects) && Apply(h, sites, StoreOp(i, w, v)).Some?
    ensures Inv(Apply(h, sites, StoreOp(i, w, v)).value, sites, caches, objects)
    ensures Stepped(h, sites, caches, StoreOp(i, w, v), Apply(h, sites, StoreOp(i, w, v)).value, caches)
  {
    hide Inv, Load, Store, InSomeCache, Given, Allocated, WordOf;
    StoreStands(h, sites, caches, objects, i, w, v);
    InvSizes(h, sites, caches, objects);
    forall y, u: nat | y in h.live && IsWord(sites, y, u)
      ensures WordOf(Store(h.ram, h.live[i].addr + 8 * w, v), y, u) ==
              StoredBy(h, StoreOp(i, w, v), y, u, WordOf(h.ram, y, u))
    {
      var j :| 0 <= j < |h.live| && h.live[j] == y;
      StoreSeen(h, sites, caches, objects, i, w, v, j, u);
    }
    forall b: nat | b % 8 == 0 && !InSomeCache(sites, caches, b)
      ensures Load(Store(h.ram, h.live[i].addr + 8 * w, v), b) == Load(h.ram, b)
    {
      StoreUnseen(h, sites, caches, objects, i, w, v, b);
    }
  }

  lemma MemoryHolds(m: seq<u64>, p: nat, g: nat)
    requires HasFrame(m, p) && g < 512
    ensures (4096 * p + 8 * g) / 8 < |m|
  {
  }

  // ---- whole runs

  /** The pointer is given back somewhere in the run. */
  ghost predicate Freed(h: Heap, sites: seq<Site>, ops: seq<Op>, x: Handout)
    requires SitesFit(sites) && |h.bits| <= FRAME_LIMIT
    decreases |ops|
  {
    ops != []
    && (Frees(h, ops[0], x)
        || match Apply(h, sites, ops[0])
           case None => false
           case Some(h') => Freed(h', sites, ops[1..], x))
  }

  /** The word after a run: the last thing its holder stored there, if anything. */
  ghost function LastStored(h: Heap, sites: seq<Site>, ops: seq<Op>, x: Handout, w: nat, before: u64): u64
    requires SitesFit(sites) && |h.bits| <= FRAME_LIMIT
    decreases |ops|
  {
    if ops == [] then before
    else
      var now := StoredBy(h, ops[0], x, w, before);
      match Apply(h, sites, ops[0])
      case None => now
      case Some(h') => LastStored(h', sites, ops[1..], x, w, now)
  }

  /** The calls on caches in a run, without the holders' stores. */
  function Calls(ops: seq<Op>): seq<SlabRuns.Op>
    decreases |ops|
  {
    if ops == [] then []
    else
      (match ops[0]
       case AllocOp(k) => [SlabRuns.AllocOp(k)]
       case FreeOp(i) => [SlabRuns.FreeOp(i)]
       case StoreOp(_, _, _) => []) + Calls(ops[1..])
  }

  lemma StepOnMemory(h: Heap, sites: seq<Site>, caches: seq<Cache>, objects: seq<SlabRuns.Object>, op: Op)
    returns (caches': seq<Cache>, objects': seq<SlabRuns.Object>)
    requires Inv(h, sites, caches, objects) && Apply(h, sites, op).Some?
    ensures var h' := Apply(h, sites, op).value;
            && Inv(h', sites, caches', objects') && Stepped(h, sites, caches, op, h', caches')
            && |caches| == |Shapes(sites)| && |h'.bits| <= FRAME_LIMIT
            && SlabRuns.Run(SlabRuns.System(h.bits, caches, objects), Shapes(sites), Calls([op]))
               == Some(SlabRuns.System(h'.bits, caches', objects'))
  {
    hide Inv, Stepped, SlabRuns.Apply;
    InvSizes(h, sites, caches, objects);
    match op {
      case AllocOp(k) =>
        var s' := AllocSteps(h, sites, caches, objects, k);
        caches', objects' := s'.caches, s'.live;
      case FreeOp(i) =>
        var s' := FreeSteps(h, sites, caches, objects, i);
        caches', objects' := s'.caches, s'.live;
      case StoreOp(i, w, v) =>
        StoreSteps(h, sites, caches, objects, i, w, v);
        caches', objects' := caches, objects;
    }
    InvSizes(Apply(h, sites, op).value, sites, caches', objects');
  }

  /**
   * What a run leaves: no slab is given up; every word of an object that was not given back holds
   * what its holder stored there last; memory outside the caches is as it was.
   */
  ghost predicate Ran(h: Heap, sites: seq<Site>, caches: seq<Cache>, ops: seq<Op>, h': Heap, caches': seq<Cache>)
    requires SitesFit(sites) && |h.bits| <= FRAME_LIMIT
  {
    && |caches| == |caches'| == |sites|
    && (forall k, p :: 0 <= k < |sites| && p in caches[k].chain ==> p in caches'[k].chain)
    && (forall x, w: nat :: x in h.live && !Freed(h, sites, ops, x) && IsWord(sites, x, w) ==>
          x in h'.live && WordOf(h'.ram, x, w) == LastStored(h, sites, ops, x, w, WordOf(h.ram, x, w)))
    && (forall b: nat :: b % 8 == 0 && !InSomeCache(sites, caches', b) ==> Load(h'.ram, b) == Load(h.ram, b))
  }

  lemma RanInTurn(h: Heap, sites: seq<Site>, caches: seq<Cache>, ops: seq<Op>, h1: Heap, caches1: seq<Cache>,
                  h': Heap, caches': seq<Cache>)
    requires SitesFit(sites) && |h.bits| <= FRAME_LIMIT && |h1.bits| <= FRAME_LIMIT && ops != []
    requires Apply(h, sites, ops[0]) == Some(h1)
    requires Stepped(h, sites, caches, ops[0], h1, caches1) && Ran(h1, sites, caches1, ops[1..], h', caches')
    ensures Ran(h, sites, caches, ops, h', caches')
  {
    hide Apply, Load, WordOf, StoredBy, Frees, IsWord;
    forall b: nat | b % 8 == 0 && !InSomeCache(sites, caches', b) ensures Load(h'.ram, b) == Load(h.ram, b) {
      assert !InSomeCache(sites, caches1, b);
    }
  }

  lemma {:induction false} CallsInTurn(s: SlabRuns.System, shapes: seq<Shape>, op: Op, ops: seq<Op>)
    requires |shapes| == |s.caches| && ops != [] && op == ops[0]
    requires SlabRuns.Run(s, shapes, Calls([op])).Some?
    requires |SlabRuns.Run(s, shapes, Calls([op])).value.caches| == |shapes|
    ensures SlabRuns.Run(s, shapes, Calls(ops)) ==
            SlabRuns.Run(SlabRuns.Run(s, shapes, Calls([op])).value, shapes, Calls(ops[1..]))
  {
    hide SlabRuns.Apply;
    assert [op][1..] == [];
    if !op.StoreOp? {
      var c := Calls(ops)[0];
      assert Calls([op]) == [c] && [c][1..] == [];
      assert Calls(ops)[1..] == Calls(ops[1..]);
    } else {
      assert Calls([op]) == [] && Calls(ops) == Calls(ops[1..]);
    }
  }

  /**
   * Over every run on memory: each cache stays represented, the pointers out are exactly the live
   * objects of a run of the abstract caches, and holders keep what they stored.
   */
  lemma {:induction false} EveryRunOnMemory(h: Heap, sites: seq<Site>, caches: seq<Cache>,
      objects: seq<SlabRuns.Object>, ops: seq<Op>)
    returns (h': Heap, caches': seq<Cache>, objects': seq<SlabRuns.Object>)
    requires Inv(h, sites, caches, objects)
    requires SitesFit(sites) && |h.bits| <= FRAME_LIMIT && |caches| == |sites| && Run(h, sites, ops).Some?
    ensures Run(h, sites, ops) == Some(h')
    ensures Inv(h', sites, caches', objects') && Ran(h, sites, caches, ops, h', caches')
    ensures SlabRuns.Run(SlabRuns.System(h.bits, caches, objects), Shapes(sites), Calls(ops))
            == Some(SlabRuns.System(h'.bits, caches', objects'))
    decreases |ops|
  {
    hide Inv, Stepped, Apply, SlabRuns.Apply, Calls;
    if ops == [] {
      h', caches', objects' := h, caches, objects;
      NothingCalled(ops);
    } else {
      hide Ran;
      var caches1, objects1 := StepOnMemory(h, sites, caches, objects, ops[0]);
      var h1 := Apply(h, sites, ops[0]).value;
      InvSizes(h1, sites, caches1, objects1);
      h', caches', objects' := EveryRunOnMemory(h1, sites, caches1, objects1, ops[1..]);
      RanInTurn(h, sites, caches, ops, h1, caches1, h', caches');
      CallsInTurn(SlabRuns.System(h.bits, caches, objects), Shapes(sites), ops[0], ops);
    }
  }

  lemma NothingCalled(ops: seq<Op>)
    requires ops == []
    ensures Calls(ops) == []
  {
  }

  /** Two pointers out at the end of a run never share a byte. */
  lemma PointersStayDisjoint(h: Heap, sites: seq<Site>, caches: seq<Cache>, objects: seq<SlabRuns.Object>, i: nat,
      j: nat)
    requires Inv(h, sites, caches, objects) && i < |h.live| && j < |h.live| && i != j
    ensures h.live[i].cache < |sites| && h.live[j].cache < |sites|
    ensures var a, b := h.live[i].addr, h.live[j].addr;
            var m, n := 8 * sites[h.live[i].cache].sh.words - 8, 8 * sites[h.live[j].cache].sh.words - 8;
            a + m <= b || b + n <= a
  {
    hide Represents, Away, SlabRuns.Inv, CellAddr, UserPointer, SlabRuns.LiveIn;
    var s, shapes := SlabRuns.System(h.bits, caches, objects), Shapes(sites);
    LiveFacts(h, sites, caches, objects, i);
    LiveFacts(h, sites, caches, objects, j);
    assert objects[i] in s.live && objects[j] in s.live;
    SlabRuns.ObjectInItsPage(s, shapes, objects[i]);
    SlabRuns.ObjectInItsPage(s, shapes, objects[j]);
    SlabRuns.ObjectsAreDisjoint(s, shapes, i, j);
  }

  /** The state after slabInitCache on each cache. */
  lemma FreshHeap(ram: seq<u64>, bits: seq<bool>, sites: seq<Site>)
    requires Placed(Heap(ram, bits, []), sites)
    requires forall k :: 0 <= k < |sites| ==> ListsAt(ram, sites[k].lists, [[], [], []])
    ensures Inv(Heap(ram, bits, []), sites, seq(|sites|, _ => Cache([], [], [], map[])), [])
  {
    hide Away, ListsAt;
    var caches := seq(|sites|, _ => Cache([], [], [], map[]));
    SlabRuns.FreshCaches(bits, Shapes(sites));
    assert seq(|Shapes(sites)|, _ => Cache([], [], [], map[])) == caches;
    forall k | 0 <= k < |sites| ensures Represents(ram, sites[k].sh, sites[k].lists, caches[k]) {
      assert Lists(caches[k]) == [[], [], []];
    }
  }
}
