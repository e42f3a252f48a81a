/** kernel/src/mem/slab.c as it runs: headers, links and lists written in place in physical memory. */
module Slabs {
  import opened Words
  import opened Options
  import opened Ram
  import opened Paging
  import opened BitSeq
  import opened PageOwnership
  import opened Pmm
  import opened LinkedList
  import opened SlabModel
  import opened SlabLayout
  import opened SlabSteps
  import opened SlabMemory
  import opened SlabFrames
  import opened SlabDrift

  datatype InitResult = CacheReady | TooLarge | DividedByZero

  /** ALIGN_UP(size, 8) + sizeof(u64) on 64-bit words. */
  function CellBytes(size: u64): u64 {
    ((size + 7) % 0x1_0000_0000_0000_0000 / 8 * 8 + 8) % 0x1_0000_0000_0000_0000
  }

  function ShapeOf(size: u64): Shape
    requires CellBytes(size) > 0
  {
    Shape(CellBytes(size) / 8, 4056 / CellBytes(size))
  }

  /** A cache gets cells that hold the object exactly when the object is at most 4048 bytes. */
  lemma UsableSizes(size: u64)
    requires size > 0
    ensures CellBytes(size) > 0 && ShapeOf(size).Fits() <==> size <= 4048
    ensures size <= 4048 ==> size <= 8 * ShapeOf(size).words - 8 < size + 8
  {
    if size <= 4048 {
      SmallSizesFit(size);
    } else {
      LargeSizesDoNotFit(size);
    }
  }

  /** A slab has as many cells behind its 40-byte header as fit its page, and each holds one object and its link. */
  lemma SlabIsFull(size: u64)
    requires 0 < size <= 4048
    ensures CellBytes(size) > 0
    ensures var w, n := ShapeOf(size).words, ShapeOf(size).cells;
            && CellBytes(size) == 8 * w
            && size <= 8 * w - 8 < size + 8
            && 40 + n * (8 * w) <= 4096 < 40 + (n + 1) * (8 * w)
  {
    SmallSizesFit(size);
    CellsAreWords(size);
    var b := CellBytes(size);
    hide CellBytes;
    QuotientFills(b);
  }

  lemma QuotientFills(b: nat)
    requires b > 0
    ensures 4056 / b * b <= 4056 < (4056 / b + 1) * b
  {
    assert 4056 == 4056 / b * b + 4056 % b;
  }

  /** Near 2^64 the rounding wraps: fifteen sizes, of which eight divide by 0 and seven pass with 8-byte cells. */
  lemma CellBytesOfSizes(size: u64)
    requires size > 0
    ensures CellBytes(size) == 0 <==> 0xffff_ffff_ffff_fff1 <= size <= 0xffff_ffff_ffff_fff8
    ensures size >= 0xffff_ffff_ffff_fff9 ==> CellBytes(size) == 8
    ensures 4048 < size < 0xffff_ffff_ffff_fff1 ==> CellBytes(size) > 4056
    ensures size <= 4048 ==> 16 <= CellBytes(size) <= 4056
  {
    if size < 0xffff_ffff_ffff_fff1 {
      assert (size + 7) / 8 * 8 + 8 < WORD;
    } else if size <= 0xffff_ffff_ffff_fff8 {
      assert (size + 7) / 8 * 8 == 0xffff_ffff_ffff_fff8;
    }
  }

  lemma SmallSizesFit(size: u64)
    requires 0 < size <= 4048
    ensures CellBytes(size) > 0 && ShapeOf(size).Fits()
    ensures size <= 8 * ShapeOf(size).words - 8 < size + 8
  {
    var b := CellBytes(size);
    assert b == (size + 7) / 8 * 8 + 8;
    hide CellBytes;
    var n, w := 4056 / b, b / 8;
    DivTimes(4056, b);
    SmallQuotient(b);
    Assoc(n, w);
  }

  lemma LargeSizesDoNotFit(size: u64)
    requires size > 4048
    ensures CellBytes(size) == 0 || CellBytes(size) == 8 || CellBytes(size) > 4056
    ensures CellBytes(size) > 0 ==> !ShapeOf(size).Fits()
  {
    hide CellBytes;
    LargeSizesRound(size);
    if CellBytes(size) > 0 {
      SmallQuotient(CellBytes(size));
    }
  }

  lemma LargeSizesRound(size: u64)
    requires size > 4048
    ensures CellBytes(size) == 0 || CellBytes(size) == 8 || CellBytes(size) > 4056
  {
    if size + 7 < WORD && size < 0xffff_ffff_ffff_fff1 {
      assert CellBytes(size) == (size + 7) / 8 * 8 + 8;
    }
  }

  lemma SmallQuotient(b: u64)
    requires b > 0
    ensures 4056 / b >= 1 <==> b <= 4056
  {
    if b > 4056 {
      SmallDiv(4056, b);
    } else {
      DivTimes(4056, b);
    }
  }

  lemma DivTimes(a: nat, b: nat)
    requires b > 0
    ensures b * (a / b) <= a
  {
  }

  lemma SmallDiv(a: nat, b: nat)
    requires a < b
    ensures a / b == 0
  {
  }

  lemma Assoc(n: nat, w: nat)
    ensures 8 * (n * w) == (8 * w) * n
  {
  }

  lemma CellsAreWords(size: u64)
    ensures CellBytes(size) % 8 == 0
  {
  }

  /** The wrap-around: a size this large passes every assertion, with cells that hold no object at all. */
  lemma HugeSizesSlipThrough()
    ensures CellBytes(0xffff_ffff_ffff_ffff) == 8 && ShapeOf(0xffff_ffff_ffff_ffff) == Shape(1, 507)
  {
  }

  class SlabCache {
    const ram: array<u64>
    const pmm: PageAllocator
    /** Address of the heads of the lists full, partial and empty, 16 bytes apart. */
    const lists: nat
    var objSize: u64
    var objPerSlab: u64
    ghost var abs: Cache

    constructor (ram: array<u64>, pmm: PageAllocator, lists: nat)
      ensures this.ram == ram && this.pmm == pmm && this.lists == lists
    {
      this.ram := ram;
      this.pmm := pmm;
      this.lists := lists;
      this.objSize := 0;
      this.objPerSlab := 0;
      this.abs := Cache([], [], [], map[]);
    }

    function Layout(): Shape
      reads this
    {
      Shape(objSize / 8, objPerSlab)
    }

    /** The page allocator covers no more than memory and never hands out the page of the list heads. */
    ghost predicate Placed()
      reads pmm, pmm.bitmap, if pmm.bitmap == null then {} else {pmm.bitmap.data}
    {
      && pmm.Valid() && (pmm.bitmap.data as object) != ram
      && |pmm.Bits()| <= FRAME_LIMIT && 512 * |pmm.Bits()| <= ram.Length
      && (forall p: nat :: p < |pmm.Bits()| && !Away(lists, p) ==> pmm.Bits()[p])
    }

    /** Memory holds the cache abs, and all its slabs are pages the allocator has marked used. */
    ghost predicate Valid()
      reads this, ram, pmm, pmm.bitmap, if pmm.bitmap == null then {} else {pmm.bitmap.data}
    {
      && Placed()
      && objSize % 8 == 0 && objSize > 0
      && Represents(ram[..], Layout(), lists, abs)
      && Marked(abs, pmm.Bits())
    }

    /** The allocator will not hand out a page that is a slab. */
    static ghost predicate Marked(c: Cache, bits: seq<bool>) {
      forall p :: p in c.chain ==> p < |bits| && bits[p]
    }

    static lemma MarkedAgain(c: Cache, d: Cache, bits: seq<bool>)
      requires Marked(c, bits) && d.chain.Keys == c.chain.Keys
      ensures Marked(d, bits)
    {
    }

    static lemma MarkedWithNew(c: Cache, cells: nat, bits: seq<bool>, p: nat)
      requires Marked(c, bits) && p < |bits|
      ensures Marked(Grow(c, cells, p), Filled(bits, p, p + 1, true))
    {
    }

    /** A write by another cache whose pages and heads lie apart from this one's. */
    twostate lemma StaysValid(sh: Shape, lists': nat, pages: set<nat>)
      requires old(Valid()) && Placed() && objSize == old(objSize) && objPerSlab == old(objPerSlab) && abs == old(abs)
      requires Kept(old(ram[..]), ram[..], sh, lists', pages) && LieApart(lists, abs.chain.Keys, lists', pages)
      requires Marked(abs, pmm.Bits())
      ensures Valid()
    {
      hide Represents, Kept, LieApart, Marked, Placed;
      OtherCacheKept(old(ram[..]), ram[..], sh, lists', pages, Layout(), lists, abs);
    }

    /** A store by the holder of cell i of page p into its object. */
    twostate lemma SurvivesStore(p: nat, i: nat, w: nat, v: u64)
      requires old(Valid()) && Placed() && objSize == old(objSize) && objPerSlab == old(objPerSlab) && abs == old(abs)
      requires pmm.Bits() == old(pmm.Bits())
      requires IsLive(abs, objPerSlab, p, i) && InObject(Layout(), i, w) && ram[..] == SetEntry(old(ram[..]), p, w, v)
      ensures Valid()
    {
      hide Represents, SlabAt, InObject, SetEntry, Placed, Away;
      ghost var m := old(ram[..]);
      RepresentsFacts(m, Layout(), lists, abs);
      SlabIsInMemory(m, Layout(), p, abs.chain[p]);
      ObjectStoreKept(m, p, i, w, v, Layout(), Layout(), lists, abs);
    }

    method LoadWord(a: nat) returns (w: u64)
      requires a / 8 < ram.Length
      ensures w == Load(ram[..], a)
    {
      w := ram[a / 8];
    }

    method StoreWord(a: nat, w: u64)
      requires a / 8 < ram.Length
      modifies ram
      ensures ram[..] == Store(old(ram[..]), a, w)
    {
      ram[a / 8] := w;
    }

    /** slabInitCache for a zero-sized cache in place. */
    method Init(size: u64) returns (r: InitResult)
      requires size > 0 && Placed()
      requires NodeAt(ram[..], lists) && NodeAt(ram[..], lists + 16) && NodeAt(ram[..], lists + 32)
      modifies this, ram
      ensures r == DividedByZero <==> 0xffff_ffff_ffff_fff1 <= size <= 0xffff_ffff_ffff_fff8
      ensures r == TooLarge <==> 4048 < size < 0xffff_ffff_ffff_fff1
      ensures r == CacheReady ==> Layout() == ShapeOf(size) && abs == Cache([], [], [], map[])
      ensures size <= 4048 ==>
                var w, n := Layout().words, Layout().cells;
                && Valid() && abs.full == [] && abs.partial == [] && abs.empty == []
                && objSize == 8 * w && size <= 8 * w - 8 < size + 8
                && 40 + n * (8 * w) <= 4096 < 40 + (n + 1) * (8 * w)
      ensures forall sh :: Kept(old(ram[..]), ram[..], sh, lists, {})
    {
      hide Kept, Ring, ListsAt, Represents, Load, CellBytes, Away;
      UsableSizes(size);
      CellBytesOfSizes(size);
      if size <= 4048 { SlabIsFull(size); }
      CellsAreWords(size);
      InitHeads();
      objSize := CellBytes(size);
      abs := Cache([], [], [], map[]);
      if objSize == 0 {
        return DividedByZero;
      }
      objPerSlab := 4056 / objSize;
      SmallQuotient(objSize);
      if objPerSlab < 1 {
        return TooLarge;
      }
      if size <= 4048 {
        EmptyCache(ram[..], Layout(), lists);
      }
      return CacheReady;
    }

    method InitHeads()
      requires NodeAt(ram[..], lists) && NodeAt(ram[..], lists + 16) && NodeAt(ram[..], lists + 32)
      modifies ram
      ensures ListsAt(ram[..], lists, [[], [], []])
      ensures forall sh :: Kept(old(ram[..]), ram[..], sh, lists, {})
    {
      hide Kept, Ring, Initialised, ListsAt, Load;
      InitHead(ram, lists);
      ghost var m1 := ram[..];
      HeadsSurvive(old(ram[..]), lists, lists + 16);
      HeadsSurvive(old(ram[..]), lists, lists + 32);
      InitHead(ram, lists + 16);
      ghost var m2 := ram[..];
      HeadsSurvive(m1, lists + 16, lists + 32);
      InitHead(ram, lists + 32);
      EmptyLists(old(ram[..]), m1, m2, ram[..], lists);
      forall sh ensures Kept(old(ram[..]), ram[..], sh, lists, {}) {
        HeadsOnly(old(ram[..]), ram[..], sh, lists);
      }
    }

    static lemma HeadsOnly(m: seq<u64>, m': seq<u64>, sh: Shape, lists: nat)
      requires |m'| == |m|
      requires forall b: nat :: b % 8 == 0 && (b < lists || lists + 48 <= b) ==> Load(m', b) == Load(m, b)
      ensures Kept(m, m', sh, lists, {})
    {
      hide Load, HeaderOrLink;
    }

    static lemma EmptyCache(m: seq<u64>, sh: Shape, lists: nat)
      requires sh.Fits() && ListsAt(m, lists, [[], [], []])
      ensures Represents(m, sh, lists, Cache([], [], [], map[]))
    {
      hide ListsAt;
    }

    static lemma HeadsSurvive(m: seq<u64>, h: u64, x: nat)
      requires NodeAt(m, h) && NodeAt(m, x)
      ensures NodeAt(Initialised(m, h), x) && |Initialised(m, h)| == |m|
    {
    }

    /** The three heads, initialised one after another. */
    static lemma EmptyLists(m0: seq<u64>, m1: seq<u64>, m2: seq<u64>, m3: seq<u64>, lists: nat)
      requires NodeAt(m0, lists) && NodeAt(m0, lists + 16) && NodeAt(m0, lists + 32)
      requires m1 == Initialised(m0, lists) && m2 == Initialised(m1, lists + 16) && m3 == Initialised(m2, lists + 32)
      ensures ListsAt(m3, lists, [[], [], []]) && |m3| == |m0|
      ensures forall b: nat :: b % 8 == 0 && (b < lists || lists + 48 <= b) ==> Load(m3, b) == Load(m0, b)
    {
      hide Load, Store;
      assert |m1| == |m0| && |m2| == |m0| && |m3| == |m0|;
      forall b | b % 8 == 0
        ensures Load(m3, b) == if b == lists + 32 || b == lists + 40 then lists + 32
                               else if b == lists + 16 || b == lists + 24 then lists + 16
                               else if b == lists || b == lists + 8 then lists else Load(m0, b)
      {
        InitialisedWords(m0, lists, b);
        InitialisedWords(m1, lists + 16, b);
        InitialisedWords(m2, lists + 32, b);
      }
      forall k: nat | k < 3 ensures Ring(m3, lists + 16 * k, Heads([[], [], []][k])) {
        assert Joined(m3, lists + 16 * k, lists + 16 * k);
      }
    }

    static lemma CellAddrIs(sh: Shape, p: nat, i: nat, bytes: nat)
      requires bytes == 8 * sh.words
      ensures 4096 * p + 40 + i * bytes == CellAddr(sh, p, i)
    {
      assert i * (8 * sh.words) == 8 * (i * sh.words);
    }

    static lemma NodeAsEntries(m: seq<u64>, p: nat)
      requires HasFrame(m, p) && p < FRAME_LIMIT
      ensures NodeAt(m, Head(p)) && Head(p) < 0x1_0000_0000_0000_0000
      ensures Initialised(m, Head(p)) == SetEntry(SetEntry(m, p, 2, Head(p)), p, 3, Head(p))
    {
      StoreIsSetEntry(m, p, 2, Head(p));
      StoreIsSetEntry(SetEntry(m, p, 2, Head(p)), p, 3, Head(p));
    }

    lemma FreshPage(bits: seq<bool>)
      requires Valid() && bits == pmm.Bits() && TakePages(bits, 1).Some?
      ensures var p := TakePages(bits, 1).value.0 / PAGE_SIZE;
              && p < |bits| && !bits[p] && p !in abs.chain && Away(lists, p)
              && HasFrame(ram[..], p) && p < FRAME_LIMIT
              && TakePages(bits, 1).value.0 == 4096 * p
              && TakePages(bits, 1).value.1 == Filled(bits, p, p + 1, true)
    {
      FirstFitFromIsLeast(bits, 1, 0);
      var p := FirstFit(bits, 1);
      assert FreeRun(bits, p, 1);
    }

    /** The header of page p, as slabAllocSlab writes it. */
    method WriteHeader(p: nat)
      requires HasFrame(ram[..], p) && p < FRAME_LIMIT
      modifies ram
      ensures ram[..] == HeaderWritten(old(ram[..]), p)
    {
      hide SetEntry, Store, Initialised;
      ghost var m := ram[..];
      StoreIsSetEntry(m, p, 0, 4096 * p + 40);
      StoreWord(4096 * p, 4096 * p + 40);
      StoreIsSetEntry(ram[..], p, 1, 4096 * p + 40);
      StoreWord(4096 * p + 8, 4096 * p + 40);
      NodeAsEntries(ram[..], p);
      InitHead(ram, Head(p));
      StoreIsSetEntry(ram[..], p, 4, 0);
      StoreWord(4096 * p + 32, 0);
    }

    /** The loop of slabAllocSlab: every cell but the last gets a link to the next one, and nothing else is written. */
    method LinkCells(p: nat)
      requires Layout().Fits() && objSize % 8 == 0 && HasFrame(ram[..], p) && p < FRAME_LIMIT
      modifies ram
      ensures ram[..] == LinkedCells(old(ram[..]), Layout(), p, objPerSlab - 1)
    {
      hide Store, SetEntry, CellAddr, CellWord;
      ghost var m := ram[..];
      var start := 4096 * p + 40;
      var i := 0;
      while i < objPerSlab - 1
        invariant 0 <= i <= objPerSlab - 1
        invariant ram[..] == LinkedCells(m, Layout(), p, i)
      {
        CellsInPage(Layout(), i);
        CellAddrIs(Layout(), p, i, objSize);
        CellAddrIs(Layout(), p, i + 1, objSize);
        CellAddrFits(Layout(), p, i);
        CellAddrFits(Layout(), p, i + 1);
        StoreIsSetEntry(ram[..], p, CellWord(Layout(), i), start + (i + 1) * objSize);
        StoreWord(start + i * objSize, start + (i + 1) * objSize);
        i := i + 1;
      }
    }

    /** slabAllocSlab on the page it was given. */
    method WriteSlab(p: nat)
      requires Represents(ram[..], Layout(), lists, abs) && objSize % 8 == 0
      requires p !in abs.chain && Away(lists, p) && HasFrame(ram[..], p) && p < FRAME_LIMIT
      modifies ram
      ensures Layout().Fits() && lists + 32 < WORD && ram[..] == Added(old(ram[..]), Layout(), lists, p)
    {
      hide Represents, Away, Entry, SlabAt, HeaderWritten, LinkedCells, InsertedFront;
      ghost var m := ram[..];
      ListsFit(m, Layout(), lists, abs);
      PreparingDisturbsNothing(m, Layout(), lists, abs, p);
      WriteHeader(p);
      LinkCells(p);
      RepresentsFacts(ram[..], Layout(), lists, abs);
      ListFacts(ram[..], lists, Lists(abs), 2);
      NodeAsEntries(ram[..], p);
      InsertFront(ram, lists + 32, Head(p));
    }

    /** slabAllocSlab; false when the page allocator panics. */
    method AllocSlab() returns (ok: bool)
      requires Valid()
      modifies `abs, ram, pmm.bitmap.data
      ensures Layout().Fits() && lists + 32 < WORD
      ensures match TakePages(old(pmm.Bits()), 1)
              case None => !ok && Valid() && abs == old(abs) && pmm.Bits() == old(pmm.Bits()) && ram[..] == old(ram[..])
              case Some((addr, bits)) =>
                && ok && Valid() && pmm.Bits() == bits && addr / PAGE_SIZE < FRAME_LIMIT
                && abs == Grow(old(abs), objPerSlab, addr / PAGE_SIZE)
                && ram[..] == Added(old(ram[..]), Layout(), lists, addr / PAGE_SIZE)
                && Kept(old(ram[..]), ram[..], Layout(), lists, abs.chain.Keys)
    {
      hide Represents, Away, TakePages, Marked, Grow, Added, Kept, PageAllocator.Bits;
      ghost var m, bits, c := ram[..], pmm.Bits(), abs;
      ListsFit(m, Layout(), lists, c);
      if TakePages(bits, 1).Some? { FreshPage(bits); }
      var r := pmm.Alloc(1);
      if r == None {
        return false;
      }
      var p := r.value / PAGE_SIZE;
      AddedRepresents(m, Layout(), lists, c, p);
      AddedKept(m, Layout(), lists, c, p);
      GrownPages(c, objPerSlab, p);
      WriteSlab(p);
      abs := Grow(c, objPerSlab, p);
      MarkedWithNew(c, objPerSlab, bits, p);
      ok := true;
    }

    /** slabAlloc; None when the page allocator panics. */
    method Alloc() returns (r: Option<nat>)
      requires Valid()
      modifies `abs, ram, pmm.bitmap.data
      ensures Valid() && Layout().Fits() && lists + 32 < WORD && |old(pmm.Bits())| <= FRAME_LIMIT
      ensures Handed(Layout(), lists, old(ram[..]), old(abs), old(pmm.Bits()), ram[..], abs, pmm.Bits(), r)
      decreases if abs.HasFree() then 0 else 2
    {
      hide Represents, Marked, Away, TakePages, ListsAt, Take, Grow, Kept, Taken, Allocated, UserPointer,
           PageAllocator.Bits, Ring, Handed;
      ghost var m := ram[..];
      RepresentsFacts(m, Layout(), lists, abs);
      ListFacts(m, lists, Lists(abs), 1);
      ListFacts(m, lists, Lists(abs), 2);
      var noPartial := IsEmpty(ram, lists + 16, Heads(abs.partial));
      var noEmpty := IsEmpty(ram, lists + 32, Heads(abs.empty));
      if noPartial && noEmpty {
        r := AddThenAlloc();
      } else {
        r := TakeFirst(if noEmpty then lists + 16 else lists + 32);
      }
    }

    /** The branch of slabAlloc without a free cell: add a slab and start again. */
    method AddThenAlloc() returns (r: Option<nat>)
      requires Valid() && !abs.HasFree()
      modifies `abs, ram, pmm.bitmap.data
      ensures Valid() && Layout().Fits() && lists + 32 < WORD && |old(pmm.Bits())| <= FRAME_LIMIT
      ensures Handed(Layout(), lists, old(ram[..]), old(abs), old(pmm.Bits()), ram[..], abs, pmm.Bits(), r)
      decreases 1
    {
      hide Represents, Marked, Away, TakePages, Take, Grow, Kept, Added, Allocated, UserPointer,
           PageAllocator.Bits, Handed;
      ghost var m, c, bits := ram[..], abs, pmm.Bits();
      MarkedPages(c, bits);
      AllocatedRetries(m, Layout(), lists, c, bits);
      var ok := AllocSlab();
      if ok {
        GrownHasFree(c, objPerSlab, TakePages(bits, 1).value.0 / PAGE_SIZE);
        r := Alloc();
        HandedOnRetry(Layout(), lists, m, c, bits, ram[..], abs, pmm.Bits(), r);
      } else {
        NothingHanded(Layout(), lists, m, c, bits);
        r := None;
      }
    }

    static lemma MarkedPages(c: Cache, bits: seq<bool>)
      requires Marked(c, bits)
      ensures forall p :: p in c.chain ==> p < |bits| && bits[p]
    {
    }

    /** slabAlloc from the choice of the list on. */
    method TakeFirst(selected: nat) returns (r: Option<nat>)
      requires Valid() && abs.HasFree()
      requires selected == if abs.empty == [] then lists + 16 else lists + 32
      modifies `abs, ram
      ensures Valid() && Layout().Fits() && lists + 32 < WORD && |pmm.Bits()| <= FRAME_LIMIT
      ensures Handed(Layout(), lists, old(ram[..]), old(abs), old(pmm.Bits()), ram[..], abs, pmm.Bits(), r)
    {
      hide Represents, Marked, ListsAt, Load, Take, UserPointer, SlabAt, Away, Kept, Taken, PageAllocator.Bits, Handed;
      ghost var m, c, bits := ram[..], abs, pmm.Bits();
      RepresentsFacts(m, Layout(), lists, c);
      TakenPages(m, Layout(), lists, c);
      SelectedSlab(m, c);
      var slab := LoadWord(selected + 8);
      r := TakeCell(slab - 16);
      assert pmm.Bits() == bits;
      abs := Take(c);
      MarkedAgain(c, abs, bits);
      HandedAtOnce(Layout(), lists, m, c, bits);
    }

    /** LIST_ENTRY of the first node of the selected list is the front slab's page. */
    lemma SelectedSlab(m: seq<u64>, c: Cache)
      requires ListsAt(m, lists, Lists(c)) && c.HasFree()
      ensures var selected := if c.empty == [] then lists + 16 else lists + 32;
              (selected + 8) / 8 < |m| && Load(m, selected + 8) == Head(c.Front())
    {
      var k := if c.empty == [] then 1 else 2;
      ListFacts(m, lists, Lists(c), k);
      RingHead(m, lists + 16 * k, Heads(Lists(c)[k]));
    }

    /** llDelete and llInsertFront on the node of page p. */
    method MoveToFront(p: nat, j: nat, ghost ls: seq<seq<nat>>, ghost k: nat, ghost u: seq<nat>, ghost v: seq<nat>)
      requires ListsAt(ram[..], lists, ls) && k < 3 && j < 3 && ls[k] == u + [p] + v
      requires Away(lists, p) && HasFrame(ram[..], p) && p < FRAME_LIMIT
      modifies ram
      ensures lists + 16 * j < 0x1_0000_0000_0000_0000 && Head(p) < 0x1_0000_0000_0000_0000
      ensures ram[..] == InsertedFront(Deleted(old(ram[..]), Head(p)), lists + 16 * j, Head(p))
    {
      hide ListsAt, Away, Load, Store, Deleted, InsertedFront;
      ghost var m := ram[..];
      DeleteIsSafe(m, lists, ls, k, u, p, v);
      DeleteFromList(m, lists, ls, k, u, p, v);
      ListFacts(m, lists, ls, k);
      NodeAsEntries(m, p);
      Delete(ram, Head(p));
      ListFacts(ram[..], lists, ls[k := u + v], j);
      DeletedLength(m, Head(p));
      InsertFront(ram, lists + 16 * j, Head(p));
    }

    /** The header writes of slabAlloc: the cell popped and the new usedObj. */
    method PopFirst(slab: nat, ghost p: nat, ghost w: nat) returns (result: nat, used: u64)
      requires slab == 4096 * p && HasFrame(ram[..], p) && 5 <= w < 512 && Entry(ram[..], p, 1) == 4096 * p + 8 * w
      modifies ram
      ensures result == 4096 * p + 8 * w
      ensures used == (Entry(old(ram[..]), p, 4) + 1) % 0x1_0000_0000_0000_0000
      ensures ram[..] == SetEntry(SetEntry(old(ram[..]), p, 1, Entry(old(ram[..]), p, w)), p, 4, used)
    {
      hide Entry, SetEntry, Load, Store;
      ghost var m := ram[..];
      EntryIsLoad(m, p, 1);
      EntryIsLoad(m, p, w);
      result := LoadWord(slab + 8);
      var link := LoadWord(result);
      StoreIsSetEntry(m, p, 1, link);
      StoreWord(slab + 8, link);
      ghost var m1 := ram[..];
      EntryIsLoad(m1, p, 4);
      EntryAfterSet(m, p, 1, link, p, 4);
      var count: nat := LoadWord(slab + 32);
      used := (count + 1) % 0x1_0000_0000_0000_0000;
      StoreIsSetEntry(m1, p, 4, used);
      StoreWord(slab + 32, used);
    }

    /** The writes of slabFree up to usedObj. */
    method PushFirst(addr: u64, slab: nat, ghost p: nat, ghost w: nat) returns (used: u64)
      requires slab == 4096 * p && HasFrame(ram[..], p) && p < FRAME_LIMIT && w < 512 && addr == 4096 * p + 8 * w
      modifies ram
      ensures ram[..] == Pushed(old(ram[..]), p, w) && used == Entry(ram[..], p, 4)
    {
      hide Entry, SetEntry, Load, Store;
      ghost var m := ram[..];
      EntryIsLoad(m, p, 1);
      var first := LoadWord(slab + 8);
      StoreIsSetEntry(m, p, w, first);
      StoreWord(addr, first);
      ghost var m1 := ram[..];
      StoreIsSetEntry(m1, p, 1, addr);
      StoreWord(slab + 8, addr);
      ghost var m2 := ram[..];
      EntryIsLoad(m2, p, 4);
      var count: nat := LoadWord(slab + 32);
      used := (count + (WORD - 1)) % WORD;
      StoreIsSetEntry(m2, p, 4, used);
      EntryAfterSet(m2, p, 4, used, p, 4);
      StoreWord(slab + 32, used);
    }

    /** slabAlloc on the slab whose header is at byte address `slab`. */
    method TakeCell(slab: nat) returns (r: Option<nat>)
      requires Represents(ram[..], Layout(), lists, abs) && abs.HasFree()
      requires slab == 4096 * abs.Front()
      modifies ram
      ensures abs.Front() in abs.chain && abs.chain[abs.Front()] != [] && lists + 32 < WORD
      ensures Represents(ram[..], Layout(), lists, Take(abs))
      ensures r == Some(UserPointer(Layout(), abs.Front(), abs.chain[abs.Front()][0]))
      ensures ram[..] == Taken(old(ram[..]), Layout(), lists).0 && r == Some(Taken(old(ram[..]), Layout(), lists).1)
    {
      hide Taken, Represents, Away, Entry, SetEntry, SlabAt, ListsAt, CellAddr, CellWord, Load, Deleted,
           InsertedFront, Take,
           Consistent, IsLive, FRAME_LIMIT, Head;
      ghost var m, p := ram[..], abs.Front();
      RepresentsFacts(m, Layout(), lists, abs);
      TakeRepresented(m, Layout(), lists, abs);
      TakenIs(m, Layout(), lists, abs);
      PopRepresented(m, Layout(), lists, abs, p);
      FrontPlace(abs, objPerSlab);
      ghost var i := abs.chain[p][0];
      ghost var w := CellWord(Layout(), i);
      FrontIsFree(abs, objPerSlab);
      CellAddrFits(Layout(), p, i);
      var result, used := PopFirst(slab, p, w);
      if used == objPerSlab {
        ghost var k := if abs.empty == [] then 1 else 2;
        MoveToFront(slab / 4096, 0, Lists(abs), k, [], Lists(abs)[k][1..]);
      }
      assert ram[..] == AfterTake(m, Layout(), lists, p, w);
      r := Some(result + 8);
    }

    /**
     * slabFree, given the address of any word of a slab but the two of its list node. The header
     * is found by rounding that address down to a page. Given the link of a live cell the cache
     * loses that object; given any other word no cache is left.
     */
    method Free(addr: u64, ghost p: nat, ghost w: nat)
      requires Valid() && p in abs.chain && w < 512 && w != 2 && w != 3 && addr == 4096 * p + 8 * w
      modifies `abs, ram
      ensures lists + 32 < WORD && ram[..] == Given(old(ram[..]), lists, addr)
      ensures forall i: nat :: IsLive(old(abs), objPerSlab, p, i) && w == CellWord(Layout(), i) ==>
                && Valid() && abs == Give(old(abs), objPerSlab, p, i)
                && Kept(old(ram[..]), ram[..], Layout(), lists, abs.chain.Keys)
      ensures (forall i: nat :: IsLive(old(abs), objPerSlab, p, i) ==> w != CellWord(Layout(), i)) ==>
                abs == old(abs) && !HoldsACache(ram[..], Layout(), lists)
    {
      hide Kept, Given, Represents, Marked, Give, Consistent, IsLive, CellWord, Away, PageAllocator.Bits, HoldsACache;
      ghost var m, c, bits := ram[..], abs, pmm.Bits();
      FreeableIff(m, Layout(), lists, c, p, w);
      GiveWord(addr, p, w);
      assert pmm.Bits() == bits;
      if i: nat :| IsLive(c, objPerSlab, p, i) && w == CellWord(Layout(), i) {
        FreeOfLiveCell(m, c, p, i);
        abs := Give(c, objPerSlab, p, i);
        MarkedAgain(c, abs, pmm.Bits());
        forall j: nat | IsLive(c, objPerSlab, p, j) && w == CellWord(Layout(), j) ensures j == i {
          LiveLinksDiffer(m, c, p, i, j);
        }
      }
    }

    lemma FreeOfLiveCell(m: seq<u64>, c: Cache, p: nat, i: nat)
      requires Represents(m, Layout(), lists, c) && IsLive(c, objPerSlab, p, i)
      ensures CellAddr(Layout(), p, i) == 4096 * p + 8 * CellWord(Layout(), i)
      ensures lists + 32 < WORD && CellAddr(Layout(), p, i) < WORD
      ensures var m', d := Given(m, lists, CellAddr(Layout(), p, i)), Give(c, objPerSlab, p, i);
              && Represents(m', Layout(), lists, d) && d.chain.Keys == c.chain.Keys
              && Kept(m, m', Layout(), lists, d.chain.Keys)
    {
      hide Represents, Kept, Given, Give, CellAddr, CellWord;
      LiveCellAddr(m, Layout(), lists, c, p, i);
      GivenStands(m, Layout(), lists, c, p, i);
    }

    lemma LiveLinksDiffer(m: seq<u64>, c: Cache, p: nat, i: nat, j: nat)
      requires Represents(m, Layout(), lists, c) && IsLive(c, objPerSlab, p, i) && IsLive(c, objPerSlab, p, j)
      requires CellWord(Layout(), i) == CellWord(Layout(), j)
      ensures i == j
    {
      hide Represents, SlabAt, ListsAt, CellWord;
      RepresentsFacts(m, Layout(), lists, c);
      if i != j { CellsAreDistinct(Layout(), i, j); }
    }

    /** The stores of slabFree. */
    method GiveWord(addr: u64, ghost p: nat, ghost w: nat)
      requires Represents(ram[..], Layout(), lists, abs) && p in abs.chain
      requires w < 512 && w != 2 && w != 3 && addr == 4096 * p + 8 * w
      modifies ram
      ensures lists + 32 < WORD && ram[..] == Given(old(ram[..]), lists, addr)
    {
      hide Given, Represents, Away, Entry, SlabAt, ListsAt, Load, Deleted, InsertedFront, Pushed, Consistent,
           FRAME_LIMIT, Head;
      ghost var m, c := ram[..], abs;
      RepresentsFacts(m, Layout(), lists, c);
      ListsFit(m, Layout(), lists, c);
      SlabIsInMemory(m, Layout(), p, c.chain[p]);
      WordIsAt(p, w);
      PushedKeepsLists(m, lists, Lists(c), p, w);
      GivenIsPushed(m, lists, p, w);
      var slab := addr / 4096 * 4096;
      var used := PushFirst(addr, slab, p, w);
      ghost var k, u, v := PlaceOf(c, p) by { ListsOfConsistent(c, objPerSlab, p); }
      MoveToFront(addr / 4096, if used == 0 then 2 else 1, Lists(c), k, u, v);
    }
  }
}
