/** The stores of kernel/src/mem/slab.c as functions on memory words alone, and the words they leave as they were. */
module SlabMemory {
  import opened Words
  import opened Options
  import opened Ram
  import opened Paging
  import BitSeq
  import opened PageOwnership
  import opened LinkedList
  import opened SlabModel
  import opened SlabLayout
  import opened SlabSteps

  // ---- the code's stores

  /** The loop of slabAllocSlab after n rounds. */
  function LinkedCells(m: seq<u64>, sh: Shape, p: nat, n: nat): (r: seq<u64>)
    requires sh.Fits() && p < FRAME_LIMIT && n < sh.cells
    ensures |r| == |m|
  {
    if n == 0 then m
    else
      CellAddrFits(sh, p, n);
      SetEntry(LinkedCells(m, sh, p, n - 1), p, CellWord(sh, n - 1), CellAddr(sh, p, n))
  }

  /** The header writes of slabAllocSlab. */
  function HeaderWritten(m: seq<u64>, p: nat): (r: seq<u64>)
    requires p < FRAME_LIMIT
    ensures |r| == |m|
  {
    var m1 := SetEntry(SetEntry(m, p, 0, 4096 * p + 40), p, 1, 4096 * p + 40);
    SetEntry(SetEntry(SetEntry(m1, p, 2, Head(p)), p, 3, Head(p)), p, 4, 0)
  }

  /** slabAllocSlab up to the end of its loop. */
  function Prepared(m: seq<u64>, sh: Shape, p: nat): (r: seq<u64>)
    requires sh.Fits() && p < FRAME_LIMIT
    ensures |r| == |m|
  {
    LinkedCells(HeaderWritten(m, p), sh, p, sh.cells - 1)
  }

  /** slabAllocSlab on page p. */
  function Added(m: seq<u64>, sh: Shape, lists: nat, p: nat): seq<u64>
    requires sh.Fits() && p < FRAME_LIMIT && lists + 32 < WORD
  {
    InsertedFront(Prepared(m, sh, p), lists + 32, Head(p))
  }

  /** slabAlloc from the choice of the list on, and the pointer it returns. */
  function Taken(m: seq<u64>, sh: Shape, lists: nat): (seq<u64>, u64)
    requires lists + 32 < WORD
  {
    var selected := if Next(m, lists + 32) == lists + 32 then lists + 16 else lists + 32;
    var node := Next(m, selected);
    var slab := (node + WORD - 16) % WORD;
    var result := Load(m, slab + 8);
    var m1 := Store(m, slab + 8, Load(m, result));
    var used := (Load(m1, slab + 32) + 1) % WORD;
    var m2 := Store(m1, slab + 32, used);
    (if used == sh.cells then InsertedFront(Deleted(m2, node), lists, node) else m2, (result + 8) % WORD)
  }

  /** slabAlloc: memory, bit set and pointer; None when the page allocator panics. */
  function Allocated(m: seq<u64>, sh: Shape, lists: nat, bits: seq<bool>): Option<(seq<u64>, seq<bool>, u64)>
    requires sh.Fits() && |bits| <= FRAME_LIMIT && lists + 32 < WORD
  {
    if Next(m, lists + 16) == lists + 16 && Next(m, lists + 32) == lists + 32 then
      match TakePages(bits, 1)
      case None => None
      case Some((addr, bits')) =>
        var (m', r) := Taken(Added(m, sh, lists, addr / PAGE_SIZE), sh, lists);
        Some((m', bits', r))
    else
      var (m', r) := Taken(m, sh, lists);
      Some((m', bits, r))
  }

  /** slabFree on any word address. */
  function Given(m: seq<u64>, lists: nat, addr: u64): seq<u64>
    requires lists + 32 < WORD
  {
    var slab := addr / 4096 * 4096;
    var m1 := Store(Store(m, addr, Load(m, slab + 8)), slab + 8, addr);
    var used := (Load(m1, slab + 32) + (WORD - 1)) % WORD;
    var m2 := Store(m1, slab + 32, used);
    InsertedFront(Deleted(m2, slab + 16), if used == 0 then lists + 32 else lists + 16, slab + 16)
  }

  lemma WordIsAt(p: nat, w: nat)
    requires w < 512
    ensures (4096 * p + 8 * w) % 8 == 0 && (4096 * p + 8 * w) / 4096 == p && (4096 * p + 8 * w) % 4096 / 8 == w
  {
  }

  /** slabFree's stores to the page itself, for any word that is not of its list node. */
  function Pushed(m: seq<u64>, p: nat, w: nat): seq<u64>
    requires p < FRAME_LIMIT && w < 512
  {
    var m2 := SetEntry(SetEntry(m, p, w, Entry(m, p, 1)), p, 1, 4096 * p + 8 * w);
    SetEntry(m2, p, 4, (Entry(m2, p, 4) + (WORD - 1)) % WORD)
  }

  lemma PushedEntries(m: seq<u64>, p: nat, w: nat, x: nat)
    requires HasFrame(m, p) && p < FRAME_LIMIT && w < 512 && x < 512
    ensures Entry(Pushed(m, p, w), p, x) ==
            if x == 4 then ((if w == 4 then Entry(m, p, 1) else Entry(m, p, 4)) + (WORD - 1)) % WORD
            else if x == 1 then 4096 * p + 8 * w
            else if x == w then Entry(m, p, 1)
            else Entry(m, p, x)
  {
    hide Entry, SetEntry;
    var m1 := SetEntry(m, p, w, Entry(m, p, 1));
    var m2 := SetEntry(m1, p, 1, 4096 * p + 8 * w);
    EntryAfterSet(m, p, w, Entry(m, p, 1), p, 4);
    EntryAfterSet(m1, p, 1, 4096 * p + 8 * w, p, 4);
    EntryAfterSet(m, p, w, Entry(m, p, 1), p, x);
    EntryAfterSet(m1, p, 1, 4096 * p + 8 * w, p, x);
    EntryAfterSet(m2, p, 4, (Entry(m2, p, 4) + (WORD - 1)) % WORD, p, x);
  }

  /** The list a slab with this usedObj goes to: empty or partial. */
  function Target(used: u64): nat {
    if used == 0 then 2 else 1
  }

  lemma GivenIsPushed(m: seq<u64>, lists: nat, p: nat, w: nat)
    requires HasFrame(m, p) && p < FRAME_LIMIT && w < 512 && lists + 32 < WORD
    ensures 4096 * p + 8 * w < WORD && Head(p) < WORD
    ensures var m3 := Pushed(m, p, w);
            Given(m, lists, 4096 * p + 8 * w) ==
            InsertedFront(Deleted(m3, Head(p)), lists + 16 * Target(Entry(m3, p, 4)), Head(p))
  {
    hide Entry, SetEntry, Load, Store, Deleted, InsertedFront;
    WordIsAt(p, w);
    var addr, first := 4096 * p + 8 * w, Entry(m, p, 1);
    EntryIsLoad(m, p, 1);
    StoreIsSetEntry(m, p, w, first);
    var m1 := SetEntry(m, p, w, first);
    StoreIsSetEntry(m1, p, 1, addr);
    var m2 := SetEntry(m1, p, 1, addr);
    EntryIsLoad(m2, p, 4);
    var used := (Entry(m2, p, 4) + (WORD - 1)) % WORD;
    StoreIsSetEntry(m2, p, 4, used);
    EntryAfterSet(m2, p, 4, used, p, 4);
  }

  /** They leave the lists alone. */
  lemma PushedKeepsLists(m: seq<u64>, lists: nat, ls: seq<seq<nat>>, p: nat, w: nat)
    requires ListsAt(m, lists, ls) && Away(lists, p) && HasFrame(m, p) && p < FRAME_LIMIT
    requires w < 512 && w != 2 && w != 3
    ensures ListsAt(Pushed(m, p, w), lists, ls) && |Pushed(m, p, w)| == |m|
  {
    hide Entry, SetEntry, ListsAt, Away;
    var first, addr := Entry(m, p, 1), 4096 * p + 8 * w;
    var m1 := SetEntry(m, p, w, first);
    var m2 := SetEntry(m1, p, 1, addr);
    PageWriteKeepsLists(m, lists, ls, p, w, first);
    PageWriteKeepsLists(m1, lists, ls, p, 1, addr);
    PageWriteKeepsLists(m2, lists, ls, p, 4, (Entry(m2, p, 4) + (WORD - 1)) % WORD);
  }

  // ---- what they do to a represented cache

  lemma {:induction false} LinkedEntries(m: seq<u64>, sh: Shape, p: nat, n: nat, g: nat, x: nat)
    requires sh.Fits() && p < FRAME_LIMIT && n < sh.cells && HasFrame(m, p) && x < 512
    ensures g != p || (forall k: nat :: k < n ==> x != CellWord(sh, k)) ==>
              Entry(LinkedCells(m, sh, p, n), g, x) == Entry(m, g, x)
    ensures forall k: nat :: k < n && g == p && x == CellWord(sh, k) ==>
              Entry(LinkedCells(m, sh, p, n), g, x) == CellAddr(sh, p, k + 1)
  {
    hide Entry, SetEntry, CellWord, CellAddr;
    if n > 0 {
      LinkedEntries(m, sh, p, n - 1, g, x);
      CellsInPage(sh, n - 1);
      CellAddrFits(sh, p, n);
      EntryAfterSet(LinkedCells(m, sh, p, n - 1), p, CellWord(sh, n - 1), CellAddr(sh, p, n), g, x);
      forall k: nat | k < n - 1 ensures CellWord(sh, k) != CellWord(sh, n - 1) {
        CellsAreDistinct(sh, k, n - 1);
      }
    }
  }

  lemma HeaderEntries(m: seq<u64>, p: nat, g: nat, x: nat)
    requires p < FRAME_LIMIT && HasFrame(m, p) && x < 512
    ensures Entry(HeaderWritten(m, p), g, x) ==
            if g != p || x > 4 then Entry(m, g, x)
            else if x == 4 then 0 else if x >= 2 then Head(p) else 4096 * p + 40
  {
    hide Entry, SetEntry;
    var start, h := 4096 * p + 40, Head(p);
    var m1 := SetEntry(m, p, 0, start);
    var m2 := SetEntry(m1, p, 1, start);
    var m3 := SetEntry(m2, p, 2, h);
    var m4 := SetEntry(m3, p, 3, h);
    EntryAfterSet(m, p, 0, start, g, x);
    EntryAfterSet(m1, p, 1, start, g, x);
    EntryAfterSet(m2, p, 2, h, g, x);
    EntryAfterSet(m3, p, 3, h, g, x);
    EntryAfterSet(m4, p, 4, 0, g, x);
  }

  lemma FirstCell(sh: Shape, p: nat)
    ensures CellAddr(sh, p, 0) == 4096 * p + 40
  {
  }

  /** A prepared page is a slab whose free chain is all its cells in address order. */
  lemma PreparedSlab(m: seq<u64>, sh: Shape, p: nat)
    requires sh.Fits() && p < FRAME_LIMIT && HasFrame(m, p)
    ensures SlabAt(Prepared(m, sh, p), sh, p, AllCells(sh.cells))
  {
    hide Entry, HeaderWritten, LinkedCells, CellWord;
    var m1 := HeaderWritten(m, p);
    forall x: nat | x < 5
      ensures Entry(Prepared(m, sh, p), p, x) == Entry(m1, p, x)
    {
      LinkedEntries(m1, sh, p, sh.cells - 1, p, x);
      forall k: nat ensures x != CellWord(sh, k) { CellWordLow(sh, k); }
    }
    HeaderEntries(m, p, p, 0);
    HeaderEntries(m, p, p, 1);
    HeaderEntries(m, p, p, 4);
    FirstCell(sh, p);
    forall k: nat | k < sh.cells - 1
      ensures Entry(Prepared(m, sh, p), p, CellWord(sh, k)) == CellAddr(sh, p, k + 1)
    {
      CellsInPage(sh, k);
      LinkedEntries(m1, sh, p, sh.cells - 1, p, CellWord(sh, k));
    }
  }

  lemma {:induction false} LinkingDisturbsNothing(m: seq<u64>, sh: Shape, lists: nat, c: Cache, p: nat, n: nat)
    requires Represents(m, sh, lists, c) && p !in c.chain && Away(lists, p) && HasFrame(m, p)
    requires sh.Fits() && p < FRAME_LIMIT && n < sh.cells
    ensures Represents(LinkedCells(m, sh, p, n), sh, lists, c)
  {
    hide Represents, Away, SetEntry, CellWord, CellAddr;
    if n > 0 {
      LinkingDisturbsNothing(m, sh, lists, c, p, n - 1);
      CellsInPage(sh, n - 1);
      CellAddrFits(sh, p, n);
      FreshPageWrite(LinkedCells(m, sh, p, n - 1), sh, lists, c, p, CellWord(sh, n - 1), CellAddr(sh, p, n));
    }
  }

  lemma PreparingDisturbsNothing(m: seq<u64>, sh: Shape, lists: nat, c: Cache, p: nat)
    requires Represents(m, sh, lists, c) && p !in c.chain && Away(lists, p) && HasFrame(m, p)
    requires sh.Fits() && p < FRAME_LIMIT
    ensures Represents(Prepared(m, sh, p), sh, lists, c)
  {
    hide Represents, Away, SetEntry, LinkedCells;
    var start, h := 4096 * p + 40, Head(p);
    var m1 := SetEntry(m, p, 0, start);
    var m2 := SetEntry(m1, p, 1, start);
    var m3 := SetEntry(m2, p, 2, h);
    var m4 := SetEntry(m3, p, 3, h);
    FreshPageWrite(m, sh, lists, c, p, 0, start);
    FreshPageWrite(m1, sh, lists, c, p, 1, start);
    FreshPageWrite(m2, sh, lists, c, p, 2, h);
    FreshPageWrite(m3, sh, lists, c, p, 3, h);
    FreshPageWrite(m4, sh, lists, c, p, 4, 0);
    LinkingDisturbsNothing(HeaderWritten(m, p), sh, lists, c, p, sh.cells - 1);
  }

  /** slabAllocSlab refines Grow. */
  lemma AddedRepresents(m: seq<u64>, sh: Shape, lists: nat, c: Cache, p: nat)
    requires Represents(m, sh, lists, c) && p !in c.chain && Away(lists, p) && HasFrame(m, p)
    requires sh.Fits() && p < FRAME_LIMIT && lists + 32 < WORD
    ensures Represents(Added(m, sh, lists, p), sh, lists, Grow(c, sh.cells, p))
  {
    hide Represents, SlabAt, Away, Prepared, AllCells, InsertedFront, Grow;
    PreparingDisturbsNothing(m, sh, lists, c, p);
    PreparedSlab(m, sh, p);
    GrowRepresented(Prepared(m, sh, p), sh, lists, c, p);
  }

  lemma ListsFit(m: seq<u64>, sh: Shape, lists: nat, c: Cache)
    requires Represents(m, sh, lists, c)
    ensures sh.Fits() && lists + 32 < WORD && lists % 8 == 0 && (lists + 40) / 8 < |m|
  {
    hide Ring, Consistent, SlabAt;
    ListFacts(m, lists, Lists(c), 0);
    ListFacts(m, lists, Lists(c), 2);
  }

  /** What the two list heads tell slabAlloc. */
  lemma HeadsTell(m: seq<u64>, sh: Shape, lists: nat, c: Cache)
    requires Represents(m, sh, lists, c)
    ensures Next(m, lists + 16) == lists + 16 <==> c.partial == []
    ensures Next(m, lists + 32) == lists + 32 <==> c.empty == []
    ensures c.HasFree() ==> Next(m, if c.empty == [] then lists + 16 else lists + 32) == Head(c.Front())
  {
    hide Ring, Consistent, SlabAt, Load;
    ListFacts(m, lists, Lists(c), 1);
    ListFacts(m, lists, Lists(c), 2);
    EmptyTest(m, lists + 16, Heads(c.partial));
    EmptyTest(m, lists + 32, Heads(c.empty));
    RingHead(m, lists + 16, Heads(c.partial));
    RingHead(m, lists + 32, Heads(c.empty));
  }

  /** slabAlloc's stores are those of Take, and its pointer is the first free cell's, past the link. */
  lemma TakenIs(m: seq<u64>, sh: Shape, lists: nat, c: Cache)
    requires Represents(m, sh, lists, c) && c.HasFree()
    ensures lists + 32 < WORD && Head(c.Front()) < WORD && c.Front() in c.chain && c.chain[c.Front()] != []
    ensures var (p, l) := (c.Front(), c.chain[c.Front()]);
            Taken(m, sh, lists) == (AfterTake(m, sh, lists, p, CellWord(sh, l[0])), UserPointer(sh, p, l[0]))
  {
    hide Represents, Entry, SetEntry, Load, Store, Deleted, InsertedFront, CellWord, CellAddr, Consistent, FRAME_LIMIT;
    ListsFit(m, sh, lists, c);
    HeadsTell(m, sh, lists, c);
    TakeRepresented(m, sh, lists, c);
    FrontIsFree(c, sh.cells) by { RepresentsFacts(m, sh, lists, c); }
    var p, i := c.Front(), c.chain[c.Front()][0];
    var w := CellWord(sh, i);
    assert w >= 5 && i < sh.cells;
    CellAddrFits(sh, p, i);
    var slab := 4096 * p;
    assert Next(m, if c.empty == [] then lists + 16 else lists + 32) == slab + 16;
    EntryIsLoad(m, p, 1);
    EntryIsLoad(m, p, w);
    var link := Entry(m, p, w);
    StoreIsSetEntry(m, p, 1, link);
    var m1 := SetEntry(m, p, 1, link);
    EntryIsLoad(m1, p, 4);
    EntryAfterSet(m, p, 1, link, p, 4);
    StoreIsSetEntry(m1, p, 4, (Entry(m, p, 4) + 1) % WORD);
    WrapsToSlab(p);
    UserPointerFits(sh, p, i);
  }

  lemma WrapsToSlab(p: nat)
    requires p < FRAME_LIMIT
    ensures (4096 * p + 16 + WORD - 16) % WORD == 4096 * p
  {
  }

  lemma UserPointerFits(sh: Shape, p: nat, i: nat)
    requires sh.Fits() && i < sh.cells && p < FRAME_LIMIT
    ensures UserPointer(sh, p, i) == CellAddr(sh, p, i) + 8 < WORD
    ensures (CellAddr(sh, p, i) + 8) % WORD == UserPointer(sh, p, i)
  {
    CellAddrFits(sh, p, i);
  }

  /** slabFree's stores in terms of its page, for any word of the page beyond the list node. */
  lemma GivenIs(m: seq<u64>, lists: nat, p: nat, w: nat)
    requires HasFrame(m, p) && p < FRAME_LIMIT && 5 <= w < 512 && lists + 32 < WORD
    ensures 4096 * p + 8 * w < WORD && Head(p) < WORD
    ensures var used := (Entry(m, p, 4) + (WORD - 1)) % WORD;
            Given(m, lists, 4096 * p + 8 * w) ==
            InsertedFront(Deleted(Rewired(m, p, w, Entry(m, p, 1), 4096 * p + 8 * w, used), Head(p)),
                          if used == 0 then lists + 32 else lists + 16, Head(p))
  {
    hide Entry, SetEntry, Load, Store, Deleted, InsertedFront;
    var addr := 4096 * p + 8 * w;
    assert addr / 4096 * 4096 == 4096 * p;
    var first := Entry(m, p, 1);
    EntryIsLoad(m, p, 1);
    StoreIsSetEntry(m, p, w, first);
    var m1 := SetEntry(m, p, w, first);
    StoreIsSetEntry(m1, p, 1, addr);
    var m2 := SetEntry(m1, p, 1, addr);
    EntryIsLoad(m2, p, 4);
    EntryAfterSet(m, p, w, first, p, 4);
    EntryAfterSet(m1, p, 1, addr, p, 4);
    StoreIsSetEntry(m2, p, 4, (Entry(m, p, 4) + (WORD - 1)) % WORD);
  }

  lemma GivenIsAfterGive(m: seq<u64>, sh: Shape, lists: nat, c: Cache, p: nat, i: nat)
    requires Represents(m, sh, lists, c) && IsLive(c, sh.cells, p, i)
    ensures lists + 32 < WORD && Head(p) < WORD && CellAddr(sh, p, i) < WORD
    ensures Given(m, lists, CellAddr(sh, p, i)) == AfterGive(m, sh, lists, p, CellWord(sh, i), CellAddr(sh, p, i))
    ensures Represents(Given(m, lists, CellAddr(sh, p, i)), sh, lists, Give(c, sh.cells, p, i))
  {
    hide Represents, Entry, Rewired, Deleted, InsertedFront, CellWord, CellAddr, Give, FRAME_LIMIT;
    ListsFit(m, sh, lists, c);
    PushRepresented(m, sh, lists, c, p, i);
    GiveRepresented(m, sh, lists, c, p, i);
    CellAddrFits(sh, p, i);
    GivenIs(m, lists, p, CellWord(sh, i));
  }

  /** slabAlloc on memory refines slabAlloc on the abstract cache. */
  lemma AllocatedIs(m: seq<u64>, sh: Shape, lists: nat, c: Cache, bits: seq<bool>)
    requires Represents(m, sh, lists, c) && |bits| <= FRAME_LIMIT && 512 * |bits| <= |m|
    requires forall p :: p in c.chain ==> p < |bits| && bits[p]
    requires forall p: nat :: p < |bits| && !Away(lists, p) ==> bits[p]
    ensures sh.Fits() && lists + 32 < WORD
    ensures match AllocStep(sh, c, bits)
            case None => Allocated(m, sh, lists, bits) == None
            case Some((d, bits')) =>
              && d.HasFree() && d.Front() in d.chain && d.chain[d.Front()] != []
              && var r := Allocated(m, sh, lists, bits);
              && r.Some? && r.value.1 == bits'
              && r.value.2 == UserPointer(sh, d.Front(), d.chain[d.Front()][0])
              && Represents(r.value.0, sh, lists, Take(d))
  {
    hide Represents, Away, Taken, Added, Grow, Take, AfterTake, UserPointer, CellWord, TakePages;
    ListsFit(m, sh, lists, c);
    HeadsTell(m, sh, lists, c);
    if c.HasFree() {
      TakenIs(m, sh, lists, c);
      TakeRepresented(m, sh, lists, c);
    } else if TakePages(bits, 1).Some? {
      var p := TakePages(bits, 1).value.0 / PAGE_SIZE;
      TakenPageIsFree(bits);
      var d, m1 := Grow(c, sh.cells, p), Added(m, sh, lists, p);
      AddedRepresents(m, sh, lists, c, p);
      GrownHasFree(c, sh.cells, p);
      TakenIs(m1, sh, lists, d);
      TakeRepresented(m1, sh, lists, d);
    }
  }

  /** With a free cell at hand slabAlloc takes it at once ... */
  lemma AllocatedTakes(m: seq<u64>, sh: Shape, lists: nat, c: Cache, bits: seq<bool>)
    requires Represents(m, sh, lists, c) && c.HasFree() && |bits| <= FRAME_LIMIT
    ensures sh.Fits() && lists + 32 < WORD
    ensures Allocated(m, sh, lists, bits) == Some((Taken(m, sh, lists).0, bits, Taken(m, sh, lists).1))
  {
    hide Represents, Taken, Added;
    ListsFit(m, sh, lists, c);
    HeadsTell(m, sh, lists, c);
  }

  /** ... otherwise it starts again with the new slab. */
  lemma AllocatedRetries(m: seq<u64>, sh: Shape, lists: nat, c: Cache, bits: seq<bool>)
    requires Represents(m, sh, lists, c) && !c.HasFree() && |bits| <= FRAME_LIMIT && 512 * |bits| <= |m|
    requires forall p :: p in c.chain ==> p < |bits| && bits[p]
    requires forall p: nat :: p < |bits| && !Away(lists, p) ==> bits[p]
    ensures sh.Fits() && lists + 32 < WORD
    ensures match TakePages(bits, 1)
            case None => Allocated(m, sh, lists, bits) == None
            case Some((addr, bits')) =>
              && addr / PAGE_SIZE < FRAME_LIMIT && |bits'| <= FRAME_LIMIT
              && Allocated(m, sh, lists, bits) == Allocated(Added(m, sh, lists, addr / PAGE_SIZE), sh, lists, bits')
  {
    hide Represents, Away, Taken, Added, Grow, TakePages;
    ListsFit(m, sh, lists, c);
    HeadsTell(m, sh, lists, c);
    if TakePages(bits, 1).Some? {
      var p := TakePages(bits, 1).value.0 / PAGE_SIZE;
      TakenPageIsFree(bits);
      AddedRepresents(m, sh, lists, c, p);
      GrownHasFree(c, sh.cells, p);
      AllocatedTakes(Added(m, sh, lists, p), sh, lists, Grow(c, sh.cells, p), TakePages(bits, 1).value.1);
    }
  }

  lemma GrownHasFree(c: Cache, cells: nat, p: nat)
    ensures Grow(c, cells, p).HasFree() && Grow(c, cells, p).Front() == p
  {
  }

  lemma TakenPageIsFree(bits: seq<bool>)
    requires TakePages(bits, 1).Some?
    ensures var p := TakePages(bits, 1).value.0 / PAGE_SIZE;
            && p < |bits| && !bits[p]
            && TakePages(bits, 1).value == (4096 * p, BitSeq.Filled(bits, p, p + 1, true))
  {
    BitSeq.FirstFitFromIsLeast(bits, 1, 0);
    assert BitSeq.FreeRun(bits, BitSeq.FirstFit(bits, 1), 1);
  }

  /** slabAlloc as a whole: a new slab first when no list has a free cell, then the front slab's first cell. */
  ghost function AllocStep(sh: Shape, c: Cache, bits: seq<bool>): Option<(Cache, seq<bool>)>
  {
    if c.HasFree() then Some((c, bits))
    else match TakePages(bits, 1)
      case None => None
      case Some((addr, bits')) => Some((Grow(c, sh.cells, addr / PAGE_SIZE), bits'))
  }
}
