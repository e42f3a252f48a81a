/** Which words of memory a slab cache is made of: it depends on no others, and its operations write no others. */
module SlabFrames {
  import opened Words
  import opened Options
  import opened Ram
  import opened Paging
  import opened PageOwnership
  import opened LinkedList
  import opened SlabModel
  import opened SlabLayout
  import opened SlabSteps
  import opened SlabMemory

  /** Word w of a slab is one of its header's, or the link word of a cell. */
  predicate HeaderOrLink(sh: Shape, w: nat) {
    w < 5 || exists i: nat :: i < sh.cells && w == CellWord(sh, i)
  }

  /** The word at b is one of the three list heads, or a header or link word in one of the pages. */
  predicate Bookkeeping(sh: Shape, lists: nat, pages: set<nat>, b: nat) {
    lists <= b < lists + 48 || (b / 4096 in pages && HeaderOrLink(sh, b % 4096 / 8))
  }

  /** From m to m' only bookkeeping words of these pages changed. */
  ghost predicate Kept(m: seq<u64>, m': seq<u64>, sh: Shape, lists: nat, pages: set<nat>) {
    |m'| == |m|
    && forall b: nat :: b % 8 == 0 && !Bookkeeping(sh, lists, pages, b) ==> Load(m', b) == Load(m, b)
  }

  lemma KeptTwice(m: seq<u64>, m1: seq<u64>, m2: seq<u64>, sh: Shape, lists: nat, pages: set<nat>, more: set<nat>)
    requires Kept(m, m1, sh, lists, pages) && Kept(m1, m2, sh, lists, more) && pages <= more
    ensures Kept(m, m2, sh, lists, more)
  {
    hide Load, HeaderOrLink;
  }

  lemma KeptLength(m: seq<u64>, m': seq<u64>, sh: Shape, lists: nat, pages: set<nat>)
    requires Kept(m, m', sh, lists, pages)
    ensures |m'| == |m|
  {
  }

  /** The address of a word as a page and an index. */
  lemma AtWord(b: nat)
    requires b % 8 == 0
    ensures b == 4096 * (b / 4096) + 8 * (b % 4096 / 8) && b % 4096 / 8 < 512
  {
  }

  lemma EntryKept(m: seq<u64>, sh: Shape, lists: nat, pages: set<nat>, p: nat, w: nat, v: u64)
    requires HasFrame(m, p) && w < 512 && p in pages && HeaderOrLink(sh, w)
    ensures Kept(m, SetEntry(m, p, w, v), sh, lists, pages)
  {
    hide Load, Store, HeaderOrLink, SetEntry;
    StoreIsSetEntry(m, p, w, v);
    WordIsAt(p, w);
    forall b: nat | b % 8 == 0 && !Bookkeeping(sh, lists, pages, b)
      ensures Load(SetEntry(m, p, w, v), b) == Load(m, b)
    {
      LoadAfterStore(m, 4096 * p + 8 * w, v, b);
    }
  }

  lemma LinkIsBookkeeping(sh: Shape, i: nat)
    requires i < sh.cells
    ensures HeaderOrLink(sh, CellWord(sh, i))
  {
  }

  lemma HeadIsBookkeeping(sh: Shape, lists: nat, pages: set<nat>, q: nat)
    requires q in pages
    ensures Bookkeeping(sh, lists, pages, Head(q)) && Bookkeeping(sh, lists, pages, Head(q) + 8)
  {
    WordIsAt(q, 2);
    WordIsAt(q, 3);
  }

  /** Nodes of the cache's lists are bookkeeping, so a write to nodes only is kept. */
  lemma NodesKept(m: seq<u64>, m': seq<u64>, sh: Shape, lists: nat, pages: set<nat>, k: nat, s: seq<nat>)
    requires k < 3 && |m'| == |m| && forall q :: q in s ==> q in pages
    requires forall b :: Outside([lists + 16 * k] + Heads(s), b) ==> Load(m', b) == Load(m, b)
    ensures Kept(m, m', sh, lists, pages)
  {
    hide Load, HeaderOrLink;
    var c := [lists + 16 * k] + Heads(s);
    forall b: nat | b % 8 == 0 && !Bookkeeping(sh, lists, pages, b) ensures Load(m', b) == Load(m, b) {
      forall x | x in c ensures b != x && b != x + 8 {
        if x != lists + 16 * k {
          InHeads(s, x);
          var q :| q in s && x == Head(q);
          HeadIsBookkeeping(sh, lists, pages, q);
        }
      }
      assert Outside(c, b);
    }
  }

  lemma DeleteKept(m: seq<u64>, sh: Shape, lists: nat, ls: seq<seq<nat>>, k: nat, u: seq<nat>, p: nat, v: seq<nat>,
      pages: set<nat>)
    requires ListsAt(m, lists, ls) && k < 3 && ls[k] == u + [p] + v && forall q :: q in ls[k] ==> q in pages
    ensures Kept(m, Deleted(m, Head(p)), sh, lists, pages)
  {
    hide ListsAt, Load, Deleted, Kept, Outside;
    ListFacts(m, lists, ls, k);
    HeadsOfSplit(u, p, v);
    DeleteRefinesSequence(m, lists + 16 * k, Heads(u), Head(p), Heads(v));
    assert [lists + 16 * k] + Heads(u) + Heads(v) == [lists + 16 * k] + Heads(u + v);
    forall q | q in u + v ensures q in pages {
      assert q in ls[k];
    }
    NodesKept(m, Deleted(m, Head(p)), sh, lists, pages, k, u + v);
  }

  lemma InsertKept(m: seq<u64>, sh: Shape, lists: nat, ls: seq<seq<nat>>, k: nat, p: nat, pages: set<nat>)
    requires ListsAt(m, lists, ls) && k < 3 && Away(lists, p) && HasFrame(m, p) && p < FRAME_LIMIT && p !in ls[k]
    requires p in pages && forall q :: q in ls[k] ==> q in pages
    ensures lists + 16 * k < WORD && Head(p) < WORD
    ensures Kept(m, InsertedFront(m, lists + 16 * k, Head(p)), sh, lists, pages)
  {
    hide ListsAt, Load, InsertedFront, Kept, Outside, Away, Ring;
    InsertedOnList(m, lists, ls, k, p);
    ListFacts(m, lists, ls, k);
    NodesKept(m, InsertedFront(m, lists + 16 * k, Head(p)), sh, lists, pages, k, [p] + ls[k]);
  }

  lemma MoveKept(m: seq<u64>, sh: Shape, lists: nat, ls: seq<seq<nat>>, k: nat, u: seq<nat>, p: nat, v: seq<nat>,
      j: nat, pages: set<nat>)
    requires ListsAt(m, lists, ls) && k < 3 && j < 3 && ls[k] == u + [p] + v
    requires Away(lists, p) && HasFrame(m, p) && p < FRAME_LIMIT
    requires forall i, q :: 0 <= i < 3 && q in ls[i] ==> q in pages
    ensures lists + 16 * j < WORD && Head(p) < WORD
    ensures Kept(m, InsertedFront(Deleted(m, Head(p)), lists + 16 * j, Head(p)), sh, lists, pages)
  {
    hide ListsAt, Load, InsertedFront, Deleted, Kept, Away;
    ListFacts(m, lists, ls, k);
    DeleteFromList(m, lists, ls, k, u, p, v);
    DeleteKept(m, sh, lists, ls, k, u, p, v, pages);
    var m1, ls1 := Deleted(m, Head(p)), ls[k := u + v];
    assert ls[k][|u|] == p && p in ls[k];
    forall q | q in u + v ensures q in ls[k] { }
    if j != k { ListsDisjoint(m, lists, ls, j, k); }
    InsertKept(m1, sh, lists, ls1, j, p, pages);
    KeptTwice(m, m1, InsertedFront(m1, lists + 16 * j, Head(p)), sh, lists, pages, pages);
  }

  lemma ListsInChain(c: Cache, cells: nat)
    requires Consistent(c, cells)
    ensures forall i, q :: 0 <= i < 3 && q in Lists(c)[i] ==> q in c.chain.Keys
  {
    ListedPages(c, cells);
  }

  /** slabAlloc writes bookkeeping words only. */
  lemma TakenKept(m: seq<u64>, sh: Shape, lists: nat, c: Cache)
    requires Represents(m, sh, lists, c) && c.HasFree()
    ensures lists + 32 < WORD && Kept(m, Taken(m, sh, lists).0, sh, lists, c.chain.Keys)
  {
    hide Represents, Entry, SetEntry, SlabAt, ListsAt, Taken, InsertedFront, Deleted, Kept, Away, CellWord, CellAddr,
         Consistent, FRAME_LIMIT;
    RepresentsFacts(m, sh, lists, c);
    TakenIs(m, sh, lists, c);
    FrontIsFree(c, sh.cells);
    ListsInChain(c, sh.cells);
    var p, l := c.Front(), c.chain[c.Front()];
    PopRepresented(m, sh, lists, c, p);
    var link, used := Entry(m, p, CellWord(sh, l[0])), sh.cells - |l| + 1;
    var m1 := SetEntry(m, p, 1, link);
    var m2 := SetEntry(m1, p, 4, used);
    EntryKept(m, sh, lists, c.chain.Keys, p, 1, link);
    EntryKept(m1, sh, lists, c.chain.Keys, p, 4, used);
    KeptTwice(m, m1, m2, sh, lists, c.chain.Keys, c.chain.Keys);
    if used == sh.cells {
      var k := if c.empty == [] then 1 else 2;
      FrontPlace(c, sh.cells);
      MoveKept(m2, sh, lists, Lists(c), k, [], p, Lists(c)[k][1..], 0, c.chain.Keys);
      KeptTwice(m, m2, InsertedFront(Deleted(m2, Head(p)), lists, Head(p)), sh, lists, c.chain.Keys, c.chain.Keys);
    }
  }

  /** slabFree of a live cell's link word writes bookkeeping words only. */
  lemma GivenKept(m: seq<u64>, sh: Shape, lists: nat, c: Cache, p: nat, i: nat)
    requires Represents(m, sh, lists, c) && IsLive(c, sh.cells, p, i)
    ensures lists + 32 < WORD && CellAddr(sh, p, i) < WORD
    ensures Kept(m, Given(m, lists, CellAddr(sh, p, i)), sh, lists, c.chain.Keys)
  {
    hide Represents, Entry, SetEntry, SlabAt, ListsAt, Given, InsertedFront, Deleted, Kept, Away, CellWord, CellAddr,
         Consistent, FRAME_LIMIT, HeaderOrLink, Rewired;
    RepresentsFacts(m, sh, lists, c);
    ListsInChain(c, sh.cells);
    PushRepresented(m, sh, lists, c, p, i);
    GivenMoves(m, sh, lists, c, p, i);
    var w, addr, used := CellWord(sh, i), CellAddr(sh, p, i), sh.cells - |c.chain[p]| - 1;
    LinkIsBookkeeping(sh, i);
    RewiredKept(m, sh, lists, c.chain.Keys, p, w, Entry(m, p, 1), addr, used);
    var k, u, v := PlaceOf(c, p) by { ListsOfConsistent(c, sh.cells, p); }
    var m1 := Rewired(m, p, w, Entry(m, p, 1), addr, used);
    MoveKept(m1, sh, lists, Lists(c), k, u, p, v, if used == 0 then 2 else 1, c.chain.Keys);
    KeptTwice(m, m1, Given(m, lists, addr), sh, lists, c.chain.Keys, c.chain.Keys);
  }

  /** Its stores: the cell goes on the chain, the slab to the front of the right list. */
  lemma GivenMoves(m: seq<u64>, sh: Shape, lists: nat, c: Cache, p: nat, i: nat)
    requires Represents(m, sh, lists, c) && IsLive(c, sh.cells, p, i)
    ensures lists + 32 < WORD && Head(p) < WORD && CellAddr(sh, p, i) < WORD && |c.chain[p]| < sh.cells < 512
    ensures var used := sh.cells - |c.chain[p]| - 1;
            Given(m, lists, CellAddr(sh, p, i)) ==
            InsertedFront(Deleted(Rewired(m, p, CellWord(sh, i), Entry(m, p, 1), CellAddr(sh, p, i), used), Head(p)),
                          lists + 16 * (if used == 0 then 2 else 1), Head(p))
  {
    hide Represents, Entry, SetEntry, Given, InsertedFront, Deleted, CellWord, CellAddr, Rewired, FRAME_LIMIT;
    PushRepresented(m, sh, lists, c, p, i);
    GivenIsAfterGive(m, sh, lists, c, p, i);
  }

  /** slabFree of a live cell's link word, all told. */
  lemma GivenStands(m: seq<u64>, sh: Shape, lists: nat, c: Cache, p: nat, i: nat)
    requires Represents(m, sh, lists, c) && IsLive(c, sh.cells, p, i)
    ensures lists + 32 < WORD && CellAddr(sh, p, i) < WORD
    ensures var m', d := Given(m, lists, CellAddr(sh, p, i)), Give(c, sh.cells, p, i);
            && Represents(m', sh, lists, d) && d.chain.Keys == c.chain.Keys
            && Kept(m, m', sh, lists, d.chain.Keys) && |m'| == |m|
  {
    hide Represents, Kept, Given, Give, CellAddr;
    GivenIsAfterGive(m, sh, lists, c, p, i);
    GivenKept(m, sh, lists, c, p, i);
    GiveEndsOneLife(c, sh.cells, p, i) by { RepresentsFacts(m, sh, lists, c); }
    KeptLength(m, Given(m, lists, CellAddr(sh, p, i)), sh, lists, c.chain.Keys);
  }

  lemma RewiredKept(m: seq<u64>, sh: Shape, lists: nat, pages: set<nat>, p: nat, w: nat, link: u64, first: u64,
      used: u64)
    requires HasFrame(m, p) && 5 <= w < 512 && p in pages && HeaderOrLink(sh, w)
    ensures Kept(m, Rewired(m, p, w, link, first, used), sh, lists, pages)
  {
    hide Kept, SetEntry;
    var m1 := SetEntry(m, p, w, link);
    var m2 := SetEntry(m1, p, 1, first);
    EntryKept(m, sh, lists, pages, p, w, link);
    EntryKept(m1, sh, lists, pages, p, 1, first);
    EntryKept(m2, sh, lists, pages, p, 4, used);
    KeptTwice(m, m1, m2, sh, lists, pages, pages);
    KeptTwice(m, m2, Rewired(m, p, w, link, first, used), sh, lists, pages, pages);
  }

  lemma NothingWritten(m: seq<u64>, sh: Shape, lists: nat, pages: set<nat>)
    ensures Kept(m, m, sh, lists, pages)
  {
  }

  lemma {:induction false} LinkedKept(m: seq<u64>, sh: Shape, lists: nat, p: nat, n: nat)
    requires sh.Fits() && p < FRAME_LIMIT && n < sh.cells && HasFrame(m, p)
    ensures Kept(m, LinkedCells(m, sh, p, n), sh, lists, {p})
  {
    hide Kept, SetEntry, CellWord, CellAddr, HeaderOrLink;
    if n == 0 {
      NothingWritten(m, sh, lists, {p});
    } else {
      LinkedKept(m, sh, lists, p, n - 1);
      CellsInPage(sh, n - 1);
      CellAddrFits(sh, p, n);
      LinkIsBookkeeping(sh, n - 1);
      EntryKept(LinkedCells(m, sh, p, n - 1), sh, lists, {p}, p, CellWord(sh, n - 1), CellAddr(sh, p, n));
      KeptTwice(m, LinkedCells(m, sh, p, n - 1), LinkedCells(m, sh, p, n), sh, lists, {p}, {p});
    }
  }

  lemma PreparedKept(m: seq<u64>, sh: Shape, lists: nat, p: nat)
    requires sh.Fits() && p < FRAME_LIMIT && HasFrame(m, p)
    ensures Kept(m, Prepared(m, sh, p), sh, lists, {p})
  {
    hide Kept, SetEntry, LinkedCells;
    var start, h, ps := 4096 * p + 40, Head(p), {p};
    var m1 := SetEntry(m, p, 0, start);
    var m2 := SetEntry(m1, p, 1, start);
    var m3 := SetEntry(m2, p, 2, h);
    var m4 := SetEntry(m3, p, 3, h);
    var m5 := HeaderWritten(m, p);
    EntryKept(m, sh, lists, ps, p, 0, start);
    EntryKept(m1, sh, lists, ps, p, 1, start);
    KeptTwice(m, m1, m2, sh, lists, ps, ps);
    EntryKept(m2, sh, lists, ps, p, 2, h);
    KeptTwice(m, m2, m3, sh, lists, ps, ps);
    EntryKept(m3, sh, lists, ps, p, 3, h);
    KeptTwice(m, m3, m4, sh, lists, ps, ps);
    EntryKept(m4, sh, lists, ps, p, 4, 0);
    KeptTwice(m, m4, m5, sh, lists, ps, ps);
    LinkedKept(m5, sh, lists, p, sh.cells - 1);
    KeptTwice(m, m5, Prepared(m, sh, p), sh, lists, ps, ps);
  }

  /** slabAllocSlab writes bookkeeping words only, those of the new page among them. */
  lemma AddedKept(m: seq<u64>, sh: Shape, lists: nat, c: Cache, p: nat)
    requires Represents(m, sh, lists, c) && p !in c.chain && Away(lists, p) && HasFrame(m, p)
    requires p < FRAME_LIMIT
    ensures sh.Fits() && lists + 32 < WORD
    ensures Kept(m, Added(m, sh, lists, p), sh, lists, c.chain.Keys + {p})
  {
    hide Represents, Prepared, InsertedFront, Kept, Away, Consistent, SlabAt, ListsAt;
    RepresentsFacts(m, sh, lists, c);
    ListsFit(m, sh, lists, c);
    ListsInChain(c, sh.cells);
    var m1 := Prepared(m, sh, p);
    PreparingDisturbsNothing(m, sh, lists, c, p);
    RepresentsFacts(m1, sh, lists, c);
    PreparedKept(m, sh, lists, p);
    assert c.empty == Lists(c)[2];
    InsertKept(m1, sh, lists, Lists(c), 2, p, c.chain.Keys + {p});
    KeptTwice(m, m1, Added(m, sh, lists, p), sh, lists, {p}, c.chain.Keys + {p});
  }

  /** slabAlloc as a whole. */
  lemma AllocatedKept(m: seq<u64>, sh: Shape, lists: nat, c: Cache, bits: seq<bool>)
    requires Represents(m, sh, lists, c) && |bits| <= FRAME_LIMIT && 512 * |bits| <= |m|
    requires forall p :: p in c.chain ==> p < |bits| && bits[p]
    requires forall p: nat :: p < |bits| && !Away(lists, p) ==> bits[p]
    ensures sh.Fits() && lists + 32 < WORD
    ensures match AllocStep(sh, c, bits)
            case None => true
            case Some((d, _)) =>
              && Allocated(m, sh, lists, bits).Some?
              && Kept(m, Allocated(m, sh, lists, bits).value.0, sh, lists, d.chain.Keys)
  {
    hide Represents, Away, Taken, Added, Grow, Kept, TakePages;
    AllocatedIs(m, sh, lists, c, bits);
    HeadsTell(m, sh, lists, c);
    if c.HasFree() {
      TakenKept(m, sh, lists, c);
    } else if TakePages(bits, 1).Some? {
      var p := TakePages(bits, 1).value.0 / PAGE_SIZE;
      TakenPageIsFree(bits);
      var d, m1 := Grow(c, sh.cells, p), Added(m, sh, lists, p);
      AddedRepresents(m, sh, lists, c, p);
      AddedKept(m, sh, lists, c, p);
      GrownHasFree(c, sh.cells, p);
      TakenKept(m1, sh, lists, d);
      GrownPages(c, sh.cells, p);
      KeptTwice(m, m1, Taken(m1, sh, lists).0, sh, lists, c.chain.Keys + {p}, d.chain.Keys);
    }
  }

  /**
   * slabAlloc from (m, c, bits) to (m', c', bits'), with result r: memory becomes what the code
   * computes from memory alone, the cache loses its front slab's first free cell, and no word
   * that is not the cache's own changes.
   */
  ghost predicate Handed(sh: Shape, lists: nat, m: seq<u64>, c: Cache, bits: seq<bool>,
                         m': seq<u64>, c': Cache, bits': seq<bool>, r: Option<nat>)
    requires sh.Fits() && |bits| <= FRAME_LIMIT && lists + 32 < WORD
  {
    match AllocStep(sh, c, bits)
    case None => Allocated(m, sh, lists, bits) == None && r == None && (m', c', bits') == (m, c, bits)
    case Some((d, b)) =>
      && d.HasFree() && d.Front() in d.chain && d.chain[d.Front()] != []
      && c' == Take(d) && bits' == b
      && r == Some(UserPointer(sh, d.Front(), d.chain[d.Front()][0]))
      && Allocated(m, sh, lists, bits) == Some((m', b, UserPointer(sh, d.Front(), d.chain[d.Front()][0])))
      && Kept(m, m', sh, lists, c'.chain.Keys)
  }

  /** A retry after a new slab amounts to the whole call. */
  lemma HandedOnRetry(sh: Shape, lists: nat, m: seq<u64>, c: Cache, bits: seq<bool>,
                      m': seq<u64>, c': Cache, bits': seq<bool>, r: Option<nat>)
    requires Represents(m, sh, lists, c) && !c.HasFree() && |bits| <= FRAME_LIMIT && 512 * |bits| <= |m|
    requires forall p :: p in c.chain ==> p < |bits| && bits[p]
    requires forall p: nat :: p < |bits| && !Away(lists, p) ==> bits[p]
    requires lists + 32 < WORD && TakePages(bits, 1).Some? && TakePages(bits, 1).value.0 / PAGE_SIZE < FRAME_LIMIT
    requires |TakePages(bits, 1).value.1| <= FRAME_LIMIT
    requires var p := TakePages(bits, 1).value.0 / PAGE_SIZE;
             Handed(sh, lists, Added(m, sh, lists, p), Grow(c, sh.cells, p), TakePages(bits, 1).value.1,
                    m', c', bits', r)
    ensures Handed(sh, lists, m, c, bits, m', c', bits', r)
  {
    hide Represents, Away, TakePages, Take, Kept, Added, Allocated, UserPointer;
    var p := TakePages(bits, 1).value.0 / PAGE_SIZE;
    var d := Grow(c, sh.cells, p);
    GrownHasFree(c, sh.cells, p);
    AllocatedRetries(m, sh, lists, c, bits);
    TakenPageIsFree(bits);
    AddedKept(m, sh, lists, c, p);
    GrownPages(c, sh.cells, p);
    AddedRepresents(m, sh, lists, c, p);
    TakenPages(Added(m, sh, lists, p), sh, lists, d);
    KeptTwice(m, Added(m, sh, lists, p), m', sh, lists, d.chain.Keys, c'.chain.Keys);
  }

  lemma HandedAtOnce(sh: Shape, lists: nat, m: seq<u64>, c: Cache, bits: seq<bool>)
    requires Represents(m, sh, lists, c) && c.HasFree() && |bits| <= FRAME_LIMIT
    ensures sh.Fits() && lists + 32 < WORD
    ensures c.Front() in c.chain && c.chain[c.Front()] != []
    ensures var (m', r) := Taken(m, sh, lists);
            Handed(sh, lists, m, c, bits, m', Take(c), bits, Some(r))
  {
    hide Represents, Take, Kept, Taken, Allocated, UserPointer;
    AllocatedTakes(m, sh, lists, c, bits);
    TakenIs(m, sh, lists, c);
    TakenKept(m, sh, lists, c);
    TakenPages(m, sh, lists, c);
  }

  lemma NothingHanded(sh: Shape, lists: nat, m: seq<u64>, c: Cache, bits: seq<bool>)
    requires sh.Fits() && |bits| <= FRAME_LIMIT && lists + 32 < WORD
    requires AllocStep(sh, c, bits) == None && Allocated(m, sh, lists, bits) == None
    ensures Handed(sh, lists, m, c, bits, m, c, bits, None)
  {
  }

  lemma TakenPages(m: seq<u64>, sh: Shape, lists: nat, c: Cache)
    requires Represents(m, sh, lists, c) && c.HasFree()
    ensures c.Front() in c.chain && c.chain[c.Front()] != [] && Take(c).chain.Keys == c.chain.Keys
  {
    hide ListsAt, SlabAt;
    TakeMakesOneLive(c, sh.cells);
  }

  // ---- what a cache depends on

  /** A memory with the same bookkeeping words represents the same cache. */
  lemma DependsOnBookkeeping(m: seq<u64>, m': seq<u64>, sh: Shape, lists: nat, c: Cache)
    requires Represents(m, sh, lists, c) && |m'| == |m|
    requires forall b: nat :: b % 8 == 0 && Bookkeeping(sh, lists, c.chain.Keys, b) ==> Load(m', b) == Load(m, b)
    ensures Represents(m', sh, lists, c)
  {
    hide Represents, Load, SlabAt, ListsAt, Consistent, Away, Bookkeeping, Ring;
    RepresentsFacts(m, sh, lists, c);
    ListsFit(m, sh, lists, c);
    ListsInChain(c, sh.cells);
    forall k: nat | k < 3 ensures Ring(m', lists + 16 * k, Heads(Lists(c)[k])) {
      SameRing(m, m', sh, lists, c, k);
    }
    ListReplaced(m, m', lists, Lists(c), 0, c.full) by {
      ListFacts(m, lists, Lists(c), 0);
      ListsDisjoint(m, lists, Lists(c), 1, 0);
      ListsDisjoint(m, lists, Lists(c), 2, 0);
    }
    assert Lists(c)[0 := c.full] == Lists(c);
    forall q | q in c.chain ensures SlabAt(m', sh, q, c.chain[q]) {
      SameSlab(m, m', sh, lists, c, q);
    }
    RepresentsFrom(m', sh, lists, c);
  }

  lemma SameRing(m: seq<u64>, m': seq<u64>, sh: Shape, lists: nat, c: Cache, k: nat)
    requires ListsAt(m, lists, Lists(c)) && |m'| == |m| && k < 3 && lists % 8 == 0
    requires forall q :: q in Lists(c)[k] ==> q in c.chain.Keys
    requires forall b: nat :: b % 8 == 0 && Bookkeeping(sh, lists, c.chain.Keys, b) ==> Load(m', b) == Load(m, b)
    ensures Ring(m', lists + 16 * k, Heads(Lists(c)[k]))
  {
    hide Load, ListsAt, Ring, Bookkeeping;
    var h, s := lists + 16 * k, Lists(c)[k];
    ListFacts(m, lists, Lists(c), k);
    ListHeadIsBookkeeping(sh, lists, c.chain.Keys, k);
    forall x | x in Heads(s) ensures Next(m', x) == Next(m, x) && Prev(m', x) == Prev(m, x) {
      InHeads(s, x);
      var q :| q in s && x == Head(q);
      HeadIsBookkeeping(sh, lists, c.chain.Keys, q);
    }
    RingKept(m, m', h, Heads(s));
  }

  lemma ListHeadIsBookkeeping(sh: Shape, lists: nat, pages: set<nat>, k: nat)
    requires lists % 8 == 0 && k < 3
    ensures (lists + 16 * k) % 8 == 0 && (lists + 16 * k + 8) % 8 == 0
    ensures Bookkeeping(sh, lists, pages, lists + 16 * k) && Bookkeeping(sh, lists, pages, lists + 16 * k + 8)
  {
  }

  lemma SameSlab(m: seq<u64>, m': seq<u64>, sh: Shape, lists: nat, c: Cache, q: nat)
    requires sh.Fits() && q in c.chain && SlabAt(m, sh, q, c.chain[q]) && ChainOk(c.chain[q], sh.cells) && |m'| == |m|
    requires forall b: nat :: b % 8 == 0 && Bookkeeping(sh, lists, c.chain.Keys, b) ==> Load(m', b) == Load(m, b)
    ensures SlabAt(m', sh, q, c.chain[q])
  {
    hide Load, Entry, CellWord, CellAddr;
    forall w: nat | w < 512 && HeaderOrLink(sh, w) ensures Entry(m', q, w) == Entry(m, q, w) {
      WordIsAt(q, w);
      assert Bookkeeping(sh, lists, c.chain.Keys, 4096 * q + 8 * w);
      EntryIsLoad(m, q, w);
      EntryIsLoad(m', q, w);
    }
    assert HeaderOrLink(sh, 0) && HeaderOrLink(sh, 1) && HeaderOrLink(sh, 4);
    forall k | 0 <= k < |c.chain[q]| - 1
      ensures Entry(m', q, CellWord(sh, c.chain[q][k])) == Entry(m, q, CellWord(sh, c.chain[q][k]))
    {
      CellsInPage(sh, c.chain[q][k]);
      LinkIsBookkeeping(sh, c.chain[q][k]);
    }
  }

  /** Word w of a slab belongs to the object in cell i. */
  predicate InObject(sh: Shape, i: nat, w: nat) {
    CellWord(sh, i) < w < CellWord(sh, i) + sh.words
  }

  /** An object's words are no bookkeeping. */
  lemma ObjectsAreApart(sh: Shape, i: nat, w: nat)
    requires sh.Fits() && i < sh.cells && InObject(sh, i, w)
    ensures w < 512 && !HeaderOrLink(sh, w)
  {
    hide CellWord;
    CellsInPage(sh, i);
    CellWordLow(sh, i);
    forall j: nat | j < sh.cells ensures w != CellWord(sh, j) {
      if j < i {
        CellsInOrder(sh, j, i);
      } else if i < j {
        CellsInOrder(sh, i, j);
      }
    }
  }

  /** Two caches whose pages and list heads lie apart. */
  ghost predicate LieApart(lists: nat, pages: set<nat>, lists': nat, pages': set<nat>) {
    && pages !! pages'
    && (lists + 48 <= lists' || lists' + 48 <= lists)
    && (forall p :: p in pages ==> Away(lists', p))
    && (forall p :: p in pages' ==> Away(lists, p))
  }

  lemma BookkeepingIsApart(sh: Shape, lists: nat, pages: set<nat>, sh': Shape, lists': nat, pages': set<nat>, b: nat)
    requires LieApart(lists, pages, lists', pages') && b % 8 == 0 && Bookkeeping(sh, lists, pages, b)
    ensures !Bookkeeping(sh', lists', pages', b)
  {
    hide HeaderOrLink;
    AtWord(b);
  }

  /** What one cache writes leaves every other one represented. */
  lemma OtherCacheKept(m: seq<u64>, m': seq<u64>, sh: Shape, lists: nat, pages: set<nat>, sh': Shape, lists': nat,
      c': Cache)
    requires Kept(m, m', sh, lists, pages) && Represents(m, sh', lists', c')
    requires LieApart(lists', c'.chain.Keys, lists, pages)
    ensures Represents(m', sh', lists', c')
  {
    hide Represents, Bookkeeping, LieApart, Load;
    forall b: nat | b % 8 == 0 && Bookkeeping(sh', lists', c'.chain.Keys, b) ensures Load(m', b) == Load(m, b) {
      BookkeepingIsApart(sh', lists', c'.chain.Keys, sh, lists, pages, b);
    }
    DependsOnBookkeeping(m, m', sh', lists', c');
  }

  /** The holder of an object may store anything in it: no cache notices. */
  lemma ObjectStoreKept(m: seq<u64>, p: nat, i: nat, w: nat, v: u64, sh: Shape, sh': Shape, lists': nat, c': Cache)
    requires sh.Fits() && i < sh.cells && InObject(sh, i, w) && HasFrame(m, p)
    requires Represents(m, sh', lists', c') && Away(lists', p) && (p in c'.chain ==> sh' == sh)
    ensures Represents(SetEntry(m, p, w, v), sh', lists', c')
  {
    hide Represents, Load, Store, HeaderOrLink, SetEntry;
    ObjectsAreApart(sh, i, w);
    StoreIsSetEntry(m, p, w, v);
    WordIsAt(p, w);
    forall b: nat | b % 8 == 0 && Bookkeeping(sh', lists', c'.chain.Keys, b)
      ensures Load(SetEntry(m, p, w, v), b) == Load(m, b)
    {
      LoadAfterStore(m, 4096 * p + 8 * w, v, b);
    }
    DependsOnBookkeeping(m, SetEntry(m, p, w, v), sh', lists', c');
  }
}
