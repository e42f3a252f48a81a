/** slabFree called on any word of a slab: when a cache is left, and what comes back when it is not. */
module SlabDrift {
  import opened Words
  import opened Ram
  import opened Paging
  import opened PageOwnership
  import opened LinkedList
  import opened SlabModel
  import opened SlabLayout
  import opened SlabSteps
  import opened SlabMemory
  import opened SlabFrames

  /** The lists after slabFree on any word of page p beside its list node: p is in front of its target. */
  lemma ListsAfterGiven(m: seq<u64>, sh: Shape, lists: nat, c: Cache, p: nat, w: nat)
    requires Represents(m, sh, lists, c) && p in c.chain && w < 512 && w != 2 && w != 3
    ensures lists + 32 < WORD && HasFrame(m, p) && p < FRAME_LIMIT && 4096 * p + 8 * w < WORD
    ensures var m', m3 := Given(m, lists, 4096 * p + 8 * w), Pushed(m, p, w);
            var rest := [Without(c.full, p), Without(c.partial, p), Without(c.empty, p)];
            var j := Target(Entry(m3, p, 4));
            && OnlyNodesWritten(m3, m', lists) && |m'| == |m|
            && ListsAt(m', lists, rest[j := [p] + rest[j]])
  {
    hide Represents, Entry, SetEntry, SlabAt, ListsAt, Consistent, Away, Given, Deleted, InsertedFront,
         OnlyNodesWritten, Without;
    RepresentsFacts(m, sh, lists, c);
    ListsFit(m, sh, lists, c);
    SlabIsInMemory(m, sh, p, c.chain[p]);
    GivenIsPushed(m, lists, p, w);
    PushedKeepsLists(m, lists, Lists(c), p, w);
    var k, u, v := PlaceOf(c, p) by { ListsOfConsistent(c, sh.cells, p); }
    MoveNode(Pushed(m, p, w), lists, Lists(c), k, u, p, v, Target(Entry(Pushed(m, p, w), p, 4)));
    SameLength(Pushed(m, p, w), Given(m, lists, 4096 * p + 8 * w), lists);
  }

  lemma SameLength(m: seq<u64>, m': seq<u64>, lists: nat)
    requires OnlyNodesWritten(m, m', lists)
    ensures |m'| == |m|
  {
  }

  /** The entries of page p after slabFree on its word w. */
  lemma EntriesAfterGiven(m: seq<u64>, sh: Shape, lists: nat, c: Cache, p: nat, w: nat, x: nat)
    requires Represents(m, sh, lists, c) && p in c.chain && w < 512 && w != 2 && w != 3
    requires x < 512 && x != 2 && x != 3
    ensures lists + 32 < WORD && HasFrame(m, p) && p < FRAME_LIMIT && 4096 * p + 8 * w < WORD
    ensures Entry(Given(m, lists, 4096 * p + 8 * w), p, x) == Entry(Pushed(m, p, w), p, x)
  {
    hide Represents, Entry, Given, Pushed, ListsAt, Without, Away;
    RepresentsFacts(m, sh, lists, c);
    ListsAfterGiven(m, sh, lists, c, p, w);
  }

  /** A page in front of one of a represented cache's lists is that list's first slab. */
  lemma FrontIsListed(m: seq<u64>, sh: Shape, lists: nat, c: Cache, j: nat, p: nat)
    requires Represents(m, sh, lists, c) && j < 3 && Away(lists, p) && Next(m, lists + 16 * j) == Head(p)
    ensures Lists(c)[j] != [] && Lists(c)[j][0] == p && p in c.chain
  {
    hide SlabAt, Ring, Load;
    ListFacts(m, lists, Lists(c), j);
    RingHead(m, lists + 16 * j, Heads(Lists(c)[j]));
  }

  lemma CellAddrIsInjective(sh: Shape, p: nat, i: nat, j: nat)
    requires sh.Fits() && CellAddr(sh, p, i) == CellAddr(sh, p, j)
    ensures i == j
  {
    hide CellWord;
    if i != j {
      CellsAreDistinct(sh, i, j);
    }
  }

  /**
   * Links that run through a free cell i to which a new link back to the chain's first cell was
   * written: the chain that starts at i meets i again.
   */
  lemma {:induction false} ChainLoops(m: seq<u64>, m': seq<u64>, sh: Shape, p: nat, chain: seq<nat>, t: nat,
      chain': seq<nat>, s: nat)
    requires sh.Fits() && SlabAt(m, sh, p, chain) && ChainOk(chain, sh.cells) && SlabAt(m', sh, p, chain')
    requires t < |chain| && s <= t && |chain'| == |chain| + 1 && chain'[0] == chain[t]
    requires Entry(m', p, CellWord(sh, chain[t])) == CellAddr(sh, p, chain[0])
    requires forall j: nat :: j < sh.cells && j != chain[t] ==>
               Entry(m', p, CellWord(sh, j)) == Entry(m, p, CellWord(sh, j))
    ensures chain'[s + 1] == chain[s]
    decreases s
  {
    hide Entry, CellWord, CellAddr;
    if s == 0 {
      assert Entry(m', p, CellWord(sh, chain'[0])) == CellAddr(sh, p, chain'[1]);
      CellAddrIsInjective(sh, p, chain'[1], chain[0]);
    } else {
      ChainLoops(m, m', sh, p, chain, t, chain', s - 1);
      assert Entry(m', p, CellWord(sh, chain'[s])) == CellAddr(sh, p, chain'[s + 1]);
      assert Entry(m, p, CellWord(sh, chain[s - 1])) == CellAddr(sh, p, chain[s]);
      CellAddrIsInjective(sh, p, chain'[s + 1], chain[s]);
    }
  }

  /** If slabFree on word w of page p leaves a cache, then w is the link of a cell, and that cell was not free. */
  lemma OnlyLiveLinks(m: seq<u64>, sh: Shape, lists: nat, c: Cache, p: nat, w: nat, c': Cache)
    returns (i: nat)
    requires Represents(m, sh, lists, c) && p in c.chain && w < 512 && w != 2 && w != 3
    requires lists + 32 < WORD && p < FRAME_LIMIT && 4096 * p + 8 * w < WORD
    requires Represents(Given(m, lists, 4096 * p + 8 * w), sh, lists, c')
    ensures IsLive(c, sh.cells, p, i) && w == CellWord(sh, i)
  {
    hide Represents, Entry, Given, Pushed, ListsAt, Without, Away, CellWord, CellAddr, SlabAt, Consistent, Load;
    var m' := Given(m, lists, 4096 * p + 8 * w);
    RepresentsFacts(m, sh, lists, c);
    RepresentsFacts(m', sh, lists, c');
    ListsAfterGiven(m, sh, lists, c, p, w);
    var used := Entry(Pushed(m, p, w), p, 4);
    var j := Target(used);
    var rest := [Without(c.full, p), Without(c.partial, p), Without(c.empty, p)];
    FrontNode(m', lists, rest[j := [p] + rest[j]], j, p);
    FrontIsListed(m', sh, lists, c', j, p);
    ListedHasFree(c', sh.cells, j, p);
    i := c'.chain[p][0];
    EntriesAfterGiven(m, sh, lists, c, p, w, 1);
    PushedEntries(m, p, w, 1);
    FirstFreeIs(m', sh, p, c'.chain[p]);
    SlabIsInMemory(m, sh, p, c.chain[p]);
    CellAddrFits(sh, p, i);
    assert w == CellWord(sh, i);
    if i in c.chain[p] {
      CellWordLow(sh, i);
      EntriesAfterGiven(m, sh, lists, c, p, w, 4);
      PushedEntries(m, p, w, 4);
      UsedIs(m, sh, p, c.chain[p]);
      UsedIs(m', sh, p, c'.chain[p]);
      OneMoreFree(sh.cells, |c.chain[p]|, |c'.chain[p]|);
      FreeCellCircles(m, m', sh, lists, c, c', p, i);
    }
  }

  lemma FrontNode(m: seq<u64>, lists: nat, ls: seq<seq<nat>>, j: nat, p: nat)
    requires ListsAt(m, lists, ls) && j < 3 && ls[j] != [] && ls[j][0] == p
    ensures Next(m, lists + 16 * j) == Head(p)
  {
    hide Ring, Load;
    ListFacts(m, lists, ls, j);
    RingHead(m, lists + 16 * j, Heads(ls[j]));
  }

  lemma ListedHasFree(c: Cache, cells: nat, j: nat, p: nat)
    requires Consistent(c, cells) && 1 <= j < 3 && p in Lists(c)[j]
    ensures p in c.chain && c.chain[p] != [] && c.chain[p][0] < cells
  {
  }

  lemma FirstFreeIs(m: seq<u64>, sh: Shape, p: nat, chain: seq<nat>)
    requires SlabAt(m, sh, p, chain) && chain != []
    ensures Entry(m, p, 1) == CellAddr(sh, p, chain[0])
  {
  }

  lemma OneMoreFree(cells: nat, free: nat, free': nat)
    requires cells < 512 && free <= cells && free' <= cells && cells - free' == (cells - free + (WORD - 1)) % WORD
    ensures free' == free + 1
  {
  }

  /** A free cell put in front of its chain again makes the chain run in a circle, which no cache's does. */
  lemma FreeCellCircles(m: seq<u64>, m': seq<u64>, sh: Shape, lists: nat, c: Cache, c': Cache, p: nat, i: nat)
    requires Represents(m, sh, lists, c) && p in c.chain && i in c.chain[p] && i < sh.cells
    requires lists + 32 < WORD && CellAddr(sh, p, i) < WORD && m' == Given(m, lists, CellAddr(sh, p, i))
    requires p in c'.chain && c'.chain[p] != [] && c'.chain[p][0] == i
    requires |c'.chain[p]| == |c.chain[p]| + 1
    ensures !Represents(m', sh, lists, c')
  {
    hide Represents, Entry, Given, Pushed, ListsAt, Away, CellWord, CellAddr, SlabAt, Consistent;
    if Represents(m', sh, lists, c') {
      RepresentsFacts(m, sh, lists, c);
      RepresentsFacts(m', sh, lists, c');
      SlabIsInMemory(m, sh, p, c.chain[p]);
      CellAddrFits(sh, p, i);
      CellsInPage(sh, i);
      CellWordLow(sh, i);
      var w, chain, chain' := CellWord(sh, i), c.chain[p], c'.chain[p];
      var t: nat :| t < |chain| && chain[t] == i;
      forall j: nat | j < sh.cells
        ensures Entry(m', p, CellWord(sh, j)) == if j == i then Entry(m, p, 1) else Entry(m, p, CellWord(sh, j))
      {
        CellsInPage(sh, j);
        CellWordLow(sh, j);
        EntriesAfterGiven(m, sh, lists, c, p, w, CellWord(sh, j));
        PushedEntries(m, p, w, CellWord(sh, j));
        if j != i { CellsAreDistinct(sh, i, j); }
      }
      FirstFreeIs(m, sh, p, chain);
      ChainLoops(m, m', sh, p, chain, t, chain', t);
    }
  }

  /** The address of a list node: a slab's, or one of the cache's heads. */
  predicate IsNode(lists: nat, a: nat) {
    a % 8 == 0 && (a % 4096 == 16 || lists <= a <= lists + 32)
  }

  /** Who stands next to page p's node in its list. */
  lemma Neighbours(m: seq<u64>, lists: nat, ls: seq<seq<nat>>, k: nat, u: seq<nat>, p: nat, v: seq<nat>)
    requires ListsAt(m, lists, ls) && k < 3 && ls[k] == u + [p] + v
    ensures Prev(m, Head(p)) == if u == [] then lists + 16 * k else Head(u[|u| - 1])
    ensures Next(m, Head(p)) == if v == [] then lists + 16 * k else Head(v[0])
  {
    hide Load, ListsAt, Path, NodeAt, Head;
    ListFacts(m, lists, ls, k);
    var h, x := lists + 16 * k, Head(p);
    HeadsOfSplit(u, p, v);
    PathSplits(m, h, Heads(u), x, Heads(v), h);
    PathEnd(m, h, Heads(u), x);
    PathEnd(m, x, Heads(v), h);
  }

  /** A slab's neighbours in its list are nodes. */
  lemma NeighboursAreNodes(m: seq<u64>, sh: Shape, lists: nat, c: Cache, p: nat)
    requires Represents(m, sh, lists, c) && p in c.chain
    ensures IsNode(lists, Prev(m, Head(p))) && IsNode(lists, Next(m, Head(p)))
  {
    hide Load, SlabAt, Consistent, ListsAt, Represents, IsNode, Head;
    RepresentsFacts(m, sh, lists, c);
    ListsFit(m, sh, lists, c);
    var k, u, v := PlaceOf(c, p) by { ListsOfConsistent(c, sh.cells, p); }
    Neighbours(m, lists, Lists(c), k, u, p, v);
    NodesAreNodes(lists, k);
  }

  lemma NodesAreNodes(lists: nat, k: nat)
    requires lists % 8 == 0 && k < 3
    ensures IsNode(lists, lists + 16 * k) && forall q {:trigger Head(q)} :: IsNode(lists, Head(q))
  {
  }

  /** A node is no cell, and not where a slab keeps firstFree. */
  lemma NodeIsNoCell(sh: Shape, lists: nat, p: nat, a: nat)
    requires IsNode(lists, a) && sh.Fits() && p < FRAME_LIMIT && Away(lists, p)
    ensures forall i: nat :: i < sh.cells ==> a != CellAddr(sh, p, i)
    ensures a / 8 != 512 * p + 1 && a / 8 != 512 * p && (a + 8) / 8 != 512 * p + 1 && (a + 8) / 8 != 512 * p + 2
  {
    hide CellAddr, CellWord;
    forall i: nat | i < sh.cells ensures a != CellAddr(sh, p, i) {
      CellAddrFits(sh, p, i);
      CellWordLow(sh, i);
      CellsInPage(sh, i);
    }
  }

  lemma WordAfterStore(m: seq<u64>, a: nat, v: u64, k: nat)
    requires k < |m|
    ensures Store(m, a, v)[k] == if a / 8 == k then v else m[k]
  {
  }

  /**
   * llDelete and llInsertFront on a slab whose prev or next was overwritten with any word v: the
   * slab's word 1 ends up as it was, or as a node's address.
   */
  lemma WildMove(m: seq<u64>, lists: nat, p: nat, h: u64, prev: u64, next: u64)
    requires HasFrame(m, p) && p < FRAME_LIMIT && Away(lists, p) && lists <= h <= lists + 32 && h % 8 == 0
    requires (h + 8) / 8 < |m|
    requires prev == Prev(m, Head(p)) && next == Next(m, Head(p)) && (IsNode(lists, prev) || IsNode(lists, next))
    ensures Head(p) < WORD
    ensures var m' := InsertedFront(Deleted(m, Head(p)), h, Head(p));
            && |m'| == |m| && Next(m', h) == Head(p)
            && (m'[512 * p + 1] == m[512 * p + 1] || IsNode(lists, m'[512 * p + 1]))
  {
    hide Store;
    var x, k := Head(p), 512 * p + 1;
    assert x / 8 == 512 * p + 2 && (x + 8) / 8 == 512 * p + 3;
    assert IsNode(lists, x);
    assert (h + 8) / 8 != k && h / 8 != k && x / 8 != (h + 8) / 8;
    var m1 := Store(m, prev + 8, next);
    WordAfterStore(m, prev + 8, next, k);
    WordAfterStore(m, prev + 8, next, 512 * p + 2);
    WordAfterStore(m, prev + 8, next, 512 * p + 3);
    assert Next(m1, x) == next;
    var p1 := Prev(m1, x);
    var m2 := Store(m1, next, p1);
    WordAfterStore(m1, next, p1, k);
    var n := Next(m2, h);
    var m3 := Store(m2, x + 8, n);
    WordAfterStore(m2, x + 8, n, k);
    var m4 := Store(m3, n, x);
    WordAfterStore(m3, n, x, k);
    var m5 := Store(m4, h + 8, x);
    WordAfterStore(m4, h + 8, x, k);
    WordAfterStore(m4, h + 8, x, (h + 8) / 8);
    WordAfterStore(m5, x, h, k);
    WordAfterStore(m5, x, h, (h + 8) / 8);
    NodeHits(lists, p, prev);
    NodeHits(lists, p, next);
  }

  lemma NodeHits(lists: nat, p: nat, a: nat)
    requires Away(lists, p)
    ensures IsNode(lists, a) ==> a / 8 != 512 * p + 1 && (a + 8) / 8 != 512 * p + 1 && (a + 8) / 8 != 512 * p + 2
  {
  }

  /** Freeing a word of the list node itself never leaves a cache. */
  lemma NodeWordsSpoil(m: seq<u64>, sh: Shape, lists: nat, c: Cache, p: nat, w: nat, c': Cache)
    requires Represents(m, sh, lists, c) && p in c.chain && 2 <= w <= 3
    ensures lists + 32 < WORD && 4096 * p + 8 * w < WORD
    ensures !Represents(Given(m, lists, 4096 * p + 8 * w), sh, lists, c')
  {
    hide Represents, Entry, SlabAt, ListsAt, Consistent, Given, Pushed, Away, CellAddr, InsertedFront, Deleted,
         IsNode, Load;
    RepresentsFacts(m, sh, lists, c);
    ListsFit(m, sh, lists, c);
    SlabIsInMemory(m, sh, p, c.chain[p]);
    GivenIsPushed(m, lists, p, w);
    var m3, m' := Pushed(m, p, w), Given(m, lists, 4096 * p + 8 * w);
    var used := Entry(m3, p, 4);
    var j := Target(used);
    PushedNode(m, p, w);
    NeighboursAreNodes(m, sh, lists, c, p);
    WildMove(m3, lists, p, lists + 16 * j, Prev(m3, Head(p)), Next(m3, Head(p)));
    WordOne(m3, p);
    WordOne(m', p);
    PushedEntries(m, p, w, 1);
    if Represents(m', sh, lists, c') {
      RepresentsFacts(m', sh, lists, c');
      FrontIsListed(m', sh, lists, c', j, p);
      ListedHasFree(c', sh.cells, j, p);
      FirstFreeIs(m', sh, p, c'.chain[p]);
      NodeIsNoCell(sh, lists, p, 4096 * p + 16) by { OwnNode(lists, p); }
      if IsNode(lists, Entry(m', p, 1)) {
        NodeIsNoCell(sh, lists, p, Entry(m', p, 1));
      } else {
        CellAddrFits(sh, p, c'.chain[p][0]);
        CellWordLow(sh, c'.chain[p][0]);
      }
    }
  }

  lemma OwnNode(lists: nat, p: nat)
    ensures IsNode(lists, 4096 * p + 16)
  {
  }

  lemma WordOne(m: seq<u64>, p: nat)
    requires HasFrame(m, p)
    ensures m[512 * p + 1] == Entry(m, p, 1)
  {
  }

  /** Of prev and next, the free has overwritten one and left the other. */
  lemma PushedNode(m: seq<u64>, p: nat, w: nat)
    requires HasFrame(m, p) && p < FRAME_LIMIT && 2 <= w <= 3
    ensures |Pushed(m, p, w)| == |m|
    ensures w == 2 ==> Next(Pushed(m, p, w), Head(p)) == Next(m, Head(p))
    ensures w == 3 ==> Prev(Pushed(m, p, w), Head(p)) == Prev(m, Head(p))
  {
    hide Entry, SetEntry, Load;
    PushedEntries(m, p, w, 2);
    PushedEntries(m, p, w, 3);
    PushedLength(m, p, w);
    EntryIsLoad(m, p, 2);
    EntryIsLoad(m, p, 3);
    EntryIsLoad(Pushed(m, p, w), p, 2);
    EntryIsLoad(Pushed(m, p, w), p, 3);
  }

  lemma PushedLength(m: seq<u64>, p: nat, w: nat)
    requires p < FRAME_LIMIT && w < 512
    ensures |Pushed(m, p, w)| == |m|
  {
  }

  ghost predicate HoldsACache(m: seq<u64>, sh: Shape, lists: nat) {
    exists c :: Represents(m, sh, lists, c)
  }

  /**
   * slabFree on a word of a slab leaves a memory that represents a cache exactly when the word is
   * the link of a live cell: neither the pointer slabAlloc returned, nor a cell that is free
   * already, nor any word of the header will do.
   */
  lemma FreeableIff(m: seq<u64>, sh: Shape, lists: nat, c: Cache, p: nat, w: nat)
    requires Represents(m, sh, lists, c) && p in c.chain && w < 512
    ensures lists + 32 < WORD && 4096 * p + 8 * w < WORD
    ensures HoldsACache(Given(m, lists, 4096 * p + 8 * w), sh, lists) <==>
            (exists i: nat :: IsLive(c, sh.cells, p, i) && w == CellWord(sh, i))
  {
    hide Represents, Given, Without, ListsAt, OnlyNodesWritten, Pushed, CellWord, IsLive, Entry;
    WordsOfSlabFit(m, sh, lists, c, p, w);
    var m' := Given(m, lists, 4096 * p + 8 * w);
    if c' :| Represents(m', sh, lists, c') {
      if 2 <= w <= 3 {
        NodeWordsSpoil(m, sh, lists, c, p, w, c');
      } else {
        var i := OnlyLiveLinks(m, sh, lists, c, p, w, c');
      }
    }
    if i: nat :| IsLive(c, sh.cells, p, i) && w == CellWord(sh, i) {
      GivenStands(m, sh, lists, c, p, i);
      LiveCellAddr(m, sh, lists, c, p, i);
    }
  }

  /** Freeing a cell that is free already leaves no cache: its chain would run in a circle. */
  lemma DoubleFree(m: seq<u64>, sh: Shape, lists: nat, c: Cache, p: nat, i: nat)
    requires Represents(m, sh, lists, c) && p in c.chain && i in c.chain[p]
    ensures lists + 32 < WORD && CellAddr(sh, p, i) < WORD
    ensures !HoldsACache(Given(m, lists, CellAddr(sh, p, i)), sh, lists)
  {
    hide Represents, Given, SlabAt, ListsAt, CellWord, CellAddr, HoldsACache;
    RepresentsFacts(m, sh, lists, c);
    SlabIsInMemory(m, sh, p, c.chain[p]);
    CellAddrFits(sh, p, i);
    CellWordLow(sh, i);
    CellsInPage(sh, i);
    FreeableIff(m, sh, lists, c, p, CellWord(sh, i));
    forall j: nat | IsLive(c, sh.cells, p, j) ensures CellWord(sh, j) != CellWord(sh, i) {
      CellsAreDistinct(sh, i, j);
    }
  }

  lemma WordsOfSlabFit(m: seq<u64>, sh: Shape, lists: nat, c: Cache, p: nat, w: nat)
    requires Represents(m, sh, lists, c) && p in c.chain && w < 512
    ensures lists + 32 < WORD && p < FRAME_LIMIT && 4096 * p + 8 * w < WORD
  {
    hide Represents, SlabAt, ListsAt;
    RepresentsFacts(m, sh, lists, c);
    ListsFit(m, sh, lists, c);
    SlabIsInMemory(m, sh, p, c.chain[p]);
  }

  lemma LiveCellAddr(m: seq<u64>, sh: Shape, lists: nat, c: Cache, p: nat, i: nat)
    requires Represents(m, sh, lists, c) && IsLive(c, sh.cells, p, i)
    ensures CellAddr(sh, p, i) == 4096 * p + 8 * CellWord(sh, i)
  {
    hide Represents, CellAddr, CellWord, SlabAt, ListsAt;
    RepresentsFacts(m, sh, lists, c);
    SlabIsInMemory(m, sh, p, c.chain[p]);
    CellAddrFits(sh, p, i);
  }

  /** The word just past an object's pointer is no link, so a pointer is never one to free. */
  lemma PointerIsNoLink(sh: Shape, i: nat, j: nat)
    requires sh.Fits() && i < sh.cells && j < sh.cells
    ensures CellWord(sh, i) + 1 != CellWord(sh, j)
  {
    ObjectsAreApart(sh, i, CellWord(sh, i) + 1);
  }

  /** The slab that slabAlloc turns to after a free in page p is p itself. */
  predicate ComesNext(c: Cache, cells: nat, p: nat)
    requires p in c.chain
  {
    |c.chain[p]| + 1 == cells || Without(c.empty, p) == []
  }

  /**
   * slabFree on the very pointer that slabAlloc returned. No cache is left. If the freed slab comes
   * next, slabAlloc returns the pointer plus a word, and for objects of every size the last word of
   * what it hands out is where the next cell's link is, or would be behind the last cell.
   */
  lemma LiteralFreeDrifts(m: seq<u64>, sh: Shape, lists: nat, c: Cache, p: nat, i: nat, bits: seq<bool>)
    requires Represents(m, sh, lists, c) && IsLive(c, sh.cells, p, i) && |bits| <= FRAME_LIMIT
    ensures sh.Fits() && lists + 32 < WORD && UserPointer(sh, p, i) < WORD
    ensures var given := UserPointer(sh, p, i);
            var m' := Given(m, lists, given);
            && !HoldsACache(m', sh, lists)
            && (ComesNext(c, sh.cells, p) ==>
                 var r := Allocated(m', sh, lists, bits);
                 r.Some? && r.value.2 == given + 8 && r.value.1 == bits)
            && given + 8 + 8 * (sh.words - 2) == CellAddr(sh, p, i + 1)
  {
    hide Represents, Given, Without, ListsAt, OnlyNodesWritten, Pushed, CellWord, Entry, Taken, SlabAt, Away,
         Consistent;
    RepresentsFacts(m, sh, lists, c);
    SlabIsInMemory(m, sh, p, c.chain[p]);
    var w := CellWord(sh, i) + 1;
    PointerIsWord(sh, p, i);
    FreeableIff(m, sh, lists, c, p, w);
    forall j: nat | IsLive(c, sh.cells, p, j) ensures w != CellWord(sh, j) {
      PointerIsNoLink(sh, i, j);
    }
    PushChain(c.chain[p], sh.cells, i);
    if ComesNext(c, sh.cells, p) {
      DriftedAlloc(m, sh, lists, c, p, w, bits);
    }
  }

  lemma PointerIsWord(sh: Shape, p: nat, i: nat)
    requires sh.Fits() && i < sh.cells && p < FRAME_LIMIT
    ensures 5 < CellWord(sh, i) + 1 < 512 && UserPointer(sh, p, i) == 4096 * p + 8 * (CellWord(sh, i) + 1)
    ensures UserPointer(sh, p, i) + 8 + 8 * (sh.words - 2) == CellAddr(sh, p, i + 1)
  {
    ObjectsAreApart(sh, i, CellWord(sh, i) + 1);
    CellAddrFits(sh, p, i);
    assert (i + 1) * sh.words == i * sh.words + sh.words;
  }

  /** slabAlloc after slabFree on any word past the header: it returns that word's address plus 8. */
  lemma DriftedAlloc(m: seq<u64>, sh: Shape, lists: nat, c: Cache, p: nat, w: nat, bits: seq<bool>)
    requires Represents(m, sh, lists, c) && p in c.chain && 5 <= w < 512 && |bits| <= FRAME_LIMIT
    requires |c.chain[p]| < sh.cells && ComesNext(c, sh.cells, p)
    ensures sh.Fits() && lists + 32 < WORD && 4096 * p + 8 * w < WORD
    ensures var r := Allocated(Given(m, lists, 4096 * p + 8 * w), sh, lists, bits);
            r.Some? && r.value.2 == 4096 * p + 8 * (w + 1) && r.value.1 == bits
  {
    hide Represents, Given, Without, ListsAt, OnlyNodesWritten, Pushed, CellWord, Entry, SlabAt, Consistent,
         Load, Allocated, Ring;
    RepresentsFacts(m, sh, lists, c);
    ListsFit(m, sh, lists, c);
    ListsAfterGiven(m, sh, lists, c, p, w);
    UsedIs(m, sh, p, c.chain[p]);
    PushedEntries(m, p, w, 4);
    PushedEntries(m, p, w, 1);
    EntriesAfterGiven(m, sh, lists, c, p, w, 1);
    var m', used := Given(m, lists, 4096 * p + 8 * w), Entry(Pushed(m, p, w), p, 4);
    var j := Target(used);
    var rest := [Without(c.full, p), Without(c.partial, p), Without(c.empty, p)];
    var ls := rest[j := [p] + rest[j]];
    FrontNode(m', lists, ls, j, p);
    ListFacts(m', lists, ls, 1);
    ListFacts(m', lists, ls, 2);
    EmptyTest(m', lists + 16, Heads(ls[1]));
    EmptyTest(m', lists + 32, Heads(ls[2]));
    EntryIsLoad(m', p, 1);
    FrontTaken(m', sh, lists, p, 4096 * p + 8 * w, bits);
    PastWord(p, w);
  }

  /** What slabAlloc returns, going by the list heads and the front slab's firstFree. */
  lemma FrontTaken(m: seq<u64>, sh: Shape, lists: nat, p: nat, first: u64, bits: seq<bool>)
    requires sh.Fits() && lists + 32 < WORD && p < FRAME_LIMIT && |bits| <= FRAME_LIMIT
    requires Next(m, lists + 32) == lists + 32 ==> Next(m, lists + 16) == Head(p) && Head(p) != lists + 16
    requires Next(m, lists + 32) != lists + 32 ==> Next(m, lists + 32) == Head(p)
    requires Load(m, 4096 * p + 8) == first
    ensures var r := Allocated(m, sh, lists, bits);
            r.Some? && r.value.2 == (first + 8) % WORD && r.value.1 == bits
  {
    hide Load, Store, InsertedFront, Deleted, Added, TakePages;
    WrapsToSlab(p);
  }


  lemma PastWord(p: nat, w: nat)
    requires p < FRAME_LIMIT && w < 512
    ensures (4096 * p + 8 * w + 8) % WORD == 4096 * p + 8 * (w + 1)
  {
  }
}
