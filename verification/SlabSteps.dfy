/** Each change a slab operation makes to memory, and the abstract step it stands for. */
module SlabSteps {
  import opened Words
  import opened Arithmetic
  import opened Ram
  import opened Paging
  import opened LinkedList
  import opened SlabModel
  import opened SlabLayout

  lemma RepresentsFacts(m: seq<u64>, sh: Shape, lists: nat, c: Cache)
    requires Represents(m, sh, lists, c)
    ensures sh.Fits() && Consistent(c, sh.cells) && ListsAt(m, lists, Lists(c))
    ensures forall p :: p in c.chain ==> Away(lists, p) && SlabAt(m, sh, p, c.chain[p]) && ChainOk(c.chain[p], sh.cells)
  {
  }

  lemma ListedPages(c: Cache, cells: nat)
    requires Consistent(c, cells)
    ensures forall k, p :: 0 <= k < 3 && p in Lists(c)[k] ==> p in c.chain
  {
  }

  /** Writing to a page that is no slab yet disturbs nothing. */
  lemma FreshPageWrite(m: seq<u64>, sh: Shape, lists: nat, c: Cache, p: nat, w: nat, v: u64)
    requires Represents(m, sh, lists, c) && p !in c.chain && Away(lists, p) && HasFrame(m, p) && w < 512
    ensures Represents(SetEntry(m, p, w, v), sh, lists, c)
  {
    hide Represents, SetEntry, SlabAt, ListsAt, Consistent, Ring, Away, ChainOk;
    var m' := SetEntry(m, p, w, v);
    RepresentsFacts(m, sh, lists, c);
    ListedPages(c, sh.cells);
    forall k: nat | k < 3 ensures Ring(m', lists + 16 * k, Heads(Lists(c)[k])) {
      FreshWriteKeepsRing(m, lists, Lists(c), k, p, w, v);
    }
    ListFacts(m, lists, Lists(c), 0);
    ListReplaced(m, m', lists, Lists(c), 0, c.full) by {
      ListFacts(m, lists, Lists(c), 0);
      ListsDisjoint(m, lists, Lists(c), 1, 0);
      ListsDisjoint(m, lists, Lists(c), 2, 0);
    }
    assert Lists(c)[0 := c.full] == Lists(c);
    forall q | q in c.chain ensures SlabAt(m', sh, q, c.chain[q]) {
      SlabKeptByPageWrite(m, sh, q, c.chain[q], p, w, v);
    }
    RepresentsFrom(m', sh, lists, c);
  }

  lemma RepresentsFrom(m: seq<u64>, sh: Shape, lists: nat, c: Cache)
    requires sh.Fits() && Consistent(c, sh.cells) && ListsAt(m, lists, Lists(c))
    requires forall p :: p in c.chain ==> Away(lists, p) && SlabAt(m, sh, p, c.chain[p])
    ensures Represents(m, sh, lists, c)
  {
  }

  lemma FreshWriteKeepsRing(m: seq<u64>, lists: nat, ls: seq<seq<nat>>, k: nat, p: nat, w: nat, v: u64)
    requires ListsAt(m, lists, ls) && k < 3 && p !in ls[k] && Away(lists, p) && HasFrame(m, p) && w < 512
    ensures Ring(SetEntry(m, p, w, v), lists + 16 * k, Heads(ls[k]))
  {
    hide Ring, SetEntry, Store, Load, Heads;
    var m' := SetEntry(m, p, w, v);
    var h := lists + 16 * k;
    ListFacts(m, lists, ls, k);
    StoreIsSetEntry(m, p, w, v);
    WordsOfNode(m, p, w, v, h);
    forall x | x in Heads(ls[k]) ensures Next(m', x) == Next(m, x) && Prev(m', x) == Prev(m, x) {
      InHeads(ls[k], x);
      NodeIsAligned(m, h, Heads(ls[k]), x);
      WordsOfNode(m, p, w, v, x);
    }
    RingKept(m, m', h, Heads(ls[k]));
  }

  lemma NodeIsAligned(m: seq<u64>, h: nat, s: seq<nat>, x: nat)
    requires Ring(m, h, s) && x in s
    ensures NodeAt(m, x)
  {
  }

  lemma WordsOfNode(m: seq<u64>, p: nat, w: nat, v: u64, x: nat)
    requires HasFrame(m, p) && w < 512 && NodeAt(m, x)
    requires x + 16 <= 4096 * p || 4096 * p + 4096 <= x
    ensures Next(Store(m, 4096 * p + 8 * w, v), x) == Next(m, x) && Prev(Store(m, 4096 * p + 8 * w, v), x) == Prev(m, x)
  {
    hide Load, Store;
    LoadAfterStore(m, 4096 * p + 8 * w, v, x);
    LoadAfterStore(m, 4096 * p + 8 * w, v, x + 8);
  }

  /** Moving a node between lists keeps every slab, as far as its chain is concerned. */
  lemma SlabsKept(m: seq<u64>, m': seq<u64>, sh: Shape, lists: nat, c: Cache)
    requires sh.Fits() && Consistent(c, sh.cells) && OnlyNodesWritten(m, m', lists)
    requires forall p :: p in c.chain ==> Away(lists, p) && SlabAt(m, sh, p, c.chain[p])
    ensures forall p :: p in c.chain ==> SlabAt(m', sh, p, c.chain[p])
  {
    hide SlabAt, OnlyNodesWritten, Away;
    forall p | p in c.chain ensures SlabAt(m', sh, p, c.chain[p]) {
      SlabKept(m, m', sh, lists, p, c.chain[p]);
    }
  }

  /** A prepared page joins the front of the empty list. */
  lemma GrowRepresented(m: seq<u64>, sh: Shape, lists: nat, c: Cache, p: nat)
    requires Represents(m, sh, lists, c) && p !in c.chain && Away(lists, p)
    requires SlabAt(m, sh, p, AllCells(sh.cells))
    ensures lists + 32 < 0x1_0000_0000_0000_0000 && Head(p) < 0x1_0000_0000_0000_0000
    ensures Represents(InsertedFront(m, lists + 32, Head(p)), sh, lists, Grow(c, sh.cells, p))
  {
    hide Represents, SlabAt, ListsAt, Consistent, Away, ChainOk, InsertedFront, AllCells, OnlyNodesWritten, Used;
    RepresentsFacts(m, sh, lists, c);
    ListedPages(c, sh.cells);
    SlabIsInMemory(m, sh, p, AllCells(sh.cells));
    InsertIntoList(m, lists, Lists(c), 2, p);
    GrowAddsNothingLive(c, sh.cells, p);
    var d := Grow(c, sh.cells, p);
    assert Lists(c)[2 := [p] + c.empty] == Lists(d);
    SlabsKept(m, InsertedFront(m, lists + 32, Head(p)), sh, lists, d);
    RepresentsFrom(InsertedFront(m, lists + 32, Head(p)), sh, lists, d);
  }

  /** After the header and link of page p were rewired, all that is left is to fix its list. */
  lemma RewiredSlabs(m: seq<u64>, sh: Shape, lists: nat, c: Cache, p: nat, w: nat, link: u64, first: u64, used: u64,
      l: seq<nat>)
    requires Represents(m, sh, lists, c) && p in c.chain && 5 <= w < 512
    requires SlabAt(Rewired(m, p, w, link, first, used), sh, p, l)
    ensures var m1 := Rewired(m, p, w, link, first, used);
            && ListsAt(m1, lists, Lists(c))
            && forall q :: q in c.chain ==> Away(lists, q) && SlabAt(m1, sh, q, c.chain[p := l][q])
  {
    hide SlabAt, ListsAt, Consistent, Rewired;
    RewiringKeepsTheRest(m, sh, lists, c, p, w, link, first, used);
  }

  /** What slabAlloc leaves behind, given what it found. */
  function AfterTake(m: seq<u64>, sh: Shape, lists: nat, p: nat, w: nat): (r: seq<u64>)
    requires lists < 0x1_0000_0000_0000_0000 && Head(p) < 0x1_0000_0000_0000_0000
  {
    var used := (Entry(m, p, 4) + 1) % 0x1_0000_0000_0000_0000;
    var m1 := SetEntry(SetEntry(m, p, 1, Entry(m, p, w)), p, 4, used);
    if used == sh.cells then InsertedFront(Deleted(m1, Head(p)), lists, Head(p)) else m1
  }

  lemma SameWordWrite(m: seq<u64>, p: nat, w: nat)
    requires HasFrame(m, p) && w < 512
    ensures SetEntry(m, p, w, Entry(m, p, w)) == m
  {
  }

  lemma NodesWrittenTwice(m: seq<u64>, m1: seq<u64>, m2: seq<u64>, lists: nat)
    requires OnlyNodesWritten(m, m1, lists) && OnlyNodesWritten(m1, m2, lists)
    ensures OnlyNodesWritten(m, m2, lists)
  {
    hide Entry, Away;
  }

  /** llDelete, then llInsertFront: page p goes from its place in list k to the front of list j. */
  lemma MoveNode(m: seq<u64>, lists: nat, ls: seq<seq<nat>>, k: nat, u: seq<nat>, p: nat, v: seq<nat>, j: nat)
    requires ListsAt(m, lists, ls) && k < 3 && j < 3 && ls[k] == u + [p] + v
    requires Away(lists, p) && HasFrame(m, p) && p < FRAME_LIMIT
    ensures lists + 16 * j < 0x1_0000_0000_0000_0000 && Head(p) < 0x1_0000_0000_0000_0000
    ensures var m' := InsertedFront(Deleted(m, Head(p)), lists + 16 * j, Head(p));
            && OnlyNodesWritten(m, m', lists)
            && ListsAt(m', lists, ls[k := u + v][j := [p] + ls[k := u + v][j]])
  {
    hide ListsAt, Away, Deleted, InsertedFront, OnlyNodesWritten;
    DeleteFromList(m, lists, ls, k, u, p, v);
    DeletedLength(m, Head(p));
    ListFacts(m, lists, ls, k);
    var m1, ls1 := Deleted(m, Head(p)), ls[k := u + v];
    assert ls[k][|u|] == p && p in ls[k];
    forall i: nat | i < 3 ensures p !in ls1[i] {
      if i != k {
        ListsDisjoint(m, lists, ls, i, k);
      }
    }
    ListFacts(m1, lists, ls1, j);
    InsertIntoList(m1, lists, ls1, j, p);
    NodesWrittenTwice(m, m1, InsertedFront(m1, lists + 16 * j, Head(p)), lists);
  }

  lemma DeletedLength(m: seq<u64>, x: nat)
    ensures |Deleted(m, x)| == |m|
  {
  }

  /** Putting the pieces together after a move: lists from MoveNode, chains from the rewiring. */
  lemma AfterMove(m1: seq<u64>, m': seq<u64>, sh: Shape, lists: nat, d: Cache)
    requires sh.Fits() && Consistent(d, sh.cells)
    requires OnlyNodesWritten(m1, m', lists) && ListsAt(m', lists, Lists(d))
    requires forall q :: q in d.chain ==> Away(lists, q) && SlabAt(m1, sh, q, d.chain[q])
    ensures Represents(m', sh, lists, d)
  {
    hide SlabAt, ListsAt, Away, Consistent, OnlyNodesWritten;
    SlabsKept(m1, m', sh, lists, d);
    RepresentsFrom(m', sh, lists, d);
  }

  lemma RewiredWithoutLink(m: seq<u64>, p: nat, w: nat, first: u64, used: u64)
    requires HasFrame(m, p) && w < 512
    ensures Rewired(m, p, w, Entry(m, p, w), first, used) == SetEntry(SetEntry(m, p, 1, first), p, 4, used)
  {
    SameWordWrite(m, p, w);
  }

  lemma UsedIs(m: seq<u64>, sh: Shape, p: nat, l: seq<nat>)
    requires sh.Fits() && SlabAt(m, sh, p, l) && ChainOk(l, sh.cells)
    ensures Entry(m, p, 4) == sh.cells - |l| && 0 <= sh.cells - |l| && sh.cells < 512
  {
    ChainFits(l, sh.cells);
    MulLe(1, sh.words, sh.cells);
  }

  /** The part of Take before the lists change. */
  lemma PopRepresented(m: seq<u64>, sh: Shape, lists: nat, c: Cache, p: nat)
    requires Represents(m, sh, lists, c) && p in c.chain && c.chain[p] != []
    ensures |c.chain[p]| <= sh.cells < 512
    ensures var w := CellWord(sh, c.chain[p][0]);
            && 5 <= w < 512 && HasFrame(m, p) && p < FRAME_LIMIT
            && Entry(m, p, 1) == CellAddr(sh, p, c.chain[p][0])
            && Entry(m, p, 4) == sh.cells - |c.chain[p]|
    ensures var link := Entry(m, p, CellWord(sh, c.chain[p][0]));
            var m1 := SetEntry(SetEntry(m, p, 1, link), p, 4, sh.cells - |c.chain[p]| + 1);
            && |m1| == |m|
            && ListsAt(m1, lists, Lists(c))
            && forall q :: q in c.chain ==> Away(lists, q) && SlabAt(m1, sh, q, c.chain[p := c.chain[p][1..]][q])
  {
    hide Represents, SlabAt, ListsAt, Consistent, Away, ChainOk, CellWord, CellAddr, Rewired, Entry, SetEntry;
    RepresentsFacts(m, sh, lists, c);
    var l := c.chain[p];
    SlabIsInMemory(m, sh, p, l);
    PopSlab(m, sh, p, l);
    var w := CellWord(sh, l[0]);
    UsedIs(m, sh, p, l);
    var used := sh.cells - |l| + 1;
    RewiredSlabs(m, sh, lists, c, p, w, Entry(m, p, w), Entry(m, p, w), used, l[1..]);
    RewiredWithoutLink(m, p, w, Entry(m, p, w), used);
  }

  /** The part of Give before the lists change. */
  lemma PushRepresented(m: seq<u64>, sh: Shape, lists: nat, c: Cache, p: nat, i: nat)
    requires Represents(m, sh, lists, c) && IsLive(c, sh.cells, p, i)
    ensures |c.chain[p]| < sh.cells < 512 && CellAddr(sh, p, i) < 0x1_0000_0000_0000_0000
    ensures 5 <= CellWord(sh, i) < 512 && HasFrame(m, p) && p < FRAME_LIMIT
    ensures Entry(m, p, 4) == sh.cells - |c.chain[p]|
    ensures var m1 := Rewired(m, p, CellWord(sh, i), Entry(m, p, 1), CellAddr(sh, p, i), sh.cells - |c.chain[p]| - 1);
            && |m1| == |m|
            && ListsAt(m1, lists, Lists(c))
            && forall q :: q in c.chain ==> Away(lists, q) && SlabAt(m1, sh, q, c.chain[p := [i] + c.chain[p]][q])
  {
    hide Represents, SlabAt, ListsAt, Consistent, Away, ChainOk, CellWord, CellAddr, Rewired, Entry, SetEntry;
    RepresentsFacts(m, sh, lists, c);
    var l := c.chain[p];
    SlabIsInMemory(m, sh, p, l);
    PushSlab(m, sh, p, l, i);
    UsedIs(m, sh, p, l);
    var w, first, used := CellWord(sh, i), CellAddr(sh, p, i), sh.cells - |l| - 1;
    RewiredLength(m, p, w, Entry(m, p, 1), first, used);
    RewiredSlabs(m, sh, lists, c, p, w, Entry(m, p, 1), first, used, [i] + l);
  }

  /** The front slab's place in the lists. */
  lemma FrontPlace(c: Cache, cells: nat)
    requires Consistent(c, cells) && c.HasFree()
    ensures var k := if c.empty == [] then 1 else 2;
            Lists(c)[k] == [] + [c.Front()] + Lists(c)[k][1..]
  {
  }

  lemma FrontMoves(m1: seq<u64>, sh: Shape, lists: nat, c: Cache, p: nat)
    requires sh.Fits() && Consistent(c, sh.cells) && c.HasFree() && p == c.Front() && p in c.chain && |c.chain[p]| == 1
    requires ListsAt(m1, lists, Lists(c)) && HasFrame(m1, p) && p < FRAME_LIMIT
    requires forall q :: q in c.chain ==> Away(lists, q) && SlabAt(m1, sh, q, c.chain[p := c.chain[p][1..]][q])
    ensures lists < 0x1_0000_0000_0000_0000 && Head(p) < 0x1_0000_0000_0000_0000
    ensures Represents(InsertedFront(Deleted(m1, Head(p)), lists, Head(p)), sh, lists, Take(c))
  {
    hide Represents, SlabAt, ListsAt, Consistent, Away, Used, Deleted, InsertedFront, OnlyNodesWritten;
    TakeMakesOneLive(c, sh.cells);
    FrontPlace(c, sh.cells);
    var k := if c.empty == [] then 1 else 2;
    var rest := Lists(c)[k][1..];
    MoveNode(m1, lists, Lists(c), k, [], p, rest, 0);
    assert [] + rest == rest;
    assert Lists(c)[k := rest][0 := [p] + Lists(c)[k := rest][0]] == Lists(Take(c));
    AfterMove(m1, InsertedFront(Deleted(m1, Head(p)), lists, Head(p)), sh, lists, Take(c));
  }

  lemma FrontStays(m1: seq<u64>, sh: Shape, lists: nat, c: Cache, p: nat)
    requires sh.Fits() && Consistent(c, sh.cells) && c.HasFree() && p == c.Front() && p in c.chain && |c.chain[p]| > 1
    requires ListsAt(m1, lists, Lists(c))
    requires forall q :: q in c.chain ==> Away(lists, q) && SlabAt(m1, sh, q, c.chain[p := c.chain[p][1..]][q])
    ensures Represents(m1, sh, lists, Take(c))
  {
    hide Represents, SlabAt, ListsAt, Consistent, Away, Used;
    TakeMakesOneLive(c, sh.cells);
    RepresentsFrom(m1, sh, lists, Take(c));
  }

  /**
   * slabAlloc's writes refine Take: the picked slab loses its first free cell and, when that was the
   * last, moves to full.
   */
  lemma TakeRepresented(m: seq<u64>, sh: Shape, lists: nat, c: Cache)
    requires Represents(m, sh, lists, c) && c.HasFree()
    ensures lists < 0x1_0000_0000_0000_0000 && c.Front() in c.chain && c.chain[c.Front()] != []
    ensures Head(c.Front()) < 0x1_0000_0000_0000_0000
    ensures var p := c.Front();
            var w := CellWord(sh, c.chain[p][0]);
            && 5 <= w < 512 && HasFrame(m, p) && p < FRAME_LIMIT
            && Entry(m, p, 1) == CellAddr(sh, p, c.chain[p][0])
            && Represents(AfterTake(m, sh, lists, p, w), sh, lists, Take(c))
  {
    hide Represents, SlabAt, ListsAt, Consistent, Away, CellWord, CellAddr, Entry, SetEntry, Deleted,
         InsertedFront, Take;
    RepresentsFacts(m, sh, lists, c);
    FrontIsFree(c, sh.cells);
    var p := c.Front();
    PopRepresented(m, sh, lists, c, p);
    ListFacts(m, lists, Lists(c), 0);
    var w := CellWord(sh, c.chain[p][0]);
    var used := sh.cells - |c.chain[p]| + 1;
    var m1 := SetEntry(SetEntry(m, p, 1, Entry(m, p, w)), p, 4, used);
    if used == sh.cells {
      FrontMoves(m1, sh, lists, c, p);
    } else {
      FrontStays(m1, sh, lists, c, p);
    }
  }

  /** What slabFree leaves behind. */
  function AfterGive(m: seq<u64>, sh: Shape, lists: nat, p: nat, w: nat, addr: u64): (r: seq<u64>)
    requires lists + 32 < 0x1_0000_0000_0000_0000 && Head(p) < 0x1_0000_0000_0000_0000
  {
    var used := (Entry(m, p, 4) + 0xffff_ffff_ffff_ffff) % 0x1_0000_0000_0000_0000;
    var m1 := Rewired(m, p, w, Entry(m, p, 1), addr, used);
    InsertedFront(Deleted(m1, Head(p)), if used == 0 then lists + 32 else lists + 16, Head(p))
  }

  lemma ListsOfConsistent(c: Cache, cells: nat, p: nat)
    requires Consistent(c, cells) && p in c.chain
    ensures ListsApart(c.full, c.partial, c.empty) && (p in c.full || p in c.partial || p in c.empty)
  {
  }

  /** The list that holds page p, split around it. */
  lemma PlaceOf(c: Cache, p: nat) returns (k: nat, u: seq<nat>, v: seq<nat>)
    requires ListsApart(c.full, c.partial, c.empty) && (p in c.full || p in c.partial || p in c.empty)
    ensures k < 3 && Lists(c)[k] == u + [p] + v && Lists(c)[k := u + v] ==
            [Without(c.full, p), Without(c.partial, p), Without(c.empty, p)]
  {
    hide NoDuplicates;
    k := if p in c.full then 0 else if p in c.partial then 1 else 2;
    u, v := SplitAt(Lists(c)[k], p);
    WithoutSplit(u, p, v);
    if k != 0 { WithoutAbsent(c.full, p); }
    if k != 1 { WithoutAbsent(c.partial, p); }
    if k != 2 { WithoutAbsent(c.empty, p); }
  }

  lemma SplitAt(s: seq<nat>, p: nat) returns (u: seq<nat>, v: seq<nat>)
    requires NoDuplicates(s) && p in s
    ensures s == u + [p] + v && p !in u
  {
    var i :| 0 <= i < |s| && s[i] == p;
    u, v := s[..i], s[i + 1..];
  }

  /** slabFree's writes refine Give. */
  lemma GiveRepresented(m: seq<u64>, sh: Shape, lists: nat, c: Cache, p: nat, i: nat)
    requires Represents(m, sh, lists, c) && IsLive(c, sh.cells, p, i)
    ensures lists + 32 < 0x1_0000_0000_0000_0000 && Head(p) < 0x1_0000_0000_0000_0000
    ensures CellAddr(sh, p, i) < 0x1_0000_0000_0000_0000
    ensures var m' := AfterGive(m, sh, lists, p, CellWord(sh, i), CellAddr(sh, p, i));
            Represents(m', sh, lists, Give(c, sh.cells, p, i))
  {
    hide Represents, SlabAt, ListsAt, Consistent, Away, CellWord, CellAddr, Used, Entry, Rewired, Deleted,
         InsertedFront, OnlyNodesWritten, Without;
    RepresentsFacts(m, sh, lists, c);
    GiveEndsOneLife(c, sh.cells, p, i);
    PushRepresented(m, sh, lists, c, p, i);
    ListFacts(m, lists, Lists(c), 2);
    var k, u, v := PlaceOf(c, p) by { ListsOfConsistent(c, sh.cells, p); }
    var used := sh.cells - |c.chain[p]| - 1;
    var m1 := Rewired(m, p, CellWord(sh, i), Entry(m, p, 1), CellAddr(sh, p, i), used);
    var j := if used == 0 then 2 else 1;
    MoveNode(m1, lists, Lists(c), k, u, p, v, j);
    var d := Give(c, sh.cells, p, i);
    assert Lists(c)[k := u + v][j := [p] + Lists(c)[k := u + v][j]] == Lists(d);
    AfterMove(m1, InsertedFront(Deleted(m1, Head(p)), lists + 16 * j, Head(p)), sh, lists, d);
  }

  /** The reads and writes of llDelete on a listed page's node stay in memory. */
  lemma DeleteIsSafe(m: seq<u64>, lists: nat, ls: seq<seq<nat>>, k: nat, u: seq<nat>, p: nat, v: seq<nat>)
    requires ListsAt(m, lists, ls) && k < 3 && ls[k] == u + [p] + v
    ensures NodeAt(m, Head(p)) && NodeAt(m, Prev(m, Head(p))) && NodeAt(m, Next(m, Head(p)))
    ensures NodesApart(Head(p), Prev(m, Head(p)))
  {
    hide ListsAt, Away, Load;
    ListFacts(m, lists, ls, k);
    var h, x := lists + 16 * k, Head(p);
    HeadsOfSplit(u, p, v);
    var a, b := Heads(u), Heads(v);
    var s := a + [x] + b;
    PathSplits(m, h, a, x, b, h);
    PathEnd(m, h, a, x);
    PathEnd(m, x, b, h);
    PartsAreDistinct(a, x, b);
    assert s[|a|] == x && x in s;
    assert a != [] ==> a[|a| - 1] in a + b && s[|a| - 1] in s;
    assert b != [] ==> s[|a| + 1] in s;
  }
}
