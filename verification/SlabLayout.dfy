/** How a slab cache lies in memory: headers, links between free cells, and the three lists. */
module SlabLayout {
  import opened Words
  import opened Arithmetic
  import opened Ram
  import opened Paging
  import opened LinkedList
  import opened SlabModel

  /** First word of cell i, counted from the start of the page; a header of five words comes first. */
  function CellWord(sh: Shape, i: nat): nat {
    5 + i * sh.words
  }

  function CellAddr(sh: Shape, p: nat, i: nat): nat {
    4096 * p + 8 * CellWord(sh, i)
  }

  /** What slabAlloc hands out for the cell: the word after the link. */
  function UserPointer(sh: Shape, p: nat, i: nat): nat {
    CellAddr(sh, p, i) + 8
  }

  /** The LLHead in the header of page p. */
  function Head(p: nat): nat {
    4096 * p + 16
  }

  function Heads(s: seq<nat>): (r: seq<nat>)
    ensures |r| == |s| && forall i :: 0 <= i < |s| ==> r[i] == Head(s[i])
  {
    seq(|s|, i requires 0 <= i < |s| => Head(s[i]))
  }

  lemma CellsInPage(sh: Shape, i: nat)
    requires sh.Fits() && i < sh.cells
    ensures CellWord(sh, i) + sh.words <= 512
  {
    MulLe(i + 1, sh.cells, sh.words);
    assert (i + 1) * sh.words == i * sh.words + sh.words;
  }

  lemma CellsInOrder(sh: Shape, i: nat, j: nat)
    requires i < j
    ensures CellWord(sh, i) + sh.words <= CellWord(sh, j)
  {
    MulLe(i + 1, j, sh.words);
    assert (i + 1) * sh.words == i * sh.words + sh.words;
  }

  lemma CellsAreDistinct(sh: Shape, i: nat, j: nat)
    requires sh.Fits() && i != j
    ensures CellWord(sh, i) != CellWord(sh, j)
  {
    if i < j {
      CellsInOrder(sh, i, j);
    } else {
      CellsInOrder(sh, j, i);
    }
  }

  /** Page p holds a slab whose free cells are chain, in that order. The last link may hold anything. */
  ghost predicate SlabAt(m: seq<u64>, sh: Shape, p: nat, chain: seq<nat>)
  {
    && HasFrame(m, p) && p < FRAME_LIMIT
    && Entry(m, p, 0) == 4096 * p + 40
    && Entry(m, p, 4) == sh.cells - |chain|
    && (chain != [] ==> Entry(m, p, 1) == CellAddr(sh, p, chain[0]))
    && (forall k :: 0 <= k < |chain| - 1 ==>
          Entry(m, p, CellWord(sh, chain[k])) == CellAddr(sh, p, chain[k + 1]))
  }

  /** The cache's three list heads lie outside page p. */
  predicate Away(lists: nat, p: nat) {
    lists + 48 <= 4096 * p || 4096 * p + 4096 <= lists
  }

  /** The three lists, full, partial and empty, with their heads side by side from `lists` on. */
  ghost predicate ListsAt(m: seq<u64>, lists: nat, ls: seq<seq<nat>>)
  {
    && |ls| == 3
    && (forall k :: 0 <= k < 3 ==> Ring(m, lists + 16 * k, Heads(ls[k])))
    && (forall k, p :: 0 <= k < 3 && p in ls[k] ==> Away(lists, p))
    && (forall j, k, p :: 0 <= j < k < 3 && p in ls[j] ==> p !in ls[k])
  }

  /** Pages away from the heads differ at most in the two words of their own list node. */
  ghost predicate OnlyNodesWritten(m: seq<u64>, m': seq<u64>, lists: nat)
  {
    |m'| == |m|
    && forall p: nat, w: nat :: Away(lists, p) && w < 512 && w != 2 && w != 3 ==>
         Entry(m', p, w) == Entry(m, p, w)
  }

  lemma EntryIsLoad(m: seq<u64>, p: nat, w: nat)
    requires HasFrame(m, p) && w < 512
    ensures Load(m, 4096 * p + 8 * w) == Entry(m, p, w)
  {
  }

  lemma StoreIsSetEntry(m: seq<u64>, p: nat, w: nat, v: u64)
    requires HasFrame(m, p) && w < 512
    ensures Store(m, 4096 * p + 8 * w, v) == SetEntry(m, p, w, v)
  {
  }

  lemma HeadsApart(p: nat, q: nat, lists: nat, k: nat)
    requires p != q && Away(lists, p) && k < 3
    ensures NodesApart(Head(p), Head(q)) && NodesApart(lists + 16 * k, Head(p))
  {
  }

  lemma {:induction false} InHeads(s: seq<nat>, a: nat)
    ensures a in Heads(s) <==> exists p :: p in s && a == Head(p)
  {
    if a in Heads(s) {
      var i :| 0 <= i < |Heads(s)| && Heads(s)[i] == a;
      assert s[i] in s;
    }
    if exists p :: p in s && a == Head(p) {
      var p :| p in s && a == Head(p);
      var i :| 0 <= i < |s| && s[i] == p;
      assert Heads(s)[i] == a;
    }
  }

  /** A write to list nodes only, seen from a list that has none of them. */
  lemma OtherListKept(m: seq<u64>, m': seq<u64>, lists: nat, ls: seq<seq<nat>>, k: nat, c: seq<nat>)
    requires ListsAt(m, lists, ls) && k < 3 && |m'| == |m|
    requires forall b :: Outside(c, b) ==> Load(m', b) == Load(m, b)
    requires forall x :: x in c ==> NodesApart(lists + 16 * k, x) && forall p :: p in ls[k] ==> NodesApart(Head(p), x)
    ensures Ring(m', lists + 16 * k, Heads(ls[k]))
  {
    hide Load;
    var h := lists + 16 * k;
    assert Outside(c, h) && Outside(c, h + 8);
    forall x | x in Heads(ls[k]) ensures Next(m', x) == Next(m, x) && Prev(m', x) == Prev(m, x) {
      InHeads(ls[k], x);
      assert Outside(c, x) && Outside(c, x + 8);
    }
    RingKept(m, m', h, Heads(ls[k]));
  }

  /** Nodes of the lists are words 2 and 3 of pages, or the cache's heads. */
  lemma NodeWordsOnly(m: seq<u64>, m': seq<u64>, lists: nat, c: seq<nat>)
    requires |m'| == |m|
    requires forall b :: Outside(c, b) ==> Load(m', b) == Load(m, b)
    requires forall x :: x in c ==> (exists q: nat :: x == Head(q)) || (lists <= x && x + 16 <= lists + 48)
    ensures OnlyNodesWritten(m, m', lists)
  {
    forall p: nat, w: nat | Away(lists, p) && w < 512 && w != 2 && w != 3
      ensures Entry(m', p, w) == Entry(m, p, w)
    {
      if HasFrame(m, p) {
        var b := 4096 * p + 8 * w;
        EntryIsLoad(m, p, w);
        EntryIsLoad(m', p, w);
        assert Outside(c, b) by {
          forall x | x in c ensures b != x && b != x + 8 {
            if x < lists || lists + 48 < x + 16 {
              var q: nat :| x == Head(q);
            }
          }
        }
      }
    }
  }

  lemma HeadsOfSplit(u: seq<nat>, p: nat, v: seq<nat>)
    ensures Heads(u + [p] + v) == Heads(u) + [Head(p)] + Heads(v)
    ensures Heads(u + v) == Heads(u) + Heads(v)
  {
  }

  /** A step that writes only to nodes of list k, whose pages are s, keeps list j. */
  lemma StepKeepsOtherList(m: seq<u64>, m': seq<u64>, lists: nat, ls: seq<seq<nat>>, k: nat, s: seq<nat>, j: nat)
    requires ListsAt(m, lists, ls) && j < 3 && k < 3 && j != k && |m'| == |m|
    requires forall q :: q in s ==> Away(lists, q) && q !in ls[j]
    requires forall b :: Outside([lists + 16 * k] + Heads(s), b) ==> Load(m', b) == Load(m, b)
    ensures Ring(m', lists + 16 * j, Heads(ls[j]))
  {
    hide Load, Ring, Outside;
    var h := lists + 16 * k;
    var c := [h] + Heads(s);
    forall x | x in c
      ensures NodesApart(lists + 16 * j, x) && forall p :: p in ls[j] ==> NodesApart(Head(p), x)
    {
      if x == h {
        assert forall p :: p in ls[j] ==> Away(lists, p);
      } else {
        InHeads(s, x);
        var q :| q in s && x == Head(q);
        assert Away(lists, q);
      }
    }
    OtherListKept(m, m', lists, ls, j, c);
  }

  lemma StepWritesNodesOnly(m: seq<u64>, m': seq<u64>, lists: nat, k: nat, s: seq<nat>)
    requires k < 3 && |m'| == |m|
    requires forall b :: Outside([lists + 16 * k] + Heads(s), b) ==> Load(m', b) == Load(m, b)
    ensures OnlyNodesWritten(m, m', lists)
  {
    hide Load, Outside;
    var c := [lists + 16 * k] + Heads(s);
    forall x | x in c ensures (exists q: nat :: x == Head(q)) || (lists <= x && x + 16 <= lists + 48) {
      if x != lists + 16 * k {
        InHeads(s, x);
      }
    }
    NodeWordsOnly(m, m', lists, c);
  }

  lemma ListFacts(m: seq<u64>, lists: nat, ls: seq<seq<nat>>, k: nat)
    requires ListsAt(m, lists, ls) && k < 3
    ensures |ls| == 3 && Ring(m, lists + 16 * k, Heads(ls[k]))
    ensures NodeAt(m, lists + 16 * k) && NodeAt(m, Next(m, lists + 16 * k))
    ensures forall p :: p in ls[k] ==> Away(lists, p)
  {
    RingHead(m, lists + 16 * k, Heads(ls[k]));
  }

  lemma ListsDisjoint(m: seq<u64>, lists: nat, ls: seq<seq<nat>>, j: nat, k: nat)
    requires ListsAt(m, lists, ls) && j < 3 && k < 3 && j != k
    ensures |ls| == 3 && forall q :: q in ls[k] ==> q !in ls[j]
  {
  }

  lemma ListReplaced(m: seq<u64>, m': seq<u64>, lists: nat, ls: seq<seq<nat>>, k: nat, s: seq<nat>)
    requires ListsAt(m, lists, ls) && k < 3
    requires Ring(m', lists + 16 * k, Heads(s))
    requires forall j :: 0 <= j < 3 && j != k ==> Ring(m', lists + 16 * j, Heads(ls[j]))
    requires forall q :: q in s ==> Away(lists, q) && forall j :: 0 <= j < 3 && j != k ==> q !in ls[j]
    ensures ListsAt(m', lists, ls[k := s])
  {
    hide Ring, Away;
  }

  /** When list k becomes s by writes to its own nodes, the other lists and all slabs are left alone. */
  lemma ListStep(m: seq<u64>, m': seq<u64>, lists: nat, ls: seq<seq<nat>>, k: nat, s: seq<nat>)
    requires ListsAt(m, lists, ls) && k < 3 && |m'| == |m|
    requires Ring(m', lists + 16 * k, Heads(s))
    requires forall b :: Outside([lists + 16 * k] + Heads(s), b) ==> Load(m', b) == Load(m, b)
    requires forall q :: q in s ==> Away(lists, q) && forall j :: 0 <= j < 3 && j != k ==> q !in ls[j]
    ensures ListsAt(m', lists, ls[k := s]) && OnlyNodesWritten(m, m', lists)
  {
    hide ListsAt, Ring, Away, Outside, Load;
    ListFacts(m, lists, ls, k);
    forall j: nat | j < 3 && j != k ensures Ring(m', lists + 16 * j, Heads(ls[j])) {
      StepKeepsOtherList(m, m', lists, ls, k, s, j);
    }
    ListReplaced(m, m', lists, ls, k, s);
    StepWritesNodesOnly(m, m', lists, k, s);
  }

  /** llDelete on a slab's node takes its page out of its list and leaves the other lists and all slabs alone. */
  lemma DeleteFromList(m: seq<u64>, lists: nat, ls: seq<seq<nat>>, k: nat, u: seq<nat>, p: nat, v: seq<nat>)
    requires ListsAt(m, lists, ls) && k < 3 && ls[k] == u + [p] + v
    ensures ListsAt(Deleted(m, Head(p)), lists, ls[k := u + v])
    ensures OnlyNodesWritten(m, Deleted(m, Head(p)), lists)
    ensures forall q :: q in u + v ==> q != p
  {
    hide ListsAt, Ring, Away, Outside, Load, Deleted;
    ListFacts(m, lists, ls, k);
    ListNodesApart(m, lists, ls, k, u, p, v);
    var m', h := Deleted(m, Head(p)), lists + 16 * k;
    HeadsOfSplit(u, p, v);
    DeleteRefinesSequence(m, h, Heads(u), Head(p), Heads(v));
    assert [h] + Heads(u) + Heads(v) == [h] + Heads(u + v);
    forall q | q in u + v ensures q in ls[k] { }
    forall j: nat | j < 3 && j != k ensures forall q :: q in u + v ==> q !in ls[j] {
      ListsDisjoint(m, lists, ls, j, k);
    }
    ListStep(m, m', lists, ls, k, u + v);
  }

  lemma ListNodesApart(m: seq<u64>, lists: nat, ls: seq<seq<nat>>, k: nat, u: seq<nat>, p: nat, v: seq<nat>)
    requires ListsAt(m, lists, ls) && k < 3 && ls[k] == u + [p] + v
    ensures forall q :: q in u + v ==> q != p
  {
    HeadsOfSplit(u, p, v);
    PartsAreDistinct(Heads(u), Head(p), Heads(v));
    forall q | q in u + v ensures q != p {
      InHeads(u + v, Head(q));
      assert NodesApart(Head(p), Head(q));
    }
  }

  /** llInsertFront on list k: the sequence it then holds, and the words it leaves alone. */
  lemma InsertedOnList(m: seq<u64>, lists: nat, ls: seq<seq<nat>>, k: nat, p: nat)
    requires ListsAt(m, lists, ls) && k < 3 && Away(lists, p) && HasFrame(m, p) && p < FRAME_LIMIT && p !in ls[k]
    ensures lists + 16 * k < 0x1_0000_0000_0000_0000 && Head(p) < 0x1_0000_0000_0000_0000
    ensures var m' := InsertedFront(m, lists + 16 * k, Head(p));
            && |m'| == |m| && Ring(m', lists + 16 * k, Heads([p] + ls[k]))
            && forall b :: Outside([lists + 16 * k] + Heads([p] + ls[k]), b) ==> Load(m', b) == Load(m, b)
  {
    hide ListsAt, Ring, Away, Outside, Load, InsertedFront, Heads, NodesApart;
    ListFacts(m, lists, ls, k);
    var h := lists + 16 * k;
    InsertedLength(m, h, Head(p));
    HeadsApart(p, p + 1, lists, k);
    NodeIsApart(ls[k], p);
    InsertFrontRefinesSequence(m, h, Heads(ls[k]), Head(p));
    HeadsInFront(h, p, ls[k]);
  }

  lemma NodeIsApart(s: seq<nat>, p: nat)
    requires p !in s
    ensures forall y :: y in Heads(s) ==> NodesApart(Head(p), y)
  {
    forall y | y in Heads(s) ensures NodesApart(Head(p), y) {
      InHeads(s, y);
    }
  }

  lemma HeadsInFront(h: nat, p: nat, s: seq<nat>)
    ensures Heads([p] + s) == [Head(p)] + Heads(s)
    ensures [h, Head(p)] + Heads(s) == [h] + Heads([p] + s)
  {
    assert Heads([p] + s) == [Head(p)] + Heads(s);
  }

  /** llInsertFront puts a page that is in no list at the front of one. */
  lemma InsertIntoList(m: seq<u64>, lists: nat, ls: seq<seq<nat>>, k: nat, p: nat)
    requires ListsAt(m, lists, ls) && k < 3 && Away(lists, p) && HasFrame(m, p) && p < FRAME_LIMIT
    requires forall j :: 0 <= j < 3 ==> p !in ls[j]
    ensures lists + 16 * k < 0x1_0000_0000_0000_0000 && Head(p) < 0x1_0000_0000_0000_0000
    ensures ListsAt(InsertedFront(m, lists + 16 * k, Head(p)), lists, ls[k := [p] + ls[k]])
    ensures OnlyNodesWritten(m, InsertedFront(m, lists + 16 * k, Head(p)), lists)
  {
    hide ListsAt, Ring, Away, Outside, Load, InsertedFront, Heads;
    ListFacts(m, lists, ls, k);
    InsertedOnList(m, lists, ls, k, p);
    var s := [p] + ls[k];
    forall q | q in s ensures q == p || q in ls[k] { }
    forall j: nat | j < 3 && j != k ensures forall q :: q in s ==> q !in ls[j] {
      ListsDisjoint(m, lists, ls, j, k);
    }
    ListStep(m, InsertedFront(m, lists + 16 * k, Head(p)), lists, ls, k, s);
  }

  /** A write to a page's words other than its list node leaves the lists alone. */
  lemma PageWriteKeepsLists(m: seq<u64>, lists: nat, ls: seq<seq<nat>>, p: nat, w: nat, v: u64)
    requires ListsAt(m, lists, ls) && HasFrame(m, p) && Away(lists, p) && w < 512 && w != 2 && w != 3
    ensures ListsAt(SetEntry(m, p, w, v), lists, ls)
  {
    var m' := SetEntry(m, p, w, v);
    StoreIsSetEntry(m, p, w, v);
    forall k: nat | k < 3 ensures Ring(m', lists + 16 * k, Heads(ls[k])) {
      var h := lists + 16 * k;
      ListFacts(m, lists, ls, k);
      NodeWordsKept(m, lists, h, p, w, v);
      forall x | x in Heads(ls[k]) ensures Next(m', x) == Next(m, x) && Prev(m', x) == Prev(m, x) {
        InHeads(ls[k], x);
        assert NodeAt(m, x);
        NodeWordsKept(m, lists, x, p, w, v);
      }
      RingKept(m, m', h, Heads(ls[k]));
    }
  }

  lemma NodeWordsKept(m: seq<u64>, lists: nat, x: nat, p: nat, w: nat, v: u64)
    requires HasFrame(m, p) && Away(lists, p) && w < 512 && w != 2 && w != 3 && NodeAt(m, x)
    requires (exists q: nat :: x == Head(q)) || (lists <= x && x + 16 <= lists + 48)
    ensures Next(SetEntry(m, p, w, v), x) == Next(m, x) && Prev(SetEntry(m, p, w, v), x) == Prev(m, x)
  {
    if x < lists || lists + 48 < x + 16 {
      var q: nat :| x == Head(q);
    }
    StoreIsSetEntry(m, p, w, v);
    LoadAfterStore(m, 4096 * p + 8 * w, v, x);
    LoadAfterStore(m, 4096 * p + 8 * w, v, x + 8);
  }

  function Lists(c: Cache): seq<seq<nat>> {
    [c.full, c.partial, c.empty]
  }

  /** Memory m holds the cache c, with its list heads from `lists` on. */
  ghost predicate Represents(m: seq<u64>, sh: Shape, lists: nat, c: Cache)
  {
    && sh.Fits()
    && Consistent(c, sh.cells)
    && ListsAt(m, lists, Lists(c))
    && (forall p :: p in c.chain ==> Away(lists, p) && SlabAt(m, sh, p, c.chain[p]))
  }

  lemma SlabKept(m: seq<u64>, m': seq<u64>, sh: Shape, lists: nat, p: nat, chain: seq<nat>)
    requires sh.Fits() && SlabAt(m, sh, p, chain) && OnlyNodesWritten(m, m', lists) && Away(lists, p)
    requires ChainOk(chain, sh.cells)
    ensures SlabAt(m', sh, p, chain)
  {
    hide Entry;
    forall k | 0 <= k < |chain| - 1
      ensures Entry(m', p, CellWord(sh, chain[k])) == Entry(m, p, CellWord(sh, chain[k]))
    {
      CellsInPage(sh, chain[k]);
    }
  }

  /** Writing words of page p that are not its list node changes no other slab. */
  lemma SlabKeptByPageWrite(m: seq<u64>, sh: Shape, q: nat, chain: seq<nat>, p: nat, w: nat, v: u64)
    requires SlabAt(m, sh, q, chain) && q != p && HasFrame(m, p) && w < 512
    requires sh.Fits() && ChainOk(chain, sh.cells)
    ensures SlabAt(SetEntry(m, p, w, v), sh, q, chain)
  {
    hide Entry, SetEntry;
    forall x: nat | x < 512 ensures Entry(SetEntry(m, p, w, v), q, x) == Entry(m, q, x) {
      EntryAfterSet(m, p, w, v, q, x);
    }
    forall k | 0 <= k < |chain| - 1 ensures CellWord(sh, chain[k]) < 512 {
      CellsInPage(sh, chain[k]);
    }
  }

  /** Three writes inside page p: a link, firstFree and usedObj. */
  function Rewired(m: seq<u64>, p: nat, w: nat, link: u64, first: u64, used: u64): seq<u64> {
    SetEntry(SetEntry(SetEntry(m, p, w, link), p, 1, first), p, 4, used)
  }

  lemma RewiredEntries(m: seq<u64>, p: nat, w: nat, link: u64, first: u64, used: u64, x: nat)
    requires HasFrame(m, p) && 5 <= w < 512 && x < 512
    ensures Entry(Rewired(m, p, w, link, first, used), p, x) ==
            if x == 4 then used else if x == 1 then first else if x == w then link else Entry(m, p, x)
  {
    hide Entry, SetEntry;
    EntryAfterSet(m, p, w, link, p, x);
    EntryAfterSet(SetEntry(m, p, w, link), p, 1, first, p, x);
    EntryAfterSet(SetEntry(SetEntry(m, p, w, link), p, 1, first), p, 4, used, p, x);
  }

  lemma RewiringKeepsTheRest(m: seq<u64>, sh: Shape, lists: nat, c: Cache, p: nat, w: nat, link: u64, first: u64,
      used: u64)
    requires Represents(m, sh, lists, c) && p in c.chain && 5 <= w < 512
    ensures var m' := Rewired(m, p, w, link, first, used);
            && ListsAt(m', lists, Lists(c))
            && forall q :: q in c.chain && q != p ==> SlabAt(m', sh, q, c.chain[q])
  {
    hide SetEntry, SlabAt, ListsAt, Away;
    var m1 := SetEntry(m, p, w, link);
    var m2 := SetEntry(m1, p, 1, first);
    SlabIsInMemory(m, sh, p, c.chain[p]);
    PageWriteKeepsLists(m, lists, Lists(c), p, w, link);
    PageWriteKeepsLists(m1, lists, Lists(c), p, 1, first);
    PageWriteKeepsLists(m2, lists, Lists(c), p, 4, used);
    forall q | q in c.chain && q != p ensures SlabAt(Rewired(m, p, w, link, first, used), sh, q, c.chain[q]) {
      SlabKeptByPageWrite(m, sh, q, c.chain[q], p, w, link);
      SlabKeptByPageWrite(m1, sh, q, c.chain[q], p, 1, first);
      SlabKeptByPageWrite(m2, sh, q, c.chain[q], p, 4, used);
    }
  }

  lemma SlabIsInMemory(m: seq<u64>, sh: Shape, p: nat, chain: seq<nat>)
    requires SlabAt(m, sh, p, chain)
    ensures HasFrame(m, p) && p < FRAME_LIMIT
  {
  }

  /** Handing out the first free cell: firstFree moves to whatever its link holds. */
  lemma PopSlab(m: seq<u64>, sh: Shape, p: nat, chain: seq<nat>)
    requires sh.Fits() && SlabAt(m, sh, p, chain) && ChainOk(chain, sh.cells) && chain != []
    ensures |chain| <= sh.cells
    ensures var w := CellWord(sh, chain[0]);
            && 5 <= w < 512 && Entry(m, p, 1) == CellAddr(sh, p, chain[0])
            && SlabAt(Rewired(m, p, w, Entry(m, p, w), Entry(m, p, w), sh.cells - |chain| + 1), sh, p, chain[1..])
  {
    hide Entry, SetEntry, Rewired, CellWord, CellAddr;
    ChainFits(chain, sh.cells);
    CellsInPage(sh, chain[0]);
    CellWordLow(sh, chain[0]);
    var w := CellWord(sh, chain[0]);
    var m' := Rewired(m, p, w, Entry(m, p, w), Entry(m, p, w), sh.cells - |chain| + 1);
    RewiredLength(m, p, w, Entry(m, p, w), Entry(m, p, w), sh.cells - |chain| + 1);
    forall x: nat | x < 512
      ensures Entry(m', p, x) ==
              if x == 4 then sh.cells - |chain| + 1 else if x == 1 then Entry(m, p, w) else Entry(m, p, x)
    {
      RewiredEntries(m, p, w, Entry(m, p, w), Entry(m, p, w), sh.cells - |chain| + 1, x);
    }
    forall k | 0 <= k < |chain[1..]| - 1
      ensures Entry(m', p, CellWord(sh, chain[1..][k])) == CellAddr(sh, p, chain[1..][k + 1])
    {
      CellsInPage(sh, chain[k + 1]);
      CellWordLow(sh, chain[k + 1]);
    }
  }

  lemma RewiredLength(m: seq<u64>, p: nat, w: nat, link: u64, first: u64, used: u64)
    ensures |Rewired(m, p, w, link, first, used)| == |m|
  {
  }

  /** Taking a cell back: its link gets the old firstFree. */
  lemma PushSlab(m: seq<u64>, sh: Shape, p: nat, chain: seq<nat>, i: nat)
    requires sh.Fits() && SlabAt(m, sh, p, chain) && ChainOk(chain, sh.cells) && i < sh.cells && i !in chain
    ensures |chain| < sh.cells && CellAddr(sh, p, i) < 0x1_0000_0000_0000_0000
    ensures var w := CellWord(sh, i);
            && 5 <= w < 512
            && SlabAt(Rewired(m, p, w, Entry(m, p, 1), CellAddr(sh, p, i), sh.cells - |chain| - 1), sh, p, [i] + chain)
  {
    hide Entry, SetEntry, Rewired, CellWord, CellAddr;
    PushChain(chain, sh.cells, i);
    CellsInPage(sh, i);
    CellWordLow(sh, i);
    CellAddrFits(sh, p, i);
    var w := CellWord(sh, i);
    var first := CellAddr(sh, p, i);
    var m' := Rewired(m, p, w, Entry(m, p, 1), first, sh.cells - |chain| - 1);
    RewiredLength(m, p, w, Entry(m, p, 1), first, sh.cells - |chain| - 1);
    forall x: nat | x < 512
      ensures Entry(m', p, x) == if x == 4 then sh.cells - |chain| - 1 else if x == 1 then first
                                 else if x == w then Entry(m, p, 1) else Entry(m, p, x)
    {
      RewiredEntries(m, p, w, Entry(m, p, 1), first, sh.cells - |chain| - 1, x);
    }
    PushedLinks(m, m', sh, p, chain, i);
  }

  lemma PushedLinks(m: seq<u64>, m': seq<u64>, sh: Shape, p: nat, chain: seq<nat>, i: nat)
    requires sh.Fits() && SlabAt(m, sh, p, chain) && ChainOk(chain, sh.cells) && i < sh.cells && i !in chain
    requires forall x: nat :: 5 <= x < 512 ==>
               Entry(m', p, x) == if x == CellWord(sh, i) then Entry(m, p, 1) else Entry(m, p, x)
    ensures var l := [i] + chain;
            forall k :: 0 <= k < |l| - 1 ==> Entry(m', p, CellWord(sh, l[k])) == CellAddr(sh, p, l[k + 1])
  {
    hide Entry, CellWord, CellAddr;
    var l := [i] + chain;
    forall k | 0 <= k < |l| - 1 ensures Entry(m', p, CellWord(sh, l[k])) == CellAddr(sh, p, l[k + 1]) {
      CellsInPage(sh, l[k]);
      CellWordLow(sh, l[k]);
      if k > 0 {
        assert chain[k - 1] in chain;
        CellsAreDistinct(sh, i, l[k]);
      }
    }
  }

  lemma CellWordLow(sh: Shape, i: nat)
    ensures CellWord(sh, i) >= 5
  {
  }

  lemma CellAddrFits(sh: Shape, p: nat, i: nat)
    requires sh.Fits() && i < sh.cells && p < FRAME_LIMIT
    ensures CellAddr(sh, p, i) < 0x1_0000_0000_0000_0000
    ensures CellAddr(sh, p, i) % 8 == 0 && CellAddr(sh, p, i) / 4096 == p
    ensures CellAddr(sh, p, i) == 4096 * p + 8 * CellWord(sh, i)
  {
    CellsInPage(sh, i);
    CellWordLow(sh, i);
    hide CellWord;
    var w := CellWord(sh, i);
    assert 4096 * p + 8 * w < 4096 * (p + 1);
  }
}
