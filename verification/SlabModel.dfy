/**
 * A slab cache without its pointers: three lists of pages and, for each page, the chain of
 * free cells in the order they will be handed out (kernel/src/mem/slab.c).
 */
module SlabModel {

  /** Words in a cell, its link word included, and cells in a page. */
  datatype Shape = Shape(words: nat, cells: nat) {
    predicate Fits() {
      words >= 2 && cells >= 1 && 5 + cells * words <= 512
    }
  }

  datatype Cache = Cache(full: seq<nat>, partial: seq<nat>, empty: seq<nat>, chain: map<nat, seq<nat>>) {
    predicate HasFree() {
      partial != [] || empty != []
    }

    /** The slab slabAlloc picks. */
    function Front(): nat
      requires HasFree()
    {
      if empty == [] then partial[0] else empty[0]
    }
  }

  predicate NoDuplicates<T(==)>(s: seq<T>) {
    forall i, j :: 0 <= i < j < |s| ==> s[i] != s[j]
  }

  predicate ChainOk(chain: seq<nat>, cells: nat) {
    NoDuplicates(chain) && forall i :: 0 <= i < |chain| ==> chain[i] < cells
  }

  predicate ListsApart(full: seq<nat>, partial: seq<nat>, empty: seq<nat>)
  {
    && NoDuplicates(full) && NoDuplicates(partial) && NoDuplicates(empty)
    && (forall p :: p in full ==> p !in partial && p !in empty)
    && (forall p :: p in partial ==> p !in empty)
  }

  /**
   * Every slab is in exactly one list; those in full have no free cell, those in partial have
   * some of both kinds; those in empty have a free cell, but may have used ones as well.
   */
  ghost predicate Consistent(c: Cache, cells: nat)
  {
    && cells >= 1
    && ListsApart(c.full, c.partial, c.empty)
    && (forall p :: p in c.chain <==> p in c.full || p in c.partial || p in c.empty)
    && (forall p :: p in c.chain ==> ChainOk(c.chain[p], cells))
    && (forall p :: p in c.full ==> c.chain[p] == [])
    && (forall p :: p in c.partial ==> 0 < |c.chain[p]| < cells)
    && (forall p :: p in c.empty ==> c.chain[p] != [])
  }

  /** Cell i of page p has been handed out and not given back. */
  predicate IsLive(c: Cache, cells: nat, p: nat, i: nat) {
    p in c.chain && i < cells && i !in c.chain[p]
  }

  function AllCells(cells: nat): (s: seq<nat>)
    ensures |s| == cells && forall i :: 0 <= i < cells ==> s[i] == i
  {
    seq(cells, i => i)
  }

  /** slabAllocSlab on page p. */
  function Grow(c: Cache, cells: nat, p: nat): Cache {
    c.(empty := [p] + c.empty, chain := c.chain[p := AllCells(cells)])
  }

  /** slabAlloc once a slab with a free cell is there. */
  function Take(c: Cache): Cache
    requires c.HasFree() && c.Front() in c.chain && c.chain[c.Front()] != []
  {
    var p := c.Front();
    var d := c.(chain := c.chain[p := c.chain[p][1..]]);
    if d.chain[p] != [] then d
    else if c.empty == [] then d.(partial := c.partial[1..], full := [p] + c.full)
    else d.(empty := c.empty[1..], full := [p] + c.full)
  }

  function Without(s: seq<nat>, p: nat): seq<nat> {
    if s == [] then [] else if s[0] == p then s[1..] else [s[0]] + Without(s[1..], p)
  }

  /** slabFree of cell i of page p. */
  function Give(c: Cache, cells: nat, p: nat, i: nat): Cache
    requires p in c.chain
  {
    var chain := [i] + c.chain[p];
    var d := Cache(Without(c.full, p), Without(c.partial, p), Without(c.empty, p), c.chain[p := chain]);
    if |chain| == cells then d.(empty := [p] + d.empty) else d.(partial := [p] + d.partial)
  }

  /** Sum of usedObj over the slabs listed in s. */
  function UsedIn(s: seq<nat>, chain: map<nat, seq<nat>>, cells: nat): int {
    if s == [] then 0
    else (if s[0] in chain then cells - |chain[s[0]]| else 0) + UsedIn(s[1..], chain, cells)
  }

  function Used(c: Cache, cells: nat): int {
    UsedIn(c.full, c.chain, cells) + UsedIn(c.partial, c.chain, cells) + UsedIn(c.empty, c.chain, cells)
  }

  lemma {:induction false} UsedAfterUpdate(s: seq<nat>, chain: map<nat, seq<nat>>, cells: nat, p: nat, l: seq<nat>)
    requires NoDuplicates(s) && p in chain
    ensures UsedIn(s, chain[p := l], cells) ==
            UsedIn(s, chain, cells) + if p in s then |chain[p]| - |l| else 0
  {
    if s != [] {
      UsedAfterUpdate(s[1..], chain, cells, p, l);
    }
  }

  lemma {:induction false} UsedOfNew(s: seq<nat>, chain: map<nat, seq<nat>>, cells: nat, p: nat, l: seq<nat>)
    requires p !in s
    ensures UsedIn(s, chain[p := l], cells) == UsedIn(s, chain, cells)
  {
    if s != [] {
      UsedOfNew(s[1..], chain, cells, p, l);
    }
  }

  lemma {:induction false} WithoutMembers(s: seq<nat>, p: nat)
    requires NoDuplicates(s)
    ensures NoDuplicates(Without(s, p))
    ensures forall q :: q in Without(s, p) <==> q in s && q != p
  {
    if s != [] {
      assert forall q :: q in s <==> q == s[0] || q in s[1..];
      if s[0] != p {
        WithoutMembers(s[1..], p);
        var r := Without(s[1..], p);
        forall j | 0 <= j < |r| ensures r[j] != s[0] { assert r[j] in r; }
      }
    }
  }

  lemma {:induction false} UsedWithout(s: seq<nat>, chain: map<nat, seq<nat>>, cells: nat, p: nat)
    requires NoDuplicates(s) && p in chain
    ensures UsedIn(Without(s, p), chain, cells) ==
            UsedIn(s, chain, cells) - if p in s then cells - |chain[p]| else 0
  {
    if s != [] && s[0] != p {
      UsedWithout(s[1..], chain, cells, p);
      assert Without(s, p)[1..] == Without(s[1..], p);
    }
  }

  lemma {:induction false} WithoutAbsent(s: seq<nat>, p: nat)
    requires p !in s
    ensures Without(s, p) == s
  {
    if s != [] {
      WithoutAbsent(s[1..], p);
    }
  }

  lemma {:induction false} WithoutSplit(u: seq<nat>, p: nat, v: seq<nat>)
    requires p !in u
    ensures Without(u + [p] + v, p) == u + v
  {
    var s := u + [p] + v;
    if u == [] {
      assert s[1..] == v;
    } else {
      assert s[1..] == u[1..] + [p] + v;
      WithoutSplit(u[1..], p, v);
    }
  }

  lemma PushMembers(s: seq<nat>, p: nat)
    requires NoDuplicates(s) && p !in s
    ensures NoDuplicates([p] + s)
    ensures forall q :: q in [p] + s <==> q == p || q in s
  {
    forall i, j | 0 <= i < j < |[p] + s| ensures ([p] + s)[i] != ([p] + s)[j] {
      assert s[j - 1] in s;
    }
  }

  lemma PopMembers(s: seq<nat>)
    requires NoDuplicates(s) && s != []
    ensures NoDuplicates(s[1..])
    ensures forall q :: q in s[1..] <==> q in s && q != s[0]
    ensures s[0] in s
  {
    forall q ensures q in s[1..] <==> q in s && q != s[0] {
      if q in s && q != s[0] {
        var i :| 0 <= i < |s| && s[i] == q;
        assert s[1..][i - 1] == q;
      }
    }
  }

  lemma FreshIsUnlisted(c: Cache, cells: nat, p: nat)
    requires Consistent(c, cells) && p !in c.chain
    ensures p !in c.full && p !in c.partial && p !in c.empty
  {
  }

  lemma GrownPages(c: Cache, cells: nat, p: nat)
    ensures Grow(c, cells, p).chain.Keys == c.chain.Keys + {p}
  {
  }

  lemma GrowKeepsConsistent(c: Cache, cells: nat, p: nat)
    requires Consistent(c, cells) && p !in c.chain
    ensures Consistent(Grow(c, cells, p), cells)
  {
    hide NoDuplicates, ChainOk;
    assert ChainOk(AllCells(cells), cells) by { WholeChainOk(cells); }
    PushMembers(c.empty, p);
  }

  lemma WholeChainOk(cells: nat)
    ensures ChainOk(AllCells(cells), cells)
  {
  }

  lemma PopChain(l: seq<nat>, cells: nat)
    requires ChainOk(l, cells) && l != []
    ensures ChainOk(l[1..], cells) && l[0] < cells
    ensures forall j: nat :: j in l[1..] <==> j in l && j != l[0]
  {
    PopMembers(l);
  }

  lemma PushChain(l: seq<nat>, cells: nat, i: nat)
    requires ChainOk(l, cells) && i !in l && i < cells
    ensures ChainOk([i] + l, cells) && |l| < cells
  {
    PushMembers(l, i);
    ChainFits([i] + l, cells);
  }

  lemma GrowAddsNothingLive(c: Cache, cells: nat, p: nat)
    requires Consistent(c, cells) && p !in c.chain
    ensures Consistent(Grow(c, cells, p), cells)
    ensures forall q, i: nat :: IsLive(Grow(c, cells, p), cells, q, i) <==> IsLive(c, cells, q, i)
    ensures Used(Grow(c, cells, p), cells) == Used(c, cells)
  {
    var d := Grow(c, cells, p);
    GrowKeepsConsistent(c, cells, p);
    hide Consistent;
    FreshIsUnlisted(c, cells, p);
    UsedOfNew(c.full, c.chain, cells, p, AllCells(cells));
    UsedOfNew(c.partial, c.chain, cells, p, AllCells(cells));
    UsedOfNew(c.empty, c.chain, cells, p, AllCells(cells));
    assert d.empty[1..] == c.empty;
    forall i: nat | i < cells ensures i in AllCells(cells) { assert AllCells(cells)[i] == i; }
  }

  lemma FrontIsFree(c: Cache, cells: nat)
    requires Consistent(c, cells) && c.HasFree()
    ensures c.Front() in c.chain && c.chain[c.Front()] != []
    ensures c.chain[c.Front()][0] < cells && !IsLive(c, cells, c.Front(), c.chain[c.Front()][0])
  {
    assert c.empty == [] ==> c.partial[0] in c.partial;
    assert c.empty != [] ==> c.empty[0] in c.empty;
    var l := c.chain[c.Front()];
    assert l[0] in l;
  }

  lemma ShorterChainKeeps(c: Cache, cells: nat, p: nat, l: seq<nat>)
    requires Consistent(c, cells) && p in c.chain && ChainOk(l, cells)
    requires p !in c.full && l != [] && |l| <= |c.chain[p]|
    ensures Consistent(c.(chain := c.chain[p := l]), cells)
  {
    hide NoDuplicates, ChainOk;
  }

  lemma MoveToFullKeeps(c: Cache, cells: nat, p: nat)
    requires Consistent(c, cells) && p in c.chain
    requires if c.empty == [] then c.partial != [] && p == c.partial[0] else p == c.empty[0]
    ensures Consistent(Cache([p] + c.full, if c.empty == [] then c.partial[1..] else c.partial,
                             if c.empty == [] then [] else c.empty[1..], c.chain[p := []]), cells)
  {
    hide NoDuplicates, ChainOk;
    assert ChainOk([], cells) by { EmptyChainOk(cells); }
    if c.empty == [] {
      PopMembers(c.partial);
    } else {
      PopMembers(c.empty);
    }
    PushMembers(c.full, p);
  }

  lemma EmptyChainOk(cells: nat)
    ensures ChainOk([], cells)
  {
  }

  lemma TakeKeepsConsistent(c: Cache, cells: nat)
    requires Consistent(c, cells) && c.HasFree() && c.Front() in c.chain && c.chain[c.Front()] != []
    ensures Consistent(Take(c), cells)
  {
    var p := c.Front();
    assert p !in c.full && ChainOk(c.chain[p], cells);
    hide Consistent, ChainOk;
    PopChain(c.chain[p], cells);
    if c.chain[p][1..] != [] {
      ShorterChainKeeps(c, cells, p, c.chain[p][1..]);
    } else {
      MoveToFullKeeps(c, cells, p);
    }
  }

  lemma TakeCountsOne(c: Cache, cells: nat)
    requires Consistent(c, cells) && c.HasFree() && c.Front() in c.chain && c.chain[c.Front()] != []
    ensures Used(Take(c), cells) == Used(c, cells) + 1
  {
    var p, d := c.Front(), Take(c);
    var l := c.chain[p][1..];
    assert c.empty == [] ==> c.partial[0] in c.partial;
    assert c.empty != [] ==> c.empty[0] in c.empty;
    UsedAfterUpdate(c.full, c.chain, cells, p, l);
    UsedAfterUpdate(c.partial, c.chain, cells, p, l);
    UsedAfterUpdate(c.empty, c.chain, cells, p, l);
    assert ([p] + c.full)[1..] == c.full;
  }

  /** Taking makes exactly the first cell of the picked slab's chain live. */
  lemma TakeMakesOneLive(c: Cache, cells: nat)
    requires Consistent(c, cells) && c.HasFree()
    ensures c.Front() in c.chain && c.chain[c.Front()] != []
    ensures Consistent(Take(c), cells) && Take(c).chain.Keys == c.chain.Keys
    ensures forall q, j: nat :: IsLive(Take(c), cells, q, j) <==>
              IsLive(c, cells, q, j) || (q == c.Front() && j == c.chain[q][0])
    ensures Used(Take(c), cells) == Used(c, cells) + 1
  {
    hide Used;
    FrontIsFree(c, cells);
    PopMembers(c.chain[c.Front()]);
    TakeKeepsConsistent(c, cells);
    TakeCountsOne(c, cells);
  }

  lemma GiveKeepsConsistent(c: Cache, cells: nat, p: nat, i: nat)
    requires Consistent(c, cells) && IsLive(c, cells, p, i)
    ensures Consistent(Give(c, cells, p, i), cells)
  {
    hide NoDuplicates, ChainOk, Without;
    PushChain(c.chain[p], cells, i);
    WithoutMembers(c.full, p);
    WithoutMembers(c.partial, p);
    WithoutMembers(c.empty, p);
    PushMembers(Without(c.partial, p), p);
    PushMembers(Without(c.empty, p), p);
  }

  function Below(n: nat): (s: set<nat>)
    ensures |s| == n && forall k: nat :: k in s <==> k < n
  {
    if n == 0 then {} else Below(n - 1) + {n - 1}
  }

  /** A chain of distinct cells of a slab is no longer than the slab. */
  lemma ChainFits(l: seq<nat>, cells: nat)
    requires ChainOk(l, cells)
    ensures |l| <= cells
  {
    ElementsAreFewer(l, Below(cells));
  }

  lemma {:induction false} ElementsAreFewer(l: seq<nat>, s: set<nat>)
    requires NoDuplicates(l) && forall i :: 0 <= i < |l| ==> l[i] in s
    ensures |l| <= |s|
  {
    if l != [] {
      ElementsAreFewer(l[1..], s - {l[0]});
    }
  }

  lemma GiveCountsOne(c: Cache, cells: nat, p: nat, i: nat)
    requires Consistent(c, cells) && IsLive(c, cells, p, i)
    ensures Used(Give(c, cells, p, i), cells) == Used(c, cells) - 1
  {
    var d := Give(c, cells, p, i);
    var l := [i] + c.chain[p];
    UsedWithout(c.full, c.chain, cells, p);
    UsedWithout(c.partial, c.chain, cells, p);
    UsedWithout(c.empty, c.chain, cells, p);
    WithoutMembers(c.full, p);
    WithoutMembers(c.partial, p);
    WithoutMembers(c.empty, p);
    UsedOfNew(Without(c.full, p), c.chain, cells, p, l);
    UsedOfNew(Without(c.partial, p), c.chain, cells, p, l);
    UsedOfNew(Without(c.empty, p), c.chain, cells, p, l);
    assert ([p] + Without(c.partial, p))[1..] == Without(c.partial, p);
    assert ([p] + Without(c.empty, p))[1..] == Without(c.empty, p);
  }

  /** Giving back ends the life of exactly that cell ... */
  lemma GiveEndsOneLife(c: Cache, cells: nat, p: nat, i: nat)
    requires Consistent(c, cells) && IsLive(c, cells, p, i)
    ensures Consistent(Give(c, cells, p, i), cells) && Give(c, cells, p, i).chain.Keys == c.chain.Keys
    ensures forall q, j: nat :: IsLive(Give(c, cells, p, i), cells, q, j) <==>
              IsLive(c, cells, q, j) && !(q == p && j == i)
    ensures Used(Give(c, cells, p, i), cells) == Used(c, cells) - 1
  {
    hide Used, Without;
    GiveKeepsConsistent(c, cells, p, i);
    GiveCountsOne(c, cells, p, i);
    PushMembers(c.chain[p], i);
  }

  /** ... and that cell is the next one its slab hands out; with the slab in front, the next one of all. */
  lemma FreedCellIsNext(c: Cache, cells: nat, p: nat, i: nat)
    requires Consistent(c, cells) && IsLive(c, cells, p, i)
    ensures Give(c, cells, p, i).chain[p][0] == i
    ensures var d := Give(c, cells, p, i);
            d.HasFree() && (d.Front() == p <==> |d.chain[p]| == cells || d.empty == [])
  {
    var d := Give(c, cells, p, i);
    WithoutMembers(c.empty, p);
    if d.empty != [] && |d.chain[p]| != cells {
      assert d.empty[0] in d.empty;
    }
  }
}
