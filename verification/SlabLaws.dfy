/** What slabAlloc and slabFree do to the three lists, and how a new cache fills its pages. */
module SlabLaws {
  import opened Words
  import opened Options
  import opened Ram
  import opened Paging
  import opened PageOwnership
  import opened SlabModel
  import opened SlabLayout
  import opened SlabSteps
  import opened SlabMemory
  import SlabRuns
  import SlabHeap

  /**
   * slabAlloc takes from the first slab of empty, or of partial when that list has none. The slab
   * stays where it is until its last free cell goes; then it comes to the front of full.
   */
  lemma TakePlaces(c: Cache, cells: nat)
    requires Consistent(c, cells) && c.HasFree()
    ensures c.Front() in c.chain && c.chain[c.Front()] != []
    ensures c.empty != [] ==> c.Front() == c.empty[0]
    ensures c.empty == [] ==> c.Front() == c.partial[0]
    ensures |c.chain[c.Front()]| > 1 ==>
              Take(c).full == c.full && Take(c).partial == c.partial && Take(c).empty == c.empty
    ensures |c.chain[c.Front()]| == 1 ==>
              && Take(c).full == [c.Front()] + c.full
              && Take(c).partial == (if c.empty == [] then c.partial[1..] else c.partial)
              && Take(c).empty == (if c.empty == [] then [] else c.empty[1..])
    ensures forall q :: q in c.chain && q != c.Front() ==> q in Take(c).chain && Take(c).chain[q] == c.chain[q]
    ensures c.chain[c.Front()] == [c.chain[c.Front()][0]] + Take(c).chain[c.Front()]
  {
  }

  /**
   * slabFree takes the slab out of whichever list it is in and puts it in front of empty when no
   * cell of it is in use any more, in front of partial otherwise.
   */
  lemma GivePlaces(c: Cache, cells: nat, p: nat, i: nat) returns (k: nat, u: seq<nat>, v: seq<nat>)
    requires Consistent(c, cells) && IsLive(c, cells, p, i)
    ensures k < 3 && Lists(c)[k] == u + [p] + v
    ensures var d, rest := Give(c, cells, p, i), Lists(c)[k := u + v];
            if (forall j: nat :: !IsLive(d, cells, p, j))
            then d.full == rest[0] && d.partial == rest[1] && d.empty == [p] + rest[2]
            else d.full == rest[0] && d.partial == [p] + rest[1] && d.empty == rest[2]
    ensures Give(c, cells, p, i).chain[p] == [i] + c.chain[p]
    ensures forall q :: q in c.chain && q != p ==> Give(c, cells, p, i).chain[q] == c.chain[q]
  {
    hide Consistent, IsLive, Without, NoDuplicates, ChainOk;
    k, u, v := PlaceOf(c, p) by {
      LiveCellIsListed(c, cells, p, i);
      ListsOfConsistent(c, cells, p);
    }
    LiveCellIsListed(c, cells, p, i);
    GiveKeepsConsistent(c, cells, p, i);
    ChainIsOk(Give(c, cells, p, i), cells, p);
    AllFreeIff(Give(c, cells, p, i), cells, p);
  }

  lemma LiveCellIsListed(c: Cache, cells: nat, p: nat, i: nat)
    requires IsLive(c, cells, p, i)
    ensures p in c.chain
  {
  }

  lemma ChainIsOk(c: Cache, cells: nat, p: nat)
    requires Consistent(c, cells) && p in c.chain
    ensures ChainOk(c.chain[p], cells)
  {
  }

  /** No cell of a slab is in use exactly when its chain has them all. */
  lemma AllFreeIff(c: Cache, cells: nat, p: nat)
    requires p in c.chain && ChainOk(c.chain[p], cells)
    ensures |c.chain[p]| == cells <==> forall j: nat :: !IsLive(c, cells, p, j)
  {
    var l := c.chain[p];
    ChainFits(l, cells);
    if j: nat :| IsLive(c, cells, p, j) {
      ChainFits(l + [j], cells);
    } else {
      var all := AllCells(cells);
      forall k | 0 <= k < |all| ensures all[k] in l { assert !IsLive(c, cells, p, all[k]); }
      ElementsAreFewer(all, Elements(l));
      AtMostAsMany(l);
    }
  }

  function Elements(l: seq<nat>): set<nat> {
    set j | j in l
  }

  lemma {:induction false} AtMostAsMany(l: seq<nat>)
    ensures |Elements(l)| <= |l|
  {
    if l == [] {
      assert Elements(l) == {};
    } else {
      AtMostAsMany(l[1..]);
      assert Elements(l) == Elements(l[1..]) + {l[0]};
    }
  }

  /**
   * What slabAllocSlab writes to page p before it links the page: start and firstFree just behind the
   * 40-byte header, no cell in use, and in every cell but the last the address of the next.
   */
  lemma NewSlabWords(m: seq<u64>, sh: Shape, p: nat, i: nat)
    requires sh.Fits() && p < FRAME_LIMIT && HasFrame(m, p) && i + 1 < sh.cells
    ensures 5 + i * sh.words < 512
    ensures var m' := Prepared(m, sh, p);
            && Entry(m', p, 0) == 4096 * p + 40 && Entry(m', p, 1) == 4096 * p + 40 && Entry(m', p, 4) == 0
            && Entry(m', p, 5 + i * sh.words) == 4096 * p + 40 + 8 * ((i + 1) * sh.words)
  {
    hide Entry, LinkedCells, HeaderWritten, CellWord, CellAddr;
    var h, n := HeaderWritten(m, p), sh.cells - 1;
    CellsInPage(sh, i);
    forall x: nat | x < 5 ensures Entry(LinkedCells(h, sh, p, n), p, x) == Entry(h, p, x) {
      forall k: nat | k < n ensures x != CellWord(sh, k) { CellWordLow(sh, k); }
      LinkedEntries(h, sh, p, n, p, x);
    }
    HeaderEntries(m, p, p, 0);
    HeaderEntries(m, p, p, 1);
    HeaderEntries(m, p, p, 4);
    LinkedEntries(h, sh, p, n, p, CellWord(sh, i));
    CellIs(sh, p, i);
    CellIs(sh, p, i + 1);
  }

  lemma CellIs(sh: Shape, p: nat, i: nat)
    ensures CellWord(sh, i) == 5 + i * sh.words && CellAddr(sh, p, i) == 4096 * p + 40 + 8 * (i * sh.words)
  {
  }

  /** In memory: the page that slabAlloc's pointer lies in. */
  lemma AllocatedPage(m: seq<u64>, sh: Shape, lists: nat, c: Cache, bits: seq<bool>)
    requires Represents(m, sh, lists, c) && |bits| <= FRAME_LIMIT && 512 * |bits| <= |m|
    requires forall p :: p in c.chain ==> p < |bits| && bits[p]
    requires forall p: nat :: p < |bits| && !Away(lists, p) ==> bits[p]
    ensures sh.Fits() && lists + 32 < WORD
    ensures var r := Allocated(m, sh, lists, bits);
            && (r.None? <==> c.empty == [] && c.partial == [] && TakePages(bits, 1).None?)
            && (r.Some? ==>
                  r.value.2 / 4096 ==
                  if c.empty != [] then c.empty[0] else if c.partial != [] then c.partial[0]
                  else TakePages(bits, 1).value.0 / 4096)
  {
    hide Represents, Away, Allocated, Take, UserPointer, TakePages, ListsAt, SlabAt;
    RepresentsFacts(m, sh, lists, c);
    AllocatedIs(m, sh, lists, c, bits);
    if AllocStep(sh, c, bits).Some? {
      var d := AllocStep(sh, c, bits).value.0;
      FrontCell(sh, c, bits);
      PointerPage(sh, d.Front(), d.chain[d.Front()][0]);
    }
  }

  lemma FrontCell(sh: Shape, c: Cache, bits: seq<bool>)
    requires sh.Fits() && Consistent(c, sh.cells) && AllocStep(sh, c, bits).Some?
    ensures var d := AllocStep(sh, c, bits).value.0;
            && d.HasFree() && d.Front() in d.chain && d.chain[d.Front()] != [] && d.chain[d.Front()][0] < sh.cells
    ensures AllocStep(sh, c, bits).value.0.Front() ==
            if c.empty != [] then c.empty[0] else if c.partial != [] then c.partial[0]
            else TakePages(bits, 1).value.0 / 4096
  {
    hide TakePages;
  }

  lemma PointerPage(sh: Shape, p: nat, i: nat)
    requires sh.Fits() && i < sh.cells
    ensures UserPointer(sh, p, i) / 4096 == p
  {
    CellsInPage(sh, i);
    assert UserPointer(sh, p, i) == 4096 * p + 8 * (CellWord(sh, i) + 1);
  }

  // ---- how pages fill

  /** n slabAllocs on cache k, one after another. */
  function Allocs(k: nat, n: nat): seq<SlabRuns.Op> {
    seq(n, _ => SlabRuns.AllocOp(k))
  }

  /** Cache c once the slab p in front of empty has been used up. */
  function Drained(c: Cache, p: nat): Cache
    requires c.empty != []
  {
    Cache([p] + c.full, c.partial, c.empty[1..], c.chain[p := []])
  }

  /** As many slabAllocs as the first slab of empty has free cells take them all, in the order of its chain. */
  lemma {:induction false} DrainsFirstSlab(s: SlabRuns.System, shapes: seq<Shape>, k: nat, p: nat, l: seq<nat>)
    requires |shapes| == |s.caches| && k < |shapes|
    requires s.caches[k].empty != [] && s.caches[k].empty[0] == p && p in s.caches[k].chain
    requires s.caches[k].chain[p] == l && l != []
    ensures SlabRuns.Run(s, shapes, Allocs(k, |l|)) ==
            Some(SlabRuns.System(s.bits, s.caches[k := Drained(s.caches[k], p)],
                                 s.live + seq(|l|, i requires 0 <= i < |l| => SlabRuns.Object(k, p, l[i]))))
    decreases |l|
  {
    var c, ops := s.caches[k], Allocs(k, |l|);
    var x := SlabRuns.Object(k, p, l[0]);
    var s1 := SlabRuns.System(s.bits, s.caches[k := Take(c)], s.live + [x]);
    assert SlabRuns.Apply(s, shapes, ops[0]) == Some(s1);
    assert ops[1..] == Allocs(k, |l| - 1);
    if |l| == 1 {
      assert ops[1..] == [];
      assert Take(c) == Drained(c, p);
      assert s.live + [x] == s.live + seq(|l|, i requires 0 <= i < |l| => SlabRuns.Object(k, p, l[i]));
    } else {
      DrainsFirstSlab(s1, shapes, k, p, l[1..]);
      assert Drained(Take(c), p) == Drained(c, p);
      assert s.caches[k := Take(c)][k := Drained(c, p)] == s.caches[k := Drained(c, p)];
      assert s1.live + seq(|l| - 1, i requires 0 <= i < |l| - 1 => SlabRuns.Object(k, p, l[1..][i])) ==
             s.live + seq(|l|, i requires 0 <= i < |l| => SlabRuns.Object(k, p, l[i]));
    }
  }

  /**
   * A cache without a free cell: its next n slabAllocs, n being the cells of a slab, take one new
   * page and hand out its cells from the first to the last; and then it is without one again.
   */
  lemma FillsAPage(s: SlabRuns.System, shapes: seq<Shape>, k: nat)
    requires |shapes| == |s.caches| && k < |shapes| && shapes[k].cells > 0
    requires !s.caches[k].HasFree() && TakePages(s.bits, 1).Some?
    ensures var (addr, bits) := TakePages(s.bits, 1).value;
            var p, n := addr / 4096, shapes[k].cells;
            && SlabRuns.Run(s, shapes, Allocs(k, n)).Some?
            && var s' := SlabRuns.Run(s, shapes, Allocs(k, n)).value;
            && s'.bits == bits
            && s'.live == s.live + seq(n, i requires 0 <= i < n => SlabRuns.Object(k, p, i))
            && |s'.caches| == |s.caches|
            && s'.caches[k].full == [p] + s.caches[k].full && !s'.caches[k].HasFree()
  {
    hide TakePages;
    var (addr, bits) := TakePages(s.bits, 1).value;
    var p, n, c := addr / 4096, shapes[k].cells, s.caches[k];
    var d := Grow(c, n, p);
    var grown := SlabRuns.System(bits, s.caches[k := d], s.live);
    DrainsFirstSlab(grown, shapes, k, p, AllCells(n));
    assert Allocs(k, n) != [];
    assert s.caches[k := d][k := Take(d)] == s.caches[k := Take(d)];
    assert SlabRuns.Apply(s, shapes, Allocs(k, n)[0]) == SlabRuns.Apply(grown, shapes, Allocs(k, n)[0]);
    assert seq(n, i requires 0 <= i < n => SlabRuns.Object(k, p, AllCells(n)[i])) ==
           seq(n, i requires 0 <= i < n => SlabRuns.Object(k, p, i));
  }

  function AllocsOnHeap(k: nat, n: nat): seq<SlabHeap.Op> {
    seq(n, _ => SlabHeap.AllocOp(k))
  }

  lemma {:induction false} CallsOfAllocs(k: nat, n: nat)
    ensures SlabHeap.Calls(AllocsOnHeap(k, n)) == Allocs(k, n)
  {
    if n > 0 {
      CallsOfAllocs(k, n - 1);
      assert AllocsOnHeap(k, n)[1..] == AllocsOnHeap(k, n - 1);
      assert Allocs(k, n) == [SlabRuns.AllocOp(k)] + Allocs(k, n - 1);
    }
  }

  /**
   * In memory: a cache without a free cell gives its next n callers, n being the cells of a slab, the
   * pointers 48 bytes into one new page and every cell's size further on.
   */
  lemma FillsAPageInMemory(h: SlabHeap.Heap, sites: seq<SlabHeap.Site>, caches: seq<Cache>,
      objects: seq<SlabRuns.Object>, k: nat, n: nat, i: nat)
    requires SlabHeap.Inv(h, sites, caches, objects) && SlabHeap.SitesFit(sites) && |h.bits| <= FRAME_LIMIT
    requires k < |sites| && |caches| == |sites| && n == sites[k].sh.cells && i < n
    requires caches[k].empty == [] && caches[k].partial == []
    requires TakePages(h.bits, 1).Some? && SlabHeap.Run(h, sites, AllocsOnHeap(k, n)).Some?
    ensures var h' := SlabHeap.Run(h, sites, AllocsOnHeap(k, n)).value;
            && |h'.live| == |h.live| + n && h'.live[..|h.live|] == h.live
            && h'.live[|h.live| + i].addr == TakePages(h.bits, 1).value.0 / 4096 * 4096 + 48 + 8 * sites[k].sh.words * i
  {
    hide SlabHeap.Inv, SlabHeap.Ran, TakePages, SlabHeap.Calls, SlabHeap.Run, SlabRuns.Run, UserPointer;
    CallsOfAllocs(k, n);
    var h', caches', objects' := SlabHeap.EveryRunOnMemory(h, sites, caches, objects, AllocsOnHeap(k, n));
    FillsAPage(SlabRuns.System(h.bits, caches, objects), SlabHeap.Shapes(sites), k);
    PointersAre(h, sites, caches, objects);
    PointersAre(h', sites, caches', objects');
    assert objects'[|objects| + i] == SlabRuns.Object(k, TakePages(h.bits, 1).value.0 / 4096, i);
    PointerIs(sites[k].sh, TakePages(h.bits, 1).value.0 / 4096, i);
    forall j | 0 <= j < |h.live| ensures h'.live[j] == h.live[j] {
      assert objects'[j] == objects[j];
    }
  }

  lemma PointersAre(h: SlabHeap.Heap, sites: seq<SlabHeap.Site>, caches: seq<Cache>, objects: seq<SlabRuns.Object>)
    requires SlabHeap.Inv(h, sites, caches, objects)
    ensures |h.live| == |objects| && |caches| == |sites|
    ensures forall i :: 0 <= i < |objects| ==>
              objects[i].cache < |sites| && h.live[i].cache == objects[i].cache
              && h.live[i].addr == UserPointer(sites[objects[i].cache].sh, objects[i].page, objects[i].cell)
  {
    hide SlabHeap.Placed, SlabHeap.Standing, SlabRuns.Inv, UserPointer;
  }

  lemma PointerIs(sh: Shape, p: nat, i: nat)
    ensures UserPointer(sh, p, i) == 4096 * p + 48 + 8 * sh.words * i
  {
    assert sh.words * i == i * sh.words;
  }
}
