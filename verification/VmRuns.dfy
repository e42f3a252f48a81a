/** Whole runs of the page allocator and the page tables together. */
module VmRuns {
  import opened Words
  import opened Options
  import opened Ram
  import opened Paging
  import opened BitSeq
  import opened PageOwnership
  import opened PageTables
  import opened Mapping

  type Flags = f: nat | f < 4096
  /** The int page counts of vmmMapPages and vmmUnmapPages. */
  type Count = n: nat | n < 0x8000_0000

  datatype Op =
    | MapOp(virt: u64, phys: u64, flags: Flags, n: Count)
    | UnmapOp(virt: u64, n: Count)
    | TakeOp(pages: nat)
    | GiveBackOp(index: nat)
    | StoreOp(frame: nat, slot: nat, word: u64)

  /** Page allocator, memory, and the data ranges handed out and not given back. */
  datatype System = System(k: Kernel, live: seq<Range>)

  /** One call; None when it panics or reads through a null table, and for a store outside memory the caller owns. */
  function Apply(s: System, root: nat, op: Op): (r: Option<System>)
    requires s.k.Sized()
    ensures r.Some? ==> r.value.k.Sized()
  {
    match op
    case MapOp(virt, phys, flags, n) =>
      (match MapPages(s.k, root, virt, phys, flags, n)
       case None => None
       case Some(k) => Some(s.(k := k)))
    case UnmapOp(virt, n) =>
      (match UnmapPages(s.k, root, virt, n)
       case None => None
       case Some(k) => Some(s.(k := k)))
    case TakeOp(pages) => WithPages(s, PageOwnership.Alloc(pages))
    case GiveBackOp(index) => WithPages(s, PageOwnership.Free(index))
    case StoreOp(frame, slot, word) =>
      if InSome(s.live, frame) && slot < 512
      then Some(s.(k := s.k.(ram := SetEntry(s.k.ram, frame, slot, word)))) else None
  }

  function WithPages(s: System, op: PageOwnership.Op): (r: Option<System>)
    requires s.k.Sized()
    ensures r.Some? ==> r.value.k.Sized()
  {
    match PageOwnership.Apply(State(s.k.bits, s.live), op)
    case None => None
    case Some(o) => Some(System(s.k.(bits := o.bits), o.live))
  }

  function Run(s: System, root: nat, ops: seq<Op>): (r: Option<System>)
    requires s.k.Sized()
    ensures r.Some? ==> r.value.k.Sized()
    decreases |ops|
  {
    if ops == [] then Some(s)
    else match Apply(s, root, ops[0])
      case None => None
      case Some(s') => Run(s', root, ops[1..])
  }

  /** The abstract map: what one call does to the entry of page u. */
  function Effect(op: Op, u: nat, w: u64): u64
    requires u < PAGES
  {
    match op
    case MapOp(virt, phys, flags, n) =>
      if Offset(virt, u) < n then Pte(FrameFor(phys, Offset(virt, u)), flags) else w
    case UnmapOp(virt, n) => if Offset(virt, u) < n then 0 else w
    case _ => w
  }

  function EffectOfRun(ops: seq<Op>, u: nat, w: u64): u64
    requires u < PAGES
    decreases |ops|
  {
    if ops == [] then w else EffectOfRun(ops[1..], u, Effect(ops[0], u, w))
  }

  predicate StoresTo(ops: seq<Op>, f: nat) {
    ops != [] && ((ops[0].StoreOp? && ops[0].frame == f) || StoresTo(ops[1..], f))
  }

  /** b with the pages of tables that t' has beyond t marked as reserved. */
  function Reserve(b: seq<bool>, t: Tables, t': Tables): (r: seq<bool>)
    ensures |r| == |b|
  {
    seq(|b|, p requires 0 <= p < |b| => b[p] || (p in t' && p !in t))
  }

  /**
   * The tree is laid out as t; b is what start-up and the tables have reserved; all pages
   * handed out as data are accounted for beside it; and total pages are never lost.
   */
  ghost predicate Inv(s: System, root: nat, t: Tables, b: seq<bool>)
  {
    && Good(s.k, root, t)
    && Owned(b, State(s.k.bits, s.live))
    && forall f :: f in t && f < |b| ==> b[f]
  }

  /** Pages that are free, handed out, or tables. */
  function TotalOf(s: System, t: Tables): nat {
    FreeCount(s.k.bits) + TotalPages(s.live) + |t|
  }

  lemma {:induction false} FreeCountOfMarks(b: seq<bool>, n: set<nat>)
    requires forall p :: p in n ==> p < |b| && !b[p]
    ensures FreeCount(seq(|b|, p requires 0 <= p < |b| => b[p] || p in n)) == FreeCount(b) - |n|
    decreases |n|
  {
    hide FreeCount;
    var r := seq(|b|, p requires 0 <= p < |b| => b[p] || p in n);
    if n == {} {
      assert r == b;
    } else {
      var q :| q in n;
      var rest := n - {q};
      FreeCountOfMarks(b, rest);
      var r1 := seq(|b|, p requires 0 <= p < |b| => b[p] || p in rest);
      FreeCountFlip(r1, q);
      assert r1[q := true] == r;
    }
  }

  lemma FreeCountOfReserve(b: seq<bool>, t: Tables, t': Tables)
    requires forall f :: f in t ==> f in t'
    requires forall f :: f in t' && f !in t ==> f < |b| && !b[f]
    ensures FreeCount(Reserve(b, t, t')) == FreeCount(b) - (|t'| - |t|)
  {
    hide FreeCount;
    var n := t'.Keys - t.Keys;
    FreeCountOfMarks(b, n);
    assert Reserve(b, t, t') == seq(|b|, p requires 0 <= p < |b| => b[p] || p in n);
    NewTableCount(t, t');
  }

  lemma NewTableCount(t: Tables, t': Tables)
    requires forall f :: f in t ==> f in t'
    ensures |t'.Keys - t.Keys| == |t'| - |t|
  {
    assert t'.Keys == t.Keys + (t'.Keys - t.Keys);
    assert |t'| == |t'.Keys| && |t| == |t.Keys|;
  }

  /** New tables come out of free pages, so nothing handed out as data is touched by them. */
  lemma GrowthKeepsOwned(k: Kernel, t: Tables, k': Kernel, t': Tables, live: seq<Range>, b: seq<bool>)
    requires Grew(k, t, k', t') && Owned(b, State(k.bits, live))
    requires forall f :: f in t && f < |b| ==> b[f]
    ensures Owned(Reserve(b, t, t'), State(k'.bits, live))
    ensures forall f :: f in t' && f < |b| ==> Reserve(b, t, t')[f]
    ensures FreeCount(k'.bits) + |t'| == FreeCount(k.bits) + |t|
  {
    hide FreeCount, TotalPages, Entry, InSome;
    var b' := Reserve(b, t, t');
    FreeCountOfReserve(b, t, t');
    FreeCountOfReserve(k.bits, t, t');
    assert k'.bits == Reserve(k.bits, t, t');
    forall i | 0 <= i < |live| ensures FreeRun(b', live[i].start, live[i].pages) {
      forall p: nat | live[i].start <= p < live[i].start + live[i].pages ensures !b'[p] {
        LiveIsInSome(live, i, p);
        assert k.bits[p];
      }
    }
  }

  /** How many tables are still to be made for page v below the table of this level. */
  function Missing(m: seq<u64>, root: nat, v: nat, level: nat): (n: nat)
    requires 1 <= level <= 4
    ensures n < level
  {
    if level == 1 then 0
    else if TableAt(m, root, v, level - 1) == None then level - 1
    else Missing(m, root, v, level - 1)
  }

  /** One page can be had exactly when one is free. */
  lemma OneFreeIff(bits: seq<bool>)
    requires |bits| > 0 && bits[0]
    ensures TakePages(bits, 1).None? <==> FreeCount(bits) == 0
    ensures TakePages(bits, 1).Some? ==> FreeCount(TakePages(bits, 1).value.1) == FreeCount(bits) - 1
  {
    hide FreeCount;
    PanicsOnlyWhenFull(bits, 1);
    FirstFitFromIsLeast(bits, 1, 0);
    if TakePages(bits, 1).None? {
      forall p | 0 <= p < |bits| ensures bits[p] {
        assert !FreeRun(bits, p, 1);
      }
      NothingFree(bits);
    } else {
      FreeCountOfFill(bits, FirstFit(bits, 1), 1);
    }
  }

  /** A table made on the way has nothing below it yet. */
  lemma MadeTableIsLast(k: Kernel, root: nat, t: Tables, f: nat, level: nat, v: nat, flags: Flags)
    requires Good(k, root, t) && 3 <= level <= 4 && v < PAGES && TableAt(k.ram, root, v, level) == Some(f)
    requires Entry(k.ram, f, Index(v, level)) == 0 && Ensure(k, f, Index(v, level), true, flags).Some?
    ensures TableAt(Ensure(k, f, Index(v, level), true, flags).value.ram, root, v, level - 2) == None
  {
    hide Tree, Linked, Entry, Index, Prefix, PAGES;
    ReachedTablesStand(k.ram, root, t, v, level);
    FirstFitFromIsLeast(k.bits, 1, 0);
    var c: nat := FirstFit(k.bits, 1);
    assert !k.bits[c] by { FreeRunOfOne(k.bits, c); }
    WalkAfterLink(k.ram, root, t, f, Index(v, level), c, flags, v, level - 2);
  }

  lemma {:induction false} WalkFailsIff(k: Kernel, root: nat, t: Tables, f: nat, level: nat, v: nat, flags: Flags)
    requires Good(k, root, t) && |k.bits| > 0 && k.bits[0] && 2 <= level <= 4 && v < PAGES
    requires TableAt(k.ram, root, v, level) == Some(f)
    ensures WalkFrom(k, f, level, v, true, flags).0 == OutOfMemory
       <==> FreeCount(k.bits) < Missing(k.ram, root, v, level)
    decreases level
  {
    hide Entry, Tree, Prefix, Index, PAGES, Translate, FreeCount, Linked, TakePages;
    var i := Index(v, level);
    ReachedTablesStand(k.ram, root, t, v, level);
    OneFreeIff(k.bits);
    if Entry(k.ram, f, i) != 0 {
      if level > 2 { WalkFailsIff(k, root, t, Child(k.ram, f, i).value, level - 1, v, flags); }
    } else if Ensure(k, f, i, true, flags).Some? {
      var k1 := Ensure(k, f, i, true, flags).value;
      var t1 := EnsureGrows(k, root, t, f, i, flags);
      StandingTablesAreReached(k1.ram, root, t1, f, v);
      if level > 2 {
        MadeTableIsLast(k, root, t, f, level, v, flags);
        WalkFailsIff(k1, root, t1, Child(k1.ram, f, i).value, level - 1, v, flags);
      }
    }
  }

  /** vmmMap panics exactly when fewer pages are free than tables are missing on the page's path. */
  lemma MapPanicsIff(k: Kernel, root: nat, t: Tables, virt: u64, phys: u64, flags: Flags)
    requires Good(k, root, t) && |k.bits| > 0 && k.bits[0]
    ensures Map(k, root, virt, phys, flags).None? <==> FreeCount(k.bits) < Missing(k.ram, root, Page(virt), 4)
  {
    hide Entry, Tree, WalkFrom, SameTranslations, FreeCount, Missing, Grew;
    RootIsReached(k.ram, root, Page(virt));
    WalkFailsIff(k, root, t, root, 4, Page(virt), flags);
    var t' := WalkGrows(k, root, t, root, 4, Page(virt), flags);
  }

  /** Tables and data never share a frame. */
  lemma TablesAreNotData(s: System, root: nat, t: Tables, b: seq<bool>, f: nat)
    requires Inv(s, root, t, b) && InSome(s.live, f)
    ensures f !in t && f < |s.k.bits| && s.k.bits[f]
  {
    hide Good, FreeCount, TotalPages;
    var i :| 0 <= i < |s.live| && InRange(s.live[i], f);
    assert FreeRun(b, s.live[i].start, s.live[i].pages);
    assert !b[f];
  }

  ghost predicate Stepped(s: System, s': System, root: nat, t: Tables, t': Tables, ops: seq<Op>)
  {
    && (forall f :: f in t ==> f in t' && t'[f] == t[f])
    && TotalOf(s', t') == TotalOf(s, t)
    && (forall u: nat :: u < PAGES ==>
          Translate(s'.k.ram, root, u) == EffectOfRun(ops, u, Translate(s.k.ram, root, u)))
    && (forall g: nat, i: nat :: i < 512 && g !in t' && !StoresTo(ops, g) ==>
          Entry(s'.k.ram, g, i) == Entry(s.k.ram, g, i))
  }

  lemma StepMaps(s: System, root: nat, t: Tables, b: seq<bool>, op: Op)
    returns (s': System, t': Tables, b': seq<bool>)
    requires Inv(s, root, t, b) && op.MapOp? && Apply(s, root, op).Some?
    ensures Apply(s, root, op) == Some(s') && Inv(s', root, t', b') && Stepped(s, s', root, t, t', [op])
  {
    hide Good, Owned, MapPages, Pte, Translate, Offset, FrameFor, FreeCount, TotalPages, Entry, PAGES;
    CountsFit(op.n);
    GoodIsSized(s.k, root, t);
    var k', t1 := MapPagesChangesNPages(s.k, root, t, op.virt, op.phys, op.flags, op.n);
    s', t', b' := s.(k := k'), t1, Reserve(b, t, t1);
    GrowthKeepsOwned(s.k, t, k', t', s.live, b);
    EffectOfOne(op);
  }

  lemma CountsFit(n: Count)
    ensures n <= PAGES
  {
  }

  lemma EffectOfOne(op: Op)
    ensures forall u: nat, w: u64 :: u < PAGES ==> EffectOfRun([op], u, w) == Effect(op, u, w)
  {
  }

  lemma StepUnmaps(s: System, root: nat, t: Tables, b: seq<bool>, op: Op) returns (s': System)
    requires Inv(s, root, t, b) && op.UnmapOp? && Apply(s, root, op).Some?
    ensures Apply(s, root, op) == Some(s') && Inv(s', root, t, b) && Stepped(s, s', root, t, t, [op])
  {
    hide Good, Owned, UnmapPages, Translate, Offset, FreeCount, TotalPages, Entry, PAGES;
    CountsFit(op.n);
    UnmapPagesChangesNPages(s.k, root, t, op.virt, op.n);
    s' := Apply(s, root, op).value;
    EffectOfOne(op);
  }

  lemma StepTakesOrGives(s: System, root: nat, t: Tables, b: seq<bool>, op: Op) returns (s': System)
    requires Inv(s, root, t, b) && (op.TakeOp? || op.GiveBackOp?) && Apply(s, root, op).Some?
    ensures Apply(s, root, op) == Some(s') && Inv(s', root, t, b) && Stepped(s, s', root, t, t, [op])
  {
    hide Tree, Translate, FreeCount, TotalPages, Entry, PAGES, TakePages;
    s' := Apply(s, root, op).value;
    if op.TakeOp? {
      AllocKeepsOwned(b, State(s.k.bits, s.live), op.pages);
    } else {
      FreeKeepsOwned(b, State(s.k.bits, s.live), op.index);
    }
    EffectOfOne(op);
  }

  lemma StepStores(s: System, root: nat, t: Tables, b: seq<bool>, op: Op) returns (s': System)
    requires Inv(s, root, t, b) && op.StoreOp? && Apply(s, root, op).Some?
    ensures Apply(s, root, op) == Some(s') && Inv(s', root, t, b) && Stepped(s, s', root, t, t, [op])
  {
    hide Tree, Translate, FreeCount, TotalPages, Entry, PAGES, Owned, InSome, SetEntry;
    s' := Apply(s, root, op).value;
    TablesAreNotData(s, root, t, b, op.frame);
    WriteKeepsTree(s.k.ram, root, t, op.frame, op.slot, op.word);
    forall u: nat | u < PAGES ensures Translate(s'.k.ram, root, u) == Translate(s.k.ram, root, u) {
      OtherWritesChangeNothing(s.k.ram, root, t, op.frame, op.slot, op.word, u);
    }
    EffectOfOne(op);
    forall g: nat, i: nat | i < 512 && g !in t && !StoresTo([op], g)
      ensures Entry(s'.k.ram, g, i) == Entry(s.k.ram, g, i)
    {
      EntryAfterSet(s.k.ram, op.frame, op.slot, op.word, g, i);
    }
  }

  /** A holder's write of any size, to pages handed out as data. */
  lemma DataWrite(s: System, root: nat, t: Tables, b: seq<bool>, m': seq<u64>)
    requires Inv(s, root, t, b) && |m'| == |s.k.ram|
    requires forall g: nat, i: nat :: i < 512 && !InSome(s.live, g) ==> Entry(m', g, i) == Entry(s.k.ram, g, i)
    ensures Inv(s.(k := s.k.(ram := m')), root, t, b)
    ensures forall v: nat :: v < PAGES ==> Translate(m', root, v) == Translate(s.k.ram, root, v)
  {
    hide Owned, Entry, Tree, Translate;
    forall f | f in t ensures !InSome(s.live, f) {
      if InSome(s.live, f) { TablesAreNotData(s, root, t, b, f); }
    }
    SameTablesSameTree(s.k.ram, m', root, t);
  }

  lemma SteppedInTurn(s: System, s1: System, s2: System, root: nat, t: Tables, t1: Tables, t2: Tables, op: Op,
      ops: seq<Op>)
    requires Stepped(s, s1, root, t, t1, [op]) && Stepped(s1, s2, root, t1, t2, ops)
    ensures Stepped(s, s2, root, t, t2, [op] + ops)
  {
    hide Translate, Entry, FreeCount, TotalPages, Effect, PAGES;
    assert ([op] + ops)[1..] == ops;
    EffectOfOne(op);
    assert forall g :: StoresTo([op] + ops, g) == (StoresTo([op], g) || StoresTo(ops, g));
  }

  /** One call, whichever it is. */
  lemma StepRefines(s: System, root: nat, t: Tables, b: seq<bool>, op: Op)
    returns (s': System, t': Tables, b': seq<bool>)
    requires Inv(s, root, t, b) && s.k.Sized() && Apply(s, root, op).Some?
    ensures Apply(s, root, op) == Some(s')
    ensures Inv(s', root, t', b') && Stepped(s, s', root, t, t', [op])
  {
    hide Inv, Stepped, Apply;
    t', b' := t, b;
    match op {
      case MapOp(_, _, _, _) => s', t', b' := StepMaps(s, root, t, b, op);
      case UnmapOp(_, _) => s' := StepUnmaps(s, root, t, b, op);
      case TakeOp(_) => s' := StepTakesOrGives(s, root, t, b, op);
      case GiveBackOp(_) => s' := StepTakesOrGives(s, root, t, b, op);
      case StoreOp(_, _, _) => s' := StepStores(s, root, t, b, op);
    }
  }

  /**
   * Over every run: the four-level walk of every page equals the abstract map; the tables stay
   * an unshared tree on frames that are marked used and are no one's data; no page is lost; and
   * memory that is no table changes only where its owner stored.
   */
  lemma {:induction false} EveryRunRefinesTheMap(s: System, root: nat, t: Tables, b: seq<bool>, ops: seq<Op>)
    returns (s': System, t': Tables, b': seq<bool>)
    requires Inv(s, root, t, b) && Run(s, root, ops).Some?
    ensures Run(s, root, ops) == Some(s')
    ensures Inv(s', root, t', b') && Stepped(s, s', root, t, t', ops)
    decreases |ops|
  {
    hide Inv, Stepped, Apply;
    InvIsSized(s, root, t, b);
    if ops == [] {
      s', t', b' := s, t, b;
      SteppedInPlace(s, root, t);
    } else {
      var s1, t1, b1 := StepRefines(s, root, t, b, ops[0]);
      s', t', b' := EveryRunRefinesTheMap(s1, root, t1, b1, ops[1..]);
      SteppedInTurn(s, s1, s', root, t, t1, t', ops[0], ops[1..]);
      assert [ops[0]] + ops[1..] == ops;
    }
  }

  lemma InvIsSized(s: System, root: nat, t: Tables, b: seq<bool>)
    requires Inv(s, root, t, b)
    ensures s.k.Sized()
  {
  }

  lemma SteppedInPlace(s: System, root: nat, t: Tables)
    ensures Stepped(s, s, root, t, t, [])
  {
    hide Translate, Entry, FreeCount, TotalPages, PAGES;
  }

  /** The state the boot loader and pmmInit leave: nothing handed out, tables on reserved frames. */
  lemma BootKeepsInv(k: Kernel, root: nat, t: Tables)
    requires Good(k, root, t) && |k.bits| > 0 && k.bits[0]
    ensures Inv(System(k, []), root, t, k.bits)
  {
    hide Good;
    GoodMarksTables(k, root, t);
    NothingLiveIsOwned(k.bits);
  }

  /** From an empty root on: after any run each page's last-level entry is exactly what the calls made it. */
  lemma RunsFromEmptyRoot(k: Kernel, root: nat, ops: seq<Op>)
    requires k.Sized() && HasFrame(k.ram, root) && root < |k.bits| && k.bits[root] && k.bits[0]
    requires forall i: nat :: i < 512 ==> Entry(k.ram, root, i) == 0
    requires Run(System(k, []), root, ops).Some?
    ensures var s := Run(System(k, []), root, ops).value;
            forall u: nat :: u < PAGES ==> Translate(s.k.ram, root, u) == EffectOfRun(ops, u, 0)
  {
    hide Good, Inv, Run, Entry, Translate, EffectOfRun;
    var t := map[root := Place(4, 0)];
    EmptyRootIsGood(k, root);
    BootKeepsInv(k, root, t);
    var s', t', b' := EveryRunRefinesTheMap(System(k, []), root, t, k.bits, ops);
  }

  lemma GoodMarksTables(k: Kernel, root: nat, t: Tables)
    requires Good(k, root, t)
    ensures forall f :: f in t && f < |k.bits| ==> k.bits[f]
  {
  }

  // ---- the same in addresses

  lemma {:induction false} PageAhead(virt: u64, i: nat)
    ensures Page((virt + 4096 * i) % 0x1_0000_0000_0000_0000) == (Page(virt) + i) % PAGES
  {
    hide Page, NextPage;
    if i > 0 {
      PageAhead(virt, i - 1);
      PageOfNext((virt + 4096 * (i - 1)) % 0x1_0000_0000_0000_0000);
      OneMore(virt, i);
      OneMorePage(Page(virt), i);
    }
  }

  lemma OneMorePage(p: nat, i: nat)
    requires i > 0
    ensures ((p + (i - 1)) % PAGES + 1) % PAGES == (p + i) % PAGES
  {
  }

  lemma OneMore(virt: u64, i: nat)
    requires i > 0
    ensures NextPage((virt + 4096 * (i - 1)) % 0x1_0000_0000_0000_0000) == (virt + 4096 * i) % 0x1_0000_0000_0000_0000
  {
  }

  lemma OffsetOfAhead(virt: u64, i: nat, u: nat)
    requires i < PAGES && u < PAGES
    ensures Offset(virt, u) == i <==> u == Page((virt + 4096 * i) % 0x1_0000_0000_0000_0000)
  {
    PageAhead(virt, i);
    hide Page;
  }

  /** Page u is none of those the call is given. */
  predicate Untouched(op: Op, u: nat) {
    op.MapOp? || op.UnmapOp? ==>
      forall i: nat :: i < op.n ==> u != Page((op.virt + 4096 * i) % 0x1_0000_0000_0000_0000)
  }

  /**
   * Every call, whatever ran before it: vmmMapPages gives the n pages from virt on the n frames from
   * phys on, vmmUnmapPages takes n pages' entries away, and nothing else touches any page's entry.
   */
  lemma CallsInAddresses(s: System, root: nat, t: Tables, b: seq<bool>, op: Op) returns (s': System)
    requires Inv(s, root, t, b) && s.k.Sized() && Apply(s, root, op).Some?
    ensures Apply(s, root, op) == Some(s')
    ensures op.MapOp? || op.UnmapOp? ==> forall i: nat :: i < op.n ==>
              Translate(s'.k.ram, root, Page((op.virt + 4096 * i) % 0x1_0000_0000_0000_0000)) ==
              if op.MapOp? then Pte((op.phys + 4096 * i) % 0x1_0000_0000_0000_0000, op.flags) else 0
    ensures forall u: nat :: u < PAGES && Untouched(op, u) ==>
              Translate(s'.k.ram, root, u) == Translate(s.k.ram, root, u)
  {
    hide Inv, Apply, Translate, Pte, Page, Offset, PAGES;
    ghost var t', b';
    s', t', b' := StepRefines(s, root, t, b, op);
    EffectOfOne(op);
    if op.MapOp? || op.UnmapOp? {
      CountsFit(op.n);
      forall i: nat | i < op.n
        ensures Offset(op.virt, Page((op.virt + 4096 * i) % 0x1_0000_0000_0000_0000)) == i
      {
        OffsetOfAhead(op.virt, i, Page((op.virt + 4096 * i) % 0x1_0000_0000_0000_0000));
      }
      forall u: nat | u < PAGES && Untouched(op, u) ensures Offset(op.virt, u) >= op.n {
        OffsetOfAhead(op.virt, Offset(op.virt, u), u);
      }
    }
  }
}
