/**
 * N CPUs inside pmmAlloc, pmmFree, slabAlloc and slabFree at once, on any number of slab caches.
 * One step tests one bit, sets one bit, takes or drops one lock, or does one cache's list work
 * under that cache's lock; any CPU may take the next step.
 */
module Interleavings {
  import opened Options
  import opened Sequences
  import opened BitSeq
  import opened PageOwnership
  import opened SlabModel
  import opened SlabRuns
  import Bitmaps

  /**
   * Where a CPU is. Pages are wanted by a caller (owner None) or by slabAllocSlab for a cache,
   * whose lock is then held.
   */
  datatype Pc =
    | Idle
    | WantPmm(pages: nat, owner: Option<nat>)
    | Scan(pages: nat, owner: Option<nat>, pos: nat, start: nat)
    | Fill(pages: nat, owner: Option<nat>, start: nat, pos: nat)
    | WantFree(range: Range)
    | Clear(range: Range, pos: nat)
    | WantCache(cache: nat)
    | InCache(cache: nat)
    | AddSlab(cache: nat, page: nat)
    | Retry(cache: nat)
    | Taken(cache: nat)
    | WantGive(target: Object)
    | Giving(target: Object)
    | Given(cache: nat)

  datatype Call =
    | PmmAlloc(pages: nat)
    | PmmFree(range: Range)
    | SlabAlloc(cache: nat)
    | SlabFree(target: Object)

  /**
   * Shared memory (the bit set, the caches, all lock flags) and the CPUs. The rest is only for the
   * proof: `log`, the allocator calls that have dropped the lock, in that order; `done` and
   * `owned`, what they have left behind; and `objects`, what slabAlloc has handed out.
   */
  datatype Machine = Machine(
    bits: seq<bool>, pmmFlag: bool, caches: seq<Cache>, cacheFlags: seq<bool>, pcs: seq<Pc>,
    log: seq<PageOwnership.Op>, done: seq<bool>, owned: seq<Range>, objects: seq<Object>)

  predicate HoldsPmm(pc: Pc) {
    pc.Scan? || pc.Fill? || pc.Clear?
  }

  predicate HoldsCache(pc: Pc, k: nat) {
    match pc
    case WantPmm(_, owner) => owner == Some(k)
    case Scan(_, owner, _, _) => owner == Some(k)
    case Fill(_, owner, _, _) => owner == Some(k)
    case InCache(j) => j == k
    case AddSlab(j, _) => j == k
    case Retry(j) => j == k
    case Taken(j) => j == k
    case Giving(x) => x.cache == k
    case Given(j) => j == k
    case _ => false
  }

  predicate Frees(pc: Pc, r: Range) {
    (pc.WantFree? || pc.Clear?) && pc.range == r
  }

  predicate Gives(pc: Pc, x: Object) {
    (pc.WantGive? || pc.Giving?) && pc.target == x
  }

  predicate Adds(pc: Pc, p: nat) {
    pc.AddSlab? && pc.page == p
  }

  ghost predicate IsSlab(m: Machine, p: nat) {
    exists k :: 0 <= k < |m.caches| && p in m.caches[k].chain
  }

  /** What a caller may ask for: only memory that is its own to give back, and only once. */
  ghost predicate MayCall(m: Machine, c: Call)
  {
    match c
    case PmmAlloc(pages) => pages > 0
    case PmmFree(r) =>
      r in m.owned && !IsSlab(m, r.start)
      && forall j :: 0 <= j < |m.pcs| ==> !Frees(m.pcs[j], r) && !Adds(m.pcs[j], r.start)
    case SlabAlloc(k) => k < |m.caches|
    case SlabFree(x) => x in m.objects && forall j :: 0 <= j < |m.pcs| ==> !Gives(m.pcs[j], x)
  }

  function Begin(c: Call): Pc {
    match c
    case PmmAlloc(pages) => WantPmm(pages, None)
    case PmmFree(r) => WantFree(r)
    case SlabAlloc(k) => WantCache(k)
    case SlabFree(x) => WantGive(x)
  }

  function At(m: Machine, i: nat, pc: Pc): Machine
    requires i < |m.pcs|
  {
    m.(pcs := m.pcs[i := pc])
  }

  function WithCache(m: Machine, k: nat, c: Cache): Machine
    requires k < |m.caches|
  {
    m.(caches := m.caches[k := c])
  }

  function WithFlag(m: Machine, k: nat, b: bool): Machine
    requires k < |m.cacheFlags|
  {
    m.(cacheFlags := m.cacheFlags[k := b])
  }

  /** pmmAlloc drops its lock: the call takes effect. */
  function CommitAlloc(m: Machine, i: nat, pc: Pc): Machine
    requires i < |m.pcs| && pc.Fill?
  {
    At(m, i, if pc.owner.Some? then AddSlab(pc.owner.value, pc.start) else Idle)
      .(pmmFlag := false, log := m.log + [PageOwnership.Alloc(pc.pages)], done := m.bits,
        owned := m.owned + [Range(pc.start, pc.pages)])
  }

  /** pmmFree drops its lock. */
  function CommitFree(m: Machine, i: nat, r: Range): Machine
    requires i < |m.pcs| && r in m.owned
  {
    var k := IndexOf(m.owned, r);
    At(m, i, Idle)
      .(pmmFlag := false, log := m.log + [PageOwnership.Free(k)], done := m.bits, owned := DropAt(m.owned, k))
  }

  ghost predicate Sized(m: Machine, shapes: seq<Shape>) {
    |m.caches| == |m.cacheFlags| == |shapes|
  }

  /**
   * The next step of CPU i; an idle one makes the call `c`. A CPU that finds a flag set stays
   * where it is. None when memory has run out and the kernel panics.
   */
  ghost function Step(m: Machine, shapes: seq<Shape>, i: nat, c: Call): (r: Option<Machine>)
    requires Sized(m, shapes) && i < |m.pcs|
    ensures r.Some? ==> Sized(r.value, shapes) && |r.value.pcs| == |m.pcs|
  {
    match m.pcs[i]
    case Idle => if MayCall(m, c) then Some(At(m, i, Begin(c))) else Some(m)
    case WantPmm(pages, owner) =>
      if m.pmmFlag then Some(m) else Some(At(m, i, Scan(pages, owner, 0, 0)).(pmmFlag := true))
    case Scan(pages, owner, pos, start) =>
      if pos >= |m.bits| then None
      else if m.bits[pos] then Some(At(m, i, Scan(pages, owner, pos + 1, pos + 1)))
      else if pos + 1 - start != pages then Some(At(m, i, Scan(pages, owner, pos + 1, start)))
      else if start == 0 then None
      else Some(At(m, i, Fill(pages, owner, start, start)))
    case Fill(pages, owner, start, pos) =>
      if pos < start + pages && pos < |m.bits|
      then Some(At(m, i, Fill(pages, owner, start, pos + 1)).(bits := m.bits[pos := true]))
      else Some(CommitAlloc(m, i, m.pcs[i]))
    case WantFree(r) =>
      if m.pmmFlag then Some(m) else Some(At(m, i, Clear(r, r.start)).(pmmFlag := true))
    case Clear(r, pos) =>
      if pos < r.start + r.pages && pos < |m.bits|
      then Some(At(m, i, Clear(r, pos + 1)).(bits := m.bits[pos := false]))
      else if r in m.owned then Some(CommitFree(m, i, r)) else None
    case WantCache(k) =>
      if k >= |m.caches| then None
      else if m.cacheFlags[k] then Some(m) else Some(WithFlag(At(m, i, InCache(k)), k, true))
    case InCache(k) =>
      if k >= |m.caches| then None
      else
        var c := m.caches[k];
        if !c.HasFree() then Some(At(m, i, WantPmm(1, Some(k))))
        else if c.Front() in c.chain && c.chain[c.Front()] != []
        then Some(WithCache(At(m, i, Taken(k)), k, Take(c))
                  .(objects := m.objects + [Object(k, c.Front(), c.chain[c.Front()][0])]))
        else None
    case AddSlab(k, p) =>
      if k >= |m.caches| then None
      else Some(WithCache(At(m, i, Retry(k)), k, Grow(m.caches[k], shapes[k].cells, p)))
    case Retry(k) => if k >= |m.caches| then None else Some(WithFlag(At(m, i, WantCache(k)), k, false))
    case Taken(k) => if k >= |m.caches| then None else Some(WithFlag(At(m, i, Idle), k, false))
    case WantGive(x) =>
      if x.cache >= |m.caches| then None
      else if m.cacheFlags[x.cache] then Some(m) else Some(WithFlag(At(m, i, Giving(x)), x.cache, true))
    case Giving(x) =>
      if x.cache < |m.caches| && x.page in m.caches[x.cache].chain && x in m.objects
      then Some(WithCache(At(m, i, Given(x.cache)), x.cache,
                          Give(m.caches[x.cache], shapes[x.cache].cells, x.page, x.cell))
                .(objects := DropAt(m.objects, IndexOf(m.objects, x))))
      else None
    case Given(k) => if k >= |m.caches| then None else Some(WithFlag(At(m, i, Idle), k, false))
  }

  /** Each flag is set exactly while one CPU, and no other, is in that lock's critical section. */
  ghost predicate Exclusive(m: Machine)
  {
    && (forall i, j :: 0 <= i < |m.pcs| && 0 <= j < |m.pcs| && HoldsPmm(m.pcs[i]) && HoldsPmm(m.pcs[j]) ==> i == j)
    && (m.pmmFlag <==> exists i :: 0 <= i < |m.pcs| && HoldsPmm(m.pcs[i]))
    && forall k: nat :: k < |m.cacheFlags| ==> ExclusiveIn(m.pcs, m.cacheFlags[k], k)
  }

  ghost predicate ExclusiveIn(pcs: seq<Pc>, flag: bool, k: nat)
  {
    && (forall i, j :: 0 <= i < |pcs| && 0 <= j < |pcs| && HoldsCache(pcs[i], k) && HoldsCache(pcs[j], k) ==> i == j)
    && (flag <==> exists i :: 0 <= i < |pcs| && HoldsCache(pcs[i], k))
  }

  /** How far the CPU inside the allocator has got, relative to the last state with the lock free. */
  ghost predicate MidCall(m: Machine, pc: Pc)
  {
    match pc
    case Scan(pages, _, pos, start) =>
      && m.bits == m.done && start <= pos <= |m.done| && pos - start < pages
      && (forall k :: start <= k < pos ==> !m.done[k])
      && FirstFit(m.done, pages) == FirstFitFrom(m.done, pages, start)
    case Fill(pages, _, start, pos) =>
      && pages > 0 && FirstFit(m.done, pages) == start > 0 && start <= pos <= start + pages
      && m.bits == Filled(m.done, start, pos, true)
    case Clear(r, pos) =>
      && r.start <= pos <= r.start + r.pages
      && m.bits == Filled(m.done, r.start, pos, false)
    case _ => true
  }

  predicate ForCache(m: Machine, pages: nat, owner: Option<nat>) {
    pages > 0 && (owner.Some? ==> pages == 1 && owner.value < |m.caches|)
  }

  /** What a CPU relies on while others move. */
  ghost predicate Relies(m: Machine, pc: Pc)
  {
    match pc
    case Idle => true
    case WantPmm(pages, owner) => ForCache(m, pages, owner)
    case Scan(pages, owner, _, _) => ForCache(m, pages, owner)
    case Fill(pages, owner, _, _) => ForCache(m, pages, owner)
    case WantFree(r) => r in m.owned && !IsSlab(m, r.start)
    case Clear(r, _) => r in m.owned && !IsSlab(m, r.start)
    case AddSlab(k, p) => k < |m.caches| && Range(p, 1) in m.owned && !IsSlab(m, p)
    case WantGive(x) => x in m.objects && x.cache < |m.caches|
    case Giving(x) => x in m.objects && x.cache < |m.caches|
    case _ => pc.cache < |m.caches|
  }

  /** No two CPUs are giving back, or adding, the same thing. */
  ghost predicate Once(pcs: seq<Pc>)
  {
    && (forall i, j, r :: 0 <= i < |pcs| && 0 <= j < |pcs| && Frees(pcs[i], r) && Frees(pcs[j], r) ==> i == j)
    && (forall i, j, r :: 0 <= i < |pcs| && 0 <= j < |pcs| && Frees(pcs[i], r) ==> !Adds(pcs[j], r.start))
    && (forall i, j, p :: 0 <= i < |pcs| && 0 <= j < |pcs| && Adds(pcs[i], p) && Adds(pcs[j], p) ==> i == j)
    && (forall i, j, x :: 0 <= i < |pcs| && 0 <= j < |pcs| && Gives(pcs[i], x) && Gives(pcs[j], x) ==> i == j)
  }

  /**
   * The allocator has done what its completed calls do one after another; the caches and the
   * objects handed out are a state of the sequential runs, on pages that are the slabs' own.
   */
  ghost predicate Committed(m: Machine, shapes: seq<Shape>, b0: seq<bool>)
  {
    && |b0| > 0 && b0[0]
    && PageOwnership.Run(State(b0, []), m.log) == Some(State(m.done, m.owned))
    && SlabRuns.Inv(System(m.done, m.caches, m.objects), shapes)
    && (forall k, p :: 0 <= k < |m.caches| && p in m.caches[k].chain ==> Range(p, 1) in m.owned)
  }

  ghost predicate Inv(m: Machine, shapes: seq<Shape>, b0: seq<bool>)
  {
    && Sized(m, shapes)
    && Committed(m, shapes, b0)
    && Exclusive(m)
    && Once(m.pcs)
    && (!m.pmmFlag ==> m.bits == m.done)
    && (forall i :: 0 <= i < |m.pcs| ==> MidCall(m, m.pcs[i]) && Relies(m, m.pcs[i]))
  }

  lemma {:induction false} RunOneMore(s: State, ops: seq<PageOwnership.Op>, op: PageOwnership.Op)
    requires PageOwnership.Run(s, ops).Some?
    ensures PageOwnership.Run(s, ops + [op]) == PageOwnership.Apply(PageOwnership.Run(s, ops).value, op)
    decreases |ops|
  {
    if ops == [] {
      assert [op][1..] == [];
    } else {
      RunOneMore(PageOwnership.Apply(s, ops[0]).value, ops[1..], op);
      assert (ops + [op])[1..] == ops[1..] + [op];
    }
  }

  /** What the allocator's log says: the ranges it has given out are used, and disjoint. */
  lemma LogIsOwned(m: Machine, b0: seq<bool>)
    requires |b0| > 0 && b0[0] && PageOwnership.Run(State(b0, []), m.log) == Some(State(m.done, m.owned))
    ensures Owned(b0, State(m.done, m.owned))
    ensures forall r :: r in m.owned ==>
              0 < r.start && 0 < r.pages && r.start + r.pages <= |m.done| && m.done[r.start]
  {
    NothingLiveIsOwned(b0);
    EveryRunKeepsOwned(b0, State(b0, []), m.log);
    forall r | r in m.owned
      ensures 0 < r.start && 0 < r.pages && r.start + r.pages <= |m.done| && m.done[r.start]
    {
      var i :| 0 <= i < |m.owned| && m.owned[i] == r;
      assert InRange(m.owned[i], r.start);
      assert FreeRun(b0, r.start, r.pages);
    }
  }

  // ---- who holds what, after one CPU has moved

  lemma PmmExclusiveAfter(m: Machine, i: nat, pc: Pc, m': Machine)
    requires Exclusive(m) && i < |m.pcs| && m'.pcs == m.pcs[i := pc]
    requires HoldsPmm(pc) ==> HoldsPmm(m.pcs[i]) || !m.pmmFlag
    requires m'.pmmFlag == if HoldsPmm(pc) then true else if HoldsPmm(m.pcs[i]) then false else m.pmmFlag
    ensures forall a, b :: 0 <= a < |m'.pcs| && 0 <= b < |m'.pcs| && HoldsPmm(m'.pcs[a]) && HoldsPmm(m'.pcs[b]) ==>
              a == b
    ensures m'.pmmFlag <==> exists a :: 0 <= a < |m'.pcs| && HoldsPmm(m'.pcs[a])
  {
    hide HoldsPmm, ExclusiveIn;
    if k :| 0 <= k < |m.pcs| && HoldsPmm(m.pcs[k]) {
      assert k != i ==> HoldsPmm(m'.pcs[k]);
    }
    assert HoldsPmm(pc) ==> HoldsPmm(m'.pcs[i]);
    forall k | 0 <= k < |m'.pcs| && k != i ensures m'.pcs[k] == m.pcs[k] { }
  }

  lemma CacheExclusiveAfter(pcs: seq<Pc>, flag: bool, k: nat, i: nat, pc: Pc, flag': bool)
    requires ExclusiveIn(pcs, flag, k) && i < |pcs|
    requires HoldsCache(pc, k) ==> HoldsCache(pcs[i], k) || !flag
    requires flag' == if HoldsCache(pc, k) then true else if HoldsCache(pcs[i], k) then false else flag
    ensures ExclusiveIn(pcs[i := pc], flag', k)
  {
    hide HoldsCache;
    var pcs' := pcs[i := pc];
    if j :| 0 <= j < |pcs| && HoldsCache(pcs[j], k) {
      assert j != i ==> HoldsCache(pcs'[j], k);
    }
    assert HoldsCache(pc, k) ==> HoldsCache(pcs'[i], k);
    forall j | 0 <= j < |pcs'| && j != i ensures pcs'[j] == pcs[j] { }
  }

  /** Moving one CPU from one program counter to another, with the flags following. */
  lemma ExclusiveAfter(m: Machine, i: nat, pc: Pc, m': Machine)
    requires Exclusive(m) && i < |m.pcs| && m'.pcs == m.pcs[i := pc] && |m'.cacheFlags| == |m.cacheFlags|
    requires HoldsPmm(pc) ==> HoldsPmm(m.pcs[i]) || !m.pmmFlag
    requires m'.pmmFlag == if HoldsPmm(pc) then true else if HoldsPmm(m.pcs[i]) then false else m.pmmFlag
    requires forall k: nat :: k < |m.cacheFlags| ==>
               && (HoldsCache(pc, k) ==> HoldsCache(m.pcs[i], k) || !m.cacheFlags[k])
               && m'.cacheFlags[k] ==
                  (if HoldsCache(pc, k) then true else if HoldsCache(m.pcs[i], k) then false else m.cacheFlags[k])
    ensures Exclusive(m')
  {
    hide HoldsCache, HoldsPmm, ExclusiveIn;
    PmmExclusiveAfter(m, i, pc, m');
    forall k: nat | k < |m'.cacheFlags| ensures ExclusiveIn(m'.pcs, m'.cacheFlags[k], k) {
      CacheExclusiveAfter(m.pcs, m.cacheFlags[k], k, i, pc, m'.cacheFlags[k]);
    }
  }

  /** Nothing new is being given back, or nobody else was giving it back. */
  lemma OnceAfter(pcs: seq<Pc>, i: nat, pc: Pc)
    requires Once(pcs) && i < |pcs|
    requires forall r, j :: Frees(pc, r) && 0 <= j < |pcs| && j != i ==> !Frees(pcs[j], r) && !Adds(pcs[j], r.start)
    requires forall p, j :: Adds(pc, p) && 0 <= j < |pcs| && j != i ==> !Adds(pcs[j], p)
    requires forall r: Range, j :: Adds(pc, r.start) && 0 <= j < |pcs| && j != i ==> !Frees(pcs[j], r)
    requires forall x, j :: Gives(pc, x) && 0 <= j < |pcs| && j != i ==> !Gives(pcs[j], x)
    ensures Once(pcs[i := pc])
  {
    hide Gives;
    var pcs' := pcs[i := pc];
    forall k | 0 <= k < |pcs'| && k != i ensures pcs'[k] == pcs[k] { }
  }

  /** The case of a step that leaves the set of things being given back as it was, or smaller. */
  lemma OnceKept(pcs: seq<Pc>, i: nat, pc: Pc)
    requires Once(pcs) && i < |pcs|
    requires forall r :: Frees(pc, r) ==> Frees(pcs[i], r)
    requires !pc.AddSlab?
    requires forall x :: Gives(pc, x) ==> Gives(pcs[i], x)
    ensures Once(pcs[i := pc])
  {
    hide Gives, Frees;
    forall r, j | Frees(pc, r) && 0 <= j < |pcs| && j != i
      ensures !Frees(pcs[j], r) && !Adds(pcs[j], r.start)
    {
      assert Frees(pcs[i], r);
    }
    forall x, j | Gives(pc, x) && 0 <= j < |pcs| && j != i ensures !Gives(pcs[j], x) {
      assert Gives(pcs[i], x);
    }
    OnceAfter(pcs, i, pc);
  }

  /** A step of CPU i that changes neither a cache nor what has been committed. */
  lemma LocalStep(m: Machine, shapes: seq<Shape>, b0: seq<bool>, i: nat, pc: Pc, m': Machine)
    requires Inv(m, shapes, b0) && i < |m.pcs| && m'.pcs == m.pcs[i := pc]
    requires m'.caches == m.caches && m'.objects == m.objects && |m'.cacheFlags| == |m.cacheFlags|
    requires m'.log == m.log && m'.done == m.done && m'.owned == m.owned
    requires Exclusive(m') && Once(m'.pcs)
    requires m'.bits == m.bits || HoldsPmm(m.pcs[i])
    requires !m'.pmmFlag ==> m'.bits == m'.done
    requires MidCall(m', pc) && Relies(m', pc)
    ensures Inv(m', shapes, b0)
  {
    hide Exclusive, Once, SlabRuns.Inv, PageOwnership.Run;
    forall j | 0 <= j < |m'.pcs| ensures MidCall(m', m'.pcs[j]) && Relies(m', m'.pcs[j]) {
      if j != i {
        OthersAreOutside(m, i, j);
        assert MidCall(m, m.pcs[j]) && Relies(m, m.pcs[j]);
      }
    }
  }

  lemma OthersAreOutside(m: Machine, i: nat, j: nat)
    requires Exclusive(m) && i < |m.pcs| && j < |m.pcs| && i != j
    ensures HoldsPmm(m.pcs[i]) ==> !HoldsPmm(m.pcs[j])
    ensures HoldsPmm(m.pcs[i]) ==> m.pmmFlag
  {
    hide ExclusiveIn;
  }

  lemma OwnFlags(m: Machine, i: nat)
    requires Exclusive(m) && i < |m.pcs|
    ensures HoldsPmm(m.pcs[i]) ==> m.pmmFlag
    ensures forall k: nat :: k < |m.cacheFlags| && HoldsCache(m.pcs[i], k) ==> m.cacheFlags[k]
  {
    hide HoldsCache;
    forall k: nat | k < |m.cacheFlags| && HoldsCache(m.pcs[i], k) ensures m.cacheFlags[k] {
      assert ExclusiveIn(m.pcs, m.cacheFlags[k], k);
    }
  }

  lemma CallStep(m: Machine, shapes: seq<Shape>, b0: seq<bool>, i: nat, c: Call)
    requires Inv(m, shapes, b0) && i < |m.pcs| && m.pcs[i].Idle? && MayCall(m, c)
    ensures Inv(At(m, i, Begin(c)), shapes, b0)
  {
    hide Exclusive, SlabRuns.Inv, PageOwnership.Run, IsSlab;
    var m' := At(m, i, Begin(c));
    ExclusiveAfter(m, i, Begin(c), m');
    OnceAfter(m.pcs, i, Begin(c));
    if c.SlabFree? { ObjectsAreInCaches(m, shapes, b0, c.target); }
    SameSlabs(m, m');
    LocalStep(m, shapes, b0, i, Begin(c), m');
  }

  lemma ObjectsAreInCaches(m: Machine, shapes: seq<Shape>, b0: seq<bool>, x: Object)
    requires Sized(m, shapes) && Committed(m, shapes, b0) && x in m.objects
    ensures x.cache < |m.caches| && x.page in m.caches[x.cache].chain
    ensures IsLive(m.caches[x.cache], shapes[x.cache].cells, x.page, x.cell)
  {
    hide PageOwnership.Run, SlabRuns.Inv;
    InvFacts(System(m.done, m.caches, m.objects), shapes);
  }

  lemma AcquirePmmStep(m: Machine, shapes: seq<Shape>, b0: seq<bool>, i: nat, c: Call)
    requires Inv(m, shapes, b0) && i < |m.pcs| && (m.pcs[i].WantPmm? || m.pcs[i].WantFree?)
    ensures Inv(Step(m, shapes, i, c).value, shapes, b0)
  {
    hide Exclusive, Once, SlabRuns.Inv, PageOwnership.Run, IsSlab;
    if !m.pmmFlag {
      var m' := Step(m, shapes, i, c).value;
      assert Relies(m, m.pcs[i]);
      OwnFlags(m, i);
      ExclusiveAfter(m, i, m'.pcs[i], m');
      OnceKept(m.pcs, i, m'.pcs[i]);
      if m.pcs[i].WantFree? {
        assert m.bits == Filled(m.done, m.pcs[i].range.start, m.pcs[i].range.start, false);
      }
      SameSlabs(m, m');
      LocalStep(m, shapes, b0, i, m'.pcs[i], m');
    }
  }

  lemma ScanStep(m: Machine, shapes: seq<Shape>, b0: seq<bool>, i: nat, c: Call)
    requires Inv(m, shapes, b0) && i < |m.pcs| && m.pcs[i].Scan? && Step(m, shapes, i, c).Some?
    ensures Inv(Step(m, shapes, i, c).value, shapes, b0)
  {
    hide Exclusive, Once, SlabRuns.Inv, PageOwnership.Run, IsSlab;
    var m' := Step(m, shapes, i, c).value;
    var Scan(pages, owner, pos, start) := m.pcs[i];
    assert MidCall(m, m.pcs[i]) && Relies(m, m.pcs[i]);
    OwnFlags(m, i);
    ExclusiveAfter(m, i, m'.pcs[i], m');
    OnceKept(m.pcs, i, m'.pcs[i]);
    if m.bits[pos] {
      Bitmaps.SkipPast(m.done, pages, start, pos);
    } else if pos + 1 - start == pages {
      assert FreeRun(m.done, start, pages);
      assert m.bits == Filled(m.done, start, start, true);
    }
    LocalStep(m, shapes, b0, i, m'.pcs[i], m');
  }

  lemma WriteBitStep(m: Machine, shapes: seq<Shape>, b0: seq<bool>, i: nat, pos: nat, pc: Pc, m': Machine)
    requires Inv(m, shapes, b0) && i < |m.pcs| && (m.pcs[i].Fill? || m.pcs[i].Clear?)
    requires pos == m.pcs[i].pos < |m.bits|
    requires match m.pcs[i]
             case Fill(pages, owner, start, _) => pc == Fill(pages, owner, start, pos + 1)
             case Clear(r, _) => pc == Clear(r, pos + 1)
             case _ => true
    requires m.pcs[i].Fill? ==> pos < m.pcs[i].start + m.pcs[i].pages
    requires m.pcs[i].Clear? ==> pos < m.pcs[i].range.start + m.pcs[i].range.pages
    requires m' == At(m, i, pc).(bits := m.bits[pos := m.pcs[i].Fill?])
    ensures Inv(m', shapes, b0)
  {
    hide Exclusive, Once, SlabRuns.Inv, PageOwnership.Run, FirstFit, IsSlab;
    assert MidCall(m, m.pcs[i]) && Relies(m, m.pcs[i]);
    OwnFlags(m, i);
    ExclusiveAfter(m, i, pc, m');
    OnceKept(m.pcs, i, pc);
    var from := if pc.Fill? then pc.start else pc.range.start;
    assert m'.bits == Filled(m.done, from, pos + 1, pc.Fill?);
    SameSlabs(m, m');
    LocalStep(m, shapes, b0, i, pc, m');
  }

  // ---- the allocator's calls take effect

  /** When pmmAlloc drops its lock, the allocator has taken exactly one sequential step. */
  lemma CommitAllocIsAtomic(m: Machine, shapes: seq<Shape>, b0: seq<bool>, i: nat)
    requires Inv(m, shapes, b0) && i < |m.pcs| && m.pcs[i].Fill?
    requires m.pcs[i].pos >= m.pcs[i].start + m.pcs[i].pages || m.pcs[i].pos >= |m.bits|
    ensures var m' := CommitAlloc(m, i, m.pcs[i]);
            && TakePages(m.done, m.pcs[i].pages) == Some((m.pcs[i].start * PAGE_SIZE, m'.done))
            && PageOwnership.Run(State(b0, []), m'.log) == Some(State(m'.done, m'.owned))
    ensures m.bits == Filled(m.done, m.pcs[i].start, m.pcs[i].start + m.pcs[i].pages, true)
  {
    hide Exclusive, Once, SlabRuns.Inv, PageOwnership.Run;
    var Fill(pages, owner, start, pos) := m.pcs[i];
    assert MidCall(m, m.pcs[i]);
    assert start + pages <= |m.done|;
    assert m.bits == Filled(m.done, start, start + pages, true);
    RunOneMore(State(b0, []), m.log, PageOwnership.Alloc(pages));
  }

  /** And likewise for pmmFree. */
  lemma CommitFreeIsAtomic(m: Machine, shapes: seq<Shape>, b0: seq<bool>, i: nat)
    requires Inv(m, shapes, b0) && i < |m.pcs| && m.pcs[i].Clear?
    requires m.pcs[i].pos >= m.pcs[i].range.start + m.pcs[i].range.pages || m.pcs[i].pos >= |m.bits|
    ensures m.pcs[i].range in m.owned
    ensures var m' := CommitFree(m, i, m.pcs[i].range);
            PageOwnership.Run(State(b0, []), m'.log) == Some(State(m'.done, m'.owned))
    ensures var r := m.pcs[i].range; m.bits == Filled(m.done, r.start, r.start + r.pages, false)
  {
    hide Exclusive, Once, SlabRuns.Inv, PageOwnership.Run;
    var Clear(r, pos) := m.pcs[i];
    assert MidCall(m, m.pcs[i]) && Relies(m, m.pcs[i]);
    LogIsOwned(m, b0);
    assert m.bits == Filled(m.done, r.start, r.start + r.pages, false);
    RunOneMore(State(b0, []), m.log, PageOwnership.Free(IndexOf(m.owned, r)));
  }

  /** The run found is none of the ranges handed out, and no slab. */
  lemma FoundIsFresh(m: Machine, shapes: seq<Shape>, b0: seq<bool>, i: nat)
    requires Inv(m, shapes, b0) && i < |m.pcs| && m.pcs[i].Fill?
    ensures forall r :: r in m.owned ==> r.start != m.pcs[i].start
    ensures !IsSlab(m, m.pcs[i].start)
  {
    hide Exclusive, Once, SlabRuns.Inv, PageOwnership.Run, Owned;
    var Fill(pages, owner, start, pos) := m.pcs[i];
    assert MidCall(m, m.pcs[i]);
    LogIsOwned(m, b0);
    FirstFitFromIsLeast(m.done, pages, 0);
    assert !m.done[start];
    assert Range(start, 1) !in m.owned;
  }

  /** Slabs stay marked while the allocator's bits change, as long as no slab's bit is cleared. */
  lemma BitsMayChange(s: System, shapes: seq<Shape>, bits: seq<bool>)
    requires SlabRuns.Inv(s, shapes) && |bits| == |s.bits|
    requires forall k, p :: 0 <= k < |s.caches| && p in s.caches[k].chain && p < |bits| && s.bits[p] ==> bits[p]
    ensures SlabRuns.Inv(System(bits, s.caches, s.live), shapes)
  {
    hide Consistent, Used, TotalUsed, LiveIn, NoDuplicates;
  }

  lemma CommitAllocStep(m: Machine, shapes: seq<Shape>, b0: seq<bool>, i: nat)
    requires Inv(m, shapes, b0) && i < |m.pcs| && m.pcs[i].Fill?
    requires m.pcs[i].pos >= m.pcs[i].start + m.pcs[i].pages || m.pcs[i].pos >= |m.bits|
    ensures Inv(CommitAlloc(m, i, m.pcs[i]), shapes, b0)
  {
    hide Exclusive, SlabRuns.Inv, PageOwnership.Run, Owned, TakePages, FirstFit, FreeRun, IsSlab;
    CommitAllocIsAtomic(m, shapes, b0, i);
    var Fill(pages, owner, start, pos) := m.pcs[i];
    assert MidCall(m, m.pcs[i]) && Relies(m, m.pcs[i]);
    var m' := CommitAlloc(m, i, m.pcs[i]);
    var pc := m'.pcs[i];
    OwnFlags(m, i);
    ExclusiveAfter(m, i, pc, m');
    FoundIsFresh(m, shapes, b0, i);
    BitsMayChange(System(m.done, m.caches, m.objects), shapes, m.bits);
    forall r, j | 0 <= j < |m.pcs| && Frees(m.pcs[j], r) ensures r.start != start {
      assert Relies(m, m.pcs[j]);
    }
    forall p, j | 0 <= j < |m.pcs| && Adds(m.pcs[j], p) ensures p != start {
      assert Relies(m, m.pcs[j]);
      assert Range(p, 1) in m.owned;
    }
    OnceAfter(m.pcs, i, pc);
    assert m'.owned[|m.owned|] == Range(start, pages);
    assert forall r :: r in m.owned ==> r in m'.owned;
    SameSlabs(m, m');
    forall j | 0 <= j < |m'.pcs| ensures MidCall(m', m'.pcs[j]) && Relies(m', m'.pcs[j]) {
      if j != i {
        OthersAreOutside(m, i, j);
        assert Relies(m, m.pcs[j]);
      }
    }
  }

  lemma SameSlabs(m: Machine, m': Machine)
    requires m'.caches == m.caches
    ensures forall p :: IsSlab(m', p) <==> IsSlab(m, p)
  {
  }

  /** Clearing a range that is not a slab's clears no slab's bit. */
  lemma SlabsKeepTheirBits(m: Machine, shapes: seq<Shape>, b0: seq<bool>, r: Range)
    requires Sized(m, shapes) && Committed(m, shapes, b0) && r in m.owned && !IsSlab(m, r.start)
    ensures var bits := Filled(m.done, r.start, r.start + r.pages, false);
            SlabRuns.Inv(System(bits, m.caches, m.objects), shapes)
  {
    hide SlabRuns.Inv, PageOwnership.Run, Owned;
    LogIsOwned(m, b0);
    forall k, p | 0 <= k < |m.caches| && p in m.caches[k].chain ensures !(r.start <= p < r.start + r.pages) {
      assert IsSlab(m, p) && Range(p, 1) in m.owned;
      OwnedAreApart(b0, State(m.done, m.owned), r, Range(p, 1));
    }
    BitsMayChange(System(m.done, m.caches, m.objects), shapes, Filled(m.done, r.start, r.start + r.pages, false));
  }

  /** A range with another start than r is not r. */
  lemma SlabsStayOwned(m: Machine, r: Range)
    requires !IsSlab(m, r.start)
    ensures forall k, p :: 0 <= k < |m.caches| && p in m.caches[k].chain ==> Range(p, 1) != r
  {
    forall k, p | 0 <= k < |m.caches| && p in m.caches[k].chain ensures Range(p, 1) != r {
      assert IsSlab(m, p);
    }
  }

  lemma CommitFreeStep(m: Machine, shapes: seq<Shape>, b0: seq<bool>, i: nat)
    requires Inv(m, shapes, b0) && i < |m.pcs| && m.pcs[i].Clear?
    requires m.pcs[i].pos >= m.pcs[i].range.start + m.pcs[i].range.pages || m.pcs[i].pos >= |m.bits|
    ensures m.pcs[i].range in m.owned && Inv(CommitFree(m, i, m.pcs[i].range), shapes, b0)
  {
    hide Exclusive, SlabRuns.Inv, PageOwnership.Run, Filled, FirstFit, IsSlab;
    CommitFreeIsAtomic(m, shapes, b0, i);
    var r := m.pcs[i].range;
    assert Relies(m, m.pcs[i]) && Frees(m.pcs[i], r);
    var m' := CommitFree(m, i, r);
    OwnFlags(m, i);
    ExclusiveAfter(m, i, Idle, m');
    OnceKept(m.pcs, i, Idle);
    SlabsKeepTheirBits(m, shapes, b0, r);
    SlabsStayOwned(m, r);
    RemovedFrom(m.owned, IndexOf(m.owned, r));
    SameSlabs(m, m');
    forall j | 0 <= j < |m'.pcs| ensures MidCall(m', m'.pcs[j]) && Relies(m', m'.pcs[j]) {
      if j != i {
        OthersAreOutside(m, i, j);
        assert Relies(m, m.pcs[j]);
        if m.pcs[j].WantFree? || m.pcs[j].Clear? {
          assert Frees(m.pcs[j], m.pcs[j].range);
        }
        if m.pcs[j].AddSlab? {
          assert Adds(m.pcs[j], m.pcs[j].page);
        }
      }
    }
  }

  // ---- the caches

  /** A step that changes cache k under its lock: who else relies on anything still may. */
  lemma CacheStep(m: Machine, shapes: seq<Shape>, b0: seq<bool>, i: nat, k: nat, pc: Pc, cache: Cache,
      objects: seq<Object>)
    requires Inv(m, shapes, b0) && i < |m.pcs| && k < |m.caches| && HoldsCache(m.pcs[i], k)
    requires !HoldsPmm(m.pcs[i]) && !m.pcs[i].WantPmm?
    requires pc == Taken(k) || pc == Retry(k) || pc == Given(k)
    requires SlabRuns.Inv(System(m.done, m.caches[k := cache], objects), shapes)
    requires forall p :: p in cache.chain ==> p in m.caches[k].chain || m.pcs[i] == AddSlab(k, p)
    requires forall x :: x in m.objects && !Gives(m.pcs[i], x) ==> x in objects
    ensures Inv(WithCache(At(m, i, pc), k, cache).(objects := objects), shapes, b0)
  {
    hide SlabRuns.Inv, PageOwnership.Run;
    var m' := WithCache(At(m, i, pc), k, cache).(objects := objects);
    OwnFlags(m, i);
    assert forall j: nat :: HoldsCache(pc, j) <==> HoldsCache(m.pcs[i], j);
    ExclusiveAfter(m, i, pc, m');
    OnceKept(m.pcs, i, pc);
    assert MidCall(m, m.pcs[i]) && Relies(m, m.pcs[i]);
    SlabsAfter(m, m', k, cache, m.pcs[i]);
    hide IsSlab, Exclusive;
    forall j | 0 <= j < |m'.pcs| ensures MidCall(m', m'.pcs[j]) && Relies(m', m'.pcs[j]) {
      if j != i {
        assert MidCall(m, m.pcs[j]) && Relies(m, m.pcs[j]);
        if m.pcs[j].WantGive? || m.pcs[j].Giving? {
          assert Gives(m.pcs[j], m.pcs[j].target);
        }
        if m.pcs[j].WantFree? || m.pcs[j].Clear? {
          assert Frees(m.pcs[j], m.pcs[j].range);
        }
        if m.pcs[j].AddSlab? {
          assert Adds(m.pcs[j], m.pcs[j].page);
        }
      }
    }
  }

  lemma SlabsAfter(m: Machine, m': Machine, k: nat, cache: Cache, pc: Pc)
    requires k < |m.caches| && m'.caches == m.caches[k := cache]
    requires forall p :: p in cache.chain ==> p in m.caches[k].chain || pc == AddSlab(k, p)
    ensures forall p :: IsSlab(m', p) ==> IsSlab(m, p) || Adds(pc, p)
  {
  }

  lemma CacheLockStep(m: Machine, shapes: seq<Shape>, b0: seq<bool>, i: nat, c: Call)
    requires Inv(m, shapes, b0) && i < |m.pcs|
    requires m.pcs[i].WantCache? || m.pcs[i].WantGive? || m.pcs[i].Retry? || m.pcs[i].Taken? || m.pcs[i].Given?
    ensures Step(m, shapes, i, c).Some? && Inv(Step(m, shapes, i, c).value, shapes, b0)
  {
    hide Exclusive, Once, SlabRuns.Inv, PageOwnership.Run, IsSlab;
    assert Relies(m, m.pcs[i]);
    var m' := Step(m, shapes, i, c).value;
    if m' != m {
      OwnFlags(m, i);
      ExclusiveAfter(m, i, m'.pcs[i], m');
      OnceKept(m.pcs, i, m'.pcs[i]);
      LocalStep(m, shapes, b0, i, m'.pcs[i], m');
    }
  }

  lemma InCacheStep(m: Machine, shapes: seq<Shape>, b0: seq<bool>, i: nat, c: Call)
    requires Inv(m, shapes, b0) && i < |m.pcs| && m.pcs[i].InCache?
    ensures Step(m, shapes, i, c).Some? && Inv(Step(m, shapes, i, c).value, shapes, b0)
  {
    hide Exclusive, Once, SlabRuns.Inv, PageOwnership.Run, Take, IsSlab;
    assert Relies(m, m.pcs[i]);
    var k := m.pcs[i].cache;
    var s := System(m.done, m.caches, m.objects);
    if m.caches[k].HasFree() {
      var s' := TakeKeepsInv(s, shapes, k);
      TakesNoPage(m.caches[k]);
      CacheStep(m, shapes, b0, i, k, Taken(k), Take(m.caches[k]), s'.live);
    } else {
      var m' := Step(m, shapes, i, c).value;
      OwnFlags(m, i);
      ExclusiveAfter(m, i, m'.pcs[i], m');
      OnceKept(m.pcs, i, m'.pcs[i]);
      LocalStep(m, shapes, b0, i, m'.pcs[i], m');
    }
  }

  lemma TakesNoPage(c: Cache)
    requires c.HasFree() && c.Front() in c.chain && c.chain[c.Front()] != []
    ensures Take(c).chain.Keys == c.chain.Keys
  {
    assert c.chain[c.Front() := c.chain[c.Front()][1..]].Keys == c.chain.Keys;
  }

  lemma AddSlabStep(m: Machine, shapes: seq<Shape>, b0: seq<bool>, i: nat, c: Call)
    requires Inv(m, shapes, b0) && i < |m.pcs| && m.pcs[i].AddSlab?
    ensures Step(m, shapes, i, c).Some? && Inv(Step(m, shapes, i, c).value, shapes, b0)
  {
    hide Exclusive, Once, SlabRuns.Inv, PageOwnership.Run, Grow, Owned;
    assert Relies(m, m.pcs[i]);
    var k, p := m.pcs[i].cache, m.pcs[i].page;
    LogIsOwned(m, b0);
    assert m.done[Range(p, 1).start];
    GrowKeepsInv(System(m.done, m.caches, m.objects), shapes, k, p);
    GrownPages(m.caches[k], shapes[k].cells, p);
    CacheStep(m, shapes, b0, i, k, Retry(k), Grow(m.caches[k], shapes[k].cells, p), m.objects);
  }

  lemma GivingStep(m: Machine, shapes: seq<Shape>, b0: seq<bool>, i: nat, c: Call)
    requires Inv(m, shapes, b0) && i < |m.pcs| && m.pcs[i].Giving?
    ensures Step(m, shapes, i, c).Some? && Inv(Step(m, shapes, i, c).value, shapes, b0)
  {
    hide Exclusive, Once, SlabRuns.Inv, PageOwnership.Run, Give, IsSlab, IsLive;
    assert Relies(m, m.pcs[i]);
    var x := m.pcs[i].target;
    ObjectsAreInCaches(m, shapes, b0, x);
    var s, n := System(m.done, m.caches, m.objects), IndexOf(m.objects, x);
    FreeKeepsInv(s, shapes, n);
    RemovedFrom(m.objects, n);
    var d := Give(m.caches[x.cache], shapes[x.cache].cells, x.page, x.cell);
    GivesNoPage(m.caches[x.cache], shapes[x.cache].cells, x.page, x.cell);
    CacheStep(m, shapes, b0, i, x.cache, Given(x.cache), d, DropAt(m.objects, n));
  }

  lemma GivesNoPage(c: Cache, cells: nat, p: nat, i: nat)
    requires p in c.chain
    ensures Give(c, cells, p, i).chain.Keys == c.chain.Keys
  {
    assert c.chain[p := [i] + c.chain[p]].Keys == c.chain.Keys;
  }

  lemma StepKeepsInv(m: Machine, shapes: seq<Shape>, b0: seq<bool>, i: nat, c: Call)
    requires Inv(m, shapes, b0) && i < |m.pcs| && Sized(m, shapes) && Step(m, shapes, i, c).Some?
    ensures Inv(Step(m, shapes, i, c).value, shapes, b0)
  {
    hide Inv, MayCall, Take, Give, Grow;
    match m.pcs[i] {
      case Idle => if MayCall(m, c) { CallStep(m, shapes, b0, i, c); }
      case WantPmm(_, _) => AcquirePmmStep(m, shapes, b0, i, c);
      case Scan(_, _, _, _) => ScanStep(m, shapes, b0, i, c);
      case Fill(pages, owner, start, pos) =>
        if pos < start + pages && pos < |m.bits| {
          WriteBitStep(m, shapes, b0, i, pos, Fill(pages, owner, start, pos + 1), Step(m, shapes, i, c).value);
        } else {
          CommitAllocStep(m, shapes, b0, i);
        }
      case WantFree(_) => AcquirePmmStep(m, shapes, b0, i, c);
      case Clear(r, pos) =>
        if pos < r.start + r.pages && pos < |m.bits| {
          WriteBitStep(m, shapes, b0, i, pos, Clear(r, pos + 1), Step(m, shapes, i, c).value);
        } else {
          CommitFreeStep(m, shapes, b0, i);
        }
      case InCache(_) => InCacheStep(m, shapes, b0, i, c);
      case AddSlab(_, _) => AddSlabStep(m, shapes, b0, i, c);
      case Giving(_) => GivingStep(m, shapes, b0, i, c);
      case _ => CacheLockStep(m, shapes, b0, i, c);
    }
  }

  /**
   * A CPU's step panics only at the end of a search, and then no run of that length is free in the
   * last state with the lock free. While there is none, a search goes on bit by bit to that end.
   */
  lemma PanicsOnlyWhenFull(m: Machine, shapes: seq<Shape>, b0: seq<bool>, i: nat, c: Call)
    requires Inv(m, shapes, b0) && i < |m.pcs|
    ensures Sized(m, shapes)
    ensures Step(m, shapes, i, c).None? <==> m.pcs[i].Scan? && m.pcs[i].pos == |m.done|
    ensures m.pcs[i].Scan? && m.pcs[i].pos == |m.done| ==>
              && TakePages(m.done, m.pcs[i].pages) == None
              && forall p: nat :: !FreeRun(m.done, p, m.pcs[i].pages)
    ensures m.pcs[i].Scan? && (forall p: nat :: !FreeRun(m.done, p, m.pcs[i].pages)) && m.pcs[i].pos < |m.done| ==>
              var pc := Step(m, shapes, i, c).value.pcs[i]; pc.Scan? && pc.pos == m.pcs[i].pos + 1
  {
    hide Exclusive, Once, SlabRuns.Inv, PageOwnership.Run, FirstFitFrom, Take, Give, Grow, IsLive;
    assert MidCall(m, m.pcs[i]) && Relies(m, m.pcs[i]);
    match m.pcs[i] {
      case Scan(pages, owner, pos, start) => SearchEnds(m, shapes, b0, pages, pos, start);
      case InCache(k) =>
        if m.caches[k].HasFree() {
          var s' := TakeKeepsInv(System(m.done, m.caches, m.objects), shapes, k);
        }
      case Giving(x) => ObjectsAreInCaches(m, shapes, b0, x);
      case _ =>
    }
  }

  lemma SearchEnds(m: Machine, shapes: seq<Shape>, b0: seq<bool>, pages: nat, pos: nat, start: nat)
    requires Committed(m, shapes, b0) && pages > 0 && start <= pos <= |m.done| && pos - start < pages
    requires forall k :: start <= k < pos ==> !m.done[k]
    requires FirstFit(m.done, pages) == FirstFitFrom(m.done, pages, start)
    ensures pos == |m.done| ==> TakePages(m.done, pages) == None && forall p: nat :: !FreeRun(m.done, p, pages)
    ensures pos < |m.done| && !m.done[pos] && pos + 1 - start == pages ==> start > 0 && FreeRun(m.done, start, pages)
  {
    hide SlabRuns.Inv, PageOwnership.Run;
    FirstFitFromIsLeast(m.done, pages, 0);
    FirstFitFromIsLeast(m.done, pages, start);
    LogIsOwned(m, b0);
    PageZeroStays(m, b0);
  }

  lemma PageZeroStays(m: Machine, b0: seq<bool>)
    requires |b0| > 0 && b0[0] && Owned(b0, State(m.done, m.owned))
    ensures |m.done| > 0 && m.done[0]
  {
  }

  /** One turn: which CPU moves, and what it calls if it is idle. */
  datatype Turn = Turn(cpu: nat, call: Call)

  ghost function Play(m: Machine, shapes: seq<Shape>, turns: seq<Turn>): Option<Machine>
    requires Sized(m, shapes) && forall k :: 0 <= k < |turns| ==> turns[k].cpu < |m.pcs|
    decreases |turns|
  {
    if turns == [] then Some(m)
    else match Step(m, shapes, turns[0].cpu, turns[0].call)
      case None => None
      case Some(m') => Play(m', shapes, turns[1..])
  }

  /**
   * In every interleaving: each lock has one holder at most; the allocator is always in, or one
   * critical section away from, the state that its completed calls give when run one after
   * another; and the caches with all objects handed out are a state of their sequential runs.
   */
  lemma {:induction false} EveryInterleavingKeepsInv(m: Machine, shapes: seq<Shape>, b0: seq<bool>, turns: seq<Turn>)
    requires Inv(m, shapes, b0) && Sized(m, shapes) && forall k :: 0 <= k < |turns| ==> turns[k].cpu < |m.pcs|
    requires Play(m, shapes, turns).Some?
    ensures Inv(Play(m, shapes, turns).value, shapes, b0)
    decreases |turns|
  {
    hide Inv, Step;
    if turns != [] {
      StepKeepsInv(m, shapes, b0, turns[0].cpu, turns[0].call);
      EveryInterleavingKeepsInv(Step(m, shapes, turns[0].cpu, turns[0].call).value, shapes, b0, turns[1..]);
    }
  }

  /** At start-up nothing is held and every CPU is idle. */
  lemma StartIsGood(b0: seq<bool>, shapes: seq<Shape>, cpus: nat)
    requires |b0| > 0 && b0[0] && forall k :: 0 <= k < |shapes| ==> shapes[k].Fits()
    ensures Inv(Machine(b0, false, seq(|shapes|, _ => Cache([], [], [], map[])), seq(|shapes|, _ => false),
                        seq(cpus, _ => Idle), [], b0, [], []), shapes, b0)
  {
    hide SlabRuns.Inv;
    FreshCaches(b0, shapes);
  }

  /** So in every reachable state the ranges handed out are disjoint and were free at start-up ... */
  lemma RangesStayDisjoint(m: Machine, shapes: seq<Shape>, b0: seq<bool>, i: nat, j: nat)
    requires Inv(m, shapes, b0) && i < j < |m.owned|
    ensures Apart(m.owned[i], m.owned[j])
    ensures FreeRun(b0, m.owned[i].start, m.owned[i].pages)
  {
    hide Exclusive, Once, SlabRuns.Inv;
    LogIsOwned(m, b0);
  }

  /** ... and no two objects that any CPUs have been handed share a byte, nor do objects and other ranges. */
  lemma ObjectsStayDisjoint(m: Machine, shapes: seq<Shape>, b0: seq<bool>, i: nat, j: nat)
    requires Inv(m, shapes, b0) && i < |m.objects| && j < |m.objects| && i != j
    ensures m.objects[i].cache < |shapes| && m.objects[j].cache < |shapes|
    ensures || EndByte(shapes, m.objects[i]) <= FirstByte(shapes, m.objects[j])
            || EndByte(shapes, m.objects[j]) <= FirstByte(shapes, m.objects[i])
    ensures Range(m.objects[i].page, 1) in m.owned
    ensures FirstByte(shapes, m.objects[i]) / 4096 == m.objects[i].page
    ensures EndByte(shapes, m.objects[i]) <= 4096 * m.objects[i].page + 4096
  {
    hide Exclusive, Once, SlabRuns.Inv, PageOwnership.Run, IsLive;
    var s := System(m.done, m.caches, m.objects);
    assert s.live[i] in s.live;
    ObjectsAreDisjoint(s, shapes, i, j);
    ObjectsAreInCaches(m, shapes, b0, m.objects[i]);
    ObjectInItsPage(s, shapes, m.objects[i]);
  }

  /** Each lock has at most one holder. */
  lemma OneHolder(m: Machine, shapes: seq<Shape>, b0: seq<bool>, i: nat, j: nat, k: nat)
    requires Inv(m, shapes, b0) && i < |m.pcs| && j < |m.pcs| && k < |m.caches|
    ensures HoldsPmm(m.pcs[i]) && HoldsPmm(m.pcs[j]) ==> i == j
    ensures HoldsCache(m.pcs[i], k) && HoldsCache(m.pcs[j], k) ==> i == j
  {
    hide Once, SlabRuns.Inv, PageOwnership.Run, HoldsCache;
    assert ExclusiveIn(m.pcs, m.cacheFlags[k], k);
  }
}
