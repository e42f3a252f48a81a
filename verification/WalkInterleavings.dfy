/**
 * N CPUs inside vmmMap and vmmUnmap at once, while others take, fill and give back pages. Filling
 * an upper slot takes a page, clears it word by word and links it, all under the walk lock; the
 * store to the last-level table comes after the lock has been dropped. pmmAlloc and pmmFree are one
 * step each, which Interleavings shows them to be.
 */
module WalkInterleavings {
  import opened Words
  import opened Options
  import opened Sequences
  import opened Ram
  import opened Paging
  import BitSeq
  import opened PageOwnership
  import opened PageTables
  import opened Mapping
  import VmRuns

  /** A page to find the entry of, the word to store there, and how missing tables are made, if they are. */
  datatype Job = Job(page: nat, word: u64, allocate: bool, flags: VmRuns.Flags)

  type Upper = l: nat | 2 <= l <= 4 witness 4

  /** Where a CPU is; `f` is the table of this level on the way to the job's page. */
  datatype Pc =
    | Idle
    | Want(job: Job)
    | Test(job: Job, level: Upper, f: nat)
    | NeedPage(job: Job, level: Upper, f: nat)
    | Clear(job: Job, level: Upper, f: nat, c: nat, pos: nat)
    | Link(job: Job, level: Upper, f: nat, c: nat)
    | Follow(job: Job, level: Upper, f: nat)
    | Release(job: Job, found: Option<nat>)
    | Store(job: Job, f: nat)

  datatype Call =
    | MapCall(virt: u64, phys: u64, flags: VmRuns.Flags)
    | UnmapCall(virt: u64)
    | TakeCall(pages: nat)
    | GiveCall(range: Range)
    | DataCall(frame: nat, slot: nat, word: u64)

  datatype Stored = Stored(page: nat, word: u64)

  /**
   * Page allocator and memory, the walk lock's flag, and the CPUs. `live` lists the ranges that the
   * allocator has handed out and that are no tables; `log` the stores to last-level tables so far.
   */
  datatype Machine = Machine(k: Kernel, flag: bool, pcs: seq<Pc>, live: seq<Range>, log: seq<Stored>)

  predicate HoldsWalk(pc: Pc) {
    !pc.Idle? && !pc.Want? && !pc.Store?
  }

  /** A page taken for a table and not yet linked. */
  predicate Pends(pc: Pc, c: nat) {
    (pc.Clear? || pc.Link?) && pc.c == c
  }

  ghost predicate IsPending(m: Machine, p: nat) {
    exists i :: 0 <= i < |m.pcs| && Pends(m.pcs[i], p)
  }

  /** What a caller may ask for: only memory that is its own to store to or to give back. */
  ghost predicate MayCall(m: Machine, c: Call) {
    match c
    case MapCall(_, _, _) => true
    case UnmapCall(_) => true
    case TakeCall(pages) => pages > 0
    case GiveCall(r) => r in m.live && !IsPending(m, r.start)
    case DataCall(frame, slot, _) => InSome(m.live, frame) && !IsPending(m, frame) && slot < 512
  }

  function JobOf(c: Call): Job
    requires c.MapCall? || c.UnmapCall?
  {
    match c
    case MapCall(virt, phys, flags) => Job(Page(virt), Pte(phys, flags), true, flags)
    case UnmapCall(virt) => Job(Page(virt), 0, false, 0)
  }

  function At(m: Machine, i: nat, pc: Pc): (m': Machine)
    requires i < |m.pcs|
    ensures |m'.pcs| == |m.pcs|
  {
    m.(pcs := m.pcs[i := pc])
  }

  function WithRam(m: Machine, ram: seq<u64>): Machine {
    m.(k := m.k.(ram := ram))
  }

  /** Takes pages for CPU i, which goes on at `next(first)`. */
  function Taking(m: Machine, pages: nat): Option<(Machine, nat)> {
    match TakePages(m.k.bits, pages)
    case None => None
    case Some((addr, bits)) =>
      Some((m.(k := m.k.(bits := bits), live := m.live + [Range(addr / PAGE_SIZE, pages)]), addr / PAGE_SIZE))
  }

  function Giving(m: Machine, r: Range): Machine
    requires r in m.live
  {
    m.(k := m.k.(bits := BitSeq.Filled(m.k.bits, r.start, r.start + r.pages, false)),
       live := DropAt(m.live, IndexOf(m.live, r)))
  }

  /** A call as it begins; what touches no table is done at once. */
  function Begin(m: Machine, i: nat, c: Call): (r: Option<Machine>)
    requires i < |m.pcs| && (c.GiveCall? ==> c.range in m.live)
    ensures r.Some? ==> |r.value.pcs| == |m.pcs|
  {
    match c
    case TakeCall(pages) => (match Taking(m, pages) case None => None case Some((m', _)) => Some(m'))
    case GiveCall(r) => Some(Giving(m, r))
    case DataCall(frame, slot, word) => Some(WithRam(m, SetEntry(m.k.ram, frame, slot, word)))
    case _ => Some(At(m, i, Want(JobOf(c))))
  }

  /**
   * The next step of CPU i; an idle one makes the call `c`. A CPU that finds the flag set stays
   * where it is. None when memory has run out, and when a walk reads through a null table.
   */
  ghost function Step(m: Machine, root: nat, i: nat, c: Call): (r: Option<Machine>)
    requires i < |m.pcs|
    ensures r.Some? ==> |r.value.pcs| == |m.pcs|
  {
    match m.pcs[i]
    case Idle => if MayCall(m, c) then Begin(m, i, c) else Some(m)
    case Want(job) => if m.flag then Some(m) else Some(At(m.(flag := true), i, Test(job, 4, root)))
    case Test(job, level, f) =>
      if job.allocate && Entry(m.k.ram, f, Index(job.page, level)) == 0
      then Some(At(m, i, NeedPage(job, level, f))) else Some(At(m, i, Follow(job, level, f)))
    case NeedPage(job, level, f) =>
      (match Taking(m, 1)
       case None => None
       case Some((m', page)) => Some(At(m', i, Clear(job, level, f, page, 0))))
    case Clear(job, level, f, page, pos) =>
      if pos < 512
      then Some(At(WithRam(m, SetEntry(m.k.ram, page, pos, 0)), i, Clear(job, level, f, page, pos + 1)))
      else Some(At(m, i, Link(job, level, f, page)))
    case Link(job, level, f, page) =>
      if page >= FRAME_LIMIT || Range(page, 1) !in m.live then None
      else
        var ram := SetEntry(m.k.ram, f, Index(job.page, level), Pte(4096 * page, job.flags));
        Some(At(WithRam(m, ram).(live := DropAt(m.live, IndexOf(m.live, Range(page, 1)))), i, Follow(job, level, f)))
    case Follow(job, level, f) =>
      (match Child(m.k.ram, f, Index(job.page, level))
       case None => if level == 2 then Some(At(m, i, Release(job, None))) else None
       case Some(g) => Some(At(m, i, if level == 2 then Release(job, Some(g)) else Test(job, level - 1, g))))
    case Release(job, found) =>
      Some(At(m.(flag := false), i, match found case None => Idle case Some(g) => Store(job, g)))
    case Store(job, f) =>
      var m' := WithRam(m, SetEntry(m.k.ram, f, Index(job.page, 1), job.word));
      Some(At(m'.(log := m.log + [Stored(job.page, job.word)]), i, Idle))
  }

  // ---- what every CPU may rely on

  /** The flag is set exactly while one CPU, and no other, is between taking the lock and dropping it. */
  ghost predicate Exclusive(pcs: seq<Pc>, flag: bool) {
    && (flag <==> exists i :: 0 <= i < |pcs| && HoldsWalk(pcs[i]))
    && (forall i, j :: 0 <= i < |pcs| && 0 <= j < |pcs| && HoldsWalk(pcs[i]) && HoldsWalk(pcs[j]) ==> i == j)
  }

  /** The page taken for a table is held by its CPU, and cleared up to here. */
  predicate Cleared(m: Machine, c: nat, pos: nat) {
    && Range(c, 1) in m.live
    && pos <= 512
    && forall j: nat :: j < pos ==> Entry(m.k.ram, c, j) == 0
  }

  predicate AtTable(t: Tables, job: Job, level: Upper, f: nat) {
    job.page < PAGES && Stands(t, f, job.page, level)
  }

  predicate AtEmptySlot(m: Machine, t: Tables, job: Job, level: Upper, f: nat) {
    AtTable(t, job, level, f) && job.allocate && Entry(m.k.ram, f, Index(job.page, level)) == 0
  }

  predicate AtLeaf(t: Tables, job: Job, f: nat) {
    job.page < PAGES && Stands(t, f, job.page, 1)
  }

  predicate Relies(m: Machine, t: Tables, pc: Pc) {
    match pc
    case Idle => true
    case Want(job) => job.page < PAGES
    case Test(job, level, f) => AtTable(t, job, level, f)
    case NeedPage(job, level, f) => AtEmptySlot(m, t, job, level, f)
    case Clear(job, level, f, c, pos) => AtEmptySlot(m, t, job, level, f) && Cleared(m, c, pos)
    case Link(job, level, f, c) => AtEmptySlot(m, t, job, level, f) && Cleared(m, c, 512)
    case Follow(job, level, f) =>
      AtTable(t, job, level, f) && (job.allocate ==> Entry(m.k.ram, f, Index(job.page, level)) != 0)
    case Release(job, found) =>
      && job.page < PAGES
      && (match found case None => !job.allocate case Some(g) => AtLeaf(t, job, g))
    case Store(job, f) => AtLeaf(t, job, f)
  }

  /** The last word stored for page u, or what was there before. */
  function LastStored(log: seq<Stored>, u: nat, before: u64): u64
    decreases |log|
  {
    if log == [] then before
    else if log[|log| - 1].page == u then log[|log| - 1].word
    else LastStored(log[..|log| - 1], u, before)
  }

  /** Every page's entry is the one last stored for it, with memory as `first` to begin with. */
  ghost predicate EntriesAreLast(ram: seq<u64>, root: nat, log: seq<Stored>, first: seq<u64>) {
    forall u: nat :: u < PAGES ==> Translate(ram, root, u) == LastStored(log, u, Translate(first, root, u))
  }

  function SystemOf(m: Machine): VmRuns.System {
    VmRuns.System(m.k, m.live)
  }

  /**
   * The tables are an unshared tree on used frames that are no one's data, no page is lost, every
   * entry is the last one stored, and every CPU finds what it relies on.
   */
  ghost predicate Inv(m: Machine, root: nat, t: Tables, b: seq<bool>, first: seq<u64>) {
    && VmRuns.Inv(SystemOf(m), root, t, b)
    && EntriesAreLast(m.k.ram, root, m.log, first)
    && Exclusive(m.pcs, m.flag)
    && forall i :: 0 <= i < |m.pcs| ==> Relies(m, t, m.pcs[i])
  }

  // ---- what a step leaves to the other CPUs

  lemma ExclusiveAfter(pcs: seq<Pc>, flag: bool, i: nat, pc: Pc, flag': bool)
    requires Exclusive(pcs, flag) && i < |pcs|
    requires HoldsWalk(pc) ==> HoldsWalk(pcs[i]) || !flag
    requires flag' == if HoldsWalk(pc) then true else if HoldsWalk(pcs[i]) then false else flag
    ensures Exclusive(pcs[i := pc], flag')
  {
    var pcs' := pcs[i := pc];
    forall j | 0 <= j < |pcs'| && j != i ensures pcs'[j] == pcs[j] { }
    if HoldsWalk(pc) {
      assert HoldsWalk(pcs'[i]);
    } else if flag' {
      var j :| 0 <= j < |pcs| && HoldsWalk(pcs[j]);
      assert j != i && HoldsWalk(pcs'[j]);
    }
  }

  /** Upper entries stay, and so does the page that this CPU holds for a table. */
  ghost predicate WalkKept(m: Machine, t: Tables, m': Machine, pc: Pc) {
    && (forall f, i: nat :: f in t && t[f].level >= 2 && i < 512 ==> Entry(m'.k.ram, f, i) == Entry(m.k.ram, f, i))
    && (forall c: nat :: Pends(pc, c) ==> PageKept(m, m', c))
  }

  predicate PageKept(m: Machine, m': Machine, c: nat) {
    && (Range(c, 1) in m.live ==> Range(c, 1) in m'.live)
    && forall j: nat :: j < 512 ==> Entry(m'.k.ram, c, j) == Entry(m.k.ram, c, j)
  }

  ghost predicate Grown(t: Tables, t': Tables) {
    forall f :: f in t ==> f in t' && t'[f] == t[f]
  }

  lemma ReliesStill(m: Machine, t: Tables, m': Machine, t': Tables, pc: Pc)
    requires Relies(m, t, pc) && Grown(t, t') && (HoldsWalk(pc) ==> WalkKept(m, t, m', pc))
    ensures Relies(m', t', pc)
  {
    hide Entry, Index, Prefix, PAGES;
    if pc.Clear? || pc.Link? { assert Pends(pc, pc.c); }
  }

  /** The invariant after CPU i has moved, once its own new place and the shared state are seen to be right. */
  lemma InvAfter(m: Machine, root: nat, t: Tables, b: seq<bool>, first: seq<u64>, i: nat, pc: Pc,
                 m': Machine, t': Tables, b': seq<bool>)
    requires Inv(m, root, t, b, first) && i < |m.pcs| && m'.pcs == m.pcs[i := pc]
    requires VmRuns.Inv(SystemOf(m'), root, t', b') && EntriesAreLast(m'.k.ram, root, m'.log, first)
    requires Exclusive(m'.pcs, m'.flag) && Relies(m', t', pc) && Grown(t, t')
    requires forall j :: 0 <= j < |m.pcs| && j != i && HoldsWalk(m.pcs[j]) ==> WalkKept(m, t, m', m.pcs[j])
    ensures Inv(m', root, t', b', first)
  {
    hide VmRuns.Inv, EntriesAreLast, Exclusive, Relies, WalkKept, Grown;
    forall j | 0 <= j < |m'.pcs| ensures Relies(m', t', m'.pcs[j]) {
      if j != i { ReliesStill(m, t, m', t', m.pcs[j]); }
    }
  }

  /** A step that only moves the CPU, and perhaps the flag. */
  lemma LocalStep(m: Machine, root: nat, t: Tables, b: seq<bool>, first: seq<u64>, i: nat, pc: Pc, flag: bool)
    requires Inv(m, root, t, b, first) && i < |m.pcs| && Relies(m, t, pc)
    requires HoldsWalk(pc) ==> HoldsWalk(m.pcs[i]) || !m.flag
    requires flag == if HoldsWalk(pc) then true else if HoldsWalk(m.pcs[i]) then false else m.flag
    ensures Inv(At(m.(flag := flag), i, pc), root, t, b, first)
  {
    hide VmRuns.Inv, EntriesAreLast, Exclusive, Entry;
    var m' := At(m.(flag := flag), i, pc);
    ExclusiveAfter(m.pcs, m.flag, i, pc, flag);
    assert SystemOf(m') == SystemOf(m);
    RelyOnSame(m, t, m', pc);
    InvAfter(m, root, t, b, first, i, pc, m', t, b);
  }

  lemma RelyOnSame(m: Machine, t: Tables, m': Machine, pc: Pc)
    requires Relies(m, t, pc) && m'.k == m.k && m'.live == m.live
    ensures Relies(m', t, pc)
  {
  }

  // ---- taking, giving back and filling pages

  lemma TakingKeeps(m: Machine, root: nat, t: Tables, b: seq<bool>, pages: nat)
    requires VmRuns.Inv(SystemOf(m), root, t, b) && pages > 0 && Taking(m, pages).Some?
    ensures var (m', p) := Taking(m, pages).value;
            && VmRuns.Inv(SystemOf(m'), root, t, b)
            && m'.k.ram == m.k.ram && m'.live == m.live + [Range(p, pages)]
  {
    hide Good, Owned, TakePages, VmRuns.Inv, VmRuns.Stepped;
    VmRuns.InvIsSized(SystemOf(m), root, t, b);
    var s' := VmRuns.StepTakesOrGives(SystemOf(m), root, t, b, VmRuns.TakeOp(pages));
  }

  lemma GivingKeeps(m: Machine, root: nat, t: Tables, b: seq<bool>, r: Range)
    requires VmRuns.Inv(SystemOf(m), root, t, b) && r in m.live
    ensures VmRuns.Inv(SystemOf(Giving(m, r)), root, t, b)
  {
    hide Good, Owned, TakePages, VmRuns.Inv, VmRuns.Stepped;
    VmRuns.InvIsSized(SystemOf(m), root, t, b);
    var s' := VmRuns.StepTakesOrGives(SystemOf(m), root, t, b, VmRuns.GiveBackOp(IndexOf(m.live, r)));
  }

  /** A word stored to a page that is live: the tables and the entries stay. */
  lemma DataKeeps(m: Machine, root: nat, t: Tables, b: seq<bool>, first: seq<u64>, g: nat, j: nat, w: u64)
    requires VmRuns.Inv(SystemOf(m), root, t, b) && EntriesAreLast(m.k.ram, root, m.log, first)
    requires InSome(m.live, g) && j < 512
    ensures var m' := WithRam(m, SetEntry(m.k.ram, g, j, w));
            && VmRuns.Inv(SystemOf(m'), root, t, b) && EntriesAreLast(m'.k.ram, root, m.log, first)
    ensures g !in t && HasFrame(m.k.ram, g)
  {
    hide Good, Owned, VmRuns.Inv, Translate, SetEntry, BitSeq.FreeCount, TotalPages, Entry, PAGES;
    VmRuns.InvIsSized(SystemOf(m), root, t, b);
    VmRuns.TablesAreNotData(SystemOf(m), root, t, b, g);
    var op := VmRuns.StoreOp(g, j, w);
    var s' := VmRuns.StepStores(SystemOf(m), root, t, b, op);
    VmRuns.EffectOfOne(op);
  }

  lemma TakeCallStep(m: Machine, root: nat, t: Tables, b: seq<bool>, first: seq<u64>, i: nat, pages: nat)
    requires Inv(m, root, t, b, first) && i < |m.pcs| && m.pcs[i].Idle? && pages > 0 && Taking(m, pages).Some?
    ensures Inv(Taking(m, pages).value.0, root, t, b, first)
  {
    hide VmRuns.Inv, EntriesAreLast, Entry, TakePages, Exclusive;
    TakingKeeps(m, root, t, b, pages);
    var m' := Taking(m, pages).value.0;
    assert m.pcs == m.pcs[i := Idle];
    InvAfter(m, root, t, b, first, i, Idle, m', t, b);
  }

  lemma GiveCallStep(m: Machine, root: nat, t: Tables, b: seq<bool>, first: seq<u64>, i: nat, r: Range)
    requires Inv(m, root, t, b, first) && i < |m.pcs| && m.pcs[i].Idle? && MayCall(m, GiveCall(r))
    ensures Inv(Giving(m, r), root, t, b, first)
  {
    hide VmRuns.Inv, EntriesAreLast, Entry, TakePages, Exclusive, DropAt, BitSeq.Filled;
    GivingKeeps(m, root, t, b, r);
    RemovedFrom(m.live, IndexOf(m.live, r));
    assert m.pcs == m.pcs[i := Idle];
    InvAfter(m, root, t, b, first, i, Idle, Giving(m, r), t, b);
  }

  lemma DataCallStep(m: Machine, root: nat, t: Tables, b: seq<bool>, first: seq<u64>, i: nat, c: Call)
    requires Inv(m, root, t, b, first) && i < |m.pcs| && m.pcs[i].Idle? && c.DataCall? && MayCall(m, c)
    ensures Inv(WithRam(m, SetEntry(m.k.ram, c.frame, c.slot, c.word)), root, t, b, first)
  {
    hide VmRuns.Inv, EntriesAreLast, Entry, SetEntry, Exclusive, InSome;
    DataKeeps(m, root, t, b, first, c.frame, c.slot, c.word);
    assert m.pcs == m.pcs[i := Idle];
    var m' := WithRam(m, SetEntry(m.k.ram, c.frame, c.slot, c.word));
    OtherFrames(m.k.ram, c.frame, c.slot, c.word);
    InvAfter(m, root, t, b, first, i, Idle, m', t, b);
  }

  lemma OtherFrames(ram: seq<u64>, g: nat, j: nat, w: u64)
    ensures forall f: nat, i: nat :: i < 512 && f != g ==> Entry(SetEntry(ram, g, j, w), f, i) == Entry(ram, f, i)
  {
  }

  /** The walk lock's holder is the only CPU that others need not leave upper entries alone for. */
  lemma OthersAreOutside(m: Machine, i: nat, j: nat)
    requires Exclusive(m.pcs, m.flag) && i < |m.pcs| && j < |m.pcs| && i != j && HoldsWalk(m.pcs[i])
    ensures !HoldsWalk(m.pcs[j]) && m.flag
  {
  }

  /** A step of the lock's holder needs to keep nothing for the others but the tables' places. */
  lemma HolderStep(m: Machine, root: nat, t: Tables, b: seq<bool>, first: seq<u64>, i: nat, pc: Pc,
                   m': Machine, t': Tables, b': seq<bool>)
    requires Inv(m, root, t, b, first) && i < |m.pcs| && HoldsWalk(m.pcs[i]) && HoldsWalk(pc)
    requires m'.pcs == m.pcs[i := pc] && m'.flag == m.flag
    requires VmRuns.Inv(SystemOf(m'), root, t', b') && EntriesAreLast(m'.k.ram, root, m'.log, first)
    requires Relies(m', t', pc) && Grown(t, t')
    ensures Inv(m', root, t', b', first)
  {
    hide VmRuns.Inv, EntriesAreLast, Exclusive, Relies, Grown, WalkKept;
    forall j | 0 <= j < |m.pcs| && j != i ensures !HoldsWalk(m.pcs[j]) {
      OthersAreOutside(m, i, j);
    }
    FlagOfHolder(m, i);
    ExclusiveAfter(m.pcs, m.flag, i, pc, m'.flag);
    InvAfter(m, root, t, b, first, i, pc, m', t', b');
  }

  lemma FlagOfHolder(m: Machine, i: nat)
    requires Exclusive(m.pcs, m.flag) && i < |m.pcs| && HoldsWalk(m.pcs[i])
    ensures m.flag
  {
  }

  lemma NeedPageStep(m: Machine, root: nat, t: Tables, b: seq<bool>, first: seq<u64>, i: nat, c: Call)
    requires Inv(m, root, t, b, first) && i < |m.pcs| && m.pcs[i].NeedPage? && Step(m, root, i, c).Some?
    ensures Inv(Step(m, root, i, c).value, root, t, b, first)
  {
    hide VmRuns.Inv, EntriesAreLast, Exclusive, Entry, TakePages, Index;
    var pc := m.pcs[i];
    TakingKeeps(m, root, t, b, 1);
    var (m1, page) := Taking(m, 1).value;
    var next := Clear(pc.job, pc.level, pc.f, page, 0);
    assert m1.live[|m.live|] == Range(page, 1);
    assert Relies(m, t, pc);
    HolderStep(m, root, t, b, first, i, next, At(m1, i, next), t, b);
  }

  lemma ClearStep(m: Machine, root: nat, t: Tables, b: seq<bool>, first: seq<u64>, i: nat, c: Call)
    requires Inv(m, root, t, b, first) && i < |m.pcs| && m.pcs[i].Clear?
    ensures Step(m, root, i, c).Some? && Inv(Step(m, root, i, c).value, root, t, b, first)
  {
    hide VmRuns.Inv, EntriesAreLast, Exclusive, SetEntry, Index;
    var pc := m.pcs[i];
    assert Relies(m, t, pc);
    if pc.pos < 512 {
      var m1 := WithRam(m, SetEntry(m.k.ram, pc.c, pc.pos, 0));
      var next := Clear(pc.job, pc.level, pc.f, pc.c, pc.pos + 1);
      LivePageInSome(m.live, pc.c);
      DataKeeps(m, root, t, b, first, pc.c, pc.pos, 0);
      OneMoreCleared(m, t, pc, m1);
      HolderStep(m, root, t, b, first, i, next, At(m1, i, next), t, b);
    } else {
      LocalStep(m, root, t, b, first, i, Link(pc.job, pc.level, pc.f, pc.c), m.flag) by { FlagOfHolder(m, i); }
    }
  }

  lemma LivePageInSome(live: seq<Range>, c: nat)
    requires Range(c, 1) in live
    ensures InSome(live, c)
  {
    var i :| 0 <= i < |live| && live[i] == Range(c, 1);
    assert InRange(live[i], c);
  }

  lemma OneMoreCleared(m: Machine, t: Tables, pc: Pc, m1: Machine)
    requires pc.Clear? && Relies(m, t, pc) && pc.pos < 512 && pc.c !in t && HasFrame(m.k.ram, pc.c)
    requires m1 == WithRam(m, SetEntry(m.k.ram, pc.c, pc.pos, 0))
    ensures AtEmptySlot(m1, t, pc.job, pc.level, pc.f) && Cleared(m1, pc.c, pc.pos + 1)
  {
    hide Index, Entry, SetEntry, Prefix;
    forall f: nat, j: nat | j < 512
      ensures Entry(m1.k.ram, f, j) == if f == pc.c && j == pc.pos then 0 else Entry(m.k.ram, f, j)
    {
      EntryAfterSet(m.k.ram, pc.c, pc.pos, 0, f, j);
    }
  }

  // ---- linking a table

  /** A held page that becomes a table: reserved from now on instead of live. */
  lemma HeldBecomesReserved(b: seq<bool>, s: State, i: nat)
    requires Owned(b, s) && i < |s.live| && s.live[i].pages == 1
    ensures s.live[i].start < |b|
    ensures Owned(b[s.live[i].start := true], State(s.bits, DropAt(s.live, i)))
    ensures BitSeq.FreeCount(b[s.live[i].start := true]) == BitSeq.FreeCount(b) - 1
  {
    hide BitSeq.FreeCount, TotalPages;
    var r := s.live[i];
    OwnedAreInside(b, s, r);
    assert BitSeq.FreeRun(b, s.live[i].start, s.live[i].pages);
    ReservedSeparates(b, s, i);
    ReservedAccounts(b, s, i);
    BitSeq.FreeCountFlip(b, r.start);
    TotalOfRemove(s.live, i);
  }

  lemma ReservedSeparates(b: seq<bool>, s: State, i: nat)
    requires Separate(b, s.live) && i < |s.live| && s.live[i].pages == 1 && s.live[i].start < |b|
    ensures Separate(b[s.live[i].start := true], DropAt(s.live, i))
  {
    var r, live := s.live[i], DropAt(s.live, i);
    forall j | 0 <= j < |live| ensures BitSeq.FreeRun(b[r.start := true], live[j].start, live[j].pages) {
      if j < i {
        assert Apart(s.live[j], s.live[i]);
      } else {
        assert live[j] == s.live[j + 1] && Apart(s.live[i], s.live[j + 1]);
      }
      assert BitSeq.FreeRun(b, live[j].start, live[j].pages);
    }
  }

  lemma ReservedAccounts(b: seq<bool>, s: State, i: nat)
    requires Separate(b, s.live) && Accounted(b, s) && i < |s.live| && s.live[i].pages == 1 && s.live[i].start < |b|
    ensures Accounted(b[s.live[i].start := true], State(s.bits, DropAt(s.live, i)))
  {
    hide InSome, BitSeq.FreeRun;
    forall q: nat | q < |b| ensures s.bits[q] == (b[s.live[i].start := true][q] || InSome(DropAt(s.live, i), q)) {
      PagesWithout(s.live, i, q);
      if q == s.live[i].start { LiveIsInSome(s.live, i, q); }
    }
  }

  lemma ClearedIsZeroed(ram: seq<u64>, c: nat)
    requires HasFrame(ram, c) && forall j: nat :: j < 512 ==> Entry(ram, c, j) == 0
    ensures ZeroedPages(ram, c, 1) == ram
  {
    forall k | 512 * c <= k < 512 * c + 512 ensures ram[k] == 0 {
      assert Entry(ram, c, k - 512 * c) == ram[k];
    }
  }

  /** A cleared page linked into an empty slot is a table like any other, and no entry changes. */
  lemma LinkKeeps(k: Kernel, root: nat, t: Tables, f: nat, i: nat, c: nat, flags: VmRuns.Flags)
    requires Good(k, root, t) && f in t && t[f].level >= 2 && i < 512 && Entry(k.ram, f, i) == 0
    requires c < |k.bits| && k.bits[c] && c !in t && HasFrame(k.ram, c) && c < FRAME_LIMIT
    requires forall j: nat :: j < 512 ==> Entry(k.ram, c, j) == 0
    ensures var k', t' := k.(ram := SetEntry(k.ram, f, i, Pte(4096 * c, flags))), t[c := Below(t[f], i)];
            && Good(k', root, t') && Grown(t, t')
            && SameTranslations(k.ram, k'.ram, root)
  {
    hide Tree, Entry, SetEntry, Pte, Translate, PAGES;
    ClearedIsZeroed(k.ram, c);
    TableIsInMemory(k, root, t, f);
    assert Linked(k.ram, f, i, c, flags) == SetEntry(k.ram, f, i, Pte(4096 * c, flags));
    LinkKeepsTree(k.ram, root, t, f, i, c, flags);
    forall v: nat | v < PAGES
      ensures Translate(SetEntry(k.ram, f, i, Pte(4096 * c, flags)), root, v) == Translate(k.ram, root, v)
    {
      LinkKeepsTranslations(k.ram, root, t, f, i, c, flags, v);
    }
  }

  /** The held page is live, in memory, and no table. */
  lemma HeldPage(m: Machine, root: nat, t: Tables, b: seq<bool>, c: nat)
    requires VmRuns.Inv(SystemOf(m), root, t, b) && Range(c, 1) in m.live
    ensures c !in t && c < |m.k.bits| && m.k.bits[c] && HasFrame(m.k.ram, c) && c < FRAME_LIMIT
  {
    hide Good, Owned;
    LivePageInSome(m.live, c);
    VmRuns.TablesAreNotData(SystemOf(m), root, t, b, c);
    VmRuns.InvIsSized(SystemOf(m), root, t, b);
  }

  lemma LinkedSystem(m: Machine, root: nat, t: Tables, b: seq<bool>, pc: Pc)
    requires VmRuns.Inv(SystemOf(m), root, t, b) && pc.Link? && Relies(m, t, pc)
    ensures pc.c < FRAME_LIMIT && pc.c < |b|
    ensures var ram := SetEntry(m.k.ram, pc.f, Index(pc.job.page, pc.level), Pte(4096 * pc.c, pc.job.flags));
            var t', b' := t[pc.c := Below(t[pc.f], Index(pc.job.page, pc.level))], b[pc.c := true];
            var live' := DropAt(m.live, IndexOf(m.live, Range(pc.c, 1)));
            && VmRuns.Inv(VmRuns.System(m.k.(ram := ram), live'), root, t', b')
            && Grown(t, t') && SameTranslations(m.k.ram, ram, root)
            && Entry(ram, pc.f, Index(pc.job.page, pc.level)) != 0
            && BitSeq.FreeCount(b') + |t'| == BitSeq.FreeCount(b) + |t|
  {
    hide Tree, Entry, SetEntry, Pte, Translate, PAGES, Owned, Index, Prefix, DropAt, SameTranslations, BitSeq.FreeCount;
    HeldPage(m, root, t, b, pc.c);
    TableIsInMemory(m.k, root, t, pc.f);
    FrameOfPte(pc.c, pc.job.flags);
    EntryAfterSet(m.k.ram, pc.f, Index(pc.job.page, pc.level), Pte(4096 * pc.c, pc.job.flags),
                  pc.f, Index(pc.job.page, pc.level));
    LinkKeeps(m.k, root, t, pc.f, Index(pc.job.page, pc.level), pc.c, pc.job.flags);
    HeldBecomesReserved(b, State(m.k.bits, m.live), IndexOf(m.live, Range(pc.c, 1)));
  }

  lemma LinkStep(m: Machine, root: nat, t: Tables, b: seq<bool>, first: seq<u64>, i: nat, c: Call)
    returns (t': Tables, b': seq<bool>)
    requires Inv(m, root, t, b, first) && i < |m.pcs| && m.pcs[i].Link?
    ensures Step(m, root, i, c).Some? && Inv(Step(m, root, i, c).value, root, t', b', first)
    ensures Grown(t, t') && BitSeq.FreeCount(b') + |t'| == BitSeq.FreeCount(b) + |t|
  {
    hide VmRuns.Inv, Exclusive, SetEntry, Index, Pte, Translate, DropAt, Entry, BitSeq.FreeCount;
    var pc := m.pcs[i];
    assert Relies(m, t, pc);
    LinkedSystem(m, root, t, b, pc);
    t', b' := t[pc.c := Below(t[pc.f], Index(pc.job.page, pc.level))], b[pc.c := true];
    HolderStep(m, root, t, b, first, i, Follow(pc.job, pc.level, pc.f), Step(m, root, i, c).value, t', b');
  }

  // ---- the other steps

  /** Where the slot leads is the next table for this page. */
  lemma Descends(k: Kernel, root: nat, t: Tables, job: Job, level: Upper, f: nat)
    requires Good(k, root, t) && AtTable(t, job, level, f)
    ensures match Child(k.ram, f, Index(job.page, level))
            case None => true
            case Some(g) => Stands(t, g, job.page, level - 1)
  {
    hide Tree, Entry, Index, Prefix;
    StandingTablesAreReached(k.ram, root, t, f, job.page);
    if Child(k.ram, f, Index(job.page, level)).Some? {
      ReachedTablesStand(k.ram, root, t, job.page, level - 1);
    }
  }

  lemma FollowStep(m: Machine, root: nat, t: Tables, b: seq<bool>, first: seq<u64>, i: nat, c: Call)
    requires Inv(m, root, t, b, first) && i < |m.pcs| && m.pcs[i].Follow? && Step(m, root, i, c).Some?
    ensures Inv(Step(m, root, i, c).value, root, t, b, first)
  {
    hide Good, Owned, EntriesAreLast, Exclusive, Index, Prefix, Entry, FrameOf, PAGES;
    var pc := m.pcs[i];
    assert Relies(m, t, pc);
    Descends(m.k, root, t, pc.job, pc.level, pc.f);
    FlagOfHolder(m, i);
    var next := match Child(m.k.ram, pc.f, Index(pc.job.page, pc.level))
      case None => Release(pc.job, None)
      case Some(g) => if pc.level == 2 then Release(pc.job, Some(g)) else Test(pc.job, pc.level - 1, g);
    LocalStep(m, root, t, b, first, i, next, m.flag);
  }

  lemma TestStep(m: Machine, root: nat, t: Tables, b: seq<bool>, first: seq<u64>, i: nat, c: Call)
    requires Inv(m, root, t, b, first) && i < |m.pcs| && m.pcs[i].Test?
    ensures Step(m, root, i, c).Some? && Inv(Step(m, root, i, c).value, root, t, b, first)
  {
    hide VmRuns.Inv, EntriesAreLast, Exclusive, Index, Prefix, Entry, PAGES;
    var pc := m.pcs[i];
    assert Relies(m, t, pc);
    FlagOfHolder(m, i);
    LocalStep(m, root, t, b, first, i, Step(m, root, i, c).value.pcs[i], m.flag);
  }

  /** The root is where every walk begins. */
  lemma RootStands(k: Kernel, root: nat, t: Tables, v: nat)
    requires Good(k, root, t) && v < PAGES
    ensures Stands(t, root, v, 4)
  {
    ReachedTablesStand(k.ram, root, t, v, 4);
  }

  lemma LockStep(m: Machine, root: nat, t: Tables, b: seq<bool>, first: seq<u64>, i: nat, c: Call)
    requires Inv(m, root, t, b, first) && i < |m.pcs| && (m.pcs[i].Want? || m.pcs[i].Release?)
    ensures Step(m, root, i, c).Some? && Inv(Step(m, root, i, c).value, root, t, b, first)
  {
    hide Good, Owned, EntriesAreLast, Exclusive, Prefix, PAGES;
    var pc := m.pcs[i];
    assert Relies(m, t, pc);
    if pc.Want? {
      RootStands(m.k, root, t, pc.job.page);
      if !m.flag { LocalStep(m, root, t, b, first, i, Test(pc.job, 4, root), true); }
    } else {
      LocalStep(m, root, t, b, first, i, match pc.found case None => Idle case Some(g) => Store(pc.job, g), false);
    }
  }

  lemma LastOfOneMore(log: seq<Stored>, page: nat, word: u64)
    ensures forall u: nat, w: u64 ::
              LastStored(log + [Stored(page, word)], u, w) == if u == page then word else LastStored(log, u, w)
  {
    assert (log + [Stored(page, word)])[..|log|] == log;
  }

  /** The store to the last-level table, made without the lock. */
  lemma LeafKeeps(m: Machine, root: nat, t: Tables, b: seq<bool>, first: seq<u64>, job: Job, f: nat)
    requires VmRuns.Inv(SystemOf(m), root, t, b) && EntriesAreLast(m.k.ram, root, m.log, first) && AtLeaf(t, job, f)
    ensures var ram := SetEntry(m.k.ram, f, Index(job.page, 1), job.word);
            && VmRuns.Inv(SystemOf(WithRam(m, ram)), root, t, b)
            && EntriesAreLast(ram, root, m.log + [Stored(job.page, job.word)], first)
    ensures f in t && t[f].level == 1 && HasFrame(m.k.ram, f)
  {
    hide Tree, Owned, Translate, SetEntry, Entry, Index, Prefix, LastStored, PAGES;
    StandingTablesAreReached(m.k.ram, root, t, f, job.page);
    TableIsInMemory(m.k, root, t, f);
    WriteKeepsTree(m.k.ram, root, t, f, Index(job.page, 1), job.word);
    LastOfOneMore(m.log, job.page, job.word);
    forall u: nat | u < PAGES
      ensures Translate(SetEntry(m.k.ram, f, Index(job.page, 1), job.word), root, u) ==
              if u == job.page then job.word else Translate(m.k.ram, root, u)
    {
      LeafWriteChangesOnePage(m.k.ram, root, t, job.page, f, job.word, u);
    }
  }

  lemma StoreStep(m: Machine, root: nat, t: Tables, b: seq<bool>, first: seq<u64>, i: nat, c: Call)
    requires Inv(m, root, t, b, first) && i < |m.pcs| && m.pcs[i].Store?
    ensures Step(m, root, i, c).Some? && Inv(Step(m, root, i, c).value, root, t, b, first)
  {
    hide VmRuns.Inv, EntriesAreLast, Exclusive, Entry, SetEntry, Index, Prefix, PAGES;
    var pc := m.pcs[i];
    assert Relies(m, t, pc);
    LeafKeeps(m, root, t, b, first, pc.job, pc.f);
    OtherFrames(m.k.ram, pc.f, Index(pc.job.page, 1), pc.job.word);
    ExclusiveAfter(m.pcs, m.flag, i, Idle, m.flag);
    forall j | 0 <= j < |m.pcs| && j != i && HoldsWalk(m.pcs[j])
      ensures WalkKept(m, t, Step(m, root, i, c).value, m.pcs[j])
    {
      forall p: nat | Pends(m.pcs[j], p) ensures p != pc.f {
        assert Relies(m, t, m.pcs[j]);
        if Range(p, 1) in m.live { HeldPage(m, root, t, b, p); }
      }
    }
    InvAfter(m, root, t, b, first, i, Idle, Step(m, root, i, c).value, t, b);
  }

  lemma CallStep(m: Machine, root: nat, t: Tables, b: seq<bool>, first: seq<u64>, i: nat, c: Call)
    requires Inv(m, root, t, b, first) && i < |m.pcs| && m.pcs[i].Idle? && Step(m, root, i, c).Some?
    ensures Inv(Step(m, root, i, c).value, root, t, b, first)
  {
    hide VmRuns.Inv, EntriesAreLast, Exclusive, Entry, SetEntry, TakePages, Pte, PAGES, InSome, Giving;
    if MayCall(m, c) {
      match c {
        case TakeCall(pages) => TakeCallStep(m, root, t, b, first, i, pages);
        case GiveCall(r) => GiveCallStep(m, root, t, b, first, i, r);
        case DataCall(_, _, _) => DataCallStep(m, root, t, b, first, i, c);
        case _ => LocalStep(m, root, t, b, first, i, Want(JobOf(c)), m.flag);
      }
    }
  }

  /** Whatever any CPU does next. */
  lemma StepKeepsInv(m: Machine, root: nat, t: Tables, b: seq<bool>, first: seq<u64>, i: nat, c: Call)
    returns (t': Tables, b': seq<bool>)
    requires Inv(m, root, t, b, first) && i < |m.pcs| && Step(m, root, i, c).Some?
    ensures Inv(Step(m, root, i, c).value, root, t', b', first)
    ensures Grown(t, t') && BitSeq.FreeCount(b') + |t'| == BitSeq.FreeCount(b) + |t|
  {
    hide Inv, Step, BitSeq.FreeCount;
    t', b' := t, b;
    match m.pcs[i] {
      case Idle => CallStep(m, root, t, b, first, i, c);
      case Test(_, _, _) => TestStep(m, root, t, b, first, i, c);
      case NeedPage(_, _, _) => NeedPageStep(m, root, t, b, first, i, c);
      case Clear(_, _, _, _, _) => ClearStep(m, root, t, b, first, i, c);
      case Link(_, _, _, _) => t', b' := LinkStep(m, root, t, b, first, i, c);
      case Follow(_, _, _) => FollowStep(m, root, t, b, first, i, c);
      case Store(_, _) => StoreStep(m, root, t, b, first, i, c);
      case _ => LockStep(m, root, t, b, first, i, c);
    }
  }

  datatype Turn = Turn(cpu: nat, call: Call)

  ghost function Play(m: Machine, root: nat, turns: seq<Turn>): Option<Machine>
    requires forall k :: 0 <= k < |turns| ==> turns[k].cpu < |m.pcs|
    decreases |turns|
  {
    if turns == [] then Some(m)
    else match Step(m, root, turns[0].cpu, turns[0].call)
      case None => None
      case Some(m') => Play(m', root, turns[1..])
  }

  /**
   * In every interleaving the tables stay an unshared tree on used frames that are no one's data,
   * one CPU at most walks, each page's entry is the word of its last store, whatever CPUs made it
   * and however they raced, and no page is lost.
   */
  lemma {:induction false} EveryInterleavingKeepsInv(
      m: Machine, root: nat, t: Tables, b: seq<bool>, first: seq<u64>, turns: seq<Turn>)
    returns (t': Tables, b': seq<bool>)
    requires Inv(m, root, t, b, first) && forall k :: 0 <= k < |turns| ==> turns[k].cpu < |m.pcs|
    requires Play(m, root, turns).Some?
    ensures Inv(Play(m, root, turns).value, root, t', b', first)
    ensures Grown(t, t') && BitSeq.FreeCount(b') + |t'| == BitSeq.FreeCount(b) + |t|
    decreases |turns|
  {
    hide Inv, Step, BitSeq.FreeCount;
    t', b' := t, b;
    if turns != [] {
      var t1, b1 := StepKeepsInv(m, root, t, b, first, turns[0].cpu, turns[0].call);
      var m1 := Step(m, root, turns[0].cpu, turns[0].call).value;
      t', b' := EveryInterleavingKeepsInv(m1, root, t1, b1, first, turns[1..]);
    }
  }

  lemma StartIsGood(s: VmRuns.System, root: nat, t: Tables, b: seq<bool>, cpus: nat)
    requires VmRuns.Inv(s, root, t, b)
    ensures Inv(Start(s, cpus), root, t, b, s.k.ram)
  {
    hide VmRuns.Inv, Translate;
    assert SystemOf(Start(s, cpus)) == s;
  }

  // ---- what follows in every reachable state

  /** The machine with all CPUs idle, in any state of the sequential runs. */
  function Start(s: VmRuns.System, cpus: nat): Machine {
    Machine(s.k, false, seq(cpus, _ => Idle), s.live, [])
  }

  /**
   * After any interleaving from such a start: the tables are an unshared tree, each page's entry is
   * the word last stored for it, at most one CPU walks, the pages that are free, handed out or
   * tables are as many as before, and no range in use is a table.
   */
  lemma ReachableStates(s: VmRuns.System, root: nat, t: Tables, b: seq<bool>, cpus: nat, turns: seq<Turn>)
    returns (t': Tables)
    requires VmRuns.Inv(s, root, t, b) && forall k :: 0 <= k < |turns| ==> turns[k].cpu < cpus
    requires Play(Start(s, cpus), root, turns).Some?
    ensures var m := Play(Start(s, cpus), root, turns).value;
            && Good(m.k, root, t') && Grown(t, t')
            && (forall u: nat :: u < PAGES ==>
                  Translate(m.k.ram, root, u) == LastStored(m.log, u, Translate(s.k.ram, root, u)))
            && (forall i, j :: 0 <= i < |m.pcs| && 0 <= j < |m.pcs| && HoldsWalk(m.pcs[i]) && HoldsWalk(m.pcs[j]) ==>
                  i == j)
            && VmRuns.TotalOf(SystemOf(m), t') == VmRuns.TotalOf(s, t)
            && forall f :: InSome(m.live, f) ==> f !in t'
  {
    hide Good, Owned, Translate, LastStored, Relies, BitSeq.FreeCount, TotalPages, InSome, Play, PAGES;
    var b';
    StartIsGood(s, root, t, b, cpus);
    t', b' := EveryInterleavingKeepsInv(Start(s, cpus), root, t, b, s.k.ram, turns);
    var m := Play(Start(s, cpus), root, turns).value;
    PagesAddUp(s, root, t, b);
    PagesAddUp(SystemOf(m), root, t', b');
    forall f | InSome(m.live, f) ensures f !in t' {
      VmRuns.TablesAreNotData(SystemOf(m), root, t', b', f);
    }
  }

  lemma PagesAddUp(s: VmRuns.System, root: nat, t: Tables, b: seq<bool>)
    requires VmRuns.Inv(s, root, t, b)
    ensures BitSeq.FreeCount(s.k.bits) + TotalPages(s.live) == BitSeq.FreeCount(b)
  {
    hide Good, BitSeq.FreeCount, TotalPages;
  }

  /**
   * A step ends the run only where the source does: when a page is needed and none is free, when a
   * caller asks for a run that is not there, or when vmmUnmap reads through a missing upper table.
   */
  lemma StopsOnlyIf(m: Machine, root: nat, t: Tables, b: seq<bool>, first: seq<u64>, i: nat, c: Call)
    requires Inv(m, root, t, b, first) && i < |m.pcs|
    ensures Step(m, root, i, c).None? <==>
              match m.pcs[i]
              case Idle => c.TakeCall? && c.pages > 0 && forall p: nat :: !BitSeq.FreeRun(m.k.bits, p, c.pages)
              case NeedPage(_, _, _) => forall p: nat :: !BitSeq.FreeRun(m.k.bits, p, 1)
              case Follow(job, level, f) =>
                !job.allocate && level > 2 && TableAt(m.k.ram, root, job.page, level - 1) == None
              case _ => false
  {
    hide EntriesAreLast, Exclusive, Good, Separate, BitSeq.FreeCount, TotalPages, Entry, SetEntry, PAGES, Index,
         Prefix, Pte,
         BitSeq.FirstFit, BitSeq.FreeRun;
    var pc := m.pcs[i];
    assert Relies(m, t, pc);
    PageZeroStays(m, root, t, b);
    match pc {
      case Idle => if c.TakeCall? && c.pages > 0 { PanicsOnlyWhenFull(m.k.bits, c.pages); }
      case NeedPage(_, _, _) => PanicsOnlyWhenFull(m.k.bits, 1);
      case Follow(job, level, f) => StandingTableIsReached(m, root, t, b, job, level, f);
      case Link(_, _, _, page) => HeldPage(m, root, t, b, page);
      case _ =>
    }
  }

  lemma PageZeroStays(m: Machine, root: nat, t: Tables, b: seq<bool>)
    requires VmRuns.Inv(SystemOf(m), root, t, b)
    ensures |m.k.bits| > 0 && m.k.bits[0]
  {
    hide Good;
  }

  lemma StandingTableIsReached(m: Machine, root: nat, t: Tables, b: seq<bool>, job: Job, level: Upper, f: nat)
    requires VmRuns.Inv(SystemOf(m), root, t, b) && AtTable(t, job, level, f)
    ensures TableAt(m.k.ram, root, job.page, level) == Some(f)
    ensures TableAt(m.k.ram, root, job.page, level - 1) == Child(m.k.ram, f, Index(job.page, level))
  {
    hide Owned, Entry, Index, Prefix;
    StandingTablesAreReached(m.k.ram, root, t, f, job.page);
  }

  /** What a holder has in its pages, nobody else's step changes. */
  lemma DataStays(m: Machine, root: nat, t: Tables, b: seq<bool>, first: seq<u64>, i: nat, c: Call, g: nat, j: nat)
    requires Inv(m, root, t, b, first) && i < |m.pcs| && Step(m, root, i, c).Some?
    requires InSome(m.live, g) && !IsPending(m, g) && j < 512
    requires !(m.pcs[i].Idle? && c.DataCall? && c.frame == g)
    ensures Entry(Step(m, root, i, c).value.k.ram, g, j) == Entry(m.k.ram, g, j)
  {
    hide EntriesAreLast, Exclusive, VmRuns.Inv, InSome, IsPending, TakePages, Pte, Index, Prefix, PAGES, IndexOf,
         Entry, SetEntry;
    var pc := m.pcs[i];
    assert Relies(m, t, pc);
    VmRuns.TablesAreNotData(SystemOf(m), root, t, b, g);
    match pc {
      case Idle => if c.DataCall? { OtherFrames(m.k.ram, c.frame, c.slot, c.word); }
      case Clear(_, _, _, page, pos) =>
        HeldIsPending(m, i);
        OtherFrames(m.k.ram, page, pos, 0);
      case Link(job, level, f, page) =>
        if page < FRAME_LIMIT { OtherFrames(m.k.ram, f, Index(job.page, level), Pte(4096 * page, job.flags)); }
      case Store(job, f) => OtherFrames(m.k.ram, f, Index(job.page, 1), job.word);
      case _ =>
    }
  }

  lemma HeldIsPending(m: Machine, i: nat)
    requires i < |m.pcs| && (m.pcs[i].Clear? || m.pcs[i].Link?)
    ensures IsPending(m, m.pcs[i].c)
  {
    assert Pends(m.pcs[i], m.pcs[i].c);
  }
}
