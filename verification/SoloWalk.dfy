/**
 * One CPU left alone in the interleaved vmmMap and vmmUnmap: lock by lock, page by page and word by
 * word, it does what the sequential call does, and is over when it has done so.
 */
module SoloWalk {
  import opened Words
  import opened Options
  import opened Sequences
  import opened Ram
  import opened Paging
  import opened PageOwnership
  import opened PageTables
  import opened Mapping
  import opened WalkInterleavings
  import BitSeq
  import VmRuns

  /** n steps of CPU i, with nobody else moving. */
  ghost function Alone(m: Machine, root: nat, i: nat, c: Call, n: nat): (r: Option<Machine>)
    requires i < |m.pcs|
    ensures r.Some? ==> |r.value.pcs| == |m.pcs|
    decreases n
  {
    if n == 0 then Some(m)
    else match WalkInterleavings.Step(m, root, i, c)
      case None => None
      case Some(m1) => Alone(m1, root, i, c, n - 1)
  }

  lemma {:induction false} AloneInTurn(m: Machine, root: nat, i: nat, c: Call, n: nat, k: nat)
    requires i < |m.pcs|
    ensures Alone(m, root, i, c, n + k) ==
            match Alone(m, root, i, c, n) case None => None case Some(m1) => Alone(m1, root, i, c, k)
    decreases n
  {
    hide WalkInterleavings.Step;
    if n > 0 {
      match WalkInterleavings.Step(m, root, i, c) {
        case None =>
        case Some(m1) => AloneInTurn(m1, root, i, c, n - 1, k);
      }
    }
  }

  lemma FirstStep(m: Machine, root: nat, i: nat, c: Call, n: nat)
    requires i < |m.pcs|
    ensures Alone(m, root, i, c, n + 1) ==
            match WalkInterleavings.Step(m, root, i, c) case None => None case Some(m1) => Alone(m1, root, i, c, n)
    ensures Alone(m, root, i, c, 0) == Some(m)
  {
  }

  /** Pages handed out are marked used, so that none is handed out twice. */
  ghost predicate LiveIsUsed(m: Machine) {
    && m.k.Sized() && |m.k.bits| > 0 && m.k.bits[0]
    && forall r :: r in m.live ==> r.start < |m.k.bits| && m.k.bits[r.start]
  }

  /** Frame p with 0 in its words from `pos` on. */
  function ZeroedFrom(ram: seq<u64>, p: nat, pos: nat): (r: seq<u64>)
    ensures |r| == |ram|
  {
    seq(|ram|, k requires 0 <= k < |ram| => if 512 * p + pos <= k < 512 * (p + 1) then 0 else ram[k])
  }

  lemma {:induction false} ClearAlone(m: Machine, root: nat, i: nat, c: Call, pc: Pc) returns (n: nat)
    requires i < |m.pcs| && pc.Clear? && m.pcs[i] == pc && pc.pos <= 512 && HasFrame(m.k.ram, pc.c)
    ensures Alone(m, root, i, c, n) ==
            Some(At(WithRam(m, ZeroedFrom(m.k.ram, pc.c, pc.pos)), i, Link(pc.job, pc.level, pc.f, pc.c)))
    decreases 512 - pc.pos
  {
    hide Alone;
    if pc.pos == 512 {
      n := 1;
      FirstStep(m, root, i, c, 0);
      assert ZeroedFrom(m.k.ram, pc.c, 512) == m.k.ram;
      FirstStep(At(m, i, Link(pc.job, pc.level, pc.f, pc.c)), root, i, c, 0);
    } else {
      var ram := SetEntry(m.k.ram, pc.c, pc.pos, 0);
      var next := Clear(pc.job, pc.level, pc.f, pc.c, pc.pos + 1);
      n := ClearAlone(At(WithRam(m, ram), i, next), root, i, c, next);
      FirstStep(m, root, i, c, n);
      n := n + 1;
      assert ZeroedFrom(ram, pc.c, pc.pos + 1) == ZeroedFrom(m.k.ram, pc.c, pc.pos);
      var last := Link(pc.job, pc.level, pc.f, pc.c);
      assert m.pcs[i := next][i := last] == m.pcs[i := last];
    }
  }

  lemma FirstIsFree(bits: seq<bool>)
    requires |bits| > 0 && bits[0]
    ensures match TakePages(bits, 1)
            case None => true
            case Some((addr, after)) =>
              addr == 4096 * (addr / 4096) && addr / 4096 < |bits| && !bits[addr / 4096] && |after| == |bits| &&
              forall p: nat :: p < |bits| ==> after[p] == (bits[p] || p == addr / 4096)
  {
    BitSeq.FirstFitFromIsLeast(bits, 1, 0);
  }

  /** The page just taken leaves the list of those handed out as it was. */
  lemma LastIsDropped(live: seq<Range>, r: Range)
    requires r !in live
    ensures IndexOf(live + [r], r) == |live| && DropAt(live + [r], |live|) == live
  {
    assert (live + [r])[IndexOf(live + [r], r)] == r;
  }

  /** Filling a slot: the page is taken, cleared word by word and linked. */
  lemma EnsureAlone(m: Machine, root: nat, i: nat, c: Call, job: Job, level: Upper, f: nat) returns (n: nat)
    requires i < |m.pcs| && m.pcs[i] == Test(job, level, f) && LiveIsUsed(m)
    ensures match Ensure(m.k, f, Index(job.page, level), job.allocate, job.flags)
            case None => Alone(m, root, i, c, n) == None
            case Some(k) =>
              Alone(m, root, i, c, n) == Some(At(m.(k := k), i, Follow(job, level, f))) && LiveIsUsed(m.(k := k))
  {
    hide Alone, TakePages, Entry, Index;
    FirstStep(m, root, i, c, 0);
    n := 1;
    if job.allocate && Entry(m.k.ram, f, Index(job.page, level)) == 0 {
      var m1 := At(m, i, NeedPage(job, level, f));
      FirstStep(m1, root, i, c, 0);
      FirstIsFree(m.k.bits);
      AloneInTurn(m, root, i, c, 1, 1);
      FirstStep(m1, root, i, c, 0);
      n := 2;
      if TakePages(m.k.bits, 1).Some? {
        var (m2, p) := Taking(m1, 1).value;
        var m3 := At(m2, i, Clear(job, level, f, p, 0));
        FirstStep(m3, root, i, c, 0);
        var k := FillAlone(m3, m, root, i, c, m3.pcs[i]);
        AloneInTurn(m, root, i, c, 2, k);
        n := 2 + k;
        assert At(m3.(live := m.live), i, Follow(job, level, f)) == At(m.(k := m3.k), i, Follow(job, level, f));
      }
    } else {
      FirstStep(At(m, i, Follow(job, level, f)), root, i, c, 0);
    }
  }

  /** From the page taken to the page linked; `m0` is the machine before it was taken. */
  lemma FillAlone(m: Machine, m0: Machine, root: nat, i: nat, c: Call, pc: Pc) returns (n: nat)
    requires i < |m.pcs| && pc.Clear? && pc.pos == 0 && m.pcs[i] == pc && HasFrame(m.k.ram, pc.c)
    requires pc.c < FRAME_LIMIT && m.live == m0.live + [Range(pc.c, 1)] && Range(pc.c, 1) !in m0.live
    ensures var ram := Linked(m.k.ram, pc.f, Index(pc.job.page, pc.level), pc.c, pc.job.flags);
            Alone(m, root, i, c, n) ==
            Some(At(WithRam(m, ram).(live := m0.live), i, Follow(pc.job, pc.level, pc.f)))
  {
    hide Alone, Index, Pte, SetEntry;
    n := ClearAlone(m, root, i, c, pc);
    assert ZeroedFrom(m.k.ram, pc.c, 0) == ZeroedPages(m.k.ram, pc.c, 1);
    var m1 := At(WithRam(m, ZeroedPages(m.k.ram, pc.c, 1)), i, Link(pc.job, pc.level, pc.f, pc.c));
    LastIsDropped(m0.live, Range(pc.c, 1));
    AloneInTurn(m, root, i, c, n, 1);
    FirstStep(m1, root, i, c, 0);
    n := n + 1;
    var ram := Linked(m.k.ram, pc.f, Index(pc.job.page, pc.level), pc.c, pc.job.flags);
    var last := Follow(pc.job, pc.level, pc.f);
    assert m1.pcs[i := last] == m.pcs[i := last];
    FirstStep(At(WithRam(m, ram).(live := m0.live), i, last), root, i, c, 0);
  }

  lemma UsedMeans(m: Machine, m': Machine)
    requires LiveIsUsed(m)
    ensures m.k.Sized() && (m'.k == m.k && m'.live == m.live ==> LiveIsUsed(m'))
  {
  }

  /** The machine when the walk is done and its lock still held; None where the walk is cut short. */
  function AfterWalk(m: Machine, i: nat, job: Job, r: Walked, k: Kernel): Option<Machine>
    requires i < |m.pcs|
  {
    match r
    case Table(g) => Some(At(m.(k := k), i, Release(job, Some(g))))
    case NoTable => Some(At(m.(k := k), i, Release(job, None)))
    case _ => None
  }

  lemma AfterWalkFrom(m: Machine, i: nat, job: Job, k1: Kernel, pc: Pc, r: Walked, k: Kernel)
    requires i < |m.pcs|
    ensures AfterWalk(At(m.(k := k1), i, pc), i, job, r, k) == AfterWalk(m, i, job, r, k)
  {
    var last := match r case Table(g) => Release(job, Some(g)) case _ => Release(job, None);
    assert m.pcs[i := pc][i := last] == m.pcs[i := last];
  }

  /** Following a filled slot, and the end of the walk. */
  lemma FollowAlone(m: Machine, root: nat, i: nat, c: Call, job: Job, level: Upper, f: nat)
    requires i < |m.pcs| && m.pcs[i] == Follow(job, level, f)
    ensures Alone(m, root, i, c, 1) ==
            match Child(m.k.ram, f, Index(job.page, level))
            case None => AfterWalk(m, i, job, if level == 2 then NoTable else NullTable, m.k)
            case Some(g) =>
              if level == 2 then AfterWalk(m, i, job, Table(g), m.k) else Some(At(m, i, Test(job, level - 1, g)))
  {
    hide Alone, Index, Entry;
    FirstStep(m, root, i, c, 0);
    if WalkInterleavings.Step(m, root, i, c).Some? {
      FirstStep(WalkInterleavings.Step(m, root, i, c).value, root, i, c, 0);
    }
  }

  /** The walk as a whole, from any of its tables. */
  lemma {:induction false} WalkAlone(m: Machine, root: nat, i: nat, c: Call, job: Job, level: Upper, f: nat)
    returns (n: nat)
    requires i < |m.pcs| && m.pcs[i] == Test(job, level, f) && LiveIsUsed(m)
    ensures var (r, k) := WalkFrom(m.k, f, level, job.page, job.allocate, job.flags);
            Alone(m, root, i, c, n) == AfterWalk(m, i, job, r, k)
    decreases level
  {
    hide Alone, Entry, Index, LiveIsUsed, Ensure, AfterWalk, Child;
    UsedMeans(m, m);
    var (r, k2) := WalkFrom(m.k, f, level, job.page, job.allocate, job.flags);
    n := EnsureAlone(m, root, i, c, job, level, f);
    match Ensure(m.k, f, Index(job.page, level), job.allocate, job.flags) {
      case None => AfterDry(m, i, job, m.k);
      case Some(k) =>
        var m1 := At(m.(k := k), i, Follow(job, level, f));
        AloneInTurn(m, root, i, c, n, 1);
        FollowAlone(m1, root, i, c, job, level, f);
        AfterWalkFrom(m, i, job, k, Follow(job, level, f), r, k2);
        n := n + 1;
        if Child(k.ram, f, Index(job.page, level)).Some? && level > 2 {
          var g := Child(k.ram, f, Index(job.page, level)).value;
          var m2 := At(m1, i, Test(job, level - 1, g));
          UsedMeans(m.(k := k), m2);
          var d := WalkAlone(m2, root, i, c, job, level - 1, g);
          AloneInTurn(m, root, i, c, n, d);
          n := n + d;
          AfterWalkFrom(m1, i, job, k, Test(job, level - 1, g), r, k2);
        }
    }
  }

  lemma AfterDry(m: Machine, i: nat, job: Job, k: Kernel)
    requires i < |m.pcs|
    ensures AfterWalk(m, i, job, OutOfMemory, k) == None
  {
  }

  /** The drop of the lock, and the store behind it. */
  function AfterStore(m: Machine, i: nat, job: Job, found: Option<nat>): Machine
    requires i < |m.pcs|
  {
    match found
    case None => At(m, i, Idle).(flag := false)
    case Some(g) =>
      At(m, i, Idle).(k := m.k.(ram := SetEntry(m.k.ram, g, Index(job.page, 1), job.word)),
                      flag := false, log := m.log + [Stored(job.page, job.word)])
  }

  lemma ReleaseAlone(m: Machine, root: nat, i: nat, c: Call, job: Job, found: Option<nat>)
    requires i < |m.pcs| && m.pcs[i] == Release(job, found)
    ensures Alone(m, root, i, c, if found.Some? then 2 else 1) == Some(AfterStore(m, i, job, found))
  {
    hide Alone, Index, SetEntry;
    var m1 := WalkInterleavings.Step(m, root, i, c).value;
    FirstStep(m, root, i, c, 0);
    FirstStep(m1, root, i, c, 0);
    if found.Some? {
      FirstStep(m, root, i, c, 1);
      FirstStep(AfterStore(m, i, job, found), root, i, c, 0);
      assert m1.pcs[i := Idle] == m.pcs[i := Idle];
    }
  }

  /** The lock, the walk, and the store. */
  lemma JobAlone(m: Machine, root: nat, i: nat, c: Call, job: Job) returns (n: nat)
    requires i < |m.pcs| && m.pcs[i] == Want(job) && !m.flag && LiveIsUsed(m)
    ensures var (r, k) := WalkFrom(m.k, root, 4, job.page, job.allocate, job.flags);
            Alone(m, root, i, c, n) ==
            match r
            case Table(g) => Some(AfterStore(m.(k := k), i, job, Some(g)))
            case NoTable => Some(AfterStore(m.(k := k), i, job, None))
            case _ => None
  {
    hide Alone, Index, WalkFrom, LiveIsUsed, SetEntry;
    var m1 := At(m.(flag := true), i, Test(job, 4, root));
    UsedMeans(m, m1);
    var (r, k) := WalkFrom(m.k, root, 4, job.page, job.allocate, job.flags);
    n := WalkAlone(m1, root, i, c, job, 4, root);
    FirstStep(m, root, i, c, n);
    n := n + 1;
    if r.Table? || r.NoTable? {
      var found := if r.Table? then Some(r.frame) else None;
      var m2 := At(m1.(k := k), i, Release(job, found));
      var d := if found.Some? then 2 else 1;
      AloneInTurn(m, root, i, c, n, d);
      ReleaseAlone(m2, root, i, c, job, found);
      n := n + d;
      assert m2.pcs[i := Idle] == m.pcs[i := Idle];
    }
  }

  lemma InvIsUsed(m: Machine, root: nat, t: Tables, b: seq<bool>)
    requires VmRuns.Inv(SystemOf(m), root, t, b)
    ensures LiveIsUsed(m)
  {
    hide Tree, BitSeq.FreeCount, TotalPages;
    forall r | r in m.live ensures r.start < |m.k.bits| && m.k.bits[r.start] {
      OwnedAreInside(b, State(m.k.bits, m.live), r);
      assert InRange(r, r.start);
    }
  }

  /** vmmMap as a whole: memory and bit set become those of the sequential call, and one store is made. */
  lemma MapAlone(m: Machine, root: nat, t: Tables, b: seq<bool>, i: nat, virt: u64, phys: u64, flags: VmRuns.Flags)
    returns (n: nat)
    requires VmRuns.Inv(SystemOf(m), root, t, b) && i < |m.pcs| && m.pcs[i] == Idle && !m.flag
    ensures Alone(m, root, i, MapCall(virt, phys, flags), n) ==
            match Map(m.k, root, virt, phys, flags)
            case None => None
            case Some(k) => Some(m.(k := k, log := m.log + [Stored(Page(virt), Pte(phys, flags))]))
  {
    hide Alone, WalkFrom, LiveIsUsed, SetEntry, Pte, Tree, Owned, Translate, Index;
    InvIsUsed(m, root, t, b);
    UsedMeans(m, m);
    var call := MapCall(virt, phys, flags);
    var m1 := At(m, i, Want(JobOf(call)));
    UsedMeans(m, m1);
    n := JobAlone(m1, root, i, call, JobOf(call));
    FirstStep(m, root, i, call, n);
    n := n + 1;
    var t' := WalkGrows(m.k, root, t, root, 4, Page(virt), flags);
    IndicesOfAddress(virt);
    assert m1.pcs[i := Idle] == m.pcs;
  }

  /** vmmUnmap as a whole: it stores 0 if the last-level table is there, and nothing if only that is missing. */
  lemma UnmapAlone(m: Machine, root: nat, t: Tables, b: seq<bool>, i: nat, virt: u64) returns (n: nat)
    requires VmRuns.Inv(SystemOf(m), root, t, b) && i < |m.pcs| && m.pcs[i] == Idle && !m.flag
    ensures Alone(m, root, i, UnmapCall(virt), n) ==
            match Unmap(m.k, root, virt)
            case None => None
            case Some(k) =>
              Some(m.(k := k, log := m.log + if TableAt(m.k.ram, root, Page(virt), 1).Some?
                                             then [Stored(Page(virt), 0)] else []))
  {
    hide Alone, WalkFrom, LiveIsUsed, SetEntry, Tree, Owned, Translate, Index;
    InvIsUsed(m, root, t, b);
    UsedMeans(m, m);
    var call := UnmapCall(virt);
    var m1 := At(m, i, Want(JobOf(call)));
    UsedMeans(m, m1);
    n := JobAlone(m1, root, i, call, JobOf(call));
    FirstStep(m, root, i, call, n);
    n := n + 1;
    WalkOnlyLooks(m.k, root, root, 4, Page(virt));
    IndicesOfAddress(virt);
    assert m1.pcs[i := Idle] == m.pcs;
    assert m.log + [] == m.log;
  }
}
