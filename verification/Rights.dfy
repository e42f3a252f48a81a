/**
 * What the entries on a walk let the hardware do. A right holds only if every entry on the path
 * grants it (section 4.6 of the Intel SDM, volume 3A), and vmmWalk never revisits an upper entry.
 */
module Rights {
  import opened Words
  import opened Options
  import opened Ram
  import opened Paging
  import BitSeq
  import opened PageOwnership
  import opened PageTables
  import opened Mapping
  import opened VmRuns

  /** PTE_WRITABLE, PTE_USER */
  predicate IsRight(bit: nat) {
    bit == 2 || bit == 4
  }

  predicate Grants(e: nat, bit: nat)
    requires IsRight(bit)
  {
    e % 4096 / bit % 2 == 1
  }

  /** The entry that the walk for page v reads at this level, 0 when it does not get there. */
  function EntryAt(m: seq<u64>, root: nat, v: nat, level: nat): u64
    requires 1 <= level <= 4
  {
    match TableAt(m, root, v, level)
    case None => 0
    case Some(f) => Entry(m, f, Index(v, level))
  }

  /** Every entry on the path to page v grants the right. */
  predicate Effective(m: seq<u64>, root: nat, v: nat, bit: nat)
    requires IsRight(bit)
  {
    && Grants(EntryAt(m, root, v, 4), bit) && Grants(EntryAt(m, root, v, 3), bit)
    && Grants(EntryAt(m, root, v, 2), bit) && Grants(EntryAt(m, root, v, 1), bit)
  }

  lemma PteGrants(phys: u64, flags: nat, bit: nat)
    requires flags < 4096 && IsRight(bit)
    ensures Grants(Pte(phys, flags), bit) <==> Grants(flags, bit)
  {
    PteFlags(phys, flags);
    PresentAside(flags);
    hide Pte;
  }

  lemma PresentAside(flags: nat)
    ensures (flags + (1 - flags % 2)) / 2 == flags / 2 && (flags + (1 - flags % 2)) / 4 == flags / 4
  {
    if flags % 2 == 0 { assert (flags + 1) / 2 == flags / 2; }
    QuarterIsHalfOfHalf(flags);
    QuarterIsHalfOfHalf(flags + (1 - flags % 2));
  }

  lemma QuarterIsHalfOfHalf(n: nat)
    ensures n / 4 == n / 2 / 2
  {
  }

  lemma PteFlags(phys: u64, flags: nat)
    requires flags < 4096
    ensures Pte(phys, flags) % 4096 == flags + (1 - flags % 2)
  {
    var x := phys % ADDR_LIMIT - phys % 4096;
    assert x % 4096 == 0;
  }

  /** An entry that leads to a table, with these flags and the present bit. */
  predicate IsLink(e: u64, flags: nat) {
    e != 0 && e % 4096 == flags + (1 - flags % 2)
  }

  lemma LinkIsLink(c: nat, flags: nat)
    requires c < FRAME_LIMIT && flags < 4096
    ensures IsLink(Pte(4096 * c, flags), flags)
  {
    FrameOfPte(c, flags);
    PteFlags(4096 * c, flags);
  }

  /** Pages u and v come through the same slot of the same table of this level. */
  predicate SameSlot(u: nat, v: nat, level: nat)
    requires level > 0
  {
    Prefix(u, level - 1) == Prefix(v, level - 1)
  }

  /** What an upper entry becomes: filled with these flags when it is missing and wanted, else what it was. */
  predicate Upgraded(before: u64, now: u64, wanted: bool, flags: nat) {
    if wanted && before == 0 then IsLink(now, flags) else now == before
  }

  lemma FilledFrom(k: Kernel, root: nat, t: Tables, f: nat, i: nat, flags: nat) returns (c: nat)
    requires Good(k, root, t) && flags < 4096 && Entry(k.ram, f, i) == 0 && Ensure(k, f, i, true, flags).Some?
    ensures c < FRAME_LIMIT && c !in t
    ensures Ensure(k, f, i, true, flags).value.ram == Linked(k.ram, f, i, c, flags)
  {
    hide Tree, Linked, Entry;
    c := TakePages(k.bits, 1).value.0 / PAGE_SIZE;
    BitSeq.FirstFitFromIsLeast(k.bits, 1, 0);
    assert BitSeq.FreeRun(k.bits, c, 1);
  }

  /** A linked table: the entries that every page's walk reads before and after. */
  lemma EntryAfterLink(m: seq<u64>, root: nat, t: Tables, f: nat, c: nat, v: nat, flags: nat, u: nat, l: nat)
    requires Tree(m, root, t) && f in t && 2 <= t[f].level && v < PAGES && Stands(t, f, v, t[f].level)
    requires flags < 4096 && c < FRAME_LIMIT && c !in t && Entry(m, f, Index(v, t[f].level)) == 0
    requires u < PAGES && 1 <= l <= 4
    ensures var wanted := l == t[f].level && SameSlot(u, v, l);
            var m' := Linked(m, f, Index(v, t[f].level), c, flags);
            Upgraded(EntryAt(m, root, u, l), EntryAt(m', root, u, l), wanted, flags)
  {
    hide Index, Prefix, Linked, Pte, PAGES, Entry, IsLink;
    var level := t[f].level;
    var i := Index(v, level);
    WalkAfterLink(m, root, t, f, i, c, flags, u, l);
    SlotOfStanding(m, root, t, f, v, u, l);
    match TableAt(Linked(m, f, i, c, flags), root, u, l) {
      case None =>
      case Some(g) =>
        EntryOfLinked(m, f, i, c, flags, g, Index(u, l));
        LinkIsLink(c, flags);
    }
  }

  /** Page u reads the slot that page v comes through exactly when they have that slot in common. */
  lemma SlotOfStanding(m: seq<u64>, root: nat, t: Tables, f: nat, v: nat, u: nat, l: nat)
    requires Tree(m, root, t) && f in t && 2 <= t[f].level && v < PAGES && Stands(t, f, v, t[f].level)
    requires u < PAGES && 1 <= l <= 4
    ensures TableAt(m, root, u, l) == Some(f) && Index(u, l) == Index(v, t[f].level)
       <==> l == t[f].level && SameSlot(u, v, l)
    ensures TableAt(m, root, u, l).Some? ==> TableAt(m, root, u, l).value in t
  {
    hide Index, Prefix, PAGES, TableAt;
    if TableAt(m, root, u, l) == Some(f) { assert Stands(t, f, u, l); }
    if l == t[f].level {
      PrefixSplits(u, l);
      PrefixSplits(v, l);
      if SameSlot(u, v, l) { assert Stands(t, f, u, l); }
    }
  }

  /** One level of the allocating walk. */
  lemma EntryAfterEnsure(k: Kernel, root: nat, t: Tables, f: nat, level: nat, v: nat, flags: nat, u: nat, l: nat)
    requires Good(k, root, t) && 2 <= level <= 4 && v < PAGES && flags < 4096 && u < PAGES && 1 <= l <= 4
    requires TableAt(k.ram, root, v, level) == Some(f) && Ensure(k, f, Index(v, level), true, flags).Some?
    ensures var k1 := Ensure(k, f, Index(v, level), true, flags).value;
            Upgraded(EntryAt(k.ram, root, u, l), EntryAt(k1.ram, root, u, l), l == level && SameSlot(u, v, l), flags)
  {
    hide Tree, Prefix, PAGES, Pte, Entry, Index, Linked, IsLink;
    ReachedTablesStand(k.ram, root, t, v, level);
    if Entry(k.ram, f, Index(v, level)) == 0 {
      var c := FilledFrom(k, root, t, f, Index(v, level), flags);
      EntryAfterLink(k.ram, root, t, f, c, v, flags, u, l);
    } else {
      SlotOfStanding(k.ram, root, t, f, v, u, l);
    }
  }

  lemma UpgradedInTurn(e: u64, e1: u64, e2: u64, first: bool, second: bool, flags: nat)
    requires Upgraded(e, e1, first, flags) && Upgraded(e1, e2, second, flags)
    ensures Upgraded(e, e2, first || second, flags)
  {
  }

  /** The allocating walk: upper entries on its path that are missing get the request's flags; all else stays. */
  lemma {:induction false} EntryAfterWalk(k: Kernel, root: nat, t: Tables, f: nat, level: nat, v: nat, flags: nat,
      u: nat, l: nat)
    requires Good(k, root, t) && 2 <= level <= 4 && v < PAGES && flags < 4096 && u < PAGES && 1 <= l <= 4
    requires TableAt(k.ram, root, v, level) == Some(f) && WalkFrom(k, f, level, v, true, flags).0.Table?
    ensures Upgraded(EntryAt(k.ram, root, u, l), EntryAt(WalkFrom(k, f, level, v, true, flags).1.ram, root, u, l),
                     2 <= l <= level && SameSlot(u, v, l), flags)
    decreases level
  {
    hide Entry, Tree, Ensure, Prefix, Index, PAGES, Translate, Child, Upgraded, SameSlot, Pte, EntryAt, IsLink;
    ReachedTablesStand(k.ram, root, t, v, level);
    var i := Index(v, level);
    match Ensure(k, f, i, true, flags) {
      case None => assert false;
      case Some(k1) =>
        var t1 := EnsureGrows(k, root, t, f, i, flags);
        EntryAfterEnsure(k, root, t, f, level, v, flags, u, l);
        if level > 2 {
          StandingTablesAreReached(k1.ram, root, t1, f, v);
          var g := Child(k1.ram, f, i).value;
          EntryAfterWalk(k1, root, t1, g, level - 1, v, flags, u, l);
          UpgradedInTurn(EntryAt(k.ram, root, u, l), EntryAt(k1.ram, root, u, l),
            EntryAt(WalkFrom(k1, g, level - 1, v, true, flags).1.ram, root, u, l),
            l == level && SameSlot(u, v, l), 2 <= l <= level - 1 && SameSlot(u, v, l), flags);
        }
    }
  }

  /** A store in a last-level table or outside the tables changes no upper entry. */
  lemma UpperAfterWrite(m: seq<u64>, root: nat, t: Tables, g: nat, j: nat, w: u64, u: nat, l: nat)
    requires Tree(m, root, t) && HasFrame(m, g) && j < 512 && (g in t ==> t[g].level == 1)
    requires u < PAGES && 2 <= l <= 4
    ensures EntryAt(SetEntry(m, g, j, w), root, u, l) == EntryAt(m, root, u, l)
  {
    hide Index, Prefix, PAGES, SetEntry, Entry;
    WalkAfterWrite(m, root, t, g, j, w, u, l);
    match TableAt(m, root, u, l) {
      case None =>
      case Some(f) =>
        assert Stands(t, f, u, l);
        EntryAfterSet(m, g, j, w, f, Index(u, l));
    }
  }

  /** vmmMap on the upper entries of every page's path. */
  lemma UpperAfterMap(k: Kernel, root: nat, t: Tables, virt: u64, phys: u64, flags: nat, u: nat, l: nat)
    requires Good(k, root, t) && flags < 4096 && Map(k, root, virt, phys, flags).Some? && u < PAGES && 2 <= l <= 4
    ensures Upgraded(EntryAt(k.ram, root, u, l), EntryAt(Map(k, root, virt, phys, flags).value.ram, root, u, l),
                     SameSlot(u, Page(virt), l), flags)
  {
    hide Entry, Tree, Prefix, Index, PAGES, Pte, P1, Page, SetEntry, WalkFrom, Upgraded, SameSlot, EntryAt, TableAt;
    var v := Page(virt);
    RootIsReached(k.ram, root, v);
    var t' := WalkGrows(k, root, t, root, 4, v, flags);
    var (r, k1) := Walk(k, root, virt, true, flags);
    EntryAfterWalk(k, root, t, root, 4, v, flags, u, l);
    ReachedTablesStand(k1.ram, root, t', v, 1);
    TableIsInMemory(k1, root, t', r.frame);
    UpperAfterWrite(k1.ram, root, t', r.frame, P1(virt), Pte(phys, flags), u, l);
  }

  /** Some page of the n from virt on comes through the slot that u comes through at this level. */
  ghost predicate Covers(virt: u64, n: nat, u: nat, level: nat)
    requires level > 0
  {
    exists w: nat :: w < PAGES && Offset(virt, w) < n && SameSlot(u, w, level)
  }

  lemma CoversNext(virt: u64, n: nat, u: nat, level: nat)
    requires 0 < n <= PAGES && level > 0
    ensures Covers(virt, n, u, level) <==> SameSlot(u, Page(virt), level) || Covers(NextPage(virt), n - 1, u, level)
  {
    hide Offset, Page, NextPage, SameSlot, PAGES;
    forall w: nat | w < PAGES
      ensures Offset(virt, w) < n <==> w == Page(virt) || Offset(NextPage(virt), w) < n - 1
    {
      OffsetOfNext(virt, w);
    }
    assert Page(virt) < PAGES;
  }

  lemma {:induction false} UpperAfterMapPages(k: Kernel, root: nat, t: Tables, virt: u64, phys: u64, flags: nat,
      n: nat, u: nat, l: nat)
    requires Good(k, root, t) && flags < 4096 && n <= PAGES && MapPages(k, root, virt, phys, flags, n).Some?
    requires u < PAGES && 2 <= l <= 4
    ensures Upgraded(EntryAt(k.ram, root, u, l), EntryAt(MapPages(k, root, virt, phys, flags, n).value.ram, root, u, l),
                     Covers(virt, n, u, l), flags)
    decreases n
  {
    hide Good, Map, MapPages, EntryAt, Upgraded, Covers, SameSlot, Page, NextPage, Offset;
    GoodIsSized(k, root, t);
    MapPagesUnfolds(k, root, virt, phys, flags, n);
    if n == 0 {
      NothingCovered(virt, u, l, EntryAt(k.ram, root, u, l), flags);
    } else {
      var k1 := Map(k, root, virt, phys, flags).value;
      var t1 := MapChangesOnePage(k, root, t, virt, phys, flags);
      UpperAfterMap(k, root, t, virt, phys, flags, u, l);
      UpperAfterMapPages(k1, root, t1, NextPage(virt), NextPage(phys), flags, n - 1, u, l);
      CoversNext(virt, n, u, l);
      UpgradedInTurn(EntryAt(k.ram, root, u, l), EntryAt(k1.ram, root, u, l),
        EntryAt(MapPages(k, root, virt, phys, flags, n).value.ram, root, u, l),
        SameSlot(u, Page(virt), l), Covers(NextPage(virt), n - 1, u, l), flags);
    }
  }

  lemma NothingCovered(virt: u64, u: nat, l: nat, e: u64, flags: nat)
    requires 2 <= l <= 4
    ensures Upgraded(e, e, Covers(virt, 0, u, l), flags)
  {
  }

  lemma UpperAfterUnmap(k: Kernel, root: nat, t: Tables, virt: u64, u: nat, l: nat)
    requires Good(k, root, t) && Unmap(k, root, virt).Some? && u < PAGES && 2 <= l <= 4
    ensures EntryAt(Unmap(k, root, virt).value.ram, root, u, l) == EntryAt(k.ram, root, u, l)
  {
    hide Entry, Tree, Prefix, Index, PAGES, P1, Page, SetEntry, WalkFrom, EntryAt, TableAt;
    var v := Page(virt);
    RootIsReached(k.ram, root, v);
    WalkOnlyLooks(k, root, root, 4, v);
    var (r, _) := Walk(k, root, virt, false, 0);
    if r.Table? {
      ReachedTablesStand(k.ram, root, t, v, 1);
      TableIsInMemory(k, root, t, r.frame);
      UpperAfterWrite(k.ram, root, t, r.frame, P1(virt), 0, u, l);
    }
  }

  lemma {:induction false} UpperAfterUnmapPages(k: Kernel, root: nat, t: Tables, virt: u64, n: nat, u: nat, l: nat)
    requires Good(k, root, t) && k.Sized() && UnmapPages(k, root, virt, n).Some? && u < PAGES && 2 <= l <= 4
    ensures EntryAt(UnmapPages(k, root, virt, n).value.ram, root, u, l) == EntryAt(k.ram, root, u, l)
    decreases n
  {
    hide Good, Unmap, EntryAt, NextPage;
    if n > 0 {
      UnmapChangesOnePage(k, root, t, virt);
      UpperAfterUnmap(k, root, t, virt, u, l);
      UpperAfterUnmapPages(Unmap(k, root, virt).value, root, t, NextPage(virt), n - 1, u, l);
    }
  }

  /** Abstractly, a slot of an upper table holds the flags of the first mapping that came through it. */
  ghost function FirstFlags(ops: seq<VmRuns.Op>, u: nat, level: nat, x: Option<Flags>): (r: Option<Flags>)
    requires level > 0
    decreases |ops|
  {
    if ops == [] then x else FirstFlags(ops[1..], u, level, AfterOp(ops[0], u, level, x))
  }

  ghost function AfterOp(op: VmRuns.Op, u: nat, level: nat, x: Option<Flags>): Option<Flags>
    requires level > 0
  {
    if x == None && op.MapOp? && Covers(op.virt, op.n, u, level) then Some(op.flags) else x
  }

  predicate Holds(e: u64, x: Option<Flags>) {
    match x
    case None => e == 0
    case Some(flags) => IsLink(e, flags)
  }

  lemma HoldsAfter(e: u64, e': u64, op: VmRuns.Op, u: nat, l: nat, x: Option<Flags>)
    requires l > 0 && op.MapOp? && Holds(e, x) && Upgraded(e, e', Covers(op.virt, op.n, u, l), op.flags)
    ensures Holds(e', AfterOp(op, u, l, x))
  {
    hide Covers;
  }

  lemma UpperAfterStep(s: System, root: nat, t: Tables, b: seq<bool>, op: VmRuns.Op, u: nat, l: nat, x: Option<Flags>)
    requires Inv(s, root, t, b) && s.k.Sized() && VmRuns.Apply(s, root, op).Some? && u < PAGES && 2 <= l <= 4
    requires Holds(EntryAt(s.k.ram, root, u, l), x)
    ensures Holds(EntryAt(VmRuns.Apply(s, root, op).value.k.ram, root, u, l), AfterOp(op, u, l, x))
  {
    hide Tree, Owned, MapPages, UnmapPages, EntryAt, Covers, Upgraded, SetEntry, Holds, InSome, BitSeq.FreeCount,
         TotalPages;
    match op {
      case MapOp(virt, phys, flags, n) =>
        CountsFit(n);
        UpperAfterMapPages(s.k, root, t, virt, phys, flags, n, u, l);
        var ram' := VmRuns.Apply(s, root, op).value.k.ram;
        HoldsAfter(EntryAt(s.k.ram, root, u, l), EntryAt(ram', root, u, l), op, u, l, x);
      case UnmapOp(virt, n) => UpperAfterUnmapPages(s.k, root, t, virt, n, u, l);
      case StoreOp(frame, slot, word) =>
        TablesAreNotData(s, root, t, b, frame);
        UpperAfterWrite(s.k.ram, root, t, frame, slot, word, u, l);
      case _ =>
    }
  }

  /** Over every run, each upper entry is missing or carries the flags of the first mapping through its slot. */
  lemma {:induction false} UpperOfRun(s: System, root: nat, t: Tables, b: seq<bool>, ops: seq<VmRuns.Op>, u: nat,
      l: nat, x: Option<Flags>)
    requires Inv(s, root, t, b) && VmRuns.Run(s, root, ops).Some? && u < PAGES && 2 <= l <= 4
    requires Holds(EntryAt(s.k.ram, root, u, l), x)
    ensures Holds(EntryAt(VmRuns.Run(s, root, ops).value.k.ram, root, u, l), FirstFlags(ops, u, l, x))
    decreases |ops|
  {
    hide Inv, Stepped, VmRuns.Apply, EntryAt, Holds, AfterOp;
    InvIsSized(s, root, t, b);
    if ops != [] {
      var s1, t1, b1 := StepRefines(s, root, t, b, ops[0]);
      UpperAfterStep(s, root, t, b, ops[0], u, l, x);
      UpperOfRun(s1, root, t1, b1, ops[1..], u, l, AfterOp(ops[0], u, l, x));
    }
  }

  /** The first mapping through page u's slot of this level asked for the right. */
  ghost predicate FirstGrants(ops: seq<VmRuns.Op>, u: nat, level: nat, bit: nat)
    requires level > 0 && IsRight(bit)
  {
    var x := FirstFlags(ops, u, level, None);
    x.Some? && Grants(x.value, bit)
  }

  lemma HoldsGrants(e: u64, x: Option<Flags>, bit: nat)
    requires Holds(e, x) && IsRight(bit)
    ensures Grants(e, bit) <==> x.Some? && Grants(x.value, bit)
  {
    match x {
      case None =>
      case Some(flags) =>
        if flags % 2 == 0 { assert (flags + 1) / 2 == flags / 2 && (flags + 1) / 4 == flags / 4; }
    }
  }

  /**
   * From an empty root, after any run the hardware grants a right on a page exactly when its own
   * latest mapping asked for it and so did the first mapping through each slot on its path.
   */
  lemma RightsOfEveryRun(k: Kernel, root: nat, ops: seq<VmRuns.Op>, u: nat, bit: nat)
    requires k.Sized() && HasFrame(k.ram, root) && root < |k.bits| && k.bits[root] && k.bits[0]
    requires forall i: nat :: i < 512 ==> Entry(k.ram, root, i) == 0
    requires VmRuns.Run(System(k, []), root, ops).Some? && u < PAGES && IsRight(bit)
    ensures Effective(VmRuns.Run(System(k, []), root, ops).value.k.ram, root, u, bit) <==>
            && Grants(EffectOfRun(ops, u, 0), bit)
            && FirstGrants(ops, u, 4, bit) && FirstGrants(ops, u, 3, bit) && FirstGrants(ops, u, 2, bit)
  {
    hide Good, Inv, VmRuns.Run, Entry, EffectOfRun, FirstFlags, Grants, Holds, Index;
    var t := map[root := Place(4, 0)];
    EmptyRootIsGood(k, root);
    BootKeepsInv(k, root, t);
    RunsFromEmptyRoot(k, root, ops);
    var m := VmRuns.Run(System(k, []), root, ops).value.k.ram;
    forall l: nat | 2 <= l <= 4 ensures Grants(EntryAt(m, root, u, l), bit) <==> FirstGrants(ops, u, l, bit) {
      NothingInEmptyRoot(k.ram, root, u, l);
      UpperOfRun(System(k, []), root, t, k.bits, ops, u, l, None);
      HoldsGrants(EntryAt(m, root, u, l), FirstFlags(ops, u, l, None), bit);
    }
  }

  lemma NothingInEmptyRoot(m: seq<u64>, root: nat, u: nat, l: nat)
    requires 2 <= l <= 4 && forall i: nat :: i < 512 ==> Entry(m, root, i) == 0
    ensures Holds(EntryAt(m, root, u, l), None)
  {
    hide Entry, Index;
    OnlyTheRoot(m, root, u, l);
  }

  /**
   * So the request is what the hardware grants, except when an older mapping through a slot on the
   * path asked for less.
   */
  lemma RightsAsAskedIff(k: Kernel, root: nat, ops: seq<VmRuns.Op>, u: nat, bit: nat)
    requires k.Sized() && HasFrame(k.ram, root) && root < |k.bits| && k.bits[root] && k.bits[0]
    requires forall i: nat :: i < 512 ==> Entry(k.ram, root, i) == 0
    requires VmRuns.Run(System(k, []), root, ops).Some? && u < PAGES && IsRight(bit)
    ensures (Effective(VmRuns.Run(System(k, []), root, ops).value.k.ram, root, u, bit)
             <==> Grants(EffectOfRun(ops, u, 0), bit))
       <==> (Grants(EffectOfRun(ops, u, 0), bit) ==>
               FirstGrants(ops, u, 4, bit) && FirstGrants(ops, u, 3, bit) && FirstGrants(ops, u, 2, bit))
  {
    hide VmRuns.Run, Entry, EffectOfRun, FirstGrants, Grants, Effective;
    RightsOfEveryRun(k, root, ops, u, bit);
  }

  lemma {:induction false} FirstStays(ops: seq<VmRuns.Op>, u: nat, level: nat, flags: Flags)
    requires level > 0
    ensures FirstFlags(ops, u, level, Some(flags)) == Some(flags)
    decreases |ops|
  {
    if ops != [] { FirstStays(ops[1..], u, level, flags); }
  }

  /** Mapping page 0 for reading and then page 1 for writing leaves page 1 unwritable. */
  lemma LaterPageIsNotWritable(k: Kernel, root: nat)
    requires k.Sized() && HasFrame(k.ram, root) && root < |k.bits| && k.bits[root] && k.bits[0]
    requires forall i: nat :: i < 512 ==> Entry(k.ram, root, i) == 0
    requires VmRuns.Run(System(k, []), root, [MapOp(0, 0, 0, 1), MapOp(4096, 4096, 2, 1)]).Some?
    ensures var ops := [MapOp(0, 0, 0, 1), MapOp(4096, 4096, 2, 1)];
            && Grants(EffectOfRun(ops, 1, 0), 2)
            && !Effective(VmRuns.Run(System(k, []), root, ops).value.k.ram, root, 1, 2)
  {
    hide VmRuns.Run, Entry, Effective;
    var ops := [MapOp(0, 0, 0, 1), MapOp(4096, 4096, 2, 1)];
    RightsOfEveryRun(k, root, ops, 1, 2);
    FirstTakesSlot(ops, 0, 1, 2);
    LastEntry();
  }

  /** The first call of a run decides the flags of every slot it comes through. */
  lemma FirstTakesSlot(ops: seq<VmRuns.Op>, v: nat, u: nat, level: nat)
    requires ops != [] && ops[0].MapOp? && ops[0].n > 0 && v == Page(ops[0].virt) && level > 0 && SameSlot(u, v, level)
    ensures FirstFlags(ops, u, level, None) == Some(ops[0].flags)
  {
    hide Page, SameSlot;
    OffsetOfNext(ops[0].virt, v);
    assert Covers(ops[0].virt, ops[0].n, u, level);
    FirstStays(ops[1..], u, level, ops[0].flags);
  }

  lemma LastEntry()
    ensures Grants(EffectOfRun([MapOp(0, 0, 0, 1), MapOp(4096, 4096, 2, 1)], 1, 0), 2)
  {
    var ops := [MapOp(0, 0, 0, 1), MapOp(4096, 4096, 2, 1)];
    hide Pte;
    assert ops[1..] == [MapOp(4096, 4096, 2, 1)];
    assert ops[1..][1..] == [];
    assert Page(4096) == 1 && Offset(4096, 1) == 0 && FrameFor(4096, 0) == 4096;
    assert Effect(ops[1], 1, Effect(ops[0], 1, 0)) == Pte(4096, 2);
    assert EffectOfRun(ops[1..], 1, Effect(ops[0], 1, 0)) == Pte(4096, 2);
    PteGrants(4096, 2, 2);
  }
}
