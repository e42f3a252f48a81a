/** kernel/src/mem/vmm.c as it runs: entries written in place in physical memory. */
module Vmm {
  import opened Words
  import opened Options
  import opened Ram
  import opened Paging
  import BitSeq
  import opened PageOwnership
  import opened PageTables
  import opened Mapping
  import opened Pmm

  class AddressSpace {
    /** Physical memory, reached by the kernel through the higher-half direct map. */
    const ram: array<u64>
    const pmm: PageAllocator
    /** Frame of the root table. */
    const p4: nat
    /** Where each table frame stands in the tree. */
    ghost var tables: Tables

    ghost predicate Valid()
      reads this, ram, pmm, pmm.bitmap, if pmm.bitmap == null then {} else {pmm.bitmap.data}
    {
      pmm.Valid() && Good(State(), p4, tables)
    }

    ghost function State(): Kernel
      requires pmm.Valid()
      reads this, ram, pmm, pmm.bitmap, pmm.bitmap.data
    {
      Kernel(pmm.Bits(), ram[..])
    }

    constructor (ram: array<u64>, pmm: PageAllocator, p4: nat, ghost tables: Tables)
      requires pmm.Valid() && Good(Kernel(pmm.Bits(), ram[..]), p4, tables)
      ensures Valid() && this.ram == ram && this.pmm == pmm && this.p4 == p4
      ensures State() == Kernel(pmm.Bits(), ram[..]) && this.tables == tables
    {
      this.ram := ram;
      this.pmm := pmm;
      this.p4 := p4;
      this.tables := tables;
    }

    lemma TakenFits(bits: seq<bool>, pages: nat)
      requires pages > 0 && TakePages(bits, pages).Some?
      ensures var addr := TakePages(bits, pages).value.0;
              addr % PAGE_SIZE == 0 && addr / PAGE_SIZE + pages <= |bits|
    {
      BitSeq.FirstFitFromIsLeast(bits, pages, 0);
    }

    /** pmmZeroAlloc. */
    method ZeroAlloc(pages: nat) returns (r: Option<nat>)
      requires pmm.Valid() && 512 * |pmm.Bits()| <= ram.Length && pages > 0
      modifies pmm.bitmap.data, ram
      ensures pmm.Valid()
      ensures match TakePages(old(pmm.Bits()), pages)
              case None => r == None && State() == old(State())
              case Some((addr, bits)) =>
                && r == Some(addr) && pmm.Bits() == bits && addr + PAGE_SIZE * pages <= 8 * ram.Length
                && ram[..] == ZeroedPages(old(ram[..]), addr / PAGE_SIZE, pages)
    {
      if TakePages(pmm.Bits(), pages).Some? { TakenFits(pmm.Bits(), pages); }
      hide TakePages;
      r := pmm.Alloc(pages);
      if r.Some? {
        ZeroPages(ram, r.value / PAGE_SIZE, pages);
      }
    }

    /** pmmZeroAlloc(1), as a frame number. */
    method ZeroFrame() returns (r: Option<nat>)
      requires pmm.Valid() && 512 * |pmm.Bits()| <= ram.Length
      modifies pmm.bitmap.data, ram
      ensures pmm.Valid()
      ensures match TakePages(old(pmm.Bits()), 1)
              case None => r == None && State() == old(State())
              case Some((addr, bits)) =>
                r == Some(addr / PAGE_SIZE) && pmm.Bits() == bits
                && ram[..] == ZeroedPages(old(ram[..]), addr / PAGE_SIZE, 1)
    {
      var addr := ZeroAlloc(1);
      match addr {
        case None => r := None;
        case Some(a) => r := Some(a / PAGE_SIZE);
      }
    }

    method ReadEntry(f: nat, i: nat) returns (e: u64)
      requires HasFrame(ram[..], f) && i < 512
      ensures e == Entry(ram[..], f, i)
    {
      e := ram[512 * f + i];
    }

    method WriteEntry(f: nat, i: nat, e: u64)
      requires HasFrame(ram[..], f) && i < 512
      modifies ram
      ensures ram[..] == SetEntry(old(ram[..]), f, i, e)
    {
      ram[512 * f + i] := e;
    }

    lemma FrameFits(k: Kernel, f: nat)
      requires k.Sized() && TakePages(k.bits, 1).Some? && f == TakePages(k.bits, 1).value.0 / PAGE_SIZE
      ensures f < FRAME_LIMIT
    {
    }

    lemma NoGrowth(k: Kernel, t: Tables)
      ensures Grew(k, t, k, t) && SameTranslations(k.ram, k.ram, p4)
    {
      hide Entry, Translate;
    }

    /** One level of vmmWalk: fill an empty slot if asked to. False when memory has run out. */
    method Fill(f: nat, i: nat, allocate: bool, flags: nat) returns (ok: bool)
      requires Valid() && f in tables && tables[f].level >= 2 && i < 512 && flags < 4096
      modifies pmm.bitmap.data, ram, `tables
      ensures Valid() && Grew(old(State()), old(tables), State(), tables)
      ensures SameTranslations(old(ram[..]), ram[..], p4)
      ensures match Ensure(old(State()), f, i, allocate, flags)
              case None => !ok && State() == old(State())
              case Some(k) => ok && State() == k
    {
      hide Good, Grew, Tree, Entry, SetEntry, Pte, FrameOf, TableAt, Translate, SameTranslations, ZeroedPages;
      ghost var k := State();
      NoGrowth(k, tables);
      GoodIsSized(k, p4, tables);
      TableIsInMemory(k, p4, tables, f);
      var e := ReadEntry(f, i);
      if allocate && e == 0 {
        var frame := ZeroFrame();
        if frame == None {
          return false;
        }
        FrameFits(k, frame.value);
        WriteEntry(f, i, Pte(PAGE_SIZE * frame.value, flags));
        tables := EnsureGrows(k, p4, tables, f, i, flags);
      }
      ok := true;
    }

    /** One level of the walk: where Child leads is the next table for this page. */
    lemma Descends(k: Kernel, t: Tables, v: nat, level: nat, f: nat)
      requires Good(k, p4, t) && v < PAGES && 2 <= level <= 4 && f in t && Stands(t, f, v, level)
      ensures TableAt(k.ram, p4, v, level) == Some(f) && HasFrame(k.ram, f)
      ensures match Child(k.ram, f, Index(v, level))
              case None => true
              case Some(g) => g in t && Stands(t, g, v, level - 1)
    {
      StandingTablesAreReached(k.ram, p4, t, f, v);
      if Child(k.ram, f, Index(v, level)).Some? {
        ReachedTablesStand(k.ram, p4, t, v, level - 1);
      }
    }

    lemma RootStands(k: Kernel, t: Tables, v: nat)
      requires Good(k, p4, t) && v < PAGES
      ensures p4 in t && Stands(t, p4, v, 4)
    {
      ReachedTablesStand(k.ram, p4, t, v, 4);
    }

    method Walk(virt: u64, allocate: bool, flags: nat) returns (r: Walked)
      requires Valid() && flags < 4096
      modifies pmm.bitmap.data, ram, `tables
      ensures Valid() && Grew(old(State()), old(tables), State(), tables)
      ensures SameTranslations(old(ram[..]), ram[..], p4)
      ensures (r, State()) == Mapping.Walk(old(State()), p4, virt, allocate, flags)
      ensures r.Table? ==> r.frame in tables && Stands(tables, r.frame, Page(virt), 1)
    {
      hide Good, Grew, Tree, Ensure, Entry, Index, Prefix, FrameOf, TableAt, Translate, Page, PAGES, P4, P3, P2;
      IndicesOfAddress(virt);
      ghost var v := Page(virt);
      ghost var k, t := State(), tables;
      GoodIsSized(k, p4, t);
      RootStands(k, t, v);

      var ok := Fill(p4, P4(virt), allocate, flags);
      if !ok {
        return OutOfMemory;
      }
      ghost var k4, t4 := State(), tables;
      GoodIsSized(k4, p4, t4);
      GrewKeepsPlaces(k, t, k4, t4, p4);
      Descends(k4, t4, v, 4, p4);
      var e4 := ReadEntry(p4, P4(virt));
      if e4 == 0 {
        return NullTable;
      }
      var p3 := FrameOf(e4);

      ok := Fill(p3, P3(virt), allocate, flags);
      GrewTransitively(k, t, k4, t4, State(), tables);
      if !ok {
        return OutOfMemory;
      }
      ghost var k3, t3 := State(), tables;
      GoodIsSized(k3, p4, t3);
      GrewKeepsPlaces(k4, t4, k3, t3, p3);
      Descends(k3, t3, v, 3, p3);
      var e3 := ReadEntry(p3, P3(virt));
      if e3 == 0 {
        return NullTable;
      }
      var p2 := FrameOf(e3);

      ok := Fill(p2, P2(virt), allocate, flags);
      GrewTransitively(k, t, k3, t3, State(), tables);
      if !ok {
        return OutOfMemory;
      }
      ghost var k2, t2 := State(), tables;
      GoodIsSized(k2, p4, t2);
      GrewKeepsPlaces(k3, t3, k2, t2, p2);
      Descends(k2, t2, v, 2, p2);
      var e2 := ReadEntry(p2, P2(virt));
      if e2 == 0 {
        return NoTable;
      }
      r := Table(FrameOf(e2));
    }

    lemma GrewKeepsPlaces(k: Kernel, t: Tables, k': Kernel, t': Tables, f: nat)
      requires Grew(k, t, k', t') && f in t
      ensures f in t' && t'[f] == t[f]
    {
    }

    /** False when the page allocator has panicked. */
    method Map(virt: u64, phys: u64, flags: nat) returns (ok: bool)
      requires Valid() && flags < 4096
      modifies pmm.bitmap.data, ram, `tables
      ensures ok ==> Valid()
      ensures match Mapping.Map(old(State()), p4, virt, phys, flags)
              case None => !ok
              case Some(k) => ok && State() == k
      ensures ok ==> Rewritten(old(ram[..]), ram[..], p4, Page(virt), Pte(phys, flags))
    {
      hide Good, Grew, Rewritten, Tree, Ensure, Entry, Index, Prefix, TableAt, Translate, Page, P1, Pte, WalkFrom;
      ghost var k, t := State(), tables;
      GoodIsSized(k, p4, t);
      var r := Walk(virt, true, flags);
      match r {
        case Table(p1) =>
          TableIsInMemory(State(), p4, tables, p1);
          WriteEntry(p1, P1(virt), Pte(phys, flags));
          assert Mapping.Map(k, p4, virt, phys, flags) == Some(State());
          tables := MapChangesOnePage(k, p4, t, virt, phys, flags);
          ok := true;
        case _ => ok := false;
      }
    }

    method MapPages(virt: u64, phys: u64, flags: nat, n: nat) returns (ok: bool)
      requires Valid() && flags < 4096 && n < 0x8000_0000
      modifies pmm.bitmap.data, ram, `tables
      ensures ok ==> Valid()
      ensures match Mapping.MapPages(old(State()), p4, virt, phys, flags, n)
              case None => !ok
              case Some(k) => ok && State() == k
      ensures ok ==> Mapped(old(ram[..]), ram[..], p4, virt, phys, flags, n)
    {
      hide Good, Mapping.Map, Mapped, Rewritten, NextPage, Page, Pte;
      ghost var k := State();
      GoodIsSized(k, p4, tables);
      var currVirt, currPhys, left := virt, phys, n;
      while left > 0
        invariant 0 <= left <= n && Valid() && State().Sized()
        invariant Mapping.MapPages(k, p4, virt, phys, flags, n) ==
                  Mapping.MapPages(State(), p4, currVirt, currPhys, flags, left)
      {
        ok := Map(currVirt, currPhys, flags);
        if !ok {
          return false;
        }
        GoodIsSized(State(), p4, tables);
        currVirt, currPhys := NextPage(currVirt), NextPage(currPhys);
        left := left - 1;
      }
      ok := true;
      ghost var k', t' := MapPagesChangesNPages(k, p4, old(tables), virt, phys, flags, n);
    }

    /** False when the walk read through a missing upper table. */
    method Unmap(virt: u64) returns (ok: bool)
      requires Valid()
      modifies pmm.bitmap.data, ram, `tables
      ensures match Mapping.Unmap(old(State()), p4, virt)
              case None => !ok
              case Some(k) => ok && State() == k && Valid() && tables == old(tables)
      ensures ok <==> TableAt(old(ram[..]), p4, Page(virt), 2).Some?
      ensures ok ==> Rewritten(old(ram[..]), ram[..], p4, Page(virt), 0)
    {
      hide Good, Grew, Rewritten, Tree, Ensure, Entry, Index, Prefix, TableAt, Translate, Page, P1, WalkFrom;
      ghost var k, t := State(), tables;
      GoodIsSized(k, p4, t);
      UnmapChangesOnePage(k, p4, t, virt);
      LookingWalkKeeps(k, t, virt);
      var r := Walk(virt, false, 0);
      tables := t;
      match r {
        case NoTable => return true;
        case Table(p1) =>
          WalkTableInMemory(k, t, virt);
          WriteEntry(p1, P1(virt), 0);
          return true;
        case _ => return false;
      }
    }

    lemma LookingWalkKeeps(k: Kernel, t: Tables, virt: u64)
      requires Good(k, p4, t)
      ensures k.Sized() && Mapping.Walk(k, p4, virt, false, 0).1 == k
    {
      RootIsReached(k.ram, p4, Page(virt));
      WalkOnlyLooks(k, p4, p4, 4, Page(virt));
    }

    lemma WalkTableInMemory(k: Kernel, t: Tables, virt: u64)
      requires Good(k, p4, t) && Mapping.Walk(k, p4, virt, false, 0).0.Table?
      ensures HasFrame(k.ram, Mapping.Walk(k, p4, virt, false, 0).0.frame)
    {
      hide TableAt, WalkFrom, Page, PAGES;
      RootIsReached(k.ram, p4, Page(virt));
      WalkOnlyLooks(k, p4, p4, 4, Page(virt));
      ReachedTablesStand(k.ram, p4, t, Page(virt), 1);
    }

    method UnmapPages(virt: u64, n: nat) returns (ok: bool)
      requires Valid() && n < 0x8000_0000
      modifies pmm.bitmap.data, ram, `tables
      ensures match Mapping.UnmapPages(old(State()), p4, virt, n)
              case None => !ok
              case Some(k) => ok && State() == k && Valid() && tables == old(tables)
      ensures ok ==> Unmapped(old(ram[..]), ram[..], p4, virt, n)
    {
      hide Good, Mapping.Unmap, Unmapped, Rewritten, NextPage, Page, TableAt;
      ghost var k := State();
      GoodIsSized(k, p4, tables);
      var curr, left := virt, n;
      while left > 0
        invariant 0 <= left <= n && Valid() && State().Sized() && tables == old(tables)
        invariant Mapping.UnmapPages(k, p4, virt, n) == Mapping.UnmapPages(State(), p4, curr, left)
      {
        ok := Unmap(curr);
        if !ok {
          return false;
        }
        GoodIsSized(State(), p4, tables);
        curr := NextPage(curr);
        left := left - 1;
      }
      UnmapPagesChangesNPages(k, p4, tables, virt, n);
      ok := true;
    }
  }
}
