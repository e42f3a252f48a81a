/** The page-table tree of kernel/src/mem/vmm.c as a value, and what a walk of it finds. */
module PageTables {
  import opened Words
  import opened Options
  import opened Ram
  import opened Paging
  import opened PageOwnership

  /** Table of the given level on the walk for page v; the root is at level 4. */
  function TableAt(m: seq<u64>, root: nat, v: nat, level: nat): Option<nat>
    requires 1 <= level <= 4
    decreases 4 - level
  {
    if level == 4 then Some(root)
    else match TableAt(m, root, v, level + 1)
      case None => None
      case Some(f) => Child(m, f, Index(v, level + 1))
  }

  /** vmmGetPageTable on slot i of table f; an empty slot gives the null table. */
  function Child(m: seq<u64>, f: nat, i: nat): Option<nat> {
    if Entry(m, f, i) == 0 then None else Some(FrameOf(Entry(m, f, i)))
  }

  /** The entry the hardware walk ends at for page v, 0 when a table on the way is missing. */
  function Translate(m: seq<u64>, root: nat, v: nat): u64 {
    match TableAt(m, root, v, 1)
    case None => 0
    case Some(f) => Entry(m, f, Index(v, 1))
  }

  /** In words of memory: four loads, each at the next 9 bits of the address, stopping at an entry that is 0. */
  lemma TranslateIsFourLoads(m: seq<u64>, root: nat, virt: u64, f3: nat, f2: nat, f1: nat)
    requires HasFrame(m, root) && HasFrame(m, f3) && HasFrame(m, f2) && HasFrame(m, f1)
    requires f3 == m[512 * root + virt / 0x80_0000_0000 % 512] / 4096 % 0x4_0000_0000_0000
    requires f2 == m[512 * f3 + virt / 0x4000_0000 % 512] / 4096 % 0x4_0000_0000_0000
    requires f1 == m[512 * f2 + virt / 0x20_0000 % 512] / 4096 % 0x4_0000_0000_0000
    ensures Translate(m, root, Page(virt)) ==
            if m[512 * root + virt / 0x80_0000_0000 % 512] == 0 then 0
            else if m[512 * f3 + virt / 0x4000_0000 % 512] == 0 then 0
            else if m[512 * f2 + virt / 0x20_0000 % 512] == 0 then 0
            else m[512 * f1 + virt / 0x1000 % 512]
  {
    hide Index, FrameOf, Page;
    IndicesOfAddress(virt);
    FrameIsBits(m[512 * root + virt / 0x80_0000_0000 % 512]);
    FrameIsBits(m[512 * f3 + virt / 0x4000_0000 % 512]);
    FrameIsBits(m[512 * f2 + virt / 0x20_0000 % 512]);
  }

  /** The one place a table frame has in the tree. */
  datatype Place = Place(level: nat, prefix: nat)

  type Tables = map<nat, Place>

  predicate Stands(t: Tables, f: nat, v: nat, level: nat) {
    f in t && t[f] == Place(level, Prefix(v, level))
  }

  /**
   * t lists the tables that walks reach, each with the only place it has: no frame is
   * reached on two paths or at two levels, so the tables form an unshared, acyclic tree.
   */
  ghost predicate Tree(m: seq<u64>, root: nat, t: Tables)
  {
    && (forall f :: f in t ==> HasFrame(m, f) && 1 <= t[f].level <= 4)
    && (forall v: nat, l: nat :: v < PAGES && 1 <= l <= 4 && TableAt(m, root, v, l).Some? ==>
          Stands(t, TableAt(m, root, v, l).value, v, l))
    && (forall f, v: nat :: f in t && v < PAGES && Stands(t, f, v, t[f].level) ==>
          TableAt(m, root, v, t[f].level) == Some(f))
    && (forall f :: f in t ==> Inhabited(t[f]))
  }

  /** Some page's walk passes through this place. */
  predicate Inhabited(p: Place) {
    exists v: nat :: v < PAGES && Prefix(v, p.level) == p.prefix
  }

  /** m with slot i of table f pointing to the freshly zeroed frame c. */
  function Linked(m: seq<u64>, f: nat, i: nat, c: nat, flags: nat): seq<u64>
    requires flags < 4096 && c < FRAME_LIMIT
  {
    SetEntry(ZeroedPages(m, c, 1), f, i, Pte(4096 * c, flags))
  }

  lemma EntryOfLinked(m: seq<u64>, f: nat, i: nat, c: nat, flags: nat, g: nat, j: nat)
    requires HasFrame(m, f) && i < 512 && flags < 4096 && j < 512 && c < FRAME_LIMIT
    ensures Entry(Linked(m, f, i, c, flags), g, j) ==
            if g == f && j == i then Pte(4096 * c, flags) else if g == c then 0 else Entry(m, g, j)
  {
    EntryAfterZero(m, c, g, j);
    EntryAfterSet(ZeroedPages(m, c, 1), f, i, Pte(4096 * c, flags), g, j);
  }

  /** Walks after linking a table: as before, or now reaching the new table just below the filled slot. */
  lemma {:induction false} WalkAfterLink(
      m: seq<u64>, root: nat, t: Tables, f: nat, i: nat, c: nat, flags: nat, v: nat, l: nat)
    requires Tree(m, root, t) && f in t && 2 <= t[f].level && i < 512 && flags < 4096
    requires Entry(m, f, i) == 0 && c !in t && c < FRAME_LIMIT
    requires v < PAGES && 1 <= l <= 4
    ensures var now, before := TableAt(Linked(m, f, i, c, flags), root, v, l), TableAt(m, root, v, l);
            || now == before
            || (now == Some(c) && before == None && l == t[f].level - 1
                && Prefix(v, t[f].level) == t[f].prefix && Index(v, t[f].level) == i)
    decreases 4 - l
  {
    if l < 4 {
      hide Index, Prefix, Linked, Pte, FrameOf, PAGES;
      WalkAfterLink(m, root, t, f, i, c, flags, v, l + 1);
      var m' := Linked(m, f, i, c, flags);
      match TableAt(m', root, v, l + 1) {
        case None =>
        case Some(g) =>
          EntryOfLinked(m, f, i, c, flags, g, Index(v, l + 1));
          FrameOfPte(c, flags);
          if g != c {
            assert Stands(t, g, v, l + 1);
          }
      }
    }
  }

  /** Where a child linked at slot i of a table at place p stands. */
  function Below(p: Place, i: nat): Place
    requires p.level > 0
  {
    Place(p.level - 1, 512 * p.prefix + i)
  }

  /** A fresh frame linked into an empty slot extends the tree by exactly that table ... */
  lemma LinkKeepsTree(m: seq<u64>, root: nat, t: Tables, f: nat, i: nat, c: nat, flags: nat)
    requires Tree(m, root, t) && f in t && 2 <= t[f].level && i < 512 && flags < 4096
    requires Entry(m, f, i) == 0 && c !in t && c < FRAME_LIMIT && HasFrame(m, c)
    ensures Tree(Linked(m, f, i, c, flags), root, t[c := Below(t[f], i)])
  {
    hide Index, Prefix, Linked, Pte, FrameOf, PAGES, TableAt, Entry, SetEntry;
    var m' := Linked(m, f, i, c, flags);
    var t' := t[c := Below(t[f], i)];
    assert |m'| == |m| by { LinkedLength(m, f, i, c, flags); }
    forall v: nat, l: nat | v < PAGES && 1 <= l <= 4 && TableAt(m', root, v, l).Some?
      ensures Stands(t', TableAt(m', root, v, l).value, v, l)
    {
      WalkAfterLink(m, root, t, f, i, c, flags, v, l);
      if TableAt(m', root, v, l) != TableAt(m, root, v, l) {
        PrefixSplits(v, l + 1);
      }
    }
    forall g, v: nat | g in t' && v < PAGES && Stands(t', g, v, t'[g].level)
      ensures TableAt(m', root, v, t'[g].level) == Some(g)
    {
      if g == c {
        NewTableIsReached(m, root, t, f, i, c, flags, v);
      } else {
        assert Stands(t, g, v, t[g].level);
        WalkAfterLink(m, root, t, f, i, c, flags, v, t[g].level);
      }
    }
    assert Inhabited(t'[c]) by { SlotIsInhabited(t[f], i); }
  }

  lemma LinkedLength(m: seq<u64>, f: nat, i: nat, c: nat, flags: nat)
    requires flags < 4096 && c < FRAME_LIMIT
    ensures |Linked(m, f, i, c, flags)| == |m|
  {
  }

  lemma NewTableIsReached(
      m: seq<u64>, root: nat, t: Tables, f: nat, i: nat, c: nat, flags: nat, v: nat)
    requires Tree(m, root, t) && f in t && 2 <= t[f].level && i < 512 && flags < 4096
    requires Entry(m, f, i) == 0 && c !in t && c < FRAME_LIMIT
    requires v < PAGES && Prefix(v, t[f].level - 1) == 512 * t[f].prefix + i
    ensures TableAt(Linked(m, f, i, c, flags), root, v, t[f].level - 1) == Some(c)
  {
    hide Index, Prefix, Linked, Pte, FrameOf, PAGES;
    var l := t[f].level;
    PrefixSplits(v, l);
    assert Stands(t, f, v, l);
    WalkAfterLink(m, root, t, f, i, c, flags, v, l);
    EntryOfLinked(m, f, i, c, flags, f, i);
    FrameOfPte(c, flags);
  }

  lemma SlotIsInhabited(p: Place, i: nat)
    requires 2 <= p.level <= 4 && Inhabited(p) && i < 512
    ensures Inhabited(Below(p, i))
  {
    var v: nat :| v < PAGES && Prefix(v, p.level) == p.prefix;
    var w := (if p.level == 4 then 0 else if p.level == 3 then p.prefix * 0x800_0000 else p.prefix * 0x4_0000)
           + i * (if p.level == 4 then 0x800_0000 else if p.level == 3 then 0x4_0000 else 512);
    assert w < PAGES && Prefix(w, p.level - 1) == 512 * p.prefix + i;
  }

  /** ... and changes no translation. */
  lemma LinkKeepsTranslations(
      m: seq<u64>, root: nat, t: Tables, f: nat, i: nat, c: nat, flags: nat, v: nat)
    requires Tree(m, root, t) && f in t && 2 <= t[f].level && i < 512 && flags < 4096
    requires Entry(m, f, i) == 0 && c !in t && c < FRAME_LIMIT
    requires v < PAGES
    ensures Translate(Linked(m, f, i, c, flags), root, v) == Translate(m, root, v)
  {
    hide Index, Prefix, Linked, Pte, FrameOf, PAGES, Entry;
    WalkAfterLink(m, root, t, f, i, c, flags, v, 1);
    match TableAt(Linked(m, f, i, c, flags), root, v, 1) {
      case None =>
      case Some(g) =>
        EntryOfLinked(m, f, i, c, flags, g, Index(v, 1));
        if g != c {
          assert Stands(t, g, v, 1);
        }
    }
  }

  /** A write outside the tables above level 1 leaves every table where it was. */
  lemma {:induction false} WalkAfterWrite(
      m: seq<u64>, root: nat, t: Tables, g: nat, j: nat, w: u64, v: nat, l: nat)
    requires Tree(m, root, t) && HasFrame(m, g) && j < 512 && (g in t ==> t[g].level == 1)
    requires v < PAGES && 1 <= l <= 4
    ensures TableAt(SetEntry(m, g, j, w), root, v, l) == TableAt(m, root, v, l)
    decreases 4 - l
  {
    if l < 4 {
      hide Index, Prefix, FrameOf, PAGES, SetEntry, Entry;
      WalkAfterWrite(m, root, t, g, j, w, v, l + 1);
      match TableAt(m, root, v, l + 1) {
        case None =>
        case Some(f) =>
          assert Stands(t, f, v, l + 1);
          EntryAfterSet(m, g, j, w, f, Index(v, l + 1));
      }
    }
  }

  lemma WriteKeepsTree(m: seq<u64>, root: nat, t: Tables, g: nat, j: nat, w: u64)
    requires Tree(m, root, t) && HasFrame(m, g) && j < 512 && (g in t ==> t[g].level == 1)
    ensures Tree(SetEntry(m, g, j, w), root, t)
  {
    hide Index, Prefix, FrameOf, PAGES, TableAt;
    var m' := SetEntry(m, g, j, w);
    assert |m'| == |m|;
    forall v: nat, l: nat | v < PAGES && 1 <= l <= 4
      ensures TableAt(m', root, v, l) == TableAt(m, root, v, l)
    {
      WalkAfterWrite(m, root, t, g, j, w, v, l);
    }
  }

  /** Writing a last-level slot changes the translation of the one page it stands for. */
  lemma LeafWriteChangesOnePage(m: seq<u64>, root: nat, t: Tables, v: nat, f: nat, w: u64, u: nat)
    requires Tree(m, root, t) && v < PAGES && u < PAGES && TableAt(m, root, v, 1) == Some(f)
    ensures Translate(SetEntry(m, f, Index(v, 1), w), root, u) ==
            if u == v then w else Translate(m, root, u)
  {
    hide TableAt, SetEntry, Entry, FrameOf;
    assert Stands(t, f, v, 1);
    WalkAfterWrite(m, root, t, f, Index(v, 1), w, u, 1);
    match TableAt(m, root, u, 1) {
      case None =>
      case Some(g) =>
        assert Stands(t, g, u, 1);
        EntryAfterSet(m, f, Index(v, 1), w, g, Index(u, 1));
    }
  }

  /** Memory that is no table can be written freely: no translation notices. */
  lemma OtherWritesChangeNothing(m: seq<u64>, root: nat, t: Tables, g: nat, j: nat, w: u64, v: nat)
    requires Tree(m, root, t) && HasFrame(m, g) && j < 512 && g !in t && v < PAGES
    ensures Translate(SetEntry(m, g, j, w), root, v) == Translate(m, root, v)
  {
    hide TableAt, SetEntry, Entry, FrameOf, Index, Prefix, PAGES;
    WalkAfterWrite(m, root, t, g, j, w, v, 1);
    match TableAt(m, root, v, 1) {
      case None =>
      case Some(f) =>
        assert Stands(t, f, v, 1);
        EntryAfterSet(m, g, j, w, f, Index(v, 1));
    }
  }

  /** A memory with the same words in all tables has the same walks ... */
  lemma {:induction false} SameTablesSameWalks(m: seq<u64>, m': seq<u64>, root: nat, t: Tables, v: nat, l: nat)
    requires Tree(m, root, t) && v < PAGES && 1 <= l <= 4
    requires forall f, i: nat :: f in t && i < 512 ==> Entry(m', f, i) == Entry(m, f, i)
    ensures TableAt(m', root, v, l) == TableAt(m, root, v, l)
    decreases 4 - l
  {
    hide Entry, Prefix, Index;
    if l < 4 {
      SameTablesSameWalks(m, m', root, t, v, l + 1);
    }
  }

  /** ... the same tree, and the same translations. */
  lemma SameTablesSameTree(m: seq<u64>, m': seq<u64>, root: nat, t: Tables)
    requires Tree(m, root, t) && |m'| == |m|
    requires forall f, i: nat :: f in t && i < 512 ==> Entry(m', f, i) == Entry(m, f, i)
    ensures Tree(m', root, t)
    ensures forall v: nat :: v < PAGES ==> Translate(m', root, v) == Translate(m, root, v)
  {
    hide Entry, Prefix, Index, Inhabited;
    forall v: nat, l: nat | v < PAGES && 1 <= l <= 4 ensures TableAt(m', root, v, l) == TableAt(m, root, v, l) {
      SameTablesSameWalks(m, m', root, t, v, l);
    }
  }

  /** Two filled slots of upper tables never lead to the same frame. */
  lemma TablesAreNotShared(m: seq<u64>, root: nat, t: Tables, v: nat, l: nat, u: nat, k: nat)
    requires Tree(m, root, t) && v < PAGES && u < PAGES && 1 <= l <= 4 && 1 <= k <= 4
    requires TableAt(m, root, v, l).Some? && TableAt(m, root, v, l) == TableAt(m, root, u, k)
    ensures l == k && Prefix(v, l) == Prefix(u, k)
  {
    hide TableAt;
    var f := TableAt(m, root, v, l).value;
    assert Stands(t, f, v, l) && Stands(t, f, u, k);
  }
}

/** The operations of vmm.c on the whole state: the page allocator's set and memory. */
module Mapping {
  import opened Words
  import opened Options
  import opened Ram
  import opened Paging
  import opened BitSeq
  import opened PageOwnership
  import opened PageTables

  datatype Kernel = Kernel(bits: seq<bool>, ram: seq<u64>) {
    ghost predicate Sized() {
      |bits| <= FRAME_LIMIT && 512 * |bits| <= |ram|
    }
  }

  /**
   * What vmmWalk comes back with. A null upper table that is read through is a fault, unless virtual
   * page 0 is mapped.
   */
  datatype Walked = Table(frame: nat) | NoTable | NullTable | OutOfMemory

  /** One level: fill slot i of table f from the page allocator when asked to and empty. */
  function Ensure(k: Kernel, f: nat, i: nat, allocate: bool, flags: nat): (r: Option<Kernel>)
    requires k.Sized() && flags < 4096
    ensures r.Some? ==> r.value.Sized()
  {
    if !allocate || Entry(k.ram, f, i) != 0 then Some(k)
    else match TakePages(k.bits, 1)
      case None => None
      case Some((addr, bits)) => Some(Kernel(bits, Linked(k.ram, f, i, addr / PAGE_SIZE, flags)))
  }

  /** vmmWalk for page v from table f of the given level down to the last-level table. */
  function WalkFrom(k: Kernel, f: nat, level: nat, v: nat, allocate: bool, flags: nat)
    : (r: (Walked, Kernel))
    requires k.Sized() && flags < 4096 && 2 <= level <= 4
    ensures r.1.Sized()
    decreases level
  {
    match Ensure(k, f, Index(v, level), allocate, flags)
    case None => (OutOfMemory, k)
    case Some(k') =>
      match Child(k'.ram, f, Index(v, level))
      case None => (if level == 2 then NoTable else NullTable, k')
      case Some(g) => if level == 2 then (Table(g), k') else WalkFrom(k', g, level - 1, v, allocate, flags)
  }

  function Walk(k: Kernel, root: nat, virt: u64, allocate: bool, flags: nat): (r: (Walked, Kernel))
    requires k.Sized() && flags < 4096
    ensures r.1.Sized()
  {
    WalkFrom(k, root, 4, Page(virt), allocate, flags)
  }

  /** vmmMap; None when the page allocator panics. */
  function Map(k: Kernel, root: nat, virt: u64, phys: u64, flags: nat): (r: Option<Kernel>)
    requires k.Sized() && flags < 4096
    ensures r.Some? ==> r.value.Sized()
  {
    match Walk(k, root, virt, true, flags)
    case (Table(f), k') => Some(k'.(ram := SetEntry(k'.ram, f, P1(virt), Pte(phys, flags))))
    case _ => None
  }

  /** vmmUnmap; None when the walk reads through a null table. */
  function Unmap(k: Kernel, root: nat, virt: u64): (r: Option<Kernel>)
    requires k.Sized()
    ensures r.Some? ==> r.value.Sized()
  {
    match Walk(k, root, virt, false, 0)
    case (Table(f), _) => Some(k.(ram := SetEntry(k.ram, f, P1(virt), 0)))
    case (NoTable, _) => Some(k)
    case _ => None
  }

  /** The address one page on, wrapping at 64 bits. */
  function NextPage(a: u64): u64 {
    (a + PAGE_SIZE) % 0x1_0000_0000_0000_0000
  }

  function MapPages(k: Kernel, root: nat, virt: u64, phys: u64, flags: nat, n: nat): (r: Option<Kernel>)
    requires k.Sized() && flags < 4096
    ensures r.Some? ==> r.value.Sized()
    decreases n
  {
    if n == 0 then Some(k)
    else match Map(k, root, virt, phys, flags)
      case None => None
      case Some(k') => MapPages(k', root, NextPage(virt), NextPage(phys), flags, n - 1)
  }

  function UnmapPages(k: Kernel, root: nat, virt: u64, n: nat): (r: Option<Kernel>)
    requires k.Sized()
    ensures r.Some? ==> r.value.Sized()
    decreases n
  {
    if n == 0 then Some(k)
    else match Unmap(k, root, virt)
      case None => None
      case Some(k') => UnmapPages(k', root, NextPage(virt), n - 1)
  }

  /** The tables are laid out as t says, and the page allocator will not hand any of them out. */
  ghost predicate Good(k: Kernel, root: nat, t: Tables)
  {
    && k.Sized()
    && Tree(k.ram, root, t)
    && forall f :: f in t && f < |k.bits| ==> k.bits[f]
  }

  /**
   * From (k, t) to (k', t') only new tables were added, on frames that were free. Memory that
   * is no table was not written, and a filled slot of an upper table still holds what it held.
   */
  ghost predicate Grew(k: Kernel, t: Tables, k': Kernel, t': Tables)
  {
    && |k'.bits| == |k.bits| && |k'.ram| == |k.ram|
    && (forall f :: f in t ==> f in t' && t'[f] == t[f])
    && (forall p: nat :: p < |k.bits| ==> k'.bits[p] == (k.bits[p] || (p in t' && p !in t)))
    && (forall f :: f in t' && f !in t ==> f < |k.bits| && !k.bits[f])
    && (forall g: nat, i: nat :: i < 512 && g !in t' ==> Entry(k'.ram, g, i) == Entry(k.ram, g, i))
    && (forall g: nat, i: nat :: i < 512 && g in t && t[g].level >= 2 && Entry(k.ram, g, i) != 0 ==>
          Entry(k'.ram, g, i) == Entry(k.ram, g, i))
  }

  /** The entry of page v becomes w; every other page keeps its own. */
  ghost predicate Rewritten(m: seq<u64>, m': seq<u64>, root: nat, v: nat, w: u64)
  {
    forall u: nat :: u < PAGES ==> Translate(m', root, u) == if u == v then w else Translate(m, root, u)
  }

  ghost predicate SameTranslations(m: seq<u64>, m': seq<u64>, root: nat)
  {
    forall v: nat :: v < PAGES ==> Translate(m', root, v) == Translate(m, root, v)
  }

  lemma GrewTransitively(k: Kernel, t: Tables, k1: Kernel, t1: Tables, k2: Kernel, t2: Tables)
    requires Grew(k, t, k1, t1) && Grew(k1, t1, k2, t2)
    ensures Grew(k, t, k2, t2)
  {
    hide Entry;
    forall f | f in t2 && f !in t ensures f < |k.bits| && !k.bits[f] {
      if f !in t1 {
        assert !k1.bits[f];
      }
    }
  }

  lemma EnsureGrows(k: Kernel, root: nat, t: Tables, f: nat, i: nat, flags: nat) returns (t': Tables)
    requires Good(k, root, t) && f in t && t[f].level >= 2 && i < 512 && flags < 4096
    requires Ensure(k, f, i, true, flags).Some?
    ensures var k' := Ensure(k, f, i, true, flags).value;
            && Good(k', root, t') && Grew(k, t, k', t') && |t'| <= |t| + 1
            && SameTranslations(k.ram, k'.ram, root)
            && Child(k'.ram, f, i).Some?
  {
    hide Tree, Linked, Entry, Pte, FrameOf, Translate, FreeRun, PAGES;
    if Entry(k.ram, f, i) != 0 {
      t' := t;
    } else {
      FirstFitFromIsLeast(k.bits, 1, 0);
      var c: nat := FirstFit(k.bits, 1);
      assert !k.bits[c] by { FreeRunOfOne(k.bits, c); }
      var k' := Kernel(Filled(k.bits, c, c + 1, true), Linked(k.ram, f, i, c, flags));
      assert Some(k') == Ensure(k, f, i, true, flags);
      t' := t[c := Below(t[f], i)];
      TableIsInMemory(k, root, t, f);
      LinkedLength(k.ram, f, i, c, flags);
      LinkKeepsTree(k.ram, root, t, f, i, c, flags);
      forall v: nat | v < PAGES ensures Translate(k'.ram, root, v) == Translate(k.ram, root, v) {
        LinkKeepsTranslations(k.ram, root, t, f, i, c, flags, v);
      }
      forall g: nat, j: nat | j < 512
        ensures Entry(k'.ram, g, j) == if g == f && j == i then Pte(4096 * c, flags)
                                       else if g == c then 0 else Entry(k.ram, g, j)
      {
        EntryOfLinked(k.ram, f, i, c, flags, g, j);
      }
      FrameOfPte(c, flags);
    }
  }

  /** A zeroed root on a reserved frame is a tree of one table, and translates nothing. */
  lemma EmptyRootIsGood(k: Kernel, root: nat)
    requires k.Sized() && HasFrame(k.ram, root) && (root < |k.bits| ==> k.bits[root])
    requires forall i: nat :: i < 512 ==> Entry(k.ram, root, i) == 0
    ensures Good(k, root, map[root := Place(4, 0)])
    ensures forall v: nat :: v < PAGES ==> Translate(k.ram, root, v) == 0
  {
    forall v: nat, l: nat | v < PAGES && 1 <= l <= 4
      ensures TableAt(k.ram, root, v, l) == if l == 4 then Some(root) else None
    {
      OnlyTheRoot(k.ram, root, v, l);
    }
    assert Prefix(0, 4) == 0;
    assert Inhabited(Place(4, 0));
  }

  lemma {:induction false} OnlyTheRoot(m: seq<u64>, root: nat, v: nat, l: nat)
    requires 1 <= l <= 4 && forall i: nat :: i < 512 ==> Entry(m, root, i) == 0
    ensures TableAt(m, root, v, l) == if l == 4 then Some(root) else None
    decreases 4 - l
  {
    hide Entry;
    if l < 4 {
      OnlyTheRoot(m, root, v, l + 1);
    }
  }

  lemma FreeRunOfOne(s: seq<bool>, p: nat)
    requires FreeRun(s, p, 1)
    ensures p < |s| && !s[p]
  {
  }

  lemma TableIsInMemory(k: Kernel, root: nat, t: Tables, f: nat)
    requires Good(k, root, t) && f in t
    ensures HasFrame(k.ram, f) && 1 <= t[f].level <= 4
  {
  }

  lemma ReachedTablesStand(m: seq<u64>, root: nat, t: Tables, v: nat, l: nat)
    requires Tree(m, root, t) && v < PAGES && 1 <= l <= 4 && TableAt(m, root, v, l).Some?
    ensures Stands(t, TableAt(m, root, v, l).value, v, l)
  {
  }

  lemma StandingTablesAreReached(m: seq<u64>, root: nat, t: Tables, f: nat, v: nat)
    requires Tree(m, root, t) && f in t && v < PAGES && Stands(t, f, v, t[f].level)
    ensures 1 <= t[f].level <= 4 && TableAt(m, root, v, t[f].level) == Some(f)
  {
  }

  lemma EnsureFailsDry(k: Kernel, f: nat, i: nat, flags: nat)
    requires k.Sized() && flags < 4096 && Ensure(k, f, i, true, flags).None?
    ensures TakePages(k.bits, 1).None?
  {
  }

  /** The allocating walk: at most one new table a level, every translation kept. */
  lemma {:induction false} WalkGrows(k: Kernel, root: nat, t: Tables, f: nat, level: nat, v: nat, flags: nat)
    returns (t': Tables)
    requires Good(k, root, t) && 2 <= level <= 4 && v < PAGES && flags < 4096
    requires TableAt(k.ram, root, v, level) == Some(f)
    ensures var (r, k') := WalkFrom(k, f, level, v, true, flags);
            && Good(k', root, t') && Grew(k, t, k', t') && |t'| <= |t| + level - 1
            && SameTranslations(k.ram, k'.ram, root)
            && (r == OutOfMemory || (r.Table? && TableAt(k'.ram, root, v, 1) == Some(r.frame)))
            && (r == OutOfMemory ==> TakePages(k'.bits, 1) == None && |t'| <= |t| + level - 2)
    decreases level
  {
    hide Entry, Tree, Ensure, Prefix, Index, PAGES, Translate, Child;
    ReachedTablesStand(k.ram, root, t, v, level);
    var i := Index(v, level);
    match Ensure(k, f, i, true, flags) {
      case None =>
        EnsureFailsDry(k, f, i, flags);
        t' := t;
      case Some(k1) =>
        var t1 := EnsureGrows(k, root, t, f, i, flags);
        StandingTablesAreReached(k1.ram, root, t1, f, v);
        if level == 2 {
          t' := t1;
        } else {
          var g := Child(k1.ram, f, i).value;
          t' := WalkGrows(k1, root, t1, g, level - 1, v, flags);
          GrewTransitively(k, t, k1, t1, WalkFrom(k1, g, level - 1, v, true, flags).1, t');
        }
    }
  }

  /** The walk that does not allocate changes nothing and stops where the tree does. */
  lemma {:induction false} WalkOnlyLooks(k: Kernel, root: nat, f: nat, level: nat, v: nat)
    requires k.Sized() && 2 <= level <= 4 && TableAt(k.ram, root, v, level) == Some(f)
    ensures var (r, k') := WalkFrom(k, f, level, v, false, 0);
            && k' == k
            && (r.Table? ==> TableAt(k.ram, root, v, 1) == Some(r.frame))
            && (r == NoTable ==> TableAt(k.ram, root, v, 1) == None && TableAt(k.ram, root, v, 2).Some?)
            && (r == NullTable <==> TableAt(k.ram, root, v, 2) == None)
            && r != OutOfMemory
    decreases level
  {
    hide Entry, Index;
    if level > 2 {
      match Child(k.ram, f, Index(v, level)) {
        case None => MissingBelow(k.ram, root, v, level - 1);
        case Some(g) => WalkOnlyLooks(k, root, g, level - 1, v);
      }
    }
  }

  lemma {:induction false} MissingBelow(m: seq<u64>, root: nat, v: nat, l: nat)
    requires 1 <= l <= 4 && TableAt(m, root, v, l) == None
    ensures forall k: nat :: 1 <= k <= l ==> TableAt(m, root, v, k) == None
    decreases l
  {
    if l > 1 {
      MissingBelow(m, root, v, l - 1);
    }
  }

  lemma LeafWriteKeepsGrew(k: Kernel, t: Tables, k1: Kernel, t1: Tables, f: nat, i: nat, w: u64)
    requires Grew(k, t, k1, t1) && f in t1 && t1[f].level == 1 && HasFrame(k1.ram, f) && i < 512
    ensures Grew(k, t, k1.(ram := SetEntry(k1.ram, f, i, w)), t1)
  {
    hide Entry, SetEntry;
    forall g: nat, j: nat | j < 512
      ensures Entry(SetEntry(k1.ram, f, i, w), g, j) == if g == f && j == i then w else Entry(k1.ram, g, j)
    {
      EntryAfterSet(k1.ram, f, i, w, g, j);
    }
  }

  /** vmmMap: the page's entry becomes PTE(phys, flags), and no other page notices. */
  lemma MapChangesOnePage(k: Kernel, root: nat, t: Tables, virt: u64, phys: u64, flags: nat)
    returns (t': Tables)
    requires Good(k, root, t) && flags < 4096 && Map(k, root, virt, phys, flags).Some?
    ensures var k' := Map(k, root, virt, phys, flags).value;
            && Good(k', root, t') && Grew(k, t, k', t') && |t'| <= |t| + 3
            && Rewritten(k.ram, k'.ram, root, Page(virt), Pte(phys, flags))
  {
    hide Entry, Tree, Prefix, Index, PAGES, Translate, Pte, P1, Page, SetEntry;
    var v := Page(virt);
    t' := WalkGrows(k, root, t, root, 4, v, flags);
    var (r, k1) := Walk(k, root, virt, true, flags);
    var f := r.frame;
    IndicesOfAddress(virt);
    ReachedTablesStand(k1.ram, root, t', v, 1);
    TableIsInMemory(k1, root, t', f);
    WriteKeepsTree(k1.ram, root, t', f, P1(virt), Pte(phys, flags));
    LeafWriteKeepsGrew(k, t, k1, t', f, P1(virt), Pte(phys, flags));
    forall u: nat | u < PAGES
      ensures Translate(SetEntry(k1.ram, f, P1(virt), Pte(phys, flags)), root, u) ==
              if u == v then Pte(phys, flags) else Translate(k.ram, root, u)
    {
      LeafWriteChangesOnePage(k1.ram, root, t', v, f, Pte(phys, flags), u);
    }
  }

  /** vmmUnmap: it reads through a null table exactly when an upper one is missing, and else one page goes. */
  lemma UnmapChangesOnePage(k: Kernel, root: nat, t: Tables, virt: u64)
    requires Good(k, root, t)
    ensures Unmap(k, root, virt).None? <==> TableAt(k.ram, root, Page(virt), 2).None?
    ensures Unmap(k, root, virt).Some? ==>
              var k' := Unmap(k, root, virt).value;
              && Good(k', root, t) && Grew(k, t, k', t) && k'.bits == k.bits
              && Rewritten(k.ram, k'.ram, root, Page(virt), 0)
  {
    hide Entry, Tree, Prefix, Index, PAGES, Pte, P1, Page, SetEntry, TableAt;
    var v := Page(virt);
    assert TableAt(k.ram, root, v, 4) == Some(root) by { RootIsReached(k.ram, root, v); }
    WalkOnlyLooks(k, root, root, 4, v);
    var (r, _) := Walk(k, root, virt, false, 0);
    if r.Table? {
      var f := r.frame;
      IndicesOfAddress(virt);
      ReachedTablesStand(k.ram, root, t, v, 1);
      TableIsInMemory(k, root, t, f);
      WriteKeepsTree(k.ram, root, t, f, P1(virt), 0);
      LeafWriteKeepsGrew(k, t, k, t, f, P1(virt), 0);
      forall u: nat | u < PAGES
        ensures Translate(SetEntry(k.ram, f, P1(virt), 0), root, u) ==
                if u == v then 0 else Translate(k.ram, root, u)
      {
        LeafWriteChangesOnePage(k.ram, root, t, v, f, 0, u);
      }
    }
  }

  /** On an empty root there is no upper table for any page. */
  lemma UnmapOnEmptyRoot(k: Kernel, root: nat, virt: u64)
    requires k.Sized() && HasFrame(k.ram, root) && (root < |k.bits| ==> k.bits[root])
    requires forall i: nat :: i < 512 ==> Entry(k.ram, root, i) == 0
    ensures Unmap(k, root, virt).None?
  {
    hide Entry, Page, Unmap, Good;
    EmptyRootIsGood(k, root);
    OnlyTheRoot(k.ram, root, Page(virt), 2);
    UnmapChangesOnePage(k, root, map[root := Place(4, 0)], virt);
  }

  lemma RootIsReached(m: seq<u64>, root: nat, v: nat)
    ensures TableAt(m, root, v, 4) == Some(root)
  {
  }

  /** How far page u lies after the page of virt, going round the 48-bit space. */
  function Offset(virt: u64, u: nat): (d: nat)
    requires u < PAGES
    ensures d < PAGES
  {
    (u - Page(virt)) % PAGES
  }

  function FrameFor(phys: u64, d: nat): u64 {
    (phys + PAGE_SIZE * d) % 0x1_0000_0000_0000_0000
  }

  lemma OffsetOfNext(virt: u64, u: nat)
    requires u < PAGES
    ensures Offset(virt, u) == 0 <==> u == Page(virt)
    ensures u != Page(virt) ==> Offset(NextPage(virt), u) == Offset(virt, u) - 1
    ensures u == Page(virt) ==> Offset(NextPage(virt), u) == PAGES - 1
  {
    hide NextPage, Page;
    PageOfNext(virt);
  }

  lemma PageOfNext(virt: u64)
    ensures Page(NextPage(virt)) == (Page(virt) + 1) % PAGES
  {
    var q := virt / 4096;
    if q + 1 < 0x10_0000_0000_0000 {
      assert NextPage(virt) / 4096 == q + 1;
    }
  }

  lemma FrameForNext(phys: u64, d: nat)
    requires d > 0
    ensures FrameFor(NextPage(phys), d - 1) == FrameFor(phys, d) && FrameFor(phys, 0) == phys
  {
  }

  /** From m to m' exactly the n pages from virt on changed, each now mapped to its own frame. */
  ghost predicate Mapped(m: seq<u64>, m': seq<u64>, root: nat, virt: u64, phys: u64, flags: nat, n: nat)
    requires flags < 4096
  {
    forall u: nat :: u < PAGES ==>
      Translate(m', root, u) == if Offset(virt, u) < n then Pte(FrameFor(phys, Offset(virt, u)), flags)
                                else Translate(m, root, u)
  }

  /** From m to m' exactly the n pages from virt on lost their entry. */
  ghost predicate Unmapped(m: seq<u64>, m': seq<u64>, root: nat, virt: u64, n: nat)
  {
    forall u: nat :: u < PAGES ==>
      Translate(m', root, u) == if Offset(virt, u) < n then 0 else Translate(m, root, u)
  }

  lemma MappedStep(m: seq<u64>, m1: seq<u64>, m': seq<u64>, root: nat, virt: u64, phys: u64, flags: nat, n: nat)
    requires flags < 4096 && 0 < n <= PAGES
    requires Rewritten(m, m1, root, Page(virt), Pte(phys, flags))
    requires Mapped(m1, m', root, NextPage(virt), NextPage(phys), flags, n - 1)
    ensures Mapped(m, m', root, virt, phys, flags, n)
  {
    hide Translate, Pte, Offset, FrameFor, Page, NextPage;
    forall u: nat | u < PAGES
      ensures Translate(m', root, u) == if Offset(virt, u) < n then Pte(FrameFor(phys, Offset(virt, u)), flags)
                                        else Translate(m, root, u)
    {
      OffsetOfNext(virt, u);
      FrameForNext(phys, if Offset(virt, u) > 0 then Offset(virt, u) else 1);
    }
  }

  lemma NothingChanged(k: Kernel, root: nat, t: Tables, virt: u64, phys: u64, flags: nat)
    requires flags < 4096
    ensures Grew(k, t, k, t) && Mapped(k.ram, k.ram, root, virt, phys, flags, 0)
  {
    hide Translate, Pte, Entry;
  }

  lemma GoodIsSized(k: Kernel, root: nat, t: Tables)
    requires Good(k, root, t)
    ensures k.Sized()
  {
  }

  lemma MapPagesUnfolds(k: Kernel, root: nat, virt: u64, phys: u64, flags: nat, n: nat)
    requires k.Sized() && flags < 4096 && MapPages(k, root, virt, phys, flags, n).Some?
    ensures n == 0 ==> MapPages(k, root, virt, phys, flags, n) == Some(k)
    ensures n > 0 ==>
              && Map(k, root, virt, phys, flags).Some?
              && MapPages(k, root, virt, phys, flags, n) ==
                 MapPages(Map(k, root, virt, phys, flags).value, root, NextPage(virt), NextPage(phys), flags, n - 1)
  {
  }

  /** vmmMapPages: exactly n consecutive pages change. */
  lemma {:induction false} MapPagesChangesNPages(
      k: Kernel, root: nat, t: Tables, virt: u64, phys: u64, flags: nat, n: nat)
    returns (k': Kernel, t': Tables)
    requires Good(k, root, t) && flags < 4096 && n <= PAGES
    requires MapPages(k, root, virt, phys, flags, n).Some?
    ensures MapPages(k, root, virt, phys, flags, n) == Some(k')
    ensures Good(k', root, t') && Grew(k, t, k', t') && |t'| <= |t| + 3 * n
    ensures Mapped(k.ram, k'.ram, root, virt, phys, flags, n)
    decreases n
  {
    hide *;
    GoodIsSized(k, root, t);
    MapPagesUnfolds(k, root, virt, phys, flags, n);
    if n == 0 {
      k', t' := k, t;
      NothingChanged(k, root, t, virt, phys, flags);
    } else {
      var k1 := Map(k, root, virt, phys, flags).value;
      var t1 := MapChangesOnePage(k, root, t, virt, phys, flags);
      k', t' := MapPagesChangesNPages(k1, root, t1, NextPage(virt), NextPage(phys), flags, n - 1);
      GrewTransitively(k, t, k1, t1, k', t');
      MappedStep(k.ram, k1.ram, k'.ram, root, virt, phys, flags, n);
    }
  }

  lemma UnmappedStep(m: seq<u64>, m1: seq<u64>, m': seq<u64>, root: nat, virt: u64, n: nat)
    requires 0 < n <= PAGES
    requires Rewritten(m, m1, root, Page(virt), 0)
    requires Unmapped(m1, m', root, NextPage(virt), n - 1)
    ensures Unmapped(m, m', root, virt, n)
  {
    hide Translate, Offset, Page, NextPage;
    forall u: nat | u < PAGES
      ensures Translate(m', root, u) == if Offset(virt, u) < n then 0 else Translate(m, root, u)
    {
      OffsetOfNext(virt, u);
    }
  }

  /** vmmUnmapPages: exactly n consecutive pages lose their entry. */
  lemma {:induction false} UnmapPagesChangesNPages(k: Kernel, root: nat, t: Tables, virt: u64, n: nat)
    requires Good(k, root, t) && n <= PAGES && UnmapPages(k, root, virt, n).Some?
    ensures var k' := UnmapPages(k, root, virt, n).value;
            && Good(k', root, t) && Grew(k, t, k', t) && k'.bits == k.bits
            && Unmapped(k.ram, k'.ram, root, virt, n)
    decreases n
  {
    GoodIsSized(k, root, t);
    if n > 0 {
      hide Good, Grew, Unmap, Unmapped, Page, NextPage, Rewritten;
      UnmapChangesOnePage(k, root, t, virt);
      var k1 := Unmap(k, root, virt).value;
      UnmapPagesChangesNPages(k1, root, t, NextPage(virt), n - 1);
      var k' := UnmapPages(k, root, virt, n).value;
      GrewTransitively(k, t, k1, t, k', t);
      UnmappedStep(k.ram, k1.ram, k'.ram, root, virt, n);
    }
  }

  /** Mapped pages can always be unmapped: their upper tables are there. */
  lemma {:induction false} UnmapOfMappedPages(k: Kernel, root: nat, t: Tables, virt: u64, n: nat)
    requires Good(k, root, t) && n <= PAGES
    requires forall u: nat :: u < PAGES && Offset(virt, u) < n ==> Translate(k.ram, root, u) != 0
    ensures UnmapPages(k, root, virt, n).Some?
    decreases n
  {
    hide Good, Grew, Unmap, Translate, Page, NextPage, Offset, TableAt, PAGES;
    GoodIsSized(k, root, t);
    if n > 0 {
      OffsetOfNext(virt, Page(virt));
      UnmapChangesOnePage(k, root, t, virt);
      EntryNeedsTables(k.ram, root, Page(virt));
      var k1 := Unmap(k, root, virt).value;
      forall u: nat | u < PAGES && Offset(NextPage(virt), u) < n - 1
        ensures Translate(k1.ram, root, u) != 0
      {
        OffsetOfNext(virt, u);
      }
      UnmapOfMappedPages(k1, root, t, NextPage(virt), n - 1);
    }
  }

  lemma EntryNeedsTables(m: seq<u64>, root: nat, v: nat)
    requires Translate(m, root, v) != 0
    ensures TableAt(m, root, v, 2).Some?
  {
  }

  /** Unmapping what was mapped succeeds, and when the pages were empty before, all is as before. */
  lemma UnmapUndoesMap(k: Kernel, root: nat, t: Tables, virt: u64, phys: u64, flags: nat, n: nat)
    requires Good(k, root, t) && flags < 4096 && n <= PAGES
    requires MapPages(k, root, virt, phys, flags, n).Some?
    requires forall u: nat :: u < PAGES && Offset(virt, u) < n ==> Translate(k.ram, root, u) == 0
    ensures var k1 := MapPages(k, root, virt, phys, flags, n).value;
            && UnmapPages(k1, root, virt, n).Some?
            && SameTranslations(k.ram, UnmapPages(k1, root, virt, n).value.ram, root)
  {
    hide Tree, Grew, Translate, Offset, Page, MapPages, UnmapPages;
    var k1, t1 := MapPagesChangesNPages(k, root, t, virt, phys, flags, n);
    UnmapOfMappedPages(k1, root, t1, virt, n);
    UnmapPagesChangesNPages(k1, root, t1, virt, n);
  }
}
