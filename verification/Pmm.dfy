/** kernel/src/mem/pmm.c: the physical page allocator and its start-up from the memory map. */
module PageOwnership {
  import opened Options
  import opened BitSeq

  const PAGE_SIZE: nat := 4096

  /** pmmAlloc on the set alone: the address handed out and the new set, or nothing when it panics. */
  function TakePages(bits: seq<bool>, pages: nat): Option<(nat, seq<bool>)>
  {
    var p := FirstFit(bits, pages);
    if p <= 0 then None else Some((p * PAGE_SIZE, Filled(bits, p, p + pages, true)))
  }

  /** With page 0 reserved, running out is reported exactly when no run of that length is free. */
  lemma PanicsOnlyWhenFull(bits: seq<bool>, pages: nat)
    requires pages > 0 && |bits| > 0 && bits[0]
    ensures TakePages(bits, pages).None? <==> forall p: nat :: !FreeRun(bits, p, pages)
  {
    FirstFitFromIsLeast(bits, pages, 0);
  }

  /** The panic tells the truth: it happens if and only if no run of that length is free. */
  ghost predicate RightReport(bits: seq<bool>, pages: nat) {
    TakePages(bits, pages).None? <==> forall p: nat :: !FreeRun(bits, p, pages)
  }

  /** For one request: exactly when no free run of that length starts at page 0. */
  lemma ReportIsRightIff(bits: seq<bool>, pages: nat)
    requires pages > 0
    ensures RightReport(bits, pages) <==> !FreeRun(bits, 0, pages)
  {
    FirstFitFromIsLeast(bits, pages, 0);
  }

  /** For every length: exactly when page 0 is marked. */
  lemma ReportsAreRightIff(bits: seq<bool>)
    requires |bits| > 0
    ensures (forall pages: nat :: pages > 0 ==> RightReport(bits, pages)) <==> bits[0]
  {
    if bits[0] {
      forall pages: nat | pages > 0 ensures RightReport(bits, pages) {
        ReportIsRightIff(bits, pages);
      }
    } else {
      ReportIsRightIff(bits, 1);
      assert FreeRun(bits, 0, 1);
      assert !RightReport(bits, 1);
    }
  }

  /** An instance: a free run at position 0 is mistaken for failure. */
  lemma PageZeroIsMistakenForFailure()
    ensures FreeRun([false], 0, 1) && TakePages([false], 1).None?
  {
  }

  /** A range of pages handed out and not yet given back. */
  datatype Range = Range(start: nat, pages: nat)

  predicate InRange(r: Range, p: nat) {
    r.start <= p < r.start + r.pages
  }

  predicate InSome(live: seq<Range>, p: nat) {
    exists i :: 0 <= i < |live| && InRange(live[i], p)
  }

  datatype State = State(bits: seq<bool>, live: seq<Range>)

  datatype Op = Alloc(pages: nat) | Free(index: nat)

  /** One call. A free names a live range by its place in the list and passes its address and length. */
  function Apply(s: State, op: Op): Option<State>
  {
    match op
    case Alloc(pages) =>
      if pages == 0 then None
      else (match TakePages(s.bits, pages)
            case None => None
            case Some((addr, bits)) => Some(State(bits, s.live + [Range(addr / PAGE_SIZE, pages)])))
    case Free(i) =>
      if i >= |s.live| then None
      else Some(State(Filled(s.bits, s.live[i].start, s.live[i].start + s.live[i].pages, false),
                      s.live[..i] + s.live[i + 1..]))
  }

  /** A whole run; None once a call panics. */
  function Run(s: State, ops: seq<Op>): Option<State>
    decreases |ops|
  {
    if ops == [] then Some(s)
    else match Apply(s, ops[0])
      case None => None
      case Some(s') => Run(s', ops[1..])
  }

  function TotalPages(live: seq<Range>): nat {
    if live == [] then 0 else live[0].pages + TotalPages(live[1..])
  }

  predicate Apart(a: Range, b: Range) {
    a.start + a.pages <= b.start || b.start + b.pages <= a.start
  }

  /** Live ranges are non-empty, were free in b0, and do not meet one another. */
  ghost predicate Separate(b0: seq<bool>, live: seq<Range>)
  {
    && (forall i :: 0 <= i < |live| ==>
          live[i].start > 0 && live[i].pages > 0 && FreeRun(b0, live[i].start, live[i].pages))
    && (forall i, j :: 0 <= i < j < |live| ==> Apart(live[i], live[j]))
  }

  /** The set says exactly: reserved from the start, or live now. */
  ghost predicate Accounted(b0: seq<bool>, s: State)
  {
    && |s.bits| == |b0|
    && (forall p: nat :: p < |b0| ==> s.bits[p] == (b0[p] || InSome(s.live, p)))
  }

  /** Ownership relative to the set b0 that start-up left behind. */
  ghost predicate Owned(b0: seq<bool>, s: State)
  {
    && |b0| > 0 && b0[0]
    && Separate(b0, s.live)
    && Accounted(b0, s)
    && FreeCount(s.bits) + TotalPages(s.live) == FreeCount(b0)
  }

  /** Different live ranges have no page in common. */
  lemma OwnedAreApart(b0: seq<bool>, s: State, r: Range, q: Range)
    requires Owned(b0, s) && r in s.live && q in s.live && r != q
    ensures Apart(r, q)
  {
    hide FreeCount, TotalPages, FreeRun, Accounted;
    var i :| 0 <= i < |s.live| && s.live[i] == r;
    var j :| 0 <= j < |s.live| && s.live[j] == q;
    if i < j {
      assert Apart(s.live[i], s.live[j]);
    } else {
      assert Apart(s.live[j], s.live[i]);
    }
  }

  /** Live pages are pages the set knows. */
  lemma OwnedAreInside(b0: seq<bool>, s: State, r: Range)
    requires Owned(b0, s) && r in s.live
    ensures 0 < r.start && 0 < r.pages && r.start + r.pages <= |s.bits|
    ensures forall p: nat :: InRange(r, p) ==> InSome(s.live, p)
  {
    hide FreeCount, TotalPages;
    var i :| 0 <= i < |s.live| && s.live[i] == r;
    assert FreeRun(b0, s.live[i].start, s.live[i].pages);
  }

  lemma {:induction false} TotalOfAppend(live: seq<Range>, r: Range)
    ensures TotalPages(live + [r]) == TotalPages(live) + r.pages
  {
    if live == [] {
      assert [] + [r] == [r];
    } else {
      TotalOfAppend(live[1..], r);
      assert (live + [r])[1..] == live[1..] + [r];
    }
  }

  lemma {:induction false} TotalOfRemove(live: seq<Range>, i: nat)
    requires i < |live|
    ensures TotalPages(live[..i] + live[i + 1..]) == TotalPages(live) - live[i].pages
  {
    if i == 0 {
      assert live[..0] + live[1..] == live[1..];
    } else {
      TotalOfRemove(live[1..], i - 1);
      assert (live[..i] + live[i + 1..])[1..] == live[1..][..i - 1] + live[1..][i..];
    }
  }

  lemma FreeRunIsApart(b0: seq<bool>, s: State, r: Range)
    requires Separate(b0, s.live) && Accounted(b0, s)
    requires r.start > 0 && r.pages > 0 && FreeRun(s.bits, r.start, r.pages)
    ensures Separate(b0, s.live + [r])
  {
    forall i | 0 <= i < |s.live| ensures Apart(s.live[i], r) {
      var q := if s.live[i].start < r.start then r.start else s.live[i].start;
      if !Apart(s.live[i], r) {
        assert InSome(s.live, q) by { assert InRange(s.live[i], q); }
      }
    }
  }

  lemma MarkingAccounts(b0: seq<bool>, s: State, r: Range)
    requires Accounted(b0, s) && r.start + r.pages <= |b0|
    ensures Accounted(b0, State(Filled(s.bits, r.start, r.start + r.pages, true), s.live + [r]))
  {
    var live := s.live + [r];
    forall q: nat | q < |b0| ensures InSome(live, q) == (InSome(s.live, q) || InRange(r, q)) {
      assert InRange(live[|s.live|], q) == InRange(r, q);
      if InSome(s.live, q) {
        var i :| 0 <= i < |s.live| && InRange(s.live[i], q);
        assert InRange(live[i], q);
      }
    }
  }

  /** The pages of all ranges but one. */
  lemma PagesWithout(live: seq<Range>, i: nat, q: nat)
    requires i < |live| && forall j, k :: 0 <= j < k < |live| ==> Apart(live[j], live[k])
    ensures InSome(live[..i] + live[i + 1..], q) == (InSome(live, q) && !InRange(live[i], q))
  {
    if InSome(live, q) && !InRange(live[i], q) {
      StillInSome(live, i, q);
    }
    if InSome(live[..i] + live[i + 1..], q) {
      WasInAnother(live, i, q);
    }
  }

  lemma StillInSome(live: seq<Range>, i: nat, q: nat)
    requires i < |live| && InSome(live, q) && !InRange(live[i], q)
    ensures InSome(live[..i] + live[i + 1..], q)
  {
    var k :| 0 <= k < |live| && InRange(live[k], q);
    assert InRange((live[..i] + live[i + 1..])[if k < i then k else k - 1], q);
  }

  lemma WasInAnother(live: seq<Range>, i: nat, q: nat)
    requires i < |live| && forall j, k :: 0 <= j < k < |live| ==> Apart(live[j], live[k])
    requires InSome(live[..i] + live[i + 1..], q)
    ensures InSome(live, q) && !InRange(live[i], q)
  {
    var rest := live[..i] + live[i + 1..];
    var k :| 0 <= k < |rest| && InRange(rest[k], q);
    if k < i {
      assert Apart(live[k], live[i]) && InRange(live[k], q);
    } else {
      assert Apart(live[i], live[k + 1]) && InRange(live[k + 1], q);
    }
  }

  lemma ReleasingAccounts(b0: seq<bool>, s: State, i: nat)
    requires Separate(b0, s.live) && Accounted(b0, s) && i < |s.live|
    ensures Accounted(b0, Apply(s, Free(i)).value)
  {
    hide InSome;
    forall q: nat | q < |b0|
      ensures InSome(s.live[..i] + s.live[i + 1..], q) == (InSome(s.live, q) && !InRange(s.live[i], q))
    {
      PagesWithout(s.live, i, q);
    }
    forall q: nat | InRange(s.live[i], q) ensures InSome(s.live, q) { LiveIsInSome(s.live, i, q); }
  }

  lemma LiveIsInSome(live: seq<Range>, i: nat, q: nat)
    requires i < |live| && InRange(live[i], q)
    ensures InSome(live, q)
  {
  }

  lemma AllocKeepsOwned(b0: seq<bool>, s: State, pages: nat)
    requires Owned(b0, s) && pages > 0 && TakePages(s.bits, pages).Some?
    ensures Owned(b0, Apply(s, Alloc(pages)).value)
  {
    hide Separate, Accounted, FreeCount, TotalPages, FreeRun;
    FirstFitFromIsLeast(s.bits, pages, 0);
    var p: nat := FirstFit(s.bits, pages);
    var r := Range(p, pages);
    assert p + pages <= |b0| by { RunInBounds(b0, s, p, pages); }
    FreeRunIsApart(b0, s, r);
    MarkingAccounts(b0, s, r);
    FreeCountOfFill(s.bits, p, pages);
    TotalOfAppend(s.live, r);
  }

  lemma RunInBounds(b0: seq<bool>, s: State, p: nat, n: nat)
    requires Accounted(b0, s) && FreeRun(s.bits, p, n)
    ensures p + n <= |b0|
  {
  }

  lemma FreeKeepsOwned(b0: seq<bool>, s: State, i: nat)
    requires Owned(b0, s) && i < |s.live|
    ensures Owned(b0, Apply(s, Free(i)).value)
  {
    hide FreeCount, TotalPages;
    var r := s.live[i];
    forall q: nat | InRange(r, q) ensures s.bits[q] {
      assert InRange(s.live[i], q);
    }
    FreeCountOfClear(s.bits, r.start, r.pages);
    TotalOfRemove(s.live, i);
    ReleasingAccounts(b0, s, i);
  }

  /** Over every run: live ranges stay disjoint and free at start-up, and no page is lost or made up. */
  lemma {:induction false} EveryRunKeepsOwned(b0: seq<bool>, s: State, ops: seq<Op>)
    requires Owned(b0, s) && Run(s, ops).Some?
    ensures Owned(b0, Run(s, ops).value)
    decreases |ops|
  {
    if ops != [] {
      hide Owned, TakePages;
      match ops[0] {
        case Alloc(pages) => AllocKeepsOwned(b0, s, pages);
        case Free(i) => FreeKeepsOwned(b0, s, i);
      }
      EveryRunKeepsOwned(b0, Apply(s, ops[0]).value, ops[1..]);
    }
  }

  lemma NothingLiveIsOwned(b0: seq<bool>)
    requires |b0| > 0 && b0[0]
    ensures Owned(b0, State(b0, []))
  {
  }

  /** Giving back the range just taken restores the set, so the same request is served again alike. */
  lemma FreeUndoesAlloc(s: State, pages: nat)
    requires pages > 0 && TakePages(s.bits, pages).Some?
    ensures var t := Apply(s, Alloc(pages)).value;
            Apply(t, Free(|s.live|)) == Some(s)
  {
    FirstFitFromIsLeast(s.bits, pages, 0);
    var p: nat := FirstFit(s.bits, pages);
    var t := Apply(s, Alloc(pages)).value;
    var u := Apply(t, Free(|s.live|)).value;
    assert u.live == s.live;
    assert u.bits == s.bits;
  }
}

/** The memory map as the boot loader reports it, and what pmmInit must make of it. */
module MemoryMap {
  import opened Words
  import opened PageOwnership
  import opened Bitmaps

  datatype Entry = Entry(base: u64, length: u64, usable: bool)

  /** base + length, on 64 bits. */
  function End(e: Entry): u64 {
    (e.base + e.length) % 0x1_0000_0000_0000_0000
  }

  /** End of the last usable entry in list order. */
  function LastEnd(entries: seq<Entry>): u64 {
    if entries == [] then 0
    else if entries[|entries| - 1].usable then End(entries[|entries| - 1])
    else LastEnd(entries[..|entries| - 1])
  }

  /** An entry that could hold `size` bytes of bitmap: address 0 is never chosen. */
  predicate HasRoom(e: Entry, size: nat) {
    e.usable && e.base != 0 && e.length >= size
  }

  /** Base of the first entry with room, 0 when there is none. */
  function HomeOf(entries: seq<Entry>, size: nat): u64 {
    if entries == [] then 0
    else if HasRoom(entries[0], size) then entries[0].base
    else HomeOf(entries[1..], size)
  }

  /** Entries the third loop releases. */
  predicate Released(e: Entry) {
    e.base % PAGE_SIZE == 0 && e.usable
  }

  predicate Covers(e: Entry, p: nat) {
    Released(e) && e.base / PAGE_SIZE <= p < End(e) / PAGE_SIZE
  }

  function PageCount(entries: seq<Entry>): nat {
    LastEnd(entries) / PAGE_SIZE
  }

  function BitmapBytes(entries: seq<Entry>): nat {
    CalculateSize(PageCount(entries))
  }

  function BitmapPages(entries: seq<Entry>): nat {
    (BitmapBytes(entries) + PAGE_SIZE - 1) / PAGE_SIZE
  }

  predicate InBitmap(entries: seq<Entry>, p: nat) {
    var first := HomeOf(entries, BitmapBytes(entries)) / PAGE_SIZE;
    first <= p < first + BitmapPages(entries)
  }

  /** The pages that start-up leaves free. */
  ghost predicate StartsFree(entries: seq<Entry>, p: nat) {
    p != 0 && !InBitmap(entries, p) && exists i :: 0 <= i < |entries| && Covers(entries[i], p)
  }

  /** bitmapFill's two bounds for this entry. */
  predicate Fits(e: Entry, pages: nat) {
    e.base / PAGE_SIZE < pages && End(e) / PAGE_SIZE <= pages
  }

  /** Every bound that bitmapInit, bitmapFill and bitmapSet assert on the way through pmmInit. */
  ghost predicate AssertionsHold(entries: seq<Entry>) {
    var pages := PageCount(entries);
    && pages > 0
    && (forall i :: 0 <= i < |entries| && Released(entries[i]) ==> Fits(entries[i], pages))
    && HomeOf(entries, BitmapBytes(entries)) / PAGE_SIZE < pages
    && HomeOf(entries, BitmapBytes(entries)) / PAGE_SIZE + BitmapPages(entries) <= pages
  }

  /** Usable entries are made of whole pages, and end below 2^64. */
  ghost predicate Aligned(entries: seq<Entry>) {
    forall i :: 0 <= i < |entries| && entries[i].usable ==>
      && entries[i].base % PAGE_SIZE == 0 && entries[i].length % PAGE_SIZE == 0 && entries[i].length > 0
      && entries[i].base + entries[i].length < 0x1_0000_0000_0000_0000
  }

  /** What the Limine protocol promises of usable entries: page aligned, sorted, not overlapping. */
  ghost predicate WellFormed(entries: seq<Entry>) {
    && Aligned(entries)
    && (forall i, j :: 0 <= i < j < |entries| && entries[i].usable && entries[j].usable ==>
          End(entries[i]) <= entries[j].base)
  }

  lemma {:induction false} LastEndIsHighest(entries: seq<Entry>, i: nat)
    requires WellFormed(entries) && i < |entries| && entries[i].usable
    ensures End(entries[i]) <= LastEnd(entries)
  {
    var n := |entries| - 1;
    if i < n && !entries[n].usable {
      LastEndIsHighest(entries[..n], i);
    }
  }

  lemma {:induction false} HomeHasRoom(entries: seq<Entry>, size: nat) returns (i: nat)
    requires HomeOf(entries, size) != 0
    ensures i < |entries| && HasRoom(entries[i], size) && entries[i].base == HomeOf(entries, size)
  {
    if HasRoom(entries[0], size) {
      i := 0;
    } else {
      var k := HomeHasRoom(entries[1..], size);
      i := k + 1;
    }
  }

  /** A home is found exactly when some entry has room, and 0 never names one. */
  lemma {:induction false} HomeIffRoom(entries: seq<Entry>, size: nat)
    ensures HomeOf(entries, size) != 0 <==> exists i :: 0 <= i < |entries| && HasRoom(entries[i], size)
  {
    if entries != [] && !HasRoom(entries[0], size) {
      HomeIffRoom(entries[1..], size);
      forall i | 0 <= i < |entries| && HasRoom(entries[i], size)
        ensures exists j :: 0 <= j < |entries[1..]| && HasRoom(entries[1..][j], size)
      {
        assert entries[1..][i - 1] == entries[i];
      }
    }
  }

  /** Of the entries with room it is the first in list order. */
  lemma {:induction false} HomeIsFirst(entries: seq<Entry>, size: nat, i: nat)
    requires i < |entries| && entries[i].usable && entries[i].base > 0 && entries[i].length >= size
    requires forall j :: 0 <= j < i ==> !entries[j].usable || entries[j].base == 0 || entries[j].length < size
    ensures HomeOf(entries, size) == entries[i].base
  {
    if i > 0 {
      HomeIsFirst(entries[1..], size, i - 1);
    }
  }

  /** The end that sizes the bitmap is that of the last usable entry in list order. */
  lemma {:induction false} LastEndIsLast(entries: seq<Entry>, i: nat)
    requires i < |entries| && entries[i].usable && forall j :: i < j < |entries| ==> !entries[j].usable
    ensures LastEnd(entries) == (entries[i].base + entries[i].length) % 0x1_0000_0000_0000_0000
  {
    if i < |entries| - 1 {
      LastEndIsLast(entries[..|entries| - 1], i);
    }
  }

  /** The bitmap has a bit for every page below that end, in whole words and not a word too many. */
  lemma BitmapIsLargeEnough(entries: seq<Entry>)
    ensures BitmapBytes(entries) % 8 == 0
    ensures 8 * BitmapBytes(entries) - 64 < LastEnd(entries) / 4096 <= 8 * BitmapBytes(entries)
  {
  }

  /**
   * The pages reserved for the bitmap are those that hold a byte of it, counted from the start of
   * the page it begins in.
   */
  lemma BitmapPagesHoldBytes(entries: seq<Entry>, p: nat)
    ensures var start := HomeOf(entries, BitmapBytes(entries)) / 4096 * 4096;
            InBitmap(entries, p) <==> exists a: nat :: start <= a < start + BitmapBytes(entries) && a / 4096 == p
  {
    var start := HomeOf(entries, BitmapBytes(entries)) / 4096 * 4096;
    if InBitmap(entries, p) {
      assert start <= 4096 * p < start + BitmapBytes(entries) && 4096 * p / 4096 == p;
    }
  }

  /** What start-up leaves free, page by page and byte by byte. */
  lemma StartsFreeIff(entries: seq<Entry>, p: nat)
    ensures var start := HomeOf(entries, BitmapBytes(entries)) / 4096 * 4096;
            StartsFree(entries, p) <==>
              && p > 0
              && (exists i :: 0 <= i < |entries| && PageOf(entries[i], p))
              && !(exists a: nat :: start <= a < start + BitmapBytes(entries) && a / 4096 == p)
  {
    BitmapPagesHoldBytes(entries, p);
    forall i | 0 <= i < |entries| ensures Covers(entries[i], p) <==> PageOf(entries[i], p) { }
  }

  /** Page p lies wholly in a usable entry that begins on a page boundary and does not wrap. */
  predicate PageOf(e: Entry, p: nat) {
    var end := (e.base + e.length) % 0x1_0000_0000_0000_0000;
    e.usable && e.base % 4096 == 0 && e.base <= 4096 * p && 4096 * p + 4096 <= end
  }

  /** No byte of the bitmap lies in a page that start-up leaves free. */
  ghost predicate BitmapIsSafe(entries: seq<Entry>) {
    var home, size := HomeOf(entries, BitmapBytes(entries)), BitmapBytes(entries);
    forall a: nat :: home <= a < home + size ==> !StartsFree(entries, a / 4096)
  }

  /**
   * It is so exactly when the bitmap's bytes stay within the pages counted, or no entry that is
   * released covers the page they run into.
   */
  lemma BitmapIsSafeIff(entries: seq<Entry>)
    ensures var home, size := HomeOf(entries, BitmapBytes(entries)), BitmapBytes(entries);
            var next := home / 4096 + (size + 4095) / 4096;
            BitmapIsSafe(entries) <==>
              || size == 0
              || home % 4096 + size <= 4096 * ((size + 4095) / 4096)
              || forall i :: 0 <= i < |entries| ==> !PageOf(entries[i], next)
  {
    hide HomeOf, BitmapBytes, StartsFree, PageOf, InBitmap;
    var home, size := HomeOf(entries, BitmapBytes(entries)), BitmapBytes(entries);
    var next := home / 4096 + (size + 4095) / 4096;
    forall a: nat | home <= a < home + size
      ensures a / 4096 == next || InBitmap(entries, a / 4096)
      ensures a / 4096 == next ==> home % 4096 + size > 4096 * ((size + 4095) / 4096)
    {
      BytesOfBitmap(entries, a);
    }
    forall p: nat
      ensures StartsFree(entries, p) <==>
              p > 0 && (exists i :: 0 <= i < |entries| && PageOf(entries[i], p)) && !InBitmap(entries, p)
    {
      StartsFreeIff(entries, p);
      BitmapPagesHoldBytes(entries, p);
    }
    NextIsOutside(entries);
    if size > 0 && home % 4096 + size > 4096 * ((size + 4095) / 4096) {
      LastByteRunsOver(home, size);
    }
  }

  /** A byte of the bitmap is in a page reserved for it, or in the one behind. */
  lemma BytesOfBitmap(entries: seq<Entry>, a: nat)
    requires var home := HomeOf(entries, BitmapBytes(entries)); home <= a < home + BitmapBytes(entries)
    ensures var home, size := HomeOf(entries, BitmapBytes(entries)), BitmapBytes(entries);
            var next := home / 4096 + (size + 4095) / 4096;
            && (a / 4096 == next || InBitmap(entries, a / 4096))
            && (a / 4096 == next ==> home % 4096 + size > 4096 * ((size + 4095) / 4096))
  {
    hide HomeOf, BitmapBytes;
  }

  lemma NextIsOutside(entries: seq<Entry>)
    ensures var home, size := HomeOf(entries, BitmapBytes(entries)), BitmapBytes(entries);
            var next := home / 4096 + (size + 4095) / 4096;
            !InBitmap(entries, next) && (size > 0 ==> next > 0)
  {
    hide HomeOf, BitmapBytes;
  }

  lemma LastByteRunsOver(home: nat, size: nat)
    requires size > 0 && home % 4096 + size > 4096 * ((size + 4095) / 4096)
    ensures var a: nat := home + size - 1; home <= a && a / 4096 == home / 4096 + (size + 4095) / 4096
  {
  }

  /** On aligned entries the assertions hold exactly when the last usable entry ends highest. */
  lemma AssertionsHoldIff(entries: seq<Entry>)
    requires Aligned(entries) && HomeOf(entries, BitmapBytes(entries)) != 0
    ensures AssertionsHold(entries) <==>
            forall i :: 0 <= i < |entries| && entries[i].usable ==> End(entries[i]) <= LastEnd(entries)
  {
    hide LastEnd, HomeOf, End, Fits;
    var pages := PageCount(entries);
    forall i | 0 <= i < |entries| && entries[i].usable
      ensures Released(entries[i]) && (Fits(entries[i], pages) <==> End(entries[i]) <= LastEnd(entries))
    {
      FitsIff(entries[i], LastEnd(entries));
    }
    if forall i :: 0 <= i < |entries| && entries[i].usable ==> End(entries[i]) <= LastEnd(entries) {
      HomeFits(entries);
    }
  }

  lemma FitsIff(e: Entry, last: nat)
    requires e.base % PAGE_SIZE == 0 && e.length % PAGE_SIZE == 0 && e.length > 0
    requires e.base + e.length < 0x1_0000_0000_0000_0000 && e.usable
    ensures Released(e) && (Fits(e, last / PAGE_SIZE) <==> End(e) <= last)
  {
    WholePages(e, last);
  }

  /** The bitmap's own pages lie in an entry. */
  lemma HomeFits(entries: seq<Entry>)
    requires Aligned(entries) && HomeOf(entries, BitmapBytes(entries)) != 0
    requires forall i :: 0 <= i < |entries| && entries[i].usable ==> End(entries[i]) <= LastEnd(entries)
    ensures var first := HomeOf(entries, BitmapBytes(entries)) / PAGE_SIZE;
            first < PageCount(entries) && first + BitmapPages(entries) <= PageCount(entries)
  {
    hide LastEnd, HomeOf;
    var h := HomeHasRoom(entries, BitmapBytes(entries));
    WholePages(entries[h], LastEnd(entries));
  }

  lemma WholePages(e: Entry, last: nat)
    requires e.base % PAGE_SIZE == 0 && e.length % PAGE_SIZE == 0 && e.length > 0
    requires e.base + e.length < 0x1_0000_0000_0000_0000
    ensures End(e) == e.base + e.length && e.base / PAGE_SIZE < End(e) / PAGE_SIZE
    ensures End(e) / PAGE_SIZE <= last / PAGE_SIZE <==> End(e) <= last
  {
  }

  /** No assertion trips on a memory map that keeps the boot protocol's promises. */
  lemma WellFormedMapsTripNothing(entries: seq<Entry>)
    requires WellFormed(entries) && HomeOf(entries, BitmapBytes(entries)) != 0
    ensures AssertionsHold(entries)
  {
    forall i | 0 <= i < |entries| && entries[i].usable ensures End(entries[i]) <= LastEnd(entries) {
      LastEndIsHighest(entries, i);
    }
    AssertionsHoldIff(entries);
  }

  /** Two usable entries in descending order: the lower one comes last, and a bound fails. */
  lemma UnsortedMapsTripTheBound()
    ensures var m := [Entry(0x10000, 0x1000, true), Entry(0x1000, 0x1000, true)];
            HomeOf(m, BitmapBytes(m)) != 0 && !AssertionsHold(m)
  {
    var m := [Entry(0x10000, 0x1000, true), Entry(0x1000, 0x1000, true)];
    assert LastEnd(m) == 0x2000;
    assert Released(m[0]) && !Fits(m[0], PageCount(m));
  }
}

module Pmm {
  import opened Options
  import opened BitSeq
  import opened Bitmaps
  import opened PageOwnership
  import opened MemoryMap

  datatype InitResult = Ready | NoMemoryMap | NoRoomForBitmap | AssertionTripped

  class PageAllocator {
    var bitmap: Bitmap?

    ghost predicate Valid()
      reads this, bitmap
    {
      bitmap != null && bitmap.Valid()
    }

    ghost function Bits(): seq<bool>
      requires Valid()
      reads this, bitmap, bitmap.data
    {
      bitmap.Contents()
    }

    constructor ()
      ensures bitmap == null
    {
      bitmap := null;
    }

    method Alloc(pages: nat) returns (r: Option<nat>)
      requires Valid() && pages > 0
      modifies bitmap.data
      ensures Valid()
      ensures match TakePages(old(Bits()), pages)
              case None => r == None && Bits() == old(Bits())
              case Some((addr, bits)) => r == Some(addr) && Bits() == bits
    {
      FirstFitFromIsLeast(Bits(), pages, 0);
      var found := bitmap.Find(pages);
      if found == 0 {
        return None;
      }
      bitmap.Fill(found, found + pages, true);
      return Some(found * PAGE_SIZE);
    }

    method Free(addr: nat, pages: nat)
      requires Valid() && addr != 0 && pages > 0
      requires addr / PAGE_SIZE + pages <= |Bits()|
      modifies bitmap.data
      ensures Valid()
      ensures Bits() == Filled(old(Bits()), addr / PAGE_SIZE, addr / PAGE_SIZE + pages, false)
    {
      var page := addr / PAGE_SIZE;
      bitmap.Fill(page, page + pages, false);
    }

    /** pmmInit, for any list of entries or none at all; `r` says which way it ended. */
    method Init(response: Option<seq<Entry>>) returns (r: InitResult)
      modifies this
      ensures r == NoMemoryMap <==> response == None
      ensures response.Some? ==>
                var entries := response.value;
                && (r == NoRoomForBitmap <==> HomeOf(entries, BitmapBytes(entries)) == 0)
                && (r == Ready <==> HomeOf(entries, BitmapBytes(entries)) != 0 && AssertionsHold(entries))
      ensures r == Ready ==> Valid() && fresh(bitmap) && fresh(bitmap.data) && |Bits()| == PageCount(response.value)
      ensures r == Ready ==> |Bits()| == LastEnd(response.value) / 4096
      ensures r == Ready ==> forall p: nat :: p < |Bits()| ==> (!Bits()[p] <==> StartsFree(response.value, p))
      ensures r == Ready ==>
                var entries, size := response.value, BitmapBytes(response.value);
                var start := HomeOf(entries, size) / 4096 * 4096;
                forall p: nat :: p < |Bits()| ==>
                  (!Bits()[p] <==>
                     && p > 0
                     && (exists i :: 0 <= i < |entries| && PageOf(entries[i], p))
                     && !(exists a: nat :: start <= a < start + size && a / 4096 == p))
    {
      hide CalculateSize, HomeOf, LastEnd, PageOf;
      if response == None {
        return NoMemoryMap;
      }
      var entries := response.value;
      var last := LastUsable(entries);
      var bitmapSize := CalculateSize(last / PAGE_SIZE);
      var bitmapAddr := FindHome(entries, bitmapSize);
      if bitmapAddr == 0 {
        return NoRoomForBitmap;
      }
      if last / PAGE_SIZE == 0 {
        return AssertionTripped;
      }
      var words := new bv64[bitmapSize / 8];
      bitmap := new Bitmap(last / PAGE_SIZE, words);
      bitmap.FillAll(true);

      var ok := Release(entries);
      if !ok {
        return AssertionTripped;
      }
      ghost var released := Bits();

      var startPage := bitmapAddr / PAGE_SIZE;
      var endPage := startPage + (bitmapSize + PAGE_SIZE - 1) / PAGE_SIZE;
      if !(startPage < bitmap.bits && endPage <= bitmap.bits) {
        return AssertionTripped;
      }
      bitmap.Fill(startPage, endPage, true);
      bitmap.Set(0, true);
      assert Bits() == Filled(released, startPage, endPage, true)[0 := true];
      forall p: nat | p < |Bits()| ensures !Bits()[p] <==> StartsFree(entries, p) { }
      forall p: nat { StartsFreeIff(entries, p); }
      return Ready;
    }

    /** The third loop of pmmInit; stops at the first bound that fails. */
    method Release(entries: seq<Entry>) returns (ok: bool)
      requires Valid() && forall p :: 0 <= p < |Bits()| ==> Bits()[p]
      modifies bitmap.data
      ensures Valid() && |Bits()| == old(|Bits()|)
      ensures ok <==> forall k :: 0 <= k < |entries| && Released(entries[k]) ==> Fits(entries[k], bitmap.bits)
      ensures ok ==> forall p: nat :: p < |Bits()| ==>
                (!Bits()[p] <==> exists k :: 0 <= k < |entries| && Covers(entries[k], p))
    {
      for i := 0 to |entries|
        invariant Valid() && |Bits()| == old(|Bits()|)
        invariant forall k :: 0 <= k < i && Released(entries[k]) ==> Fits(entries[k], bitmap.bits)
        invariant forall p: nat :: p < |Bits()| ==>
                    (!Bits()[p] <==> exists k :: 0 <= k < i && Covers(entries[k], p))
      {
        if entries[i].base % PAGE_SIZE == 0 && entries[i].usable {
          var from, to := entries[i].base / PAGE_SIZE, End(entries[i]) / PAGE_SIZE;
          if !(from < bitmap.bits && to <= bitmap.bits) {
            assert !Fits(entries[i], bitmap.bits);
            return false;
          }
          bitmap.Fill(from, to, false);
        }
      }
      ok := true;
    }

    /** The first loop of pmmInit. */
    method LastUsable(entries: seq<Entry>) returns (last: nat)
      ensures last == LastEnd(entries)
    {
      last := 0;
      for i := 0 to |entries|
        invariant last == LastEnd(entries[..i])
      {
        if entries[i].usable {
          last := End(entries[i]);
        }
        assert entries[..i + 1][..i] == entries[..i];
      }
      assert entries[..|entries|] == entries;
    }

    /** The second loop of pmmInit. */
    method FindHome(entries: seq<Entry>, size: nat) returns (addr: nat)
      ensures addr == HomeOf(entries, size)
    {
      addr := 0;
      var i := 0;
      while i < |entries|
        invariant 0 <= i <= |entries|
        invariant addr == 0 && HomeOf(entries, size) == HomeOf(entries[i..], size)
      {
        if entries[i].usable && entries[i].base != 0 && entries[i].length >= size {
          addr := entries[i].base;
          return;
        }
        i := i + 1;
      }
    }
  }

  /**
   * From boot on: whatever is handed out is a page of a usable entry, never page 0, and never a page
   * reserved for the bitmap's bytes; and where the bitmap is safe at all, never one that holds a byte of it.
   */
  lemma LivePagesAreUsable(entries: seq<Entry>, b0: seq<bool>, ops: seq<Op>, i: nat, p: nat)
    requires |b0| == PageCount(entries) > 0
    requires forall q: nat :: q < |b0| ==> (!b0[q] <==> StartsFree(entries, q))
    requires Run(State(b0, []), ops).Some?
    requires var live := Run(State(b0, []), ops).value.live; i < |live| && InRange(live[i], p)
    ensures p > 0 && exists k :: 0 <= k < |entries| && PageOf(entries[k], p)
    ensures var home, size := HomeOf(entries, BitmapBytes(entries)), BitmapBytes(entries);
            && (forall a: nat :: home / 4096 * 4096 <= a < home / 4096 * 4096 + size ==> a / 4096 != p)
            && (BitmapIsSafe(entries) ==> forall a: nat :: home <= a < home + size ==> a / 4096 != p)
  {
    hide HomeOf, PageOf, BitmapBytes;
    assert b0[0] by { assert !StartsFree(entries, 0); }
    NothingLiveIsOwned(b0);
    EveryRunKeepsOwned(b0, State(b0, []), ops);
    assert !b0[p];
    assert StartsFree(entries, p);
    StartsFreeIff(entries, p);
  }

  /** On a map that keeps the boot protocol's promises the bitmap is safe. */
  lemma WellFormedMapsAreSafe(entries: seq<Entry>)
    requires WellFormed(entries) && HomeOf(entries, BitmapBytes(entries)) != 0
    ensures BitmapIsSafe(entries)
  {
    hide BitmapIsSafe, BitmapBytes, HomeOf;
    var h := HomeHasRoom(entries, BitmapBytes(entries));
    WholeWords(BitmapBytes(entries), HomeOf(entries, BitmapBytes(entries)));
    BitmapIsSafeIff(entries);
  }

  lemma WholeWords(size: nat, home: nat)
    requires home % 4096 == 0
    ensures home % 4096 + size <= 4096 * ((size + 4095) / 4096)
  {
  }

  /** Overlapping entries: the second begins inside the bitmap, and its first page is handed out. */
  lemma OverlapsHandOutTheBitmap()
    ensures var m := [Entry(0x1ff8, 0x18, true), Entry(0x2000, 0x9e000, true)];
            HomeOf(m, BitmapBytes(m)) == 0x1ff8 && BitmapBytes(m) == 24 && StartsFree(m, 2) && !BitmapIsSafe(m)
  {
    var m := [Entry(0x1ff8, 0x18, true), Entry(0x2000, 0x9e000, true)];
    assert LastEnd(m) == 0xa0000;
    assert BitmapBytes(m) == 24;
    assert HasRoom(m[0], 24);
    assert Covers(m[1], 2);
    var a: nat := 0x2000;
    assert a / 4096 == 2;
  }
}
