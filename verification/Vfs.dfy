/**
 * kernel/src/filesystem as it runs: node tables, the mount list and file bytes changed in place, paths
 * scanned by hand.
 */
module Vfs {
  import opened Words
  import opened Options
  import opened Ram
  import opened Bytes
  import opened BitSeq
  import opened PageOwnership
  import opened Pmm
  import opened FileMemory
  import opened VfsModel
  import opened VfsChanges

  datatype MountResult = MountedOn(point: Id) | NoSuchPath | NeverReturns

  /**
   * How a read or write ends: refused (it returns 0), stopped by memcpy's assertion, past the file's
   * memory, or done.
   */
  datatype Transfer = Refused | AssertionTrips | OutsideFile | Moved

  function Outcome(kind: Kind, pos: u64, size: u64): Transfer {
    if kind == Dir || (pos + size) % 0x1_0000_0000_0000_0000 >= FILE_SIZE then Refused
    else if size == 0 then AssertionTrips
    else if pos + size >= 0x1_0000_0000_0000_0000 then OutsideFile
    else Moved
  }

  /**
   * Without wrap-around a transfer is refused exactly from the file's last byte on, and else it
   * trips the assertion exactly when it is empty.
   */
  lemma RefusedExactlyAtTheEnd(pos: u64, size: u64)
    ensures pos + size < WORD ==>
              && (Outcome(File, pos, size) == Refused <==> pos + size >= 8192)
              && (Outcome(File, pos, size) == AssertionTrips <==> size == 0 && pos < 8192)
              && (Outcome(File, pos, size) == Moved <==> 0 < size && pos + size < 8192)
    ensures Outcome(File, pos, size) == OutsideFile <==> WORD <= pos + size < WORD + 8192
    ensures Outcome(File, pos, size) == Moved ==> pos + size < 8192
    ensures Outcome(Dir, pos, size) == Refused
  {
    if pos + size < WORD {
      assert (pos + size) % WORD == pos + size;
    } else {
      assert (pos + size) % WORD == pos + size - WORD;
    }
  }

  /** Instances: the last byte, an empty transfer, and a sum that wraps. */
  lemma RefusedInstances()
    ensures Outcome(File, 8191, 1) == Refused
    ensures Outcome(File, 0, 0) == AssertionTrips
    ensures Outcome(File, 1, 0xFFFF_FFFF_FFFF_FFFF) == OutsideFile
  {
  }

  /** Every file has two live pages of its own. */
  ghost predicate FilesPlaced(nodes: map<Id, Node>, live: seq<Range>)
  {
    && (forall n :: n in nodes && nodes[n].kind == File ==>
          nodes[n].data % PAGE_SIZE == 0 && Range(nodes[n].data / PAGE_SIZE, FILE_PAGES) in live)
    && (forall n, k :: n in nodes && k in nodes && nodes[n].kind == File && nodes[k].kind == File && n != k ==>
          nodes[n].data != nodes[k].data)
  }

  /** Where the files are, so placed, they lie in memory and apart. */
  lemma PlacedFilesApart(nodes: map<Id, Node>, b0: seq<bool>, s: State, m: seq<u64>, n: Id, k: Id)
    requires FilesPlaced(nodes, s.live) && Owned(b0, s) && 512 * |s.bits| <= |m|
    requires n in nodes && k in nodes && nodes[n].kind == File && nodes[k].kind == File
    ensures nodes[n].data == 4096 * (nodes[n].data / 4096) && nodes[n].data + FILE_SIZE <= 8 * |m|
    ensures n != k ==> FilesApart(nodes[n].data, nodes[k].data)
  {
    hide Owned;
    FilesInRanges(b0, s, m, nodes[n].data / PAGE_SIZE, nodes[k].data / PAGE_SIZE);
  }

  /** The state after vfsMount on what a path found. */
  function AfterMount(fs: Fs, mp: Id, fsType: string, next: Id): Fs {
    if mp == 0 then fs
    else if fsType == "tmp" then Mounted(fs, mp, next, TmpfsNodes(fs.nodes, next))
    else Mounted(fs, mp, 0, fs.nodes)
  }

  lemma {:induction false} ScanStaysInside(fs: Fs, n: Id, p: string)
    requires WellFormed(fs) && (n == 0 || n in fs.nodes) && Scan(fs, n, p) != Never
    ensures Scan(fs, n, p).id == 0 || Scan(fs, n, p).id in fs.nodes
    decreases |p|
  {
    if p != "" {
      if p[0] == '/' {
        ScanStaysInside(fs, n, p[1..]);
      } else {
        var k := FirstSlash(p);
        LookRises(fs, n, p[..k]);
        if k < |p| {
          var next := Look(fs, n, p[..k]);
          if next != 0 && !IsFile(fs, next) {
            ScanStaysInside(fs, next, p[k + 1..]);
          }
        } else {
          assert p[..k] == p;
        }
      }
    }
  }

  lemma FoundIsANode(fs: Fs, p: string)
    requires WellFormed(fs) && Lookup(fs, p) != Never
    ensures Lookup(fs, p).id == 0 || Lookup(fs, p).id in fs.nodes
  {
    RedirectRises(fs, fs.mnts, fs.root);
    ScanStaysInside(fs, Top(fs), p);
  }

  /** What a successful allocation adds to the live ranges. */
  lemma NewRange(b0: seq<bool>, s: State, pages: nat)
    requires Owned(b0, s) && pages > 0 && TakePages(s.bits, pages).Some?
    ensures var (addr, bits) := TakePages(s.bits, pages).value;
            && addr % PAGE_SIZE == 0 && |bits| == |s.bits|
            && Owned(b0, State(bits, s.live + [Range(addr / PAGE_SIZE, pages)]))
  {
    AllocKeepsOwned(b0, s, pages);
  }

  lemma StartIsUsed(b0: seq<bool>, s: State, r: Range)
    requires Owned(b0, s) && r in s.live
    ensures r.start < |s.bits| && s.bits[r.start]
  {
    hide FreeCount, TotalPages;
    OwnedAreInside(b0, s, r);
    assert InRange(r, r.start);
  }

  lemma NewRangeIsFresh(b0: seq<bool>, s: State, pages: nat)
    requires Owned(b0, s) && pages > 0 && TakePages(s.bits, pages).Some?
    ensures Range(TakePages(s.bits, pages).value.0 / PAGE_SIZE, pages) !in s.live
  {
    hide FreeCount, TotalPages;
    FirstFitFromIsLeast(s.bits, pages, 0);
    var p := TakePages(s.bits, pages).value.0 / PAGE_SIZE;
    assert !s.bits[p];
    if Range(p, pages) in s.live {
      StartIsUsed(b0, s, Range(p, pages));
    }
  }

  lemma ReadBytes(m: seq<u64>, a: nat, pos: nat, bytes: seq<byte>)
    requires pos + |bytes| <= FILE_SIZE && forall k :: 0 <= k < |bytes| ==> bytes[k] == ByteAt(m, a + pos + k)
    ensures bytes == FileBytes(m, a)[pos..pos + |bytes|]
  {
    hide ByteAt;
  }

  /** The pages that a file takes were free and are not any more. */
  lemma TwoPagesTaken(bits: seq<bool>)
    requires TakePages(bits, 2).Some?
    ensures var (addr, bits') := TakePages(bits, 2).value;
            var p := addr / 4096;
            && addr == 4096 * p && p > 0 && p + 2 <= |bits| == |bits'|
            && !bits[p] && !bits[p + 1] && bits'[p] && bits'[p + 1]
  {
    FirstFitFromIsLeast(bits, 2, 0);
  }

  lemma NewestIsNew(fs: Fs, id: Id)
    requires Newest(fs, id)
    ensures id !in fs.nodes
  {
  }

  lemma NewestFacts(fs: Fs, id: Id)
    requires Newest(fs, id)
    ensures id !in fs.nodes && forall n :: n in fs.nodes ==> n < id
  {
  }

  lemma NewestAfter(fs: Fs, dir: Id, id: Id, node: Node)
    requires Newest(fs, id) && dir in fs.nodes
    ensures Newest(WithChild(fs, dir, id, node), id + 1)
  {
  }

  lemma SameNodesNewest(fs: Fs, fs': Fs, id: Id)
    requires Newest(fs, id) && fs'.nodes == fs.nodes
    ensures Newest(fs', id)
  {
  }

  lemma WithChildPlaced(nodes: map<Id, Node>, dir: Id, id: Id, node: Node, live: seq<Range>)
    requires FilesPlaced(nodes, live) && dir in nodes && id !in nodes
    requires node.kind == File ==>
               && node.data % PAGE_SIZE == 0 && Range(node.data / PAGE_SIZE, FILE_PAGES) in live
               && forall n :: n in nodes && nodes[n].kind == File ==> nodes[n].data != node.data
    ensures FilesPlaced(nodes[id := node][dir := nodes[dir].(children := [id] + nodes[dir].children)], live)
  {
  }

  /** A write into one placed file, seen from all of them. */
  lemma WrittenFiles(nodes: map<Id, Node>, b0: seq<bool>, s: State, m: seq<u64>, n: Id, pos: nat, bytes: seq<byte>)
    requires FilesPlaced(nodes, s.live) && Owned(b0, s) && 512 * |s.bits| <= |m|
    requires n in nodes && nodes[n].kind == File && pos + |bytes| <= FILE_SIZE
    ensures var m' := Copied(m, nodes[n].data + pos, bytes);
            && FileBytes(m', nodes[n].data) == Spliced(FileBytes(m, nodes[n].data), pos, bytes)
            && forall k :: k in nodes && nodes[k].kind == File && k != n ==>
                 FileBytes(m', nodes[k].data) == FileBytes(m, nodes[k].data)
  {
    hide Owned, FilesPlaced, FileBytes, Spliced, Copied;
    PlacedFilesApart(nodes, b0, s, m, n, n);
    CopiedFiles(m, nodes[n].data, pos, bytes, nodes[n].data);
    forall k | k in nodes && nodes[k].kind == File && k != n
      ensures FileBytes(Copied(m, nodes[n].data + pos, bytes), nodes[k].data) == FileBytes(m, nodes[k].data)
    {
      PlacedFilesApart(nodes, b0, s, m, n, k);
      CopiedFiles(m, nodes[n].data, pos, bytes, nodes[k].data);
    }
  }

  class FileSystem {
    var nodes: map<Id, Node>
    var mnts: seq<Mount>
    const root: Id
    /** The number the next node will get. */
    var next: Id
    /** Physical memory, and the allocator that files get their pages from. */
    const ram: array<u64>
    const pmm: PageAllocator
    /** The pages reserved at start-up, and the ranges handed out since. */
    ghost const reserved: seq<bool>
    ghost var live: seq<Range>

    constructor (root: Id, next: Id, ram: array<u64>, pmm: PageAllocator)
      requires 0 < root < next
      requires pmm.Valid() && (pmm.bitmap.data as object) != ram && 512 * |pmm.Bits()| <= ram.Length
      requires |pmm.Bits()| > 0 && pmm.Bits()[0]
      ensures State() == Fs(map[root := Node(Dir, false, "", [], 0)], [], root) && this.next == next
      ensures this.ram == ram && this.pmm == pmm && live == [] && Valid()
    {
      this.root := root;
      this.next := next;
      this.nodes := map[root := Node(Dir, false, "", [], 0)];
      this.mnts := [];
      this.ram := ram;
      this.pmm := pmm;
      this.reserved := pmm.Bits();
      this.live := [];
      new;
      NothingLiveIsOwned(pmm.Bits());
    }

    function State(): Fs
      reads this
    {
      Fs(nodes, mnts, root)
    }

    ghost predicate Valid()
      reads this, pmm, pmm.bitmap, if pmm.bitmap == null then {} else {pmm.bitmap.data}
    {
      && WellFormed(State()) && Newest(State(), next) && Detached(State())
      && FilesPlaced(nodes, live)
      && pmm.Valid() && (pmm.bitmap.data as object) != ram && 512 * |pmm.Bits()| <= ram.Length
      && Owned(reserved, PageOwnership.State(pmm.Bits(), live))
    }

    /** vfsFindMnt: the newest mount on n, if there is one. */
    method FindMnt(n: Id) returns (r: Option<Mount>)
      ensures match r
              case None => n == 0 || forall i :: 0 <= i < |mnts| ==> mnts[i].mountpoint != n
              case Some(mnt) =>
                n != 0 && exists i :: 0 <= i < |mnts| && mnts[i] == mnt && mnt.mountpoint == n
                                      && forall j :: 0 <= j < i ==> mnts[j].mountpoint != n
      ensures Redirect(mnts, n) == match r case None => n case Some(mnt) => mnt.root
    {
      if n == 0 {
        return None;
      }
      var i := 0;
      while i < |mnts|
        invariant 0 <= i <= |mnts| && forall j :: 0 <= j < i ==> mnts[j].mountpoint != n
        invariant Redirect(mnts, n) == Redirect(mnts[i..], n)
      {
        if mnts[i].mountpoint == n {
          return Some(mnts[i]);
        }
        i := i + 1;
      }
      r := None;
    }

    /** strcmp on strings without their terminators: 0 exactly for equal strings. */
    method Strcmp(a: string, b: string) returns (r: int)
      requires (forall i :: 0 <= i < |a| ==> a[i] != '\0') && forall i :: 0 <= i < |b| ==> b[i] != '\0'
      ensures r == 0 <==> a == b
    {
      var i := 0;
      while i < |a| && i < |b| && a[i] == b[i]
        invariant 0 <= i <= |a| && i <= |b| && a[..i] == b[..i]
      {
        i := i + 1;
      }
      var x := if i < |a| then a[i] as int else 0;
      var y := if i < |b| then b[i] as int else 0;
      assert i == |a| && i == |b| ==> a == a[..i] && b == b[..i];
      r := x - y;
    }

    method TmpfsLookup(n: Id, name: string) returns (r: Id)
      requires n in nodes
      requires forall i :: 0 <= i < |name| ==> name[i] != '\0'
      requires forall m, i :: m in nodes && 0 <= i < |nodes[m].name| ==> nodes[m].name[i] != '\0'
      ensures r == ChildNamed(nodes, nodes[n].children, name)
    {
      var children := nodes[n].children;
      var i := 0;
      while i < |children|
        invariant 0 <= i <= |children|
        invariant ChildNamed(nodes, children, name) == ChildNamed(nodes, children[i..], name)
      {
        if children[i] in nodes {
          var c := Strcmp(nodes[children[i]].name, name);
          if c == 0 {
            return children[i];
          }
        }
        i := i + 1;
      }
      r := 0;
    }

    /** No string has its terminator inside. */
    predicate Terminated()
      reads this
    {
      forall m, i :: m in nodes && 0 <= i < |nodes[m].name| ==> nodes[m].name[i] != '\0'
    }

    method LookIn(n: Id, name: string) returns (r: Id)
      requires Terminated() && forall i :: 0 <= i < |name| ==> name[i] != '\0'
      ensures r == Look(State(), n, name)
    {
      if n == 0 || n !in nodes || nodes[n].kind == File || !nodes[n].handlers {
        return 0;
      }
      r := TmpfsLookup(n, name);
      var mnt := FindMnt(r);
      if mnt.Some? {
        r := mnt.value.root;
      }
    }

    /** vfsLookup: one character at a time, `sp` being the component so far. */
    method LookupPath(path: string) returns (r: Found)
      requires Terminated() && forall i :: 0 <= i < |path| ==> path[i] != '\0'
      ensures r == Lookup(State(), path)
    {
      hide Scan, Look, Redirect, IsFile;
      ghost var fs := State();
      var current := root;
      var mnt := FindMnt(root);
      if mnt.Some? {
        current := mnt.value.root;
      }
      var sp := "";
      var i := 0;
      assert sp + path[0..] == path;
      while i < |path|
        invariant 0 <= i <= |path| && |sp| <= LONGEST && '/' !in sp
        invariant forall k :: 0 <= k < |sp| ==> sp[k] != '\0'
        invariant Scan(fs, current, sp + path[i..]) == Lookup(fs, path)
      {
        ghost var rest := path[i..];
        assert rest[0] == path[i] && rest[1..] == path[i + 1..];
        if path[i] == '/' {
          EndOfPiece(fs, current, sp, rest);
          if |sp| > 0 {
            current := LookIn(current, sp);
            var file := IsFileNode(current);
            if current == 0 || file {
              return Node_(0);
            }
          }
          sp := "";
          assert sp + path[i + 1..] == rest[1..];
        } else {
          LongPiece(fs, current, sp, rest);
          if |sp| >= LONGEST {
            return Never;
          }
          assert (sp + [path[i]]) + path[i + 1..] == sp + rest;
          sp := sp + [path[i]];
        }
        i := i + 1;
      }
      LastPiece(fs, current, sp);
      assert sp + path[i..] == sp;
      if sp != "" {
        current := LookIn(current, sp);
      }
      r := Node_(current);
    }

    method IsFileNode(n: Id) returns (r: bool)
      ensures r == IsFile(State(), n)
    {
      r := n in nodes && nodes[n].kind == File;
    }

    static lemma {:induction false} PieceThenRest(sp: string, rest: string)
      requires '/' !in sp
      ensures FirstSlash(sp + rest) == |sp| + FirstSlash(rest)
    {
      if sp == "" {
        assert sp + rest == rest;
      } else {
        assert (sp + rest)[1..] == sp[1..] + rest;
        PieceThenRest(sp[1..], rest);
      }
    }

    static lemma EndOfPiece(fs: Fs, n: Id, sp: string, rest: string)
      requires '/' !in sp && |sp| <= LONGEST && rest != "" && rest[0] == '/'
      ensures Scan(fs, n, sp + rest) ==
              if sp == "" then Scan(fs, n, rest[1..])
              else if Look(fs, n, sp) == 0 || IsFile(fs, Look(fs, n, sp)) then Node_(0)
              else Scan(fs, Look(fs, n, sp), rest[1..])
    {
      PieceThenRest(sp, rest);
      if sp == "" {
        assert sp + rest == rest;
      } else {
        assert (sp + rest)[..|sp|] == sp && (sp + rest)[|sp| + 1..] == rest[1..];
        assert (sp + rest)[0] == sp[0] && sp[0] in sp;
      }
    }

    static lemma LongPiece(fs: Fs, n: Id, sp: string, rest: string)
      requires '/' !in sp && rest != "" && rest[0] != '/'
      ensures |sp| >= LONGEST ==> Scan(fs, n, sp + rest) == Never
    {
      PieceThenRest(sp, rest);
      assert FirstSlash(rest) >= 1;
      assert (sp + rest)[0] != '/' by {
        if sp != "" { assert sp[0] in sp; }
      }
    }

    static lemma LastPiece(fs: Fs, n: Id, sp: string)
      requires '/' !in sp && |sp| <= LONGEST
      ensures Scan(fs, n, sp) == Node_(if sp == "" then n else Look(fs, n, sp))
    {
      if sp != "" {
        PieceThenRest(sp, "");
        assert sp + "" == sp && sp[0] in sp;
      }
    }

    /** vmmAlloc of a new file's pages, and their memset. */
    method AllocFile() returns (a: Option<nat>)
      requires Valid()
      modifies `live, ram, pmm.bitmap.data
      ensures Valid()
      ensures match TakePages(old(pmm.Bits()), FILE_PAGES)
              case None => a == None && live == old(live) && ram[..] == old(ram[..]) && pmm.Bits() == old(pmm.Bits())
              case Some((addr, bits)) =>
                && a == Some(addr) && pmm.Bits() == bits && addr % PAGE_SIZE == 0
                && live == old(live) + [Range(addr / PAGE_SIZE, FILE_PAGES)]
                && ram[..] == Cleared(old(ram[..]), addr / PAGE_SIZE)
                && FileBytes(ram[..], addr) == seq(FILE_SIZE, _ => 0)
                && forall n :: n in nodes && nodes[n].kind == File ==>
                     && nodes[n].data != addr
                     && FileBytes(ram[..], nodes[n].data) == old(FileBytes(ram[..], nodes[n].data))
    {
      hide WellFormed, Newest, Detached, Owned, TakePages, FileBytes, PageAllocator.Bits;
      ghost var s := PageOwnership.State(pmm.Bits(), live);
      a := pmm.Alloc(FILE_PAGES);
      if a.Some? {
        ghost var p := a.value / PAGE_SIZE;
        NewRange(reserved, s, FILE_PAGES);
        live := live + [Range(p, FILE_PAGES)];
        ghost var t := PageOwnership.State(pmm.Bits(), live);
        NewRangeIsFresh(reserved, s, FILE_PAGES);
        FilesInRanges(reserved, t, ram[..], p, p);
        ZeroPages(ram, a.value / PAGE_SIZE, FILE_PAGES);
        forall n | n in nodes && nodes[n].kind == File
          ensures nodes[n].data != a.value && FilesApart(4096 * p, nodes[n].data)
        {
          assert Range(nodes[n].data / PAGE_SIZE, FILE_PAGES) in s.live;
          FilesInRanges(reserved, t, ram[..], p, nodes[n].data / PAGE_SIZE);
        }
        forall n | n in nodes && nodes[n].kind == File
          ensures FileBytes(ram[..], nodes[n].data) == old(FileBytes(ram[..], nodes[n].data))
        {
          ClearedFiles(old(ram[..]), p, nodes[n].data);
        }
        ClearedFiles(old(ram[..]), p, 0);
      }
    }

    /**
     * tmpfsCreate and tmpfsMkdir. `leftover` is what follows in a name buffer filled to its end.
     * A file gets two zeroed pages; None when the page allocator panics.
     */
    method Add(dir: Id, name: string, kind: Kind, leftover: string) returns (r: Option<Id>)
      requires Valid() && dir in nodes
      modifies `nodes, `next, `live, ram, pmm.bitmap.data
      ensures Valid()
      ensures match if kind == File then TakePages(old(pmm.Bits()), FILE_PAGES) else Some((0, old(pmm.Bits())))
              case None => r == None && State() == old(State()) && ram[..] == old(ram[..])
              case Some((addr, bits)) =>
                && r == Some(old(next)) && pmm.Bits() == bits
                && MayAdd(old(State()), dir, old(next), NewNode(name, kind, leftover, addr))
                && State() == WithChild(old(State()), dir, old(next), NewNode(name, kind, leftover, addr))
                && ram[..] == (if kind == File then Cleared(old(ram[..]), addr / PAGE_SIZE) else old(ram[..]))
                && (kind == File ==> FileBytes(ram[..], addr) == seq(FILE_SIZE, _ => 0))
      ensures forall n :: n in old(nodes) && old(nodes)[n].kind == File ==>
                n in nodes && nodes[n].data == old(nodes)[n].data
                && FileBytes(ram[..], nodes[n].data) == old(FileBytes(ram[..], nodes[n].data))
      ensures old(Terminated()) && '\0' !in name && '\0' !in leftover ==> Terminated()
      ensures r.Some? ==> r.value !in old(nodes) && r.value in nodes && mnts == old(mnts)
      ensures r.Some? ==>
                var node := nodes[r.value];
                && node.kind == kind && node.handlers && node.children == []
                && (|name| <= 31 ==> node.name == name)
                && (|name| >= 32 ==> node.name == name[..32] + leftover)
      ensures r.Some? && kind == File ==>
                var p := nodes[r.value].data / 4096;
                && nodes[r.value].data == 4096 * p && p > 0 && p + 2 <= |pmm.Bits()|
                && !old(pmm.Bits())[p] && !old(pmm.Bits())[p + 1] && pmm.Bits()[p] && pmm.Bits()[p + 1]
                && (forall k :: 0 <= k < 8192 ==> FileBytes(ram[..], 4096 * p)[k] == 0)
      ensures r.Some? ==>
                && nodes[dir] == old(nodes)[dir].(children := [r.value] + old(nodes)[dir].children)
                && forall n :: n in old(nodes) && n != dir ==> n in nodes && nodes[n] == old(nodes)[n]
    {
      hide WellFormed, Newest, Detached, Owned, FilesPlaced, TakePages, FileBytes, Cleared, WithChild, NewNode,
           PageAllocator.Bits;
      ghost var fs, id, bits := State(), next, pmm.Bits();
      NewestIsNew(fs, id);
      r := AddNode(dir, name, kind, leftover);
      if r.Some? {
        if kind == File { TwoPagesTaken(bits); }
        AddedMeans(fs, dir, id, name, kind, leftover, if kind == File then TakePages(bits, FILE_PAGES).value.0 else 0);
      }
    }

    static lemma AddedMeans(fs: Fs, dir: Id, id: Id, name: string, kind: Kind, leftover: string, data: nat)
      requires dir in fs.nodes && id !in fs.nodes
      ensures var node := NewNode(name, kind, leftover, data);
              var fs' := WithChild(fs, dir, id, node);
              && node.kind == kind && node.handlers && node.children == [] && node.data == data
              && (|name| <= 31 ==> node.name == name)
              && (|name| >= 32 ==> node.name == name[..32] + leftover)
              && fs'.mnts == fs.mnts && id in fs'.nodes && fs'.nodes[id] == node
              && dir in fs'.nodes && fs'.nodes[dir] == fs.nodes[dir].(children := [id] + fs.nodes[dir].children)
              && forall n :: n in fs.nodes && n != dir ==> n in fs'.nodes && fs'.nodes[n] == fs.nodes[n]
    {
    }

    /** tmpfsAllocNode and tmpfsAddChild, with the whole new state. */
    method AddNode(dir: Id, name: string, kind: Kind, leftover: string) returns (r: Option<Id>)
      requires Valid() && dir in nodes
      modifies `nodes, `next, `live, ram, pmm.bitmap.data
      ensures Valid()
      ensures match if kind == File then TakePages(old(pmm.Bits()), FILE_PAGES) else Some((0, old(pmm.Bits())))
              case None => r == None && State() == old(State()) && ram[..] == old(ram[..])
              case Some((addr, bits)) =>
                && r == Some(old(next)) && pmm.Bits() == bits
                && MayAdd(old(State()), dir, old(next), NewNode(name, kind, leftover, addr))
                && State() == WithChild(old(State()), dir, old(next), NewNode(name, kind, leftover, addr))
                && ram[..] == (if kind == File then Cleared(old(ram[..]), addr / PAGE_SIZE) else old(ram[..]))
                && (kind == File ==> FileBytes(ram[..], addr) == seq(FILE_SIZE, _ => 0))
      ensures forall n :: n in old(nodes) && old(nodes)[n].kind == File ==>
                n in nodes && nodes[n].data == old(nodes)[n].data
                && FileBytes(ram[..], nodes[n].data) == old(FileBytes(ram[..], nodes[n].data))
      ensures old(Terminated()) && '\0' !in name && '\0' !in leftover ==> Terminated()
    {
      hide WellFormed, Newest, Detached, Owned, FilesPlaced, TakePages, FileBytes, Cleared, PageAllocator.Bits;
      var data := 0;
      ghost var m, s := ram[..], PageOwnership.State(pmm.Bits(), live);
      if kind == File {
        var a := AllocFile();
        if a == None {
          return None;
        }
        data := a.value;
      }
      r := Some(next);
      ghost var fs := State();
      var node := NewNode(name, kind, leftover, data);
      NewestFacts(fs, next);
      WithChildWellFormed(fs, dir, next, node);
      WithChildDetached(fs, dir, next, node);
      WithChildPlaced(nodes, dir, next, node, live);
      nodes := nodes[next := node];
      nodes := nodes[dir := nodes[dir].(children := [next] + nodes[dir].children)];
      next := next + 1;
      NewestAfter(fs, dir, next - 1, node);
    }

    /** vfsMount; the path must not be one that vfsLookup never returns from. */
    method MountFs(path: string, fsType: string) returns (r: MountResult)
      requires Valid() && Terminated() && forall i :: 0 <= i < |path| ==> path[i] != '\0'
      modifies `nodes, `mnts, `next
      ensures Valid() && Terminated()
      ensures match Lookup(old(State()), path)
              case Never => r == NeverReturns && State() == old(State())
              case Node_(mp) =>
                && r == (if mp == 0 then NoSuchPath else MountedOn(mp))
                && State() == AfterMount(old(State()), mp, fsType, old(next))
      ensures r == NoSuchPath ==> State() == old(State())
      ensures r.MountedOn? && !IsRoot(old(mnts), r.point) && fsType == "tmp" ==>
                && Lookup(State(), path) == Node_(old(next)) && Lookup(State(), path + "/dev") == Node_(old(next) + 1)
                && old(next) !in old(nodes) && old(next) + 1 !in old(nodes)
                && old(next) in nodes && old(next) + 1 in nodes
                && nodes[old(next)].kind == Dir && nodes[old(next)].handlers
                && nodes[old(next)].children == [old(next) + 1]
                && nodes[old(next) + 1].kind == Dir && nodes[old(next) + 1].handlers
                && nodes[old(next) + 1].name == "dev" && nodes[old(next) + 1].children == []
      ensures r.MountedOn? && !IsRoot(old(mnts), r.point) && fsType != "tmp" ==>
                && Lookup(State(), path) == Node_(0)
                && forall rest :: Fits(Components(rest)) ==> Lookup(State(), path + "/" + rest) == Node_(0)
      ensures r.MountedOn? && IsRoot(old(mnts), r.point) ==> forall p :: Lookup(State(), p) == Lookup(old(State()), p)
      ensures forall n :: n in old(nodes) ==> n in nodes && nodes[n] == old(nodes)[n]
    {
      hide WellFormed, Newest, Detached, Owned, FilesPlaced, Scan, Lookup, IsRoot, PageAllocator.Bits;
      ghost var fs, id := State(), next;
      var found := LookupPath(path);
      if found == Never {
        return NeverReturns;
      }
      if found.id == 0 {
        return NoSuchPath;
      }
      FoundIsANode(State(), path);
      NewestIsNew(fs, id);
      NewestIsNew(fs, id + 1) by { NewestAfterIt(fs, id); }
      MountMeans(fs, path, found.id, fsType, id);
      if fsType == "tmp" {
        TmpfsMount(found.id);
      } else {
        UnknownMountOk(State(), found.id);
        UnknownMountDetached(State(), found.id);
        SameNodesNewest(State(), Mounted(State(), found.id, 0, nodes), next);
        mnts := [Mount(found.id, 0)] + mnts;
      }
      r := MountedOn(found.id);
    }

    static lemma NewestAfterIt(fs: Fs, id: Id)
      requires Newest(fs, id)
      ensures Newest(fs, id + 1)
    {
    }

    /** What AfterMount leaves, mount by mount. */
    static lemma MountMeans(fs: Fs, path: string, mp: Id, fsType: string, id: Id)
      requires WellFormed(fs) && Detached(fs) && Newest(fs, id) && Lookup(fs, path) == Node_(mp) && mp != 0
      ensures var fs' := AfterMount(fs, mp, fsType, id);
              && (!IsRoot(fs.mnts, mp) && fsType == "tmp" ==>
                    Lookup(fs', path) == Node_(id) && Lookup(fs', path + "/dev") == Node_(id + 1))
              && (!IsRoot(fs.mnts, mp) && fsType != "tmp" ==>
                    && Lookup(fs', path) == Node_(0)
                    && forall rest :: Fits(Components(rest)) ==> Lookup(fs', path + "/" + rest) == Node_(0))
              && (IsRoot(fs.mnts, mp) ==> forall p :: Lookup(fs', p) == Lookup(fs, p))
    {
      hide WellFormed, Newest, Detached, Lookup, IsRoot, Fits, Components;
      FoundIsANode(fs, path);
      if IsRoot(fs.mnts, mp) {
        var nodes := if fsType == "tmp" then TmpfsNodes(fs.nodes, id) else fs.nodes;
        TmpfsMountOk(fs, mp, id);
        forall p ensures Lookup(AfterMount(fs, mp, fsType, id), p) == Lookup(fs, p) {
          LookupPastRoot(fs, mp, if fsType == "tmp" then id else 0, nodes, p);
        }
      } else if fsType == "tmp" {
        TmpfsMountMeans(fs, path, mp, id);
      } else {
        NoComponents();
        OtherMountMeans(fs, path, mp, "");
        forall rest | Fits(Components(rest))
          ensures Lookup(AfterMount(fs, mp, fsType, id), path + "/" + rest) == Node_(0)
        {
          OtherMountMeans(fs, path, mp, rest);
        }
      }
    }

    static lemma NoComponents()
      ensures Fits(Components(""))
    {
    }

    /** vfsDoMounts, on the root of vfsInit: / becomes a tmpfs, and its directory dev is lost. */
    method DoMounts()
      requires Valid() && mnts == [] && nodes == map[root := Node(Dir, false, "", [], 0)]
      modifies `nodes, `mnts, `next
      ensures Valid() && Terminated()
      ensures Lookup(State(), "/") == Node_(old(next)) && Searchable(State(), old(next))
      ensures Lookup(State(), "/dev") == Node_(0)
    {
      hide WellFormed, Newest, Detached, Owned, FilesPlaced, Lookup, IsRoot, PageAllocator.Bits;
      ghost var id := next;
      RootIsOld(State(), id);
      RootOfBare(State());
      var r := MountFs("/", "tmp");
      ghost var fs := State();
      DevBelowRoot(fs, id);
      var q := MountFs("/dev", "dev");
      RootAfterDev(fs, id);
    }

    static lemma RootIsOld(fs: Fs, id: Id)
      requires WellFormed(fs) && Newest(fs, id)
      ensures 0 < fs.root < id
    {
    }

    static lemma DevBelowRoot(fs: Fs, id: Id)
      requires fs.root != 0 && fs.mnts == [Mount(fs.root, id)] && Lookup(fs, "/" + "/dev") == Node_(id + 1)
      ensures Lookup(fs, "/dev") == Node_(id + 1) && !IsRoot(fs.mnts, id + 1)
    {
      DevComponents();
      assert "/" + "/dev" == "" + "//" + "dev" && "/dev" == "" + "/" + "dev";
      PlainComponent("dev");
      DoubledSlash(fs, "", "dev");
    }

    static lemma RootAfterDev(fs: Fs, id: Id)
      requires fs.root != 0 && fs.mnts == [Mount(fs.root, id)] && fs.root < id
      ensures Lookup(Mounted(fs, id + 1, 0, fs.nodes), "/") == Node_(id)
    {
      var fs' := Mounted(fs, id + 1, 0, fs.nodes);
      DevComponents();
      LookupIsFold(fs', "/");
      assert fs'.mnts[1..] == fs.mnts;
      assert Redirect(fs.mnts, fs.root) == id;
    }

    static lemma RootOfBare(fs: Fs)
      requires fs.mnts == [] && fs.root != 0
      ensures Lookup(fs, "/") == Node_(fs.root) && !IsRoot(fs.mnts, fs.root)
    {
      DevComponents();
      LookupIsFold(fs, "/");
    }

    /** The new directories have short names, hold no data and are the newest nodes. */
    static lemma TmpfsNodesFine(nodes: map<Id, Node>, id: Id)
      requires forall n :: n in nodes ==> n < id
      ensures var nodes' := TmpfsNodes(nodes, id);
              && (forall n :: n in nodes' ==> n < id + 2)
              && (forall n :: n in nodes' && nodes'[n].kind == File ==> n in nodes && nodes[n] == nodes'[n])
              && (forall n, i :: n in nodes' && 0 <= i < |nodes'[n].name| ==>
                    (n in nodes && nodes'[n] == nodes[n]) || nodes'[n].name[i] != '\0')
    {
    }

    /** tmpfsMount, and the entry into the mount list. */
    method TmpfsMount(mp: Id)
      requires Valid() && Terminated() && mp in nodes
      modifies `nodes, `mnts, `next
      ensures Valid() && Terminated()
      ensures State() == Mounted(old(State()), mp, old(next), TmpfsNodes(old(nodes), old(next)))
    {
      hide WellFormed, Detached, Owned, PageAllocator.Bits;
      TmpfsMountOk(State(), mp, next);
      TmpfsMountDetached(State(), mp, next);
      TmpfsNodesFine(nodes, next);
      nodes := nodes[next := Node(Dir, true, "", [next + 1], 0)];
      nodes := nodes[next + 1 := Node(Dir, true, "dev", [], 0)];
      mnts := [Mount(mp, next)] + mnts;
      next := next + 2;
    }

    /** tmpfsReadWrite: bytes go between the buffer and the file's pages. */
    method ReadWrite(n: Id, pos: u64, buf: array<byte>, size: u64, write: bool) returns (r: Transfer)
      requires Valid() && n in nodes && size <= buf.Length && (buf as object) != ram
      requires (buf as object) != pmm.bitmap.data
      modifies ram, buf
      ensures Valid() && r == Outcome(nodes[n].kind, pos, size)
      ensures nodes[n].kind == Dir ==> r == Refused
      ensures nodes[n].kind == File && pos + size < WORD ==>
                (r == Refused <==> pos + size >= 8192) && (r == Moved <==> 0 < size && pos + size < 8192)
      ensures r == Moved ==> pos + size <= FILE_SIZE
      ensures r == Moved && write ==> forall k :: 0 <= k < 8192 ==>
                FileBytes(ram[..], nodes[n].data)[k] ==
                if pos <= k < pos + size then buf[k - pos] else old(FileBytes(ram[..], nodes[n].data))[k]
      ensures r == Moved && !write ==>
                forall k :: 0 <= k < size ==> buf[k] == FileBytes(ram[..], nodes[n].data)[pos + k]
      ensures r == Moved && write ==>
                && FileBytes(ram[..], nodes[n].data) ==
                   Spliced(old(FileBytes(ram[..], nodes[n].data)), pos, buf[..size])
                && ram[..] == Copied(old(ram[..]), nodes[n].data + pos, buf[..size])
      ensures r == Moved && !write ==>
                buf[..] == old(FileBytes(ram[..], nodes[n].data))[pos..pos + size] + old(buf[size..])
      ensures write ==> buf[..] == old(buf[..])
      ensures r != Moved || !write ==> ram[..] == old(ram[..])
      ensures r != Moved ==> buf[..] == old(buf[..])
      ensures forall k :: k in nodes && nodes[k].kind == File && k != n ==>
                FileBytes(ram[..], nodes[k].data) == old(FileBytes(ram[..], nodes[k].data))
    {
      hide WellFormed, Newest, Detached, Owned, FilesPlaced, FileBytes, Copied, PageAllocator.Bits;
      RefusedExactlyAtTheEnd(pos, size);
      if nodes[n].kind == Dir {
        return Refused;
      }
      if (pos + size) % 0x1_0000_0000_0000_0000 >= FILE_SIZE {
        return Refused;
      }
      if size == 0 {
        return AssertionTrips;
      }
      if pos + size >= 0x1_0000_0000_0000_0000 {
        return OutsideFile;
      }
      if write {
        MoveIn(n, pos, buf, size);
      } else {
        MoveOut(n, pos, buf, size);
      }
      r := Moved;
    }

    /** A write that is in bounds. */
    method MoveIn(n: Id, pos: nat, buf: array<byte>, size: nat)
      requires Valid() && n in nodes && nodes[n].kind == File && size <= buf.Length && pos + size <= FILE_SIZE
      requires (buf as object) != ram && (buf as object) != pmm.bitmap.data
      modifies ram
      ensures Valid() && ram[..] == Copied(old(ram[..]), nodes[n].data + pos, buf[..size])
      ensures FileBytes(ram[..], nodes[n].data) == Spliced(old(FileBytes(ram[..], nodes[n].data)), pos, buf[..size])
      ensures forall k :: k in nodes && nodes[k].kind == File && k != n ==>
                FileBytes(ram[..], nodes[k].data) == old(FileBytes(ram[..], nodes[k].data))
    {
      hide WellFormed, Newest, Detached, Owned, FilesPlaced, FileBytes, Spliced, PageAllocator.Bits;
      ghost var m, s := ram[..], PageOwnership.State(pmm.Bits(), live);
      PlacedFilesApart(nodes, reserved, s, m, n, n);
      CopyIn(nodes[n].data + pos, buf, size);
      WrittenFiles(nodes, reserved, s, m, n, pos, buf[..size]);
    }

    /** A read that is in bounds. */
    method MoveOut(n: Id, pos: nat, buf: array<byte>, size: nat)
      requires Valid() && n in nodes && nodes[n].kind == File && size <= buf.Length && pos + size <= FILE_SIZE
      requires (buf as object) != ram && (buf as object) != pmm.bitmap.data
      modifies buf
      ensures Valid() && buf[..] == FileBytes(ram[..], nodes[n].data)[pos..pos + size] + old(buf[size..])
    {
      hide WellFormed, Newest, Detached, Owned, FilesPlaced, FileBytes, PageAllocator.Bits;
      PlacedFilesApart(nodes, reserved, PageOwnership.State(pmm.Bits(), live), ram[..], n, n);
      CopyOut(nodes[n].data + pos, buf, size);
      ReadBytes(ram[..], nodes[n].data, pos, buf[..size]);
      assert buf[..] == buf[..size] + buf[size..];
    }

    /** memcpy to memory. */
    method CopyIn(a: nat, buf: array<byte>, size: nat)
      requires size <= buf.Length && a + size <= 8 * ram.Length && (buf as object) != ram
      modifies ram
      ensures ram[..] == Copied(old(ram[..]), a, buf[..size])
    {
      ghost var m := ram[..];
      hide SetByte;
      var i := 0;
      while i < size
        invariant 0 <= i <= size
        invariant ram[..] == Copied(m, a, buf[..i])
      {
        assert buf[..i + 1][..i] == buf[..i];
        ram[(a + i) / 8] := SetByte(ram[(a + i) / 8], (a + i) % 8, buf[i]);
        i := i + 1;
      }
    }

    /** memcpy from memory. */
    method CopyOut(a: nat, buf: array<byte>, size: nat)
      requires size <= buf.Length && a + size <= 8 * ram.Length && (buf as object) != ram
      modifies buf
      ensures forall k :: 0 <= k < size ==> buf[k] == ByteAt(ram[..], a + k)
      ensures buf[size..] == old(buf[size..])
    {
      hide ByteOf;
      var i := 0;
      while i < size
        invariant 0 <= i <= size
        invariant forall k :: 0 <= k < i ==> buf[k] == ByteAt(ram[..], a + k)
        invariant buf[size..] == old(buf[size..])
      {
        buf[i] := ByteOf(ram[(a + i) / 8], (a + i) % 8);
        i := i + 1;
      }
    }

    /** tmpfsReaddir: the child at place pos, counted from the newest. */
    method Readdir(n: Id, pos: u64) returns (found: bool, name: string, kind: Kind, reclen: nat)
      requires Valid() && n in nodes
      ensures found <==> pos < |nodes[n].children|
      ensures found ==>
                var c := nodes[nodes[n].children[pos]];
                name == c.name && kind == c.kind && reclen == (16 + |c.name| + 1) % 65536
    {
      var left := pos;
      var children := nodes[n].children;
      var i := 0;
      while i < |children|
        invariant 0 <= i <= |children| && left == pos - i >= 0
      {
        assert children[i] in nodes;
        if left == 0 {
          name := nodes[children[i]].name;
          return true, name, nodes[children[i]].kind, (DIRENT_SIZE + |name| + 1) % 0x1_0000;
        }
        left := left - 1;
        i := i + 1;
      }
      return false, "", Dir, 0;
    }
  }

  /** sizeof(struct linux_dirent64). */
  const DIRENT_SIZE: nat := 16

  function NewNode(name: string, kind: Kind, leftover: string, data: nat): Node {
    Node(kind, true, StoredName(name, leftover), [], data)
  }

  /**
   * Through the calls: a name made in a directory is found below its path exactly when it has at
   * most 31 characters, or ends in just what the name buffer's end held already.
   */
  lemma CreateThenLookup(fs: Fs, dir: Id, id: Id, name: string, kind: Kind, leftover: string, data: nat, p: string)
    requires MayAdd(fs, dir, id, NewNode(name, kind, leftover, data)) && Searchable(fs, dir)
    requires Fits(Components(p)) && FoldLook(fs, Top(fs), Components(p)) == dir
    requires name != "" && '/' !in name && |name| <= LONGEST
    ensures Lookup(WithChild(fs, dir, id, NewNode(name, kind, leftover, data)), p + "/" + name) == Node_(id)
       <==> |name| <= 31 || name[32..] == leftover
  {
    var node := NewNode(name, kind, leftover, data);
    if |name| <= 31 || name[32..] == leftover {
      assert node.name == name;
      CreatedIsFound(fs, dir, id, node, p);
    } else {
      assert node.name != name by {
        assert |name| >= 32 && (name[..32] + leftover)[32..] == leftover;
      }
      OtherNameIsNotFound(fs, dir, id, node, p, name);
    }
  }
}
