/**
 * Whole runs of tmpfs files beside everything else that uses memory: page tables, other ranges
 * of pages, and their holders' stores.
 */
module FileRuns {
  import opened Words
  import opened Options
  import opened Ram
  import opened Bytes
  import opened Paging
  import opened BitSeq
  import opened PageOwnership
  import opened PageTables
  import opened Mapping
  import opened FileMemory
  import opened Vfs
  import VfsModel
  import VmRuns

  /** A new file, a write, a read, or a call of anybody else's. */
  datatype Op =
    | Create(file: nat)
    | Write(file: nat, pos: u64, bytes: seq<byte>)
    | Read(file: nat, pos: u64, size: u64)
    | Other(op: VmRuns.Op)

  /** The machine, and the first page of every file. */
  datatype System = System(vm: VmRuns.System, files: map<nat, nat>)

  predicate IsFilePage(files: map<nat, nat>, g: nat) {
    exists f :: f in files && files[f] <= g <= files[f] + 1
  }

  predicate IsFileRange(files: map<nat, nat>, r: Range) {
    exists f :: f in files && r == Range(files[f], FILE_PAGES)
  }

  /** Others leave the files alone: they neither store to their pages nor give them back. */
  predicate Foreign(s: System, op: VmRuns.Op) {
    && (op.StoreOp? ==> !IsFilePage(s.files, op.frame))
    && (op.GiveBackOp? && op.index < |s.vm.live| ==> !IsFileRange(s.files, s.vm.live[op.index]))
  }

  function WithRam(s: System, m: seq<u64>): System {
    s.(vm := s.vm.(k := s.vm.k.(ram := m)))
  }

  /** A transfer that is neither stopped by an assertion nor past the file's memory. */
  predicate Returns(pos: u64, size: nat) {
    && size < WORD
    && (Outcome(VfsModel.File, pos, size) == Moved || Outcome(VfsModel.File, pos, size) == Refused)
  }

  predicate InBounds(pos: u64, size: nat) {
    0 < size && pos + size < FILE_SIZE
  }

  /** Whether a transfer that returns has moved its bytes. */
  lemma MovedIff(pos: u64, size: nat)
    requires Returns(pos, size)
    ensures Outcome(VfsModel.File, pos, size) == Moved <==> InBounds(pos, size)
  {
    if size > 0 { RefusedExactlyAtTheEnd(pos, size); }
  }

  /**
   * One call, and the bytes it gave its caller; None when it panics, reads through a null table or
   * trips an assertion.
   */
  ghost function Apply(s: System, root: nat, op: Op): (r: Option<(System, seq<byte>)>)
    requires s.vm.k.Sized()
    ensures r.Some? ==> r.value.0.vm.k.Sized()
  {
    match op
    case Create(f) =>
      if f in s.files then None
      else (match VmRuns.Apply(s.vm, root, VmRuns.TakeOp(FILE_PAGES))
            case None => None
            case Some(vm) =>
              if |vm.live| == |s.vm.live| + 1
              then var p := vm.live[|s.vm.live|].start;
                   Some((WithRam(System(vm, s.files[f := p]), Cleared(vm.k.ram, p)), []))
              else None)
    case Write(f, pos, bytes) =>
      if f !in s.files || !Returns(pos, |bytes|) then None
      else if Outcome(VfsModel.File, pos, |bytes|) == Moved
      then Some((WithRam(s, Copied(s.vm.k.ram, 4096 * s.files[f] + pos, bytes)), []))
      else Some((s, []))
    case Read(f, pos, size) =>
      if f !in s.files || !Returns(pos, size) then None
      else if Outcome(VfsModel.File, pos, size) == Moved && pos + size <= FILE_SIZE
      then Some((s, FileBytes(s.vm.k.ram, 4096 * s.files[f])[pos..pos + size]))
      else Some((s, []))
    case Other(o) =>
      if !Foreign(s, o) then None
      else (match VmRuns.Apply(s.vm, root, o)
            case None => None
            case Some(vm) => Some((s.(vm := vm), [])))
  }

  /** A run, and what each of its calls gave its caller. */
  ghost function Run(s: System, root: nat, ops: seq<Op>): (r: Option<(System, seq<seq<byte>>)>)
    requires s.vm.k.Sized()
    ensures r.Some? ==> r.value.0.vm.k.Sized()
    decreases |ops|
  {
    if ops == [] then Some((s, []))
    else match Apply(s, root, ops[0])
      case None => None
      case Some((s1, out)) =>
        match Run(s1, root, ops[1..])
        case None => None
        case Some((s', outs)) => Some((s', [out] + outs))
  }

  // ---- files as byte arrays

  type Contents = map<nat, seq<byte>>

  function AfterOp(c: Contents, op: Op): Contents {
    match op
    case Create(f) => c[f := seq(FILE_SIZE, _ => 0)]
    case Write(f, pos, bytes) =>
      if f in c && |c[f]| == FILE_SIZE && InBounds(pos, |bytes|) then c[f := Spliced(c[f], pos, bytes)] else c
    case _ => c
  }

  function OutputOf(c: Contents, op: Op): seq<byte> {
    match op
    case Read(f, pos, size) =>
      if f in c && |c[f]| == FILE_SIZE && InBounds(pos, size) then c[f][pos..pos + size] else []
    case _ => []
  }

  function AfterRun(c: Contents, ops: seq<Op>): Contents
    decreases |ops|
  {
    if ops == [] then c else AfterRun(AfterOp(c, ops[0]), ops[1..])
  }

  function OutputsOf(c: Contents, ops: seq<Op>): seq<seq<byte>>
    decreases |ops|
  {
    if ops == [] then [] else [OutputOf(c, ops[0])] + OutputsOf(AfterOp(c, ops[0]), ops[1..])
  }

  /** Memory holds the files' contents. */
  ghost predicate Holds(s: System, c: Contents) {
    && c.Keys == s.files.Keys
    && forall f :: f in c ==> c[f] == FileBytes(s.vm.k.ram, 4096 * s.files[f])
  }

  ghost predicate Inv(s: System, root: nat, t: Tables, b: seq<bool>)
  {
    && VmRuns.Inv(s.vm, root, t, b)
    && (forall f :: f in s.files ==> Range(s.files[f], FILE_PAGES) in s.vm.live)
    && (forall f, g :: f in s.files && g in s.files && f != g ==> s.files[f] != s.files[g])
  }

  /** The ops of others in a run. */
  function Others(ops: seq<Op>): seq<VmRuns.Op>
    decreases |ops|
  {
    if ops == [] then [] else (if ops[0].Other? then [ops[0].op] else []) + Others(ops[1..])
  }

  /**
   * What one call leaves: the tables, translations and page count as others' calls say, and every
   * frame that is no table, no file's and not stored to by its holder as it was.
   */
  ghost predicate Stepped(s: System, s': System, root: nat, t: Tables, t': Tables, ops: seq<VmRuns.Op>)
  {
    && (forall f :: f in t ==> f in t' && t'[f] == t[f])
    && VmRuns.TotalOf(s'.vm, t') == VmRuns.TotalOf(s.vm, t)
    && (forall f :: f in s.files ==> f in s'.files && s'.files[f] == s.files[f])
    && (forall u: nat :: u < PAGES ==>
          Translate(s'.vm.k.ram, root, u) == VmRuns.EffectOfRun(ops, u, Translate(s.vm.k.ram, root, u)))
    && (forall g: nat, i: nat :: i < 512 && g !in t' && !IsFilePage(s'.files, g) && !VmRuns.StoresTo(ops, g) ==>
          Entry(s'.vm.k.ram, g, i) == Entry(s.vm.k.ram, g, i))
  }

  lemma OwnedFacts(s: System, root: nat, t: Tables, b: seq<bool>)
    requires Inv(s, root, t, b)
    ensures Owned(b, State(s.vm.k.bits, s.vm.live)) && s.vm.k.Sized() && 512 * |s.vm.k.bits| <= |s.vm.k.ram|
  {
    hide Owned, Tree;
  }

  /** A file's two pages are live, in memory, and apart from every other file's. */
  lemma FileFacts(s: System, root: nat, t: Tables, b: seq<bool>, f: nat, g: nat)
    requires Inv(s, root, t, b) && f in s.files && g in s.files
    ensures 4096 * s.files[f] + FILE_SIZE <= 8 * |s.vm.k.ram| && 512 * (s.files[f] + 2) <= |s.vm.k.ram|
    ensures f != g ==> FilesApart(4096 * s.files[f], 4096 * s.files[g])
    ensures InSome(s.vm.live, s.files[f]) && InSome(s.vm.live, s.files[f] + 1)
  {
    hide VmRuns.Inv, Owned, InSome;
    OwnedFacts(s, root, t, b);
    var st := State(s.vm.k.bits, s.vm.live);
    FilesInRanges(b, st, s.vm.k.ram, s.files[f], s.files[g]);
    OwnedAreInside(b, st, Range(s.files[f], FILE_PAGES));
    assert InRange(Range(s.files[f], FILE_PAGES), s.files[f]) && InRange(Range(s.files[f], FILE_PAGES), s.files[f] + 1);
  }

  /** A change of memory inside the pages of one file. */
  lemma FileWrite(s: System, root: nat, t: Tables, b: seq<bool>, f: nat, m': seq<u64>)
    requires Inv(s, root, t, b) && f in s.files && |m'| == |s.vm.k.ram|
    requires forall g: nat, i: nat :: i < 512 && g != s.files[f] && g != s.files[f] + 1 ==>
               Entry(m', g, i) == Entry(s.vm.k.ram, g, i)
    ensures Inv(WithRam(s, m'), root, t, b) && Stepped(s, WithRam(s, m'), root, t, t, [])
  {
    hide VmRuns.Inv, Owned, InSome, Entry, Translate, FreeCount, TotalPages;
    FileFacts(s, root, t, b, f, f);
    VmRuns.DataWrite(s.vm, root, t, b, m');
    forall g: nat, i: nat | i < 512 && !IsFilePage(s.files, g) ensures Entry(m', g, i) == Entry(s.vm.k.ram, g, i) {
      assert g != s.files[f] && g != s.files[f] + 1;
    }
  }

  lemma WriteStep(s: System, root: nat, t: Tables, b: seq<bool>, c: Contents, op: Op)
    requires Inv(s, root, t, b) && Holds(s, c) && op.Write? && s.vm.k.Sized() && Apply(s, root, op).Some?
    ensures var (s', out) := Apply(s, root, op).value;
            && Inv(s', root, t, b) && Stepped(s, s', root, t, t, [])
            && Holds(s', AfterOp(c, op)) && out == OutputOf(c, op)
  {
    hide VmRuns.Inv, FileBytes, Spliced, Copied, Entry, Translate, FreeCount, TotalPages, Outcome;
    var f, pos, bytes := op.file, op.pos, op.bytes;
    var m := s.vm.k.ram;
    MovedIff(pos, |bytes|);
    if InBounds(pos, |bytes|) {
      FileFacts(s, root, t, b, f, f);
      var m' := Copied(m, 4096 * s.files[f] + pos, bytes);
      forall g: nat, i: nat | i < 512 && g != s.files[f] && g != s.files[f] + 1
        ensures Entry(m', g, i) == Entry(m, g, i)
      {
        OtherFramesKept(m, s.files[f], pos, bytes, g, i);
      }
      FileWrite(s, root, t, b, f, m');
      CopiedFiles(m, 4096 * s.files[f], pos, bytes, 0);
      forall g | g in s.files && g != f
        ensures FileBytes(m', 4096 * s.files[g]) == FileBytes(m, 4096 * s.files[g])
      {
        FileFacts(s, root, t, b, f, g);
        CopiedFiles(m, 4096 * s.files[f], pos, bytes, 4096 * s.files[g]);
      }
    }
  }

  lemma ReadStep(s: System, root: nat, t: Tables, b: seq<bool>, c: Contents, op: Op)
    requires Inv(s, root, t, b) && Holds(s, c) && op.Read? && s.vm.k.Sized() && Apply(s, root, op).Some?
    ensures var (s', out) := Apply(s, root, op).value;
            && s' == s && Stepped(s, s', root, t, t, [])
            && AfterOp(c, op) == c && out == OutputOf(c, op)
  {
    hide VmRuns.Inv, FileBytes, Entry, Translate, FreeCount, TotalPages, Outcome;
    MovedIff(op.pos, op.size);
  }

  /** Others' calls keep every file's range live and its pages untouched. */
  lemma LiveKept(s: VmRuns.System, root: nat, op: VmRuns.Op, r: Range)
    requires s.k.Sized() && VmRuns.Apply(s, root, op).Some? && r in s.live
    requires op.GiveBackOp? && op.index < |s.live| ==> s.live[op.index] != r
    ensures r in VmRuns.Apply(s, root, op).value.live
  {
    hide MapPages, UnmapPages, TakePages;
    var live' := VmRuns.Apply(s, root, op).value.live;
    var i :| 0 <= i < |s.live| && s.live[i] == r;
    if op.GiveBackOp? {
      assert live'[if i < op.index then i else i - 1] == r;
    } else {
      assert live'[i] == r;
    }
  }

  lemma OtherStep(s: System, root: nat, t: Tables, b: seq<bool>, c: Contents, op: Op)
    returns (t': Tables, b': seq<bool>)
    requires Inv(s, root, t, b) && Holds(s, c) && op.Other? && s.vm.k.Sized() && Apply(s, root, op).Some?
    ensures var (s', out) := Apply(s, root, op).value;
            && Inv(s', root, t', b') && Stepped(s, s', root, t, t', [op.op])
            && Holds(s', c) && out == []
  {
    hide VmRuns.Inv, FileBytes, Entry, Translate, FreeCount, TotalPages, VmRuns.Apply, InSome, Owned;
    var vm', s' := VmRuns.Apply(s.vm, root, op.op).value, Apply(s, root, op).value.0;
    var vm;
    vm, t', b' := VmRuns.StepRefines(s.vm, root, t, b, op.op);
    forall f | f in s.files ensures Range(s.files[f], FILE_PAGES) in vm.live {
      if op.op.GiveBackOp? && op.op.index < |s.vm.live| {
        assert IsFileRange(s.files, Range(s.files[f], FILE_PAGES));
      }
      LiveKept(s.vm, root, op.op, Range(s.files[f], FILE_PAGES));
    }
    SameLength(s.vm, root, op.op);
    forall f | f in s.files ensures FileBytes(vm.k.ram, 4096 * s.files[f]) == FileBytes(s.vm.k.ram, 4096 * s.files[f]) {
      FileFacts(s', root, t', b', f, f);
      FilePageKept(s, s', root, t, t', b', op.op, f);
    }
  }

  lemma SameLength(s: VmRuns.System, root: nat, op: VmRuns.Op)
    requires s.k.Sized() && VmRuns.Apply(s, root, op).Some?
    ensures |VmRuns.Apply(s, root, op).value.k.ram| == |s.k.ram|
  {
    hide TakePages;
    match op {
      case MapOp(virt, phys, flags, n) => MapLength(s.k, root, virt, phys, flags, n);
      case UnmapOp(virt, n) => UnmapLength(s.k, root, virt, n);
      case _ =>
    }
  }

  lemma {:induction false} MapLength(k: Kernel, root: nat, virt: u64, phys: u64, flags: nat, n: nat)
    requires k.Sized() && flags < 4096 && MapPages(k, root, virt, phys, flags, n).Some?
    ensures |MapPages(k, root, virt, phys, flags, n).value.ram| == |k.ram|
    decreases n
  {
    hide TakePages, SetEntry, ZeroedPages;
    if n > 0 {
      var k1 := Map(k, root, virt, phys, flags).value;
      MapLength(k1, root, NextPage(virt), NextPage(phys), flags, n - 1);
    }
  }

  lemma {:induction false} UnmapLength(k: Kernel, root: nat, virt: u64, n: nat)
    requires k.Sized() && UnmapPages(k, root, virt, n).Some?
    ensures |UnmapPages(k, root, virt, n).value.ram| == |k.ram|
    decreases n
  {
    hide TakePages, SetEntry;
    if n > 0 {
      UnmapLength(Unmap(k, root, virt).value, root, NextPage(virt), n - 1);
    }
  }

  /** A file's pages are no tables, and nobody else stores to them. */
  lemma FilePageKept(s: System, s': System, root: nat, t: Tables, t': Tables, b': seq<bool>, op: VmRuns.Op, f: nat)
    requires VmRuns.Inv(s'.vm, root, t', b') && VmRuns.Stepped(s.vm, s'.vm, root, t, t', [op])
    requires f in s.files && Foreign(s, op) && |s'.vm.k.ram| == |s.vm.k.ram| && 512 * (s.files[f] + 2) <= |s.vm.k.ram|
    requires InSome(s'.vm.live, s.files[f]) && InSome(s'.vm.live, s.files[f] + 1)
    ensures FileBytes(s'.vm.k.ram, 4096 * s.files[f]) == FileBytes(s.vm.k.ram, 4096 * s.files[f])
  {
    hide VmRuns.Inv, FileBytes, Entry, Translate, FreeCount, TotalPages, InSome;
    var p := s.files[f];
    VmRuns.TablesAreNotData(s'.vm, root, t', b', p);
    VmRuns.TablesAreNotData(s'.vm, root, t', b', p + 1);
    assert IsFilePage(s.files, p) && IsFilePage(s.files, p + 1);
    forall g: nat, i: nat | p <= g <= p + 1 && i < 512 ensures Entry(s'.vm.k.ram, g, i) == Entry(s.vm.k.ram, g, i) {
      StoresElsewhere(op, g);
    }
    SameFrameSameFile(s.vm.k.ram, s'.vm.k.ram, p);
  }

  lemma StoresElsewhere(op: VmRuns.Op, g: nat)
    requires op.StoreOp? ==> op.frame != g
    ensures !VmRuns.StoresTo([op], g)
  {
    assert [op][1..] == [];
  }

  /** The machine after vmmAlloc of a file's pages. */
  lemma TakeStep(s: System, root: nat, t: Tables, b: seq<bool>) returns (vm: VmRuns.System)
    requires Inv(s, root, t, b) && s.vm.k.Sized() && VmRuns.Apply(s.vm, root, VmRuns.TakeOp(FILE_PAGES)).Some?
    ensures VmRuns.Apply(s.vm, root, VmRuns.TakeOp(FILE_PAGES)) == Some(vm)
    ensures VmRuns.Inv(vm, root, t, b) && VmRuns.Stepped(s.vm, vm, root, t, t, [VmRuns.TakeOp(FILE_PAGES)])
    ensures |vm.live| == |s.vm.live| + 1 && vm.live[..|s.vm.live|] == s.vm.live && vm.k.ram == s.vm.k.ram
    ensures vm.live[|s.vm.live|].pages == FILE_PAGES && vm.live[|s.vm.live|] !in s.vm.live
  {
    hide Tree, Translate, FreeCount, TotalPages, Entry, TakePages;
    vm := VmRuns.StepTakesOrGives(s.vm, root, t, b, VmRuns.TakeOp(FILE_PAGES));
    OwnedFacts(s, root, t, b);
    NewRangeIsFresh(b, State(s.vm.k.bits, s.vm.live), FILE_PAGES);
  }

  lemma CreateStep(s: System, root: nat, t: Tables, b: seq<bool>, c: Contents, op: Op)
    requires Inv(s, root, t, b) && Holds(s, c) && op.Create? && s.vm.k.Sized() && Apply(s, root, op).Some?
    ensures var (s', out) := Apply(s, root, op).value;
            && Inv(s', root, t, b) && Stepped(s, s', root, t, t, [])
            && Holds(s', AfterOp(c, op)) && out == []
  {
    hide VmRuns.Inv, FileBytes, Cleared, Entry, Translate, VmRuns.Apply, VmRuns.TotalOf, InSome;
    var f := op.file;
    var vm := TakeStep(s, root, t, b);
    var n := |s.vm.live|;
    var p, m := vm.live[n].start, s.vm.k.ram;
    var s1 := System(vm, s.files[f := p]);
    assert vm.live[n] == Range(p, FILE_PAGES) && forall i :: 0 <= i < n ==> vm.live[i] == s.vm.live[i];
    forall g | g in s.files ensures Range(s.files[g], FILE_PAGES) in vm.live && s.files[g] != p {
      var i :| 0 <= i < n && s.vm.live[i] == Range(s.files[g], FILE_PAGES);
      assert vm.live[i] == s.vm.live[i];
    }
    assert Inv(s1, root, t, b);
    forall g, i: nat | i < 512 && g != p && g != p + 1 ensures Entry(Cleared(m, p), g, i) == Entry(m, g, i) {
      FileFacts(s1, root, t, b, f, f);
      OtherFramesKept(m, p, 0, [], g, i);
    }
    FileWrite(s1, root, t, b, f, Cleared(m, p));
    NewFile(s1, root, t, b, f);
    SteppedByTake(s, s1, WithRam(s1, Cleared(m, p)), root, t);
    forall g | g in s.files ensures FileBytes(Cleared(m, p), 4096 * s.files[g]) == FileBytes(m, 4096 * s.files[g]) {
      assert s1.files[g] == s.files[g];
      OldFile(s1, root, t, b, f, g);
    }
  }

  lemma NewFile(s: System, root: nat, t: Tables, b: seq<bool>, f: nat)
    requires Inv(s, root, t, b) && f in s.files
    ensures FileBytes(Cleared(s.vm.k.ram, s.files[f]), 4096 * s.files[f]) == seq(FILE_SIZE, _ => 0)
  {
    hide Inv, Cleared, FileBytes;
    FileFacts(s, root, t, b, f, f);
    ClearedFiles(s.vm.k.ram, s.files[f], 0);
  }

  lemma OldFile(s: System, root: nat, t: Tables, b: seq<bool>, f: nat, g: nat)
    requires Inv(s, root, t, b) && f in s.files && g in s.files && f != g
    ensures FileBytes(Cleared(s.vm.k.ram, s.files[f]), 4096 * s.files[g]) == FileBytes(s.vm.k.ram, 4096 * s.files[g])
  {
    hide Inv, Cleared, FileBytes;
    FileFacts(s, root, t, b, f, g);
    ClearedFiles(s.vm.k.ram, s.files[f], 4096 * s.files[g]);
  }

  lemma SteppedByTake(s: System, s1: System, s': System, root: nat, t: Tables)
    requires VmRuns.Stepped(s.vm, s1.vm, root, t, t, [VmRuns.TakeOp(FILE_PAGES)]) && s1.vm.k.ram == s.vm.k.ram
    requires Stepped(s1, s', root, t, t, [])
    requires forall f :: f in s.files ==> f in s1.files && s1.files[f] == s.files[f]
    ensures Stepped(s, s', root, t, t, [])
  {
    hide Entry, Translate, VmRuns.TotalOf, IsFilePage;
  }

  /** One call, whichever it is. */
  lemma StepHolds(s: System, root: nat, t: Tables, b: seq<bool>, c: Contents, op: Op)
    returns (t': Tables, b': seq<bool>)
    requires Inv(s, root, t, b) && Holds(s, c) && s.vm.k.Sized() && Apply(s, root, op).Some?
    ensures var (s', out) := Apply(s, root, op).value;
            && Inv(s', root, t', b') && Stepped(s, s', root, t, t', Others([op]))
            && Holds(s', AfterOp(c, op)) && out == OutputOf(c, op)
  {
    hide Inv, Stepped, Apply, Holds, OutputOf, AfterOp;
    OneOther(op, c);
    t', b' := t, b;
    match op {
      case Create(_) => CreateStep(s, root, t, b, c, op);
      case Write(_, _, _) => WriteStep(s, root, t, b, c, op);
      case Read(_, _, _) => ReadStep(s, root, t, b, c, op);
      case Other(_) => t', b' := OtherStep(s, root, t, b, c, op);
    }
  }

  lemma OneOther(op: Op, c: Contents)
    ensures Others([op]) == if op.Other? then [op.op] else []
    ensures op.Other? ==> AfterOp(c, op) == c && OutputOf(c, op) == []
    ensures op.Create? ==> OutputOf(c, op) == []
  {
    assert [op][1..] == [];
  }

  lemma {:induction false} EffectsInTurn(xs: seq<VmRuns.Op>, ys: seq<VmRuns.Op>, u: nat, w: u64, g: nat)
    requires u < PAGES
    ensures VmRuns.EffectOfRun(xs + ys, u, w) == VmRuns.EffectOfRun(ys, u, VmRuns.EffectOfRun(xs, u, w))
    ensures VmRuns.StoresTo(xs + ys, g) <==> VmRuns.StoresTo(xs, g) || VmRuns.StoresTo(ys, g)
    decreases |xs|
  {
    hide VmRuns.Effect, PAGES;
    if xs != [] {
      assert (xs + ys)[1..] == xs[1..] + ys;
      EffectsInTurn(xs[1..], ys, u, VmRuns.Effect(xs[0], u, w), g);
    } else {
      assert xs + ys == ys;
    }
  }

  lemma SteppedInTurn(s: System, s1: System, s2: System, root: nat, t: Tables, t1: Tables, t2: Tables,
                      xs: seq<VmRuns.Op>, ys: seq<VmRuns.Op>)
    requires Stepped(s, s1, root, t, t1, xs) && Stepped(s1, s2, root, t1, t2, ys)
    ensures Stepped(s, s2, root, t, t2, xs + ys)
  {
    hide Entry, Translate, VmRuns.TotalOf, VmRuns.EffectOfRun, VmRuns.StoresTo, PAGES;
    forall u: nat | u < PAGES
      ensures Translate(s2.vm.k.ram, root, u) == VmRuns.EffectOfRun(xs + ys, u, Translate(s.vm.k.ram, root, u))
    {
      EffectsInTurn(xs, ys, u, Translate(s.vm.k.ram, root, u), 0);
    }
    forall g: nat, i: nat | i < 512 && g !in t2 && !IsFilePage(s2.files, g) && !VmRuns.StoresTo(xs + ys, g)
      ensures Entry(s2.vm.k.ram, g, i) == Entry(s.vm.k.ram, g, i)
    {
      FirstPage();
      EffectsInTurn(xs, ys, 0, 0, g);
    }
  }

  lemma FirstPage()
    ensures 0 < PAGES
  {
  }

  lemma SteppedInPlace(s: System, root: nat, t: Tables)
    ensures Stepped(s, s, root, t, t, [])
  {
    hide Entry, Translate, PAGES;
  }

  lemma InvIsSized(s: System, root: nat, t: Tables, b: seq<bool>)
    requires Inv(s, root, t, b)
    ensures s.vm.k.Sized()
  {
    hide Tree, Owned;
  }

  /**
   * Over every run: each file holds, in its own two pages of memory, the bytes that its creation
   * and its accepted writes say; reads return them; and everyone else's calls mean what they mean
   * without files, with no word of theirs changed.
   */
  lemma {:induction false} EveryRunOfFiles(s: System, root: nat, t: Tables, b: seq<bool>, c: Contents, ops: seq<Op>)
    returns (t': Tables, b': seq<bool>)
    requires Inv(s, root, t, b) && Holds(s, c) && s.vm.k.Sized() && Run(s, root, ops).Some?
    ensures var (s', outs) := Run(s, root, ops).value;
            && Inv(s', root, t', b') && Stepped(s, s', root, t, t', Others(ops))
            && Holds(s', AfterRun(c, ops)) && outs == OutputsOf(c, ops)
    decreases |ops|
  {
    hide Inv, Stepped, Apply, Holds, OutputOf, AfterOp;
    if ops == [] {
      t', b' := t, b;
      SteppedInPlace(s, root, t);
    } else {
      var t1, b1 := StepHolds(s, root, t, b, c, ops[0]);
      var s1 := Apply(s, root, ops[0]).value.0;
      t', b' := EveryRunOfFiles(s1, root, t1, b1, AfterOp(c, ops[0]), ops[1..]);
      var s' := Run(s1, root, ops[1..]).value.0;
      SteppedInTurn(s, s1, s', root, t, t1, t', Others([ops[0]]), Others(ops[1..]));
      OneOther(ops[0], c);
      assert Others(ops) == Others([ops[0]]) + Others(ops[1..]);
    }
  }

  /** With no file yet, any state of the machine will do to begin with. */
  lemma NoFilesYet(vm: VmRuns.System, root: nat, t: Tables, b: seq<bool>)
    requires VmRuns.Inv(vm, root, t, b)
    ensures Inv(System(vm, map[]), root, t, b) && Holds(System(vm, map[]), map[])
  {
    hide VmRuns.Inv;
  }

  // ---- each byte is what was written to it last

  predicate Touches(op: Op, f: nat, k: nat) {
    op.Write? && op.file == f && InBounds(op.pos, |op.bytes|) && op.pos <= k < op.pos + |op.bytes|
  }

  /** Byte k of file f by the last write that touches it, or 0 since its creation. */
  function LastWritten(ops: seq<Op>, f: nat, k: nat, before: byte): byte
    decreases |ops|
  {
    if ops == [] then before
    else
      var op := ops[|ops| - 1];
      if Touches(op, f, k) then op.bytes[k - op.pos]
      else if op == Create(f) then 0
      else LastWritten(ops[..|ops| - 1], f, k, before)
  }

  lemma {:induction false} AfterOneMore(c: Contents, ops: seq<Op>, op: Op)
    ensures AfterRun(c, ops + [op]) == AfterOp(AfterRun(c, ops), op)
    decreases |ops|
  {
    if ops == [] {
      assert [op][1..] == [];
    } else {
      assert (ops + [op])[1..] == ops[1..] + [op];
      AfterOneMore(AfterOp(c, ops[0]), ops[1..], op);
    }
  }

  /** All files have 8192 bytes. */
  predicate FullSize(c: Contents) {
    forall g :: g in c ==> |c[g]| == FILE_SIZE
  }

  /** Byte k of a file that is there already. */
  function ByteBefore(c: Contents, f: nat, k: nat, other: byte): byte
    requires FullSize(c) && k < FILE_SIZE
  {
    if f in c then c[f][k] else other
  }

  /**
   * Over any run the files are those there before and those created, of 8192 bytes each, and every
   * byte is what was last written to it, else 0 since its creation, else what it was. For a file
   * created in the run, what is taken for its byte before does not matter.
   */
  lemma {:induction false} FilesAreByteArrays(c: Contents, ops: seq<Op>, f: nat, k: nat, other: byte)
    requires FullSize(c) && k < FILE_SIZE
    ensures FullSize(AfterRun(c, ops)) && (f in AfterRun(c, ops) <==> f in c || Create(f) in ops)
    ensures f in AfterRun(c, ops) ==>
              AfterRun(c, ops)[f][k] == LastWritten(ops, f, k, ByteBefore(c, f, k, other))
    decreases |ops|
  {
    if ops != [] {
      var n := |ops| - 1;
      FilesAreByteArrays(c, ops[..n], f, k, other);
      AfterOneMore(c, ops[..n], ops[n]);
      assert ops[..n] + [ops[n]] == ops;
    }
  }

  lemma {:induction false} OutputInTurn(c: Contents, ops: seq<Op>, i: nat)
    requires i < |ops|
    ensures |OutputsOf(c, ops)| == |ops|
    ensures OutputsOf(c, ops)[i] == OutputOf(AfterRun(c, ops[..i]), ops[i])
    decreases |ops|
  {
    OutputsAreAsMany(c, ops);
    if i > 0 {
      OutputInTurn(AfterOp(c, ops[0]), ops[1..], i - 1);
      assert ops[..i][1..] == ops[1..][..i - 1];
    }
  }

  lemma {:induction false} OutputsAreAsMany(c: Contents, ops: seq<Op>)
    ensures |OutputsOf(c, ops)| == |ops|
    decreases |ops|
  {
    if ops != [] { OutputsAreAsMany(AfterOp(c, ops[0]), ops[1..]); }
  }

  /** A read within bounds gives its caller, byte for byte, what was last written before it. */
  lemma ReadsGiveLastWritten(c: Contents, ops: seq<Op>, i: nat, j: nat, other: byte)
    requires FullSize(c) && i < |ops| && ops[i].Read? && InBounds(ops[i].pos, ops[i].size) && j < ops[i].size
    requires ops[i].file in c || Create(ops[i].file) in ops[..i]
    ensures var f, k, out := ops[i].file, ops[i].pos + j, OutputsOf(c, ops);
            && |out| == |ops| && |out[i]| == ops[i].size && k < FILE_SIZE
            && out[i][j] == LastWritten(ops[..i], f, k, ByteBefore(c, f, k, other))
  {
    OutputInTurn(c, ops, i);
    FilesAreByteArrays(c, ops[..i], ops[i].file, ops[i].pos + j, other);
  }

  /** The last byte of a file can never be written: it is 0 from the file's creation on. */
  lemma LastByteStays(c: Contents, ops: seq<Op>, f: nat)
    requires FullSize(c) && (f in c || Create(f) in ops)
    ensures f in AfterRun(c, ops) && |AfterRun(c, ops)[f]| == FILE_SIZE
    ensures AfterRun(c, ops)[f][FILE_SIZE - 1] == if Create(f) in ops then 0 else c[f][FILE_SIZE - 1]
  {
    FilesAreByteArrays(c, ops, f, FILE_SIZE - 1, 0);
    LastByteIsUnwritten(ops, f, ByteBefore(c, f, FILE_SIZE - 1, 0));
  }

  lemma {:induction false} LastByteIsUnwritten(ops: seq<Op>, f: nat, before: byte)
    ensures LastWritten(ops, f, FILE_SIZE - 1, before) == if Create(f) in ops then 0 else before
    decreases |ops|
  {
    if ops != [] {
      LastByteIsUnwritten(ops[..|ops| - 1], f, before);
    }
  }
}
