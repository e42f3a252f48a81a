/** kernel/src/filesystem/vfsops.c: the calls by path, and what they add up to. */
module VfsOps {
  import opened Words
  import opened Options
  import opened PageOwnership
  import opened FileMemory
  import opened VfsModel
  import opened VfsChanges
  import opened Vfs

  /** How a call by path ends: the path is never done with, leads to no node with handlers, or the node was asked. */
  datatype Access<T> = Stuck | Nobody | Asked(answer: T)

  predicate Plain(s: string) {
    forall i :: 0 <= i < |s| ==> s[i] != '\0'
  }

  /** What the path leads to, if that can be asked anything. */
  ghost predicate Leads(fs: Fs, path: string, n: Id) {
    Lookup(fs, path) == Node_(n) && n in fs.nodes && fs.nodes[n].handlers
  }

  method Find(fs: FileSystem, path: string) returns (r: Access<Id>)
    requires fs.Valid() && fs.Terminated() && Plain(path)
    ensures match r
            case Stuck => Lookup(fs.State(), path) == Never
            case Nobody => Lookup(fs.State(), path) != Never && forall n :: !Leads(fs.State(), path, n)
            case Asked(n) => Leads(fs.State(), path, n) && n != 0
  {
    var found := fs.LookupPath(path);
    if found == Never {
      return Stuck;
    }
    FoundIsANode(fs.State(), path);
    if found.id == 0 || !fs.nodes[found.id].handlers {
      return Nobody;
    }
    r := Asked(found.id);
  }

  /** vfsWrite and vfsRead. */
  method Transport(fs: FileSystem, path: string, pos: u64, buf: array<byte>, size: u64, write: bool)
    returns (r: Access<Transfer>)
    requires fs.Valid() && fs.Terminated() && Plain(path) && size <= buf.Length
    requires (buf as object) != fs.ram && (buf as object) != fs.pmm.bitmap.data
    modifies fs.ram, buf
    ensures fs.Valid() && fs.Terminated() && (r == Stuck <==> Lookup(fs.State(), path) == Never)
    ensures forall n :: Leads(fs.State(), path, n) ==> r.Asked? && r.answer == Outcome(fs.nodes[n].kind, pos, size)
    ensures r == Asked(Moved) && write ==>
              forall n :: Leads(fs.State(), path, n) ==> forall k :: 0 <= k < 8192 ==>
                FileBytes(fs.ram[..], fs.nodes[n].data)[k] ==
                if pos <= k < pos + size then buf[k - pos] else old(FileBytes(fs.ram[..], fs.nodes[n].data))[k]
    ensures r == Asked(Moved) && !write ==>
              pos + size < 8192 && forall n :: Leads(fs.State(), path, n) ==> forall k :: 0 <= k < size ==>
                buf[k] == FileBytes(fs.ram[..], fs.nodes[n].data)[pos + k]
    ensures write ==> buf[..] == old(buf[..])
    ensures r != Asked(Moved) || !write ==> fs.ram[..] == old(fs.ram[..])
    ensures r != Asked(Moved) ==> buf[..] == old(buf[..])
  {
    hide FileBytes, Lookup;
    var n := Find(fs, path);
    match n {
      case Stuck => r := Stuck;
      case Nobody => r := Nobody;
      case Asked(id) =>
        RefusedExactlyAtTheEnd(pos, size);
        var t := fs.ReadWrite(id, pos, buf, size, write);
        r := Asked(t);
    }
  }

  /** vfsCreate; mkdir asks for a directory in the same way. None when the page allocator panics. */
  method Create(fs: FileSystem, path: string, name: string, kind: Kind, leftover: string)
    returns (r: Access<Option<Id>>)
    requires fs.Valid() && fs.Terminated() && Plain(path) && Plain(name) && Plain(leftover)
    modifies fs`nodes, fs`next, fs`live, fs.ram, fs.pmm.bitmap.data
    ensures fs.Valid() && fs.Terminated() && fs.mnts == old(fs.mnts)
    ensures r == Stuck <==> Lookup(old(fs.State()), path) == Never
    ensures kind == Dir ==> fs.pmm.Bits() == old(fs.pmm.Bits()) && fs.ram[..] == old(fs.ram[..])
    ensures forall dir :: Leads(old(fs.State()), path, dir) ==>
              && r.Asked?
              && (r.answer.None? <==> kind == File && TakePages(old(fs.pmm.Bits()), 2).None?)
    ensures r.Asked? && r.answer.Some? ==>
              var id := r.answer.value;
              && id !in old(fs.nodes) && id in fs.nodes && fs.nodes[id].kind == kind && fs.nodes[id].handlers
              && fs.nodes[id].children == []
              && (kind == File ==> forall k :: 0 <= k < 8192 ==> FileBytes(fs.ram[..], fs.nodes[id].data)[k] == 0)
    ensures r.Asked? && r.answer.Some? && name != "" && '/' !in name && |name| <= 31 ==>
              forall dir :: Leads(old(fs.State()), path, dir) && old(fs.nodes)[dir].kind == Dir ==>
                Lookup(fs.State(), path + "/" + name) == Node_(r.answer.value)
  {
    hide FileBytes, Lookup, TakePages, WellFormed, Detached, Newest, FilesPlaced, Owned, MayAdd, WithChild, NewNode;
    ghost var before := fs.State();
    var n := Find(fs, path);
    match n {
      case Stuck => r := Stuck;
      case Nobody => r := Nobody;
      case Asked(dir) =>
        ghost var taken := if kind == File then TakePages(fs.pmm.Bits(), 2) else Some((0, fs.pmm.Bits()));
        ghost var data := if taken.Some? then taken.value.0 else 0;
        var made := fs.Add(dir, name, kind, leftover);
        assert made.None? <==> taken.None?;
        if made.Some? && name != "" && '/' !in name && |name| <= 31 && before.nodes[dir].kind == Dir {
          NamedIsFound(before, dir, made.value, name, kind, leftover, data, path);
        }
        r := Asked(made);
    }
  }

  lemma NamedIsFound(fs: Fs, dir: Id, id: Id, name: string, kind: Kind, leftover: string, data: nat, p: string)
    requires Leads(fs, p, dir) && dir != 0 && fs.nodes[dir].kind == Dir
    requires MayAdd(fs, dir, id, NewNode(name, kind, leftover, data))
    requires name != "" && '/' !in name && |name| <= 31
    ensures Lookup(WithChild(fs, dir, id, NewNode(name, kind, leftover, data)), p + "/" + name) == Node_(id)
  {
    hide Lookup, WithChild, MayAdd;
    FoldIsFound(fs, p, dir);
    CreateThenLookup(fs, dir, id, name, kind, leftover, data, p);
  }

  lemma FoldIsFound(fs: Fs, p: string, n: Id)
    requires Lookup(fs, p) == Node_(n) && n != 0
    ensures Fits(Components(p)) && FoldLook(fs, Top(fs), Components(p)) == n
  {
    FoundFits(fs, Top(fs), p);
    LookupIsFold(fs, p);
  }

  /**
   * What kernel/src/kernel/test.c does, for any names, places and bytes: create a file, write to it,
   * read from it. If all three calls go through, the read gives the bytes written and zeros around them.
   */
  method CreateWriteRead(fs: FileSystem, path: string, name: string, leftover: string, pos: u64, buf: array<byte>,
      size: u64, from: u64, out: array<byte>, length: u64) returns (ok: bool)
    requires fs.Valid() && fs.Terminated() && Plain(path) && Plain(name) && Plain(leftover)
    requires name != "" && '/' !in name && |name| <= 31
    requires exists dir :: Leads(fs.State(), path, dir) && fs.nodes[dir].kind == Dir
    requires size <= buf.Length && length <= out.Length && buf != out
    requires (buf as object) != fs.ram && (buf as object) != fs.pmm.bitmap.data
    requires (out as object) != fs.ram && (out as object) != fs.pmm.bitmap.data
    requires pos + size < WORD && from + length < WORD
    modifies fs`nodes, fs`next, fs`live, fs.ram, fs.pmm.bitmap.data, buf, out
    ensures ok <==> TakePages(old(fs.pmm.Bits()), 2).Some? && 0 < size && pos + size < 8192
                    && 0 < length && from + length < 8192
    ensures ok ==> forall k :: 0 <= k < length ==>
              out[k] == if pos <= from + k < pos + size then old(buf[..])[from + k - pos] else 0
  {
    hide FileBytes, Lookup, TakePages, WellFormed, Detached, Newest, FilesPlaced, Owned, Outcome;
    var made := Create(fs, path, name, File, leftover);
    if !made.Asked? || made.answer.None? {
      return false;
    }
    ghost var id := made.answer.value;
    var file := path + "/" + name;
    assert Leads(fs.State(), file, id);
    RefusedExactlyAtTheEnd(pos, size);
    RefusedExactlyAtTheEnd(from, length);
    var written := Transport(fs, file, pos, buf, size, true);
    var read := Transport(fs, file, from, out, length, false);
    ok := written == Asked(Moved) && read == Asked(Moved);
  }

  /** A node made in a directory just made is found below it. */
  method MkdirThenCreate(fs: FileSystem, path: string, dirName: string, name: string, kind: Kind, leftover: string)
    returns (ok: bool)
    requires fs.Valid() && fs.Terminated() && Plain(path) && Plain(dirName) && Plain(name) && Plain(leftover)
    requires dirName != "" && '/' !in dirName && |dirName| <= 31 && name != "" && '/' !in name && |name| <= 31
    requires exists dir :: Leads(fs.State(), path, dir) && fs.nodes[dir].kind == Dir
    modifies fs`nodes, fs`next, fs`live, fs.ram, fs.pmm.bitmap.data
    ensures ok <==> kind == Dir || TakePages(old(fs.pmm.Bits()), 2).Some?
    ensures ok ==> exists n :: Leads(fs.State(), path + "/" + dirName + "/" + name, n) && fs.nodes[n].kind == kind
  {
    hide FileBytes, Lookup, TakePages, WellFormed, Detached, Newest, FilesPlaced, Owned;
    var made := Create(fs, path, dirName, Dir, leftover);
    if !made.Asked? || made.answer.None? {
      return false;
    }
    assert Leads(fs.State(), path + "/" + dirName, made.answer.value);
    var inside := Create(fs, path + "/" + dirName, name, kind, leftover);
    if !inside.Asked? || inside.answer.None? {
      return false;
    }
    assert Leads(fs.State(), path + "/" + dirName + "/" + name, inside.answer.value);
    ok := true;
  }
}
