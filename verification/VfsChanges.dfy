/** What creating nodes and mounting file systems does to the meaning of paths. */
module VfsChanges {
  import opened VfsModel

  /**
   * Node numbers follow the order of creation: children and mounted roots are younger than
   * what they hang from, so no walk down a path meets a node twice.
   */
  ghost predicate WellFormed(fs: Fs)
  {
    && 0 !in fs.nodes && fs.root in fs.nodes
    && (forall d, i :: d in fs.nodes && 0 <= i < |fs.nodes[d].children| ==>
          fs.nodes[d].children[i] in fs.nodes && d < fs.nodes[d].children[i])
    && (forall i :: 0 <= i < |fs.mnts| ==> MountOk(fs, fs.mnts[i]))
  }

  ghost predicate MountOk(fs: Fs, m: Mount) {
    m.mountpoint in fs.nodes && (m.root == 0 || (m.root in fs.nodes && m.mountpoint < m.root))
  }

  ghost predicate Newest(fs: Fs, id: Id) {
    forall n :: n in fs.nodes ==> n < id
  }

  predicate IsRoot(mnts: seq<Mount>, n: Id) {
    exists i :: 0 <= i < |mnts| && mnts[i].root == n
  }

  predicate IsMountpoint(mnts: seq<Mount>, n: Id) {
    exists i :: 0 <= i < |mnts| && mnts[i].mountpoint == n
  }

  predicate DistinctMountpoints(mnts: seq<Mount>) {
    forall i, j :: 0 <= i < j < |mnts| ==> mnts[i].mountpoint != mnts[j].mountpoint
  }

  lemma {:induction false} RedirectResult(mnts: seq<Mount>, n: Id)
    requires n != 0
    ensures IsRoot(mnts, Redirect(mnts, n)) || (Redirect(mnts, n) == n && !IsMountpoint(mnts, n))
    ensures !IsMountpoint(mnts, n) ==> Redirect(mnts, n) == n
  {
    if mnts != [] {
      if mnts[0].mountpoint == n {
        assert mnts[0].root == Redirect(mnts, n);
      } else {
        RedirectResult(mnts[1..], n);
        if IsRoot(mnts[1..], Redirect(mnts, n)) {
          var i :| 0 <= i < |mnts[1..]| && mnts[1..][i].root == Redirect(mnts, n);
          assert mnts[i + 1].root == Redirect(mnts, n);
        }
        if IsMountpoint(mnts, n) {
          var i :| 0 <= i < |mnts| && mnts[i].mountpoint == n;
          assert mnts[1..][i - 1].mountpoint == n;
        }
        if IsMountpoint(mnts[1..], n) {
          var i :| 0 <= i < |mnts[1..]| && mnts[1..][i].mountpoint == n;
          assert mnts[i + 1].mountpoint == n;
        }
      }
    }
  }

  lemma {:induction false} RedirectRises(fs: Fs, mnts: seq<Mount>, n: Id)
    requires forall i :: 0 <= i < |mnts| ==> MountOk(fs, mnts[i])
    requires n in fs.nodes && 0 !in fs.nodes
    ensures var r := Redirect(mnts, n); r == 0 || (r in fs.nodes && n <= r)
  {
    if mnts != [] && mnts[0].mountpoint != n {
      RedirectRises(fs, mnts[1..], n);
    }
  }

  lemma {:induction false} ChildIsListed(nodes: map<Id, Node>, children: seq<Id>, name: string)
    ensures var r := ChildNamed(nodes, children, name);
            r == 0 || (r in children && r in nodes && nodes[r].name == name)
  {
    if children != [] {
      ChildIsListed(nodes, children[1..], name);
    }
  }

  /** Looking goes to a younger node, or nowhere. */
  lemma LookRises(fs: Fs, n: Id, name: string)
    requires WellFormed(fs)
    ensures var r := Look(fs, n, name); r == 0 || (r in fs.nodes && n < r)
  {
    if n in fs.nodes {
      var children := fs.nodes[n].children;
      ChildIsListed(fs.nodes, children, name);
      var c := ChildNamed(fs.nodes, children, name);
      if c != 0 {
        var i :| 0 <= i < |children| && children[i] == c;
        RedirectRises(fs, fs.mnts, c);
      }
    }
  }

  lemma {:induction false} FoldRises(fs: Fs, n: Id, names: seq<string>)
    requires WellFormed(fs)
    ensures var r := FoldLook(fs, n, names);
            names == [] || r == 0 || (r in fs.nodes && n < r)
    decreases |names|
  {
    if names != [] {
      LookRises(fs, n, names[0]);
      FoldFromNothing(fs, 0, names[1..]);
      FoldRises(fs, Look(fs, n, names[0]), names[1..]);
    }
  }

  /** The walk for names from n looks up `name` in directory dir on its way. */
  predicate Uses(fs: Fs, n: Id, names: seq<string>, dir: Id, name: string)
    decreases |names|
  {
    names != [] && ((n == dir && names[0] == name) || Uses(fs, Look(fs, n, names[0]), names[1..], dir, name))
  }

  /** The walk meets node x, its first and last node included. */
  predicate Meets(fs: Fs, n: Id, names: seq<string>, x: Id)
    decreases |names|
  {
    n == x || (names != [] && Meets(fs, Look(fs, n, names[0]), names[1..], x))
  }

  /** The walk to x meets it only at its end. */
  lemma {:induction false} MeetsOnlyAtEnd(fs: Fs, n: Id, names: seq<string>, x: Id, name: string)
    requires WellFormed(fs) && x != 0 && FoldLook(fs, n, names) == x
    ensures !Uses(fs, n, names, x, name)
    ensures forall k :: 0 <= k < |names| ==> !Meets(fs, n, names[..k], x)
    decreases |names|
  {
    if names != [] {
      FoldRises(fs, n, names);
      MeetsOnlyAtEnd(fs, Look(fs, n, names[0]), names[1..], x, name);
      forall k | 0 <= k < |names| ensures !Meets(fs, n, names[..k], x) {
        if k > 0 {
          assert names[..k][1..] == names[1..][..k - 1] && names[..k][0] == names[0];
        }
      }
    }
  }

  // ---- new nodes

  /** What stands in the name buffer: 32 of its 33 bytes are written, the last one is left as it was. */
  function StoredName(name: string, leftover: string): string {
    if |name| < 32 then name else name[..32] + leftover
  }

  /** tmpfsAllocNode, then tmpfsAddChild: the new node goes in front of dir's children. */
  function WithChild(fs: Fs, dir: Id, id: Id, node: Node): Fs
    requires dir in fs.nodes
  {
    var d := fs.nodes[dir];
    fs.(nodes := fs.nodes[id := node][dir := d.(children := [id] + d.children)])
  }

  predicate Searchable(fs: Fs, dir: Id) {
    dir in fs.nodes && fs.nodes[dir].kind == Dir && fs.nodes[dir].handlers
  }

  ghost predicate MayAdd(fs: Fs, dir: Id, id: Id, node: Node) {
    WellFormed(fs) && dir in fs.nodes && Newest(fs, id) && node.children == []
  }

  lemma WithChildWellFormed(fs: Fs, dir: Id, id: Id, node: Node)
    requires MayAdd(fs, dir, id, node)
    ensures WellFormed(WithChild(fs, dir, id, node))
  {
    var fs' := WithChild(fs, dir, id, node);
    forall d, i | d in fs'.nodes && 0 <= i < |fs'.nodes[d].children|
      ensures fs'.nodes[d].children[i] in fs'.nodes && d < fs'.nodes[d].children[i]
    {
      if d == dir && i > 0 {
        assert fs.nodes[dir].children[i - 1] in fs.nodes;
      }
    }
    forall i | 0 <= i < |fs'.mnts| ensures MountOk(fs', fs'.mnts[i]) {
      assert MountOk(fs, fs.mnts[i]);
    }
  }

  lemma {:induction false} SameChild(nodes: map<Id, Node>, nodes': map<Id, Node>, children: seq<Id>, name: string)
    requires forall i :: 0 <= i < |children| ==>
               children[i] in nodes && children[i] in nodes' && nodes'[children[i]].name == nodes[children[i]].name
    ensures ChildNamed(nodes', children, name) == ChildNamed(nodes, children, name)
  {
    if children != [] {
      SameChild(nodes, nodes', children[1..], name);
    }
  }

  /** Only looking up the new name in that directory gives a new answer. */
  lemma LookAfterChild(fs: Fs, dir: Id, id: Id, node: Node, n: Id, name: string)
    requires MayAdd(fs, dir, id, node) && n != id
    ensures Look(WithChild(fs, dir, id, node), n, name) ==
            if n == dir && name == node.name && Searchable(fs, dir) then id else Look(fs, n, name)
  {
    var fs' := WithChild(fs, dir, id, node);
    if n in fs.nodes {
      forall i | 0 <= i < |fs.nodes[n].children| ensures fs.nodes[n].children[i] in fs.nodes { }
      SameChild(fs.nodes, fs'.nodes, fs.nodes[n].children, name);
      if n == dir {
        assert fs'.nodes[dir].children[1..] == fs.nodes[dir].children;
      }
      NewIsNoMountpoint(fs, id);
    }
  }

  lemma NewIsNoMountpoint(fs: Fs, id: Id)
    requires WellFormed(fs) && Newest(fs, id)
    ensures id > 0 && Redirect(fs.mnts, id) == id
  {
    assert fs.root < id;
    forall i | 0 <= i < |fs.mnts| ensures fs.mnts[i].mountpoint != id {
      assert MountOk(fs, fs.mnts[i]);
    }
    RedirectResult(fs.mnts, id);
  }

  /** A path that does not go through the new entry resolves as before. */
  lemma {:induction false} OtherPathsKept(fs: Fs, dir: Id, id: Id, node: Node, n: Id, names: seq<string>)
    requires MayAdd(fs, dir, id, node) && n != id && !Uses(fs, n, names, dir, node.name)
    ensures FoldLook(WithChild(fs, dir, id, node), n, names) == FoldLook(fs, n, names)
    decreases |names|
  {
    if names != [] {
      LookAfterChild(fs, dir, id, node, n, names[0]);
      LookRises(fs, n, names[0]);
      NewIsNoMountpoint(fs, id);
      OtherPathsKept(fs, dir, id, node, Look(fs, n, names[0]), names[1..]);
    }
  }

  lemma TopIsOld(fs: Fs, dir: Id, id: Id, node: Node)
    requires MayAdd(fs, dir, id, node)
    ensures Top(WithChild(fs, dir, id, node)) == Top(fs) && Top(fs) != id
  {
    RedirectRises(fs, fs.mnts, fs.root);
    NewIsNoMountpoint(fs, id);
  }

  /** The same for whole lookups. */
  lemma LookupKept(fs: Fs, dir: Id, id: Id, node: Node, p: string)
    requires MayAdd(fs, dir, id, node) && Fits(Components(p)) && !Uses(fs, Top(fs), Components(p), dir, node.name)
    ensures Lookup(WithChild(fs, dir, id, node), p) == Lookup(fs, p)
  {
    var fs' := WithChild(fs, dir, id, node);
    TopIsOld(fs, dir, id, node);
    OtherPathsKept(fs, dir, id, node, Top(fs), Components(p));
    LookupIsFold(fs, p);
    LookupIsFold(fs', p);
    if Components(p) != [] {
      FoldRises(fs, Top(fs), Components(p));
    }
  }

  /**
   * The path of a searchable directory followed by the new name leads to the new node, also
   * when the directory had a child of that name already.
   */
  lemma CreatedIsFound(fs: Fs, dir: Id, id: Id, node: Node, p: string)
    requires MayAdd(fs, dir, id, node) && Searchable(fs, dir)
    requires Fits(Components(p)) && FoldLook(fs, Top(fs), Components(p)) == dir
    requires node.name != "" && '/' !in node.name && |node.name| <= LONGEST
    ensures Lookup(WithChild(fs, dir, id, node), p + "/" + node.name) == Node_(id)
  {
    var fs' := WithChild(fs, dir, id, node);
    var names := Components(p);
    PlainComponent(node.name);
    ComponentsOfJoin(p, node.name);
    FitsJoined(names, [node.name]);
    MeetsOnlyAtEnd(fs, Top(fs), names, dir, node.name);
    TopIsOld(fs, dir, id, node);
    OtherPathsKept(fs, dir, id, node, Top(fs), names);
    LookAfterChild(fs, dir, id, node, dir, node.name);
    FoldOfJoin(fs', Top(fs'), names, [node.name]);
    assert FoldLook(fs', dir, [node.name]) == Look(fs', dir, node.name) by {
      assert [node.name][1..] == [];
    }
    LookupIsFold(fs', p + "/" + node.name);
  }

  /** Looking up any other name below the directory does not lead to the new node. */
  lemma OtherNameIsNotFound(fs: Fs, dir: Id, id: Id, node: Node, p: string, name: string)
    requires MayAdd(fs, dir, id, node) && Fits(Components(p)) && FoldLook(fs, Top(fs), Components(p)) == dir
    requires name != "" && '/' !in name && |name| <= LONGEST && name != node.name
    ensures Lookup(WithChild(fs, dir, id, node), p + "/" + name) != Node_(id)
  {
    var fs', names := WithChild(fs, dir, id, node), Components(p);
    PlainComponent(name);
    ComponentsOfJoin(p, name);
    FitsJoined(names, [name]);
    MeetsOnlyAtEnd(fs, Top(fs), names, dir, node.name);
    TopIsOld(fs, dir, id, node);
    OtherPathsKept(fs, dir, id, node, Top(fs), names);
    LookAfterChild(fs, dir, id, node, dir, name);
    LookRises(fs, dir, name);
    FoldOfJoin(fs', Top(fs'), names, [name]);
    assert FoldLook(fs', dir, [name]) == Look(fs', dir, name) by {
      assert [name][1..] == [];
    }
    NewIsNoMountpoint(fs, id);
    LookupIsFold(fs', p + "/" + name);
  }

  lemma {:induction false} PlainComponent(name: string)
    requires name != "" && '/' !in name
    ensures Components(name) == [name]
  {
    var k := FirstSlash(name);
    assert k == |name|;
    assert name[..k] == name && name[k..] == "";
  }

  // ---- mounts

  /** The file system with a mount at mp whose root is nr; `nodes` has the new file system's nodes as well. */
  function Mounted(fs: Fs, mp: Id, nr: Id, nodes: map<Id, Node>): Fs {
    Fs(nodes, [Mount(mp, nr)] + fs.mnts, fs.root)
  }

  ghost predicate MayMount(fs: Fs, mp: Id, nr: Id, nodes: map<Id, Node>)
  {
    && WellFormed(fs) && mp in fs.nodes && !IsRoot(fs.mnts, mp) && !IsMountpoint(fs.mnts, mp)
    && (nr == 0 || Newest(fs, nr))
    && (forall n :: n in fs.nodes ==> n in nodes && nodes[n] == fs.nodes[n])
    && WellFormed(Mounted(fs, mp, nr, nodes))
  }

  lemma LookAfterMount(fs: Fs, mp: Id, nr: Id, nodes: map<Id, Node>, n: Id, name: string)
    requires MayMount(fs, mp, nr, nodes) && (n == 0 || n in fs.nodes)
    ensures Look(Mounted(fs, mp, nr, nodes), n, name) ==
            if Look(fs, n, name) == mp then nr else Look(fs, n, name)
  {
    var fs' := Mounted(fs, mp, nr, nodes);
    if n in fs.nodes {
      var children := fs.nodes[n].children;
      forall i | 0 <= i < |children| ensures children[i] in fs.nodes { }
      SameChild(fs.nodes, nodes, children, name);
      RedirectAfterMount(fs, mp, nr, ChildNamed(fs.nodes, children, name));
    }
  }

  lemma RedirectAfterMount(fs: Fs, mp: Id, nr: Id, n: Id)
    requires mp != 0 && !IsRoot(fs.mnts, mp) && !IsMountpoint(fs.mnts, mp)
    ensures Redirect([Mount(mp, nr)] + fs.mnts, n) ==
            if Redirect(fs.mnts, n) == mp then nr else Redirect(fs.mnts, n)
  {
    assert ([Mount(mp, nr)] + fs.mnts)[1..] == fs.mnts;
    if n != 0 {
      RedirectResult(fs.mnts, n);
    }
  }

  /** Paths that do not meet the mountpoint are left alone ... */
  lemma {:induction false} MountKeepsOtherPaths(fs: Fs, mp: Id, nr: Id, nodes: map<Id, Node>, n: Id, names: seq<string>)
    requires MayMount(fs, mp, nr, nodes) && (n == 0 || n in fs.nodes) && !Meets(fs, n, names, mp)
    ensures FoldLook(Mounted(fs, mp, nr, nodes), n, names) == FoldLook(fs, n, names)
    decreases |names|
  {
    if names != [] {
      LookAfterMount(fs, mp, nr, nodes, n, names[0]);
      LookRises(fs, n, names[0]);
      MountKeepsOtherPaths(fs, mp, nr, nodes, Look(fs, n, names[0]), names[1..]);
    }
  }

  /** ... and a path that led to it now leads to the new root. */
  lemma {:induction false} MountTakesOver(fs: Fs, mp: Id, nr: Id, nodes: map<Id, Node>, n: Id, names: seq<string>)
    requires MayMount(fs, mp, nr, nodes) && (n == 0 || n in fs.nodes) && names != [] && FoldLook(fs, n, names) == mp
    ensures FoldLook(Mounted(fs, mp, nr, nodes), n, names) == nr
    decreases |names|
  {
    var next := Look(fs, n, names[0]);
    LookAfterMount(fs, mp, nr, nodes, n, names[0]);
    LookRises(fs, n, names[0]);
    FoldRises(fs, next, names[1..]);
    if names[1..] != [] {
      MountTakesOver(fs, mp, nr, nodes, next, names[1..]);
    }
  }

  lemma TopAfterMount(fs: Fs, mp: Id, nr: Id, nodes: map<Id, Node>)
    requires MayMount(fs, mp, nr, nodes)
    ensures Top(Mounted(fs, mp, nr, nodes)) == if Top(fs) == mp then nr else Top(fs)
    ensures Top(fs) == 0 || Top(fs) in fs.nodes
  {
    RedirectAfterMount(fs, mp, nr, fs.root);
    RedirectRises(fs, fs.mnts, fs.root);
  }

  /** What a path finds is no mountpoint, unless it is the root of a mount. */
  lemma {:induction false} FoundIsNoMountpoint(fs: Fs, n: Id, names: seq<string>)
    requires names != []
    ensures var r := FoldLook(fs, n, names); r == 0 || IsRoot(fs.mnts, r) || !IsMountpoint(fs.mnts, r)
    decreases |names|
  {
    if names[1..] == [] {
      assert FoldLook(fs, n, names) == Look(fs, n, names[0]);
      if n in fs.nodes {
        var c := ChildNamed(fs.nodes, fs.nodes[n].children, names[0]);
        if c != 0 {
          RedirectResult(fs.mnts, c);
        }
      }
    } else {
      FoundIsNoMountpoint(fs, Look(fs, n, names[0]), names[1..]);
    }
  }

  lemma TopIsNoMountpoint(fs: Fs)
    requires fs.root != 0
    ensures Top(fs) == 0 || IsRoot(fs.mnts, Top(fs)) || !IsMountpoint(fs.mnts, Top(fs))
  {
    RedirectResult(fs.mnts, fs.root);
  }

  lemma FoundByLookup(fs: Fs, p: string, mp: Id)
    requires WellFormed(fs) && Fits(Components(p)) && Lookup(fs, p) == Node_(mp) && mp != 0
    ensures FoldLook(fs, Top(fs), Components(p)) == mp && mp in fs.nodes
    ensures IsRoot(fs.mnts, mp) || !IsMountpoint(fs.mnts, mp)
  {
    var names := Components(p);
    LookupIsFold(fs, p);
    RedirectRises(fs, fs.mnts, fs.root);
    FoldRises(fs, Top(fs), names);
    if names == [] {
      TopIsNoMountpoint(fs);
    } else {
      FoundIsNoMountpoint(fs, Top(fs), names);
    }
  }

  /**
   * Mounting on what path p finds, provided that is not itself the root of a mount: mountpoints
   * stay distinct; p now leads to the new root and p/rest to rest inside it; every path that
   * does not meet the mountpoint means what it meant.
   */
  lemma MountTheorem(fs: Fs, p: string, mp: Id, nr: Id, nodes: map<Id, Node>, rest: seq<string>, other: seq<string>)
    requires WellFormed(fs) && DistinctMountpoints(fs.mnts)
    requires Fits(Components(p)) && Lookup(fs, p) == Node_(mp) && mp != 0 && !IsRoot(fs.mnts, mp)
    requires nr == 0 || Newest(fs, nr)
    requires forall n :: n in fs.nodes ==> n in nodes && nodes[n] == fs.nodes[n]
    requires WellFormed(Mounted(fs, mp, nr, nodes))
    ensures var fs' := Mounted(fs, mp, nr, nodes);
            && DistinctMountpoints(fs'.mnts)
            && FoldLook(fs', Top(fs'), Components(p) + rest) == FoldLook(fs', nr, rest)
            && (!Meets(fs, Top(fs), other, mp) ==>
                 FoldLook(fs', Top(fs'), other) == FoldLook(fs, Top(fs), other))
  {
    var fs', names := Mounted(fs, mp, nr, nodes), Components(p);
    FoundByLookup(fs, p, mp);
    TopAfterMount(fs, mp, nr, nodes);
    forall i, j | 0 <= i < j < |fs'.mnts| ensures fs'.mnts[i].mountpoint != fs'.mnts[j].mountpoint {
      assert fs'.mnts[j] == fs.mnts[j - 1];
      if i > 0 { assert fs'.mnts[i] == fs.mnts[i - 1]; }
    }
    if names != [] {
      FoldRises(fs, Top(fs), names);
      MountTakesOver(fs, mp, nr, nodes, Top(fs), names);
    }
    FoldOfJoin(fs', Top(fs'), names, rest);
    if !Meets(fs, Top(fs), other, mp) {
      MountKeepsOtherPaths(fs, mp, nr, nodes, Top(fs), other);
    }
  }

  /** The nodes tmpfsMount adds: a root directory and, in it, a directory dev. */
  function TmpfsNodes(nodes: map<Id, Node>, id: Id): map<Id, Node> {
    nodes[id := Node(Dir, true, "", [id + 1], 0)][id + 1 := Node(Dir, true, "dev", [], 0)]
  }

  lemma TmpfsMountOk(fs: Fs, mp: Id, id: Id)
    requires WellFormed(fs) && mp in fs.nodes && Newest(fs, id)
    ensures WellFormed(Mounted(fs, mp, id, TmpfsNodes(fs.nodes, id)))
    ensures forall n :: n in fs.nodes ==> n in TmpfsNodes(fs.nodes, id) && TmpfsNodes(fs.nodes, id)[n] == fs.nodes[n]
  {
    var fs' := Mounted(fs, mp, id, TmpfsNodes(fs.nodes, id));
    assert fs.root < id && mp < id;
    forall i | 0 <= i < |fs'.mnts| ensures MountOk(fs', fs'.mnts[i]) {
      if i > 0 { assert MountOk(fs, fs.mnts[i - 1]); }
    }
  }

  lemma UnknownMountOk(fs: Fs, mp: Id)
    requires WellFormed(fs) && mp in fs.nodes
    ensures WellFormed(Mounted(fs, mp, 0, fs.nodes))
  {
    var fs' := Mounted(fs, mp, 0, fs.nodes);
    forall i | 0 <= i < |fs'.mnts| ensures MountOk(fs', fs'.mnts[i]) {
      if i > 0 { assert MountOk(fs, fs.mnts[i - 1]); }
    }
  }

  /** Mounting a file system of unknown type makes the path and all below it lead nowhere. */
  lemma UnknownTypeHidesPath(fs: Fs, p: string, mp: Id, rest: seq<string>)
    requires WellFormed(fs) && DistinctMountpoints(fs.mnts)
    requires Fits(Components(p)) && Lookup(fs, p) == Node_(mp) && mp != 0 && !IsRoot(fs.mnts, mp)
    ensures var fs' := Mounted(fs, mp, 0, fs.nodes);
            FoldLook(fs', Top(fs'), Components(p) + rest) == 0
  {
    FoundByLookup(fs, p, mp);
    UnknownMountOk(fs, mp);
    MountTheorem(fs, p, mp, 0, fs.nodes, rest, []);
    FoldFromNothing(Mounted(fs, mp, 0, fs.nodes), 0, rest);
  }

  /** vfsInit before its mounts: one bare node. */
  function Bare(): Fs {
    Fs(map[1 := Node(Dir, false, "", [], 0)], [], 1)
  }

  /** ... and after them. */
  function AfterBoot(): Fs {
    Mounted(RootMounted(), 3, 0, RootMounted().nodes)
  }

  /** The state between the two mounts. */
  function RootMounted(): Fs {
    Mounted(Bare(), 1, 2, TmpfsNodes(Bare().nodes, 2))
  }

  lemma DevComponents()
    ensures Components("/dev") == ["dev"] && Components("/") == []
  {
    assert "/dev"[1..] == "dev" && "/"[1..] == "";
    PlainComponent("dev");
  }

  lemma DevBeforeItsMount()
    ensures WellFormed(RootMounted()) && Top(RootMounted()) == 2
    ensures Lookup(RootMounted(), "/dev") == Node_(3) && FoldLook(RootMounted(), 2, ["dev"]) == 3
  {
    var fs := RootMounted();
    DevComponents();
    TmpfsMountOk(Bare(), 1, 2);
    assert fs.mnts == [Mount(1, 2)] && fs.mnts[1..] == [];
    assert Redirect(fs.mnts, 3) == 3;
    assert fs.nodes[2].children == [3] && fs.nodes[3].name == "dev";
    assert ChildNamed(fs.nodes, [3], "dev") == 3;
    assert Look(fs, 2, "dev") == 3;
    assert ["dev"][1..] == [];
    LookupIsFold(fs, "/dev");
  }

  /** The mounts of vfsDoMounts: / is a directory, but /dev, a directory until then, is lost. */
  lemma DevIsLostAtBoot()
    ensures Lookup(Bare(), "/") == Node_(1)
    ensures Lookup(RootMounted(), "/dev") == Node_(3)
    ensures Lookup(AfterBoot(), "/") == Node_(2) && Lookup(AfterBoot(), "/dev") == Node_(0)
    ensures WellFormed(AfterBoot())
  {
    var fs := RootMounted();
    DevComponents();
    DevBeforeItsMount();
    LookupIsFold(Bare(), "/");
    UnknownMountOk(fs, 3);
    assert !IsRoot(fs.mnts, 3) by { assert fs.mnts[0].root == 2; }
    hide Lookup, RootMounted, Mounted, Scan, FoldLook, Top;
    MountTheorem(fs, "/dev", 3, 0, fs.nodes, [], []);
    LookupsAfterBoot(fs, AfterBoot());
  }

  lemma LookupsAfterBoot(fs: Fs, fs': Fs)
    requires Top(fs) == 2 && FoldLook(fs', Top(fs'), ["dev"] + []) == 0
    requires FoldLook(fs', Top(fs'), []) == FoldLook(fs, Top(fs), [])
    ensures Lookup(fs', "/") == Node_(2) && Lookup(fs', "/dev") == Node_(0)
  {
    DevComponents();
    assert ["dev"] + [] == ["dev"];
    LookupIsFold(fs', "/dev");
    LookupIsFold(fs', "/");
  }

  /** A second mount on / is not seen there: redirection follows one mount only. */
  lemma SecondRootMountIsNotSeen(fs: Fs, id: Id)
    requires WellFormed(fs) && fs.mnts == [Mount(fs.root, Top(fs))] && Top(fs) != 0 && Newest(fs, id)
    ensures Lookup(fs, "/") == Node_(Top(fs))
    ensures var fs' := Mounted(fs, Top(fs), id, TmpfsNodes(fs.nodes, id));
            Lookup(fs', "/") == Node_(Top(fs)) && Top(fs) != id
  {
    var fs' := Mounted(fs, Top(fs), id, TmpfsNodes(fs.nodes, id));
    assert Components("/") == [];
    LookupIsFold(fs, "/");
    LookupIsFold(fs', "/");
    assert MountOk(fs, fs.mnts[0]);
    assert fs'.mnts[1..] == fs.mnts;
    assert Redirect(fs'.mnts, fs.root) == Redirect(fs.mnts, fs.root);
  }

  // ---- mounts on mount roots

  /** A mount's root is nobody's child, and not the root everything hangs from. */
  ghost predicate Detached(fs: Fs) {
    forall i :: 0 <= i < |fs.mnts| && fs.mnts[i].root != 0 ==> NobodysChild(fs, fs.mnts[i].root)
  }

  ghost predicate NobodysChild(fs: Fs, n: Id) {
    n != fs.root && forall d :: d in fs.nodes ==> n !in fs.nodes[d].children
  }

  lemma WithChildDetached(fs: Fs, dir: Id, id: Id, node: Node)
    requires MayAdd(fs, dir, id, node) && Detached(fs)
    ensures Detached(WithChild(fs, dir, id, node))
  {
    forall i | 0 <= i < |fs.mnts| && fs.mnts[i].root != 0
      ensures NobodysChild(WithChild(fs, dir, id, node), fs.mnts[i].root)
    {
      assert NobodysChild(fs, fs.mnts[i].root) && MountOk(fs, fs.mnts[i]);
    }
  }

  lemma UnknownMountDetached(fs: Fs, mp: Id)
    requires Detached(fs)
    ensures Detached(Mounted(fs, mp, 0, fs.nodes))
  {
    var fs' := Mounted(fs, mp, 0, fs.nodes);
    forall i | 0 <= i < |fs'.mnts| && fs'.mnts[i].root != 0 ensures NobodysChild(fs', fs'.mnts[i].root) {
      assert i > 0 && fs'.mnts[i] == fs.mnts[i - 1];
    }
  }

  lemma TmpfsMountDetached(fs: Fs, mp: Id, id: Id)
    requires WellFormed(fs) && Newest(fs, id) && Detached(fs)
    ensures Detached(Mounted(fs, mp, id, TmpfsNodes(fs.nodes, id)))
  {
    var fs' := Mounted(fs, mp, id, TmpfsNodes(fs.nodes, id));
    forall i | 0 <= i < |fs'.mnts| && fs'.mnts[i].root != 0 ensures NobodysChild(fs', fs'.mnts[i].root) {
      if i > 0 {
        assert fs'.mnts[i] == fs.mnts[i - 1] && MountOk(fs, fs.mnts[i - 1]) && NobodysChild(fs, fs.mnts[i - 1].root);
      }
    }
  }

  /** No walk step ever asks for what is mounted on a mount root. */
  lemma LookPastRoot(fs: Fs, mp: Id, nr: Id, nodes: map<Id, Node>, n: Id, name: string)
    requires WellFormed(fs) && Detached(fs) && mp != 0 && IsRoot(fs.mnts, mp) && (n == 0 || n in fs.nodes)
    requires forall k :: k in fs.nodes ==> k in nodes && nodes[k] == fs.nodes[k]
    ensures Look(Mounted(fs, mp, nr, nodes), n, name) == Look(fs, n, name)
  {
    if n != 0 && fs.nodes[n].kind == Dir && fs.nodes[n].handlers {
      var i :| 0 <= i < |fs.mnts| && fs.mnts[i].root == mp;
      assert NobodysChild(fs, mp);
      SameChild(fs.nodes, nodes, fs.nodes[n].children, name);
      ChildIsListed(fs.nodes, fs.nodes[n].children, name);
    }
  }

  /** So a mount on a mount root changes no path at all. */
  lemma {:induction false} MountOnRootIsUnseen(fs: Fs, mp: Id, nr: Id, nodes: map<Id, Node>, n: Id, names: seq<string>)
    requires WellFormed(fs) && Detached(fs) && mp != 0 && IsRoot(fs.mnts, mp) && (n == 0 || n in fs.nodes)
    requires forall k :: k in fs.nodes ==> k in nodes && nodes[k] == fs.nodes[k]
    ensures FoldLook(Mounted(fs, mp, nr, nodes), n, names) == FoldLook(fs, n, names)
    decreases |names|
  {
    if names != [] {
      LookPastRoot(fs, mp, nr, nodes, n, names[0]);
      LookRises(fs, n, names[0]);
      MountOnRootIsUnseen(fs, mp, nr, nodes, Look(fs, n, names[0]), names[1..]);
    }
  }

  lemma TopPastRoot(fs: Fs, mp: Id, nr: Id, nodes: map<Id, Node>)
    requires WellFormed(fs) && Detached(fs) && mp != 0 && IsRoot(fs.mnts, mp)
    ensures Top(Mounted(fs, mp, nr, nodes)) == Top(fs) && (Top(fs) == 0 || Top(fs) in fs.nodes)
  {
    var i :| 0 <= i < |fs.mnts| && fs.mnts[i].root == mp;
    assert NobodysChild(fs, mp);
    RedirectRises(fs, fs.mnts, fs.root);
  }

  /**
   * A mount on what a path leads to is seen exactly when that node is no mount root: then the path
   * leads to the new root, otherwise every path leads where it did.
   */
  lemma MountIsSeenIff(fs: Fs, p: string, mp: Id, nr: Id, nodes: map<Id, Node>, names: seq<string>)
    requires WellFormed(fs) && Detached(fs)
    requires Fits(Components(p)) && Lookup(fs, p) == Node_(mp) && mp != 0
    requires nr == 0 || Newest(fs, nr)
    requires forall n :: n in fs.nodes ==> n in nodes && nodes[n] == fs.nodes[n]
    requires WellFormed(Mounted(fs, mp, nr, nodes))
    ensures var fs' := Mounted(fs, mp, nr, nodes);
            && (FoldLook(fs', Top(fs'), Components(p)) == nr <==> !IsRoot(fs.mnts, mp))
            && (IsRoot(fs.mnts, mp) ==> FoldLook(fs', Top(fs'), names) == FoldLook(fs, Top(fs), names))
  {
    FoundByLookup(fs, p, mp);
    if IsRoot(fs.mnts, mp) {
      TopPastRoot(fs, mp, nr, nodes);
      MountOnRootIsUnseen(fs, mp, nr, nodes, Top(fs), Components(p));
      MountOnRootIsUnseen(fs, mp, nr, nodes, Top(fs), names);
    } else {
      TopAfterMount(fs, mp, nr, nodes);
      if Components(p) != [] {
        if Top(fs) == mp {
          FoldRises(fs, Top(fs), Components(p));
        }
        MountTakesOver(fs, mp, nr, nodes, Top(fs), Components(p));
      }
    }
  }

  // ---- what vfsMount leaves behind

  /** Not even a scan that never returns goes another way after a mount on a mount root. */
  lemma {:induction false} ScanPastRoot(fs: Fs, mp: Id, nr: Id, nodes: map<Id, Node>, n: Id, p: string)
    requires WellFormed(fs) && Detached(fs) && mp != 0 && IsRoot(fs.mnts, mp) && (n == 0 || n in fs.nodes)
    requires forall k :: k in fs.nodes ==> k in nodes && nodes[k] == fs.nodes[k]
    ensures Scan(Mounted(fs, mp, nr, nodes), n, p) == Scan(fs, n, p)
    decreases |p|
  {
    if p != "" {
      if p[0] == '/' {
        ScanPastRoot(fs, mp, nr, nodes, n, p[1..]);
      } else {
        var k := FirstSlash(p);
        LookPastRoot(fs, mp, nr, nodes, n, p[..k]);
        LookRises(fs, n, p[..k]);
        if k < |p| {
          ScanPastRoot(fs, mp, nr, nodes, Look(fs, n, p[..k]), p[k + 1..]);
        } else {
          assert p[..k] == p;
        }
      }
    }
  }

  lemma LookupPastRoot(fs: Fs, mp: Id, nr: Id, nodes: map<Id, Node>, p: string)
    requires WellFormed(fs) && Detached(fs) && mp != 0 && IsRoot(fs.mnts, mp)
    requires forall k :: k in fs.nodes ==> k in nodes && nodes[k] == fs.nodes[k]
    ensures Lookup(Mounted(fs, mp, nr, nodes), p) == Lookup(fs, p)
  {
    TopPastRoot(fs, mp, nr, nodes);
    ScanPastRoot(fs, mp, nr, nodes, Top(fs), p);
  }

  /** A tmpfs on what path p finds: p leads to a new directory, whose one child is a directory dev. */
  lemma TmpfsMountMeans(fs: Fs, p: string, mp: Id, id: Id)
    requires WellFormed(fs) && Detached(fs) && Newest(fs, id)
    requires Lookup(fs, p) == Node_(mp) && mp != 0 && !IsRoot(fs.mnts, mp)
    ensures var fs' := Mounted(fs, mp, id, TmpfsNodes(fs.nodes, id));
            && Lookup(fs', p) == Node_(id) && Lookup(fs', p + "/dev") == Node_(id + 1)
  {
    var fs', names := Mounted(fs, mp, id, TmpfsNodes(fs.nodes, id)), Components(p);
    hide WellFormed, Detached, Newest, Scan, FoldLook, Components, TmpfsNodes, IsRoot;
    FoundFits(fs, Top(fs), p);
    FoundByLookup(fs, p, mp);
    TmpfsMountOk(fs, mp, id);
    MountIsSeenIff(fs, p, mp, id, TmpfsNodes(fs.nodes, id), []);
    LookupIsFold(fs', p);
    NewRootIsNoFile(fs, mp, id);
    DevIsThere(fs, mp, id);
    LookupBelow(fs', p, "dev");
    assert p + "/dev" == p + "/" + "dev";
  }

  lemma NewRootIsNoFile(fs: Fs, mp: Id, id: Id)
    ensures !IsFile(Mounted(fs, mp, id, TmpfsNodes(fs.nodes, id)), id) && id + 1 > 0
    ensures !IsFile(Mounted(fs, mp, id, TmpfsNodes(fs.nodes, id)), id + 1)
  {
  }

  /** A path and a plain name below it. */
  lemma LookupBelow(fs: Fs, p: string, name: string)
    requires Fits(Components(p)) && name != "" && '/' !in name && |name| <= 63
    ensures Lookup(fs, p + "/" + name) == Node_(FoldLook(fs, FoldLook(fs, Top(fs), Components(p)), [name]))
  {
    PlainComponent(name);
    ComponentsOfJoin(p, name);
    FitsJoined(Components(p), [name]);
    FoldOfJoin(fs, Top(fs), Components(p), [name]);
    LookupIsFold(fs, p + "/" + name);
  }

  lemma DevIsThere(fs: Fs, mp: Id, id: Id)
    requires WellFormed(fs) && Newest(fs, id) && mp in fs.nodes
    ensures FoldLook(Mounted(fs, mp, id, TmpfsNodes(fs.nodes, id)), id, ["dev"]) == id + 1
  {
    var fs' := Mounted(fs, mp, id, TmpfsNodes(fs.nodes, id));
    assert ["dev"][1..] == [];
    assert ChildNamed(fs'.nodes, [id + 1], "dev") == id + 1;
    forall i | 0 <= i < |fs'.mnts| ensures fs'.mnts[i].mountpoint != id + 1 {
      if i > 0 { assert MountOk(fs, fs.mnts[i - 1]); }
    }
    RedirectResult(fs'.mnts, id + 1);
    assert Look(fs', id, "dev") == id + 1;
  }

  /** Any other type on what path p finds: p and all below it leads nowhere. */
  lemma OtherMountMeans(fs: Fs, p: string, mp: Id, rest: string)
    requires WellFormed(fs) && Detached(fs)
    requires Lookup(fs, p) == Node_(mp) && mp != 0 && !IsRoot(fs.mnts, mp) && Fits(Components(rest))
    ensures var fs' := Mounted(fs, mp, 0, fs.nodes);
            Lookup(fs', p) == Node_(0) && Lookup(fs', p + "/" + rest) == Node_(0)
  {
    var fs', names := Mounted(fs, mp, 0, fs.nodes), Components(p);
    FoundFits(fs, Top(fs), p);
    FoundByLookup(fs, p, mp);
    UnknownMountOk(fs, mp);
    MountIsSeenIff(fs, p, mp, 0, fs.nodes, []);
    LookupIsFold(fs', p);
    ComponentsOfJoin(p, rest);
    FitsJoined(names, Components(rest));
    FoldOfJoin(fs', Top(fs'), names, Components(rest));
    FoldFromNothing(fs', 0, Components(rest));
    LookupIsFold(fs', p + "/" + rest);
  }
}
