/** The node tables and the mount list of kernel/src/filesystem, and what a path means on them. */
module VfsModel {

  /** A node's address; 0 is the null pointer. */
  type Id = nat

  datatype Kind = Dir | File

  /**
   * An FsNode with its TmpfsNode. Nodes without handlers stand for the bare root of vfsInit. A file
   * has its bytes at address `data`.
   */
  datatype Node = Node(kind: Kind, handlers: bool, name: string, children: seq<Id>, data: nat)

  /** An FsMnt; its root is 0 when the type of file system is not known. */
  datatype Mount = Mount(mountpoint: Id, root: Id)

  /** Mounts are listed newest first, and so are a directory's children. */
  datatype Fs = Fs(nodes: map<Id, Node>, mnts: seq<Mount>, root: Id)

  /** vfsFindMnt and the redirection to the mounted root. */
  function Redirect(mnts: seq<Mount>, n: Id): Id {
    if n == 0 || mnts == [] then n
    else if mnts[0].mountpoint == n then mnts[0].root
    else Redirect(mnts[1..], n)
  }

  /** tmpfsLookup: the first child of that name, or null. */
  function ChildNamed(nodes: map<Id, Node>, children: seq<Id>, name: string): Id {
    if children == [] then 0
    else if children[0] in nodes && nodes[children[0]].name == name then children[0]
    else ChildNamed(nodes, children[1..], name)
  }

  /** vfsLook */
  function Look(fs: Fs, n: Id, name: string): Id {
    if n == 0 || n !in fs.nodes || fs.nodes[n].kind == File || !fs.nodes[n].handlers then 0
    else Redirect(fs.mnts, ChildNamed(fs.nodes, fs.nodes[n].children, name))
  }

  predicate IsFile(fs: Fs, n: Id) {
    n in fs.nodes && fs.nodes[n].kind == File
  }

  /** Where every lookup starts. */
  function Top(fs: Fs): Id {
    Redirect(fs.mnts, fs.root)
  }

  const LONGEST: nat := 63

  function FirstSlash(p: string): (n: nat)
    ensures n <= |p| && '/' !in p[..n] && (n < |p| ==> p[n] == '/')
  {
    if p == "" || p[0] == '/' then 0 else 1 + FirstSlash(p[1..])
  }

  /** The non-empty pieces between slashes. */
  function Components(p: string): seq<string>
    decreases |p|
  {
    if p == "" then []
    else if p[0] == '/' then Components(p[1..])
    else [p[..FirstSlash(p)]] + Components(p[FirstSlash(p)..])
  }

  function FoldLook(fs: Fs, n: Id, names: seq<string>): Id
    decreases |names|
  {
    if names == [] then n else FoldLook(fs, Look(fs, n, names[0]), names[1..])
  }

  datatype Found = Node_(id: Id) | Never

  /** vfsLookup's scan from node n on, piece by piece; Never when it stops advancing. */
  function Scan(fs: Fs, n: Id, p: string): Found
    decreases |p|
  {
    if p == "" then Node_(n)
    else if p[0] == '/' then Scan(fs, n, p[1..])
    else
      var k := FirstSlash(p);
      if k > LONGEST then Never
      else if k == |p| then Node_(Look(fs, n, p))
      else
        var next := Look(fs, n, p[..k]);
        if next == 0 || IsFile(fs, next) then Node_(0) else Scan(fs, next, p[k + 1..])
  }

  function Lookup(fs: Fs, p: string): Found {
    Scan(fs, Top(fs), p)
  }

  predicate Fits(names: seq<string>) {
    forall i :: 0 <= i < |names| ==> |names[i]| <= LONGEST
  }

  predicate EndsWithSlash(p: string) {
    p != "" && p[|p| - 1] == '/'
  }

  /** Looking inside nothing, or inside a file, finds nothing. */
  lemma {:induction false} FoldFromNothing(fs: Fs, n: Id, names: seq<string>)
    requires n == 0 || IsFile(fs, n)
    ensures names != [] ==> FoldLook(fs, n, names) == 0
    decreases |names|
  {
    if names != [] {
      FoldFromNothing(fs, 0, names[1..]);
    }
  }

  lemma {:induction false} SlashEnds(p: string, k: nat)
    requires k < |p| && p[k] == '/'
    ensures Components(p[k..]) == Components(p[k + 1..])
    ensures p[k + 1..] == "" || EndsWithSlash(p[k + 1..]) == EndsWithSlash(p)
  {
    assert p[k..][1..] == p[k + 1..];
  }

  lemma {:induction false} OnlySlashes(p: string)
    requires Components(p) == []
    ensures p == "" || EndsWithSlash(p)
    decreases |p|
  {
    if p != "" {
      OnlySlashes(p[1..]);
    }
  }

  /**
   * A scan all of whose components fit is a fold of vfsLook over them, except that a file
   * followed by a slash counts as nothing.
   */
  lemma {:induction false} ScanIsFold(fs: Fs, n: Id, p: string)
    requires Fits(Components(p))
    ensures var names := Components(p);
            var end := FoldLook(fs, n, names);
            Scan(fs, n, p) == Node_(if names != [] && EndsWithSlash(p) && IsFile(fs, end) then 0 else end)
    decreases |p|
  {
    if p != "" {
      if p[0] == '/' {
        assert Components(p) == Components(p[1..]);
        ScanIsFold(fs, n, p[1..]);
        assert p[1..] == "" || EndsWithSlash(p[1..]) == EndsWithSlash(p);
        assert p[1..] == "" ==> Components(p) == [];
      } else {
        var k := FirstSlash(p);
        var names := Components(p);
        assert names[0] == p[..k] && names[1..] == Components(p[k..]);
        if k < |p| {
          SlashEnds(p, k);
          var next := Look(fs, n, p[..k]);
          forall i | 0 <= i < |names[1..]| ensures |names[1..][i]| <= LONGEST { assert names[i + 1] == names[1..][i]; }
          if next == 0 || IsFile(fs, next) {
            FoldFromNothing(fs, next, names[1..]);
          }
          ScanIsFold(fs, next, p[k + 1..]);
          assert p[k + 1..] == "" ==> k == |p| - 1 && names[1..] == [];
          if names[1..] == [] { OnlySlashes(p[k + 1..]); }
        } else {
          assert p[..k] == p && p[k..] == "";
          assert p[|p| - 1] in p[..k];
        }
      }
    }
  }

  /** The whole of vfsLookup on paths whose components are at most 63 characters. */
  lemma LookupIsFold(fs: Fs, p: string)
    requires Fits(Components(p))
    ensures var names := Components(p);
            var end := FoldLook(fs, Top(fs), names);
            Lookup(fs, p) == Node_(if names != [] && EndsWithSlash(p) && IsFile(fs, end) then 0 else end)
  {
    ScanIsFold(fs, Top(fs), p);
  }

  /** Paths with the same components mean the same, whatever slashes they are written with. */
  lemma SlashesDoNotMatter(fs: Fs, p: string, q: string)
    requires Fits(Components(p)) && Components(p) == Components(q)
    requires EndsWithSlash(p) == EndsWithSlash(q) || !IsFile(fs, FoldLook(fs, Top(fs), Components(p)))
    ensures Lookup(fs, p) == Lookup(fs, q)
  {
    LookupIsFold(fs, p);
    LookupIsFold(fs, q);
  }

  lemma {:induction false} ComponentsOfJoin(p: string, q: string)
    ensures Components(p + "/" + q) == Components(p) + Components(q)
    decreases |p|
  {
    hide FirstSlash;
    var r := p + "/" + q;
    if p == "" {
      assert r[1..] == q;
    } else if p[0] == '/' {
      ComponentsOfJoin(p[1..], q);
      assert r[1..] == p[1..] + "/" + q;
    } else {
      var k := FirstSlash(p);
      FirstSlashOfJoin(p, q);
      assert r[..k] == p[..k] && r[k..] == p[k..] + "/" + q;
      ComponentsOfJoin(p[k..], q);
    }
  }

  lemma {:induction false} FirstSlashOfJoin(p: string, q: string)
    ensures FirstSlash(p + "/" + q) == FirstSlash(p)
    decreases |p|
  {
    if p != "" && p[0] != '/' {
      FirstSlashOfJoin(p[1..], q);
      assert (p + "/" + q)[1..] == p[1..] + "/" + q;
    }
  }

  lemma LeadingSlash(fs: Fs, p: string)
    requires Fits(Components(p))
    ensures Lookup(fs, "/" + p) == Lookup(fs, p)
  {
    assert ("/" + p)[1..] == p;
  }

  lemma DoubledSlash(fs: Fs, p: string, q: string)
    requires Fits(Components(p)) && Fits(Components(q)) && q != ""
    ensures Lookup(fs, p + "//" + q) == Lookup(fs, p + "/" + q)
  {
    ComponentsOfJoin(p, q);
    ComponentsOfJoin(p, "/" + q);
    assert ("/" + q)[1..] == q;
    assert p + "/" + ("/" + q) == p + "//" + q;
    assert EndsWithSlash(p + "//" + q) == EndsWithSlash(q) == EndsWithSlash(p + "/" + q);
    FitsJoined(Components(p), Components(q));
    SlashesDoNotMatter(fs, p + "//" + q, p + "/" + q);
  }

  lemma TrailingSlash(fs: Fs, p: string)
    requires Fits(Components(p)) && !IsFile(fs, FoldLook(fs, Top(fs), Components(p)))
    ensures Lookup(fs, p + "/") == Lookup(fs, p)
  {
    ComponentsOfJoin(p, "");
    assert p + "/" + "" == p + "/";
    assert Components(p) + [] == Components(p);
    SlashesDoNotMatter(fs, p + "/", p);
  }

  lemma FitsJoined(a: seq<string>, b: seq<string>)
    requires Fits(a) && Fits(b)
    ensures Fits(a + b)
  {
  }

  /** A node that vfsLookup goes on from. */
  predicate Passable(fs: Fs, n: Id) {
    n != 0 && !IsFile(fs, n)
  }

  /** How many leading components fit. */
  function FittingPrefix(names: seq<string>): (k: nat)
    ensures k <= |names| && Fits(names[..k]) && (k < |names| ==> |names[k]| > LONGEST)
  {
    if names == [] || |names[0]| > LONGEST then 0 else 1 + FittingPrefix(names[1..])
  }

  /**
   * vfsLookup never returns exactly when some component has more than 63 characters and the
   * components before the first such one, if any, lead to a node that is not a file.
   */
  lemma {:induction false} ScanStopsAdvancing(fs: Fs, n: Id, p: string)
    ensures var names := Components(p);
            var k := FittingPrefix(names);
            Scan(fs, n, p) == Never <==> k < |names| && (k == 0 || Passable(fs, FoldLook(fs, n, names[..k])))
    decreases |p|
  {
    if p != "" {
      if p[0] == '/' {
        ScanStopsAdvancing(fs, n, p[1..]);
      } else {
        var c := FirstSlash(p);
        var names := Components(p);
        assert names[0] == p[..c] && names[1..] == Components(p[c..]);
        var k := FittingPrefix(names);
        if c > LONGEST {
          assert k == 0;
        } else if c == |p| {
          assert p[c..] == "" && names[1..] == [];
          assert names == [p[..c]] && k == 1;
        } else {
          SlashEnds(p, c);
          var next := Look(fs, n, p[..c]);
          assert k == 1 + FittingPrefix(names[1..]);
          assert names[..k][1..] == names[1..][..k - 1] && names[..k][0] == names[0];
          if next == 0 || IsFile(fs, next) {
            FoldFromNothing(fs, next, names[1..][..k - 1]);
          } else {
            ScanStopsAdvancing(fs, next, p[c + 1..]);
          }
        }
      }
    }
  }

  /** 64 characters without a slash are enough. */
  lemma LongNameNeverReturns(fs: Fs)
    ensures Lookup(fs, seq(64, _ => 'a')) == Never
  {
    var p := seq(64, _ => 'a');
    NoSlash(p);
  }

  /** With at most 63 in every component it returns. */
  lemma ShortNamesReturn(fs: Fs, p: string)
    requires forall i :: 0 <= i < |Components(p)| ==> |Components(p)[i]| <= 63
    ensures Lookup(fs, p) != Never
  {
    LookupIsFold(fs, p);
  }

  /** A component is what stands between two slashes, or a slash and an end. */
  lemma {:induction false} ComponentsAreBetweenSlashes(p: string, i: nat) returns (a: nat, b: nat)
    requires i < |Components(p)|
    ensures a < b <= |p| && Components(p)[i] == p[a..b] && '/' !in p[a..b]
    ensures (a == 0 || p[a - 1] == '/') && (b == |p| || p[b] == '/')
    decreases |p|
  {
    hide FirstSlash;
    var k := if p[0] == '/' then 1 else FirstSlash(p);
    if p[0] != '/' && i == 0 {
      a, b := 0, k;
    } else {
      var j := if p[0] == '/' then i else i - 1;
      assert Components(p)[i] == Components(p[k..])[j];
      var c, d := ComponentsAreBetweenSlashes(p[k..], j);
      a, b := c + k, d + k;
      AfterPiece(p, k, c, d);
    }
  }

  lemma AfterPiece(p: string, k: nat, c: nat, d: nat)
    requires 0 < k <= |p| && c < d <= |p| - k && '/' !in p[k..][c..d]
    requires (p[0] == '/' && k == 1) || (k < |p| ==> p[k] == '/')
    requires (c == 0 || p[k..][c - 1] == '/') && (d == |p| - k || p[k..][d] == '/')
    ensures p[k..][c..d] == p[c + k..d + k] && p[c + k - 1] == '/' && (d + k == |p| || p[d + k] == '/')
  {
    assert p[k..][c..d] == p[c + k..d + k];
    assert p[k..][c..d][0] == p[c + k];
  }

  /** What a scan finds lies at the end of components that all fit. */
  lemma {:induction false} FoundFits(fs: Fs, n: Id, p: string)
    requires Scan(fs, n, p).Node_? && Scan(fs, n, p).id != 0
    ensures Fits(Components(p))
    decreases |p|
  {
    if p != "" {
      if p[0] == '/' {
        FoundFits(fs, n, p[1..]);
      } else {
        var k := FirstSlash(p);
        if k < |p| {
          SlashEnds(p, k);
          FoundFits(fs, Look(fs, n, p[..k]), p[k + 1..]);
        } else {
          assert p[k..] == "";
        }
      }
    }
  }

  lemma {:induction false} NoSlash(p: string)
    requires forall i :: 0 <= i < |p| ==> p[i] != '/'
    ensures FirstSlash(p) == |p|
  {
    if p != "" { NoSlash(p[1..]); }
  }

  lemma {:induction false} FoldOfJoin(fs: Fs, n: Id, a: seq<string>, b: seq<string>)
    ensures FoldLook(fs, n, a + b) == FoldLook(fs, FoldLook(fs, n, a), b)
    decreases |a|
  {
    if a == [] {
      assert a + b == b;
    } else {
      FoldOfJoin(fs, Look(fs, n, a[0]), a[1..], b);
      assert (a + b)[1..] == a[1..] + b;
    }
  }
}
