/** kernel/src/util/datastructures/ll.c: circular lists of prev/next words kept inside other structures. */
module LinkedList {
  import opened Words

  /** The word at byte address a. */
  function Load(m: seq<u64>, a: nat): u64 {
    if a / 8 < |m| then m[a / 8] else 0
  }

  function Store(m: seq<u64>, a: nat, w: u64): (r: seq<u64>)
    ensures |r| == |m|
  {
    if a / 8 < |m| then m[a / 8 := w] else m
  }

  lemma LoadAfterStore(m: seq<u64>, a: nat, w: u64, b: nat)
    requires a % 8 == 0 && b % 8 == 0 && a / 8 < |m|
    ensures Load(Store(m, a, w), b) == if b == a then w else Load(m, b)
  {
  }

  /** An LLHead, 16 bytes: prev at a, next at a + 8. */
  predicate NodeAt(m: seq<u64>, a: nat) {
    a % 8 == 0 && a / 8 + 1 < |m| && a < 0x1_0000_0000_0000_0000
  }

  function Prev(m: seq<u64>, a: nat): u64 { Load(m, a) }

  function Next(m: seq<u64>, a: nat): u64 { Load(m, a + 8) }

  predicate NodesApart(a: nat, b: nat) {
    a + 16 <= b || b + 16 <= a
  }

  predicate Distinct(c: seq<nat>) {
    forall i, j :: 0 <= i < j < |c| ==> NodesApart(c[i], c[j])
  }

  predicate Joined(m: seq<u64>, a: nat, b: nat) {
    Next(m, a) == b && Prev(m, b) == a
  }

  /** From a through the nodes s to b, linked both ways. */
  predicate Path(m: seq<u64>, a: nat, s: seq<nat>, b: nat)
    decreases |s|
  {
    if s == [] then Joined(m, a, b) else Joined(m, a, s[0]) && Path(m, s[0], s[1..], b)
  }

  /** The list at h holds exactly the nodes s, in this order, closed into a circle both ways. */
  predicate Ring(m: seq<u64>, h: nat, s: seq<nat>)
  {
    && NodeAt(m, h)
    && (forall x :: x in s ==> NodeAt(m, x) && NodesApart(h, x))
    && Distinct(s)
    && Path(m, h, s, h)
  }

  /** llInitHead */
  function Initialised(m: seq<u64>, h: u64): seq<u64> {
    Store(Store(m, h, h), h + 8, h)
  }

  /** llInsertFront, its four writes in order. */
  function InsertedFront(m: seq<u64>, h: u64, x: u64): seq<u64> {
    var next := Next(m, h);
    Store(Store(Store(Store(m, x + 8, next), next, x), h + 8, x), x, h)
  }

  /** llDelete */
  function Deleted(m: seq<u64>, x: nat): (r: seq<u64>)
    ensures |r| == |m|
  {
    var m1 := Store(m, Prev(m, x) + 8, Next(m, x));
    Store(m1, Next(m1, x), Prev(m1, x))
  }

  /** Word b belongs to no node of c. */
  predicate Outside(c: seq<nat>, b: nat) {
    b % 8 == 0 && forall x :: x in c ==> b != x && b != x + 8
  }

  lemma InitialisedWords(m: seq<u64>, h: u64, b: nat)
    requires NodeAt(m, h) && b % 8 == 0
    ensures Load(Initialised(m, h), b) == if b == h || b == h + 8 then h else Load(m, b)
  {
    LoadAfterStore(m, h, h, b);
    LoadAfterStore(Store(m, h, h), h + 8, h, b);
  }

  /** A head linked to itself is the empty list. */
  lemma InitMakesEmptyRing(m: seq<u64>, h: u64)
    requires NodeAt(m, h)
    ensures Ring(Initialised(m, h), h, [])
  {
    InitialisedWords(m, h, h);
    InitialisedWords(m, h, h + 8);
  }

  lemma RingHead(m: seq<u64>, h: nat, s: seq<nat>)
    requires Ring(m, h, s)
    ensures Next(m, h) == if s == [] then h else s[0]
    ensures NodeAt(m, Next(m, h))
  {
  }

  /** llEmpty tells the truth. */
  lemma EmptyTest(m: seq<u64>, h: nat, s: seq<nat>)
    requires Ring(m, h, s)
    ensures Next(m, h) == h <==> s == []
  {
    RingHead(m, h, s);
    if s != [] {
      assert NodesApart(h, s[0]);
    }
  }

  /** A path does not depend on words it does not use. */
  lemma {:induction false} PathKept(m: seq<u64>, m': seq<u64>, a: nat, s: seq<nat>, b: nat)
    requires Path(m, a, s, b)
    requires Next(m', a) == Next(m, a) && Prev(m', b) == Prev(m, b)
    requires forall x :: x in s ==> Next(m', x) == Next(m, x) && Prev(m', x) == Prev(m, x)
    ensures Path(m', a, s, b)
    decreases |s|
  {
    if s != [] {
      assert s[0] in s;
      PathKept(m, m', s[0], s[1..], b);
    }
  }

  /** A list is untouched when none of its words are. */
  lemma RingKept(m: seq<u64>, m': seq<u64>, h: nat, s: seq<nat>)
    requires Ring(m, h, s) && |m'| == |m|
    requires Next(m', h) == Next(m, h) && Prev(m', h) == Prev(m, h)
    requires forall x :: x in s ==> Next(m', x) == Next(m, x) && Prev(m', x) == Prev(m, x)
    ensures Ring(m', h, s)
  {
    PathKept(m, m', h, s, h);
  }

  lemma InsertedWords(m: seq<u64>, h: u64, x: u64, b: nat)
    requires NodeAt(m, h) && NodeAt(m, Next(m, h)) && NodeAt(m, x) && b % 8 == 0
    requires NodesApart(h, x) && NodesApart(Next(m, h), x)
    requires Next(m, h) == h || NodesApart(h, Next(m, h))
    ensures Load(InsertedFront(m, h, x), b) ==
            if b == x then h
            else if b == h + 8 then x
            else if b == Next(m, h) then x
            else if b == x + 8 then Next(m, h)
            else Load(m, b)
  {
    hide Load, Store;
    var n := Next(m, h);
    LoadAfterStore(m, x + 8, n, b);
    var m1 := Store(m, x + 8, n);
    LoadAfterStore(m1, n, x, b);
    var m2 := Store(m1, n, x);
    LoadAfterStore(m2, h + 8, x, b);
    LoadAfterStore(Store(m2, h + 8, x), x, h, b);
  }

  lemma InsertedWordsInRing(m: seq<u64>, h: u64, s: seq<nat>, x: u64)
    requires Ring(m, h, s) && NodeAt(m, x) && NodesApart(h, x) && forall y :: y in s ==> NodesApart(x, y)
    ensures forall b {:trigger Load(InsertedFront(m, h, x), b)} :: b % 8 == 0 ==>
              Load(InsertedFront(m, h, x), b) ==
              if b == x then h
              else if b == h + 8 then x
              else if b == (if s == [] then h else s[0]) then x
              else if b == x + 8 then (if s == [] then h else s[0])
              else Load(m, b)
  {
    hide Load, Store, InsertedFront, Path;
    RingHead(m, h, s);
    assert s != [] ==> s[0] in s;
    forall b | b % 8 == 0
      ensures Load(InsertedFront(m, h, x), b) ==
              if b == x then h else if b == h + 8 then x else if b == Next(m, h) then x
              else if b == x + 8 then Next(m, h) else Load(m, b)
    {
      InsertedWords(m, h, x, b);
    }
  }

  /** Inserting puts the node first and keeps the rest; only list nodes are written. */
  lemma InsertFrontRefinesSequence(m: seq<u64>, h: u64, s: seq<nat>, x: u64)
    requires Ring(m, h, s) && NodeAt(m, x) && NodesApart(h, x) && forall y :: y in s ==> NodesApart(x, y)
    ensures Ring(InsertedFront(m, h, x), h, [x] + s)
    ensures forall b {:trigger Load(InsertedFront(m, h, x), b)} ::
              Outside([h, x] + s, b) ==> Load(InsertedFront(m, h, x), b) == Load(m, b)
  {
    hide Load, Store, InsertedFront;
    var m' := InsertedFront(m, h, x);
    InsertedLength(m, h, x);
    InsertedWordsInRing(m, h, s, x);
    assert Path(m', h, [x] + s, h) by {
      RestOfPathKept(m, h, s, x);
      assert ([x] + s)[1..] == s;
      assert Joined(m', h, x);
      assert s == [] ==> Joined(m', x, h);
      assert s != [] ==> s[0] in s && Joined(m', x, s[0]);
    }
    assert Distinct([x] + s) by {
      forall i, j | 0 <= i < j < |[x] + s| ensures NodesApart(([x] + s)[i], ([x] + s)[j]) {
        assert s[j - 1] in s;
      }
    }
    forall b | Outside([h, x] + s, b) ensures Load(m', b) == Load(m, b) {
      assert h in [h, x] + s && x in [h, x] + s;
      assert s != [] ==> s[0] in [h, x] + s;
    }
  }

  lemma RestOfPathKept(m: seq<u64>, h: u64, s: seq<nat>, x: u64)
    requires Ring(m, h, s) && NodeAt(m, x) && NodesApart(h, x) && forall y :: y in s ==> NodesApart(x, y)
    ensures s != [] ==> Path(InsertedFront(m, h, x), s[0], s[1..], h)
  {
    hide Load, Store, InsertedFront;
    InsertedWordsInRing(m, h, s, x);
    if s != [] {
      assert s[0] in s;
      forall y | y in s[1..] ensures y in s && NodesApart(s[0], y) {
        var i :| 1 <= i < |s| && s[i] == y;
      }
      PathKept(m, InsertedFront(m, h, x), s[0], s[1..], h);
    }
  }

  lemma InsertedLength(m: seq<u64>, h: u64, x: u64)
    ensures |InsertedFront(m, h, x)| == |m|
  {
  }

  lemma DeletedWords(m: seq<u64>, x: nat, b: nat)
    requires NodeAt(m, x) && NodeAt(m, Prev(m, x)) && NodeAt(m, Next(m, x)) && b % 8 == 0
    requires NodesApart(x, Prev(m, x)) && NodesApart(x, Next(m, x))
    ensures Load(Deleted(m, x), b) ==
            if b == Next(m, x) then Prev(m, x) else if b == Prev(m, x) + 8 then Next(m, x) else Load(m, b)
  {
    hide Load, Store;
    var p: nat, n := Prev(m, x), Next(m, x);
    var m1 := Store(m, p + 8, n);
    LoadAfterStore(m, p + 8, n, x);
    LoadAfterStore(m, p + 8, n, x + 8);
    LoadAfterStore(m, p + 8, n, b);
    LoadAfterStore(m1, n, p, b);
  }

  lemma {:induction false} PathSplits(m: seq<u64>, a: nat, u: seq<nat>, x: nat, v: seq<nat>, b: nat)
    ensures Path(m, a, u + [x] + v, b) <==> Path(m, a, u, x) && Path(m, x, v, b)
    decreases |u|
  {
    var s := u + [x] + v;
    if u == [] {
      assert s[1..] == v;
    } else {
      PathSplits(m, u[0], u[1..], x, v, b);
      assert s[1..] == u[1..] + [x] + v;
    }
  }

  /** The words of a path's two ends. */
  lemma {:induction false} PathEnd(m: seq<u64>, a: nat, s: seq<nat>, b: nat)
    requires Path(m, a, s, b)
    ensures Next(m, a) == if s == [] then b else s[0]
    ensures Prev(m, b) == if s == [] then a else s[|s| - 1]
    decreases |s|
  {
    if s != [] {
      PathEnd(m, s[0], s[1..], b);
    }
  }

  lemma DeletedWordsInRing(m: seq<u64>, h: u64, u: seq<nat>, x: nat, v: seq<nat>)
    requires Ring(m, h, u + [x] + v)
    ensures forall b {:trigger Load(Deleted(m, x), b)} :: b % 8 == 0 ==>
              Load(Deleted(m, x), b) ==
              if b == (if v == [] then h else v[0]) then (if u == [] then h else u[|u| - 1])
              else if b == (if u == [] then h else u[|u| - 1]) + 8 then (if v == [] then h else v[0])
              else Load(m, b)
  {
    hide Load, Store, Deleted;
    var s := u + [x] + v;
    PathSplits(m, h, u, x, v, h);
    PathEnd(m, h, u, x);
    PathEnd(m, x, v, h);
    assert s[|u|] == x && x in s;
    assert u != [] ==> u[|u| - 1] == s[|u| - 1] && u[|u| - 1] in s;
    assert v != [] ==> v[0] == s[|u| + 1] && v[0] in s;
    forall b | b % 8 == 0
      ensures Load(Deleted(m, x), b) ==
              if b == Next(m, x) then Prev(m, x) else if b == Prev(m, x) + 8 then Next(m, x) else Load(m, b)
    {
      DeletedWords(m, x, b);
    }
  }

  /** Deleting takes out that node, keeps the order of the others and writes only to them. */
  lemma DeleteRefinesSequence(m: seq<u64>, h: u64, u: seq<nat>, x: nat, v: seq<nat>)
    requires Ring(m, h, u + [x] + v)
    ensures Ring(Deleted(m, x), h, u + v)
    ensures forall b {:trigger Load(Deleted(m, x), b)} ::
              Outside([h] + u + v, b) ==> Load(Deleted(m, x), b) == Load(m, b)
  {
    hide Load, Store, Deleted, Path;
    var s, m' := u + [x] + v, Deleted(m, x);
    DeletedWordsInRing(m, h, u, x, v);
    PathSplits(m, h, u, x, v, h);
    PartsAreDistinct(u, x, v);
    forall y | y in u + v ensures y in s && NodesApart(h, y) && NodeAt(m, y) { }
    forall b | Outside([h] + u + v, b) ensures Load(m', b) == Load(m, b) {
      assert h in [h] + u + v;
      assert u != [] ==> u[|u| - 1] in [h] + u + v;
      assert v != [] ==> v[0] in [h] + u + v;
    }
    Rejoins(m, h, u, x, v);
  }

  lemma Rejoins(m: seq<u64>, h: u64, u: seq<nat>, x: nat, v: seq<nat>)
    requires Ring(m, h, u + [x] + v)
    requires Path(m, h, u, x) && Path(m, x, v, h)
    ensures Path(Deleted(m, x), h, u + v, h)
  {
    hide Load, Store, Deleted, Path;
    var p := if u == [] then h else u[|u| - 1];
    var n := if v == [] then h else v[0];
    DeletedWordsInRing(m, h, u, x, v);
    PartsAreDistinct(u, x, v);
    forall y | y in u + v ensures NodesApart(h, y) && NodeAt(m, y) {
      assert y in u + [x] + v;
    }
    forall i | 0 <= i < |u| ensures u[i] in u + v && (v != [] ==> NodesApart(u[i], n)) { }
    forall i | 0 <= i < |v| ensures v[i] in u + v && (u != [] ==> NodesApart(v[i], p)) { }
    DetourPath(m, Deleted(m, x), h, u, x, v, h);
  }

  lemma PartsAreDistinct(u: seq<nat>, x: nat, v: seq<nat>)
    requires Distinct(u + [x] + v)
    ensures Distinct(u) && Distinct(v) && Distinct(u + v)
    ensures forall y, z :: y in u && z in v ==> NodesApart(y, z)
    ensures forall y :: y in u + v ==> NodesApart(x, y)
  {
    var s := u + [x] + v;
    forall i | 0 <= i < |u| ensures s[i] == u[i] { }
    forall i | 0 <= i < |v| ensures s[|u| + 1 + i] == v[i] { }
    forall y, z | y in u && z in v ensures NodesApart(y, z) {
      var i :| 0 <= i < |u| && u[i] == y;
      var j :| 0 <= j < |v| && v[j] == z;
      assert NodesApart(s[i], s[|u| + 1 + j]);
    }
    forall y | y in u + v ensures NodesApart(x, y) {
      if y in u {
        var i :| 0 <= i < |u| && u[i] == y;
        assert NodesApart(s[i], s[|u|]);
      } else {
        var j :| 0 <= j < |v| && v[j] == y;
        assert NodesApart(s[|u|], s[|u| + 1 + j]);
      }
    }
  }

  /** Rerouting around x: the two halves join up. */
  lemma {:induction false} DetourPath(m: seq<u64>, m': seq<u64>, a: nat, u: seq<nat>, x: nat, v: seq<nat>, b: nat)
    requires Path(m, a, u, x) && Path(m, x, v, b)
    requires Joined(m', if u == [] then a else u[|u| - 1], if v == [] then b else v[0])
    requires u != [] ==> Next(m', a) == Next(m, a)
    requires forall i :: 0 <= i < |u| ==> Prev(m', u[i]) == Prev(m, u[i])
    requires forall i :: 0 <= i < |u| - 1 ==> Next(m', u[i]) == Next(m, u[i])
    requires v != [] ==> Prev(m', b) == Prev(m, b)
    requires forall i :: 0 <= i < |v| ==> Next(m', v[i]) == Next(m, v[i])
    requires forall i :: 1 <= i < |v| ==> Prev(m', v[i]) == Prev(m, v[i])
    ensures Path(m', a, u + v, b)
    decreases |u|
  {
    hide Load;
    if u == [] {
      assert u + v == v;
      if v != [] {
        PathKept(m, m', v[0], v[1..], b);
      }
    } else {
      assert (u + v)[1..] == u[1..] + v;
      DetourPath(m, m', u[0], u[1..], x, v, b);
    }
  }

  method InitHead(ram: array<u64>, h: u64)
    requires NodeAt(ram[..], h)
    modifies ram
    ensures ram[..] == Initialised(old(ram[..]), h) && Ring(ram[..], h, [])
  {
    InitMakesEmptyRing(ram[..], h);
    ram[h / 8] := h;
    ram[(h + 8) / 8] := h;
  }

  method InsertFront(ram: array<u64>, h: u64, x: u64)
    requires NodeAt(ram[..], h) && NodeAt(ram[..], x) && NodeAt(ram[..], Next(ram[..], h))
    modifies ram
    ensures ram[..] == InsertedFront(old(ram[..]), h, x)
  {
    var next := ram[(h + 8) / 8];
    ram[(x + 8) / 8] := next;
    ram[next / 8] := x;
    ram[(h + 8) / 8] := x;
    ram[x / 8] := h;
  }

  method Delete(ram: array<u64>, x: u64)
    requires NodeAt(ram[..], x) && NodeAt(ram[..], Prev(ram[..], x)) && NodeAt(ram[..], Next(ram[..], x))
    requires NodesApart(x, Prev(ram[..], x))
    modifies ram
    ensures ram[..] == Deleted(old(ram[..]), x)
  {
    var prev: nat := ram[x / 8];
    ram[(prev + 8) / 8] := ram[(x + 8) / 8];
    var next: nat := ram[(x + 8) / 8];
    ram[next / 8] := ram[x / 8];
  }

  method IsEmpty(ram: array<u64>, h: u64, ghost s: seq<nat>) returns (r: bool)
    requires Ring(ram[..], h, s)
    ensures r <==> s == []
  {
    EmptyTest(ram[..], h, s);
    r := ram[(h + 8) / 8] == h;
  }
}
