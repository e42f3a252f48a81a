/**
 * The kernel's spinlocks (kernel/src/cpu/spinlock.c) taken by any number of CPUs in any
 * interleaving: each test-and-set and each clear is one step.
 */
module Locks {

  /** The locks that are taken outside the panic path; every slab cache has its own. */
  datatype Lock = CacheLock(cache: nat) | WalkLock | PmmLock | PrintfLock | SerialLock

  datatype Act = Acquire(lock: Lock) | Drop(lock: Lock)

  /** Nested acquisitions go up in rank. */
  function Rank(l: Lock): nat {
    match l
    case CacheLock(_) => 0
    case WalkLock => 0
    case PmmLock => 1
    case PrintfLock => 2
    case SerialLock => 3
  }

  /** A program that releases what it takes, innermost first, and only nests upwards. */
  predicate Ordered(held: seq<Lock>, prog: seq<Act>)
    decreases |prog|
  {
    if prog == [] then held == []
    else match prog[0]
      case Acquire(l) =>
        (held == [] || Rank(held[|held| - 1]) < Rank(l)) && Ordered(held + [l], prog[1..])
      case Drop(l) =>
        held != [] && held[|held| - 1] == l && Ordered(held[..|held| - 1], prog[1..])
  }

  /** Per CPU: the locks it holds, outermost first, and what it has left to do; and the lock flags. */
  datatype Machine = Machine(held: seq<seq<Lock>>, progs: seq<seq<Act>>, flags: set<Lock>)

  predicate Spins(m: Machine, i: nat)
    requires i < |m.progs|
  {
    m.progs[i] != [] && m.progs[i][0].Acquire? && m.progs[i][0].lock in m.flags
  }

  /** One step of CPU i: nothing changes when it is done or its test-and-set finds the flag set. */
  function Step(m: Machine, i: nat): Machine
    requires i < |m.progs| == |m.held|
  {
    if m.progs[i] == [] || Spins(m, i) then m
    else
      var rest := m.progs[i := m.progs[i][1..]];
      match m.progs[i][0]
      case Acquire(l) => Machine(m.held[i := m.held[i] + [l]], rest, m.flags + {l})
      case Drop(l) =>
        Machine(m.held[i := if m.held[i] == [] then [] else m.held[i][..|m.held[i]| - 1]], rest, m.flags - {l})
  }

  predicate Schedule(s: seq<nat>, cpus: nat) {
    forall k :: 0 <= k < |s| ==> s[k] < cpus
  }

  function Run(m: Machine, s: seq<nat>): (r: Machine)
    requires |m.progs| == |m.held| && Schedule(s, |m.progs|)
    ensures |r.progs| == |r.held| == |m.progs|
    decreases |s|
  {
    if s == [] then m else Run(Step(m, s[0]), s[1..])
  }

  predicate Rising(held: seq<Lock>) {
    forall a, b :: 0 <= a < b < |held| ==> Rank(held[a]) < Rank(held[b])
  }

  /** A flag is set exactly while one CPU, and no other, holds that lock. */
  ghost predicate Inv(m: Machine)
  {
    && |m.progs| == |m.held|
    && (forall i :: 0 <= i < |m.held| ==> Rising(m.held[i]) && Ordered(m.held[i], m.progs[i]))
    && (forall i, l :: 0 <= i < |m.held| && l in m.held[i] ==> l in m.flags)
    && (forall l :: l in m.flags ==> exists i :: 0 <= i < |m.held| && l in m.held[i])
    && (forall i, j, l :: 0 <= i < |m.held| && 0 <= j < |m.held| && l in m.held[i] && l in m.held[j] ==> i == j)
  }

  lemma PushRising(held: seq<Lock>, l: Lock)
    requires Rising(held) && (held == [] || Rank(held[|held| - 1]) < Rank(l))
    ensures Rising(held + [l])
    ensures forall k :: k in held + [l] <==> k in held || k == l
  {
  }

  lemma PopRising(held: seq<Lock>)
    requires Rising(held) && held != []
    ensures Rising(held[..|held| - 1])
    ensures forall k :: k in held[..|held| - 1] <==> k in held && k != held[|held| - 1]
  {
    var top := held[|held| - 1];
    forall k | k in held && k != top ensures k in held[..|held| - 1] {
      var a :| 0 <= a < |held| && held[a] == k;
      assert held[..|held| - 1][a] == k;
    }
  }

  /** CPU i's held locks and program change; only its own lock l comes or goes. */
  lemma OwnChangeKeepsInv(m: Machine, m': Machine, i: nat, l: Lock)
    requires Inv(m) && i < |m.progs| && |m'.progs| == |m'.held| == |m.progs|
    requires forall j :: 0 <= j < |m.held| && j != i ==> m'.held[j] == m.held[j] && m'.progs[j] == m.progs[j]
    requires Rising(m'.held[i]) && Ordered(m'.held[i], m'.progs[i])
    requires forall k :: k != l ==> (k in m'.held[i] <==> k in m.held[i]) && (k in m'.flags <==> k in m.flags)
    requires l in m'.flags <==> l in m'.held[i]
    requires l in m.held[i] || l !in m.flags
    ensures Inv(m')
  {
    hide Rising, Ordered;
    forall k | k in m'.flags ensures exists j :: 0 <= j < |m'.held| && k in m'.held[j] {
      if k == l {
        assert k in m'.held[i];
      } else {
        var j :| 0 <= j < |m.held| && k in m.held[j];
        assert k in m'.held[j];
      }
    }
    forall j, k | 0 <= j < |m'.held| && k in m'.held[j] ensures k in m'.flags {
      if j != i {
        assert k in m.held[j];
      }
    }
  }

  lemma StepKeepsInv(m: Machine, i: nat)
    requires Inv(m) && i < |m.progs|
    ensures Inv(Step(m, i))
  {
    if m.progs[i] != [] && !Spins(m, i) {
      var m', held := Step(m, i), m.held[i];
      assert Rising(held) && Ordered(held, m.progs[i]);
      match m.progs[i][0] {
        case Acquire(l) =>
          PushRising(held, l);
          hide Inv;
          OwnChangeKeepsInv(m, m', i, l);
        case Drop(l) =>
          PopRising(held);
          assert held[|held| - 1] == l && l in held;
          hide Inv;
          OwnChangeKeepsInv(m, m', i, l);
      }
    }
  }

  /** Mutual exclusion, in every interleaving. */
  lemma {:induction false} EveryRunKeepsInv(m: Machine, s: seq<nat>)
    requires Inv(m) && Schedule(s, |m.progs|)
    ensures Inv(Run(m, s))
    decreases |s|
  {
    if s != [] {
      StepKeepsInv(m, s[0]);
      EveryRunKeepsInv(Step(m, s[0]), s[1..]);
    }
  }

  /** From a CPU that has something to do, follow who holds what it waits for to one that can go on. */
  lemma {:induction false} SomeoneCanMove(m: Machine, i: nat) returns (j: nat)
    requires Inv(m) && i < |m.progs| && m.progs[i] != []
    ensures j < |m.progs| && m.progs[j] != [] && !Spins(m, j)
    decreases if Spins(m, i) then 4 - Rank(m.progs[i][0].lock) else 0
  {
    if !Spins(m, i) {
      return i;
    }
    var l := m.progs[i][0].lock;
    var k :| 0 <= k < |m.held| && l in m.held[k];
    var held := m.held[k];
    assert Ordered(held, m.progs[k]);
    var a :| 0 <= a < |held| && held[a] == l;
    assert a < |held| - 1 ==> Rank(held[a]) < Rank(held[|held| - 1]);
    j := SomeoneCanMove(m, k);
  }

  /** No deadlock: while any CPU is unfinished, some CPU's next step is not a spin. */
  lemma NoDeadlock(m: Machine)
    requires Inv(m) && exists i :: 0 <= i < |m.progs| && m.progs[i] != []
    ensures exists j :: 0 <= j < |m.progs| && m.progs[j] != [] && !Spins(m, j)
  {
    var i :| 0 <= i < |m.progs| && m.progs[i] != [];
    var j := SomeoneCanMove(m, i);
  }

  function WorkLeft(progs: seq<seq<Act>>): nat {
    if progs == [] then 0 else |progs[0]| + WorkLeft(progs[1..])
  }

  lemma {:induction false} WorkShrinks(progs: seq<seq<Act>>, i: nat)
    requires i < |progs| && progs[i] != []
    ensures WorkLeft(progs[i := progs[i][1..]]) == WorkLeft(progs) - 1
  {
    var p := progs[i := progs[i][1..]];
    if i == 0 {
      assert p[1..] == progs[1..];
    } else {
      WorkShrinks(progs[1..], i - 1);
      assert p[1..] == progs[1..][i - 1 := progs[i][1..]];
    }
  }

  /** Every reachable state can still be run to the end, with every lock free again. */
  lemma {:induction false} EveryoneCanFinish(m: Machine) returns (s: seq<nat>)
    requires Inv(m)
    ensures Schedule(s, |m.progs|)
    ensures forall i :: 0 <= i < |m.progs| ==> Run(m, s).progs[i] == []
    ensures Run(m, s).flags == {}
    decreases WorkLeft(m.progs)
  {
    if exists i :: 0 <= i < |m.progs| && m.progs[i] != [] {
      var i :| 0 <= i < |m.progs| && m.progs[i] != [];
      var j := SomeoneCanMove(m, i);
      StepKeepsInv(m, j);
      WorkShrinks(m.progs, j);
      var t := EveryoneCanFinish(Step(m, j));
      s := [j] + t;
      assert s[1..] == t;
    } else {
      s := [];
      forall i | 0 <= i < |m.held| ensures m.held[i] == [] {
        assert Ordered(m.held[i], m.progs[i]);
      }
      assert m.flags == {};
    }
  }

  // What each call does with locks, its data-dependent parts as parameters.

  function PmmCall(): seq<Act> {
    [Acquire(PmmLock), Drop(PmmLock)]
  }

  function Repeat(n: nat, t: seq<Act>): seq<Act> {
    if n == 0 then [] else t + Repeat(n - 1, t)
  }

  /** printf: the serial port's lock around every character. */
  function Printf(chars: nat): seq<Act> {
    [Acquire(PrintfLock)] + Repeat(chars, [Acquire(SerialLock), Drop(SerialLock)]) + [Drop(PrintfLock)]
  }

  /** vmmWalk, with one page allocation for each table it has to add. */
  function WalkCall(tables: nat): seq<Act> {
    [Acquire(WalkLock)] + Repeat(tables, PmmCall()) + [Drop(WalkLock)]
  }

  /** slabAllocSlab under the cache's lock, which is then dropped. */
  function AddSlab(cache: nat, chars: nat): seq<Act> {
    [Acquire(CacheLock(cache))] + (PmmCall() + Printf(chars)) + [Drop(CacheLock(cache))]
  }

  /** slabAlloc, trying again after each slab it adds. */
  function SlabAlloc(cache: nat, added: nat, chars: nat): seq<Act> {
    Repeat(added, AddSlab(cache, chars)) + SlabFree(cache)
  }

  function SlabFree(cache: nat): seq<Act> {
    [Acquire(CacheLock(cache)), Drop(CacheLock(cache))]
  }

  /** t can run inside held: it takes only locks above it and puts all of them back. */
  ghost predicate Nests(held: seq<Lock>, t: seq<Act>) {
    forall rest :: Ordered(held, rest) ==> Ordered(held, t + rest)
  }

  lemma NestsInTurn(held: seq<Lock>, t: seq<Act>, u: seq<Act>)
    requires Nests(held, t) && Nests(held, u)
    ensures Nests(held, t + u)
  {
    forall rest | Ordered(held, rest) ensures Ordered(held, t + u + rest) {
      assert t + u + rest == t + (u + rest);
    }
  }

  lemma NestsNothing(held: seq<Lock>)
    ensures Nests(held, [])
  {
    forall rest | Ordered(held, rest) ensures Ordered(held, [] + rest) {
      assert [] + rest == rest;
    }
  }

  lemma {:induction false} NestsRepeated(held: seq<Lock>, n: nat, t: seq<Act>)
    requires Nests(held, t)
    ensures Nests(held, Repeat(n, t))
  {
    if n == 0 {
      NestsNothing(held);
    } else {
      NestsRepeated(held, n - 1, t);
      NestsInTurn(held, t, Repeat(n - 1, t));
    }
  }

  /** A critical section nests wherever its lock ranks above the innermost one held. */
  lemma Bracketed(held: seq<Lock>, l: Lock, body: seq<Act>)
    requires held == [] || Rank(held[|held| - 1]) < Rank(l)
    requires Nests(held + [l], body)
    ensures Nests(held, [Acquire(l)] + body + [Drop(l)])
  {
    var t := [Acquire(l)] + body + [Drop(l)];
    forall rest | Ordered(held, rest) ensures Ordered(held, t + rest) {
      var inner := [Drop(l)] + rest;
      assert (held + [l])[..|held|] == held;
      assert inner[1..] == rest;
      assert Ordered(held + [l], inner);
      assert Ordered(held + [l], body + inner);
      assert (t + rest)[1..] == body + inner;
    }
  }

  lemma ShortBracket(held: seq<Lock>, l: Lock)
    requires held == [] || Rank(held[|held| - 1]) < Rank(l)
    ensures Nests(held, [Acquire(l), Drop(l)])
  {
    NestsNothing(held + [l]);
    Bracketed(held, l, []);
    assert [Acquire(l)] + [] + [Drop(l)] == [Acquire(l), Drop(l)];
  }

  lemma PrintfNests(held: seq<Lock>, chars: nat)
    requires held == [] || Rank(held[|held| - 1]) < 2
    ensures Nests(held, Printf(chars))
  {
    ShortBracket(held + [PrintfLock], SerialLock);
    NestsRepeated(held + [PrintfLock], chars, [Acquire(SerialLock), Drop(SerialLock)]);
    Bracketed(held, PrintfLock, Repeat(chars, [Acquire(SerialLock), Drop(SerialLock)]));
  }

  lemma AddSlabNests(cache: nat, chars: nat)
    ensures Nests([], AddSlab(cache, chars))
  {
    var inside := [CacheLock(cache)];
    assert [] + inside == inside;
    ShortBracket(inside, PmmLock);
    PrintfNests(inside, chars);
    NestsInTurn(inside, PmmCall(), Printf(chars));
    Bracketed([], CacheLock(cache), PmmCall() + Printf(chars));
  }

  /** Calls a CPU may make, one after another. */
  datatype Call =
    | CallPmm
    | CallPrintf(chars: nat)
    | CallWalk(tables: nat)
    | CallSlabAlloc(cache: nat, added: nat, chars: nat)
    | CallSlabFree(cache: nat)

  function ActsOf(c: Call): seq<Act> {
    match c
    case CallPmm => PmmCall()
    case CallPrintf(chars) => Printf(chars)
    case CallWalk(tables) => WalkCall(tables)
    case CallSlabAlloc(cache, added, chars) => SlabAlloc(cache, added, chars)
    case CallSlabFree(cache) => SlabFree(cache)
  }

  function ActsOfAll(calls: seq<Call>): seq<Act> {
    if calls == [] then [] else ActsOf(calls[0]) + ActsOfAll(calls[1..])
  }

  lemma CallNests(c: Call)
    ensures Nests([], ActsOf(c))
  {
    match c {
      case CallPmm => ShortBracket([], PmmLock);
      case CallPrintf(chars) => PrintfNests([], chars);
      case CallWalk(tables) =>
        assert [] + [WalkLock] == [WalkLock];
        ShortBracket([WalkLock], PmmLock);
        NestsRepeated([WalkLock], tables, PmmCall());
        Bracketed([], WalkLock, Repeat(tables, PmmCall()));
      case CallSlabAlloc(cache, added, chars) =>
        AddSlabNests(cache, chars);
        NestsRepeated([], added, AddSlab(cache, chars));
        ShortBracket([], CacheLock(cache));
        NestsInTurn([], Repeat(added, AddSlab(cache, chars)), SlabFree(cache));
      case CallSlabFree(cache) => ShortBracket([], CacheLock(cache));
    }
  }

  lemma {:induction false} CountRepeated(n: nat, t: seq<Act>, a: Act)
    ensures multiset(Repeat(n, t))[a] == n * multiset(t)[a]
  {
    if n > 0 {
      CountRepeated(n - 1, t, a);
      assert multiset(t + Repeat(n - 1, t)) == multiset(t) + multiset(Repeat(n - 1, t));
      assert n * multiset(t)[a] == multiset(t)[a] + (n - 1) * multiset(t)[a];
    }
  }

  lemma CountPrintf(chars: nat, l: Lock)
    ensures multiset(Printf(chars))[Acquire(l)] ==
            if l == PrintfLock then 1 else if l == SerialLock then chars else 0
  {
    hide Repeat;
    var one := [Acquire(SerialLock), Drop(SerialLock)];
    CountRepeated(chars, one, Acquire(l));
    assert multiset(one)[Acquire(SerialLock)] == 1;
    assert multiset(Printf(chars)) ==
           multiset([Acquire(PrintfLock)]) + multiset(Repeat(chars, one)) + multiset([Drop(PrintfLock)]);
  }

  lemma CountAddSlab(cache: nat, chars: nat, l: Lock)
    ensures multiset(AddSlab(cache, chars))[Acquire(l)] ==
            if l == CacheLock(cache) || l == PmmLock || l == PrintfLock then 1 else if l == SerialLock then chars else 0
  {
    hide Printf;
    CountPrintf(chars, l);
    assert multiset(AddSlab(cache, chars)) ==
           multiset([Acquire(CacheLock(cache))]) + multiset(PmmCall()) + multiset(Printf(chars))
           + multiset([Drop(CacheLock(cache))]);
  }

  /** How often each call takes each lock. */
  lemma AcquiresAre(c: Call, l: Lock)
    ensures multiset(ActsOf(c))[Acquire(l)] ==
            match c
            case CallPmm => (if l == PmmLock then 1 else 0)
            case CallPrintf(chars) => (if l == PrintfLock then 1 else if l == SerialLock then chars else 0)
            case CallWalk(tables) => (if l == WalkLock then 1 else if l == PmmLock then tables else 0)
            case CallSlabAlloc(cache, added, chars) =>
              (if l == CacheLock(cache) then added + 1 else if l == PmmLock || l == PrintfLock then added
               else if l == SerialLock then added * chars else 0)
            case CallSlabFree(cache) => (if l == CacheLock(cache) then 1 else 0)
  {
    match c {
      case CallPmm =>
      case CallPrintf(chars) => CountPrintf(chars, l);
      case CallWalk(tables) => CountWalk(tables, l);
      case CallSlabAlloc(cache, added, chars) => CountSlabAlloc(cache, added, chars, l);
      case CallSlabFree(cache) =>
    }
  }

  lemma CountWalk(tables: nat, l: Lock)
    ensures multiset(WalkCall(tables))[Acquire(l)] == if l == WalkLock then 1 else if l == PmmLock then tables else 0
  {
    hide Repeat;
    CountRepeated(tables, PmmCall(), Acquire(l));
    assert multiset(PmmCall())[Acquire(l)] == if l == PmmLock then 1 else 0;
    assert multiset(WalkCall(tables)) ==
           multiset([Acquire(WalkLock)]) + multiset(Repeat(tables, PmmCall())) + multiset([Drop(WalkLock)]);
  }

  lemma CountSlabAlloc(cache: nat, added: nat, chars: nat, l: Lock)
    ensures multiset(SlabAlloc(cache, added, chars))[Acquire(l)] ==
            if l == CacheLock(cache) then added + 1 else if l == PmmLock || l == PrintfLock then added
            else if l == SerialLock then added * chars else 0
  {
    hide Repeat, AddSlab;
    CountAddSlab(cache, chars, l);
    CountRepeated(added, AddSlab(cache, chars), Acquire(l));
    assert multiset(SlabFree(cache))[Acquire(l)] == if l == CacheLock(cache) then 1 else 0;
    assert multiset(SlabAlloc(cache, added, chars)) ==
           multiset(Repeat(added, AddSlab(cache, chars))) + multiset(SlabFree(cache));
  }

  /** And in what order: a walk that adds two tables, a slabAlloc that adds a slab and logs one character. */
  lemma OrderOfActs()
    ensures ActsOf(CallWalk(2)) ==
            [Acquire(WalkLock), Acquire(PmmLock), Drop(PmmLock), Acquire(PmmLock), Drop(PmmLock), Drop(WalkLock)]
    ensures ActsOf(CallSlabAlloc(0, 1, 1)) ==
            [Acquire(CacheLock(0)), Acquire(PmmLock), Drop(PmmLock),
             Acquire(PrintfLock), Acquire(SerialLock), Drop(SerialLock), Drop(PrintfLock), Drop(CacheLock(0)),
             Acquire(CacheLock(0)), Drop(CacheLock(0))]
  {
    assert Repeat(2, PmmCall()) == PmmCall() + (PmmCall() + []);
    assert Repeat(1, [Acquire(SerialLock), Drop(SerialLock)]) == [Acquire(SerialLock), Drop(SerialLock)] + [];
    assert Repeat(1, AddSlab(0, 1)) == AddSlab(0, 1) + [];
  }

  lemma {:induction false} CallsAreOrdered(calls: seq<Call>)
    ensures Ordered([], ActsOfAll(calls))
  {
    if calls != [] {
      CallsAreOrdered(calls[1..]);
      CallNests(calls[0]);
    }
  }

  /** N CPUs, each with any list of calls: whatever the interleaving, all can always run to completion. */
  lemma KernelCallsNeverDeadlock(calls: seq<seq<Call>>, s: seq<nat>) returns (t: seq<nat>)
    requires Schedule(s, |calls|)
    ensures var acts := seq(|calls|, i requires 0 <= i < |calls| => ActsOfAll(calls[i]));
            var start := Machine(seq(|calls|, _ => []), acts, {});
            && Inv(Run(start, s))
            && |Run(start, s).progs| == |calls| && Schedule(t, |calls|)
            && Run(Run(start, s), t).flags == {}
            && forall i :: 0 <= i < |calls| ==> Run(Run(start, s), t).progs[i] == []
  {
    var start := Machine(seq(|calls|, _ => []), seq(|calls|, i requires 0 <= i < |calls| => ActsOfAll(calls[i])), {});
    forall i | 0 <= i < |calls| ensures Ordered(start.held[i], start.progs[i]) {
      CallsAreOrdered(calls[i]);
    }
    assert Inv(start);
    EveryRunKeepsInv(start, s);
    t := EveryoneCanFinish(Run(start, s));
  }
}
