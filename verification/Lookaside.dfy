/** npaged_lookaside_list (ntl/km/lookaside_list.hxx) used by any number of
    threads: `allocate` and `free` cut into their atomic steps, interleaved in
    any order.  The interlocked list operations and the pool calls are one step
    each; the test of the depth and the push that follows it are two. */
module Lookaside {
  import opened Common

  type Entry = nat

  /** Where a thread is: outside both calls, or at a step of one of them. */
  datatype Thread =
    | Idle
    | Popping                      // allocate: about to pop
    | Missed                       // allocate: the list was empty
    | Checking(entry: Entry)       // free: about to compare the depths
    | Pushing(entry: Entry)        // free: the list was below its depth
    | Dropping(entry: Entry)       // free: the list was full

  /** `live` is what the pool's Allocate gave out and its Free has not got back. */
  datatype State = State(list: seq<Entry>, threads: seq<Thread>, held: seq<set<Entry>>, live: set<Entry>)

  datatype Event =
    | CallAllocate
    | Pop
    | PoolAllocate(got: Option<Entry>)
    | CallFree(entry: Entry)
    | Check
    | Push
    | PoolFree

  ghost predicate WellFormed(s: State) { |s.held| == |s.threads| }

  /** What thread t may do next.  A thread frees only what it holds, and the
      pool hands out nothing that is still live. */
  predicate Enabled(s: State, t: nat, e: Event) {
    && t < |s.threads| == |s.held|
    && match e
       case CallAllocate => s.threads[t].Idle?
       case Pop => s.threads[t].Popping?
       case PoolAllocate(got) => s.threads[t].Missed? && (got.Some? ==> got.value !in s.live)
       case CallFree(x) => s.threads[t].Idle? && x in s.held[t]
       case Check => s.threads[t].Checking?
       case Push => s.threads[t].Pushing?
       case PoolFree => s.threads[t].Dropping?
  }

  function Goto(s: State, t: nat, p: Thread): State
    requires t < |s.threads|
  {
    s.(threads := s.threads[t := p])
  }

  function Hold(s: State, t: nat, x: Entry): State
    requires t < |s.held|
  {
    s.(held := s.held[t := s.held[t] + {x}])
  }

  /** One step; `depth` is the constant Depth. */
  function Apply(s: State, depth: nat, t: nat, e: Event): State
    requires Enabled(s, t, e)
  {
    match e
    case CallAllocate => Goto(s, t, Popping)
    case Pop =>
      if s.list == [] then Goto(s, t, Missed)
      else Hold(Goto(s.(list := s.list[1..]), t, Idle), t, s.list[0])
    case PoolAllocate(got) =>
      if got.None? then Goto(s, t, Idle)
      else Hold(Goto(s.(live := s.live + {got.value}), t, Idle), t, got.value)
    case CallFree(x) => Goto(s.(held := s.held[t := s.held[t] - {x}]), t, Checking(x))
    case Check =>
      var x := s.threads[t].entry;
      Goto(s, t, if |s.list| < depth then Pushing(x) else Dropping(x))
    case Push => Goto(s.(list := [s.threads[t].entry] + s.list), t, Idle)
    case PoolFree => Goto(s.(live := s.live - {s.threads[t].entry}), t, Idle)
  }

  // ---------------------------------------------------------------- runs

  function Start(n: nat): State {
    State([], seq(n, _ => Idle), seq(n, _ => {}), {})
  }

  type Trace = seq<(nat, Event)>

  /** Every event of the trace is enabled when its turn comes. */
  predicate Runs(s: State, depth: nat, trace: Trace)
    decreases |trace|
  {
    trace == [] ||
    (Enabled(s, trace[0].0, trace[0].1) && Runs(Apply(s, depth, trace[0].0, trace[0].1), depth, trace[1..]))
  }

  function Exec(s: State, depth: nat, trace: Trace): State
    requires Runs(s, depth, trace)
    decreases |trace|
  {
    if trace == [] then s else Exec(Apply(s, depth, trace[0].0, trace[0].1), depth, trace[1..])
  }

  // ---------------------------------------------------------------- the invariant

  function InList(list: seq<Entry>, x: Entry): nat {
    if list == [] then 0 else (if list[0] == x then 1 else 0) + InList(list[1..], x)
  }

  function Holders(held: seq<set<Entry>>, x: Entry): nat {
    if held == [] then 0 else (if x in held[0] then 1 else 0) + Holders(held[1..], x)
  }

  /** A thread carries an entry through `free` from the call to the push or the pool. */
  predicate Carries(p: Thread, x: Entry) {
    (p.Checking? || p.Pushing? || p.Dropping?) && p.entry == x
  }

  function Carriers(threads: seq<Thread>, x: Entry): nat {
    if threads == [] then 0 else (if Carries(threads[0], x) then 1 else 0) + Carriers(threads[1..], x)
  }

  /** The number of threads that saw room and have not pushed yet. */
  function PendingPushes(threads: seq<Thread>): nat {
    if threads == [] then 0 else (if threads[0].Pushing? then 1 else 0) + PendingPushes(threads[1..])
  }

  /** In how many places an entry is: on the list, with a client, in transit. */
  function Places(s: State, x: Entry): nat {
    InList(s.list, x) + Holders(s.held, x) + Carriers(s.threads, x)
  }

  /** Every live entry is in exactly one place and no other entry is anywhere. */
  ghost predicate OnePlace(s: State) {
    forall x :: Places(s, x) == if x in s.live then 1 else 0
  }

  ghost predicate Inv(s: State, depth: nat) {
    && WellFormed(s)
    && OnePlace(s)
    && |s.list| + PendingPushes(s.threads) < depth + |s.threads|
  }

  lemma {:induction false} HoldersUpdate(held: seq<set<Entry>>, t: nat, h: set<Entry>, x: Entry)
    requires t < |held|
    ensures Holders(held[t := h], x) + (if x in held[t] then 1 else 0)
         == Holders(held, x) + if x in h then 1 else 0
    ensures x in held[t] ==> Holders(held, x) >= 1
  {
    if t == 0 {
      assert held[t := h][1..] == held[1..];
    } else {
      assert held[t := h][1..] == held[1..][t - 1 := h];
      HoldersUpdate(held[1..], t - 1, h, x);
    }
  }

  lemma {:induction false} CarriersUpdate(threads: seq<Thread>, t: nat, p: Thread, x: Entry)
    requires t < |threads|
    ensures Carriers(threads[t := p], x) + (if Carries(threads[t], x) then 1 else 0)
         == Carriers(threads, x) + if Carries(p, x) then 1 else 0
    ensures Carries(threads[t], x) ==> Carriers(threads, x) >= 1
  {
    if t == 0 {
      assert threads[t := p][1..] == threads[1..];
    } else {
      assert threads[t := p][1..] == threads[1..][t - 1 := p];
      CarriersUpdate(threads[1..], t - 1, p, x);
    }
  }

  lemma {:induction false} PendingUpdate(threads: seq<Thread>, t: nat, p: Thread)
    requires t < |threads|
    ensures PendingPushes(threads[t := p]) + (if threads[t].Pushing? then 1 else 0)
         == PendingPushes(threads) + if p.Pushing? then 1 else 0
    ensures PendingPushes(threads) <= |threads|
  {
    if t == 0 {
      assert threads[t := p][1..] == threads[1..];
      if |threads| > 1 {
        PendingUpdate(threads[1..], 0, p);
      }
    } else {
      assert threads[t := p][1..] == threads[1..][t - 1 := p];
      PendingUpdate(threads[1..], t - 1, p);
    }
  }

  /** A step moves at most the one entry it is about. */
  lemma StepKeepsPlaces(s: State, depth: nat, t: nat, e: Event)
    requires WellFormed(s) && OnePlace(s) && Enabled(s, t, e)
    ensures OnePlace(Apply(s, depth, t, e))
  {
    var s' := Apply(s, depth, t, e);
    assert s'.threads == s.threads[t := s'.threads[t]];
    assert s'.held == s.held[t := s'.held[t]];
    forall x
      ensures Places(s', x) == if x in s'.live then 1 else 0
    {
      assert Places(s, x) == if x in s.live then 1 else 0;
      CarriersUpdate(s.threads, t, s'.threads[t], x);
      HoldersUpdate(s.held, t, s'.held[t], x);
    }
  }

  /** A thread that saw room counts against the bound before it pushes. */
  lemma StepKeepsDepth(s: State, depth: nat, t: nat, e: Event)
    requires |s.list| + PendingPushes(s.threads) < depth + |s.threads| && Enabled(s, t, e)
    ensures var s' := Apply(s, depth, t, e);
            |s'.list| + PendingPushes(s'.threads) < depth + |s'.threads|
  {
    var s' := Apply(s, depth, t, e);
    assert s'.threads == s.threads[t := s'.threads[t]];
    PendingUpdate(s.threads, t, s'.threads[t]);
    PendingUpdate(s'.threads, t, s.threads[t]);
  }

  lemma {:induction false} RunKeepsInv(s: State, depth: nat, trace: Trace)
    requires Inv(s, depth) && Runs(s, depth, trace)
    ensures Inv(Exec(s, depth, trace), depth) && |Exec(s, depth, trace).threads| == |s.threads|
    decreases |trace|
  {
    if trace != [] {
      StepKeepsPlaces(s, depth, trace[0].0, trace[0].1);
      StepKeepsDepth(s, depth, trace[0].0, trace[0].1);
      RunKeepsInv(Apply(s, depth, trace[0].0, trace[0].1), depth, trace[1..]);
    }
  }

  lemma {:induction false} NothingAtStart(n: nat, x: Entry)
    ensures Holders(Start(n).held, x) == 0 && Carriers(Start(n).threads, x) == 0
    ensures PendingPushes(Start(n).threads) == 0
  {
    if n > 0 {
      assert Start(n).threads[1..] == Start(n - 1).threads;
      assert Start(n).held[1..] == Start(n - 1).held;
      NothingAtStart(n - 1, x);
    }
  }

  lemma StartHoldsInv(n: nat, depth: nat)
    requires depth + n > 0
    ensures Inv(Start(n), depth)
  {
    NothingAtStart(n, 0);
    forall x
      ensures Places(Start(n), x) == 0
    {
      NothingAtStart(n, x);
    }
  }

  /** The property of every run of n threads: each live entry is in exactly one
      place, and the list is at most n - 1 longer than its depth. */
  lemma AllRuns(n: nat, depth: nat, trace: Trace)
    requires depth + n > 0 && Runs(Start(n), depth, trace)
    ensures OnePlace(Exec(Start(n), depth, trace))
    ensures |Exec(Start(n), depth, trace).list| <= depth + n - 1
  {
    StartHoldsInv(n, depth);
    RunKeepsInv(Start(n), depth, trace);
  }

  // ---------------------------------------------------------------- what one place means to the threads

  lemma {:induction false} TwoHolders(held: seq<set<Entry>>, i: nat, j: nat, x: Entry)
    requires i < j < |held| && x in held[i] && x in held[j]
    ensures Holders(held, x) >= 2
  {
    if i == 0 {
      HoldersUpdate(held[1..], j - 1, {}, x);
    } else {
      TwoHolders(held[1..], i - 1, j - 1, x);
    }
  }

  lemma {:induction false} InListCount(list: seq<Entry>, x: Entry)
    ensures x in list ==> InList(list, x) >= 1
    ensures x !in list ==> InList(list, x) == 0
    ensures forall i, j :: 0 <= i < j < |list| && list[i] == x && list[j] == x ==> InList(list, x) >= 2
  {
    if list != [] {
      InListCount(list[1..], x);
      forall i, j | 0 <= i < j < |list| && list[i] == x && list[j] == x
        ensures InList(list, x) >= 2
      {
        assert list[1..][j - 1] == x;
        if i > 0 {
          assert list[1..][i - 1] == x;
        }
      }
    }
  }

  /** No entry has two owners: what a thread holds no other thread holds, frees
      or can pop, and the list has no entry twice. */
  lemma OneOwner(s: State, i: nat, x: Entry)
    requires WellFormed(s) && OnePlace(s) && i < |s.threads| && x in s.held[i]
    ensures forall j :: 0 <= j < |s.threads| && j != i ==> x !in s.held[j]
    ensures forall j :: 0 <= j < |s.threads| ==> !Carries(s.threads[j], x)
    ensures x !in s.list
  {
    assert Places(s, x) <= 1;
    HoldersUpdate(s.held, i, {}, x);
    InListCount(s.list, x);
    forall j | 0 <= j < |s.threads|
      ensures j != i ==> x !in s.held[j]
      ensures !Carries(s.threads[j], x)
    {
      CarriersUpdate(s.threads, j, Idle, x);
      if j != i && x in s.held[j] {
        TwoHolders(s.held, if i < j then i else j, if i < j then j else i, x);
      }
    }
  }

  lemma ListIsDistinct(s: State)
    requires OnePlace(s)
    ensures forall i, j :: 0 <= i < j < |s.list| ==> s.list[i] != s.list[j]
  {
    forall i, j | 0 <= i < j < |s.list|
      ensures s.list[i] != s.list[j]
    {
      assert Places(s, s.list[i]) <= 1;
      InListCount(s.list, s.list[i]);
    }
  }

  // ---------------------------------------------------------------- the bound is exact

  lemma {:induction false} Extend(s: State, depth: nat, trace: Trace, t: nat, e: Event)
    requires Runs(s, depth, trace) && Enabled(Exec(s, depth, trace), t, e)
    ensures Runs(s, depth, trace + [(t, e)])
    ensures Exec(s, depth, trace + [(t, e)]) == Apply(Exec(s, depth, trace), depth, t, e)
    decreases |trace|
  {
    if trace == [] {
      assert (trace + [(t, e)])[1..] == [];
    } else {
      assert (trace + [(t, e)])[1..] == trace[1..] + [(t, e)];
      Extend(Apply(s, depth, trace[0].0, trace[0].1), depth, trace[1..], t, e);
    }
  }

  lemma Take(n: nat, depth: nat, trace: Trace, s: State, t: nat, e: Event) returns (trace': Trace, s': State)
    requires Runs(Start(n), depth, trace) && s == Exec(Start(n), depth, trace) && Enabled(s, t, e)
    ensures Runs(Start(n), depth, trace') && s' == Exec(Start(n), depth, trace')
    ensures s' == Apply(s, depth, t, e)
  {
    Extend(Start(n), depth, trace, t, e);
    trace', s' := trace + [(t, e)], Apply(s, depth, t, e);
  }

  lemma Unused(live: set<Entry>) returns (x: Entry)
    ensures x !in live
  {
    x := 0;
    var rest := live;
    while rest != {}
      invariant forall y :: y in live ==> y in rest || y < x
      decreases rest
    {
      var y :| y in rest;
      rest := rest - {y};
      x := if y < x then x else y + 1;
    }
  }

  /** Thread t gets a new entry from the pool while the list is empty. */
  lemma Obtain(n: nat, depth: nat, trace: Trace, s: State, t: nat) returns (trace': Trace, s': State, x: Entry)
    requires Runs(Start(n), depth, trace) && s == Exec(Start(n), depth, trace)
    requires t < |s.threads| == |s.held| && s.threads[t].Idle? && s.list == []
    ensures Runs(Start(n), depth, trace') && s' == Exec(Start(n), depth, trace')
    ensures x !in s.live && s' == s.(held := s.held[t := s.held[t] + {x}], live := s.live + {x})
  {
    trace', s' := Take(n, depth, trace, s, t, CallAllocate);
    trace', s' := Take(n, depth, trace', s', t, Pop);
    x := Unused(s.live);
    trace', s' := Take(n, depth, trace', s', t, PoolAllocate(Some(x)));
    assert s'.threads == s.threads;
  }

  /** Thread t calls free and finds room, but does not push yet. */
  lemma FindRoom(n: nat, depth: nat, trace: Trace, s: State, t: nat, x: Entry) returns (trace': Trace, s': State)
    requires Runs(Start(n), depth, trace) && s == Exec(Start(n), depth, trace)
    requires t < |s.threads| == |s.held| && s.threads[t].Idle? && x in s.held[t] && |s.list| < depth
    ensures Runs(Start(n), depth, trace') && s' == Exec(Start(n), depth, trace')
    ensures s' == s.(held := s.held[t := s.held[t] - {x}], threads := s.threads[t := Pushing(x)])
  {
    trace', s' := Take(n, depth, trace, s, t, CallFree(x));
    trace', s' := Take(n, depth, trace', s', t, Check);
  }

  ghost predicate Stalled(n: nat, s: State, t: nat) {
    && |s.threads| == |s.held| == n
    && forall j :: 0 <= j < n ==> if 1 <= j < t then s.threads[j].Pushing? else s.threads[j].Idle?
  }

  /** All threads but the first see an empty list and stop before they push. */
  lemma StallOthers(n: nat, depth: nat) returns (trace: Trace, s: State)
    requires n >= 1 && depth >= 1
    ensures Runs(Start(n), depth, trace) && s == Exec(Start(n), depth, trace)
    ensures Stalled(n, s, n) && s.list == [] && s.held[0] == {}
  {
    trace, s := [], Start(n);
    var t := 1;
    while t < n
      invariant 1 <= t <= n && Runs(Start(n), depth, trace) && s == Exec(Start(n), depth, trace)
      invariant Stalled(n, s, t) && s.list == [] && s.held[0] == {}
    {
      var x;
      trace, s, x := Obtain(n, depth, trace, s, t);
      trace, s := FindRoom(n, depth, trace, s, t, x);
      t := t + 1;
    }
  }

  /** Thread 0 gets as many entries as the list has depth while the others wait to push. */
  lemma HoldMany(n: nat, depth: nat) returns (trace: Trace, s: State)
    requires n >= 1 && depth >= 1
    ensures Runs(Start(n), depth, trace) && s == Exec(Start(n), depth, trace)
    ensures Stalled(n, s, n) && s.list == [] && |s.held[0]| == depth
  {
    trace, s := StallOthers(n, depth);
    var k := 0;
    while k < depth
      invariant 0 <= k <= depth && Runs(Start(n), depth, trace) && s == Exec(Start(n), depth, trace)
      invariant Stalled(n, s, n) && s.list == [] && s.held[0] <= s.live && |s.held[0]| == k
    {
      var x;
      trace, s, x := Obtain(n, depth, trace, s, 0);
      k := k + 1;
    }
  }

  /** The first thread then fills the list to its depth. */
  lemma FillToDepth(n: nat, depth: nat) returns (trace: Trace, s: State)
    requires n >= 1 && depth >= 1
    ensures Runs(Start(n), depth, trace) && s == Exec(Start(n), depth, trace)
    ensures Stalled(n, s, n) && |s.list| == depth
  {
    trace, s := HoldMany(n, depth);
    var k := depth;
    while k > 0
      invariant 0 <= k <= depth && Runs(Start(n), depth, trace) && s == Exec(Start(n), depth, trace)
      invariant Stalled(n, s, n) && |s.list| == depth - k && |s.held[0]| == k
    {
      var x :| x in s.held[0];
      trace, s := FindRoom(n, depth, trace, s, 0, x);
      trace, s := Take(n, depth, trace, s, 0, Push);
      k := k - 1;
    }
  }

  /** The bound of AllRuns is reached: the stalled threads push on top of a full list. */
  lemma BoundIsReached(n: nat, depth: nat) returns (trace: Trace)
    requires n >= 1 && depth >= 1
    ensures Runs(Start(n), depth, trace) && |Exec(Start(n), depth, trace).list| == depth + n - 1
  {
    var s;
    trace, s := FillToDepth(n, depth);
    var t := 1;
    while t < n
      invariant 1 <= t <= n && Runs(Start(n), depth, trace) && s == Exec(Start(n), depth, trace)
      invariant |s.threads| == |s.held| == n && |s.list| == depth + t - 1
      invariant forall j :: t <= j < n ==> s.threads[j].Pushing?
    {
      trace, s := Take(n, depth, trace, s, t, Push);
      t := t + 1;
    }
  }

  // ---------------------------------------------------------------- the two methods, uninterrupted

  /** The steps of a call of allocate that no other thread interrupts. */
  function AllocateAlone(list: seq<Entry>, t: nat, fromPool: Option<Entry>): Trace {
    [(t, CallAllocate), (t, Pop)] + if list == [] then [(t, PoolAllocate(fromPool))] else []
  }

  function FreeAlone(list: seq<Entry>, depth: nat, t: nat, x: Entry): Trace {
    [(t, CallFree(x)), (t, Check), (t, if |list| < depth then Push else PoolFree)]
  }

  class LookasideList {
    const depth: nat
    var list: seq<Entry>
    var TotalAllocates: nat
    var AllocateMisses: nat
    var TotalFrees: nat
    var FreeMisses: nat

    constructor (depth: nat)
      ensures this.depth == depth && list == []
      ensures TotalAllocates == AllocateMisses == TotalFrees == FreeMisses == 0
    {
      this.depth, list := depth, [];
      TotalAllocates, AllocateMisses, TotalFrees, FreeMisses := 0, 0, 0, 0;
    }

    /** `fromPool` is what the pool's Allocate returns if it is asked. */
    method Allocate(fromPool: Option<Entry>, ghost s: State, ghost t: nat) returns (entry: Option<Entry>)
      requires s.list == list && Enabled(s, t, CallAllocate)
      requires fromPool.Some? ==> fromPool.value !in s.live
      modifies this
      ensures Runs(s, depth, AllocateAlone(s.list, t, fromPool))
      ensures var s' := Exec(s, depth, AllocateAlone(s.list, t, fromPool));
              && list == s'.list && s'.threads == s.threads
              && s'.held == (if entry.Some? then s.held[t := s.held[t] + {entry.value}] else s.held)
              && s'.live == (if s.list == [] && entry.Some? then s.live + {entry.value} else s.live)
      ensures entry == if s.list == [] then fromPool else Some(s.list[0])
      ensures TotalAllocates == (old(TotalAllocates) + 1) % UINT_SIZE
      ensures AllocateMisses == (if s.list == [] then (old(AllocateMisses) + 1) % UINT_SIZE else old(AllocateMisses))
      ensures TotalFrees == old(TotalFrees) && FreeMisses == old(FreeMisses)
    {
      TotalAllocates := (TotalAllocates + 1) % UINT_SIZE;
      ghost var trace := AllocateAlone(list, t, fromPool);
      ghost var s1 := Apply(s, depth, t, CallAllocate);
      ghost var s2 := Apply(s1, depth, t, Pop);
      Extend(s, depth, [], t, CallAllocate);
      Extend(s, depth, [(t, CallAllocate)], t, Pop);
      assert [(t, CallAllocate)] + [(t, Pop)] == [(t, CallAllocate), (t, Pop)];
      assert s2.list == [] || s2.threads == s.threads;
      if list == [] {
        AllocateMisses := (AllocateMisses + 1) % UINT_SIZE;
        entry := fromPool;
        Extend(s, depth, [(t, CallAllocate), (t, Pop)], t, PoolAllocate(fromPool));
        assert Exec(s, depth, trace).threads == s.threads;
      } else {
        entry, list := Some(list[0]), list[1..];
        assert trace == [(t, CallAllocate), (t, Pop)];
        assert Exec(s, depth, trace).threads == s.threads;
      }
    }

    /** Gives the entry back to the list, or to the pool when the list is full. */
    method Free(entry: Entry, ghost s: State, ghost t: nat) returns (toPool: bool)
      requires s.list == list && Enabled(s, t, CallFree(entry))
      modifies this
      ensures Runs(s, depth, FreeAlone(s.list, depth, t, entry))
      ensures var s' := Exec(s, depth, FreeAlone(s.list, depth, t, entry));
              && list == s'.list && s'.threads == s.threads
              && s'.held == s.held[t := s.held[t] - {entry}]
              && s'.live == if toPool then s.live - {entry} else s.live
      ensures toPool <==> |s.list| >= depth
      ensures list == if toPool then s.list else [entry] + s.list
      ensures TotalFrees == (old(TotalFrees) + 1) % UINT_SIZE
      ensures FreeMisses == (if toPool then (old(FreeMisses) + 1) % UINT_SIZE else old(FreeMisses))
      ensures TotalAllocates == old(TotalAllocates) && AllocateMisses == old(AllocateMisses)
    {
      TotalFrees := (TotalFrees + 1) % UINT_SIZE;
      ghost var last := if |list| < depth then Push else PoolFree;
      Extend(s, depth, [], t, CallFree(entry));
      Extend(s, depth, [(t, CallFree(entry))], t, Check);
      Extend(s, depth, [(t, CallFree(entry)), (t, Check)], t, last);
      assert [] + [(t, CallFree(entry))] == [(t, CallFree(entry))];
      assert [(t, CallFree(entry))] + [(t, Check)] == [(t, CallFree(entry)), (t, Check)];
      assert [(t, CallFree(entry)), (t, Check)] + [(t, last)] == FreeAlone(list, depth, t, entry);
      assert Exec(s, depth, FreeAlone(list, depth, t, entry)).threads == s.threads;
      toPool := |list| >= depth;
      if !toPool {
        list := [entry] + list;
      } else {
        FreeMisses := (FreeMisses + 1) % UINT_SIZE;
      }
    }
  }
}
