/** The exit-handler tables of ntl/rtl/crt.cpp: slots reserved by an atomic
    fetch-and-add, filled by a separate store, and walked backwards at exit. */
module ExitTable {
  import opened Common

  /** A handler's address; 0 is the null pointer. */
  type Handler = nat

  const EXIT_LIST_MAX: nat := 1024 * 4
  /** A backward walk over `count` slots meets neither the end of the table nor a null pointer. */
  predicate WalkIsSafe(table: seq<Handler>, count: nat) {
    count <= |table| && forall k :: 0 <= k < count ==> table[k] != 0
  }

  // ---------------------------------------------------------------- onexit from many threads

  /** A call of onexit: not begun, holding a slot number, or returned. */
  datatype Phase = Before | Reserved(slot: nat) | Returned(slot: nat) | Refused

  /** `order` records which call got each slot number. */
  datatype State = State(count: nat, table: seq<Handler>, phases: seq<Phase>, order: seq<nat>)

  function Start(n: nat): State {
    State(0, seq(EXIT_LIST_MAX, _ => 0), seq(n, _ => Before), [])
  }

  /** Call c, registering funcs[c], takes its next atomic step. */
  function Step(funcs: seq<Handler>, s: State, c: nat): State
    requires c < |funcs| == |s.phases|
  {
    match s.phases[c]
    case Before =>
      if funcs[c] == 0 then s.(phases := s.phases[c := Refused])
      else s.(count := (s.count + 1) % UINT_SIZE,
              phases := s.phases[c := Reserved(s.count)],
              order := s.order + [c])
    case Reserved(k) =>
      var t := if k < |s.table| then s.table[k := funcs[c]] else s.table;
      s.(table := t, phases := s.phases[c := Returned(k)])
    case _ => s
  }

  function Run(funcs: seq<Handler>, s: State, trace: seq<nat>): State
    requires |funcs| == |s.phases|
    requires forall c :: c in trace ==> c < |funcs|
    decreases |trace|
  {
    if trace == [] then s
    else
      assert trace[0] in trace && forall c :: c in trace[1..] ==> c in trace;
      Run(funcs, Step(funcs, s, trace[0]), trace[1..])
  }

  predicate HasSlot(p: Phase) { p.Reserved? || p.Returned? }

  ghost predicate Inv(funcs: seq<Handler>, s: State) {
    && |s.phases| == |funcs| && |s.table| == EXIT_LIST_MAX
    && s.count == |s.order|
    // the calls holding slot numbers are exactly the recorded ones, each with its own number
    && (forall k :: 0 <= k < |s.order| ==>
          && s.order[k] < |funcs| && funcs[s.order[k]] != 0
          && HasSlot(s.phases[s.order[k]]) && s.phases[s.order[k]].slot == k)
    && (forall c :: 0 <= c < |funcs| && HasSlot(s.phases[c]) ==>
          s.phases[c].slot < |s.order| && s.order[s.phases[c].slot] == c)
    && (forall c :: 0 <= c < |funcs| && s.phases[c].Refused? ==> funcs[c] == 0)
    // a slot holds the handler of its call once that has returned, and is null until then
    && (forall k :: 0 <= k < EXIT_LIST_MAX ==>
          s.table[k] == if k < |s.order| && s.phases[s.order[k]].Returned? then funcs[s.order[k]] else 0)
  }

  lemma {:induction false} OrderFits(funcs: seq<Handler>, s: State)
    requires Inv(funcs, s)
    ensures |s.order| <= |funcs|
    ensures forall i, j :: 0 <= i < j < |s.order| ==> s.order[i] != s.order[j]
  {
    DistinctCount(s.order, |funcs|);
  }

  lemma {:induction false} DistinctCount(s: seq<nat>, n: nat)
    requires forall i :: 0 <= i < |s| ==> s[i] < n
    requires forall i, j :: 0 <= i < j < |s| ==> s[i] != s[j]
    ensures |s| <= n
    decreases n
  {
    if s != [] {
      assert s[0] < n;
      if n - 1 in s {
        var k :| 0 <= k < |s| && s[k] == n - 1;
        DistinctCount(s[..k] + s[k + 1..], n - 1);
      } else {
        DistinctCount(s, n - 1);
      }
    }
  }

  lemma StepKeepsInv(funcs: seq<Handler>, s: State, c: nat)
    requires |funcs| < UINT_SIZE && Inv(funcs, s) && c < |funcs|
    ensures Inv(funcs, Step(funcs, s, c))
  {
    if s.phases[c].Reserved? {
      StoreKeepsInv(funcs, s, c);
    } else if s.phases[c].Before? && funcs[c] != 0 {
      ReserveKeepsInv(funcs, s, c);
    }
  }

  lemma StoreKeepsInv(funcs: seq<Handler>, s: State, c: nat)
    requires Inv(funcs, s) && c < |funcs| && s.phases[c].Reserved?
    ensures Inv(funcs, Step(funcs, s, c))
  {
    assert s.order[s.phases[c].slot] == c;
  }

  lemma ReserveKeepsInv(funcs: seq<Handler>, s: State, c: nat)
    requires |funcs| < UINT_SIZE && Inv(funcs, s) && c < |funcs| && s.phases[c].Before? && funcs[c] != 0
    ensures Inv(funcs, Step(funcs, s, c))
  {
    OrderGrows(funcs, s, c);
    assert (s.count + 1) % UINT_SIZE == s.count + 1;
    assert forall k :: 0 <= k < |s.order| ==> s.order[k] != c;
  }

  /** Every call's number is new: the counter has not come round to it. */
  lemma OrderGrows(funcs: seq<Handler>, s: State, c: nat)
    requires |funcs| < UINT_SIZE && Inv(funcs, s) && c < |funcs| && s.phases[c].Before? && funcs[c] != 0
    ensures |s.order| < |funcs|
  {
    OrderFits(funcs, s);
    forall k | 0 <= k < |s.order|
      ensures s.order[k] != c
    {
    }
    DistinctCount(s.order + [c], |funcs|);
  }

  lemma {:induction false} RunKeepsInv(funcs: seq<Handler>, s: State, trace: seq<nat>)
    requires |funcs| < UINT_SIZE && Inv(funcs, s)
    requires forall c :: c in trace ==> c < |funcs|
    ensures Inv(funcs, Run(funcs, s, trace))
    decreases |trace|
  {
    if trace != [] {
      assert trace[0] in trace && forall c :: c in trace[1..] ==> c in trace;
      StepKeepsInv(funcs, s, trace[0]);
      RunKeepsInv(funcs, Step(funcs, s, trace[0]), trace[1..]);
    }
  }

  /** Under any interleaving no two calls share a slot. */
  lemma NoSharedSlot(funcs: seq<Handler>, trace: seq<nat>, c: nat, d: nat)
    requires |funcs| < UINT_SIZE && c < d < |funcs|
    requires forall x :: x in trace ==> x < |funcs|
    ensures var s := Run(funcs, Start(|funcs|), trace);
            && |s.phases| == |funcs|
            && (HasSlot(s.phases[c]) && HasSlot(s.phases[d]) ==> s.phases[c].slot != s.phases[d].slot)
  {
    RunKeepsInv(funcs, Start(|funcs|), trace);
  }

  ghost predicate AllFinished(s: State) {
    forall c :: 0 <= c < |s.phases| ==> s.phases[c].Returned? || s.phases[c].Refused?
  }

  /** At any moment of any run the exit walk is safe exactly when the table has
      not overflowed and no call is between its reservation and its store. */
  lemma WalkSafety(funcs: seq<Handler>, trace: seq<nat>)
    requires |funcs| < UINT_SIZE && forall c :: c in trace ==> c < |funcs|
    ensures var s := Run(funcs, Start(|funcs|), trace);
            WalkIsSafe(s.table, s.count) <==>
              s.count <= EXIT_LIST_MAX && forall c :: 0 <= c < |s.phases| ==> !s.phases[c].Reserved?
  {
    RunKeepsInv(funcs, Start(|funcs|), trace);
    var s := Run(funcs, Start(|funcs|), trace);
    forall c | 0 <= c < |s.phases| && s.phases[c].Reserved? && s.count <= EXIT_LIST_MAX
      ensures s.phases[c].slot < s.count && s.table[s.phases[c].slot] == 0
    {
    }
  }

  /** `ran` calls the handler of every call with a non-null one, once each, in
      the reverse of the order in which the slots were reserved. */
  ghost predicate RanEachOnce(funcs: seq<Handler>, order: seq<nat>, ran: seq<Handler>) {
    && |ran| == |order|
    && (forall i, j :: 0 <= i < j < |order| ==> order[i] != order[j])
    && (forall c :: 0 <= c < |funcs| ==> (c in order <==> funcs[c] != 0))
    && (forall k :: 0 <= k < |order| ==> order[k] < |funcs| && ran[|order| - 1 - k] == funcs[order[k]])
  }

  lemma FinishedTable(funcs: seq<Handler>, s: State)
    requires Inv(funcs, s) && AllFinished(s) && s.count <= EXIT_LIST_MAX
    ensures RanEachOnce(funcs, s.order, Reverse(s.table[..s.count]))
  {
    OrderFits(funcs, s);
    forall c | 0 <= c < |funcs|
      ensures c in s.order <==> funcs[c] != 0
    {
      if HasSlot(s.phases[c]) {
        assert s.order[s.phases[c].slot] == c;
      }
    }
    forall k | 0 <= k < |s.order|
      ensures Reverse(s.table[..s.count])[|s.order| - 1 - k] == funcs[s.order[k]]
    {
      assert s.phases[s.order[k]].Returned?;
    }
  }

  /** The calls that want a slot. */
  function Registering(funcs: seq<Handler>): set<nat> { set c: nat | c < |funcs| && funcs[c] != 0 }

  lemma {:induction false} DistinctSize(s: seq<nat>, elements: set<nat>)
    requires forall i, j :: 0 <= i < j < |s| ==> s[i] != s[j]
    requires forall x :: x in s <==> x in elements
    ensures |elements| == |s|
  {
    if s == [] {
      assert elements == {};
    } else {
      forall x
        ensures x in s[1..] <==> x in elements - {s[0]}
      {
        assert x in s <==> x == s[0] || x in s[1..];
      }
      DistinctSize(s[1..], elements - {s[0]});
    }
  }

  lemma FinishedCount(funcs: seq<Handler>, s: State)
    requires Inv(funcs, s) && AllFinished(s)
    ensures s.count == |Registering(funcs)|
  {
    OrderFits(funcs, s);
    forall c: nat | c < |funcs|
      ensures c in s.order <==> funcs[c] != 0
    {
      if HasSlot(s.phases[c]) {
        assert s.order[s.phases[c].slot] == c;
      }
    }
    DistinctSize(s.order, Registering(funcs));
  }

  /** For every interleaving of any number of calls below 2^32, once they have all
      finished the exit walk is safe exactly when at most 4096 of them passed a
      handler, and then it runs each of those exactly once, last slot first. */
  lemma EachHandlerOnce(funcs: seq<Handler>, trace: seq<nat>)
    requires |funcs| < UINT_SIZE && forall c :: c in trace ==> c < |funcs|
    requires AllFinished(Run(funcs, Start(|funcs|), trace))
    ensures var s := Run(funcs, Start(|funcs|), trace);
            && (WalkIsSafe(s.table, s.count) <==> |Registering(funcs)| <= 4096)
            && (|Registering(funcs)| <= 4096 ==>
                  RanEachOnce(funcs, s.order, Reverse(s.table[..s.count])))
  {
    RunKeepsInv(funcs, Start(|funcs|), trace);
    var s := Run(funcs, Start(|funcs|), trace);
    FinishedCount(funcs, s);
    WalkSafety(funcs, trace);
    if s.count <= EXIT_LIST_MAX {
      FinishedTable(funcs, s);
    }
  }

  // ---------------------------------------------------------------- calls that do not overlap

  lemma {:induction false} RunConcat(funcs: seq<Handler>, s: State, a: seq<nat>, b: seq<nat>)
    requires |funcs| == |s.phases| && (forall c :: c in a ==> c < |funcs|) && forall c :: c in b ==> c < |funcs|
    ensures |Run(funcs, s, a).phases| == |funcs| && forall c :: c in a + b ==> c < |funcs|
    ensures Run(funcs, s, a + b) == Run(funcs, Run(funcs, s, a), b)
    decreases |a|
  {
    if a == [] {
      assert a + b == b;
    } else {
      assert a[0] in a && (forall c :: c in a[1..] ==> c in a) && (a + b)[1..] == a[1..] + b;
      RunConcat(funcs, Step(funcs, s, a[0]), a[1..], b);
    }
  }

  /** One call after another. */
  function Sequential(n: nat): seq<nat> {
    if n == 0 then [] else Sequential(n - 1) + [n - 1, n - 1]
  }

  lemma {:induction false} SequentialCalls(n: nat)
    ensures forall c :: c in Sequential(n) ==> c < n
  {
    if n > 0 {
      SequentialCalls(n - 1);
    }
  }

  /** After n calls, one after another, the first n have finished, the others have
      not begun, and the slots hold the handlers in the order of the calls. */
  lemma {:induction false} SequentialRun(funcs: seq<Handler>, n: nat)
    requires n <= |funcs| < UINT_SIZE
    ensures forall c :: c in Sequential(n) ==> c < |funcs|
    ensures var s := Run(funcs, Start(|funcs|), Sequential(n));
            && |s.phases| == |funcs|
            && (forall c :: 0 <= c < n ==> s.phases[c].Returned? || s.phases[c].Refused?)
            && (forall c :: n <= c < |funcs| ==> s.phases[c].Before?)
            && (forall i, j :: 0 <= i < j < |s.order| ==> s.order[i] < s.order[j])
            && (forall i :: 0 <= i < |s.order| ==> s.order[i] < n)
  {
    SequentialCalls(n);
    if n > 0 {
      var c := n - 1;
      SequentialCalls(c);
      SequentialRun(funcs, c);
      RunConcat(funcs, Start(|funcs|), Sequential(c), [c, c]);
      TwoSteps(funcs, Run(funcs, Start(|funcs|), Sequential(c)), c);
    }
  }

  lemma TwoSteps(funcs: seq<Handler>, s: State, c: nat)
    requires c < |funcs| == |s.phases|
    ensures Run(funcs, s, [c, c]) == Step(funcs, Step(funcs, s, c), c)
  {
    var next := Step(funcs, s, c);
    assert [c, c][1..] == [c] && [c][1..] == [];
    assert Run(funcs, next, [c]) == Run(funcs, Step(funcs, next, c), []);
    assert Run(funcs, s, [c, c]) == Run(funcs, next, [c]);
  }

  /** So from one thread the exit walk runs the handlers in the reverse order of
      registration, each once, if at most 4096 are not null. */
  lemma SequentialWalk(funcs: seq<Handler>)
    requires |funcs| < UINT_SIZE
    ensures forall c :: c in Sequential(|funcs|) ==> c < |funcs|
    ensures var s := Run(funcs, Start(|funcs|), Sequential(|funcs|));
            && (WalkIsSafe(s.table, s.count) <==> |Registering(funcs)| <= 4096)
            && (forall i, j :: 0 <= i < j < |s.order| ==> s.order[i] < s.order[j])
            && (|Registering(funcs)| <= 4096 ==> RanEachOnce(funcs, s.order, Reverse(s.table[..s.count])))
  {
    SequentialRun(funcs, |funcs|);
    EachHandlerOnce(funcs, Sequential(|funcs|));
  }

  /** Slots are handed out in order, and a call that has returned keeps its own. */
  lemma {:induction false} RunExtendsOrder(funcs: seq<Handler>, s: State, trace: seq<nat>)
    requires |funcs| == |s.phases| && forall c :: c in trace ==> c < |funcs|
    ensures var r := Run(funcs, s, trace);
            && s.order <= r.order && |r.phases| == |s.phases|
            && (forall c :: 0 <= c < |s.phases| && s.phases[c].Returned? ==> r.phases[c] == s.phases[c])
    decreases |trace|
  {
    if trace != [] {
      assert trace[0] in trace && forall c :: c in trace[1..] ==> c in trace;
      RunExtendsOrder(funcs, Step(funcs, s, trace[0]), trace[1..]);
    }
  }

  /** Call c has a smaller slot than d, and the walk runs its handler later. */
  ghost predicate RunsLater(funcs: seq<Handler>, s: State, c: nat, d: nat) {
    && c < |funcs| == |s.phases| && d < |funcs| && |s.table| == EXIT_LIST_MAX
    && s.phases[c].Returned?
    && (HasSlot(s.phases[d]) ==> s.phases[c].slot < s.phases[d].slot < s.count)
    && (s.phases[d].Returned? && s.count <= EXIT_LIST_MAX ==>
          var ran := Reverse(s.table[..s.count]);
          var atC, atD := s.count - 1 - s.phases[c].slot, s.count - 1 - s.phases[d].slot;
          atD < atC && ran[atC] == funcs[c] && ran[atD] == funcs[d])
  }

  /** Whatever other calls do meanwhile, a registration that has returned before
      another begins gets the smaller slot, and its handler runs later. */
  lemma EarlierRunsLater(funcs: seq<Handler>, first: seq<nat>, rest: seq<nat>, c: nat, d: nat)
    requires |funcs| < UINT_SIZE && c < |funcs| && d < |funcs|
    requires (forall x :: x in first ==> x < |funcs|) && forall x :: x in rest ==> x < |funcs|
    requires var s := Run(funcs, Start(|funcs|), first);
             |s.phases| == |funcs| && s.phases[c].Returned? && s.phases[d].Before?
    ensures RunsLater(funcs, Run(funcs, Run(funcs, Start(|funcs|), first), rest), c, d)
  {
    var s := Run(funcs, Start(|funcs|), first);
    RunKeepsInv(funcs, Start(|funcs|), first);
    RunKeepsInv(funcs, s, rest);
    RunExtendsOrder(funcs, s, rest);
    LaterSlot(funcs, s, Run(funcs, s, rest), c, d);
  }

  lemma SlotsGrow(funcs: seq<Handler>, s1: State, s2: State, c: nat, d: nat)
    requires Inv(funcs, s1) && Inv(funcs, s2) && s1.order <= s2.order && c < |funcs| && d < |funcs|
    requires s1.phases[c].Returned? && s1.phases[d].Before? && HasSlot(s2.phases[d])
    ensures s1.phases[c].slot < s2.phases[d].slot < s2.count
  {
    assert s2.order[s2.phases[d].slot] == d;
    assert d !in s1.order && s1.order == s2.order[..|s1.order|];
  }

  /** Where in the walk a registered handler runs. */
  lemma PlaceInWalk(funcs: seq<Handler>, s: State, c: nat)
    requires Inv(funcs, s) && s.count <= EXIT_LIST_MAX && c < |funcs| && s.phases[c].Returned?
    ensures s.phases[c].slot < s.count
    ensures Reverse(s.table[..s.count])[s.count - 1 - s.phases[c].slot] == funcs[c]
  {
    assert s.order[s.phases[c].slot] == c;
  }

  lemma LaterSlot(funcs: seq<Handler>, s1: State, s2: State, c: nat, d: nat)
    requires Inv(funcs, s1) && Inv(funcs, s2) && s1.order <= s2.order && c < |funcs| && d < |funcs|
    requires s1.phases[c].Returned? && s2.phases[c] == s1.phases[c] && s1.phases[d].Before?
    ensures RunsLater(funcs, s2, c, d)
  {
    if HasSlot(s2.phases[d]) {
      SlotsGrow(funcs, s1, s2, c, d);
      if s2.phases[d].Returned? && s2.count <= EXIT_LIST_MAX {
        PlaceInWalk(funcs, s2, c);
        PlaceInWalk(funcs, s2, d);
      }
    }
  }

  // ---------------------------------------------------------------- the tables as one thread uses them

  /** The table after registering `fs` one after another: refused handlers take no slot. */
  function Registered(fs: seq<Handler>): seq<Handler> {
    if fs == [] then []
    else Registered(fs[..|fs| - 1]) + if fs[|fs| - 1] != 0 then [fs[|fs| - 1]] else []
  }

  /** Slot k of the quick-exit table is spent by the k-th call, and stays null
      when that handler is null or was passed before. */
  predicate QuickSlot(fs: seq<Handler>, k: nat, h: Handler)
    requires k < |fs|
  {
    h == if fs[k] != 0 && fs[k] !in fs[..k] then fs[k] else 0
  }

  class ExitTables {
    const exitList: array<Handler>
    var exitCount: nat
    const quickList: array<Handler>
    var quickCount: nat
    /** What has been passed to atexit and to at_quick_exit so far. */
    ghost var atExit: seq<Handler>
    ghost var atQuick: seq<Handler>

    ghost predicate Valid()
      reads this, exitList, quickList
    {
      && exitList != quickList && exitList.Length == quickList.Length == EXIT_LIST_MAX
      && exitCount == |Registered(atExit)| && quickCount == |atQuick|
      && (forall k :: 0 <= k < EXIT_LIST_MAX ==>
            exitList[k] == if k < exitCount then Registered(atExit)[k] else 0)
      && (forall k :: 0 <= k < EXIT_LIST_MAX ==>
            if k < quickCount then QuickSlot(atQuick, k, quickList[k]) else quickList[k] == 0)
    }

    constructor ()
      ensures Valid() && fresh(exitList) && fresh(quickList)
      ensures atExit == [] && atQuick == []
    {
      exitList := new Handler[EXIT_LIST_MAX](_ => 0);
      quickList := new Handler[EXIT_LIST_MAX](_ => 0);
      exitCount, quickCount, atExit, atQuick := 0, 0, [], [];
    }

    method Onexit(func: Handler) returns (r: Handler)
      requires Valid() && exitCount < UINT_SIZE - 1
      modifies this`exitCount, this`atExit, exitList
      ensures Valid() && atExit == old(atExit) + [func]
      ensures r == if old(exitCount) < EXIT_LIST_MAX then func else 0
    {
      r := 0;
      ghost var was := Registered(atExit);
      atExit := atExit + [func];
      assert atExit[..|atExit| - 1] == old(atExit);
      if func != 0 {
        var idx := exitCount;
        exitCount := (exitCount + 1) % UINT_SIZE;
        if idx < exitList.Length {
          exitList[idx] := func;
          r := func;
        }
      }
    }

    method Atexit(func: Handler) returns (r: int)
      requires Valid() && exitCount < UINT_SIZE - 1
      modifies this`exitCount, this`atExit, exitList
      ensures Valid() && atExit == old(atExit) + [func]
      ensures r == if func != 0 && old(exitCount) < EXIT_LIST_MAX then 0 else -1
    {
      var h := Onexit(func);
      r := if h != 0 then 0 else -1;
    }

    method AtQuickExit(f: Handler) returns (r: int)
      requires Valid() && quickCount < UINT_SIZE - 1
      modifies this`quickCount, this`atQuick, quickList
      ensures Valid() && atQuick == old(atQuick) + [f]
      ensures r == if f != 0 && old(quickCount) < EXIT_LIST_MAX then 0 else -1
    {
      var idx := quickCount;
      quickCount := (quickCount + 1) % UINT_SIZE;
      r := -1;
      ghost var was := atQuick;
      atQuick := atQuick + [f];
      assert forall k :: 0 <= k <= |was| ==> atQuick[..k] == was[..k];
      if f != 0 && idx < quickList.Length {
        r := 0;
        // a handler that is in the table already keeps its slot
        var found := InQuickList(f);
        StandsInTable(was, quickList[..idx], f);
        if !found {
          quickList[idx] := f;
        }
      }
    }

    /** The search of at_quick_exit. */
    method InQuickList(f: Handler) returns (found: bool)
      requires quickCount <= quickList.Length
      ensures found <==> exists k :: 0 <= k < quickCount && quickList[k] == f
    {
      var p := 0;
      while p < quickCount
        invariant 0 <= p <= quickCount
        invariant forall k :: 0 <= k < p ==> quickList[k] != f
      {
        if quickList[p] == f {
          return true;
        }
        p := p + 1;
      }
      return false;
    }

    /** doexit over either table: the handlers called, in order. */
    static method Doexit(list: array<Handler>, count: nat) returns (ran: seq<Handler>)
      requires WalkIsSafe(list[..], count)
      ensures ran == Reverse(list[..count])
    {
      ran := [];
      var f := count - 1;
      while f >= 0
        invariant -1 <= f < count
        invariant |ran| == count - 1 - f
        invariant forall i :: 0 <= i < |ran| ==> ran[i] == list[count - 1 - i]
      {
        ran := ran + [list[f]];
        f := f - 1;
      }
    }
  }

  /** A non-null handler passed before is in its first slot. */
  lemma StandsInTable(fs: seq<Handler>, table: seq<Handler>, f: Handler)
    requires f != 0 && |fs| <= |table|
    requires forall k :: 0 <= k < |fs| ==> QuickSlot(fs, k, table[k])
    ensures f in fs <==> exists k :: 0 <= k < |fs| && table[k] == f
  {
    if f in fs {
      var k := FirstIndex(fs, f);
      assert QuickSlot(fs, k, table[k]);
    }
  }

  lemma {:induction false} FirstIndex(fs: seq<Handler>, f: Handler) returns (k: nat)
    requires f in fs
    ensures k < |fs| && fs[k] == f && f !in fs[..k]
  {
    if fs[0] == f {
      k := 0;
    } else {
      k := FirstIndex(fs[1..], f);
      k := k + 1;
      assert fs[..k] == [fs[0]] + fs[1..][..k - 1];
    }
  }

  /** The quick-exit walk is safe exactly when no handler was null or passed twice. */
  lemma QuickWalkSafety(t: ExitTables)
    requires t.Valid()
    ensures WalkIsSafe(t.quickList[..], t.quickCount) <==>
              && |t.atQuick| <= EXIT_LIST_MAX
              && (forall k :: 0 <= k < |t.atQuick| ==> t.atQuick[k] != 0)
              && (forall i, j :: 0 <= i < j < |t.atQuick| ==> t.atQuick[i] != t.atQuick[j])
  {
    var fs := t.atQuick;
    if |fs| <= EXIT_LIST_MAX {
      forall k | 0 <= k < |fs|
        ensures t.quickList[k] != 0 <==> fs[k] != 0 && forall i :: 0 <= i < k ==> fs[i] != fs[k]
      {
        assert QuickSlot(fs, k, t.quickList[k]);
        assert fs[k] in fs[..k] <==> exists i :: 0 <= i < k && fs[..k][i] == fs[k];
      }
      assert |t.quickList[..]| == EXIT_LIST_MAX;
    }
  }

  /** One thread's handlers run in the reverse of the order they were registered
      in, provided they fit. */
  lemma ExitWalkSafety(t: ExitTables)
    requires t.Valid()
    ensures WalkIsSafe(t.exitList[..], t.exitCount) <==> |Registered(t.atExit)| <= EXIT_LIST_MAX
    ensures |Registered(t.atExit)| <= EXIT_LIST_MAX ==> t.exitList[..t.exitCount] == Registered(t.atExit)
  {
    RegisteredNonNull(t.atExit);
  }

  lemma {:induction false} RegisteredNonNull(fs: seq<Handler>)
    ensures forall k :: 0 <= k < |Registered(fs)| ==> Registered(fs)[k] != 0
    ensures (forall k :: 0 <= k < |fs| ==> fs[k] != 0) ==> Registered(fs) == fs
  {
    if fs != [] {
      var init, last := fs[..|fs| - 1], fs[|fs| - 1];
      RegisteredNonNull(init);
      assert Registered(fs) == Registered(init) + if last != 0 then [last] else [];
      assert fs == init + [last];
      assert (forall k :: 0 <= k < |fs| ==> fs[k] != 0) ==> forall k :: 0 <= k < |init| ==> init[k] != 0;
    }
  }
}
