/** An I/O request packet sent down a stack of attached devices
    (ntl/km/irp.hxx, ntl/km/driver_object.hxx, ntl/km/device_object.hxx). */
module DeviceStack {
  import opened Common

  newtype int8 = x: int | -128 <= x < 128

  /** io_completion_routine_t*, its context and the control flags; 0 is null. */
  datatype Completion = Completion(routine: int, context: int, control: int)

  datatype IoStackLocation = IoStackLocation(request: int, device: Device?, completion: Completion)

  /** What a driver does with a request it passes on: it either gives the lower
      driver its own location, or fills the next one, with a completion routine
      or leaving whatever routine the location has. */
  datatype Action = Skip | Fill(request: int, completion: Option<Completion>)

  // ---------------------------------------------------------------- the packet

  class Irp {
    const slots: array<IoStackLocation>
    const StackCount: int8
    var CurrentLocation: int8
    /** Tail.Overlay.CurrentStackLocation, as an index of slots. */
    var CurrentStackLocation: int

    ghost predicate Valid() {
      1 <= StackCount < 127 && slots.Length == StackCount as int
    }

    /** The counter and the pointer name the same location, or the one past the end. */
    ghost predicate Lockstep()
      reads this
    {
      1 <= CurrentLocation as int <= StackCount as int + 1 && CurrentStackLocation == CurrentLocation as int - 1
    }

    constructor (stackSize: int8)
      requires 1 <= stackSize < 127
      ensures Valid() && Lockstep() && fresh(slots)
      ensures StackCount == stackSize && CurrentLocation == stackSize + 1
    {
      StackCount := stackSize;
      CurrentLocation := stackSize + 1;
      CurrentStackLocation := stackSize as int;
      slots := new IoStackLocation[stackSize as int](_ => IoStackLocation(0, null, Completion(0, 0, 0)));
    }

    method SkipCurrentStackLocation()
      requires Valid() && Lockstep() && CurrentLocation <= StackCount
      modifies this
      ensures Lockstep() && CurrentLocation == old(CurrentLocation) + 1
    {
      CurrentLocation := CurrentLocation + 1;
      CurrentStackLocation := CurrentStackLocation + 1;
    }

    method SetNextStackLocation()
      requires Valid() && Lockstep() && CurrentLocation > 1
      modifies this
      ensures Lockstep() && CurrentLocation == old(CurrentLocation) - 1
    {
      CurrentLocation := CurrentLocation - 1;
      CurrentStackLocation := CurrentStackLocation - 1;
    }

    /** Writes the next location; a null routine clears the context and the flags. */
    method SetCompletionRoutine(c: Completion)
      requires Valid() && Lockstep() && CurrentLocation > 1
      modifies slots
      ensures slots[..] == old(slots[..])[CurrentStackLocation - 1 :=
                old(slots[CurrentStackLocation - 1]).(completion := Stored(c))]
      ensures var stored := slots[CurrentStackLocation - 1].completion;
              && stored.routine == c.routine
              && stored.context == (if c.routine == 0 then 0 else c.context)
              && stored.control == (if c.routine == 0 then 0 else c.control)
    {
      var next := CurrentStackLocation - 1;
      slots[next] := slots[next].(completion :=
        if c.routine != 0 then c else Completion(0, 0, 0));
    }

    /** A driver's or the sender's own code: the request of the next location
        and, if wanted, a completion routine for it. */
    method FillNextStackLocation(a: Action)
      requires Valid() && Lockstep() && CurrentLocation > 1 && a.Fill?
      modifies slots
      ensures slots[..] == old(slots[..])[CurrentStackLocation - 1 := Filled(old(slots[CurrentStackLocation - 1]), a)]
    {
      var next := CurrentStackLocation - 1;
      slots[next] := slots[next].(request := a.request);
      if a.completion.Some? {
        SetCompletionRoutine(a.completion.value);
      }
    }

    /** What a driver does to the packet before it calls the lower driver. */
    method PassOn(a: Action)
      requires Valid() && Lockstep() && (if a.Skip? then CurrentLocation <= StackCount else CurrentLocation > 1)
      modifies this, slots
      ensures Lockstep() && CurrentLocation as int == Lower(old(CurrentLocation) as int, a) + 1
      ensures slots[..] == if a.Skip? then old(slots[..])
                           else old(slots[..])[CurrentStackLocation - 1 := Filled(old(slots[..])[CurrentStackLocation - 1], a)]
    {
      match a {
        case Skip =>
          SkipCurrentStackLocation();
        case Fill(_, _) =>
          FillNextStackLocation(a);
      }
    }
  }

  /** Without a routine neither the context nor the flags are kept, and with one all are. */
  function Stored(c: Completion): (s: Completion)
    ensures s.routine == c.routine
    ensures c.routine != 0 ==> s == c
    ensures c.routine == 0 ==> s.context == 0 && s.control == 0
  {
    if c.routine == 0 then Completion(0, 0, 0) else c
  }

  /** A device stack from the top down; AttachedDevice leads up and AttachedTo down. */
  ghost predicate IsStack(stack: seq<Device>)
    reads stack
  {
    && |stack| > 0
    && stack[0].AttachedDevice == null && stack[|stack| - 1].AttachedTo == null
    && (forall i :: 0 <= i < |stack| - 1 ==> stack[i].AttachedTo == stack[i + 1])
    && (forall i :: 0 < i < |stack| ==> stack[i].AttachedDevice == stack[i - 1])
  }

  // ---------------------------------------------------------------- a whole run, on values

  function Fills(plan: seq<Action>): nat {
    if plan == [] then 0 else (if plan[0].Fill? then 1 else 0) + Fills(plan[1..])
  }

  /** The next location as a driver leaves it when it fills it. */
  function Filled(slot: IoStackLocation, a: Action): IoStackLocation
    requires a.Fill?
  {
    slot.(request := a.request,
          completion := if a.completion.Some? then Stored(a.completion.value) else slot.completion)
  }

  /** The location the next lower driver gets. */
  function Lower(at: int, a: Action): int { if a.Skip? then at else at - 1 }

  /** The locations when that driver is called. */
  function Handed(slots: seq<IoStackLocation>, at: int, device: Device, a: Action): (r: seq<IoStackLocation>)
    requires 1 <= Lower(at, a) <= |slots|
    ensures |r| == |slots|
  {
    var n := Lower(at, a);
    var slot := if a.Skip? then slots[n - 1] else Filled(slots[n - 1], a);
    slots[n - 1 := slot.(device := device)]
  }

  /** call() completes what the driver above has done to the locations. */
  lemma CalledWith(was: seq<IoStackLocation>, mid: seq<IoStackLocation>, at: int, device: Device, a: Action)
    requires 1 <= Lower(at, a) <= |was|
    requires var n := Lower(at, a); mid == if a.Skip? then was else was[n - 1 := Filled(was[n - 1], a)]
    ensures var n := Lower(at, a); mid[n - 1 := mid[n - 1].(device := device)] == Handed(was, at, device, a)
  {
  }

  /** The run from location `at` has a location for everything that is filled. */
  predicate Fits(slots: seq<IoStackLocation>, at: int, below: seq<Device>, plan: seq<Action>) {
    && |plan| <= |below|
    && 1 <= at - Fills(plan)
    && (if plan == [] then at - 1 else Lower(at, plan[0])) <= |slots|
  }

  /** The stack locations after the driver at location `at` and those of
      `below` have carried out `plan`, one action each. */
  function After(slots: seq<IoStackLocation>, at: int, below: seq<Device>, plan: seq<Action>): (r: seq<IoStackLocation>)
    requires Fits(slots, at, below, plan)
    ensures |r| == |slots|
    decreases |plan|
  {
    if plan == [] then slots
    else After(Handed(slots, at, below[0], plan[0]), Lower(at, plan[0]), below[1..], plan[1..])
  }

  /** One call of a driver's dispatch routine: the device and where the packet stood. */
  datatype Visit = Visit(device: Device, location: int, pointer: int)

  /** The locations at which the driver at `at` and those of `below` are called. */
  function Visits(at: int, device: Device, below: seq<Device>, plan: seq<Action>): seq<Visit>
    requires |plan| <= |below|
    decreases |plan|
  {
    [Visit(device, at, at - 1)] +
    if plan == [] then []
    else Visits(Lower(at, plan[0]), below[0], below[1..], plan[1..])
  }

  // ---------------------------------------------------------------- what every run keeps

  lemma {:induction false} FillsOfPrefix(plan: seq<Action>, i: nat)
    requires i <= |plan|
    ensures Fills(plan[..i]) <= Fills(plan) <= |plan|
    ensures i < |plan| ==> Fills(plan[..i + 1]) == Fills(plan[..i]) + if plan[i].Fill? then 1 else 0
  {
    if i == 0 {
      if plan != [] {
        assert plan[..1][1..] == [];
        FillsOfPrefix(plan[1..], 0);
      }
    } else {
      assert plan[..i][1..] == plan[1..][..i - 1];
      FillsOfPrefix(plan[1..], i - 1);
      if i < |plan| {
        assert plan[..i + 1][1..] == plan[1..][..i];
      }
    }
  }

  /** The i-th driver called is the i-th device down, at the start less one
      location for every driver before it that filled one. */
  lemma {:induction false} VisitAt(at: int, device: Device, below: seq<Device>, plan: seq<Action>, i: nat)
    requires i <= |plan| <= |below|
    ensures |Visits(at, device, below, plan)| == |plan| + 1
    ensures var v := Visits(at, device, below, plan)[i];
            && v.location == at - Fills(plan[..i]) && v.pointer == v.location - 1
            && v.device == ([device] + below)[i]
    decreases |plan|
  {
    if plan != [] {
      var n := if plan[0].Skip? then at else at - 1;
      VisitAt(n, below[0], below[1..], plan[1..], if i > 0 then i - 1 else 0);
      if i > 0 {
        assert plan[..i][1..] == plan[1..][..i - 1];
      }
    }
  }

  /** A driver that skips hands down its own location, one that fills hands down the next. */
  lemma NextVisit(at: int, device: Device, below: seq<Device>, plan: seq<Action>, i: nat)
    requires i < |plan| <= |below|
    ensures |Visits(at, device, below, plan)| == |plan| + 1
    ensures var log := Visits(at, device, below, plan);
            log[i + 1].location == if plan[i].Skip? then log[i].location else log[i].location - 1
  {
    VisitAt(at, device, below, plan, i);
    VisitAt(at, device, below, plan, i + 1);
    FillsOfPrefix(plan, i);
  }

  /** A packet stays within its locations exactly when fewer drivers fill one than there are. */
  lemma StaysWithin(stackCount: nat, device: Device, below: seq<Device>, plan: seq<Action>)
    requires |plan| <= |below|
    ensures (forall v :: v in Visits(stackCount, device, below, plan) ==> 1 <= v.location <= stackCount)
       <==> Fills(plan) < stackCount
  {
    var log := Visits(stackCount, device, below, plan);
    VisitAt(stackCount, device, below, plan, |plan|);
    assert plan[..|plan|] == plan;
    assert log[|plan|] in log;
    forall v | v in log
      ensures stackCount - Fills(plan) <= v.location <= stackCount
    {
      var i :| 0 <= i < |log| && log[i] == v;
      VisitAt(stackCount, device, below, plan, i);
      FillsOfPrefix(plan, i);
    }
  }

  lemma VisitStep(at: int, device: Device, below: seq<Device>, plan: seq<Action>, i: nat)
    requires 0 < i <= |plan| <= |below|
    ensures |Visits(at, device, below, plan)| == |plan| + 1
    ensures |Visits(Lower(at, plan[0]), below[0], below[1..], plan[1..])| == |plan|
    ensures Visits(at, device, below, plan)[i] == Visits(Lower(at, plan[0]), below[0], below[1..], plan[1..])[i - 1]
  {
    VisitAt(at, device, below, plan, i);
    VisitAt(Lower(at, plan[0]), below[0], below[1..], plan[1..], i - 1);
  }

  /** Drivers from location `at` down change nothing above it, and of `at` itself only the device. */
  lemma {:induction false} AboveIsKept(slots: seq<IoStackLocation>, at: int, below: seq<Device>, plan: seq<Action>, k: int)
    requires Fits(slots, at, below, plan) && at <= k <= |slots|
    ensures After(slots, at, below, plan)[k - 1] ==
            if k > at || plan == [] || plan[0].Fill? then slots[k - 1]
            else slots[k - 1].(device := After(slots, at, below, plan)[k - 1].device)
    decreases |plan|
  {
    if plan != [] {
      AboveIsKept(Handed(slots, at, below[0], plan[0]), Lower(at, plan[0]), below[1..], plan[1..], k);
    }
  }

  /** What is in a location once driver i has filled it. */
  predicate HoldsFill(slots: seq<IoStackLocation>, was: seq<IoStackLocation>, l: int, a: Action) {
    && a.Fill? && 1 <= l <= |slots| == |was|
    && slots[l - 1].request == a.request
    && slots[l - 1].completion ==
         if a.completion.Some? then Stored(a.completion.value) else was[l - 1].completion
  }

  /** What driver i put into the location it filled is still there when the run
      ends: no driver below it overwrites the request or the completion routine. */
  lemma {:induction false} CompletionIsKept(
    slots: seq<IoStackLocation>, at: int, device: Device, below: seq<Device>, plan: seq<Action>, i: nat)
    requires Fits(slots, at, below, plan) && i < |plan| && plan[i].Fill?
    ensures |Visits(at, device, below, plan)| == |plan| + 1
    ensures HoldsFill(After(slots, at, below, plan), slots, Visits(at, device, below, plan)[i + 1].location, plan[i])
    decreases |plan|
  {
    var n := Lower(at, plan[0]);
    var next := Handed(slots, at, below[0], plan[0]);
    VisitStep(at, device, below, plan, i + 1);
    if i == 0 {
      VisitAt(n, below[0], below[1..], plan[1..], 0);
      AboveIsKept(next, n, below[1..], plan[1..], n);
    } else {
      LaterFillIsLower(n, below[0], below[1..], plan[1..], i - 1);
      CompletionIsKept(next, n, below[0], below[1..], plan[1..], i - 1);
    }
  }

  /** A driver that fills one fills a location below the one where the run began. */
  lemma LaterFillIsLower(at: int, device: Device, below: seq<Device>, plan: seq<Action>, i: nat)
    requires i < |plan| <= |below| && plan[i].Fill?
    ensures |Visits(at, device, below, plan)| == |plan| + 1
    ensures Visits(at, device, below, plan)[i + 1].location < at
  {
    VisitAt(at, device, below, plan, i + 1);
    FillsOfPrefix(plan, i);
  }

  /** A location ends up naming the lowest device that was called with it. */
  lemma {:induction false} LowestDeviceIsNamed(
    slots: seq<IoStackLocation>, at: int, device: Device, below: seq<Device>, plan: seq<Action>, i: nat)
    requires Fits(slots, at, below, plan) && at <= |slots| && i <= |plan|
    requires slots[at - 1].device == device
    requires i == |plan| || plan[i].Fill?
    ensures |Visits(at, device, below, plan)| == |plan| + 1
    ensures var v := Visits(at, device, below, plan)[i];
            1 <= v.location <= |slots| && After(slots, at, below, plan)[v.location - 1].device == v.device
    decreases |plan|
  {
    if i == 0 {
      VisitAt(at, device, below, plan, 0);
      AboveIsKept(slots, at, below, plan, at);
    } else {
      VisitStep(at, device, below, plan, i);
      LowestDeviceIsNamed(Handed(slots, at, below[0], plan[0]), Lower(at, plan[0]),
                          below[0], below[1..], plan[1..], i - 1);
    }
  }

  // ---------------------------------------------------------------- devices

  class Device {
    var AttachedDevice: Device?
    /** DeviceObjectExtension->AttachedTo, null also when there is no extension. */
    var AttachedTo: Device?

    constructor ()
      ensures AttachedDevice == null && AttachedTo == null && IsStack([this])
    {
      AttachedDevice, AttachedTo := null, null;
    }

    method GetAttachedDevice(ghost stack: seq<Device>, ghost k: nat) returns (pdo: Device)
      requires IsStack(stack) && k < |stack| && stack[k] == this
      ensures pdo == stack[0]
    {
      pdo := this;
      ghost var i := k;
      while pdo.AttachedDevice != null
        invariant 0 <= i < |stack| && pdo == stack[i]
        invariant pdo.AttachedDevice == if i > 0 then stack[i - 1] else null
        decreases i
      {
        pdo := pdo.AttachedDevice;
        i := i - 1;
      }
    }

    method GetRootDevice(ghost stack: seq<Device>, ghost k: nat) returns (pdo: Device)
      requires IsStack(stack) && k < |stack| && stack[k] == this
      ensures pdo == stack[|stack| - 1]
    {
      pdo := this;
      ghost var i := k;
      while pdo.AttachedTo != null
        invariant 0 <= i < |stack| && pdo == stack[i]
        invariant pdo.AttachedTo == if i + 1 < |stack| then stack[i + 1] else null
        decreases |stack| - i
      {
        pdo := pdo.AttachedTo;
        i := i + 1;
      }
    }

    /** device_object::call, with the run of drivers it starts. */
    method Call(irp: Irp, plan: seq<Action>, ghost stack: seq<Device>, ghost d: nat) returns (ghost log: seq<Visit>)
      requires IsStack(stack) && d < |stack| && stack[d] == this && d + |plan| < |stack|
      requires irp.Valid() && irp.Lockstep() && 1 <= irp.CurrentLocation as int - 1 - Fills(plan)
      modifies irp, irp.slots
      ensures irp.Lockstep()
      ensures irp.CurrentLocation as int == old(irp.CurrentLocation) as int - 1 - Fills(plan)
      ensures var n := old(irp.CurrentLocation) as int - 1; var s := old(irp.slots[..]);
              && irp.slots[..] == After(s[n - 1 := s[n - 1].(device := this)], n, stack[d + 1..], plan)
              && log == Visits(n, this, stack[d + 1..], plan)
      decreases |plan|, 1
    {
      irp.SetNextStackLocation();
      var at := irp.CurrentStackLocation;
      irp.slots[at] := irp.slots[at].(device := this);
      log := Dispatch(irp, plan, stack, d);
    }

    /** DriverObject->MajorFunction: the driver's own action, then the lower device. */
    method Dispatch(irp: Irp, plan: seq<Action>, ghost stack: seq<Device>, ghost d: nat) returns (ghost log: seq<Visit>)
      requires IsStack(stack) && d < |stack| && stack[d] == this && d + |plan| < |stack|
      requires irp.Valid() && irp.Lockstep() && irp.CurrentLocation <= irp.StackCount
      requires 1 <= irp.CurrentLocation as int - Fills(plan)
      modifies irp, irp.slots
      ensures irp.Lockstep()
      ensures irp.CurrentLocation as int == old(irp.CurrentLocation) as int - Fills(plan)
      ensures var n := old(irp.CurrentLocation) as int;
              && irp.slots[..] == After(old(irp.slots[..]), n, stack[d + 1..], plan)
              && log == Visits(n, this, stack[d + 1..], plan)
      decreases |plan|, 0
    {
      log := [Visit(this, irp.CurrentLocation as int, irp.CurrentStackLocation)];
      if plan != [] {
        var lower := AttachedTo;
        assert lower == stack[d + 1];
        assert stack[d + 1..][1..] == stack[d + 2..];
        irp.PassOn(plan[0]);
        CalledWith(old(irp.slots[..]), irp.slots[..], old(irp.CurrentLocation) as int, lower, plan[0]);
        ghost var rest := lower.Call(irp, plan[1..], stack, d + 1);
        log := log + rest;
      }
    }
  }

  /** The sender fills the first location and calls the top of the stack that
      `pdo` belongs to.  On a stack no higher than the packet has locations, any
      mix of skipping and filling drivers keeps it within them. */
  method Send(pdo: Device, irp: Irp, first: Action, plan: seq<Action>, ghost stack: seq<Device>, ghost k: nat)
    returns (ghost log: seq<Visit>)
    requires IsStack(stack) && k < |stack| && stack[k] == pdo
    requires irp.Valid() && irp.Lockstep() && irp.CurrentLocation == irp.StackCount + 1
    requires first.Fill? && |plan| < |stack| <= irp.StackCount as int
    modifies irp, irp.slots
    ensures Fills([first] + plan) <= irp.slots.Length
    ensures irp.Lockstep()
    ensures irp.slots[..] == After(old(irp.slots[..]), irp.slots.Length + 1, stack, [first] + plan)
    ensures log == Visits(irp.slots.Length, stack[0], stack[1..], plan)
    ensures forall v :: v in log ==> 1 <= v.location <= irp.slots.Length && v.pointer == v.location - 1
  {
    var top := pdo.GetAttachedDevice(stack, k);
    ghost var was := irp.slots[..];
    ghost var n := irp.slots.Length;
    assert ([first] + plan)[1..] == plan;
    FillsOfPrefix(plan, 0);
    irp.FillNextStackLocation(first);
    CalledWith(was, irp.slots[..], n + 1, top, first);
    log := top.Call(irp, plan, stack, 0);
    StaysWithin(n, stack[0], stack[1..], plan);
    forall i | 0 <= i < |log|
      ensures log[i].pointer == log[i].location - 1
    {
      VisitAt(n, stack[0], stack[1..], plan, 0);
      VisitAt(n, stack[0], stack[1..], plan, i);
    }
  }
}
