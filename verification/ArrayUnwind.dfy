/** Construction and destruction of arrays of objects under exceptions
    (ntl/rtl/eh.cpp).  A constructor may throw; destructors do not return by an
    exception, since array_unwind_filter terminates the program. */
module ArrayUnwind {

  /** A call of the constructor that returned or threw, or of the destructor, on an address. */
  datatype Event = Constructed(p: int) | Threw(p: int) | Destroyed(p: int)

  function ElementAt(base: int, size: nat, i: nat): int { base + size * i }

  /** The first n elements constructed in order. */
  function Upwards(base: int, size: nat, n: nat): (log: seq<Event>)
    ensures |log| == n
    ensures forall i :: 0 <= i < n ==> log[i] == Constructed(ElementAt(base, size, i))
  {
    seq(n, i requires 0 <= i < n => Constructed(ElementAt(base, size, i)))
  }

  /** The first n elements destroyed from the last to the first. */
  function Downwards(base: int, size: nat, n: nat): seq<Event> {
    if n == 0 then [] else [Destroyed(ElementAt(base, size, n - 1))] + Downwards(base, size, n - 1)
  }

  /** ehvec_count may be a signed int, and nothing is done for a negative one. */
  function Elements(count: int): nat { if count > 0 then count else 0 }

  lemma NextElement(base: int, size: nat, i: nat)
    ensures ElementAt(base, size, 0) == base
    ensures ElementAt(base, size, i + 1) == ElementAt(base, size, i) + size
  {
  }

  /** array_unwind: ptr is one past the last of the constructed elements. */
  method Unwind(ptr: int, size: nat, count: int, ghost base: int) returns (log: seq<Event>)
    requires ptr == ElementAt(base, size, Elements(count))
    ensures log == Downwards(base, size, Elements(count))
  {
    log := [];
    var p, left := ptr, count;
    while left > 0
      invariant p == ElementAt(base, size, Elements(left))
      invariant log + Downwards(base, size, Elements(left)) == Downwards(base, size, Elements(count))
    {
      left := left - 1;
      NextElement(base, size, left);
      p := p - size;
      log := log + [Destroyed(p)];
    }
  }

  /** -static_cast<int>(size): the low 32 bits as a signed number, negated in 32
      bits, where the minimum is its own negation. */
  function IntStep(size: nat): (step: int)
    ensures -0x8000_0000 <= step < 0x8000_0000 && (step + size) % 0x1_0000_0000 == 0
  {
    var low := size % 0x1_0000_0000;
    if low <= 0x8000_0000 then -low else 0x1_0000_0000 - low
  }

  /** n destructor calls, each a step further from p. */
  function Stepping(p: int, step: int, n: nat): seq<Event>
    decreases n
  {
    if n == 0 then [] else [Destroyed(p + step)] + Stepping(p + step, step, n - 1)
  }

  /** __ehvec_dtor.  The step is cut to an int, and leads from element to element
      exactly for sizes up to 2^31. */
  method EhvecDtor(ptr: int, size: nat, count: int) returns (log: seq<Event>)
    ensures log == Stepping(ElementAt(ptr, size, Elements(count)), IntStep(size), Elements(count))
    ensures log == Downwards(ptr, size, Elements(count)) <==> size <= 0x8000_0000 || count <= 0
  {
    log := [];
    var left := count;
    var p := ptr + size * count;
    var ssize := IntStep(size);
    ghost var n := Elements(count);
    ghost var all := Stepping(ElementAt(ptr, size, n), ssize, n);
    while left > 0
      invariant left > 0 || count > 0 ==> left >= 0
      invariant count > 0 ==> log + Stepping(p, ssize, left) == all
      invariant count <= 0 ==> log == []
    {
      left := left - 1;
      p := p + ssize;
      log := log + [Destroyed(p)];
    }
    StepsRight(ptr, size, n);
  }

  lemma {:induction false} StepsDown(base: int, size: nat, n: nat)
    ensures Stepping(ElementAt(base, size, n), -(size as int), n) == Downwards(base, size, n)
  {
    if n > 0 {
      NextElement(base, size, n - 1);
      StepsDown(base, size, n - 1);
    }
  }

  lemma StepIsSize(size: nat)
    ensures IntStep(size) == -(size as int) <==> size <= 0x8000_0000
  {
  }

  lemma StepsRight(base: int, size: nat, n: nat)
    ensures Stepping(ElementAt(base, size, n), IntStep(size), n) == Downwards(base, size, n)
       <==> size <= 0x8000_0000 || n == 0
  {
    StepIsSize(size);
    if IntStep(size) == -(size as int) {
      StepsDown(base, size, n);
    } else if n > 0 {
      WrongStep(base, size, IntStep(size), n);
    }
  }

  lemma WrongStep(base: int, size: nat, step: int, n: nat)
    requires step != -(size as int) && n > 0
    ensures Stepping(ElementAt(base, size, n), step, n) != Downwards(base, size, n)
  {
    NextElement(base, size, n - 1);
    assert Stepping(ElementAt(base, size, n), step, n)[0] == Destroyed(ElementAt(base, size, n) + step);
    assert Downwards(base, size, n)[0] == Destroyed(ElementAt(base, size, n - 1));
  }

  /** __ehvec_ctor when constructor number throwAt throws (none does if that is
      not below count); the exception goes on to the caller. */
  method EhvecCtor(ptr: int, size: nat, count: int, throwAt: nat) returns (log: seq<Event>, thrown: bool)
    ensures thrown <==> throwAt < count
    ensures !thrown ==> log == Upwards(ptr, size, Elements(count))
    ensures thrown ==> log == Upwards(ptr, size, throwAt) + [Threw(ElementAt(ptr, size, throwAt))]
                              + Downwards(ptr, size, throwAt)
  {
    log := [];
    var p, i := ptr, 0;
    var success := false;
    while i < count
      invariant 0 <= i <= Elements(count) && i <= throwAt
      invariant p == ElementAt(ptr, size, i) && log == Upwards(ptr, size, i)
    {
      if i == throwAt {
        break;
      }
      log := log + [Constructed(p)];
      NextElement(ptr, size, i);
      p := p + size;
      i := i + 1;
    }
    success := !(i < count);
    thrown := !success;
    if !success {
      log := log + [Threw(p)];
      var unwound := Unwind(p, size, i, ptr);
      log := log + unwound;
    }
  }

  // ---------------------------------------------------------------- what is alive

  /** Destroying needs a live object, constructing a dead one. */
  predicate Proper(live: set<int>, log: seq<Event>)
    decreases |log|
  {
    log == [] ||
    match log[0]
    case Constructed(p) => p !in live && Proper(live + {p}, log[1..])
    case Threw(p) => p !in live && Proper(live, log[1..])
    case Destroyed(p) => p in live && Proper(live - {p}, log[1..])
  }

  function Live(live: set<int>, log: seq<Event>): set<int>
    decreases |log|
  {
    if log == [] then live
    else match log[0]
      case Constructed(p) => Live(live + {p}, log[1..])
      case Threw(p) => Live(live, log[1..])
      case Destroyed(p) => Live(live - {p}, log[1..])
  }

  function Places(base: int, size: nat, n: nat): set<int> {
    set i | 0 <= i < n :: ElementAt(base, size, i)
  }

  lemma DistinctPlaces(base: int, size: nat, i: nat, j: nat)
    requires size > 0 && i < j
    ensures ElementAt(base, size, i) < ElementAt(base, size, j)
  {
    assert size * i < size * j;
  }

  lemma PlacesGrow(base: int, size: nat, n: nat)
    requires size > 0
    ensures ElementAt(base, size, n) !in Places(base, size, n)
    ensures Places(base, size, n + 1) == Places(base, size, n) + {ElementAt(base, size, n)}
  {
    forall i | 0 <= i < n
      ensures ElementAt(base, size, i) != ElementAt(base, size, n)
    {
      DistinctPlaces(base, size, i, n);
    }
  }

  lemma {:induction false} ConcatLive(live: set<int>, a: seq<Event>, b: seq<Event>)
    ensures Proper(live, a + b) <==> Proper(live, a) && Proper(Live(live, a), b)
    ensures Live(live, a + b) == Live(Live(live, a), b)
    decreases |a|
  {
    if a == [] {
      assert a + b == b;
    } else {
      assert (a + b)[1..] == a[1..] + b;
      var l := match a[0] case Constructed(p) => live + {p} case Threw(p) => live case Destroyed(p) => live - {p};
      ConcatLive(l, a[1..], b);
    }
  }

  lemma {:induction false} UpwardsLive(base: int, size: nat, n: nat)
    requires size > 0
    ensures Proper({}, Upwards(base, size, n)) && Live({}, Upwards(base, size, n)) == Places(base, size, n)
  {
    if n > 0 {
      var last := Constructed(ElementAt(base, size, n - 1));
      assert Upwards(base, size, n) == Upwards(base, size, n - 1) + [last];
      UpwardsLive(base, size, n - 1);
      ConcatLive({}, Upwards(base, size, n - 1), [last]);
      PlacesGrow(base, size, n - 1);
      assert [last][1..] == [];
    }
  }

  lemma {:induction false} DownwardsLive(base: int, size: nat, n: nat)
    requires size > 0
    ensures Proper(Places(base, size, n), Downwards(base, size, n))
    ensures Live(Places(base, size, n), Downwards(base, size, n)) == {}
  {
    if n > 0 {
      PlacesGrow(base, size, n - 1);
      assert Places(base, size, n) - {ElementAt(base, size, n - 1)} == Places(base, size, n - 1);
      DownwardsLive(base, size, n - 1);
    }
  }

  /** Every element is constructed and destroyed at most once, and only live ones
      are destroyed: none is left after a throw at any position, nor after
      destroying an array that was constructed. */
  lemma NothingStaysAlive(base: int, size: nat, n: nat)
    requires size > 0
    ensures Proper({}, Upwards(base, size, n) + [Threw(ElementAt(base, size, n))] + Downwards(base, size, n))
    ensures Live({}, Upwards(base, size, n) + [Threw(ElementAt(base, size, n))] + Downwards(base, size, n)) == {}
    ensures Proper({}, Upwards(base, size, n) + Downwards(base, size, n))
    ensures Live({}, Upwards(base, size, n) + Downwards(base, size, n)) == {}
  {
    var up, threw := Upwards(base, size, n), [Threw(ElementAt(base, size, n))];
    UpwardsLive(base, size, n);
    DownwardsLive(base, size, n);
    PlacesGrow(base, size, n);
    ConcatLive({}, up, Downwards(base, size, n));
    ConcatLive({}, up, threw);
    assert threw[1..] == [];
    ConcatLive({}, up + threw, Downwards(base, size, n));
  }
}
