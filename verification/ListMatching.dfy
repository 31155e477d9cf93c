/** The erase-while-iterating loop of filter_boot_drivers
    (samples/zenadriver/src/driver.cpp), for any comparison of names that
    compares keys: it computes the difference of two lists class by class. */
module ListMatching {
  import opened Common
  import opened FileNames

  /** The key a name is compared by on one side, None if it equals nothing there. */
  type KeyOf = Name -> Option<Name>

  ghost predicate ComparesKeys(same: (Name, Name) -> bool, kb: KeyOf, kw: KeyOf) {
    forall b, w :: same(b, w) <==> kb(b).Some? && kb(b) == kw(w)
  }

  /** How many names of the list have key k. */
  function Count(f: KeyOf, s: seq<Name>, k: Name): nat {
    if s == [] then 0 else (if f(s[0]) == Some(k) then 1 else 0) + Count(f, s[1..], k)
  }

  function Without<T>(s: seq<T>, i: nat): seq<T>
    requires i < |s|
  {
    s[..i] + s[i + 1..]
  }

  lemma {:induction false} CountConcat(f: KeyOf, s: seq<Name>, t: seq<Name>, k: Name)
    ensures Count(f, s + t, k) == Count(f, s, k) + Count(f, t, k)
  {
    if s == [] {
      assert s + t == t;
    } else {
      assert (s + t)[1..] == s[1..] + t;
      CountConcat(f, s[1..], t, k);
    }
  }

  lemma CountWithout(f: KeyOf, s: seq<Name>, i: nat, k: Name)
    requires i < |s|
    ensures Count(f, Without(s, i), k) + (if f(s[i]) == Some(k) then 1 else 0) == Count(f, s, k)
  {
    assert s == s[..i] + ([s[i]] + s[i + 1..]);
    CountConcat(f, s[..i], [s[i]] + s[i + 1..], k);
    CountConcat(f, s[..i], s[i + 1..], k);
  }

  lemma {:induction false} CountWitness(f: KeyOf, s: seq<Name>, k: Name)
    ensures Count(f, s, k) > 0 ==> exists i :: 0 <= i < |s| && f(s[i]) == Some(k)
  {
    if s != [] && f(s[0]) != Some(k) {
      CountWitness(f, s[1..], k);
      if Count(f, s, k) > 0 {
        var i :| 0 <= i < |s[1..]| && f(s[1..][i]) == Some(k);
        assert f(s[i + 1]) == Some(k);
      }
    }
  }

  /** kept lists, in order, the positions of `all` that are still in s. */
  ghost predicate Subsequence(s: seq<Name>, all: seq<Name>, kept: seq<int>) {
    && |kept| == |s|
    && (forall i :: 0 <= i < |s| ==> 0 <= kept[i] < |all| && all[kept[i]] == s[i])
    && (forall i, j :: 0 <= i < j < |s| ==> kept[i] < kept[j])
  }

  predicate SameKey(f: KeyOf, all: seq<Name>, i: int, j: int) {
    0 <= i < j < |all| && f(all[i]).Some? && f(all[i]) == f(all[j])
  }

  /** Of the names with one key the earliest are taken out first. */
  ghost predicate EarliestGone(f: KeyOf, all: seq<Name>, kept: seq<int>) {
    forall i, j {:trigger SameKey(f, all, i, j)} :: SameKey(f, all, i, j) && i in kept ==> j in kept
  }

  /** A name that equals nothing stays. */
  ghost predicate KeylessStay(f: KeyOf, all: seq<Name>, kept: seq<int>) {
    forall i :: 0 <= i < |all| && f(all[i]).None? ==> i in kept
  }

  lemma InWithout(kept: seq<int>, x: nat, i: int)
    requires x < |kept| && forall y, z :: 0 <= y < z < |kept| ==> kept[y] < kept[z]
    ensures i in Without(kept, x) <==> i in kept && i != kept[x]
  {
    var rest := Without(kept, x);
    if i in kept && i != kept[x] {
      var y :| 0 <= y < |kept| && kept[y] == i;
      assert rest[if y < x then y else y - 1] == i;
    }
    if i in rest {
      var y :| 0 <= y < |rest| && rest[y] == i;
      assert kept[if y < x then y else y + 1] == i;
    }
  }

  /** Taking out the first name left with its key keeps the order, as does taking out a name with a key. */
  lemma EarliestMore(f: KeyOf, all: seq<Name>, s: seq<Name>, kept: seq<int>, x: nat)
    requires Subsequence(s, all, kept) && EarliestGone(f, all, kept)
    requires x < |s| && f(s[x]).Some? && forall y :: 0 <= y < x ==> f(s[y]) != f(s[x])
    ensures EarliestGone(f, all, Without(kept, x))
  {
    forall i, j | SameKey(f, all, i, j) && i in Without(kept, x)
      ensures j in Without(kept, x)
    {
      InWithout(kept, x, i);
      InWithout(kept, x, j);
      var y :| 0 <= y < |kept| && kept[y] == i;
      assert y < x ==> f(s[y]) != f(s[x]);
    }
  }

  lemma KeylessMore(f: KeyOf, all: seq<Name>, s: seq<Name>, kept: seq<int>, x: nat)
    requires Subsequence(s, all, kept) && KeylessStay(f, all, kept) && x < |s| && f(s[x]).Some?
    ensures KeylessStay(f, all, Without(kept, x))
  {
    forall i | 0 <= i < |all| && f(all[i]).None?
      ensures i in Without(kept, x)
    {
      InWithout(kept, x, i);
    }
  }

  lemma CountMore(f: KeyOf, all: seq<Name>, left: seq<Name>, taken: seq<Name>, i: nat)
    requires i < |left| && forall k :: Count(f, all, k) == Count(f, left, k) + Count(f, taken, k)
    ensures forall k :: Count(f, all, k) == Count(f, Without(left, i), k) + Count(f, taken + [left[i]], k)
  {
    forall k
      ensures Count(f, all, k) == Count(f, Without(left, i), k) + Count(f, taken + [left[i]], k)
    {
      CountWithout(f, left, i, k);
      CountConcat(f, taken, [left[i]], k);
    }
  }

  /** What is left and what was taken out, for one of the lists. */
  ghost predicate Splits(f: KeyOf, all: seq<Name>, left: seq<Name>, taken: seq<Name>, kept: seq<int>) {
    && Subsequence(left, all, kept)
    && EarliestGone(f, all, kept) && KeylessStay(f, all, kept)
    && |all| == |left| + |taken|
    && (forall k :: Count(f, all, k) == Count(f, left, k) + Count(f, taken, k))
  }

  lemma SplitMore(f: KeyOf, all: seq<Name>, left: seq<Name>, taken: seq<Name>, kept: seq<int>, i: nat)
    requires Splits(f, all, left, taken, kept) && i < |left|
    requires f(left[i]).Some? && forall y :: 0 <= y < i ==> f(left[y]) != f(left[i])
    ensures Splits(f, all, Without(left, i), taken + [left[i]], Without(kept, i))
  {
    EarliestMore(f, all, left, kept, i);
    KeylessMore(f, all, left, kept, i);
    CountMore(f, all, left, taken, i);
  }

  function Positions(n: nat): (p: seq<int>)
    ensures |p| == n && forall i :: 0 <= i < n ==> p[i] == i
  {
    seq(n, i => i)
  }

  lemma SplitNothing(f: KeyOf, all: seq<Name>) returns (kept: seq<int>)
    ensures Splits(f, all, all, [], kept)
  {
    kept := Positions(|all|);
  }

  ghost predicate Paired(same: (Name, Name) -> bool, a: seq<Name>, b: seq<Name>) {
    |a| == |b| && forall i :: 0 <= i < |a| ==> same(a[i], b[i])
  }

  lemma {:induction false} PairedCounts(same: (Name, Name) -> bool, kb: KeyOf, kw: KeyOf, a: seq<Name>, b: seq<Name>, k: Name)
    requires ComparesKeys(same, kb, kw) && Paired(same, a, b)
    ensures Count(kb, a, k) == Count(kw, b, k)
  {
    if a != [] {
      assert same(a[0], b[0]);
      PairedCounts(same, kb, kw, a[1..], b[1..], k);
    }
  }

  lemma PairedMore(same: (Name, Name) -> bool, a: seq<Name>, b: seq<Name>, x: Name, y: Name)
    requires Paired(same, a, b) && same(x, y)
    ensures Paired(same, a + [x], b + [y])
  {
  }

  /** The first n names of the black list equal none of the white list. */
  ghost predicate Apart(same: (Name, Name) -> bool, black: seq<Name>, n: nat, white: seq<Name>)
    requires n <= |black|
  {
    forall i, j :: 0 <= i < n && 0 <= j < |white| ==> !same(black[i], white[j])
  }

  lemma ApartWithout(same: (Name, Name) -> bool, black: seq<Name>, n: nat, white: seq<Name>, w: nat)
    requires n < |black| && w < |white| && Apart(same, black, n, white)
    ensures Apart(same, Without(black, n), n, Without(white, w))
  {
  }

  lemma ApartMore(same: (Name, Name) -> bool, black: seq<Name>, n: nat, white: seq<Name>)
    requires n < |black| && Apart(same, black, n, white)
    requires forall j :: 0 <= j < |white| ==> !same(black[n], white[j])
    ensures Apart(same, black, n + 1, white)
  {
  }

  /** What is left of `all` when of every key as many names are taken, from the
      front, as `other` has. */
  function LeftOf(f: KeyOf, all: seq<Name>, g: KeyOf, other: seq<Name>): seq<Name> {
    if all == [] then []
    else
      var init, last := all[..|all| - 1], all[|all| - 1];
      LeftOf(f, init, g, other) +
      if f(last).Some? && Count(f, init, f(last).value) < Count(g, other, f(last).value) then [] else [last]
  }

  function Excess(x: nat, y: nat): nat { if x > y then x - y else 0 }

  /** What the loop has done when it ends: the names taken out form equal pairs,
      no equal pair is left, and of every class each list keeps what it had more
      than the other. */
  ghost predicate Difference(
    same: (Name, Name) -> bool, kb: KeyOf, kw: KeyOf,
    black0: seq<Name>, white0: seq<Name>, black: seq<Name>, white: seq<Name>)
  {
    && |black0| - |black| == |white0| - |white|
    && (exists kept :: Subsequence(black, black0, kept))
    && (exists kept :: Subsequence(white, white0, kept))
    && Apart(same, black, |black|, white)
    && (forall k :: Count(kb, black, k) == Excess(Count(kb, black0, k), Count(kw, white0, k)))
    && (forall k :: Count(kw, white, k) == Excess(Count(kw, white0, k), Count(kb, black0, k)))
  }

  /** The inner loop: the first name of the white list that is equal, or its end. */
  method FindSame(name: Name, white: seq<Name>, same: (Name, Name) -> bool) returns (w: nat)
    ensures w <= |white|
    ensures w < |white| ==> same(name, white[w])
    ensures forall j :: 0 <= j < w ==> !same(name, white[j])
  {
    w := 0;
    while w != |white| && !same(name, white[w])
      invariant 0 <= w <= |white|
      invariant forall j :: 0 <= j < w ==> !same(name, white[j])
    {
      w := w + 1;
    }
  }

  method RemoveMatches(
    black0: seq<Name>, white0: seq<Name>, same: (Name, Name) -> bool, ghost kb: KeyOf, ghost kw: KeyOf)
    returns (black: seq<Name>, white: seq<Name>, ghost taken: (seq<Name>, seq<Name>), ghost kept: (seq<int>, seq<int>))
    requires ComparesKeys(same, kb, kw)
    ensures Difference(same, kb, kw, black0, white0, black, white)
    ensures Paired(same, taken.0, taken.1)
    ensures Splits(kb, black0, black, taken.0, kept.0) && Splits(kw, white0, white, taken.1, kept.1)
    ensures black == LeftOf(kb, black0, kw, white0) && white == LeftOf(kw, white0, kb, black0)
  {
    black, white := black0, white0;
    ghost var takenB, takenW: seq<Name> := [], [];
    ghost var keptB := SplitNothing(kb, black0);
    ghost var keptW := SplitNothing(kw, white0);
    var a := 0;
    while a != |black|
      invariant 0 <= a <= |black|
      invariant Splits(kb, black0, black, takenB, keptB) && Splits(kw, white0, white, takenW, keptW)
      invariant Paired(same, takenB, takenW)
      invariant Apart(same, black, a, white)
      decreases |black| - a
    {
      var w := FindSame(black[a], white, same);
      if w != |white| {
        FirstOfKey(same, kb, kw, black, a, white, w);
        SplitMore(kb, black0, black, takenB, keptB, a);
        SplitMore(kw, white0, white, takenW, keptW, w);
        PairedMore(same, takenB, takenW, black[a], white[w]);
        ApartWithout(same, black, a, white, w);
        takenB, keptB := takenB + [black[a]], Without(keptB, a);
        takenW, keptW := takenW + [white[w]], Without(keptW, w);
        white := Without(white, w);
        black := Without(black, a);
      } else {
        ApartMore(same, black, a, white);
        a := a + 1;
      }
    }
    taken, kept := (takenB, takenW), (keptB, keptW);
    LeftOver(same, kb, kw, black0, white0, black, white, takenB, takenW, keptB, keptW);
    OnlyLeftOf(kb, black0, black, keptB, kw, white0);
    OnlyLeftOf(kw, white0, white, keptW, kb, black0);
  }

  /** The names that the loops find equal are the first of their key on both lists. */
  lemma FirstOfKey(same: (Name, Name) -> bool, kb: KeyOf, kw: KeyOf, black: seq<Name>, a: nat, white: seq<Name>, w: nat)
    requires ComparesKeys(same, kb, kw) && a < |black| && w < |white| && same(black[a], white[w])
    requires Apart(same, black, a, white) && forall j :: 0 <= j < w ==> !same(black[a], white[j])
    ensures kb(black[a]).Some? && forall y :: 0 <= y < a ==> kb(black[y]) != kb(black[a])
    ensures kw(white[w]).Some? && forall y :: 0 <= y < w ==> kw(white[y]) != kw(white[w])
  {
    forall y | 0 <= y < a
      ensures kb(black[y]) != kb(black[a])
    {
      assert !same(black[y], white[w]);
    }
  }

  lemma LeftOver(
    same: (Name, Name) -> bool, kb: KeyOf, kw: KeyOf,
    black0: seq<Name>, white0: seq<Name>, black: seq<Name>, white: seq<Name>,
    takenB: seq<Name>, takenW: seq<Name>, keptB: seq<int>, keptW: seq<int>)
    requires ComparesKeys(same, kb, kw) && Paired(same, takenB, takenW)
    requires Splits(kb, black0, black, takenB, keptB) && Splits(kw, white0, white, takenW, keptW)
    requires Apart(same, black, |black|, white)
    ensures Difference(same, kb, kw, black0, white0, black, white)
  {
    forall k
      ensures Count(kb, black, k) == Excess(Count(kb, black0, k), Count(kw, white0, k))
      ensures Count(kw, white, k) == Excess(Count(kw, white0, k), Count(kb, black0, k))
    {
      PairedCounts(same, kb, kw, takenB, takenW, k);
      OneIsUsedUp(same, kb, kw, black, white, k);
    }
  }

  lemma OneIsUsedUp(same: (Name, Name) -> bool, kb: KeyOf, kw: KeyOf, black: seq<Name>, white: seq<Name>, k: Name)
    requires ComparesKeys(same, kb, kw)
    requires Apart(same, black, |black|, white)
    ensures Count(kb, black, k) == 0 || Count(kw, white, k) == 0
  {
    CountWitness(kb, black, k);
    CountWitness(kw, white, k);
    if Count(kb, black, k) > 0 {
      var i :| 0 <= i < |black| && kb(black[i]) == Some(k);
      forall j | 0 <= j < |white|
        ensures kw(white[j]) != Some(k)
      {
        assert !same(black[i], white[j]);
      }
    }
  }

  // ---------------------------------------------------------------- sublists by key

  /** The names whose key p does not hold of, in order. */
  function Others(f: KeyOf, p: Name -> bool, names: seq<Name>): seq<Name> {
    if names == [] then []
    else
      var last := names[|names| - 1];
      Others(f, p, names[..|names| - 1]) + if f(last).Some? && p(f(last).value) then [] else [last]
  }

  lemma CountSnoc(f: KeyOf, s: seq<Name>, k: Name)
    requires s != []
    ensures Count(f, s, k) == Count(f, s[..|s| - 1], k) + if f(s[|s| - 1]) == Some(k) then 1 else 0
  {
    var init, last := s[..|s| - 1], s[|s| - 1];
    assert s == init + [last];
    CountConcat(f, init, [last], k);
  }

  lemma CountBefore(f: KeyOf, s: seq<Name>, n: nat, k: Name)
    requires n < |s| && f(s[n]) == Some(k)
    ensures Count(f, s[..n], k) < Count(f, s, k)
  {
    assert s == s[..n + 1] + s[n + 1..] && s[..n + 1][..n] == s[..n];
    CountConcat(f, s[..n + 1], s[n + 1..], k);
    CountSnoc(f, s[..n + 1], k);
  }

  /** A subsequence that ends before `all` does is one of what comes before the last. */
  lemma ShorterSubsequence(s: seq<Name>, all: seq<Name>, kept: seq<int>)
    requires Subsequence(s, all, kept) && all != []
    requires s == [] || kept[|s| - 1] != |all| - 1
    ensures Subsequence(s, all[..|all| - 1], kept)
  {
    forall i | 0 <= i < |s|
      ensures kept[i] < |all| - 1
    {
      assert kept[i] <= kept[|s| - 1];
    }
  }

  lemma ShorterBoth(s: seq<Name>, all: seq<Name>, kept: seq<int>)
    requires Subsequence(s, all, kept) && s != [] && kept[|s| - 1] == |all| - 1
    ensures Subsequence(s[..|s| - 1], all[..|all| - 1], kept[..|s| - 1])
  {
  }

  /** The counts and the order determine what is left. */
  lemma {:induction false} OnlyLeftOf(f: KeyOf, all: seq<Name>, s: seq<Name>, kept: seq<int>, g: KeyOf, other: seq<Name>)
    requires Subsequence(s, all, kept) && EarliestGone(f, all, kept) && KeylessStay(f, all, kept)
    requires LeavesExcess(f, s, all, g, other)
    ensures s == LeftOf(f, all, g, other)
    decreases |all|
  {
    if all != [] {
      var init := all[..|all| - 1];
      if s != [] && kept[|s| - 1] == |all| - 1 {
        ShorterBoth(s, all, kept);
        OrderOfInit(f, all, kept, kept[..|s| - 1]);
        KeepsLast(f, s, all, g, other);
        OnlyLeftOf(f, init, s[..|s| - 1], kept[..|s| - 1], g, other);
        assert s == s[..|s| - 1] + [s[|s| - 1]];
      } else {
        ShorterSubsequence(s, all, kept);
        OrderOfInit(f, all, kept, kept);
        LosesLast(f, s, all, kept, g, other);
        OnlyLeftOf(f, init, s, kept, g, other);
      }
    }
  }

  ghost predicate LeavesExcess(f: KeyOf, s: seq<Name>, all: seq<Name>, g: KeyOf, other: seq<Name>) {
    forall k :: Count(f, s, k) == Excess(Count(f, all, k), Count(g, other, k))
  }

  lemma OrderOfInit(f: KeyOf, all: seq<Name>, kept: seq<int>, shorter: seq<int>)
    requires all != [] && EarliestGone(f, all, kept) && KeylessStay(f, all, kept)
    requires forall i :: 0 <= i < |all| - 1 ==> (i in kept <==> i in shorter)
    ensures EarliestGone(f, all[..|all| - 1], shorter) && KeylessStay(f, all[..|all| - 1], shorter)
  {
    forall i, j | SameKey(f, all[..|all| - 1], i, j) && i in shorter
      ensures j in shorter
    {
      assert SameKey(f, all, i, j);
    }
  }

  lemma KeepsLast(f: KeyOf, s: seq<Name>, all: seq<Name>, g: KeyOf, other: seq<Name>)
    requires s != [] && all != [] && s[|s| - 1] == all[|all| - 1] && LeavesExcess(f, s, all, g, other)
    ensures LeavesExcess(f, s[..|s| - 1], all[..|all| - 1], g, other)
    ensures var last := f(all[|all| - 1]);
            last.Some? ==> Count(f, all[..|all| - 1], last.value) >= Count(g, other, last.value)
  {
    forall k
      ensures Count(f, s[..|s| - 1], k) == Excess(Count(f, all[..|all| - 1], k), Count(g, other, k))
      ensures f(all[|all| - 1]) == Some(k) ==> Count(f, all[..|all| - 1], k) >= Count(g, other, k)
    {
      CountSnoc(f, s, k);
      CountSnoc(f, all, k);
    }
  }

  /** If the last name is gone, no name of its key is left. */
  lemma LosesLast(f: KeyOf, s: seq<Name>, all: seq<Name>, kept: seq<int>, g: KeyOf, other: seq<Name>)
    requires all != [] && Subsequence(s, all[..|all| - 1], kept)
    requires EarliestGone(f, all, kept) && KeylessStay(f, all, kept) && LeavesExcess(f, s, all, g, other)
    ensures LeavesExcess(f, s, all[..|all| - 1], g, other)
    ensures var last := f(all[|all| - 1]);
            last.Some? && Count(f, all[..|all| - 1], last.value) < Count(g, other, last.value)
  {
    var last := f(all[|all| - 1]);
    assert |all| - 1 !in kept;
    CountWitness(f, s, last.value);
    forall i | 0 <= i < |s|
      ensures f(s[i]) != last
    {
      assert kept[i] in kept && all[kept[i]] == s[i];
      assert !SameKey(f, all, kept[i], |all| - 1);
    }
    forall k
      ensures Count(f, s, k) == Excess(Count(f, all[..|all| - 1], k), Count(g, other, k))
      ensures last == Some(k) ==> Count(f, all[..|all| - 1], k) < Count(g, other, k)
    {
      CountSnoc(f, all, k);
    }
  }
}
