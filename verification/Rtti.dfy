/** The dynamic_cast search of ntl/rtl/rtti.cpp: one scan of the flattened class
    hierarchy stands in for a search of the class tree. */
module Rtti {
  import opened Common

  // ---------------------------------------------------------------- hierarchies

  /** One base_class record.  `holds` says that the subobject lies where the
      cast's source pointer points: the displacement test on `thiscast`. */
  datatype Entry = Entry(
    typeId: int,
    bases: nat,
    holds: bool,
    notvisible: bool,
    ambiguous: bool,
    privcomp: bool)

  /** A class with its direct bases in declaration order. */
  datatype Tree = Node(entry: Entry, bases: seq<Tree>)

  function Size(t: Tree): (n: nat)
    ensures n >= 1
  {
    1 + ForestSize(t.bases)
  }

  function ForestSize(ts: seq<Tree>): nat {
    if ts == [] then 0 else Size(ts[0]) + ForestSize(ts[1..])
  }

  /** The preorder the compiler emits. */
  function Flatten(t: Tree): (f: seq<Entry>)
    ensures |f| == Size(t)
  {
    [t.entry] + FlattenForest(t.bases)
  }

  function FlattenForest(ts: seq<Tree>): (f: seq<Entry>)
    ensures |f| == ForestSize(ts)
  {
    if ts == [] then [] else Flatten(ts[0]) + FlattenForest(ts[1..])
  }

  /** Every record counts the records contained in its class. */
  predicate Counted(t: Tree) {
    t.entry.bases == ForestSize(t.bases) && CountedForest(t.bases)
  }

  predicate CountedForest(ts: seq<Tree>) {
    ts == [] || (Counted(ts[0]) && CountedForest(ts[1..]))
  }

  /** What is searched for: `source` is the static type, `dest` the target. */
  datatype Query = Query(source: int, dest: int)

  predicate IsSource(q: Query, e: Entry) { e.typeId == q.source && e.holds }
  predicate IsDest(q: Query, e: Entry) { e.typeId == q.dest }
  predicate Accessible(e: Entry) { !e.notvisible && !e.ambiguous }

  // ---------------------------------------------------------------- the search of the tree

  /** The preorder position of the first source subobject. */
  function FirstSource(t: Tree, q: Query, at: nat): Option<nat> {
    if IsSource(q, t.entry) then Some(at) else FirstSourceIn(t.bases, q, at + 1)
  }

  function FirstSourceIn(ts: seq<Tree>, q: Query, at: nat): Option<nat> {
    if ts == [] then None
    else match FirstSource(ts[0], q, at)
      case Some(s) => Some(s)
      case None => FirstSourceIn(ts[1..], q, at + Size(ts[0]))
  }

  /** The last destination class at or before position s that is not itself a base of a destination. */
  function LastOuter(t: Tree, q: Query, at: nat, s: nat): Option<(nat, Tree)> {
    if s < at then None
    else if IsDest(q, t.entry) then Some((at, t))
    else LastOuterIn(t.bases, q, at + 1, s)
  }

  function LastOuterIn(ts: seq<Tree>, q: Query, at: nat, s: nat): Option<(nat, Tree)> {
    if ts == [] then None
    else match LastOuterIn(ts[1..], q, at + Size(ts[0]), s)
      case Some(d) => Some(d)
      case None => LastOuter(ts[0], q, at, s)
  }

  function FirstDest(t: Tree, q: Query, at: nat): Option<(nat, Tree)> {
    if IsDest(q, t.entry) then Some((at, t)) else FirstDestIn(t.bases, q, at + 1)
  }

  function FirstDestIn(ts: seq<Tree>, q: Query, at: nat): Option<(nat, Tree)> {
    if ts == [] then None
    else match FirstDest(ts[0], q, at)
      case Some(d) => Some(d)
      case None => FirstDestIn(ts[1..], q, at + Size(ts[0]))
  }

  /** The cast on the tree.  A destination that has the source among its bases is
      the answer (unless it is the complete object and hidden); otherwise the
      nearest earlier destination, or else the first one, if it is accessible. */
  function TreeCast(t: Tree, q: Query): Option<nat> {
    match FirstSource(t, q, 0)
    case None => None
    case Some(s) =>
      match LastOuter(t, q, 0, s)
      case Some((d, c)) =>
        if s < d + Size(c) then
          if d == 0 && c.entry.notvisible then None else Some(d)
        else if Accessible(c.entry) then Some(d) else None
      case None =>
        match FirstDest(t, q, 0)
        case Some((d, c)) => if Accessible(c.entry) then Some(d) else None
        case None => None
  }

  // ---------------------------------------------------------------- the same notions on the flat array

  predicate Encloses(f: seq<Entry>, d: nat, k: nat)
    requires d < |f|
  {
    d <= k <= d + f[d].bases
  }

  /** Entry ranges nest: whatever starts inside a class ends inside it. */
  ghost predicate Nested(f: seq<Entry>, lo: nat, hi: nat)
    requires lo <= hi <= |f|
  {
    && (forall j :: lo <= j < hi ==> j + f[j].bases < hi)
    && (forall j, k :: lo <= j < k < hi && k <= j + f[j].bases ==> k + f[k].bases <= j + f[j].bases)
  }

  /** d is the last destination of lo..s that no destination of lo..s encloses. */
  ghost predicate IsLastOuter(f: seq<Entry>, q: Query, lo: nat, s: nat, d: nat)
    requires s < |f|
  {
    && lo <= d <= s && IsDest(q, f[d])
    && (forall j :: lo <= j < d && IsDest(q, f[j]) ==> j + f[j].bases < d)
    && (forall k :: d < k <= s && IsDest(q, f[k]) ==> k <= d + f[d].bases)
  }

  ghost predicate NoDest(f: seq<Entry>, q: Query, lo: nat, hi: nat)
    requires hi <= |f|
  {
    forall k :: lo <= k < hi ==> !IsDest(q, f[k])
  }

  ghost predicate NoSource(f: seq<Entry>, q: Query, lo: nat, hi: nat)
    requires hi <= |f|
  {
    forall k :: lo <= k < hi ==> !IsSource(q, f[k])
  }

  lemma LastOuterIsUnique(f: seq<Entry>, q: Query, lo: nat, s: nat, d: nat, d': nat)
    requires s < |f| && IsLastOuter(f, q, lo, s, d) && IsLastOuter(f, q, lo, s, d')
    ensures d == d'
  {
  }

  // ---------------------------------------------------------------- the scan

  /** `i - previ` in 32-bit unsigned arithmetic; previ starts as unsigned(-1). */
  function Distance(i: nat, previ: nat): nat { (i - previ) % UINT_SIZE }

  /** What a finished scan has found, on the flat array alone. */
  ghost predicate CastOf(f: seq<Entry>, q: Query, r: Option<nat>) {
    && (NoSource(f, q, 0, |f|) ==> r == None)
    && (forall s: nat :: s < |f| && IsSource(q, f[s]) && NoSource(f, q, 0, s) ==> CastFrom(f, q, s, r))
  }

  /** The answer when d is the last outermost destination up to the source s. */
  function AnswerFor(f: seq<Entry>, d: nat, s: nat): Option<nat>
    requires d < |f|
  {
    if Encloses(f, d, s) then (if d == 0 && f[d].notvisible then None else Some(d))
    else if Accessible(f[d]) then Some(d) else None
  }

  /** The answer when s is the first source subobject. */
  ghost predicate CastFrom(f: seq<Entry>, q: Query, s: nat, r: Option<nat>)
    requires s < |f|
  {
    && (forall d: nat :: IsLastOuter(f, q, 0, s, d) ==>
          r == AnswerFor(f, d, s))
    && (NoDest(f, q, 0, s + 1) ==>
          && (forall d: nat :: s < d < |f| && IsDest(q, f[d]) && NoDest(f, q, 0, d) ==>
                r == if Accessible(f[d]) then Some(d) else None)
          && (NoDest(f, q, 0, |f|) ==> r == None))
  }

  lemma DistanceIsDifference(i: nat, previ: nat)
    requires i < UINT_SIZE - 1
    ensures previ <= i ==> Distance(i, previ) == i - previ
    ensures previ == UINT_SIZE - 1 ==> Distance(i, previ) > 0
  {
    if previ <= i {
      assert (i - previ) % UINT_SIZE == i - previ;
    } else if previ == UINT_SIZE - 1 {
      assert i - previ == (i + 1) - UINT_SIZE;
      assert (i - previ) % UINT_SIZE == (i + 1) % UINT_SIZE;
    }
  }

  /** A destination past the end of the last one replaces it, one inside it does not. */
  lemma LastOuterAdvances(f: seq<Entry>, q: Query, d: nat, i: nat)
    requires 0 < i < |f| && Nested(f, 0, |f|) && IsLastOuter(f, q, 0, i - 1, d)
    ensures IsDest(q, f[i]) && d + f[d].bases < i ==> IsLastOuter(f, q, 0, i, i)
    ensures !IsDest(q, f[i]) || i <= d + f[d].bases ==> IsLastOuter(f, q, 0, i, d)
  {
    if IsDest(q, f[i]) && d + f[d].bases < i {
      forall j | 0 <= j < i && IsDest(q, f[j])
        ensures j + f[j].bases < i
      {
        if d < j {
          assert j + f[j].bases <= d + f[d].bases;
        }
      }
    }
  }

  lemma CastFromEarlier(f: seq<Entry>, q: Query, s: nat, d: nat, r: Option<nat>)
    requires s < |f| && IsSource(q, f[s]) && NoSource(f, q, 0, s)
    requires IsLastOuter(f, q, 0, s, d)
    requires r == AnswerFor(f, d, s)
    ensures CastOf(f, q, r)
  {
    assert !NoDest(f, q, 0, s + 1) by { assert IsDest(q, f[d]); }
    forall d': nat | IsLastOuter(f, q, 0, s, d')
      ensures d' == d
    {
      LastOuterIsUnique(f, q, 0, s, d, d');
    }
    OnlyFirstSource(f, q, s, r);
  }

  lemma CastFromLater(f: seq<Entry>, q: Query, s: nat, d: nat, r: Option<nat>)
    requires s < |f| && IsSource(q, f[s]) && NoSource(f, q, 0, s)
    requires s < d < |f| && IsDest(q, f[d]) && NoDest(f, q, 0, d)
    requires r == if Accessible(f[d]) then Some(d) else None
    ensures CastOf(f, q, r)
  {
    assert !NoDest(f, q, 0, |f|);
    forall d': nat | s < d' < |f| && IsDest(q, f[d']) && NoDest(f, q, 0, d')
      ensures d' == d
    {
    }
    OnlyFirstSource(f, q, s, r);
  }

  lemma OnlyFirstSource(f: seq<Entry>, q: Query, s: nat, r: Option<nat>)
    requires s < |f| && IsSource(q, f[s]) && NoSource(f, q, 0, s) && CastFrom(f, q, s, r)
    ensures CastOf(f, q, r)
  {
    forall s': nat | s' < |f| && IsSource(q, f[s']) && NoSource(f, q, 0, s')
      ensures s' == s
    {
    }
  }

  /** The scan ends: the source was not seen, or it was and there is no destination. */
  lemma CastFromNothing(f: seq<Entry>, q: Query)
    requires NoSource(f, q, 0, |f|) || NoDest(f, q, 0, |f|)
    ensures CastOf(f, q, None)
  {
    forall s: nat | s < |f| && IsSource(q, f[s]) && NoSource(f, q, 0, s)
      ensures CastFrom(f, q, s, None)
    {
    }
  }

  /** A destination was seen before the source at i: what the search returns. */
  method BaseFound(f: seq<Entry>, i: nat, previ: nat, prevNum: nat) returns (r: Option<nat>)
    requires previ <= i < |f| < UINT_SIZE && prevNum == f[previ].bases
    ensures r == AnswerFor(f, previ, i)
  {
    DistanceIsDifference(i, previ);
    if Distance(i, previ) > prevNum {
      if f[previ].notvisible || f[previ].ambiguous {
        return None;
      }
    }
    if previ != 0 {
      return Some(previ);
    }
    if f[previ].notvisible {
      return None;
    }
    return Some(previ);
  }

  method FindMultipleInstance(f: seq<Entry>, q: Query) returns (r: Option<nat>)
    requires |f| < UINT_SIZE && Nested(f, 0, |f|)
    ensures CastOf(f, q, r)
  {
    var prevBase, base2: Option<nat> := None, None;
    var prevNum, previ := 0, UINT_SIZE - 1;
    ghost var s := 0;
    var i := 0;
    while i < |f|
      invariant 0 <= i <= |f|
      invariant base2.None? ==> previ == UINT_SIZE - 1 && prevNum == 0
      invariant prevBase.None? ==> NoSource(f, q, 0, i)
      invariant prevBase.Some? ==>
                  base2.None? && s < i && IsSource(q, f[s]) && NoSource(f, q, 0, s)
      invariant base2.None? ==> NoDest(f, q, 0, i)
      invariant base2.Some? ==>
                  && i > 0 && base2.value == previ < i && prevNum == f[previ].bases
                  && IsLastOuter(f, q, 0, i - 1, previ)
    {
      var base := f[i];
      DistanceIsDifference(i, previ);
      if base2.Some? {
        LastOuterAdvances(f, q, previ, i);
      }
      if Distance(i, previ) > prevNum && base.typeId == q.dest {
        if prevBase.None? {
          prevNum := base.bases;
          base2 := Some(i);
          previ := i;
        } else {
          r := if base.notvisible || base.ambiguous then None else Some(i);
          CastFromLater(f, q, s, i, r);
          return;
        }
      }
      assert base2.Some? ==> IsLastOuter(f, q, 0, i, previ);
      if base.typeId == q.source && base.holds {
        if base2.None? {
          s := if prevBase.None? then i else s;
          prevBase := Some(i);
        } else {
          r := BaseFound(f, i, previ, prevNum);
          CastFromEarlier(f, q, i, previ, r);
          return;
        }
      }
      i := i + 1;
    }
    CastFromNothing(f, q);
    return None;
  }

  // ---------------------------------------------------------------- the flattened tree

  predicate At(f: seq<Entry>, at: nat, t: Tree) {
    at + Size(t) <= |f| && f[at..at + Size(t)] == Flatten(t)
  }

  predicate ForestAt(f: seq<Entry>, at: nat, ts: seq<Tree>) {
    at + ForestSize(ts) <= |f| && f[at..at + ForestSize(ts)] == FlattenForest(ts)
  }

  lemma AtNode(f: seq<Entry>, at: nat, t: Tree)
    requires At(f, at, t)
    ensures f[at] == t.entry && ForestAt(f, at + 1, t.bases)
  {
    assert f[at..at + Size(t)][1..] == f[at + 1..at + Size(t)];
  }

  lemma AtForest(f: seq<Entry>, at: nat, ts: seq<Tree>)
    requires ts != [] && ForestAt(f, at, ts)
    ensures At(f, at, ts[0]) && ForestAt(f, at + Size(ts[0]), ts[1..])
  {
    var n := Size(ts[0]);
    var g := f[at..at + ForestSize(ts)];
    assert g[..n] == f[at..at + n];
    assert g[n..] == f[at + n..at + ForestSize(ts)];
  }

  lemma {:induction false} TreeIsNested(f: seq<Entry>, at: nat, t: Tree)
    requires At(f, at, t) && Counted(t)
    ensures Nested(f, at, at + Size(t))
    decreases t
  {
    AtNode(f, at, t);
    ForestIsNested(f, at + 1, t.bases);
  }

  lemma {:induction false} ForestIsNested(f: seq<Entry>, at: nat, ts: seq<Tree>)
    requires ForestAt(f, at, ts) && CountedForest(ts)
    ensures Nested(f, at, at + ForestSize(ts))
    decreases ts
  {
    if ts != [] {
      AtForest(f, at, ts);
      TreeIsNested(f, at, ts[0]);
      ForestIsNested(f, at + Size(ts[0]), ts[1..]);
    }
  }

  ghost predicate IsFirstSource(f: seq<Entry>, q: Query, lo: nat, hi: nat, r: Option<nat>)
    requires hi <= |f|
  {
    match r
    case None => NoSource(f, q, lo, hi)
    case Some(s) => lo <= s < hi && IsSource(q, f[s]) && NoSource(f, q, lo, s)
  }

  lemma {:induction false} FirstSourceFound(f: seq<Entry>, q: Query, at: nat, t: Tree)
    requires At(f, at, t)
    ensures IsFirstSource(f, q, at, at + Size(t), FirstSource(t, q, at))
    decreases t
  {
    AtNode(f, at, t);
    FirstSourceInFound(f, q, at + 1, t.bases);
  }

  lemma {:induction false} FirstSourceInFound(f: seq<Entry>, q: Query, at: nat, ts: seq<Tree>)
    requires ForestAt(f, at, ts)
    ensures IsFirstSource(f, q, at, at + ForestSize(ts), FirstSourceIn(ts, q, at))
    decreases ts
  {
    if ts != [] {
      AtForest(f, at, ts);
      FirstSourceFound(f, q, at, ts[0]);
      FirstSourceInFound(f, q, at + Size(ts[0]), ts[1..]);
    }
  }

  /** r is the subtree d roots, and d is a position of f. */
  predicate IsSubtree(f: seq<Entry>, d: nat, c: Tree) {
    d < |f| && f[d] == c.entry && c.entry.bases + 1 == Size(c)
  }

  ghost predicate IsFirstDest(f: seq<Entry>, q: Query, lo: nat, hi: nat, r: Option<(nat, Tree)>)
    requires hi <= |f|
  {
    match r
    case None => NoDest(f, q, lo, hi)
    case Some((d, c)) => lo <= d < hi && IsSubtree(f, d, c) && IsDest(q, f[d]) && NoDest(f, q, lo, d)
  }

  lemma {:induction false} FirstDestFound(f: seq<Entry>, q: Query, at: nat, t: Tree)
    requires At(f, at, t) && Counted(t)
    ensures IsFirstDest(f, q, at, at + Size(t), FirstDest(t, q, at))
    decreases t
  {
    AtNode(f, at, t);
    FirstDestInFound(f, q, at + 1, t.bases);
  }

  lemma {:induction false} FirstDestInFound(f: seq<Entry>, q: Query, at: nat, ts: seq<Tree>)
    requires ForestAt(f, at, ts) && CountedForest(ts)
    ensures IsFirstDest(f, q, at, at + ForestSize(ts), FirstDestIn(ts, q, at))
    decreases ts
  {
    if ts != [] {
      AtForest(f, at, ts);
      FirstDestFound(f, q, at, ts[0]);
      FirstDestInFound(f, q, at + Size(ts[0]), ts[1..]);
    }
  }

  /** The tree's answer for the part of the range lo..hi up to s. */
  ghost predicate IsLastOuterOf(f: seq<Entry>, q: Query, lo: nat, hi: nat, s: nat, r: Option<(nat, Tree)>)
    requires hi <= |f| && s < |f|
  {
    match r
    case None => forall k :: lo <= k < hi && k <= s ==> !IsDest(q, f[k])
    case Some((d, c)) =>
      && lo <= d < hi && d <= s && IsSubtree(f, d, c) && IsDest(q, f[d])
      && (forall j :: lo <= j < d && IsDest(q, f[j]) ==> j + f[j].bases < d)
      && (forall k :: d < k < hi && k <= s && IsDest(q, f[k]) ==> k <= d + f[d].bases)
  }

  lemma {:induction false} LastOuterFound(f: seq<Entry>, q: Query, at: nat, t: Tree, s: nat)
    requires At(f, at, t) && Counted(t) && s < |f|
    ensures IsLastOuterOf(f, q, at, at + Size(t), s, LastOuter(t, q, at, s))
    decreases t
  {
    AtNode(f, at, t);
    LastOuterInFound(f, q, at + 1, t.bases, s);
  }

  lemma {:induction false} LastOuterInFound(f: seq<Entry>, q: Query, at: nat, ts: seq<Tree>, s: nat)
    requires ForestAt(f, at, ts) && CountedForest(ts) && s < |f|
    ensures IsLastOuterOf(f, q, at, at + ForestSize(ts), s, LastOuterIn(ts, q, at, s))
    decreases ts
  {
    if ts != [] {
      AtForest(f, at, ts);
      var mid := at + Size(ts[0]);
      LastOuterFound(f, q, at, ts[0], s);
      LastOuterInFound(f, q, mid, ts[1..], s);
      var r1, r2 := LastOuter(ts[0], q, at, s), LastOuterIn(ts[1..], q, mid, s);
      LastOuterJoins(f, q, at, ts[0], mid + ForestSize(ts[1..]), s, r1, r2);
      assert LastOuterIn(ts, q, at, s) == if r2.Some? then r2 else r1;
    }
  }

  /** The answer for a whole class and the range that follows it. */
  lemma LastOuterJoins(f: seq<Entry>, q: Query, lo: nat, t: Tree, hi: nat, s: nat,
                       r1: Option<(nat, Tree)>, r2: Option<(nat, Tree)>)
    requires At(f, lo, t) && Counted(t) && lo + Size(t) <= hi <= |f| && s < |f|
    requires IsLastOuterOf(f, q, lo, lo + Size(t), s, r1) && IsLastOuterOf(f, q, lo + Size(t), hi, s, r2)
    ensures IsLastOuterOf(f, q, lo, hi, s, if r2.Some? then r2 else r1)
  {
    TreeIsNested(f, lo, t);
  }

  /** Only one answer fits a flattened tree, and the tree search gives it. */
  lemma ScanAnswerIsTreeCast(t: Tree, q: Query, r: Option<nat>)
    requires Counted(t) && CastOf(Flatten(t), q, r)
    ensures r == TreeCast(t, q)
  {
    var f := Flatten(t);
    assert f[0..0 + Size(t)] == f;
    FirstSourceFound(f, q, 0, t);
    match FirstSource(t, q, 0) {
      case None =>
      case Some(s) =>
        assert CastFrom(f, q, s, r);
        LastOuterFound(f, q, 0, t, s);
        match LastOuter(t, q, 0, s) {
          case Some((d, c)) =>
            assert IsLastOuter(f, q, 0, s, d);
          case None =>
            assert NoDest(f, q, 0, s + 1);
            FirstDestFound(f, q, 0, t);
        }
    }
  }

  /** The multiple-inheritance search of a flattened class tree is the search of the tree. */
  method FindInHierarchy(bases: seq<Entry>, q: Query, ghost t: Tree) returns (r: Option<nat>)
    requires Counted(t) && bases == Flatten(t) && Size(t) < UINT_SIZE
    ensures r == TreeCast(t, q)
  {
    assert bases[0..0 + Size(t)] == bases;
    TreeIsNested(bases, 0, t);
    r := FindMultipleInstance(bases, q);
    ScanAnswerIsTreeCast(t, q, r);
  }

  // ---------------------------------------------------------------- what may be answered

  /** The first record of the source type that lies where the source pointer points. */
  ghost predicate StartsAt(f: seq<Entry>, q: Query, s: nat) {
    && s < |f| && f[s].typeId == q.source && f[s].holds
    && (forall k :: 0 <= k < s ==> f[k].typeId != q.source || !f[k].holds)
  }

  /** d is the destination a cast from s is decided by: the last one up to s that
      is not a base of another, or the first after s if there is none before. */
  ghost predicate Decides(f: seq<Entry>, q: Query, s: nat, d: nat) {
    && s < |f| && d < |f| && f[d].typeId == q.dest
    && (forall j :: 0 <= j < d && f[j].typeId == q.dest ==> d <= s && j + f[j].bases < d)
    && (forall k :: d < k <= s && f[k].typeId == q.dest ==> k <= d + f[d].bases)
  }

  /** The answer is null or the deciding destination.  That is refused exactly when
      it has the source among its bases but is the hidden complete object, or does
      not have it and is hidden or ambiguous. */
  lemma CastIsAllowed(t: Tree, q: Query, s: nat, d: nat)
    requires Counted(t) && StartsAt(Flatten(t), q, s) && Decides(Flatten(t), q, s, d)
    ensures var f := Flatten(t);
            TreeCast(t, q) ==
              if d <= s <= d + f[d].bases then (if d == 0 && f[d].notvisible then None else Some(d))
              else if f[d].notvisible || f[d].ambiguous then None else Some(d)
  {
    var f := Flatten(t);
    assert NoSource(f, q, 0, s) && IsSource(q, f[s]) && IsDest(q, f[d]);
    if d <= s {
      assert IsLastOuter(f, q, 0, s, d);
      CastFromEarlier(f, q, s, d, AnswerFor(f, d, s));
      ScanAnswerIsTreeCast(t, q, AnswerFor(f, d, s));
    } else {
      assert NoDest(f, q, 0, d);
      var r := if Accessible(f[d]) then Some(d) else None;
      CastFromLater(f, q, s, d, r);
      ScanAnswerIsTreeCast(t, q, r);
    }
  }

  lemma DecidedFrom(t: Tree, q: Query, s: nat)
    requires Counted(t) && StartsAt(Flatten(t), q, s)
    ensures NoDest(Flatten(t), q, 0, Size(t)) || exists d :: Decides(Flatten(t), q, s, d)
  {
    var f := Flatten(t);
    assert f[0..0 + Size(t)] == f;
    LastOuterFound(f, q, 0, t, s);
    FirstDestFound(f, q, 0, t);
    match LastOuter(t, q, 0, s) {
      case Some((d, c)) =>
        assert Decides(f, q, s, d);
      case None =>
        match FirstDest(t, q, 0) {
          case Some((d, c)) =>
            assert Decides(f, q, s, d);
          case None =>
        }
    }
  }

  lemma StartFound(t: Tree, q: Query)
    ensures NoSource(Flatten(t), q, 0, Size(t)) || exists s :: StartsAt(Flatten(t), q, s)
  {
    var f := Flatten(t);
    assert f[0..0 + Size(t)] == f;
    FirstSourceFound(f, q, 0, t);
    match FirstSource(t, q, 0) {
      case None =>
      case Some(s) =>
        assert StartsAt(f, q, s) by { assert NoSource(f, q, 0, s); }
    }
  }

  /** If there are a source and a destination there is a deciding one, and otherwise the answer is null. */
  lemma CastIsDecided(t: Tree, q: Query)
    requires Counted(t)
    ensures var f := Flatten(t);
            || (TreeCast(t, q) == None
                && ((forall s :: 0 <= s < |f| ==> f[s].typeId != q.source || !f[s].holds)
                    || (forall d :: 0 <= d < |f| ==> f[d].typeId != q.dest)))
            || exists s, d :: StartsAt(f, q, s) && Decides(f, q, s, d)
  {
    StartFound(t, q);
    if s :| StartsAt(Flatten(t), q, s) {
      DecidedFrom(t, q, s);
    }
    if NoSource(Flatten(t), q, 0, Size(t)) || NoDest(Flatten(t), q, 0, Size(t)) {
      NothingToCast(t, q);
    }
  }

  /** Without a source subobject, or without a destination, the tree search finds nothing. */
  lemma NothingToCast(t: Tree, q: Query)
    requires Counted(t)
    requires NoSource(Flatten(t), q, 0, Size(t)) || NoDest(Flatten(t), q, 0, Size(t))
    ensures TreeCast(t, q) == None
  {
    CastFromNothing(Flatten(t), q);
    ScanAnswerIsTreeCast(t, q, None);
  }

  // ---------------------------------------------------------------- single inheritance (the x64 branch)

  /** No entry after d, up to and including j, is a private base of the complete object. */
  predicate PublicPath(f: seq<Entry>, d: nat, j: nat)
    requires j < |f|
  {
    forall k :: d < k <= j ==> !f[k].privcomp
  }

  ghost predicate SingleFound(f: seq<Entry>, q: Query, d: nat) {
    && d < |f| && IsDest(q, f[d]) && NoDest(f, q, 0, d)
    && (exists j: nat :: d < j < |f| && f[j].typeId == q.source && PublicPath(f, d, j))
  }

  ghost predicate SingleOf(f: seq<Entry>, q: Query, r: Option<nat>) {
    match r
    case Some(d) => SingleFound(f, q, d)
    case None => forall d: nat :: !SingleFound(f, q, d)
  }

  method FindSingleInstance(f: seq<Entry>, q: Query) returns (r: Option<nat>)
    ensures SingleOf(f, q, r)
  {
    var i := 0;
    while i < |f|
      invariant 0 <= i <= |f|
      invariant NoDest(f, q, 0, i)
    {
      if f[i].typeId == q.dest {
        var j := i + 1;
        while j < |f|
          invariant i < j <= |f|
          invariant forall k :: i < k < j ==> !f[k].privcomp && f[k].typeId != q.source
        {
          if f[j].privcomp {
            break;
          }
          if f[j].typeId == q.source {
            assert PublicPath(f, i, j);
            return Some(i);
          }
          j := j + 1;
        }
        forall s: nat | i < s < |f| && f[s].typeId == q.source
          ensures !PublicPath(f, i, s)
        {
          assert j < |f| && j <= s && f[j].privcomp;
        }
        return None;
      }
      i := i + 1;
    }
    return None;
  }

  /** A destination found is the first one, strictly before a source, and neither
      the source found nor anything between the two has a private record. */
  lemma FoundIsPublic(f: seq<Entry>, q: Query, r: Option<nat>)
    requires SingleOf(f, q, r)
    ensures r.Some? <==> exists d: nat, j: nat :: PublicPair(f, q, d, j)
    ensures r.Some? ==> exists j: nat :: PublicPair(f, q, r.value, j)
  {
    if r.Some? {
      var d := r.value;
      var j: nat :| d < j < |f| && f[j].typeId == q.source && PublicPath(f, d, j);
      assert PublicPair(f, q, d, j);
    }
    if d: nat, j: nat :| PublicPair(f, q, d, j) {
      assert PublicPath(f, d, j);
      assert SingleFound(f, q, d);
    }
  }

  ghost predicate PublicPair(f: seq<Entry>, q: Query, d: nat, j: nat) {
    && d < j < |f| && f[d].typeId == q.dest && f[j].typeId == q.source
    && !f[j].privcomp && (forall k :: d < k < j ==> !f[k].privcomp)
    && (forall k :: 0 <= k < d ==> f[k].typeId != q.dest)
  }

  /** A hierarchy without multiple inheritance. */
  predicate Chain(t: Tree) {
    |t.bases| <= 1 && (t.bases != [] ==> Chain(t.bases[0]))
  }

  ghost predicate DistinctTypes(f: seq<Entry>) {
    forall i, j :: 0 <= i < j < |f| ==> f[i].typeId != f[j].typeId
  }

  lemma {:induction false} ChainRanges(t: Tree)
    requires Chain(t) && Counted(t)
    ensures forall k :: 0 <= k < Size(t) ==> Flatten(t)[k].bases == Size(t) - 1 - k
  {
    if t.bases != [] {
      var c := t.bases[0];
      assert t.bases[1..] == [];
      assert ForestSize(t.bases) == Size(c);
      assert FlattenForest(t.bases) == Flatten(c);
      ChainRanges(c);
    }
  }

  /** With distinct types the single-inheritance search finds the destination
      exactly when it is strictly more derived than the source and nothing on
      the way down to the source is private. */
  lemma SingleOnDistinct(f: seq<Entry>, q: Query, s: nat, d: nat, r: Option<nat>)
    requires DistinctTypes(f) && SingleOf(f, q, r)
    requires s < |f| && f[s].typeId == q.source && d < |f| && f[d].typeId == q.dest
    ensures r == if d < s && PublicPath(f, d, s) then Some(d) else None
  {
    assert forall k :: 0 <= k < |f| && IsDest(q, f[k]) ==> k == d;
    assert NoDest(f, q, 0, d);
    if d < s && PublicPath(f, d, s) {
      assert SingleFound(f, q, d);
    }
    match r {
      case Some(x) => assert SingleFound(f, q, x);
      case None =>
    }
  }

  /** Whether the two searches give the same answer for a source record at s and
      a destination at d.  The single-inheritance search does not look at where
      the source subobject lies. */
  predicate AgreeAt(f: seq<Entry>, s: nat, d: nat)
    requires s < |f| && d < |f|
  {
    if !f[s].holds then !(d < s && PublicPath(f, d, s))
    else if d < s then PublicPath(f, d, s) <==> !(d == 0 && f[d].notvisible)
    else if d == s then d == 0 && f[d].notvisible
    else !Accessible(f[d])
  }

  /** The x64 comment asks the two searches to behave alike.  On a chain of
      distinct types they do exactly when this holds; a query for a type that is
      not there gets null from both. */
  ghost predicate SearchesAgree(f: seq<Entry>, q: Query) {
    forall s: nat, d: nat :: s < |f| && d < |f| && f[s].typeId == q.source && IsDest(q, f[d]) ==> AgreeAt(f, s, d)
  }

  lemma SingleAgainstMultiple(t: Tree, q: Query, single: Option<nat>)
    requires Chain(t) && Counted(t)
    requires DistinctTypes(Flatten(t)) && SingleOf(Flatten(t), q, single)
    ensures single == TreeCast(t, q) <==> SearchesAgree(Flatten(t), q)
  {
    var f := Flatten(t);
    if s: nat, d: nat :| s < |f| && d < |f| && f[s].typeId == q.source && IsDest(q, f[d]) {
      if f[s].holds {
        SourceHolds(t, q, s, d, single);
      } else {
        SingleOnDistinct(f, q, s, d, single);
        NothingToCast(t, q);
      }
      assert SearchesAgree(f, q) <==> AgreeAt(f, s, d) by {
        assert forall k :: 0 <= k < |f| && f[k].typeId == q.source ==> k == s;
        assert forall k :: 0 <= k < |f| && IsDest(q, f[k]) ==> k == d;
      }
    } else {
      NothingToCast(t, q);
    }
  }

  /** Both types are there, and the source subobject is where the pointer points. */
  lemma SourceHolds(t: Tree, q: Query, s: nat, d: nat, single: Option<nat>)
    requires Chain(t) && Counted(t)
    requires DistinctTypes(Flatten(t)) && SingleOf(Flatten(t), q, single)
    requires s < Size(t) && IsSource(q, Flatten(t)[s])
    requires d < Size(t) && IsDest(q, Flatten(t)[d])
    ensures single == TreeCast(t, q) <==> AgreeAt(Flatten(t), s, d)
  {
    var f := Flatten(t);
    ChainRanges(t);
    SingleOnDistinct(f, q, s, d, single);
    assert NoSource(f, q, 0, s);
    if d <= s {
      assert IsLastOuter(f, q, 0, s, d);
      CastFromEarlier(f, q, s, d, AnswerFor(f, d, s));
      ScanAnswerIsTreeCast(t, q, AnswerFor(f, d, s));
    } else {
      var r := if Accessible(f[d]) then Some(d) else None;
      CastFromLater(f, q, s, d, r);
      ScanAnswerIsTreeCast(t, q, r);
    }
  }

  /** A class with one base whose subobject lies elsewhere: the single-inheritance
      search casts to the class all the same, the other one does not. */
  lemma SearchesDiffer()
    ensures var base := Node(Entry(1, 0, false, false, false, false), []);
            var t := Node(Entry(0, 1, true, false, false, false), [base]);
            && Chain(t) && Counted(t) && DistinctTypes(Flatten(t))
            && SingleOf(Flatten(t), Query(1, 0), Some(0)) && TreeCast(t, Query(1, 0)) == None
  {
    var base := Node(Entry(1, 0, false, false, false, false), []);
    var t := Node(Entry(0, 1, true, false, false, false), [base]);
    assert [base][1..] == [];
    assert Flatten(base) == [base.entry] + [];
    assert Flatten(t) == [t.entry, base.entry];
    assert PublicPath(Flatten(t), 0, 1);
    assert SingleFound(Flatten(t), Query(1, 0), 0);
    NothingToCast(t, Query(1, 0));
  }

  /** A class with one base, of type 2. */
  function Branch(id: int, ambiguous: bool): Tree {
    Node(Entry(id, 1, false, false, false, false), [Node(Entry(2, 0, false, false, ambiguous, false), [])])
  }

  lemma BranchFlat(id: int, ambiguous: bool)
    ensures var b := Branch(id, ambiguous);
            Counted(b) && Size(b) == 2 && Flatten(b) == [b.entry, Entry(2, 0, false, false, ambiguous, false)]
  {
    var b := Branch(id, ambiguous);
    assert Counted(b.bases[0]) && CountedForest(b.bases[1..]);
    assert b.bases[1..] == [] && Flatten(b.bases[0]) == [b.bases[0].entry] + [];
    assert FlattenForest(b.bases) == [b.bases[0].entry];
  }

  lemma ForestOfTwo(x: Tree, y: Tree)
    requires Counted(x) && Counted(y)
    ensures CountedForest([x, y]) && ForestSize([x, y]) == Size(x) + Size(y)
    ensures FlattenForest([x, y]) == Flatten(x) + Flatten(y)
  {
    assert [x, y][1..] == [y] && [y][1..] == [];
    assert FlattenForest([y]) == Flatten(y) && ForestSize([y]) == Size(y);
  }

  /** The source type 1 beside two classes with a base of type 2 each. */
  function Beside(ambiguous: bool): Tree {
    Node(Entry(0, 5, true, false, false, false),
         [Node(Entry(1, 0, true, false, false, false), [])] + [Branch(3, ambiguous), Branch(4, ambiguous)])
  }

  /** The cast from 1 to 2 is refused if they are ambiguous; were they not, it
      would find the first. */
  lemma AmbiguousIsRefused(ambiguous: bool)
    ensures Counted(Beside(ambiguous))
    ensures TreeCast(Beside(ambiguous), Query(1, 2)) == if ambiguous then None else Some(3)
  {
    var t, x, y := Beside(ambiguous), Branch(3, ambiguous), Branch(4, ambiguous);
    BranchFlat(3, ambiguous);
    BranchFlat(4, ambiguous);
    ForestOfTwo(x, y);
    assert t.bases[1..] == [x, y];
    assert Flatten(t.bases[0]) == [t.bases[0].entry] + [];
    assert Flatten(t) == [t.entry, t.bases[0].entry] + Flatten(x) + Flatten(y);
    CastIsAllowed(t, Query(1, 2), 1, 3);
  }
}
