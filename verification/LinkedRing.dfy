/** ntl/linked_list.hxx and ntl/linked_ptr.hxx: intrusive doubly linked rings
    and the owner-counting pointer whose links live in one. */
module LinkedRing {

  /** The members of a ring, each followed by its `next`, the last by the first. */
  ghost predicate IsRing(s: seq<Link>)
    reads s
  {
    && |s| > 0
    && Distinct(s)
    && (forall i :: 0 <= i < |s| ==> Follows(s[i], s[After(|s|, i)]))
  }

  /** A ring of nodes of u. */
  ghost predicate RingAmong(s: seq<Link>, u: set<Link>)
    reads u
  {
    (forall i :: 0 <= i < |s| ==> s[i] in u) && IsRing(s)
  }

  ghost predicate Distinct(s: seq<Link>) {
    forall i, j :: 0 <= i < j < |s| ==> s[i] != s[j]
  }

  /** The index after i around a ring of n. */
  function After(n: nat, i: int): int { if i + 1 < n then i + 1 else 0 }

  function Before(n: nat, i: int): int { if i > 0 then i - 1 else n - 1 }

  predicate Follows(x: Link, y: Link)
    reads x, y
  {
    x.next == y && y.prev == x
  }

  /** The fields of a set of nodes, as a value. */
  datatype Links = Links(next: map<Link, Link>, prev: map<Link, Link>, ptr: map<Link, int>)

  ghost function LinksOf(u: set<Link>): Links
    reads u
  {
    Links(map x | x in u :: x.next, map x | x in u :: x.prev, map x | x in u :: x.ptr)
  }

  /** next and prev of x stay among the nodes and undo each other. */
  ghost predicate Linked(l: Links, x: Link) {
    && x in l.next && x in l.prev
    && l.next[x] in l.next && l.next[x] in l.prev && l.prev[l.next[x]] == x
    && l.prev[x] in l.next && l.prev[x] in l.prev && l.next[l.prev[x]] == x
  }

  /** The nodes form whole rings. */
  ghost predicate WellFormed(l: Links) {
    && l.next.Keys == l.prev.Keys
    && (forall x {:trigger Linked(l, x)} :: x in l.next ==> Linked(l, x))
  }

  function Inserted<T>(s: seq<T>, k: nat, x: T): seq<T>
    requires k < |s|
  {
    s[..k + 1] + [x] + s[k + 1..]
  }

  function Removed<T>(s: seq<T>, k: nat): seq<T>
    requires k < |s|
  {
    s[..k] + s[k + 1..]
  }

  lemma InsertedIsDistinct(s: seq<Link>, k: nat, x: Link)
    requires k < |s| && Distinct(s) && x !in s
    ensures Distinct(Inserted(s, k, x))
  {
    var r := Inserted(s, k, x);
    forall i, j | 0 <= i < j < |r|
      ensures r[i] != r[j]
    {
      assert i != k + 1 ==> r[i] == s[if i <= k then i else i - 1];
      assert j != k + 1 ==> r[j] == s[if j <= k then j else j - 1];
    }
  }

  lemma RemovedIsDistinct(s: seq<Link>, k: nat)
    requires k < |s| && Distinct(s)
    ensures Distinct(Removed(s, k))
  {
    var r := Removed(s, k);
    forall i, j | 0 <= i < j < |r|
      ensures r[i] != r[j]
    {
      assert r[i] == s[if i < k then i else i + 1] && r[j] == s[if j < k then j else j + 1];
    }
  }

  /** The node before the removed one is followed by the node after it, every other as before. */
  lemma RemovedNeighbours(s: seq<Link>, k: nat, i: nat)
    requires k < |s| && i + 1 < |s|
    ensures var r, j := Removed(s, k), if i < k then i else i + 1;
            && r[i] == s[j]
            && r[After(|r|, i)] == s[if j == Before(|s|, k) then After(|s|, k) else After(|s|, j)]
  {
  }

  function Exchanged(a: Link, b: Link, x: Link): Link {
    if x == a then b else if x == b then a else x
  }

  /** x has the place that the node exchanged with it had before. */
  ghost predicate TakesPlace(a: Link, b: Link, l: Links, r: Links, x: Link) {
    var y := Exchanged(a, b, x);
    && x in r.next && x in r.prev && y in l.next && y in l.prev
    && r.next[x] == Exchanged(a, b, l.next[y])
    && r.prev[x] == Exchanged(a, b, l.prev[y])
  }

  /** From l to r the nodes a and b exchanged their places, and nothing else changed. */
  ghost predicate PlacesExchanged(a: Link, b: Link, l: Links, r: Links) {
    && r.next.Keys == r.prev.Keys == l.next.Keys
    && (forall x {:trigger TakesPlace(a, b, l, r, x)} :: x in r.next ==> TakesPlace(a, b, l, r, x))
  }

  /** The number of members whose pointer is not null. */
  function Owners(s: seq<Link>): nat
    reads s
  {
    if s == [] then 0 else (if s[0].ptr != 0 then 1 else 0) + Owners(s[1..])
  }

  /** A linked<2> node.  `ptr` belongs to the linked_ptr that embeds the node (0
      when null): the object and its link are one here, as containing_adaptor
      makes them, and the list operations never touch it. */
  class Link {
    var prev: Link
    var next: Link
    var ptr: int

    /** linked_ptr(T*): a ring of its own. */
    constructor (p: int)
      ensures IsRing([this]) && ptr == p
    {
      prev, next, ptr := this, this, p;
    }

    /** linked_ptr(const linked_ptr&): joins the ring of `other`; the pointer is left as it comes. */
    constructor Copy(other: Link, ghost s: seq<Link>, ghost k: nat)
      requires IsRing(s) && k < |s| && s[k] == other
      modifies other`next, other.next`prev
      ensures IsRing(Inserted(s, k, this))
    {
      prev, next, ptr := this, this, *;
      new;
      LinkAfter(other, s, k);
    }

    /** link(prev, next).  A node linked to itself on a side is its own neighbour there. */
    method LinkBetween(prev: Link, next: Link)
      modifies this`prev, this`next, prev`next, next`prev
      ensures prev.next == this && next.prev == this
      ensures this.prev == (if next == this then this else prev)
      ensures this.next == (if prev == this then this else next)
    {
      this.prev := prev;
      this.next := next;
      prev.next := this;
      next.prev := this;
    }

    /** link(prev): exactly one node is added to the ring, right after `prev`. */
    method LinkAfter(prev: Link, ghost s: seq<Link>, ghost k: nat)
      requires IsRing(s) && k < |s| && s[k] == prev && this !in s
      modifies this`prev, this`next, prev`next, prev.next`prev
      ensures IsRing(Inserted(s, k, this))
      ensures this.prev == prev && this.next == old(prev.next)
    {
      assert Follows(s[k], s[After(|s|, k)]);
      LinkBetween(prev, prev.next);
      var r := Inserted(s, k, this);
      InsertedIsDistinct(s, k, this);
      forall i | 0 <= i < |r|
        ensures Follows(r[i], r[After(|r|, i)])
      {
        if i < k {
          assert old(Follows(s[i], s[After(|s|, i)]));
        } else if i == k + 1 {
          assert old(Follows(s[k], s[After(|s|, k)]));
        } else if i > k + 1 {
          assert old(Follows(s[i - 1], s[After(|s|, i - 1)]));
        }
      }
    }

    /** unlink(): the rest of the ring closes, and this node keeps its own fields. */
    method Unlink(ghost s: seq<Link>, ghost k: nat)
      requires IsRing(s) && k < |s| && s[k] == this
      modifies prev`next, next`prev
      ensures |s| > 1 ==> IsRing(Removed(s, k))
      ensures |s| == 1 ==> IsRing(s)
      ensures prev == old(prev) && next == old(next)
    {
      ghost var before := Before(|s|, k);
      assert Follows(s[before], s[After(|s|, before)]) && Follows(s[k], s[After(|s|, k)]);
      prev.next := next;
      next.prev := prev;
      if |s| > 1 {
        var r := Removed(s, k);
        RemovedIsDistinct(s, k);
        forall i | 0 <= i < |r|
          ensures Follows(r[i], r[After(|r|, i)])
        {
          var j := if i < k then i else i + 1;
          RemovedNeighbours(s, k, i);
          assert old(Follows(s[j], s[After(|s|, j)]));
        }
      }
    }

    /** Exchanges the places of two nodes of any rings, unless one follows the
        other.  Of the rings there were, each is a ring with the two nodes
        exchanged afterwards; if they were neighbours, all but the one they are on. */
    method Swap(other: Link, ghost u: set<Link>)
      requires this in u && other in u && WellFormed(LinksOf(u))
      modifies this`prev, this`next, prev`next, next`prev, other`prev, other`next, other.prev`next, other.next`prev
      ensures PlacesExchanged(this, other, old(LinksOf(u)), LinksOf(u))
         <==> this == other || (old(next) != other && old(other.next) != this)
      ensures LinksOf(u).ptr == old(LinksOf(u)).ptr
      ensures forall s: seq<Link> :: old(allocated(s)) && old(RingAmong(s, u)) ==>
                (RingAmong(Image(this, other, s), u) <==>
                  this == other || (old(next) != other && old(other.next) != this) || this !in s)
    {
      ghost var l := LinksOf(u);
      assert Linked(l, this) && Linked(l, other);
      RingsOnRecord(u);
      var thisNext := this.next;  // read before this.prev, possibly this itself, is written
      this.prev.SetNext(other, u);
      thisNext.SetPrev(other, u);
      var otherNext := other.next;  // likewise
      other.prev.SetNext(this, u);
      otherNext.SetPrev(this, u);
      SwapFields(other, u);
      SwapOutcome(this, other, l, LinksOf(u));
      SwappedRings(this, other, l, LinksOf(u));
      RingsOnRecord(u);
    }

    /** linked_ptr::swap.  Along every ring the pointers read as before; only
        the two objects that carry them have changed places. */
    method SwapOwners(other: Link, ghost u: set<Link>)
      requires this in u && other in u && WellFormed(LinksOf(u))
      requires this == other || (next != other && other.next != this)
      modifies this`prev, this`next, prev`next, next`prev, other`prev, other`next, other.prev`next, other.next`prev
      modifies this`ptr, other`ptr
      ensures WellFormed(LinksOf(u))
      ensures PlacesExchanged(this, other, old(LinksOf(u)), LinksOf(u))
      ensures forall s :: RingIn(old(LinksOf(u)), s) ==>
                && RingIn(LinksOf(u), Image(this, other, s))
                && Pointers(LinksOf(u), Image(this, other, s)) == Pointers(old(LinksOf(u)), s)
    {
      ghost var l := LinksOf(u);
      Swap(other, u);
      ghost var m := LinksOf(u);
      SwapPointers(other, u);
      ghost var r := LinksOf(u);
      SamePlaces(this, other, l, m, r);
      AllRingsExchanged(this, other, l, r);
    }

    /** use_count(): walks prev from this node until it is back, counting the
        members with a pointer; `visited` records the walk, backwards round the ring. */
    method UseCount(ghost s: seq<Link>, ghost k: nat) returns (c: int, ghost visited: seq<Link>)
      requires IsRing(s) && k < |s| && s[k] == this
      ensures c == Owners(s)
      ensures |visited| == |s|
      ensures forall i :: 0 <= i < |s| ==> visited[i] == s[if i <= k then k - i else k - i + |s|]
    {
      ghost var t := s[k..] + s[..k];
      RotatedRing(s, k);
      OwnersFromAnywhere(s, k);
      c := if ptr != 0 then 1 else 0;
      visited := [this];
      ghost var j := |t| - 1;
      assert Follows(t[j], t[After(|t|, j)]);
      var i := prev;
      while i != this
        invariant 0 <= j < |t| && i == t[j]
        invariant c == (if ptr != 0 then 1 else 0) + Owners(t[j + 1..])
        invariant |visited| == |t| - j && visited[0] == this
        invariant forall n :: 0 < n < |visited| ==> visited[n] == t[|t| - n]
        decreases j
      {
        assert t[j..][1..] == t[j + 1..];
        assert Follows(t[j - 1], t[After(|t|, j - 1)]);
        if i.ptr != 0 {
          c := c + 1;
        }
        visited := visited + [i];
        j := j - 1;
        i := i.prev;
      }
      assert j == 0;
    }

    /** unique(): a ring of two still has prev == next.  It agrees with the count
        for one member, for two when the other one is null, and for more exactly
        when the count is not one. */
    method Unique(ghost s: seq<Link>, ghost k: nat) returns (r: bool)
      requires IsRing(s) && k < |s| && s[k] == this
      ensures r <==> |s| <= 2 && ptr != 0
      ensures (r <==> Owners(s) == 1) <==>
                || |s| == 1
                || (|s| == 2 && s[1 - k].ptr == 0)
                || (|s| > 2 && Owners(s) != 1)
    {
      NextEqualsPrev(s, k);
      FewOwners(s);
      r := prev == next && ptr != 0;
    }

    /** The destructor.  It leaves the other members a ring of their own exactly
        when there is not just one of them: that one keeps pointing here. */
    method Destroy(ghost s: seq<Link>, ghost k: nat)
      requires IsRing(s) && k < |s| && s[k] == this
      modifies prev`next, next`prev
      ensures |s| > 1 ==> (IsRing(Removed(s, k)) <==> |s| != 2)
      ensures |s| == 2 ==> s[1 - k].next == this && s[1 - k].prev == this
      ensures |s| == 1 ==> IsRing(s)
    {
      NextEqualsPrev(s, k);
      if prev != next {
        Unlink(s, k);
      } else if |s| == 2 {
        assert Follows(s[0], s[After(2, 0)]) && Follows(s[1], s[After(2, 1)]);
        assert Removed(s, k) == [s[1 - k]];
        assert !Follows(s[1 - k], s[1 - k]);
        assert !IsRing([s[1 - k]]) by { assert [s[1 - k]][After(1, 0)] == s[1 - k]; }
      }
    }

    /** The two std::swap that close swap. */
    method SwapFields(other: Link, ghost u: set<Link>)
      requires this in u && other in u
      modifies this`prev, this`next, other`prev, other`next
      ensures LinksOf(u) == CrossLinks(old(LinksOf(u)), this, other)
    {
      var t := this.prev;
      SetPrev(other.prev, u);
      other.SetPrev(t, u);
      t := this.next;
      SetNext(other.next, u);
      other.SetNext(t, u);
    }

    method SwapPointers(other: Link, ghost u: set<Link>)
      requires this in u && other in u
      modifies this`ptr, other`ptr
      ensures PointersExchanged(this, other, old(LinksOf(u)), LinksOf(u))
      ensures LinksOf(u).next == old(LinksOf(u)).next && LinksOf(u).prev == old(LinksOf(u)).prev
    {
      ptr, other.ptr := other.ptr, ptr;
      assert LinksOf(u).next == old(LinksOf(u)).next && LinksOf(u).prev == old(LinksOf(u)).prev;
    }

    method SetNext(x: Link, ghost u: set<Link>)
      requires this in u
      modifies this`next
      ensures next == x
      ensures var l := old(LinksOf(u)); LinksOf(u) == l.(next := l.next[this := x])
    {
      next := x;
      assert LinksOf(u).prev == old(LinksOf(u)).prev;
      assert LinksOf(u).ptr == old(LinksOf(u)).ptr;
    }

    method SetPrev(x: Link, ghost u: set<Link>)
      requires this in u
      modifies this`prev
      ensures prev == x
      ensures var l := old(LinksOf(u)); LinksOf(u) == l.(prev := l.prev[this := x])
    {
      prev := x;
      assert LinksOf(u).next == old(LinksOf(u)).next;
      assert LinksOf(u).ptr == old(LinksOf(u)).ptr;
    }
  }

  /** link then unlink: every other member of the ring has its fields back. */
  method LinkThenUnlink(x: Link, prev: Link, ghost s: seq<Link>, ghost k: nat)
    requires IsRing(s) && k < |s| && s[k] == prev && x !in s
    modifies x`prev, x`next, prev`next, prev.next`prev
    ensures IsRing(s)
    ensures forall y :: y in s ==> y.next == old(y.next) && y.prev == old(y.prev)
  {
    x.LinkAfter(prev, s, k);
    ghost var r := Inserted(s, k, x);
    assert r[k + 1] == x && Removed(r, k + 1) == s;
    assert old(Follows(s[k], s[After(|s|, k)]));
    x.Unlink(r, k + 1);
  }

  lemma NextEqualsPrev(s: seq<Link>, k: nat)
    requires IsRing(s) && k < |s|
    ensures s[k].prev == s[k].next <==> |s| <= 2
  {
    var before := Before(|s|, k);
    assert Follows(s[k], s[After(|s|, k)]) && Follows(s[before], s[After(|s|, before)]);
  }

  lemma FewOwners(s: seq<Link>)
    ensures |s| == 1 ==> Owners(s) == if s[0].ptr != 0 then 1 else 0
    ensures |s| == 2 ==> Owners(s) == (if s[0].ptr != 0 then 1 else 0) + (if s[1].ptr != 0 then 1 else 0)
  {
    if |s| > 0 {
      assert |s| == 1 ==> s[1..] == [];
    }
  }

  /** A ring may be read from any of its members. */
  lemma RotatedRing(s: seq<Link>, k: nat)
    requires IsRing(s) && k < |s|
    ensures IsRing(s[k..] + s[..k])
  {
    var t := s[k..] + s[..k];
    forall i | 0 <= i < |t|
      ensures Follows(t[i], t[After(|t|, i)])
    {
      var j := if i + k < |s| then i + k else i + k - |s|;
      assert Follows(s[j], s[After(|s|, j)]);
    }
  }

  /** Counting from any member gives the same number. */
  lemma OwnersFromAnywhere(s: seq<Link>, k: nat)
    requires k < |s|
    ensures Owners(s[k..] + s[..k]) == Owners(s)
  {
    OwnersConcat(s[k..], s[..k]);
    OwnersConcat(s[..k], s[k..]);
    assert s[..k] + s[k..] == s;
  }

  /** The owners are the members whose pointer is not null. */
  lemma {:induction false} OwnersAreCounted(s: seq<Link>)
    ensures Owners(s) == |set i | 0 <= i < |s| && s[i].ptr != 0|
  {
    var owning := set i | 0 <= i < |s| && s[i].ptr != 0;
    if s == [] {
      assert owning == {};
    } else {
      var n := |s| - 1;
      assert s == s[..n] + [s[n]];
      OwnersConcat(s[..n], [s[n]]);
      OwnersAreCounted(s[..n]);
      var before := set i | 0 <= i < |s[..n]| && s[..n][i].ptr != 0;
      assert owning == before + if s[n].ptr != 0 then {n} else {};
      FewOwners([s[n]]);
    }
  }

  lemma {:induction false} OwnersConcat(s: seq<Link>, t: seq<Link>)
    ensures Owners(s + t) == Owners(s) + Owners(t)
  {
    if s == [] {
      assert s + t == t;
    } else {
      assert (s + t)[1..] == s[1..] + t;
      OwnersConcat(s[1..], t);
    }
  }

  /** A ring in memory is the same thing on the recorded fields of any set around it. */
  lemma RingOnRecord(u: set<Link>, s: seq<Link>)
    ensures RingAmong(s, u) <==> RingIn(LinksOf(u), s)
  {
    var l := LinksOf(u);
    if RingIn(l, s) {
      forall i | 0 <= i < |s|
        ensures s[i] in u
      {
        assert FollowsIn(l, s[i], s[After(|s|, i)]);
      }
    }
    if forall i :: 0 <= i < |s| ==> s[i] in u {
      forall i | 0 <= i < |s|
        ensures Follows(s[i], s[After(|s|, i)]) <==> FollowsIn(l, s[i], s[After(|s|, i)])
      {
      }
    }
  }

  lemma RingsOnRecord(u: set<Link>)
    ensures forall s :: RingAmong(s, u) <==> RingIn(LinksOf(u), s)
  {
    forall s: seq<Link>
      ensures RingAmong(s, u) <==> RingIn(LinksOf(u), s)
    {
      RingOnRecord(u, s);
    }
  }

  /** The next field of x and the prev field of y assigned. */
  function SetLinks(l: Links, x: Link, next: Link, y: Link, prev: Link): Links {
    l.(next := l.next[x := next], prev := l.prev[y := prev])
  }

  /** The two std::swap of the fields of a and b. */
  function CrossLinks(l: Links, a: Link, b: Link): Links
    requires {a, b} <= l.next.Keys && {a, b} <= l.prev.Keys
  {
    l.(next := l.next[a := l.next[b]][b := l.next[a]], prev := l.prev[a := l.prev[b]][b := l.prev[a]])
  }

  /** The fields of x when swap returns. */
  ghost predicate Swapped(a: Link, b: Link, l: Links, r: Links, x: Link) {
    && x in r.next && x in r.prev && x in l.next && x in l.prev && a in l.next && a in l.prev && b in l.next && b in l.prev
    && r.next[x] == (if x == a then Exchanged(a, b, l.next[b])
                     else if x == b then Exchanged(a, b, l.next[a])
                     else if x == l.prev[a] then b else if x == l.prev[b] then a else l.next[x])
    && r.prev[x] == (if x == a then Exchanged(a, b, l.prev[b])
                     else if x == b then Exchanged(a, b, l.prev[a])
                     else if x == l.next[a] then b else if x == l.next[b] then a else l.prev[x])
  }

  lemma SwapOutcome(a: Link, b: Link, l: Links, r: Links)
    requires WellFormed(l) && a in l.next && b in l.next
    requires Linked(l, a) && Linked(l, b)
    requires var m := SetLinks(l, l.prev[a], b, l.next[a], b);
             r == CrossLinks(SetLinks(m, m.prev[b], a, m.next[b], a), a, b)
    ensures PlacesExchanged(a, b, l, r) <==> a == b || (l.next[a] != b && l.next[b] != a)
  {
    if a == b {
      assert r == l;
      SwapSelf(a, l);
    } else if l.next[a] == b || l.next[b] == a {
      SwapNeighbours(a, b, l, r);
    } else {
      SwapPlaces(a, b, l, r);
    }
  }

  /** Which rings have the two nodes exchanged when swap returns. */
  lemma SwappedRings(a: Link, b: Link, l: Links, r: Links)
    requires WellFormed(l) && a in l.next && b in l.next
    requires Linked(l, a) && Linked(l, b)
    requires var m := SetLinks(l, l.prev[a], b, l.next[a], b);
             r == CrossLinks(SetLinks(m, m.prev[b], a, m.next[b], a), a, b)
    ensures forall s :: RingIn(l, s) ==>
              (RingIn(r, Image(a, b, s)) <==> a == b || (l.next[a] != b && l.next[b] != a) || a !in s)
  {
    SwapOutcome(a, b, l, r);
    forall s | RingIn(l, s)
      ensures RingIn(r, Image(a, b, s)) <==> a == b || (l.next[a] != b && l.next[b] != a) || a !in s
    {
      if a == b || (l.next[a] != b && l.next[b] != a) {
        ExchangedRing(a, b, l, r, s);
      } else {
        forall x | x in l.next
          ensures Aside(a, b, l, r, x)
        {
          assert Linked(l, x);
        }
        NeighbourRings(a, b, l, r, s);
      }
    }
  }

  lemma InBetween(l: Links, s: seq<Link>, i: nat)
    requires RingIn(l, s) && i < |s|
    ensures FollowsIn(l, s[i], s[After(|s|, i)]) && FollowsIn(l, s[Before(|s|, i)], s[i])
  {
    var before := Before(|s|, i);
    assert FollowsIn(l, s[before], s[After(|s|, before)]);
  }

  /** The fields of x are untouched if neither it nor a neighbour of it is a or b. */
  ghost predicate Aside(a: Link, b: Link, l: Links, r: Links, x: Link) {
    && x in l.next && x in l.prev
    && (x != a && x != b && l.prev[x] != a && l.prev[x] != b && l.next[x] != a && l.next[x] != b ==>
          x in r.next && x in r.prev && r.next[x] == l.next[x] && r.prev[x] == l.prev[x])
  }

  /** Swapping neighbours tears their ring: one of them is linked to itself.  Others stay as they are. */
  lemma NeighbourRings(a: Link, b: Link, l: Links, r: Links, s: seq<Link>)
    requires WellFormed(l) && a in l.next && b in l.next && a != b && RingIn(l, s)
    requires l.next[a] == b || l.next[b] == a
    requires a in r.next && a in r.prev && (r.next[a] == a || r.prev[a] == a)
    requires forall x {:trigger Aside(a, b, l, r, x)} :: x in l.next ==> Aside(a, b, l, r, x)
    ensures RingIn(r, Image(a, b, s)) <==> a !in s
  {
    assert Linked(l, a) && Linked(l, b);
    if a in s || b in s {
      var i := NeighboursTogether(a, b, l, s);
      LoopIsAlone(r, Image(a, b, s), i);
    } else {
      assert Image(a, b, s) == s;
      forall i | 0 <= i < |s|
        ensures FollowsIn(r, s[i], s[After(|s|, i)])
      {
        var x, y := s[i], s[After(|s|, i)];
        InBetween(l, s, i);
        InBetween(l, s, After(|s|, i));
        assert Aside(a, b, l, r, x) && Aside(a, b, l, r, y);
      }
    }
  }

  /** A ring with one of two neighbours has both; i is where the second one is. */
  lemma NeighboursTogether(a: Link, b: Link, l: Links, s: seq<Link>) returns (i: nat)
    requires a != b && RingIn(l, s) && (a in s || b in s)
    requires Linked(l, a) && Linked(l, b) && (l.next[a] == b || l.next[b] == a)
    ensures i < |s| && s[i] == b && a in s && |s| > 1
  {
    var k: nat :| k < |s| && (s[k] == a || s[k] == b);
    InBetween(l, s, k);
    if s[k] == b {
      i := k;
    } else {
      i := if l.next[a] == b then After(|s|, k) else Before(|s|, k);
    }
  }

  /** A node linked to itself is in no ring of more than one. */
  lemma LoopIsAlone(r: Links, t: seq<Link>, i: nat)
    requires i < |t| && |t| > 1 && t[i] in r.next && t[i] in r.prev
    requires r.next[t[i]] == t[i] || r.prev[t[i]] == t[i]
    ensures !RingIn(r, t)
  {
    if RingIn(r, t) {
      InBetween(r, t, i);
      assert false;
    }
  }

  lemma SwapSelf(a: Link, l: Links)
    requires WellFormed(l) && a in l.next
    ensures PlacesExchanged(a, a, l, l)
  {
    forall x | x in l.next
      ensures TakesPlace(a, a, l, l, x)
    {
      assert Linked(l, x);
    }
  }

  /** A neighbour that has become its own successor or predecessor is not in the other's place. */
  lemma SwapNeighbours(a: Link, b: Link, l: Links, r: Links)
    requires WellFormed(l) && a in l.next && b in l.next && a != b
    requires l.next[a] == b || l.next[b] == a
    requires a in r.next && a in r.prev
    requires r.next[a] == a || r.prev[a] == a
    ensures !PlacesExchanged(a, b, l, r)
  {
    assert Linked(l, a) && Linked(l, b);
    assert !TakesPlace(a, b, l, r, a);
  }

  /** What the assignments of swap leave behind for two nodes that are not neighbours. */
  lemma SwapPlaces(a: Link, b: Link, l: Links, r: Links)
    requires WellFormed(l) && a in l.next && b in l.next && a != b
    requires l.next[a] != b && l.next[b] != a
    requires r.next.Keys == r.prev.Keys == l.next.Keys
    requires forall x :: x in r.next ==> Swapped(a, b, l, r, x)
    ensures PlacesExchanged(a, b, l, r)
  {
    assert Linked(l, a) && Linked(l, b);
    forall x | x in r.next
      ensures TakesPlace(a, b, l, r, x)
    {
      assert Linked(l, x) && Swapped(a, b, l, r, x);
    }
  }

  /** IsRing on the recorded fields. */
  ghost predicate RingIn(l: Links, s: seq<Link>) {
    && |s| > 0
    && Distinct(s)
    && (forall i :: 0 <= i < |s| ==> FollowsIn(l, s[i], s[After(|s|, i)]))
  }

  ghost predicate FollowsIn(l: Links, x: Link, y: Link) {
    x in l.next && y in l.prev && l.next[x] == y && l.prev[y] == x
  }

  /** The ring that has each of two nodes where the other was. */
  function Image(a: Link, b: Link, s: seq<Link>): (t: seq<Link>)
    ensures |t| == |s|
  {
    seq(|s|, i requires 0 <= i < |s| => Exchanged(a, b, s[i]))
  }

  function Pointers(l: Links, s: seq<Link>): seq<int> {
    seq(|s|, i requires 0 <= i < |s| => if s[i] in l.ptr then l.ptr[s[i]] else 0)
  }

  lemma SamePlaces(a: Link, b: Link, l: Links, m: Links, r: Links)
    requires PlacesExchanged(a, b, l, m) && r.next == m.next && r.prev == m.prev
    ensures PlacesExchanged(a, b, l, r)
  {
    forall x | x in r.next
      ensures TakesPlace(a, b, l, r, x)
    {
      assert TakesPlace(a, b, l, m, x);
    }
  }

  /** Whether it holds one of the nodes, both or neither, every ring stays a ring
      with exactly those two exchanged. */
  lemma ExchangedRing(a: Link, b: Link, l: Links, r: Links, s: seq<Link>)
    requires WellFormed(l) && a in l.next && b in l.next && PlacesExchanged(a, b, l, r)
    requires RingIn(l, s)
    ensures RingIn(r, Image(a, b, s))
  {
    var t := Image(a, b, s);
    forall i | 0 <= i < |t|
      ensures FollowsIn(r, t[i], t[After(|t|, i)])
    {
      var x, y := s[i], s[After(|s|, i)];
      assert FollowsIn(l, x, y);
      assert Linked(l, x) && Linked(l, y);
      assert TakesPlace(a, b, l, r, Exchanged(a, b, x));
      assert TakesPlace(a, b, l, r, Exchanged(a, b, y));
    }
  }

  /** Each of a and b carries the pointer the other had; the rest keep theirs. */
  ghost predicate PointersExchanged(a: Link, b: Link, l: Links, r: Links)
    requires a in l.ptr && b in l.ptr
  {
    r.ptr == l.ptr[a := l.ptr[b]][b := l.ptr[a]]
  }

  lemma AllRingsExchanged(a: Link, b: Link, l: Links, r: Links)
    requires WellFormed(l) && l.ptr.Keys == l.next.Keys && a in l.next && b in l.next
    requires PlacesExchanged(a, b, l, r) && PointersExchanged(a, b, l, r)
    ensures WellFormed(r)
    ensures forall s :: RingIn(l, s) ==>
              RingIn(r, Image(a, b, s)) && Pointers(r, Image(a, b, s)) == Pointers(l, s)
  {
    ExchangeIsWellFormed(a, b, l, r);
    forall s | RingIn(l, s)
      ensures RingIn(r, Image(a, b, s)) && Pointers(r, Image(a, b, s)) == Pointers(l, s)
    {
      ExchangedRing(a, b, l, r, s);
      forall i | 0 <= i < |s|
        ensures Pointers(r, Image(a, b, s))[i] == Pointers(l, s)[i]
      {
        assert FollowsIn(l, s[i], s[After(|s|, i)]);
      }
    }
  }

  lemma ExchangeIsWellFormed(a: Link, b: Link, l: Links, r: Links)
    requires WellFormed(l) && a in l.next && b in l.next && PlacesExchanged(a, b, l, r)
    ensures WellFormed(r)
  {
    forall x | x in r.next
      ensures Linked(r, x)
    {
      var y := Exchanged(a, b, x);
      assert Linked(l, y);
      assert TakesPlace(a, b, l, r, x);
      assert TakesPlace(a, b, l, r, Exchanged(a, b, l.next[y]));
      assert TakesPlace(a, b, l, r, Exchanged(a, b, l.prev[y]));
    }
  }
}
