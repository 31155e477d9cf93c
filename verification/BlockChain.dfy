/** Iterated hashing: a chaining value driven through the 64-byte blocks of a
    message by any compression function.  These are the facts about cutting a
    message into pieces that do not depend on what the compression computes. */
module BlockChain {

  type Byte = bv8

  type Block = m: seq<Byte> | |m| == 64 witness seq(64, _ => 0)

  type Compression<!S> = (S, Block) -> S

  /** Compresses the complete blocks of `m`, in order. */
  function Fold<S>(f: Compression<S>, s: S, m: seq<Byte>): S
    decreases |m|
  {
    if |m| < 64 then s else Fold(f, f(s, m[..64]), m[64..])
  }

  /** Compresses the complete blocks of each piece in turn. */
  function FoldAll<S>(f: Compression<S>, s: S, ps: seq<seq<Byte>>): S
    decreases |ps|
  {
    if ps == [] then s else FoldAll(f, Fold(f, s, ps[0]), ps[1..])
  }

  function Flatten(ps: seq<seq<Byte>>): seq<Byte> {
    if ps == [] then [] else ps[0] + Flatten(ps[1..])
  }

  lemma {:induction false} FoldConcat<S>(f: Compression<S>, s: S, p: seq<Byte>, q: seq<Byte>)
    requires |p| % 64 == 0
    ensures Fold(f, s, p + q) == Fold(f, Fold(f, s, p), q)
    decreases |p|
  {
    if p == [] {
      assert p + q == q;
    } else {
      assert |p| >= 64;
      assert (p + q)[..64] == p[..64];
      assert (p + q)[64..] == p[64..] + q;
      FoldConcat(f, f(s, p[..64]), p[64..], q);
    }
  }

  /** Folding stops at the last complete block, whatever the length. */
  lemma {:induction false} FoldDropsRemainder<S>(f: Compression<S>, s: S, m: seq<Byte>)
    ensures Fold(f, s, m) == Fold(f, s, m[..64 * (|m| / 64)])
    decreases |m|
  {
    var n := 64 * (|m| / 64);
    if |m| < 64 {
      assert n == 0;
    } else {
      assert m[..n][..64] == m[..64];
      assert m[..n][64..] == m[64..][..n - 64];
      assert 64 * (|m[64..]| / 64) == n - 64;
      FoldDropsRemainder(f, f(s, m[..64]), m[64..]);
    }
  }

  lemma FoldBlocks<S>(f: Compression<S>, s: S, p: seq<Byte>)
    ensures |p| == 64 ==> Fold(f, s, p) == f(s, p)
    ensures |p| == 128 ==> Fold(f, s, p) == f(f(s, p[..64]), p[64..])
    decreases |p|
  {
    if |p| == 64 {
      assert p[..64] == p;
    } else if |p| == 128 {
      FoldBlocks(f, f(s, p[..64]), p[64..]);
    }
  }

  lemma FoldNext<S>(f: Compression<S>, s: S, m: seq<Byte>, i: nat)
    requires 64 * i <= |m|
    ensures 64 * i + 64 <= |m| ==>
              Fold(f, s, m[64 * i..]) == Fold(f, f(s, m[64 * i..64 * i + 64]), m[64 * (i + 1)..])
    ensures |m| < 64 * i + 64 ==> Fold(f, s, m[64 * i..]) == s
  {
    if 64 * i + 64 <= |m| {
      assert m[64 * i..][..64] == m[64 * i..64 * i + 64];
      assert m[64 * i..][64..] == m[64 * (i + 1)..];
    }
  }

  /** What follows the complete blocks can be absorbed after them. */
  lemma FoldSuffix<S>(f: Compression<S>, s: S, m: seq<Byte>, x: seq<Byte>)
    ensures Fold(f, Fold(f, s, m), m[64 * (|m| / 64)..] + x) == Fold(f, s, m + x)
  {
    var n := 64 * (|m| / 64);
    FoldDropsRemainder(f, s, m);
    FoldConcat(f, s, m[..n], m[n..] + x);
    assert m[..n] + (m[n..] + x) == m + x;
  }

  lemma {:induction false} FlattenAligned(ps: seq<seq<Byte>>)
    requires forall p :: p in ps ==> |p| % 64 == 0
    ensures |Flatten(ps)| % 64 == 0
  {
    if ps != [] {
      FlattenAligned(ps[1..]);
      assert ps[0] in ps;
      AlignedSum(|ps[0]|, |Flatten(ps[1..])|);
    }
  }

  lemma AlignedSum(a: nat, b: nat)
    requires a % 64 == 0 && b % 64 == 0
    ensures (a + b) % 64 == 0
  {
  }

  /** Block-aligned pieces may be absorbed one by one. */
  lemma {:induction false} FoldPieces<S>(f: Compression<S>, s: S, ps: seq<seq<Byte>>)
    requires forall p :: p in ps ==> |p| % 64 == 0
    ensures FoldAll(f, s, ps) == Fold(f, s, Flatten(ps))
    decreases |ps|
  {
    if ps != [] {
      assert ps[0] in ps;
      FoldPieces(f, Fold(f, s, ps[0]), ps[1..]);
      FoldConcat(f, s, ps[0], Flatten(ps[1..]));
    }
  }

  /** Block-aligned pieces followed by the rest give the value of the whole message with any suffix. */
  lemma FoldPiecesThenTail<S>(f: Compression<S>, s: S, ps: seq<seq<Byte>>, tail: seq<Byte>, x: seq<Byte>)
    requires forall p :: p in ps ==> |p| % 64 == 0
    requires |tail| < 64
    ensures var m := Flatten(ps) + tail;
            Fold(f, FoldAll(f, s, ps), m[64 * (|m| / 64)..] + x) == Fold(f, s, m + x)
  {
    var m := Flatten(ps) + tail;
    FoldPieces(f, s, ps);
    FlattenAligned(ps);
    AlignedPrefix(|Flatten(ps)|, |tail|);
    assert m[|Flatten(ps)|..] == tail;
    FoldConcat(f, s, Flatten(ps), tail + x);
    assert m + x == Flatten(ps) + (tail + x);
  }

  lemma AlignedPrefix(a: nat, b: nat)
    requires a % 64 == 0 && b < 64
    ensures 64 * ((a + b) / 64) == a
  {
  }
}
