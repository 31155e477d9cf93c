/** ntl/crypto/sha.hxx on a little-endian host, proved against `Sha1Spec`.
    Memory is bytes; a 32-bit object is loaded from and stored to it least
    significant byte first, and `BigEndian` is the byte swap of ntl/stdlib.hxx. */
module Sha1 {
  import opened BlockChain
  import opened PadBuffer
  import opened Sha1Spec

  // ---------------------------------------------------------------- host memory and ntl/stdlib.hxx

  /** A uint32_t read through a pointer to four bytes. */
  function LoadWord(b0: Byte, b1: Byte, b2: Byte, b3: Byte): Word {
    (b3 as bv32 << 24) | (b2 as bv32 << 16) | (b1 as bv32 << 8) | (b0 as bv32)
  }

  /** The four bytes of a stored uint32_t, in address order. */
  function StoredWord(x: Word): (b: seq<Byte>)
    ensures |b| == 4
  {
    [(x & 0xFF) as Byte, ((x >> 8) & 0xFF) as Byte, ((x >> 16) & 0xFF) as Byte, (x >> 24) as Byte]
  }

  /** The eight bytes of a stored uint64_t, in address order. */
  function StoredWord64(x: bv64): (b: seq<Byte>)
    ensures |b| == 8
  {
    [(x & 0xFF) as Byte, ((x >> 8) & 0xFF) as Byte, ((x >> 16) & 0xFF) as Byte, ((x >> 24) & 0xFF) as Byte,
     ((x >> 32) & 0xFF) as Byte, ((x >> 40) & 0xFF) as Byte, ((x >> 48) & 0xFF) as Byte, (x >> 56) as Byte]
  }

  function BigEndian(x: Word): Word {
    (x << 24) | ((x & 0xFF00) << 8) | ((x >> 8) & 0xFF00) | (x >> 24)
  }

  function BigEndian64(x: bv64): bv64 {
    (x << 56) | ((x & 0xFF00) << 40) | ((x & 0xFF_0000) << 24) | ((x & 0xFF00_0000) << 8)
    | ((x >> 8) & 0xFF00_0000) | ((x >> 24) & 0xFF_0000) | ((x >> 40) & 0xFF00) | (x >> 56)
  }

  /** The host is little-endian, and big_endian turns the bytes in memory round. */
  lemma HostOrder(b0: Byte, b1: Byte, b2: Byte, b3: Byte)
    ensures LoadWord(b0, b1, b2, b3)
         == (b0 as bv32) + (b1 as bv32 << 8) + (b2 as bv32 << 16) + (b3 as bv32 << 24)
  {
  }

  lemma StoredAndLoaded(b0: Byte, b1: Byte, b2: Byte, b3: Byte)
    ensures StoredWord(LoadWord(b0, b1, b2, b3)) == [b0, b1, b2, b3]
    ensures StoredWord(BigEndian(LoadWord(b0, b1, b2, b3))) == [b3, b2, b1, b0]
  {
  }

  /** rotl(x, 1), rotl(x, 5) and rotr(x, 2): the processor's rotations. */
  function HostRotl1(x: Word): Word { x.RotateLeft(1) }
  function HostRotl5(x: Word): Word { x.RotateLeft(5) }
  function HostRotr2(x: Word): Word { x.RotateRight(2) }

  /** Which the standard's shifts (section 3.2) compute, and ROTL by 30 is ROTR by 2. */
  lemma Rotations(x: Word)
    ensures Rotl1(x) == x.RotateLeft(1)
    ensures Rotl5(x) == x.RotateLeft(5)
    ensures Rotl30(x) == x.RotateLeft(30) == x.RotateRight(2)
  {
  }

  // ---------------------------------------------------------------- the source's f and k

  /** The round constant with its sign changed. */
  function NegatedK(t: nat): Word {
    if t < 20 then 0 - 0x5A827999
    else if t < 40 then 0 - 0x6ED9EBA1
    else if t < 60 then 0 - 0x8F1BBCDC
    else 0 - 0xCA62C1D6
  }

  function RewrittenF(t: nat, b: Word, c: Word, d: Word): Word {
    if t < 20 then ((c ^ d) & b) ^ d
    else if t < 40 then b ^ c ^ d
    else if t < 60 then ((c | d) & b) | (c & d)
    else b ^ c ^ d
  }

  /** A word of the schedule from the 16th on. */
  function NextWord(w3: Word, w8: Word, w14: Word, w16: Word): Word { HostRotl1(w3 ^ w8 ^ w14 ^ w16) }

  lemma NextWordIsMix(w3: Word, w8: Word, w14: Word, w16: Word)
    ensures NextWord(w3, w8, w14, w16) == Mix(w3, w8, w14, w16)
    ensures Mix(w3, w8, w14, w16) == (w3 ^ w8 ^ w14 ^ w16).RotateLeft(1)
  {
    Rotations(w3 ^ w8 ^ w14 ^ w16);
  }

  /** The source's `temp`. */
  function Temp(a5: Word, f: Word, e: Word, w: Word, nk: Word): Word { a5 + f + e + w - nk }

  // ---------------------------------------------------------------- each rewriting is the standard's operation

  lemma RewrittenCh(b: Word, c: Word, d: Word)
    ensures ((c ^ d) & b) ^ d == Ch(b, c, d)
  {
  }

  lemma RewrittenMaj(b: Word, c: Word, d: Word)
    ensures ((c | d) & b) | (c & d) == Maj(b, c, d)
  {
  }

  lemma EarlyF(t: nat, b: Word, c: Word, d: Word)
    requires t < 20
    ensures RewrittenF(t, b, c, d) == F(t, b, c, d)
  {
    RewrittenCh(b, c, d);
  }

  lemma LateF(t: nat, b: Word, c: Word, d: Word)
    requires 40 <= t < 60
    ensures RewrittenF(t, b, c, d) == F(t, b, c, d)
  {
    RewrittenMaj(b, c, d);
  }

  lemma MiddleF(t: nat, b: Word, c: Word, d: Word)
    requires 20 <= t < 40
    ensures RewrittenF(t, b, c, d) == F(t, b, c, d)
  {
  }

  lemma LastF(t: nat, b: Word, c: Word, d: Word)
    requires 60 <= t
    ensures RewrittenF(t, b, c, d) == F(t, b, c, d)
  {
  }

  lemma RewrittenFIsF(t: nat, b: Word, c: Word, d: Word)
    ensures RewrittenF(t, b, c, d) == F(t, b, c, d)
  {
    if t < 20 {
      EarlyF(t, b, c, d);
    } else if 40 <= t < 60 {
      LateF(t, b, c, d);
    } else if t < 40 {
      MiddleF(t, b, c, d);
    } else {
      LastF(t, b, c, d);
    }
  }

  lemma NegatedKIsMinusK(t: nat)
    ensures NegatedK(t) == 0 - K(t)
  {
  }

  lemma SubtractNegated(x: Word, w: Word, k: Word)
    ensures x + w - (0 - k) == x + k + w
  {
  }

  lemma SwappedLoad(b0: Byte, b1: Byte, b2: Byte, b3: Byte)
    ensures BigEndian(LoadWord(b0, b1, b2, b3)) == WordOf(b0, b1, b2, b3)
  {
  }

  lemma SwapTwice(x: Word)
    ensures BigEndian(BigEndian(x)) == x
  {
  }

  lemma StoredSwapped(x: Word)
    ensures StoredWord(x) == BytesOf(BigEndian(x))
  {
  }

  lemma StoredSwapped64(x: bv64)
    ensures StoredWord64(BigEndian64(x)) == LengthField(x)
  {
  }

  lemma TempIsSum(a5: Word, f: Word, e: Word, w: Word, k: Word)
    ensures Temp(a5, f, e, w, 0 - k) == Sum(a5, f, e, k, w)
  {
    SubtractNegated(a5 + f + e, w, k);
  }

  /** One pass of either loop of the compression, as a function of the working variables. */
  function Step(t: nat, s: State, w: Word): State {
    State(Temp(HostRotl5(s.a), RewrittenF(t, s.b, s.c, s.d), s.e, w, NegatedK(t)), s.a, HostRotr2(s.b), s.c, s.d)
  }

  lemma StepIsRound(t: nat, s: State, w: Word)
    ensures Step(t, s, w) == Round(s, F(t, s.b, s.c, s.d), K(t), w)
  {
    RewrittenFIsF(t, s.b, s.c, s.d);
    NegatedKIsMinusK(t);
    TempIsSum(Rotl5(s.a), F(t, s.b, s.c, s.d), s.e, w, K(t));
    Rotations(s.a);
    Rotations(s.b);
  }

  /** The first loop passes 0 for t, which takes the same branch of f and of k. */
  lemma FirstLoopStep(t: nat, s: State, w: Word)
    requires t < 20
    ensures Step(0, s, w) == Step(t, s, w)
  {
  }

  lemma StepAdvances(t: nat, s: State, m: Block)
    ensures Step(t, Rounds(s, m, t), W(m, t)) == Rounds(s, m, t + 1)
    ensures t < 20 ==> Step(0, Rounds(s, m, t), W(m, t)) == Rounds(s, m, t + 1)
  {
    var v := Rounds(s, m, t);
    StepIsRound(t, v, W(m, t));
    if t < 20 {
      FirstLoopStep(t, v, W(m, t));
    }
  }

  /** big_endian(w0[t]): word t of a block in memory. */
  function BlockWord(m: Block, t: nat): (w: Word)
    requires t < 16
    ensures w == W(m, t)
  {
    SwappedLoad(m[4 * t], m[4 * t + 1], m[4 * t + 2], m[4 * t + 3]);
    BigEndian(LoadWord(m[4 * t], m[4 * t + 1], m[4 * t + 2], m[4 * t + 3]))
  }

  /** Adds to a word kept byte-swapped: big_endian(big_endian(h) + x). */
  function AddResident(h: Word, x: Word): (r: Word)
    ensures BigEndian(r) == Plus(x, BigEndian(h))
  {
    SwapTwice(BigEndian(h) + x);
    BigEndian(BigEndian(h) + x)
  }

  // ---------------------------------------------------------------- the message tail

  /** The message length in bits as the source computes it, in a 64-bit unsigned integer. */
  function BitLength(n: nat): bv64 { (8 * n % 0x1_0000_0000_0000_0000) as bv64 }

  /** The eight bytes that storing big_endian(bytes * 8) leaves in memory. */
  function StoredLength(n: nat): (b: seq<Byte>)
    ensures |b| == 8
    ensures b == LengthField(BitLength(n))
  {
    StoredSwapped64(BitLength(n));
    StoredWord64(BigEndian64(BitLength(n)))
  }

  /** Padding for every length: the standard's, with the length field taken modulo 2^64. */
  function FullPadding(n: nat): seq<Byte> {
    [0x80] + seq(ZeroBytes(n), _ => 0 as Byte) + LengthField(BitLength(n))
  }

  lemma FullPaddingIsPadding(n: nat)
    requires n < 0x2000_0000_0000_0000
    ensures FullPadding(n) == Padding(n)
  {
    assert 8 * n % 0x1_0000_0000_0000_0000 == 8 * n;
  }

  /** The incomplete last block of a message, padded to one or two whole blocks. */
  function PaddedTail(m: seq<Byte>): seq<Byte> { m[64 * (|m| / 64)..] + FullPadding(|m|) }

  /** One block exactly when the tail, the one bit and the length fit into it. */
  lemma PaddedTailLength(m: seq<Byte>)
    ensures |PaddedTail(m)| == if |m| % 64 <= 55 then 64 else 128
  {
    ZeroBytesCases(|m|);
  }

  /** Complete blocks first and the padded tail after them is the whole padded message. */
  lemma TailAfterBlocks(s: State, m: seq<Byte>)
    ensures Absorb(Absorb(s, m), PaddedTail(m)) == Absorb(s, m + FullPadding(|m|))
  {
    FoldSuffix(Compress, s, m, FullPadding(|m|));
  }

  /** Complete blocks may be fed in any number of block-aligned pieces before the tail. */
  lemma PiecesThenTail(pieces: seq<seq<Byte>>, tail: seq<Byte>)
    requires forall p :: p in pieces ==> |p| % 64 == 0
    requires |tail| < 64
    requires |Flatten(pieces) + tail| < 0x2000_0000_0000_0000
    ensures DigestOf(Absorb(FoldAll(Compress, INITIAL, pieces), PaddedTail(Flatten(pieces) + tail)))
         == Sha1Spec.Sha1(Flatten(pieces) + tail)
  {
    var m := Flatten(pieces) + tail;
    FoldPiecesThenTail(Compress, INITIAL, pieces, tail, FullPadding(|m|));
    FullPaddingIsPadding(|m|);
  }

  // ---------------------------------------------------------------- class sha1

  ghost predicate Scheduled(w: seq<Word>, m: Block, t: nat) {
    t <= |w| && forall j :: 0 <= j < t ==> w[j] == W(m, j)
  }

  lemma ScheduleGrows(w: seq<Word>, m: Block, t: nat)
    requires 16 <= t < |w| && Scheduled(w, m, t)
    ensures NextWord(w[t - 3], w[t - 8], w[t - 14], w[t - 16]) == W(m, t)
  {
    NextWordIsMix(w[t - 3], w[t - 8], w[t - 14], w[t - 16]);
  }

  /** The two loops of the compression over their 80-word local array. */
  method RunRounds(s: Sha1Spec.State, m: Block) returns (v: Sha1Spec.State)
    ensures v == Rounds(s, m, 80)
  {
    var w := new Word[80];
    v := s;  // the source's a, b, c, d and e
    var t := 0;
    while t < 16
      invariant 0 <= t <= 16
      invariant Scheduled(w[..], m, t)
      invariant v == Rounds(s, m, t)
    {
      ghost var before := w[..];
      w[t] := BlockWord(m, t);
      assert w[..] == before[t := BlockWord(m, t)];
      StepAdvances(t, s, m);
      v := Step(0, v, w[t]);
      t := t + 1;
    }
    while t < 80
      invariant 16 <= t <= 80
      invariant Scheduled(w[..], m, t)
      invariant v == Rounds(s, m, t)
    {
      ghost var before := w[..];
      w[t] := NextWord(w[t - 3], w[t - 8], w[t - 14], w[t - 16]);
      ScheduleGrows(before, m, t);
      assert w[..] == before[t := W(m, t)];
      StepAdvances(t, s, m);
      v := Step(t, v, w[t]);
      t := t + 1;
    }
  }

  class Hasher {
    /** The five words of the digest as they lie in memory: byte-swapped for the host. */
    const h: array<Word>

    ghost predicate Valid() { h.Length == 5 }

    /** The chaining value the resident words stand for. */
    function State(): Sha1Spec.State
      requires Valid()
      reads h
    {
      Sha1Spec.State(BigEndian(h[0]), BigEndian(h[1]), BigEndian(h[2]), BigEndian(h[3]), BigEndian(h[4]))
    }

    /** The 20 bytes that `operator const digest&` exposes without any conversion. */
    function Digest(): (d: seq<Byte>)
      requires Valid()
      reads h
      ensures |d| == 20
    {
      StoredWord(h[0]) + StoredWord(h[1]) + StoredWord(h[2]) + StoredWord(h[3]) + StoredWord(h[4])
    }

    lemma ResidentBytesAreDigest()
      requires Valid()
      ensures Digest() == DigestOf(State())
    {
      StoredSwapped(h[0]);
      StoredSwapped(h[1]);
      StoredSwapped(h[2]);
      StoredSwapped(h[3]);
      StoredSwapped(h[4]);
    }

    constructor ()
      ensures Valid() && fresh(h)
      ensures State() == INITIAL
    {
      h := new Word[5];
      new;
      Reset();
    }

    method Reset()
      requires Valid()
      modifies h
      ensures State() == INITIAL
    {
      h[0] := LoadWord(0x67, 0x45, 0x23, 0x01);
      h[1] := LoadWord(0xEF, 0xCD, 0xAB, 0x89);
      h[2] := LoadWord(0x98, 0xBA, 0xDC, 0xFE);
      h[3] := LoadWord(0x10, 0x32, 0x54, 0x76);
      h[4] := LoadWord(0xC3, 0xD2, 0xE1, 0xF0);
    }

    /** The five closing assignments of the compression. */
    method AddToState(v: Sha1Spec.State)
      requires Valid()
      modifies h
      ensures State() == AddStates(v, old(State()))
    {
      h[0] := AddResident(h[0], v.a);
      h[1] := AddResident(h[1], v.b);
      h[2] := AddResident(h[2], v.c);
      h[3] := AddResident(h[3], v.d);
      h[4] := AddResident(h[4], v.e);
    }

    method HashBlock(m: Block)
      requires Valid()
      modifies h
      ensures State() == Compress(old(State()), m)
    {
      var v := RunRounds(State(), m);
      AddToState(v);
    }

    method HashCompleteBlocks(message: seq<Byte>)
      requires Valid()
      modifies h
      ensures State() == Absorb(old(State()), message)
    {
      var readyBlocks := |message| / BLOCK_BYTES;
      var i := 0;
      while i < readyBlocks
        invariant 0 <= i <= readyBlocks
        invariant Absorb(State(), message[64 * i..]) == Absorb(old(State()), message)
      {
        FoldNext(Compress, State(), message, i);
        HashBlock(message[64 * i..64 * i + 64]);
        i := i + 1;
      }
      FoldNext(Compress, State(), message, i);
    }

    /** Hashes what is left after the complete blocks, padded with the length of the whole message. */
    method HashTail(message: seq<Byte>)
      requires Valid()
      modifies h
      ensures State() == Absorb(old(State()), PaddedTail(message))
    {
      var pad, j := FillPad(message, StoredLength(|message|));
      PaddedTailLength(message);
      FoldBlocks(Compress, State(), PaddedTail(message));
      assert pad[..64] == PaddedTail(message)[..64];
      HashBlock(pad[..64]);
      if j > BLOCK_BYTES {
        assert pad[64..] == PaddedTail(message)[64..];
        HashBlock(pad[64..]);
      }
    }

    method Hash(message: seq<Byte>)
      requires Valid()
      modifies h
      ensures State() == Absorb(old(State()), message + FullPadding(|message|))
      ensures old(State()) == INITIAL && |message| < 0x2000_0000_0000_0000 ==> Digest() == Sha1Spec.Sha1(message)
    {
      HashCompleteBlocks(message);
      HashTail(message);
      TailAfterBlocks(old(State()), message);
      ResidentBytesAreDigest();
      if |message| < 0x2000_0000_0000_0000 {
        FullPaddingIsPadding(|message|);
      }
    }
  }
}
