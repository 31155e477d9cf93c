/** SHA-1 as section 6.1.2 of FIPS 180-2 defines it: the reference that
    `Sha1` is proved against.  Nothing here follows the implementation. */
module Sha1Spec {
  import opened BlockChain
  import opened PadBuffer

  type Word = bv32

  // ---------------------------------------------------------------- words and rotations (section 3.2)

  function Rotl1(x: Word): Word { (x << 1) | (x >> 31) }
  function Rotl5(x: Word): Word { (x << 5) | (x >> 27) }
  function Rotl30(x: Word): Word { (x << 30) | (x >> 2) }

  /** Four bytes read as one word, most significant first (section 3.1). */
  function WordOf(b0: Byte, b1: Byte, b2: Byte, b3: Byte): Word {
    (b0 as bv32 << 24) | (b1 as bv32 << 16) | (b2 as bv32 << 8) | (b3 as bv32)
  }

  function BytesOf(x: Word): (b: seq<Byte>)
    ensures |b| == 4
  {
    [(x >> 24) as Byte, ((x >> 16) & 0xFF) as Byte, ((x >> 8) & 0xFF) as Byte, (x & 0xFF) as Byte]
  }

  /** The four bytes are the digits of the number in base 256, most significant first. */
  lemma WordsAndBytes(b0: Byte, b1: Byte, b2: Byte, b3: Byte)
    ensures BytesOf(WordOf(b0, b1, b2, b3)) == [b0, b1, b2, b3]
    ensures WordOf(b0, b1, b2, b3)
         == (b0 as bv32 << 24) + (b1 as bv32 << 16) + (b2 as bv32 << 8) + (b3 as bv32)
  {
  }

  // ---------------------------------------------------------------- functions and constants (sections 4.1.1, 4.2.1)

  function Ch(x: Word, y: Word, z: Word): Word { (x & y) ^ (!x & z) }
  function Parity(x: Word, y: Word, z: Word): Word { x ^ y ^ z }
  function Maj(x: Word, y: Word, z: Word): Word { (x & y) ^ (x & z) ^ (y & z) }

  function F(t: nat, x: Word, y: Word, z: Word): Word {
    if t < 20 then Ch(x, y, z)
    else if t < 40 then Parity(x, y, z)
    else if t < 60 then Maj(x, y, z)
    else Parity(x, y, z)
  }

  function K(t: nat): Word {
    if t < 20 then 0x5A827999
    else if t < 40 then 0x6ED9EBA1
    else if t < 60 then 0x8F1BBCDC
    else 0xCA62C1D6
  }

  /** The constants are the first 32 bits of the square roots of 2, 3, 5 and 10. */
  lemma Constants(t: nat)
    ensures var k, n := K(t) as int, if t < 20 then 2 else if t < 40 then 3 else if t < 60 then 5 else 10;
            k * k <= n * 0x1000_0000_0000_0000 < (k + 1) * (k + 1)
  {
  }

  // ---------------------------------------------------------------- one block (section 6.1.2)

  datatype State = State(a: Word, b: Word, c: Word, d: Word, e: Word)

  function Mix(w3: Word, w8: Word, w14: Word, w16: Word): Word { Rotl1(w3 ^ w8 ^ w14 ^ w16) }

  /** The message schedule W_t. */
  function W(m: Block, t: nat): Word {
    if t < 16 then WordOf(m[4 * t], m[4 * t + 1], m[4 * t + 2], m[4 * t + 3])
    else Mix(W(m, t - 3), W(m, t - 8), W(m, t - 14), W(m, t - 16))
  }

  /** The value T of a round: ROTL5(a) + f + e + K_t + W_t modulo 2^32. */
  function Sum(a5: Word, f: Word, e: Word, k: Word, w: Word): Word { a5 + f + e + k + w }

  function Round(s: State, f: Word, k: Word, w: Word): State {
    State(Sum(Rotl5(s.a), f, s.e, k, w), s.a, Rotl30(s.b), s.c, s.d)
  }

  /** The working variables after the first t rounds. */
  function Rounds(s: State, m: Block, t: nat): State {
    if t == 0 then s
    else
      var p := Rounds(s, m, t - 1);
      Round(p, F(t - 1, p.b, p.c, p.d), K(t - 1), W(m, t - 1))
  }

  function Plus(x: Word, y: Word): Word { x + y }

  function AddStates(r: State, s: State): State {
    State(Plus(r.a, s.a), Plus(r.b, s.b), Plus(r.c, s.c), Plus(r.d, s.d), Plus(r.e, s.e))
  }

  function Compress(s: State, m: Block): State { AddStates(Rounds(s, m, 80), s) }

  // ---------------------------------------------------------------- whole messages (sections 5.1.1, 5.3.1, 6.1.2)

  const INITIAL := State(0x67452301, 0xEFCDAB89, 0x98BADCFE, 0x10325476, 0xC3D2E1F0)

  /** The chaining value after the complete blocks of `m`. */
  function Absorb(s: State, m: seq<Byte>): State { Fold(Compress, s, m) }

  /** The length in bits as a 64-bit number, most significant byte first. */
  function LengthField(bits: bv64): (b: seq<Byte>)
    ensures |b| == 8
  {
    [(bits >> 56) as Byte, ((bits >> 48) & 0xFF) as Byte, ((bits >> 40) & 0xFF) as Byte, ((bits >> 32) & 0xFF) as Byte,
     ((bits >> 24) & 0xFF) as Byte, ((bits >> 16) & 0xFF) as Byte, ((bits >> 8) & 0xFF) as Byte, (bits & 0xFF) as Byte]
  }

  /** Which is the number in base 256. */
  lemma LengthFieldIsBigEndian(bits: bv64)
    ensures var b := LengthField(bits);
            bits == (b[0] as bv64 << 56) + (b[1] as bv64 << 48) + (b[2] as bv64 << 40) + (b[3] as bv64 << 32)
                  + (b[4] as bv64 << 24) + (b[5] as bv64 << 16) + (b[6] as bv64 << 8) + (b[7] as bv64)
  {
  }

  /** What padding appends to a message of n bytes; only lengths under 2^64 bits have a padding. */
  function Padding(n: nat): seq<Byte>
    requires n < 0x2000_0000_0000_0000
  {
    [0x80] + seq(ZeroBytes(n), _ => 0 as Byte) + LengthField((8 * n) as bv64)
  }

  function DigestOf(s: State): (d: seq<Byte>)
    ensures |d| == 20
  {
    BytesOf(s.a) + BytesOf(s.b) + BytesOf(s.c) + BytesOf(s.d) + BytesOf(s.e)
  }

  function Sha1(m: seq<Byte>): (d: seq<Byte>)
    requires |m| < 0x2000_0000_0000_0000
    ensures |d| == 20
  {
    DigestOf(Absorb(INITIAL, m + Padding(|m|)))
  }
}
