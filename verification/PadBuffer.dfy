/** How long the padding of section 5.1.1 of FIPS 180-2 is, and the loops of
    `hash_tail` that lay it out in a scratch buffer of two blocks. */
module PadBuffer {
  import opened BlockChain

  const BLOCK_BYTES: nat := 64

  /** The smallest non-negative solution of "message, one bit and zeros end 8 bytes short of a block". */
  function ZeroBytes(n: nat): nat { (119 - n % 64) % 64 }

  lemma ZeroBytesCases(n: nat)
    ensures ZeroBytes(n) == if n % 64 <= 55 then 55 - n % 64 else 119 - n % 64
  {
  }

  /** Section 5.1.1 asks for the smallest k that fills the last block; ZeroBytes is that k. */
  lemma ZeroBytesIsLeast(n: nat, k: nat)
    ensures (n + 1 + ZeroBytes(n) + 8) % 64 == 0
    ensures (n + 1 + k + 8) % 64 == 0 ==> ZeroBytes(n) <= k
  {
    var r := n % 64;
    assert n == 64 * (n / 64) + r;
    if (n + 1 + k + 8) % 64 == 0 {
      var q := (n + 1 + k + 8) / 64 - n / 64;
      assert r + 9 + k == 64 * q;
    }
  }

  /** The fill loop stops at the first position 8 bytes short of a block, and not before. */
  lemma ZeroBytesFill(r: nat, n: nat, j: nat)
    requires r == n % 64 && r < j <= r + 1 + ZeroBytes(n)
    ensures j % 64 == 56 <==> j == r + 1 + ZeroBytes(n)
    ensures j <= 120
  {
    ZeroBytesCases(n);
  }

  /** The first j bytes of the buffer are the tail, the one bit and the zeros; the length follows them. */
  method FillPad(message: seq<Byte>, length: seq<Byte>) returns (pad: array<Byte>, j: nat)
    requires |length| == 8
    ensures fresh(pad) && pad.Length == 2 * BLOCK_BYTES
    ensures j == |message| % 64 + 1 + ZeroBytes(|message|) <= 120
    ensures pad[..j + 8]
         == message[64 * (|message| / 64)..] + ([0x80] + seq(ZeroBytes(|message|), _ => 0 as Byte) + length)
  {
    var bytes := |message|;
    var tail := message[BLOCK_BYTES * (bytes / BLOCK_BYTES)..];
    pad := new Byte[2 * BLOCK_BYTES];
    j := 0;
    while j < bytes % BLOCK_BYTES
      invariant 0 <= j <= |tail|
      invariant pad[..j] == tail[..j]
    {
      pad[j] := tail[j];
      j := j + 1;
    }
    pad[j] := 0x80;
    j := j + 1;
    ghost var stop := |tail| + 1 + ZeroBytes(bytes);
    ZeroBytesFill(|tail|, bytes, j);
    while j % BLOCK_BYTES != BLOCK_BYTES - 8
      invariant |tail| < j <= stop && j <= 120
      invariant j % 64 == 56 <==> j == stop
      invariant pad[..|tail|] == tail && pad[|tail|] == 0x80
      invariant forall k :: |tail| < k < j ==> pad[k] == 0
      decreases stop - j
    {
      pad[j] := 0x00;
      j := j + 1;
      ZeroBytesFill(|tail|, bytes, j);
    }
    forall i | 0 <= i < 8 {
      pad[j + i] := length[i];
    }
    Assembled(pad[..], tail, ZeroBytes(bytes), length);
  }

  /** The buffer up to the end of the length, put together from its four parts. */
  lemma Assembled(pad: seq<Byte>, tail: seq<Byte>, z: nat, length: seq<Byte>)
    requires |length| == 8 && |tail| + 1 + z + 8 <= |pad|
    requires pad[..|tail|] == tail && pad[|tail|] == 0x80
    requires forall k :: |tail| < k < |tail| + 1 + z ==> pad[k] == 0
    requires forall i :: 0 <= i < 8 ==> pad[|tail| + 1 + z + i] == length[i]
    ensures pad[..|tail| + 1 + z + 8] == tail + ([0x80] + seq(z, _ => 0 as Byte) + length)
  {
    var j := |tail| + 1 + z;
    assert pad[..j] == tail + ([0x80] + seq(z, _ => 0 as Byte));
    assert pad[..j + 8] == pad[..j] + length;
  }
}
