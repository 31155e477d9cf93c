/** to_hex and from_hex (ntl/format.hxx): bytes and integers as hexadecimal
    text in a buffer, and back. */
module HexText {

  type Byte = x: int | 0 <= x < 256

  // ---------------------------------------------------------------- one digit

  /** "0123456789ABCDEF"[v & 0x0F]; & on a two's complement value is the remainder. */
  function HexDigit(v: int): char {
    var d := v % 16;
    if d < 10 then (48 + d) as char else (55 + d) as char
  }

  /** The digit decoder: anything else counts as 0. */
  function Decode(c: char): (d: int)
    ensures 0 <= d < 16
  {
    if '0' <= c <= '9' then c as int - '0' as int
    else if 'A' <= c <= 'F' then c as int - 'A' as int + 10
    else if 'a' <= c <= 'f' then c as int - 'a' as int + 10
    else 0
  }

  /** (decode(hi) << 4) | decode(lo). */
  function PairOf(hi: char, lo: char): Byte { Decode(hi) * 16 + Decode(lo) }

  const UPPER_DIGITS := "0123456789ABCDEF"
  const LOWER_DIGITS := "0123456789abcdef"

  /** The sixteen digits are written in upper case, read in either case, and
      every other character reads as 0. */
  lemma DigitTables(d: int, c: char)
    requires 0 <= d < 16
    ensures HexDigit(d) == UPPER_DIGITS[d]
    ensures Decode(UPPER_DIGITS[d]) == d && Decode(LOWER_DIGITS[d]) == d
    ensures c !in UPPER_DIGITS && c !in LOWER_DIGITS ==> Decode(c) == 0
    ensures PairOf(UPPER_DIGITS[d], c) == 16 * d + Decode(c)
  {
    if '0' <= c <= '9' || 'A' <= c <= 'F' || 'a' <= c <= 'f' {
      IsDigit(c);
    }
  }

  lemma IsDigit(c: char)
    requires '0' <= c <= '9' || 'A' <= c <= 'F' || 'a' <= c <= 'f'
    ensures c in UPPER_DIGITS || c in LOWER_DIGITS
  {
    if '0' <= c <= '9' {
      assert UPPER_DIGITS[c as int - 48] == c;
    } else if 'A' <= c <= 'F' {
      assert UPPER_DIGITS[c as int - 55] == c;
    } else {
      assert LOWER_DIGITS[c as int - 87] == c;
    }
  }

  lemma DigitRoundTrip(v: int)
    ensures Decode(HexDigit(v)) == v % 16
  {
  }

  lemma PairRoundTrip(b: Byte)
    ensures PairOf(HexDigit(b / 16), HexDigit(b)) == b
  {
    DigitRoundTrip(b / 16);
    DigitRoundTrip(b);
  }

  // ---------------------------------------------------------------- texts

  /** Two digits a byte, the high one first. */
  function HexOf(bytes: seq<Byte>): (s: string)
    ensures |s| == 2 * |bytes|
  {
    if bytes == [] then [] else [HexDigit(bytes[0] / 16), HexDigit(bytes[0])] + HexOf(bytes[1..])
  }

  /** One byte for every two characters, whatever they are. */
  function Unhex(s: string): (bytes: seq<Byte>)
    ensures |bytes| == |s| / 2
  {
    if |s| < 2 then [] else [PairOf(s[0], s[1])] + Unhex(s[2..])
  }

  lemma {:induction false} UnhexOfHex(bytes: seq<Byte>)
    ensures Unhex(HexOf(bytes)) == bytes
  {
    if bytes != [] {
      PairRoundTrip(bytes[0]);
      assert HexOf(bytes)[2..] == HexOf(bytes[1..]);
      UnhexOfHex(bytes[1..]);
    }
  }

  lemma {:induction false} HexOfAt(bytes: seq<Byte>, k: nat)
    requires k < |bytes|
    ensures HexOf(bytes)[2 * k] == HexDigit(bytes[k] / 16) && HexOf(bytes)[2 * k + 1] == HexDigit(bytes[k])
  {
    if k > 0 {
      HexOfAt(bytes[1..], k - 1);
      assert HexOf(bytes)[2..] == HexOf(bytes[1..]);
    }
  }

  lemma {:induction false} UnhexAt(s: string, k: nat)
    requires 2 * k + 1 < |s|
    ensures Unhex(s)[k] == PairOf(s[2 * k], s[2 * k + 1])
  {
    if k > 0 {
      assert s[2..][2 * (k - 1)] == s[2 * k] && s[2..][2 * (k - 1) + 1] == s[2 * k + 1];
      UnhexAt(s[2..], k - 1);
    }
  }

  function MinOf(a: nat, b: nat): nat { if a < b then a else b }

  // ---------------------------------------------------------------- bytes to text and back

  lemma PairsAreHex(bytes: seq<Byte>, s: string)
    requires |s| == 2 * |bytes|
    requires forall k :: 0 <= k < |bytes| ==> s[2 * k] == HexDigit(bytes[k] / 16) && s[2 * k + 1] == HexDigit(bytes[k])
    ensures s == HexOf(bytes)
  {
    forall i | 0 <= i < |s|
      ensures s[i] == HexOf(bytes)[i]
    {
      HexOfAt(bytes, i / 2);
      assert i == 2 * (i / 2) || i == 2 * (i / 2) + 1;
    }
  }

  /** to_hex(dst, dst_len, src, len): as many whole bytes as fit, then a
      terminator if there is room for one. */
  method BytesToHex(dst: array<char>, dstLen: nat, src: seq<Byte>, len: nat)
    requires dstLen <= dst.Length && len <= |src|
    modifies dst
    ensures var n := MinOf(len, dstLen / 2);
            && dst[..2 * n] == HexOf(src[..n])
            && (2 * n < dstLen ==> dst[2 * n] == '\0')
            && (forall k :: 2 * n < k < dst.Length || (k == 2 * n == dstLen && k < dst.Length) ==> dst[k] == old(dst[k]))
  {
    var n := MinOf(len, dstLen / 2);
    var i := 0;
    while i < n
      invariant 0 <= i <= n
      invariant forall k :: 0 <= k < i ==>
                  dst[2 * k] == HexDigit(src[k] / 16) && dst[2 * k + 1] == HexDigit(src[k])
      invariant forall k :: 2 * i <= k < dst.Length ==> dst[k] == old(dst[k])
    {
      dst[2 * i] := HexDigit(src[i] / 16);
      dst[2 * i + 1] := HexDigit(src[i]);
      i := i + 1;
    }
    PairsAreHex(src[..n], dst[..2 * n]);
    if 2 * n < dstLen {
      dst[2 * n] := '\0';
    }
  }

  /** from_hex(dst, dst_len, src, len): whole pairs only, as many as fit. */
  method HexToBytes(dst: array<Byte>, dstLen: nat, src: string, len: nat) returns (n: nat)
    requires dstLen <= dst.Length && len <= |src|
    modifies dst
    ensures n == MinOf(len / 2, dstLen)
    ensures dst[..n] == Unhex(src[..2 * n])
    ensures forall k :: n <= k < dst.Length ==> dst[k] == old(dst[k])
  {
    var pairs := MinOf(len / 2, dstLen);
    n := 0;
    while n < pairs
      invariant 0 <= n <= pairs
      invariant forall k :: 0 <= k < n ==> dst[k] == PairOf(src[2 * k], src[2 * k + 1])
      invariant forall k :: n <= k < dst.Length ==> dst[k] == old(dst[k])
    {
      dst[n] := PairOf(src[2 * n], src[2 * n + 1]);
      n := n + 1;
    }
    forall k | 0 <= k < n
      ensures dst[k] == Unhex(src[..2 * n])[k]
    {
      UnhexAt(src[..2 * n], k);
    }
  }

  /** to_hex then from_hex: every byte that both buffers have room for comes back. */
  method BytesThroughHex(text: array<char>, textLen: nat, out: array<Byte>, outLen: nat, src: seq<Byte>) returns (n: nat)
    requires textLen <= text.Length && outLen <= out.Length
    modifies text, out
    ensures n == MinOf(MinOf(|src|, textLen / 2), outLen)
    ensures out[..n] == src[..n]
  {
    BytesToHex(text, textLen, src, |src|);
    var written := MinOf(|src|, textLen / 2);
    n := HexToBytes(out, outLen, text[..], 2 * written);
    assert text[..2 * n] == text[..2 * written][..2 * n];
    HexOfPrefix(src[..written], n);
    assert src[..written][..n] == src[..n];
    UnhexOfHex(src[..n]);
  }

  lemma {:induction false} HexOfPrefix(bytes: seq<Byte>, n: nat)
    requires n <= |bytes|
    ensures HexOf(bytes)[..2 * n] == HexOf(bytes[..n])
  {
    forall k | 0 <= k < 2 * n
      ensures HexOf(bytes)[k] == HexOf(bytes[..n])[k]
    {
      HexOfAt(bytes, k / 2);
      HexOfAt(bytes[..n], k / 2);
    }
  }

  // ---------------------------------------------------------------- integers to text

  /** The low `size` bytes of a two's complement value, most significant first. */
  function BigEndianBytes(v: int, size: nat): (b: seq<Byte>)
    ensures |b| == size
    decreases size
  {
    if size == 0 then [] else BigEndianBytes(v / 256, size - 1) + [v % 256]
  }

  function Pow256(n: nat): nat { if n == 0 then 1 else 256 * Pow256(n - 1) }

  function ValueOf(b: seq<Byte>): nat {
    if b == [] then 0 else 256 * ValueOf(b[..|b| - 1]) + b[|b| - 1]
  }

  /** The bytes are the two's complement representation of v. */
  lemma {:induction false} BigEndianValue(v: int, size: nat)
    requires -(Pow256(size) as int) <= v < Pow256(size)
    ensures ValueOf(BigEndianBytes(v, size)) == if v >= 0 then v else v + Pow256(size)
    decreases size
  {
    if size > 0 {
      var b := BigEndianBytes(v, size);
      BigEndianValue(v / 256, size - 1);
      assert b[..|b| - 1] == BigEndianBytes(v / 256, size - 1);
      assert v == 256 * (v / 256) + v % 256;
    }
  }

  function Nibbles(v: int, n: nat): (s: string)
    ensures |s| == n
    decreases n
  {
    if n == 0 then [] else Nibbles(v / 16, n - 1) + [HexDigit(v)]
  }

  /** The two digits of the low byte. */
  lemma LowByte(v: int)
    ensures v / 16 / 16 == v / 256
    ensures v % 256 / 16 % 16 == v / 16 % 16 && v % 256 % 16 == v % 16
  {
  }

  lemma LowDigits(v: int)
    ensures HexDigit(v % 256 / 16) == HexDigit(v / 16) && HexDigit(v % 256) == HexDigit(v)
  {
    LowByte(v);
  }

  lemma NibblesStep(v: int, n: nat)
    ensures Nibbles(v, n + 2) == Nibbles(v / 256, n) + [HexDigit(v / 16), HexDigit(v)]
  {
    LowByte(v);
    assert Nibbles(v / 16, n + 1) == Nibbles(v / 16 / 16, n) + [HexDigit(v / 16)];
  }

  lemma {:induction false} NibblesAreBytes(v: int, size: nat)
    ensures Nibbles(v, 2 * size) == HexOf(BigEndianBytes(v, size))
    decreases size
  {
    if size > 0 {
      NibblesAreBytes(v / 256, size - 1);
      HexOfSnoc(BigEndianBytes(v / 256, size - 1), v % 256);
      LowDigits(v);
      NibblesStep(v, 2 * (size - 1));
    }
  }

  lemma {:induction false} HexOfSnoc(bytes: seq<Byte>, b: Byte)
    ensures HexOf(bytes + [b]) == HexOf(bytes) + [HexDigit(b / 16), HexDigit(b)]
  {
    if bytes == [] {
      assert bytes + [b] == [b];
      assert HexOf([]) == [];
    } else {
      assert (bytes + [b])[1..] == bytes[1..] + [b];
      HexOfSnoc(bytes[1..], b);
    }
  }

  lemma NibbleMoves(w: int, n: nat, rest: string)
    requires n > 0
    ensures Nibbles(w, n) + rest == Nibbles(w / 16, n - 1) + ([HexDigit(w)] + rest)
  {
  }

  /** to_hex(v, p) for an integer of `size` bytes: "0x", all its digits, a terminator. */
  method IntToHex(v: int, size: nat, p: array<char>) returns (end: nat)
    requires p.Length > 2 + 2 * size
    modifies p
    ensures end == 2 + 2 * size && p[0] == '0' && p[1] == 'x' && p[end] == '\0'
    ensures p[2..end] == HexOf(BigEndianBytes(v, size))
    ensures Unhex(p[2..end]) == BigEndianBytes(v, size)
    ensures forall k :: end < k < p.Length ==> p[k] == old(p[k])
  {
    end := 2 + 2 * size;
    p[0], p[1], p[end] := '0', 'x', '\0';
    var w := v;
    var i := 2 * size;
    while i > 0
      invariant 0 <= i <= 2 * size
      invariant p[0] == '0' && p[1] == 'x' && p[end] == '\0'
      invariant Nibbles(w, i) + p[2 + i..end] == Nibbles(v, 2 * size)
      invariant forall k :: end < k < p.Length ==> p[k] == old(p[k])
    {
      ghost var before := p[2 + i..end];
      p[2 + i - 1] := HexDigit(w);
      assert p[2 + i - 1..end] == [HexDigit(w)] + before;
      NibbleMoves(w, i, before);
      w := w / 16;
      i := i - 1;
    }
    NibblesAreBytes(v, size);
    UnhexOfHex(BigEndianBytes(v, size));
  }

  // ---------------------------------------------------------------- text with white space

  /** Every character the scan takes as a high digit has one after it. */
  predicate Readable(s: string, isSpace: char -> bool) {
    s == [] || if isSpace(s[0]) then Readable(s[1..], isSpace) else |s| >= 2 && Readable(s[2..], isSpace)
  }

  /** What the white-space form of from_hex decodes, `beyond` being the character
      after the text. */
  function Scanned(s: string, beyond: char, isSpace: char -> bool): seq<Byte> {
    if s == [] then []
    else if isSpace(s[0]) then Scanned(s[1..], beyond, isSpace)
    else if |s| == 1 then [PairOf(s[0], beyond)]
    else [PairOf(s[0], s[1])] + Scanned(s[2..], beyond, isSpace)
  }

  /** Spaces only between pairs. */
  predicate Paired(s: string, isSpace: char -> bool) {
    s == [] || if isSpace(s[0]) then Paired(s[1..], isSpace)
               else |s| >= 2 && !isSpace(s[1]) && Paired(s[2..], isSpace)
  }

  function Stripped(s: string, isSpace: char -> bool): string {
    if s == [] then [] else (if isSpace(s[0]) then [] else [s[0]]) + Stripped(s[1..], isSpace)
  }

  /** One pair decoded and put behind the bytes before it. */
  lemma ScanMoves(done: seq<Byte>, rest: string, beyond: char, isSpace: char -> bool)
    requires rest != [] && !isSpace(rest[0])
    ensures done + Scanned(rest, beyond, isSpace)
         == done + [PairOf(rest[0], if |rest| > 1 then rest[1] else beyond)]
            + if |rest| > 1 then Scanned(rest[2..], beyond, isSpace) else []
  {
  }

  /** The loop reads one character after the text exactly when a last high digit
      has none of its own; and the buffer, which it does not check, must hold
      everything. */
  method SpacedHexToBytes(dst: array<Byte>, src: string, beyond: char, isSpace: char -> bool)
    returns (n: nat, ghost overread: bool)
    requires |Scanned(src, beyond, isSpace)| <= dst.Length
    modifies dst
    ensures n == |Scanned(src, beyond, isSpace)|
    ensures dst[..n] == Scanned(src, beyond, isSpace)
    ensures forall k :: n <= k < dst.Length ==> dst[k] == old(dst[k])
    ensures overread <==> !Readable(src, isSpace)
  {
    var i := 0;
    n := 0;
    overread := false;
    ghost var rest := src;
    while i < |src|
      invariant 0 <= i && 0 <= n <= dst.Length
      invariant rest == if i <= |src| then src[i..] else []
      invariant overread || Readable(rest, isSpace) <==> overread || Readable(src, isSpace)
      invariant overread ==> i > |src| && !Readable(src, isSpace)
      invariant dst[..n] + Scanned(rest, beyond, isSpace) == Scanned(src, beyond, isSpace)
      invariant forall k :: n <= k < dst.Length ==> dst[k] == old(dst[k])
    {
      if isSpace(src[i]) {
        rest := rest[1..];
        i := i + 1;
      } else {
        ScanMoves(dst[..n], rest, beyond, isSpace);
        overread := i + 1 == |src|;
        var low := if i + 1 < |src| then src[i + 1] else beyond;
        ghost var before := dst[..n];
        dst[n] := PairOf(src[i], low);
        assert dst[..n + 1] == before + [PairOf(src[i], low)];
        rest := if overread then [] else rest[2..];
        n := n + 1;
        i := i + 2;
      }
    }
  }

  /** With spaces only between pairs it decodes what the plain form decodes of the stripped text. */
  lemma {:induction false} ScannedIsUnhexOfStripped(s: string, beyond: char, isSpace: char -> bool)
    requires Paired(s, isSpace)
    ensures Readable(s, isSpace) && Scanned(s, beyond, isSpace) == Unhex(Stripped(s, isSpace))
    decreases |s|
  {
    if s != [] {
      if isSpace(s[0]) {
        ScannedIsUnhexOfStripped(s[1..], beyond, isSpace);
        assert Stripped(s, isSpace) == Stripped(s[1..], isSpace);
      } else {
        ScannedIsUnhexOfStripped(s[2..], beyond, isSpace);
        assert s[1..][1..] == s[2..];
        assert Stripped(s, isSpace) == [s[0], s[1]] + Stripped(s[2..], isSpace);
      }
    }
  }

  lemma {:induction false} PairedTogether(a: string, b: string, isSpace: char -> bool)
    requires Paired(a, isSpace) && Paired(b, isSpace)
    ensures Paired(a + b, isSpace)
    decreases |a|
  {
    if a == [] {
      assert a + b == b;
    } else {
      var n := if isSpace(a[0]) then 1 else 2;
      assert (a + b)[n..] == a[n..] + b;
      PairedTogether(a[n..], b, isSpace);
    }
  }

  /** Such texts may be joined, and what they decode to is joined. */
  lemma {:induction false} PairedConcat(a: string, b: string, beyond: char, isSpace: char -> bool)
    requires Paired(a, isSpace) && Paired(b, isSpace)
    ensures Paired(a + b, isSpace)
    ensures Scanned(a + b, beyond, isSpace) == Scanned(a, beyond, isSpace) + Scanned(b, beyond, isSpace)
    decreases |a|
  {
    PairedTogether(a, b, isSpace);
    if a == [] {
      assert a + b == b;
    } else if isSpace(a[0]) {
      assert (a + b)[1..] == a[1..] + b;
      PairedConcat(a[1..], b, beyond, isSpace);
    } else {
      NextPair(a, b, beyond, isSpace);
      PairedConcat(a[2..], b, beyond, isSpace);
      Regroup([PairOf(a[0], a[1])], Scanned(a[2..], beyond, isSpace), Scanned(b, beyond, isSpace));
    }
  }

  lemma NextPair(a: string, b: string, beyond: char, isSpace: char -> bool)
    requires |a| >= 2 && !isSpace(a[0])
    ensures Scanned(a, beyond, isSpace) == [PairOf(a[0], a[1])] + Scanned(a[2..], beyond, isSpace)
    ensures Scanned(a + b, beyond, isSpace) == [PairOf(a[0], a[1])] + Scanned(a[2..] + b, beyond, isSpace)
  {
    assert (a + b)[2..] == a[2..] + b;
  }

  lemma Regroup(x: seq<Byte>, y: seq<Byte>, z: seq<Byte>)
    ensures x + (y + z) == x + y + z
  {
  }

  lemma DigitIsNoSpace(v: int, isSpace: char -> bool)
    requires forall d :: 0 <= d < 16 ==> !isSpace(UPPER_DIGITS[d])
    ensures !isSpace(HexDigit(v))
  {
    DigitTables(v % 16, ' ');
    assert HexDigit(v) == HexDigit(v % 16);
  }

  /** to_hex then the white-space form of from_hex. */
  lemma {:induction false} HexIsPaired(bytes: seq<Byte>, beyond: char, isSpace: char -> bool)
    requires forall d :: 0 <= d < 16 ==> !isSpace(UPPER_DIGITS[d])
    ensures Paired(HexOf(bytes), isSpace) && Scanned(HexOf(bytes), beyond, isSpace) == bytes
  {
    if bytes != [] {
      DigitIsNoSpace(bytes[0] / 16, isSpace);
      DigitIsNoSpace(bytes[0], isSpace);
      PairRoundTrip(bytes[0]);
      assert HexOf(bytes)[2..] == HexOf(bytes[1..]);
      HexIsPaired(bytes[1..], beyond, isSpace);
    }
  }
}
