/** The ICMP checksum of samples/pingn.cpp against the one's-complement sum of
    section 1 of RFC 1071. */
module Checksum {
  import opened Common

  type Byte = x: int | 0 <= x < 256
  type Word = x: int | 0 <= x < 65536

  // ---------------------------------------------------------------- one's complement arithmetic

  /** Addition with the carry brought round to the low end. */
  function OnesAdd(a: Word, b: Word): Word {
    if a + b < 65536 then a + b else a + b - 65535
  }

  function OnesSum(ws: seq<Word>): Word {
    if ws == [] then 0 else OnesAdd(OnesSum(ws[..|ws| - 1]), ws[|ws| - 1])
  }

  function Sum(ws: seq<Word>): nat {
    if ws == [] then 0 else Sum(ws[..|ws| - 1]) + ws[|ws| - 1]
  }

  lemma SameRemainder(a: int, b: int, k: int)
    requires a == b + 65535 * k
    ensures a % 65535 == b % 65535
  {
  }

  /** The one's-complement sum is the sum modulo 65535, with 65535 for a multiple that is not 0. */
  lemma {:induction false} OnesSumIsRemainder(ws: seq<Word>)
    ensures OnesSum(ws) % 65535 == Sum(ws) % 65535
    ensures OnesSum(ws) == 0 <==> Sum(ws) == 0
  {
    if ws != [] {
      var a, b := ws[..|ws| - 1], ws[|ws| - 1];
      OnesSumIsRemainder(a);
      var k := Sum(a) / 65535 - OnesSum(a) / 65535;
      assert Sum(a) == OnesSum(a) + 65535 * k;
      var carry := if OnesSum(a) + b < 65536 then 0 else 1;
      SameRemainder(Sum(ws), OnesSum(ws), k + carry);
    }
  }

  /** All bits one: the receiver's test. */
  lemma OnesSumFull(ws: seq<Word>)
    ensures OnesSum(ws) == 0xFFFF <==> Sum(ws) > 0 && Sum(ws) % 65535 == 0
  {
    OnesSumIsRemainder(ws);
  }

  lemma SumSnoc(ws: seq<Word>, w: Word)
    ensures Sum(ws + [w]) == Sum(ws) + w
  {
    assert (ws + [w])[..|ws|] == ws;
  }

  lemma {:induction false} SumConcat(a: seq<Word>, b: seq<Word>)
    ensures Sum(a + b) == Sum(a) + Sum(b)
  {
    if b == [] {
      assert a + b == a;
    } else {
      assert (a + b)[..|a + b| - 1] == a + b[..|b| - 1];
      SumConcat(a, b[..|b| - 1]);
    }
  }

  // ---------------------------------------------------------------- the packet

  /** static_cast<unsigned char> of a char. */
  function Octet(c: int): (b: int)
    ensures 0 <= b < 256
    ensures -128 <= c < 256 ==> b == if c < 0 then c + 256 else c
  {
    c % 256
  }

  /** The 16-bit words of the body, an odd last byte followed by a zero. */
  function BodyWords(body: seq<int>): seq<Word>
    decreases |body|
  {
    if body == [] then []
    else if |body| % 2 == 1 then BodyWords(body[..|body| - 1]) + [Octet(body[|body| - 1]) * 256]
    else BodyWords(body[..|body| - 2]) + [Octet(body[|body| - 2]) * 256 + Octet(body[|body| - 1])]
  }

  lemma NextPair(body: seq<int>, i: nat)
    requires i % 2 == 0 && i + 1 < |body|
    ensures BodyWords(body[..i + 2]) == BodyWords(body[..i]) + [Octet(body[i]) * 256 + Octet(body[i + 1])]
  {
    var b := body[..i + 2];
    assert |b| % 2 == 0;
    assert b[..|b| - 2] == body[..i];
  }

  lemma LastByte(body: seq<int>, i: nat)
    requires i % 2 == 0 && i + 1 == |body|
    ensures BodyWords(body) == BodyWords(body[..i]) + [Octet(body[i]) * 256]
  {
    assert |body| % 2 == 1;
    assert body[..|body| - 1] == body[..i];
  }

  /** One pass of the loop takes the next word, or the last byte of an odd body. */
  lemma NextWord(body: seq<int>, i: nat)
    requires i % 2 == 0 && i < |body|
    ensures i + 1 < |body| ==>
              Sum(BodyWords(body[..i + 2])) == Sum(BodyWords(body[..i])) + Octet(body[i]) * 256 + Octet(body[i + 1])
    ensures i + 1 == |body| ==> Sum(BodyWords(body)) == Sum(BodyWords(body[..i])) + Octet(body[i]) * 256
  {
    if i + 1 < |body| {
      NextPair(body, i);
      SumSnoc(BodyWords(body[..i]), Octet(body[i]) * 256 + Octet(body[i + 1]));
    } else {
      LastByte(body, i);
      SumSnoc(BodyWords(body[..i]), Octet(body[i]) * 256);
    }
  }

  /** `sum += x` on a 32-bit unsigned int. */
  function AddWrap(sum: nat, x: nat): (r: nat)
    requires sum < UINT_SIZE && x < UINT_SIZE
    ensures r < UINT_SIZE
  {
    if sum + x < UINT_SIZE then sum + x else sum + x - UINT_SIZE
  }

  /** The carry out of the 32 bits that the addition loses. */
  function Carry(sum: nat, x: nat): nat { if sum + x < UINT_SIZE then 0 else 1 }

  lemma Remainder(total: nat, sum: nat, lost: nat)
    requires total == sum + UINT_SIZE * lost && sum < UINT_SIZE
    ensures sum == total % UINT_SIZE && lost == total / UINT_SIZE
  {
  }

  // ---------------------------------------------------------------- the two folds

  /** Both folds of the 32-bit sum; only the low half is used afterwards. */
  function Folded(sum: nat): nat
    requires sum < UINT_SIZE
  {
    var once := sum / 65536 + sum % 65536;
    AddWrap(once, once / 65536)
  }

  /** Two folds are enough: the low half is the one's-complement value of the sum. */
  lemma FoldedLow(sum: nat)
    requires sum < UINT_SIZE
    ensures (Folded(sum) % 65536) % 65535 == sum % 65535
    ensures Folded(sum) % 65536 == 0 <==> sum == 0
    ensures Folded(sum) < 0x2_0000
  {
    var hi, lo := sum / 65536, sum % 65536;
    var once := hi + lo;
    assert sum == once + 65535 * hi;
    SameRemainder(sum, once, hi);
    if once < 65536 {
      assert Folded(sum) == once;
    } else {
      assert once / 65536 == 1;
      assert Folded(sum) % 65536 == once + 1 - 65536;
      SameRemainder(once, once - 65535, 1);
    }
  }

  /** ~sum as the source stores it: cut to 16 bits. */
  function Complement(sum: nat): Word
    requires sum < UINT_SIZE
  {
    (UINT_SIZE - 1 - sum) % 65536
  }

  lemma ComplementLow(sum: nat)
    requires sum < UINT_SIZE
    ensures Complement(sum) == 65535 - sum % 65536
  {
    var q := sum / 65536;
    assert UINT_SIZE - 1 - sum == 65536 * (65535 - q) + (65535 - sum % 65536);
  }

  method FoldTwice(start: nat) returns (checksum: Word)
    requires start < UINT_SIZE
    ensures checksum == Complement(Folded(start))
  {
    var sum := start / 65536 + start % 65536;
    sum := AddWrap(sum, sum / 65536);
    checksum := (UINT_SIZE - 1 - sum) % 65536;
  }

  /** With s words added up modulo 2^32, the checksum completes them exactly
      when the lost carries are a multiple of 65535. */
  lemma CompletesSum(s: nat)
    ensures var c := Complement(Folded(s % UINT_SIZE));
            s + c > 0 && ((s + c) % 65535 == 0 <==> (s / UINT_SIZE) % 65535 == 0)
  {
    var r, lost := s % UINT_SIZE, s / UINT_SIZE;
    FoldedLow(r);
    ComplementLow(Folded(r));
    var f := Folded(r) % 65536;
    var k := r / 65535 - f / 65535;
    assert r == f + 65535 * k;
    assert s + (65535 - f) == lost + 65535 * (65537 * lost + k + 1);
    SameRemainder(s + (65535 - f), lost, 65537 * lost + k + 1);
    if r == 0 {
      assert f == 0;
    }
  }

  // ---------------------------------------------------------------- the header

  /** The loop over the body, adding to a 32-bit sum. */
  method AddBody(start: nat, body: seq<int>) returns (sum: nat)
    requires start < UINT_SIZE
    ensures sum == (start + Sum(BodyWords(body))) % UINT_SIZE
  {
    sum := start;
    ghost var lost, total := 0, start;
    var i := 0;
    while i != |body|
      invariant 0 <= i <= |body| && (i % 2 == 0 || i == |body|)
      invariant total == start + Sum(BodyWords(body[..i]))
      invariant sum < UINT_SIZE && total == sum + UINT_SIZE * lost
      decreases |body| - i
    {
      NextWord(body, i);
      var high := Octet(body[i]) * 256;
      i := i + 1;
      lost, total := lost + Carry(sum, high), total + high;
      sum := AddWrap(sum, high);
      if i != |body| {
        var low := Octet(body[i]);
        i := i + 1;
        lost, total := lost + Carry(sum, low), total + low;
        sum := AddWrap(sum, low);
      } else {
        assert body[..i] == body;
      }
    }
    assert body[..i] == body;
    Remainder(total, sum, lost);
  }

  class IcmpHeader {
    const rep: array<Byte>

    ghost predicate Valid() { rep.Length == 8 }

    constructor ()
      ensures Valid() && fresh(rep)
      ensures forall i :: 0 <= i < 8 ==> rep[i] == 0
    {
      rep := new Byte[8](_ => 0);
    }

    function Decode(a: nat, b: nat): (n: Word)
      requires Valid() && a < 8 && b < 8
      reads rep
    {
      rep[a] as int * 256 + rep[b] as int
    }

    method Encode(a: nat, b: nat, n: Word)
      requires Valid() && a < b < 8
      modifies rep
      ensures Decode(a, b) == n
      ensures forall i :: 0 <= i < 8 && i != a && i != b ==> rep[i] == old(rep[i])
    {
      rep[a] := n / 256;
      rep[b] := n % 256;
    }

    /** The header as 16-bit words: type and code, checksum, identifier, sequence number. */
    function Words(): (ws: seq<Word>)
      requires Valid()
      reads rep
      ensures |ws| == 4
    {
      [Decode(0, 1), Decode(2, 3), Decode(4, 5), Decode(6, 7)]
    }

    /** What the source adds up: every word but the checksum. */
    function Covered(body: seq<int>): seq<Word>
      requires Valid()
      reads rep
    {
      [Decode(0, 1), Decode(4, 5), Decode(6, 7)] + BodyWords(body)
    }

    /** The 32-bit sum of everything but the checksum. */
    method CoveredSum(body: seq<int>) returns (sum: nat)
      requires Valid()
      ensures sum == Sum(Covered(body)) % UINT_SIZE
    {
      sum := rep[0] as int * 256 + rep[1] as int + Decode(4, 5) + Decode(6, 7);
      SumOfHeader(Decode(0, 1), Decode(4, 5), Decode(6, 7));
      SumConcat([Decode(0, 1), Decode(4, 5), Decode(6, 7)], BodyWords(body));
      sum := AddBody(sum, body);
    }

    /** Stores the checksum and leaves the rest of the header alone.  The packet
        then passes the receiver's test exactly when the carries that the 32-bit
        sum lost are a multiple of 65535; if it lost none, what is stored is the
        complement of the one's-complement sum. */
    method ComputeChecksum(body: seq<int>)
      requires Valid()
      modifies rep
      ensures forall i :: 0 <= i < 8 && i != 2 && i != 3 ==> rep[i] == old(rep[i])
      ensures OnesSum(Words() + BodyWords(body)) == 0xFFFF
         <==> (Sum(old(Covered(body))) / UINT_SIZE) % 65535 == 0
      ensures Sum(old(Covered(body))) < UINT_SIZE ==> Decode(2, 3) == 0xFFFF - OnesSum(old(Covered(body)))
    {
      ghost var head := [Decode(0, 1), Decode(4, 5), Decode(6, 7)];
      var sum := CoveredSum(body);
      var checksum := FoldTwice(sum);
      Encode(2, 3, checksum);
      assert Words() == [head[0], checksum, head[1], head[2]];
      PacketPasses(head, checksum, BodyWords(body));
      StoredValue(head + BodyWords(body), checksum);
    }
  }

  lemma SumOfHeader(a: Word, b: Word, c: Word)
    ensures Sum([a, b, c]) == a + b + c
  {
    SumSnoc([], a);
    SumSnoc([a], b);
    SumSnoc([a, b], c);
    assert [] + [a] == [a] && [a] + [b] == [a, b] && [a, b] + [c] == [a, b, c];
  }

  /** Where nothing is lost the stored checksum is the complement of the one's-complement sum. */
  lemma StoredValue(ws: seq<Word>, checksum: Word)
    requires checksum == Complement(Folded(Sum(ws) % UINT_SIZE))
    ensures Sum(ws) < UINT_SIZE ==> checksum == 0xFFFF - OnesSum(ws)
  {
    if Sum(ws) < UINT_SIZE {
      SmallRemainder(Sum(ws));
      LowIsOnesSum(ws);
      ComplementLow(Folded(Sum(ws)));
    }
  }

  lemma SmallRemainder(s: nat)
    requires s < UINT_SIZE
    ensures s % UINT_SIZE == s
  {
  }

  lemma LowIsOnesSum(ws: seq<Word>)
    requires Sum(ws) < UINT_SIZE
    ensures Folded(Sum(ws)) % 65536 == OnesSum(ws)
  {
    FoldedLow(Sum(ws));
    OnesSumIsRemainder(ws);
    SameWord(Folded(Sum(ws)) % 65536, OnesSum(ws));
  }

  lemma SameWord(a: Word, b: Word)
    requires a % 65535 == b % 65535 && (a == 0 <==> b == 0)
    ensures a == b
  {
  }

  /** With the checksum of its sum a packet passes exactly when the carries lost are a multiple of 65535. */
  lemma PacketPasses(head: seq<Word>, checksum: Word, body: seq<Word>)
    requires |head| == 3 && checksum == Complement(Folded(Sum(head + body) % UINT_SIZE))
    ensures OnesSum([head[0], checksum, head[1], head[2]] + body) == 0xFFFF
       <==> (Sum(head + body) / UINT_SIZE) % 65535 == 0
  {
    CompletesSum(Sum(head + body));
    WholePacket(head, checksum, body);
  }

  lemma WholePacket(head: seq<Word>, checksum: Word, body: seq<Word>)
    requires |head| == 3
    ensures Sum([head[0], checksum, head[1], head[2]] + body) == Sum(head + body) + checksum
    ensures OnesSum([head[0], checksum, head[1], head[2]] + body) == 0xFFFF
       <==> Sum(head + body) + checksum > 0 && (Sum(head + body) + checksum) % 65535 == 0
  {
    var all := [head[0], checksum, head[1], head[2]];
    assert all == [head[0], checksum] + [head[1], head[2]];
    assert head == [head[0]] + [head[1], head[2]];
    SumConcat([head[0], checksum], [head[1], head[2]]);
    SumConcat([head[0]], [head[1], head[2]]);
    assert [head[0], checksum][..1] == [head[0]];
    SumConcat(all, body);
    SumConcat(head, body);
    OnesSumFull(all + body);
  }

  // ---------------------------------------------------------------- which bodies are short enough

  lemma {:induction false} SumBound(ws: seq<Word>)
    ensures Sum(ws) <= 65535 * |ws|
  {
    if ws != [] {
      SumBound(ws[..|ws| - 1]);
    }
  }

  lemma {:induction false} WordCount(body: seq<int>)
    ensures |BodyWords(body)| == (|body| + 1) / 2
    decreases |body|
  {
    if |body| > 1 {
      WordCount(if |body| % 2 == 1 then body[..|body| - 1] else body[..|body| - 2]);
    }
  }

  /** Up to 131068 bytes nothing is lost, whatever the packet holds. */
  lemma NeverOverflows(a: Word, b: Word, c: Word, body: seq<int>)
    requires |body| <= 131068
    ensures Sum([a, b, c] + BodyWords(body)) < UINT_SIZE
  {
    var ws := [a, b, c] + BodyWords(body);
    WordCount(body);
    assert |ws| <= 65537;
    SumBound(ws);
  }

  /** Every packet with a body of at most 131068 bytes, of odd or even length, passes. */
  method SendChecked(header: IcmpHeader, body: seq<int>)
    requires header.Valid() && |body| <= 131068
    modifies header.rep
    ensures OnesSum(header.Words() + BodyWords(body)) == 0xFFFF
  {
    NeverOverflows(header.Decode(0, 1), header.Decode(4, 5), header.Decode(6, 7), body);
    header.ComputeChecksum(body);
  }

  lemma {:induction false} FullPairs(b: seq<int>, k: nat)
    requires |b| == 2 * k && forall i :: 0 <= i < |b| ==> b[i] == 255
    ensures Sum(BodyWords(b)) == 65535 * k
  {
    if k > 0 {
      var i := |b| - 2;
      NextWord(b, i);
      assert b[..i + 2] == b;
      assert Octet(b[i]) == 255 && Octet(b[i + 1]) == 255;
      FullPairs(b[..i], k - 1);
    }
  }

  /** One byte more can fail: with every header word and body byte at its
      maximum a carry is lost. */
  lemma NextLengthCanFail()
    ensures var body: seq<int> := seq(131069, _ => 255);
            (Sum([0xFFFF, 0xFFFF, 0xFFFF] + BodyWords(body)) / UINT_SIZE) % 65535 != 0
  {
    var body: seq<int> := seq(131069, _ => 255);
    NextWord(body, 131068);
    FullPairs(body[..131068], 65534);
    SumConcat([0xFFFF, 0xFFFF, 0xFFFF], BodyWords(body));
    SumOfHeader(0xFFFF, 0xFFFF, 0xFFFF);
    assert Sum([0xFFFF, 0xFFFF, 0xFFFF] + BodyWords(body)) == UINT_SIZE + 65279;
  }

  lemma OneWord(w: Word)
    ensures OnesSum([0, 0, 0] + [w]) == w && Sum([0, 0, 0] + [w]) == w
  {
    SumConcat([0, 0, 0], [w]);
    SumOfHeader(0, 0, 0);
    SumSnoc([], w);
    OnesSumIsRemainder([0, 0, 0] + [w]);
    SameWord(OnesSum([0, 0, 0] + [w]), w);
  }

  /** An empty header and a body of one character, 'H': the only word that is not 0 is 0x4800. */
  method OneCharacter() returns (header: IcmpHeader)
    ensures header.Valid() && header.rep[2] == 0xB7 && header.rep[3] == 0xFF
  {
    header := new IcmpHeader();
    var body := [0x48];
    assert BodyWords(body) == [0x4800] by { assert body[..0] == []; }
    assert header.Covered(body) == [0, 0, 0] + [0x4800];
    OneWord(0x4800);
    header.ComputeChecksum(body);
    assert header.Decode(2, 3) == 0xB7FF;
  }
}
