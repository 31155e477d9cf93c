/** to_dec (ntl/format.hxx): an integer of any width written in place,
    least significant digit first, and then reversed. */
module DecimalText {
  import opened Common

  /** int8_t to uint64_t. */
  datatype IntType = IntType(bits: nat, signed: bool)

  predicate IsType(t: IntType) { t.bits in {8, 16, 32, 64} }

  function Pow2(bits: nat): int
    requires bits in {7, 8, 15, 16, 31, 32, 63, 64}
  {
    match bits
    case 7 => 0x80
    case 8 => 0x100
    case 15 => 0x8000
    case 16 => 0x1_0000
    case 31 => 0x8000_0000
    case 32 => 0x1_0000_0000
    case 63 => 0x8000_0000_0000_0000
    case _ => 0x1_0000_0000_0000_0000
  }

  function PowerOfTwo(n: nat): nat { if n == 0 then 1 else 2 * PowerOfTwo(n - 1) }

  lemma OneByte(n: nat)
    ensures PowerOfTwo(n + 8) == 256 * PowerOfTwo(n)
    ensures 2 * PowerOfTwo(n + 7) == PowerOfTwo(n + 8)
  {
    assert PowerOfTwo(n + 4) == 16 * PowerOfTwo(n) by { assert PowerOfTwo(n + 2) == 4 * PowerOfTwo(n); }
    assert PowerOfTwo(n + 8) == 16 * PowerOfTwo(n + 4) by { assert PowerOfTwo(n + 6) == 4 * PowerOfTwo(n + 4); }
  }

  lemma Powers()
    ensures PowerOfTwo(7) == 0x80 && PowerOfTwo(8) == 0x100
    ensures PowerOfTwo(15) == 0x8000 && PowerOfTwo(16) == 0x1_0000
    ensures PowerOfTwo(31) == 0x8000_0000 && PowerOfTwo(32) == 0x1_0000_0000
    ensures PowerOfTwo(63) == 0x8000_0000_0000_0000 && PowerOfTwo(64) == 0x1_0000_0000_0000_0000
  {
    OneByte(0);
    OneByte(8);
    OneByte(16);
    OneByte(24);
    OneByte(32);
    OneByte(40);
    OneByte(48);
    OneByte(56);
  }

  /** A type of so many bits has 2^bits values, half of them negative if it is signed. */
  lemma TypeRange(t: IntType, v: int)
    requires IsType(t)
    ensures InRange(t, v) <==>
              if t.signed then -(PowerOfTwo(t.bits - 1) as int) <= v < PowerOfTwo(t.bits - 1) else 0 <= v < PowerOfTwo(t.bits)
  {
    Powers();
  }

  function Min(t: IntType): int
    requires IsType(t)
  {
    if t.signed then -Pow2(t.bits - 1) else 0
  }

  predicate InRange(t: IntType, v: int) {
    IsType(t) && Min(t) <= v < Min(t) + Pow2(t.bits)
  }

  /** static_cast<int_t>(0 - v) for a negative v: the minimum is its own negation. */
  function Negated(t: IntType, v: int): int
    requires InRange(t, v) && v < 0
  {
    if v == Min(t) then v else -v
  }

  /** C's % and /, which round towards zero. */
  function Rem10(v: int): int { if v >= 0 then v % 10 else -(-v % 10) }
  function Div10(v: int): int { if v >= 0 then v / 10 else -(-v / 10) }

  function DecDigit(d: int): char
    requires -10 < d < 10
  {
    (d + 48) as char
  }

  // ---------------------------------------------------------------- decimal text

  function Digits(n: nat): string {
    if n < 10 then [DecDigit(n)] else Digits(n / 10) + [DecDigit(n % 10)]
  }

  function Decimal(v: int): string {
    if v < 0 then "-" + Digits(-v) else Digits(v)
  }

  predicate IsDigits(s: string) {
    |s| > 0 && forall i :: 0 <= i < |s| ==> '0' <= s[i] <= '9'
  }

  function ParseDigits(s: string): nat
    requires forall i :: 0 <= i < |s| ==> '0' <= s[i] <= '9'
  {
    if s == [] then 0 else 10 * ParseDigits(s[..|s| - 1]) + (s[|s| - 1] as int - 48)
  }

  /** A sign only before a number that is not 0, and no leading zeros. */
  predicate IsCanonical(s: string) {
    if |s| > 0 && s[0] == '-' then IsDigits(s[1..]) && s[1] != '0'
    else IsDigits(s) && (s[0] == '0' ==> |s| == 1)
  }

  function Parse(s: string): int
    requires IsCanonical(s)
  {
    if s[0] == '-' then 0 - ParseDigits(s[1..]) as int else ParseDigits(s)
  }

  lemma {:induction false} DigitsParse(n: nat)
    ensures IsDigits(Digits(n)) && ParseDigits(Digits(n)) == n
    ensures Digits(n)[0] == '0' <==> n == 0
    ensures n == 0 ==> |Digits(n)| == 1
  {
    if n >= 10 {
      DigitsParse(n / 10);
      var s := Digits(n);
      assert s[..|s| - 1] == Digits(n / 10);
    }
  }

  lemma {:induction false} ParsedDigitsAreDigits(s: string)
    requires IsDigits(s) && (s[0] == '0' ==> |s| == 1)
    ensures Digits(ParseDigits(s)) == s
    ensures ParseDigits(s) == 0 <==> s == "0"
  {
    var d := s[|s| - 1] as int - 48;
    var rest := s[..|s| - 1];
    if |s| == 1 {
      assert rest == [];
    } else {
      ParsedDigitsAreDigits(rest);
      var n := ParseDigits(s);
      assert n / 10 == ParseDigits(rest) && n % 10 == d;
    }
  }

  lemma DecimalParses(v: int)
    ensures IsCanonical(Decimal(v)) && Parse(Decimal(v)) == v
  {
    if v < 0 {
      DigitsParse(-v);
      assert Decimal(v)[1..] == Digits(-v);
    } else {
      DigitsParse(v);
    }
  }

  lemma CanonicalIsDecimal(s: string)
    requires IsCanonical(s)
    ensures s == Decimal(Parse(s))
  {
    if s[0] == '-' {
      ParsedDigitsAreDigits(s[1..]);
      assert s == "-" + s[1..];
    } else {
      ParsedDigitsAreDigits(s);
    }
  }

  /** Decimal(v) is canonical, parses back to v, and is the only such text. */
  lemma DecimalIsTheCanonicalText(v: int)
    ensures IsCanonical(Decimal(v)) && Parse(Decimal(v)) == v
    ensures forall s :: IsCanonical(s) && Parse(s) == v ==> s == Decimal(v)
  {
    DecimalParses(v);
    forall s | IsCanonical(s) && Parse(s) == v
      ensures s == Decimal(v)
    {
      CanonicalIsDecimal(s);
    }
  }

  // ---------------------------------------------------------------- what the loops write

  /** The digits of the first loop, least significant first. */
  function Written(v: int): string
    decreases if v < 0 then -v else v
  {
    if -10 < v < 10 then [DecDigit(v)] else [DecDigit(Rem10(v))] + Written(Div10(v))
  }

  lemma WrittenStep(v: int)
    ensures |Written(v)| > 0 && Written(v)[0] == DecDigit(Rem10(v))
    ensures Div10(v) == 0 ==> |Written(v)| == 1
    ensures Div10(v) != 0 ==> Written(v)[1..] == Written(Div10(v))
  {
  }

  lemma {:induction false} WrittenIsReversedDigits(n: nat)
    ensures Reverse(Written(n)) == Digits(n)
  {
    if n >= 10 {
      WrittenIsReversedDigits(n / 10);
    }
  }

  /** The text to_dec leaves for v. */
  function Text(t: IntType, v: int): string
    requires InRange(t, v)
  {
    if v < 0 then "-" + Reverse(Written(Negated(t, v))) else Reverse(Written(v))
  }

  lemma {:induction false} WrittenLength(v: int, k: nat)
    requires k > 0 && v < Pow10(k) && -v < Pow10(k)
    ensures |Written(v)| <= k
    decreases k
  {
    if !(-10 < v < 10) {
      assert k > 1;
      WrittenLength(Div10(v), k - 1);
    }
  }

  lemma FitsTwenty(t: IntType, v: int)
    requires InRange(t, v)
    ensures |Written(v)| <= 20 && |Text(t, v)| <= 20
  {
    assert Pow10(5) == 100000 by { assert Pow10(2) == 100; }
    assert Pow10(10) == 10_000_000_000 by { assert Pow10(7) == 10_000_000; }
    assert Pow10(15) == 1_000_000_000_000_000 by { assert Pow10(12) == 1_000_000_000_000; }
    assert Pow10(19) == 10_000_000_000_000_000_000 by { assert Pow10(17) == 100_000_000_000_000_000; }
    assert Pow10(20) == 100_000_000_000_000_000_000;
    WrittenLength(v, 20);
    if v < 0 {
      WrittenLength(Negated(t, v), 19);
    }
  }

  /** The text is the decimal numeral for every value but the signed minimum,
      whose digits come out negative. */
  lemma TextIsDecimal(t: IntType, v: int)
    requires InRange(t, v)
    ensures Text(t, v) == Decimal(v) <==> !(t.signed && v == Min(t))
  {
    if v >= 0 {
      WrittenIsReversedDigits(v);
    } else if v != Min(t) {
      WrittenIsReversedDigits(-v);
    } else {
      var w := Written(v);
      assert Rem10(v) == -8;
      assert w[0] == DecDigit(-8);
      var s := Text(t, v);
      assert s[|s| - 1] == DecDigit(-8);
      DigitsParse(-v);
      assert Decimal(v)[|Decimal(v)| - 1] >= '0';
    }
  }

  // ---------------------------------------------------------------- to_dec

  method ToDec(t: IntType, value: int, p: array<char>) returns (end: nat)
    requires InRange(t, value) && p.Length >= 22
    modifies p
    ensures end < 22 && p[..end] == Text(t, value) && p[end] == '\0'
    ensures forall k :: end < k < p.Length ==> p[k] == old(p[k])
  {
    FitsTwenty(t, value);
    var v := value;
    var j := if v < 0 then 1 else 0;
    if j == 1 {
      p[0] := '-';
      v := Negated(t, v);
    }
    end := DigitsInOrder(v, p, j);
    assert value < 0 ==> p[..j] == "-";
    assert p[..end] == p[..j] + p[j..end];
  }

  /** Both loops: the digits written at j, the terminator, the digits turned round. */
  method DigitsInOrder(v: int, p: array<char>, j: nat) returns (end: nat)
    requires j + |Written(v)| < p.Length
    modifies p
    ensures end == j + |Written(v)| && p[j..end] == Reverse(Written(v)) && p[end] == '\0'
    ensures forall k :: 0 <= k < p.Length && !(j <= k <= end) ==> p[k] == old(p[k])
  {
    end := WriteDigits(v, p, j);
    p[end] := '\0';
    ReverseRange(p, j, end - 1);
  }

  /** The do-while loop. */
  method WriteDigits(value: int, p: array<char>, j: nat) returns (i: nat)
    requires j + |Written(value)| <= p.Length
    modifies p
    ensures i == j + |Written(value)|
    ensures forall k :: j <= k < i ==> p[k] == Written(value)[k - j]
    ensures forall k :: 0 <= k < p.Length && !(j <= k < i) ==> p[k] == old(p[k])
  {
    var v := value;
    ghost var text := Written(value);
    i := j;
    while true
      invariant j <= i < j + |text|
      invariant text[i - j..] == Written(v)
      invariant forall k :: j <= k < i ==> p[k] == text[k - j]
      invariant forall k :: 0 <= k < p.Length && !(j <= k < i) ==> p[k] == old(p[k])
      decreases |Written(v)|
    {
      WrittenStep(v);
      p[i] := DecDigit(Rem10(v));
      assert p[i] == text[i - j..][0];
      i := i + 1;
      var rest := Div10(v);
      if rest == 0 {
        break;
      }
      assert text[i - j..] == Written(v)[1..];
      v := rest;
    }
  }

  /** The closing loop: p[lo..=hi] turned round in place. */
  method ReverseRange(p: array<char>, lo: nat, hi: int)
    requires lo <= hi + 1 <= p.Length
    modifies p
    ensures forall k :: lo <= k <= hi ==> p[k] == old(p[lo + hi - k])
    ensures forall k :: 0 <= k < p.Length && !(lo <= k <= hi) ==> p[k] == old(p[k])
  {
    var i, j := hi, lo;
    while j < i
      invariant lo <= j <= i + 2 && i + j == lo + hi && i <= hi
      invariant forall k :: lo <= k < j || i < k <= hi ==> p[k] == old(p[lo + hi - k])
      invariant forall k :: 0 <= k < p.Length && (j <= k <= i || k < lo || hi < k) ==> p[k] == old(p[k])
    {
      var t := p[i];
      p[i] := p[j];
      p[j] := t;
      j := j + 1;
      i := i - 1;
    }
  }
}
