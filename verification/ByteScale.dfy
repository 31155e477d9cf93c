/** The scaling and rounding of format_bytes (samples/psinfo2/psinfo.cpp). */
module ByteScale {
  import opened Common
  import opened DecimalText

  function Pow1024(k: nat): (p: nat)
    ensures p > 0
  {
    if k == 0 then 1 else 1024 * Pow1024(k - 1)
  }

  /** v divided by 1024 so many times. */
  function Scaled(v: nat, prefix: nat): nat {
    if prefix == 0 then v else Scaled(v, prefix - 1) / 1024
  }

  lemma {:induction false} ScaledIsQuotient(v: nat, prefix: nat)
    ensures Scaled(v, prefix) == v / Pow1024(prefix)
    ensures Pow1024(prefix) * Scaled(v, prefix) <= v < Pow1024(prefix) * (Scaled(v, prefix) + 1)
  {
    var p, q := Pow1024(prefix), Scaled(v, prefix);
    if prefix > 0 {
      var p', q' := Pow1024(prefix - 1), Scaled(v, prefix - 1);
      ScaledIsQuotient(v, prefix - 1);
      assert 1024 * q <= q' < 1024 * q + 1024;
      Monotone(p', 1024 * q, q');
      Monotone(p', q' + 1, 1024 * q + 1024);
      Reassociate(p', q);
      Reassociate(p', q + 1);
    }
    QuotientIs(v, p, q);
  }

  lemma Monotone(p: nat, x: nat, y: nat)
    requires x <= y
    ensures p * x <= p * y
  {
  }

  lemma Reassociate(p: nat, q: nat)
    ensures p * (1024 * q) == 1024 * p * q
  {
  }

  lemma QuotientIs(v: nat, p: nat, q: nat)
    requires p > 0 && p * q <= v < p * (q + 1)
    ensures v / p == q
  {
    var r := v / p;
    assert p * r <= v < p * r + p;
    if r < q {
      Monotone(p, r + 1, q);
    } else if q < r {
      Monotone(p, q + 1, r);
    }
  }

  /** The loop: the whole part below 1024, the last remainder, and how often it divided. */
  method Scale(v: nat) returns (value: nat, rem: nat, prefix: nat)
    ensures value == v / Pow1024(prefix) < 1024
    ensures prefix > 0 ==> v >= Pow1024(prefix) && rem == v / Pow1024(prefix - 1) % 1024
    ensures prefix == 0 ==> rem == 0 && value == v
    ensures prefix < 5 <==> v < 0x4_0000_0000_0000
  {
    value, rem, prefix := v, 0, 0;
    while value / 1024 != 0
      invariant value == Scaled(v, prefix)
      invariant prefix > 0 ==> value > 0 && rem == Scaled(v, prefix - 1) % 1024
      invariant prefix == 0 ==> rem == 0
      decreases value
    {
      rem := value % 1024;
      value := value / 1024;
      prefix := prefix + 1;
    }
    Units();
    ScaledIsQuotient(v, prefix);
    if prefix > 0 {
      ScaledIsQuotient(v, prefix - 1);
      Monotone(Pow1024(prefix), 1, value);
    }
    Monotone(Pow1024(prefix), value + 1, 1024);
    if prefix < 5 {
      PowersGrow(prefix + 1, 5);
    } else {
      PowersGrow(5, prefix);
    }
  }

  /** From KiB to one more than the last prefix of the table. */
  lemma Units()
    ensures Pow1024(1) == 0x400 && Pow1024(2) == 0x10_0000 && Pow1024(3) == 0x4000_0000
    ensures Pow1024(4) == 0x100_0000_0000 && Pow1024(5) == 0x4_0000_0000_0000
  {
    assert Pow1024(3) == 1024 * Pow1024(2);
  }

  lemma {:induction false} PowersGrow(a: nat, b: nat)
    requires a <= b
    ensures Pow1024(a) <= Pow1024(b)
    decreases b - a
  {
    if a < b {
      PowersGrow(a, b - 1);
    }
  }

  // ---------------------------------------------------------------- the fraction

  /** r is rem / 1024 in units of the last of `digits` digits, to the nearest one. */
  predicate Rounded(rem: nat, digits: nat, r: nat) {
    -1024 <= 2 * (1024 * r - rem * Pow10(digits)) <= 1024
  }

  lemma Tables()
    ensures Pow10(1) == 10 && Pow10(2) == 100 && Pow10(3) == 1000 && Pow10(4) == 10000
    ensures Pow10(5) == 100000 && Pow10(6) == 1000000
  {
    assert Pow10(3) == 10 * Pow10(2);
    assert Pow10(5) == 10 * Pow10(4);
  }

  /** pow_table, whose last entry serves every precision from six on. */
  function TableEntry(precision: nat): nat
    requires precision > 0
  {
    [100, 1000, 10000, 100000, 1000000, 10000000][if precision < 6 then precision - 1 else 5]
  }

  /** The number printed in a field of `precision` digits is the fraction, right
      to half a unit of its last digit, up to five digits; with six exactly for
      remainders below 430, where the 32-bit product does not overflow; and with
      more, where the table has no power for them, only when there is nothing to
      print.  It is less than a whole unit but for one digit from remainder 973
      on and two digits from 1019 on, where rounding up reaches it. */
  method Fraction(remainder: nat, precision: nat) returns (rem: nat)
    requires remainder < 1024 && precision > 0
    ensures Rounded(remainder, precision, rem) <==>
              precision <= 5 || (precision == 6 && remainder < 430) || remainder == 0
    ensures rem < Pow10(precision) <==>
              (precision == 1 ==> remainder < 973) && (precision == 2 ==> remainder < 1019)
    ensures precision <= 5 ==> rem == (remainder * Pow10(precision) + 512) / 1024
    ensures precision >= 6 ==> rem == (remainder * 10000000 % UINT_SIZE + 5120) / 10240
  {
    var mod := TableEntry(precision);
    rem := (remainder * mod % UINT_SIZE) / 1024;
    rem := (rem + 5) / 10;  // to the nearest
    if precision <= 5 {
      FewDigits(remainder, precision, rem);
    } else {
      ManyDigits(remainder, precision, rem);
    }
  }

  lemma FewDigits(remainder: nat, precision: nat, r: nat)
    requires remainder < 1024 && 0 < precision <= 5
    requires r == (remainder * TableEntry(precision) % UINT_SIZE / 1024 + 5) / 10
    ensures Rounded(remainder, precision, r) && r == (remainder * Pow10(precision) + 512) / 1024
    ensures r < Pow10(precision) <==>
              (precision == 1 ==> remainder < 973) && (precision == 2 ==> remainder < 1019)
  {
    TableIsPowers(precision);
    FitsUint(remainder, TableEntry(precision));
    NearestTenth(remainder, Pow10(precision), r);
    Tables();
    match precision {
      case 1 => BelowOne(remainder, 10, 973, r);
      case 2 => BelowOne(remainder, 100, 1019, r);
      case 3 => BelowOne(remainder, 1000, 1024, r);
      case 4 => BelowOne(remainder, 10000, 1024, r);
      case _ => BelowOne(remainder, 100000, 1024, r);
    }
  }

  lemma TableIsPowers(precision: nat)
    requires 0 < precision <= 5
    ensures TableEntry(precision) == 10 * Pow10(precision) <= 1000000
  {
    Tables();
  }

  lemma FitsUint(remainder: nat, entry: nat)
    requires remainder < 1024 && entry <= 1000000
    ensures remainder * entry % UINT_SIZE == remainder * entry
  {
    Monotone(remainder, entry, 1000000);
  }

  /** The rounded fraction is less than a whole unit up to the given remainder. */
  lemma BelowOne(remainder: nat, unit: nat, limit: nat, r: nat)
    requires remainder < 1024 && (unit, limit) in {(10, 973), (100, 1019), (1000, 1024), (10000, 1024), (100000, 1024)}
    requires r == (remainder * (10 * unit) / 1024 + 5) / 10
    ensures r < unit <==> remainder < limit
  {
    Monotone(10 * unit, remainder, if remainder < limit then limit - 1 else remainder);
    Monotone(10 * unit, if remainder < limit then 0 else limit, remainder);
    assert 10 * unit * remainder == remainder * (10 * unit);
  }

  lemma NearestTenth(remainder: nat, unit: nat, r: nat)
    requires r == (remainder * (10 * unit) / 1024 + 5) / 10
    ensures -1024 <= 2 * (1024 * r - remainder * unit) <= 1024
    ensures r == (remainder * unit + 512) / 1024
  {
    var x := remainder * unit;
    assert remainder * (10 * unit) == 10 * x;
    assert r == (10 * x / 1024 + 5) / 10;
    RoundsOnce(x);
  }

  /** Cutting before rounding loses nothing, and ties go up. */
  lemma RoundsOnce(x: nat)
    ensures (10 * x / 1024 + 5) / 10 == (x + 512) / 1024
  {
    var q, m := x / 1024, x % 1024;
    assert 10 * x == 1024 * (10 * q) + 10 * m;
    assert 10 * x / 1024 == 10 * q + 10 * m / 1024;
    assert 10 * m / 1024 + 5 >= 10 <==> m >= 512;
  }

  /** From six digits on the factor is 10^7, and what is printed never exceeds 419430. */
  lemma ManyDigits(remainder: nat, precision: nat, r: nat)
    requires remainder < 1024 && precision >= 6
    requires r == (remainder * 10000000 % UINT_SIZE / 1024 + 5) / 10
    ensures Rounded(remainder, precision, r) <==> (precision == 6 && remainder < 430) || remainder == 0
    ensures r < Pow10(precision) && r == (remainder * 10000000 % UINT_SIZE + 5120) / 10240
  {
    Tables();
    CutTwice(remainder * 10000000 % UINT_SIZE);
    if remainder < 430 {
      NearestTenth(remainder, 1000000, r);
    } else {
      OverflowMisses(remainder, r);
    }
    if precision > 6 {
      PowersOfTen(7, precision);
      Monotone(remainder, 10000000, Pow10(precision));
    }
  }

  lemma CutTwice(x: nat)
    ensures (x / 1024 + 5) / 10 == (x + 5120) / 10240
  {
    assert x / 1024 + 5 == (x + 5120) / 1024;
  }

  lemma OverflowMisses(remainder: nat, r: nat)
    requires 430 <= remainder && r == (remainder * 10000000 % UINT_SIZE / 1024 + 5) / 10
    ensures 2 * (1024 * r - remainder * 1000000) < -1024 && r <= 419430
  {
    assert remainder * 10000000 % UINT_SIZE < UINT_SIZE;
  }

  lemma {:induction false} PowersOfTen(a: nat, b: nat)
    requires a <= b
    ensures Pow10(a) <= Pow10(b)
    decreases b - a
  {
    if a < b {
      PowersOfTen(a, b - 1);
    }
  }

  // ---------------------------------------------------------------- the field

  /** setw(width) << r with internal adjustment: filled up in front of the digits. */
  function Field(r: nat, width: nat, fill: char): (s: string)
    ensures |s| >= width
  {
    var digits := Digits(r);
    (if |digits| < width then seq(width - |digits|, _ => fill) else []) + digits
  }

  lemma {:induction false} DigitsLength(r: nat, n: nat)
    requires n > 0
    ensures |Digits(r)| > n <==> r >= Pow10(n)
    decreases n
  {
    if n > 1 && r >= 10 {
      DigitsLength(r / 10, n - 1);
    } else if n > 1 {
      PowersOfTen(1, n);
    }
  }

  /** The source leaves the fill character as it is.  What is printed is the
      number with zeros in front exactly if that character is '0' or the number
      has as many digits as the precision; the default, a space, will not do. */
  lemma FieldIsZeroPadded(r: nat, precision: nat, fill: char)
    requires precision > 0
    ensures Field(r, precision, fill) == Field(r, precision, '0')
       <==> fill == '0' || precision == 1 || r >= Pow10(precision - 1)
  {
    var digits := Digits(r);
    if precision > 1 {
      DigitsLength(r, precision - 1);
    }
    if |digits| < precision {
      assert Field(r, precision, fill)[0] == fill && Field(r, precision, '0')[0] == '0';
    }
  }

  /** With zeros in front the field has the digits of the fraction and no others. */
  lemma ZeroPaddedIsFraction(r: nat, precision: nat)
    requires precision > 0 && r < Pow10(precision)
    ensures |Field(r, precision, '0')| == precision
    ensures IsDigits(Field(r, precision, '0')) && ParseDigits(Field(r, precision, '0')) == r
  {
    DigitsParse(r);
    DigitsLength(r, precision);
    LeadingZeros(Digits(r), precision - |Digits(r)|);
  }

  lemma {:induction false} LeadingZeros(s: string, n: nat)
    requires IsDigits(s)
    ensures IsDigits(seq(n, _ => '0') + s) && ParseDigits(seq(n, _ => '0') + s) == ParseDigits(s)
    decreases |s|
  {
    var t := seq(n, _ => '0') + s;
    var init := s[..|s| - 1];
    assert t[..|t| - 1] == seq(n, _ => '0') + init;
    if |s| == 1 {
      OnlyZeros(n);
      assert seq(n, _ => '0') + init == seq(n, _ => '0');
    } else {
      LeadingZeros(init, n);
    }
  }

  lemma {:induction false} OnlyZeros(n: nat)
    ensures ParseDigits(seq(n, _ => '0')) == 0
  {
    if n > 0 {
      var z := seq(n, _ => '0');
      assert z[..n - 1] == seq(n - 1, _ => '0');
      OnlyZeros(n - 1);
    }
  }
}
