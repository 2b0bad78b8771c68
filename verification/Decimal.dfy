/** Decimal printing (fmt's %d) and parsing (strconv.ParseUint, ParseInt and Atoi in base 10). */
module Decimal {
  import opened Bytes
  import opened Numbers

  const ZERO: Byte := '0' as int
  const MINUS: Byte := '-' as int
  const PLUS: Byte := '+' as int

  const MAX_UINT32 := 0xFFFF_FFFF
  const MAX_INT64 := 0x7FFF_FFFF_FFFF_FFFF
  const MIN_INT64 := -0x8000_0000_0000_0000

  predicate IsDigit(c: Byte) { ZERO <= c <= ZERO + 9 }

  predicate AllDigits(s: Text) { forall i :: 0 <= i < |s| ==> IsDigit(s[i]) }

  function FormatNat(n: nat): (s: Text)
    ensures s != [] && AllDigits(s)
  {
    if n < 10 then [ZERO + n] else FormatNat(n / 10) + [ZERO + n % 10]
  }

  function FormatInt(n: int): Text {
    if n < 0 then [MINUS] + FormatNat(-n) else FormatNat(n)
  }

  /** The number a string of digits denotes. */
  function DigitsValue(s: Text): nat
    requires AllDigits(s)
  {
    if s == [] then 0 else 10 * DigitsValue(s[..|s| - 1]) + (s[|s| - 1] - ZERO)
  }

  /** strconv.ParseUint(s, 10, ...): digits only, at least one, value at most `max`. */
  function ParseUint(s: Text, max: nat): (r: Option<int>)
    ensures r.Some? ==> 0 <= r.value <= max
  {
    if s == [] || !AllDigits(s) || DigitsValue(s) > max then None else Some(DigitsValue(s))
  }

  /** strconv.ParseInt(s, 10, 64), and Atoi on a 64-bit platform: an optional sign, then digits. */
  function ParseInt(s: Text): Option<int> {
    if s == [] then None
    else if s[0] == MINUS then
      match ParseUint(s[1..], -MIN_INT64)
      case None => None
      case Some(n) => Some(-n)
    else ParseUint(if s[0] == PLUS then s[1..] else s, MAX_INT64)
  }

  lemma {:induction false} FormatNatValue(n: nat)
    ensures DigitsValue(FormatNat(n)) == n
  {
    if n >= 10 {
      FormatNatValue(n / 10);
      var s := FormatNat(n);
      assert s[..|s| - 1] == FormatNat(n / 10);
    }
  }

  /** Read from the right, character k is the decimal digit of 10^k, and only a single digit can be a leading zero. */
  lemma {:induction false} FormatNatDigits(n: nat, k: nat)
    ensures var s := FormatNat(n);
      && (k < |s| ==> s[|s| - 1 - k] == '0' as int + n / Pow10(k) % 10)
      && (|s| > 1 ==> s[0] != '0' as int)
  {
    if n >= 10 {
      FormatNatDigits(n / 10, if k == 0 then 0 else k - 1);
      if k > 0 {
        DivideTwice(n, 10, Pow10(k - 1));
      }
    }
  }

  /** A number written with leading zeros. */
  ghost predicate Denotes(s: Text, n: nat) {
    exists zeros: nat :: s == Repeat(48, zeros) + FormatNat(n)
  }

  lemma {:induction false} LeadingZeros(zeros: nat, s: Text)
    requires AllDigits(s)
    ensures AllDigits(Repeat(ZERO, zeros) + s) && DigitsValue(Repeat(ZERO, zeros) + s) == DigitsValue(s)
  {
    var t := Repeat(ZERO, zeros) + s;
    if s != [] {
      assert t[..|t| - 1] == Repeat(ZERO, zeros) + s[..|s| - 1];
      LeadingZeros(zeros, s[..|s| - 1]);
    } else if zeros > 0 {
      assert t[..|t| - 1] == Repeat(ZERO, zeros - 1) + s;
      LeadingZeros(zeros - 1, s);
    }
  }

  lemma {:induction false} DigitsDenote(s: Text) returns (zeros: nat)
    requires s != [] && AllDigits(s)
    ensures s == Repeat(ZERO, zeros) + FormatNat(DigitsValue(s))
  {
    var t, d := s[..|s| - 1], s[|s| - 1];
    assert s == t + [d];
    if t == [] {
      zeros := 0;
    } else {
      zeros := DigitsDenote(t);
      var v := DigitsValue(t);
      NextDigit(v, d - ZERO);
      if v == 0 {
        assert t == Repeat(ZERO, zeros + 1);
        zeros := zeros + 1;
      }
    }
  }

  lemma NextDigit(v: nat, d: nat)
    requires d < 10
    ensures v > 0 ==> FormatNat(10 * v + d) == FormatNat(v) + [ZERO + d]
  {}

  /** Exactly the printed numbers within the limit are read, with any number of leading zeros. */
  lemma ParseUintExactlyWhen(s: Text, max: nat, n: nat)
    ensures ParseUint(s, max) == Some(n) <==> n <= max && Denotes(s, n)
  {
    if ParseUint(s, max) == Some(n) {
      var zeros := DigitsDenote(s);
    }
    if Denotes(s, n) {
      var zeros: nat :| s == Repeat(48, zeros) + FormatNat(n);
      LeadingZeros(zeros, FormatNat(n));
      FormatNatValue(n);
    }
  }

  lemma StartsWithDigit(s: Text, n: nat)
    requires Denotes(s, n)
    ensures s != [] && IsDigit(s[0])
  {}

  /** And the same with a sign in front, for numbers of 64 bits. */
  lemma ParseIntExactlyWhen(s: Text, n: int)
    ensures ParseInt(s) == Some(n)
       <==> -9_223_372_036_854_775_808 <= n <= 9_223_372_036_854_775_807
            && ((n >= 0 && Denotes(s, n))
                || (n >= 0 && s != [] && s[0] == '+' as int && Denotes(s[1..], n))
                || (n <= 0 && s != [] && s[0] == '-' as int && Denotes(s[1..], -n)))
  {
    if n >= 0 {
      ParseUintExactlyWhen(s, MAX_INT64, n);
      if Denotes(s, n) {
        StartsWithDigit(s, n);
      }
      if s != [] {
        ParseUintExactlyWhen(s[1..], MAX_INT64, n);
      }
    }
    if n <= 0 && s != [] {
      ParseUintExactlyWhen(s[1..], -MIN_INT64, -n);
    }
  }

  /** Printing then parsing returns the number exactly when it is in range. */
  lemma ParseUintFormat(n: nat, max: nat)
    ensures ParseUint(FormatNat(n), max) == if n <= max then Some(n) else None
  {
    FormatNatValue(n);
  }

  /** Every int64 survives printing and parsing. */
  lemma ParseIntFormat(n: int)
    requires MIN_INT64 <= n <= MAX_INT64
    ensures ParseInt(FormatInt(n)) == Some(n)
  {
    var s := FormatNat(if n < 0 then -n else n);
    FormatNatValue(if n < 0 then -n else n);
    if n < 0 {
      assert FormatInt(n)[1..] == s;
    } else {
      assert IsDigit(s[0]);
    }
  }

  /** No decimal contains a field separator. */
  lemma FormatIntNoColon(n: int)
    ensures COLON !in FormatInt(n)
  {
    var s := FormatNat(if n < 0 then -n else n);
    assert forall i :: 0 <= i < |s| ==> IsDigit(s[i]);
  }

  /** A number below 10^k prints in at most k digits. */
  lemma {:induction false} FormatNatLength(n: nat, k: nat)
    requires k >= 1 && n < Pow10(k)
    ensures |FormatNat(n)| <= k
  {
    if n >= 10 {
      assert k >= 2 by { assert Pow10(1) == 10 * Pow10(0); }
      FormatNatLength(n / 10, k - 1);
    }
  }

  /** An int64 prints in at most 20 characters, a uint32 in at most 10. */
  lemma IntegerWidths(n: int)
    ensures MIN_INT64 <= n <= MAX_INT64 ==> |FormatInt(n)| <= 20
    ensures 0 <= n <= MAX_UINT32 ==> |FormatNat(n)| <= 10
  {
    assert Pow10(19) == 10_000_000_000_000_000_000;
    assert Pow10(10) == 10_000_000_000;
    if MIN_INT64 <= n <= MAX_INT64 {
      FormatNatLength(if n < 0 then -n else n, 19);
    }
    if 0 <= n <= MAX_UINT32 {
      FormatNatLength(n, 10);
    }
  }
}
