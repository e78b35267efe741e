/** How the dispatcher reads a token as a JSON boolean or integer.

    The grammar is that of RFC 8259: section 3 for the literals `true` and
    `false`, section 6 for `int = [ minus ] ( zero / ( digit1-9 *DIGIT ) )`.
    The JSON reader the source calls adds one rule of its own: a negative
    sign followed by zero (`-0`) is read as the floating-point number -0.0,
    not as an integer, so a request for an integer type refuses it. Fractions
    and exponents likewise make a float and are refused for integer types. */
module Json {
  import opened Basics

  predicate IsDigit(c: char) { '0' <= c <= '9' }

  predicate AllDigits(s: string) { forall i :: 0 <= i < |s| ==> IsDigit(s[i]) }

  function DigitValue(c: char): (d: nat)
    requires IsDigit(c)
    ensures d < 10
  {
    c as int - '0' as int
  }

  function DigitChar(d: nat): (c: char)
    requires d < 10
    ensures IsDigit(c) && DigitValue(c) == d
  {
    ('0' as int + d) as char
  }

  /** The unsigned part of the `int` production: digits, without a leading
      zero unless the number is zero itself. */
  predicate IsUnsignedInt(s: string) {
    |s| > 0 && AllDigits(s) && (s[0] != '0' || |s| == 1)
  }

  /** The value of a decimal digit string. */
  function DecimalValue(s: string): nat
    requires AllDigits(s)
  {
    if |s| == 0 then 0 else 10 * DecimalValue(s[..|s| - 1]) + DigitValue(s[|s| - 1])
  }

  /** The canonical decimal spelling of a natural number. */
  function ShowNat(n: nat): string
  {
    if n < 10 then [DigitChar(n)] else ShowNat(n / 10) + [DigitChar(n % 10)]
  }

  /** The canonical JSON spelling of an integer. */
  function ShowInt(v: int): string
  {
    if v < 0 then "-" + ShowNat(-v) else ShowNat(v)
  }

  /** The canonical JSON spelling of a boolean. */
  function ShowBool(b: bool): string
  {
    if b then "true" else "false"
  }

  /** The integer a whole token denotes when the JSON reader reads it as an
      integer; None when the token is not an `int` or is the negative zero. */
  function IntegerToken(s: string): Option<int>
  {
    if |s| > 0 && s[0] == '-' then
      if IsUnsignedInt(s[1..]) && s[1..] != "0" then Some(-(DecimalValue(s[1..]) as int)) else None
    else if IsUnsignedInt(s) then Some(DecimalValue(s))
    else None
  }

  /** Reading a token as a JSON boolean. */
  function ReadBool(s: string): Option<bool>
  {
    if s == "true" then Some(true)
    else if s == "false" then Some(false)
    else None
  }

  /** Reading a token as a JSON integer into an `i32`: out-of-range values
      are refused, never wrapped. */
  function ReadI32(s: string): Option<i32>
  {
    match IntegerToken(s)
    case Some(v) => if I32_MIN <= v <= I32_MAX then Some(v) else None
    case None => None
  }

  /** Reading a token as a JSON integer into an `i64`. */
  function ReadI64(s: string): Option<i64>
  {
    match IntegerToken(s)
    case Some(v) => if I64_MIN <= v <= I64_MAX then Some(v) else None
    case None => None
  }

  lemma {:induction false} ShowNatIsCanonical(n: nat)
    ensures IsUnsignedInt(ShowNat(n))
    ensures DecimalValue(ShowNat(n)) == n
    decreases n
  {
    if n >= 10 {
      ShowNatIsCanonical(n / 10);
      var p := ShowNat(n / 10);
      var s := ShowNat(n);
      assert s == p + [DigitChar(n % 10)];
      assert s[..|s| - 1] == p;
      assert AllDigits(s) by {
        forall i | 0 <= i < |s| ensures IsDigit(s[i]) {
          if i < |p| { assert s[i] == p[i]; }
        }
      }
      assert s[0] == p[0];
    }
  }

  lemma {:induction false} LeadingNonZeroIsPositive(s: string)
    requires |s| > 0 && AllDigits(s) && s[0] != '0'
    ensures DecimalValue(s) >= 1
    decreases |s|
  {
    if |s| > 1 {
      var p := s[..|s| - 1];
      assert p[0] == s[0];
      LeadingNonZeroIsPositive(p);
    }
  }

  lemma {:induction false} ShowNatOfValue(s: string)
    requires IsUnsignedInt(s)
    ensures ShowNat(DecimalValue(s)) == s
    decreases |s|
  {
    if |s| > 1 {
      var p := s[..|s| - 1];
      var d := DigitValue(s[|s| - 1]);
      assert p[0] == s[0];
      assert IsUnsignedInt(p);
      LeadingNonZeroIsPositive(p);
      ShowNatOfValue(p);
      var n := DecimalValue(s);
      assert n == 10 * DecimalValue(p) + d;
      assert n / 10 == DecimalValue(p) && n % 10 == d;
      assert DigitChar(d) == s[|s| - 1];
      assert s == p + [s[|s| - 1]];
    } else {
      assert s == [DigitChar(DigitValue(s[0]))];
    }
  }

  lemma ShowNatZero(n: nat)
    ensures ShowNat(n) == "0" <==> n == 0
  {
    ShowNatIsCanonical(n);
    if ShowNat(n) == "0" {
      assert DecimalValue("0") == 0;
    }
  }

  lemma IntegerTokenIsCanonical(s: string, v: int)
    requires IntegerToken(s) == Some(v)
    ensures s == ShowInt(v)
  {
    if |s| > 0 && s[0] == '-' {
      var u := s[1..];
      assert s == "-" + u;
      if |u| == 1 {
        assert u[0] != '0';
      }
      LeadingNonZeroIsPositive(u);
      ShowNatOfValue(u);
    } else {
      ShowNatOfValue(s);
    }
  }

  lemma CanonicalIsIntegerToken(v: int)
    ensures IntegerToken(ShowInt(v)) == Some(v)
  {
    var s := ShowInt(v);
    if v < 0 {
      var u := ShowNat(-v);
      ShowNatIsCanonical(-v);
      ShowNatZero(-v);
      assert s[0] == '-';
      assert s[1..] == u;
    } else {
      ShowNatIsCanonical(v);
      assert IsDigit(s[0]);
    }
  }

  /** The JSON reader accepts exactly the canonical spelling of each integer:
      no sign on positives, no leading zeros, and no negative zero. */
  lemma IntegerTokenCanonical(s: string, v: int)
    ensures IntegerToken(s) == Some(v) <==> s == ShowInt(v)
  {
    if IntegerToken(s) == Some(v) {
      IntegerTokenIsCanonical(s, v);
    }
    if s == ShowInt(v) {
      CanonicalIsIntegerToken(v);
    }
  }

  /** An `i32` argument accepts a token exactly when the token is the
      canonical spelling of a 32-bit value, and binds that value. */
  lemma ReadI32Canonical(s: string, v: int)
    ensures ReadI32(s) == Some(v) <==> I32_MIN <= v <= I32_MAX && s == ShowInt(v)
  {
    IntegerTokenCanonical(s, v);
  }

  /** An `i64` argument accepts a token exactly when the token is the
      canonical spelling of a 64-bit value, and binds that value. */
  lemma ReadI64Canonical(s: string, v: int)
    ensures ReadI64(s) == Some(v) <==> I64_MIN <= v <= I64_MAX && s == ShowInt(v)
  {
    IntegerTokenCanonical(s, v);
  }

  /** Reading a boolean inverts its spelling; case matters (`True` is refused). */
  lemma ReadBoolCanonical(s: string, b: bool)
    ensures ReadBool(s) == Some(b) <==> s == ShowBool(b)
  {
  }
}
