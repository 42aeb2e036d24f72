/**
  Positional rendering of natural numbers, shared by the two renderings the
  tester uses: decimal (`Integer.toString`, for directory and file names) and
  lower-case hexadecimal (`BigInteger.toString(16)`, for digests).
 */
module Digits {

  /** 16 raised to the k-th power. */
  function Pow16(k: nat): (r: nat)
    ensures r >= 1
  {
    if k == 0 then 1 else 16 * Pow16(k - 1)
  }

  /** The character Java prints for digit d: '0'..'9' then 'a'..'f'. */
  function DigitChar(d: nat): (c: char)
    requires d < 16
  {
    if d < 10 then (48 + d) as char else (97 + d - 10) as char
  }

  predicate IsDigitChar(c: char) {
    '0' <= c <= '9' || 'a' <= c <= 'f'
  }

  /** The base-b representation of n, most significant digit first, without
      leading zeros ("0" for zero). */
  function ToDigits(n: nat, b: nat): (s: string)
    requires 2 <= b <= 16
    ensures |s| >= 1
    ensures forall k :: 0 <= k < |s| ==> IsDigitChar(s[k])
    decreases n
  {
    if n < b then [DigitChar(n)]
    else
      DivMod(n, b);
      ToDigits(n / b, b) + [DigitChar(n % b)]
  }

  lemma DigitCharInjective(d: nat, e: nat)
    requires d < 16 && e < 16 && DigitChar(d) == DigitChar(e)
    ensures d == e
  {
  }

  /** One step of the rendering: the quotient's digits, then the
      remainder's digit, with the quotient strictly smaller. */
  lemma ToDigitsStep(n: nat, b: nat)
    requires 2 <= b <= 16 && n >= b
    ensures ToDigits(n, b) == ToDigits(n / b, b) + [DigitChar(n % b)]
    ensures 1 <= n / b < n && n == n / b * b + n % b && n % b < b
  {
    DivMod(n, b);
  }

  /** Distinct numbers are rendered as distinct strings. */
  lemma {:induction false} ToDigitsInjective(m: nat, n: nat, b: nat)
    requires 2 <= b <= 16
    ensures ToDigits(m, b) == ToDigits(n, b) ==> m == n
    decreases n
  {
    var s := ToDigits(m, b);
    if s != ToDigits(n, b) {
    } else if m < b && n < b {
      DigitCharInjective(m, n);
    } else if m >= b && n >= b {
      ToDigitsStep(m, b);
      ToDigitsStep(n, b);
      var qm, rm, qn, rn := m / b, m % b, n / b, n % b;
      assert s[..|s| - 1] == ToDigits(qm, b) == ToDigits(qn, b);
      assert s[|s| - 1] == DigitChar(rm) == DigitChar(rn);
      DigitCharInjective(rm, rn);
      ToDigitsInjective(qm, qn, b);
    } else if m < b {
      ToDigitsStep(n, b);
    } else {
      ToDigitsStep(m, b);
    }
  }

  lemma DivMod(n: nat, b: nat)
    requires b >= 2
    ensures n == n / b * b + n % b && n % b < b
    ensures n >= b ==> 1 <= n / b < n
  {
    var q, r := n / b, n % b;
    assert n == q * b + r && 0 <= r < b;
    MulAtLeastDouble(q, b);
  }

  lemma MulAtLeastDouble(q: nat, b: nat)
    requires b >= 2
    ensures q * b >= 2 * q
  {
    assert q * b == q * (b - 2) + 2 * q;
  }

  /** A rendering has no leading zero unless it is "0" itself. */
  lemma {:induction false} NoLeadingZero(n: nat, b: nat)
    requires 2 <= b <= 16
    ensures ToDigits(n, b)[0] == '0' <==> n == 0
    decreases n
  {
    if n >= b {
      ToDigitsStep(n, b);
      NoLeadingZero(n / b, b);
    }
  }

  lemma {:induction false} PowMonotonic(j: nat, k: nat)
    requires j <= k
    ensures Pow16(j) <= Pow16(k)
    decreases k
  {
    if j < k {
      PowMonotonic(j, k - 1);
    }
  }

  lemma {:induction false} PowAdd(j: nat, k: nat)
    ensures Pow16(j + k) == Pow16(j) * Pow16(k)
    decreases k
  {
    if k > 0 {
      PowAdd(j, k - 1);
      MulAssoc(16, Pow16(j), Pow16(k - 1));
    }
  }

  lemma MulAssoc(x: int, y: int, z: int)
    ensures x * (y * z) == y * (x * z)
  {
  }

  /** A hexadecimal rendering of length L denotes a number in
      [16^(L-1), 16^L), except that zero is rendered with one digit. */
  lemma {:induction false} HexLengthBounds(n: nat)
    ensures n < Pow16(|ToDigits(n, 16)|)
    ensures n > 0 ==> Pow16(|ToDigits(n, 16)| - 1) <= n
    decreases n
  {
    if n >= 16 {
      ToDigitsStep(n, 16);
      HexLengthBounds(n / 16);
    }
  }

  /** The number of hexadecimal digits of n is fixed by the power range n
      falls in. */
  lemma HexDigitCount(n: nat, L: nat)
    requires L >= 1
    requires Pow16(L - 1) <= n < Pow16(L)
    ensures |ToDigits(n, 16)| == L
  {
    HexLengthBounds(n);
    var M := |ToDigits(n, 16)|;
    if M < L {
      PowMonotonic(M, L - 1);
    } else if M > L {
      PowMonotonic(L, M - 1);
    }
  }
}
