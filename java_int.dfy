/** Java's 32-bit `int`, its truncating remainder, and the decimal text forms that
    `Integer.toString`, `Integer.parseInt` and `String.trim` give it. */
module JavaInt {
  import opened Wrappers

  const MinInt: int := -0x8000_0000
  const MaxInt: int := 0x7fff_ffff

  /** Values a Java `int` can hold. */
  type int32 = n: int | MinInt <= n <= MaxInt

  /** Two's-complement wrap-around of an exact result into an `int`. */
  function Wrap32(n: int): (r: int32)
    ensures (r - n) % 0x1_0000_0000 == 0
    ensures MinInt <= n <= MaxInt ==> r == n
  {
    var m := n % 0x1_0000_0000;
    if m <= MaxInt then m else m - 0x1_0000_0000
  }

  /** Java's `a % b` for a positive `b`: the remainder of division truncated toward
      zero, so it takes the sign of `a` (Dafny's `%` is Euclidean). */
  function JavaRem(a: int, b: int): int
    requires b > 0
  {
    if a >= 0 then a % b else -((-a) % b)
  }

  /** `((n % d) + d) % d` written with Java's `%`: the floored modulus. */
  function FloorMod(n: int, d: int): int
    requires d > 0
  {
    JavaRem(JavaRem(n, d) + d, d)
  }

  /** `(n + d) % d` written with Java's `%`. */
  function ShiftMod(n: int, d: int): int
    requires d > 0
  {
    JavaRem(n + d, d)
  }

  /** On the coordinates one grid step can produce (one cell before the edge to
      one cell past it, and more), both wrap idioms of the source give the
      mathematical remainder, which lies in `[0, d)`. */
  lemma WrapIdiomsAgree(n: int, d: int)
    requires d > 0
    requires -d <= n < 2 * d
    ensures FloorMod(n, d) == n % d == ShiftMod(n, d)
    ensures 0 <= n % d < d
    ensures 0 <= n < d ==> n % d == n
  {
    var m: int;
    if n < 0 {
      ModShiftDown(n, d);
      m := n + d;
      if n == -d {
        ModShift(0, d);
        assert JavaRem(n, d) == 0;
      } else {
        ModSmall(-n, d);
        assert JavaRem(n, d) == n;
      }
      ModSmall(m, d);
      assert JavaRem(n + d, d) == m;
      assert JavaRem(JavaRem(n, d) + d, d) == m;
    } else if n < d {
      m := n;
      ModSmall(n, d);
      ModShift(n, d);
      assert JavaRem(n, d) == m;
      assert JavaRem(n + d, d) == m;
    } else {
      m := n - d;
      ModShift(m, d);
      ModSmall(m, d);
      assert n % d == m;
      assert JavaRem(n, d) == m;
      ModShift2(m, d);
      assert JavaRem(n + d, d) == m;
      assert JavaRem(m + d, d) == m;
    }
    assert n % d == m;
  }

  /** The floored modulus is the mathematical remainder, in `[0, d)` whatever
      the sign of `n`. */
  lemma FloorModIsMod(n: int, d: int)
    requires d > 0
    ensures FloorMod(n, d) == n % d
    ensures 0 <= FloorMod(n, d) < d
    ensures 0 <= n < d ==> FloorMod(n, d) == n
  {
    if n >= 0 {
      ModShift(n % d, d);
      if n < d {
        ModSmall(n, d);
      }
    } else {
      var q, m := (-n) / d, (-n) % d;
      assert -n == q * d + m;
      assert JavaRem(n, d) == -m;
      if m == 0 {
        ModUnique(n, d, -q, 0);
        ModShift(0, d);
      } else {
        ModUnique(n, d, -q - 1, d - m);
        ModSmall(d - m, d);
      }
    }
  }

  /** A remainder in `[0, d)` is the only one: `n == k * d + r` fixes `n % d`. */
  lemma ModUnique(n: int, d: int, k: int, r: int)
    requires d > 0 && 0 <= r < d && n == k * d + r
    ensures n % d == r
  {
    var q, m := n / d, n % d;
    assert n == q * d + m;
    var e := q - k;
    assert e * d == r - m;
    if e > 0 {
      MultipleAtLeast(e, d);
    } else if e < 0 {
      MultipleAtLeast(-e, d);
    }
  }

  /** A positive multiple of `d` is at least `d`. */
  lemma {:induction false} MultipleAtLeast(e: int, d: int)
    requires e >= 1 && d > 0
    ensures e * d >= d
    decreases e
  {
    if e > 1 {
      MultipleAtLeast(e - 1, d);
      assert e * d == (e - 1) * d + d;
    }
  }

  lemma ModShift2(x: int, d: int)
    requires 0 <= x < d
    ensures (x + 2 * d) % d == x
  {
  }

  lemma ModSmall(x: int, d: int)
    requires 0 <= x < d
    ensures x % d == x
  {
  }

  lemma ModShift(x: int, d: int)
    requires 0 <= x < d
    ensures (x + d) % d == x
  {
  }

  lemma ModShiftDown(x: int, d: int)
    requires -d <= x < 0
    ensures x % d == x + d
  {
  }

  // ---------------------------------------------------------------------------
  // Decimal text

  predicate IsDigit(c: char) { '0' <= c <= '9' }

  function DigitChar(n: nat): (c: char)
    requires n < 10
    ensures IsDigit(c)
  {
    "0123456789"[n]
  }

  function DigitValue(c: char): nat
    requires IsDigit(c)
  {
    (c - '0') as nat
  }

  /** The decimal digits of a natural number, most significant first, no leading zero. */
  function NatDigits(n: nat): (s: string)
    ensures |s| >= 1
    ensures forall i :: 0 <= i < |s| ==> IsDigit(s[i])
    decreases n
  {
    if n < 10 then [DigitChar(n)] else NatDigits(n / 10) + [DigitChar(n % 10)]
  }

  /** The number a nonempty string of digits denotes. */
  function DigitsValue(s: string): nat
    requires forall i :: 0 <= i < |s| ==> IsDigit(s[i])
  {
    if s == [] then 0 else DigitsValue(s[..|s| - 1]) * 10 + DigitValue(s[|s| - 1])
  }

  /** `Integer.toString(n)`: an optional minus sign followed by the digits of |n|. */
  function DecimalString(n: int): string
  {
    if n < 0 then "-" + NatDigits(-n) else NatDigits(n)
  }

  predicate AllDigits(s: string) { forall i :: 0 <= i < |s| ==> IsDigit(s[i]) }

  /** `Integer.parseInt(s)`: an optional sign, then at least one digit, and a value
      that fits an `int`; anything else throws `NumberFormatException` (None). */
  function ParseInt(s: string): (r: Option<int32>)
    ensures r.Some? ==> |s| >= 1
  {
    if |s| == 0 then None
    else
      var neg := s[0] == '-';
      var body := if s[0] == '-' || s[0] == '+' then s[1..] else s;
      if |body| == 0 || !AllDigits(body) then None
      else
        var mag: int := DigitsValue(body);
        var v := if neg then -mag else mag;
        if MinInt <= v <= MaxInt then Some(v) else None
  }

  /** `String.trim()`: leading and trailing characters up to U+0020 removed. */
  function Trim(s: string): (t: string)
    ensures |t| <= |s|
  {
    TrimEnd(TrimStart(s))
  }

  function TrimStart(s: string): (t: string)
    ensures |t| <= |s|
  {
    if |s| > 0 && s[0] <= ' ' then TrimStart(s[1..]) else s
  }

  function TrimEnd(s: string): (t: string)
    ensures |t| <= |s|
  {
    if |s| > 0 && s[|s| - 1] <= ' ' then TrimEnd(s[..|s| - 1]) else s
  }

  lemma {:induction false} DigitsRoundTrip(n: nat)
    ensures DigitsValue(NatDigits(n)) == n
    decreases n
  {
    if n >= 10 {
      DigitsRoundTrip(n / 10);
      var s := NatDigits(n);
      assert s[..|s| - 1] == NatDigits(n / 10);
      assert DigitValue(DigitChar(n % 10)) == n % 10 by { DigitCharValue(n % 10); }
    } else {
      DigitCharValue(n);
    }
  }

  lemma DigitCharValue(n: nat)
    requires n < 10
    ensures DigitValue(DigitChar(n)) == n
  {
  }

  /** A single digit is left alone by `trim` and parses to its value. */
  lemma SingleDigit(c: char)
    requires IsDigit(c)
    ensures Trim([c]) == [c]
    ensures ParseInt([c]) == Some(DigitValue(c) as int32)
  {
    assert [c][..0] == [];
    assert TrimStart([c]) == [c];
    assert AllDigits([c]);
    assert DigitsValue([c]) == DigitsValue([]) * 10 + DigitValue(c);
    assert c != '-' && c != '+';
  }

  /** Parsing what `Integer.toString` printed gives the same `int` back. */
  lemma ParseDecimalString(n: int32)
    ensures ParseInt(DecimalString(n)) == Some(n)
  {
    var s := DecimalString(n);
    var mag: nat := if n < 0 then -(n as int) else n as int;
    var d := NatDigits(mag);
    DigitsRoundTrip(mag);
    assert AllDigits(d);
    if n < 0 {
      assert s == "-" + d;
      assert s[0] == '-' && s[1..] == d;
    } else {
      assert s == d;
      assert IsDigit(s[0]);
    }
  }

  /** Decimal text holds no comma and no character that `trim` removes. */
  lemma DecimalStringIsPlain(n: int)
    ensures forall i :: 0 <= i < |DecimalString(n)| ==> DecimalString(n)[i] != ',' && DecimalString(n)[i] > ' '
    ensures Trim(DecimalString(n)) == DecimalString(n)
    ensures |DecimalString(n)| >= 1
  {
    var s := DecimalString(n);
    var d := NatDigits(if n < 0 then -n else n);
    assert forall i :: 0 <= i < |d| ==> IsDigit(d[i]);
    assert forall i :: 0 <= i < |s| ==> s[i] != ',' && s[i] > ' ' by {
      if n < 0 {
        assert s == "-" + d;
        forall i | 0 <= i < |s| ensures s[i] != ',' && s[i] > ' ' {
          if i > 0 { assert s[i] == d[i - 1]; }
        }
      }
    }
    assert TrimStart(s) == s;
    assert TrimEnd(s) == s;
  }
}
