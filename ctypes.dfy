/** Machine-level vocabulary shared by the C sources: fixed-width unsigned
    integers, the `<ctype.h>` classifiers in the "C" locale, C's truncating
    division, and the usual Option/Result wrappers for error paths. */
module CTypes {

  type u8 = x: int | 0 <= x < 0x100
  type u32 = x: int | 0 <= x < 0x1_0000_0000

  const U64_MODULUS: int := 0x1_0000_0000_0000_0000

  datatype Option<+T> = None | Some(value: T)

  datatype Result<+T, +E> = Ok(value: T) | Err(error: E)

  /** `isspace` in the "C" locale: space, \t, \n, \v, \f, \r. */
  predicate IsSpace(c: char) {
    c == ' ' || c == '\t' || c == '\n' || c == 11 as char || c == 12 as char || c == '\r'
  }

  /** `isdigit`. */
  predicate IsDigit(c: char) {
    '0' <= c <= '9'
  }

  /** `isalpha` in the "C" locale. */
  predicate IsAlpha(c: char) {
    ('a' <= c <= 'z') || ('A' <= c <= 'Z')
  }

  /** `isalnum` in the "C" locale. */
  predicate IsAlnum(c: char) {
    IsAlpha(c) || IsDigit(c)
  }

  /** `toupper` in the "C" locale: only 'a'..'z' change. */
  function ToUpper(c: char): (r: char)
    ensures 'a' <= c <= 'z' ==> 'A' <= r <= 'Z' && r as int == c as int - 32
    ensures !('a' <= c <= 'z') ==> r == c
  {
    if 'a' <= c <= 'z' then (c as int - 32) as char else c
  }

  function DigitValue(c: char): (d: int)
    requires IsDigit(c)
    ensures 0 <= d <= 9
  {
    c as int - '0' as int
  }

  /** C's `/` on signed integers: the quotient is truncated toward zero. */
  function CDiv(a: int, b: int): (q: int)
    requires b != 0
    ensures a >= 0 && b > 0 ==> q == a / b
    ensures (a >= 0) == (b > 0) || a == 0 ==> q >= 0
  {
    var m := AbsInt(a) / AbsInt(b);
    if (a >= 0) == (b > 0) then m else -m
  }

  function AbsInt(a: int): nat { if a < 0 then -a else a }

  /** CDiv is C's quotient: q*b never overshoots a in magnitude, falls
      short of it by less than |b|, and never has the opposite sign. */
  lemma CDivTruncates(a: int, b: int)
    requires b != 0
    ensures AbsInt(CDiv(a, b) * b) <= AbsInt(a) < AbsInt(CDiv(a, b) * b) + AbsInt(b)
    ensures a >= 0 ==> CDiv(a, b) * b >= 0
    ensures a <= 0 ==> CDiv(a, b) * b <= 0
  {
    var q := CDiv(a, b);
    CDivAbs(a, b);
    AbsMul(q, b);
    DivBounds(AbsInt(a), AbsInt(b));
    assert a >= 0 ==> q * b >= 0 by {
      if a >= 0 && q != 0 {
        assert (q > 0) == (b > 0);
      }
    }
    assert a <= 0 ==> q * b <= 0 by {
      if a <= 0 && q != 0 {
        assert (q > 0) == (b < 0);
      }
    }
  }

  /** The magnitude of C's quotient is the quotient of the magnitudes, and
      a nonzero quotient has the sign of a times the sign of b. */
  lemma CDivAbs(a: int, b: int)
    requires b != 0
    ensures AbsInt(CDiv(a, b)) == AbsInt(a) / AbsInt(b)
    ensures CDiv(a, b) != 0 ==> ((CDiv(a, b) > 0) <==> ((a > 0) == (b > 0)))
  {
    var m := AbsInt(a) / AbsInt(b);
    assert m >= 0 by {
      DivNonneg(AbsInt(a), AbsInt(b));
    }
    assert a == 0 ==> m == 0;
  }

  lemma DivNonneg(x: nat, y: nat)
    requires y > 0
    ensures x / y >= 0
  {
  }

  lemma AbsMul(x: int, y: int)
    ensures AbsInt(x * y) == AbsInt(x) * AbsInt(y)
  {
    if x < 0 && y >= 0 {
      assert x * y == -((-x) * y);
    } else if x >= 0 && y < 0 {
      assert x * y == -(x * (-y));
    } else if x < 0 && y < 0 {
      assert x * y == (-x) * (-y);
    }
  }

  lemma DivBounds(m: nat, n: nat)
    requires n > 0
    ensures (m / n) * n <= m < (m / n) * n + n
  {
    assert m == (m / n) * n + m % n;
  }

  // Nonlinear-arithmetic facts the solver does not find on its own.

  lemma DivModUnique(a: int, b: int, q: int, r: int)
    requires b > 0 && 0 <= r < b && a == q * b + r
    ensures a / b == q && a % b == r
  {
    var q' := a / b;
    var r' := a % b;
    assert a == q' * b + r';
    if q' > q {
      MulLe(1, q' - q, b);
      MulSub(q', q, b);
    } else if q' < q {
      MulLe(1, q - q', b);
      MulSub(q, q', b);
    }
  }

  lemma MulLe(a: int, b: int, c: nat)
    requires a <= b
    ensures a * c <= b * c
  {
  }

  /** Scaling by a fraction k/d with k <= d never grows a value. */
  lemma ScaleDown(x: nat, k: nat, d: nat)
    requires 0 < d && k <= d
    ensures 0 <= x * k / d <= x
  {
    MulLe(k, d, x);
    var q := x * k / d;
    assert q * d <= x * k;
    if q > x {
      MulLe(x + 1, q, d);
    }
  }

  lemma MulSub(a: int, b: int, c: int)
    ensures (a - b) * c == a * c - b * c
  {
  }

  lemma DivDiv(a: nat, b: nat, c: nat)
    requires b > 0 && c > 0
    ensures a / b / c == a / (b * c)
  {
    var q := a / b / c;
    var r := a / b % c;
    var s := a % b;
    assert a / b == q * c + r;
    assert a == (q * c + r) * b + s;
    assert a == q * (b * c) + (r * b + s);
    assert r * b + s <= (c - 1) * b + (b - 1) by {
      assert r * b <= (c - 1) * b;
    }
    assert (c - 1) * b + (b - 1) == b * c - 1;
    DivModUnique(a, b * c, q, r * b + s);
  }

  /** The items of a NULL-terminated list (NULL modelled as None) that
      come before its first NULL. */
  function BeforeNull<T>(xs: seq<Option<T>>): (items: seq<T>)
    ensures |items| <= |xs|
    ensures forall i :: 0 <= i < |items| ==> xs[i] == Some(items[i])
    ensures |items| == |xs| || xs[|items|] == None
  {
    if xs == [] || xs[0].None? then [] else [xs[0].value] + BeforeNull(xs[1..])
  }

  function Min(a: int, b: int): int { if a <= b then a else b }
  function Max(a: int, b: int): int { if a <= b then b else a }
}
