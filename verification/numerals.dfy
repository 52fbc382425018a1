/** Positional numerals in bases 2 to 16: digit characters, the value of a
    digit string, and the minimal rendering of a natural number. Python's
    `int(text, 16)`, `hex`, `bin` and `str` are built on these. */
module Numerals {
  import opened Optional

  function Pow(b: nat, e: nat): (r: nat)
    ensures b >= 1 ==> r >= 1
  {
    if e == 0 then 1 else b * Pow(b, e - 1)
  }

  /** The character Python emits for digit `d`: lower-case for 10 to 15. */
  function DigitChar(d: nat): (c: char)
    requires d < 16
    ensures DigitOf(c) == Some(d)
  {
    if d < 10 then ('0' as int + d) as char else ('a' as int + d - 10) as char
  }

  /** The value of a digit character, accepting both letter cases. */
  function DigitOf(c: char): (r: Option<nat>)
    ensures r.Some? ==> r.value < 16
    ensures r.Some? <==> ('0' <= c <= '9' || 'a' <= c <= 'f' || 'A' <= c <= 'F')
  {
    if '0' <= c <= '9' then Some(c as nat - '0' as nat)
    else if 'a' <= c <= 'f' then Some(c as nat - 'a' as nat + 10)
    else if 'A' <= c <= 'F' then Some(c as nat - 'A' as nat + 10)
    else None
  }

  predicate IsDigit(c: char, base: nat) {
    DigitOf(c).Some? && DigitOf(c).value < base
  }

  /** Every character of `s` is a digit of `base` (stated from the last
      character back, the order in which `Value` consumes them). */
  predicate AllDigits(s: string, base: nat)
    decreases |s|
  {
    |s| == 0 || (IsDigit(s[|s| - 1], base) && AllDigits(s[..|s| - 1], base))
  }

  /** `AllDigits` says of each position what its name suggests. */
  lemma {:induction false} AllDigitsAt(s: string, base: nat)
    ensures AllDigits(s, base) <==> forall i :: 0 <= i < |s| ==> IsDigit(s[i], base)
    decreases |s|
  {
    if |s| > 0 {
      var p := s[..|s| - 1];
      AllDigitsAt(p, base);
      assert forall i :: 0 <= i < |p| ==> p[i] == s[i];
    }
  }

  /** The value of a digit string, most significant digit first. */
  function Value(s: string, base: nat): nat
    requires AllDigits(s, base)
    decreases |s|
  {
    if |s| == 0 then 0
    else base * Value(s[..|s| - 1], base) + DigitOf(s[|s| - 1]).value
  }

  /** A non-empty string of digits of `base` denotes its value; anything else
      is rejected. */
  function Parse(s: string, base: nat): (r: Option<nat>)
    ensures r.Some? <==> |s| > 0 && AllDigits(s, base)
    ensures r.Some? ==> r.value == Value(s, base) && r.value < Pow(base, |s|)
  {
    if |s| > 0 && AllDigits(s, base) then
      ValueBound(s, base);
      Some(Value(s, base))
    else None
  }

  /** A string of `k` digits denotes less than `base^k`. */
  lemma {:induction false} ValueBound(s: string, base: nat)
    requires AllDigits(s, base)
    ensures Value(s, base) < Pow(base, |s|)
    decreases |s|
  {
    if |s| > 0 {
      var p := s[..|s| - 1];
      ValueBound(p, base);
      StepBound(base, Value(p, base), DigitOf(s[|s| - 1]).value, Pow(base, |p|));
    }
  }

  /** One more digit scales the bound by the base. */
  lemma StepBound(b: nat, v: nat, d: nat, p: nat)
    requires d < b && v < p
    ensures b * v + d < b * p
  {
    MulMonotone(b, v + 1, p);
  }

  lemma MulMonotone(a: nat, x: nat, y: nat)
    requires x <= y
    ensures a * x <= a * y
  {
  }

  lemma DivLess(n: nat, b: nat, p: nat)
    requires b > 0 && n < b * p
    ensures n / b < p
  {
    var q := n / b;
    assert q * b <= n;
    if q >= p {
      MulMonotone(b, p, q);
    }
  }

  lemma DivModBounds(n: nat, b: nat)
    requires 2 <= b <= n
    ensures n % b < b && 1 <= n / b < n
  {
  }

  lemma DivMod(n: nat, b: nat)
    requires b > 0
    ensures n == b * (n / b) + n % b
  {
  }

  /** The minimal rendering of `n` in `base`: no leading zero, "0" for zero. */
  function Render(n: nat, base: nat): (s: string)
    requires 2 <= base <= 16
    ensures |s| >= 1
    ensures AllDigits(s, base)
    decreases n
  {
    if n < base then
      var s := [DigitChar(n)];
      assert s[..0] == [];
      s
    else
      DivModBounds(n, base);
      var front := Render(n / base, base);
      var s := front + [DigitChar(n % base)];
      assert s[..|s| - 1] == front;
      s
  }

  /** The rendered digits denote the rendered number. */
  lemma {:induction false} RenderValue(n: nat, base: nat)
    requires 2 <= base <= 16
    ensures Value(Render(n, base), base) == n
    decreases n
  {
    var s := Render(n, base);
    if n < base {
      assert s[..0] == [];
    } else {
      var q, r := n / base, n % base;
      DivModBounds(n, base);
      DivMod(n, base);
      var front := Render(q, base);
      assert s[..|s| - 1] == front;
      RenderValue(q, base);
      assert Value(s, base) == base * q + r;
    }
  }

  /** The rendering has no leading zero unless the number is zero. */
  lemma {:induction false} RenderNoLeadingZero(n: nat, base: nat)
    requires 2 <= base <= 16
    ensures Render(n, base)[0] == '0' <==> n == 0
    decreases n
  {
    if n < base {
      assert DigitOf('0') == Some(0);
    } else {
      DivModBounds(n, base);
      RenderNoLeadingZero(n / base, base);
    }
  }

  /** Rendering inverts parsing: the rendered digits parse back to `n`. */
  lemma ParseRender(n: nat, base: nat)
    requires 2 <= base <= 16
    ensures Parse(Render(n, base), base) == Some(n)
  {
    RenderValue(n, base);
  }

  /** A number below `base^k` (k >= 1) renders in at most `k` digits. */
  lemma {:induction false} RenderLength(n: nat, base: nat, k: nat)
    requires 2 <= base <= 16 && k >= 1
    requires n < Pow(base, k)
    ensures |Render(n, base)| <= k
    decreases k
  {
    if n >= base {
      assert Pow(base, 1) == base;
      assert k >= 2;
      DivLess(n, base, Pow(base, k - 1));
      DivModBounds(n, base);
      RenderLength(n / base, base, k - 1);
    }
  }

  function Zeros(k: nat): (z: string)
    ensures |z| == k
    ensures forall i :: 0 <= i < k ==> z[i] == '0'
  {
    seq(k, _ => '0')
  }

  /** Python's `str.zfill(w)`: pad on the left with '0' up to width `w`;
      a string already that wide is unchanged. */
  function ZFill(s: string, w: nat): (r: string)
    ensures |r| == if |s| >= w then |s| else w
    ensures r[|r| - |s|..] == s
    ensures forall i :: 0 <= i < |r| - |s| ==> r[i] == '0'
  {
    if |s| >= w then s else Zeros(w - |s|) + s
  }

  /** The value of a concatenation splits at the boundary. */
  lemma {:induction false} ValueAppend(a: string, b: string, base: nat)
    requires AllDigits(a, base) && AllDigits(b, base)
    ensures AllDigits(a + b, base)
    ensures Value(a + b, base) == Value(a, base) * Pow(base, |b|) + Value(b, base)
    decreases |b|
  {
    var s := a + b;
    if |b| == 0 {
      assert s == a;
    } else {
      var b' := b[..|b| - 1];
      assert s[..|s| - 1] == a + b';
      ValueAppend(a, b', base);
      var d := DigitOf(b[|b| - 1]).value;
      var va, vb', pb' := Value(a, base), Value(b', base), Pow(base, |b'|);
      assert Value(s, base) == base * (va * pb' + vb') + d;
      Distribute(base, va, pb', vb');
    }
  }

  lemma Distribute(b: nat, x: nat, y: nat, z: nat)
    ensures b * (x * y + z) == x * (b * y) + b * z
  {
  }

  lemma {:induction false} ZerosValue(k: nat, base: nat)
    requires base >= 2
    ensures AllDigits(Zeros(k), base)
    ensures Value(Zeros(k), base) == 0
    decreases k
  {
    if k > 0 {
      assert DigitOf('0') == Some(0);
      assert Zeros(k)[..k - 1] == Zeros(k - 1);
      ZerosValue(k - 1, base);
    }
  }

  /** Left zero padding keeps the digits' value. */
  lemma ZFillValue(s: string, w: nat, base: nat)
    requires base >= 2 && AllDigits(s, base)
    ensures AllDigits(ZFill(s, w), base)
    ensures Value(ZFill(s, w), base) == Value(s, base)
  {
    if |s| < w {
      ZerosValue(w - |s|, base);
      ValueAppend(Zeros(w - |s|), s, base);
    }
  }
}
