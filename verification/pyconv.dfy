/** The Python built-ins the decoder leans on, restricted to the inputs it
    gives them: `int(text, 16)`, `hex(n)`, `bin(n)[2:].zfill(w)`, `str(n)`
    and `&` on non-negative integers. */
module PyConv {
  import opened Optional
  import opened Numerals

  /** The optional radix prefix `int(text, 16)` accepts. */
  predicate HasHexPrefix(s: string) {
    |s| >= 2 && s[0] == '0' && (s[1] == 'x' || s[1] == 'X')
  }

  /** `int(text, 16)`: hexadecimal digits of either case, optionally behind a
      `0x`/`0X` prefix; everything else raises, modelled as `None`. */
  function IntBase16(s: string): (r: Option<nat>)
    ensures r.Some? <==>
              (|s| > 0 && AllDigits(s, 16)) || (HasHexPrefix(s) && |s| > 2 && AllDigits(s[2..], 16))
    ensures |s| > 0 && AllDigits(s, 16) ==> r == Some(Value(s, 16))
    ensures r.Some? ==> r.value < Pow(16, |s|)
  {
    if HasHexPrefix(s) then
      NotDigitsWithPrefix(s);
      PowMonotone(16, |s| - 2, |s|);
      Parse(s[2..], 16)
    else Parse(s, 16)
  }

  /** A prefixed literal is not itself a digit string (the 'x' is no digit). */
  lemma NotDigitsWithPrefix(s: string)
    requires HasHexPrefix(s)
    ensures !AllDigits(s, 16)
  {
    AllDigitsAt(s, 16);
    assert !IsDigit(s[1], 16);
  }

  lemma {:induction false} PowMonotone(b: nat, i: nat, j: nat)
    requires b >= 1 && i <= j
    ensures Pow(b, i) <= Pow(b, j)
    decreases j
  {
    if i < j {
      PowMonotone(b, i, j - 1);
      MulMonotone(Pow(b, j - 1), 1, b);
    }
  }

  /** `hex(n)`: "0x" followed by the minimal lower-case hexadecimal digits. */
  function HexLiteral(n: nat): (s: string)
    ensures HasHexPrefix(s) && |s| >= 3
  {
    "0x" + Render(n, 16)
  }

  /** `int(hex(n), 16) == n`: the hexadecimal literal parses back to `n`. */
  lemma HexLiteralRoundTrip(n: nat)
    ensures IntBase16(HexLiteral(n)) == Some(n)
  {
    var s := HexLiteral(n);
    assert s[2..] == Render(n, 16);
    ParseRender(n, 16);
  }

  /** `bin(n)[2:].zfill(w)`: the minimal binary digits, zero-padded on the
      left to at least `w` characters. */
  function BinText(n: nat, w: nat): (s: string)
    ensures |s| >= w
    ensures AllDigits(s, 2)
  {
    ZFillValue(Render(n, 2), w, 2);
    ZFill(Render(n, 2), w)
  }

  /** A value below `2^w` renders in exactly `w` characters, each '0' or '1',
      which read back in base 2 give the value. */
  lemma BinTextExact(n: nat, w: nat)
    requires w >= 1 && n < Pow(2, w)
    ensures |BinText(n, w)| == w
    ensures forall i :: 0 <= i < w ==> BinText(n, w)[i] == '0' || BinText(n, w)[i] == '1'
    ensures Value(BinText(n, w), 2) == n
  {
    RenderLength(n, 2, w);
    RenderValue(n, 2);
    ZFillValue(Render(n, 2), w, 2);
    BinaryDigits(BinText(n, w));
  }

  lemma BinaryDigits(s: string)
    requires AllDigits(s, 2)
    ensures forall i :: 0 <= i < |s| ==> s[i] == '0' || s[i] == '1'
  {
    AllDigitsAt(s, 2);
    forall i | 0 <= i < |s| ensures s[i] == '0' || s[i] == '1' {
      BinaryDigit(s[i]);
    }
  }

  lemma BinaryDigit(c: char)
    requires IsDigit(c, 2)
    ensures c == '0' || c == '1'
  {
  }

  /** `str(n)`: decimal digits, behind a '-' when `n` is negative. */
  function DecText(n: int): (s: string)
    ensures |s| >= 1
  {
    if n < 0 then "-" + Render(-n, 10) else Render(n, 10)
  }

  /** `str(n)` is canonical: it starts with '0' only for zero itself, and a
      negative number's digits after the '-' start with a non-zero digit. */
  lemma DecTextCanonical(n: int)
    ensures DecText(n)[0] == '0' <==> n == 0
    ensures n < 0 ==> |DecText(n)| >= 2 && DecText(n)[0] == '-' && DecText(n)[1] != '0'
  {
    if n < 0 {
      RenderNoLeadingZero(-n, 10);
      assert DecText(n)[1..] == Render(-n, 10);
    } else {
      RenderNoLeadingZero(n, 10);
    }
  }

  /** Reads back what `DecText` writes: an optional '-' and decimal digits. */
  function ParseDecimal(s: string): (r: Option<int>)
    ensures r.Some? && r.value < 0 ==> |s| > 0 && s[0] == '-'
  {
    if |s| > 0 && s[0] == '-' then
      match Parse(s[1..], 10)
      case Some(v) => Some(0 - v)
      case None => None
    else
      match Parse(s, 10)
      case Some(v) => Some(v)
      case None => None
  }

  /** Decimal rendering round-trips, negative numbers included. */
  lemma DecTextRoundTrip(n: int)
    ensures ParseDecimal(DecText(n)) == Some(n)
  {
    var s := DecText(n);
    if n < 0 {
      assert s[1..] == Render(-n, 10);
      ParseRender(-n, 10);
    } else {
      ParseRender(n, 10);
      AllDigitsAt(s, 10);
      assert IsDigit(s[0], 10);
    }
  }

  /** Python's `a & b` on non-negative integers, bit by bit from the least
      significant end. */
  function BitAnd(a: nat, b: nat): (r: nat)
    ensures r <= a && r <= b
    decreases a
  {
    if a == 0 || b == 0 then 0
    else 2 * BitAnd(a / 2, b / 2) + (if a % 2 == 1 && b % 2 == 1 then 1 else 0)
  }

  /** Masking with `2^k - 1` keeps exactly the low `k` bits. */
  lemma {:induction false} BitAndLowMask(v: nat, k: nat)
    ensures BitAnd(v, Pow(2, k) - 1) == v % Pow(2, k)
    decreases k
  {
    var p := Pow(2, k);
    if k == 0 {
      assert p == 1;
      ModUnique(v, 1, v, 0);
    } else if v == 0 {
      ModUnique(0, p, 0, 0);
    } else {
      var p' := Pow(2, k - 1);
      assert p == 2 * p' && p' >= 1;
      var low := BitAnd(v / 2, p' - 1);
      assert BitAnd(v, p - 1) == 2 * low + v % 2 by {
        HalveOdd(p, p');
        BitAndOdd(v, p - 1);
      }
      assert low == (v / 2) % p' by { BitAndLowMask(v / 2, k - 1); }
      ModHalve(v, p, p');
    }
  }

  /** `2p - 1` is odd and halves to `p - 1`. */
  lemma HalveOdd(q: nat, p: nat)
    requires p >= 1 && q == 2 * p
    ensures (q - 1) / 2 == p - 1 && (q - 1) % 2 == 1
  {
  }

  /** With an odd mask, the lowest bit of `a` survives. */
  lemma BitAndOdd(a: nat, m: nat)
    requires a > 0 && m % 2 == 1
    ensures BitAnd(a, m) == 2 * BitAnd(a / 2, m / 2) + a % 2
  {
  }

  /** `v mod 2p` from `v / 2 mod p` and the lowest bit. */
  lemma ModHalve(v: nat, q: nat, p: nat)
    requires p >= 1 && q == 2 * p
    ensures v % q == 2 * ((v / 2) % p) + v % 2
  {
    var h, d := v / 2, (v / 2) / p;
    var r := 2 * (h % p) + v % 2;
    assert v == 2 * h + v % 2;
    assert h == p * d + h % p;
    assert v == q * d + r;
    ModUnique(v, q, d, r);
  }

  lemma ModUnique(v: nat, d: nat, q: nat, r: nat)
    requires 0 <= r < d && v == d * q + r
    ensures v % d == r
  {
    var q', r' := v / d, v % d;
    assert v == d * q' + r';
    if q' < q {
      MulMonotone(d, q' + 1, q);
    } else if q' > q {
      MulMonotone(d, q + 1, q');
    }
  }
}
