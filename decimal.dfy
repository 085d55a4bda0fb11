/** Decimal digit strings, as `BigInt(...)` reads them and `.toString()`,
    `padStart`, `slice` and `replace(/0+$/, '')` write them. */
module DecimalText {
  import opened Wrappers

  predicate IsDigit(c: char) {
    '0' <= c <= '9'
  }

  predicate AllDigits(s: string) {
    forall i :: 0 <= i < |s| ==> IsDigit(s[i])
  }

  function DigitValue(c: char): (d: nat)
    requires IsDigit(c)
    ensures d < 10
  {
    (c as int - '0' as int) as nat
  }

  function DigitChar(d: nat): (c: char)
    requires d < 10
    ensures IsDigit(c) && DigitValue(c) == d
  {
    ('0' as int + d) as char
  }

  function Pow10(k: nat): (p: nat)
    ensures p >= 1
  {
    if k == 0 then 1 else 10 * Pow10(k - 1)
  }

  /** The number a digit string denotes, most significant digit first; the
      empty string denotes 0, as `BigInt("")` does. */
  function Value(s: string): nat
    requires AllDigits(s)
  {
    if s == [] then 0 else Value(s[..|s| - 1]) * 10 + DigitValue(s[|s| - 1])
  }

  /** `BigInt(s)` restricted to decimal input: a string of digits (possibly
      empty, possibly with leading zeros) gives its value; anything else
      throws, modelled as None. */
  function Parse(s: string): Option<nat> {
    if AllDigits(s) then Some(Value(s)) else None
  }

  /** `n.toString()` for a non-negative BigInt: the shortest decimal numeral. */
  function NatToString(n: nat): (s: string)
    ensures |s| >= 1 && AllDigits(s)
    ensures s[0] == '0' ==> n == 0 && s == "0"
    decreases n
  {
    if n < 10 then [DigitChar(n)] else NatToString(n / 10) + [DigitChar(n % 10)]
  }

  /** `k` copies of '0'. */
  function Zeros(k: nat): (z: string)
    ensures |z| == k && AllDigits(z)
  {
    seq(k, _ => '0')
  }

  /** `s.padStart(width, fill)` with a one-character fill: `s` itself when it
      is at least `width` long, otherwise `s` behind enough copies of `fill`. */
  function PadStart(s: string, width: int, fill: char): (r: string)
    ensures |r| == if width <= |s| then |s| else width
  {
    if width <= |s| then s else seq(width - |s|, _ => fill) + s
  }

  /** Where `slice(0, end)` stops on a string of length `len`: a negative
      `end` counts back from the end, and the result is clamped to [0, len]. */
  function SliceEnd(len: nat, end: int): (k: nat)
    ensures k <= len
  {
    if end < 0 then (if len + end < 0 then 0 else len + end)
    else if end < len then end
    else len
  }

  /** `s.slice(0, end)`. */
  function Slice(s: string, end: int): string {
    s[..SliceEnd(|s|, end)]
  }

  /** `s.replace(/0+$/, '')`: removes the longest run of '0' at the end. */
  function StripTrailingZeros(s: string): (r: string)
    ensures |r| <= |s|
    decreases |s|
  {
    if s != [] && s[|s| - 1] == '0' then StripTrailingZeros(s[..|s| - 1]) else s
  }

  /** Position of the first '.' in `s`, or `|s|` when there is none. */
  function DotIndex(s: string): (i: nat)
    ensures i <= |s|
  {
    if s == [] || s[0] == '.' then 0 else 1 + DotIndex(s[1..])
  }

  /** The padding goes in front: the added characters are all `fill` and the
      original string ends the result. */
  lemma {:induction false} PadStartShape(s: string, width: int, fill: char)
    ensures var r := PadStart(s, width, fill);
      r[|r| - |s|..] == s && forall i :: 0 <= i < |r| - |s| ==> r[i] == fill
  {
  }

  /** Stripping keeps a prefix, removes only '0's and leaves no '0' at the
      end. */
  lemma {:induction false} StripShape(s: string)
    ensures var r := StripTrailingZeros(s);
      && r == s[..|r|]
      && (forall i :: |r| <= i < |s| ==> s[i] == '0')
      && (r == [] || r[|r| - 1] != '0')
    decreases |s|
  {
    if s != [] && s[|s| - 1] == '0' {
      StripShape(s[..|s| - 1]);
    }
  }

  /** DotIndex finds the first '.', and says |s| only when there is none. */
  lemma {:induction false} DotIndexFirst(s: string)
    ensures var i := DotIndex(s);
      && (i < |s| ==> s[i] == '.')
      && (forall j :: 0 <= j < i ==> s[j] != '.')
  {
    if s != [] && s[0] != '.' {
      DotIndexFirst(s[1..]);
    }
  }

  // ---------------------------------------------------------------------
  // Arithmetic facts

  lemma {:induction false} Pow10Add(a: nat, b: nat)
    ensures Pow10(a + b) == Pow10(a) * Pow10(b)
  {
    if a > 0 {
      Pow10Add(a - 1, b);
      assert Pow10(a + b) == 10 * Pow10(a - 1 + b);
    }
  }

  lemma {:induction false} Pow10Monotone(a: nat, b: nat)
    requires a <= b
    ensures Pow10(a) <= Pow10(b)
  {
    if a < b { Pow10Monotone(a, b - 1); }
  }

  lemma {:induction false} MulMonotone(a: nat, b: nat, d: nat)
    requires a <= b
    ensures a * d <= b * d
  {
    assert b * d == a * d + (b - a) * d;
  }

  /** Euclidean division is determined by its defining equation. */
  lemma {:induction false} DivModUnique(n: nat, d: nat, q: nat, r: nat)
    requires d > 0 && n == q * d + r && r < d
    ensures n / d == q && n % d == r
  {
    var q', r' := n / d, n % d;
    assert n == q' * d + r';
    if q' > q {
      MulMonotone(q + 1, q', d);
    } else if q' < q {
      MulMonotone(q' + 1, q, d);
    }
  }

  lemma {:induction false} MulAssoc(x: nat, y: nat, z: nat)
    ensures x * (y * z) == (x * y) * z
  {
  }

  lemma {:induction false} MulAddDistrib(x: int, y: int, z: int)
    ensures (x + y) * z == x * z + y * z
  {
  }

  lemma {:induction false} DivMul(x: nat, d: nat)
    requires d > 0
    ensures 0 <= x / d && (x / d) * d == x - x % d
  {
  }

  /** If v * 10^z == m / 10^b then v * 10^(z + b) is m rounded down to a
      multiple of 10^b. */
  lemma {:induction false} ScaleBack(v: nat, z: nat, w: nat, m: nat, b: nat)
    requires v * Pow10(z) == w && w == m / Pow10(b)
    ensures v * Pow10(z + b) == m - m % Pow10(b)
  {
    var pz, pb := Pow10(z), Pow10(b);
    Pow10Add(z, b);
    MulAssoc(v, pz, pb);
    assert v * Pow10(z + b) == w * pb;
    DivMul(m, pb);
  }

  lemma {:induction false} ShiftDigit(va: nat, p: nat, vb: nat, c: nat)
    ensures (va * p + vb) * 10 + c == va * (10 * p) + (vb * 10 + c)
  {
  }

  // ---------------------------------------------------------------------
  // Value of digit strings

  lemma {:induction false} ValueAppend(a: string, b: string)
    requires AllDigits(a) && AllDigits(b)
    ensures AllDigits(a + b)
    ensures Value(a + b) == Value(a) * Pow10(|b|) + Value(b)
    decreases |b|
  {
    if b == [] {
      assert a + b == a;
    } else {
      var b' := b[..|b| - 1];
      var ab := a + b;
      assert AllDigits(ab) by {
        forall i | 0 <= i < |ab| ensures IsDigit(ab[i]) {
          if i < |a| { assert ab[i] == a[i]; } else { assert ab[i] == b[i - |a|]; }
        }
      }
      assert ab[..|ab| - 1] == a + b';
      assert ab[|ab| - 1] == b[|b| - 1];
      ValueAppend(a, b');
      var va, p, vb, c := Value(a), Pow10(|b'|), Value(b'), DigitValue(b[|b| - 1]);
      assert Value(ab) == Value(a + b') * 10 + c;
      assert Value(b) == vb * 10 + c by { assert b[..|b| - 1] == b'; }
      assert Pow10(|b|) == 10 * p;
      ShiftDigit(va, p, vb, c);
    }
  }

  lemma {:induction false} ValueZeros(k: nat)
    ensures Value(Zeros(k)) == 0
  {
    if k > 0 {
      assert Zeros(k)[..k - 1] == Zeros(k - 1);
      ValueZeros(k - 1);
    }
  }

  lemma {:induction false} ValueBound(s: string)
    requires AllDigits(s)
    ensures Value(s) < Pow10(|s|)
  {
    if s != [] {
      ValueBound(s[..|s| - 1]);
    }
  }

  /** `toString` then `BigInt` gives back the number. */
  lemma {:induction false} ValueOfNatToString(n: nat)
    ensures Value(NatToString(n)) == n
    decreases n
  {
    if n >= 10 {
      var s := NatToString(n);
      assert s[..|s| - 1] == NatToString(n / 10);
      ValueOfNatToString(n / 10);
    }
  }

  lemma {:induction false} ParseNatToString(n: nat)
    ensures Parse(NatToString(n)) == Some(n)
  {
    ValueOfNatToString(n);
  }

  /** A number below 10^k, k >= 1, has at most k digits. */
  lemma {:induction false} NatToStringLength(n: nat, k: nat)
    requires k >= 1 && n < Pow10(k)
    ensures |NatToString(n)| <= k
    decreases n
  {
    if n >= 10 {
      assert Pow10(1) == 10;
      assert n / 10 < Pow10(k - 1);
      NatToStringLength(n / 10, k - 1);
    }
  }

  /** Appending a digit to a numeral multiplies by ten and adds it. */
  lemma {:induction false} NatToStringDigit(n: nat, d: nat)
    requires 1 <= n && d < 10
    ensures NatToString(10 * n + d) == NatToString(n) + [DigitChar(d)]
  {
    var x: int := 10 * n + d;
    assert x / 10 == n && x % 10 == d;
  }

  /** Multiplying a positive number by 10^k writes k zeros after it. */
  lemma {:induction false} NatToStringShift(n: nat, k: nat)
    requires n >= 1
    ensures NatToString(n * Pow10(k)) == NatToString(n) + Zeros(k)
  {
    if k > 0 {
      var x: int := n * Pow10(k - 1);
      assert x >= 1 by { MulMonotone(1, n, Pow10(k - 1)); }
      assert n * Pow10(k) == 10 * x + 0 by { MulAssoc(n, Pow10(k - 1), 10); }
      NatToStringDigit(x, 0);
      NatToStringShift(n, k - 1);
      assert Zeros(k) == Zeros(k - 1) + ['0'];
    }
  }

  /** A digit string that does not end in '0' and is not empty is worth
      something. */
  lemma {:induction false} NonZeroDigits(s: string)
    requires AllDigits(s) && s != [] && s[|s| - 1] != '0'
    ensures Value(s) > 0
  {
  }

  /** Stripping removes exactly the zeros written after a string that does
      not end in '0'. */
  lemma {:induction false} StripZerosSuffix(a: string, k: nat)
    requires a == [] || a[|a| - 1] != '0'
    ensures StripTrailingZeros(a + Zeros(k)) == a
  {
    if k == 0 {
      assert a + Zeros(k) == a;
    } else {
      var s := a + Zeros(k);
      assert s[|s| - 1] == '0';
      assert s[..|s| - 1] == a + Zeros(k - 1);
      StripZerosSuffix(a, k - 1);
    }
  }

  /** Leading zeros do not change the value. */
  lemma {:induction false} ValueLeadingZeros(s: string, z: nat)
    requires AllDigits(s)
    ensures AllDigits(Zeros(z) + s) && Value(Zeros(z) + s) == Value(s)
  {
    ValueAppend(Zeros(z), s);
    ValueZeros(z);
  }

  /** Trailing zeros multiply the value by a power of ten. */
  lemma {:induction false} ValueTrailingZeros(s: string, z: nat)
    requires AllDigits(s)
    ensures AllDigits(s + Zeros(z)) && Value(s + Zeros(z)) == Value(s) * Pow10(z)
  {
    ValueAppend(s, Zeros(z));
    ValueZeros(z);
  }

  /** A prefix of length k of a digit string of length L holds its value
      divided by 10^(L-k). */
  lemma {:induction false} PrefixValue(s: string, k: nat)
    requires AllDigits(s) && k <= |s|
    ensures AllDigits(s[..k])
    ensures Value(s[..k]) == Value(s) / Pow10(|s| - k)
    ensures Value(s[k..]) == Value(s) % Pow10(|s| - k)
  {
    assert s == s[..k] + s[k..];
    ValueAppend(s[..k], s[k..]);
    ValueBound(s[k..]);
    DivModUnique(Value(s), Pow10(|s| - k), Value(s[..k]), Value(s[k..]));
  }

  /** Stripping trailing zeros divides the value by 10 per zero removed. */
  lemma {:induction false} StripValue(s: string, r: string)
    requires AllDigits(s) && r == StripTrailingZeros(s)
    ensures AllDigits(r) && |r| <= |s|
    ensures Value(r) * Pow10(|s| - |r|) == Value(s)
  {
    StripShape(s);
    assert s == r + Zeros(|s| - |r|);
    ValueTrailingZeros(r, |s| - |r|);
  }

  /** Digit strings of one length are equal when their values are. */
  lemma {:induction false} DigitsUnique(a: string, b: string)
    requires AllDigits(a) && AllDigits(b) && |a| == |b| && Value(a) == Value(b)
    ensures a == b
    decreases |a|
  {
    if a != [] {
      var a', b' := a[..|a| - 1], b[..|b| - 1];
      var da, db := DigitValue(a[|a| - 1]), DigitValue(b[|b| - 1]);
      assert Value(a) == Value(a') * 10 + da;
      assert Value(b) == Value(b') * 10 + db;
      DivModUnique(Value(a), 10, Value(a'), da);
      DivModUnique(Value(a), 10, Value(b'), db);
      DigitsUnique(a', b');
      assert a[|a| - 1] == b[|b| - 1];
      assert a == a' + [a[|a| - 1]] && b == b' + [b[|b| - 1]];
    }
  }

  /** A digit string holds no point. */
  lemma {:induction false} DigitsHaveNoDot(s: string)
    requires AllDigits(s)
    ensures '.' !in s
  {
    forall i | 0 <= i < |s| ensures s[i] != '.' {
      assert IsDigit(s[i]);
    }
  }

  /** The position of the first '.' of `a + "." + b` when `a` has none. */
  lemma {:induction false} DotIndexAfter(a: string, b: string)
    requires '.' !in a
    ensures DotIndex(a + "." + b) == |a|
  {
    var s := a + "." + b;
    DotIndexFirst(s);
    var i := DotIndex(s);
    assert s[|a|] == '.';
  }

  lemma {:induction false} DotIndexNone(a: string)
    requires '.' !in a
    ensures DotIndex(a) == |a|
  {
    DotIndexFirst(a);
  }
}
