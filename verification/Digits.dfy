/** Decimal digits: printing, reading, padding, and the order of equally long texts. */
module Digits {
  import opened Text

  predicate IsDigitChar(c: char) {
    '0' <= c <= '9'
  }

  predicate AllDigits(s: string) {
    forall i :: 0 <= i < |s| ==> IsDigitChar(s[i])
  }

  function DigitOf(n: nat): (c: char)
    requires n < 10
    ensures IsDigitChar(c) && DigitValue(c) == n
  {
    '0' + n as char
  }

  function DigitValue(c: char): (n: nat)
    requires IsDigitChar(c)
    ensures n < 10
  {
    c as int - '0' as int
  }

  function Pow10(k: nat): (p: nat)
    ensures p >= 1
  {
    if k == 0 then 1 else 10 * Pow10(k - 1)
  }

  /** The decimal text of a number, without superfluous zeros. */
  function ToDigits(n: nat): (s: string)
    ensures s != "" && AllDigits(s)
  {
    if n < 10 then [DigitOf(n)] else ToDigits(n / 10) + [DigitOf(n % 10)]
  }

  function FromDigits(s: string): nat
    requires AllDigits(s)
  {
    if s == "" then 0 else FromDigits(s[..|s| - 1]) * 10 + DigitValue(s[|s| - 1])
  }

  function Zeros(k: nat): (s: string)
    ensures |s| == k && AllDigits(s)
    ensures forall i :: 0 <= i < k ==> s[i] == '0'
  {
    seq(k, i => '0')
  }

  /** Zero-padding on the left to at least `width` characters. */
  function Pad(s: string, width: nat): (p: string)
    ensures |p| == if |s| < width then width else |s|
    ensures AllDigits(s) ==> AllDigits(p)
  {
    if |s| < width then Zeros(width - |s|) + s else s
  }

  lemma {:induction false} FromToDigits(n: nat)
    ensures FromDigits(ToDigits(n)) == n
  {
    if n >= 10 {
      FromToDigits(n / 10);
      assert ToDigits(n)[..|ToDigits(n)| - 1] == ToDigits(n / 10);
    }
  }

  lemma {:induction false} FromConcat(a: string, b: string)
    requires AllDigits(a) && AllDigits(b)
    ensures AllDigits(a + b) && FromDigits(a + b) == FromDigits(a) * Pow10(|b|) + FromDigits(b)
  {
    if b == "" {
      assert a + b == a;
    } else {
      var front := b[..|b| - 1];
      FromConcat(a, front);
      assert (a + b)[..|a + b| - 1] == a + front;
      Shifted(FromDigits(a), Pow10(|front|), FromDigits(front), DigitValue(b[|b| - 1]));
    }
  }

  lemma Shifted(x: int, p: int, y: int, d: int)
    ensures (x * p + y) * 10 + d == x * (10 * p) + (y * 10 + d)
  {
  }

  lemma {:induction false} FromZeros(k: nat)
    ensures FromDigits(Zeros(k)) == 0
  {
    if k > 0 {
      FromZeros(k - 1);
      assert Zeros(k)[..k - 1] == Zeros(k - 1);
    }
  }

  lemma NoWeight(p: int)
    ensures 0 * p == 0
  {
  }

  lemma PadKeepsValue(s: string, width: nat)
    requires AllDigits(s)
    ensures FromDigits(Pad(s, width)) == FromDigits(s)
  {
    hide FromDigits, Pow10;
    if |s| < width {
      NoWeight(Pow10(|s|));
      FromConcat(Zeros(width - |s|), s);
      FromZeros(width - |s|);
    }
  }

  lemma {:induction false} FromBound(s: string)
    requires AllDigits(s)
    ensures FromDigits(s) < Pow10(|s|)
  {
    if s != "" {
      FromBound(s[..|s| - 1]);
    }
  }

  /** A number below 10^width fits in `width` digits, and conversely. */
  lemma {:induction false} DigitCount(n: nat, width: nat)
    requires width >= 1
    ensures |ToDigits(n)| <= width <==> n < Pow10(width)
  {
    if n >= 10 && width > 1 {
      DigitCount(n / 10, width - 1);
    } else if n < 10 {
      assert Pow10(width) >= 10 by { PowAtLeastTen(width); }
    } else {
      assert Pow10(1) == 10;
    }
  }

  lemma PowAtLeastTen(width: nat)
    requires width >= 1
    ensures Pow10(width) >= 10
  {
  }

  /** Equal length and equal value make equal digits. */
  lemma {:induction false} FromInjective(a: string, b: string)
    requires AllDigits(a) && AllDigits(b) && |a| == |b| && FromDigits(a) == FromDigits(b)
    ensures a == b
  {
    if a != "" {
      var i := |a| - 1;
      assert DigitValue(a[i]) == DigitValue(b[i]);
      FromInjective(a[..i], b[..i]);
      assert a == a[..i] + [a[i]] && b == b[..i] + [b[i]];
    }
  }

  // ------------------------------------------------------------------- point

  /** Where the first point is; the length when there is none. */
  function PointIndex(s: string): (i: nat)
    ensures i <= |s|
    ensures i < |s| ==> s[i] == '.'
    ensures forall j :: 0 <= j < i ==> s[j] != '.'
  {
    if s == "" || s[0] == '.' then 0 else 1 + PointIndex(s[1..])
  }

  lemma {:induction false} PointAfterDigits(digits: string, rest: string)
    requires AllDigits(digits) && (rest == "" || rest[0] == '.')
    ensures PointIndex(digits + rest) == |digits|
  {
    if digits == "" {
      assert digits + rest == rest;
    } else {
      assert (digits + rest)[1..] == digits[1..] + rest;
      PointAfterDigits(digits[1..], rest);
    }
  }

  // ------------------------------------------------------------------- order

  /** Texts with equally long heads compare by their heads first. */
  lemma {:induction false} LexConcat(a: string, b: string, x: string, y: string)
    requires |a| == |b|
    ensures LexLe(a + x, b + y) <==> if a == b then LexLe(x, y) else LexLe(a, b)
  {
    if a == "" {
      assert a + x == x && b + y == y;
    } else {
      assert (a + x)[1..] == a[1..] + x && (b + y)[1..] == b[1..] + y;
      assert a == [a[0]] + a[1..] && b == [b[0]] + b[1..];
      LexConcat(a[1..], b[1..], x, y);
    }
  }

  /** Equally long digit texts compare as the numbers they denote. */
  lemma {:induction false} LexIsNumeric(a: string, b: string)
    requires AllDigits(a) && AllDigits(b) && |a| == |b|
    ensures LexLe(a, b) <==> FromDigits(a) <= FromDigits(b)
  {
    if a != "" {
      var i := |a| - 1;
      var x, y := [a[i]], [b[i]];
      assert a == a[..i] + x && b == b[..i] + y;
      LexIsNumeric(a[..i], b[..i]);
      LexConcat(a[..i], b[..i], x, y);
      assert LexLe(x, y) <==> a[i] <= b[i] by {
        assert x[1..] == "" && y[1..] == "";
      }
      if a[..i] != b[..i] && FromDigits(a[..i]) == FromDigits(b[..i]) {
        FromInjective(a[..i], b[..i]);
      }
    }
  }

  /** A printed number has no superfluous zero in front. */
  lemma {:induction false} NoLeadingZero(n: nat)
    ensures ToDigits(n)[0] == '0' <==> n == 0
    ensures n == 0 ==> ToDigits(n) == "0"
  {
    if n >= 10 {
      NoLeadingZero(n / 10);
      assert ToDigits(n)[0] == ToDigits(n / 10)[0];
    }
  }
}
