/** Decimal-text arithmetic of the TypeScript core SDK, and the invoice subtotal it folds. */
module Decimals {
  import opened Wrappers
  import opened Digits

  /** The texts `requireDecimal` accepts: `-?\d+(\.\d+)?`. */
  predicate IsDecimal(s: string) {
    var u := if s != "" && s[0] == '-' then s[1..] else s;
    var i := PointIndex(u);
    i > 0 && AllDigits(u[..i]) && (i == |u| || (|u| > i + 1 && AllDigits(u[i + 1..])))
  }

  /** The two pieces of `s.split(".")`. */
  function WholePart(s: string): string {
    s[..PointIndex(s)]
  }

  function FractionPart(s: string): string {
    if PointIndex(s) == |s| then "" else s[PointIndex(s) + 1..]
  }

  function Scale(s: string): nat {
    |FractionPart(s)|
  }

  /** A text `BigInt` reads: digits after an optional minus. */
  predicate IsIntText(s: string) {
    s != "" && (if s[0] == '-' then |s| > 1 && AllDigits(s[1..]) else AllDigits(s))
  }

  function BigInt(s: string): int
    requires IsIntText(s)
  {
    if s[0] == '-' then -(FromDigits(s[1..]) as int) else FromDigits(s)
  }

  /** `value.toString()` of a BigInt. */
  function IntText(v: int): (s: string)
    ensures IsIntText(s)
  {
    if v < 0 then "-" + ToDigits(-v) else ToDigits(v)
  }

  lemma PiecesOf(s: string)
    requires IsDecimal(s)
    ensures IsIntText(WholePart(s)) && AllDigits(FractionPart(s))
  {
    if s[0] == '-' {
      assert PointIndex(s) == 1 + PointIndex(s[1..]);
      assert WholePart(s)[1..] == s[1..][..PointIndex(s[1..])];
      assert PointIndex(s) < |s| ==> FractionPart(s) == s[1..][PointIndex(s[1..]) + 1..];
    }
  }

  lemma IntTextExtends(whole: string, frac: string)
    requires IsIntText(whole) && AllDigits(frac)
    ensures IsIntText(whole + frac)
  {
    if whole[0] == '-' {
      assert (whole + frac)[1..] == whole[1..] + frac;
    }
  }

  /** `BigInt` of the two pieces put together. */
  function JoinedInt(whole: string, frac: string): int
    requires IsIntText(whole) && AllDigits(frac)
  {
    IntTextExtends(whole, frac);
    BigInt(whole + frac)
  }

  /** The integer a decimal text denotes when its point is dropped. */
  function Unscaled(s: string): int
    requires IsDecimal(s)
  {
    PiecesOf(s);
    JoinedInt(WholePart(s), FractionPart(s))
  }

  /** `formatDecimal`. */
  function FormatDecimal(value: int, scale: nat): string {
    if scale == 0 then IntText(value) else
    var digits := Pad(ToDigits(if value < 0 then -value else value), scale + 1);
    var out := digits[..|digits| - scale] + "." + digits[|digits| - scale..];
    if value < 0 then "-" + out else out
  }

  /** `multiplyDecimals`. */
  function MultiplyDecimals(a: string, b: string): string
    requires IsDecimal(a) && IsDecimal(b)
  {
    FormatDecimal(Unscaled(a) * Unscaled(b), Scale(a) + Scale(b))
  }

  function Max(a: nat, b: nat): nat {
    if a >= b then a else b
  }

  /** The text's integer at a larger scale: zeros are appended before reading. */
  function PaddedUnscaled(s: string, scale: nat): int
    requires IsDecimal(s) && scale >= Scale(s)
  {
    PiecesOf(s);
    JoinedInt(WholePart(s), FractionPart(s) + Zeros(scale - Scale(s)))
  }

  /** `addDecimals`. */
  function AddDecimals(a: string, b: string): string
    requires IsDecimal(a) && IsDecimal(b)
  {
    var scale := Max(Scale(a), Scale(b));
    FormatDecimal(PaddedUnscaled(a, scale) + PaddedUnscaled(b, scale), scale)
  }

  // ------------------------------------------------------------- exactness

  lemma AppendZeros(s: string, k: nat)
    requires IsIntText(s)
    ensures IsIntText(s + Zeros(k)) && BigInt(s + Zeros(k)) == BigInt(s) * Pow10(k)
  {
    FromZeros(k);
    if s[0] == '-' {
      assert (s + Zeros(k))[1..] == s[1..] + Zeros(k);
      FromConcat(s[1..], Zeros(k));
      NegateProduct(FromDigits(s[1..]), Pow10(k));
    } else {
      FromConcat(s, Zeros(k));
    }
  }

  lemma NegateProduct(a: int, b: int)
    ensures -(a * b) == -a * b
  {
  }

  lemma PaddedIsScaled(s: string, scale: nat)
    requires IsDecimal(s) && scale >= Scale(s)
    ensures PaddedUnscaled(s, scale) == Unscaled(s) * Pow10(scale - Scale(s))
  {
    PiecesOf(s);
    AppendToPieces(WholePart(s), FractionPart(s), scale - Scale(s));
  }

  lemma AppendToPieces(whole: string, frac: string, k: nat)
    requires IsIntText(whole) && AllDigits(frac)
    ensures JoinedInt(whole, frac + Zeros(k)) == JoinedInt(whole, frac) * Pow10(k)
  {
    IntTextExtends(whole, frac);
    AppendZeros(whole + frac, k);
    assert whole + (frac + Zeros(k)) == whole + frac + Zeros(k);
  }

  lemma IntTextReads(v: int)
    ensures BigInt(IntText(v)) == v
    ensures PointIndex(IntText(v)) == |IntText(v)| && IsDecimal(IntText(v))
    ensures Scale(IntText(v)) == 0 && Unscaled(IntText(v)) == v
  {
    var s := IntText(v);
    var u := ToDigits(if v < 0 then -v else v);
    FromToDigits(if v < 0 then -v else v);
    PointAfterDigits(u, "");
    assert u + "" == u;
    if v < 0 {
      assert s[1..] == u;
    }
    assert WholePart(s) + FractionPart(s) == s;
  }

  lemma UnsignedLayoutReads(whole: string, frac: string, s: string)
    requires whole != "" && frac != "" && AllDigits(whole) && AllDigits(frac) && s == whole + "." + frac
    ensures IsDecimal(s) && s[0] != '-' && WholePart(s) == whole && FractionPart(s) == frac
  {
    assert s == whole + ("." + frac);
    PointAfterDigits(whole, "." + frac);
    assert s[..|whole|] == whole && s[|whole| + 1..] == frac;
  }

  /** A minus in front goes with the whole part. */
  lemma NegatedReads(u: string)
    requires IsDecimal(u) && u[0] != '-'
    ensures IsDecimal("-" + u) && WholePart("-" + u) == "-" + WholePart(u) && FractionPart("-" + u) == FractionPart(u)
  {
    var s := "-" + u;
    assert s[1..] == u && PointIndex(s) == 1 + PointIndex(u);
  }

  lemma JoinedReads(negative: bool, whole: string, frac: string)
    requires whole != "" && AllDigits(whole) && AllDigits(frac)
    ensures var signed := if negative then "-" + whole else whole;
      IsIntText(signed) &&
      JoinedInt(signed, frac) == var m: int := FromDigits(whole + frac); if negative then -m else m
  {
    if negative {
      assert ("-" + whole)[1..] == whole;
      assert ("-" + whole + frac)[1..] == whole + frac;
    }
  }

  /** A text laid out as sign, digits, point, digits. */
  lemma LayoutReads(negative: bool, whole: string, frac: string, s: string)
    requires whole != "" && frac != "" && AllDigits(whole) && AllDigits(frac)
    requires s == (if negative then "-" else "") + (whole + "." + frac)
    ensures IsDecimal(s) && FractionPart(s) == frac
    ensures Unscaled(s) == var m: int := FromDigits(whole + frac); if negative then -m else m
  {
    hide IsDecimal, WholePart, FractionPart, JoinedInt, FromDigits, IsIntText;
    var u := whole + "." + frac;
    UnsignedLayoutReads(whole, frac, u);
    NegatedReads(u);
    JoinedReads(negative, whole, frac);
    assert s == if negative then "-" + u else u;
  }

  /** The digits `formatDecimal` cuts in two. */
  lemma PaddedDigits(magnitude: nat, scale: nat, digits: string)
    requires scale > 0 && digits == Pad(ToDigits(magnitude), scale + 1)
    ensures |digits| > scale && AllDigits(digits) && FromDigits(digits) == magnitude
    ensures digits[..|digits| - scale] + digits[|digits| - scale..] == digits
  {
    PadKeepsValue(ToDigits(magnitude), scale + 1);
    FromToDigits(magnitude);
  }

  lemma FormatLayout(value: int, scale: nat, digits: string)
    requires scale > 0 && digits == Pad(ToDigits(if value < 0 then -value else value), scale + 1)
    ensures FormatDecimal(value, scale) ==
      (if value < 0 then "-" else "") + (digits[..|digits| - scale] + "." + digits[|digits| - scale..])
  {
  }

  /** What is printed is accepted again, at the scale asked for, and denotes the value printed. */
  lemma FormatReads(value: int, scale: nat)
    ensures IsDecimal(FormatDecimal(value, scale))
    ensures Scale(FormatDecimal(value, scale)) == scale
    ensures Unscaled(FormatDecimal(value, scale)) == value
  {
    hide IsDecimal, Unscaled, FractionPart, WholePart, PointIndex, BigInt, IntText, FromDigits;
    if scale == 0 {
      IntTextReads(value);
    } else {
      var magnitude := if value < 0 then -value else value;
      var digits := Pad(ToDigits(magnitude), scale + 1);
      var cut := |digits| - scale;
      PaddedDigits(magnitude, scale, digits);
      FormatLayout(value, scale, digits);
      LayoutReads(value < 0, digits[..cut], digits[cut..], FormatDecimal(value, scale));
    }
  }

  /** `text` is accepted and denotes `units` times 10^-scale, with `scale` fraction digits. */
  ghost predicate Denotes(text: string, amount: Amount) {
    IsDecimal(text) && Scale(text) == amount.scale && Unscaled(text) == amount.units
  }

  /** An exact decimal: `units` times 10^-scale. */
  datatype Amount = Amount(units: int, scale: nat)

  function AmountOf(s: string): Amount
    requires IsDecimal(s)
  {
    Amount(Unscaled(s), Scale(s))
  }

  function Product(a: Amount, b: Amount): Amount {
    Amount(a.units * b.units, a.scale + b.scale)
  }

  /** The units of an amount at a larger scale. */
  function UnitsAt(a: Amount, scale: nat): int
    requires scale >= a.scale
  {
    a.units * Pow10(scale - a.scale)
  }

  function Sum(a: Amount, b: Amount): Amount {
    var scale := Max(a.scale, b.scale);
    Amount(UnitsAt(a, scale) + UnitsAt(b, scale), scale)
  }

  function Printed(a: Amount): string {
    FormatDecimal(a.units, a.scale)
  }

  lemma PrintedDenotes(a: Amount)
    ensures Denotes(Printed(a), a)
  {
    FormatReads(a.units, a.scale);
  }

  /** The product text denotes the exact product, at the sum of the scales. */
  lemma MultiplyExact(a: string, b: string)
    requires IsDecimal(a) && IsDecimal(b)
    ensures MultiplyDecimals(a, b) == Printed(Product(AmountOf(a), AmountOf(b)))
    ensures Denotes(MultiplyDecimals(a, b), Product(AmountOf(a), AmountOf(b)))
  {
    hide *;
    MultiplyPrints(a, b);
    PrintedDenotes(Product(AmountOf(a), AmountOf(b)));
  }

  lemma MultiplyPrints(a: string, b: string)
    requires IsDecimal(a) && IsDecimal(b)
    ensures MultiplyDecimals(a, b) == Printed(Product(AmountOf(a), AmountOf(b)))
  {
    hide IsDecimal, FormatDecimal, Unscaled, Scale;
  }

  lemma PaddedIsUnitsAt(s: string, scale: nat)
    requires IsDecimal(s) && scale >= Scale(s)
    ensures PaddedUnscaled(s, scale) == UnitsAt(AmountOf(s), scale)
  {
    hide IsDecimal, PaddedUnscaled, Unscaled, Scale;
    PaddedIsScaled(s, scale);
  }

  lemma AddPrints(a: string, b: string)
    requires IsDecimal(a) && IsDecimal(b)
    ensures AddDecimals(a, b) == Printed(Sum(AmountOf(a), AmountOf(b)))
  {
    hide IsDecimal, FormatDecimal, Unscaled, Scale, PaddedUnscaled, UnitsAt, Sum, Printed;
    var scale := Max(Scale(a), Scale(b));
    var x, y := PaddedUnscaled(a, scale), PaddedUnscaled(b, scale);
    PaddedIsUnitsAt(a, scale);
    PaddedIsUnitsAt(b, scale);
    SumIs(AmountOf(a), AmountOf(b), scale, x, y);
    PrintedIs(Amount(x + y, scale));
  }

  lemma SumIs(a: Amount, b: Amount, scale: nat, x: int, y: int)
    requires scale == Max(a.scale, b.scale) && x == UnitsAt(a, scale) && y == UnitsAt(b, scale)
    ensures Sum(a, b) == Amount(x + y, scale)
  {
  }

  lemma PrintedIs(a: Amount)
    ensures Printed(a) == FormatDecimal(a.units, a.scale)
  {
  }

  /** The sum text denotes the exact sum, at the larger of the scales. */
  lemma AddExact(a: string, b: string)
    requires IsDecimal(a) && IsDecimal(b)
    ensures AddDecimals(a, b) == Printed(Sum(AmountOf(a), AmountOf(b)))
    ensures Denotes(AddDecimals(a, b), Sum(AmountOf(a), AmountOf(b)))
  {
    hide *;
    var sum := Sum(AmountOf(a), AmountOf(b));
    AddPrints(a, b);
    PrintedDenotes(sum);
  }

  // ------------------------------------------------------------ exact totals

  function LargestScale(amounts: seq<Amount>): nat {
    if amounts == [] then 0 else Max(LargestScale(amounts[..|amounts| - 1]), amounts[|amounts| - 1].scale)
  }

  /** The exact sum of the amounts, in units of 10^-scale. */
  function ExactSum(amounts: seq<Amount>, scale: nat): int
    requires scale >= LargestScale(amounts)
  {
    if amounts == [] then 0 else
    ExactSum(amounts[..|amounts| - 1], scale) + UnitsAt(amounts[|amounts| - 1], scale)
  }

  /** The amounts added up, at the largest of their scales. */
  function ExactTotal(amounts: seq<Amount>): Amount {
    Amount(ExactSum(amounts, LargestScale(amounts)), LargestScale(amounts))
  }

  lemma {:induction false} PowSplits(a: nat, b: nat)
    ensures Pow10(a + b) == Pow10(a) * Pow10(b)
  {
    if a > 0 {
      PowSplits(a - 1, b);
    }
  }

  lemma UnitsRescale(a: Amount, scale: nat, finer: nat)
    requires a.scale <= scale <= finer
    ensures UnitsAt(a, finer) == UnitsAt(a, scale) * Pow10(finer - scale)
  {
    PowSplits(scale - a.scale, finer - scale);
    Associate(a.units, Pow10(scale - a.scale), Pow10(finer - scale));
  }

  lemma Associate(p: int, c: int, k: int)
    ensures p * (c * k) == p * c * k
  {
  }

  lemma Distribute(s: int, t: int, k: int)
    ensures s * k + t * k == (s + t) * k
  {
  }

  lemma {:induction false} SumRescales(amounts: seq<Amount>, scale: nat, finer: nat)
    requires LargestScale(amounts) <= scale <= finer
    ensures ExactSum(amounts, finer) == ExactSum(amounts, scale) * Pow10(finer - scale)
  {
    if amounts != [] {
      var front, last := amounts[..|amounts| - 1], amounts[|amounts| - 1];
      SumRescales(front, scale, finer);
      UnitsRescale(last, scale, finer);
      Distribute(ExactSum(front, scale), UnitsAt(last, scale), Pow10(finer - scale));
    }
  }

  /** Adding one more amount to a total gives the total of one more. */
  lemma TotalStep(amounts: seq<Amount>)
    requires amounts != []
    ensures ExactTotal(amounts) == Sum(ExactTotal(amounts[..|amounts| - 1]), amounts[|amounts| - 1])
  {
    SumRescales(amounts[..|amounts| - 1], LargestScale(amounts[..|amounts| - 1]), LargestScale(amounts));
  }

  lemma {:induction false} TakeOut(amounts: seq<Amount>, j: nat, scale: nat)
    requires j < |amounts| && scale >= LargestScale(amounts)
    ensures var rest := Without(amounts, j);
      LargestScale(amounts) == Max(LargestScale(rest), amounts[j].scale) &&
      ExactSum(amounts, scale) == ExactSum(rest, scale) + UnitsAt(amounts[j], scale)
  {
    var n := |amounts| - 1;
    var rest := Without(amounts, j);
    if j == n {
      assert rest == amounts[..n];
    } else {
      TakeOut(amounts[..n], j, scale);
      assert rest[..|rest| - 1] == Without(amounts[..n], j);
      assert rest[|rest| - 1] == amounts[n];
    }
  }

  function Without<T>(s: seq<T>, j: nat): (rest: seq<T>)
    requires j < |s|
    ensures |rest| == |s| - 1
  {
    s[..j] + s[j + 1..]
  }

  lemma WithoutOne<T>(s: seq<T>, j: nat)
    requires j < |s|
    ensures multiset(s) == multiset(Without(s, j)) + multiset{s[j]}
    ensures multiset(Without(s, j)) == multiset(s) - multiset{s[j]}
  {
    assert s == s[..j] + [s[j]] + s[j + 1..];
  }

  lemma {:induction false} SumIgnoresOrder(a: seq<Amount>, b: seq<Amount>, scale: nat)
    requires multiset(a) == multiset(b) && scale >= LargestScale(a) && scale >= LargestScale(b)
    ensures LargestScale(a) == LargestScale(b) && ExactSum(a, scale) == ExactSum(b, scale)
    decreases |a|
  {
    assert |multiset(a)| == |a| && |multiset(b)| == |b|;
    if a != [] {
      var n := |a| - 1;
      assert a[n] in multiset(b);
      var j :| 0 <= j < |b| && b[j] == a[n];
      WithoutOne(b, j);
      WithoutOne(a, n);
      assert Without(a, n) == a[..n];
      TakeOut(b, j, scale);
      SumIgnoresOrder(a[..n], Without(b, j), scale);
    }
  }

  lemma TotalIgnoresOrder(a: seq<Amount>, b: seq<Amount>)
    requires multiset(a) == multiset(b)
    ensures ExactTotal(a) == ExactTotal(b)
  {
    SumIgnoresOrder(a, b, Max(LargestScale(a), LargestScale(b)));
    SumIgnoresOrder(a, b, LargestScale(a));
  }

  // --------------------------------------------------------------- subtotal

  datatype Line = Line(description: string, quantity: string, unitPrice: string)

  datatype LineField = Description | Quantity | UnitPrice

  datatype BuildError = NoLines | BadLine(index: nat, field: LineField)

  /** The characters `trim()` removes. */
  predicate IsTrimmed(c: char) {
    var n := c as int;
    9 <= n <= 13 || n in {0x20, 0xA0, 0x1680, 0x202F, 0x205F, 0x3000, 0xFEFF, 0x2028, 0x2029} || 0x2000 <= n <= 0x200A
  }

  predicate IsBlank(s: string) {
    forall i :: 0 <= i < |s| ==> IsTrimmed(s[i])
  }

  predicate IsValidLine(line: Line) {
    !IsBlank(line.description) && IsDecimal(line.quantity) && IsDecimal(line.unitPrice)
  }

  /** The amounts of the lines, numbered from `index`, or the first field that fails. */
  function LineExtensions(lines: seq<Line>, index: nat): (r: Result<seq<string>, BuildError>)
    ensures r.Ok? ==> |r.value| == |lines|
  {
    if lines == [] then Ok([]) else
    var line := lines[0];
    if IsBlank(line.description) then Err(BadLine(index, Description))
    else if !IsDecimal(line.quantity) then Err(BadLine(index, Quantity))
    else if !IsDecimal(line.unitPrice) then Err(BadLine(index, UnitPrice))
    else
      match LineExtensions(lines[1..], index + 1)
      case Err(error) => Err(error)
      case Ok(rest) => Ok([MultiplyDecimals(line.quantity, line.unitPrice)] + rest)
  }

  ghost predicate AllDecimal(texts: seq<string>) {
    forall i :: 0 <= i < |texts| ==> IsDecimal(texts[i])
  }

  ghost predicate Pairwise<T(!new), U(!new)>(p: (T, U) -> bool, a: seq<T>, b: seq<U>) {
    |a| == |b| && forall i :: 0 <= i < |a| ==> p(a[i], b[i])
  }

  lemma PairwiseCons<T(!new), U(!new)>(p: (T, U) -> bool, x: T, a: seq<T>, y: U, b: seq<U>)
    requires p(x, y) && Pairwise(p, a, b)
    ensures Pairwise(p, [x] + a, [y] + b)
  {
  }

  /** The texts denote the amounts, one by one. */
  ghost predicate AllDenote(texts: seq<string>, amounts: seq<Amount>) {
    Pairwise((text, amount) => Denotes(text, amount), texts, amounts)
  }

  /** `texts.reduce(addDecimals, "0")`, from the last text back. */
  function Total(texts: seq<string>): (t: string)
    requires AllDecimal(texts)
    ensures IsDecimal(t)
  {
    if texts == [] then assert PointIndex("0") == 1; "0"
    else
      var front, last := Total(texts[..|texts| - 1]), texts[|texts| - 1];
      assert IsDecimal(last);
      AddExact(front, last);
      AddDecimals(front, last)
  }

  lemma ZeroDenotes()
    ensures Denotes("0", Amount(0, 0)) && Printed(Amount(0, 0)) == "0"
  {
    PrintedDenotes(Amount(0, 0));
    assert ToDigits(0) == "0";
  }

  /** Folding texts adds the amounts they denote, without losing a digit. */
  lemma {:induction false} TotalIsExact(texts: seq<string>, amounts: seq<Amount>)
    requires AllDecimal(texts) && AllDenote(texts, amounts)
    ensures Denotes(Total(texts), ExactTotal(amounts)) && Total(texts) == Printed(ExactTotal(amounts))
  {
    if texts == [] {
      ZeroDenotes();
    } else {
      var n := |texts| - 1;
      TotalIsExact(texts[..n], amounts[..n]);
      AddExact(Total(texts[..n]), texts[n]);
      assert AmountOf(Total(texts[..n])) == ExactTotal(amounts[..n]);
      assert AmountOf(texts[n]) == amounts[n];
      TotalStep(amounts);
    }
  }

  /** The exact product of a valid line. */
  function LineAmount(line: Line): Amount
    requires IsValidLine(line)
  {
    Product(AmountOf(line.quantity), AmountOf(line.unitPrice))
  }

  ghost predicate AllValid(lines: seq<Line>) {
    forall i :: 0 <= i < |lines| ==> IsValidLine(lines[i])
  }

  function LineAmounts(lines: seq<Line>): (amounts: seq<Amount>)
    requires AllValid(lines)
    ensures |amounts| == |lines| && forall i :: 0 <= i < |lines| ==> amounts[i] == LineAmount(lines[i])
  {
    seq(|lines|, i requires 0 <= i < |lines| => LineAmount(lines[i]))
  }

  /** `text` denotes the exact product of a valid line. */
  ghost predicate Extends(text: string, line: Line) {
    IsValidLine(line) && Denotes(text, LineAmount(line))
  }

  lemma ValidLineExtends(line: Line)
    requires IsValidLine(line)
    ensures Extends(MultiplyDecimals(line.quantity, line.unitPrice), line)
  {
    MultiplyExact(line.quantity, line.unitPrice);
  }

  lemma {:induction false} AcceptedIffValid(lines: seq<Line>, index: nat)
    ensures LineExtensions(lines, index).Ok? <==> AllValid(lines)
  {
    if lines != [] {
      AcceptedIffValid(lines[1..], index + 1);
      assert AllValid(lines) <==> IsValidLine(lines[0]) && AllValid(lines[1..]) by {
        assert lines == [lines[0]] + lines[1..];
      }
    }
  }

  lemma {:induction false} ExtensionsAreProducts(lines: seq<Line>, index: nat)
    requires LineExtensions(lines, index).Ok?
    ensures Pairwise((text, line) => Extends(text, line), LineExtensions(lines, index).value, lines)
  {
    var p := (text, line) => Extends(text, line);
    if lines != [] {
      var rest := LineExtensions(lines[1..], index + 1);
      ExtensionsAreProducts(lines[1..], index + 1);
      ValidLineExtends(lines[0]);
      var first := MultiplyDecimals(lines[0].quantity, lines[0].unitPrice);
      PairwiseCons(p, first, rest.value, lines[0], lines[1..]);
      assert lines == [lines[0]] + lines[1..];
    }
  }

  /** The line texts are there exactly when every line is valid, and denote the exact products. */
  lemma ExtensionsDenote(lines: seq<Line>)
    ensures LineExtensions(lines, 0).Ok? <==> AllValid(lines)
    ensures AllValid(lines) ==>
      AllDecimal(LineExtensions(lines, 0).value) && AllDenote(LineExtensions(lines, 0).value, LineAmounts(lines))
  {
    AcceptedIffValid(lines, 0);
    if AllValid(lines) {
      ExtensionsAreProducts(lines, 0);
      var texts := LineExtensions(lines, 0).value;
      forall i | 0 <= i < |texts| ensures IsDecimal(texts[i]) && Denotes(texts[i], LineAmounts(lines)[i]) {
        assert Extends(texts[i], lines[i]);
      }
    }
  }

  /** The monetary totals of `buildCommercialDocument`. */
  function Subtotal(lines: seq<Line>): Result<string, BuildError> {
    if lines == [] then Err(NoLines) else
    match LineExtensions(lines, 0)
    case Err(error) => Err(error)
    case Ok(texts) =>
      ExtensionsDenote(lines);
      Ok(Total(texts))
  }

  /**
    The subtotal: refused exactly when there is no line or some line is invalid, and
    otherwise the printed exact sum at the largest product scale.
   */
  lemma SubtotalIsExact(lines: seq<Line>)
    ensures Subtotal(lines).Ok? <==> lines != [] && AllValid(lines)
    ensures Subtotal(lines).Ok? ==> Subtotal(lines).value == Printed(ExactTotal(LineAmounts(lines)))
  {
    ExtensionsDenote(lines);
    if Subtotal(lines).Ok? {
      TotalIsExact(LineExtensions(lines, 0).value, LineAmounts(lines));
    }
  }

  ghost predicate Maps<T(!new), U(!new)>(f: T -> U, s: seq<T>, fs: seq<U>) {
    |fs| == |s| && forall i :: 0 <= i < |s| ==> fs[i] == f(s[i])
  }

  lemma MapsWithout<T(!new), U(!new)>(f: T -> U, s: seq<T>, fs: seq<U>, j: nat)
    requires Maps(f, s, fs) && j < |s|
    ensures Maps(f, Without(s, j), Without(fs, j))
  {
  }

  lemma {:induction false} MapKeepsMultiset<T(!new), U(!new)>(a: seq<T>, b: seq<T>, f: T -> U, fa: seq<U>, fb: seq<U>)
    requires multiset(a) == multiset(b) && Maps(f, a, fa) && Maps(f, b, fb)
    ensures multiset(fa) == multiset(fb)
    decreases |a|
  {
    assert |multiset(a)| == |a| && |multiset(b)| == |b|;
    if a == [] {
      assert fa == fb;
    } else {
      assert a[0] in multiset(b);
      var j :| 0 <= j < |b| && b[j] == a[0];
      WithoutOne(b, j);
      WithoutOne(a, 0);
      assert fa[0] == fb[j];
      MapsWithout(f, b, fb, j);
      MapsWithout(f, a, fa, 0);
      MapKeepsMultiset(Without(a, 0), Without(b, j), f, Without(fa, 0), Without(fb, j));
      WithoutOne(fb, j);
      WithoutOne(fa, 0);
    }
  }

  lemma AmountsKeepMultiset(a: seq<Line>, b: seq<Line>)
    requires AllValid(a) && AllValid(b) && multiset(a) == multiset(b)
    ensures multiset(LineAmounts(a)) == multiset(LineAmounts(b))
  {
    var f := (line: Line) => if IsValidLine(line) then LineAmount(line) else Amount(0, 0);
    MapKeepsMultiset(a, b, f, LineAmounts(a), LineAmounts(b));
  }

  /** The subtotal text does not depend on the order of the lines. */
  lemma SubtotalIgnoresOrder(a: seq<Line>, b: seq<Line>)
    requires multiset(a) == multiset(b) && Subtotal(a).Ok?
    ensures Subtotal(a) == Subtotal(b)
  {
    SubtotalIsExact(a);
    SubtotalIsExact(b);
    assert |multiset(a)| == |a| && |multiset(b)| == |b|;
    forall i | 0 <= i < |b| ensures IsValidLine(b[i]) {
      assert b[i] in multiset(a);
    }
    AmountsKeepMultiset(a, b);
    TotalIgnoresOrder(LineAmounts(a), LineAmounts(b));
  }

  // ------------------------------------------------------ which texts are decimals

  /** An optional minus, digits, and perhaps a point and more digits. */
  ghost predicate IsLayout(s: string, negative: bool, whole: string, frac: string) {
    whole != "" && AllDigits(whole) && AllDigits(frac) &&
    s == (if negative then "-" else "") + (whole + if frac == "" then "" else "." + frac)
  }

  lemma UnsignedLayout(whole: string, frac: string)
    requires whole != "" && AllDigits(whole) && AllDigits(frac)
    ensures var u := whole + if frac == "" then "" else "." + frac;
      IsDecimal(u) && u[0] != '-' && PointIndex(u) == |whole| && WholePart(u) == whole && FractionPart(u) == frac
  {
    var rest := if frac == "" then "" else "." + frac;
    var u := whole + rest;
    PointAfterDigits(whole, rest);
    assert u[..|whole|] == whole && (frac != "" ==> u[|whole| + 1..] == frac);
    assert u[0] == whole[0];
  }

  lemma SplitAtPoint(u: string, i: nat)
    requires i <= |u| && (i < |u| ==> u[i] == '.' && |u| > i + 1)
    ensures var frac := if i == |u| then "" else u[i + 1..];
      u == u[..i] + (if frac == "" then "" else "." + frac)
  {
    if i < |u| {
      assert u == u[..i] + ("." + u[i + 1..]);
    }
  }

  lemma DecimalPieces(s: string, u: string, i: nat)
    requires s != "" && IsDecimal(s) && u == (if s[0] == '-' then s[1..] else s) && i == PointIndex(u)
    ensures 0 < i <= |u| && AllDigits(u[..i]) && (i < |u| ==> u[i] == '.' && |u| > i + 1 && AllDigits(u[i + 1..]))
  {
    hide AllDigits;
  }

  lemma LayoutFrom(s: string, negative: bool, u: string, whole: string, frac: string)
    requires whole != "" && AllDigits(whole) && AllDigits(frac)
    requires u == whole + (if frac == "" then "" else "." + frac)
    requires s != "" && negative == (s[0] == '-') && u == (if negative then s[1..] else s)
    ensures IsLayout(s, negative, whole, frac)
  {
    hide AllDigits;
    assert negative ==> s == "-" + u;
    assert !negative ==> s == "" + u;
  }

  /** A decimal text has a layout. */
  lemma LayoutOf(s: string, u: string, i: nat)
    requires s != "" && IsDecimal(s) && u == (if s[0] == '-' then s[1..] else s) && i == PointIndex(u)
    ensures i <= |u| && IsLayout(s, s[0] == '-', u[..i], if i == |u| then "" else u[i + 1..])
  {
    assert AllDigits("");
    hide PointIndex, AllDigits, IsDecimal, IsLayout;
    DecimalPieces(s, u, i);
    SplitAtPoint(u, i);
    LayoutFrom(s, s[0] == '-', u, u[..i], if i == |u| then "" else u[i + 1..]);
  }

  lemma EmptyIsNoDecimal()
    ensures !IsDecimal("")
  {
  }

  /** Exactly the texts with such a layout are accepted. */
  lemma DecimalIff(s: string)
    ensures IsDecimal(s) <==> exists negative, whole, frac :: IsLayout(s, negative, whole, frac)
  {
    hide IsDecimal, WholePart, FractionPart;
    EmptyIsNoDecimal();
    if IsDecimal(s) {
      var u := if s[0] == '-' then s[1..] else s;
      LayoutOf(s, u, PointIndex(u));
    }
    if negative, whole, frac :| IsLayout(s, negative, whole, frac) {
      UnsignedLayout(whole, frac);
      NegatedReads(whole + if frac == "" then "" else "." + frac);
      assert s == if negative then "-" + (whole + if frac == "" then "" else "." + frac)
        else whole + if frac == "" then "" else "." + frac;
    }
  }

  /** A text of the layout denotes its digits at the scale of its fraction. */
  lemma LayoutDenotes(s: string, negative: bool, whole: string, frac: string)
    requires IsLayout(s, negative, whole, frac)
    ensures IsDecimal(s) && Scale(s) == |frac|
    ensures var m: int := FromDigits(whole) * Pow10(|frac|) + FromDigits(frac);
      Unscaled(s) == if negative then -m else m
  {
    hide IsDecimal, WholePart, FractionPart, JoinedInt, FromDigits, Pow10, IsIntText;
    var u := whole + if frac == "" then "" else "." + frac;
    UnsignedLayout(whole, frac);
    NegatedReads(u);
    JoinedReads(negative, whole, frac);
    FromConcat(whole, frac);
    assert s == if negative then "-" + u else u;
    ScaleIs(s, frac);
  }

  lemma ScaleIs(s: string, frac: string)
    requires FractionPart(s) == frac
    ensures Scale(s) == |frac|
  {
  }

  // ---------------------------------------------------------- refused invoices

  /** The line's first field that fails. */
  ghost predicate FailsAt(line: Line, field: LineField) {
    match field
    case Description => IsBlank(line.description)
    case Quantity => !IsBlank(line.description) && !IsDecimal(line.quantity)
    case UnitPrice => !IsBlank(line.description) && IsDecimal(line.quantity) && !IsDecimal(line.unitPrice)
  }

  lemma {:induction false} FirstBadLine(lines: seq<Line>, index: nat)
    requires LineExtensions(lines, index).Err?
    ensures var error := LineExtensions(lines, index).error;
      error.BadLine? && index <= error.index < index + |lines| &&
      (forall i :: 0 <= i < error.index - index ==> IsValidLine(lines[i])) &&
      FailsAt(lines[error.index - index], error.field)
  {
    hide IsDecimal, IsBlank, MultiplyDecimals;
    if IsValidLine(lines[0]) {
      FirstBadLine(lines[1..], index + 1);
    }
  }

  /** A refused invoice has no lines, or the error names the first invalid line and its first invalid field. */
  lemma RefusalIsTrue(lines: seq<Line>)
    requires Subtotal(lines).Err?
    ensures Subtotal(lines).error == NoLines <==> lines == []
    ensures lines != [] ==>
      var error := Subtotal(lines).error;
      error.BadLine? && error.index < |lines| &&
      (forall i :: 0 <= i < error.index ==> IsValidLine(lines[i])) && FailsAt(lines[error.index], error.field)
  {
    hide FailsAt;
    if lines != [] {
      ExtensionsDenote(lines);
      FirstBadLine(lines, 0);
    }
  }

  /** A decimal is printed without superfluous zeros in front, and with a minus exactly when it is below zero. */
  lemma FormattedPlainly(value: int, scale: nat)
    ensures var s := FormatDecimal(value, scale);
      var u := if value < 0 then s[1..] else s;
      s != "" && (s[0] == '-' <==> value < 0) && u != "" &&
      (u[0] == '0' ==> if scale == 0 then u == "0" else |u| > 1 && u[1] == '.')
  {
    hide FromDigits, Pow10;
    var magnitude := if value < 0 then -value else value;
    NoLeadingZero(magnitude);
    if scale == 0 {
      assert ("-" + ToDigits(magnitude))[1..] == ToDigits(magnitude);
    } else {
      var digits := Pad(ToDigits(magnitude), scale + 1);
      var u := digits[..|digits| - scale] + "." + digits[|digits| - scale..];
      FormatLayout(value, scale, digits);
      assert ("-" + u)[1..] == u && "" + u == u;
      assert u[0] == digits[0];
      if |ToDigits(magnitude)| <= scale {
        assert |digits| == scale + 1 && u[1] == '.';
      } else {
        assert digits == ToDigits(magnitude);
        if |digits| == scale + 1 {
          assert u[1] == '.';
        } else {
          assert digits[0] != '0' by { ShortIfZero(magnitude); }
        }
      }
    }
  }

  lemma ShortIfZero(n: nat)
    requires |ToDigits(n)| > 1
    ensures ToDigits(n)[0] != '0'
  {
    NoLeadingZero(n);
  }
}
