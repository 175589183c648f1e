/** Minor-unit amounts as decimal texts, and the unit price derived from a line (Stripe bridge). */
module Money {
  import opened Digits
  import opened Wrappers

  newtype int64 = x: int | -0x8000_0000_0000_0000 <= x < 0x8000_0000_0000_0000

  /** `currency_minor_unit_exponent`. */
  function CurrencyExponent(currency: string): (exponent: nat)
    ensures exponent in {0, 2, 3}
  {
    if currency in ["BIF", "CLP", "DJF", "GNF", "JPY", "KMF", "KRW", "MGA", "PYG", "RWF", "UGX",
                    "VND", "VUV", "XAF", "XOF", "XPF"] then 0
    else if currency in ["BHD", "JOD", "KWD", "OMR", "TND"] then 3
    else 2
  }

  function Magnitude(amount: int64): nat {
    if amount < 0 then -(amount as int) else amount as int
  }

  lemma DivisionFacts(m: nat, p: nat)
    requires p >= 1
    ensures m / p >= 0 && 0 <= m % p < p && m / p * p + m % p == m
  {
  }

  function Whole(magnitude: nat, exponent: nat): nat {
    DivisionFacts(magnitude, Pow10(exponent));
    magnitude / Pow10(exponent)
  }

  function Fraction(magnitude: nat, exponent: nat): nat {
    DivisionFacts(magnitude, Pow10(exponent));
    magnitude % Pow10(exponent)
  }

  /** `minor_units_to_decimal`; the magnitude is taken unsigned, so the least amount has one. */
  function MinorUnitsToDecimal(amount: int64, exponent: nat): string {
    var sign := if amount < 0 then "-" else "";
    var whole := ToDigits(Whole(Magnitude(amount), exponent));
    if exponent == 0 then sign + whole
    else sign + whole + "." + Pad(ToDigits(Fraction(Magnitude(amount), exponent)), exponent)
  }

  /** A decimal text: an optional minus, digits, and `exponent` further digits after a point when there are any. */
  predicate IsDecimalText(s: string, exponent: nat) {
    var u := if s != "" && s[0] == '-' then s[1..] else s;
    var i := PointIndex(u);
    i > 0 && AllDigits(u[..i]) &&
    if exponent == 0 then i == |u| else i < |u| && |u| == i + 1 + exponent && AllDigits(u[i + 1..])
  }

  function Weigh(whole: nat, exponent: nat, fraction: nat): nat {
    whole * Pow10(exponent) + fraction
  }

  /** The number of minor units a decimal text denotes. */
  function ReadMinorUnits(s: string, exponent: nat): int
    requires IsDecimalText(s, exponent)
  {
    var negative := s[0] == '-';
    var u := if negative then s[1..] else s;
    var i := PointIndex(u);
    var magnitude := Weigh(FromDigits(u[..i]), exponent, if exponent == 0 then 0 else FromDigits(u[i + 1..]));
    if negative then -(magnitude as int) else magnitude
  }

  /** The whole and the fraction make up the magnitude, and the fraction fits its width. */
  lemma MagnitudeSplits(magnitude: nat, exponent: nat)
    ensures Whole(magnitude, exponent) * Pow10(exponent) + Fraction(magnitude, exponent) == magnitude
    ensures exponent == 0 ==> Fraction(magnitude, exponent) == 0
    ensures exponent > 0 ==> |ToDigits(Fraction(magnitude, exponent))| <= exponent
  {
    DivisionFacts(magnitude, Pow10(exponent));
    if exponent > 0 {
      DigitCount(Fraction(magnitude, exponent), exponent);
    }
  }

  lemma UnsignedReads(whole: string, frac: string, exponent: nat, u: string)
    requires whole != "" && AllDigits(whole) && AllDigits(frac) && |frac| == exponent
    requires u == if exponent == 0 then whole else whole + "." + frac
    ensures u != "" && u[0] != '-' && PointIndex(u) == |whole| && u[..|whole|] == whole
    ensures exponent > 0 ==> u[|whole| + 1..] == frac
  {
    PointAfterDigits(whole, if exponent == 0 then "" else "." + frac);
    assert u == whole + if exponent == 0 then "" else "." + frac;
    assert u[0] == whole[0];
  }

  /** Reading a text laid out as sign, whole and fraction. */
  lemma LayoutReads(negative: bool, whole: string, frac: string, exponent: nat, u: string, s: string)
    requires whole != "" && AllDigits(whole) && AllDigits(frac) && |frac| == exponent
    requires u == if exponent == 0 then whole else whole + "." + frac
    requires s == if negative then "-" + u else u
    ensures IsDecimalText(s, exponent)
    ensures ReadMinorUnits(s, exponent) ==
      var m := Weigh(FromDigits(whole), exponent, FromDigits(frac)) as int; if negative then -m else m
  {
    assert FromDigits("") == 0;
    hide PointIndex, FromDigits, Weigh;
    UnsignedReads(whole, frac, exponent, u);
    if negative {
      assert s[0] == '-' && s[1..] == u;
    }
  }

  function FractionDigits(fraction: nat, exponent: nat): string {
    if exponent == 0 then "" else Pad(ToDigits(fraction), exponent)
  }

  lemma FractionReads(fraction: nat, exponent: nat)
    requires if exponent == 0 then fraction == 0 else |ToDigits(fraction)| <= exponent
    ensures var f := FractionDigits(fraction, exponent);
      AllDigits(f) && |f| == exponent && FromDigits(f) == fraction
  {
    FromToDigits(fraction);
    if exponent > 0 {
      PadKeepsValue(ToDigits(fraction), exponent);
    }
  }

  function Unsigned(whole: nat, fraction: nat, exponent: nat): string {
    if exponent == 0 then ToDigits(whole) else ToDigits(whole) + "." + FractionDigits(fraction, exponent)
  }

  lemma PrintLayout(amount: int64, exponent: nat)
    ensures var u := Unsigned(Whole(Magnitude(amount), exponent), Fraction(Magnitude(amount), exponent), exponent);
      MinorUnitsToDecimal(amount, exponent) == if amount < 0 then "-" + u else u
  {
  }

  /** Printing is inverted by reading: for every amount, also the least one, at every exponent. */
  lemma ReadOfPrint(amount: int64, exponent: nat)
    ensures IsDecimalText(MinorUnitsToDecimal(amount, exponent), exponent)
    ensures ReadMinorUnits(MinorUnitsToDecimal(amount, exponent), exponent) == amount as int
  {
    var m := Magnitude(amount);
    var whole, fraction := Whole(m, exponent), Fraction(m, exponent);
    MagnitudeSplits(m, exponent);
    FromToDigits(whole);
    FractionReads(fraction, exponent);
    PrintLayout(amount, exponent);
    LayoutReads(amount < 0, ToDigits(whole), FractionDigits(fraction, exponent), exponent,
                Unsigned(whole, fraction, exponent), MinorUnitsToDecimal(amount, exponent));
  }

  /** At a fixed exponent no two amounts print alike. */
  lemma PrintInjective(a: int64, b: int64, exponent: nat)
    ensures MinorUnitsToDecimal(a, exponent) == MinorUnitsToDecimal(b, exponent) <==> a == b
  {
    ReadOfPrint(a, exponent);
    ReadOfPrint(b, exponent);
  }

  // -------------------------------------------------------------- unit price

  /** Rust's `/`, which truncates towards zero; the divisor is at least one. */
  function TruncDiv(a: int64, q: int64): int64
    requires q >= 1
  {
    if a >= 0 then a / q else
      assert -(a as int) / (q as int) <= -(a as int) by { QuotientIsSmall(-(a as int), q as int); }
      (-(-(a as int) / (q as int))) as int64
  }

  lemma QuotientIsSmall(n: int, q: int)
    requires n >= 0 && q >= 1
    ensures 0 <= n / q <= n
    ensures n - q < n / q * q <= n
  {
    var d := n / q;
    assert n == d * q + n % q;
    assert d >= 0;
    assert d * q >= d;
  }

  /** The derived price loses less than one minor unit per item, never overshoots and never changes sign. */
  lemma DerivedPriceBounds(a: int64, q: int64)
    requires q >= 1
    ensures var u := TruncDiv(a, q) as int;
      var rest := a as int - u * q as int;
      -(q as int) < rest < q as int &&
      (a >= 0 ==> u >= 0 && u * q as int <= a as int) &&
      (a <= 0 ==> u <= 0 && u * q as int >= a as int)
  {
    var m := Magnitude(a);
    QuotientIsSmall(m, q as int);
    var u := TruncDiv(a, q) as int;
    if a >= 0 {
      assert u == m / q as int;
    } else {
      assert u == -(m / q as int);
      assert u * q as int == -(m / q as int * q as int);
    }
  }

  datatype Price = Price(unitAmount: Option<int64>, unitAmountDecimal: Option<string>)

  datatype Line = Line(id: string, description: Option<string>, amount: int64, quantity: Option<int64>,
    price: Option<Price>)

  datatype LineSummary = LineSummary(id: string, description: string, quantity: int64, unitPrice: string,
    lineTotal: string)

  /** `unit_price_for`; `scaleDecimal` stands for the floating-point rescaling of a sub-unit price text. */
  function UnitPriceFor(line: Line, quantity: int64, exponent: nat, scaleDecimal: (string, nat) -> string): string
    requires quantity >= 1
  {
    if line.price.Some? && line.price.value.unitAmount.Some? then
      MinorUnitsToDecimal(line.price.value.unitAmount.value, exponent)
    else if line.price.Some? && line.price.value.unitAmountDecimal.Some? then
      scaleDecimal(line.price.value.unitAmountDecimal.value, exponent)
    else
      MinorUnitsToDecimal(TruncDiv(line.amount, quantity), exponent)
  }

  /** `extract_line`. */
  function ExtractLine(line: Line, exponent: nat, scaleDecimal: (string, nat) -> string): LineSummary {
    var asked := if line.quantity.Some? then line.quantity.value else 1;
    var quantity := if asked < 1 then 1 else asked;
    LineSummary(line.id, if line.description.Some? then line.description.value else "", quantity,
                UnitPriceFor(line, quantity, exponent, scaleDecimal), MinorUnitsToDecimal(line.amount, exponent))
  }

  predicate HasNoPrice(line: Line) {
    line.price.None? || (line.price.value.unitAmount.None? && line.price.value.unitAmountDecimal.None?)
  }

  /**
    The printed summary of a line without a price of its own: its total reads back
    exactly, and quantity times unit price misses it by less than one minor unit per
    item, on the side of zero.
   */
  lemma SummaryAddsUp(line: Line, exponent: nat, scaleDecimal: (string, nat) -> string)
    requires HasNoPrice(line)
    ensures var s := ExtractLine(line, exponent, scaleDecimal);
      s.quantity >= 1 &&
      IsDecimalText(s.lineTotal, exponent) && IsDecimalText(s.unitPrice, exponent) &&
      var total, price, q :=
        ReadMinorUnits(s.lineTotal, exponent), ReadMinorUnits(s.unitPrice, exponent), s.quantity as int;
      total == line.amount as int && -q < total - price * q < q &&
      (total >= 0 ==> 0 <= price * q <= total) && (total <= 0 ==> total <= price * q <= 0)
  {
    var s := ExtractLine(line, exponent, scaleDecimal);
    ReadOfPrint(line.amount, exponent);
    ReadOfPrint(TruncDiv(line.amount, s.quantity), exponent);
    DerivedPriceBounds(line.amount, s.quantity);
    var u := TruncDiv(line.amount, s.quantity) as int;
    SignOfProduct(u, s.quantity as int);
  }

  /** A whole price in minor units is printed as it is, whatever the amount and quantity of the line. */
  lemma StatedPriceIsKept(line: Line, exponent: nat, scaleDecimal: (string, nat) -> string)
    requires line.price.Some? && line.price.value.unitAmount.Some?
    ensures var s := ExtractLine(line, exponent, scaleDecimal);
      IsDecimalText(s.unitPrice, exponent) &&
      ReadMinorUnits(s.unitPrice, exponent) == line.price.value.unitAmount.value as int
  {
    ReadOfPrint(line.price.value.unitAmount.value, exponent);
  }

  lemma SignOfProduct(u: int, q: int)
    requires q >= 1
    ensures (u >= 0 ==> u * q >= 0) && (u <= 0 ==> u * q <= 0)
  {
  }

  // ----------------------------------------------------------------- invoices

  datatype BridgeError = MissingCurrency

  datatype Invoice = Invoice(currency: string, subtotal: int64, total: int64, tax: Option<int64>, lines: seq<Line>)

  datatype InvoiceSummary = InvoiceSummary(
    currency: string, subtotal: string, total: string, tax: Option<string>, lines: seq<LineSummary>)

  /** The amounts of `extract_invoice_summary`; `upper` is the upper-casing of the currency code. */
  function ExtractAmounts(invoice: Invoice, upper: string -> string, scaleDecimal: (string, nat) -> string)
      : Result<InvoiceSummary, BridgeError> {
    if invoice.currency == "" then Err(MissingCurrency) else
    var currency := upper(invoice.currency);
    var exponent := CurrencyExponent(currency);
    Ok(InvoiceSummary(
        currency, MinorUnitsToDecimal(invoice.subtotal, exponent), MinorUnitsToDecimal(invoice.total, exponent),
        if invoice.tax.Some? then Some(MinorUnitsToDecimal(invoice.tax.value, exponent)) else None,
        seq(|invoice.lines|,
          i requires 0 <= i < |invoice.lines| => ExtractLine(invoice.lines[i], exponent, scaleDecimal))))
  }

  function SumAmounts(lines: seq<Line>): int {
    if lines == [] then 0 else lines[0].amount as int + SumAmounts(lines[1..])
  }

  ghost predicate TotalsReadable(lines: seq<LineSummary>, exponent: nat) {
    forall i :: 0 <= i < |lines| ==> IsDecimalText(lines[i].lineTotal, exponent)
  }

  ghost function SumTotals(lines: seq<LineSummary>, exponent: nat): int
    requires TotalsReadable(lines, exponent)
  {
    if lines == [] then 0 else ReadMinorUnits(lines[0].lineTotal, exponent) + SumTotals(lines[1..], exponent)
  }

  lemma {:induction false} LineTotalsAddUp(lines: seq<Line>, summaries: seq<LineSummary>, exponent: nat)
    requires |summaries| == |lines|
    requires forall i :: 0 <= i < |lines| ==> summaries[i].lineTotal == MinorUnitsToDecimal(lines[i].amount, exponent)
    ensures TotalsReadable(summaries, exponent) && SumTotals(summaries, exponent) == SumAmounts(lines)
  {
    hide IsDecimalText, ReadMinorUnits, MinorUnitsToDecimal;
    forall i | 0 <= i < |lines| ensures IsDecimalText(summaries[i].lineTotal, exponent) {
      ReadOfPrint(lines[i].amount, exponent);
    }
    if lines != [] {
      ReadOfPrint(lines[0].amount, exponent);
      LineTotalsAddUp(lines[1..], summaries[1..], exponent);
    }
  }

  /**
    Read at the exponent of its currency, the summary carries the invoice's own
    subtotal and total, and its line totals add up to what the line amounts do.
   */
  lemma SummaryKeepsAmounts(invoice: Invoice, upper: string -> string, scaleDecimal: (string, nat) -> string)
    requires invoice.currency != ""
    ensures var s := ExtractAmounts(invoice, upper, scaleDecimal).Extract();
      var exponent := CurrencyExponent(s.currency);
      IsDecimalText(s.subtotal, exponent) && ReadMinorUnits(s.subtotal, exponent) == invoice.subtotal as int &&
      IsDecimalText(s.total, exponent) && ReadMinorUnits(s.total, exponent) == invoice.total as int &&
      (s.tax.Some? <==> invoice.tax.Some?) &&
      (s.tax.Some? ==>
        IsDecimalText(s.tax.value, exponent) &&
        ReadMinorUnits(s.tax.value, exponent) == invoice.tax.value as int) &&
      TotalsReadable(s.lines, exponent) && SumTotals(s.lines, exponent) == SumAmounts(invoice.lines)
  {
    hide IsDecimalText, ReadMinorUnits, MinorUnitsToDecimal, CurrencyExponent, UnitPriceFor;
    var s := ExtractAmounts(invoice, upper, scaleDecimal).Extract();
    var exponent := CurrencyExponent(s.currency);
    ReadOfPrint(invoice.subtotal, exponent);
    ReadOfPrint(invoice.total, exponent);
    if invoice.tax.Some? {
      ReadOfPrint(invoice.tax.value, exponent);
    }
    LineTotalsAddUp(invoice.lines, s.lines, exponent);
  }

  // ------------------------------------------------------ what a summary carries

  /** The currencies without minor units, those with three digits of them, and all others. */
  lemma ExponentIs(currency: string)
    ensures CurrencyExponent(currency) == 0 <==>
      currency in {"BIF", "CLP", "DJF", "GNF", "JPY", "KMF", "KRW", "MGA", "PYG", "RWF", "UGX", "VND", "VUV", "XAF",
                   "XOF", "XPF"}
    ensures CurrencyExponent(currency) == 3 <==> currency in {"BHD", "JOD", "KWD", "OMR", "TND"}
  {
    assert currency in {"BHD", "JOD", "KWD", "OMR", "TND"} ==>
      currency[0] in "BJKOT" && currency[1] in "HOWMN" && currency[2] in "DRD";
  }

  /** A line keeps id, description and total; a quantity below one counts as one. */
  lemma LineCarries(line: Line, exponent: nat, scaleDecimal: (string, nat) -> string)
    ensures var s := ExtractLine(line, exponent, scaleDecimal);
      s.id == line.id &&
      (line.description.Some? ==> s.description == line.description.value) &&
      (line.description.None? ==> s.description == "") &&
      (line.quantity.Some? && line.quantity.value >= 1 ==> s.quantity == line.quantity.value) &&
      (line.quantity.None? || line.quantity.value < 1 ==> s.quantity == 1) &&
      IsDecimalText(s.lineTotal, exponent) && ReadMinorUnits(s.lineTotal, exponent) == line.amount as int &&
      (line.price.Some? && line.price.value.unitAmount.None? && line.price.value.unitAmountDecimal.Some? ==>
        s.unitPrice == scaleDecimal(line.price.value.unitAmountDecimal.value, exponent))
  {
    ReadOfPrint(line.amount, exponent);
  }

  /** An invoice without a currency is refused; otherwise every line has its summary, in order. */
  lemma SummaryCarries(invoice: Invoice, upper: string -> string, scaleDecimal: (string, nat) -> string)
    ensures invoice.currency == "" <==> ExtractAmounts(invoice, upper, scaleDecimal) == Err(MissingCurrency)
    ensures invoice.currency != "" ==>
      var r := ExtractAmounts(invoice, upper, scaleDecimal);
      r.Ok? && r.value.currency == upper(invoice.currency) && |r.value.lines| == |invoice.lines| &&
      forall i :: 0 <= i < |invoice.lines| ==>
        r.value.lines[i] == ExtractLine(invoice.lines[i], CurrencyExponent(upper(invoice.currency)), scaleDecimal)
  {
    hide ExtractLine, CurrencyExponent;
  }

  /** An amount is printed without superfluous zeros in front, and with a minus exactly when it is below zero. */
  lemma PrintedPlainly(amount: int64, exponent: nat)
    ensures var s := MinorUnitsToDecimal(amount, exponent);
      var u := if amount < 0 then s[1..] else s;
      s != "" && (s[0] == '-' <==> amount < 0) && u != "" &&
      (u[0] == '0' ==> if exponent == 0 then u == "0" else |u| > 1 && u[1] == '.')
  {
    hide ToDigits, Whole, Fraction, Pad;
    var whole := Whole(Magnitude(amount), exponent);
    NoLeadingZero(whole);
    PrintLayout(amount, exponent);
    var u := Unsigned(whole, Fraction(Magnitude(amount), exponent), exponent);
    assert u[0] == ToDigits(whole)[0];
    assert ("-" + u)[1..] == u;
  }
}
