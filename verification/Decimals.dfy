/**
 Fixed-point numbers as text: the printer (`app/src/lib/format.ts`), and the parsers that read its
 output back (`parsePrice` of `app/src/lib/noxdesk.ts`, `parseUsdc` of `app/src/lib/nox.ts`, and
 the size parser of `clients/js/src/sizing.ts`).

 The regular expressions are modelled by what they match: the grouping one inserts a comma before
 every digit, past the first, with a whole number of threes to its right; the parsing ones accept
 digits, optionally followed by a dot and a bounded number of digits.
 */
module Decimals {
  import opened BigInts
  import opened Digits
  import opened Results
  import opened Text
  import opened Units

  // --- the printer ---------------------------------------------------------------------------------

  /** Thousands separators for the digits of `s` from index `i` on. */
  function Group(s: string, i: nat): string
    requires i <= |s|
    decreases |s| - i
  {
    if i == |s| then ""
    else (if i > 0 && (|s| - i) % 3 == 0 then "," else "") + [s[i]] + Group(s, i + 1)
  }

  /** `s.slice(0, places)` for a positive number of places. */
  function Take(s: string, places: nat): string {
    if places < |s| then s[..places] else s
  }

  function Parts(value: int, scale: nat, places: int): string
    requires scale > 0
  {
    (if value < 0 then "-" else "") + PartsOf(Abs(value) / scale, Abs(value) % scale, scale, places)
  }

  /** A whole and a fractional part, as `parts` joins them. */
  function PartsOf(whole: nat, frac: nat, scale: nat, places: int): string {
    Group(ToString(whole), 0)
    + (if places > 0 then "." + Take(PadStart(ToString(frac), |ToString(scale)| - 1), places) else "")
  }

  function FmtPrice(price: int, places: int): string {
    Parts(price, PRICE_PRECISION, places)
  }

  function FmtUsd(amount: int, places: int): string {
    Parts(amount, QUOTE_PRECISION, places)
  }

  // --- the parsers ---------------------------------------------------------------------------------

  function RemoveCommas(s: string): string {
    if s == "" then ""
    else RemoveCommas(s[..|s| - 1]) + (if s[|s| - 1] == ',' then "" else [s[|s| - 1]])
  }

  /** The index of the first dot, or the length when there is none. */
  function DotAt(s: string): (k: nat)
    ensures k <= |s|
    ensures k < |s| ==> s[k] == '.'
    ensures forall i :: 0 <= i < k ==> s[i] != '.'
  {
    if s == "" || s[0] == '.' then 0 else 1 + DotAt(s[1..])
  }

  function WholePart(t: string): string {
    t[..DotAt(t)]
  }

  function FractionPart(t: string): string {
    if DotAt(t) < |t| then t[DotAt(t) + 1..] else ""
  }

  /** A plain decimal with at most `places` places; a dot must be followed by a digit. */
  predicate IsDecimal(t: string, places: nat) {
    && WholePart(t) != "" && AllDigits(WholePart(t))
    && AllDigits(FractionPart(t)) && |FractionPart(t)| <= places
    && (DotAt(t) < |t| ==> FractionPart(t) != "")
  }

  /** A number, unless it is not positive. */
  function Positive(v: int): Option<nat> {
    if v > 0 then Some(v) else None
  }

  /** The whole part at the scale of `places` digits, plus the fraction padded to it. */
  function Scaled(whole: string, fraction: string, places: nat): nat
    requires AllDigits(whole) && AllDigits(fraction) && |fraction| <= places
  {
    PadEndShifts(fraction, places);
    ToBigInt(whole) * Pow10(places) + ToBigInt(PadEnd(fraction, places))
  }

  function ParsePlain(t: string, places: nat): Option<nat> {
    if IsDecimal(t, places) then Positive(Scaled(WholePart(t), FractionPart(t), places)) else None
  }

  function ParseDecimal(input: string, places: nat): Option<nat> {
    ParsePlain(RemoveCommas(Trim(input)), places)
  }

  function ParsePrice(input: string): Option<nat> {
    ParseDecimal(input, 9)
  }

  function ParseUsdc(input: string): Option<nat> {
    ParseDecimal(input, 6)
  }

  // --- commas and spaces -----------------------------------------------------------------------------

  lemma {:induction false} RemoveCommasConcat(s: string, t: string)
    ensures RemoveCommas(s + t) == RemoveCommas(s) + RemoveCommas(t)
  {
    if t == "" {
      assert s + t == s;
    } else {
      assert (s + t)[..|s + t| - 1] == s + t[..|t| - 1];
      RemoveCommasConcat(s, t[..|t| - 1]);
    }
  }

  lemma {:induction false} RemoveCommasKeeps(s: string)
    requires ',' !in s
    ensures RemoveCommas(s) == s
  {
    if s != "" {
      RemoveCommasKeeps(s[..|s| - 1]);
    }
  }

  lemma {:induction false} NoCommasLeft(s: string)
    ensures ',' !in RemoveCommas(s)
  {
    if s != "" {
      NoCommasLeft(s[..|s| - 1]);
    }
  }

  /** Grouping only ever adds commas. */
  lemma {:induction false} GroupingIsUndone(s: string, i: nat)
    requires AllDigits(s) && i <= |s|
    ensures RemoveCommas(Group(s, i)) == s[i..]
    decreases |s| - i
  {
    if i < |s| {
      GroupingIsUndone(s, i + 1);
      var comma := if i > 0 && (|s| - i) % 3 == 0 then "," else "";
      var rest := Group(s, i + 1);
      assert Group(s, i) == (comma + [s[i]]) + rest;
      RemoveCommasConcat(comma + [s[i]], rest);
      assert RemoveCommas(comma + [s[i]]) == [s[i]] by {
        RemoveCommasConcat(comma, [s[i]]);
        RemoveCommasKeeps([s[i]]);
        assert ","[..0] == "";
      }
      assert [s[i]] + s[i + 1..] == s[i..];
    }
  }

  /** A grouped number starts and ends with a digit. */
  lemma {:induction false} GroupedEnds(s: string, i: nat)
    requires AllDigits(s) && i < |s|
    ensures |Group(s, i)| > 0 && IsDigit(Group(s, i)[|Group(s, i)| - 1])
    ensures i == 0 ==> IsDigit(Group(s, i)[0])
    decreases |s| - i
  {
    if i + 1 < |s| {
      GroupedEnds(s, i + 1);
    }
  }

  /** Counted from the right, every fourth character of a grouped number is a comma, and no other. */
  lemma {:induction false} CommaEveryThreeDigits(s: string, i: nat)
    requires AllDigits(s) && i <= |s|
    ensures var text, n := Group(s, i), |s| - i;
      && |text| == n + (if i > 0 then n / 3 else if n > 0 then (n - 1) / 3 else 0)
      && forall p :: 0 <= p < |text| ==> (text[p] == ',' <==> (|text| - p) % 4 == 0)
    decreases |s| - i
  {
    if i < |s| {
      CommaEveryThreeDigits(s, i + 1);
      var comma := if i > 0 && (|s| - i) % 3 == 0 then "," else "";
      var rest := Group(s, i + 1);
      var text := Group(s, i);
      assert text == comma + [s[i]] + rest;
      forall p | 0 <= p < |text|
        ensures text[p] == ',' <==> (|text| - p) % 4 == 0
      {
        if p > |comma| {
          assert text[p] == rest[p - |comma| - 1];
        }
      }
    }
  }

  lemma DigitsAreNotSpaces(c: char)
    requires IsDigit(c) || c == '-' || c == '.'
    ensures !IsSpace(c)
  {
  }

  lemma DotAfter(whole: string, fraction: string, dotted: bool)
    requires AllDigits(whole)
    ensures var t := whole + (if dotted then "." + fraction else "");
      WholePart(t) == whole && FractionPart(t) == if dotted then fraction else ""
  {
    var t := whole + (if dotted then "." + fraction else "");
    assert forall i :: 0 <= i < |whole| ==> t[i] == whole[i];
    if dotted {
      assert t[|whole|] == '.';
      assert t[|whole| + 1..] == fraction;
    }
  }

  /**
   What the price and money parsers take, once trimmed and without its commas: digits, and after a dot
   at least one more and at most `places`; read as the number both spell, and refused as zero.
   */
  lemma DecimalReads(text: string, places: nat, v: nat)
    ensures var t := RemoveCommas(Trim(text));
      var whole, fraction := WholePart(t), FractionPart(t);
      ParseDecimal(text, places) == Some(v) <==>
        && whole != "" && AllDigits(whole) && AllDigits(fraction) && |fraction| <= places
        && ('.' in t ==> fraction != "")
        && v == ToBigInt(whole) * Pow10(places) + ToBigInt(fraction) * Pow10(places - |fraction|) > 0
  {
    var t := RemoveCommas(Trim(text));
    if AllDigits(FractionPart(t)) && |FractionPart(t)| <= places {
      PadEndShifts(FractionPart(t), places);
    }
    if '.' in t {
      var i :| 0 <= i < |t| && t[i] == '.';
      assert DotAt(t) <= i;
    }
  }

  // --- printing, then parsing ------------------------------------------------------------------------

  /** How many places `Parts` prints at a scale of `width` digits. */
  function Shown(places: int, width: nat): nat {
    if places <= 0 then 0 else if places < width then places else width
  }

  /** What the printed digits say: the value less its remainder at the last place shown. */
  function Kept(v: nat, places: int, width: nat): int {
    v - v % Pow10(width - Shown(places, width))
  }

  /** The digits of a fraction as printed. */
  function FractionDigits(frac: nat, places: int, width: nat): string {
    Take(PadStart(ToString(frac), width), Shown(places, width))
  }

  /** The plain decimal behind a printed number: what is left once the commas are gone. */
  function PlainText(whole: nat, frac: nat, width: nat, places: int): string {
    ToString(whole) + (if places > 0 then "." + FractionDigits(frac, places, width) else "")
  }

  lemma GroupedWithTail(digits: string, tail: string)
    requires digits != "" && AllDigits(digits) && ',' !in tail
    ensures RemoveCommas(Group(digits, 0) + tail) == digits + tail
    ensures Group(digits, 0) != "" && IsDigit(Group(digits, 0)[0])
    ensures IsDigit(Group(digits, 0)[|Group(digits, 0)| - 1])
  {
    GroupedEnds(digits, 0);
    GroupingIsUndone(digits, 0);
    RemoveCommasConcat(Group(digits, 0), tail);
    RemoveCommasKeeps(tail);
  }

  /** The fraction as printed: cut from exactly `width` digits. */
  lemma FractionShown(frac: nat, width: nat, places: int)
    requires width > 0 && frac < Pow10(width)
    ensures var digits := PadStart(ToString(frac), width);
      && |digits| == width && AllDigits(digits) && ToBigInt(digits) == frac
      && FractionDigits(frac, places, width) == digits[..Shown(places, width)]
      && (places > 0 ==> Take(digits, places) == FractionDigits(frac, places, width))
  {
    PaddedDigits(frac, width);
  }

  /** The printed text starts and ends with digits, and without its commas is the plain decimal. */
  lemma PrintedText(whole: nat, frac: nat, width: nat, places: int)
    requires width > 0 && frac < Pow10(width)
    ensures var text := PartsOf(whole, frac, Pow10(width), places);
      && |text| > 0 && IsDigit(text[0]) && IsDigit(text[|text| - 1])
      && RemoveCommas(text) == PlainText(whole, frac, width, places)
  {
    ToStringReads(whole);
    ToStringLength(Pow10(width), width);
    FractionShown(frac, width, places);
    var tail := if places > 0 then "." + FractionDigits(frac, places, width) else "";
    GroupedWithTail(ToString(whole), tail);
    assert PartsOf(whole, frac, Pow10(width), places) == Group(ToString(whole), 0) + tail;
  }

  lemma PlainTextParses(whole: nat, frac: nat, width: nat, places: int)
    requires width > 0 && frac < Pow10(width)
    ensures AllDigits(ToString(whole)) && ToBigInt(ToString(whole)) == whole
    ensures var digits := PadStart(ToString(frac), width);
      && AllDigits(digits) && |digits| == width && ToBigInt(digits) == frac
      && ParsePlain(PlainText(whole, frac, width, places), width)
         == Positive(Scaled(ToString(whole), digits[..Shown(places, width)], width))
  {
    ToStringReads(whole);
    FractionShown(frac, width, places);
    DotAfter(ToString(whole), FractionDigits(frac, places, width), places > 0);
  }

  /** A whole number and the first `k` digits of a fraction are the value less its remainder there. */
  lemma ScaledFraction(v: nat, whole: nat, frac: nat, width: nat, front: string, digits: string, k: nat)
    requires AllDigits(front) && ToBigInt(front) == whole
    requires AllDigits(digits) && ToBigInt(digits) == frac && |digits| == width
    requires k <= width && v == whole * Pow10(width) + frac
    ensures Scaled(front, digits[..k], width) == v - v % Pow10(width - k)
  {
    CutAndPad(digits, k);
    RemainderOfFraction(v, whole, frac, width, k);
  }

  lemma PlainDecimalReads(v: nat, whole: nat, frac: nat, width: nat, places: int)
    requires width > 0 && frac < Pow10(width) && v == whole * Pow10(width) + frac
    ensures ParsePlain(PlainText(whole, frac, width, places), width) == Positive(Kept(v, places, width))
  {
    PlainTextParses(whole, frac, width, places);
    ScaledFraction(v, whole, frac, width, ToString(whole), PadStart(ToString(frac), width), Shown(places, width));
  }

  lemma PrintedPartsRead(v: nat, whole: nat, frac: nat, width: nat, places: int)
    requires width > 0 && frac < Pow10(width) && v == whole * Pow10(width) + frac
    ensures ParseDecimal(PartsOf(whole, frac, Pow10(width), places), width)
      == Positive(Kept(v, places, width))
  {
    PrintedText(whole, frac, width, places);
    var text := PartsOf(whole, frac, Pow10(width), places);
    DigitsAreNotSpaces(text[0]);
    DigitsAreNotSpaces(text[|text| - 1]);
    NothingToTrim(text);
    PlainDecimalReads(v, whole, frac, width, places);
  }

  /**
   Printing and then parsing, for every number and every number of places: a positive value comes
   back less its remainder at the last place printed, and everything else (zero, a value printed as
   zero, a negative number) is refused. Padding and grouping leave no trace.
   */
  lemma PrintThenParse(value: int, width: nat, places: int)
    requires width > 0
    ensures ParseDecimal(Parts(value, Pow10(width), places), width)
      == if value > 0 then Positive(Kept(value, places, width)) else None
  {
    var whole, frac := PartsSplit(value, Pow10(width), places);
    if value < 0 {
      PrintedText(whole, frac, width, places);
      var text := PartsOf(whole, frac, Pow10(width), places);
      DigitsAreNotSpaces(text[|text| - 1]);
      NegativeIsRefused(text, width);
    } else {
      PrintedPartsRead(value, whole, frac, width, places);
      NothingKept(places, width);
    }
  }

  lemma NothingKept(places: int, width: nat)
    ensures Kept(0, places, width) == 0
  {
  }

  /** The two parts of a value, as `parts` prints them. */
  lemma PartsSplit(value: int, scale: nat, places: int) returns (whole: nat, frac: nat)
    requires scale > 0
    ensures whole * scale + frac == Abs(value) && frac < scale
    ensures Parts(value, scale, places)
      == if value < 0 then "-" + PartsOf(whole, frac, scale, places) else PartsOf(whole, frac, scale, places)
  {
    whole, frac := Abs(value) / scale, Abs(value) % scale;
    FloorBounds(Abs(value), scale);
  }

  /** A negative number prints as its absolute value does, after a minus sign. */
  lemma NegativePrints(value: int, scale: nat, places: int)
    requires scale > 0
    ensures value < 0 ==> Parts(value, scale, places) == "-" + Parts(-value, scale, places)
  {
    var whole, frac := PartsSplit(value, scale, places);
  }

  lemma NegativeIsRefused(positive: string, width: nat)
    requires positive != "" && !IsSpace(positive[|positive| - 1])
    ensures ParseDecimal("-" + positive, width) == None
  {
    var text := "-" + positive;
    DigitsAreNotSpaces('-');
    NothingToTrim(text);
    RemoveCommasConcat("-", positive);
    RemoveCommasKeeps("-");
    var t := RemoveCommas(text);
    assert t[0] == '-';
    assert WholePart(t) != "" ==> WholePart(t)[0] == '-';
  }

  lemma EverythingKept(v: nat, width: nat)
    ensures Kept(v, width, width) == v
  {
    assert Pow10(0) == 1;
  }

  /** A price printed to all nine places reads back as itself, and so does an amount printed to six. */
  lemma FullPrecisionRoundTrips(v: nat)
    requires v > 0
    ensures ParsePrice(FmtPrice(v, 9)) == Some(v)
    ensures ParseUsdc(FmtUsd(v, 6)) == Some(v)
  {
    Scales();
    PrintThenParse(v, 9, 9);
    PrintThenParse(v, 6, 6);
    EverythingKept(v, 9);
    EverythingKept(v, 6);
  }

  /** The stop the desk carries across when it switches to a typed price, commas removed. */
  lemma CarriedStopIsUnmoved(stop: nat)
    requires stop > 0
    ensures ParsePrice(RemoveCommas(FmtPrice(stop, 9))) == Some(stop)
  {
    Scales();
    var whole, frac := PartsSplit(stop, Pow10(9), 9);
    UngroupedParses(stop, whole, frac, 9, 9);
    EverythingKept(stop, 9);
  }

  /** Without its separators the printed number is read just the same. */
  lemma UngroupedParses(v: nat, whole: nat, frac: nat, width: nat, places: int)
    requires width > 0 && frac < Pow10(width) && v == whole * Pow10(width) + frac
    ensures ParseDecimal(RemoveCommas(PartsOf(whole, frac, Pow10(width), places)), width)
      == Positive(Kept(v, places, width))
  {
    var text := PartsOf(whole, frac, Pow10(width), places);
    PrintedText(whole, frac, width, places);
    var bare := RemoveCommas(text);
    PlainEnds(whole, frac, width, places);
    NothingToTrim(bare);
    NoCommasLeft(text);
    RemoveCommasKeeps(bare);
    PlainDecimalReads(v, whole, frac, width, places);
  }

  lemma PlainEnds(whole: nat, frac: nat, width: nat, places: int)
    requires width > 0 && frac < Pow10(width)
    ensures var t := PlainText(whole, frac, width, places);
      t != "" && !IsSpace(t[0]) && !IsSpace(t[|t| - 1])
  {
    var t := PlainText(whole, frac, width, places);
    ToStringReads(whole);
    FractionShown(frac, width, places);
    DigitsAreNotSpaces(t[0]);
    DigitsAreNotSpaces(t[|t| - 1]);
  }

  // --- sizes in lots ---------------------------------------------------------------------------------

  datatype SizingError = NothingGiven | Negative | NotDecimal | TooFine | Zero | RoundsToZero

  function ToTenThousandths(text: string): Result<nat, SizingError> {
    var t := Trim(text);
    if t == "" then Err(NothingGiven)
    else if t[0] == '-' then Err(Negative)
    else if !AllDigits(WholePart(t)) || !AllDigits(FractionPart(t)) then Err(NotDecimal)
    else if |FractionPart(t)| > 4 then Err(TooFine)
    else
      var ten := Scaled(WholePart(t), FractionPart(t), 4);
      if ten == 0 then Err(Zero) else Ok(ten)
  }

  function LotsToBase(lots: string, unitsPerLot: nat): Result<nat, SizingError> {
    var ten :- ToTenThousandths(lots);
    WholeLots(unitsPerLot, ten);
    var base := Quot(unitsPerLot * BASE_PRECISION * ten, 10_000);
    if base == 0 then Err(RoundsToZero) else Ok(base)
  }

  lemma NoSignAmongDigits(t: string)
    requires t != "" && t[0] == '-'
    ensures !AllDigits(WholePart(t))
  {
    assert WholePart(t)[0] == '-';
  }

  /** The refusals of a size, in their order: blank, signed, not a decimal, too fine. */
  lemma SizeRefusals(text: string)
    ensures var t := Trim(text);
      var decimal := AllDigits(WholePart(t)) && AllDigits(FractionPart(t));
      && (ToTenThousandths(text) == Err(NothingGiven) <==> forall c <- text :: IsSpace(c))
      && (ToTenThousandths(text) == Err(Negative) <==> t != "" && t[0] == '-')
      && (ToTenThousandths(text) == Err(NotDecimal) <==> t != "" && t[0] != '-' && !decimal)
      && (ToTenThousandths(text) == Err(TooFine) <==> t != "" && decimal && |FractionPart(t)| > 4)
  {
    BlankIffAllSpaces(text);
    if Trim(text) != "" && Trim(text)[0] == '-' {
      NoSignAmongDigits(Trim(text));
    }
  }

  /** Any other size is the number its two parts spell, an empty one spelling nothing, and refused only as zero. */
  lemma SizeValue(text: string, whole: string, fraction: string)
    requires Trim(text) != "" && WholePart(Trim(text)) == whole && FractionPart(Trim(text)) == fraction
    requires AllDigits(whole) && AllDigits(fraction) && |fraction| <= 4
    ensures var ten := ToBigInt(whole) * 10_000 + ToBigInt(fraction) * Pow10(4 - |fraction|);
      ToTenThousandths(text) == if ten == 0 then Err(Zero) else Ok(ten)
    ensures ToBigInt("") == 0
  {
    Scales();
    PadEndShifts(fraction, 4);
    if Trim(text)[0] == '-' {
      NoSignAmongDigits(Trim(text));
    }
  }

  lemma DottedParts(whole: string, fraction: string)
    requires AllDigits(whole) && AllDigits(fraction)
    ensures var text := whole + ("." + fraction);
      Trim(text) == text && WholePart(text) == whole && FractionPart(text) == fraction
  {
    var text := whole + ("." + fraction);
    DigitsAreNotSpaces(text[0]);
    DigitsAreNotSpaces(text[|text| - 1]);
    NothingToTrim(text);
    DotAfter(whole, fraction, true);
  }

  lemma SizeIs(text: string, whole: string, fraction: string, ten: nat)
    requires Trim(text) != "" && WholePart(Trim(text)) == whole && FractionPart(Trim(text)) == fraction
    requires AllDigits(whole) && AllDigits(fraction) && |fraction| <= 4
    requires ten == ToBigInt(whole) * 10_000 + ToBigInt(fraction) * Pow10(4 - |fraction|) > 0
    ensures ToTenThousandths(text) == Ok(ten)
  {
    SizeValue(text, whole, fraction);
  }

  /** A size with a bare leading dot reads as one with a zero before it. */
  lemma BareLeadingDot(digits: string)
    requires AllDigits(digits) && |digits| <= 4 && ToBigInt(digits) > 0
    ensures ToTenThousandths("" + ("." + digits)) == Ok(ToBigInt(digits) * Pow10(4 - |digits|))
  {
    DottedParts("", digits);
    MulMono(1, ToBigInt(digits), Pow10(4 - |digits|));
    SizeIs("" + ("." + digits), "", digits, ToBigInt(digits) * Pow10(4 - |digits|));
  }

  /** And one with a bare trailing dot as a whole number. */
  lemma BareTrailingDot(digits: string)
    requires AllDigits(digits) && ToBigInt(digits) > 0
    ensures ToTenThousandths(digits + ("." + "")) == Ok(ToBigInt(digits) * 10_000)
  {
    DottedParts(digits, "");
    SizeIs(digits + ("." + ""), digits, "", ToBigInt(digits) * 10_000);
  }

  /** A thousands separator is refused. */
  lemma CommaIsRefused(text: string)
    requires ',' in Trim(text)
    ensures ToTenThousandths(text) == Err(if Trim(text)[0] == '-' then Negative else NotDecimal)
  {
    CommaInAPart(Trim(text));
  }

  /** A comma is in the whole part or in the fraction. */
  lemma CommaInAPart(t: string)
    requires ',' in t
    ensures !AllDigits(WholePart(t)) || !AllDigits(FractionPart(t))
  {
    var i :| 0 <= i < |t| && t[i] == ',';
    if i < DotAt(t) {
      assert WholePart(t)[i] == ',';
    } else {
      assert FractionPart(t)[i - DotAt(t) - 1] == ',';
    }
  }

  /**
   The size parser reads what the money parser reads, to the same value, and more: it also takes a
   bare leading or trailing dot. What it does not take is a thousands separator.
   */
  lemma SizeParserAgrees(text: string, v: nat)
    requires ',' !in text
    ensures ParseDecimal(text, 4) == Some(v) <==>
      && ToTenThousandths(text) == Ok(v)
      && WholePart(Trim(text)) != ""
      && (DotAt(Trim(text)) < |Trim(text)| ==> FractionPart(Trim(text)) != "")
  {
    TrimKeepsCharacters(text);
    RemoveCommasKeeps(Trim(text));
    var t := Trim(text);
    if t != "" && t[0] == '-' {
      assert WholePart(t)[0] == '-';
    }
  }

  /** A size in lots converts without rounding, so a lot of at least one unit never rounds to zero. */
  lemma LotsConvertExactly(lots: string, unitsPerLot: nat)
    requires unitsPerLot > 0
    ensures LotsToBase(lots, unitsPerLot).Ok? <==> ToTenThousandths(lots).Ok?
    ensures LotsToBase(lots, unitsPerLot).Ok? ==>
      LotsToBase(lots, unitsPerLot).value == unitsPerLot * 100_000 * ToTenThousandths(lots).value
  {
    if ToTenThousandths(lots).Ok? {
      WholeLots(unitsPerLot, ToTenThousandths(lots).value);
    }
  }

  lemma WholeLots(units: nat, ten: nat)
    ensures Quot(units * BASE_PRECISION * ten, 10_000) == units * 100_000 * ten >= 0
    ensures units > 0 && ten > 0 ==> units * 100_000 * ten > 0
  {
    var exact := units * 100_000 * ten;
    MulMono(0, ten, units * 100_000);
    if units > 0 && ten > 0 {
      MulMono(1, ten, units * 100_000);
    }
    assert units * BASE_PRECISION * ten == exact * 10_000;
  }
}
