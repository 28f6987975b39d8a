/** What the sync service does with one source row: the approval test, the
    row's signature, and the nine-cell destination row with its date cell. */
module Rows {
  import opened Text
  import opened Calendar

  type Row = seq<string>

  /** The approval status that makes a row eligible for copying. */
  const ApprovalToken: string := "одобрена"

  const SignatureColumn: nat := 1
  const StatusColumn: nat := 4
  const DateColumn: nat := 5

  /** Source columns of destination cells 0..7; cell 8 comes from DateColumn. */
  const CopiedColumns: seq<nat> := [1, 2, 9, 3, 7, 11, 12, 13]

  /** A row shorter than this cannot be projected: its cell 13 is missing. */
  const ProjectedWidth: nat := 14

  /** `not any(row)`: no cell of the row holds any text. */
  predicate IsBlank(row: Row) {
    forall k :: 0 <= k < |row| ==> |row[k]| == 0
  }

  /** The status cell exists and, stripped and lower-cased, is the token. */
  predicate IsApproved(row: Row) {
    |row| > StatusColumn && Lower(Strip(row[StatusColumn])) == ApprovalToken
  }

  /** create_row_signature: the row's key is its cell 1. */
  function Signature(row: Row): string
    requires |row| > SignatureColumn
  {
    row[SignatureColumn]
  }

  /** The key looks at cell 1 only: editing any other cell, the status cell
      included, keeps it. */
  lemma SignatureIgnoresOtherCells(row: Row, k: nat, v: string)
    requires |row| > SignatureColumn && k < |row| && k != SignatureColumn
    ensures Signature(row[k := v]) == Signature(row)
  {
  }

  lemma UpperCaseApproved(row: Row)
    requires row == ["1", "A-17", "x", "y", "ОДОБРЕНА"]
    ensures IsApproved(row)
  {
    var c := row[StatusColumn];
    assert !IsSpace(c[0]) && !IsSpace(c[|c| - 1]);
    StripUnchanged(c);
    LowerPointwise(c);
    assert Lower(c) == ApprovalToken;
  }

  lemma StatusRequired(row: Row)
    requires row == ["1", "A-17", "x", "y"]
    ensures !IsApproved(row)
  {
  }

  lemma RejectedStatus(row: Row)
    requires row == ["1", "A-17", "x", "y", "отклонена"]
    ensures !IsApproved(row)
  {
    var c := row[StatusColumn];
    assert !IsSpace(c[0]) && !IsSpace(c[|c| - 1]);
    StripUnchanged(c);
    LowerPointwise(c);
    assert Lower(c)[1] != ApprovalToken[1];
  }

  // ---- the date cell ----

  /** s.replace('.', '') */
  function RemoveDots(s: string): string {
    if s == [] then []
    else (if s[0] == '.' then [] else [s[0]]) + RemoveDots(s[1..])
  }

  function CountDots(s: string): nat {
    if s == [] then 0 else (if s[0] == '.' then 1 else 0) + CountDots(s[1..])
  }

  predicate NoDots(s: string) {
    forall k :: 0 <= k < |s| ==> s[k] != '.'
  }

  /** `s.replace('.', '').isdigit()`, for ASCII digits: at least one digit,
      and nothing but digits once the dots are gone. */
  predicate IsDottedDigits(s: string) {
    RemoveDots(s) != [] && AllDigits(RemoveDots(s))
  }

  /** Whether float(s) accepts a dotted-digit string: at most one dot. */
  predicate IsDecimalNumeral(s: string) {
    IsDottedDigits(s) && CountDots(s) <= 1
  }

  /** The index of the first dot of s, or |s| when there is none. */
  function DotIndex(s: string): (i: nat)
    ensures i <= |s| && NoDots(s[..i]) && (i < |s| ==> s[i] == '.')
  {
    if s == [] || s[0] == '.' then 0
    else
      var i := 1 + DotIndex(s[1..]);
      assert s[..i] == [s[0]] + s[1..][..i - 1];
      i
  }

  function IntegerDigits(s: string): string {
    s[..DotIndex(s)]
  }

  function FractionDigits(s: string): string {
    if DotIndex(s) < |s| then s[DotIndex(s) + 1..] else []
  }

  lemma {:induction false} RemoveDotsConcat(a: string, b: string)
    ensures RemoveDots(a + b) == RemoveDots(a) + RemoveDots(b)
  {
    if a == [] {
      assert a + b == b;
    } else {
      assert (a + b)[0] == a[0] && (a + b)[1..] == a[1..] + b;
      RemoveDotsConcat(a[1..], b);
    }
  }

  lemma {:induction false} CountDotsConcat(a: string, b: string)
    ensures CountDots(a + b) == CountDots(a) + CountDots(b)
  {
    if a == [] {
      assert a + b == b;
    } else {
      assert (a + b)[0] == a[0] && (a + b)[1..] == a[1..] + b;
      CountDotsConcat(a[1..], b);
    }
  }

  lemma {:induction false} RemoveDotsOfNoDots(s: string)
    requires NoDots(s)
    ensures RemoveDots(s) == s && CountDots(s) == 0
  {
    if s != [] {
      RemoveDotsOfNoDots(s[1..]);
    }
  }

  lemma {:induction false} NoDotsOfZeroCount(s: string)
    requires CountDots(s) == 0
    ensures NoDots(s)
  {
    if s != [] {
      NoDotsOfZeroCount(s[1..]);
      forall k | 0 <= k < |s| ensures s[k] != '.' {
        if k > 0 {
          assert s[k] == s[1..][k - 1];
        }
      }
    }
  }

  /** Removing the dots of a numeral leaves its integer digits followed by
      its fraction digits. */
  lemma DotThenRest(rest: string)
    ensures RemoveDots(['.'] + rest) == RemoveDots(rest)
    ensures CountDots(['.'] + rest) == 1 + CountDots(rest)
  {
    assert (['.'] + rest)[1..] == rest;
  }

  lemma {:induction false} NumeralWithoutDots(s: string)
    requires CountDots(s) <= 1
    ensures RemoveDots(s) == IntegerDigits(s) + FractionDigits(s)
  {
    var i := DotIndex(s);
    var whole := s[..i];
    RemoveDotsOfNoDots(whole);
    if i < |s| {
      var rest := s[i + 1..];
      var tail := ['.'] + rest;
      assert s == whole + tail;
      RemoveDotsConcat(whole, tail);
      CountDotsConcat(whole, tail);
      DotThenRest(rest);
      NoDotsOfZeroCount(rest);
      RemoveDotsOfNoDots(rest);
      assert RemoveDots(s) == whole + rest;
    } else {
      assert s == whole;
    }
  }

  /** A decimal numeral is its integer digits, then possibly a dot and its
      fraction digits, both parts made of digits only. */
  lemma DecimalNumeralParts(s: string)
    requires IsDecimalNumeral(s)
    ensures RemoveDots(s) == IntegerDigits(s) + FractionDigits(s)
    ensures AllDigits(IntegerDigits(s)) && AllDigits(FractionDigits(s))
  {
    NumeralWithoutDots(s);
    var whole, frac := IntegerDigits(s), FractionDigits(s);
    var t := RemoveDots(s);
    forall k | 0 <= k < |whole| ensures IsDigit(whole[k]) {
      assert whole[k] == t[k];
    }
    forall k | 0 <= k < |frac| ensures IsDigit(frac[k]) {
      assert frac[k] == t[|whole| + k];
    }
  }

  /** The exact number a decimal numeral denotes: its digits read as an
      integer, divided by ten for each digit after the dot. */
  function NumeralValue(s: string): real
    requires IsDecimalNumeral(s)
  {
    Decimal(RemoveDots(s)) as real / Pow10(|FractionDigits(s)|) as real
  }

  predicate HasNonzeroDigit(s: string) {
    exists k :: 0 <= k < |s| && s[k] != '0'
  }

  lemma MulAddTen(x: nat, p: nat, y: nat)
    ensures (x * p + y) * 10 == x * (p * 10) + y * 10
  {
  }

  lemma {:induction false} DecimalConcat(a: string, b: string)
    requires AllDigits(a) && AllDigits(b)
    ensures AllDigits(a + b)
    ensures Decimal(a + b) == Decimal(a) * Pow10(|b|) + Decimal(b)
    decreases |b|
  {
    if b == [] {
      assert a + b == a;
    } else {
      var b' := b[..|b| - 1];
      var d := DigitValue(b[|b| - 1]);
      assert (a + b)[..|a + b| - 1] == a + b';
      assert (a + b)[|a + b| - 1] == b[|b| - 1];
      DecimalConcat(a, b');
      calc {
        Decimal(a + b);
        Decimal(a + b') * 10 + d;
        (Decimal(a) * Pow10(|b'|) + Decimal(b')) * 10 + d;
        { MulAddTen(Decimal(a), Pow10(|b'|), Decimal(b')); }
        Decimal(a) * (Pow10(|b'|) * 10) + (Decimal(b') * 10 + d);
      }
    }
  }

  lemma {:induction false} DecimalBounds(s: string)
    requires AllDigits(s)
    ensures Decimal(s) < Pow10(|s|)
    ensures Decimal(s) > 0 <==> HasNonzeroDigit(s)
  {
    if s != [] {
      var s' := s[..|s| - 1];
      DecimalBounds(s');
      if HasNonzeroDigit(s') {
        var k :| 0 <= k < |s'| && s'[k] != '0';
        assert s[k] != '0';
      }
      if HasNonzeroDigit(s) && s[|s| - 1] == '0' {
        var k :| 0 <= k < |s| && s[k] != '0';
        assert s'[k] != '0';
      }
    }
  }

  /** (x * p + y) / p for 0 <= y < p has floor x and exceeds x exactly
      when y is positive. */
  lemma MixedQuotient(x: nat, y: nat, p: nat)
    requires y < p
    ensures ((x * p + y) as real / p as real).Floor == x
    ensures (x * p + y) as real / p as real > x as real <==> y > 0
  {
    var q := (x * p + y) as real / p as real;
    var r := y as real / p as real;
    assert (x * p + y) as real == x as real * p as real + y as real;
    assert q == x as real + r;
    assert 0.0 <= r < 1.0;
    assert r > 0.0 <==> y > 0;
  }

  /** Floor and fraction of a numeral's value: the floor is its integer
      digits, and the value exceeds the floor exactly when a fraction digit
      is not zero. */
  lemma NumeralValueParts(s: string)
    requires IsDecimalNumeral(s)
    ensures AllDigits(IntegerDigits(s))
    ensures NumeralValue(s).Floor == Decimal(IntegerDigits(s))
    ensures NumeralValue(s) > Decimal(IntegerDigits(s)) as real <==> HasNonzeroDigit(FractionDigits(s))
  {
    DecimalNumeralParts(s);
    var whole, frac := IntegerDigits(s), FractionDigits(s);
    DecimalConcat(whole, frac);
    DecimalBounds(frac);
    MixedQuotient(Decimal(whole), Decimal(frac), Pow10(|frac|));
  }

  /** The serial-date rule: a dotted-digit cell that float() accepts and
      whose value lies strictly between 10000 and 50000. */
  predicate IsSerialDateCell(raw: string) {
    IsDecimalNumeral(raw) && 10000.0 < NumeralValue(raw) < 50000.0
  }

  const SerialLow: nat := 10000
  const SerialHigh: nat := 50000

  /** Destination cell 8: the cell's date in DD.MM.YYYY when it holds a
      plausible serial number, and the cell verbatim otherwise. */
  function DateCell(raw: string): string {
    if !IsDottedDigits(raw) || CountDots(raw) > 1 then raw
    else
      DecimalNumeralParts(raw);
      var whole := Decimal(IntegerDigits(raw));
      var inRange :=
        (SerialLow < whole || (whole == SerialLow && HasNonzeroDigit(FractionDigits(raw))))
        && whole < SerialHigh;
      if inRange then
        SerialYearBound(whole);
        ConvertSerialDate(whole).value
      else raw
  }

  /** A serial-date cell becomes the date of the integer part of its
      value; every other cell is copied as it is. */
  lemma DateCellMeans(raw: string)
    ensures IsSerialDateCell(raw) ==>
              NumeralValue(raw).Floor >= 0 &&
              Some(DateCell(raw)) == ConvertSerialDate(NumeralValue(raw).Floor)
    ensures !IsSerialDateCell(raw) ==> DateCell(raw) == raw
  {
    if IsDecimalNumeral(raw) {
      NumeralValueParts(raw);
      var whole := Decimal(IntegerDigits(raw));
      if SerialLow < whole < SerialHigh || (whole == SerialLow && HasNonzeroDigit(FractionDigits(raw))) {
        SerialYearBound(whole);
      }
    }
  }

  lemma {:induction false} DotIndexAfterDigits(w: string, t: string)
    requires NoDots(w) && (t != [] ==> t[0] == '.')
    ensures DotIndex(w + t) == |w|
  {
    if w == [] {
      assert w + t == t;
    } else {
      assert (w + t)[1..] == w[1..] + t;
      DotIndexAfterDigits(w[1..], t);
    }
  }

  lemma DigitsHaveNoDots(s: string)
    requires AllDigits(s)
    ensures NoDots(s)
  {
    forall k | 0 <= k < |s| ensures s[k] != '.' {
      assert IsDigit(s[k]);
    }
  }

  /** A numeral without a dot denotes its digits read as an integer. */
  lemma WholeNumeral(w: string)
    requires w != [] && AllDigits(w)
    ensures IsDecimalNumeral(w) && NumeralValue(w) == Decimal(w) as real
  {
    DigitsHaveNoDots(w);
    RemoveDotsOfNoDots(w);
    DotIndexAfterDigits(w, []);
    assert w + [] == w;
    assert FractionDigits(w) == [];
    assert Pow10(0) as real == 1.0;
  }

  lemma DottedNumeralShape(w: string, f: string)
    requires AllDigits(w) && AllDigits(f)
    ensures RemoveDots(w + ['.'] + f) == w + f
    ensures CountDots(w + ['.'] + f) == 1
    ensures FractionDigits(w + ['.'] + f) == f
  {
    var s := w + ['.'] + f;
    DigitsHaveNoDots(w);
    DigitsHaveNoDots(f);
    assert s == w + (['.'] + f);
    DotIndexAfterDigits(w, ['.'] + f);
    RemoveDotsConcat(w, ['.'] + f);
    CountDotsConcat(w, ['.'] + f);
    DotThenRest(f);
    RemoveDotsOfNoDots(w);
    RemoveDotsOfNoDots(f);
    assert s[|w| + 1..] == f;
  }

  /** w.f denotes the digits w f read as an integer, over 10^|f|. */
  lemma DottedNumeral(w: string, f: string)
    requires AllDigits(w) && AllDigits(f) && w + f != []
    ensures IsDecimalNumeral(w + ['.'] + f)
    ensures NumeralValue(w + ['.'] + f) == Decimal(w + f) as real / Pow10(|f|) as real
  {
    DottedNumeralShape(w, f);
    assert AllDigits(w + f);
  }

  /** A cell holding the number x written in `width` digits. */
  lemma WholeNumeralCell(x: nat, width: nat)
    requires 0 < width && x < Pow10(width)
    ensures 10000 < x < 50000 ==> Some(DateCell(Padded(x, width))) == ConvertSerialDate(x)
    ensures !(10000 < x < 50000) ==> DateCell(Padded(x, width)) == Padded(x, width)
  {
    WholeNumeral(Padded(x, width));
    DateCellMeans(Padded(x, width));
  }

  lemma DateCellSerialExample(raw: string)
    requires raw == "45000"
    ensures DateCell(raw) == "15.03.2023"
  {
    assert raw == Padded(45000, 5);
    WholeNumeralCell(45000, 5);
    ConvertExample();
  }

  /** The floor and fraction of w.f read off its two digit strings. */
  lemma DottedNumeralParts(w: string, f: string)
    requires w != [] && AllDigits(w) && AllDigits(f)
    ensures IsDecimalNumeral(w + ['.'] + f)
    ensures NumeralValue(w + ['.'] + f).Floor == Decimal(w)
    ensures NumeralValue(w + ['.'] + f) > Decimal(w) as real <==> HasNonzeroDigit(f)
  {
    var s := w + ['.'] + f;
    DottedNumeral(w, f);
    DottedNumeralShape(w, f);
    DigitsHaveNoDots(w);
    DotIndexAfterDigits(w, ['.'] + f);
    assert s == w + (['.'] + f);
    assert IntegerDigits(s) == w;
    NumeralValueParts(s);
  }

  /** float() keeps the fraction, but the rule only looks at the integer
      part: away from the lower bound, digits after the dot change nothing. */
  lemma FractionIgnored(w: string, f: string)
    requires w != [] && AllDigits(w) && AllDigits(f) && Decimal(w) != 10000
    ensures DateCell(w + ['.'] + f) == if 10000 < Decimal(w) < 50000 then DateCell(w) else w + ['.'] + f
  {
    DottedNumeralParts(w, f);
    WholeNumeral(w);
    DateCellMeans(w + ['.'] + f);
    DateCellMeans(w);
  }

  /** At the lower bound the fraction decides: 10000 stays, 10000.5 is the
      date of serial 10000. */
  lemma FractionAtLowerBound(w: string, f: string)
    requires w != [] && AllDigits(w) && AllDigits(f) && Decimal(w) == 10000
    ensures HasNonzeroDigit(f) ==> Some(DateCell(w + ['.'] + f)) == ConvertSerialDate(10000)
    ensures !HasNonzeroDigit(f) ==> DateCell(w + ['.'] + f) == w + ['.'] + f
  {
    DottedNumeralParts(w, f);
    DateCellMeans(w + ['.'] + f);
  }

  /** Serial 5 is below the range and stays as written. */
  lemma DateCellBelowRangeExample(raw: string)
    requires raw == "5"
    ensures DateCell(raw) == raw
  {
    assert raw == Padded(5, 1);
    WholeNumeralCell(5, 1);
  }

  /** The bounds are strict: 10000 stays as written. */
  lemma DateCellLowerBoundExample(raw: string)
    requires raw == "10000"
    ensures DateCell(raw) == raw
  {
    assert raw == Padded(10000, 5);
    WholeNumeralCell(10000, 5);
  }

  /** Serial 99999 is above the range and stays as written. */
  lemma DateCellAboveRangeExample(raw: string)
    requires raw == "99999"
    ensures DateCell(raw) == raw
  {
    assert raw == Padded(99999, 5);
    WholeNumeralCell(99999, 5);
  }

  /** A date already written out has two dots and is copied as it is. */
  lemma DateCellFormattedExample(raw: string)
    requires raw == "15.03.2023"
    ensures DateCell(raw) == raw
  {
    assert CountDots("15.03.2023") == 2;
  }

  /** Text that is not a number is copied as it is, and so is an empty cell. */
  lemma DateCellTextExample(raw: string)
    requires raw == "" || raw == "n/a"
    ensures DateCell(raw) == raw
  {
    assert RemoveDots("") == [];
    assert !IsDigit('n');
    assert RemoveDots("n/a")[0] == 'n';
  }

  /** The nine-cell row written to the destination sheet. */
  function DestinationRow(row: Row): (out: Row)
    requires |row| >= ProjectedWidth
    ensures |out| == |CopiedColumns| + 1
    ensures forall k :: 0 <= k < |CopiedColumns| ==> out[k] == row[CopiedColumns[k]]
    ensures out[|CopiedColumns|] == DateCell(row[DateColumn])
  {
    [row[1], row[2], row[9], row[3], row[7], row[11], row[12], row[13], DateCell(row[5])]
  }
}
