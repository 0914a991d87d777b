/** Row labels of the aggregate table (`AGGREGATE_LABELS` and the fallback
    `AGGREGATE_LABELS[i] || `${i}``). */
module Labels {

  /** The fixed English label of each aggregate code. */
  const AggregateLabels: map<int, string> := map[
    50 := "Number of Shareholders",
    51 := "Number of Unit Shareholders",
    52 := "Shares Issued",
    53 := "Foreigners",
    54 := "Major Shareholders",
    55 := "Floating Shares",
    56 := "Investment Trusts",
    57 := "Pension Trusts",
    58 := "Employee Stock Ownership Plan",
    59 := "Officers",
    60 := "Top 10 Shareholders",
    61 := "Treasury Stock"
  ]

  predicate IsDigit(c: char) {
    '0' <= c <= '9'
  }

  function DigitChar(d: int): (c: char)
    requires 0 <= d < 10
    ensures IsDigit(c) && c as int - '0' as int == d
  {
    ('0' as int + d) as char
  }

  /** The decimal digits of `n`, most significant first, without leading
      zeros. */
  function Digits(n: nat): (s: string)
    ensures |s| > 0
    ensures forall i :: 0 <= i < |s| ==> IsDigit(s[i])
    ensures n > 0 ==> s[0] != '0'
    ensures |s| > 1 ==> s[0] != '0'
    decreases n
  {
    if n < 10 then [DigitChar(n)] else Digits(n / 10) + [DigitChar(n % 10)]
  }

  /** The number a string of decimal digits denotes. */
  function DigitsValue(s: string): (v: int)
    requires forall i :: 0 <= i < |s| ==> IsDigit(s[i])
    ensures v >= 0
  {
    if |s| == 0 then 0
    else
      assert IsDigit(s[|s| - 1]);
      DigitsValue(s[..|s| - 1]) * 10 + (s[|s| - 1] as int - '0' as int)
  }

  /** The canonical decimal form of an integer: an optional minus sign, then
      at least one digit, no leading zero unless the number is 0, and no
      "-0". */
  predicate IsDecimal(s: string) {
    var b := if |s| > 0 && s[0] == '-' then 1 else 0;
    && |s| > b
    && (forall k :: b <= k < |s| ==> IsDigit(s[k]))
    && (|s| > b + 1 ==> s[b] != '0')
    && s != "-0"
  }

  /** `${i}`: JavaScript's decimal rendering of an integer, for |i| < 10²¹
      (larger magnitudes print in exponent form, which no label reaches).
      It loses nothing: the string reads back as the same integer. */
  function Decimal(i: int): (s: string)
    ensures |s| > 0
    ensures s[0] == '-' <==> i < 0
    ensures ParseDecimal(s) == i
    ensures IsDecimal(s)
  {
    if i < 0 then
      var s := "-" + Digits(-i);
      DigitsRoundTrip(-i);
      assert s[1..] == Digits(-i);
      s
    else
      DigitsRoundTrip(i);
      Digits(i)
  }

  /** Reads back a string produced by `Decimal`. */
  function ParseDecimal(s: string): int {
    if |s| > 0 && s[0] == '-' && forall i :: 1 <= i < |s| ==> IsDigit(s[i]) then
      -DigitsValue(s[1..])
    else if forall i :: 0 <= i < |s| ==> IsDigit(s[i]) then
      DigitsValue(s)
    else 0
  }

  lemma {:induction false} DigitsRoundTrip(n: nat)
    ensures DigitsValue(Digits(n)) == n
    decreases n
  {
    if n >= 10 {
      var s := Digits(n);
      DigitsRoundTrip(n / 10);
      assert s[..|s| - 1] == Digits(n / 10);
    }
  }

  /** A digit string without a leading zero has a positive value. */
  lemma {:induction false} DigitsPositive(s: string)
    requires |s| > 0 && s[0] != '0'
    requires forall i :: 0 <= i < |s| ==> IsDigit(s[i])
    ensures DigitsValue(s) > 0
    decreases |s|
  {
    if |s| > 1 {
      var p := s[..|s| - 1];
      assert p[0] == s[0];
      DigitsPositive(p);
    }
  }

  /** A non-empty digit string without a leading zero is the rendering of
      its own value. */
  lemma {:induction false} DigitsCanonical(s: string)
    requires |s| > 0 && (|s| > 1 ==> s[0] != '0')
    requires forall i :: 0 <= i < |s| ==> IsDigit(s[i])
    ensures Digits(DigitsValue(s)) == s
    decreases |s|
  {
    if |s| > 1 {
      var p := s[..|s| - 1];
      var d := s[|s| - 1] as int - '0' as int;
      assert p[0] == s[0];
      DigitsPositive(p);
      DigitsCanonical(p);
      var n := DigitsValue(s);
      assert n / 10 == DigitsValue(p) && n % 10 == d;
      assert DigitChar(d) == s[|s| - 1];
      assert s == p + [s[|s| - 1]];
    } else {
      assert s[..0] == [] && IsDigit(s[0]);
      assert DigitsValue(s) == DigitsValue(s[..0]) * 10 + (s[0] as int - '0' as int);
      assert DigitChar(DigitsValue(s)) == s[0];
    }
  }

  /** The canonical form is unique: a canonical decimal string is exactly
      the rendering of the integer it denotes, so `Decimal`'s contract
      determines its result. */
  lemma DecimalCanonical(s: string)
    requires IsDecimal(s)
    ensures Decimal(ParseDecimal(s)) == s
  {
    if s[0] == '-' {
      var t := s[1..];
      assert |t| == 1 ==> s == ['-', t[0]];
      DigitsPositive(t);
      DigitsCanonical(t);
      assert s == "-" + t;
    } else {
      DigitsCanonical(s);
    }
  }

  /** The label of an aggregate row: its fixed name when it has a non-empty
      one, otherwise the code in decimal. */
  function Label(i: int): (s: string)
    ensures |s| > 0
    ensures i in AggregateLabels ==> s == AggregateLabels[i]
    ensures i !in AggregateLabels ==> ParseDecimal(s) == i && IsDecimal(s)
  {
    if i in AggregateLabels && |AggregateLabels[i]| > 0 then AggregateLabels[i] else Decimal(i)
  }

  /** Every aggregate code 50..61 has its fixed name, so the numeric fallback
      is reached only for codes outside that range, and there the label reads
      back as the code, in canonical form. */
  lemma LabelCases(i: int)
    ensures 50 <= i <= 61 ==> i in AggregateLabels && Label(i) == AggregateLabels[i]
    ensures !(50 <= i <= 61) ==> ParseDecimal(Label(i)) == i && IsDecimal(Label(i))
  {
  }

  /** The label table covers exactly the aggregate codes 50..61, each with a
      non-empty name. */
  lemma AggregateLabelsCover()
    ensures forall i :: i in AggregateLabels <==> 50 <= i <= 61
    ensures forall i :: i in AggregateLabels ==> |AggregateLabels[i]| > 0
  {
  }
}
