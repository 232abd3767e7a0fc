/** Integer-to-text conversions used in the report cells.

    `Decimal` and `IntText` model Python's `str(n)` on an int, and
    `GroupThousands` / `FormatInt` model the `,` format specifier
    (`f"{n:,}"`): the decimal numeral with a comma before every group of
    three digits counted from the right.  The `Unformat*` functions are
    the partners: they read a formatted cell back into the integer. */
module NumberFormat {
  import opened Wrappers

  const DIGITS: string := "0123456789"

  predicate IsDigit(c: char) {
    '0' <= c <= '9'
  }

  predicate AllDigits(s: string) {
    forall i :: 0 <= i < |s| ==> IsDigit(s[i])
  }

  function DigitChar(d: nat): (c: char)
    requires d < 10
    ensures IsDigit(c)
  {
    DIGITS[d]
  }

  function DigitValue(c: char): (d: nat)
    requires IsDigit(c)
    ensures d < 10
  {
    (c - '0') as nat
  }

  /** Python's `str(n)` for a non-negative int: no sign, no leading zero. */
  function Decimal(n: nat): (s: string)
    ensures 1 <= |s|
    ensures AllDigits(s)
    ensures s[0] == '0' ==> n == 0
    decreases n
  {
    if n < 10 then [DigitChar(n)] else Decimal(n / 10) + [DigitChar(n % 10)]
  }

  /** Reads a numeral back, most significant digit first. */
  function ParseDigits(s: string): nat
    requires AllDigits(s)
    decreases |s|
  {
    if |s| == 0 then 0
    else 10 * ParseDigits(s[..|s| - 1]) + DigitValue(s[|s| - 1])
  }

  /** Python's `str(n)` for any int. */
  function IntText(n: int): (s: string)
    ensures |s| >= 1 && (s[0] == '-' <==> n < 0)
  {
    if n < 0 then "-" + Decimal(-n) else Decimal(n)
  }

  /** Partner of `IntText`: Python's `int(s)` on a plain numeral with an
      optional minus sign.  Texts of any other shape read as `None`. */
  function ReadInt(s: string): Option<int> {
    if |s| == 0 then None
    else if s[0] == '-' then
      if |s| > 1 && AllDigits(s[1..]) then Some(-(ParseDigits(s[1..]) as int)) else None
    else if AllDigits(s) then Some(ParseDigits(s))
    else None
  }

  /** The three-digit, zero-padded group that follows a comma. */
  function Pad3(m: nat): (s: string)
    requires m < 1000
    ensures |s| == 3 && AllDigits(s)
  {
    [DigitChar(m / 100), DigitChar(m / 10 % 10), DigitChar(m % 10)]
  }

  /** The text with every comma removed. */
  function StripCommas(s: string): (r: string)
    ensures |r| <= |s|
    decreases |s|
  {
    if |s| == 0 then []
    else if s[0] == ',' then StripCommas(s[1..])
    else [s[0]] + StripCommas(s[1..])
  }

  /** The shape `f"{n:,}"` produces for n >= 0: a leading group of one
      to three digits, then zero or more groups of a comma and exactly
      three digits. */
  predicate WellGrouped(s: string)
    decreases |s|
  {
    if |s| <= 3 then 1 <= |s| && AllDigits(s)
    else s[|s| - 4] == ',' && AllDigits(s[|s| - 3..]) && WellGrouped(s[..|s| - 4])
  }

  /** `f"{n:,}"` for n >= 0. */
  function GroupThousands(n: nat): (s: string)
    ensures 1 <= |s| && WellGrouped(s)
    ensures IsDigit(s[0])
    decreases n
  {
    if n < 1000 then
      SmallDecimalLength(n);
      Decimal(n)
    else
      var hi := GroupThousands(n / 1000);
      var s := hi + "," + Pad3(n % 1000);
      assert s[..|s| - 4] == hi;
      assert s[|s| - 3..] == Pad3(n % 1000);
      s
  }

  /** `f"{n:,}"` for any int: a minus sign, then the grouped magnitude. */
  function FormatInt(n: int): (s: string)
    ensures 1 <= |s|
    ensures n < 0 <==> s[0] == '-'
  {
    if n < 0 then "-" + GroupThousands(-n) else GroupThousands(n)
  }

  /** The play-count cell, `f"{int(g):,}G"`. */
  function FormatPlayCount(g: int): (s: string)
    ensures |s| >= 2 && s[|s| - 1] == 'G' && (s[0] == '-' <==> g < 0)
  {
    FormatInt(g) + "G"
  }

  /** The payout cell, `f"+{int(d):,}枚"`.  The plus sign is a literal,
      so a negative payout is written with both signs ("+-300枚"). */
  function FormatPayout(d: int): (s: string)
    ensures |s| >= 3 && s[0] == '+' && s[|s| - 1] == '枚' && (s[1] == '-' <==> d < 0)
  {
    "+" + FormatInt(d) + "枚"
  }

  /** Partner of `GroupThousands`: accepts exactly the well-grouped texts. */
  function UnformatNat(s: string): Option<nat> {
    if WellGrouped(s) then
      var digits := StripCommas(s);
      if AllDigits(digits) then Some(ParseDigits(digits)) else None
    else None
  }

  /** Partner of `FormatInt`. */
  function UnformatInt(s: string): Option<int> {
    if |s| > 0 && s[0] == '-' then
      match UnformatNat(s[1..])
      case Some(m) => Some(-(m as int))
      case None => None
    else UnformatNat(s)
  }

  /** Partner of `FormatPlayCount`. */
  function UnformatPlayCount(s: string): Option<int> {
    if |s| > 0 && s[|s| - 1] == 'G' then UnformatInt(s[..|s| - 1]) else None
  }

  /** Partner of `FormatPayout`. */
  function UnformatPayout(s: string): Option<int> {
    if |s| >= 2 && s[0] == '+' && s[|s| - 1] == '枚' then UnformatInt(s[1..|s| - 1]) else None
  }

  // ---------------------------------------------------------------------
  // Lemmas

  lemma SmallDecimalLength(n: nat)
    requires n < 1000
    ensures |Decimal(n)| <= 3
  {
    if n >= 10 {
      SmallDecimalLength(n / 10);
    }
  }

  lemma NoCommaToStrip(s: string)
    requires AllDigits(s)
    ensures StripCommas(s) == s
    decreases |s|
  {
    if |s| > 0 {
      NoCommaToStrip(s[1..]);
    }
  }

  lemma {:induction false} StripCommasAppend(a: string, b: string)
    ensures StripCommas(a + b) == StripCommas(a) + StripCommas(b)
    decreases |a|
  {
    if |a| == 0 {
      assert a + b == b;
    } else {
      assert (a + b)[1..] == a[1..] + b;
      StripCommasAppend(a[1..], b);
    }
  }

  /** The decimal numeral of n >= 1000 is the numeral of n / 1000
      followed by the last three digits, zero-padded. */
  lemma DecimalSplitsAtThousands(n: nat)
    requires n >= 1000
    ensures Decimal(n) == Decimal(n / 1000) + Pad3(n % 1000)
  {
    var q, r := n / 1000, n % 1000;
    assert n == 1000 * q + r;
    assert n / 10 == 100 * q + r / 10;
    assert n / 100 == 10 * q + r / 100;
    assert (n / 10) / 10 == n / 100;
    assert (n / 100) / 10 == q;
    assert n % 10 == r % 10;
    assert (n / 10) % 10 == r / 10 % 10;
    assert (n / 100) % 10 == r / 100;
    assert Decimal(n / 100) == Decimal(q) + [DigitChar(r / 100)];
    assert Decimal(n / 10) == Decimal(n / 100) + [DigitChar(r / 10 % 10)];
  }

  /** Reading `str(n)` back gives n. */
  lemma {:induction false} ParseDecimal(n: nat)
    ensures ParseDigits(Decimal(n)) == n
    decreases n
  {
    var s := Decimal(n);
    if n < 10 {
      assert s[..0] == [];
    } else {
      assert s[..|s| - 1] == Decimal(n / 10);
      ParseDecimal(n / 10);
    }
  }

  /** Round trip: `int(str(n)) == n`. */
  lemma IntTextRoundTrip(n: int)
    ensures ReadInt(IntText(n)) == Some(n)
  {
    SignSplit(n);
    if n < 0 {
      NegativeRoundTrip(-n);
    } else {
      NonNegativeRoundTrip(n);
    }
  }

  lemma NegativeRoundTrip(m: nat)
    ensures ReadInt("-" + Decimal(m)) == Some(-(m as int))
  {
    ReadNegative(Decimal(m));
    ParseDecimal(m);
  }

  lemma NonNegativeRoundTrip(m: nat)
    ensures ReadInt(Decimal(m)) == Some(m)
  {
    ReadNonNegative(Decimal(m));
    ParseDecimal(m);
  }

  lemma ReadNegative(d: string)
    requires 1 <= |d| && AllDigits(d)
    ensures ReadInt("-" + d) == Some(-(ParseDigits(d) as int))
  {
    var s := "-" + d;
    assert s[0] == '-' && s[1..] == d;
  }

  lemma ReadNonNegative(d: string)
    requires 1 <= |d| && AllDigits(d)
    ensures ReadInt(d) == Some(ParseDigits(d))
  {
    assert IsDigit(d[0]);
  }

  /** Removing the commas from `f"{n:,}"` for n >= 0 gives `str(n)`. */
  lemma {:induction false} GroupedStripsToDecimal(n: nat)
    ensures StripCommas(GroupThousands(n)) == Decimal(n)
    decreases n
  {
    if n < 1000 {
      NoCommaToStrip(Decimal(n));
    } else {
      var hi, lo := GroupThousands(n / 1000), Pad3(n % 1000);
      assert GroupThousands(n) == hi + ("," + lo);
      StripCommasAppend(hi, "," + lo);
      NoCommaToStrip(lo);
      assert StripCommas("," + lo) == StripCommas(lo);
      GroupedStripsToDecimal(n / 1000);
      DecimalSplitsAtThousands(n);
    }
  }

  /** Removing the commas from `f"{n:,}"` gives `str(n)`, the plain numeral,
      for every int. */
  lemma {:induction false} StripGivesPlainNumeral(n: int)
    ensures StripCommas(FormatInt(n)) == IntText(n)
  {
    SignSplit(n);
    if n < 0 {
      GroupedStripsToDecimal(-n);
      StripKeepsMinus(FormatInt(n), IntText(n), GroupThousands(-n), Decimal(-n));
    } else {
      GroupedStripsToDecimal(n);
    }
  }

  /** Both texts of a negative number are a minus sign and the texts of
      its magnitude; both texts of any other number are those of the
      number itself. */
  lemma SignSplit(n: int)
    ensures n < 0 ==> FormatInt(n) == "-" + GroupThousands(-n) && IntText(n) == "-" + Decimal(-n)
    ensures n >= 0 ==> FormatInt(n) == GroupThousands(n) && IntText(n) == Decimal(n)
  {
  }

  /** A leading minus sign survives comma removal. */
  lemma StripKeepsMinus(formatted: string, plain: string, g: string, d: string)
    requires formatted == "-" + g && plain == "-" + d && StripCommas(g) == d
    ensures StripCommas(formatted) == plain
  {
    StripCommasAppend("-", g);
    assert StripCommas("-") == "-" + StripCommas("");
  }

  /** Round trip: `f"{n:,}"` read back is n. */
  lemma {:induction false} FormatIntRoundTrip(n: int)
    ensures UnformatInt(FormatInt(n)) == Some(n)
  {
    var m: nat := if n < 0 then -n else n;
    var g := GroupThousands(m);
    ParseDecimal(m);
    GroupedStripsToDecimal(m);
    assert UnformatNat(g) == Some(m);
    if n < 0 {
      assert ("-" + g)[1..] == g;
    }
  }

  /** Round trip for the play-count cell. */
  lemma PlayCountRoundTrip(g: int)
    ensures UnformatPlayCount(FormatPlayCount(g)) == Some(g)
  {
    var s := FormatPlayCount(g);
    assert s[..|s| - 1] == FormatInt(g);
    FormatIntRoundTrip(g);
  }

  /** Round trip for the payout cell. */
  lemma PayoutRoundTrip(d: int)
    ensures UnformatPayout(FormatPayout(d)) == Some(d)
  {
    var s := FormatPayout(d);
    assert s[1..|s| - 1] == FormatInt(d);
    FormatIntRoundTrip(d);
  }

  /** Dropping the `+` prefix, the `枚` suffix and the commas of a payout
      cell leaves `str(d)`. */
  lemma PayoutStripsToNumeral(d: int)
    ensures var s := FormatPayout(d);
      |s| >= 2 && s[0] == '+' && s[|s| - 1] == '枚' && StripCommas(s[1..|s| - 1]) == IntText(d)
  {
    var s := FormatPayout(d);
    assert s[1..|s| - 1] == FormatInt(d);
    StripGivesPlainNumeral(d);
  }

  /** Dropping the `G` suffix and the commas of a play-count cell leaves `str(g)`. */
  lemma PlayCountStripsToNumeral(g: int)
    ensures var s := FormatPlayCount(g);
      |s| >= 1 && s[|s| - 1] == 'G' && StripCommas(s[..|s| - 1]) == IntText(g)
  {
    var s := FormatPlayCount(g);
    assert s[..|s| - 1] == FormatInt(g);
    StripGivesPlainNumeral(g);
  }

  /** Worked example: 9876 games are written "9,876G". */
  lemma PlayCountExample()
    ensures FormatPlayCount(9876) == "9,876G"
  {
    assert Decimal(9) == "9";
    assert Pad3(876) == "876";
    assert GroupThousands(9876) == "9,876";
    assert FormatInt(9876) == "9,876";
  }

  /** Worked example: a payout of 1234 is written "+1,234枚". */
  lemma PayoutExample()
    ensures FormatPayout(1234) == "+1,234枚"
  {
    assert Decimal(1) == "1";
    assert Pad3(234) == "234";
    assert GroupThousands(1234) == "1,234";
    assert FormatInt(1234) == "1,234";
  }

  /** Worked example: a negative payout keeps the literal plus sign. */
  lemma NegativePayoutExample()
    ensures FormatPayout(-300) == "+-300枚"
  {
    assert Decimal(3) == "3";
    assert Decimal(30) == "30";
    assert Decimal(300) == "300";
  }
}
