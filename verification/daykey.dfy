/** The `yyyy-MM-dd` day key under which the activity log is persisted: the
    `full-date` form of section 5.6 of RFC 3339 (four-digit year, two-digit
    month, two-digit day, ASCII digits, `-` separators). */
module DayKey {

  import opened Opt
  import opened Calendar

  predicate IsDigit(c: char) {
    '0' <= c <= '9'
  }

  predicate AllDigits(s: string) {
    forall i :: 0 <= i < |s| ==> IsDigit(s[i])
  }

  function DigitChar(n: nat): (c: char)
    requires n < 10
    ensures IsDigit(c)
  {
    (48 + n) as char
  }

  function DigitValue(c: char): (n: nat)
    requires IsDigit(c)
    ensures n < 10
    ensures DigitChar(n) == c
  {
    (c as int) - 48
  }

  function Pow10(w: nat): (p: nat)
    ensures p >= 1
  {
    if w == 0 then 1 else 10 * Pow10(w - 1)
  }

  /** Decimal digits of `n`, left-padded with `0` to at least `w` characters. */
  function Digits(n: nat, w: nat): (s: string)
    ensures AllDigits(s)
    ensures |s| >= 1
    decreases n + w
  {
    if n < 10 && w <= 1 then [DigitChar(n)]
    else Digits(n / 10, if w > 0 then w - 1 else 0) + [DigitChar(n % 10)]
  }

  /** Value of a string of decimal digits. */
  function ParseNat(s: string): nat
    requires AllDigits(s)
  {
    if s == [] then 0 else ParseNat(s[..|s| - 1]) * 10 + DigitValue(s[|s| - 1])
  }

  /** Reading back the padded digits of `n` gives `n`. */
  lemma {:induction false} ParseDigits(n: nat, w: nat)
    ensures ParseNat(Digits(n, w)) == n
    decreases n + w
  {
    var s := Digits(n, w);
    if n < 10 && w <= 1 {
    } else {
      var w' := if w > 0 then w - 1 else 0;
      ParseDigits(n / 10, w');
      assert s[..|s| - 1] == Digits(n / 10, w');
    }
  }

  /** A number below `10^w` is padded to exactly `w` digits. */
  lemma {:induction false} DigitsLength(n: nat, w: nat)
    requires 1 <= w
    requires n < Pow10(w)
    ensures |Digits(n, w)| == w
    decreases w
  {
    if n < 10 && w <= 1 {
    } else {
      DigitsLength(n / 10, w - 1);
    }
  }

  /** A non-empty digit string is the padded rendering of its own value at its own width. */
  lemma {:induction false} DigitsOfParse(s: string)
    requires AllDigits(s)
    requires |s| >= 1
    ensures Digits(ParseNat(s), |s|) == s
    decreases |s|
  {
    var p := s[..|s| - 1];
    var n := ParseNat(s);
    if |s| == 1 {
      assert p == [];
    } else {
      DigitsOfParse(p);
      assert n / 10 == ParseNat(p) && n % 10 == DigitValue(s[|s| - 1]);
      assert s == p + [s[|s| - 1]];
    }
  }

  /** Year field: four or more digits; years before year 0 carry a leading `-`. */
  function YearText(y: int): (s: string)
    ensures 0 <= y < 10000 ==> |s| == 4 && AllDigits(s)
  {
    FourDigits(y);
    if y >= 0 then Digits(y, 4) else "-" + Digits(-y, 4)
  }

  lemma FourDigits(y: int)
    ensures 0 <= y < 10000 ==> |Digits(y, 4)| == 4
  {
    if 0 <= y < 10000 {
      DigitsLength(y, 4);
    }
  }

  lemma YearTextSign(y: int)
    ensures |YearText(y)| >= 1
    ensures YearText(y)[0] == '-' <==> y < 0
  {
    if y >= 0 {
      assert IsDigit(Digits(y, 4)[0]);
    }
  }

  lemma YearTextInjective(a: int, b: int)
    requires YearText(a) == YearText(b)
    ensures a == b
  {
    YearTextSign(a);
    YearTextSign(b);
    if a >= 0 {
      DigitsInjective(a, b, 4);
    } else {
      assert Digits(-a, 4) == YearText(a)[1..];
      DigitsInjective(-a, -b, 4);
    }
  }

  lemma DigitsInjective(a: nat, b: nat, w: nat)
    requires Digits(a, w) == Digits(b, w)
    ensures a == b
  {
    ParseDigits(a, w);
    ParseDigits(b, w);
  }

  /** A key assembled from its three fields. */
  function Key(year: string, month: string, day: string): string {
    year + "-" + month + "-" + day
  }

  /** The fields of a key are found again at their positions, counted from its end. */
  lemma KeyFields(year: string, month: string, day: string)
    requires |month| == 2 && |day| == 2
    ensures var k := Key(year, month, day);
      && |k| == |year| + 6
      && k[..|k| - 6] == year
      && k[|k| - 6] == '-' && k[|k| - 3] == '-'
      && k[|k| - 5..|k| - 3] == month
      && k[|k| - 2..] == day
  {
  }

  /** The day key of day `d`: year, `-`, two-digit month, `-`, two-digit day of month. */
  function Format(d: int): (k: string)
    ensures 0 <= ToCivil(d).year < 10000 ==>
      && |k| == 10 && k[4] == '-' && k[7] == '-'
      && AllDigits(k[..4]) && AllDigits(k[5..7]) && AllDigits(k[8..])
  {
    var c := ToCivil(d);
    DigitsLength(c.month, 2);
    DigitsLength(c.day, 2);
    var k := Key(YearText(c.year), Digits(c.month, 2), Digits(c.day, 2));
    KeyFields(YearText(c.year), Digits(c.month, 2), Digits(c.day, 2));
    k
  }

  /** The three fields of a key, read back from its end. */
  lemma FormatFields(d: int)
    ensures var c := ToCivil(d); var k := Format(d);
      && |k| == |YearText(c.year)| + 6
      && k[..|k| - 6] == YearText(c.year)
      && k[|k| - 5..|k| - 3] == Digits(c.month, 2)
      && k[|k| - 2..] == Digits(c.day, 2)
  {
    var c := ToCivil(d);
    DigitsLength(c.month, 2);
    DigitsLength(c.day, 2);
    KeyFields(YearText(c.year), Digits(c.month, 2), Digits(c.day, 2));
  }

  /** Distinct days have distinct keys, so saving the log never merges two entries. */
  lemma FormatInjective(a: int, b: int)
    requires Format(a) == Format(b)
    ensures a == b
  {
    var ca, cb := ToCivil(a), ToCivil(b);
    FormatFields(a);
    FormatFields(b);
    YearTextInjective(ca.year, cb.year);
    ParseDigits(ca.month, 2);
    ParseDigits(cb.month, 2);
    ParseDigits(ca.day, 2);
    ParseDigits(cb.day, 2);
    assert ca == cb;
  }

  /** Reads a `yyyy-MM-dd` key; anything else, or a date that does not exist, is rejected. */
  function Parse(k: string): (r: Option<int>)
    ensures r.Some? ==>
      && |k| == 10 && k[4] == '-' && k[7] == '-'
      && AllDigits(k[..4]) && AllDigits(k[5..7]) && AllDigits(k[8..])
  {
    if |k| == 10 && k[4] == '-' && k[7] == '-'
       && AllDigits(k[..4]) && AllDigits(k[5..7]) && AllDigits(k[8..])
    then
      var c := Date(ParseNat(k[..4]), ParseNat(k[5..7]), ParseNat(k[8..]));
      if ValidDate(c) then Some(FromCivil(c)) else None
    else None
  }

  /** Every day of years 0 through 9999 survives formatting and parsing. */
  lemma ParseFormat(d: int)
    requires 0 <= ToCivil(d).year < 10000
    ensures Parse(Format(d)) == Some(d)
  {
    var c := ToCivil(d);
    var k := Format(d);
    FormatFields(d);
    ParseDigits(c.year, 4);
    ParseDigits(c.month, 2);
    ParseDigits(c.day, 2);
    assert k[..4] == YearText(c.year);
    assert k[5..7] == Digits(c.month, 2);
    assert k[8..] == Digits(c.day, 2);
  }

  /** A key that parses is the canonical key of the day it names. */
  lemma FormatParse(k: string)
    requires Parse(k).Some?
    ensures Format(Parse(k).value) == k
    ensures 0 <= ToCivil(Parse(k).value).year < 10000
  {
    var c := Date(ParseNat(k[..4]), ParseNat(k[5..7]), ParseNat(k[8..]));
    var d := Parse(k).value;
    ToCivilFromCivil(c);
    DigitsOfParse(k[..4]);
    DigitsOfParse(k[5..7]);
    DigitsOfParse(k[8..]);
    assert ParseNat(k[..4]) < 10000 by {
      ParseDigits(c.year, 4);
      ParseNatBound(k[..4]);
    }
    assert YearText(c.year) == k[..4];
    assert k == Key(k[..4], k[5..7], k[8..]);
  }

  /** The only day a day key can name is the day it was formatted from. */
  lemma ParseOfFormat(e: int, d: int)
    requires Parse(Format(e)) == Some(d)
    ensures d == e
  {
    FormatParse(Format(e));
    FormatInjective(d, e);
  }

  lemma {:induction false} ParseNatBound(s: string)
    requires AllDigits(s)
    ensures ParseNat(s) < Pow10(|s|)
    decreases |s|
  {
    if s != [] {
      ParseNatBound(s[..|s| - 1]);
    }
  }
}
