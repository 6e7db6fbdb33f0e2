/**
 * Number formatting and parsing as the downloader uses it for file indices:
 * `toLocaleString('en-US', { minimumIntegerDigits: 2 })`, the older
 * "prepend a zero below ten" helper, and `parseInt(s, 10)`.
 * A JavaScript number that may be NaN is an `Option<int>` with `None` for NaN;
 * only integer values occur here.
 */
module Numbers {
  import opened Text

  function DigitChar(d: nat): (c: char)
    requires d < 10
    ensures IsDigit(c)
  {
    (('0' as int) + d) as char
  }

  function DigitValue(c: char): (d: nat)
    requires IsDigit(c)
    ensures d < 10 && DigitChar(d) == c
  {
    c as int - '0' as int
  }

  predicate AllDigits(s: string) {
    forall i :: 0 <= i < |s| ==> IsDigit(s[i])
  }

  /** Decimal digits of `n`, most significant first, without leading zeros. */
  function Decimal(n: nat): (s: string)
    ensures |s| >= 1 && AllDigits(s)
    ensures |s| > 1 ==> s[0] != '0'
    ensures n < 10 <==> |s| == 1
    decreases n
  {
    if n < 10 then [DigitChar(n)] else Decimal(n / 10) + [DigitChar(n % 10)]
  }

  /** The value of a string of decimal digits. */
  function DigitsValue(s: string): nat
    requires AllDigits(s)
    decreases |s|
  {
    if |s| == 0 then 0 else 10 * DigitsValue(s[..|s| - 1]) + DigitValue(s[|s| - 1])
  }

  /** Reading back the digits of `n` gives `n`. */
  lemma {:induction false} DecimalValue(n: nat)
    ensures DigitsValue(Decimal(n)) == n
    decreases n
  {
    if n >= 10 {
      DecimalValue(n / 10);
      var s := Decimal(n);
      assert s[..|s| - 1] == Decimal(n / 10);
    }
  }

  /** A leading zero does not change the value. */
  lemma {:induction false} LeadingZeroValue(s: string)
    requires AllDigits(s)
    ensures AllDigits("0" + s) && DigitsValue("0" + s) == DigitsValue(s)
    decreases |s|
  {
    var t := "0" + s;
    if |s| > 0 {
      assert t[..|t| - 1] == "0" + s[..|s| - 1];
      LeadingZeroValue(s[..|s| - 1]);
    }
  }

  /** `String(n)` for an integer value. */
  function JsString(n: int): string {
    if n < 0 then "-" + Decimal(-n) else Decimal(n)
  }

  lemma DecimalLength(n: nat)
    ensures n < 10 ==> |Decimal(n)| == 1
    ensures 10 <= n < 100 ==> |Decimal(n)| == 2
    ensures 100 <= n < 1000 ==> |Decimal(n)| == 3
  {
    if n >= 10 {
      DecimalLength(n / 10);
    }
  }

  /** Three digits, zero-padded: one comma group of an en-US number. */
  function Pad3(n: nat): (s: string)
    requires n < 1000
    ensures |s| == 3 && AllDigits(s)
  {
    DecimalLength(n);
    if n < 10 then "00" + Decimal(n)
    else if n < 100 then "0" + Decimal(n)
    else Decimal(n)
  }

  /** The en-US digit grouping of `n`: thousands separated by commas. */
  function Grouped(n: nat): string
    decreases n
  {
    if n < 1000 then Decimal(n) else Grouped(n / 1000) + "," + Pad3(n % 1000)
  }

  /** `n.toLocaleString('en-US', { minimumIntegerDigits: 2 })` for an integer `n`. */
  function TwoDigits(n: int): string {
    var a := if n < 0 then -n else n;
    (if n < 0 then "-" else "") + (if a < 10 then "0" + Decimal(a) else Grouped(a))
  }

  /** The same for a number that may be NaN, which formats as `NaN`. */
  function TwoDigitsOrNaN(x: Option<int>): string {
    match x
    case None => "NaN"
    case Some(n) => TwoDigits(n)
  }

  /** Below one thousand the index is at least two plain digits and keeps its value. */
  lemma TwoDigitsSmall(n: nat)
    requires n < 1000
    ensures |TwoDigits(n)| >= 2 && AllDigits(TwoDigits(n))
    ensures DigitsValue(TwoDigits(n)) == n
  {
    DecimalValue(n);
    DecimalLength(n);
    if n < 10 {
      LeadingZeroValue(Decimal(n));
    } else {
      assert TwoDigits(n) == Decimal(n);
    }
  }

  /** From one thousand on, the index carries a comma. */
  lemma TwoDigitsGrouped(n: nat)
    requires n >= 1000
    ensures ',' in TwoDigits(n)
  {
    var g := Grouped(n / 1000) + "," + Pad3(n % 1000);
    assert g[|Grouped(n / 1000)|] == ',';
  }

  /** The longest prefix of `s` made of decimal digits. */
  function DigitPrefix(s: string): (r: string)
    ensures AllDigits(r) && |r| <= |s| && r == s[..|r|]
    ensures |r| < |s| ==> !IsDigit(s[|r|])
    decreases |s|
  {
    if |s| > 0 && IsDigit(s[0]) then [s[0]] + DigitPrefix(s[1..]) else ""
  }

  /**
   * `parseInt(s, 10)`: skips leading white space, takes an optional sign and
   * the longest run of digits after it; no digits gives NaN (`None`).
   */
  function ParseInt(s: string): Option<int> {
    var t := TrimStart(s);
    var negative := |t| > 0 && t[0] == '-';
    var u := if |t| > 0 && (t[0] == '-' || t[0] == '+') then t[1..] else t;
    var ds := DigitPrefix(u);
    if |ds| == 0 then None
    else if negative then Some(-(DigitsValue(ds) as int))
    else Some(DigitsValue(ds))
  }

  lemma DigitPrefixAll(s: string)
    requires AllDigits(s)
    ensures DigitPrefix(s) == s
  {
  }

  /** `parseInt` reads back every index below one thousand, and its negation, formatted by `TwoDigits`. */
  lemma ParseTwoDigits(n: int)
    requires -1000 < n < 1000
    ensures ParseInt(TwoDigits(n)) == Some(n)
  {
    var a := if n < 0 then -n else n;
    TwoDigitsSmall(a);
    ParseDigits(TwoDigits(a));
    if n < 0 {
      assert TwoDigits(n) == "-" + TwoDigits(a);
    }
  }

  /** A string of digits reads back as its value, and with a minus sign before it as the negation. */
  lemma ParseDigits(body: string)
    requires |body| > 0 && AllDigits(body)
    ensures ParseInt(body) == Some(DigitsValue(body) as int)
    ensures ParseInt("-" + body) == Some(-(DigitsValue(body) as int))
  {
    DigitPrefixAll(body);
    ParsePlain(body);
    ParseNegative("-" + body, body);
  }

  lemma ParsePlain(body: string)
    requires |body| > 0 && AllDigits(body) && DigitPrefix(body) == body
    ensures ParseInt(body) == Some(DigitsValue(body) as int)
  {
    assert IsDigit(body[0]) && !IsJsSpace(body[0]);
    assert TrimStart(body) == body;
  }

  lemma ParseNegative(s: string, body: string)
    requires |body| > 0 && AllDigits(body) && DigitPrefix(body) == body
    requires s == "-" + body
    ensures ParseInt(s) == Some(-(DigitsValue(body) as int))
  {
    assert s[0] == '-' && TrimStart(s) == s;
    assert s[1..] == body;
  }

  /** At one thousand the comma stops `parseInt`: the index reads back as 1. */
  lemma ParseThousand()
    ensures TwoDigits(1000) == "1,000"
    ensures ParseInt(TwoDigits(1000)) == Some(1)
  {
    ThousandFormat();
    ThousandPrefix();
    assert DigitsValue("1") == 1;
  }

  lemma ThousandFormat()
    ensures TwoDigits(1000) == "1,000"
  {
    assert Decimal(1) == "1";
    assert Decimal(0) == "0";
    assert Pad3(0) == "000";
    assert Grouped(1000) == "1,000";
  }

  lemma ThousandPrefix()
    ensures TrimStart("1,000") == "1,000" && DigitPrefix("1,000") == "1"
  {
    assert "1,000"[1..] == ",000";
  }

  /** `number < 10 ? '0' + number : String(number)` of the oldest script. */
  function ZeroBelowTen(n: int): string {
    if n < 10 then "0" + JsString(n) else JsString(n)
  }

  /** For indices 0..999 the two padding helpers agree. */
  lemma ZeroBelowTenAgrees(n: nat)
    requires n < 1000
    ensures ZeroBelowTen(n) == TwoDigits(n)
  {
  }

  /**
   * They part ways from one thousand on, where only `TwoDigits` has a comma,
   * and on every negative number, where the older helper puts the zero
   * before the sign.
   */
  lemma ZeroBelowTenDiffers(n: int)
    requires n >= 1000 || n < 0
    ensures ZeroBelowTen(n) != TwoDigits(n)
    ensures n >= 1000 ==> AllDigits(ZeroBelowTen(n)) && ',' in TwoDigits(n)
    ensures n < 0 ==> ZeroBelowTen(n)[..2] == "0-" && TwoDigits(n)[0] == '-'
  {
    if n >= 1000 {
      TwoDigitsGrouped(n);
      var z := ZeroBelowTen(n);
      assert z == Decimal(n);
      assert ',' !in z by {
        forall i | 0 <= i < |z|
          ensures z[i] != ','
        {
          assert IsDigit(z[i]);
        }
      }
    } else {
      assert ZeroBelowTen(n) == "0" + ("-" + Decimal(-n));
      assert ZeroBelowTen(n)[0] == '0' && TwoDigits(n)[0] == '-';
    }
  }
}
