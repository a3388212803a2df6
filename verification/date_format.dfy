/** Day keys and their display form (src/lib/date.ts, repeated verbatim in
    src/lib/storage.ts). The Date object is replaced by the three integers
    getFullYear(), getMonth() and getDate() would return. */
module DateFormat {
  import opened Wrappers
  import opened Decimal
  import opened Text

  /** s.padStart(2, "0"). */
  function PadTwo(s: string): string {
    if |s| >= 2 then s else seq(2 - |s|, _ => '0') + s
  }

  /** The two decimal digits of n < 100, a zero in front when n < 10. */
  function TwoDigits(n: nat): string
    requires n < 100
  {
    [DigitChar(n / 10), DigitChar(n % 10)]
  }

  lemma PadTwoOfSmall(n: nat)
    requires n < 100
    ensures PadTwo(NatToString(n)) == TwoDigits(n)
  {
    if n >= 10 {
      assert NatToString(n / 10) == [DigitChar(n / 10)];
    }
  }

  /** getDateKey: `${year}-${MM}-${DD}` with month = monthIndex + 1. */
  function GetDateKey(year: int, monthIndex: int, day: int): string {
    IntToString(year) + "-" + PadTwo(IntToString(monthIndex + 1)) + "-" + PadTwo(IntToString(day))
  }

  /** For a non-negative year the key is the year's decimal digits, then the month
      and the day as exactly two digits each, zero-padded, joined by '-'. */
  lemma GetDateKeyShape(year: nat, monthIndex: int, day: nat)
    requires 0 <= monthIndex + 1 < 100 && day < 100
    ensures GetDateKey(year, monthIndex, day)
         == NatToString(year) + "-" + TwoDigits(monthIndex + 1) + "-" + TwoDigits(day)
  {
    PadTwoOfSmall(monthIndex + 1);
    PadTwoOfSmall(day);
  }

  /** The JavaScript numbers Number() can give for a part of a split day key. */
  datatype JsNumber = Finite(n: nat) | NaN

  /** Number(part) on the parts a day key has: a digit string (the empty one
      included) reads as its value, and a missing part (undefined) reads as NaN.
      JavaScript also reads signed, spaced, decimal, exponent and hexadecimal text
      as numbers and rounds digit strings past 2^53; such parts lie outside this
      model, which maps every non-digit part to NaN. */
  function ToNumber(part: Option<string>): JsNumber {
    match part
    case None => NaN
    case Some(s) => if AllDigits(s) then Finite(DigitsValue(s)) else NaN
  }

  /** `${x}` for such a number. */
  function Render(x: JsNumber): string {
    match x
    case Finite(n) => NatToString(n)
    case NaN => "NaN"
  }

  /** The i-th element of an array destructuring, undefined past the end. */
  function Part(parts: seq<string>, i: nat): Option<string> {
    if i < |parts| then Some(parts[i]) else None
  }

  /** formatDisplayDate: "Y年M月D日" from the first three '-'-separated parts. */
  function FormatDisplayDate(key: string): string {
    var parts := Split(key, '-');
    parts[0] + "年" + Render(ToNumber(Part(parts, 1))) + "月" + Render(ToNumber(Part(parts, 2))) + "日"
  }

  /** For a key made of three '-'-free parts, the month and day digits lose their
      leading zeros and the year part is kept verbatim. Up to 15 digits every
      value is below 2^53, so Number() reads it exactly. */
  lemma DisplayOfParts(y: string, m: string, d: string)
    requires '-' !in y && '-' !in m && '-' !in d
    requires AllDigits(m) && AllDigits(d) && |m| <= 15 && |d| <= 15
    ensures FormatDisplayDate(y + "-" + m + "-" + d)
         == y + "年" + NatToString(DigitsValue(m)) + "月" + NatToString(DigitsValue(d)) + "日"
  {
    var key := y + "-" + m + "-" + d;
    assert key == y + ['-'] + (m + ['-'] + d);
    SplitFirst(y, '-', m + ['-'] + d);
    SplitFirst(m, '-', d);
    SplitWithoutSeparator(d, '-');
    assert Split(key, '-') == [y, m, d];
  }

  /** String(n).padStart(2, "0") reads back as n. */
  lemma PaddedValue(n: nat)
    ensures AllDigits(PadTwo(NatToString(n))) && DigitsValue(PadTwo(NatToString(n))) == n
  {
    var s := NatToString(n);
    NatToStringValue(n);
    if |s| < 2 {
      assert PadTwo(s) == "0" + s;
      LeadingZeroValue(s);
    }
  }

  /** Round trip: displaying the key of (year, monthIndex, day) shows the year, the
      month monthIndex + 1 and the day without zero padding. */
  lemma DisplayOfDateKey(year: nat, monthIndex: int, day: nat)
    requires 0 <= monthIndex + 1 < 100 && day < 100
    ensures FormatDisplayDate(GetDateKey(year, monthIndex, day))
         == NatToString(year) + "年" + NatToString(monthIndex + 1) + "月" + NatToString(day) + "日"
  {
    var m := PadTwo(NatToString(monthIndex + 1));
    var d := PadTwo(NatToString(day));
    PaddedValue(monthIndex + 1);
    PaddedValue(day);
    PadTwoOfShort(monthIndex + 1);
    PadTwoOfShort(day);
    DisplayOfParts(NatToString(year), m, d);
  }

  /** A number below 100 pads to exactly two characters. */
  lemma PadTwoOfShort(n: nat)
    requires n < 100
    ensures |PadTwo(NatToString(n))| == 2
  {
    if n >= 10 {
      assert NatToString(n) == NatToString(n / 10) + [DigitChar(n % 10)];
    }
  }

  /** The example of the display format: "2024-02-05" is shown as "2024年2月5日". */
  lemma DisplayExample(key: string)
    requires key == "2024-02-05"
    ensures FormatDisplayDate(key) == "2024年2月5日"
  {
    var y, m, d := "2024", "0" + "2", "0" + "5";
    assert key == y + "-" + m + "-" + d;
    DisplayOfParts(y, m, d);
    ExampleDigits();
  }

  lemma ExampleDigits()
    ensures DigitsValue("0" + "2") == 2 && DigitsValue("0" + "5") == 5
    ensures NatToString(2) == "2" && NatToString(5) == "5"
  {
    LeadingZeroValue("2");
    LeadingZeroValue("5");
  }
}
