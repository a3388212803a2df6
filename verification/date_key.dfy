/** The day-key check the server actions apply before touching the table
    (isValidDateKey in src/app/actions/saunaSessions.ts), and how it agrees with
    the keys getDateKey produces. */
module DateKey {
  import opened Decimal
  import opened DateFormat

  /** (0[1-9]|1[0-2]) */
  predicate MonthField(a: char, b: char) {
    || (a == '0' && '1' <= b <= '9')
    || (a == '1' && '0' <= b <= '2')
  }

  /** (0[1-9]|[12]\d|3[01]) */
  predicate DayField(a: char, b: char) {
    || (a == '0' && '1' <= b <= '9')
    || ((a == '1' || a == '2') && IsDigit(b))
    || (a == '3' && (b == '0' || b == '1'))
  }

  /** /^(\d{4})-(0[1-9]|1[0-2])-(0[1-9]|[12]\d|3[01])$/ : ten characters, no
      calendar check. */
  predicate IsValidDateKey(key: string) {
    && |key| == 10
    && IsDigit(key[0]) && IsDigit(key[1]) && IsDigit(key[2]) && IsDigit(key[3])
    && key[4] == '-'
    && MonthField(key[5], key[6])
    && key[7] == '-'
    && DayField(key[8], key[9])
  }

  /** The value of a two-digit string. */
  lemma TwoDigitValue(s: string)
    requires |s| == 2 && AllDigits(s)
    ensures DigitsValue(s) == 10 * DigitValue(s[0]) + DigitValue(s[1])
  {
    var p := s[..1];
    assert p[..0] == [] && p[0] == s[0];
    assert DigitsValue(p) == DigitValue(s[0]);
  }

  /** What the pattern means: four digits, '-', a two-digit month 01..12, '-',
      a two-digit day 01..31, and nothing else. */
  lemma ValidDateKeyMeaning(key: string)
    ensures IsValidDateKey(key) <==>
      && |key| == 10
      && AllDigits(key[..4]) && key[4] == '-' && AllDigits(key[5..7]) && key[7] == '-' && AllDigits(key[8..])
      && 1 <= DigitsValue(key[5..7]) <= 12
      && 1 <= DigitsValue(key[8..]) <= 31
  {
    if |key| == 10 && AllDigits(key[5..7]) && AllDigits(key[8..]) {
      TwoDigitValue(key[5..7]);
      TwoDigitValue(key[8..]);
      assert IsDigit(key[5]) && IsDigit(key[6]) && IsDigit(key[8]) && IsDigit(key[9]);
    }
    if |key| == 10 && IsDigit(key[0]) && IsDigit(key[1]) && IsDigit(key[2]) && IsDigit(key[3]) {
      assert AllDigits(key[..4]);
    }
  }

  /** The day field is not checked against the month: 30 February passes and
      month 13 does not. */
  lemma NoCalendarCheck(feb30: string, month13: string)
    requires feb30 == "2024-02-30" && month13 == "2024-13-01"
    ensures IsValidDateKey(feb30)
    ensures !IsValidDateKey(month13)
  {
  }

  function KeyYear(key: string): nat
    requires IsValidDateKey(key)
  {
    DigitsValue(key[..4])
  }

  function KeyMonth(key: string): nat
    requires IsValidDateKey(key)
  {
    DigitsValue(key[5..7])
  }

  function KeyDay(key: string): nat
    requires IsValidDateKey(key)
  {
    DigitsValue(key[8..])
  }

  /** A year of 1000..9999 renders as exactly four digits. */
  lemma FourDigitYear(year: nat)
    requires 1000 <= year <= 9999
    ensures |NatToString(year)| == 4
  {
    assert |NatToString(year / 1000)| == 1;
    assert |NatToString(year / 100)| == 2;
    assert |NatToString(year / 10)| == 3;
  }

  /** Every key getDateKey builds for a four-digit year, a month index 0..11 and
      a day 1..31 passes the server's check. */
  lemma GetDateKeyIsValid(year: nat, monthIndex: int, day: nat)
    requires 1000 <= year <= 9999
    requires 0 <= monthIndex <= 11
    requires 1 <= day <= 31
    ensures IsValidDateKey(GetDateKey(year, monthIndex, day))
  {
    GetDateKeyShape(year, monthIndex, day);
    FourDigitYear(year);
    var key := GetDateKey(year, monthIndex, day);
    var y := NatToString(year);
    assert key == y + "-" + TwoDigits(monthIndex + 1) + "-" + TwoDigits(day);
    assert key[5] == DigitChar((monthIndex + 1) / 10) && key[6] == DigitChar((monthIndex + 1) % 10);
    assert key[8] == DigitChar(day / 10) && key[9] == DigitChar(day % 10);
    assert forall i | 0 <= i < 4 :: key[i] == y[i];
  }

  /** Two digit characters are the two-digit rendering of their value. */
  lemma TwoDigitsOfValue(s: string)
    requires |s| == 2 && AllDigits(s)
    ensures DigitsValue(s) < 100 && TwoDigits(DigitsValue(s)) == s
  {
    TwoDigitValue(s);
    var v := DigitsValue(s);
    assert v / 10 == DigitValue(s[0]) && v % 10 == DigitValue(s[1]);
    assert DigitChar(DigitValue(s[0])) == s[0];
    assert DigitChar(DigitValue(s[1])) == s[1];
  }

  /** Conversely, every valid key whose year does not start with 0 is the key
      getDateKey builds from its own year, month - 1 and day. */
  lemma ValidDateKeyRoundTrip(key: string)
    requires IsValidDateKey(key)
    requires key[0] != '0'
    ensures GetDateKey(KeyYear(key), KeyMonth(key) - 1, KeyDay(key)) == key
  {
    ValidDateKeyMeaning(key);
    var y, m, d := key[..4], key[5..7], key[8..];
    CanonicalDigitsRoundTrip(y);
    TwoDigitsOfValue(m);
    TwoDigitsOfValue(d);
    GetDateKeyShape(KeyYear(key), KeyMonth(key) - 1, KeyDay(key));
    KeyParts(key);
  }

  /** A valid key is its year, month and day fields joined by '-'. */
  lemma KeyParts(key: string)
    requires IsValidDateKey(key)
    ensures key == key[..4] + "-" + key[5..7] + "-" + key[8..]
  {
    var r := key[..4] + "-" + key[5..7] + "-" + key[8..];
    assert |r| == 10;
    forall i | 0 <= i < 10 ensures r[i] == key[i] {
    }
  }
}
