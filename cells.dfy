/**
 * Formatting of one cell of a SAS row into the text written to the CSV
 * data file: null cells become "", dates become "yyyy-MM-dd HH:mm:ss" or,
 * when the time of day is midnight, "yyyy-MM-dd"; every other value is
 * written as its string form.
 */
module Cells {

  datatype Option<T> = None | Some(value: T)

  /** A date already broken down into its calendar fields (GMT). */
  datatype DateTime = DateTime(year: nat, month: nat, day: nat, hour: nat, minute: nat, second: nat)

  /** A cell of a row as the decoder delivers it: null, a date, or any
      other object, of which only its string form matters here. */
  datatype Cell = Null | DateVal(date: DateTime) | Other(text: string)

  /** The fields a Java date can actually hold. */
  predicate ValidDate(d: DateTime)
  {
    1 <= d.month <= 12 && 1 <= d.day <= 31 && d.hour < 24 && d.minute < 60 && d.second < 60
  }

  predicate IsMidnight(d: DateTime)
  {
    d.hour == 0 && d.minute == 0 && d.second == 0
  }

  // ---------------------------------------------------------------------
  // Decimal digits

  predicate IsDigit(c: char)
  {
    '0' <= c <= '9'
  }

  predicate AllDigits(s: string)
  {
    forall i :: 0 <= i < |s| ==> IsDigit(s[i])
  }

  function DigitChar(d: nat): (c: char)
    requires d < 10
    ensures IsDigit(c)
  {
    "0123456789"[d]
  }

  function DigitValue(c: char): (r: nat)
    requires IsDigit(c)
  {
    c as int - '0' as int
  }

  lemma DigitCharValue(d: nat)
    requires d < 10
    ensures DigitValue(DigitChar(d)) == d
  {
  }

  /** Decimal rendering of a natural number, without leading zeros. */
  function NatToString(n: nat): (r: string)
    ensures |r| >= 1
    ensures AllDigits(r)
    decreases n
  {
    if n < 10 then [DigitChar(n)] else NatToString(n / 10) + [DigitChar(n % 10)]
  }

  /** Decimal rendering of a (Java long) integer, as Long.toString does it. */
  function IntToString(n: int): (r: string)
    ensures |r| >= 1
  {
    if n < 0 then "-" + NatToString(-n) else NatToString(n)
  }

  /** The value of a string of decimal digits. */
  function ParseNat(s: string): (r: nat)
    requires AllDigits(s)
  {
    if s == [] then 0 else ParseNat(s[..|s| - 1]) * 10 + DigitValue(s[|s| - 1])
  }

  function Pow10(k: nat): (r: nat)
    ensures r >= 1
  {
    if k == 0 then 1 else 10 * Pow10(k - 1)
  }

  function Zeros(k: nat): (r: string)
    ensures |r| == k
    ensures forall i :: 0 <= i < k ==> r[i] == '0'
  {
    if k == 0 then [] else Zeros(k - 1) + ['0']
  }

  /** A number zero-padded to at least `width` digits, as the SimpleDateFormat
      letters yyyy, MM, dd, HH, mm and ss render it. */
  function Pad(n: nat, width: nat): (r: string)
    ensures AllDigits(r)
    ensures |r| >= width
  {
    var s := NatToString(n);
    if |s| >= width then s else Zeros(width - |s|) + s
  }

  // ---------------------------------------------------------------------
  // The two date patterns and the cell formatter

  /** Pattern "yyyy-MM-dd". */
  function DateText(d: DateTime): (r: string)
  {
    Pad(d.year, 4) + "-" + Pad(d.month, 2) + "-" + Pad(d.day, 2)
  }

  /** Pattern "yyyy-MM-dd' 'HH:mm:ss". */
  function DateTimeText(d: DateTime): (r: string)
  {
    DateText(d) + TimeText(d)
  }

  /** The "' 'HH:mm:ss" tail of the datetime pattern. */
  function TimeText(d: DateTime): (r: string)
  {
    " " + Pad(d.hour, 2) + ":" + Pad(d.minute, 2) + ":" + Pad(d.second, 2)
  }

  /** The text one cell contributes to a CSV data row. */
  function FormatCell(c: Cell): (r: string)
  {
    match c
    case Null => ""
    case DateVal(d) => if !IsMidnight(d) then DateTimeText(d) else DateText(d)
    case Other(t) => t
  }

  /** The texts of a row's cells, in order. */
  function FormatRow(row: seq<Cell>): (r: seq<string>)
    ensures |r| == |row|
  {
    if row == [] then [] else FormatRow(row[..|row| - 1]) + [FormatCell(row[|row| - 1])]
  }

  /** Each cell's text is at the cell's own index. */
  lemma {:induction false} FormatRowAt(row: seq<Cell>, i: nat)
    requires i < |row|
    ensures FormatRow(row)[i] == FormatCell(row[i])
  {
    if i < |row| - 1 {
      var p := row[..|row| - 1];
      FormatRowAt(p, i);
      assert p[i] == row[i];
    }
  }

  // ---------------------------------------------------------------------
  // Properties of the formatter

  /** Only a null cell or a value whose string form is empty yields "";
      every date yields a non-empty text, and any other value is kept verbatim. */
  lemma FormatCellCases(c: Cell)
    ensures FormatCell(c) == "" <==> c == Null || c == Other("")
    ensures c.Other? ==> FormatCell(c) == c.text
    ensures c.DateVal? ==> |FormatCell(c)| >= 10
  {
  }

  /** A date with a non-midnight time has the full pattern; a midnight one
      has the date-only pattern, which is a prefix of its full pattern. */
  lemma FormatDateForms(d: DateTime)
    ensures !IsMidnight(d) ==> FormatCell(DateVal(d)) == DateTimeText(d)
    ensures IsMidnight(d) ==> FormatCell(DateVal(d)) == DateText(d)
    ensures IsMidnight(d) ==> DateTimeText(d) == FormatCell(DateVal(d)) + " 00:00:00"
    ensures FormatCell(DateVal(d)) <= DateTimeText(d)
  {
    if IsMidnight(d) {
      assert Pad(0, 2) == "00";
    }
  }

  /** Reading a decimal string back: the inverse of NatToString. */
  lemma {:induction false} ParseNatToString(n: nat)
    ensures ParseNat(NatToString(n)) == n
    decreases n
  {
    var s := NatToString(n);
    if n < 10 {
      DigitCharValue(n);
      assert s[..|s| - 1] == [];
    } else {
      ParseNatToString(n / 10);
      DigitCharValue(n % 10);
      assert s[..|s| - 1] == NatToString(n / 10);
    }
  }

  /** Leading zeros do not change the value read back. */
  lemma {:induction false} ParseNatZeros(k: nat, s: string)
    requires AllDigits(s)
    ensures AllDigits(Zeros(k) + s)
    ensures ParseNat(Zeros(k) + s) == ParseNat(s)
    decreases |s|
  {
    var z := Zeros(k) + s;
    if s == [] {
      assert z == Zeros(k);
      ParseNatOfZeros(k);
    } else {
      assert z[..|z| - 1] == Zeros(k) + s[..|s| - 1];
      ParseNatZeros(k, s[..|s| - 1]);
    }
  }

  lemma {:induction false} ParseNatOfZeros(k: nat)
    ensures AllDigits(Zeros(k))
    ensures ParseNat(Zeros(k)) == 0
  {
    if k > 0 {
      assert Zeros(k)[..k - 1] == Zeros(k - 1);
      ParseNatOfZeros(k - 1);
    }
  }

  /** A number below 10^width needs at most `width` digits. */
  lemma {:induction false} NatToStringLength(n: nat, width: nat)
    requires 1 <= width && n < Pow10(width)
    ensures |NatToString(n)| <= width
    decreases n
  {
    if n >= 10 {
      assert n / 10 < Pow10(width - 1);
      if width == 1 {
        assert false;
      } else {
        NatToStringLength(n / 10, width - 1);
      }
    }
  }

  lemma PadRoundTrip(n: nat, width: nat)
    requires 1 <= width && n < Pow10(width)
    ensures |Pad(n, width)| == width
    ensures ParseNat(Pad(n, width)) == n
  {
    var s := NatToString(n);
    assert |s| <= width by {
      NatToStringLength(n, width);
    }
    assert ParseNat(s) == n by {
      ParseNatToString(n);
    }
    if |s| < width {
      assert Pad(n, width) == Zeros(width - |s|) + s;
      ParseNatZeros(width - |s|, s);
    } else {
      assert Pad(n, width) == s;
    }
  }

  /** The "yyyy-MM-dd" shape: digits and dashes in their places. */
  predicate DateShape(s: string)
  {
    |s| == 10 && AllDigits(s[0..4]) && s[4] == '-' && AllDigits(s[5..7]) && s[7] == '-'
    && AllDigits(s[8..10])
  }

  /** The "' 'HH:mm:ss" shape that the datetime pattern appends. */
  predicate TimeShape(s: string)
  {
    |s| == 9 && s[0] == ' ' && AllDigits(s[1..3]) && s[3] == ':' && AllDigits(s[4..6])
    && s[6] == ':' && AllDigits(s[7..9])
  }

  /** Reads a text of the form "yyyy-MM-dd" or "yyyy-MM-dd HH:mm:ss" back
      into date fields; any other text is rejected. */
  function ParseDateText(s: string): (r: Option<DateTime>)
  {
    if |s| == 10 && DateShape(s) then
      Some(DateTime(ParseNat(s[0..4]), ParseNat(s[5..7]), ParseNat(s[8..10]), 0, 0, 0))
    else if |s| == 19 && DateShape(s[..10]) && TimeShape(s[10..]) then
      var day, t := s[..10], s[10..];
      Some(DateTime(ParseNat(day[0..4]), ParseNat(day[5..7]), ParseNat(day[8..10]),
                    ParseNat(t[1..3]), ParseNat(t[4..6]), ParseNat(t[7..9])))
    else None
  }

  /** The date part is well shaped and its fields read back. */
  lemma DateTextFields(d: DateTime)
    requires ValidDate(d) && d.year <= 9999
    ensures DateShape(DateText(d))
    ensures var t := DateText(d);
      ParseNat(t[0..4]) == d.year && ParseNat(t[5..7]) == d.month && ParseNat(t[8..10]) == d.day
  {
    var y, m, dd := Pad(d.year, 4), Pad(d.month, 2), Pad(d.day, 2);
    assert |y| == 4 && ParseNat(y) == d.year && |m| == 2 && ParseNat(m) == d.month
           && |dd| == 2 && ParseNat(dd) == d.day by {
      assert Pow10(2) == 100 && Pow10(4) == 10000;
      PadRoundTrip(d.year, 4);
      PadRoundTrip(d.month, 2);
      PadRoundTrip(d.day, 2);
    }
    DateFieldsAt(y, m, dd);
  }

  lemma DateFieldsAt(y: string, m: string, dd: string)
    requires |y| == 4 && |m| == 2 && |dd| == 2
    ensures var t := y + "-" + m + "-" + dd;
      |t| == 10 && t[0..4] == y && t[4] == '-' && t[5..7] == m && t[7] == '-' && t[8..10] == dd
  {
  }

  /** The time part is well shaped and its fields read back. */
  lemma TimeTextFields(d: DateTime)
    requires ValidDate(d)
    ensures TimeShape(TimeText(d))
    ensures var t := TimeText(d);
      ParseNat(t[1..3]) == d.hour && ParseNat(t[4..6]) == d.minute && ParseNat(t[7..9]) == d.second
  {
    var h, m, s := Pad(d.hour, 2), Pad(d.minute, 2), Pad(d.second, 2);
    assert |h| == 2 && ParseNat(h) == d.hour && |m| == 2 && ParseNat(m) == d.minute
           && |s| == 2 && ParseNat(s) == d.second by {
      assert Pow10(2) == 100;
      PadRoundTrip(d.hour, 2);
      PadRoundTrip(d.minute, 2);
      PadRoundTrip(d.second, 2);
    }
    TimeFieldsAt(h, m, s);
  }

  lemma TimeFieldsAt(h: string, m: string, s: string)
    requires |h| == 2 && |m| == 2 && |s| == 2
    ensures var t := " " + h + ":" + m + ":" + s;
      |t| == 9 && t[0] == ' ' && t[1..3] == h && t[3] == ':' && t[4..6] == m && t[6] == ':' && t[7..9] == s
  {
  }

  /** The text written for a date determines the date: for years of at most
      four digits, reading the written text back gives the original fields,
      whichever of the two patterns was chosen. */
  lemma FormatDateRoundTrip(d: DateTime)
    requires ValidDate(d) && d.year <= 9999
    ensures ParseDateText(FormatCell(DateVal(d))) == Some(d)
  {
    DateTextFields(d);
    if !IsMidnight(d) {
      TimeTextFields(d);
      var u := DateTimeText(d);
      assert u[..10] == DateText(d);
      assert u[10..] == TimeText(d);
    }
  }
}
