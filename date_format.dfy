/**
 * Date strings: the `YYYY-MM-DD` text `getKoreanDateString` builds from a
 * date, and the reading of such a string back into a date that
 * `new Date("YYYY-MM-DD")` performs when the list is sorted.
 */
module DateFormat {

  import opened Wrappers
  import opened Strings
  import opened Dates

  function Pow10(n: nat): (p: nat)
    ensures p >= 1
  {
    if n == 0 then 1 else 10 * Pow10(n - 1)
  }

  predicate IsDigit(c: char)
  {
    '0' <= c <= '9'
  }

  predicate AllDigits(s: string)
  {
    forall i :: 0 <= i < |s| ==> IsDigit(s[i])
  }

  /** The decimal digit character for `n`. */
  function Digit(n: int): (c: char)
    requires 0 <= n <= 9
    ensures IsDigit(c) && c as int - 48 == n
  {
    (48 + n) as char
  }

  /** `String(n)` for a non-negative integer: its decimal digits, no leading zeros. */
  function DecimalString(n: nat): (s: string)
    ensures s != [] && AllDigits(s)
    ensures |s| == 1 <==> n < 10
  {
    if n < 10 then [Digit(n)] else DecimalString(n / 10) + [Digit(n % 10)]
  }

  /** `String(n)` for any integer: a minus sign before the digits of a negative number. */
  function IntString(n: int): (s: string)
    ensures s != []
    ensures s[0] == '-' <==> n < 0
  {
    if n < 0 then "-" + DecimalString(-n) else DecimalString(n)
  }

  /** `s.padStart(width, c)`: `s` preceded by as many `c` as make it `width` long. */
  function PadStart(s: string, width: nat, c: char): (r: string)
    ensures |r| == if |s| >= width then |s| else width
    ensures |s| >= width ==> r == s
  {
    if |s| >= width then s else seq(width - |s|, _ => c) + s
  }

  /** Padding only adds fill characters in front: the original string ends the result. */
  lemma PadStartSpec(s: string, width: nat, c: char)
    ensures var r := PadStart(s, width, c);
      && r[|r| - |s|..] == s
      && forall i :: 0 <= i < |r| - |s| ==> r[i] == c
  {
  }

  /**
   * `getKoreanDateString(date)`: the year as `String` prints it, then the
   * month and the day, each padded to two digits, joined by `-`.
   */
  function KoreanDateString(d: Date): (s: string)
    requires ValidDate(d)
    ensures |s| == |IntString(d.year)| + 6 && s[|s| - 6] == '-' && s[|s| - 3] == '-'
    ensures s[..|s| - 6] == IntString(d.year)
    ensures s[|s| - 5..|s| - 3] == Fixed(d.month, 2) && s[|s| - 2..] == Fixed(d.day, 2)
  {
    PadTwo(d.month);
    PadTwo(d.day);
    IntString(d.year) + "-" + PadStart(DecimalString(d.month), 2, '0') + "-"
      + PadStart(DecimalString(d.day), 2, '0')
  }

  /** The last `w` decimal digits of `n`, zero-filled on the left. */
  function Fixed(n: nat, w: nat): (s: string)
    ensures |s| == w && AllDigits(s)
  {
    if w == 0 then [] else Fixed(n / 10, w - 1) + [Digit(n % 10)]
  }

  /** The number a string of decimal digits denotes. */
  function DigitsValue(s: string): (n: nat)
    requires AllDigits(s)
    ensures n < Pow10(|s|)
  {
    if s == [] then 0 else DigitsValue(s[..|s| - 1]) * 10 + (s[|s| - 1] as int - 48)
  }

  /** The fixed-width `YYYY-MM-DD` form of a date whose year has at most four digits. */
  function IsoDateString(d: Date): (s: string)
    requires ValidDate(d) && 0 <= d.year <= 9999
    ensures |s| == 10 && s[4] == '-' && s[7] == '-'
  {
    Fixed(d.year, 4) + "-" + Fixed(d.month, 2) + "-" + Fixed(d.day, 2)
  }

  /**
   * The calendar date that `new Date(s)` denotes for a date-only
   * `YYYY-MM-DD` string, or `None` where it yields an invalid date.
   */
  function Parse(s: string): (r: Option<Date>)
    ensures r.Some? ==> ValidDate(r.value) && 0 <= r.value.year <= 9999
  {
    if |s| == 10 && s[4] == '-' && s[7] == '-'
       && AllDigits(s[..4]) && AllDigits(s[5..7]) && AllDigits(s[8..])
    then
      var d := Date(DigitsValue(s[..4]), DigitsValue(s[5..7]), DigitsValue(s[8..]));
      assert Pow10(4) == 10000;
      if ValidDate(d) then Some(d) else None
    else None
  }

  /** Without leading zeros, a `w`-digit number prints as its `w` fixed digits. */
  lemma {:induction false} DecimalIsFixed(n: nat, w: nat)
    requires 1 <= w && n < Pow10(w) && (w == 1 || Pow10(w - 1) <= n)
    ensures DecimalString(n) == Fixed(n, w)
    decreases w
  {
    if w == 1 {
      assert Fixed(n / 10, 0) == [];
    } else {
      assert Pow10(w - 1) == 10 * Pow10(w - 2);
      assert n >= 10;
      DecimalIsFixed(n / 10, w - 1);
    }
  }

  /** Padding a day or month number to two digits gives its two fixed digits. */
  lemma PadTwo(n: nat)
    requires 1 <= n <= 99
    ensures PadStart(DecimalString(n), 2, '0') == Fixed(n, 2)
  {
    if n < 10 {
      assert Fixed(n, 2) == Fixed(0, 1) + [Digit(n)];
      assert Fixed(0, 1) == [] + [Digit(0)];
    } else {
      DecimalIsFixed(n, 2);
    }
  }

  /** For years 1000 to 9999, `getKoreanDateString` produces the fixed-width form. */
  lemma KoreanDateStringIsIso(d: Date)
    requires ValidDate(d) && 1000 <= d.year <= 9999
    ensures KoreanDateString(d) == IsoDateString(d)
  {
    assert Pow10(4) == 10000 && Pow10(3) == 1000;
    DecimalIsFixed(d.year, 4);
    PadTwo(d.month);
    PadTwo(d.day);
  }

  /** Reading the fixed digits of `n` back gives `n`. */
  lemma {:induction false} FixedValue(n: nat, w: nat)
    requires n < Pow10(w)
    ensures DigitsValue(Fixed(n, w)) == n
    decreases w
  {
    if w > 0 {
      var s := Fixed(n, w);
      assert s[..|s| - 1] == Fixed(n / 10, w - 1);
      FixedValue(n / 10, w - 1);
    }
  }

  /** Printing the value of a digit string with its own width gives the string back. */
  lemma {:induction false} ValueFixed(s: string)
    requires AllDigits(s)
    ensures Fixed(DigitsValue(s), |s|) == s
    decreases |s|
  {
    if s != [] {
      var n := DigitsValue(s);
      var init := s[..|s| - 1];
      ValueFixed(init);
      assert n / 10 == DigitsValue(init) && n % 10 == s[|s| - 1] as int - 48;
      assert s == init + [s[|s| - 1]];
    }
  }

  /** Two equal-length concatenations are equal exactly when their parts are. */
  lemma ConcatEq(a: string, b: string, c: string, d: string)
    requires |a| == |c|
    ensures a + b == c + d <==> a == c && b == d
  {
    if a + b == c + d {
      assert a == (a + b)[..|a|] && c == (c + d)[..|c|];
      assert b == (a + b)[|a|..] && d == (c + d)[|c|..];
    }
  }

  /**
   * Fixed-width digit strings compare as strings exactly as their numbers
   * compare, and are equal exactly when the numbers are.
   */
  lemma {:induction false} FixedOrder(x: nat, y: nat, w: nat)
    requires x < Pow10(w) && y < Pow10(w)
    ensures StrLess(Fixed(x, w), Fixed(y, w)) <==> x < y
    ensures Fixed(x, w) == Fixed(y, w) <==> x == y
    decreases w
  {
    if w > 0 {
      var hx, hy := Fixed(x / 10, w - 1), Fixed(y / 10, w - 1);
      var dx, dy := [Digit(x % 10)], [Digit(y % 10)];
      FixedOrder(x / 10, y / 10, w - 1);
      StrLessConcat(hx, dx, hy, dy);
      ConcatEq(hx, dx, hy, dy);
      assert StrLess(dx, dy) <==> x % 10 < y % 10 by {
        assert dx[1..] == [] && dy[1..] == [];
      }
    } else {
      FixedValue(x, 0);
      FixedValue(y, 0);
    }
  }

  /**
   * Fixed-width date strings compare as strings exactly as the dates
   * compare chronologically.
   */
  lemma IsoDateStringOrder(a: Date, b: Date)
    requires ValidDate(a) && 0 <= a.year <= 9999
    requires ValidDate(b) && 0 <= b.year <= 9999
    ensures StrLess(IsoDateString(a), IsoDateString(b)) <==> DateBefore(a, b)
    ensures IsoDateString(a) == IsoDateString(b) <==> a == b
  {
    assert Pow10(4) == 10000 && Pow10(2) == 100;
    var ya, yb := Fixed(a.year, 4), Fixed(b.year, 4);
    var ma, mb := Fixed(a.month, 2), Fixed(b.month, 2);
    var da, db := Fixed(a.day, 2), Fixed(b.day, 2);
    FixedOrder(a.year, b.year, 4);
    FixedOrder(a.month, b.month, 2);
    FixedOrder(a.day, b.day, 2);
    StrLessIrreflexive("-");
    // Peel the fields off from the right: YYYY-MM-DD = (((YYYY + -) + MM) + -) + DD.
    StrLessConcat(ya + "-" + ma + "-", da, yb + "-" + mb + "-", db);
    ConcatEq(ya + "-" + ma + "-", da, yb + "-" + mb + "-", db);
    StrLessConcat(ya + "-" + ma, "-", yb + "-" + mb, "-");
    ConcatEq(ya + "-" + ma, "-", yb + "-" + mb, "-");
    StrLessConcat(ya + "-", ma, yb + "-", mb);
    ConcatEq(ya + "-", ma, yb + "-", mb);
    StrLessConcat(ya, "-", yb, "-");
    ConcatEq(ya, "-", yb, "-");
  }

  /** A string `Parse` accepts is the fixed-width form of the date it denotes. */
  lemma ParseIsIso(s: string)
    requires Parse(s).Some?
    ensures s == IsoDateString(Parse(s).value)
  {
    ValueFixed(s[..4]);
    ValueFixed(s[5..7]);
    ValueFixed(s[8..]);
    assert s == s[..4] + "-" + s[5..7] + "-" + s[8..];
  }

  /** The fixed-width form of a date parses back to that date. */
  lemma ParseIso(d: Date)
    requires ValidDate(d) && 0 <= d.year <= 9999
    ensures Parse(IsoDateString(d)) == Some(d)
  {
    var s := IsoDateString(d);
    assert Pow10(4) == 10000 && Pow10(2) == 100;
    assert s[..4] == Fixed(d.year, 4);
    assert s[5..7] == Fixed(d.month, 2);
    assert s[8..] == Fixed(d.day, 2);
    FixedValue(d.year, 4);
    FixedValue(d.month, 2);
    FixedValue(d.day, 2);
  }

  /** Round trip: the strings `getKoreanDateString` builds for four-digit years parse back to their date. */
  lemma ParseKoreanDateString(d: Date)
    requires ValidDate(d) && 1000 <= d.year <= 9999
    ensures Parse(KoreanDateString(d)) == Some(d)
  {
    KoreanDateStringIsIso(d);
    ParseIso(d);
  }

  /**
   * On strings that denote dates, JavaScript's string `<` agrees with the
   * comparison of the parsed dates, and string equality with date equality.
   */
  lemma ParsedStringOrder(s: string, t: string)
    requires Parse(s).Some? && Parse(t).Some?
    ensures StrLess(s, t) <==> DayNumber(Parse(s).value) < DayNumber(Parse(t).value)
    ensures s == t <==> Parse(s) == Parse(t)
  {
    var a, b := Parse(s).value, Parse(t).value;
    ParseIsIso(s);
    ParseIsIso(t);
    IsoDateStringOrder(a, b);
    DayNumberOrder(a, b);
  }

  /**
   * For four-digit years, comparing the strings `getKoreanDateString`
   * builds is comparing the dates chronologically.
   */
  lemma KoreanDateStringOrder(a: Date, b: Date)
    requires ValidDate(a) && 1000 <= a.year <= 9999
    requires ValidDate(b) && 1000 <= b.year <= 9999
    ensures StrLess(KoreanDateString(a), KoreanDateString(b)) <==> DayNumber(a) < DayNumber(b)
    ensures KoreanDateString(a) == KoreanDateString(b) <==> a == b
  {
    KoreanDateStringIsIso(a);
    KoreanDateStringIsIso(b);
    IsoDateStringOrder(a, b);
    DayNumberOrder(a, b);
  }

}
