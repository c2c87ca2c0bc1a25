/**
 * The row cleaner `process_data`: drop incomplete rows and leaked header
 * rows, coerce quantity and price to numbers (a failure gives a null), parse
 * the order date with the fixed pattern `%m/%d/%y %H:%M` and drop the rows
 * whose date fails, then derive the period, the month, the city label and
 * the sales amount.
 *
 * Money is held in integer cents, so `Sales = Quantity Ordered * Price Each` is exact.
 */
module Process {
  import opened Wrappers
  import opened Text

  /** The header label that leaked header rows carry in their order-id column. */
  const HeaderOrderId := "Order ID"

  // ---------------------------------------------------------------- records

  /** A row as read from the extracts: every column is text, or null when missing. */
  datatype RawRecord = RawRecord(
    orderId: Option<string>,
    product: Option<string>,
    quantityOrdered: Option<string>,
    priceEach: Option<string>,
    orderDate: Option<string>,
    purchaseAddress: Option<string>)

  /** A row with no missing column. */
  datatype Row = Row(
    orderId: string,
    product: string,
    quantityOrdered: string,
    priceEach: string,
    orderDate: string,
    purchaseAddress: string)

  datatype DateTime = DateTime(year: int, month: int, day: int, hour: int, minute: int)

  /** A pandas `Period` of frequency "M". */
  datatype YearMonth = YearMonth(year: int, month: int)

  /** A row after numeric and date coercion: each coerced column may be null. */
  datatype Typed = Typed(
    orderId: string,
    product: string,
    quantity: Option<int>,
    priceCents: Option<int>,
    orderDate: Option<DateTime>,
    purchaseAddress: string)

  /** A row of the cleaned table. */
  datatype CleanRecord = CleanRecord(
    orderId: string,
    product: string,
    quantity: Option<int>,
    priceCents: Option<int>,
    orderDate: DateTime,
    purchaseAddress: string,
    yearMonth: YearMonth,
    month: int,
    city: string,
    sales: Option<int>)

  /** The batch fails when a kept row's address does not have the expected shape (an `IndexError`). */
  datatype CleanError = MalformedAddress(address: string)

  // ------------------------------------------------------- number coercion

  predicate IsDigit(c: char) {
    '0' <= c <= '9'
  }

  predicate AllDigits(s: string) {
    forall i | 0 <= i < |s| :: IsDigit(s[i])
  }

  function DigitValue(c: char): (r: nat)
    requires IsDigit(c)
    ensures r < 10
  {
    c as int - '0' as int
  }

  function DigitChar(d: nat): (c: char)
    requires d < 10
    ensures IsDigit(c) && DigitValue(c) == d
  {
    ('0' as int + d) as char
  }

  /** The value of a string of decimal digits. */
  function NatValue(s: string): nat
    requires AllDigits(s)
  {
    if s == [] then 0 else NatValue(s[..|s| - 1]) * 10 + DigitValue(s[|s| - 1])
  }

  /** A non-empty string of decimal digits, read as a number. */
  function ParseDigits(s: string): (r: Option<nat>)
    ensures r.Some? <==> s != [] && AllDigits(s)
  {
    if s != [] && AllDigits(s) then Some(NatValue(s)) else None
  }

  /** The decimal spelling of a number, without leading zeros. */
  function NatToString(n: nat): (s: string)
    ensures s != [] && AllDigits(s)
  {
    if n < 10 then [DigitChar(n)] else NatToString(n / 10) + [DigitChar(n % 10)]
  }

  lemma {:induction false} NatToStringValue(n: nat)
    ensures NatValue(NatToString(n)) == n
  {
    if n >= 10 {
      NatToStringValue(n / 10);
      var s := NatToString(n);
      assert s[..|s| - 1] == NatToString(n / 10);
    }
  }

  /** An optional leading sign: the factor it stands for and the rest of the text. */
  function SplitSign(s: string): (int, string) {
    if s != [] && s[0] == '-' then (-1, s[1..])
    else if s != [] && s[0] == '+' then (1, s[1..])
    else (1, s)
  }

  /** `pd.to_numeric(..., errors="coerce")` on the quantity column: an optionally signed whole number, else null. */
  function ToQuantity(s: string): (r: Option<int>)
    ensures r.Some? ==> s != [] && forall i | 0 <= i < |s| :: IsDigit(s[i]) || (i == 0 && (s[i] == '-' || s[i] == '+'))
  {
    var (sign, digits) := SplitSign(s);
    match ParseDigits(digits)
    case Some(n) => Some(sign * n)
    case None => None
  }

  /** The cents in an unsigned decimal with at most two fraction digits. */
  function UnsignedCents(u: string): (r: Option<nat>)
    ensures r.Some? ==> u != [] && forall i | 0 <= i < |u| :: IsDigit(u[i]) || u[i] == '.'
  {
    var parts := Split(u, '.');
    if |parts| == 1 then
      match ParseDigits(parts[0])
      case Some(n) => assert u == parts[0] by { JoinSplit(u, '.'); } Some(n * 100)
      case None => None
    else if |parts| == 2 && |parts[1]| <= 2 && AllDigits(parts[0]) && AllDigits(parts[1]) && parts[0] + parts[1] != [] then
      var whole := NatValue(parts[0]);
      var frac := NatValue(parts[1]);
      assert u == parts[0] + "." + parts[1] by {
        JoinSplit(u, '.');
        assert parts[1..] == [parts[1]];
      }
      Some(whole * 100 + (if |parts[1]| == 1 then frac * 10 else frac))
    else None
  }

  /** `pd.to_numeric(..., errors="coerce")` on the price column, in cents: an optionally signed decimal, else null. */
  function ToPriceCents(s: string): (r: Option<int>)
    ensures r.Some? ==> s != [] && forall i | 0 <= i < |s| :: IsDigit(s[i]) || s[i] == '.' || (i == 0 && (s[i] == '-' || s[i] == '+'))
  {
    var (sign, digits) := SplitSign(s);
    match UnsignedCents(digits)
    case Some(n) => Some(sign * n)
    case None => None
  }

  /** A whole number reads back from its decimal spelling. */
  lemma QuantityRoundTrip(n: nat)
    ensures ToQuantity(NatToString(n)) == Some(n)
  {
    NatToStringValue(n);
  }

  /** Two digits, zero-padded. */
  function Pad2(n: nat): (s: string)
    requires n < 100
    ensures |s| == 2 && AllDigits(s)
  {
    [DigitChar(n / 10), DigitChar(n % 10)]
  }

  /** A price in cents, spelled as `<units>.<two digits>`. */
  function FormatCents(c: nat): string {
    NatToString(c / 100) + "." + Pad2(c % 100)
  }

  /** A non-negative price reads back, in cents, from its two-decimal spelling. */
  lemma {:induction false} PriceRoundTrip(c: nat)
    ensures ToPriceCents(FormatCents(c)) == Some(c)
  {
    var w, f := NatToString(c / 100), Pad2(c % 100);
    var s := w + "." + f;
    assert s == w + ['.'] + f;
    assert '.' !in w by { assert forall i | 0 <= i < |w| :: IsDigit(w[i]); }
    assert '.' !in f by { assert IsDigit(f[0]) && IsDigit(f[1]); }
    SplitAt(w, '.', f);
    SplitNoSep(f, '.');
    assert Split(s, '.') == [w, f];
    assert s[0] == w[0] && IsDigit(w[0]);
    assert SplitSign(s) == (1, s);
    NatToStringValue(c / 100);
    TwoDigitValue(f);
  }

  lemma TwoDigitValue(f: string)
    requires |f| == 2 && AllDigits(f)
    ensures NatValue(f) == DigitValue(f[0]) * 10 + DigitValue(f[1])
  {
    assert f[..1][..0] == [];
    assert NatValue(f[..1]) == DigitValue(f[0]);
  }

  /** The spellings of an optional leading sign. */
  predicate IsSign(sign: string) {
    sign == "" || sign == "-" || sign == "+"
  }

  /** The factor a sign stands for. */
  function SignFactor(sign: string): int {
    if sign == "-" then -1 else 1
  }

  lemma SplitSignOf(sign: string, rest: string)
    requires IsSign(sign)
    requires rest == [] || IsDigit(rest[0]) || rest[0] == '.'
    ensures SplitSign(sign + rest) == (SignFactor(sign), rest)
  {
    if sign != "" {
      assert (sign + rest)[1..] == rest;
    } else {
      assert sign + rest == rest;
    }
  }

  /** An optional sign followed by digits converts to the signed value of the digits; a bare sign is null. */
  lemma {:induction false} QuantitySpelling(sign: string, digits: string)
    requires IsSign(sign) && AllDigits(digits)
    ensures ToQuantity(sign + digits) == if digits == [] then None else Some(SignFactor(sign) * NatValue(digits))
  {
    SplitSignOf(sign, digits);
  }

  /** Only an optional sign followed by digits converts, and to the signed value of the digits. */
  lemma {:induction false} QuantityOnlySpelling(s: string)
    requires ToQuantity(s).Some?
    ensures exists sign, digits ::
              && IsSign(sign) && digits != [] && AllDigits(digits) && s == sign + digits
              && ToQuantity(s) == Some(SignFactor(sign) * NatValue(digits))
  {
    var (f, digits) := SplitSign(s);
    var sign := if s[0] == '-' then "-" else if s[0] == '+' then "+" else "";
    assert s == sign + digits;
    assert SignFactor(sign) == f;
  }

  /** The cents that one or two fraction digits stand for: ".5" is 50 cents, ".05" is 5. */
  function FractionCents(frac: string): (r: nat)
    requires |frac| <= 2 && AllDigits(frac)
    ensures r < 100
  {
    NatValueBound(frac);
    if |frac| == 1 then NatValue(frac) * 10 else NatValue(frac)
  }

  lemma {:induction false} NatValueBound(s: string)
    requires AllDigits(s)
    ensures |s| == 1 ==> NatValue(s) < 10
    ensures |s| == 2 ==> NatValue(s) < 100
  {
    if s != [] {
      NatValueBound(s[..|s| - 1]);
    }
  }

  /** An optionally signed whole number of units converts to that many hundreds of cents; a bare sign is null. */
  lemma {:induction false} PriceWholeSpelling(sign: string, whole: string)
    requires IsSign(sign) && AllDigits(whole)
    ensures ToPriceCents(sign + whole) == if whole == [] then None else Some(SignFactor(sign) * NatValue(whole) * 100)
  {
    SplitSignOf(sign, whole);
    NoSeparatorIn(whole);
    SplitNoSep(whole, '.');
  }

  /**
   * An optionally signed decimal with at most two fraction digits, and at
   * least one digit on either side of the point, converts to its value in cents.
   */
  lemma {:induction false} PriceDecimalSpelling(sign: string, whole: string, frac: string)
    requires IsSign(sign) && AllDigits(whole) && AllDigits(frac) && |frac| <= 2
    requires whole + frac != []
    ensures ToPriceCents(sign + whole + "." + frac)
         == Some(SignFactor(sign) * (NatValue(whole) * 100 + FractionCents(frac)))
  {
    var u := whole + "." + frac;
    assert sign + whole + "." + frac == sign + u;
    SplitSignOf(sign, u);
    UnsignedDecimal(whole, frac);
  }

  lemma {:induction false} UnsignedDecimal(whole: string, frac: string)
    requires AllDigits(whole) && AllDigits(frac) && |frac| <= 2 && whole + frac != []
    ensures UnsignedCents(whole + "." + frac) == Some(NatValue(whole) * 100 + FractionCents(frac))
  {
    var u := whole + "." + frac;
    NoSeparatorIn(whole);
    NoSeparatorIn(frac);
    assert u == whole + ['.'] + frac;
    SplitAt(whole, '.', frac);
    SplitNoSep(frac, '.');
    assert Split(u, '.') == [whole, frac];
  }

  /**
   * Only the spellings of the two lemmas above convert: an optional sign and
   * digits, optionally with one point followed by at most two digits.
   */
  lemma {:induction false} PriceOnlySpelling(s: string)
    requires ToPriceCents(s).Some?
    ensures exists sign, whole, point, frac ::
              && IsSign(sign) && AllDigits(whole) && AllDigits(frac) && |frac| <= 2
              && whole + frac != [] && (point == "." || (point == "" && frac == []))
              && s == sign + whole + point + frac
              && ToPriceCents(s) == Some(SignFactor(sign) * (NatValue(whole) * 100 + FractionCents(frac)))
  {
    var (f, u) := SplitSign(s);
    var sign := if s[0] == '-' then "-" else if s[0] == '+' then "+" else "";
    assert s == sign + u;
    assert SignFactor(sign) == f;
    var whole, point, frac := UnsignedOnlySpelling(u);
    assert s == sign + whole + point + frac;
  }

  lemma {:induction false} UnsignedOnlySpelling(u: string) returns (whole: string, point: string, frac: string)
    requires UnsignedCents(u).Some?
    ensures AllDigits(whole) && AllDigits(frac) && |frac| <= 2
    ensures whole + frac != [] && (point == "." || (point == "" && frac == []))
    ensures u == whole + point + frac
    ensures UnsignedCents(u) == Some(NatValue(whole) * 100 + FractionCents(frac))
  {
    var parts := Split(u, '.');
    JoinSplit(u, '.');
    if |parts| == 1 {
      whole, point, frac := parts[0], "", [];
      assert u == whole + point + frac;
    } else {
      assert parts[1..] == [parts[1]];
      whole, point, frac := parts[0], ".", parts[1];
    }
  }

  /** A negative quantity and a negative one-decimal price are accepted, with their signs. */
  lemma NegativeNumbersConvert()
    ensures ToQuantity("-5") == Some(-5)
    ensures ToPriceCents("-1.5") == Some(-150)
  {
    QuantitySpelling("-", "5");
    assert "-5" == "-" + "5";
    PriceDecimalSpelling("-", "1", "5");
    assert "-1.5" == "-" + "1" + "." + "5";
  }

  // --------------------------------------------------------- date parsing

  predicate IsLeapYear(y: int) {
    y % 4 == 0 && (y % 100 != 0 || y % 400 == 0)
  }

  function DaysInMonth(y: int, m: int): int
    requires 1 <= m <= 12
  {
    if m == 2 then (if IsLeapYear(y) then 29 else 28)
    else if m == 4 || m == 6 || m == 9 || m == 11 then 30
    else 31
  }

  /** A calendar date-time: the month exists, the day exists in that month, the clock time is on a day. */
  predicate ValidDateTime(d: DateTime) {
    && 1 <= d.month <= 12
    && 1 <= d.day <= DaysInMonth(d.year, d.month)
    && 0 <= d.hour <= 23
    && 0 <= d.minute <= 59
  }

  /** `%y`: 69-99 are 1969-1999 and 00-68 are 2000-2068. */
  function ExpandYear(yy: nat): int {
    if yy < 69 then 2000 + yy else 1900 + yy
  }

  /** A one- or two-digit field (`%m`, `%d`, `%H`, `%M`). */
  function ShortField(s: string): (r: Option<nat>)
    ensures r.Some? ==> r.value < 100
  {
    if |s| == 1 && IsDigit(s[0]) then Some(DigitValue(s[0]))
    else if |s| == 2 && IsDigit(s[0]) && IsDigit(s[1]) then Some(DigitValue(s[0]) * 10 + DigitValue(s[1]))
    else None
  }

  /** A field of exactly two digits (`%y`). */
  function TwoDigitField(s: string): (r: Option<nat>)
    ensures r.Some? ==> r.value < 100
  {
    if |s| == 2 then ShortField(s) else None
  }

  /** `pd.to_datetime(s, format="%m/%d/%y %H:%M", errors="coerce")`: a date-time, or null when the text does not fit. */
  function ParseDate(s: string): (r: Option<DateTime>)
    ensures r.Some? ==> ValidDateTime(r.value) && 1969 <= r.value.year <= 2068
  {
    var halves := Split(s, ' ');
    if |halves| != 2 then None
    else
      var date, time := Split(halves[0], '/'), Split(halves[1], ':');
      if |date| != 3 || |time| != 2 then None
      else
        match (ShortField(date[0]), ShortField(date[1]), TwoDigitField(date[2]), ShortField(time[0]), ShortField(time[1]))
        case (Some(mo), Some(d), Some(yy), Some(h), Some(mi)) =>
          var dt := DateTime(ExpandYear(yy), mo, d, h, mi);
          if ValidDateTime(dt) then Some(dt) else None
        case _ => None
  }

  /** The date-time spelled with the pattern `%m/%d/%y %H:%M`. */
  function FormatDate(d: DateTime): string
    requires ValidDateTime(d)
  {
    Pad2(d.month) + "/" + Pad2(d.day) + "/" + Pad2(d.year % 100) + " " + Pad2(d.hour) + ":" + Pad2(d.minute)
  }


  /** A one- or two-digit field, as `%m`, `%d`, `%H` and `%M` accept. */
  predicate DigitField(f: string) {
    1 <= |f| <= 2 && AllDigits(f)
  }

  /** A text in the pattern `%m/%d/%y %H:%M`, from its five fields. */
  function DateText(mo: string, dd: string, yy: string, hh: string, mi: string): string {
    mo + "/" + dd + "/" + yy + " " + hh + ":" + mi
  }

  /** The date-time that five digit fields stand for, the year placed by `%y`'s pivot. */
  function SpelledDate(mo: string, dd: string, yy: string, hh: string, mi: string): DateTime
    requires AllDigits(mo) && AllDigits(dd) && AllDigits(yy) && AllDigits(hh) && AllDigits(mi)
  {
    DateTime(ExpandYear(NatValue(yy)), NatValue(mo), NatValue(dd), NatValue(hh), NatValue(mi))
  }

  /** A field reads exactly when it is one or two digits (the year exactly two), as the value of its digits. */
  lemma FieldValue(f: string)
    ensures ShortField(f).Some? <==> DigitField(f)
    ensures TwoDigitField(f).Some? <==> DigitField(f) && |f| == 2
    ensures DigitField(f) ==> ShortField(f) == Some(NatValue(f))
  {
    if |f| == 2 && AllDigits(f) {
      TwoDigitValue(f);
    } else if |f| == 1 {
      assert f[..0] == [];
    }
  }

  /**
   * A text made of five digit fields in the pattern parses exactly when the
   * date-time they spell exists, and then to that date-time.
   */
  lemma {:induction false} DateSpelling(mo: string, dd: string, yy: string, hh: string, mi: string)
    requires DigitField(mo) && DigitField(dd) && DigitField(yy) && |yy| == 2 && DigitField(hh) && DigitField(mi)
    ensures var d := SpelledDate(mo, dd, yy, hh, mi);
      ParseDate(DateText(mo, dd, yy, hh, mi)) == if ValidDateTime(d) then Some(d) else None
  {
    DateTextSplits(mo, dd, yy, hh, mi);
    FieldValue(mo); FieldValue(dd); FieldValue(yy); FieldValue(hh); FieldValue(mi);
  }

  /** The three splits `ParseDate` performs take a text in the pattern apart into its five fields. */
  lemma {:induction false} DateTextSplits(mo: string, dd: string, yy: string, hh: string, mi: string)
    requires AllDigits(mo) && AllDigits(dd) && AllDigits(yy) && AllDigits(hh) && AllDigits(mi)
    ensures Split(DateText(mo, dd, yy, hh, mi), ' ') == [mo + "/" + dd + "/" + yy, hh + ":" + mi]
    ensures Split(mo + "/" + dd + "/" + yy, '/') == [mo, dd, yy]
    ensures Split(hh + ":" + mi, ':') == [hh, mi]
  {
    var date := mo + "/" + dd + "/" + yy;
    var time := hh + ":" + mi;
    assert DateText(mo, dd, yy, hh, mi) == date + [' '] + time;
    NoSeparatorIn(mo); NoSeparatorIn(dd); NoSeparatorIn(yy); NoSeparatorIn(hh); NoSeparatorIn(mi);
    assert ' ' !in date && ' ' !in time by {
      assert forall i | 0 <= i < |date| :: IsDigit(date[i]) || date[i] == '/';
      assert forall i | 0 <= i < |time| :: IsDigit(time[i]) || time[i] == ':';
    }
    SplitAt(date, ' ', time);
    SplitNoSep(time, ' ');
    assert Split(DateText(mo, dd, yy, hh, mi), ' ') == [date, time];
    assert date == mo + ['/'] + (dd + ['/'] + yy);
    SplitAt(mo, '/', dd + ['/'] + yy);
    SplitAt(dd, '/', yy);
    SplitNoSep(yy, '/');
    assert Split(date, '/') == [mo, dd, yy];
    assert time == hh + [':'] + mi;
    SplitAt(hh, ':', mi);
    SplitNoSep(mi, ':');
    assert Split(time, ':') == [hh, mi];
  }

  /** Only texts of five digit fields in the pattern parse, each to the date-time its fields spell. */
  lemma {:induction false} DateOnlySpelling(s: string)
    requires ParseDate(s).Some?
    ensures exists mo, dd, yy, hh, mi ::
              && DigitField(mo) && DigitField(dd) && DigitField(yy) && |yy| == 2 && DigitField(hh) && DigitField(mi)
              && s == DateText(mo, dd, yy, hh, mi)
              && ParseDate(s) == Some(SpelledDate(mo, dd, yy, hh, mi))
  {
    var halves := Split(s, ' ');
    SplitTwo(s, ' ');
    var date, time := Split(halves[0], '/'), Split(halves[1], ':');
    SplitThree(halves[0], '/');
    SplitTwo(halves[1], ':');
    var mo, dd, yy, hh, mi := date[0], date[1], date[2], time[0], time[1];
    FieldValue(mo); FieldValue(dd); FieldValue(yy); FieldValue(hh); FieldValue(mi);
    assert s == DateText(mo, dd, yy, hh, mi);
  }

  /** Unpadded fields parse: "1/2/19 3:04" is 2 January 2019, 03:04. */
  lemma DateExample()
    ensures ParseDate("1/2/19 3:04") == Some(DateTime(2019, 1, 2, 3, 4))
  {
    var mo, dd, yy, hh, mi := "1", "2", "19", "3", "04";
    assert NatValue(mo) == 1 && NatValue(dd) == 2 && NatValue(hh) == 3 by {
      assert mo[..0] == [] && dd[..0] == [] && hh[..0] == [];
    }
    TwoDigitValue(yy);
    TwoDigitValue(mi);
    var d := DateTime(2019, 1, 2, 3, 4);
    assert SpelledDate(mo, dd, yy, hh, mi) == d;
    assert ValidDateTime(d);
    DateSpelling(mo, dd, yy, hh, mi);
    assert DateText(mo, dd, yy, hh, mi) == "1/2/19 3:04";
  }

  lemma Pad2Value(n: nat)
    requires n < 100
    ensures DigitField(Pad2(n)) && |Pad2(n)| == 2 && NatValue(Pad2(n)) == n
  {
    TwoDigitValue(Pad2(n));
  }

  /** Every date-time in the pattern's range of years reads back from its own spelling. */
  lemma {:induction false} DateRoundTrip(d: DateTime)
    requires ValidDateTime(d) && 1969 <= d.year <= 2068
    ensures ParseDate(FormatDate(d)) == Some(d)
  {
    var mo, dd, yy, hh, mi := Pad2(d.month), Pad2(d.day), Pad2(d.year % 100), Pad2(d.hour), Pad2(d.minute);
    assert FormatDate(d) == DateText(mo, dd, yy, hh, mi);
    Pad2Value(d.month); Pad2Value(d.day); Pad2Value(d.year % 100); Pad2Value(d.hour); Pad2Value(d.minute);
    assert ExpandYear(d.year % 100) == d.year;
    assert SpelledDate(mo, dd, yy, hh, mi) == d;
    DateSpelling(mo, dd, yy, hh, mi);
  }

  lemma NoSeparatorIn(s: string)
    requires AllDigits(s)
    ensures ' ' !in s && '/' !in s && ':' !in s && '.' !in s
  {
    forall i | 0 <= i < |s| ensures s[i] != ' ' && s[i] != '/' && s[i] != ':' && s[i] != '.' {
      assert IsDigit(s[i]);
    }
  }

  // ----------------------------------------------------- address parsing

  /** `extract_city`: `address.split(",")[1].strip()`, failing when there is no second piece. */
  function ExtractCity(address: string): (r: Option<string>)
    ensures r.Some? <==> |Split(address, ',')| >= 2
  {
    var parts := Split(address, ',');
    if |parts| < 2 then None else Some(Strip(parts[1]))
  }

  /** `extract_state`: `address.split(",")[2].split(" ")[1]`, failing when either piece is missing. */
  function ExtractState(address: string): (r: Option<string>)
    ensures r.Some? <==> |Split(address, ',')| >= 3 && |Split(Split(address, ',')[2], ' ')| >= 2
  {
    var parts := Split(address, ',');
    if |parts| < 3 then None
    else
      var words := Split(parts[2], ' ');
      if |words| < 2 then None else Some(words[1])
  }

  /** The derived `City` column: `"<city> (<state>)"`, failing as either extraction does. */
  function CityLabel(address: string): (r: Option<string>)
    ensures r.Some? <==> ExtractCity(address).Some? && ExtractState(address).Some?
  {
    match (ExtractCity(address), ExtractState(address))
    case (Some(city), Some(state)) => Some(city + " (" + state + ")")
    case _ => None
  }

  /**
   * An address of the shape `"<street>, <city>, <state> <zip>, <country>"` is
   * labelled `"<city> (<state>)"`.
   */
  lemma {:induction false} CityLabelOfShape(street: string, city: string, state: string, zip: string, country: string)
    requires ',' !in street && ',' !in city && ',' !in state && ',' !in zip
    requires ' ' !in state
    requires city != [] && !IsSpace(city[0]) && !IsSpace(city[|city| - 1])
    ensures CityLabel(street + ", " + city + ", " + state + " " + zip + ", " + country) == Some(city + " (" + state + ")")
  {
    var seg1, seg2 := " " + city, " " + state + " " + zip;
    var address := street + ", " + city + ", " + state + " " + zip + ", " + country;
    assert address == street + [','] + seg1 + [','] + seg2 + [','] + (" " + country);
    ThreePieces(street, seg1, seg2, " " + country);
    assert Strip(seg1) == city by {
      StripPadded(" ", city, "");
      assert " " + city + "" == seg1;
    }
    StateWord(state, zip);
  }

  /** The second and third comma-separated pieces of `a,b,c,rest`. */
  lemma ThreePieces(a: string, b: string, c: string, rest: string)
    requires ',' !in a && ',' !in b && ',' !in c
    ensures |Split(a + [','] + b + [','] + c + [','] + rest, ',')| >= 3
    ensures Split(a + [','] + b + [','] + c + [','] + rest, ',')[1] == b
    ensures Split(a + [','] + b + [','] + c + [','] + rest, ',')[2] == c
  {
    assert a + [','] + b + [','] + c + [','] + rest == a + [','] + (b + [','] + (c + [','] + rest));
    SplitAt(c, ',', rest);
    SplitAt(b, ',', c + [','] + rest);
    SplitAt(a, ',', b + [','] + (c + [','] + rest));
  }

  /** The second space-separated word of `" <state> <zip>"` is the state. */
  lemma StateWord(state: string, zip: string)
    requires ' ' !in state
    ensures |Split(" " + state + " " + zip, ' ')| >= 2
    ensures Split(" " + state + " " + zip, ' ')[1] == state
  {
    assert " " + state + " " + zip == [] + [' '] + (state + [' '] + zip);
    SplitAt(state, ' ', zip);
    SplitAt([], ' ', state + [' '] + zip);
  }

  /** The example from the report's data: `"917 1st St, Dallas, TX 75001, USA"` is `"Dallas (TX)"`. */
  lemma DallasExample()
    ensures CityLabel("917 1st St, Dallas, TX 75001, USA") == Some("Dallas (TX)")
  {
    var street, city, state, zip, country := "917 1st St", "Dallas", "TX", "75001", "USA";
    assert ',' !in street && ',' !in city && ',' !in state && ',' !in zip && ' ' !in state;
    CityLabelOfShape(street, city, state, zip, country);
    assert street + ", " + city + ", " + state + " " + zip + ", " + country == "917 1st St, Dallas, TX 75001, USA";
    assert city + " (" + state + ")" == "Dallas (TX)";
  }

  /** An address with fewer than three comma-separated pieces cannot be labelled. */
  lemma ShortAddressFails(address: string)
    requires |Split(address, ',')| < 3
    ensures CityLabel(address) == None
  {
  }

  // ------------------------------------------------------ the row cleaner

  /** No column of the raw row is missing. */
  predicate Complete(x: RawRecord) {
    && x.orderId.Some? && x.product.Some? && x.quantityOrdered.Some?
    && x.priceEach.Some? && x.orderDate.Some? && x.purchaseAddress.Some?
  }

  function ToRow(x: RawRecord): Row
    requires Complete(x)
  {
    Row(x.orderId.value, x.product.value, x.quantityOrdered.value, x.priceEach.value,
        x.orderDate.value, x.purchaseAddress.value)
  }

  /** `df.dropna()`: keep the rows with no missing column. */
  function DropNa(raw: seq<RawRecord>): (r: seq<Row>)
    ensures |r| <= |raw|
  {
    if raw == [] then []
    else
      var x := raw[|raw| - 1];
      DropNa(raw[..|raw| - 1]) + (if Complete(x) then [ToRow(x)] else [])
  }

  /** `df[df["Order ID"] != "Order ID"]`: drop the header rows that leaked into the data. */
  function DropHeaderRows(rows: seq<Row>): (r: seq<Row>)
    ensures |r| <= |rows|
  {
    if rows == [] then []
    else
      var x := rows[|rows| - 1];
      DropHeaderRows(rows[..|rows| - 1]) + (if x.orderId != HeaderOrderId then [x] else [])
  }

  /** The coercions of one row: quantity and price to numbers, the order date to a date-time, each null on failure. */
  function TypedOf(x: Row): Typed {
    Typed(x.orderId, x.product, ToQuantity(x.quantityOrdered), ToPriceCents(x.priceEach),
          ParseDate(x.orderDate), x.purchaseAddress)
  }

  /** The column conversions: `pd.to_numeric` on quantity and price, `pd.to_datetime` on the order date. */
  function Coerce(rows: seq<Row>): (r: seq<Typed>)
    ensures |r| == |rows|
    ensures DatesValid(r)
  {
    if rows == [] then [] else Coerce(rows[..|rows| - 1]) + [TypedOf(rows[|rows| - 1])]
  }

  /** Every date that parsed is a calendar date-time. */
  predicate DatesValid(rows: seq<Typed>) {
    forall i | 0 <= i < |rows| :: rows[i].orderDate.Some? ==> ValidDateTime(rows[i].orderDate.value)
  }

  /** `df.dropna(subset=["Order Date"])`: drop the rows whose date did not parse, and only those. */
  function DropInvalidDates(rows: seq<Typed>): (r: seq<Typed>)
    ensures |r| <= |rows|
    ensures forall i | 0 <= i < |r| :: r[i].orderDate.Some?
    ensures DatesValid(rows) ==> DatesValid(r)
  {
    if rows == [] then []
    else
      var x := rows[|rows| - 1];
      DropInvalidDates(rows[..|rows| - 1]) + (if x.orderDate.Some? then [x] else [])
  }

  /** The derived columns agree with the row: month and period come from the order date, `Sales = Quantity * Price`. */
  predicate Consistent(c: CleanRecord) {
    && ValidDateTime(c.orderDate)
    && c.month == c.orderDate.month
    && c.yearMonth == YearMonth(c.orderDate.year, c.orderDate.month)
    && (c.sales.Some? <==> c.quantity.Some? && c.priceCents.Some?)
    && (c.sales.Some? ==> c.sales.value == c.quantity.value * c.priceCents.value)
  }

  /** The derived columns of one dated row; fails when the address cannot be split. */
  function Enrich(t: Typed): (r: Option<CleanRecord>)
    requires t.orderDate.Some? && ValidDateTime(t.orderDate.value)
    ensures r.Some? <==> CityLabel(t.purchaseAddress).Some?
    ensures r.Some? ==> Consistent(r.value) && CityLabel(t.purchaseAddress) == Some(r.value.city)
    ensures r.Some? ==> ((r.value.orderId, r.value.product, r.value.quantity, r.value.priceCents, r.value.purchaseAddress)
                         == (t.orderId, t.product, t.quantity, t.priceCents, t.purchaseAddress))
    ensures r.Some? ==> Some(r.value.orderDate) == t.orderDate
  {
    var d := t.orderDate.value;
    match CityLabel(t.purchaseAddress)
    case None => None
    case Some(city) =>
      var sales := if t.quantity.Some? && t.priceCents.Some? then Some(t.quantity.value * t.priceCents.value) else None;
      Some(CleanRecord(t.orderId, t.product, t.quantity, t.priceCents, d, t.purchaseAddress,
                       YearMonth(d.year, d.month), d.month, city, sales))
  }

  /** The position of the first row whose address cannot be split, or the number of rows when there is none. */
  function FirstMalformed(rows: seq<Typed>): (f: nat)
    ensures f <= |rows|
    ensures forall j | 0 <= j < f :: CityLabel(rows[j].purchaseAddress).Some?
    ensures f < |rows| ==> CityLabel(rows[f].purchaseAddress).None?
  {
    if rows == [] then 0
    else
      var n := |rows| - 1;
      var f := FirstMalformed(rows[..n]);
      if f < n then f else if CityLabel(rows[n].purchaseAddress).None? then n else n + 1
  }

  /** The rows of a table all carry a valid parsed date. */
  predicate Dated(rows: seq<Typed>) {
    forall i | 0 <= i < |rows| :: rows[i].orderDate.Some? && ValidDateTime(rows[i].orderDate.value)
  }

  /**
   * Lines deriving `YearMonth`, `Month`, `City` and `Sales`: every row is
   * enriched, or the batch fails at the first row whose address is malformed.
   */
  function Derive(rows: seq<Typed>): Result<seq<CleanRecord>, CleanError>
    requires Dated(rows)
  {
    if rows == [] then Success([])
    else
      var n := |rows| - 1;
      assert forall i | 0 <= i < n :: rows[..n][i] == rows[i];
      match Derive(rows[..n])
      case Failure(e) => Failure(e)
      case Success(done) =>
        match Enrich(rows[n])
        case None => Failure(MalformedAddress(rows[n].purchaseAddress))
        case Some(c) => Success(done + [c])
  }

  /** The derivation succeeds exactly when no address is malformed; otherwise it names the first malformed one. */
  lemma DeriveSpec(rows: seq<Typed>)
    requires Dated(rows)
    ensures Derive(rows).Success? <==> FirstMalformed(rows) == |rows|
    ensures Derive(rows).Success? ==>
              |Derive(rows).value| == |rows| && forall i | 0 <= i < |rows| :: Enrich(rows[i]) == Some(Derive(rows).value[i])
    ensures Derive(rows).Failure? ==>
              FirstMalformed(rows) < |rows| && Derive(rows).error == MalformedAddress(rows[FirstMalformed(rows)].purchaseAddress)
  {
    DeriveSucceeds(rows);
    DeriveRows(rows);
    DeriveFails(rows);
  }

  lemma {:induction false} DeriveSucceeds(rows: seq<Typed>)
    requires Dated(rows)
    ensures Derive(rows).Success? <==> FirstMalformed(rows) == |rows|
  {
    if rows != [] {
      var n := |rows| - 1;
      assert Dated(rows[..n]);
      DeriveSucceeds(rows[..n]);
    }
  }

  lemma {:induction false} DeriveRows(rows: seq<Typed>)
    requires Dated(rows)
    ensures Derive(rows).Success? ==>
              |Derive(rows).value| == |rows| && forall i | 0 <= i < |rows| :: Enrich(rows[i]) == Some(Derive(rows).value[i])
  {
    if rows != [] {
      var n := |rows| - 1;
      var prefix := rows[..n];
      assert Dated(prefix);
      DeriveRows(prefix);
      if Derive(rows).Success? {
        var done := Derive(prefix).value;
        var c := Enrich(rows[n]).value;
        var r := done + [c];
        assert Derive(rows) == Success(r);
        forall i | 0 <= i < |rows| ensures Enrich(rows[i]) == Some(r[i]) {
          if i < n {
            assert r[i] == done[i] && prefix[i] == rows[i];
          }
        }
      }
    }
  }

  lemma {:induction false} DeriveFails(rows: seq<Typed>)
    requires Dated(rows)
    ensures Derive(rows).Failure? ==>
              FirstMalformed(rows) < |rows| && Derive(rows).error == MalformedAddress(rows[FirstMalformed(rows)].purchaseAddress)
  {
    if rows != [] {
      var n := |rows| - 1;
      var prefix := rows[..n];
      assert Dated(prefix) && forall i | 0 <= i < n :: prefix[i] == rows[i];
      DeriveFails(prefix);
      DeriveSucceeds(prefix);
    }
  }

  /** The rows that pass every filter, before the derived columns are added. */
  function Filtered(raw: seq<RawRecord>): (r: seq<Typed>)
    ensures Dated(r)
  {
    DropInvalidDates(Coerce(DropHeaderRows(DropNa(raw))))
  }

  /** `process_data`. */
  function ProcessData(raw: seq<RawRecord>): Result<seq<CleanRecord>, CleanError> {
    Derive(Filtered(raw))
  }

  // ------------------------------------------- what survives, row by row

  /** A raw row survives cleaning: no column missing, not a header row, and its date parses. */
  predicate Survives(x: RawRecord) {
    Complete(x) && x.orderId.value != HeaderOrderId && ParseDate(x.orderDate.value).Some?
  }

  /** The positions of the surviving raw rows, in increasing order. */
  function Kept(raw: seq<RawRecord>): (r: seq<nat>)
    ensures |r| <= |raw|
    ensures forall k | 0 <= k < |r| :: r[k] < |raw| && Survives(raw[r[k]])
    ensures forall k, l | 0 <= k < l < |r| :: r[k] < r[l]
    ensures forall i | 0 <= i < |raw| && Survives(raw[i]) :: i in r
  {
    if raw == [] then []
    else
      var n := |raw| - 1;
      var p := Kept(raw[..n]);
      assert forall i | 0 <= i < n :: raw[..n][i] == raw[i];
      var r := p + (if Survives(raw[n]) then [n] else []);
      assert forall i | 0 <= i < n && Survives(raw[i]) :: i in p;
      r
  }

  /** The filter chain keeps exactly the surviving rows, in their order, each coerced. */
  lemma {:induction false} FilteredIsKept(raw: seq<RawRecord>)
    ensures |Filtered(raw)| == |Kept(raw)|
    ensures forall k | 0 <= k < |Kept(raw)| :: Filtered(raw)[k] == TypedOf(ToRow(raw[Kept(raw)[k]]))
  {
    if raw != [] {
      var n := |raw| - 1;
      var p, x := raw[..n], raw[n];
      assert raw == p + [x];
      FilteredIsKept(p);
      FilteredSnoc(p, x);
      assert forall k | 0 <= k < |Kept(p)| :: raw[Kept(p)[k]] == p[Kept(p)[k]];
    }
  }

  /** Appending one raw row appends its coerced form exactly when it survives. */
  lemma FilteredSnoc(p: seq<RawRecord>, x: RawRecord)
    ensures Filtered(p + [x]) == Filtered(p) + (if Survives(x) then [TypedOf(ToRow(x))] else [])
  {
    var raw := p + [x];
    assert raw[..|p|] == p;
    var a := DropNa(p);
    var b := DropHeaderRows(a);
    var c := Coerce(b);
    if Complete(x) {
      var y := ToRow(x);
      assert DropNa(raw) == a + [y];
      assert (a + [y])[..|a|] == a;
      if y.orderId != HeaderOrderId {
        assert DropHeaderRows(a + [y]) == b + [y];
        assert (b + [y])[..|b|] == b;
        var ty := TypedOf(y);
        assert Coerce(b + [y]) == c + [ty];
        assert (c + [ty])[..|c|] == c;
      } else {
        assert DropHeaderRows(a + [y]) == b;
      }
    } else {
      assert DropNa(raw) == a;
    }
  }

  /** What each clean row says about the raw row it came from. */
  ghost predicate CleanedFrom(x: RawRecord, c: CleanRecord) {
    && Complete(x)
    && c.orderId == x.orderId.value && c.orderId != HeaderOrderId
    && c.product == x.product.value
    && c.purchaseAddress == x.purchaseAddress.value
    && c.quantity == ToQuantity(x.quantityOrdered.value)
    && c.priceCents == ToPriceCents(x.priceEach.value)
    && ParseDate(x.orderDate.value) == Some(c.orderDate)
    && CityLabel(x.purchaseAddress.value) == Some(c.city)
  }

  /**
   * `process_data` succeeds exactly when every surviving row's address can be
   * split; its rows are then the surviving rows, in order, enriched.
   */
  lemma ProcessDataSpec(raw: seq<RawRecord>)
    ensures ProcessData(raw).Success? <==>
              forall k | 0 <= k < |Kept(raw)| :: CityLabel(raw[Kept(raw)[k]].purchaseAddress.value).Some?
    ensures ProcessData(raw).Success? ==>
              var out := ProcessData(raw).value;
              && |out| == |Kept(raw)|
              && forall k | 0 <= k < |out| :: CleanedFrom(raw[Kept(raw)[k]], out[k]) && Consistent(out[k])
    ensures ProcessData(raw).Failure? ==> exists k | 0 <= k < |Kept(raw)| ::
              && CityLabel(raw[Kept(raw)[k]].purchaseAddress.value).None?
              && ProcessData(raw).error == MalformedAddress(raw[Kept(raw)[k]].purchaseAddress.value)
  {
    FilteredIsKept(raw);
    DeriveSpec(Filtered(raw));
  }

  /** No repeated header row reaches the output. */
  lemma NoHeaderRowSurvives(raw: seq<RawRecord>)
    ensures ProcessData(raw).Success? ==>
              forall c | c in ProcessData(raw).value :: c.orderId != HeaderOrderId
  {
    ProcessDataSpec(raw);
  }

  /**
   * A surviving row whose quantity or price does not convert is still in the
   * output, with that column and `Sales` null.
   */
  lemma NumericFailureKeepsRow(raw: seq<RawRecord>, i: nat)
    requires i < |raw| && Survives(raw[i])
    requires ToQuantity(raw[i].quantityOrdered.value).None? || ToPriceCents(raw[i].priceEach.value).None?
    ensures ProcessData(raw).Success? ==>
              exists c | c in ProcessData(raw).value ::
                && c.orderId == raw[i].orderId.value
                && c.quantity == ToQuantity(raw[i].quantityOrdered.value)
                && c.priceCents == ToPriceCents(raw[i].priceEach.value)
                && c.sales.None?
  {
    ProcessDataSpec(raw);
    if ProcessData(raw).Success? {
      var out := ProcessData(raw).value;
      var k :| 0 <= k < |Kept(raw)| && Kept(raw)[k] == i;
      assert out[k] in out;
    }
  }

  /**
   * Every surviving raw row is cleaned into the output; nothing drops a row
   * for a negative quantity or price.
   */
  lemma SurvivorInOutput(raw: seq<RawRecord>, i: nat)
    requires i < |raw| && Survives(raw[i])
    ensures ProcessData(raw).Success? ==> exists c | c in ProcessData(raw).value :: CleanedFrom(raw[i], c)
  {
    ProcessDataSpec(raw);
    if ProcessData(raw).Success? {
      var out := ProcessData(raw).value;
      var k :| 0 <= k < |Kept(raw)| && Kept(raw)[k] == i;
      assert out[k] in out;
    }
  }
}
