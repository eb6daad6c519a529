/** Calendar dates as Python's `datetime` handles them: the proleptic Gregorian
    calendar over years 1..9999, `strptime`/`strftime` for the two textual
    forms the pipeline uses ("%Y-%m-%d" and "%d/%m/%Y"), `replace(year=...)`
    and the ordering used by `max` and by sorting. */
module Calendar {
  import opened Wrappers
  import opened Digits

  datatype Date = Date(year: int, month: int, day: int)

  const MinYear := 1
  const MaxYear := 9999

  predicate IsLeapYear(y: int) {
    y % 4 == 0 && (y % 100 != 0 || y % 400 == 0)
  }

  function DaysInMonth(y: int, m: int): (n: int)
    requires 1 <= m <= 12
    ensures 28 <= n <= 31
    ensures m == 2 ==> (n == 29 <==> IsLeapYear(y))
  {
    if m == 2 then (if IsLeapYear(y) then 29 else 28)
    else if m == 4 || m == 6 || m == 9 || m == 11 then 30
    else 31
  }

  /** What `datetime.date(year, month, day)` accepts. */
  predicate ValidDate(d: Date) {
    MinYear <= d.year <= MaxYear && 1 <= d.month <= 12 && 1 <= d.day <= DaysInMonth(d.year, d.month)
  }

  /** The constructor check `datetime.date(y, m, d)` performs, as an Option. */
  function MakeDate(y: int, m: int, d: int): (r: Option<Date>)
    ensures r.Some? <==> ValidDate(Date(y, m, d))
    ensures r.Some? ==> r.value == Date(y, m, d)
  {
    if ValidDate(Date(y, m, d)) then Some(Date(y, m, d)) else None
  }

  /** Chronological order: by year, then month, then day. */
  predicate DateLe(a: Date, b: Date) {
    a.year < b.year || (a.year == b.year && (a.month < b.month || (a.month == b.month && a.day <= b.day)))
  }

  /** Python's `max(a, b)` on dates: the later one (the first when equal). */
  function DateMax(a: Date, b: Date): (m: Date)
    ensures m == a || m == b
    ensures DateLe(a, m) && DateLe(b, m)
  {
    if DateLe(b, a) then a else b
  }

  /** `d.replace(year=y)`, which raises when the result is not a valid date:
      29 February in a non-leap year, or a year outside 1..9999. */
  function ReplaceYear(d: Date, y: int): (r: Option<Date>)
    requires ValidDate(d)
    ensures r.Some? <==> MinYear <= y <= MaxYear && !(d.month == 2 && d.day == 29 && !IsLeapYear(y))
    ensures r.Some? ==> r.value == Date(y, d.month, d.day)
  {
    MakeDate(y, d.month, d.day)
  }

  /** Ten years before a leap year is never a leap year, so `replace` on
      29 February always fails for a ten-year step back. */
  lemma LeapDayTenYearsBackFails(d: Date)
    requires ValidDate(d) && d.month == 2 && d.day == 29
    ensures ReplaceYear(d, d.year - 10) == None
  {
    assert IsLeapYear(d.year);
    assert (d.year - 10) % 4 == 2;
  }

  /** `strftime("%Y-%m-%d")`. */
  function FormatIso(d: Date): (s: string)
    requires ValidDate(d)
    ensures |s| == 10 && s[4] == '-' && s[7] == '-'
  {
    Pad4(d.year) + "-" + Pad2(d.month) + "-" + Pad2(d.day)
  }

  /** `strftime("%d/%m/%Y")`: zero-padded two-digit day and month. */
  function FormatDmy(d: Date): (s: string)
    requires ValidDate(d)
    ensures |s| == 10 && s[2] == '/' && s[5] == '/'
    ensures AllDigits(s[..2]) && DigitsToNat(s[..2]) == d.day
    ensures AllDigits(s[3..5]) && DigitsToNat(s[3..5]) == d.month
    ensures AllDigits(s[6..]) && DigitsToNat(s[6..]) == d.year
  {
    var s := Pad2(d.day) + "/" + Pad2(d.month) + "/" + Pad4(d.year);
    assert s[..2] == Pad2(d.day) && s[3..5] == Pad2(d.month) && s[6..] == Pad4(d.year);
    s
  }

  /** One `%d` or `%m` field of `strptime`: two digits when two are present,
      otherwise one; the value and the unread rest. */
  function ReadField12(s: string): (r: Option<(nat, string)>)
    ensures r.Some? ==> |r.value.1| < |s|
  {
    if |s| >= 2 && IsDigit(s[0]) && IsDigit(s[1]) then Some((DigitValue(s[0]) * 10 + DigitValue(s[1]), s[2..]))
    else if |s| >= 1 && IsDigit(s[0]) then Some((DigitValue(s[0]), s[1..]))
    else None
  }

  /** `datetime.strptime(s, "%Y-%m-%d")`: exactly four digits of year, one or
      two of month and of day, nothing left over, and a valid calendar date. */
  function ParseIso(s: string): (r: Option<Date>)
    ensures r.Some? ==> ValidDate(r.value)
  {
    if |s| < 5 || !AllDigits(s[..4]) || s[4] != '-' then None
    else
      match ReadField12(s[5..])
      case None => None
      case Some((m, rest)) =>
        if |rest| == 0 || rest[0] != '-' then None
        else
          match ReadField12(rest[1..])
          case None => None
          case Some((d, tail)) =>
            if tail != [] then None else MakeDate(DigitsToNat(s[..4]), m, d)
  }

  /** `strptime(s, "%d/%m/%Y")` (the format `pd.to_datetime` is given):
      one or two digits of day and of month, exactly four of year. */
  function ParseDmy(s: string): (r: Option<Date>)
    ensures r.Some? ==> ValidDate(r.value)
  {
    match ReadField12(s)
    case None => None
    case Some((d, rest)) =>
      if |rest| == 0 || rest[0] != '/' then None
      else
        match ReadField12(rest[1..])
        case None => None
        case Some((m, tail)) =>
          if |tail| != 5 || tail[0] != '/' || !AllDigits(tail[1..]) then None
          else MakeDate(DigitsToNat(tail[1..]), m, d)
  }

  /** Formatting a valid date as "%Y-%m-%d" and parsing it back gives the date. */
  lemma IsoRoundTrip(d: Date)
    requires ValidDate(d)
    ensures ParseIso(FormatIso(d)) == Some(d)
  {
    var s := FormatIso(d);
    var y, m, dd := Pad4(d.year), Pad2(d.month), Pad2(d.day);
    assert s == y + "-" + m + "-" + dd;
    assert s[..4] == y;
    assert s[5..] == m + "-" + dd;
    assert ReadField12(s[5..]) == Some((d.month, "-" + dd)) by {
      assert DigitsToNat(m) == DigitValue(m[0]) * 10 + DigitValue(m[1]) by { Pad2Value(d.month); }
      assert (m + "-" + dd)[2..] == "-" + dd;
    }
    assert ("-" + dd)[1..] == dd;
    assert ReadField12(dd) == Some((d.day, [])) by {
      assert DigitsToNat(dd) == DigitValue(dd[0]) * 10 + DigitValue(dd[1]) by { Pad2Value(d.day); }
    }
  }

  /** Formatting a valid date as "%d/%m/%Y" and parsing it back gives the date. */
  lemma DmyRoundTrip(d: Date)
    requires ValidDate(d)
    ensures ParseDmy(FormatDmy(d)) == Some(d)
  {
    var s := FormatDmy(d);
    var dd, m, y := Pad2(d.day), Pad2(d.month), Pad4(d.year);
    assert s == dd + "/" + m + "/" + y;
    assert ReadField12(s) == Some((d.day, "/" + m + "/" + y)) by {
      assert DigitsToNat(dd) == DigitValue(dd[0]) * 10 + DigitValue(dd[1]) by { Pad2Value(d.day); }
      assert s[2..] == "/" + m + "/" + y;
    }
    assert ("/" + m + "/" + y)[1..] == m + "/" + y;
    assert ReadField12(m + "/" + y) == Some((d.month, "/" + y)) by {
      assert DigitsToNat(m) == DigitValue(m[0]) * 10 + DigitValue(m[1]) by { Pad2Value(d.month); }
      assert (m + "/" + y)[2..] == "/" + y;
    }
    assert ("/" + y)[1..] == y;
  }

  /** `s` spells `d` in the "%d/%m/%Y" form `strptime` reads: a day field
      `s[..i]` and a month field `s[i + 1..j]` of one or two digits each,
      then exactly four digits of year, separated by '/'. */
  predicate DmyFields(s: string, i: nat, j: nat, d: Date) {
    && 1 <= i <= 2 && i + 2 <= j <= i + 3 && j + 5 == |s|
    && s[i] == '/' && s[j] == '/'
    && AllDigits(s[..i]) && AllDigits(s[i + 1..j]) && AllDigits(s[j + 1..])
    && DigitsToNat(s[..i]) == d.day && DigitsToNat(s[i + 1..j]) == d.month && DigitsToNat(s[j + 1..]) == d.year
  }

  /** `s` spells `d` in the "%Y-%m-%d" form `strptime` reads: exactly four
      digits of year, then a month field `s[5..j]` and a day field `s[j + 1..]`
      of one or two digits each, separated by '-'. */
  predicate IsoFields(s: string, j: nat, d: Date) {
    && 6 <= j <= 7 && j + 2 <= |s| <= j + 3
    && s[4] == '-' && s[j] == '-'
    && AllDigits(s[..4]) && AllDigits(s[5..j]) && AllDigits(s[j + 1..])
    && DigitsToNat(s[..4]) == d.year && DigitsToNat(s[5..j]) == d.month && DigitsToNat(s[j + 1..]) == d.day
  }

  /** `ParseDmy` gives `d` exactly when `d` is a valid date and the text
      spells it, zero-padded or not: a parse never invents a date, and every
      spelling of a valid date is read. */
  lemma ParseDmyMeaning(s: string, d: Date)
    ensures ParseDmy(s) == Some(d) <==> ValidDate(d) && exists i: nat, j: nat :: DmyFields(s, i, j, d)
  {
    if ParseDmy(s) == Some(d) {
      ParseDmySpells(s, d);
    }
    if ValidDate(d) && exists i: nat, j: nat :: DmyFields(s, i, j, d) {
      var i: nat, j: nat :| DmyFields(s, i, j, d);
      ParseDmyReads(s, i, j, d);
    }
  }

  lemma ParseDmySpells(s: string, d: Date)
    requires ParseDmy(s) == Some(d)
    ensures exists i: nat, j: nat :: DmyFields(s, i, j, d)
  {
    var (dv, rest) := ReadField12(s).value;
    ReadField12Spells(s);
    var i := |s| - |rest|;
    var (mv, tail) := ReadField12(rest[1..]).value;
    ReadField12Spells(rest[1..]);
    var j := i + 1 + (|rest| - 1 - |tail|);
    assert s[i + 1..j] == rest[1..][..j - i - 1];
    assert tail == s[j..] && s[j + 1..] == tail[1..];
    assert DmyFields(s, i, j, d);
  }

  lemma ParseDmyReads(s: string, i: nat, j: nat, d: Date)
    requires ValidDate(d) && DmyFields(s, i, j, d)
    ensures ParseDmy(s) == Some(d)
  {
    ReadField12Reads(s, i);
    var rest := s[i..];
    assert rest[1..] == s[i + 1..];
    var t := s[i + 1..];
    assert t[..j - i - 1] == s[i + 1..j] && t[j - i - 1..] == s[j..];
    ReadField12Reads(t, j - i - 1);
    assert s[j..][1..] == s[j + 1..];
  }

  /** `ParseIso` gives `d` exactly when `d` is a valid date and the text
      spells it, zero-padded or not. */
  lemma ParseIsoMeaning(s: string, d: Date)
    ensures ParseIso(s) == Some(d) <==> ValidDate(d) && exists j: nat :: IsoFields(s, j, d)
  {
    if ParseIso(s) == Some(d) {
      ParseIsoSpells(s, d);
    }
    if ValidDate(d) && exists j: nat :: IsoFields(s, j, d) {
      var j: nat :| IsoFields(s, j, d);
      ParseIsoReads(s, j, d);
    }
  }

  lemma ParseIsoSpells(s: string, d: Date)
    requires ParseIso(s) == Some(d)
    ensures exists j: nat :: IsoFields(s, j, d)
  {
    var (mv, rest) := ReadField12(s[5..]).value;
    ReadField12Spells(s[5..]);
    var j := |s| - |rest|;
    assert s[5..j] == s[5..][..j - 5] && rest == s[j..];
    var (dv, tail) := ReadField12(rest[1..]).value;
    ReadField12Spells(rest[1..]);
    assert rest[1..] == s[j + 1..] && s[j + 1..][..|s| - j - 1] == s[j + 1..];
    assert IsoFields(s, j, d);
  }

  lemma ParseIsoReads(s: string, j: nat, d: Date)
    requires ValidDate(d) && IsoFields(s, j, d)
    ensures ParseIso(s) == Some(d)
  {
    var t := s[5..];
    assert t[..j - 5] == s[5..j] && t[j - 5..] == s[j..];
    ReadField12Reads(t, j - 5);
    assert s[j..][1..] == s[j + 1..];
    var u := s[j + 1..];
    assert u[..|u|] == u;
    ReadField12Reads(u, |u|);
  }

  /** What one `%d`/`%m` field read consumed: one or two digits, whose value
      it returns. */
  lemma ReadField12Spells(t: string)
    requires ReadField12(t).Some?
    ensures var k := |t| - |ReadField12(t).value.1|;
      && 1 <= k <= 2 && ReadField12(t).value.1 == t[k..]
      && AllDigits(t[..k]) && DigitsToNat(t[..k]) == ReadField12(t).value.0
  {
    OneOrTwoDigits(t);
  }

  /** A field of one or two digits not followed by a digit is read whole. */
  lemma ReadField12Reads(t: string, k: nat)
    requires 1 <= k <= 2 && k <= |t| && AllDigits(t[..k]) && (k < |t| ==> !IsDigit(t[k]))
    ensures ReadField12(t) == Some((DigitsToNat(t[..k]), t[k..]))
  {
    assert t[..k][0] == t[0];
    if k == 2 {
      assert t[..2][1] == t[1];
    }
    OneOrTwoDigits(t);
  }

  /** The values of the one- and two-character prefixes of digit text. */
  lemma OneOrTwoDigits(t: string)
    ensures |t| >= 1 && IsDigit(t[0]) ==> AllDigits(t[..1]) && DigitsToNat(t[..1]) == DigitValue(t[0])
    ensures |t| >= 2 && IsDigit(t[0]) && IsDigit(t[1]) ==>
      AllDigits(t[..2]) && DigitsToNat(t[..2]) == DigitValue(t[0]) * 10 + DigitValue(t[1])
  {
    if |t| >= 1 {
      assert t[..1][..0] == [];
    }
    if |t| >= 2 {
      assert t[..2][..1] == t[..1];
    }
  }

  /** The value of a two-digit string, spelled out digit by digit. */
  lemma Pad2Value(n: nat)
    requires n < 100
    ensures DigitsToNat(Pad2(n)) == DigitValue(Pad2(n)[0]) * 10 + DigitValue(Pad2(n)[1])
  {
    var s := Pad2(n);
    assert s[..1][..0] == [];
  }
}
