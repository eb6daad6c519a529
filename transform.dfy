/** The transformation stage: `clean_bcb_data` (parse each row's day/month/
    year date and its comma-decimal value, drop the rows where either fails,
    sort by date) and the loop that cleans each raw file present in the data
    folder. Values are exact decimals; the sort order among rows with the
    same date is left open, as the source's unstable sort leaves it. */
module Transform {
  import opened Wrappers
  import opened Digits
  import opened Calendar
  import opened Records

  // ---------------------------------------------------------------- values

  /** `str.replace(",", ".")`. */
  function ReplaceCommas(s: string): (t: string)
    ensures |t| == |s| && ',' !in t
    ensures forall i :: 0 <= i < |s| ==> t[i] == (if s[i] == ',' then '.' else s[i])
  {
    seq(|s|, i requires 0 <= i < |s| => if s[i] == ',' then '.' else s[i])
  }

  /** The index of the first `c` in `s`, or `|s|` when there is none. */
  function IndexOf(s: string, c: char): (k: nat)
    ensures k <= |s| && c !in s[..k]
    ensures k < |s| ==> s[k] == c
  {
    if s == [] then 0
    else if s[0] == c then 0
    else
      var k := IndexOf(s[1..], c);
      assert s[..k + 1] == [s[0]] + s[1..][..k];
      k + 1
  }

  function Pow10(n: nat): (p: nat)
    ensures p > 0
  {
    if n == 0 then 1 else 10 * Pow10(n - 1)
  }

  /** The decimal a digit string with a fractional part denotes. */
  function DecimalValue(whole: string, frac: string): real
    requires AllDigits(whole) && AllDigits(frac)
  {
    DigitsToNat(whole) as real + DigitsToNat(frac) as real / Pow10(|frac|) as real
  }

  /** An unsigned number: digits, at most one '.', at least one digit. */
  function ParseUnsigned(t: string): (r: Option<real>)
    ensures r.Some? ==> r.value >= 0.0
  {
    var dot := IndexOf(t, '.');
    var whole := t[..dot];
    var frac := if dot < |t| then t[dot + 1..] else "";
    if AllDigits(whole) && AllDigits(frac) && |whole| + |frac| > 0 then Some(DecimalValue(whole, frac))
    else None
  }

  /** `pd.to_numeric` on the grammar modelled here: an optional sign, then an
      unsigned number. */
  function ParseNumber(t: string): (r: Option<real>)
    ensures r.Some? ==> |t| > 0
    ensures r.Some? && t[0] != '-' ==> r.value >= 0.0
    ensures r.Some? && |t| > 0 && t[0] == '-' ==> r.value <= 0.0
  {
    if |t| > 0 && (t[0] == '-' || t[0] == '+') then
      match ParseUnsigned(t[1..])
      case None => None
      case Some(v) => Some(if t[0] == '-' then -v else v)
    else ParseUnsigned(t)
  }

  /** Lines 31-32: every comma becomes a dot, then the text is parsed. */
  function ParseValue(s: string): (r: Option<real>)
    ensures r.Some? ==> |s| > 0
    ensures r.Some? && s[0] != '-' ==> r.value >= 0.0
    ensures r.Some? && s[0] == '-' ==> r.value <= 0.0
  {
    ParseNumber(ReplaceCommas(s))
  }

  /** A value that parses holds only digits, commas and dots, after at most
      one leading sign: any other character makes the row drop. */
  lemma ValueAlphabet(s: string, i: nat)
    requires ParseValue(s).Some? && i < |s|
    ensures IsDigit(s[i]) || s[i] == '.' || s[i] == ',' || (i == 0 && (s[i] == '-' || s[i] == '+'))
  {
    var t := ReplaceCommas(s);
    if s[i] != ',' {
      assert t[i] == s[i];
      NumberAlphabet(t, i);
    }
  }

  /** The characters of a number: digits and dots, after at most one leading
      sign. */
  lemma NumberAlphabet(t: string, i: nat)
    requires ParseNumber(t).Some? && i < |t|
    ensures IsDigit(t[i]) || t[i] == '.' || (i == 0 && (t[i] == '-' || t[i] == '+'))
  {
    if t[0] == '-' || t[0] == '+' {
      if i > 0 {
        assert t[1..][i - 1] == t[i];
        UnsignedAlphabet(t[1..], i - 1);
      }
    } else {
      UnsignedAlphabet(t, i);
    }
  }

  lemma UnsignedAlphabet(t: string, i: nat)
    requires ParseUnsigned(t).Some? && i < |t|
    ensures IsDigit(t[i]) || t[i] == '.'
  {
    var dot := IndexOf(t, '.');
    if i < dot {
      assert t[..dot][i] == t[i];
    } else if i > dot {
      assert t[dot + 1..][i - dot - 1] == t[i];
    }
  }

  /** A decimal comma and a decimal point mean the same: "d,f" and "d.f"
      both parse to the digits' decimal value. */
  lemma DecimalSeparatorMeaning(whole: string, frac: string, sep: char)
    requires AllDigits(whole) && AllDigits(frac) && |whole| + |frac| > 0 && (sep == ',' || sep == '.')
    ensures ParseValue(whole + [sep] + frac) == Some(DecimalValue(whole, frac))
  {
    var u := whole + "." + frac;
    SeparatorRewritten(whole, frac, sep);
    UnsignedDecimal(whole, frac);
    assert u[0] == '.' || IsDigit(u[0]);
  }

  /** With a leading '-', "-d,f" and "-d.f" parse to the negated value. */
  lemma NegativeDecimalMeaning(whole: string, frac: string, sep: char)
    requires AllDigits(whole) && AllDigits(frac) && |whole| + |frac| > 0 && (sep == ',' || sep == '.')
    ensures ParseValue("-" + (whole + [sep] + frac)) == Some(-DecimalValue(whole, frac))
  {
    var body := whole + [sep] + frac;
    SeparatorRewritten(whole, frac, sep);
    UnsignedDecimal(whole, frac);
    CommasAfterSign("-", body);
    NegatedNumber(whole + "." + frac, DecimalValue(whole, frac));
  }

  /** The rewrite leaves a leading sign alone. */
  lemma CommasAfterSign(sign: string, body: string)
    requires sign == "" || sign == "-" || sign == "+"
    ensures ReplaceCommas(sign + body) == sign + ReplaceCommas(body)
  {
  }

  /** A leading '-' negates an unsigned number. */
  lemma NegatedNumber(u: string, v: real)
    requires ParseUnsigned(u) == Some(v)
    ensures ParseNumber("-" + u) == Some(-v)
  {
    assert ("-" + u)[1..] == u;
  }

  /** The comma rewrite turns the one separator into a dot. */
  lemma SeparatorRewritten(whole: string, frac: string, sep: char)
    requires AllDigits(whole) && AllDigits(frac) && (sep == ',' || sep == '.')
    ensures ReplaceCommas(whole + [sep] + frac) == whole + "." + frac
  {
  }

  /** Digits, a dot and digits denote their decimal value. */
  lemma UnsignedDecimal(whole: string, frac: string)
    requires AllDigits(whole) && AllDigits(frac) && |whole| + |frac| > 0
    ensures ParseUnsigned(whole + "." + frac) == Some(DecimalValue(whole, frac))
  {
    var t := whole + "." + frac;
    assert '.' !in whole by { assert forall i :: 0 <= i < |whole| ==> whole[i] != '.'; }
    assert t == whole + ("." + frac);
    IndexOfAfter(whole, "." + frac, '.');
    assert t[..|whole|] == whole && t[|whole| + 1..] == frac;
  }

  /** Searching past a prefix that lacks `c`. */
  lemma {:induction false} IndexOfAfter(prefix: string, rest: string, c: char)
    requires c !in prefix && |rest| > 0 && rest[0] == c
    ensures IndexOf(prefix + rest, c) == |prefix|
    decreases |prefix|
  {
    if prefix != [] {
      assert (prefix + rest)[1..] == prefix[1..] + rest;
      IndexOfAfter(prefix[1..], rest, c);
    }
  }

  /** Text with two decimal separators (after the comma rewrite) is no
      number, so "1,234,5" is dropped. */
  lemma TwoSeparatorsRejected(s: string, i: nat, j: nat)
    requires i < j < |s| && (s[i] == ',' || s[i] == '.') && (s[j] == ',' || s[j] == '.')
    ensures ParseValue(s) == None
  {
    var t := ReplaceCommas(s);
    assert t[i] == '.' && t[j] == '.';
    NumberTwoDots(t, i, j);
  }

  /** A signed or unsigned number has at most one dot. */
  lemma NumberTwoDots(t: string, i: nat, j: nat)
    requires i < j < |t| && t[i] == '.' && t[j] == '.'
    ensures ParseNumber(t) == None
  {
    if |t| > 0 && (t[0] == '-' || t[0] == '+') {
      assert i > 0;
      UnsignedTwoDots(t[1..], i - 1, j - 1);
    } else {
      UnsignedTwoDots(t, i, j);
    }
  }

  lemma UnsignedTwoDots(u: string, i: nat, j: nat)
    requires i < j < |u| && u[i] == '.' && u[j] == '.'
    ensures ParseUnsigned(u) == None
  {
    var dot := IndexOf(u, '.');
    assert dot <= i;
    var frac := u[dot + 1..];
    assert frac[j - dot - 1] == '.';
    assert !AllDigits(frac);
  }

  /** "5,5" is 5.5 once the comma is read as a decimal point. */
  lemma CommaValueExample(s: string, whole: string, frac: string)
    requires s == "5,5" && whole == "5" && frac == "5"
    ensures ParseValue(s) == Some(5.5)
  {
    assert s == whole + [','] + frac;
    DecimalSeparatorMeaning(whole, frac, ',');
    assert DigitsToNat(whole) == 5 && DigitsToNat(frac) == 5 by {
      assert whole[..0] == [] && frac[..0] == [];
    }
  }

  /** "1,234,5" becomes "1.234.5", which is no number. */
  lemma ThousandsSeparatorExample(s: string)
    requires s == "1,234,5"
    ensures ParseValue(s) == None
  {
    TwoSeparatorsRejected(s, 1, 5);
  }

  /** The value grammar: an optional sign, digits, then optionally one
      separator (a comma or a dot) and more digits, with at least one digit
      in all. */
  predicate ValueText(s: string, sign: string, whole: string, sep: string, frac: string) {
    && (sign == "" || sign == "-" || sign == "+")
    && (sep == "" || sep == "," || sep == ".")
    && AllDigits(whole) && AllDigits(frac) && (sep == "" ==> frac == "")
    && |whole| + |frac| > 0
    && s == sign + whole + sep + frac
  }

  /** The value such a text denotes. */
  function SignedDecimal(sign: string, whole: string, frac: string): real
    requires AllDigits(whole) && AllDigits(frac)
  {
    if sign == "-" then -DecimalValue(whole, frac) else DecimalValue(whole, frac)
  }

  /** A value parses to `v` exactly when it is a text of the grammar that
      denotes `v`: every such text is read, with or without a separator or
      a sign, and nothing else is. */
  lemma ValueMeaning(s: string, v: real)
    ensures ParseValue(s) == Some(v) <==>
      exists sign, whole, sep, frac :: ValueText(s, sign, whole, sep, frac) && v == SignedDecimal(sign, whole, frac)
  {
    if ParseValue(s) == Some(v) {
      ValueSpelled(s, v);
    }
    if exists sign, whole, sep, frac :: ValueText(s, sign, whole, sep, frac) && v == SignedDecimal(sign, whole, frac) {
      var sign, whole, sep, frac :| ValueText(s, sign, whole, sep, frac) && v == SignedDecimal(sign, whole, frac);
      ValueRead(s, sign, whole, sep, frac);
    }
  }

  /** Every text of the grammar parses to the value it denotes. */
  lemma ValueRead(s: string, sign: string, whole: string, sep: string, frac: string)
    requires ValueText(s, sign, whole, sep, frac)
    ensures ParseValue(s) == Some(SignedDecimal(sign, whole, frac))
  {
    assert s == sign + (whole + sep + frac);
    SignedRead(sign, whole, sep, frac);
  }

  /** The same, with the text grouped as a sign and an unsigned part. */
  lemma SignedRead(sign: string, whole: string, sep: string, frac: string)
    requires sign == "" || sign == "-" || sign == "+"
    requires AllDigits(whole) && AllDigits(frac) && |whole| + |frac| > 0
    requires (sep == "" && frac == "") || sep == "," || sep == "."
    ensures ParseValue(sign + (whole + sep + frac)) == Some(SignedDecimal(sign, whole, frac))
  {
    BodyRead(whole, sep, frac);
    SignRead(sign, whole + sep + frac, DecimalValue(whole, frac));
  }

  /** The unsigned part of a text of the grammar, once commas are dots, is
      an unsigned number denoting the digits' decimal value. */
  lemma BodyRead(whole: string, sep: string, frac: string)
    requires AllDigits(whole) && AllDigits(frac) && |whole| + |frac| > 0
    requires (sep == "" && frac == "") || sep == "," || sep == "."
    ensures var u := ReplaceCommas(whole + sep + frac);
      && |u| > 0 && u[0] != '-' && u[0] != '+'
      && ParseUnsigned(u) == Some(DecimalValue(whole, frac))
  {
    var body := whole + sep + frac;
    if sep == "" {
      assert body == whole;
      DigitsRead(whole);
    } else {
      assert body == whole + [sep[0]] + frac;
      SeparatedRead(whole, sep[0], frac);
    }
  }

  /** Digits alone are an unsigned number the rewrite leaves alone. */
  lemma DigitsRead(whole: string)
    requires AllDigits(whole) && |whole| > 0
    ensures var u := ReplaceCommas(whole);
      && u[0] != '-' && u[0] != '+'
      && ParseUnsigned(u) == Some(DecimalValue(whole, ""))
  {
    assert ReplaceCommas(whole) == whole;
    UnsignedDigits(whole);
  }

  /** Digits, a separator and digits become an unsigned number with a dot. */
  lemma SeparatedRead(whole: string, sep: char, frac: string)
    requires AllDigits(whole) && AllDigits(frac) && |whole| + |frac| > 0 && (sep == ',' || sep == '.')
    ensures var u := ReplaceCommas(whole + [sep] + frac);
      && |u| > 0 && u[0] != '-' && u[0] != '+'
      && ParseUnsigned(u) == Some(DecimalValue(whole, frac))
  {
    var u := whole + "." + frac;
    SeparatorRewritten(whole, frac, sep);
    UnsignedDecimal(whole, frac);
    assert u[0] == '.' || IsDigit(u[0]);
  }

  /** A sign in front of an unsigned number: '-' negates it, '+' keeps it. */
  lemma SignRead(sign: string, body: string, w: real)
    requires sign == "" || sign == "-" || sign == "+"
    requires var u := ReplaceCommas(body); |u| > 0 && u[0] != '-' && u[0] != '+' && ParseUnsigned(u) == Some(w)
    ensures ParseValue(sign + body) == Some(if sign == "-" then -w else w)
  {
    var u := ReplaceCommas(body);
    CommasAfterSign(sign, body);
    if sign == "" {
      assert sign + body == body;
    } else {
      assert (sign + u)[1..] == u;
    }
  }

  /** Digits alone denote their whole value. */
  lemma UnsignedDigits(whole: string)
    requires AllDigits(whole) && |whole| > 0
    ensures ParseUnsigned(whole) == Some(DecimalValue(whole, ""))
  {
    var dot := IndexOf(whole, '.');
    assert dot == |whole|;
    assert whole[..dot] == whole;
  }

  /** Every value that parses is a text of the grammar denoting it. */
  lemma ValueSpelled(s: string, v: real)
    requires ParseValue(s) == Some(v)
    ensures exists sign, whole, sep, frac :: ValueText(s, sign, whole, sep, frac) && v == SignedDecimal(sign, whole, frac)
  {
    var sign, body, w := SignSpelled(s, v);
    var whole, sep, frac := BodySpelled(body, w);
    Regrouped(s, sign, body, whole, sep, frac);
    assert ValueText(s, sign, whole, sep, frac);
  }

  /** A value that parses is an optional sign before text that, once commas
      are dots, is an unsigned number. */
  lemma SignSpelled(s: string, v: real) returns (sign: string, body: string, w: real)
    requires ParseValue(s) == Some(v)
    ensures sign == "" || sign == "-" || sign == "+"
    ensures s == sign + body && ParseUnsigned(ReplaceCommas(body)) == Some(w)
    ensures v == if sign == "-" then -w else w
  {
    var t := ReplaceCommas(s);
    var k := if t[0] == '-' || t[0] == '+' then 1 else 0;
    sign, body := s[..k], s[k..];
    assert s == sign + body;
    assert k == 1 ==> s[0] == t[0];
    CommasAfterSign(sign, body);
    assert k == 1 ==> t[1..] == ReplaceCommas(body);
    w := ParseUnsigned(ReplaceCommas(body)).value;
  }

  /** The text behind an unsigned number, before the comma rewrite: digits,
      then optionally a comma or a dot and more digits. */
  lemma BodySpelled(body: string, w: real) returns (whole: string, sep: string, frac: string)
    requires ParseUnsigned(ReplaceCommas(body)) == Some(w)
    ensures AllDigits(whole) && AllDigits(frac) && |whole| + |frac| > 0
    ensures (sep == "" && frac == "") || sep == "," || sep == "."
    ensures body == whole + sep + frac && w == DecimalValue(whole, frac)
  {
    var u := ReplaceCommas(body);
    var dot := IndexOf(u, '.');
    DigitsUnchanged(body, 0, dot);
    whole := body[..dot];
    assert whole == u[..dot];
    if dot < |u| {
      DigitsUnchanged(body, dot + 1, |body|);
      frac := body[dot + 1..];
      assert frac == u[dot + 1..];
      sep := [body[dot]];
      SplitAround(body, dot);
    } else {
      sep, frac := "", "";
      assert body == whole;
    }
  }

  lemma SplitAround(s: string, k: nat)
    requires k < |s|
    ensures s == s[..k] + [s[k]] + s[k + 1..]
  {
  }

  lemma Regrouped(s: string, sign: string, body: string, whole: string, sep: string, frac: string)
    requires s == sign + body && body == whole + sep + frac
    ensures s == sign + whole + sep + frac
  {
  }

  /** Where the rewritten text holds digits, the original holds the same
      digits: only commas are rewritten. */
  lemma DigitsUnchanged(s: string, a: nat, b: nat)
    requires a <= b <= |s| && AllDigits(ReplaceCommas(s)[a..b])
    ensures s[a..b] == ReplaceCommas(s)[a..b]
  {
    var t := ReplaceCommas(s);
    forall i | a <= i < b ensures s[i] == t[i] {
      assert IsDigit(t[a..b][i - a]);
    }
  }

  /** "5" is 5 and "+5,5" is 5.5. */
  lemma PlainAndSignedExamples(five: string, plusFive: string)
    requires five == "5" && plusFive == "+5,5"
    ensures ParseValue(five) == Some(5.0) && ParseValue(plusFive) == Some(5.5)
  {
    assert ValueText(five, "", five, "", "");
    assert ValueText(plusFive, "+", "5", ",", "5");
    assert DigitsToNat("5") == 5 by { assert "5"[..0] == []; }
    ValueRead(five, "", five, "", "");
    ValueRead(plusFive, "+", "5", ",", "5");
  }

  // --------------------------------------------------------------- records

  /** One row of lines 30-33: both fields must parse, or the row is dropped. */
  function ParseRecord(r: RawRecord): (c: Option<CleanRecord>)
    ensures c.Some? ==> ValidDate(c.value.date)
    ensures c.Some? <==> ParseDmy(r.date).Some? && ParseValue(r.value).Some?
    ensures c.Some? ==> c.value == CleanRecord(ParseDmy(r.date).value, ParseValue(r.value).value)
  {
    match ParseDmy(r.date)
    case None => None
    case Some(d) =>
      match ParseValue(r.value)
      case None => None
      case Some(v) => Some(CleanRecord(d, v))
  }

  /** A row is kept as `c` exactly when its date is day/month/year text of
      the valid date `c.date` and its value is a text of the value grammar
      denoting `c.value`. */
  lemma RowMeaning(r: RawRecord, c: CleanRecord)
    ensures ParseRecord(r) == Some(c) <==>
      && ValidDate(c.date) && (exists i: nat, j: nat :: DmyFields(r.date, i, j, c.date))
      && exists sign, whole, sep, frac :: ValueText(r.value, sign, whole, sep, frac) && c.value == SignedDecimal(sign, whole, frac)
  {
    ParseDmyMeaning(r.date, c.date);
    ValueMeaning(r.value, c.value);
  }

  /** A row whose date is "%d/%m/%Y" text and whose value is digits with a
      decimal comma parses to that date and that decimal. */
  lemma WellFormedRowParses(r: RawRecord, d: Date, whole: string, frac: string)
    requires ValidDate(d) && r.date == FormatDmy(d)
    requires AllDigits(whole) && AllDigits(frac) && |whole| + |frac| > 0 && r.value == whole + [','] + frac
    ensures ParseRecord(r) == Some(CleanRecord(d, DecimalValue(whole, frac)))
  {
    DmyRoundTrip(d);
    DecimalSeparatorMeaning(whole, frac, ',');
  }

  /** "bad" and 31 February are not dates, so such rows are dropped. */
  lemma MalformedDateExamples(s: string)
    requires s == "bad" || s == "31/02/2020"
    ensures ParseDmy(s) == None
  {
    if s != "bad" {
      assert s[3..5] == "02";
    }
  }

  /** Each row's parse, position by position (`None` where `dropna` will
      drop the row). */
  function Parsed(raw: seq<RawRecord>): (p: seq<Option<CleanRecord>>)
    ensures |p| == |raw|
  {
    seq(|raw|, i requires 0 <= i < |raw| => ParseRecord(raw[i]))
  }

  /** The present values of `xs`, in order. */
  function Somes<T>(xs: seq<Option<T>>): (ys: seq<T>)
    ensures |ys| <= |xs|
  {
    if xs == [] then []
    else
      var rest := Somes(xs[..|xs| - 1]);
      match xs[|xs| - 1]
      case None => rest
      case Some(y) => rest + [y]
  }

  lemma {:induction false} SomesMembers<T>(xs: seq<Option<T>>, y: T)
    ensures y in Somes(xs) <==> exists i :: 0 <= i < |xs| && xs[i] == Some(y)
  {
    if xs != [] {
      var init := xs[..|xs| - 1];
      SomesMembers(init, y);
      if y in Somes(xs) && y in Somes(init) {
        var i :| 0 <= i < |init| && init[i] == Some(y);
        assert xs[i] == init[i];
      }
      if i :| 0 <= i < |xs| && xs[i] == Some(y) {
        if i < |init| {
          assert init[i] == xs[i];
        }
      }
    }
  }

  /** The rows that survive `dropna`, parsed, in input order. */
  function Kept(raw: seq<RawRecord>): (kept: seq<CleanRecord>)
    ensures |kept| <= |raw|
    ensures forall r :: r in kept ==> ValidDate(r.date)
  {
    KeptValid(raw);
    Somes(Parsed(raw))
  }

  lemma KeptValid(raw: seq<RawRecord>)
    ensures forall r :: r in Somes(Parsed(raw)) ==> ValidDate(r.date)
  {
    forall r | r in Somes(Parsed(raw)) ensures ValidDate(r.date) {
      SomesMembers(Parsed(raw), r);
    }
  }

  /** A record is kept exactly when it is the parse of some input row: no
      fabrication, and no valid row lost. */
  lemma KeptMembers(raw: seq<RawRecord>, r: CleanRecord)
    ensures r in Kept(raw) <==> exists i :: 0 <= i < |raw| && ParseRecord(raw[i]) == Some(r)
  {
    var p := Parsed(raw);
    SomesMembers(p, r);
    if r in Kept(raw) {
      var i :| 0 <= i < |p| && p[i] == Some(r);
      assert ParseRecord(raw[i]) == Some(r);
    }
    if i :| 0 <= i < |raw| && ParseRecord(raw[i]) == Some(r) {
      assert p[i] == Some(r);
    }
  }

  predicate SortedByDate(s: seq<CleanRecord>) {
    forall i, j :: 0 <= i < j < |s| ==> DateLe(s[i].date, s[j].date)
  }

  /** What `clean_bcb_data` may return for `raw`: the kept rows, reordered
      so that dates never decrease. */
  ghost predicate Cleaned(raw: seq<RawRecord>, clean: seq<CleanRecord>) {
    SortedByDate(clean) && multiset(clean) == multiset(Kept(raw))
  }

  /** Any cleaning of `raw` is no longer than `raw`, holds only parses of its
      rows, holds every row that parses, and only valid dates. */
  lemma CleanedFacts(raw: seq<RawRecord>, clean: seq<CleanRecord>)
    requires Cleaned(raw, clean)
    ensures |clean| <= |raw|
    ensures forall k :: 0 <= k < |clean| ==> exists i :: 0 <= i < |raw| && ParseRecord(raw[i]) == Some(clean[k])
    ensures forall i :: 0 <= i < |raw| && ParseRecord(raw[i]).Some? ==> ParseRecord(raw[i]).value in clean
    ensures forall k :: 0 <= k < |clean| ==> ValidDate(clean[k].date)
  {
    assert |clean| == |multiset(clean)| == |multiset(Kept(raw))| == |Kept(raw)|;
    forall k | 0 <= k < |clean|
      ensures exists i :: 0 <= i < |raw| && ParseRecord(raw[i]) == Some(clean[k])
    {
      assert clean[k] in multiset(Kept(raw));
      KeptMembers(raw, clean[k]);
    }
    forall i | 0 <= i < |raw| && ParseRecord(raw[i]).Some?
      ensures ParseRecord(raw[i]).value in clean
    {
      KeptMembers(raw, ParseRecord(raw[i]).value);
      assert ParseRecord(raw[i]).value in multiset(clean);
    }
  }

  /** Input where every row is malformed cleans to nothing, not to an error. */
  lemma AllMalformedCleansToEmpty(raw: seq<RawRecord>, clean: seq<CleanRecord>)
    requires forall i :: 0 <= i < |raw| ==> ParseRecord(raw[i]).None?
    requires Cleaned(raw, clean)
    ensures clean == []
  {
    SomesAllNone(Parsed(raw));
    assert |clean| == |multiset(clean)| == |multiset(Kept(raw))| == 0;
  }

  /** Nothing present, nothing kept. */
  lemma {:induction false} SomesAllNone<T>(xs: seq<Option<T>>)
    requires forall i :: 0 <= i < |xs| ==> xs[i].None?
    ensures Somes(xs) == []
  {
    if xs != [] {
      SomesAllNone(xs[..|xs| - 1]);
    }
  }

  /** The worked example: the malformed middle row is dropped, the others
      come out as (2020-03-01, 5.5) then (2020-03-02, 5.7). */
  lemma CleanExample(raw: seq<RawRecord>, clean: seq<CleanRecord>)
    requires raw == [RawRecord("01/03/2020", "5,5"), RawRecord("bad", "x"), RawRecord("02/03/2020", "5,7")]
    requires Cleaned(raw, clean)
    ensures clean == [CleanRecord(Date(2020, 3, 1), 5.5), CleanRecord(Date(2020, 3, 2), 5.7)]
  {
    ExampleRows(raw[0], raw[1], raw[2]);
    KeptMiddleDropped(raw, CleanRecord(Date(2020, 3, 1), 5.5), CleanRecord(Date(2020, 3, 2), 5.7));
    SortedPair(clean, CleanRecord(Date(2020, 3, 1), 5.5), CleanRecord(Date(2020, 3, 2), 5.7));
  }

  /** Three rows whose middle one fails to parse keep the outer two, in order. */
  lemma KeptMiddleDropped(raw: seq<RawRecord>, x: CleanRecord, y: CleanRecord)
    requires |raw| == 3 && ParseRecord(raw[0]) == Some(x) && ParseRecord(raw[1]) == None && ParseRecord(raw[2]) == Some(y)
    ensures Kept(raw) == [x, y]
  {
    var p := Parsed(raw);
    assert p == [Some(x), None, Some(y)];
    SomesMiddleNone(p, x, y);
  }

  lemma SomesMiddleNone<T>(xs: seq<Option<T>>, x: T, y: T)
    requires xs == [Some(x), None, Some(y)]
    ensures Somes(xs) == [x, y]
  {
    assert xs[..1][..0] == [] && xs[..2][..1] == xs[..1] && xs[..2] == xs[..|xs| - 1];
    assert Somes(xs[..1]) == [x];
  }

  /** Two rows with different dates have one date-sorted arrangement. */
  lemma SortedPair(clean: seq<CleanRecord>, x: CleanRecord, y: CleanRecord)
    requires SortedByDate(clean) && multiset(clean) == multiset([x, y]) && !DateLe(y.date, x.date)
    ensures clean == [x, y]
  {
    assert |clean| == 2 by {
      assert |clean| == |multiset(clean)| == |multiset([x, y])|;
    }
    assert clean[0] in multiset(clean) && clean[1] in multiset(clean);
    assert x in multiset(clean) && y in multiset(clean);
  }

  /** The three rows of the worked example, one by one. */
  lemma ExampleRows(a: RawRecord, b: RawRecord, c: RawRecord)
    requires a == RawRecord("01/03/2020", "5,5") && b == RawRecord("bad", "x") && c == RawRecord("02/03/2020", "5,7")
    ensures ParseRecord(a) == Some(CleanRecord(Date(2020, 3, 1), 5.5))
    ensures ParseRecord(b) == None
    ensures ParseRecord(c) == Some(CleanRecord(Date(2020, 3, 2), 5.7))
  {
    var five, seven := "5", "7";
    ExampleRowText(a, 1, five);
    ExampleRowText(c, 2, seven);
    WellFormedRowParses(a, Date(2020, 3, 1), five, five);
    WellFormedRowParses(c, Date(2020, 3, 2), five, seven);
    MalformedDateExamples(b.date);
  }

  /** The texts of a well-formed row of the worked example: day `day` of
      March 2020 with value "5,<frac>". */
  lemma ExampleRowText(r: RawRecord, day: int, frac: string)
    requires day in {1, 2} && frac in {"5", "7"}
    requires r == RawRecord(Pad2(day) + "/03/2020", "5," + frac)
    ensures ValidDate(Date(2020, 3, day)) && r.date == FormatDmy(Date(2020, 3, day))
    ensures AllDigits(frac) && r.value == "5" + [','] + frac
    ensures DecimalValue("5", frac) == 5.0 + (if frac == "5" then 0.5 else 0.7)
  {
    March2020(day);
    FiveDecimal(frac);
  }

  lemma March2020(day: int)
    requires 1 <= day <= 31
    ensures ValidDate(Date(2020, 3, day)) && FormatDmy(Date(2020, 3, day)) == Pad2(day) + "/03/2020"
  {
    assert Pad2(3) == "03";
    assert Pad4(2020) == "2020" by {
      assert Pad2(20) == "20";
    }
  }

  lemma FiveDecimal(frac: string)
    requires frac in {"5", "7"}
    ensures AllDigits(frac) && DecimalValue("5", frac) == 5.0 + (if frac == "5" then 0.5 else 0.7)
  {
    var whole := "5";
    assert DigitsToNat(whole) == 5 && DigitsToNat(frac) == (if frac == "5" then 5 else 7) by {
      assert whole[..0] == [] && frac[..0] == [];
    }
    assert Pow10(|frac|) == 10;
  }

  // ------------------------------------------------------------ clean_bcb_data

  /** The first `i` rows of `s` are in date order. */
  predicate SortedUpTo(s: seq<CleanRecord>, i: nat)
    requires i <= |s|
  {
    forall p, q :: 0 <= p < q < i ==> DateLe(s[p].date, s[q].date)
  }

  /** Rows `0..i` are in date order once row `j` is set aside. */
  predicate SortedExcept(s: seq<CleanRecord>, i: nat, j: nat)
    requires i < |s|
  {
    forall p, q :: 0 <= p < q <= i && p != j && q != j ==> DateLe(s[p].date, s[q].date)
  }

  /** Row `j` is no later than any of rows `j+1..i`. */
  predicate BelowFollowing(s: seq<CleanRecord>, i: nat, j: nat)
    requires j <= i < |s|
  {
    forall q :: j < q <= i ==> DateLe(s[j].date, s[q].date)
  }

  /** Moving row `j` one place left past a later-dated row keeps the
      insertion invariant, now about position `j - 1`. */
  lemma SwapStep(s: seq<CleanRecord>, t: seq<CleanRecord>, i: nat, j: nat)
    requires 0 < j <= i < |s|
    requires SortedExcept(s, i, j) && BelowFollowing(s, i, j) && !DateLe(s[j - 1].date, s[j].date)
    requires t == s[j - 1 := s[j]][j := s[j - 1]]
    ensures SortedExcept(t, i, j - 1) && BelowFollowing(t, i, j - 1)
  {
  }

  /** Exchanging two neighbours neither adds nor loses a row. */
  lemma SwapKeepsRows(s: seq<CleanRecord>, t: seq<CleanRecord>, j: nat)
    requires 0 < j < |s| && t == s[j - 1 := s[j]][j := s[j - 1]]
    ensures multiset(t) == multiset(s)
  {
  }

  /** Once row `j` is no earlier than its left neighbour, rows `0..i` are in
      date order. */
  lemma InsertDone(s: seq<CleanRecord>, i: nat, j: nat)
    requires j <= i < |s|
    requires SortedExcept(s, i, j) && BelowFollowing(s, i, j)
    requires j > 0 ==> DateLe(s[j - 1].date, s[j].date)
    ensures SortedUpTo(s, i + 1)
  {
    forall p, q | 0 <= p < q <= i
      ensures DateLe(s[p].date, s[q].date)
    {
      if q == j && p < j - 1 {
        assert DateLe(s[p].date, s[j - 1].date);
      }
    }
  }

  /** Sorts the first `n` rows by date in place (insertion sort). */
  method SortByDate(a: array<CleanRecord>, n: nat)
    requires n <= a.Length
    modifies a
    ensures SortedByDate(a[..n])
    ensures multiset(a[..n]) == old(multiset(a[..n]))
    ensures a[n..] == old(a[n..])
  {
    var i := 0;
    while i < n
      invariant 0 <= i <= n
      invariant SortedUpTo(a[..n], i)
      invariant multiset(a[..n]) == old(multiset(a[..n]))
      invariant a[n..] == old(a[n..])
    {
      InsertNext(a, n, i);
      i := i + 1;
    }
  }

  /** Moves row `i` down into the sorted rows before it. */
  method InsertNext(a: array<CleanRecord>, n: nat, i: nat)
    requires i < n <= a.Length && SortedUpTo(a[..n], i)
    modifies a
    ensures SortedUpTo(a[..n], i + 1)
    ensures multiset(a[..n]) == old(multiset(a[..n]))
    ensures a[n..] == old(a[n..])
  {
    var j := i;
    while j > 0 && !DateLe(a[j - 1].date, a[j].date)
      invariant 0 <= j <= i
      invariant multiset(a[..n]) == old(multiset(a[..n]))
      invariant SortedExcept(a[..n], i, j) && BelowFollowing(a[..n], i, j)
      invariant a[n..] == old(a[n..])
    {
      ghost var s, rest := a[..n], a[n..];
      a[j - 1], a[j] := a[j], a[j - 1];
      assert a[..n] == s[j - 1 := s[j]][j := s[j - 1]];
      assert a[n..] == rest;
      SwapStep(s, a[..n], i, j);
      SwapKeepsRows(s, a[..n], j);
      j := j - 1;
    }
    InsertDone(a[..n], i, j);
  }

  /** `clean_bcb_data`: parses the rows into a fresh array, keeping those
      that parse, sorts them by date in place, and returns them. The
      caller's rows are only read. */
  method CleanBcbData(raw: array<RawRecord>) returns (clean: seq<CleanRecord>)
    ensures Cleaned(raw[..], clean)
    ensures |clean| <= raw.Length
    ensures forall k :: 0 <= k < |clean| ==> exists i :: 0 <= i < raw.Length && ParseRecord(raw[i]) == Some(clean[k])
    ensures forall i :: 0 <= i < raw.Length && ParseRecord(raw[i]).Some? ==> ParseRecord(raw[i]).value in clean
  {
    var buf, n := DropUnparsable(raw);
    SortByDate(buf, n);
    clean := buf[..n];
    CleanedFacts(raw[..], clean);
  }

  /** Lines 30-33: the parsed rows, those that parse, in input order, at the
      front of a fresh array. */
  method DropUnparsable(raw: array<RawRecord>) returns (buf: array<CleanRecord>, n: nat)
    ensures fresh(buf) && n <= buf.Length
    ensures buf[..n] == Kept(raw[..])
  {
    buf := new CleanRecord[raw.Length];
    ghost var parsed := Parsed(raw[..]);
    n := 0;
    var i := 0;
    while i < raw.Length
      invariant 0 <= n <= i <= raw.Length
      invariant buf[..n] == Somes(parsed[..i])
    {
      var row := ParseRecord(raw[i]);
      assert parsed[i] == row;
      SomesSnoc(parsed, i);
      n := KeepIfParsed(buf, n, row);
      i := i + 1;
    }
    assert parsed[..i] == parsed;
  }

  /** Appends the parsed row, if any, after the first `n` kept rows. */
  method KeepIfParsed(buf: array<CleanRecord>, n: nat, row: Option<CleanRecord>) returns (n': nat)
    requires n <= buf.Length && (row.Some? ==> n < buf.Length)
    modifies buf
    ensures n' == if row.Some? then n + 1 else n
    ensures buf[..n'] == old(buf[..n]) + (if row.Some? then [row.value] else [])
  {
    n' := n;
    if row.Some? {
      buf[n] := row.value;
      n' := n + 1;
    }
  }

  /** The present values after one more position. */
  lemma SomesSnoc<T>(xs: seq<Option<T>>, i: nat)
    requires i < |xs|
    ensures Somes(xs[..i + 1]) == Somes(xs[..i]) + (if xs[i].Some? then [xs[i].value] else [])
  {
    assert xs[..i + 1][..i] == xs[..i];
  }

  // ------------------------------------------------------------ the stage

  /** The clean files after cleaning each of `names` whose raw file exists in
      `raw`: those hold a cleaning of their raw rows, every other clean file
      is as it was in `clean0`. */
  ghost predicate Transformed(raw: map<string, seq<RawRecord>>, clean0: map<string, seq<CleanRecord>>,
                              clean1: map<string, seq<CleanRecord>>, names: seq<string>)
  {
    && (forall n :: n in names && n in raw ==> n in clean1 && Cleaned(raw[n], clean1[n]))
    && (forall n :: n !in names || n !in raw ==>
          (n in clean1 <==> n in clean0) && (n in clean0 ==> clean1[n] == clean0[n]))
  }

  /** `process_indicator`: a missing raw file is skipped and nothing is
      written; otherwise the raw rows are read, cleaned and saved as the
      clean file, replacing any earlier one. */
  method ProcessIndicator(folder: DataFolder, name: string)
    modifies folder
    ensures folder.raw == old(folder.raw)
    ensures name !in folder.raw ==> folder.clean == old(folder.clean)
    ensures name in folder.raw ==> exists c :: Cleaned(folder.raw[name], c) && folder.clean == old(folder.clean)[name := c]
  {
    if name !in folder.raw {
      return;
    }
    var rawRows := folder.raw[name];
    var table := new RawRecord[|rawRows|](k requires 0 <= k < |rawRows| => rawRows[k]);
    assert table[..] == rawRows;
    var cleaned := CleanBcbData(table);
    folder.clean := folder.clean[name := cleaned];
  }

  /** The transformation `__main__` loop: every indicator of the registry in
      turn; a missing raw file does not stop the others. */
  method RunTransformation(folder: DataFolder)
    modifies folder
    ensures folder.raw == old(folder.raw)
    ensures Transformed(folder.raw, old(folder.clean), folder.clean, IndicatorNames)
  {
    var i := 0;
    while i < |IndicatorNames|
      invariant 0 <= i <= |IndicatorNames|
      invariant folder.raw == old(folder.raw)
      invariant Transformed(folder.raw, old(folder.clean), folder.clean, IndicatorNames[..i])
    {
      ghost var before := folder.clean;
      var name := IndicatorNames[i];
      ProcessIndicator(folder, name);
      TransformedStep(folder.raw, old(folder.clean), before, folder.clean, IndicatorNames, i);
      i := i + 1;
    }
    assert IndicatorNames[..i] == IndicatorNames;
  }

  /** Cleaning one more indicator, not among those done, extends a
      transformation by that indicator. */
  lemma TransformedStep(raw: map<string, seq<RawRecord>>, clean0: map<string, seq<CleanRecord>>,
                        mid: map<string, seq<CleanRecord>>, clean1: map<string, seq<CleanRecord>>,
                        names: seq<string>, i: nat)
    requires i < |names| && names[i] !in names[..i]
    requires Transformed(raw, clean0, mid, names[..i])
    requires names[i] !in raw ==> clean1 == mid
    requires names[i] in raw ==> exists c :: Cleaned(raw[names[i]], c) && clean1 == mid[names[i] := c]
    ensures Transformed(raw, clean0, clean1, names[..i + 1])
  {
    var name := names[i];
    if name in raw {
      var c :| Cleaned(raw[name], c) && clean1 == mid[name := c];
    }
    FileStep(raw, clean0, mid, clean1, names, i, (r, c) => Cleaned(r, c));
  }

  /** The same step for any relation `ok` between an input file and its
      output file. */
  lemma FileStep<R, C>(raw: map<string, R>, clean0: map<string, C>, mid: map<string, C>, clean1: map<string, C>,
                       names: seq<string>, i: nat, ok: (R, C) -> bool)
    requires i < |names| && names[i] !in names[..i]
    requires forall n :: n in names[..i] && n in raw ==> n in mid && ok(raw[n], mid[n])
    requires forall n :: n !in names[..i] || n !in raw ==> (n in mid <==> n in clean0) && (n in clean0 ==> mid[n] == clean0[n])
    requires names[i] !in raw ==> clean1 == mid
    requires names[i] in raw ==> names[i] in clean1 && ok(raw[names[i]], clean1[names[i]]) && clean1 == mid[names[i] := clean1[names[i]]]
    ensures forall n :: n in names[..i + 1] && n in raw ==> n in clean1 && ok(raw[n], clean1[n])
    ensures forall n :: n !in names[..i + 1] || n !in raw ==> (n in clean1 <==> n in clean0) && (n in clean0 ==> clean1[n] == clean0[n])
  {
    var name := names[i];
    assert names[..i + 1] == names[..i] + [name];
    forall n | n in names[..i + 1] && n in raw
      ensures n in clean1 && ok(raw[n], clean1[n])
    {
      if n != name {
        assert n in names[..i];
      }
    }
    forall n | n !in names[..i + 1] || n !in raw
      ensures (n in clean1 <==> n in clean0) && (n in clean0 ==> clean1[n] == clean0[n])
    {
      assert n !in names[..i] || n !in raw;
    }
  }
}
