/** The extraction stage: the request window for one SGS series (default
    dates, the ten-year clamp for daily series, "%d/%m/%Y" formatting), the
    request itself, the status check on the answer, and the loop over the
    registry that saves each raw dataset. The HTTP exchange is a parameter:
    `Response` is what the server answered to the request built here. */
module Extract {
  import opened Wrappers
  import opened Digits
  import opened Calendar
  import opened Records

  const BaseUrl: string := "https://api.bcb.gov.br/dados/serie/bcdata.sgs"
  const ApiResponseFormat: string := "json"
  /** The default of `start_date`. */
  const DefaultStart: string := "2015-01-01"

  datatype Request = Request(endpoint: string, params: seq<(string, string)>)

  /** The status code, the body text, and the JSON array as two-field records. */
  datatype Response = Response(status: int, body: string, records: seq<RawRecord>)

  datatype FetchError =
    | InvalidDate(text: string)            // strptime raised: not a "%Y-%m-%d" date
    | YearReplaceFailed(year: int)         // today.replace(year=...) raised
    | HttpError(status: int, body: string) // any status other than 200
    | NoColumns                            // empty JSON array: the two-column rename raises

  /** The requested window, as calendar dates. */
  datatype Window = Window(start: Date, end: Date)

  /** SELIC (1178) and the USD rate (1) are the daily series. */
  predicate IsDailySeries(seriesId: int) {
    seriesId in [1178, 1]
  }

  /** `f"{BASE_URL}.{series_id}/dados"`: the series id can be read back from
      between the base URL and the "/dados" suffix. */
  function Endpoint(seriesId: int): (e: string)
    ensures |e| > |BaseUrl| + 7
    ensures e[..|BaseUrl| + 1] == BaseUrl + "." && e[|e| - 6..] == "/dados"
    ensures seriesId >= 0 ==>
      AllDigits(e[|BaseUrl| + 1..|e| - 6]) && DigitsToNat(e[|BaseUrl| + 1..|e| - 6]) == seriesId
  {
    var id := IntToString(seriesId);
    var e := BaseUrl + "." + id + "/dados";
    assert e[|BaseUrl| + 1..|e| - 6] == id;
    e
  }

  /** The text `start_date` holds when the function is entered. */
  function StartText(start: Option<string>): string {
    match start
    case None => DefaultStart
    case Some(s) => s
  }

  /** Lines 43-48: for a daily series the start becomes the later of itself
      and today ten years back, formatted and parsed again; otherwise the
      requested start is parsed as it is. */
  function EffectiveStart(seriesId: int, startText: string, today: Date): (r: Result<Date, FetchError>)
    requires ValidDate(today)
    ensures r.Success? ==> ValidDate(r.value)
    ensures r.Failure? ==> r.error.InvalidDate? || (IsDailySeries(seriesId) && r.error == YearReplaceFailed(today.year - 10))
  {
    if IsDailySeries(seriesId) then
      match ReplaceYear(today, today.year - 10)
      case None => Failure(YearReplaceFailed(today.year - 10))
      case Some(tenYearsAgo) =>
        match ParseIso(startText)
        case None => Failure(InvalidDate(startText))
        case Some(requested) => ParseStart(FormatIso(DateMax(requested, tenYearsAgo)))
    else
      ParseStart(startText)
  }

  /** Line 48, `strptime(start_date, "%Y-%m-%d")`. */
  function ParseStart(text: string): (r: Result<Date, FetchError>)
    ensures r.Success? ==> ValidDate(r.value)
    ensures r.Failure? ==> r.error == InvalidDate(text)
  {
    match ParseIso(text)
    case None => Failure(InvalidDate(text))
    case Some(d) => Success(d)
  }

  /** Lines 39-40 and 49: the end date defaults to today's "%Y-%m-%d" text
      and is parsed. */
  function EffectiveEnd(end: Option<string>, today: Date): (r: Result<Date, FetchError>)
    requires ValidDate(today)
    ensures r.Success? ==> ValidDate(r.value)
    ensures r.Failure? ==> end.Some? && r.error == InvalidDate(end.value)
  {
    var endText := match end case None => FormatIso(today) case Some(e) => e;
    IsoRoundTrip(today);
    match ParseIso(endText)
    case None => Failure(InvalidDate(endText))
    case Some(e) => Success(e)
  }

  /** Lines 39-49: the window, with the errors in the order the source
      raises them (the start's before the end's). */
  function RequestWindow(seriesId: int, start: Option<string>, end: Option<string>, today: Date): (w: Result<Window, FetchError>)
    requires ValidDate(today)
    ensures w.Success? ==> ValidDate(w.value.start) && ValidDate(w.value.end)
    ensures w.Success? <==> EffectiveStart(seriesId, StartText(start), today).Success? && EffectiveEnd(end, today).Success?
    ensures EffectiveStart(seriesId, StartText(start), today).Failure? ==>
      w.Failure? && w.error == EffectiveStart(seriesId, StartText(start), today).error
    ensures w.Success? ==>
      w.value == Window(EffectiveStart(seriesId, StartText(start), today).value, EffectiveEnd(end, today).value)
    ensures EffectiveStart(seriesId, StartText(start), today).Success? && EffectiveEnd(end, today).Failure? ==>
      w == Failure(EffectiveEnd(end, today).error)
  {
    match EffectiveStart(seriesId, StartText(start), today)
    case Failure(err) => Failure(err)
    case Success(s) =>
      match EffectiveEnd(end, today)
      case Failure(err) => Failure(err)
      case Success(e) => Success(Window(s, e))
  }

  /** Lines 48-56: the endpoint and the query parameters, dates written as
      "%d/%m/%Y". The parameters denote exactly the window: parsing them
      back as day/month/year gives its two dates. */
  function BuildRequest(seriesId: int, start: Option<string>, end: Option<string>, today: Date): (r: Result<Request, FetchError>)
    requires ValidDate(today)
    ensures r.Success? <==> RequestWindow(seriesId, start, end, today).Success?
    ensures r.Failure? ==> r.error == RequestWindow(seriesId, start, end, today).error
    ensures r.Success? ==>
      var w := RequestWindow(seriesId, start, end, today).value;
      && r.value.endpoint == Endpoint(seriesId)
      && |r.value.params| == 3
      && r.value.params[0] == ("formato", ApiResponseFormat)
      && r.value.params[1] == ("dataInicial", FormatDmy(w.start)) && ParseDmy(r.value.params[1].1) == Some(w.start)
      && r.value.params[2] == ("dataFinal", FormatDmy(w.end)) && ParseDmy(r.value.params[2].1) == Some(w.end)
  {
    match RequestWindow(seriesId, start, end, today)
    case Failure(err) => Failure(err)
    case Success(w) =>
      DmyRoundTrip(w.start);
      DmyRoundTrip(w.end);
      Success(Request(Endpoint(seriesId), [
        ("formato", ApiResponseFormat),
        ("dataInicial", FormatDmy(w.start)),
        ("dataFinal", FormatDmy(w.end))]))
  }

  /** Lines 61-68: only status 200 is a success; an empty array then fails
      at the positional rename, which needs two columns. */
  function CheckResponse(resp: Response): (r: Result<seq<RawRecord>, FetchError>)
    ensures r.Success? <==> resp.status == 200 && resp.records != []
    ensures r.Success? ==> r.value == resp.records
    ensures resp.status != 200 ==> r == Failure(HttpError(resp.status, resp.body))
    ensures resp.status == 200 && resp.records == [] ==> r == Failure(NoColumns)
  {
    if resp.status != 200 then Failure(HttpError(resp.status, resp.body))
    else if resp.records == [] then Failure(NoColumns)
    else Success(resp.records)
  }

  /** `fetch_bcb_series`: the request is built first (its errors come before
      any network traffic), then the server's answer is checked. */
  function FetchSeries(seriesId: int, start: Option<string>, end: Option<string>, today: Date, resp: Response): (r: Result<seq<RawRecord>, FetchError>)
    requires ValidDate(today)
    ensures r.Success? <==> RequestWindow(seriesId, start, end, today).Success? && resp.status == 200 && resp.records != []
    ensures r.Success? ==> r.value == resp.records
    ensures RequestWindow(seriesId, start, end, today).Failure? ==> r == Failure(RequestWindow(seriesId, start, end, today).error)
    ensures RequestWindow(seriesId, start, end, today).Success? && resp.status != 200 ==> r == Failure(HttpError(resp.status, resp.body))
  {
    match BuildRequest(seriesId, start, end, today)
    case Failure(err) => Failure(err)
    case Success(_) => CheckResponse(resp)
  }

  /** The clamp on its own: the later of the requested start and today ten
      years back, failing exactly when `replace` or the requested start's
      parse fails. */
  lemma DailyEffectiveStart(seriesId: int, startText: string, today: Date)
    requires ValidDate(today) && IsDailySeries(seriesId)
    ensures var r := EffectiveStart(seriesId, startText, today);
      && (r.Success? <==> ReplaceYear(today, today.year - 10).Some? && ParseIso(startText).Some?)
      && (r.Success? ==> r.value == DateMax(ParseIso(startText).value, ReplaceYear(today, today.year - 10).value))
  {
    match ReplaceYear(today, today.year - 10)
    case None =>
    case Some(tenYearsAgo) =>
      match ParseIso(startText)
      case None =>
      case Some(requested) =>
        ClampedStart(seriesId, startText, today, tenYearsAgo, requested);
  }

  /** When both the ten-year step back and the requested start are dates,
      the start is the later of the two. */
  lemma ClampedStart(seriesId: int, startText: string, today: Date, tenYearsAgo: Date, requested: Date)
    requires ValidDate(today) && IsDailySeries(seriesId)
    requires ReplaceYear(today, today.year - 10) == Some(tenYearsAgo) && ParseIso(startText) == Some(requested)
    ensures EffectiveStart(seriesId, startText, today) == Success(DateMax(requested, tenYearsAgo))
  {
    var m := DateMax(requested, tenYearsAgo);
    ReparsedStart(m);
    assert EffectiveStart(seriesId, startText, today) == ParseStart(FormatIso(m));
  }

  /** The clamped start, written as "%Y-%m-%d" and parsed again, is itself. */
  lemma ReparsedStart(m: Date)
    requires ValidDate(m)
    ensures ParseStart(FormatIso(m)) == Success(m)
  {
    IsoRoundTrip(m);
  }

  /** The end date is today when omitted, and the parsed text otherwise. */
  lemma EffectiveEndValue(end: Option<string>, today: Date)
    requires ValidDate(today)
    ensures end.None? ==> EffectiveEnd(end, today) == Success(today)
    ensures end.Some? ==> (EffectiveEnd(end, today).Success? <==> ParseIso(end.value).Some?)
    ensures end.Some? && ParseIso(end.value).Some? ==> EffectiveEnd(end, today).value == ParseIso(end.value).value
  {
    IsoRoundTrip(today);
  }

  /** For a daily series the effective start is the later of the requested
      start and today ten years back; the window fails exactly when
      `replace`, or the parse of the requested start or of the end, fails. */
  lemma DailyStartIsClamped(seriesId: int, start: Option<string>, end: Option<string>, today: Date)
    requires ValidDate(today) && IsDailySeries(seriesId)
    ensures var w := RequestWindow(seriesId, start, end, today);
      && (w.Success? <==>
            && ReplaceYear(today, today.year - 10).Some?
            && ParseIso(StartText(start)).Some?
            && (end.None? || ParseIso(end.value).Some?))
      && (w.Success? ==>
            w.value.start == DateMax(ParseIso(StartText(start)).value, ReplaceYear(today, today.year - 10).value))
  {
    DailyEffectiveStart(seriesId, StartText(start), today);
    EffectiveEndValue(end, today);
  }

  /** The clamped start is never earlier than today ten years back, nor than
      the requested start. */
  lemma DailyStartNotBeforeTenYears(seriesId: int, start: Option<string>, end: Option<string>, today: Date)
    requires ValidDate(today) && IsDailySeries(seriesId)
    requires RequestWindow(seriesId, start, end, today).Success?
    ensures ReplaceYear(today, today.year - 10).Some?
    ensures DateLe(ReplaceYear(today, today.year - 10).value, RequestWindow(seriesId, start, end, today).value.start)
    ensures DateLe(ParseIso(StartText(start)).value, RequestWindow(seriesId, start, end, today).value.start)
  {
    DailyStartIsClamped(seriesId, start, end, today);
  }

  /** Any other series passes the requested start through unchanged. */
  lemma OtherSeriesStartUnchanged(seriesId: int, start: Option<string>, end: Option<string>, today: Date)
    requires ValidDate(today) && !IsDailySeries(seriesId)
    ensures var w := RequestWindow(seriesId, start, end, today);
      && (w.Success? <==> ParseIso(StartText(start)).Some? && (end.None? || ParseIso(end.value).Some?))
      && (w.Success? ==> w.value.start == ParseIso(StartText(start)).value)
      && (ParseIso(StartText(start)).None? ==> w == Failure(InvalidDate(StartText(start))))
  {
    EffectiveEndValue(end, today);
  }

  /** An omitted end date is today, and an omitted start is 2015-01-01. */
  lemma DefaultWindow(seriesId: int, today: Date)
    requires ValidDate(today)
    ensures RequestWindow(seriesId, None, None, today).Success? ==>
      RequestWindow(seriesId, None, None, today).value.end == today
    ensures !IsDailySeries(seriesId) ==>
      RequestWindow(seriesId, None, None, today) == Success(Window(Date(2015, 1, 1), today))
  {
    EffectiveEndValue(None, today);
    assert DefaultStart == FormatIso(Date(2015, 1, 1));
    IsoRoundTrip(Date(2015, 1, 1));
  }

  /** On 29 February a daily series cannot be fetched: `replace` raises
      before any date is parsed. */
  lemma LeapDayFailsForDailySeries(seriesId: int, start: Option<string>, end: Option<string>, today: Date, resp: Response)
    requires ValidDate(today) && IsDailySeries(seriesId) && today.month == 2 && today.day == 29
    ensures FetchSeries(seriesId, start, end, today, resp) == Failure(YearReplaceFailed(today.year - 10))
  {
    LeapDayStartFails(seriesId, StartText(start), today);
  }

  /** On 29 February the start of a daily series fails at `replace`. */
  lemma LeapDayStartFails(seriesId: int, startText: string, today: Date)
    requires ValidDate(today) && IsDailySeries(seriesId) && today.month == 2 && today.day == 29
    ensures EffectiveStart(seriesId, startText, today) == Failure(YearReplaceFailed(today.year - 10))
  {
    LeapDayTenYearsBackFails(today);
  }

  /** SELIC requested from 1990-01-01 on 2024-06-01 is asked from 01/06/2014
      to 01/06/2024. */
  lemma ClampExample(today: Date, start: string)
    requires today == Date(2024, 6, 1) && start == "1990-01-01"
    ensures BuildRequest(1178, Some(start), None, today) ==
      Success(Request("https://api.bcb.gov.br/dados/serie/bcdata.sgs.1178/dados",
        [("formato", "json"), ("dataInicial", "01/06/2014"), ("dataFinal", "01/06/2024")]))
  {
    var w := Window(Date(2014, 6, 1), today);
    assert RequestWindow(1178, Some(start), None, today) == Success(w) by {
      assert ParseIso(start) == Some(Date(1990, 1, 1)) by {
        assert FormatIso(Date(1990, 1, 1)) == start;
        IsoRoundTrip(Date(1990, 1, 1));
      }
      assert ReplaceYear(today, today.year - 10) == Some(Date(2014, 6, 1));
      DailyStartIsClamped(1178, Some(start), None, today);
      EffectiveEndValue(None, today);
    }
    RequestOfWindow(1178, Some(start), None, today, w);
    ExampleDayMonthYear(w.start, "01/06/2014");
    ExampleDayMonthYear(w.end, "01/06/2024");
    SelicEndpoint();
  }

  /** The "%d/%m/%Y" text of the dates in the clamp example. */
  lemma ExampleDayMonthYear(d: Date, text: string)
    requires (d == Date(2014, 6, 1) && text == "01/06/2014") || (d == Date(2024, 6, 1) && text == "01/06/2024")
    ensures ValidDate(d) && FormatDmy(d) == text
  {
    ExamplePads();
    var yyyy := if d.year == 2014 then "2014" else "2024";
    DayMonthYearText(d, "01", "06", yyyy);
  }

  lemma ExamplePads()
    ensures Pad2(1) == "01" && Pad2(6) == "06" && Pad4(2014) == "2014" && Pad4(2024) == "2024"
  {
    assert Pad2(20) == "20" && Pad2(14) == "14" && Pad2(24) == "24";
  }

  lemma DayMonthYearText(d: Date, dd: string, mm: string, yyyy: string)
    requires ValidDate(d) && Pad2(d.day) == dd && Pad2(d.month) == mm && Pad4(d.year) == yyyy
    ensures FormatDmy(d) == dd + "/" + mm + "/" + yyyy
  {
  }

  /** SELIC's endpoint. */
  lemma SelicEndpoint()
    ensures Endpoint(1178) == "https://api.bcb.gov.br/dados/serie/bcdata.sgs.1178/dados"
  {
    SelicIdText();
  }

  lemma SelicIdText()
    ensures IntToString(1178) == "1178"
  {
    assert NatToString(1178) == "1178";
  }

  /** The request carries the window's two dates as "%d/%m/%Y" text. */
  lemma RequestOfWindow(seriesId: int, start: Option<string>, end: Option<string>, today: Date, w: Window)
    requires ValidDate(today) && RequestWindow(seriesId, start, end, today) == Success(w)
    ensures BuildRequest(seriesId, start, end, today) == Success(Request(Endpoint(seriesId),
      [("formato", ApiResponseFormat), ("dataInicial", FormatDmy(w.start)), ("dataFinal", FormatDmy(w.end))]))
  {
  }

  /** The fetch result: success exactly for status 200 with a non-empty
      array; 201 or 204 fail like 503, with the status and the body. */
  lemma OnlyStatus200Succeeds(seriesId: int, start: Option<string>, end: Option<string>, today: Date, resp: Response)
    requires ValidDate(today) && BuildRequest(seriesId, start, end, today).Success?
    ensures FetchSeries(seriesId, start, end, today, resp).Success? <==> resp.status == 200 && resp.records != []
    ensures resp.status != 200 ==>
      FetchSeries(seriesId, start, end, today, resp) == Failure(HttpError(resp.status, resp.body))
  {
  }

  datatype ExtractOutcome = Completed | Aborted(indicator: string, error: FetchError)

  type FetchResult = Result<seq<RawRecord>, FetchError>

  /** What `fetch_bcb_series(series_id)`, with the default dates, gives for
      each registry entry against the server's answer to it. */
  function FetchAll(inds: seq<Indicator>, responses: seq<Response>, today: Date): (rs: seq<FetchResult>)
    requires ValidDate(today) && |responses| == |inds|
    ensures |rs| == |inds|
    ensures forall i :: 0 <= i < |inds| ==> rs[i] == FetchSeries(inds[i].seriesId, None, None, today, responses[i])
  {
    seq(|inds|, i requires 0 <= i < |inds| => FetchSeries(inds[i].seriesId, None, None, today, responses[i]))
  }

  /** The `__main__` loop: save each indicator's fetched records as its raw
      file, in order; the first exception ends the run. */
  function ExtractRun(raw: map<string, seq<RawRecord>>, inds: seq<Indicator>, results: seq<FetchResult>): (r: (map<string, seq<RawRecord>>, ExtractOutcome))
    requires |results| == |inds|
    ensures r.1 == Completed <==> forall j :: 0 <= j < |results| ==> results[j].Success?
    decreases |inds|
  {
    if inds == [] then (raw, Completed)
    else
      match results[0]
      case Failure(err) => (raw, Aborted(inds[0].name, err))
      case Success(records) =>
        assert forall j :: 1 <= j < |results| ==> results[j] == results[1..][j - 1];
        ExtractRun(raw[inds[0].name := records], inds[1..], results[1..])
  }

  /** How many fetches, from the front, succeed. */
  function LeadingSuccesses(results: seq<FetchResult>): (k: nat)
    ensures k <= |results|
    ensures forall j :: 0 <= j < k ==> results[j].Success?
    ensures k < |results| ==> results[k].Failure?
  {
    if results == [] || results[0].Failure? then 0
    else 1 + LeadingSuccesses(results[1..])
  }

  predicate DistinctNames(inds: seq<Indicator>) {
    forall i, j :: 0 <= i < j < |inds| ==> inds[i].name != inds[j].name
  }

  /** The run writes exactly the raw files of the indicators before the first
      failure, each with its fetched records, and reports that failure;
      every other file is as it was. */
  lemma {:induction false} ExtractRunEffect(raw: map<string, seq<RawRecord>>, inds: seq<Indicator>, results: seq<FetchResult>)
    requires |results| == |inds| && DistinctNames(inds)
    ensures var k := LeadingSuccesses(results);
      var (raw', outcome) := ExtractRun(raw, inds, results);
      && (outcome == if k == |inds| then Completed else Aborted(inds[k].name, results[k].error))
      && (forall j :: 0 <= j < k ==> inds[j].name in raw' && raw'[inds[j].name] == results[j].value)
      && (forall name :: (forall j :: 0 <= j < k ==> inds[j].name != name) ==>
            (name in raw' <==> name in raw) && (name in raw ==> raw'[name] == raw[name]))
    decreases |inds|
  {
    if inds != [] && results[0].Success? {
      var raw1 := raw[inds[0].name := results[0].value];
      assert DistinctNames(inds[1..]);
      ExtractRunEffect(raw1, inds[1..], results[1..]);
      var k := LeadingSuccesses(results);
      assert k == 1 + LeadingSuccesses(results[1..]);
      var raw' := ExtractRun(raw, inds, results).0;
      assert raw' == ExtractRun(raw1, inds[1..], results[1..]).0;
      forall j | 0 <= j < k
        ensures inds[j].name in raw' && raw'[inds[j].name] == results[j].value
      {
        if j > 0 {
          assert inds[1..][j - 1] == inds[j] && results[1..][j - 1] == results[j];
        }
      }
      forall name | (forall j :: 0 <= j < k ==> inds[j].name != name)
        ensures (name in raw' <==> name in raw) && (name in raw ==> raw'[name] == raw[name])
      {
        assert inds[0].name != name;
        forall j | 0 <= j < k - 1 ensures inds[1..][j].name != name {
          assert inds[1..][j] == inds[j + 1];
        }
      }
    }
  }

  /** On 29 February, with IPCA fetched, the run stops at SELIC and writes
      only the IPCA file: the USD file is never written. */
  lemma LeapDayAbortsRemaining(raw: map<string, seq<RawRecord>>, responses: seq<Response>, today: Date)
    requires ValidDate(today) && today.month == 2 && today.day == 29
    requires |responses| == 3 && responses[0].status == 200 && responses[0].records != []
    ensures ExtractRun(raw, Indicators, FetchAll(Indicators, responses, today)) ==
      (raw["ipca" := responses[0].records], Aborted("selic", YearReplaceFailed(today.year - 10)))
  {
    LeapDayAbortsAfterFirst(raw, Indicators, responses, today);
  }

  /** A registry whose first series is not daily and whose second is: on 29
      February the run saves the first and aborts at the second. */
  lemma LeapDayAbortsAfterFirst(raw: map<string, seq<RawRecord>>, inds: seq<Indicator>, responses: seq<Response>, today: Date)
    requires ValidDate(today) && today.month == 2 && today.day == 29
    requires |inds| == |responses| >= 2 && !IsDailySeries(inds[0].seriesId) && IsDailySeries(inds[1].seriesId)
    requires responses[0].status == 200 && responses[0].records != []
    ensures ExtractRun(raw, inds, FetchAll(inds, responses, today)) ==
      (raw[inds[0].name := responses[0].records], Aborted(inds[1].name, YearReplaceFailed(today.year - 10)))
  {
    var rs := FetchAll(inds, responses, today);
    DefaultFetchAccepted(inds[0].seriesId, today, responses[0]);
    LeapDayFailsForDailySeries(inds[1].seriesId, None, None, today, responses[1]);
    AbortAtSecond(raw, inds, rs);
  }

  /** A non-daily series with default dates takes whatever status-200,
      non-empty answer the server gives. */
  lemma DefaultFetchAccepted(seriesId: int, today: Date, resp: Response)
    requires ValidDate(today) && !IsDailySeries(seriesId)
    requires resp.status == 200 && resp.records != []
    ensures FetchSeries(seriesId, None, None, today, resp) == Success(resp.records)
  {
    DefaultWindow(seriesId, today);
  }

  /** A run whose first fetch succeeds and second fails saves only the
      first. */
  lemma AbortAtSecond(raw: map<string, seq<RawRecord>>, inds: seq<Indicator>, results: seq<FetchResult>)
    requires |results| == |inds| >= 2 && results[0].Success? && results[1].Failure?
    ensures ExtractRun(raw, inds, results) == (raw[inds[0].name := results[0].value], Aborted(inds[1].name, results[1].error))
  {
    assert inds[1..][0] == inds[1] && results[1..][0] == results[1];
  }

  /** One step of the run over `inds[i..]`. */
  lemma ExtractStep(raw: map<string, seq<RawRecord>>, inds: seq<Indicator>, results: seq<FetchResult>, i: nat)
    requires |results| == |inds| && i < |inds|
    ensures results[i].Failure? ==> ExtractRun(raw, inds[i..], results[i..]) == (raw, Aborted(inds[i].name, results[i].error))
    ensures results[i].Success? ==>
      ExtractRun(raw, inds[i..], results[i..]) == ExtractRun(raw[inds[i].name := results[i].value], inds[i + 1..], results[i + 1..])
  {
    assert inds[i..][0] == inds[i] && results[i..][0] == results[i];
    assert inds[i..][1..] == inds[i + 1..] && results[i..][1..] == results[i + 1..];
  }

  /** The extraction `__main__` loop over the registry, saving each raw file
      into the data folder. */
  method RunExtraction(folder: DataFolder, today: Date, responses: seq<Response>) returns (outcome: ExtractOutcome)
    requires ValidDate(today) && |responses| == |Indicators|
    modifies folder
    ensures (folder.raw, outcome) == ExtractRun(old(folder.raw), Indicators, FetchAll(Indicators, responses, today))
    ensures folder.clean == old(folder.clean)
  {
    outcome := ExtractEach(folder, Indicators, today, responses);
  }

  /** Fetches and saves each of `inds` in turn, stopping at the first
      failure. */
  method ExtractEach(folder: DataFolder, inds: seq<Indicator>, today: Date, responses: seq<Response>) returns (outcome: ExtractOutcome)
    requires ValidDate(today) && |responses| == |inds|
    modifies folder
    ensures (folder.raw, outcome) == ExtractRun(old(folder.raw), inds, FetchAll(inds, responses, today))
    ensures folder.clean == old(folder.clean)
  {
    ghost var results := FetchAll(inds, responses, today);
    var i := 0;
    while i < |inds|
      invariant 0 <= i <= |inds|
      invariant folder.clean == old(folder.clean)
      invariant ExtractRun(folder.raw, inds[i..], results[i..]) == ExtractRun(old(folder.raw), inds, results)
    {
      var ind := inds[i];
      var fetched := FetchSeries(ind.seriesId, None, None, today, responses[i]);
      assert fetched == results[i];
      ExtractStep(folder.raw, inds, results, i);
      if fetched.Failure? {
        return Aborted(ind.name, fetched.error);
      }
      folder.raw := folder.raw[ind.name := fetched.value];
      i := i + 1;
    }
    return Completed;
  }
}
