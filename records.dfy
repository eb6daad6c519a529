/** The records that flow through the pipeline, the fixed indicator registry
    and the data folder ("../data") that the three stages share. */
module Records {
  import opened Calendar

  /** One element of the API's JSON array after the positional rename to
      `date`/`value`: both fields are still text. */
  datatype RawRecord = RawRecord(date: string, value: string)

  /** A cleaned row: a calendar date and an exact decimal value. These are
      the only two columns, so a table loaded from them has no index column. */
  datatype CleanRecord = CleanRecord(date: Date, value: real)

  /** An entry of the registry: the indicator's short code (also its file
      prefix and its table name) and its SGS series id. */
  datatype Indicator = Indicator(name: string, seriesId: int)

  /** `INDICATORS` of the extraction stage, in its iteration order. */
  const Indicators: seq<Indicator> := [Indicator("ipca", 433), Indicator("selic", 1178), Indicator("usd", 1)]

  /** `INDICATORS` of the transformation and load stages. */
  const IndicatorNames: seq<string> := ["ipca", "selic", "usd"]

  /** The data folder: `<name>_raw.csv` exists exactly when `name in raw`,
      `<name>_clean.csv` exactly when `name in clean`. */
  class DataFolder {
    var raw: map<string, seq<RawRecord>>
    var clean: map<string, seq<CleanRecord>>

    constructor (raw0: map<string, seq<RawRecord>>, clean0: map<string, seq<CleanRecord>>)
      ensures raw == raw0 && clean == clean0
    {
      raw := raw0;
      clean := clean0;
    }
  }
}
