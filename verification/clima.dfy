/**
 * The date-scoped "latest reading" logic of the Clima screen: a query of the
 * `SensorData` collection yields sensor documents, the one with the largest
 * `time` string is chosen, and its fields are formatted for display.
 */
module Clima {
  import opened Wrappers
  import opened KotlinStrings
  import opened MaxBy

  /**
   * A sensor document as `DocumentSnapshot.getString` sees it: each field is
   * a string or absent (null).
   */
  datatype Doc = Doc(date: Option<string>, time: Option<string>, temp: Option<string>, hmd: Option<string>)

  /** The reading shown on screen. */
  datatype WeatherInfo = WeatherInfo(date: string, time: string, temperature: string, humidity: string)

  /** How the Firestore `get()` query completes: a failure, or a snapshot of documents. */
  datatype QueryOutcome = Failure | Success(documents: seq<Doc>)

  /** The key a document with no `time` competes with. */
  const MissingTimeKey: string := "00:00"

  /** The selector's comparison key: `time`, or `"00:00"` when absent. */
  function TimeKey(d: Doc): string {
    d.time.GetOr(MissingTimeKey)
  }

  /** The `WeatherInfo` built from the chosen document. */
  function Display(d: Doc): WeatherInfo {
    WeatherInfo(
      d.date.GetOr(""),
      d.time.GetOr(""),
      Template(d.temp) + "°C",
      Template(d.hmd) + "%")
  }

  /**
   * `selectLatestWeatherData`: nothing for no documents, otherwise the display
   * of the first document whose time key is largest.
   */
  function SelectLatestWeatherData(docs: seq<Doc>): (r: Option<WeatherInfo>)
    ensures r.None? <==> |docs| == 0
    ensures r.Some? ==> exists i :: IsFirstMax(docs, TimeKey, i) && r.value == Display(docs[i])
  {
    match MaxByOrNull(docs, TimeKey)
    case None => None
    case Some(d) => Some(Display(d))
  }

  /**
   * What `fetchWeatherData` hands its callback: nothing on failure or on an
   * empty snapshot, the selector's choice otherwise.
   */
  function FetchWeatherData(q: QueryOutcome): (r: Option<WeatherInfo>)
    ensures r.Some? <==> q.Success? && |q.documents| > 0
    ensures q.Success? ==> r == SelectLatestWeatherData(q.documents)
  {
    match q
    case Failure => None
    case Success(docs) => if |docs| > 0 then SelectLatestWeatherData(docs) else None
  }
}
