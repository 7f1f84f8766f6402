/** What the selector and the fetch wrapper promise about the reading they show. */
module ClimaProperties {
  import opened Wrappers
  import opened KotlinStrings
  import opened MaxBy
  import opened Clima

  /** The selector shows exactly the first document with the largest time key. */
  lemma SelectsFirstMax(docs: seq<Doc>, i: int)
    requires IsFirstMax(docs, TimeKey, i)
    ensures SelectLatestWeatherData(docs) == Some(Display(docs[i]))
  {
    FirstMaxUnique(docs, TimeKey, i, FirstMaxIndex(docs, TimeKey));
  }

  /** Every shown field comes from one and the same input document; nothing is invented. */
  lemma ShownFieldsComeFromOneDocument(docs: seq<Doc>)
    requires SelectLatestWeatherData(docs).Some?
    ensures var w := SelectLatestWeatherData(docs).value;
      exists i ::
        && 0 <= i < |docs|
        && w.date == docs[i].date.GetOr("")
        && w.time == docs[i].time.GetOr("")
        && w.temperature == Template(docs[i].temp) + "°C"
        && w.humidity == Template(docs[i].hmd) + "%"
  {
  }

  /** A shown non-empty time is the largest time key of all documents. */
  lemma ShownTimeIsMaximal(docs: seq<Doc>)
    requires SelectLatestWeatherData(docs).Some?
    requires SelectLatestWeatherData(docs).value.time != ""
    ensures forall j :: 0 <= j < |docs| ==> AtMost(TimeKey(docs[j]), SelectLatestWeatherData(docs).value.time)
  {
  }

  /**
   * A document without `time` competes as `"00:00"`; when it wins, every
   * document's key is at most `"00:00"` and the shown time is empty.
   */
  lemma MissingTimeCompetesAsMidnight(docs: seq<Doc>, i: int)
    requires IsFirstMax(docs, TimeKey, i) && docs[i].time.None?
    ensures SelectLatestWeatherData(docs).Some?
    ensures SelectLatestWeatherData(docs).value.time == ""
    ensures forall j :: 0 <= j < |docs| ==> AtMost(TimeKey(docs[j]), MissingTimeKey)
  {
    SelectsFirstMax(docs, i);
  }

  /**
   * Temperature is the chosen `temp` text followed by `°C`, humidity the
   * `hmd` text followed by `%`; an absent value reads `null`.
   */
  lemma ShownValuesAreFormatted(docs: seq<Doc>, i: int)
    requires IsFirstMax(docs, TimeKey, i)
    ensures SelectLatestWeatherData(docs).Some?
    ensures var w := SelectLatestWeatherData(docs).value;
      && (docs[i].temp.Some? ==> w.temperature == docs[i].temp.value + "°C")
      && (docs[i].temp.None? ==> w.temperature == "null°C")
      && (docs[i].hmd.Some? ==> w.humidity == docs[i].hmd.value + "%")
      && (docs[i].hmd.None? ==> w.humidity == "null%")
  {
    SelectsFirstMax(docs, i);
  }

  /**
   * Among documents sharing the largest key, the earliest wins: if document
   * `j` holds a largest key, the shown reading comes from `j` or before it.
   */
  lemma TiesGoToEarliest(docs: seq<Doc>, j: int)
    requires 0 <= j < |docs|
    requires forall k :: 0 <= k < |docs| ==> AtMost(TimeKey(docs[k]), TimeKey(docs[j]))
    ensures exists i :: 0 <= i <= j && SelectLatestWeatherData(docs) == Some(Display(docs[i]))
  {
    var i := FirstMaxIndex(docs, TimeKey);
    SelectsFirstMax(docs, i);
    if j < i {
      AtMostExcludesGreater(TimeKey(docs[i]), TimeKey(docs[j]));
    }
  }
}
