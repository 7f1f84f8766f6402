/** Concrete selections showing how the string comparison behaves on sensor times. */
module ClimaExamples {
  import opened Wrappers
  import opened KotlinStrings
  import opened Clima
  import opened ClimaProperties

  /** A reading of the given day with every field present. */
  function Reading(time: string, temp: string, hmd: string): Doc {
    Doc(Some("2024-05-01"), Some(time), Some(temp), Some(hmd))
  }

  /** A document whose key is strictly above every other key is the one shown. */
  lemma StrictlyLatestIsShown(docs: seq<Doc>, i: int)
    requires 0 <= i < |docs|
    requires forall j :: 0 <= j < |docs| && j != i ==> Less(TimeKey(docs[j]), TimeKey(docs[i]))
    ensures SelectLatestWeatherData(docs) == Some(Display(docs[i]))
  {
    LessIrreflexive(TimeKey(docs[i]));
    SelectsFirstMax(docs, i);
  }

  /** Comparison is by characters, not by clock: an unpadded `"9:00"` beats `"10:00"`. */
  lemma UnpaddedNineBeatsTen()
    ensures Less("10:00", "9:00")
    ensures SelectLatestWeatherData([Reading("9:00", "20", "50"), Reading("10:00", "22", "55")])
         == Some(WeatherInfo("2024-05-01", "9:00", "20°C", "50%"))
  {
    var docs := [Reading("9:00", "20", "50"), Reading("10:00", "22", "55")];
    assert Less("10:00", "9:00");
    StrictlyLatestIsShown(docs, 0);
    assert Display(docs[0]) == WeatherInfo("2024-05-01", "9:00", "20°C", "50%");
  }

  /** With zero-padded times the character order is the clock order: `"10:00"` beats `"09:00"`. */
  lemma PaddedTenBeatsNine()
    ensures SelectLatestWeatherData([Reading("09:00", "20", "50"), Reading("10:00", "22", "55")])
         == Some(WeatherInfo("2024-05-01", "10:00", "22°C", "55%"))
  {
    var docs := [Reading("09:00", "20", "50"), Reading("10:00", "22", "55")];
    assert Less("09:00", "10:00");
    StrictlyLatestIsShown(docs, 1);
    assert Display(docs[1]) == WeatherInfo("2024-05-01", "10:00", "22°C", "55%");
  }

  /** The afternoon reading is the latest of three. */
  lemma AfternoonReadingWins(docs: seq<Doc>)
    requires docs == [Reading("08:00", "18", "70"), Reading("14:30", "27", "40"), Reading("02:00", "15", "80")]
    ensures SelectLatestWeatherData(docs) == Some(WeatherInfo("2024-05-01", "14:30", "27°C", "40%"))
  {
    assert Less("08:00", "14:30") && Less("02:00", "14:30");
    StrictlyLatestIsShown(docs, 1);
    assert Display(docs[1]) == WeatherInfo("2024-05-01", "14:30", "27°C", "40%");
  }

  /**
   * A document without `time` ties with `"00:00"` and, coming first, wins;
   * it is shown with an empty time and `null` for its missing temperature.
   */
  lemma MissingTimeTiesWithMidnight()
    ensures SelectLatestWeatherData([Doc(Some("2024-05-01"), None, None, Some("60")), Reading("00:00", "12", "90")])
         == Some(WeatherInfo("2024-05-01", "", "null°C", "60%"))
  {
    var docs := [Doc(Some("2024-05-01"), None, None, Some("60")), Reading("00:00", "12", "90")];
    LessIrreflexive("00:00");
    SelectsFirstMax(docs, 0);
    assert Display(docs[0]) == WeatherInfo("2024-05-01", "", "null°C", "60%");
  }

  /**
   * The order is by UTF-16 code unit, not by code point: U+10000, stored as
   * the surrogate pair D800 DC00, sorts below U+FFFF.
   */
  lemma SurrogatePairSortsBelowHighBmp()
    ensures Less("\U{10000}", "\U{FFFF}")
    ensures Utf16("\U{10000}") == [0xD800, 0xDC00]
  {
  }
}
