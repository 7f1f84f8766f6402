# Clima: latest sensor reading for a date

Clima is a single-screen Android app. The user picks a calendar date. The app
queries the Firestore collection `SensorData` for documents whose `date`
equals that day. It shows the reading with the greatest `time` string as a
`WeatherInfo` (date, time, temperature, humidity).

This project models the two pieces of logic behind that screen:

- `selectLatestWeatherData`. It picks, among the fetched documents, the first
  one whose `time` is largest under Kotlin's `String.compareTo`. A missing
  `time` competes as `"00:00"`. The chosen document becomes a `WeatherInfo`:
  `date` and `time` are copied, with `""` for a missing field. The
  temperature is rendered as `"${temp}°C"` and the humidity as `"${hmd}%"`,
  so a missing value reads `null`.
- The branching of `fetchWeatherData`. A failed query, or a successful one
  with no documents, gives no reading. A non-empty success gives the
  selector's result.

Modules:

- `Wrappers`: `Option`, standing for Kotlin's nullable types.
- `KotlinStrings`: JVM string comparison and templates. A Dafny `string`
  holds Unicode scalar values. It is compared through its UTF-16 encoding,
  with Java's `compareTo` result: the difference of the first differing
  units, else the difference of the lengths. This is proved equal to an
  independent lexicographic order, in which a proper prefix sorts lower. It
  is also proved to be a total preorder.
- `MaxBy`: Kotlin's `maxByOrNull` with a `String` key. It is defined once as
  a recursive left fold (`FirstMaxIndex`). It is defined again as the
  standard library's loop (`MaxByOrNullLoop`), and the loop is proved to
  agree with the fold. The standard library replaces the running maximum
  only on a strict `<`, so ties go to the earliest element. The model keeps
  that tie-break.
- `Clima`: the document, `WeatherInfo` and query-outcome datatypes, the
  selector and the fetch wrapper.
- `ClimaProperties` and `ClimaExamples`: the promised properties, and
  concrete selections.

Comparison is by character, not by clock. An unpadded `"9:00"` beats
`"10:00"`. A zero-padded `"09:00"` does not beat `"10:00"`, because `'0'` is
below `'1'`. `ClimaExamples.PaddedTenBeatsNine` proves it.

## Model

| member | source | states |
|---|---|---|
| KotlinStrings.UnitsInjective | app/src/main/java/com/app/clima/MainActivity.kt:198-199 | the UTF-16 encoding of one character determines the character and is not a prefix of another character's encoding |
| KotlinStrings.Utf16Injective | app/src/main/java/com/app/clima/MainActivity.kt:198-199 | distinct strings have distinct UTF-16 code-unit sequences; with `CompareToZeroIsEqual` this means comparing encodings compares the strings themselves |
| KotlinStrings.CompareUnitsIsLexicographic | app/src/main/java/com/app/clima/MainActivity.kt:198-199 | `compareTo` is negative exactly when the first string's code units come lexicographically first: a proper prefix, or a smaller unit at the first difference |
| KotlinStrings.LessIsLexicographic | app/src/main/java/com/app/clima/MainActivity.kt:198-199 | Kotlin's `<` on strings is lexicographic order on their UTF-16 code units |
| KotlinStrings.CompareUnitsAntisymmetric | app/src/main/java/com/app/clima/MainActivity.kt:198-199 | swapping the operands of `compareTo` negates the result |
| KotlinStrings.CompareUnitsReflexive | app/src/main/java/com/app/clima/MainActivity.kt:198-199 | a string compares equal to itself |
| KotlinStrings.CompareUnitsZeroIsEqual | app/src/main/java/com/app/clima/MainActivity.kt:198-199 | only equal code-unit sequences compare 0 |
| KotlinStrings.CompareToZeroIsEqual | app/src/main/java/com/app/clima/MainActivity.kt:198-199 | `a.compareTo(b) == 0` exactly when the strings are equal, so a tie of keys is an equality of times |
| KotlinStrings.CompareUnitsTransitive | app/src/main/java/com/app/clima/MainActivity.kt:198-199 | the order `compareTo` induces is transitive, and strict if either step is strict |
| KotlinStrings.Less | app/src/main/java/com/app/clima/MainActivity.kt:198-199 | Kotlin's `a < b` on strings, the `maxValue < v` test `maxByOrNull` applies to the time keys: `compareTo` on the UTF-16 code units is negative |
| KotlinStrings.LessIrreflexive | app/src/main/java/com/app/clima/MainActivity.kt:198-199 | no time key is below itself |
| KotlinStrings.NotLessIsAtLeast | app/src/main/java/com/app/clima/MainActivity.kt:198-199 | a key that is not below another is at least it: the order is total |
| KotlinStrings.AtMostExcludesGreater | app/src/main/java/com/app/clima/MainActivity.kt:198-199 | `a <= b` rules out `b < a` |
| KotlinStrings.AtMostLessTransitive | app/src/main/java/com/app/clima/MainActivity.kt:198-199 | `a <= b` and `b < c` give `a < c` |
| KotlinStrings.AtMostTransitive | app/src/main/java/com/app/clima/MainActivity.kt:198-199 | `<=` on strings is transitive |
| MaxBy.FirstMaxStep | app/src/main/java/com/app/clima/MainActivity.kt:198-199 | one scan step: the new element becomes the maximum exactly when the old maximum's key is strictly below its key, and the first maximum stays correct either way |
| MaxBy.FirstMaxIndex | app/src/main/java/com/app/clima/MainActivity.kt:198-199 | on a non-empty list the fold lands on a position whose key is at least every key, and every earlier key is strictly smaller |
| MaxBy.FirstMaxUnique | app/src/main/java/com/app/clima/MainActivity.kt:198-199 | at most one position is the first maximum, so the choice is deterministic |
| MaxBy.FirstMaxBeatsEarlierTies | app/src/main/java/com/app/clima/MainActivity.kt:198-199 | no element before the first maximum has a key that ties with it (`compareTo` gives 0) |
| MaxBy.MaxByOrNull | app/src/main/java/com/app/clima/MainActivity.kt:198-200 | `maxByOrNull` gives null exactly for an empty list, else an element of the list at its first maximum |
| MaxBy.MaxByOrNullLoop | app/src/main/java/com/app/clima/MainActivity.kt:198-200 | the standard library's scan, which replaces the maximum only on a strict `<`, returns the same as `MaxByOrNull` on every list |
| Clima.TimeKey | app/src/main/java/com/app/clima/MainActivity.kt:199 | the document's `time`, or `"00:00"` when it is absent |
| Clima.Display | app/src/main/java/com/app/clima/MainActivity.kt:201-206 | the `WeatherInfo` built from a document: `date` and `time` or `""`, `temp` then `°C`, `hmd` then `%`, each value through the template |
| KotlinStrings.Template | app/src/main/java/com/app/clima/MainActivity.kt:204-205 | the string template `"${x}"` on a nullable string: the string itself, or the text `null` when absent |
| Clima.SelectLatestWeatherData | app/src/main/java/com/app/clima/MainActivity.kt:197-208 | no reading exactly when there are no documents; otherwise the display of a document at the first maximum of the time key, `"00:00"` for a missing time |
| Clima.FetchWeatherData | app/src/main/java/com/app/clima/MainActivity.kt:182-194 | a reading exactly for a non-empty success; failure and empty success give none; on every success the result equals the selector's |
| ClimaProperties.SelectsFirstMax | app/src/main/java/com/app/clima/MainActivity.kt:197-208 | whenever a document is the first maximum, the selector shows exactly that document |
| ClimaProperties.ShownFieldsComeFromOneDocument | app/src/main/java/com/app/clima/MainActivity.kt:200-205 | the shown date, time, temperature and humidity all come from one input document, with `""` for a missing date or time |
| ClimaProperties.ShownTimeIsMaximal | app/src/main/java/com/app/clima/MainActivity.kt:198-203 | a shown non-empty time is at least every document's time key |
| ClimaProperties.MissingTimeCompetesAsMidnight | app/src/main/java/com/app/clima/MainActivity.kt:199-203 | a winning document without time means no key exceeds `"00:00"`, and it is shown with time `""` |
| ClimaProperties.ShownValuesAreFormatted | app/src/main/java/com/app/clima/MainActivity.kt:204-205 | temperature is the chosen `temp` followed by `°C`, humidity the chosen `hmd` followed by `%`; a missing value gives `null°C` or `null%` |
| ClimaProperties.TiesGoToEarliest | app/src/main/java/com/app/clima/MainActivity.kt:198-199 | when a document holds a largest key, the shown reading comes from that document or an earlier one |
| ClimaExamples.StrictlyLatestIsShown | app/src/main/java/com/app/clima/MainActivity.kt:198-206 | a document whose time key is strictly above every other key is the one shown |
| ClimaExamples.UnpaddedNineBeatsTen | app/src/main/java/com/app/clima/MainActivity.kt:198-206 | `"9:00"` is chosen over `"10:00"`, because the comparison is by character |
| ClimaExamples.PaddedTenBeatsNine | app/src/main/java/com/app/clima/MainActivity.kt:198-206 | with zero padding, `"10:00"` is chosen over `"09:00"` |
| ClimaExamples.AfternoonReadingWins | app/src/main/java/com/app/clima/MainActivity.kt:198-206 | of `"08:00"`, `"14:30"` and `"02:00"`, the `"14:30"` reading is shown |
| ClimaExamples.MissingTimeTiesWithMidnight | app/src/main/java/com/app/clima/MainActivity.kt:198-206 | a first document without time ties with a later `"00:00"` and wins; it is shown with time `""` and temperature `null°C` |
| ClimaExamples.SurrogatePairSortsBelowHighBmp | app/src/main/java/com/app/clima/MainActivity.kt:198-199 | a character above U+FFFF sorts below U+FFFF, because its surrogate pair starts with a smaller code unit |

## Left out

- The Compose UI: `TitleHeader`, `WeatherInfoTable`, `TableRow`, the date-picker preview, layout and theming. It is presentation only.
- The Firestore client, the `SensorData` collection query and the `whereEqualTo("date", …)` filter. These are a foreign library and network I/O. The query is a `QueryOutcome` parameter: `Failure`, or `Success` with the documents.
- `Log.e` on query failure. It is a logging side effect.
- `CalendarView`, `Calendar` and `SimpleDateFormat("yyyy-MM-dd")`. They are Android and JDK library behaviour.
- The `selectedDate`, `weatherInfo` and `isLoading` state and the callback timing. These are asynchronous, with last-write-wins races between overlapping fetches. The callback `onResult` becomes the return value of `FetchWeatherData`.
- The default values of `WeatherInfo` (`"12:00"`, `"25°C"`, `"65%"`). The selector always supplies every field.
- Strings holding an unpaired surrogate are outside the model: a Dafny `char` is a Unicode scalar value. Firestore string values are UTF-8 and cannot carry them.
- `DocumentSnapshot.getString` throws when a field holds a non-string value. A document is modelled with each field a string or absent.
- The document order of a query snapshot is taken as given. Firestore decides it, and the tie-break depends on it.
