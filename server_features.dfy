/**
 * The prediction endpoint's feature encoding: the submitted form fields
 * become one row of integers laid out in the column order saved by the
 * training script. The classifier, the rating label encoder and the
 * `int(...)` parse of the year are outside this module; their results come
 * in as parameters.
 */
module ServerFeatures {
  import opened Wrappers
  import opened Text
  import opened Seqs
  import opened Encoding

  /**
   * `extract_duration`: the value of the first run of decimal digits in the
   * duration text; 0 when the field is missing or has no digit.
   */
  function ExtractDuration(x: Option<string>): (n: nat)
    ensures x.None? ==> n == 0
    ensures x.Some? && (forall k :: 0 <= k < |x.value| ==> !IsDigit(x.value[k])) ==> n == 0
    ensures x.Some? && FirstDigitRun(x.value).Some? ==> n == DecimalValue(FirstDigitRun(x.value).value)
  {
    match x
    case None => 0
    case Some(s) =>
      match FirstDigitRun(s)
      case Some(digits) => DecimalValue(digits)
      case None => 0
  }

  /** The genres a `listed_in` field names; none when it is missing or empty (`if not genres_str`). */
  function SubmittedGenres(listedIn: Option<string>): (parts: seq<string>)
    ensures listedIn.None? || listedIn == Some("") ==> parts == []
    ensures listedIn.Some? && listedIn.value != "" ==> parts == StrippedParts(listedIn.value)
  {
    if listedIn.None? || listedIn.value == "" then [] else StrippedParts(listedIn.value)
  }

  /**
   * `genres_multi_hot`: start from all genre columns at 0, then set to 1 the
   * column of every trimmed comma-separated part that is a top genre.
   */
  method GenresMultiHot(listedIn: Option<string>, topGenres: seq<string>) returns (out: map<string, int>)
    ensures out == GenreFlags(SubmittedGenres(listedIn), topGenres)
  {
    out := GenreZeros(topGenres);
    GenreFlagsNone(topGenres);
    if listedIn.None? || listedIn.value == "" {
      return;
    }
    var parts := StrippedParts(listedIn.value);
    for i := 0 to |parts|
      invariant out == GenreFlags(parts[..i], topGenres)
    {
      PrefixSnoc(parts, i);
      GenreFlagsStep(parts[..i], parts[i], topGenres);
      if parts[i] in topGenres {
        out := out[GenreKey(parts[i]) := 1];
      }
    }
    assert parts[..|parts|] == parts;
  }

  /**
   * `country_one_hot`: all country columns at 0, then the column of the
   * submitted country set to 1 when it is a top country.
   */
  function CountryOneHot(country: Option<string>, topCountries: seq<string>): (out: map<string, int>)
    ensures out == CountryFlags(country, topCountries)
  {
    var zeros := map c | c in topCountries :: CountryKey(c) := 0;
    if country.Some? && country.value in topCountries then zeros[CountryKey(country.value) := 1]
    else zeros
  }

  /** The three base features, then the genre and the country indicators (`row.update`). */
  function BuildRow(duration: int, year: int, rating: int, genres: map<string, int>, countries: map<string, int>)
    : (row: map<string, int>)
    ensures row.Keys == {"duration_num", "release_year", "rating"} + genres.Keys + countries.Keys
    ensures forall k :: k in countries ==> row[k] == countries[k]
    ensures forall k :: k in genres && k !in countries ==> row[k] == genres[k]
    ensures "duration_num" !in genres + countries ==> row["duration_num"] == duration
    ensures "release_year" !in genres + countries ==> row["release_year"] == year
    ensures "rating" !in genres + countries ==> row["rating"] == rating
  {
    map["duration_num" := duration, "release_year" := year, "rating" := rating] + genres + countries
  }

  /** `row.get(col, 0)`. */
  function ValueOrZero(row: map<string, int>, col: string): (v: int)
    ensures col in row ==> v == row[col]
    ensures col !in row ==> v == 0
  {
    if col in row then row[col] else 0
  }

  /** The model input: one value per feature column, in column order. */
  function FeatureVector(columns: seq<string>, row: map<string, int>): (v: seq<int>)
    ensures |v| == |columns|
    ensures forall i :: 0 <= i < |columns| ==> v[i] == ValueOrZero(row, columns[i])
  {
    seq(|columns|, i requires 0 <= i < |columns| => ValueOrZero(row, columns[i]))
  }

  /** `final_row`: the row's value for each feature column in turn, 0 for a column the row lacks. */
  method FinalRow(columns: seq<string>, row: map<string, int>) returns (v: seq<int>)
    ensures |v| == |columns|
    ensures forall i :: 0 <= i < |columns| ==> v[i] == if columns[i] in row then row[columns[i]] else 0
  {
    v := [];
    for i := 0 to |columns|
      invariant |v| == i
      invariant forall j :: 0 <= j < i ==> v[j] == ValueOrZero(row, columns[j])
    {
      v := v + [ValueOrZero(row, columns[i])];
    }
  }

  /**
   * The POST branch of `index` up to the classifier: the submitted duration,
   * genres and country encoded, the year and the encoded rating taken as
   * given, and the row laid out in `featureColumns` order.
   */
  method EncodeSubmission(
    duration: Option<string>, year: int, rating: int, listedIn: Option<string>, country: Option<string>,
    topGenres: seq<string>, topCountries: seq<string>, featureColumns: seq<string>)
    returns (v: seq<int>)
    ensures v == FeatureVector(featureColumns,
      BuildRow(ExtractDuration(duration), year, rating,
               GenreFlags(SubmittedGenres(listedIn), topGenres), CountryFlags(country, topCountries)))
  {
    var durationNum := ExtractDuration(duration);
    var genres := GenresMultiHot(listedIn, topGenres);
    var countries := CountryOneHot(country, topCountries);
    var row := BuildRow(durationNum, year, rating, genres, countries);
    v := FinalRow(featureColumns, row);
  }
}
