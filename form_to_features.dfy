/**
 * How the form's serialised fields meet the server's parsers, and how the
 * served feature row meets the training table: the duration composed in the
 * browser parses back to its number, the tag list joined with `", "` splits
 * back into the tags, and the row the endpoint builds has, column by column,
 * the layout of the table the classifier was trained on.
 */
module FormToFeatures {
  import opened Wrappers
  import opened Text
  import opened Seqs
  import opened Encoding
  import ClientForm
  import ServerFeatures
  import TrainingFeatures

  // ------------------------------------------------------------- duration

  /** A composed duration whose number is a digit string parses back to that number, on both sides. */
  lemma ComposedDurationParsesBack(number: string, unit: string)
    requires |number| > 0 && AllDigits(number)
    ensures ServerFeatures.ExtractDuration(Some(ClientForm.ComposeDuration(number, unit))) == DecimalValue(number)
    ensures TrainingFeatures.ExtractDurationOrNaN(Some(ClientForm.ComposeDuration(number, unit)))
         == Some(DecimalValue(number))
  {
    assert ClientForm.ComposeDuration(number, unit) == number + (" " + unit);
    DigitRunOfPrefix(number, " " + unit);
  }

  /** The number typed into the duration field is the number the server reads, whatever the unit. */
  lemma DurationRoundTrip(n: nat, unit: string)
    ensures ServerFeatures.ExtractDuration(Some(ClientForm.ComposeDuration(Decimal(n), unit))) == n
  {
    ComposedDurationParsesBack(Decimal(n), unit);
  }

  /** A decimal point ends the number the endpoint reads: `"<whole>.<frac> <unit>"` is read as `whole`. */
  lemma DecimalPointTruncates(whole: string, frac: string, unit: string)
    requires |whole| > 0 && AllDigits(whole)
    ensures ServerFeatures.ExtractDuration(Some(ClientForm.ComposeDuration(whole + "." + frac, unit)))
         == DecimalValue(whole)
  {
    var number := whole + "." + frac;
    var v := ClientForm.ComposeDuration(number, unit);
    assert number[..|whole|] == whole && number[|whole|] == '.';
    assert v[..|whole|] == number[..|whole|];
    DigitRunOfSlice(v, |whole|);
  }

  /** A minus sign is skipped by the endpoint: `"-<digits> <unit>"` is read as `digits`. */
  lemma SignIsDropped(digits: string, unit: string)
    requires |digits| > 0 && AllDigits(digits)
    ensures ServerFeatures.ExtractDuration(Some(ClientForm.ComposeDuration("-" + digits, unit)))
         == DecimalValue(digits)
  {
    var number := "-" + digits;
    var v := ClientForm.ComposeDuration(number, unit);
    assert number[1..] == digits;
    assert v[1..][..|digits|] == number[1..] && v[1..][|digits|] == ' ';
    DigitRunOfSlice(v[1..], |digits|);
    DigitRunAfterNonDigit(v);
  }

  /** An exponent ends the number the endpoint reads: `"<mantissa>e<exp> <unit>"` is read as `mantissa`. */
  lemma ExponentIsDropped(mantissa: string, exp: string, unit: string)
    requires |mantissa| > 0 && AllDigits(mantissa)
    ensures ServerFeatures.ExtractDuration(Some(ClientForm.ComposeDuration(mantissa + "e" + exp, unit)))
         == DecimalValue(mantissa)
  {
    var number := mantissa + "e" + exp;
    var v := ClientForm.ComposeDuration(number, unit);
    assert number[..|mantissa|] == mantissa && number[|mantissa|] == 'e';
    assert v[..|mantissa|] == number[..|mantissa|];
    DigitRunOfSlice(v, |mantissa|);
  }

  /** An empty number field sends `""`: the server reads 0 where the training script would read NaN. */
  lemma EmptyDurationField(unit: string)
    ensures ClientForm.ComposeDuration("", unit) == ""
    ensures ServerFeatures.ExtractDuration(Some(ClientForm.ComposeDuration("", unit))) == 0
    ensures TrainingFeatures.ExtractDurationOrNaN(Some(ClientForm.ComposeDuration("", unit))).None?
  {
  }

  /** The two `extract_duration` functions agree except that 0 stands where the training one gives NaN. */
  lemma DurationParsersAgree(x: Option<string>)
    ensures ServerFeatures.ExtractDuration(x) == TrainingFeatures.ExtractDurationOrNaN(x).GetOr(0)
    ensures TrainingFeatures.ExtractDurationOrNaN(x).None? ==> ServerFeatures.ExtractDuration(x) == 0
  {
  }

  // --------------------------------------------------------------- genres

  /** Tags as the Enter handler produces them, provided none contains a comma. */
  predicate PlainTags(tags: seq<string>) {
    forall t :: t in tags ==> t != "" && IsStripped(t) && ',' !in t
  }

  /** Splitting the hidden value on commas and trimming the parts gives back the tags. */
  lemma {:induction false} HiddenTagsSplitBack(tags: seq<string>)
    requires |tags| > 0 && PlainTags(tags)
    ensures StrippedParts(Join(tags, ", ")) == tags
  {
    assert tags[0] in tags;
    if |tags| == 1 {
      StrippedPartsSingle(tags[0]);
    } else {
      var rest := Join(tags[1..], ", ");
      JoinCommaSpace(tags[0], rest);
      assert Join(tags, ", ") == tags[0] + ", " + rest;
      StrippedPartsAtComma(tags[0], " " + rest);
      assert " " + rest == [' '] + rest;
      StrippedPartsLeadingSpace(' ', rest);
      assert PlainTags(tags[1..]) by {
        forall t | t in tags[1..] ensures t != "" && IsStripped(t) && ',' !in t {
          assert t in tags;
        }
      }
      HiddenTagsSplitBack(tags[1..]);
      assert [tags[0]] + tags[1..] == tags;
    }
  }

  /** `a + ", " + b` is `a`, a comma, then `" " + b`. */
  lemma JoinCommaSpace(a: string, b: string)
    ensures a + ", " + b == a + "," + (" " + b)
  {
  }

  /** Non-empty tags join to an empty hidden value only when there are none. */
  lemma {:induction false} HiddenTagsEmpty(tags: seq<string>)
    requires forall t :: t in tags ==> t != ""
    ensures Join(tags, ", ") == "" <==> tags == []
  {
    if |tags| > 0 {
      assert tags[0] in tags;
    }
  }

  /**
   * The server sees exactly the tags the user entered: the genre column of a
   * top genre is 1 if and only if that genre is one of the tags.
   */
  lemma SubmittedTagsEncode(tags: seq<string>, topGenres: seq<string>)
    requires PlainTags(tags)
    ensures ServerFeatures.SubmittedGenres(Some(Join(tags, ", "))) == tags
    ensures forall g :: g in topGenres ==>
      (GenreFlags(ServerFeatures.SubmittedGenres(Some(Join(tags, ", "))), topGenres)[GenreKey(g)] == 1
       <==> g in tags)
  {
    HiddenTagsEmpty(tags);
    if |tags| > 0 {
      HiddenTagsSplitBack(tags);
    }
  }

  /** A tag with a comma in it reaches the server as two genres. */
  lemma CommaTagSplits(a: string, b: string)
    requires PlainTags([a, b])
    ensures ServerFeatures.SubmittedGenres(Some(Join([a + ", " + b], ", "))) == [a, b]
  {
    assert a in [a, b] && b in [a, b];
    HiddenTagsSplitBack([a, b]);
  }

  /**
   * The server and the training script read the same genres from a
   * non-empty `listed_in` text and from a missing one.
   */
  lemma GenreReadersAgree(listedIn: Option<string>)
    requires listedIn != Some("")
    ensures ServerFeatures.SubmittedGenres(listedIn) == TrainingFeatures.CellGenres(listedIn)
  {
  }

  /**
   * On the empty `listed_in` text they differ: the server reads no genre,
   * the training script reads the genre `""`.
   */
  lemma EmptyListedInDiffers()
    ensures ServerFeatures.SubmittedGenres(Some("")) == []
    ensures TrainingFeatures.CellGenres(Some("")) == [""]
  {
    var empty: string := [];
    assert ServerFeatures.SubmittedGenres(Some(empty)) == [];
    SplitWithoutSeparator(empty, ',');
    assert IsStripped(empty);
    assert StripAll([empty]) == [Strip(empty)] == [empty];
    assert StrippedParts(empty) == [empty];
    assert TrainingFeatures.CellGenres(Some(empty)) == [empty];
  }

  // -------------------------------------------------------------- country

  /** Both `country_one_hot` functions build the same indicators for the same name. */
  lemma CountryEncodersAgree(country: string, topCountries: seq<string>)
    ensures ServerFeatures.CountryOneHot(Some(country), topCountries)
         == TrainingFeatures.CountryOneHot(country, topCountries)
  {
  }

  /**
   * The endpoint encodes the country field as submitted, without the
   * primary-country rule: a name with a comma in it matches no top country,
   * so every country column is 0.
   */
  lemma CommaCountryMatchesNothing(country: string, rawCountries: seq<Option<string>>)
    requires ',' in country
    ensures var top := TrainingFeatures.TopCountries(TrainingFeatures.CountryColumn(rawCountries));
      forall k :: k in ServerFeatures.CountryOneHot(Some(country), top) ==> ServerFeatures.CountryOneHot(Some(country), top)[k] == 0
  {
    var column := TrainingFeatures.CountryColumn(rawCountries);
    var top := TrainingFeatures.TopCountries(column);
    CountryFlagsAllZero(Some(country), top);
  }

  // --------------------------------------------------------------- layout

  /**
   * With the column list the training script saved, the row the endpoint
   * builds is a row of the training table: duration, year and rating, then
   * the genre indicators in `topGenres` order, then the country indicators
   * in `topCountries` order; no column falls back to 0.
   */
  lemma ServedRowFollowsTrainingLayout(
    duration: int, year: int, rating: int, present: seq<string>, country: Option<string>,
    topGenres: seq<string>, topCountries: seq<string>)
    ensures var genres, countries := GenreFlags(present, topGenres), CountryFlags(country, topCountries);
      && (forall col :: col in TrainingFeatures.FeatureColumns(topGenres, topCountries)
            ==> col in ServerFeatures.BuildRow(duration, year, rating, genres, countries))
      && ServerFeatures.FeatureVector(TrainingFeatures.FeatureColumns(topGenres, topCountries),
                                      ServerFeatures.BuildRow(duration, year, rating, genres, countries))
         == TrainingFeatures.FeatureRow(duration, year, rating, genres, countries, topGenres, topCountries)
  {
    var genres, countries := GenreFlags(present, topGenres), CountryFlags(country, topCountries);
    forall k | k in genres ensures |k| > 0 && k[0] == 'g' {
      var g :| g in topGenres && k == GenreKey(g);
    }
    forall k | k in countries ensures |k| > 0 && k[0] == 'c' {
      var c :| c in topCountries && k == CountryKey(c);
    }
    RowFollowsLayout(duration, year, rating, genres, countries, topGenres, topCountries);
  }

  /** The same, for any genre and country maps keyed like the indicator maps. */
  lemma RowFollowsLayout(
    duration: int, year: int, rating: int, genres: map<string, int>, countries: map<string, int>,
    topGenres: seq<string>, topCountries: seq<string>)
    requires forall g :: g in topGenres ==> GenreKey(g) in genres
    requires forall c :: c in topCountries ==> CountryKey(c) in countries
    requires forall k :: k in genres ==> |k| > 0 && k[0] == 'g'
    requires forall k :: k in countries ==> |k| > 0 && k[0] == 'c'
    ensures var columns := TrainingFeatures.FeatureColumns(topGenres, topCountries);
      var row := ServerFeatures.BuildRow(duration, year, rating, genres, countries);
      && (forall col :: col in columns ==> col in row)
      && ServerFeatures.FeatureVector(columns, row)
         == TrainingFeatures.FeatureRow(duration, year, rating, genres, countries, topGenres, topCountries)
  {
    var columns := TrainingFeatures.FeatureColumns(topGenres, topCountries);
    var row := ServerFeatures.BuildRow(duration, year, rating, genres, countries);
    var v := ServerFeatures.FeatureVector(columns, row);
    var w := TrainingFeatures.FeatureRow(duration, year, rating, genres, countries, topGenres, topCountries);
    var gk, ck := TrainingFeatures.GenreColumns(topGenres), TrainingFeatures.CountryColumns(topCountries);
    assert columns == TrainingFeatures.BASE_COLUMNS + gk + ck;
    assert w == [duration, year, rating] + TrainingFeatures.ValuesAt(genres, gk) + TrainingFeatures.ValuesAt(countries, ck);
    forall i | 0 <= i < |columns| ensures columns[i] in row && v[i] == w[i] {
      ServedColumn(duration, year, rating, genres, countries, gk, ck, columns, w, i);
    }
  }

  /**
   * Column `i` of a layout shaped like the training layout is present in the
   * served row, with the value the training row has at `i`.
   */
  lemma ServedColumn(
    duration: int, year: int, rating: int, genres: map<string, int>, countries: map<string, int>,
    genreKeys: seq<string>, countryKeys: seq<string>, columns: seq<string>, w: seq<int>, i: nat)
    requires forall k :: k in genres ==> |k| > 0 && k[0] == 'g'
    requires forall k :: k in countries ==> |k| > 0 && k[0] == 'c'
    requires forall k :: k in genreKeys ==> k in genres
    requires forall k :: k in countryKeys ==> k in countries
    requires columns == TrainingFeatures.BASE_COLUMNS + genreKeys + countryKeys
    requires w == [duration, year, rating] + TrainingFeatures.ValuesAt(genres, genreKeys)
                  + TrainingFeatures.ValuesAt(countries, countryKeys)
    requires i < |columns|
    ensures var row := ServerFeatures.BuildRow(duration, year, rating, genres, countries);
      columns[i] in row && row[columns[i]] == w[i]
  {
    var ng := |genreKeys|;
    if i < 3 {
      ServedBaseColumn(duration, year, rating, genres, countries, i);
    } else if i < 3 + ng {
      var k := genreKeys[i - 3];
      assert columns[i] == k && w[i] == genres[k];
      ServedIndicatorColumn(duration, year, rating, genres, countries, k);
    } else {
      var k := countryKeys[i - 3 - ng];
      assert |TrainingFeatures.BASE_COLUMNS + genreKeys| == 3 + ng;
      assert |[duration, year, rating] + TrainingFeatures.ValuesAt(genres, genreKeys)| == 3 + ng;
      assert columns[i] == k && w[i] == countries[k];
      ServedIndicatorColumn(duration, year, rating, genres, countries, k);
    }
  }

  /** The base columns keep the values given, since no indicator column shares their names. */
  lemma ServedBaseColumn(
    duration: int, year: int, rating: int, genres: map<string, int>, countries: map<string, int>, i: nat)
    requires forall k :: k in genres ==> |k| > 0 && k[0] == 'g'
    requires forall k :: k in countries ==> |k| > 0 && k[0] == 'c'
    requires i < 3
    ensures var row := ServerFeatures.BuildRow(duration, year, rating, genres, countries);
      && TrainingFeatures.BASE_COLUMNS[i] in row
      && row[TrainingFeatures.BASE_COLUMNS[i]] == [duration, year, rating][i]
  {
    var col := TrainingFeatures.BASE_COLUMNS[i];
    assert col[0] == 'd' || col[0] == 'r';
    assert col !in genres + countries;
  }

  /** An indicator column keeps its indicator's value: genre and country columns never share a name. */
  lemma ServedIndicatorColumn(
    duration: int, year: int, rating: int, genres: map<string, int>, countries: map<string, int>, key: string)
    requires forall k :: k in genres ==> |k| > 0 && k[0] == 'g'
    requires forall k :: k in countries ==> |k| > 0 && k[0] == 'c'
    requires key in genres || key in countries
    ensures var row := ServerFeatures.BuildRow(duration, year, rating, genres, countries);
      && key in row
      && row[key] == if key in genres then genres[key] else countries[key]
  {
    if key in genres {
      assert key !in countries;
    }
  }
}
