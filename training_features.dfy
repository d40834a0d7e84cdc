/**
 * The training script's data preparation: cleaning the raw cells, the
 * numeric duration, the primary country, the ten most frequent genres and
 * countries, the genre and country indicators, and the layout of the feature
 * table whose column list the prediction endpoint reuses.
 */
module TrainingFeatures {
  import opened Wrappers
  import opened Text
  import opened Seqs
  import opened Encoding

  // ------------------------------------------------------------ raw cells

  /**
   * `astype(str).replace({'nan': None})`: a missing cell stays missing, and
   * so does a cell whose text is exactly `nan`.
   */
  function CleanCell(cell: Option<string>): (v: Option<string>)
    ensures v.Some? <==> cell.Some? && cell.value != "nan"
    ensures v.Some? ==> v == cell
  {
    if cell == Some("nan") then None else cell
  }

  /**
   * `extract_duration` of the training script: the value of the first run of
   * decimal digits, or NaN (None) when the cell is missing or has no digit.
   */
  function ExtractDurationOrNaN(x: Option<string>): (n: Option<nat>)
    ensures n.None? <==> x.None? || forall k :: 0 <= k < |x.value| ==> !IsDigit(x.value[k])
    ensures n.Some? ==> n.value == DecimalValue(FirstDigitRun(x.value).value)
  {
    match x
    case None => None
    case Some(s) =>
      match FirstDigitRun(s)
      case Some(digits) => Some(DecimalValue(digits))
      case None => None
  }

  /** The placeholder for a title without a country. */
  const UNKNOWN_COUNTRY: string := "Unknown"

  /**
   * The primary-country rule: the text before the first comma, trimmed;
   * `"Unknown"` for a missing cell.
   */
  function PrimaryCountry(cell: Option<string>): (c: string)
    ensures cell.None? ==> c == UNKNOWN_COUNTRY
    ensures ',' !in c
    ensures cell.Some? ==> IsStripped(c)
    ensures cell.Some? && ',' !in cell.value ==> c == Strip(cell.value)
  {
    match cell
    case None => UNKNOWN_COUNTRY
    case Some(s) =>
      var first := Split(s, ',')[0];
      SplitPartsExcludeSeparator(s, ',');
      StripIsSlice(first);
      assert ',' !in s ==> first == s by {
        if ',' !in s {
          SplitWithoutSeparator(s, ',');
        }
      }
      Strip(first)
  }

  /** A cell with a comma: its primary country is the text before the first comma, trimmed. */
  lemma PrimaryCountryBeforeComma(s: string, i: nat)
    requires i < |s| && s[i] == ',' && ',' !in s[..i]
    ensures PrimaryCountry(Some(s)) == Strip(s[..i])
  {
    assert s == s[..i] + [','] + s[i + 1..];
    SplitAtFirstSeparator(s[..i], ',', s[i + 1..]);
  }

  /** The `country` column after cleaning and the primary-country rule. */
  function CountryColumn(raw: seq<Option<string>>): (countries: seq<string>)
    ensures |countries| == |raw|
    ensures forall i :: 0 <= i < |raw| ==> countries[i] == PrimaryCountry(CleanCell(raw[i]))
  {
    seq(|raw|, i requires 0 <= i < |raw| => PrimaryCountry(CleanCell(raw[i])))
  }

  /** The placeholder for a title without a genre list. */
  const UNKNOWN_GENRE: string := "Unknown"

  /** The `listed_in` column after cleaning and `fillna('Unknown')`. */
  function ListedInColumn(raw: seq<Option<string>>): (listedIn: seq<string>)
    ensures |listedIn| == |raw|
    ensures forall i :: 0 <= i < |raw| ==> listedIn[i] == CleanCell(raw[i]).GetOr(UNKNOWN_GENRE)
  {
    seq(|raw|, i requires 0 <= i < |raw| => CleanCell(raw[i]).GetOr(UNKNOWN_GENRE))
  }

  // ------------------------------------------------------ top-k features

  /** How many genres and countries get an indicator column. */
  const TOP_K: nat := 10

  /** `str.split(',').explode().str.strip()`: every genre of every title, in row order. */
  function ExplodeGenres(listedIn: seq<string>): (genres: seq<string>)
    ensures |listedIn| == 0 ==> genres == []
    ensures forall g :: g in genres <==> exists i :: 0 <= i < |listedIn| && g in StrippedParts(listedIn[i])
  {
    if |listedIn| == 0 then []
    else
      var init := listedIn[..|listedIn| - 1];
      var genres := ExplodeGenres(init) + StrippedParts(listedIn[|listedIn| - 1]);
      assert forall i :: 0 <= i < |init| ==> init[i] == listedIn[i];
      genres
  }

  /**
   * One more row adds its stripped comma-parts at the end, so each genre is
   * counted once for every part naming it.
   */
  lemma ExplodeGenresSnoc(listedIn: seq<string>, t: string)
    ensures ExplodeGenres(listedIn + [t]) == ExplodeGenres(listedIn) + StrippedParts(t)
    ensures forall g :: Occurrences(ExplodeGenres(listedIn + [t]), g)
                     == Occurrences(ExplodeGenres(listedIn), g) + Occurrences(StrippedParts(t), g)
  {
    assert (listedIn + [t])[..|listedIn|] == listedIn;
    forall g {
      OccurrencesConcat(ExplodeGenres(listedIn), StrippedParts(t), g);
    }
  }

  /** A value of `cands` that occurs in `xs` at least as often as every other; the first such on a tie. */
  function MostFrequent(cands: seq<string>, xs: seq<string>): (m: string)
    requires |cands| > 0
    ensures m in cands
    ensures forall c :: c in cands ==> Occurrences(xs, c) <= Occurrences(xs, m)
  {
    if |cands| == 1 then cands[0]
    else
      var m := MostFrequent(cands[1..], xs);
      assert forall c :: c in cands ==> c == cands[0] || c in cands[1..];
      if Occurrences(xs, cands[0]) >= Occurrences(xs, m) then cands[0] else m
  }

  /**
   * `value_counts()`: every candidate once, most frequent first; a tie goes
   * to the candidate listed first.
   */
  function Ranking(cands: seq<string>, xs: seq<string>): (r: seq<string>)
    ensures |r| <= |cands|
    ensures |cands| > 0 ==> |r| > 0 && r[0] in cands
    ensures |cands| > 0 ==> forall c :: c in cands ==> Occurrences(xs, c) <= Occurrences(xs, r[0])
    decreases |cands|
  {
    if |cands| == 0 then []
    else
      var m := MostFrequent(cands, xs);
      WithoutShorter(cands, m);
      [m] + Ranking(Without(cands, m), xs)
  }

  /** The ranking lists exactly the candidates. */
  lemma {:induction false} RankingMembers(cands: seq<string>, xs: seq<string>)
    ensures forall c :: c in Ranking(cands, xs) <==> c in cands
    decreases |cands|
  {
    if |cands| > 0 {
      var m := MostFrequent(cands, xs);
      var rest := Without(cands, m);
      WithoutShorter(cands, m);
      WithoutMembers(cands, m);
      RankingMembers(rest, xs);
      assert Ranking(cands, xs) == [m] + Ranking(rest, xs);
    }
  }

  /** Distinct candidates are ranked once each. */
  lemma {:induction false} RankingShape(cands: seq<string>, xs: seq<string>)
    requires NoDups(cands)
    ensures |Ranking(cands, xs)| == |cands|
    ensures NoDups(Ranking(cands, xs))
    decreases |cands|
  {
    if |cands| > 0 {
      var m := MostFrequent(cands, xs);
      var rest := Without(cands, m);
      WithoutLength(cands, m);
      RankingShape(rest, xs);
      RankingMembers(rest, xs);
      assert Ranking(cands, xs) == [m] + Ranking(rest, xs);
      NoDupsConcat([m], Ranking(rest, xs));
    }
  }

  /** Occurrence counts never increase along `top`. */
  predicate CountsNonIncreasing(top: seq<string>, xs: seq<string>) {
    forall i, j :: 0 <= i < j < |top| ==> Occurrences(xs, top[i]) >= Occurrences(xs, top[j])
  }

  /** The most frequent candidate in front of a sorted list of the others keeps the order. */
  lemma SortedStep(cands: seq<string>, xs: seq<string>, m: string, tail: seq<string>)
    requires |cands| > 0 && m == MostFrequent(cands, xs)
    requires forall t :: t in tail ==> t in cands
    requires CountsNonIncreasing(tail, xs)
    ensures CountsNonIncreasing([m] + tail, xs)
  {
    var top := [m] + tail;
    forall i, j | 0 <= i < j < |top| ensures Occurrences(xs, top[i]) >= Occurrences(xs, top[j]) {
      assert top[j] == tail[j - 1] && tail[j - 1] in cands;
      if i > 0 {
        assert top[i] == tail[i - 1];
      }
    }
  }

  /** The ranking is in order of non-increasing frequency. */
  lemma {:induction false} RankingSorted(cands: seq<string>, xs: seq<string>)
    ensures CountsNonIncreasing(Ranking(cands, xs), xs)
    decreases |cands|
  {
    if |cands| > 0 {
      var m := MostFrequent(cands, xs);
      var rest := Without(cands, m);
      WithoutShorter(cands, m);
      WithoutMembers(cands, m);
      RankingSorted(rest, xs);
      RankingMembers(rest, xs);
      assert Ranking(cands, xs) == [m] + Ranking(rest, xs);
      SortedStep(cands, xs, m, Ranking(rest, xs));
    }
  }

  /** `value_counts().head(k)`: the first `k` of the ranking, or all of it when it is shorter. */
  function TopK(cands: seq<string>, xs: seq<string>, k: nat): (top: seq<string>)
    ensures |top| <= k && top <= Ranking(cands, xs)
    ensures k > 0 && |cands| > 0 ==> |top| > 0 && forall c :: c in cands ==> Occurrences(xs, c) <= Occurrences(xs, top[0])
  {
    var r := Ranking(cands, xs);
    if k < |r| then r[..k] else r
  }

  /** From distinct candidates: `min(k, |cands|)` of them, none twice, each a candidate. */
  lemma TopKShape(cands: seq<string>, xs: seq<string>, k: nat)
    requires NoDups(cands)
    ensures |TopK(cands, xs, k)| == if k < |cands| then k else |cands|
    ensures NoDups(TopK(cands, xs, k))
    ensures forall t :: t in TopK(cands, xs, k) ==> t in cands
  {
    RankingShape(cands, xs);
    RankingMembers(cands, xs);
  }

  /** The selection is in order of non-increasing frequency. */
  lemma TopKSorted(cands: seq<string>, xs: seq<string>, k: nat)
    ensures CountsNonIncreasing(TopK(cands, xs, k), xs)
  {
    RankingSorted(cands, xs);
  }

  /** No candidate left out is more frequent than one taken. */
  lemma TopKLeftOut(cands: seq<string>, xs: seq<string>, k: nat)
    ensures forall c, t :: (c in cands && c !in TopK(cands, xs, k) && t in TopK(cands, xs, k)
      ==> Occurrences(xs, c) <= Occurrences(xs, t))
  {
    var r, top := Ranking(cands, xs), TopK(cands, xs, k);
    RankingMembers(cands, xs);
    RankingSorted(cands, xs);
    forall c, t | c in cands && c !in top && t in top ensures Occurrences(xs, c) <= Occurrences(xs, t) {
      var p :| 0 <= p < |r| && r[p] == c;
      var q :| 0 <= q < |top| && top[q] == t;
      assert r[q] == t;
      assert q < p;
    }
  }

  /** With room for every candidate, every candidate is taken. */
  lemma TopKAll(cands: seq<string>, xs: seq<string>, k: nat)
    requires NoDups(cands)
    ensures k >= |cands| ==> forall c :: c in cands ==> c in TopK(cands, xs, k)
  {
    RankingShape(cands, xs);
    RankingMembers(cands, xs);
  }

  /** `top_genres`: the ten most frequent genres over all titles. */
  function TopGenres(listedIn: seq<string>): (top: seq<string>)
    ensures |top| <= TOP_K && NoDups(top)
    ensures forall g :: g in top ==> exists i :: 0 <= i < |listedIn| && g in StrippedParts(listedIn[i])
    ensures |top| < TOP_K ==> forall g :: g in ExplodeGenres(listedIn) ==> g in top
    ensures CountsNonIncreasing(top, ExplodeGenres(listedIn))
    ensures forall g, t :: (g in ExplodeGenres(listedIn) && g !in top && t in top
      ==> Occurrences(ExplodeGenres(listedIn), g) <= Occurrences(ExplodeGenres(listedIn), t))
  {
    var genres := ExplodeGenres(listedIn);
    var cands := Distinct(genres);
    var top := TopK(cands, genres, TOP_K);
    TopKShape(cands, genres, TOP_K);
    TopKSorted(cands, genres, TOP_K);
    TopKLeftOut(cands, genres, TOP_K);
    TopKAll(cands, genres, TOP_K);
    assert forall g :: g in top ==> g in genres;
    top
  }

  /** `top_countries`: the ten most frequent primary countries. */
  function TopCountries(countries: seq<string>): (top: seq<string>)
    ensures |top| <= TOP_K && NoDups(top)
    ensures forall c :: c in top ==> c in countries
    ensures |top| < TOP_K ==> forall c :: c in countries ==> c in top
    ensures CountsNonIncreasing(top, countries)
    ensures forall c, t :: (c in countries && c !in top && t in top
      ==> Occurrences(countries, c) <= Occurrences(countries, t))
  {
    var cands := Distinct(countries);
    var top := TopK(cands, countries, TOP_K);
    TopKShape(cands, countries, TOP_K);
    TopKSorted(cands, countries, TOP_K);
    TopKLeftOut(cands, countries, TOP_K);
    TopKAll(cands, countries, TOP_K);
    top
  }

  // ------------------------------------------------------------ encoding

  /** The genres a `listed_in` cell names; none for NaN (`pd.isna`), but `""` still names the genre `""`. */
  function CellGenres(listedIn: Option<string>): (parts: seq<string>)
    ensures listedIn.None? ==> parts == []
    ensures listedIn.Some? ==> parts == StrippedParts(listedIn.value)
  {
    if listedIn.None? then [] else StrippedParts(listedIn.value)
  }

  /** `genres_multi_hot` of the training script. */
  method GenresMultiHot(listedIn: Option<string>, topGenres: seq<string>) returns (out: map<string, int>)
    ensures out == GenreFlags(CellGenres(listedIn), topGenres)
  {
    out := GenreZeros(topGenres);
    GenreFlagsNone(topGenres);
    if listedIn.None? {
      return;
    }
    var parts := StrippedParts(listedIn.value);
    for i := 0 to |parts|
      invariant out == GenreFlags(parts[..i], topGenres)
    {
      PrefixSnoc(parts, i);
      GenreFlagsStep(parts[..i], parts[i], topGenres);
      if parts[i] in topGenres {
        out := out[GenreKey(parts[i]) := 1];
      }
    }
    assert parts[..|parts|] == parts;
  }

  /** `country_one_hot` of the training script. */
  function CountryOneHot(country: string, topCountries: seq<string>): (out: map<string, int>)
    ensures out == CountryFlags(Some(country), topCountries)
  {
    var zeros := map c | c in topCountries :: CountryKey(c) := 0;
    if country in topCountries then zeros[CountryKey(country) := 1] else zeros
  }

  // -------------------------------------------------------- table layout

  /** The three base features, in the order the feature table starts with. */
  const BASE_COLUMNS: seq<string> := ["duration_num", "release_year", "rating"]

  /** The genre indicator columns, in `topGenres` order. */
  function GenreColumns(topGenres: seq<string>): (cols: seq<string>)
    ensures |cols| == |topGenres|
    ensures forall i :: 0 <= i < |cols| ==> cols[i] == GenreKey(topGenres[i])
  {
    seq(|topGenres|, i requires 0 <= i < |topGenres| => GenreKey(topGenres[i]))
  }

  /** The country indicator columns, in `topCountries` order. */
  function CountryColumns(topCountries: seq<string>): (cols: seq<string>)
    ensures |cols| == |topCountries|
    ensures forall i :: 0 <= i < |cols| ==> cols[i] == CountryKey(topCountries[i])
  {
    seq(|topCountries|, i requires 0 <= i < |topCountries| => CountryKey(topCountries[i]))
  }

  /** The columns of the feature table: base features, genre indicators, country indicators. */
  function FeatureColumns(topGenres: seq<string>, topCountries: seq<string>): (columns: seq<string>)
    ensures |columns| == 3 + |topGenres| + |topCountries|
    ensures columns[..3] == BASE_COLUMNS
    ensures columns[3..3 + |topGenres|] == GenreColumns(topGenres)
    ensures columns[3 + |topGenres|..3 + |topGenres| + |topCountries|] == CountryColumns(topCountries)
  {
    var gs, cs := GenreColumns(topGenres), CountryColumns(topCountries);
    ConcatThreeSlices(BASE_COLUMNS, gs, cs);
    BASE_COLUMNS + gs + cs
  }

  /** Distinct genres give distinct genre columns, every one starting with `g`. */
  lemma GenreColumnsDistinct(topGenres: seq<string>)
    requires NoDups(topGenres)
    ensures NoDups(GenreColumns(topGenres))
    ensures forall x :: x in GenreColumns(topGenres) ==> |x| > 0 && x[0] == 'g'
  {
    var gs := GenreColumns(topGenres);
    forall i, j | 0 <= i < j < |gs| ensures gs[i] != gs[j] {
      assert gs[i][7..] == topGenres[i] && gs[j][7..] == topGenres[j];
    }
  }

  /** Distinct countries give distinct country columns, every one starting with `c`. */
  lemma CountryColumnsDistinct(topCountries: seq<string>)
    requires NoDups(topCountries)
    ensures NoDups(CountryColumns(topCountries))
    ensures forall x :: x in CountryColumns(topCountries) ==> |x| > 0 && x[0] == 'c'
  {
    var cs := CountryColumns(topCountries);
    forall i, j | 0 <= i < j < |cs| ensures cs[i] != cs[j] {
      assert cs[i][9..] == topCountries[i] && cs[j][9..] == topCountries[j];
    }
  }

  /** Distinct top genres and distinct top countries give distinct column names. */
  lemma FeatureColumnsDistinct(topGenres: seq<string>, topCountries: seq<string>)
    requires NoDups(topGenres) && NoDups(topCountries)
    ensures NoDups(FeatureColumns(topGenres, topCountries))
  {
    var gs, cs := GenreColumns(topGenres), CountryColumns(topCountries);
    GenreColumnsDistinct(topGenres);
    CountryColumnsDistinct(topCountries);
    var base := BASE_COLUMNS;
    assert base[0][0] == 'd' && base[1][0] == 'r' && base[2][0] == 'r';
    assert NoDups(base);
    NoDupsConcat(base, gs);
    forall x | x in base + gs ensures x !in cs {
      assert x in base || x in gs;
    }
    NoDupsConcat(base + gs, cs);
  }

  /** Every genre column of the layout is a key of `genres`. */
  predicate GenreColumnsIn(genres: map<string, int>, topGenres: seq<string>) {
    forall k :: k in GenreColumns(topGenres) ==> k in genres
  }

  /** Every country column of the layout is a key of `countries`. */
  predicate CountryColumnsIn(countries: map<string, int>, topCountries: seq<string>) {
    forall k :: k in CountryColumns(topCountries) ==> k in countries
  }

  /** Maps holding the column of every top genre and top country hold every indicator column of the layout. */
  lemma ColumnsCovered(
    genres: map<string, int>, countries: map<string, int>, topGenres: seq<string>, topCountries: seq<string>)
    requires forall g :: g in topGenres ==> GenreKey(g) in genres
    requires forall c :: c in topCountries ==> CountryKey(c) in countries
    ensures GenreColumnsIn(genres, topGenres) && CountryColumnsIn(countries, topCountries)
  {
    var gk, ck := GenreColumns(topGenres), CountryColumns(topCountries);
    forall k | k in gk ensures k in genres {
      var i :| 0 <= i < |gk| && gk[i] == k;
      assert topGenres[i] in topGenres;
    }
    forall k | k in ck ensures k in countries {
      var i :| 0 <= i < |ck| && ck[i] == k;
      assert topCountries[i] in topCountries;
    }
  }

  /** The indicator values of `flags` for the columns of `keys`, in order. */
  function ValuesAt(flags: map<string, int>, keys: seq<string>): (values: seq<int>)
    requires forall k :: k in keys ==> k in flags
    ensures |values| == |keys|
    ensures forall i :: 0 <= i < |keys| ==> values[i] == flags[keys[i]]
  {
    seq(|keys|, i requires 0 <= i < |keys| => flags[keys[i]])
  }

  /**
   * One row of the feature table: the base values, then each genre
   * indicator in `topGenres` order, then each country indicator in
   * `topCountries` order (the column-wise concatenation).
   */
  function FeatureRow(
    duration: int, year: int, rating: int, genres: map<string, int>, countries: map<string, int>,
    topGenres: seq<string>, topCountries: seq<string>): (row: seq<int>)
    requires forall g :: g in topGenres ==> GenreKey(g) in genres
    requires forall c :: c in topCountries ==> CountryKey(c) in countries
    ensures |row| == 3 + |topGenres| + |topCountries|
    ensures GenreColumnsIn(genres, topGenres) && CountryColumnsIn(countries, topCountries)
    ensures row[..3] == [duration, year, rating]
    ensures row[3..3 + |topGenres|] == ValuesAt(genres, GenreColumns(topGenres))
    ensures row[3 + |topGenres|..3 + |topGenres| + |topCountries|] == ValuesAt(countries, CountryColumns(topCountries))
  {
    var gk, ck := GenreColumns(topGenres), CountryColumns(topCountries);
    ColumnsCovered(genres, countries, topGenres, topCountries);
    var base, gs, cs := [duration, year, rating], ValuesAt(genres, gk), ValuesAt(countries, ck);
    ConcatThreeSlices(base, gs, cs);
    base + gs + cs
  }
}
