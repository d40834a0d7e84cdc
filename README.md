# Netflix title-type predictor: the deterministic core, modelled in Dafny

The application predicts whether a Netflix title is a Movie or a TV Show. It has three parts:

- A browser form collects a duration, a release year, a rating, a country and a list of genre tags.
- A Flask endpoint turns the submitted fields into one row of integer features.
- A training script built the feature table the classifier was fitted on, and chose the genre and
  country indicator columns.

Around the classifier sits a layer of string and collection logic. This project models that layer and
proves what it promises:

- **The form** (`client_form.dfy`):
  - the rating option list, with the preferred codes first;
  - the year list, from the current year down to 1900;
  - the composed duration field (`"<number> <unit>"`, or empty), kept in step by the input handlers and
    recomputed on submit;
  - the genre tag editor: an insertion-ordered set of tags, its chips, and the hidden field that joins
    them with `", "`;
  - the light/dark theme switch and its persisted value.

  The tag editor, the duration inputs and the theme switch are classes whose handlers update their
  fields. The two option lists are built by loops.
- **The endpoint** (`server_features.dfy`):
  - `extract_duration` (the first run of digits, 0 when missing);
  - the genre multi-hot and country one-hot maps;
  - the row assembled from them;
  - the final vector laid out in the saved column order, 0 for a missing column.
- **The training script** (`training_features.dfy`):
  - cell cleaning, and the NaN-returning `extract_duration`;
  - the primary-country rule;
  - the ten most frequent genres and countries;
  - the training-side encoders and the layout of the feature table.
- **Shared definitions** (`encoding.dfy`): indicator column names, the comma-split-and-strip reading of
  a genre list, and the specification maps both encoders are proved against.
- **Round trips between the parts** (`form_to_features.dfy`):
  - a duration composed in the browser parses back to its number;
  - plain tags joined with `", "` split back into exactly those tags;
  - the server and training encoders agree, except for the cases shown where they do not;
  - the row the endpoint builds equals, column by column, the training table's row for the same
    inputs.
- **Generic helpers**: `text.dfy` (strip, split, join, digits), `seqs.dfy` (filters, duplicates,
  occurrence counts) and `wrappers.dfy` (`Option`).

White space means the six ASCII white-space characters (space, tab, line feed, vertical tab, form feed,
carriage return): the characters that both JavaScript `trim` and Python `strip` remove. A digit means
`0`–`9`.

## Model

| member | source | states |
|---|---|---|
| Text.Strip | App/app.py:38 | `strip()` leaves no white space at either end and changes nothing in text that has none |
| Text.StripIsSlice | App/db.py:62 | the stripped text is a contiguous piece of the original with only white space cut from each end |
| Text.Split | App/db.py:62 | Python `split` on one character yields at least one part, even for empty text; `SplitPartsExcludeSeparator`, `SplitWithoutSeparator`, `SplitAtFirstSeparator` and `SplitJoin`/`JoinSplit` fix the parts |
| Text.Join | App/static/js/script.js:168 | JavaScript `join` of a single part is that part; `SplitJoin`/`JoinSplit` relate it to `Split` |
| Text.SplitPartsExcludeSeparator | App/db.py:62 | no part of a split contains the separator |
| Text.SplitWithoutSeparator | App/db.py:62 | text without the separator splits into itself alone |
| Text.SplitJoin | App/app.py:38 | splitting the join of separator-free parts gives the parts back |
| Text.JoinSplit | App/app.py:38 | joining the parts of a split with the separator gives the text back |
| Text.FirstDigitRun | App/app.py:30 | `re.search(r"(\d+)")`: none exactly when the text has no digit; otherwise a non-empty digit string that starts at the first digit, with only non-digits before it and a non-digit or the end after it |
| Text.DigitRunOfPrefix | App/app.py:30 | digits followed by a non-digit: the first run is exactly those digits |
| Text.DigitRunAfterNonDigit | App/app.py:30 | a non-digit in front of the text does not change the first digit run |
| Text.DecimalValue | App/app.py:31 | Python `int` of a digit string ignores a leading zero; `Decimal` is its inverse |
| Text.Decimal | App/app.py:31 | every natural number has a digit string without a leading zero whose `int()` value is that number |
| Seqs.FilterByMembership | App/static/js/script.js:99 | a filter by membership keeps exactly the values of the input whose membership matches, and never lengthens it |
| Seqs.FilterByMembershipCounts | App/static/js/script.js:101 | the filter keeps every occurrence of a qualifying value, and no occurrence of any other |
| Seqs.FilterByMembershipOrder | App/static/js/script.js:101 | a filter keeps its values in input order and keeps duplicate-free input duplicate-free |
| Seqs.Without | App/static/js/script.js:162 | `Set.delete`: the value is gone, only that value is dropped, and duplicate-freedom is kept |
| Seqs.WithoutLength | App/static/js/script.js:162 | deleting a member of a duplicate-free list shortens it by exactly one |
| Seqs.Distinct | App/db.py:76 | the distinct values of a column: each value of the column once, and nothing else |
| ClientForm.RatingsToShow | App/static/js/script.js:7-19 | a failed metadata request yields the fallback ratings; a response without `ratings` yields `[]`, as at line 75; otherwise the list received |
| ClientForm.RatingOptionsLayout | App/static/js/script.js:97-101 | the options begin with exactly the preferred codes present in the input, in the preferred order and each once; the rest are exactly the non-preferred input values, in input order, each as often as the input has it |
| ClientForm.RatingOptionsMembers | App/static/js/script.js:99-101 | the options are exactly the input values, and they repeat none when the input repeats none |
| ClientForm.AppendSelected | App/static/js/script.js:99 | one `forEach` appends, in order, exactly the values whose membership test passes |
| ClientForm.PopulateRatings | App/static/js/script.js:89-102 | the two loops produce the option list whose layout `RatingOptionsLayout` states |
| ClientForm.FallbackRatingsShownInOrder | App/static/js/script.js:15 | the fallback rating list is displayed unchanged, since its preferred codes already come first |
| ClientForm.PopulateYears | App/static/js/script.js:107-116 | `current - 1900 + 1` years, empty before 1900; first the current year, last 1900, each one less than the previous |
| ClientForm.ComposeDuration | App/static/js/script.js:127 | empty exactly when the number is empty; otherwise the number, one space, then the unit |
| ClientForm.DurationInputs.constructor | App/static/js/script.js:121-134 | the initial `update()` leaves the hidden field equal to the composition of the two inputs |
| ClientForm.DurationInputs.OnNumberInput | App/static/js/script.js:126-130 | after typing, the hidden field composes the new number with the unchanged unit |
| ClientForm.DurationInputs.OnUnitChange | App/static/js/script.js:126-131 | after a unit change, the hidden field composes the unchanged number with the new unit |
| ClientForm.DurationInputs.OnSubmit | App/static/js/script.js:276-279 | the submit guard computes the same value as `update`, from the inputs as they stand |
| ClientForm.GenreTags.constructor | App/static/js/script.js:139-148 | the tag set starts empty and no chip exists; the hidden field and the text input keep what the page markup put there, so the hidden field mirrors the set exactly when the markup left it empty |
| ClientForm.GenreTags.AddTag | App/static/js/script.js:150-166 | no change for an empty or already present value, the hidden field included; otherwise the value is appended last, the other tags keep their order, and the hidden field becomes the tags joined by `", "`. The invariant is kept: distinct non-empty tags, one chip per tag |
| ClientForm.GenreTags.RemoveTag | App/static/js/script.js:162 | the tag leaves the set and its chip leaves the list; the invariant is kept and the hidden field becomes the remaining tags joined by `", "` |
| ClientForm.GenreTags.OnEnter | App/static/js/script.js:170-177 | the trimmed input is added exactly as `AddTag` would add it, with the same effect on the hidden field; nothing is added when it is empty, and the input is always cleared |
| ClientForm.RemoveTagKeepsOthers | App/static/js/script.js:162 | removing a present tag deletes exactly that tag: one fewer, every other tag kept, in its order |
| ClientForm.ThemeName | App/static/js/script.js:263 | the persisted value is always `"light"` or `"dark"` |
| ClientForm.ThemeToggle.constructor | App/static/js/script.js:256-258 | the light class is added when the saved value is `"light"`, the dark one otherwise, and the classes the markup already carries stay; exactly one theme is on when the markup carries neither |
| ClientForm.ThemeToggle.Toggle | App/static/js/script.js:260-263 | a click flips the light class, leaves exactly one theme class on whatever classes the body carried, and persists the new theme's name |
| ClientForm.ToggleTwice | App/static/js/script.js:260-263 | two clicks restore both theme classes; the stored value names that theme, so it is the original one whenever that already named the theme |
| Encoding.GenreKey | App/app.py:35 | a genre column is `genre__` followed by the genre, from which the genre can be read back |
| Encoding.CountryKey | App/app.py:46 | a country column is `country__` followed by the country, from which the country can be read back |
| Encoding.StripAll | App/app.py:38 | every piece stripped, none dropped, order kept |
| Encoding.StrippedParts | App/app.py:38 | part `i` of the reading is part `i` of the comma split, stripped |
| Encoding.StrippedPartsAtComma | App/app.py:38 | text before the first comma is the first genre, stripped; the rest is read the same way |
| Encoding.GenreFlags | App/app.py:34-42 | keys are exactly the columns of the top genres; every value is 0 or 1; a genre's value is 1 exactly when the genre is present |
| Encoding.GenreZeros | App/app.py:35 | the all-zero genre map has a key for a genre exactly when the genre is among the top genres, and every value is 0 |
| Encoding.GenreFlagsNone | App/app.py:35 | with no genre present, every genre column is 0 |
| Encoding.GenreFlagsStep | App/app.py:39-41 | one more part sets its column to 1 when it is a top genre, and changes nothing otherwise |
| Encoding.CountryFlags | App/app.py:45-49 | keys are exactly the columns of the top countries; values are 0 or 1; at most one is 1; one is 1 exactly when the country is a top country, and that one is its own column |
| Encoding.CountryFlagsAllZero | App/app.py:47 | a missing country, or one that is not a top country, sets no column |
| ServerFeatures.ExtractDuration | App/app.py:26-31 | 0 for a missing field or for text without a digit; otherwise the value of the first digit run |
| ServerFeatures.SubmittedGenres | App/app.py:36-38 | no genre for a missing or empty field; otherwise the stripped comma-separated parts |
| ServerFeatures.GenresMultiHot | App/app.py:34-42 | the loop builds exactly the indicator map `GenreFlags` of the submitted genres |
| ServerFeatures.CountryOneHot | App/app.py:45-49 | the result is exactly the indicator map `CountryFlags` of the submitted country |
| ServerFeatures.BuildRow | App/app.py:71-78 | keys are the three base features plus every indicator; a country indicator overrides a genre one, an indicator overrides a base value, and base values otherwise survive |
| ServerFeatures.ValueOrZero | App/app.py:82 | `row.get(col, 0)`: the row's value for a column it has, 0 for one it lacks |
| ServerFeatures.FeatureVector | App/app.py:80-82 | one value per feature column; entry `i` is the row's value for column `i`, or 0 when the row lacks it |
| ServerFeatures.FinalRow | App/app.py:80-82 | the loop yields one value per column: the row's value for that column, or 0 |
| ServerFeatures.EncodeSubmission | App/app.py:64-82 | the request's feature vector is the specified vector for the parsed duration and the genre and country indicator maps |
| TrainingFeatures.CleanCell | App/db.py:41-42 | a cell is missing afterwards exactly when it was missing or read `nan`; otherwise it is unchanged |
| TrainingFeatures.ExtractDurationOrNaN | App/db.py:48-53 | NaN exactly when the cell is missing or has no digit; otherwise the value of the first digit run |
| TrainingFeatures.PrimaryCountry | App/db.py:61-63 | `"Unknown"` for a missing cell; never a comma; stripped; a single-country cell is just stripped |
| TrainingFeatures.PrimaryCountryBeforeComma | App/db.py:62 | for a cell with a comma, the primary country is the text before the first comma, stripped |
| TrainingFeatures.CountryColumn | App/db.py:61-63 | each row's country is the primary country of its cleaned cell |
| TrainingFeatures.ListedInColumn | App/db.py:69 | each row's genre list is its cleaned cell, or `"Unknown"` when that is missing |
| TrainingFeatures.ExplodeGenres | App/db.py:76 | the exploded column holds exactly the stripped comma-parts of the rows |
| TrainingFeatures.ExplodeGenresSnoc | App/db.py:76 | each row appends its stripped comma-parts, so a genre's count is the number of parts that name it, summed over the rows |
| TrainingFeatures.MostFrequent | App/db.py:76 | the value picked is a candidate occurring at least as often as every other candidate |
| TrainingFeatures.Ranking | App/db.py:76 | the `value_counts` ranking is no longer than the candidate list; for any candidate it starts with one that no candidate outnumbers. `RankingMembers`, `RankingShape` and `RankingSorted` give the rest |
| TrainingFeatures.RankingMembers | App/db.py:76 | the `value_counts` ranking lists exactly the candidates |
| TrainingFeatures.RankingShape | App/db.py:76 | distinct candidates are ranked once each |
| TrainingFeatures.RankingSorted | App/db.py:76 | counts never increase along the ranking |
| TrainingFeatures.TopK | App/db.py:77 | `head(k)` is a prefix of the ranking of at most `k` entries, and for `k > 0` it keeps a most frequent candidate first. `TopKShape`, `TopKSorted`, `TopKLeftOut` and `TopKAll` give the rest |
| TrainingFeatures.TopKShape | App/db.py:77 | `head(k)` of distinct candidates takes `min(k, n)` of them, none twice, each a candidate |
| TrainingFeatures.TopKSorted | App/db.py:77 | the selection is in order of non-increasing count |
| TrainingFeatures.TopKLeftOut | App/db.py:77 | no candidate left out occurs more often than one taken |
| TrainingFeatures.TopKAll | App/db.py:77 | when `k` is at least the number of distinct candidates, every candidate is taken |
| TrainingFeatures.TopGenres | App/db.py:76-77 | at most ten distinct genres, each a stripped comma-part of some row; all genres when fewer than ten; in non-increasing frequency; none left out more frequent than one taken |
| TrainingFeatures.TopCountries | App/db.py:80 | at most ten distinct countries of the column; all of them when fewer than ten; in non-increasing frequency; none left out more frequent than one taken |
| TrainingFeatures.CellGenres | App/db.py:89-91 | no genre for a NaN cell; otherwise the stripped comma-parts, so `""` names the genre `""` |
| TrainingFeatures.GenresMultiHot | App/db.py:87-95 | the loop builds exactly `GenreFlags` of the cell's genres: the same key and value contract as the endpoint, all zeros for NaN |
| TrainingFeatures.CountryOneHot | App/db.py:98-102 | the result is exactly `CountryFlags` of the country: at most one column 1, one exactly when it is a top country |
| TrainingFeatures.GenreColumns | App/db.py:113 | one genre column per top genre, in top-genre order |
| TrainingFeatures.CountryColumns | App/db.py:114 | one country column per top country, in top-country order |
| TrainingFeatures.FeatureColumns | App/db.py:105-118 | the saved columns are `duration_num`, `release_year`, `rating`, then the genre columns, then the country columns |
| TrainingFeatures.GenreColumnsDistinct | App/db.py:113 | distinct genres give distinct genre columns |
| TrainingFeatures.CountryColumnsDistinct | App/db.py:114 | distinct countries give distinct country columns |
| TrainingFeatures.FeatureColumnsDistinct | App/db.py:116-118 | with distinct top genres and countries, no column name repeats |
| TrainingFeatures.FeatureRow | App/db.py:113-118 | a table row is the three base values, then the genre indicators in column order, then the country indicators in column order |
| FormToFeatures.ComposedDurationParsesBack | App/app.py:30-31 | a duration composed from a digit string parses back to that number, on the endpoint and in the training script |
| FormToFeatures.DurationRoundTrip | App/app.py:30-31 | any natural number written as plain decimal digits in the number field, with any unit, is the number the endpoint reads |
| FormToFeatures.DecimalPointTruncates | App/app.py:30 | a number field `<digits>.<fraction>` is read as its whole digits: a decimal point ends the number |
| FormToFeatures.SignIsDropped | App/app.py:30 | a number field `-<digits>` is read as the digits: the minus sign is skipped |
| FormToFeatures.ExponentIsDropped | App/app.py:30 | a number field `<digits>e<exponent>` is read as the mantissa's digits: an exponent ends the number |
| FormToFeatures.EmptyDurationField | App/static/js/script.js:127 | an empty number field sends `""`, which the endpoint reads as 0 and the training script as NaN |
| FormToFeatures.DurationParsersAgree | App/db.py:48-53 | the two `extract_duration` functions agree, except that the endpoint has 0 where training has NaN |
| FormToFeatures.HiddenTagsSplitBack | App/app.py:38 | non-empty, stripped, comma-free tags joined with `", "` split and strip back into exactly those tags |
| FormToFeatures.HiddenTagsEmpty | App/static/js/script.js:168 | the hidden value is empty exactly when there are no tags |
| FormToFeatures.SubmittedTagsEncode | App/app.py:36-41 | the endpoint reads back exactly the submitted tags, and a top genre's column is 1 exactly when it is a tag |
| FormToFeatures.CommaTagSplits | App/static/js/script.js:173 | a trimmed tag that contains `", "` reaches the endpoint as two genres |
| FormToFeatures.GenreReadersAgree | App/db.py:87-91 | the endpoint and training read the same genres from a missing or non-empty genre text |
| FormToFeatures.EmptyListedInDiffers | App/db.py:89 | on the empty text they differ: the endpoint reads no genre, training reads the genre `""` |
| FormToFeatures.CountryEncodersAgree | App/db.py:98-102 | the two `country_one_hot` functions give the same map for the same name |
| FormToFeatures.CommaCountryMatchesNothing | App/app.py:47 | the endpoint applies no primary-country rule, so a country text with a comma sets no country column |
| FormToFeatures.ServedRowFollowsTrainingLayout | App/app.py:77-82 | with the saved columns, every column is in the served row and the served vector equals the training table's row for the same values |
| FormToFeatures.RowFollowsLayout | App/app.py:80-82 | the same, for any genre and country maps keyed by their columns |

## Left out

- Particle background and cursor animation (`App/static/js/script.js` lines 24-66): a third-party
  library, floating-point easing and animation frames.
- The map modal and its GeoJSON download (lines 187-247): a foreign library, the network and DOM
  events.
- The `/metadata` request: the network is replaced by a `MetadataOutcome` value. Only its rating list,
  the fallback rating list and the `|| []` default are modelled.
- The genre list of the metadata, and its fallback, feed only `populateGenresAutocomplete`
  (lines 140-143). That function stores a global and is not modelled.
- `window.addGenre` (line 181) calls `addTag` without trimming. The round-trip lemmas assume trimmed
  tags, as the Enter handler produces them.
- ClientForm.GenreTags.constructor: `chips` holds only the chips that `addTag` creates. Any element the
  page markup already puts in the chip list is not modelled. The markup's hidden value and input text
  are constructor parameters, as are the theme classes the markup puts on the body for
  `ClientForm.ThemeToggle.constructor`.
- Browser storage is a field of the theme switch, and its stored value is a constructor parameter. The
  `animate` pulse is left out.
- ClientForm.ToggleTwice: two clicks restore the stored value only when it already was `"light"` or
  `"dark"`. A first click always persists the effective theme, so a stored value such as `"blue"` or
  no value at all is replaced by `"dark"`.
- The current calendar year comes from the clock and is a parameter of `PopulateYears`.
- `Text.Strip` removes only the six ASCII white-space characters that both languages remove.
  - Python `strip` (App/app.py line 38, App/db.py line 62) also removes the separators `\x1c`–`\x1f`,
    which JavaScript `trim` (App/static/js/script.js line 173) keeps.
  - Both also remove other Unicode white space.
  - `\d` also matches non-ASCII decimal digits.
  The model covers none of these.
- Flask routing, the form lookup, template rendering and the `GET` branch of the endpoint are left out.
- FormToFeatures.DurationRoundTrip: the round trip is stated only for a number field that holds plain
  decimal digits. The field also accepts text such as `1.5`, `-3` or `2e2`, of which the endpoint
  reads only the first run of digits (`DecimalPointTruncates`, `SignIsDropped`, `ExponentIsDropped`).
- `int(form["release_year"])` and `rating_encoder.transform` (App/app.py lines 65-66) are opaque. Their
  results are parameters of `EncodeSubmission`. An unparsable year and an unknown rating raise in the
  source; the model does not capture that.
- Loading the saved artefacts, `model.predict`, `predict_proba` and `inverse_transform` are left out.
  These are opaque scikit-learn objects and floats.
- In the training script, CSV loading, `dropna` on type and year, the median fills (floats) and the
  rating `LabelEncoder` are left out. So are the target encoding, the train/test split, the random
  forest, the SQLite writes and the metric printing. A row's duration, year and rating are parameters
  of `FeatureRow`.
- TrainingFeatures.TopGenres: pandas does not specify how `value_counts` orders equal counts. The model
  breaks a tie in favour of the value that appears first. No stated property of the selection depends
  on that choice.
- The column-wise concatenation of the training table is modelled one row at a time (`FeatureRow`).
  The pandas index resets are left out.
- The endpoint's `country_one_hot` receives the country field as submitted, without the primary-country
  rule. The model follows the code; `CommaCountryMatchesNothing` states the consequence.
- Python `if not genres_str` treats `""` like `None`; `pd.isna` does not. The model follows the code;
  `EmptyListedInDiffers` states the difference.
