/**
 * The browser side of the prediction form, with the DOM replaced by plain
 * values: the rating and year option lists, the composed duration field, the
 * genre tag editor with its hidden mirror field, and the light/dark theme.
 */
module ClientForm {
  import opened Wrappers
  import opened Text
  import opened Seqs

  // ------------------------------------------------------------- metadata

  /** The rating codes shown first, in this order, when the metadata offers them. */
  const PREFERRED_RATINGS: seq<string> := ["TV-MA", "TV-14", "TV-PG", "PG-13", "PG", "R"]

  /** The rating list the form falls back to when the metadata request fails. */
  const FALLBACK_RATINGS: seq<string> :=
    ["TV-MA", "TV-14", "TV-PG", "PG-13", "PG", "R", "TV-Y", "TV-Y7", "TV-G", "NR"]

  /**
   * What the metadata request produced for the rating select: a parsed
   * body, whose `ratings` member may be absent, or a failure of any kind.
   */
  datatype MetadataOutcome =
    | Loaded(ratings: Option<seq<string>>)
    | Failed

  /** The rating list handed to the rating select: the fallback on failure, `[]` for a missing member. */
  function RatingsToShow(outcome: MetadataOutcome): (ratings: seq<string>)
    ensures outcome.Failed? ==> ratings == FALLBACK_RATINGS
    ensures outcome.Loaded? && outcome.ratings.None? ==> ratings == []
    ensures outcome.Loaded? && outcome.ratings.Some? ==> ratings == outcome.ratings.value
  {
    match outcome
    case Failed => FALLBACK_RATINGS
    case Loaded(r) => r.GetOr([])
  }

  // -------------------------------------------------------------- ratings

  /** The preferred codes the input offers, in the preferred order. */
  function PreferredPresent(ratings: seq<string>): seq<string> {
    FilterByMembership(PREFERRED_RATINGS, ratings, true)
  }

  /** Every other input value, in input order (repetitions kept). */
  function NonPreferred(ratings: seq<string>): seq<string> {
    FilterByMembership(ratings, PREFERRED_RATINGS, false)
  }

  /** The option list of the rating select. */
  function RatingOptions(ratings: seq<string>): seq<string> {
    PreferredPresent(ratings) + NonPreferred(ratings)
  }

  /**
   * The options start with exactly the preferred codes the input offers, in
   * the preferred order and each once, and go on with exactly the
   * non-preferred input values in their input order, each as often as the
   * input has it.
   */
  lemma RatingOptionsLayout(ratings: seq<string>)
    ensures var k := |PreferredPresent(ratings)|;
      && k <= |RatingOptions(ratings)|
      && IsSubsequence(RatingOptions(ratings)[..k], PREFERRED_RATINGS)
      && NoDups(RatingOptions(ratings)[..k])
      && (forall r :: r in RatingOptions(ratings)[..k] <==> r in PREFERRED_RATINGS && r in ratings)
      && IsSubsequence(RatingOptions(ratings)[k..], ratings)
      && (forall r :: r in RatingOptions(ratings)[k..] <==> r in ratings && r !in PREFERRED_RATINGS)
      && (forall r :: Occurrences(RatingOptions(ratings)[k..], r)
                   == if r in PREFERRED_RATINGS then 0 else Occurrences(ratings, r))
  {
    var pre, rest := PreferredPresent(ratings), NonPreferred(ratings);
    FilterByMembershipOrder(PREFERRED_RATINGS, ratings, true);
    FilterByMembershipOrder(ratings, PREFERRED_RATINGS, false);
    FilterByMembershipCounts(ratings, PREFERRED_RATINGS, false);
    assert NoDups(PREFERRED_RATINGS);
    assert (pre + rest)[..|pre|] == pre && (pre + rest)[|pre|..] == rest;
  }

  /** The options are exactly the input values, each once when the input repeats none. */
  lemma RatingOptionsMembers(ratings: seq<string>)
    ensures forall r :: r in RatingOptions(ratings) <==> r in ratings
    ensures NoDups(ratings) ==> NoDups(RatingOptions(ratings))
  {
    var pre, rest := PreferredPresent(ratings), NonPreferred(ratings);
    var options := pre + rest;
    if NoDups(ratings) {
      FilterByMembershipOrder(PREFERRED_RATINGS, ratings, true);
      FilterByMembershipOrder(ratings, PREFERRED_RATINGS, false);
      assert NoDups(PREFERRED_RATINGS);
      NoDupsConcat(pre, rest);
    }
  }

  /**
   * One `forEach` of `populateRatings`: appends to `options`, in order, the
   * values of `s` whose membership in `among` equals `inside`.
   */
  method AppendSelected(options: seq<string>, s: seq<string>, among: seq<string>, inside: bool)
    returns (out: seq<string>)
    ensures out == options + FilterByMembership(s, among, inside)
  {
    out := options;
    for i := 0 to |s|
      invariant out == options + FilterByMembership(s[..i], among, inside)
    {
      FilterByMembershipSnoc(s, i, among, inside);
      if (s[i] in among) == inside {
        out := out + [s[i]];
      }
    }
    assert s[..|s|] == s;
  }

  /**
   * `populateRatings`: first the preferred codes present in `ratings`, then
   * every rating that is not preferred, appended one by one.
   */
  method PopulateRatings(ratings: seq<string>) returns (options: seq<string>)
    ensures options == RatingOptions(ratings)
  {
    options := AppendSelected([], PREFERRED_RATINGS, ratings, true);
    options := AppendSelected(options, ratings, PREFERRED_RATINGS, false);
  }

  /** The fallback list already has the preferred codes first: it is shown as it stands. */
  lemma FallbackRatingsShownInOrder()
    ensures RatingOptions(RatingsToShow(Failed)) == FALLBACK_RATINGS
  {
    var tail: seq<string> := ["TV-Y", "TV-Y7", "TV-G", "NR"];
    var p := PREFERRED_RATINGS;
    assert FALLBACK_RATINGS == p + tail;
    assert forall x :: x in tail ==> x !in p;
    FilterKeepsAll(p, p + tail);
    FilterByMembershipAppend(p, tail, p);
    FilterDropsAll(p, p);
    FilterKeepsNone(tail, p);
    assert PreferredPresent(p + tail) == p;
    assert NonPreferred(p + tail) == tail;
  }

  /** Filtering for membership keeps everything when everything is a member. */
  lemma {:induction false} FilterKeepsAll(s: seq<string>, among: seq<string>)
    requires forall x :: x in s ==> x in among
    ensures FilterByMembership(s, among, true) == s
  {
    if |s| > 0 {
      FilterKeepsAll(s[..|s| - 1], among);
      assert s[..|s| - 1] + [s[|s| - 1]] == s;
    }
  }

  /** Filtering for non-membership keeps nothing when everything is a member. */
  lemma {:induction false} FilterDropsAll(s: seq<string>, among: seq<string>)
    requires forall x :: x in s ==> x in among
    ensures FilterByMembership(s, among, false) == []
  {
    if |s| > 0 {
      FilterDropsAll(s[..|s| - 1], among);
    }
  }

  /** Filtering for non-membership keeps everything when nothing is a member. */
  lemma {:induction false} FilterKeepsNone(s: seq<string>, among: seq<string>)
    requires forall x :: x in s ==> x !in among
    ensures FilterByMembership(s, among, false) == s
  {
    if |s| > 0 {
      FilterKeepsNone(s[..|s| - 1], among);
      assert s[..|s| - 1] + [s[|s| - 1]] == s;
    }
  }

  /** Filtering distributes over concatenation. */
  lemma {:induction false} FilterByMembershipAppend(a: seq<string>, b: seq<string>, among: seq<string>)
    ensures FilterByMembership(a + b, among, false)
         == FilterByMembership(a, among, false) + FilterByMembership(b, among, false)
  {
    if |b| > 0 {
      FilterByMembershipAppend(a, b[..|b| - 1], among);
      assert (a + b)[..|a + b| - 1] == a + b[..|b| - 1];
    } else {
      assert a + b == a;
    }
  }

  // ---------------------------------------------------------------- years

  /** The first year the year select offers, going backwards. */
  const EARLIEST_YEAR: int := 1900

  /**
   * `populateYears`: the years from `current` (the clock's calendar year)
   * down to 1900, one per option.
   */
  method PopulateYears(current: int) returns (years: seq<int>)
    ensures |years| == if current >= EARLIEST_YEAR then current - EARLIEST_YEAR + 1 else 0
    ensures forall i :: 0 <= i < |years| ==> years[i] == current - i
    ensures |years| > 0 ==> years[0] == current && years[|years| - 1] == EARLIEST_YEAR
    ensures forall i :: 0 < i < |years| ==> years[i] == years[i - 1] - 1
  {
    years := [];
    var y := current;
    while y >= EARLIEST_YEAR
      invariant y <= current
      invariant current >= EARLIEST_YEAR ==> y >= EARLIEST_YEAR - 1
      invariant current < EARLIEST_YEAR ==> y == current
      invariant |years| == current - y
      invariant forall i :: 0 <= i < |years| ==> years[i] == current - i
      decreases y - EARLIEST_YEAR
    {
      years := years + [y];
      y := y - 1;
    }
  }

  // ------------------------------------------------------------- duration

  /** The hidden duration value: `"<number> <unit>"`, or `""` while the number field is empty. */
  function ComposeDuration(number: string, unit: string): (v: string)
    ensures v == "" <==> number == ""
    ensures number != "" ==> |v| == |number| + 1 + |unit|
    ensures number != "" ==> v[..|number|] == number && v[|number|] == ' ' && v[|number| + 1..] == unit
  {
    if number != "" then number + " " + unit else ""
  }

  /** The duration number and unit inputs and the hidden field derived from them. */
  class DurationInputs {
    var number: string
    var unit: string
    var hidden: string

    /** Whether the hidden field shows the live composition of the two inputs. */
    ghost predicate InSync()
      reads this
    {
      hidden == ComposeDuration(number, unit)
    }

    /** `setupDuration`: wires the inputs and runs `update` once. */
    constructor (number: string, unit: string)
      ensures this.number == number && this.unit == unit
      ensures InSync()
    {
      this.number := number;
      this.unit := unit;
      hidden := ComposeDuration(number, unit);
    }

    /** An `input` event on the number field: the new text, then `update`. */
    method OnNumberInput(text: string)
      modifies this
      ensures number == text && unit == old(unit)
      ensures InSync()
    {
      number := text;
      hidden := ComposeDuration(number, unit);
    }

    /** A `change` event on the unit select: the new unit, then `update`. */
    method OnUnitChange(choice: string)
      modifies this
      ensures unit == choice && number == old(number)
      ensures InSync()
    {
      unit := choice;
      hidden := ComposeDuration(number, unit);
    }

    /**
     * The submit guard: the hidden field is recomputed from the inputs as
     * they stand, whatever events did or did not fire before.
     */
    method OnSubmit()
      modifies this`hidden
      ensures InSync()
    {
      hidden := ComposeDuration(number, unit);
    }
  }

  // ----------------------------------------------------------- genre tags

  /**
   * The genre tag editor: the insertion-ordered set of tags, the chips the
   * editor created for them, the hidden field that carries them to the
   * server, and the text input the user types into. The hidden field and the
   * input belong to the page markup, which may pre-fill them.
   */
  class GenreTags {
    var members: seq<string>
    var chips: seq<string>
    var hidden: string
    var input: string

    /** The set holds distinct non-empty tags, each with its one chip. */
    ghost predicate Valid()
      reads this
    {
      && NoDups(members)
      && (forall t :: t in members ==> t != "")
      && chips == members
    }

    /** The hidden field carries exactly the tags, joined by `", "`. */
    ghost predicate Mirrored()
      reads this
    {
      hidden == Join(members, ", ")
    }

    /**
     * `setupGenresTags` over the markup's hidden value and input text: the
     * set starts empty and no chip exists yet, while both fields keep what
     * the markup holds; only an empty hidden value already mirrors the set.
     */
    constructor (markupHidden: string, markupInput: string)
      ensures Valid() && members == [] && chips == []
      ensures hidden == markupHidden && input == markupInput
      ensures Mirrored() <==> markupHidden == ""
    {
      members, chips, hidden, input := [], [], markupHidden, markupInput;
    }

    /**
     * `addTag`: ignored when the value is empty or already a tag, and then
     * the hidden field is left as it was; otherwise the value becomes the
     * last tag, gets a chip, and the hidden field is rewritten.
     */
    method AddTag(value: string)
      requires Valid()
      modifies this
      ensures Valid()
      ensures members == if value == "" || value in old(members) then old(members)
                         else old(members) + [value]
      ensures value == "" || value in old(members) ==> hidden == old(hidden)
      ensures value != "" && value !in old(members) ==> Mirrored()
      ensures input == old(input)
    {
      if value == "" || value in members {
        return;
      }
      members := members + [value];
      chips := chips + [value];
      hidden := Join(members, ", ");
    }

    /**
     * The click on a chip's remove mark: the tag leaves the set, its chip
     * leaves the list, and the hidden field is rewritten.
     */
    method RemoveTag(value: string)
      requires Valid()
      modifies this
      ensures Valid() && Mirrored()
      ensures members == Without(old(members), value)
      ensures input == old(input)
    {
      members := Without(members, value);
      chips := Without(chips, value);
      hidden := Join(members, ", ");
    }

    /**
     * The Enter key in the tag input: the trimmed text is added as `AddTag`
     * would add it, and the input is cleared.
     */
    method OnEnter()
      requires Valid()
      modifies this
      ensures Valid()
      ensures var v := Strip(old(input));
        members == if v == "" || v in old(members) then old(members) else old(members) + [v]
      ensures var v := Strip(old(input));
        (v == "" || v in old(members) ==> hidden == old(hidden)) && (v != "" && v !in old(members) ==> Mirrored())
      ensures input == ""
    {
      var v := Strip(input);
      if v != "" {
        AddTag(v);
      }
      input := "";
    }
  }

  /** Removing a tag deletes exactly that tag and keeps the others in their order. */
  lemma RemoveTagKeepsOthers(members: seq<string>, value: string)
    requires NoDups(members) && value in members
    ensures |Without(members, value)| == |members| - 1
    ensures forall t :: t in Without(members, value) <==> t in members && t != value
    ensures IsSubsequence(Without(members, value), members)
  {
    WithoutLength(members, value);
    FilterByMembershipOrder(members, [value], false);
  }

  // ---------------------------------------------------------------- theme

  /** The class names of the two themes, also the values persisted for them. */
  function ThemeName(light: bool): (name: string)
    ensures name == "light" || name == "dark"
  {
    if light then "light" else "dark"
  }

  /**
   * The theme switch: whether the page body carries the `light` and the
   * `dark` class, and the persisted `theme` entry of browser storage.
   */
  class ThemeToggle {
    var light: bool
    var dark: bool
    var stored: Option<string>

    /** Exactly one of the two theme classes is on the body. */
    ghost predicate OneTheme()
      reads this
    {
      dark == !light
    }

    /**
     * Page load over the classes the markup already puts on the body: the
     * `light` class is added when the stored value is `"light"`, the `dark`
     * class otherwise, and nothing is removed; exactly one theme is on when
     * the markup carries neither.
     */
    constructor (saved: Option<string>, markupLight: bool, markupDark: bool)
      ensures light <==> markupLight || saved == Some("light")
      ensures dark <==> markupDark || saved != Some("light")
      ensures !markupLight && !markupDark ==> OneTheme()
      ensures stored == saved
    {
      var isLight := saved == Some("light");
      light := markupLight || isLight;
      dark := markupDark || !isLight;
      stored := saved;
    }

    /** A click: the `light` class flips, `dark` becomes its opposite, and the new theme is stored. */
    method Toggle()
      modifies this
      ensures light == !old(light)
      ensures OneTheme()
      ensures stored == Some(ThemeName(light))
    {
      light := !light;
      dark := !light;
      stored := Some(ThemeName(light));
    }
  }

  /**
   * Two clicks give back the original theme classes; the stored value then
   * names that theme, so it is back to what it was when it already did.
   */
  method ToggleTwice(theme: ThemeToggle)
    requires theme.OneTheme()
    modifies theme
    ensures theme.light == old(theme.light) && theme.dark == old(theme.dark)
    ensures theme.stored == Some(ThemeName(theme.light))
    ensures old(theme.stored) == Some(ThemeName(old(theme.light))) ==> theme.stored == old(theme.stored)
  {
    theme.Toggle();
    theme.Toggle();
  }
}
