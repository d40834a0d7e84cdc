/**
 * What the serving code and the training script share about the feature
 * table: the column names of the genre and country indicators, the way a
 * `listed_in` text is cut into genres, and the indicator maps both sides
 * build (a dict from column name to 0 or 1).
 */
module Encoding {
  import opened Wrappers
  import opened Text

  /** The column of the indicator for genre `g`. */
  function GenreKey(g: string): (k: string)
    ensures |k| == |g| + 7 && k[7..] == g && k[0] == 'g'
  {
    "genre__" + g
  }

  /** The column of the indicator for country `c`. */
  function CountryKey(c: string): (k: string)
    ensures |k| == |c| + 9 && k[9..] == c && k[0] == 'c'
  {
    "country__" + c
  }

  /** Every piece trimmed, in order. */
  function StripAll(pieces: seq<string>): (r: seq<string>)
    ensures |r| == |pieces|
    ensures forall i :: 0 <= i < |r| ==> r[i] == Strip(pieces[i])
  {
    seq(|pieces|, i requires 0 <= i < |pieces| => Strip(pieces[i]))
  }

  /** Trimming a list piece by piece trims its head, then its tail. */
  lemma StripAllCons(x: string, rest: seq<string>)
    ensures StripAll([x] + rest) == [Strip(x)] + StripAll(rest)
  {
    var xs := [x] + rest;
    var l, r := StripAll(xs), [Strip(x)] + StripAll(rest);
    assert |l| == |r|;
    forall i | 0 <= i < |l| ensures l[i] == r[i] {
      if i > 0 {
        assert xs[i] == rest[i - 1];
        assert r[i] == StripAll(rest)[i - 1];
      }
    }
  }

  /** Python `[p.strip() for p in s.split(",")]`: the genres named by a `listed_in` text. */
  function StrippedParts(s: string): (parts: seq<string>)
    ensures |parts| == |Split(s, ',')|
    ensures forall i :: 0 <= i < |parts| ==> parts[i] == Strip(Split(s, ',')[i])
  {
    StripAll(Split(s, ','))
  }

  /** A text without a comma names one genre: itself, trimmed. */
  lemma StrippedPartsSingle(s: string)
    requires ',' !in s
    ensures StrippedParts(s) == [Strip(s)]
  {
    SplitWithoutSeparator(s, ',');
  }

  /** The first comma ends the first genre. */
  lemma StrippedPartsAtComma(a: string, b: string)
    requires ',' !in a
    ensures StrippedParts(a + "," + b) == [Strip(a)] + StrippedParts(b)
  {
    SplitAtFirstSeparator(a, ',', b);
    StripAllCons(a, Split(b, ','));
  }

  /** A blank in front changes no genre. */
  lemma StrippedPartsLeadingSpace(c: char, s: string)
    requires IsSpace(c)
    ensures StrippedParts([c] + s) == StrippedParts(s)
  {
    var ps := Split(s, ',');
    SplitNonSeparatorHead(c, s, ',');
    StripLeadingSpace(c, ps[0]);
    StripAllCons([c] + ps[0], ps[1..]);
    StripAllCons(ps[0], ps[1..]);
    assert [ps[0]] + ps[1..] == ps;
  }

  /**
   * The genre indicators: one column per genre of `top`, 1 when the genre is
   * among `present`, 0 otherwise.
   */
  function GenreFlags(present: seq<string>, top: seq<string>): (m: map<string, int>)
    ensures m.Keys == set g | g in top :: GenreKey(g)
    ensures forall k :: k in m ==> m[k] == 0 || m[k] == 1
    ensures forall g :: g in top ==> (m[GenreKey(g)] == 1 <==> g in present)
  {
    assert forall a, b :: GenreKey(a) == GenreKey(b) ==> a == b by {
      forall a, b | GenreKey(a) == GenreKey(b) ensures a == b {
        assert GenreKey(a)[7..] == a && GenreKey(b)[7..] == b;
      }
    }
    map g | g in top :: GenreKey(g) := if g in present then 1 else 0
  }

  /** Python `{f"genre__{g}": 0 for g in top_genres}`. */
  function GenreZeros(top: seq<string>): (m: map<string, int>)
    ensures forall g :: GenreKey(g) in m <==> g in top
    ensures forall key :: key in m ==> m[key] == 0
  {
    map g | g in top :: GenreKey(g) := 0
  }

  /** No genre present: every genre column is 0. */
  lemma GenreFlagsNone(top: seq<string>)
    ensures GenreFlags([], top) == GenreZeros(top)
  {
    var m, z := GenreFlags([], top), GenreZeros(top);
    assert m.Keys == z.Keys;
    forall k | k in m ensures m[k] == z[k] {
      var g :| g in top && k == GenreKey(g);
    }
  }

  /** One more genre present sets its column to 1 when it is a top genre, and changes nothing else. */
  lemma GenreFlagsStep(present: seq<string>, p: string, top: seq<string>)
    ensures GenreFlags(present + [p], top)
         == if p in top then GenreFlags(present, top)[GenreKey(p) := 1] else GenreFlags(present, top)
  {
    var m, n := GenreFlags(present + [p], top), GenreFlags(present, top);
    var r := if p in top then n[GenreKey(p) := 1] else n;
    assert m.Keys == r.Keys;
    forall k | k in m ensures m[k] == r[k] {
      var g :| g in top && k == GenreKey(g);
      assert GenreKey(g)[7..] == g;
      assert g in present + [p] <==> g in present || g == p;
    }
  }

  /**
   * The country indicators: one column per country of `top`, 1 for the
   * country given and 0 for every other; no country gives all zeros.
   */
  function CountryFlags(country: Option<string>, top: seq<string>): (m: map<string, int>)
    ensures m.Keys == set c | c in top :: CountryKey(c)
    ensures forall k :: k in m ==> m[k] == 0 || m[k] == 1
    ensures forall k1, k2 :: k1 in m && k2 in m && m[k1] == 1 && m[k2] == 1 ==> k1 == k2
    ensures (exists k :: k in m && m[k] == 1) <==> country.Some? && country.value in top
    ensures country.Some? && country.value in top ==> m[CountryKey(country.value)] == 1
  {
    assert forall a, b :: CountryKey(a) == CountryKey(b) ==> a == b by {
      forall a, b | CountryKey(a) == CountryKey(b) ensures a == b {
        assert CountryKey(a)[9..] == a && CountryKey(b)[9..] == b;
      }
    }
    var m := map c | c in top :: CountryKey(c) := if country == Some(c) then 1 else 0;
    assert country.Some? && country.value in top ==> CountryKey(country.value) in m;
    assert forall k :: k in m && m[k] == 1 ==> k == CountryKey(country.value) by {
      forall k | k in m && m[k] == 1 ensures k == CountryKey(country.value) {
        var c :| c in top && k == CountryKey(c);
      }
    }
    m
  }

  /** A name of no top country, or no name at all, sets no country column. */
  lemma CountryFlagsAllZero(country: Option<string>, top: seq<string>)
    requires country.None? || country.value !in top
    ensures forall k :: k in CountryFlags(country, top) ==> CountryFlags(country, top)[k] == 0
  {
  }
}
