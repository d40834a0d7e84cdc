/**
 * The string primitives the form and the feature encoders share: whitespace
 * trimming (JavaScript `trim`, Python `str.strip`), splitting on one separator
 * character (Python `str.split(",")`), joining (JavaScript `Array.join`), and
 * the first run of decimal digits (the regular expression `(\d+)` under
 * `re.search`) with its integer value.
 */
module Text {
  import opened Wrappers

  // ---------------------------------------------------------------- whitespace

  /** The ASCII whitespace characters that both JavaScript's `trim` and Python's `strip` remove. */
  predicate IsSpace(c: char) {
    c == ' ' || c == '\t' || c == '\n' || c == '\r' || c == '\U{0B}' || c == '\U{0C}'
  }

  predicate AllSpaces(s: string) {
    forall k :: 0 <= k < |s| ==> IsSpace(s[k])
  }

  /** Neither end of `s` is whitespace: `s` is its own trimmed form. */
  predicate IsStripped(s: string) {
    |s| == 0 || (!IsSpace(s[0]) && !IsSpace(s[|s| - 1]))
  }

  /** `s` without its leading whitespace. */
  function TrimStart(s: string): (r: string)
    ensures |r| <= |s| && r == s[|s| - |r|..]
    ensures |r| > 0 ==> !IsSpace(r[0])
  {
    if |s| > 0 && IsSpace(s[0]) then TrimStart(s[1..]) else s
  }

  /** What `TrimStart` drops is whitespace. */
  lemma {:induction false} TrimStartDropsSpaces(s: string)
    ensures AllSpaces(s[..|s| - |TrimStart(s)|])
  {
    if |s| > 0 && IsSpace(s[0]) {
      TrimStartDropsSpaces(s[1..]);
      var n := |s| - |TrimStart(s)|;
      assert s[..n] == [s[0]] + s[1..][..n - 1];
    }
  }

  /** `s` without its trailing whitespace. */
  function TrimEnd(s: string): (r: string)
    ensures |r| <= |s| && r == s[..|r|]
    ensures |r| > 0 ==> !IsSpace(r[|r| - 1])
  {
    if |s| > 0 && IsSpace(s[|s| - 1]) then TrimEnd(s[..|s| - 1]) else s
  }

  /** What `TrimEnd` drops is whitespace. */
  lemma {:induction false} TrimEndDropsSpaces(s: string)
    ensures AllSpaces(s[|TrimEnd(s)|..])
  {
    if |s| > 0 && IsSpace(s[|s| - 1]) {
      var init := s[..|s| - 1];
      TrimEndDropsSpaces(init);
      var n := |TrimEnd(s)|;
      assert s[n..] == init[n..] + [s[|s| - 1]];
    }
  }

  /** JavaScript `s.trim()` and Python `s.strip()` on the characters of `IsSpace`. */
  function Strip(s: string): (r: string)
    ensures IsStripped(r)
    ensures IsStripped(s) ==> r == s
  {
    var t := TrimStart(s);
    assert IsStripped(s) ==> t == s;
    TrimEnd(t)
  }

  /**
   * Trimming keeps a middle slice of `s` and drops only whitespace around
   * it; in particular it adds no character.
   */
  lemma StripIsSlice(s: string)
    ensures exists i, j :: 0 <= i <= j <= |s| && Strip(s) == s[i..j] && AllSpaces(s[..i]) && AllSpaces(s[j..])
    ensures forall c :: c in Strip(s) ==> c in s
  {
    var t := TrimStart(s);
    var r := TrimEnd(t);
    TrimStartDropsSpaces(s);
    TrimEndDropsSpaces(t);
    var i := |s| - |t|;
    var j := i + |r|;
    assert r == s[i..j];
    assert t[|r|..] == s[j..];
  }

  /** A leading blank is trimmed away: `(" " + t).strip() == t.strip()`. */
  lemma StripLeadingSpace(c: char, t: string)
    requires IsSpace(c)
    ensures Strip([c] + t) == Strip(t)
  {
    assert ([c] + t)[1..] == t;
    assert TrimStart([c] + t) == TrimStart(t);
  }

  // ---------------------------------------------------------- split and join

  /**
   * Python `s.split(sep)` for a one-character separator: the pieces between
   * separators, empty pieces included, so `""` splits into `[""]`.
   */
  function Split(s: string, sep: char): (parts: seq<string>)
    ensures |parts| >= 1
  {
    if |s| == 0 then [""]
    else
      var rest := Split(s[1..], sep);
      if s[0] == sep then [""] + rest
      else [[s[0]] + rest[0]] + rest[1..]
  }

  /** No piece contains the separator. */
  lemma {:induction false} SplitPartsExcludeSeparator(s: string, sep: char)
    ensures forall i :: 0 <= i < |Split(s, sep)| ==> sep !in Split(s, sep)[i]
  {
    if |s| > 0 {
      SplitPartsExcludeSeparator(s[1..], sep);
    }
  }

  /** JavaScript `parts.join(sep)`. */
  function Join(parts: seq<string>, sep: string): (r: string)
    ensures |parts| == 1 ==> r == parts[0]
  {
    if |parts| == 0 then ""
    else if |parts| == 1 then parts[0]
    else parts[0] + sep + Join(parts[1..], sep)
  }

  /** A string without the separator is one piece. */
  lemma {:induction false} SplitWithoutSeparator(s: string, sep: char)
    requires sep !in s
    ensures Split(s, sep) == [s]
  {
    if |s| > 0 {
      assert sep !in s[1..];
      SplitWithoutSeparator(s[1..], sep);
      assert [s[0]] + s[1..] == s;
    }
  }

  /** The first separator ends the first piece. */
  lemma {:induction false} SplitAtFirstSeparator(a: string, sep: char, b: string)
    requires sep !in a
    ensures Split(a + [sep] + b, sep) == [a] + Split(b, sep)
  {
    if |a| == 0 {
      assert a + [sep] + b == [sep] + b;
      assert ([sep] + b)[1..] == b;
    } else {
      assert (a + [sep] + b)[1..] == a[1..] + [sep] + b;
      assert sep !in a[1..];
      SplitAtFirstSeparator(a[1..], sep, b);
      assert [a[0]] + a[1..] == a;
    }
  }

  /** A leading character other than the separator joins the first piece. */
  lemma SplitNonSeparatorHead(c: char, s: string, sep: char)
    requires c != sep
    ensures var parts := Split([c] + s, sep);
      parts == [[c] + Split(s, sep)[0]] + Split(s, sep)[1..]
  {
    assert ([c] + s)[1..] == s;
  }

  /** Splitting undoes joining with the separator, when no piece contains it. */
  lemma {:induction false} SplitJoin(parts: seq<string>, sep: char)
    requires |parts| >= 1
    requires forall p :: p in parts ==> sep !in p
    ensures Split(Join(parts, [sep]), sep) == parts
  {
    if |parts| == 1 {
      SplitWithoutSeparator(parts[0], sep);
    } else {
      SplitJoin(parts[1..], sep);
      SplitAtFirstSeparator(parts[0], sep, Join(parts[1..], [sep]));
    }
  }

  /** Joining undoes splitting: the split loses nothing. */
  lemma {:induction false} JoinSplit(s: string, sep: char)
    ensures Join(Split(s, sep), [sep]) == s
  {
    if |s| > 0 {
      var rest := Split(s[1..], sep);
      JoinSplit(s[1..], sep);
      if s[0] == sep {
        assert Split(s, sep) == [""] + rest;
        assert ([""] + rest)[1..] == rest;
        assert [sep] + s[1..] == s;
      } else {
        var parts := Split(s, sep);
        assert parts == [[s[0]] + rest[0]] + rest[1..];
        assert parts[1..] == rest[1..];
        if |rest| == 1 {
          assert s[1..] == rest[0];
        } else {
          assert rest[1..][1..] == rest[2..];
          assert s[1..] == rest[0] + [sep] + Join(rest[1..], [sep]);
        }
        assert [s[0]] + s[1..] == s;
      }
    }
  }

  // ------------------------------------------------------------------ digits

  predicate IsDigit(c: char) {
    '0' <= c <= '9'
  }

  predicate AllDigits(s: string) {
    forall k :: 0 <= k < |s| ==> IsDigit(s[k])
  }

  function DigitValue(c: char): (d: nat)
    requires IsDigit(c)
    ensures d < 10
  {
    c as int - '0' as int
  }

  function DigitChar(d: nat): (c: char)
    requires d < 10
    ensures IsDigit(c) && DigitValue(c) == d
  {
    ('0' as int + d) as char
  }

  /** Python `int(ds)` for a string of decimal digits (leading zeros allowed; `""` is 0). */
  function DecimalValue(ds: string): (n: nat)
    requires AllDigits(ds)
    ensures |ds| > 0 && ds[0] == '0' ==> n == DecimalValue(ds[1..])
  {
    if |ds| == 0 then 0
    else
      var init := ds[..|ds| - 1];
      assert |ds| > 1 ==> init[1..] == ds[1..][..|ds| - 2];
      10 * DecimalValue(init) + DigitValue(ds[|ds| - 1])
  }

  /** The decimal text of a non-negative integer, as JavaScript and Python write it. */
  function Decimal(n: nat): (ds: string)
    ensures |ds| >= 1 && AllDigits(ds)
    ensures DecimalValue(ds) == n
    ensures |ds| > 1 ==> ds[0] != '0'
  {
    if n < 10 then [DigitChar(n)]
    else
      var ds := Decimal(n / 10) + [DigitChar(n % 10)];
      assert ds[..|ds| - 1] == Decimal(n / 10);
      ds
  }

  /** The position of the first decimal digit of `s`, or `|s|` when it has none. */
  function FirstDigitIndex(s: string): (i: nat)
    ensures i <= |s|
    ensures forall k :: 0 <= k < i ==> !IsDigit(s[k])
    ensures i < |s| ==> IsDigit(s[i])
  {
    if |s| == 0 || IsDigit(s[0]) then 0 else 1 + FirstDigitIndex(s[1..])
  }

  /** How many decimal digits `s` begins with. */
  function LeadingDigitCount(s: string): (n: nat)
    ensures n <= |s| && AllDigits(s[..n])
    ensures n < |s| ==> !IsDigit(s[n])
  {
    if |s| == 0 || !IsDigit(s[0]) then 0 else 1 + LeadingDigitCount(s[1..])
  }

  /**
   * The match of `re.search(r"(\d+)", s)`: the leftmost maximal run of
   * decimal digits, or None when `s` has no digit.
   */
  function FirstDigitRun(s: string): (run: Option<string>)
    ensures run.None? <==> forall k :: 0 <= k < |s| ==> !IsDigit(s[k])
    ensures run.Some? ==> |run.value| > 0 && AllDigits(run.value)
    ensures run.Some? ==>
      var i := FirstDigitIndex(s);
      i + |run.value| <= |s| && s[i..i + |run.value|] == run.value &&
      (i + |run.value| < |s| ==> !IsDigit(s[i + |run.value|]))
  {
    var i := FirstDigitIndex(s);
    if i == |s| then None
    else
      var n := LeadingDigitCount(s[i..]);
      Some(s[i..][..n])
  }

  /** Text whose first `n` characters are digits and whose next one is not: the run is those digits. */
  lemma DigitRunOfSlice(s: string, n: nat)
    requires 0 < n < |s| && AllDigits(s[..n]) && !IsDigit(s[n])
    ensures FirstDigitRun(s) == Some(s[..n])
  {
    assert s[..n] + s[n..] == s;
    DigitRunOfPrefix(s[..n], s[n..]);
  }

  /** A non-digit in front does not change the first run of digits. */
  lemma DigitRunAfterNonDigit(s: string)
    requires |s| > 0 && !IsDigit(s[0])
    ensures FirstDigitRun(s) == FirstDigitRun(s[1..])
  {
    assert FirstDigitIndex(s) == 1 + FirstDigitIndex(s[1..]);
    assert s[FirstDigitIndex(s)..] == s[1..][FirstDigitIndex(s[1..])..];
  }

  /** A string that starts with digits followed by a non-digit: the run is exactly those digits. */
  lemma DigitRunOfPrefix(ds: string, rest: string)
    requires |ds| > 0 && AllDigits(ds)
    requires |rest| > 0 && !IsDigit(rest[0])
    ensures FirstDigitRun(ds + rest) == Some(ds)
  {
    var s := ds + rest;
    assert FirstDigitIndex(s) == 0;
    assert s[|ds|] == rest[0];
    assert s[0..] == s;
    assert s[..|ds|] == ds;
  }
}
