/** `extract_duration_constraint` of api.py: a priority-ordered list of ten
    regular expressions, each searched for in the lower-cased query the way
    `re.findall` does (leftmost match first, greedy repetition), followed by
    three phrase checks. Every pattern is matched here by a hand-written
    matcher over ASCII. */
module DurationRules {
  import opened Wrappers
  import opened Text

  /** The shapes of the ten patterns. */
  datatype Pattern =
    | Range(unit: string)    // (\d+)[-\s]+(\d+)\s*unit
    | Single(unit: string)   // (\d+)\s*unit
    | AboutAnHour            // about\s*an?\s*hour
    | After(prefix: string)  // prefix\s*(\d+)

  /** The patterns of api.py, in the order they are tried. */
  const Patterns: seq<Pattern> := [
    Range("minute"), Range("min"), Single("minute"), Single("min"),
    Range("hour"), Single("hour"), AboutAnHour,
    After("less than"), After("max"), After("at most")
  ]

  /** The first item `re.findall` returns: the two groups' numbers for a
      two-group pattern, the group's number for a one-group pattern, or the
      whole matched text for the pattern without a group. */
  datatype Found = Pair(first: nat, second: nat) | One(value: nat) | Whole

  /** The minute window of a query, or none. */
  datatype Window = Window(lo: int, hi: int) | NoWindow

  /** The character classes the patterns repeat: `\d`, `\s` and `[-\s]`. */
  datatype CharClass = Digits | Spaces | DashesOrSpaces

  predicate InClass(c: char, cls: CharClass) {
    match cls
    case Digits => IsDigit(c)
    case Spaces => IsSpace(c)
    case DashesOrSpaces => c == '-' || IsSpace(c)
  }

  /** End of the longest run of `cls` characters that starts at `i`: what a
      greedy `cls*` consumes there. */
  function Run(s: string, i: nat, cls: CharClass): (j: nat)
    requires i <= |s|
    ensures i <= j <= |s|
    ensures forall k | i <= k < j :: InClass(s[k], cls)
    ensures j == |s| || !InClass(s[j], cls)
    decreases |s| - i
  {
    if i < |s| && InClass(s[i], cls) then Run(s, i + 1, cls) else i
  }

  /** The number written by the digits `s[i..j]`. */
  function Number(s: string, i: nat, j: nat): nat
    requires i <= j <= |s|
    requires forall k | i <= k < j :: IsDigit(s[k])
  {
    assert AllDigits(s[i..j]) by {
      forall m | 0 <= m < j - i ensures IsDigit(s[i..j][m]) { assert s[i..j][m] == s[i + m]; }
    }
    DigitsValue(s[i..j])
  }

  /** `(\d+)[-\s]+(\d+)\s*unit` at `i`. */
  function MatchRange(s: string, i: nat, unit: string): Option<Found>
    requires i <= |s|
  {
    var j := Run(s, i, Digits);
    var k := Run(s, j, DashesOrSpaces);
    var l := Run(s, k, Digits);
    var m := Run(s, l, Spaces);
    if i < j && j < k && k < l && StartsAt(s, m, unit)
    then Some(Pair(Number(s, i, j), Number(s, k, l)))
    else None
  }

  /** `(\d+)\s*unit` at `i`. */
  function MatchSingle(s: string, i: nat, unit: string): Option<Found>
    requires i <= |s|
  {
    var j := Run(s, i, Digits);
    var m := Run(s, j, Spaces);
    if i < j && StartsAt(s, m, unit) then Some(One(Number(s, i, j))) else None
  }

  /** `about\s*an?\s*hour` at `i`. */
  function MatchAboutAnHour(s: string, i: nat): Option<Found>
    requires i <= |s|
  {
    if StartsAt(s, i, "about") then
      var j := Run(s, i + 5, Spaces);
      if j < |s| && s[j] == 'a' then
        var k := if j + 1 < |s| && s[j + 1] == 'n' then j + 2 else j + 1;
        var l := Run(s, k, Spaces);
        if StartsAt(s, l, "hour") then Some(Whole) else None
      else None
    else None
  }

  /** `prefix\s*(\d+)` at `i`. */
  function MatchAfter(s: string, i: nat, prefix: string): Option<Found>
    requires i <= |s|
  {
    if StartsAt(s, i, prefix) then
      var j := Run(s, i + |prefix|, Spaces);
      var l := Run(s, j, Digits);
      if j < l then Some(One(Number(s, j, l))) else None
    else None
  }

  /** The match of `p` that starts at position `i`, if there is one. Each
      pattern's repetitions can only succeed at their longest extent (the
      character after a shorter run never fits what follows), so taking
      maximal runs is exactly what the backtracking matcher finds. */
  function MatchAt(s: string, i: nat, p: Pattern): Option<Found>
    requires i <= |s|
  {
    match p
    case Range(unit) => MatchRange(s, i, unit)
    case Single(unit) => MatchSingle(s, i, unit)
    case AboutAnHour => MatchAboutAnHour(s, i)
    case After(prefix) => MatchAfter(s, i, prefix)
  }

  /** No match of `p` starts anywhere in `s`. */
  ghost predicate NoMatch(s: string, p: Pattern) {
    forall i | 0 <= i <= |s| :: MatchAt(s, i, p).None?
  }

  /** The outcome of `p` at every position of `s`, the end included. */
  function Outcomes(s: string, p: Pattern): (ms: seq<Option<Found>>)
    ensures |ms| == |s| + 1
    ensures forall k | 0 <= k <= |s| :: ms[k] == MatchAt(s, k, p)
  {
    seq(|s| + 1, k requires 0 <= k <= |s| => MatchAt(s, k, p))
  }

  /** The first present outcome at or after `i`, with its position. */
  function First<T>(ms: seq<Option<T>>, i: nat): (r: Option<(nat, T)>)
    requires i <= |ms|
    ensures r.Some? ==> i <= r.value.0 < |ms| && ms[r.value.0] == Some(r.value.1)
    ensures r.Some? ==> forall k | i <= k < r.value.0 :: ms[k].None?
    ensures r.None? ==> forall k | i <= k < |ms| :: ms[k].None?
    decreases |ms| - i
  {
    if i == |ms| then None
    else if ms[i].Some? then Some((i, ms[i].value))
    else First(ms, i + 1)
  }

  /** The leftmost match of `p` in `s`, with its position: the first item
      `re.findall` would return. */
  function FindFirst(s: string, p: Pattern): Option<(nat, Found)> {
    First(Outcomes(s, p), 0)
  }

  /** What the loop body does with the first item: a pair is returned as it
      stands (no ordering check, no hour-to-minute conversion), one number
      `n` becomes `n - 10 .. n + 10`, and the whole matched text makes
      `int()` raise. */
  function Interpret(f: Found): Result<Window> {
    match f
    case Pair(a, b) => Success(Window(a, b))
    case One(n) => Success(Window(n - 10, n + 10))
    case Whole => Failure(ValueError)
  }

  /** The phrase checks that follow the patterns. */
  function Phrases(s: string): Window {
    if Contains(s, "short test") || Contains(s, "quick assessment") then Window(15, 30)
    else if Contains(s, "long assessment") then Window(90, 180)
    else NoWindow
  }

  /** Tries `Patterns[k..]` in order on the lower-cased query `s`. */
  function FromPattern(s: string, k: nat): Result<Window>
    requires k <= |Patterns|
    decreases |Patterns| - k
  {
    if k == |Patterns| then Success(Phrases(s))
    else
      match FindFirst(s, Patterns[k])
      case Some(found) => Interpret(found.1)
      case None => FromPattern(s, k + 1)
  }

  /** `extract_duration_constraint(query)`. */
  function ExtractDurationConstraint(query: string): Result<Window> {
    FromPattern(Lower(query), 0)
  }

  /** Pattern `k` decides the query `s` through its match at `i`: no
      earlier pattern matches anywhere, and no match of pattern `k` starts
      before `i`. */
  ghost predicate Decides(s: string, k: nat, i: nat, f: Found) {
    && k < |Patterns| && i <= |s|
    && (forall j | 0 <= j < k :: NoMatch(s, Patterns[j]))
    && MatchAt(s, i, Patterns[k]) == Some(f)
    && (forall i' | 0 <= i' < i :: MatchAt(s, i', Patterns[k]).None?)
  }

  /** When `p` matches nowhere, the search finds nothing. */
  lemma FindFirstNone(s: string, p: Pattern)
    requires NoMatch(s, p)
    ensures FindFirst(s, p).None?
  {
  }

  /** When the first match of `p` is at `i`, the search finds it there. */
  lemma FindFirstAt(s: string, p: Pattern, i: nat, f: Found)
    requires i <= |s| && MatchAt(s, i, p) == Some(f)
    requires forall i' | 0 <= i' < i :: MatchAt(s, i', p).None?
    ensures FindFirst(s, p) == Some((i, f))
  {
  }

  /** A pattern that matches nowhere hands over to the next one. */
  lemma FromPatternSkip(s: string, m: nat)
    requires m < |Patterns| && NoMatch(s, Patterns[m])
    ensures FromPattern(s, m) == FromPattern(s, m + 1)
  {
    FindFirstNone(s, Patterns[m]);
  }

  lemma {:induction false} FromPatternDecided(s: string, m: nat, k: nat, i: nat, f: Found)
    requires m <= k && Decides(s, k, i, f)
    ensures FromPattern(s, m) == Interpret(f)
    decreases k - m
  {
    if m < k {
      FromPatternSkip(s, m);
      FromPatternDecided(s, m + 1, k, i, f);
    } else {
      FindFirstAt(s, Patterns[k], i, f);
    }
  }

  /** The patterns are tried in their listed order and only the first one
      with any match counts, through its leftmost match. */
  lemma ExtractFollowsFirstMatch(query: string, k: nat, i: nat, f: Found)
    requires Decides(Lower(query), k, i, f)
    ensures ExtractDurationConstraint(query) == Interpret(f)
  {
    FromPatternDecided(Lower(query), 0, k, i, f);
  }

  lemma {:induction false} FromPatternNoMatch(s: string, m: nat)
    requires m <= |Patterns|
    requires forall k | 0 <= k < |Patterns| :: NoMatch(s, Patterns[k])
    ensures FromPattern(s, m) == Success(Phrases(s))
    decreases |Patterns| - m
  {
    if m < |Patterns| {
      FromPatternSkip(s, m);
      FromPatternNoMatch(s, m + 1);
    }
  }

  /** The phrases are looked at only when no pattern matches at all. */
  lemma ExtractFallsBackToPhrases(query: string)
    requires forall k | 0 <= k < |Patterns| :: NoMatch(Lower(query), Patterns[k])
    ensures ExtractDurationConstraint(query) == Success(Phrases(Lower(query)))
  {
    FromPatternNoMatch(Lower(query), 0);
  }

  lemma {:induction false} FromPatternRaises(s: string, m: nat)
    requires m <= |Patterns|
    ensures FromPattern(s, m).Failure? ==>
              FromPattern(s, m).error == ValueError && FindFirst(s, AboutAnHour).Some?
    decreases |Patterns| - m
  {
    if m < |Patterns| {
      var r := FindFirst(s, Patterns[m]);
      if r.None? {
        FromPatternRaises(s, m + 1);
      } else if r.value.1.Whole? {
        assert Patterns[m] == AboutAnHour;
      }
    }
  }

  /** The extraction raises only as `ValueError`, and only on a query in
      which `about\s*an?\s*hour` matches. */
  lemma ExtractRaisesOnlyOnAboutAnHour(query: string)
    ensures ExtractDurationConstraint(query).Failure? ==>
              ExtractDurationConstraint(query).error == ValueError
              && !NoMatch(Lower(query), AboutAnHour)
  {
    var s := Lower(query);
    FromPatternRaises(s, 0);
    var r := FindFirst(s, AboutAnHour);
    assert r.Some? ==> MatchAt(s, r.value.0, AboutAnHour).Some?;
  }

  /** A query without digits can only be decided by the `about an hour`
      pattern, the three patterns after it, or the phrases: the six
      patterns that start with `(\d+)` never match it. */
  lemma NoDigitsNoNumberPattern(s: string, k: nat)
    requires forall c | c in s :: !IsDigit(c)
    requires k < 6
    ensures NoMatch(s, Patterns[k])
  {
    forall i | 0 <= i <= |s| ensures MatchAt(s, i, Patterns[k]).None? {
      assert i < |s| ==> !IsDigit(s[i]);
    }
  }

  /** A query without digits and without `about` goes to the phrase
      checks: none of the ten patterns can match it. */
  lemma PhrasesWithoutNumbers(query: string)
    requires forall c | c in Lower(query) :: !IsDigit(c)
    requires !Contains(Lower(query), "about")
    ensures ExtractDurationConstraint(query) == Success(Phrases(Lower(query)))
  {
    var s := Lower(query);
    forall k | 0 <= k < |Patterns| ensures NoMatch(s, Patterns[k]) {
      if k < 6 {
        NoDigitsNoNumberPattern(s, k);
      } else {
        forall i | 0 <= i <= |s| ensures MatchAt(s, i, Patterns[k]).None? {
          if k == 6 {
            assert !StartsAt(s, i, "about");
          } else {
            var prefix := Patterns[k].prefix;
            if StartsAt(s, i, prefix) {
              var j := Run(s, i + |prefix|, Spaces);
              assert j == |s| || !IsDigit(s[j]);
            }
          }
        }
      }
    }
    ExtractFallsBackToPhrases(query);
  }
}
