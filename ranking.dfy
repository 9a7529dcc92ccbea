/** The post-processing of api.py around retrieval: the duration filter
    `filter_by_duration`, and the fallback `SHLRecommender` whose keyword
    scoring ranks the catalog when the real recommender cannot be loaded. */
module Ranking {
  import opened Wrappers
  import opened Text
  import opened StableSort
  import opened Json

  /** A catalog entry: a Python dict in which any key may be absent. */
  datatype Assessment = Assessment(
    url: Option<string>,
    name: Option<string>,
    adaptiveSupport: Option<string>,
    description: Option<string>,
    duration: Option<int>,
    remoteSupport: Option<string>,
    testType: Option<Json>)

  /** `assessment.get('duration', 60)`. */
  function DurationOf(a: Assessment): int {
    a.duration.GetOr(60)
  }

  predicate InWindow(a: Assessment, lo: int, hi: int) {
    lo <= DurationOf(a) <= hi
  }

  /** The candidates whose duration lies in `[lo, hi]`, in their order. */
  function Within(s: seq<Assessment>, lo: int, hi: int): (r: seq<Assessment>)
    ensures |r| <= |s|
  {
    if s == [] then []
    else Within(s[..|s| - 1], lo, hi) + (if InWindow(s[|s| - 1], lo, hi) then [s[|s| - 1]] else [])
  }

  /** The sort key of the fallback: `abs(d - (lo + hi) / 2)` doubled, which
      keeps the values integral and orders (and ties) candidates exactly as
      the halved distance does. */
  function Distance(lo: int, hi: int): Assessment -> int {
    a => if 2 * DurationOf(a) >= lo + hi then 2 * DurationOf(a) - (lo + hi)
         else (lo + hi) - 2 * DurationOf(a)
  }

  /** What `filter_by_duration` returns for the candidates `s`. */
  function FilterResult(s: seq<Assessment>, lo: int, hi: int): seq<Assessment> {
    var inside := Within(s, lo, hi);
    if inside != [] || s == [] then inside
    else
      var sorted := Sort(s, Distance(lo, hi));
      sorted[..Min(10, |sorted|)]
  }

  /** What `filter_by_duration` leaves in the caller's list: sorted by
      distance when the fallback ran, untouched otherwise. */
  function FilterReorders(s: seq<Assessment>, lo: int, hi: int): seq<Assessment> {
    if Within(s, lo, hi) == [] && s != [] then Sort(s, Distance(lo, hi)) else s
  }

  /** `filter_by_duration(assessments, lo, hi)`, with the caller's list as
      an array that the fallback sorts in place. */
  method FilterByDuration(a: array<Assessment>, lo: int, hi: int) returns (filtered: seq<Assessment>)
    modifies a
    ensures filtered == FilterResult(old(a[..]), lo, hi)
    ensures a[..] == FilterReorders(old(a[..]), lo, hi)
  {
    filtered := [];
    var i := 0;
    while i < a.Length
      invariant 0 <= i <= a.Length
      invariant filtered == Within(a[..i], lo, hi)
    {
      if InWindow(a[i], lo, hi) {
        filtered := filtered + [a[i]];
      }
      assert a[..i + 1][..i] == a[..i];
      i := i + 1;
    }
    assert a[..a.Length] == a[..];
    if filtered == [] && a.Length > 0 {
      SortInPlace(a, Distance(lo, hi));
      filtered := a[..Min(10, a.Length)];
    }
  }

  /** A candidate is kept by the window exactly when it is one of the
      candidates and its duration lies in the window. */
  lemma {:induction false} WithinMembers(s: seq<Assessment>, lo: int, hi: int, x: Assessment)
    ensures x in Within(s, lo, hi) <==> x in s && InWindow(x, lo, hi)
    decreases |s|
  {
    if s != [] {
      var init := s[..|s| - 1];
      WithinMembers(init, lo, hi, x);
      assert s == init + [s[|s| - 1]];
    }
  }

  /** The window keeps the candidates' order: filtering a concatenation
      concatenates the filtered parts. */
  lemma {:induction false} WithinAppend(s: seq<Assessment>, t: seq<Assessment>, lo: int, hi: int)
    ensures Within(s + t, lo, hi) == Within(s, lo, hi) + Within(t, lo, hi)
    decreases |t|
  {
    if t == [] {
      assert s + t == s;
    } else {
      var t' := t[..|t| - 1];
      assert (s + t)[..|s + t| - 1] == s + t';
      WithinAppend(s, t', lo, hi);
    }
  }

  lemma {:induction false} WithinNone(s: seq<Assessment>, lo: int, hi: int)
    requires forall x | x in s :: !InWindow(x, lo, hi)
    ensures Within(s, lo, hi) == []
    decreases |s|
  {
    if s != [] {
      assert forall x | x in s[..|s| - 1] :: x in s;
      WithinNone(s[..|s| - 1], lo, hi);
    }
  }

  /** When some candidate fits the window, the result is exactly the fitting
      candidates and the caller's list is left alone. */
  lemma FilterKeepsFitting(s: seq<Assessment>, lo: int, hi: int)
    requires exists x | x in s :: InWindow(x, lo, hi)
    ensures FilterResult(s, lo, hi) == Within(s, lo, hi) != []
    ensures FilterReorders(s, lo, hi) == s
  {
    var x :| x in s && InWindow(x, lo, hi);
    WithinMembers(s, lo, hi, x);
  }

  /** When nothing fits, a non-empty candidate list still yields up to ten
      candidates: a sub-multiset of the input, none farther from the
      midpoint than any candidate left behind, and, among candidates at the
      same distance, in their input order. */
  lemma FilterFallsBackToClosest(s: seq<Assessment>, lo: int, hi: int)
    requires s != [] && forall x | x in s :: !InWindow(x, lo, hi)
    ensures var r := FilterResult(s, lo, hi);
            var sorted := FilterReorders(s, lo, hi);
            && |r| == Min(10, |s|) && r == sorted[..|r|]
            && multiset(sorted) == multiset(s)
            && SortedBy(sorted, Distance(lo, hi))
            && (forall i, j | 0 <= i < |r| <= j < |s| :: Distance(lo, hi)(r[i]) <= Distance(lo, hi)(sorted[j]))
            && (forall d :: WithKey(sorted, Distance(lo, hi), d) == WithKey(s, Distance(lo, hi), d))
  {
    WithinNone(s, lo, hi);
    var key := Distance(lo, hi);
    SortPermutes(s, key);
    SortSorted(s, key);
    forall d ensures WithKey(Sort(s, key), key, d) == WithKey(s, key, d) {
      SortStable(s, key, d);
    }
  }

  /** The filter never empties a non-empty candidate list and never invents
      a candidate. */
  lemma FilterNonEmpty(s: seq<Assessment>, lo: int, hi: int)
    ensures |FilterResult(s, lo, hi)| <= |s|
    ensures (FilterResult(s, lo, hi) == []) <==> (s == [])
    ensures forall x | x in FilterResult(s, lo, hi) :: x in s
  {
    var r := FilterResult(s, lo, hi);
    if Within(s, lo, hi) != [] || s == [] {
      forall x | x in r ensures x in s { WithinMembers(s, lo, hi, x); }
    } else {
      var sorted := Sort(s, Distance(lo, hi));
      SortPermutes(s, Distance(lo, hi));
      forall x | x in r ensures x in s {
        assert x in multiset(sorted);
      }
    }
  }

  /** The fallback's score for one entry against the lower-cased query `q`:
      3 each for java, python and sql found in the query and in the entry's
      description or name, 2 for developer in the query and the
      description, 2 for collaborat in the query and team or communication
      in the description. An absent description or name counts as empty. */
  function Score(q: string, a: Assessment): (score: nat)
    ensures score <= 13
  {
    var desc := Lower(a.description.GetOr(""));
    var name := Lower(a.name.GetOr(""));
    (if Contains(q, "java") && (Contains(desc, "java") || Contains(name, "java")) then 3 else 0)
    + (if Contains(q, "python") && (Contains(desc, "python") || Contains(name, "python")) then 3 else 0)
    + (if Contains(q, "sql") && (Contains(desc, "sql") || Contains(name, "sql")) then 3 else 0)
    + (if Contains(q, "developer") && Contains(desc, "developer") then 2 else 0)
    + (if Contains(q, "collaborat") && (Contains(desc, "team") || Contains(desc, "communication")) then 2 else 0)
  }

  /** The `(score, assessment)` pairs with a positive score, in catalog order. */
  function Scored(s: seq<Assessment>, q: string): (r: seq<(int, Assessment)>)
    ensures |r| <= |s|
  {
    if s == [] then []
    else
      var a := s[|s| - 1];
      Scored(s[..|s| - 1], q) + (if Score(q, a) > 0 then [(Score(q, a), a)] else [])
  }

  /** `key=lambda x: x[0], reverse=True`: a stable sort by descending score
      is a stable sort by the negated score. */
  function ByScoreDescending(p: (int, Assessment)): int {
    -p.0
  }

  function Entries(ps: seq<(int, Assessment)>): (r: seq<Assessment>)
    ensures |r| == |ps|
    ensures forall i | 0 <= i < |ps| :: r[i] == ps[i].1
  {
    seq(|ps|, i requires 0 <= i < |ps| => ps[i].1)
  }

  /** The scored entries after the sort. */
  function Ranked(catalog: seq<Assessment>, query: string): seq<(int, Assessment)> {
    Sort(Scored(catalog, Lower(query)), ByScoreDescending)
  }

  /** What the fallback `recommend(query, k)` returns. */
  function TopK(catalog: seq<Assessment>, query: string, k: nat): seq<Assessment> {
    var ranked := Ranked(catalog, query);
    Entries(ranked[..Min(k, |ranked|)])
  }

  /** `balance_recommendations`: the first ten recommendations. */
  function Balance(recs: seq<Assessment>): (r: seq<Assessment>)
    ensures |r| == Min(10, |recs|) && r <= recs
    ensures |recs| <= 10 ==> r == recs
  {
    recs[..Min(10, |recs|)]
  }

  /** The fallback recommender over a catalog held in memory. */
  class Recommender {
    var assessments: seq<Assessment>

    constructor(catalog: seq<Assessment>)
      ensures assessments == catalog
    {
      assessments := catalog;
    }

    /** `recommend(query, k)`: scores every entry, keeps the positive ones,
        sorts the pairs in place and returns the first `k` entries. */
    method Recommend(query: string, k: nat) returns (r: seq<Assessment>)
      ensures r == TopK(assessments, query, k)
    {
      var q := Lower(query);
      var results: seq<(int, Assessment)> := [];
      var i := 0;
      while i < |assessments|
        invariant 0 <= i <= |assessments|
        invariant results == Scored(assessments[..i], q)
      {
        var score := Score(q, assessments[i]);
        if score > 0 {
          results := results + [(score, assessments[i])];
        }
        assert assessments[..i + 1][..i] == assessments[..i];
        i := i + 1;
      }
      assert assessments[..i] == assessments;
      var pairs := new (int, Assessment)[|results|](j requires 0 <= j < |results| => results[j]);
      assert pairs[..] == results;
      SortInPlace(pairs, ByScoreDescending);
      r := Entries(pairs[..Min(k, pairs.Length)]);
    }
  }

  /** Each scored pair carries its entry's own positive score. */
  lemma {:induction false} ScoredMembers(s: seq<Assessment>, q: string)
    ensures forall p | p in Scored(s, q) :: p.1 in s && p.0 == Score(q, p.1) > 0
    decreases |s|
  {
    if s != [] {
      var init := s[..|s| - 1];
      ScoredMembers(init, q);
      assert s == init + [s[|s| - 1]];
    }
  }

  /** Every entry with a positive score is among the scored pairs. */
  lemma {:induction false} ScoredHas(s: seq<Assessment>, q: string, x: Assessment)
    requires x in s && Score(q, x) > 0
    ensures (Score(q, x), x) in Scored(s, q)
    decreases |s|
  {
    var init := s[..|s| - 1];
    if x in init {
      ScoredHas(init, q, x);
    } else {
      assert s == init + [s[|s| - 1]];
    }
  }

  /** The ranked pairs are the scored pairs, reordered. */
  lemma RankedMembers(catalog: seq<Assessment>, query: string)
    ensures forall p | p in Ranked(catalog, query) ::
              p.1 in catalog && p.0 == Score(Lower(query), p.1) > 0
    ensures |Ranked(catalog, query)| == |Scored(catalog, Lower(query))|
  {
    var scored := Scored(catalog, Lower(query));
    ScoredMembers(catalog, Lower(query));
    SortPermutes(scored, ByScoreDescending);
    forall p | p in Ranked(catalog, query)
      ensures p.1 in catalog && p.0 == Score(Lower(query), p.1) > 0
    {
      assert p in multiset(Ranked(catalog, query));
    }
  }

  /** The fallback returns at most `k` entries, all from the catalog and
      all with a positive score, in non-increasing order of score. */
  lemma TopKRanked(catalog: seq<Assessment>, query: string, k: nat)
    ensures var r := TopK(catalog, query, k);
            && |r| == Min(k, |Scored(catalog, Lower(query))|)
            && (forall x | x in r :: x in catalog && Score(Lower(query), x) > 0)
            && (forall i, j | 0 <= i < j < |r| :: Score(Lower(query), r[i]) >= Score(Lower(query), r[j]))
  {
    var ranked := Ranked(catalog, query);
    var r := TopK(catalog, query, k);
    RankedMembers(catalog, query);
    SortSorted(Scored(catalog, Lower(query)), ByScoreDescending);
    forall x | x in r ensures x in catalog && Score(Lower(query), x) > 0 {
      var i :| 0 <= i < |r| && r[i] == x;
      assert ranked[i] in ranked;
    }
    forall i, j | 0 <= i < j < |r| ensures Score(Lower(query), r[i]) >= Score(Lower(query), r[j]) {
      assert ranked[i] in ranked && ranked[j] in ranked;
      assert ByScoreDescending(ranked[i]) <= ByScoreDescending(ranked[j]);
    }
  }

  /** No entry left out outscores an entry that was returned: a catalog
      entry scoring higher than some returned entry is itself returned. */
  lemma TopKNoBetterLeftOut(catalog: seq<Assessment>, query: string, k: nat, i: nat, x: Assessment)
    requires i < |TopK(catalog, query, k)|
    requires x in catalog && Score(Lower(query), x) > Score(Lower(query), TopK(catalog, query, k)[i])
    ensures x in TopK(catalog, query, k)
  {
    var q := Lower(query);
    var scored := Scored(catalog, q);
    var ranked := Ranked(catalog, query);
    var n := Min(k, |ranked|);
    RankedMembers(catalog, query);
    assert ranked[i] in ranked;
    var p := (Score(q, x), x);
    ScoredHas(catalog, q, x);
    assert p in multiset(scored);
    SortPermutes(scored, ByScoreDescending);
    assert p in multiset(ranked);
    SortSorted(scored, ByScoreDescending);
    SortedPrefixHolds(ranked, n, i, p);
  }

  /** In pairs sorted by descending score, a pair scoring higher than one
      of the first `n` is itself among the first `n`. */
  lemma SortedPrefixHolds(ps: seq<(int, Assessment)>, n: nat, i: nat, p: (int, Assessment))
    requires SortedBy(ps, ByScoreDescending) && i < n <= |ps|
    requires p in ps && p.0 > ps[i].0
    ensures p.1 in Entries(ps[..n])
  {
    var m :| 0 <= m < |ps| && ps[m] == p;
    assert ByScoreDescending(ps[m]) < ByScoreDescending(ps[i]);
    assert m < n;
    assert Entries(ps[..n])[m] == p.1;
  }

  /** With room for all of them, every entry with a positive score is
      returned. */
  lemma TopKComplete(catalog: seq<Assessment>, query: string, k: nat, x: Assessment)
    requires |Scored(catalog, Lower(query))| <= k
    requires x in catalog && Score(Lower(query), x) > 0
    ensures x in TopK(catalog, query, k)
  {
    var scored := Scored(catalog, Lower(query));
    var ranked := Ranked(catalog, query);
    var p := (Score(Lower(query), x), x);
    ScoredHas(catalog, Lower(query), x);
    assert p in multiset(scored);
    SortPermutes(scored, ByScoreDescending);
    assert p in multiset(ranked);
    assert ranked[..Min(k, |ranked|)] == ranked;
    EntriesMembers(ranked, p);
  }

  lemma EntriesMembers(ps: seq<(int, Assessment)>, p: (int, Assessment))
    requires p in ps
    ensures p.1 in Entries(ps)
  {
    var i :| 0 <= i < |ps| && ps[i] == p;
    assert Entries(ps)[i] == p.1;
  }

  /** Entries with equal scores keep their catalog order. */
  lemma TopKStable(catalog: seq<Assessment>, query: string, score: int)
    ensures WithKey(Ranked(catalog, query), ByScoreDescending, -score)
            == WithKey(Scored(catalog, Lower(query)), ByScoreDescending, -score)
  {
    SortStable(Scored(catalog, Lower(query)), ByScoreDescending, -score);
  }

  /** A query that names none of the five keywords gets no fallback
      recommendation at all. */
  lemma NoKeywordNoResults(catalog: seq<Assessment>, query: string, k: nat)
    requires var q := Lower(query);
             !Contains(q, "java") && !Contains(q, "python") && !Contains(q, "sql")
             && !Contains(q, "developer") && !Contains(q, "collaborat")
    ensures TopK(catalog, query, k) == []
  {
    ScoredNone(catalog, Lower(query));
  }

  lemma {:induction false} ScoredNone(s: seq<Assessment>, q: string)
    requires !Contains(q, "java") && !Contains(q, "python") && !Contains(q, "sql")
             && !Contains(q, "developer") && !Contains(q, "collaborat")
    ensures Scored(s, q) == []
    decreases |s|
  {
    if s != [] {
      ScoredNone(s[..|s| - 1], q);
    }
  }
}
