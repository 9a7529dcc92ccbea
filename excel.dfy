/** `create_dataset_from_excel` of extract_from_excel.py: one catalog record
    per distinct assessment URL of the spreadsheet, named after the URL's
    last path segment, then sample records up to 377 in all. Reading the
    sheet is left to the caller: the model receives the `Assessment_url`
    column, or `None` when the sheet or the column cannot be read. */
module ExcelDataset {
  import opened Wrappers
  import opened Text
  import opened Json
  import opened Ranking

  /** A cell of the URL column: empty (NaN), a text, or some other value
      (a number, say) that has no `rstrip`. */
  datatype UrlCell = Empty | Url(text: string) | Other

  const MinRecords: nat := 377

  /** `dropna()`: the non-empty cells, in order. */
  function NonEmpty(cells: seq<UrlCell>): (r: seq<UrlCell>)
    ensures forall c | c in r :: c in cells && !c.Empty?
    ensures forall c | c in cells && !c.Empty? :: c in r
  {
    if cells == [] then []
    else
      var init, last := cells[..|cells| - 1], cells[|cells| - 1];
      assert cells == init + [last];
      NonEmpty(init) + (if last.Empty? then [] else [last])
  }

  /** `unique()`: each value once, at the place it first occurs. */
  function Distinct<T(==)>(s: seq<T>): (r: seq<T>)
    ensures forall x | x in r :: x in s
    ensures forall x | x in s :: x in r
  {
    if s == [] then []
    else
      var init, last := s[..|s| - 1], s[|s| - 1];
      assert s == init + [last];
      Distinct(init) + (if last in init then [] else [last])
  }

  /** `unique()` keeps no value twice. */
  lemma {:induction false} DistinctUnique<T>(s: seq<T>)
    ensures forall i, j | 0 <= i < j < |Distinct(s)| :: Distinct(s)[i] != Distinct(s)[j]
    decreases |s|
  {
    if s != [] {
      var init, last := s[..|s| - 1], s[|s| - 1];
      DistinctUnique(init);
      var d, d' := Distinct(s), Distinct(init);
      assert d == d' + (if last in init then [] else [last]);
      forall i, j | 0 <= i < j < |d| ensures d[i] != d[j] {
        if j >= |d'| {
          assert d[j] == last && last !in init;
          assert d[i] == d'[i] && d'[i] in d';
          assert d'[i] in init;
        } else {
          assert d[i] == d'[i] && d[j] == d'[j];
          assert d'[i] != d'[j];
        }
      }
    }
  }

  /** Index of the first occurrence of `x` in `s`. */
  function FirstIndex<T(==)>(s: seq<T>, x: T): (i: nat)
    requires x in s
    ensures i < |s| && s[i] == x && x !in s[..i]
  {
    if s[0] == x then 0 else 1 + FirstIndex(s[1..], x)
  }

  /** `name_part.replace('-', ' ').replace('_', ' ').title()` of the last
      `/`-segment of the URL without its trailing slashes. `split('/')`
      never returns an empty list, so the `Assessment_{i+1}` fallback of
      the source is never taken. */
  function DisplayName(url: string): string {
    var parts := Split(RStripChar(url, '/'), '/');
    Title(ReplaceChar(ReplaceChar(parts[|parts| - 1], '-', ' '), '_', ' '))
  }

  /** A display name holds no dash, underscore or slash. */
  lemma DisplayNameClean(url: string)
    ensures var name := DisplayName(url);
            '-' !in name && '_' !in name && '/' !in name
  {
    var parts := Split(RStripChar(url, '/'), '/');
    var segment := parts[|parts| - 1];
    var spaced := ReplaceChar(ReplaceChar(segment, '-', ' '), '_', ' ');
    var name := Title(spaced);
    assert name == DisplayName(url);
    assert '/' !in segment;
    forall i | 0 <= i < |name| ensures name[i] != '-' && name[i] != '_' && name[i] != '/' {
      assert spaced[i] != '-' && spaced[i] != '_' && spaced[i] != '/';
    }
  }

  const DescriptionPrefix: string := "SHL assessment for "
  const SampleUrlPrefix: string := "https://www.shl.com/sample/assessment-"
  const SampleNamePrefix: string := "Sample Assessment "
  const SampleDescriptionPrefix: string := "Sample assessment #"
  const SampleDescriptionSuffix: string := " for testing"

  /** The record made for one URL. */
  function UrlRecord(url: string): Assessment {
    var name := DisplayName(url);
    Assessment(Some(url), Some(name), Some("No"), Some(DescriptionPrefix + name),
               Some(60), Some("Yes"), Some(JList(["K"])))
  }

  /** Padding record number `j`, counted from 1. */
  function SampleRecord(j: nat): Assessment {
    var n := NatToString(j);
    Assessment(Some(SampleUrlPrefix + n + "/"), Some(SampleNamePrefix + n), Some("No"),
               Some(SampleDescriptionPrefix + n + SampleDescriptionSuffix),
               Some(45), Some("Yes"), Some(JList(["K"])))
  }

  predicate AllText(cells: seq<UrlCell>) {
    forall i | 0 <= i < |cells| :: cells[i].Url?
  }

  function UrlRecords(cells: seq<UrlCell>): (r: seq<Assessment>)
    requires AllText(cells)
    ensures |r| == |cells|
    ensures forall i | 0 <= i < |cells| :: r[i] == UrlRecord(cells[i].text)
  {
    seq(|cells|, i requires 0 <= i < |cells| => UrlRecord(cells[i].text))
  }

  function Samples(n: nat): (r: seq<Assessment>)
    ensures |r| == n
    ensures forall j | 0 <= j < n :: r[j] == SampleRecord(j + 1)
  {
    seq(n, j requires 0 <= j < n => SampleRecord(j + 1))
  }

  /** The distinct non-empty URL cells, in first-occurrence order. */
  function Urls(column: seq<UrlCell>): seq<UrlCell> {
    Distinct(NonEmpty(column))
  }

  /** How many sample records pad `n` URL records. */
  function Padding(n: nat): (m: nat)
    ensures n + m == Max(n, MinRecords)
  {
    if n < MinRecords then MinRecords - n else 0
  }

  /** What `create_dataset_from_excel` returns: `None` when the column
      cannot be read or a URL cell is not a text (its `rstrip` raises),
      otherwise the URL records followed by the padding. */
  function Dataset(column: Option<seq<UrlCell>>): Option<seq<Assessment>> {
    match column
    case None => None
    case Some(cells) =>
      var urls := Urls(cells);
      if !AllText(urls) then None else Some(UrlRecords(urls) + Samples(Padding(|urls|)))
  }

  /** `create_dataset_from_excel` past the reading of the column: the loop
      over the URLs, then the padding loop. */
  method CreateDataset(column: Option<seq<UrlCell>>) returns (r: Option<seq<Assessment>>)
    ensures r == Dataset(column)
  {
    if column.None? {
      return None;
    }
    var urls := Urls(column.value);
    var head := UrlAssessments(urls);
    if head.None? {
      return None;
    }
    var assessments := PadWithSamples(head.value);
    return Some(assessments);
  }

  /** The loop that makes one record per URL; a cell that is not a text
      raises. */
  method UrlAssessments(urls: seq<UrlCell>) returns (r: Option<seq<Assessment>>)
    ensures r.Some? <==> AllText(urls)
    ensures r.Some? ==> r.value == UrlRecords(urls)
  {
    var assessments: seq<Assessment> := [];
    for i := 0 to |urls|
      invariant forall k | 0 <= k < i :: urls[k].Url?
      invariant |assessments| == i
      invariant forall k | 0 <= k < i :: assessments[k] == UrlRecord(urls[k].text)
    {
      match urls[i]
      case Url(url) =>
        assessments := assessments + [UrlRecord(url)];
      case _ =>
        assert !AllText(urls);
        return None;
    }
    return Some(assessments);
  }

  /** The loop that appends sample records until there are 377. */
  method PadWithSamples(head: seq<Assessment>) returns (r: seq<Assessment>)
    ensures r == head + Samples(Padding(|head|))
  {
    r := head;
    var missing := if |head| < MinRecords then MinRecords - |head| else 0;
    for j := 0 to missing
      invariant r == head + Samples(j)
    {
      SamplesStep(j);
      r := r + [SampleRecord(j + 1)];
    }
  }

  lemma SamplesStep(j: nat)
    ensures Samples(j + 1) == Samples(j) + [SampleRecord(j + 1)]
  {
  }

  /** Of two values of `d`, the earlier one first occurs earlier in `s`. */
  predicate InFirstOccurrenceOrder<T(==)>(s: seq<T>, d: seq<T>) {
    && (forall x | x in d :: x in s)
    && (forall i, j | 0 <= i < j < |d| :: FirstIndex(s, d[i]) < FirstIndex(s, d[j]))
  }

  /** `unique()` keeps first-occurrence order. */
  lemma {:induction false} DistinctOrder<T>(s: seq<T>)
    ensures InFirstOccurrenceOrder(s, Distinct(s))
    decreases |s|
  {
    if s != [] {
      var init, last := s[..|s| - 1], s[|s| - 1];
      DistinctOrder(init);
      var d, d' := Distinct(s), Distinct(init);
      assert d == d' + (if last in init then [] else [last]);
      forall i | 0 <= i < |d'| ensures d'[i] in init && FirstIndex(s, d'[i]) == FirstIndex(init, d'[i]) {
        assert d'[i] in d';
        FirstIndexPrefix(init, s, d'[i]);
      }
      if last !in init {
        assert s[..|init|] == init;
        FirstIndexAt(s, last, |init|);
      }
      forall i, j | 0 <= i < j < |d| ensures FirstIndex(s, d[i]) < FirstIndex(s, d[j]) {
        assert d[i] == d'[i];
        if j < |d'| {
          assert d[j] == d'[j];
        } else {
          assert d[j] == last;
        }
      }
    }
  }

  lemma {:induction false} FirstIndexPrefix<T>(init: seq<T>, s: seq<T>, x: T)
    requires init <= s && x in init
    ensures FirstIndex(s, x) == FirstIndex(init, x)
    decreases |init|
  {
    if init[0] != x {
      FirstIndexPrefix(init[1..], s[1..], x);
    }
  }

  lemma {:induction false} FirstIndexAt<T>(s: seq<T>, x: T, i: nat)
    requires i < |s| && s[i] == x && x !in s[..i]
    ensures FirstIndex(s, x) == i
    decreases i
  {
    if i > 0 {
      assert s[0] in s[..i];
      assert s[1..][i - 1] == x;
      assert s[1..][..i - 1] == s[1..i];
      FirstIndexAt(s[1..], x, i - 1);
    }
  }

  /** The dataset holds `max(len(urls), 377)` records: one per distinct
      URL, at its place in first-occurrence order and with the URL's own
      name and description, then the padding. */
  lemma DatasetShape(cells: seq<UrlCell>)
    requires Dataset(Some(cells)).Some?
    ensures var urls := Urls(cells);
            var r := Dataset(Some(cells)).value;
            && |r| == Max(|urls|, MinRecords)
            && (forall i | 0 <= i < |urls| ::
                  r[i].url == Some(urls[i].text)
                  && r[i].name == Some(DisplayName(urls[i].text))
                  && r[i].description == Some(DescriptionPrefix + DisplayName(urls[i].text))
                  && r[i].duration == Some(60))
            && (forall j | |urls| <= j < |r| :: r[j] == SampleRecord(j - |urls| + 1))
  {
    var urls := Urls(cells);
    var head, tail := UrlRecords(urls), Samples(Padding(|urls|));
    var r := Dataset(Some(cells)).value;
    assert r == head + tail;
    forall j | |urls| <= j < |r| ensures r[j] == SampleRecord(j - |urls| + 1) {
      assert r[j] == tail[j - |urls|];
    }
    forall i | 0 <= i < |urls|
      ensures r[i].url == Some(urls[i].text)
      ensures r[i].name == Some(DisplayName(urls[i].text))
      ensures r[i].description == Some(DescriptionPrefix + DisplayName(urls[i].text))
      ensures r[i].duration == Some(60)
    {
      assert r[i] == head[i];
    }
  }

  /** Record `i` of a dataset, below the number of URLs, is the record of
      the `i`-th distinct URL. */
  lemma DatasetUrlAt(cells: seq<UrlCell>, i: nat)
    requires Dataset(Some(cells)).Some? && i < |Urls(cells)|
    ensures Urls(cells)[i].Url? && i < |Dataset(Some(cells)).value|
    ensures Dataset(Some(cells)).value[i].url == Some(Urls(cells)[i].text)
  {
    var urls := Urls(cells);
    var head := UrlRecords(urls);
    assert Dataset(Some(cells)).value == head + Samples(Padding(|urls|));
    assert Dataset(Some(cells)).value[i] == head[i];
  }

  /** Every text URL of the column has exactly one record. */
  lemma OneRecordPerUrl(cells: seq<UrlCell>, url: string)
    requires Dataset(Some(cells)).Some? && Url(url) in cells
    ensures var urls := Urls(cells);
            var r := Dataset(Some(cells)).value;
            && |urls| <= |r|
            && (exists i | 0 <= i < |urls| :: r[i].url == Some(url))
            && (forall i, k | 0 <= i < k < |urls| :: r[i].url != r[k].url)
  {
    var urls := Urls(cells);
    var r := Dataset(Some(cells)).value;
    assert |urls| <= |r| by {
      assert r == UrlRecords(urls) + Samples(Padding(|urls|));
    }
    assert Url(url) in NonEmpty(cells);
    assert Url(url) in urls;
    var i :| 0 <= i < |urls| && urls[i] == Url(url);
    DatasetUrlAt(cells, i);
    DatasetUrlsDistinct(cells);
  }

  /** The URL records carry pairwise different URLs. */
  lemma DatasetUrlsDistinct(cells: seq<UrlCell>)
    requires Dataset(Some(cells)).Some?
    ensures var urls := Urls(cells);
            var r := Dataset(Some(cells)).value;
            |urls| <= |r| && forall i, k | 0 <= i < k < |urls| :: r[i].url != r[k].url
  {
    var urls := Urls(cells);
    var r := Dataset(Some(cells)).value;
    DistinctUnique(NonEmpty(cells));
    assert urls == Distinct(NonEmpty(cells));
    forall i, k | 0 <= i < k < |urls| ensures i < |r| && k < |r| && r[i].url != r[k].url {
      assert urls[i] != urls[k];
      DatasetUrlAt(cells, i);
      DatasetUrlAt(cells, k);
    }
  }

  /** `dropna()` keeps the column's order: dropping from a concatenation
      concatenates what each part keeps. */
  lemma {:induction false} NonEmptyAppend(a: seq<UrlCell>, b: seq<UrlCell>)
    ensures NonEmpty(a + b) == NonEmpty(a) + NonEmpty(b)
    decreases |b|
  {
    if b == [] {
      assert a + b == a;
    } else {
      var b' := b[..|b| - 1];
      assert (a + b)[..|a + b| - 1] == a + b';
      NonEmptyAppend(a, b');
    }
  }

  /** Of two values kept by `dropna()`, the one kept first also occurs
      first in the column. */
  lemma {:induction false} NonEmptyFirstOrder(cells: seq<UrlCell>, x: UrlCell, y: UrlCell)
    requires x in NonEmpty(cells) && y in NonEmpty(cells)
    requires FirstIndex(NonEmpty(cells), x) < FirstIndex(NonEmpty(cells), y)
    ensures FirstIndex(cells, x) < FirstIndex(cells, y)
    decreases |cells|
  {
    var c, rest := cells[0], cells[1..];
    assert cells == [c] + rest;
    NonEmptyAppend([c], rest);
    assert NonEmpty([c]) == (if c.Empty? then [] else [c]) by {
      assert [c][..0] == [];
    }
    var n, n' := NonEmpty(cells), NonEmpty(rest);
    if c.Empty? {
      assert n == n';
      NonEmptyFirstOrder(rest, x, y);
    } else if x != c {
      assert n == [c] + n' && n[1..] == n';
      assert y != c;
      NonEmptyFirstOrder(rest, x, y);
    }
  }

  /** The URLs are kept in the order of their first occurrence in the
      column itself. */
  lemma UrlsInColumnOrder(cells: seq<UrlCell>)
    ensures InFirstOccurrenceOrder(cells, Urls(cells))
  {
    var n, urls := NonEmpty(cells), Urls(cells);
    DistinctOrder(n);
    forall i, j | 0 <= i < j < |urls| ensures FirstIndex(cells, urls[i]) < FirstIndex(cells, urls[j]) {
      assert urls[i] in urls && urls[j] in urls;
      NonEmptyFirstOrder(cells, urls[i], urls[j]);
    }
  }

  /** Padding records are told apart by their number. */
  lemma SamplesDistinct(j: nat, k: nat)
    requires j != k
    ensures SampleRecord(j).url != SampleRecord(k).url
    ensures SampleRecord(j).name != SampleRecord(k).name
  {
    var a, b := NatToString(j), NatToString(k);
    var p, q := SampleUrlPrefix, SampleNamePrefix;
    var u, v := p + a + "/", p + b + "/";
    assert u[|p|..|u| - 1] == a && v[|p|..|v| - 1] == b;
    assert (q + a)[|q|..] == a && (q + b)[|q|..] == b;
  }
}
