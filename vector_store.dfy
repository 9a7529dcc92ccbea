/** `VectorStore` of vector_store.py: it normalises the `test_type` column of
    the catalog table, indexes every row in a persistent collection (only
    when that collection is empty) and answers similarity searches with
    records rebuilt from the stored metadata.

    The sentence encoder and Chroma's nearest-neighbour query are foreign
    code: they are parameters (`Encoder`, `Nearest`). The collection keeps
    its entries in a sequence, and `count()` is its length. */
module Store {
  import opened Wrappers
  import opened Text
  import opened Json
  import CsvCleaning

  /** The columns the code reads, by the names it uses for them: `name`,
      `url`, `description`, `test_type`, `duration`, `adaptive_support` and
      `remote_support`. The same names key the stored metadata. Other
      columns of the CSV file are never read and are not represented. */
  datatype Column = Name | Url | Description | TestType | Duration | AdaptiveSupport | RemoteSupport

  /** A cell as `pd.read_csv` gives it: missing (NaN), a text, or an
      integral number. */
  datatype Scalar = NaN | Str(text: string) | Num(value: int)

  /** The catalog table, column by column. */
  type Table = map<Column, seq<Scalar>>

  /** `str(cell)`. */
  function Show(c: Scalar): string {
    match c
    case NaN => "nan"
    case Str(s) => s
    case Num(n) => IntToString(n)
  }

  /** A metadata value: Chroma stores texts and numbers. */
  datatype MetaValue = MStr(text: string) | MInt(value: int)

  type Metadata = map<Column, MetaValue>

  /** What `_populate_store` prepares for one row: its id, the text to
      embed and the metadata. */
  datatype Record = Record(id: string, document: string, metadata: Metadata)

  /** An entry of the collection. */
  datatype Entry = Entry(id: string, embedding: seq<real>, document: string, metadata: Metadata)

  /** `model.encode` for one text. */
  type Encoder = string -> seq<real>

  /** `collection.query`: the positions of the nearest stored entries, best
      first, or `None` when the query raises. */
  type Nearest = (seq<Entry>, seq<real>, int) -> Option<seq<nat>>

  /** A record rebuilt by `search` from stored metadata. */
  datatype Found = Found(
    name: MetaValue,
    url: MetaValue,
    description: MetaValue,
    testType: Json,
    duration: MetaValue,
    adaptiveSupport: MetaValue,
    remoteSupport: MetaValue)

  const BatchSize: nat := 50
  const DescriptionLimit: nat := 500

  /** The required columns other than `test_type`, which always exists once
      `_fix_test_type_column` has run. */
  const ScalarColumns: seq<Column> :=
    [Name, Url, Description, Duration, AdaptiveSupport, RemoteSupport]

  // ---------------------------------------------------------------------
  // _fix_test_type_column

  /** The list one `test_type` cell becomes: NaN and blank cells give
      `['K']`; a bracketed text has its single quotes turned into double
      quotes and is decoded (a list is kept, another value is wrapped, a
      decoding error gives `['K']`); any other text is wrapped as it is. */
  function FixCell(cell: Scalar, loads: Decoder): (r: seq<string>)
    ensures r == [] ==>
              var t := Strip(Show(cell));
              CsvCleaning.Bracketed(t) && loads(ReplaceChar(t, '\'', '"')) == Some(JList([]))
  {
    if cell.NaN? then ["K"]
    else
      var t := Strip(Show(cell));
      if t == [] then ["K"]
      else if CsvCleaning.Bracketed(t) then
        match loads(ReplaceChar(t, '\'', '"'))
        case Some(JList(items)) => items
        case Some(JScalar(shown)) => [shown]
        case None => ["K"]
      else [t]
  }

  /** The first `n` cells, fixed one by one in row order. */
  function FixedCells(cells: seq<Scalar>, n: nat, loads: Decoder): (r: seq<seq<string>>)
    requires n <= |cells|
    ensures |r| == n
    ensures forall i | 0 <= i < n :: r[i] == FixCell(cells[i], loads)
  {
    if n == 0 then [] else FixedCells(cells, n - 1, loads) + [FixCell(cells[n - 1], loads)]
  }

  /** The fixed column: one list per row, in row order; every row is `['K']`
      when the table has no `test_type` column. */
  function FixedColumn(cols: Table, rows: nat, loads: Decoder): (r: seq<seq<string>>)
    requires TestType in cols ==> |cols[TestType]| == rows
    ensures |r| == rows
    ensures TestType !in cols ==> forall i | 0 <= i < rows :: r[i] == ["K"]
    ensures TestType in cols ==> forall i | 0 <= i < rows :: r[i] == FixCell(cols[TestType][i], loads)
  {
    if TestType in cols then FixedCells(cols[TestType], rows, loads) else seq(rows, i => ["K"])
  }

  // ---------------------------------------------------------------------
  // _populate_store: missing columns

  /** The value a missing column is filled with. */
  function DefaultCell(col: Column): Scalar {
    if col == Duration then Num(60)
    else if col == AdaptiveSupport || col == RemoteSupport then Str("Yes")
    else Str("")
  }

  function FillColumn(cols: Table, col: Column, rows: nat): Table {
    if col in cols then cols else cols[col := seq(rows, i => DefaultCell(col))]
  }

  /** The table after the missing columns among `names` are filled in. */
  function FillColumns(cols: Table, names: seq<Column>, rows: nat): Table
    decreases |names|
  {
    if names == [] then cols else FillColumns(FillColumn(cols, names[0], rows), names[1..], rows)
  }

  /** Filling keeps the columns that exist and adds each missing one with
      its default in every row. */
  lemma {:induction false} FillColumnsShape(cols: Table, names: seq<Column>, rows: nat)
    requires forall c | c in cols :: |cols[c]| == rows
    ensures var r := FillColumns(cols, names, rows);
            && (forall c | c in r :: |r[c]| == rows)
            && (forall c | c in cols :: c in r && r[c] == cols[c])
            && (forall c | c in names :: c in r)
            && (forall c | c in names && c !in cols :: forall i | 0 <= i < rows :: r[c][i] == DefaultCell(c))
            && (forall c | c in r :: c in cols || c in names)
    decreases |names|
  {
    if names != [] {
      var next := FillColumn(cols, names[0], rows);
      FillColumnsShape(next, names[1..], rows);
      forall c | c in names ensures c == names[0] || c in names[1..] {
        var k :| 0 <= k < |names| && names[k] == c;
        if k > 0 {
          assert names[1..][k - 1] == c;
        }
      }
    }
  }

  predicate HasColumn(cols: Table, c: Column, rows: nat) {
    c in cols && |cols[c]| == rows
  }

  /** Every required column other than `test_type` is there, with one cell
      per row. */
  predicate Complete(cols: Table, rows: nat) {
    && HasColumn(cols, Name, rows) && HasColumn(cols, Url, rows) && HasColumn(cols, Description, rows)
    && HasColumn(cols, Duration, rows) && HasColumn(cols, AdaptiveSupport, rows)
    && HasColumn(cols, RemoteSupport, rows)
  }

  /** The table once `_populate_store` has filled in the missing required
      columns: every required column has one cell per row. */
  function Filled(cols: Table, rows: nat): (r: Table)
    requires forall c | c in cols :: |cols[c]| == rows
    ensures Complete(r, rows)
    ensures forall c | c in r :: |r[c]| == rows
  {
    FillColumnsShape(cols, ScalarColumns, rows);
    assert ScalarColumns[0] == Name && ScalarColumns[1] == Url && ScalarColumns[2] == Description;
    assert ScalarColumns[3] == Duration && ScalarColumns[4] == AdaptiveSupport && ScalarColumns[5] == RemoteSupport;
    FillColumns(cols, ScalarColumns, rows)
  }

  // ---------------------------------------------------------------------
  // _populate_store: documents, metadata, ids

  /** The filled table has every required column, with one cell per row,
      and the fixed `test_type` column has one list per row. */
  predicate Ready(cols: Table, testTypes: seq<seq<string>>, rows: nat) {
    Complete(cols, rows) && |testTypes| == rows
  }

  /** `int(row['duration'])` for a present cell, 60 for NaN. */
  function DurationValue(cell: Scalar): Result<int> {
    match cell
    case NaN => Success(60)
    case Num(n) => Success(n)
    case Str(s) => ParseInt(s)
  }

  /** `str(description)[:500]`. */
  function Truncated(s: string): (r: string)
    ensures |r| == Min(DescriptionLimit, |s|) && r <= s
    ensures |s| <= DescriptionLimit ==> r == s
  {
    s[..Min(DescriptionLimit, |s|)]
  }

  /** The text embedded for a row: name, description and the test types,
      separated by blanks. */
  function Document(name: Scalar, description: Scalar, testTypes: seq<string>): string {
    Show(name) + " " + Show(description) + " " + Join(testTypes, ' ')
  }

  predicate RowLoads(cols: Table, testTypes: seq<seq<string>>, rows: nat, i: nat)
    requires Ready(cols, testTypes, rows) && i < rows
  {
    DurationValue(cols[Duration][i]).Success?
  }

  /** The metadata `_populate_store` stores for one row. */
  function MetadataMap(name: string, url: string, description: string, testTypes: seq<string>,
                       duration: int, adaptive: string, remote: string): Metadata
  {
    map[
      Name := MStr(name),
      Url := MStr(url),
      Description := MStr(description),
      TestType := MStr(Dumps(testTypes)),
      Duration := MInt(duration),
      AdaptiveSupport := MStr(adaptive),
      RemoteSupport := MStr(remote)]
  }

  /** The metadata of row `i`: texts as `str()` gives them, the description
      cut to 500 characters, the test types as JSON, and the defaults of NaN
      cells. */
  function RowMetadata(cols: Table, testTypes: seq<seq<string>>, rows: nat, i: nat): Metadata
    requires Ready(cols, testTypes, rows) && i < rows && RowLoads(cols, testTypes, rows, i)
  {
    var adaptive := cols[AdaptiveSupport][i];
    var remote := cols[RemoteSupport][i];
    MetadataMap(
      Show(cols[Name][i]),
      Show(cols[Url][i]),
      Truncated(Show(cols[Description][i])),
      testTypes[i],
      DurationValue(cols[Duration][i]).value,
      if adaptive.NaN? then "No" else Show(adaptive),
      if remote.NaN? then "Yes" else Show(remote))
  }

  function RowRecord(cols: Table, testTypes: seq<seq<string>>, rows: nat, i: nat): Record
    requires Ready(cols, testTypes, rows) && i < rows && RowLoads(cols, testTypes, rows, i)
  {
    Record(NatToString(i),
           Document(cols[Name][i], cols[Description][i], testTypes[i]),
           RowMetadata(cols, testTypes, rows, i))
  }

  predicate AllRowsLoad(cols: Table, testTypes: seq<seq<string>>, rows: nat)
    requires Ready(cols, testTypes, rows)
  {
    forall i | 0 <= i < rows :: RowLoads(cols, testTypes, rows, i)
  }

  /** The records of the first `n` rows, when each of them loads. */
  function RecordsBelow(cols: Table, testTypes: seq<seq<string>>, rows: nat, n: nat): (r: seq<Record>)
    requires Ready(cols, testTypes, rows) && n <= rows
    requires forall k | 0 <= k < n :: RowLoads(cols, testTypes, rows, k)
    ensures |r| == n
  {
    if n == 0 then [] else RecordsBelow(cols, testTypes, rows, n - 1) + [RowRecord(cols, testTypes, rows, n - 1)]
  }

  /** Record `k` of the first `n` is the record of row `k`. */
  lemma {:induction false} RecordsBelowAt(cols: Table, testTypes: seq<seq<string>>, rows: nat, n: nat, k: nat)
    requires Ready(cols, testTypes, rows) && k < n <= rows
    requires forall j | 0 <= j < n :: RowLoads(cols, testTypes, rows, j)
    ensures RecordsBelow(cols, testTypes, rows, n)[k] == RowRecord(cols, testTypes, rows, k)
    decreases n
  {
    if k < n - 1 {
      RecordsBelowAt(cols, testTypes, rows, n - 1, k);
    }
  }

  /** The records of all rows, or the ValueError of a duration cell that
      `int()` rejects. */
  function Records(cols: Table, testTypes: seq<seq<string>>, rows: nat): (r: Result<seq<Record>>)
    requires Ready(cols, testTypes, rows)
    ensures r.Success? <==> AllRowsLoad(cols, testTypes, rows)
    ensures r.Success? ==> |r.value| == rows
    ensures r.Success? ==> forall i | 0 <= i < rows :: r.value[i] == RowRecord(cols, testTypes, rows, i)
  {
    if AllRowsLoad(cols, testTypes, rows) then
      var recs := RecordsBelow(cols, testTypes, rows, rows);
      assert forall i | 0 <= i < rows :: recs[i] == RowRecord(cols, testTypes, rows, i) by {
        forall i | 0 <= i < rows ensures recs[i] == RowRecord(cols, testTypes, rows, i) {
          RecordsBelowAt(cols, testTypes, rows, rows, i);
        }
      }
      Success(recs)
    else Failure(ValueError)
  }

  /** The entries stored for some records, each with its embedding. */
  function Stored(records: seq<Record>, encode: Encoder): (r: seq<Entry>)
    ensures |r| == |records|
    ensures forall k | 0 <= k < |records| ::
              r[k] == Entry(records[k].id, encode(records[k].document), records[k].document, records[k].metadata)
  {
    seq(|records|, k requires 0 <= k < |records| =>
      Entry(records[k].id, encode(records[k].document), records[k].document, records[k].metadata))
  }

  /** No two rows share an id. */
  lemma IdsDistinct(cols: Table, testTypes: seq<seq<string>>, rows: nat)
    requires Ready(cols, testTypes, rows) && Records(cols, testTypes, rows).Success?
    ensures var recs := Records(cols, testTypes, rows).value;
            forall i, j | 0 <= i < j < rows :: recs[i].id != recs[j].id
  {
    var recs := Records(cols, testTypes, rows).value;
    forall i, j | 0 <= i < j < rows ensures recs[i].id != recs[j].id {
      assert DigitsValue(NatToString(i)) != DigitsValue(NatToString(j));
    }
  }

  // ---------------------------------------------------------------------
  // _populate_store: batches

  /** The slices `s[i:i+size]`, `s[i+size:i+2*size]`, ... up to the end. */
  function ChunksFrom<T>(s: seq<T>, i: nat, size: nat): seq<seq<T>>
    requires size > 0
    decreases |s| - i
  {
    if i >= |s| then [] else [s[i..Min(i + size, |s|)]] + ChunksFrom(s, i + size, size)
  }

  /** The batches of 50 that `_populate_store` sends. */
  function Batches<T>(s: seq<T>): seq<seq<T>> {
    ChunksFrom(s, 0, BatchSize)
  }

  /** The progress figures printed after each batch. */
  function ProgressFrom(n: nat, i: nat): seq<nat>
    decreases n - i
  {
    if i >= n then [] else [Min(i + BatchSize, n)] + ProgressFrom(n, i + BatchSize)
  }

  function Flatten<T>(batches: seq<seq<T>>): seq<T> {
    if batches == [] then [] else batches[0] + Flatten(batches[1..])
  }

  /** Chunking from `i` sends every later item exactly once, in order, in
      non-empty chunks of at most `size` items. */
  lemma {:induction false} ChunksFromCover<T>(s: seq<T>, i: nat, size: nat)
    requires size > 0 && i <= |s|
    ensures Flatten(ChunksFrom(s, i, size)) == s[i..]
    ensures forall b | b in ChunksFrom(s, i, size) :: 0 < |b| <= size
    decreases |s| - i
  {
    if i < |s| {
      var m := Min(i + size, |s|);
      ChunksFromCover(s, m, size);
      if m < i + size {
        assert ChunksFrom(s, i + size, size) == [] == ChunksFrom(s, m, size);
      }
      var cs := ChunksFrom(s, i, size);
      assert cs[1..] == ChunksFrom(s, m, size);
      assert s[i..] == s[i..m] + s[m..];
    }
  }

  /** Every item is sent once, in order, and every batch holds 1 to 50
      items. */
  lemma BatchesCover<T>(s: seq<T>)
    ensures Flatten(Batches(s)) == s
    ensures forall b | b in Batches(s) :: 0 < |b| <= BatchSize
  {
    ChunksFromCover(s, 0, BatchSize);
  }

  /** The progress figure printed after batch `k` is the number of items
      sent by then: `min(50 * (k + 1), n)`; there is one figure per batch. */
  lemma {:induction false} ProgressCounts<T>(s: seq<T>, i: nat)
    requires i <= |s|
    ensures |ProgressFrom(|s|, i)| == |ChunksFrom(s, i, BatchSize)|
    ensures forall k | 0 <= k < |ProgressFrom(|s|, i)| ::
              ProgressFrom(|s|, i)[k] == Min(i + BatchSize * (k + 1), |s|)
    ensures forall k | 0 <= k < |ProgressFrom(|s|, i)| ::
              ProgressFrom(|s|, i)[k] == i + |Flatten(ChunksFrom(s, i, BatchSize)[..k + 1])|
    decreases |s| - i
  {
    if i < |s| {
      var m := Min(i + BatchSize, |s|);
      ProgressCounts(s, m);
      if m < i + BatchSize {
        assert ProgressFrom(|s|, i + BatchSize) == [] == ProgressFrom(|s|, m);
        assert ChunksFrom(s, i + BatchSize, BatchSize) == [] == ChunksFrom(s, m, BatchSize);
      }
      var p, cs := ProgressFrom(|s|, i), ChunksFrom(s, i, BatchSize);
      assert p[1..] == ProgressFrom(|s|, m);
      assert cs[1..] == ChunksFrom(s, m, BatchSize);
      forall k | 0 <= k < |ProgressFrom(|s|, i)|
        ensures ProgressFrom(|s|, i)[k] == Min(i + BatchSize * (k + 1), |s|)
                == i + |Flatten(ChunksFrom(s, i, BatchSize)[..k + 1])|
      {
        assert cs[..k + 1][0] == cs[0];
        assert cs[..k + 1][1..] == cs[1..][..k];
        assert Flatten(cs[..k + 1]) == cs[0] + Flatten(cs[1..][..k]);
        assert |cs[0]| == m - i;
        if k > 0 {
          assert p[k] == p[1..][k - 1];
          assert m == i + BatchSize;
        } else {
          assert cs[1..][..0] == [];
        }
      }
    }
  }

  /** One turn of the batch loop: the batch sent from `i` is the next
      chunk of the stored entries, and the next progress figure is its end. */
  lemma BatchStep(records: seq<Record>, encode: Encoder, i: nat)
    requires i < |records|
    ensures var all, m := Stored(records, encode), Min(i + BatchSize, |records|);
            && Stored(records[i..m], encode) == all[i..m]
            && all[..m] == all[..i] + all[i..m]
            && ChunksFrom(all, i, BatchSize) == [all[i..m]] + ChunksFrom(all, i + BatchSize, BatchSize)
            && ProgressFrom(|records|, i) == [m] + ProgressFrom(|records|, i + BatchSize)
  {
    var all, m := Stored(records, encode), Min(i + BatchSize, |records|);
    assert Stored(records[i..m], encode) == all[i..m];
  }

  // ---------------------------------------------------------------------
  // search

  /** `test_type` of a search result: the decoded metadata text, or `['K']`
      when it is absent or does not decode. */
  function TestTypeOf(meta: Metadata, loads: Decoder): Json {
    if TestType in meta && meta[TestType].MStr? then
      loads(meta[TestType].text).GetOr(JList(["K"]))
    else JList(["K"])
  }

  /** The record `search` builds from one metadata, or `None` for the
      KeyError of a missing name, url or description. */
  function FoundOf(meta: Metadata, loads: Decoder): (r: Option<Found>)
    ensures r.Some? <==> Name in meta && Url in meta && Description in meta
  {
    if Name in meta && Url in meta && Description in meta then
      Some(Found(meta[Name], meta[Url], meta[Description], TestTypeOf(meta, loads),
                 if Duration in meta then meta[Duration] else MInt(60),
                 if AdaptiveSupport in meta then meta[AdaptiveSupport] else MStr("No"),
                 if RemoteSupport in meta then meta[RemoteSupport] else MStr("Yes")))
    else None
  }

  /** The oracle's reply to a query for `requested` results is either an
      error or at most that many positions of stored entries. */
  predicate ReplyFits(reply: Option<seq<nat>>, count: nat, requested: int) {
    reply.Some? ==> |reply.value| <= requested && forall k | 0 <= k < |reply.value| :: reply.value[k] < count
  }

  /** What `search` returns: nothing for an empty store or a failed query,
      otherwise one record per position of the reply, or nothing at all
      when one metadata lacks a required key. */
  function SearchResult(entries: seq<Entry>, embedding: seq<real>, n: int, nearest: Nearest, loads: Decoder): (r: seq<Found>)
    requires ReplyFits(nearest(entries, embedding, Min(n, |entries|)), |entries|, Min(n, |entries|))
    ensures |r| <= Max(0, Min(n, |entries|))
  {
    if |entries| == 0 then []
    else
      match nearest(entries, embedding, Min(n, |entries|))
      case None => []
      case Some(positions) =>
        if forall k | 0 <= k < |positions| :: FoundOf(entries[positions[k]].metadata, loads).Some? then
          seq(|positions|, k requires 0 <= k < |positions| => FoundOf(entries[positions[k]].metadata, loads).value)
        else []
  }

  // ---------------------------------------------------------------------
  // the collection and the store

  /** The Chroma collection: its entries, and (for the proofs) the batches
      it has received. */
  class Collection {
    var entries: seq<Entry>
    ghost var batches: seq<seq<Entry>>

    constructor(stored: seq<Entry>)
      ensures entries == stored && batches == []
    {
      entries := stored;
      batches := [];
    }

    function Count(): nat
      reads this
    {
      |entries|
    }

    /** `collection.add`: the batch is appended. */
    method Add(batch: seq<Entry>)
      modifies this
      ensures entries == old(entries) + batch
      ensures batches == old(batches) + [batch]
    {
      entries := entries + batch;
      batches := batches + [batch];
    }
  }

  class VectorStore {
    /** The scalar columns of the catalog table. */
    var columns: Table
    var rowCount: nat
    /** The fixed `test_type` column, which supersedes the raw one in
        `columns`. */
    var testTypes: seq<seq<string>>
    var collection: Collection
    /** The progress figures printed while populating. */
    var progress: seq<nat>
    /** The exception that escaped population, if any. */
    var loadError: Option<Error>

    predicate Valid()
      reads this
    {
      forall c | c in columns :: |columns[c]| == rowCount
    }

    /** `__init__` over a table read from the CSV file and an existing
        collection: the `test_type` column is fixed, and the collection is
        populated only when it is empty. */
    constructor(csv: Table, rows: nat, store: Collection, encode: Encoder, loads: Decoder)
      requires forall c | c in csv :: |csv[c]| == rows
      modifies store
      ensures collection == store && rowCount == rows && Valid()
      ensures testTypes == FixedColumn(csv, rows, loads)
      ensures old(store.Count()) != 0 ==> store.entries == old(store.entries) && loadError == None
      ensures old(store.Count()) == 0 ==>
                match Records(Filled(csv, rows), testTypes, rows)
                case Failure(e) => loadError == Some(e) && store.entries == []
                case Success(recs) => loadError == None && store.entries == Stored(recs, encode)
    {
      columns := csv;
      rowCount := rows;
      testTypes := [];
      collection := store;
      progress := [];
      loadError := None;
      new;
      FixTestTypeColumn(loads);
      if collection.Count() == 0 {
        Populate(encode);
      }
    }

    /** `_fix_test_type_column`: the loop that turns each cell into a list. */
    method FixTestTypeColumn(loads: Decoder)
      requires Valid()
      modifies this
      ensures rowCount == old(rowCount) && collection == old(collection)
      ensures testTypes == FixedColumn(old(columns), rowCount, loads)
      ensures columns == old(columns)
      ensures Valid()
      ensures progress == old(progress) && loadError == old(loadError)
    {
      if TestType !in columns {
        testTypes := seq(rowCount, i => ["K"]);
        return;
      }
      var cells := columns[TestType];
      var fixed: seq<seq<string>> := [];
      for i := 0 to |cells|
        invariant fixed == FixedCells(cells, i, loads)
      {
        fixed := fixed + [FixCell(cells[i], loads)];
      }
      testTypes := fixed;
    }

    /** `_populate_store`: fill the missing columns, prepare one record per
        row, then send them in batches of 50. A duration cell that `int()`
        rejects raises before anything is sent. */
    method Populate(encode: Encoder)
      requires Valid() && |testTypes| == rowCount
      modifies this, collection
      ensures collection == old(collection) && rowCount == old(rowCount) && testTypes == old(testTypes)
      ensures columns == Filled(old(columns), old(rowCount))
      ensures Ready(columns, testTypes, rowCount) && Valid()
      ensures match Records(columns, testTypes, rowCount)
              case Failure(e) =>
                && loadError == Some(e)
                && collection.entries == old(collection.entries)
                && collection.batches == old(collection.batches)
                && progress == old(progress)
              case Success(recs) =>
                && loadError == old(loadError)
                && collection.entries == old(collection.entries) + Stored(recs, encode)
                && collection.batches == old(collection.batches) + Batches(Stored(recs, encode))
                && progress == old(progress) + ProgressFrom(rowCount, 0)
    {
      FillMissingColumns();
      var records := PrepareRecords();
      match records
      case Failure(e) =>
        loadError := Some(e);
      case Success(recs) =>
        var printed := SendBatches(recs, encode);
        progress := progress + printed;
    }

    /** The loop that gives each missing required column its default. */
    method FillMissingColumns()
      requires Valid()
      modifies this
      ensures columns == Filled(old(columns), old(rowCount))
      ensures rowCount == old(rowCount) && testTypes == old(testTypes) && collection == old(collection)
      ensures progress == old(progress) && loadError == old(loadError)
    {
      var cols := columns;
      for k := 0 to |ScalarColumns|
        invariant FillColumns(cols, ScalarColumns[k..], rowCount) == FillColumns(columns, ScalarColumns, rowCount)
      {
        assert ScalarColumns[k..][1..] == ScalarColumns[k + 1..];
        var col := ScalarColumns[k];
        if col !in cols {
          cols := cols[col := seq(rowCount, i => DefaultCell(col))];
        }
      }
      assert ScalarColumns[|ScalarColumns|..] == [];
      columns := cols;
    }

    /** The loop over the rows that builds the documents, metadata and ids;
        `int()` of a duration text that is not a number raises. */
    method PrepareRecords() returns (records: Result<seq<Record>>)
      requires Ready(columns, testTypes, rowCount)
      ensures records == Records(columns, testTypes, rowCount)
    {
      var cols, types, rows := columns, testTypes, rowCount;
      var recs: seq<Record> := [];
      for idx := 0 to rows
        invariant forall k | 0 <= k < idx :: RowLoads(cols, types, rows, k)
        invariant recs == RecordsBelow(cols, types, rows, idx)
      {
        var duration := DurationValue(cols[Duration][idx]);
        if duration.Failure? {
          assert !RowLoads(cols, types, rows, idx);
          return Failure(duration.error);
        }
        assert RowLoads(cols, types, rows, idx);
        assert forall k | 0 <= k < idx + 1 :: RowLoads(cols, types, rows, k);
        recs := recs + [RowRecord(cols, types, rows, idx)];
      }
      return Success(recs);
    }

    /** The batch loop: each slice of 50 records is embedded and added;
        the result is the list of progress figures printed after each. */
    method SendBatches(records: seq<Record>, encode: Encoder) returns (printed: seq<nat>)
      modifies collection
      ensures collection.entries == old(collection.entries) + Stored(records, encode)
      ensures collection.batches == old(collection.batches) + Batches(Stored(records, encode))
      ensures printed == ProgressFrom(|records|, 0)
    {
      ghost var all := Stored(records, encode);
      ghost var sent: seq<seq<Entry>> := [];
      printed := [];
      var n := |records|;
      var i := 0;
      while i < n
        invariant sent + ChunksFrom(all, i, BatchSize) == Batches(all)
        invariant printed + ProgressFrom(n, i) == ProgressFrom(n, 0)
        invariant collection.entries == old(collection.entries) + all[..Min(i, n)]
        invariant collection.batches == old(collection.batches) + sent
        decreases n - i
      {
        var m := Min(i + BatchSize, n);
        var batch := Stored(records[i..m], encode);
        BatchStep(records, encode, i);
        collection.Add(batch);
        sent := sent + [batch];
        printed := printed + [m];
        i := i + BatchSize;
      }
      assert all[..n] == all;
    }

    /** `search`: an empty store answers nothing; otherwise the query asks
        for `min(n_results, count)` neighbours and the records are rebuilt
        from their metadata. */
    method Search(query: string, n: int, encode: Encoder, nearest: Nearest, loads: Decoder) returns (r: seq<Found>)
      requires ReplyFits(nearest(collection.entries, encode(query), Min(n, collection.Count())),
                         collection.Count(), Min(n, collection.Count()))
      ensures r == SearchResult(collection.entries, encode(query), n, nearest, loads)
    {
      if collection.Count() == 0 {
        return [];
      }
      var entries := collection.entries;
      var reply := nearest(entries, encode(query), Min(n, collection.Count()));
      if reply.None? {
        return [];
      }
      var positions := reply.value;
      r := [];
      for k := 0 to |positions|
        invariant |r| == k
        invariant forall j | 0 <= j < k :: FoundOf(entries[positions[j]].metadata, loads) == Some(r[j])
      {
        var found := FoundOf(entries[positions[k]].metadata, loads);
        if found.None? {
          return [];
        }
        r := r + [found.value];
      }
    }
  }

  // ---------------------------------------------------------------------
  // properties

  /** The rules of `FixCell`: NaN and blank cells, a decoded list (even an
      empty one), a decoding error, and plain text. */
  lemma FixCellRules(cell: Scalar, loads: Decoder)
    ensures cell.NaN? || Strip(Show(cell)) == "" ==> FixCell(cell, loads) == ["K"]
    ensures var t := Strip(Show(cell));
            !cell.NaN? && t != "" && !CsvCleaning.Bracketed(t) ==> FixCell(cell, loads) == [t]
    ensures var t := Strip(Show(cell));
            !cell.NaN? && CsvCleaning.Bracketed(t) && loads(ReplaceChar(t, '\'', '"')).None? ==>
              FixCell(cell, loads) == ["K"]
    ensures var t := Strip(Show(cell));
            forall items | !cell.NaN? && CsvCleaning.Bracketed(t) && loads(ReplaceChar(t, '\'', '"')) == Some(JList(items)) ::
              FixCell(cell, loads) == items
  {
  }

  /** The two cleaning cascades disagree on a word such as `Knowledge`:
      `clean_csv.py` gives `['K']`, the store keeps the word. */
  lemma CascadesDisagreeOnWords(w: string, loads: Decoder)
    requires |w| >= 2 && !IsSpace(w[0]) && !IsSpace(w[|w| - 1])
    requires w[0] != '[' && ',' !in w
    ensures FixCell(Str(w), loads) == [w]
    ensures CsvCleaning.CleanTestType(CsvCleaning.Present(w), loads) == ["K"]
  {
    StripUnchanged(w);
    CsvCleaning.OtherTextIsK(w, loads);
  }

  /** A missing column is filled with its default in every row, and the
      columns that exist are kept. */
  lemma FilledDefaults(cols: Table, rows: nat)
    requires forall c | c in cols :: |cols[c]| == rows
    ensures var r := Filled(cols, rows);
            && (forall c | c in cols :: r[c] == cols[c])
            && (Duration !in cols ==> forall i | 0 <= i < rows :: r[Duration][i] == Num(60))
            && (AdaptiveSupport !in cols ==> forall i | 0 <= i < rows :: r[AdaptiveSupport][i] == Str("Yes"))
            && (RemoteSupport !in cols ==> forall i | 0 <= i < rows :: r[RemoteSupport][i] == Str("Yes"))
            && (Name !in cols ==> forall i | 0 <= i < rows :: r[Name][i] == Str(""))
  {
    FillColumnsShape(cols, ScalarColumns, rows);
    assert ScalarColumns[0] == Name && ScalarColumns[3] == Duration;
    assert ScalarColumns[4] == AdaptiveSupport && ScalarColumns[5] == RemoteSupport;
  }

  /** `search` rebuilds exactly what `_populate_store` stored: every value
      as written, and the `test_type` list itself when the decoder reads
      back `json.dumps`. */
  lemma FoundOfMetadata(name: string, url: string, description: string, testTypes: seq<string>,
                        duration: int, adaptive: string, remote: string, loads: Decoder)
    requires ReadsDumps(loads)
    ensures FoundOf(MetadataMap(name, url, description, testTypes, duration, adaptive, remote), loads)
            == Some(Found(MStr(name), MStr(url), MStr(description), JList(testTypes),
                          MInt(duration), MStr(adaptive), MStr(remote)))
  {
    assert loads(Dumps(testTypes)) == Some(JList(testTypes));
  }

  /** The record `search` should rebuild for row `p` of the table. */
  function RowFound(cols: Table, testTypes: seq<seq<string>>, rows: nat, p: nat): Found
    requires Ready(cols, testTypes, rows) && p < rows && RowLoads(cols, testTypes, rows, p)
  {
    var adaptive := cols[AdaptiveSupport][p];
    var remote := cols[RemoteSupport][p];
    Found(MStr(Show(cols[Name][p])), MStr(Show(cols[Url][p])),
          MStr(Truncated(Show(cols[Description][p]))), JList(testTypes[p]),
          MInt(DurationValue(cols[Duration][p]).value),
          MStr(if adaptive.NaN? then "No" else Show(adaptive)),
          MStr(if remote.NaN? then "Yes" else Show(remote)))
  }

  /** The metadata stored for a row reads back as that row. */
  lemma RowReadsBack(cols: Table, testTypes: seq<seq<string>>, rows: nat, p: nat, loads: Decoder)
    requires Ready(cols, testTypes, rows) && p < rows && RowLoads(cols, testTypes, rows, p)
    requires ReadsDumps(loads)
    ensures FoundOf(RowMetadata(cols, testTypes, rows, p), loads) == Some(RowFound(cols, testTypes, rows, p))
  {
    var adaptive := cols[AdaptiveSupport][p];
    var remote := cols[RemoteSupport][p];
    FoundOfMetadata(Show(cols[Name][p]), Show(cols[Url][p]),
      Truncated(Show(cols[Description][p])), testTypes[p],
      DurationValue(cols[Duration][p]).value,
      if adaptive.NaN? then "No" else Show(adaptive),
      if remote.NaN? then "Yes" else Show(remote), loads);
  }

  /** Searching a store populated from a table gives, for each position
      of the reply, the record of that row: its name, url and description
      as stored, its `test_type` list itself, and its duration and support
      values. */
  lemma SearchReadsBack(cols: Table, testTypes: seq<seq<string>>, rows: nat, recs: seq<Record>,
                        entries: seq<Entry>, encode: Encoder, embedding: seq<real>, n: int,
                        nearest: Nearest, loads: Decoder)
    requires Ready(cols, testTypes, rows) && Records(cols, testTypes, rows) == Success(recs)
    requires entries == Stored(recs, encode) && ReadsDumps(loads)
    requires ReplyFits(nearest(entries, embedding, Min(n, rows)), rows, Min(n, rows))
    ensures var reply := nearest(entries, embedding, Min(n, rows));
            var r := SearchResult(entries, embedding, n, nearest, loads);
            rows > 0 && reply.Some? ==>
              && |r| == |reply.value|
              && forall k | 0 <= k < |r| :: r[k] == RowFound(cols, testTypes, rows, reply.value[k])
  {
    var reply := nearest(entries, embedding, Min(n, rows));
    if rows > 0 && reply.Some? {
      var positions := reply.value;
      forall k | 0 <= k < |positions|
        ensures FoundOf(entries[positions[k]].metadata, loads) == Some(RowFound(cols, testTypes, rows, positions[k]))
      {
        var p := positions[k];
        assert entries[p].metadata == RowMetadata(cols, testTypes, rows, p);
        RowReadsBack(cols, testTypes, rows, p, loads);
      }
    }
  }

  /** Any search answers at most `min(n_results, count)` records, and none
      from an empty store or a failed query. */
  lemma SearchBounds(entries: seq<Entry>, embedding: seq<real>, n: int, nearest: Nearest, loads: Decoder)
    requires ReplyFits(nearest(entries, embedding, Min(n, |entries|)), |entries|, Min(n, |entries|))
    ensures var r := SearchResult(entries, embedding, n, nearest, loads);
            && |r| <= Max(0, Min(n, |entries|))
            && (entries == [] || nearest(entries, embedding, Min(n, |entries|)).None? ==> r == [])
  {
  }
}
