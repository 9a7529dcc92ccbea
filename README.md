# SHL assessment recommender: the retrieval logic, in Dafny

The service maps a free-text hiring query to a short list of SHL skills
assessments. This project models the deterministic logic around retrieval
and proves properties about it:

- the query post-processing of `api.py`: the duration-window extractor with
  its ten regular expressions and three phrases, the duration filter with
  its closest-match fallback, the keyword-scoring fallback recommender, and
  the body of the `/recommend` handler (validation, truncation, top-up,
  trimming, catalog defaults, field defaults, the 400 and 500 replies);
- the `VectorStore` of `vector_store.py`: normalising the `test_type`
  column, filling missing columns, building one record per row, sending the
  records in batches of 50 to the collection (only when the collection is
  empty), and rebuilding records from stored metadata in `search`;
- `clean_test_type` of `clean_csv.py`, the other rule cascade for the same
  `test_type` field;
- `create_dataset_from_excel` of `extract_from_excel.py`: one record per
  distinct URL, a display name derived from the URL, and padding with
  sample records up to 377.

Modules:

| file | module | what it holds |
|---|---|---|
| wrappers.dfy | `Wrappers` | `Option`, `Result`, the Python exception kinds, `Min`/`Max` |
| text.dfy | `Text` | ASCII `str` operations: `lower`, `strip`, `split`, `join`, `replace`, `rstrip`, `title`, `str(int)`, `int(str)` |
| json.dfy | `Json` | decoded JSON values, `json.dumps` of a list of strings, `json.loads` as a `Decoder` parameter |
| sorting.dfy | `StableSort` | Python's stable `list.sort` with a key: insertion sort on sequences and in place on arrays |
| duration.dfy | `DurationRules` | `extract_duration_constraint` |
| duration_cases.dfy | `DurationCases` | worked queries for the extractor |
| ranking.dfy | `Ranking` | `filter_by_duration`, the fallback `SHLRecommender`, `balance_recommendations` |
| route.dfy | `Route` | the `/recommend` handler body |
| vector_store.dfy | `Store` | `VectorStore` and its collection |
| test_types.dfy | `CsvCleaning` | `clean_test_type` |
| excel.dfy | `ExcelDataset` | `create_dataset_from_excel` |

Foreign code is a parameter of the members that call it:

- `json.loads` is a `Decoder` (`None` is a `JSONDecodeError`). Where a
  property depends on the decoder reading back what `json.dumps` wrote, it
  says so with `ReadsDumps`.
- The sentence encoder is an `Encoder`.
- Chroma's nearest-neighbour query is a `Nearest`. The collection is a
  class holding its entries, and `count()` is their number.
- The recommender the route calls is a `Retriever` together with its
  catalog.

The source's own comments promise more than its code does; the model
follows the code:

- The handler's comments read "Ensure we have 5-10 recommendations"
  (api.py:226) and "Ensure minimum 1" (api.py:239). The code returns
  nothing when the catalog is empty and nothing survives. Any top-up with
  a non-empty extra retrieval raises, because line 233 reads the undefined
  name `recommendments`; the handler answers 500. So a 200 reply holds
  fewer than 5 entries only when the extra retrieval found nothing.
- The pattern `about\s*an?\s*hour` (api.py:96) has no group, so `int()` of
  the matched text (api.py:111) raises a `ValueError` and the handler
  answers 500.
- The frontend announces that results are balanced between technical and
  behavioral assessments (frontend.py:109). `balance_recommendations`
  (api.py:72-73) only keeps the first ten.

## Model

| member | source | states |
|---|---|---|
| Text.Strip | api.py:206 | `str.strip()`: the result is a slice of the input with no whitespace at either end, and everything cut off is whitespace (with `Text.StripIsSlice`) |
| Text.StripIsSlice | clean_csv.py:37 | the stripped text is `s[i..j]`, everything before `i` and from `j` on being whitespace |
| Text.StripIdempotent | clean_csv.py:37 | stripping twice is stripping once |
| Text.Split | clean_csv.py:50 | `str.split(sep)` never returns an empty list and no piece holds the separator |
| Text.SplitCount | clean_csv.py:50 | `split(sep)` gives one more piece than there are separators |
| Text.JoinSplit | clean_csv.py:50 | joining the pieces with the separator gives back the text |
| Text.RStripChar | extract_from_excel.py:29 | `rstrip('/')` drops exactly the trailing slashes |
| Text.ReplaceChar | extract_from_excel.py:31 | `replace(a, b)` changes every `a` into `b` and nothing else |
| Text.Title | extract_from_excel.py:31 | `title()` keeps the length and upper-cases exactly the letters that follow no letter |
| Text.Lower | api.py:86 | `lower()` keeps the length and lower-cases each character |
| Text.NatToString | vector_store.py:183 | `str(n)` is a non-empty run of digits that reads back as `n` |
| Text.ParseInt | vector_store.py:177 | `int(text)` fails only with ValueError |
| Text.ParseIntOfIntToString | vector_store.py:177 | `int(str(n)) == n` for every integer |
| Json.Dumps | vector_store.py:176 | `json.dumps` of a list of strings is a bracketed text of printable ASCII |
| StableSort.SortPermutes | api.py:69 | the sort is a permutation of its input |
| StableSort.SortSorted | api.py:69 | the sort orders its input by the key |
| StableSort.SortStable | api.py:133 | the sort keeps the input order of elements with equal keys |
| StableSort.SortInPlace | api.py:133 | sorting an array in place leaves it holding the stable sort of its old contents |
| StableSort.InsertLast | api.py:133 | one insertion step places `a[i]` into the sorted prefix and leaves the rest of the array alone |
| DurationRules.Run | api.py:90-99 | a greedy repetition consumes the longest run of its class and stops before a character outside it |
| DurationRules.First | api.py:103-104 | the first present outcome at or after `i`, with nothing present before it |
| DurationRules.ExtractFollowsFirstMatch | api.py:89-112 | the patterns are tried in order and only the first one with any match decides, through its leftmost match |
| DurationRules.ExtractFallsBackToPhrases | api.py:114-120 | the phrase checks decide exactly when no pattern matches anywhere |
| DurationRules.ExtractRaisesOnlyOnAboutAnHour | api.py:96-111 | the extractor raises only `ValueError`, and only when `about\s*an?\s*hour` matches |
| DurationRules.NoDigitsNoNumberPattern | api.py:90-95 | the six patterns that begin with `(\d+)` never match a query without digits |
| DurationRules.PhrasesWithoutNumbers | api.py:89-120 | a query without digits and without "about" is decided by the phrases |
| DurationRules.FromPatternRaises | api.py:102-112 | trying the patterns from any point raises only `ValueError` through the `about an hour` pattern |
| DurationCases.RangeExample | api.py:105-108 | "30-40 minutes" gives the window 30 to 40 |
| DurationCases.SingleExample | api.py:110-112 | "40 minute test" gives 30 to 50, the range patterns not matching |
| DurationCases.HoursExample | api.py:94-112 | "2 hours" gives -8 to 12: hours are not turned into minutes |
| DurationCases.AboutAnHourExample | api.py:96-111 | "about an hour" raises instead of giving a window |
| Ranking.Within | api.py:124-128 | the kept candidates are never more than the candidates |
| Ranking.WithinMembers | api.py:124-128 | a candidate is kept exactly when it is a candidate whose duration (60 when absent) lies in the window |
| Ranking.WithinAppend | api.py:124-128 | the window keeps the candidates' order |
| Ranking.FilterByDuration | api.py:122-136 | the method returns the filter's result and leaves the caller's array sorted by distance only when the fallback ran |
| Ranking.FilterKeepsFitting | api.py:124-131 | when some candidate fits, the result is exactly the fitting ones and the caller's list is untouched |
| Ranking.FilterFallsBackToClosest | api.py:130-134 | when none fits, the caller's list becomes a stable permutation sorted by distance to the midpoint, and the result is its first `min(10, n)`, none farther than a candidate left out |
| Ranking.FilterNonEmpty | api.py:122-136 | the filter never empties a non-empty list, never returns more than it got, and never invents a candidate |
| Ranking.Score | api.py:48-63 | the keyword score is at most 3 + 3 + 3 + 2 + 2 |
| Ranking.Scored | api.py:48-66 | at most one scored pair per catalog entry |
| Ranking.ScoredMembers | api.py:65-66 | every scored pair carries a catalog entry with its own positive score |
| Ranking.ScoredHas | api.py:65-66 | every entry with a positive score is scored |
| Ranking.RankedMembers | api.py:69 | the sorted pairs are the scored pairs, reordered |
| Ranking.Recommender.constructor | api.py:21-22 | the recommender holds the catalog it is given |
| Ranking.Recommender.Recommend | api.py:43-70 | `recommend(query, k)` returns the first `k` entries of the stable descending sort of the positively scored entries |
| Ranking.TopKRanked | api.py:43-70 | at most `k` entries, all from the catalog with a positive score, in non-increasing score order |
| Ranking.TopKNoBetterLeftOut | api.py:65-70 | no catalog entry left out scores higher than a returned entry |
| Ranking.TopKComplete | api.py:65-70 | with room for all, every positively scored entry is returned |
| Ranking.TopKStable | api.py:69 | entries of equal score keep their catalog order |
| Ranking.NoKeywordNoResults | api.py:53-66 | a query naming none of the five keywords gets nothing |
| Ranking.Balance | api.py:72-73 | `balance_recommendations` keeps the prefix of `min(10, n)` recommendations |
| Route.CleanQuery | api.py:206-208 | the cleaned query is the stripped query when that has at most 1000 characters, and otherwise its first 1000 characters followed by "..." |
| Route.FormatAll | api.py:245-258 | one formatted entry per recommendation, in order |
| Route.TopUp | api.py:227-234 | the top-up loop succeeds, changing nothing, exactly when the extra retrieval is empty, and otherwise raises NameError |
| Route.RejectedIff | api.py:199-203 | the request gets a 400 exactly when the query is not a string or is empty; a blank query is accepted and cleaned to "" |
| Route.ServerErrorIff | api.py:213-268 | a 500 happens exactly when the extractor raises or a top-up meets a non-empty extra retrieval, and its error says which |
| Route.AfterExtractionBounds | api.py:216-242 | after extraction, a success is the balanced list when that is not empty and the first 5 catalog entries when it is: at most 10 results, at least one when the catalog is not empty, fewer than 5 only when the extra retrieval is empty, all from the first retrieval or the catalog |
| Route.RecommendedBounds | api.py:199-261 | a 200 reply holds at most 10 entries, at least one for a non-empty catalog, and fewer than 5 only when the extra retrieval found nothing |
| Route.RecommendedSources | api.py:216-258 | every entry of a 200 reply is a formatted entry of the first retrieval or of the catalog |
| CsvCleaning.StripEach | clean_csv.py:50 | one stripped piece per piece, in order |
| CsvCleaning.CleanTestType | clean_csv.py:33-57 | the result is empty only for a bracketed text that decodes to an empty JSON list |
| CsvCleaning.Classify | clean_csv.py:39-57 | on the stripped text, an empty result comes only from an empty decoded list |
| CsvCleaning.CleanUsesStrippedText | clean_csv.py:37 | surrounding whitespace never changes the outcome |
| CsvCleaning.MissingIsK | clean_csv.py:34-35 | a missing cell gives `['K']` |
| CsvCleaning.JsonListKept | clean_csv.py:40-44 | a bracketed text that decodes to a list gives that list, `[]` included |
| CsvCleaning.CommaSplit | clean_csv.py:49-50 | a text with commas that is not a JSON list gives one more piece than there are commas, each stripped and free of commas |
| CsvCleaning.BracketsStayOnPieces | clean_csv.py:40-50 | a bracketed pair that does not decode, such as `[K, P]`, is split with the brackets left on the pieces |
| CsvCleaning.NonListOutcomes | clean_csv.py:49-57 | every non-list outcome is non-empty, and a text without commas gives itself when it is one letter and `K` otherwise |
| CsvCleaning.SingleLetter | clean_csv.py:53-54 | one letter, once stripped, is kept alone |
| CsvCleaning.OtherTextIsK | clean_csv.py:56-57 | any other stripped text without brackets or commas gives `['K']` |
| CsvCleaning.DefaultIsK | clean_csv.py:56-57 | "Knowledge", "" and "12" all give `['K']` |
| Store.FixCell | vector_store.py:101-136 | a fixed cell is empty only when a bracketed cell decodes, quotes swapped, to an empty list |
| Store.FixCellRules | vector_store.py:103-132 | NaN and blank cells give `['K']`, a decoded list is kept, a decoding error gives `['K']`, any other text is wrapped as it is |
| Store.FixedCells | vector_store.py:99-136 | one fixed list per cell of the prefix, in row order |
| Store.FixedColumn | vector_store.py:94-138 | one list per row, in row order, and every row `['K']` when the column is missing |
| Store.VectorStore.FixTestTypeColumn | vector_store.py:89-139 | the method leaves the fixed column, one list per row, in the store |
| Store.CascadesDisagreeOnWords | vector_store.py:130-132 | on a plain word the store keeps the word where `clean_test_type` gives `['K']` |
| Store.FillColumnsShape | vector_store.py:148-155 | filling keeps every existing column and adds each missing one with its default in every row |
| Store.Filled | vector_store.py:146-155 | after filling, every required column has one cell per row |
| Store.FilledDefaults | vector_store.py:148-155 | missing columns get 60 for duration, "Yes" for the support flags and "" otherwise, and existing ones are kept |
| Store.VectorStore.FillMissingColumns | vector_store.py:148-155 | the loop leaves the filled table in the store |
| Store.Truncated | vector_store.py:175 | the stored description is the prefix of `min(500, n)` characters |
| Store.RecordsBelowAt | vector_store.py:161-183 | record `k` of any prefix is the record of row `k` |
| Store.Records | vector_store.py:161-183 | records exist exactly when every duration cell converts, one per row, in row order |
| Store.VectorStore.PrepareRecords | vector_store.py:157-183 | the row loop yields the records, or the ValueError of the first duration that `int()` rejects |
| Store.IdsDistinct | vector_store.py:183 | no two rows share an id |
| Store.Stored | vector_store.py:194-203 | one entry per record, carrying its id, document, metadata and embedding |
| Store.ChunksFromCover | vector_store.py:189-192 | the chunks from `i` hold every later item once, in order, in non-empty chunks of at most the batch size |
| Store.BatchesCover | vector_store.py:186-203 | every record is sent exactly once, in order, in batches of 1 to 50 |
| Store.ProgressCounts | vector_store.py:205-206 | one progress figure per batch, `min(50 (k + 1), n)`, equal to the number of records sent so far |
| Store.BatchStep | vector_store.py:189-205 | one turn of the batch loop sends the next chunk and prints its end |
| Store.VectorStore.SendBatches | vector_store.py:186-206 | the collection gains exactly the stored records, batch by batch, and the printed figures are the progress figures |
| Store.Collection.constructor | vector_store.py:29-32 | an opened collection holds the entries it already had |
| Store.Collection.Add | vector_store.py:198-203 | `add` appends the batch |
| Store.VectorStore.Populate | vector_store.py:141-208 | population fills the columns and then either stores every record in batches or records the ValueError and sends nothing |
| Store.VectorStore.constructor | vector_store.py:19-62 | the column is fixed, and the collection is populated only when it was empty, otherwise left as it was |
| Store.FoundOf | vector_store.py:238-246 | a record is rebuilt exactly when the metadata holds a name, a url and a description |
| Store.FoundOfMetadata | vector_store.py:172-180 | the metadata written for a row reads back as the same values, the `test_type` list included |
| Store.RowReadsBack | vector_store.py:172-246 | the metadata stored for a row reads back as that row's record |
| Store.SearchResult | vector_store.py:210-252 | a search answers at most `min(n_results, count)` records |
| Store.VectorStore.Search | vector_store.py:210-252 | the method answers what the search specifies for the collection's entries |
| Store.SearchReadsBack | vector_store.py:161-246 | searching a populated store gives, for each position the query returns, the record of that row |
| Store.SearchBounds | vector_store.py:212-252 | at most `min(n_results, count)` records, and none from an empty store or a failed query |
| ExcelDataset.NonEmpty | extract_from_excel.py:18 | `dropna()` keeps exactly the non-empty cells |
| ExcelDataset.NonEmptyAppend | extract_from_excel.py:18 | `dropna()` keeps order: dropping from a concatenation concatenates the parts' results |
| ExcelDataset.NonEmptyFirstOrder | extract_from_excel.py:18 | of two values `dropna()` keeps, the one kept first occurs first in the column |
| ExcelDataset.Distinct | extract_from_excel.py:18 | `unique()` keeps exactly the values of its input |
| ExcelDataset.DistinctUnique | extract_from_excel.py:18 | `unique()` keeps no value twice |
| ExcelDataset.DistinctOrder | extract_from_excel.py:18 | `unique()` keeps first-occurrence order |
| ExcelDataset.UrlsInColumnOrder | extract_from_excel.py:18 | the distinct URLs follow the order of their first occurrence in the column |
| ExcelDataset.FirstIndex | extract_from_excel.py:18 | the first occurrence of a value |
| ExcelDataset.DisplayNameClean | extract_from_excel.py:29-31 | a display name holds no dash, underscore or slash |
| ExcelDataset.UrlRecords | extract_from_excel.py:33-41 | one record per URL, in order |
| ExcelDataset.Samples | extract_from_excel.py:46-55 | padding record `j` is sample number `j + 1` |
| ExcelDataset.Padding | extract_from_excel.py:44-46 | URL records plus padding make `max(n, 377)` |
| ExcelDataset.UrlAssessments | extract_from_excel.py:24-41 | the URL loop succeeds exactly when every URL is a text, giving one record per URL |
| ExcelDataset.PadWithSamples | extract_from_excel.py:44-55 | the padding loop appends the samples that bring the list to 377 |
| ExcelDataset.CreateDataset | extract_from_excel.py:3-67 | the method returns the dataset: `None` on a read failure or a URL that is not a text |
| ExcelDataset.DatasetShape | extract_from_excel.py:24-55 | `max(len(urls), 377)` records: one per distinct URL in first-occurrence order with its name, description and duration 60, then the numbered samples |
| ExcelDataset.DatasetUrlAt | extract_from_excel.py:33-41 | record `i` carries the `i`-th distinct URL |
| ExcelDataset.DatasetUrlsDistinct | extract_from_excel.py:18-41 | no two URL records carry the same URL |
| ExcelDataset.OneRecordPerUrl | extract_from_excel.py:18-41 | every text URL of the column has exactly one record |
| ExcelDataset.SamplesDistinct | extract_from_excel.py:47-50 | sample records differ in url and name |

## Left out

- Flask is not part of this model: the routes other than `/recommend`, the
  reading of the request (the GET parameter, the Content-Type check and
  `get_json`), `jsonify`, the error handlers and `app.run`. The handler
  starts from the `query` value, a string or any other JSON value.
- `src.recommender` is not part of this model. The route takes the
  recommender as a `Retriever` and its catalog as a sequence.
- `_load_assessments` and its file read are not modelled. The fallback
  recommender is built from a given catalog.
- The sentence encoder, the Chroma client, cosine ranking and
  `get_all_assessments` are foreign code. They are the `Encoder` and
  `Nearest` parameters, or are not modelled.
- Batch encoding is taken to be per-document encoding.
- `_create_default_dataset` and the CSV discovery in `__init__` are file
  I/O and are not modelled. The store is built from a table already read.
- `pd.read_csv`, `read_excel`, `to_csv` and the surrounding scripts of
  clean_csv.py and extract_from_excel.py are file I/O. The cleaning is
  modelled for one cell; line 60 of clean_csv.py applies it to each cell
  of the column.
- CSV columns other than the seven the store reads are not represented.
- Floating-point cells are not modelled: a table cell is NaN, a text or an
  integer. `int()` is modelled without underscores between digits.
- `Ranking.Assessment` holds an integer duration. A catalog entry with a
  float or text duration, which `int()` at api.py:252 would convert or
  reject, is not represented.
- Only ASCII case and whitespace rules are modelled for `lower`, `strip`,
  `title`, `isalpha` and `\s`.
- The duration midpoint `(min + max) / 2` is compared as the integer
  `|2d - (min + max)|`, which orders and ties candidates the same way.
- `json.loads` is modelled as returning a list of strings or another value
  shown as its text. Lists holding numbers or nested values are not
  represented.
- `str()` of a decoded list, as Python prints it, is not modelled.
- Printing is not modelled, except that the progress figures of the batch
  loop are kept in the store's `progress` field, appended after the loop.
- The store keeps the raw `test_type` cells in its table. The fixed column
  lives in a field of its own, which supersedes the raw one wherever the
  source reads `test_type`.
- `Store.VectorStore.constructor` states what the collection holds and the
  error recorded, not the progress figures; `Store.VectorStore.Populate`
  states them.
- `Route.HandleRecommend` models exceptions that reach the outer `except`
  only as the `ValueError` of the extractor and the `NameError` of the
  top-up. A retriever that raises is not modelled.
- The `Assessment_{i+1}` fallback name of extract_from_excel.py is not
  modelled: `split('/')` never returns an empty list, so it cannot be
  taken.
- Concurrency of the threaded server is not modelled.
