# Malert Financials: a model of the filing-selection core

Malert Financials is a one-file Streamlit dashboard over EDINET, the Japanese
disclosure system. A user picks a corporation by its corporate number (JCN).
The dashboard then fetches that corporation's filings and shows the CSV tables
inside them. Most of the script is I/O and UI. This project models its
selection and filtering logic over abstract inputs and proves what it
guarantees:

- **Registry loaders** (`load_doc_list`, `load_corp_list`). A missing cache
  file raises. Rows lacking a required cell are dropped. The JCN column is
  rewritten as the decimal string of its integer value.
- **Document fetcher** (`get_document`). A status other than 200 raises.
  Otherwise every archive member whose lowercased name ends in `.csv` is parsed
  into a table, keyed by its original name.
- **Filing resolver** (`get_documents_by_corp_num`). An unknown JCN raises
  before any request. Otherwise each row with that JCN and `csvFlag == 1` is
  fetched in index order, and the results are collected in a dict keyed by
  docID.
- **Lookup dicts in `main`**. JCN→name dicts are built by zipping two columns,
  so the last row with a given JCN wins.

Python's dict keeps insertion order. `Dicts.Dict` models it as a key sequence
plus a map: assigning to an existing key keeps its position, and a new key
goes at the end. The network, the unzipping and the table parser are
parameters. The response to the k-th request of one resolver call is
`network(k, docID)`, so a docID requested twice may get two different answers.
`zipfile` lists members in directory order, repeats included. `zf.open(name)`
reads the last member with that name (`Fetcher.Open`).

`read_csv` reads the JCN column as numbers, so a leading zero in the file is
lost. `astype(int).astype(str)` then renders the canonical decimal string of
that number. The model follows the code: a JCN is read as a natural number and
rendered canonically.

Modules: `Wrappers` (Option, Result), `Errors`, `Dicts`, `Decimal`, `Rows`,
`Registry`, `Fetcher`, `Resolver`, `Dashboard`.

## Model

| member | source | states |
|---|---|---|
| `Dicts.Put` | malert_financials.py:61 | `d[k] = v` keeps the dict well formed, gives k the value v and leaves every other key's value alone; an existing key keeps its position and a new key is appended |
| `Dicts.FromPairs` | malert_financials.py:82-89 | a dict built from a sequence of pairs lists each key exactly once |
| `Dicts.FromPairsDomain` | malert_financials.py:82-89 | a key is in the dict iff some pair carries it |
| `Dicts.FromPairsValue` | malert_financials.py:82-89 | every value in the dict comes from a pair carrying its key |
| `Dicts.FromPairsLastWins` | malert_financials.py:82-89 | a key holds the value of the last pair that carries it (later duplicates overwrite) |
| `Dicts.FromPairsOrder` | malert_financials.py:54-61 | keys are listed in the order of their first occurrence among the pairs |
| `Decimal.NatToDecimal` | malert_financials.py:19 | `str(int)` of a corporate number is non-empty, digits only, without a leading zero, and is "0" exactly for 0 |
| `Decimal.DecimalRoundTrip` | malert_financials.py:19 | reading the rendered JCN back as a decimal number gives the original number |
| `Decimal.CanonicalIsRendering` | malert_financials.py:72-74 | every canonical digit string is the rendering of its own value, so the rendering produces exactly the canonical strings |
| `Decimal.NatToDecimalInjective` | malert_financials.py:72-74 | two different corporate numbers never render to the same JCN string |
| `Rows.Filter` | malert_financials.py:18 | row selection keeps exactly the rows that satisfy the predicate and never adds rows |
| `Rows.KeptIndices` | malert_financials.py:55 | the positions of the kept rows are increasing, each satisfies the predicate, and every such position is listed |
| `Rows.FilterIsKeptIndices` | malert_financials.py:18 | the filtered table is the rows at KeptIndices, in order: survivors keep their relative order |
| `Rows.FilterKeepsAll` | malert_financials.py:55 | a selection that every row satisfies returns the rows unchanged |
| `Rows.DropNa` | malert_financials.py:71 | the dropna loop leaves exactly the filtered rows |
| `Registry.LoadDocList` | malert_financials.py:13-20 | a missing documents-list file raises NotFound for that year and month; otherwise the result is the loaded index of the rows read |
| `Registry.LoadCorpList` | malert_financials.py:65-75 | a missing basic_info file raises NotFound; otherwise the result is the loaded master list of the rows read |
| `Registry.LoadedDocsSpec` | malert_financials.py:17-19 | the loaded index has one row per raw row with docID, filerName and JCN present, in raw order; each keeps its docID, filerName and csvFlag; its JCN is canonical and denotes the raw number |
| `Registry.LoadedCorpsSpec` | malert_financials.py:70-74 | the loaded master list has one row per raw row with corporate number and name present, in raw order; other columns are untouched; the JCN is canonical and denotes the raw number |
| `Fetcher.IsCsvNameLastFour` | malert_financials.py:38 | `name.lower().endswith(".csv")` holds iff the last four characters are '.', then c/C, s/S, v/V |
| `Fetcher.Open` | malert_financials.py:39-40 | `zf.open(name).read()` returns the bytes of the last archive member with that name |
| `Fetcher.FetchSpec` | malert_financials.py:26-45 | a status other than 200 raises RemoteFetch(status, text) and nothing else does; on 200 the keys are exactly the archive names whose lowercased form ends in ".csv", under their original names, each mapped to the parse of its bytes; an archive with no such name gives an empty dict |
| `Fetcher.TablesOrder` | malert_financials.py:34-42 | the tables dict lists its ".csv" names in the order `namelist()` first lists them: of two keys, the earlier one appears in the name list before the later one appears at all |
| `Fetcher.GetDocument` | malert_financials.py:23-45 | the loop computes Fetch; on an error status no member is opened, otherwise exactly the ".csv" names are opened, in name-list order |
| `Fetcher.CsvNameExamples` | malert_financials.py:38 | "data.CSV" and "table.csv" pass the suffix test and "readme.txt" does not |
| `Fetcher.MixedArchiveExample` | malert_financials.py:33-45 | the archive ["data.CSV", "readme.txt", "table.csv"] yields exactly the two CSV tables, in that order |
| `Resolver.Collect` | malert_financials.py:54-61 | a run of the loop that succeeds has requested every docID and holds a well-formed dict |
| `Resolver.CollectRequestsPrefix` | malert_financials.py:56-61 | the docIDs requested are always a prefix of the qualifying docIDs, in order |
| `Resolver.CollectStopsAtFailure` | malert_financials.py:61 | after a request raises, no later docID is requested and the outcome stays the same |
| `Resolver.CollectSucceeds` | malert_financials.py:61 | the loop succeeds iff every request succeeds |
| `Resolver.CollectValue` | malert_financials.py:54-61 | when every request succeeds, the result is the dict built from the (docID, tables) pairs in request order |
| `Resolver.CollectFailure` | malert_financials.py:61 | a failing loop raises the error of its first failing request, after requesting exactly the docIDs up to and including that one |
| `Resolver.CsvDocIdsStep` | malert_financials.py:57-60 | one more row of the walk adds its docID to the requests exactly when its csvFlag is 1, and adds nothing otherwise |
| `Resolver.WalkStep` | malert_financials.py:59-61 | after a successful prefix, a flagged row's docID is the next request; a success assigns its tables and a failure is the outcome of the whole call |
| `Resolver.WalkStopsAtFailure` | malert_financials.py:61 | once the walk over the first rows has raised, the walk over all rows raises the same error after the same requests |
| `Resolver.CsvDocIdsMembers` | malert_financials.py:57-60 | a docID is requested iff some row carrying it has csvFlag present and equal to 1 |
| `Resolver.QualifyingIds` | malert_financials.py:55-60 | a docID is requested for a corporation iff an index row with that JCN and csvFlag 1 carries it |
| `Resolver.ResolveRequestsOnlyQualifying` | malert_financials.py:55-61 | whatever the outcome, every requested docID belongs to a row with the requested JCN and csvFlag 1 |
| `Resolver.ResolveKeys` | malert_financials.py:54-62 | on success the JCN occurs, the requests are exactly the qualifying docIDs in index order, and the keys are exactly the docIDs of the qualifying rows |
| `Resolver.ResolveLastRequestWins` | malert_financials.py:61 | on success a docID requested several times holds the tables from its last request |
| `Resolver.ResolveKeyOrder` | malert_financials.py:54-61 | on success keys follow the first-encounter order of the qualifying rows |
| `Resolver.OnlyFlaggedRowRequestedExample` | malert_financials.py:57-59 | of rows flagged 1, 0 and NaN for one JCN, only the first is requested |
| `Resolver.GetDocumentsByCorpNum` | malert_financials.py:48-62 | a JCN absent from the index raises UnknownCorporation and requests nothing; otherwise the loop computes Resolve |
| `Dashboard.JcnToFilerNameSpec` | malert_financials.py:82-84 | the document-index lookup has a key for exactly the JCNs of the index, and each maps to the filer name of its last row |
| `Dashboard.JcnToCorpNameSpec` | malert_financials.py:86-89 | the master-list lookup has a key for exactly the JCNs of the list, and each maps to the name of its last row |
| `Dashboard.DuplicateJcnOverwritesExample` | malert_financials.py:82-84 | two rows with one JCN give one key holding the later filer name |

## Left out

- The HTTP GET, the URL and the API key (malert_financials.py:10, 24-25) are network I/O and configuration. A response is modelled as a status, a body text and the archive's members.
- Exceptions raised by `requests.get` itself, such as connection errors and timeouts (malert_financials.py:25), are not modelled: `network` always returns a response. The `Resolver.Collect*` lemmas hold for any error value a request yields, so such an exception would end a call the way a non-200 status does.
- ZIP decompression, UTF-16 decoding and tab-separated parsing (malert_financials.py:32-43) are library calls. The parser is an arbitrary function parameter. Malformed archives and undecodable bytes, which raise generic errors, are not modelled.
- Filesystem access and `read_csv` of the cache files (malert_financials.py:14-17, 66-70) are not modelled. A file is the sequence of rows it reads as, or None when it does not exist. Skipping the description line of basic_info.csv and the row-index column are part of reading the file.
- The float-to-int conversion of the NaN-bearing JCN column is not modelled. A raw JCN is a natural number, and a negative or fractional value cannot be expressed.
- csvFlag is an optional integer, with None for NaN. A flag read as 1.0 is the integer 1. Fractional flags are not representable; the source skips them anyway.
- The document index rows carry only docID, filerName, JCN and csvFlag. The other columns of the documents list are not read by the modelled code.
- The suffix test lowercases ASCII letters only and leaves every other character unchanged. Python's `str.lower` also lowercases non-ASCII letters, which the model does not capture.
- The loaders' DataFrames are mutated in place, but the frames are local to each loader. They are modelled as sequences of rows that a loop filters and then rewrites.
- All Streamlit rendering, widgets, the listed/unlisted panel and the catch-all error display in `main` (malert_financials.py:91-143) are UI and are not modelled.
