/**
 * The two registry loaders.  Each checks that its cache file exists, drops
 * the rows lacking a required cell, and rewrites the corporate-number column
 * as the decimal string of its integer value.  A file is given as the rows
 * read_csv produces for it, or None when the file does not exist; a NaN cell
 * is None.
 */
module Registry {

  import opened Wrappers
  import opened Errors
  import opened Rows
  import opened Decimal

  /** A row of cache/documents_list_YYYY-MM.csv as read. */
  datatype RawDocRow = RawDocRow(docID: Option<string>, filerName: Option<string>, jcn: Option<nat>, csvFlag: Option<int>)

  /** A row of the loaded document index: the JCN is now a string. */
  datatype DocRow = DocRow(docID: string, filerName: string, jcn: string, csvFlag: Option<int>)

  /** A row of cache/basic_info.csv as read: corporate number, filer name, and the other columns by header. */
  datatype RawCorpRow = RawCorpRow(jcn: Option<nat>, name: Option<string>, others: map<string, string>)

  /** A row of the loaded corporate master list. */
  datatype CorpRow = CorpRow(jcn: string, name: string, others: map<string, string>)

  /** dropna subset of load_doc_list: docID, filerName, JCN */
  predicate DocComplete(r: RawDocRow) {
    r.docID.Some? && r.filerName.Some? && r.jcn.Some?
  }

  /** dropna subset of load_corp_list: corporate number and filer name */
  predicate CorpComplete(r: RawCorpRow) {
    r.jcn.Some? && r.name.Some?
  }

  function NormaliseDoc(r: RawDocRow): DocRow
    requires DocComplete(r)
  {
    DocRow(r.docID.value, r.filerName.value, NatToDecimal(r.jcn.value), r.csvFlag)
  }

  function NormaliseCorp(r: RawCorpRow): CorpRow
    requires CorpComplete(r)
  {
    CorpRow(NatToDecimal(r.jcn.value), r.name.value, r.others)
  }

  /** The table load_doc_list returns for the rows of an existing file. */
  function LoadedDocs(raw: seq<RawDocRow>): seq<DocRow> {
    var kept := Filter(raw, DocComplete);
    seq(|kept|, k requires 0 <= k < |kept| => NormaliseDoc(kept[k]))
  }

  /** The table load_corp_list returns for the rows of an existing file. */
  function LoadedCorps(raw: seq<RawCorpRow>): seq<CorpRow> {
    var kept := Filter(raw, CorpComplete);
    seq(|kept|, k requires 0 <= k < |kept| => NormaliseCorp(kept[k]))
  }

  method LoadDocList(year: int, month: int, file: Option<seq<RawDocRow>>) returns (r: Result<seq<DocRow>, Error>)
    ensures file.None? ==> r == Failure(NotFound(DocumentsList(year, month)))
    ensures file.Some? ==> r == Success(LoadedDocs(file.value))
  {
    if file.None? {
      return Failure(NotFound(DocumentsList(year, month)));
    }
    var rows := DropNa(file.value, DocComplete);
    var out: seq<DocRow> := [];
    for i := 0 to |rows|
      invariant |out| == i
      invariant forall k | 0 <= k < i :: DocComplete(rows[k]) && out[k] == NormaliseDoc(rows[k])
    {
      assert rows[i] in rows;
      out := out + [NormaliseDoc(rows[i])];
    }
    assert out == LoadedDocs(file.value);
    r := Success(out);
  }

  method LoadCorpList(file: Option<seq<RawCorpRow>>) returns (r: Result<seq<CorpRow>, Error>)
    ensures file.None? ==> r == Failure(NotFound(BasicInfo))
    ensures file.Some? ==> r == Success(LoadedCorps(file.value))
  {
    if file.None? {
      return Failure(NotFound(BasicInfo));
    }
    var rows := DropNa(file.value, CorpComplete);
    var out: seq<CorpRow> := [];
    for i := 0 to |rows|
      invariant |out| == i
      invariant forall k | 0 <= k < i :: CorpComplete(rows[k]) && out[k] == NormaliseCorp(rows[k])
    {
      assert rows[i] in rows;
      out := out + [NormaliseCorp(rows[i])];
    }
    assert out == LoadedCorps(file.value);
    r := Success(out);
  }

  /**
   * The loaded index holds one row per complete raw row, in the raw order
   * (KeptIndices lists every complete row, increasing); each keeps its
   * docID, filerName and csvFlag, and its JCN is the canonical decimal
   * string whose value is the raw corporate number.
   */
  lemma LoadedDocsSpec(raw: seq<RawDocRow>)
    ensures |LoadedDocs(raw)| == |KeptIndices(raw, DocComplete)|
    ensures forall k | 0 <= k < |LoadedDocs(raw)| ::
      var row, i := LoadedDocs(raw)[k], KeptIndices(raw, DocComplete)[k];
      && DocComplete(raw[i])
      && row.docID == raw[i].docID.value
      && row.filerName == raw[i].filerName.value
      && row.csvFlag == raw[i].csvFlag
      && Canonical(row.jcn)
      && DecimalValue(row.jcn) == raw[i].jcn.value
  {
    FilterIsKeptIndices(raw, DocComplete);
    forall k | 0 <= k < |LoadedDocs(raw)|
      ensures DecimalValue(LoadedDocs(raw)[k].jcn) == raw[KeptIndices(raw, DocComplete)[k]].jcn.value
    {
      DecimalRoundTrip(raw[KeptIndices(raw, DocComplete)[k]].jcn.value);
    }
  }

  /** The same for the corporate master list: complete rows only, in order, other columns untouched, JCN canonical. */
  lemma LoadedCorpsSpec(raw: seq<RawCorpRow>)
    ensures |LoadedCorps(raw)| == |KeptIndices(raw, CorpComplete)|
    ensures forall k | 0 <= k < |LoadedCorps(raw)| ::
      var row, i := LoadedCorps(raw)[k], KeptIndices(raw, CorpComplete)[k];
      && CorpComplete(raw[i])
      && row.name == raw[i].name.value
      && row.others == raw[i].others
      && Canonical(row.jcn)
      && DecimalValue(row.jcn) == raw[i].jcn.value
  {
    FilterIsKeptIndices(raw, CorpComplete);
    forall k | 0 <= k < |LoadedCorps(raw)|
      ensures DecimalValue(LoadedCorps(raw)[k].jcn) == raw[KeptIndices(raw, CorpComplete)[k]].jcn.value
    {
      DecimalRoundTrip(raw[KeptIndices(raw, CorpComplete)[k]].jcn.value);
    }
  }
}
