/**
 * get_documents_by_corp_num: every filing of one corporation that is flagged
 * as carrying CSV data is fetched with get_document, and the tables are
 * collected in a dict keyed by docID.  The network is a parameter: `network(k,
 * id)` is the answer to the k-th request of one call (counted from 0), which
 * asks for document `id`; repeated requests for one document may be answered
 * differently.
 */
module Resolver {

  import opened Wrappers
  import opened Errors
  import opened Dicts
  import opened Rows
  import opened Registry
  import opened Fetcher

  /** `corp_num in documents_list["JCN"].values` */
  predicate JcnOccurs(index: seq<DocRow>, corpNum: string) {
    exists i | 0 <= i < |index| :: index[i].jcn == corpNum
  }

  /** The loop does not skip the row: its csvFlag is present and equal to 1 (NaN, 0 and every other value are skipped). */
  predicate HasCsv(row: DocRow) {
    row.csvFlag == Some(1)
  }

  /** `documents_list[documents_list["JCN"] == corp_num]` */
  function SelectByJcn(index: seq<DocRow>, corpNum: string): seq<DocRow> {
    Filter(index, (row: DocRow) => row.jcn == corpNum)
  }

  /** The docIDs the loop requests, one per flagged row, in row order (repeats included). */
  function CsvDocIds(rows: seq<DocRow>): seq<string> {
    if |rows| == 0 then []
    else CsvDocIds(rows[..|rows| - 1]) + (if HasCsv(rows[|rows| - 1]) then [rows[|rows| - 1].docID] else [])
  }

  /**
   * The loop body run over `ids`: make the k-th request, `fetch(k, ids[k])`,
   * for each in turn and assign its result to `docs[ids[k]]`, stopping at the
   * first request that raises.  Gives the outcome and the docIDs requested.
   */
  function Collect<B>(ids: seq<string>, fetch: (nat, string) -> Result<B, Error>)
    : (c: (Result<Dict<string, B>, Error>, seq<string>))
    ensures c.0.Success? ==> c.0.value.Valid() && c.1 == ids
  {
    if |ids| == 0 then (Success(Dict([], map[])), [])
    else
      var id := ids[|ids| - 1];
      var done := Collect(ids[..|ids| - 1], fetch);
      if done.0.Failure? then done
      else
        var b := fetch(|ids| - 1, id);
        if b.Failure? then (Failure(b.error), done.1 + [id])
        else (Success(Put(done.0.value, id, b.value)), done.1 + [id])
  }

  /** The k-th request of one call asks for document id and runs get_document on the answer. */
  function Requests<T>(network: (nat, string) -> Response, parse: seq<bv8> -> T): (nat, string) -> Result<Dict<string, T>, Error> {
    (k: nat, id: string) => Fetch(network(k, id), parse)
  }

  /** The docIDs requested for a known corporation, in index order. */
  function QualifyingDocIds(index: seq<DocRow>, corpNum: string): seq<string> {
    CsvDocIds(SelectByJcn(index, corpNum))
  }

  /** What get_documents_by_corp_num returns or raises, with the docIDs it requests. */
  function Resolve<T>(corpNum: string, index: seq<DocRow>, network: (nat, string) -> Response, parse: seq<bv8> -> T)
    : (Result<Dict<string, Dict<string, T>>, Error>, seq<string>)
  {
    if !JcnOccurs(index, corpNum) then (Failure(UnknownCorporation(corpNum)), [])
    else Collect(QualifyingDocIds(index, corpNum), Requests(network, parse))
  }

  /** The (docID, tables) pairs assigned when every request succeeds. */
  function FetchedPairs<B>(ids: seq<string>, fetch: (nat, string) -> Result<B, Error>): seq<(string, B)>
    requires forall k | 0 <= k < |ids| :: fetch(k, ids[k]).Success?
  {
    seq(|ids|, k requires 0 <= k < |ids| => (ids[k], fetch(k, ids[k]).value))
  }

  /** The docIDs requested are always a prefix of the ids: requests are made in order. */
  lemma {:induction false} CollectRequestsPrefix<B>(ids: seq<string>, fetch: (nat, string) -> Result<B, Error>)
    ensures |Collect(ids, fetch).1| <= |ids|
    ensures Collect(ids, fetch).1 == ids[..|Collect(ids, fetch).1|]
  {
    if |ids| > 0 {
      var init := ids[..|ids| - 1];
      var done := Collect(init, fetch);
      CollectRequestsPrefix(init, fetch);
      if done.0.Failure? {
        assert Collect(ids, fetch) == done;
        assert init[..|done.1|] == ids[..|done.1|];
      } else {
        assert Collect(ids, fetch).1 == init + [ids[|ids| - 1]];
        assert init + [ids[|ids| - 1]] == ids;
      }
    }
  }

  /** One more id after a successful run: its request is made, and its result is assigned or raised. */
  lemma CollectSnoc<B>(ids: seq<string>, id: string, fetch: (nat, string) -> Result<B, Error>)
    requires Collect(ids, fetch).0.Success?
    ensures Collect(ids + [id], fetch).1 == ids + [id]
    ensures fetch(|ids|, id).Failure? ==> Collect(ids + [id], fetch).0 == Failure(fetch(|ids|, id).error)
    ensures fetch(|ids|, id).Success? ==>
      Collect(ids + [id], fetch).0 == Success(Put(Collect(ids, fetch).0.value, id, fetch(|ids|, id).value))
  {
    assert (ids + [id])[..|ids|] == ids;
  }

  /** A run that has failed stays failed: later ids are never requested. */
  lemma {:induction false} CollectStopsAtFailure<B>(ids: seq<string>, more: seq<string>, fetch: (nat, string) -> Result<B, Error>)
    requires |ids| <= |more| && ids == more[..|ids|]
    requires Collect(ids, fetch).0.Failure?
    ensures Collect(more, fetch) == Collect(ids, fetch)
  {
    if |more| > |ids| {
      assert ids == more[..|more| - 1][..|ids|];
      CollectStopsAtFailure(ids, more[..|more| - 1], fetch);
    } else {
      assert ids == more;
    }
  }

  /** The run succeeds exactly when every request does. */
  lemma {:induction false} CollectSucceeds<B>(ids: seq<string>, fetch: (nat, string) -> Result<B, Error>)
    ensures Collect(ids, fetch).0.Success? <==> forall k | 0 <= k < |ids| :: fetch(k, ids[k]).Success?
  {
    if |ids| > 0 {
      var init := ids[..|ids| - 1];
      var last := ids[|ids| - 1];
      var done := Collect(init, fetch);
      CollectSucceeds(init, fetch);
      if done.0.Failure? {
        var k :| 0 <= k < |init| && !fetch(k, init[k]).Success?;
        assert ids[k] == init[k];
      } else if fetch(|init|, last).Failure? {
        assert !fetch(|ids| - 1, ids[|ids| - 1]).Success?;
      } else {
        forall k | 0 <= k < |ids|
          ensures fetch(k, ids[k]).Success?
        {
          if k < |init| {
            assert ids[k] == init[k];
          } else {
            assert k == |init| && ids[k] == last;
          }
        }
      }
    }
  }

  /** A successful run holds the dict built from all (docID, result) pairs in request order. */
  lemma {:induction false} CollectValue<B>(ids: seq<string>, fetch: (nat, string) -> Result<B, Error>)
    requires forall k | 0 <= k < |ids| :: fetch(k, ids[k]).Success?
    ensures Collect(ids, fetch).0 == Success(FromPairs(FetchedPairs(ids, fetch)))
  {
    if |ids| > 0 {
      var init := ids[..|ids| - 1];
      forall k | 0 <= k < |init|
        ensures fetch(k, init[k]).Success?
      {
        assert ids[k] == init[k];
      }
      CollectValue(init, fetch);
      var pairs := FetchedPairs(ids, fetch);
      var prev := FetchedPairs(init, fetch);
      forall k | 0 <= k < |prev|
        ensures pairs[k] == prev[k]
      {
        assert ids[k] == init[k];
      }
      assert pairs[..|pairs| - 1] == prev;
    }
  }

  /**
   * A failing run stops at its first failing request, whose error it raises,
   * after requesting exactly the ids up to and including that one.
   */
  lemma {:induction false} CollectFailure<B>(ids: seq<string>, fetch: (nat, string) -> Result<B, Error>)
    requires Collect(ids, fetch).0.Failure?
    ensures var calls := Collect(ids, fetch).1;
      && 1 <= |calls| <= |ids|
      && (forall k | 0 <= k < |calls| - 1 :: fetch(k, ids[k]).Success?)
      && fetch(|calls| - 1, ids[|calls| - 1]) == Failure(Collect(ids, fetch).0.error)
  {
    var init := ids[..|ids| - 1];
    var done := Collect(init, fetch);
    if done.0.Failure? {
      CollectFailure(init, fetch);
      assert forall k | 0 <= k < |done.1| :: ids[k] == init[k];
    } else {
      CollectSucceeds(init, fetch);
      assert forall k | 0 <= k < |init| :: ids[k] == init[k];
    }
  }

  /** The ids the loop requests, prefix by prefix: an earlier prefix of the rows requests a prefix of the ids. */
  lemma {:induction false} CsvDocIdsPrefix(rows: seq<DocRow>, i: nat)
    requires i <= |rows|
    ensures |CsvDocIds(rows[..i])| <= |CsvDocIds(rows)|
    ensures CsvDocIds(rows[..i]) == CsvDocIds(rows)[..|CsvDocIds(rows[..i])|]
  {
    if i < |rows| {
      var init := rows[..|rows| - 1];
      CsvDocIdsPrefix(init, i);
      assert init[..i] == rows[..i];
      var p := CsvDocIds(rows[..i]);
      assert CsvDocIds(init)[..|p|] == CsvDocIds(rows)[..|p|];
    } else {
      assert rows[..i] == rows;
    }
  }

  /** One more row of the walk requests its docID when its flag is 1, and nothing otherwise. */
  lemma CsvDocIdsStep(rows: seq<DocRow>, i: nat)
    requires i < |rows|
    ensures CsvDocIds(rows[..i + 1]) == CsvDocIds(rows[..i]) + (if HasCsv(rows[i]) then [rows[i].docID] else [])
  {
    assert rows[..i + 1][..i] == rows[..i];
  }

  /**
   * One flagged row of the walk after a successful prefix: its docID is
   * requested next; a success assigns its result, a failure is the outcome
   * of the whole walk.
   */
  lemma WalkStep<B>(rows: seq<DocRow>, i: nat, fetch: (nat, string) -> Result<B, Error>,
                    docs: Dict<string, B>, fetched: seq<string>)
    requires i < |rows| && HasCsv(rows[i])
    requires Collect(CsvDocIds(rows[..i]), fetch) == (Success(docs), fetched)
    ensures fetch(|fetched|, rows[i].docID).Success? ==>
      Collect(CsvDocIds(rows[..i + 1]), fetch)
        == (Success(Put(docs, rows[i].docID, fetch(|fetched|, rows[i].docID).value)), fetched + [rows[i].docID])
    ensures fetch(|fetched|, rows[i].docID).Failure? ==>
      Collect(CsvDocIds(rows), fetch) == (Failure(fetch(|fetched|, rows[i].docID).error), fetched + [rows[i].docID])
  {
    var before := CsvDocIds(rows[..i]);
    CsvDocIdsStep(rows, i);
    CollectSnoc(before, rows[i].docID, fetch);
    if fetch(|fetched|, rows[i].docID).Failure? {
      WalkStopsAtFailure(rows, i + 1, fetch);
    }
  }

  /** Once the walk over the first rows has raised, the walk over all rows raises the same way. */
  lemma WalkStopsAtFailure<B>(rows: seq<DocRow>, i: nat, fetch: (nat, string) -> Result<B, Error>)
    requires i <= |rows|
    requires Collect(CsvDocIds(rows[..i]), fetch).0.Failure?
    ensures Collect(CsvDocIds(rows), fetch) == Collect(CsvDocIds(rows[..i]), fetch)
  {
    CsvDocIdsPrefix(rows, i);
    CollectStopsAtFailure(CsvDocIds(rows[..i]), CsvDocIds(rows), fetch);
  }

  /** A docID is requested for `rows` exactly when some row with the CSV flag set carries it. */
  lemma {:induction false} CsvDocIdsMembers(rows: seq<DocRow>, id: string)
    ensures id in CsvDocIds(rows) <==> exists i | 0 <= i < |rows| :: rows[i].docID == id && HasCsv(rows[i])
  {
    if |rows| > 0 {
      var init := rows[..|rows| - 1];
      CsvDocIdsMembers(init, id);
      if exists i | 0 <= i < |init| :: init[i].docID == id && HasCsv(init[i]) {
        var i :| 0 <= i < |init| && init[i].docID == id && HasCsv(init[i]);
        assert rows[i] == init[i];
      }
      if exists i | 0 <= i < |rows| :: rows[i].docID == id && HasCsv(rows[i]) {
        var i :| 0 <= i < |rows| && rows[i].docID == id && HasCsv(rows[i]);
        if i < |init| {
          assert init[i] == rows[i];
        }
      }
    }
  }

  /** A docID is requested for a corporation exactly when a row of the index with that JCN and the CSV flag set carries it. */
  lemma QualifyingIds(index: seq<DocRow>, corpNum: string, id: string)
    ensures id in QualifyingDocIds(index, corpNum) <==>
      exists i | 0 <= i < |index| :: index[i].docID == id && index[i].jcn == corpNum && HasCsv(index[i])
  {
    var rows := SelectByJcn(index, corpNum);
    CsvDocIdsMembers(rows, id);
    if exists i | 0 <= i < |rows| :: rows[i].docID == id && HasCsv(rows[i]) {
      var i :| 0 <= i < |rows| && rows[i].docID == id && HasCsv(rows[i]);
      assert rows[i] in rows;
    }
    if exists i | 0 <= i < |index| :: index[i].docID == id && index[i].jcn == corpNum && HasCsv(index[i]) {
      var i :| 0 <= i < |index| && index[i].docID == id && index[i].jcn == corpNum && HasCsv(index[i]);
      assert index[i] in rows;
      var j :| 0 <= j < |rows| && rows[j] == index[i];
    }
  }

  /** Only a row with the requested JCN and csvFlag 1 ever causes a request, whatever the outcome. */
  lemma ResolveRequestsOnlyQualifying<T>(corpNum: string, index: seq<DocRow>, network: (nat, string) -> Response, parse: seq<bv8> -> T)
    ensures forall id | id in Resolve(corpNum, index, network, parse).1 ::
      exists i | 0 <= i < |index| :: index[i].docID == id && index[i].jcn == corpNum && HasCsv(index[i])
  {
    var ids := QualifyingDocIds(index, corpNum);
    if JcnOccurs(index, corpNum) {
      CollectRequestsPrefix(ids, Requests(network, parse));
      forall id | id in Resolve(corpNum, index, network, parse).1
        ensures exists i | 0 <= i < |index| :: index[i].docID == id && index[i].jcn == corpNum && HasCsv(index[i])
      {
        var calls := Resolve(corpNum, index, network, parse).1;
        var k :| 0 <= k < |calls| && calls[k] == id;
        assert ids[k] == id;
        QualifyingIds(index, corpNum, id);
      }
    }
  }

  /**
   * On success every qualifying row was requested, in index order, and the
   * result's keys are exactly the docIDs of the rows with the requested JCN
   * and csvFlag 1.
   */
  lemma ResolveKeys<T>(corpNum: string, index: seq<DocRow>, network: (nat, string) -> Response, parse: seq<bv8> -> T)
    requires Resolve(corpNum, index, network, parse).0.Success?
    ensures JcnOccurs(index, corpNum)
    ensures Resolve(corpNum, index, network, parse).1 == QualifyingDocIds(index, corpNum)
    ensures forall id :: id in Resolve(corpNum, index, network, parse).0.value.entries <==>
      exists i | 0 <= i < |index| :: index[i].docID == id && index[i].jcn == corpNum && HasCsv(index[i])
  {
    var ids := QualifyingDocIds(index, corpNum);
    var fetch := Requests(network, parse);
    CollectSucceeds(ids, fetch);
    CollectValue(ids, fetch);
    var pairs := FetchedPairs(ids, fetch);
    forall id
      ensures id in Resolve(corpNum, index, network, parse).0.value.entries <==>
        exists i | 0 <= i < |index| :: index[i].docID == id && index[i].jcn == corpNum && HasCsv(index[i])
    {
      FromPairsDomain(pairs, id);
      QualifyingIds(index, corpNum, id);
      if id in ids {
        var k :| 0 <= k < |ids| && ids[k] == id;
        assert pairs[k].0 == id;
      }
    }
  }

  /**
   * On success a docID requested more than once holds the tables of its last
   * request: the k-th request's result survives when no later request asks
   * for the same docID.
   */
  lemma ResolveLastRequestWins<T>(corpNum: string, index: seq<DocRow>, network: (nat, string) -> Response, parse: seq<bv8> -> T, k: nat)
    requires Resolve(corpNum, index, network, parse).0.Success?
    requires k < |QualifyingDocIds(index, corpNum)|
    requires forall j | k < j < |QualifyingDocIds(index, corpNum)| :: QualifyingDocIds(index, corpNum)[j] != QualifyingDocIds(index, corpNum)[k]
    ensures var id := QualifyingDocIds(index, corpNum)[k];
      && Fetch(network(k, id), parse).Success?
      && id in Resolve(corpNum, index, network, parse).0.value.entries
      && Resolve(corpNum, index, network, parse).0.value.entries[id] == Fetch(network(k, id), parse).value
  {
    var ids := QualifyingDocIds(index, corpNum);
    var fetch := Requests(network, parse);
    CollectSucceeds(ids, fetch);
    CollectValue(ids, fetch);
    var pairs := FetchedPairs(ids, fetch);
    FromPairsLastWins(pairs, k);
  }

  /**
   * On success the keys follow the first-encounter order of the qualifying
   * rows: of two keys, the earlier one is requested before the later one is
   * first requested.
   */
  lemma ResolveKeyOrder<T>(corpNum: string, index: seq<DocRow>, network: (nat, string) -> Response, parse: seq<bv8> -> T, a: nat, b: nat)
    requires Resolve(corpNum, index, network, parse).0.Success?
    requires a < b < |Resolve(corpNum, index, network, parse).0.value.keys|
    ensures var ids, keys := QualifyingDocIds(index, corpNum), Resolve(corpNum, index, network, parse).0.value.keys;
      exists k | 0 <= k < |ids| :: ids[k] == keys[a] && forall j | 0 <= j <= k :: ids[j] != keys[b]
  {
    var ids := QualifyingDocIds(index, corpNum);
    var fetch := Requests(network, parse);
    CollectSucceeds(ids, fetch);
    CollectValue(ids, fetch);
    var pairs := FetchedPairs(ids, fetch);
    var keys := Resolve(corpNum, index, network, parse).0.value.keys;
    assert keys == FromPairs(pairs).keys;
    FromPairsOrder(pairs, a, b);
    var i :| 0 <= i < |pairs| && pairs[i].0 == keys[a] && forall j :: 0 <= j <= i ==> pairs[j].0 != keys[b];
    assert ids[i] == keys[a];
    forall j | 0 <= j <= i
      ensures ids[j] != keys[b]
    {
      assert pairs[j].0 == ids[j];
    }
  }

  /** Rows docA (flag 1), docB (flag 0) and docC (flag NaN) of one corporation: only docA is requested. */
  lemma OnlyFlaggedRowRequestedExample<T>(network: (nat, string) -> Response, parse: seq<bv8> -> T)
    ensures var index := [DocRow("docA", "X", "1", Some(1)), DocRow("docB", "X", "1", Some(0)), DocRow("docC", "X", "1", None)];
      Resolve("1", index, network, parse).1 == ["docA"]
  {
    var index := [DocRow("docA", "X", "1", Some(1)), DocRow("docB", "X", "1", Some(0)), DocRow("docC", "X", "1", None)];
    assert JcnOccurs(index, "1") by {
      assert index[0].jcn == "1";
    }
    FilterKeepsAll(index, (row: DocRow) => row.jcn == "1");
    assert SelectByJcn(index, "1") == index;
    assert index[..2][..1] == index[..1] && index[..1][..0] == [];
    assert CsvDocIds(index[..1]) == ["docA"];
    assert CsvDocIds(index[..2]) == ["docA"];
    assert CsvDocIds(index) == ["docA"];
    assert ["docA"][..0] == [];
  }

  /**
   * get_documents_by_corp_num.  Raises UnknownCorporation, requesting
   * nothing, when the JCN is absent from the index; otherwise walks the rows
   * with that JCN, skips those whose csvFlag is not 1, and assigns the tables
   * of each remaining docID; a failing request ends the call with its error.
   */
  method GetDocumentsByCorpNum<T>(corpNum: string, index: seq<DocRow>, network: (nat, string) -> Response, parse: seq<bv8> -> T)
    returns (r: Result<Dict<string, Dict<string, T>>, Error>, fetched: seq<string>)
    ensures !JcnOccurs(index, corpNum) ==> r == Failure(UnknownCorporation(corpNum)) && fetched == []
    ensures (r, fetched) == Resolve(corpNum, index, network, parse)
  {
    if !JcnOccurs(index, corpNum) {
      return Failure(UnknownCorporation(corpNum)), [];
    }
    var docs: Dict<string, Dict<string, T>> := Dict([], map[]);
    fetched := [];
    var corpRecord := SelectByJcn(index, corpNum);
    for i := 0 to |corpRecord|
      invariant Collect(CsvDocIds(corpRecord[..i]), Requests(network, parse)) == (Success(docs), fetched)
    {
      var row := corpRecord[i];
      if !HasCsv(row) {
        CsvDocIdsStep(corpRecord, i);
        assert CsvDocIds(corpRecord[..i + 1]) == CsvDocIds(corpRecord[..i]);
        assert Collect(CsvDocIds(corpRecord[..i + 1]), Requests(network, parse)) == (Success(docs), fetched);
        continue;
      }
      var tables, _ := GetDocument(network(|fetched|, row.docID), parse);
      assert tables == Requests(network, parse)(|fetched|, row.docID);
      WalkStep(corpRecord, i, Requests(network, parse), docs, fetched);
      fetched := fetched + [row.docID];
      if tables.Failure? {
        r := Failure(tables.error);
        return;
      }
      docs := Put(docs, row.docID, tables.value);
      assert Collect(CsvDocIds(corpRecord[..i + 1]), Requests(network, parse)) == (Success(docs), fetched);
    }
    assert corpRecord[..|corpRecord|] == corpRecord;
    r := Success(docs);
  }
}
