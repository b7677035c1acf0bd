/**
 * get_document: one request to the disclosure API for a document, whose
 * answer is a ZIP archive; every member whose name ends in ".csv" in any
 * letter case is parsed into a table, keyed by its name in the archive.
 * The request itself, the unzipping and the UTF-16 tab-separated parsing are
 * outside the model: the response arrives as a status, a body text and the
 * archive's members, and the parser is a parameter.
 */
module Fetcher {

  import opened Wrappers
  import opened Errors
  import opened Dicts
  import opened Rows

  /** A member of the archive: its name and its uncompressed bytes. */
  datatype Member = Member(name: string, data: seq<bv8>)

  /** The HTTP answer: status code, body as text, and the body read as a ZIP archive, members in directory order. */
  datatype Response = Response(status: int, text: string, archive: seq<Member>)

  const StatusOk := 200

  function LowerChar(c: char): char {
    if 'A' <= c <= 'Z' then (c as int + 32) as char else c
  }

  function Lower(s: string): string {
    seq(|s|, i requires 0 <= i < |s| => LowerChar(s[i]))
  }

  predicate EndsWith(s: string, suffix: string) {
    |suffix| <= |s| && s[|s| - |suffix|..] == suffix
  }

  /** `name.lower().endswith(".csv")` */
  predicate IsCsvName(name: string) {
    EndsWith(Lower(name), ".csv")
  }

  /** The suffix test looks at the last four characters only, each in either case. */
  lemma IsCsvNameLastFour(name: string)
    ensures IsCsvName(name) <==>
      && |name| >= 4
      && name[|name| - 4] == '.'
      && (name[|name| - 3] == 'c' || name[|name| - 3] == 'C')
      && (name[|name| - 2] == 's' || name[|name| - 2] == 'S')
      && (name[|name| - 1] == 'v' || name[|name| - 1] == 'V')
  {
    if |name| >= 4 {
      var t := Lower(name)[|name| - 4..];
      assert t == [LowerChar(name[|name| - 4]), LowerChar(name[|name| - 3]),
                   LowerChar(name[|name| - 2]), LowerChar(name[|name| - 1])];
    }
  }

  /** `zf.namelist()`: every member's name in directory order, repeats included. */
  function NameList(archive: seq<Member>): seq<string> {
    seq(|archive|, i requires 0 <= i < |archive| => archive[i].name)
  }

  /** `zf.open(name).read()`: the bytes of the LAST member carrying that name. */
  function Open(archive: seq<Member>, name: string): (data: seq<bv8>)
    requires name in NameList(archive)
    ensures exists i :: 0 <= i < |archive| && archive[i].name == name && archive[i].data == data
                        && forall j :: i < j < |archive| ==> archive[j].name != name
  {
    var n := |archive|;
    if archive[n - 1].name == name then archive[n - 1].data
    else
      assert name in NameList(archive[..n - 1]) by {
        var i :| 0 <= i < n && NameList(archive)[i] == name;
        assert NameList(archive[..n - 1])[i] == name;
      }
      Open(archive[..n - 1], name)
  }

  /** The (name, table) pairs assigned to the result dict, one per ".csv" name in `names`, in order. */
  function CsvPairs<T>(names: seq<string>, archive: seq<Member>, parse: seq<bv8> -> T): seq<(string, T)>
    requires forall n | n in names :: n in NameList(archive)
  {
    var csv := Filter(names, IsCsvName);
    seq(|csv|, k requires 0 <= k < |csv| => (csv[k], parse(Open(archive, csv[k]))))
  }

  /** The dict get_document returns after a successful request. */
  function Tables<T>(archive: seq<Member>, parse: seq<bv8> -> T): Dict<string, T> {
    FromPairs(CsvPairs(NameList(archive), archive, parse))
  }

  /** What get_document returns or raises for a given response. */
  function Fetch<T>(response: Response, parse: seq<bv8> -> T): Result<Dict<string, T>, Error> {
    if response.status != StatusOk then Failure(RemoteFetch(response.status, response.text))
    else Success(Tables(response.archive, parse))
  }

  /**
   * A non-200 status is an error carrying the status and body.  Otherwise the
   * keys are exactly the ".csv" names of the archive (in any letter case,
   * under their original spelling), each mapped to the parse of what
   * `zf.open` reads for it; an archive with no such member gives an empty
   * dict, not an error.
   */
  lemma FetchSpec<T>(response: Response, parse: seq<bv8> -> T)
    ensures response.status != StatusOk <==> Fetch(response, parse) == Failure(RemoteFetch(response.status, response.text))
    ensures response.status == StatusOk ==>
      && Fetch(response, parse).Success?
      && (forall name :: name in Fetch(response, parse).value.entries <==> name in NameList(response.archive) && IsCsvName(name))
      && (forall name | name in Fetch(response, parse).value.entries ::
            name in NameList(response.archive) && Fetch(response, parse).value.entries[name] == parse(Open(response.archive, name)))
    ensures response.status == StatusOk && (forall name | name in NameList(response.archive) :: !IsCsvName(name)) ==>
      Fetch(response, parse).value.entries == map[]
  {
    if response.status == StatusOk {
      var names := NameList(response.archive);
      var pairs := CsvPairs(names, response.archive, parse);
      var d := Tables(response.archive, parse);
      forall name
        ensures name in d.entries <==> name in names && IsCsvName(name)
      {
        FromPairsDomain(pairs, name);
        if name in names && IsCsvName(name) {
          var i :| 0 <= i < |names| && names[i] == name;
          assert name in Filter(names, IsCsvName);
          var k :| 0 <= k < |Filter(names, IsCsvName)| && Filter(names, IsCsvName)[k] == name;
          assert pairs[k].0 == name;
        }
      }
      forall name | name in d.entries
        ensures d.entries[name] == parse(Open(response.archive, name))
      {
        FromPairsValue(pairs, name);
      }
    }
  }

  /** The i-th pair is keyed by the i-th ".csv" name. */
  lemma CsvPairsNames<T>(names: seq<string>, archive: seq<Member>, parse: seq<bv8> -> T)
    requires forall n | n in names :: n in NameList(archive)
    ensures |CsvPairs(names, archive, parse)| == |Filter(names, IsCsvName)|
    ensures forall k | 0 <= k < |CsvPairs(names, archive, parse)| :: CsvPairs(names, archive, parse)[k].0 == Filter(names, IsCsvName)[k]
  {
  }

  /**
   * The tables come in the order their ".csv" names are first listed by
   * `namelist()`: of two keys, the earlier one is listed before the later
   * one is ever listed.
   */
  lemma TablesOrder<T>(archive: seq<Member>, parse: seq<bv8> -> T, a: nat, b: nat)
    requires a < b < |Tables(archive, parse).keys|
    ensures exists p :: 0 <= p < |NameList(archive)| && NameList(archive)[p] == Tables(archive, parse).keys[a]
                        && forall j :: 0 <= j <= p ==> NameList(archive)[j] != Tables(archive, parse).keys[b]
  {
    CsvPairsNames(NameList(archive), archive, parse);
    SelectedKeyOrder(NameList(archive), IsCsvName, CsvPairs(NameList(archive), archive, parse), a, b);
  }

  /** TablesOrder for any pairs keyed, one by one, by the names a test selects from a name list. */
  lemma SelectedKeyOrder<V>(names: seq<string>, keep: string -> bool, pairs: seq<(string, V)>, a: nat, b: nat)
    requires |pairs| == |Filter(names, keep)|
    requires forall k | 0 <= k < |pairs| :: pairs[k].0 == Filter(names, keep)[k]
    requires a < b < |FromPairs(pairs).keys|
    ensures exists p :: 0 <= p < |names| && names[p] == FromPairs(pairs).keys[a]
                        && forall j :: 0 <= j <= p ==> names[j] != FromPairs(pairs).keys[b]
  {
    var csv := Filter(names, keep);
    var d := FromPairs(pairs);
    FilterIsKeptIndices(names, keep);
    FromPairsOrder(pairs, a, b);
    var i :| 0 <= i < |pairs| && pairs[i].0 == d.keys[a] && forall j :: 0 <= j <= i ==> pairs[j].0 != d.keys[b];
    var p := KeptIndices(names, keep)[i];
    assert names[p] == d.keys[a];
    FromPairsDomain(pairs, d.keys[b]);
    var n :| 0 <= n < |pairs| && pairs[n].0 == d.keys[b];
    assert csv[n] in csv;
    assert keep(d.keys[b]);
    forall j | 0 <= j <= p
      ensures names[j] != d.keys[b]
    {
      if keep(names[j]) {
        var m := FilterEarlierRow(names, keep, i, j);
        assert pairs[m].0 == names[j];
      }
    }
  }

  /** One more name in the walk appends at most one pair. */
  lemma CsvPairsSnoc<T>(names: seq<string>, name: string, archive: seq<Member>, parse: seq<bv8> -> T)
    requires forall n | n in names + [name] :: n in NameList(archive)
    ensures CsvPairs(names + [name], archive, parse) ==
      CsvPairs(names, archive, parse) + (if IsCsvName(name) then [(name, parse(Open(archive, name)))] else [])
  {
    assert (names + [name])[..|names|] == names;
  }

  /**
   * get_document for one response: the status gate, then the walk over the
   * name list.  `extracted` records the names passed to `zf.open`, in order:
   * none on an error status.
   */
  method GetDocument<T>(response: Response, parse: seq<bv8> -> T) returns (r: Result<Dict<string, T>, Error>, extracted: seq<string>)
    ensures r == Fetch(response, parse)
    ensures response.status != StatusOk ==> extracted == []
    ensures response.status == StatusOk ==> extracted == Filter(NameList(response.archive), IsCsvName)
  {
    if response.status != StatusOk {
      return Failure(RemoteFetch(response.status, response.text)), [];
    }
    var fileNames := NameList(response.archive);
    var tables: Dict<string, T> := Dict([], map[]);
    extracted := [];
    for i := 0 to |fileNames|
      invariant extracted == Filter(fileNames[..i], IsCsvName)
      invariant tables == FromPairs(CsvPairs(fileNames[..i], response.archive, parse))
    {
      var name := fileNames[i];
      assert fileNames[..i + 1] == fileNames[..i] + [name];
      assert fileNames[..i + 1][..i] == fileNames[..i];
      CsvPairsSnoc(fileNames[..i], name, response.archive, parse);
      if IsCsvName(name) {
        var raw := Open(response.archive, name);
        extracted := extracted + [name];
        ghost var pairs := CsvPairs(fileNames[..i + 1], response.archive, parse);
        assert pairs[..|pairs| - 1] == CsvPairs(fileNames[..i], response.archive, parse);
        tables := Put(tables, name, parse(raw));
      }
    }
    assert fileNames[..|fileNames|] == fileNames;
    r := Success(tables);
  }

  /** The suffix test on the names of the example archive below. */
  lemma CsvNameExamples()
    ensures IsCsvName("data.CSV") && !IsCsvName("readme.txt") && IsCsvName("table.csv")
  {
    IsCsvNameLastFour("data.CSV");
    IsCsvNameLastFour("readme.txt");
    IsCsvNameLastFour("table.csv");
  }

  /** The name list of the example archive below, and what `zf.open` reads for its ".csv" names. */
  lemma MixedArchiveMembers(a: seq<bv8>, b: seq<bv8>, c: seq<bv8>)
    ensures var archive := [Member("data.CSV", a), Member("readme.txt", b), Member("table.csv", c)];
      && NameList(archive) == ["data.CSV", "readme.txt", "table.csv"]
      && Open(archive, "data.CSV") == a && Open(archive, "table.csv") == c
  {
    var archive := [Member("data.CSV", a), Member("readme.txt", b), Member("table.csv", c)];
    assert NameList(archive) == ["data.CSV", "readme.txt"] + ["table.csv"];
    assert Open(archive, "table.csv") == c;
    assert Open(archive, "data.CSV") == a by {
      assert archive[..2][..1] == [Member("data.CSV", a)];
    }
  }

  /** The ".csv" names of the example archive below. */
  lemma MixedArchiveCsvNames()
    ensures Filter(["data.CSV", "readme.txt", "table.csv"], IsCsvName) == ["data.CSV", "table.csv"]
  {
    var names := ["data.CSV", "readme.txt", "table.csv"];
    CsvNameExamples();
    assert names[..2] == ["data.CSV", "readme.txt"];
    assert names[..2][..1] == ["data.CSV"];
    assert names[..2][..1][..0] == [];
    assert Filter(names[..2][..1], IsCsvName) == ["data.CSV"];
    assert Filter(names[..2], IsCsvName) == ["data.CSV"];
  }

  /** The pairs assigned while walking the example archive below. */
  lemma MixedArchivePairs<T>(a: seq<bv8>, b: seq<bv8>, c: seq<bv8>, parse: seq<bv8> -> T)
    ensures var archive := [Member("data.CSV", a), Member("readme.txt", b), Member("table.csv", c)];
      CsvPairs(NameList(archive), archive, parse) == [("data.CSV", parse(a)), ("table.csv", parse(c))]
  {
    var archive := [Member("data.CSV", a), Member("readme.txt", b), Member("table.csv", c)];
    MixedArchiveMembers(a, b, c);
    MixedArchiveCsvNames();
    var pairs := CsvPairs(NameList(archive), archive, parse);
    assert |pairs| == 2;
    assert pairs[0] == ("data.CSV", parse(a));
    assert pairs[1] == ("table.csv", parse(c));
  }

  /** The archive of three members ["data.CSV", "readme.txt", "table.csv"] yields exactly the two ".csv" tables, in that order. */
  lemma MixedArchiveExample<T>(a: seq<bv8>, b: seq<bv8>, c: seq<bv8>, parse: seq<bv8> -> T)
    ensures var d := Tables([Member("data.CSV", a), Member("readme.txt", b), Member("table.csv", c)], parse);
      && d.keys == ["data.CSV", "table.csv"]
      && d.entries == map["data.CSV" := parse(a), "table.csv" := parse(c)]
  {
    MixedArchivePairs(a, b, c, parse);
    var pairs := [("data.CSV", parse(a)), ("table.csv", parse(c))];
    assert pairs[..1] == [("data.CSV", parse(a))];
    assert pairs[..1][..0] == [];
    assert "data.CSV" != "table.csv" by {
      assert "data.CSV"[0] != "table.csv"[0];
    }
    assert FromPairs(pairs[..1][..0]) == Dict([], map[]);
    var d1 := FromPairs(pairs[..1]);
    assert d1 == Dict(["data.CSV"], map["data.CSV" := parse(a)]);
    assert FromPairs(pairs) == Put(d1, "table.csv", parse(c));
  }
}
