/**
 * The two lookup dicts main builds once the registry is loaded:
 * `{jcn: name for jcn, name in zip(df[JCN column], df[name column])}`.
 * A JCN listed twice ends up with the name of its last row.
 */
module Dashboard {

  import opened Dicts
  import opened Registry

  /** `zip(doc_list["JCN"], doc_list["filerName"])` */
  function FilerNamePairs(docs: seq<DocRow>): seq<(string, string)> {
    seq(|docs|, i requires 0 <= i < |docs| => (docs[i].jcn, docs[i].filerName))
  }

  /** `zip` of the master list's corporate-number and name columns */
  function CorpNamePairs(corps: seq<CorpRow>): seq<(string, string)> {
    seq(|corps|, i requires 0 <= i < |corps| => (corps[i].jcn, corps[i].name))
  }

  /** jcn_to_name_doc: JCN to filer name, over the document index */
  function JcnToFilerName(docs: seq<DocRow>): Dict<string, string> {
    FromPairs(FilerNamePairs(docs))
  }

  /** jcn_to_name: JCN to filer name, over the corporate master list */
  function JcnToCorpName(corps: seq<CorpRow>): Dict<string, string> {
    FromPairs(CorpNamePairs(corps))
  }

  /**
   * The document-index lookup has a key for exactly the JCNs of the index, and
   * each JCN maps to the filer name of the last row carrying it.
   */
  lemma JcnToFilerNameSpec(docs: seq<DocRow>)
    ensures forall jcn :: jcn in JcnToFilerName(docs).entries <==> exists i | 0 <= i < |docs| :: docs[i].jcn == jcn
    ensures forall i | 0 <= i < |docs| && (forall j | i < j < |docs| :: docs[j].jcn != docs[i].jcn) ::
      docs[i].jcn in JcnToFilerName(docs).entries && JcnToFilerName(docs).entries[docs[i].jcn] == docs[i].filerName
  {
    var pairs := FilerNamePairs(docs);
    forall jcn
      ensures jcn in JcnToFilerName(docs).entries <==> exists i | 0 <= i < |docs| :: docs[i].jcn == jcn
    {
      FromPairsDomain(pairs, jcn);
      if exists i | 0 <= i < |docs| :: docs[i].jcn == jcn {
        var i :| 0 <= i < |docs| && docs[i].jcn == jcn;
        assert pairs[i].0 == jcn;
      }
    }
    forall i | 0 <= i < |docs| && (forall j | i < j < |docs| :: docs[j].jcn != docs[i].jcn)
      ensures docs[i].jcn in JcnToFilerName(docs).entries && JcnToFilerName(docs).entries[docs[i].jcn] == docs[i].filerName
    {
      FromPairsLastWins(pairs, i);
    }
  }

  /**
   * The master-list lookup has a key for exactly the JCNs of the list, and
   * each JCN maps to the name of the last row carrying it.
   */
  lemma JcnToCorpNameSpec(corps: seq<CorpRow>)
    ensures forall jcn :: jcn in JcnToCorpName(corps).entries <==> exists i | 0 <= i < |corps| :: corps[i].jcn == jcn
    ensures forall i | 0 <= i < |corps| && (forall j | i < j < |corps| :: corps[j].jcn != corps[i].jcn) ::
      corps[i].jcn in JcnToCorpName(corps).entries && JcnToCorpName(corps).entries[corps[i].jcn] == corps[i].name
  {
    var pairs := CorpNamePairs(corps);
    forall jcn
      ensures jcn in JcnToCorpName(corps).entries <==> exists i | 0 <= i < |corps| :: corps[i].jcn == jcn
    {
      FromPairsDomain(pairs, jcn);
      if exists i | 0 <= i < |corps| :: corps[i].jcn == jcn {
        var i :| 0 <= i < |corps| && corps[i].jcn == jcn;
        assert pairs[i].0 == jcn;
      }
    }
    forall i | 0 <= i < |corps| && (forall j | i < j < |corps| :: corps[j].jcn != corps[i].jcn)
      ensures corps[i].jcn in JcnToCorpName(corps).entries && JcnToCorpName(corps).entries[corps[i].jcn] == corps[i].name
    {
      FromPairsLastWins(pairs, i);
    }
  }

  /** Two rows of one JCN: the later filer name overwrites the earlier. */
  lemma DuplicateJcnOverwritesExample(a: DocRow, b: DocRow)
    requires a.jcn == b.jcn
    ensures JcnToFilerName([a, b]).keys == [a.jcn]
    ensures JcnToFilerName([a, b]).entries == map[a.jcn := b.filerName]
  {
    var pairs := FilerNamePairs([a, b]);
    assert pairs == [(a.jcn, a.filerName), (b.jcn, b.filerName)];
    assert pairs[..1] == [(a.jcn, a.filerName)];
    assert pairs[..1][..0] == [];
    assert FromPairs(pairs[..1][..0]) == Dict([], map[]);
    assert FromPairs(pairs[..1]) == Dict([a.jcn], map[a.jcn := a.filerName]);
  }
}
