/** The read side of the store and the enrichment engine: listing genes,
    looking up gene metadata, listing terms, the genes of a term, and the
    hypergeometric over-representation test. */
module Subtiwiki {

  import opened Collections
  import opened Hypergeometric
  import opened Tables

  const ALL := "all"

  const GENE_INFO_HEADER := GeneInfo("Gene", "Locus", "Description", "Review PMIDs", "Paper PMIDs")

  const ENRICHMENT_COLUMNS := ["Term Type", "Term", "P-value", "Overlapping Genes"]

  // ---------------------------------------------------------------- genes

  /** The gene universe: every symbol with a `gene_info` row. */
  ghost function Universe(store: Store): set<string>
  {
    set row | row in store.geneInfo :: row.gene
  }

  /** `get_all_genes`: every symbol of `gene_info` exactly once; symbols that
      occur only in `term_gene` are not part of it. */
  function AllGenes(store: Store): (r: seq<string>)
    ensures NoDups(r)
    ensures forall g :: g in r <==> exists row :: row in store.geneInfo && row.gene == g
    ensures |r| == |Universe(store)|
  {
    var symbols := Symbols(store.geneInfo);
    var r := Distinct(symbols);
    assert Elements(r) == Universe(store);
    NoDupsCard(r);
    r
  }

  /** The symbol of each row, in row order. */
  function Symbols(rows: seq<GeneInfo>): (r: seq<string>)
    ensures forall g :: g in r <==> exists row :: row in rows && row.gene == g
  {
    if rows == [] then []
    else
      assert forall row :: row in rows <==> row == rows[0] || row in rows[1..];
      [rows[0].gene] + Symbols(rows[1..])
  }

  /** The rows `SELECT * FROM gene_info WHERE gene = ?` returns: every row
      with that symbol, as often as it is stored, and no other. */
  function Matching(rows: seq<GeneInfo>, gene: string): (r: seq<GeneInfo>)
    ensures forall row :: multiset(r)[row] == if row.gene == gene then multiset(rows)[row] else 0
  {
    if rows == [] then []
    else
      assert rows == [rows[0]] + rows[1..];
      (if rows[0].gene == gene then [rows[0]] else []) + Matching(rows[1..], gene)
  }

  /** The rows of every symbol of `genes`, one symbol after the other. */
  function InfoRows(rows: seq<GeneInfo>, genes: seq<string>): seq<GeneInfo>
  {
    if genes == [] then []
    else InfoRows(rows, genes[..|genes| - 1]) + Matching(rows, genes[|genes| - 1])
  }

  /** Looking up a list of symbols is looking up each part of it in turn. */
  lemma {:induction false} InfoRowsAppend(rows: seq<GeneInfo>, a: seq<string>, b: seq<string>)
    ensures InfoRows(rows, a + b) == InfoRows(rows, a) + InfoRows(rows, b)
    decreases |b|
  {
    if b != [] {
      var init := b[..|b| - 1];
      assert (a + b)[..|a + b| - 1] == a + init;
      InfoRowsAppend(rows, a, init);
    } else {
      assert a + b == a;
    }
  }

  /** A row is in the answer exactly when it is stored and its symbol was
      asked for. */
  lemma {:induction false} InfoRowsMembers(rows: seq<GeneInfo>, genes: seq<string>)
    ensures forall row :: row in InfoRows(rows, genes) <==> row in rows && row.gene in genes
  {
    if genes != [] {
      var init := genes[..|genes| - 1];
      var last := genes[|genes| - 1];
      InfoRowsMembers(rows, init);
      assert forall g :: g in genes <==> g in init || g == last;
      forall row
        ensures row in Matching(rows, last) <==> row in rows && row.gene == last
      {
        assert row in Matching(rows, last) <==> multiset(Matching(rows, last))[row] > 0;
      }
    }
  }

  /** A symbol with no `gene_info` row adds nothing and is not an error. */
  lemma UnknownSymbolAddsNothing(rows: seq<GeneInfo>, a: seq<string>, g: string, b: seq<string>)
    requires forall row :: row in rows ==> row.gene != g
    ensures InfoRows(rows, a + [g] + b) == InfoRows(rows, a + b)
  {
    InfoRowsAppend(rows, a + [g], b);
    InfoRowsAppend(rows, a, [g]);
    InfoRowsAppend(rows, a, b);
    assert [g][..0] == [];
    var m := Matching(rows, g);
    forall row: GeneInfo ensures multiset(m)[row] == 0
    {
      assert row.gene == g ==> row !in rows;
    }
    assert multiset(m) == multiset{};
    assert |m| == |multiset(m)|;
  }

  /** `get_gene_info`: the rows of each symbol in turn, after the header row
      when `returnHeader` is set (the default). */
  method GetGeneInfo(store: Store, genes: seq<string>, returnHeader: bool := true) returns (results: seq<GeneInfo>)
    ensures results == (if returnHeader then [GENE_INFO_HEADER] else []) + InfoRows(store.geneInfo, genes)
  {
    results := [];
    for i := 0 to |genes|
      invariant results == InfoRows(store.geneInfo, genes[..i])
    {
      var r := Matching(store.geneInfo, genes[i]);
      assert genes[..i + 1][..i] == genes[..i];
      results := results + r;
    }
    assert genes[..|genes|] == genes;
    if returnHeader {
      results := [GENE_INFO_HEADER] + results;
    }
  }

  // ---------------------------------------------------------------- terms

  /** A term is identified by its type and its name. */
  datatype TermId = TermId(termType: string, term: string)

  /** Whether a `term_gene` row is selected by a mode: every row for "all",
      otherwise the rows of that type. */
  predicate InMode(a: Association, mode: string)
  {
    mode == ALL || a.termType == mode
  }

  /** The (type, term) pair of each row the mode selects, in row order. */
  function SelectedIds(rows: seq<Association>, mode: string): (r: seq<TermId>)
    ensures forall t :: t in r <==> exists a :: a in rows && InMode(a, mode) && t == TermId(a.termType, a.term)
  {
    if rows == [] then []
    else
      var rest := SelectedIds(rows[1..], mode);
      assert forall a :: a in rows <==> a == rows[0] || a in rows[1..];
      if InMode(rows[0], mode) then [TermId(rows[0].termType, rows[0].term)] + rest else rest
  }

  /** `get_all_term_id_names`: the distinct (type, term) pairs of `term_gene`,
      restricted to one type unless the mode is "all". */
  function AllTermIdNames(store: Store, mode: string := ALL): (r: seq<TermId>)
    ensures NoDups(r)
    ensures forall t :: t in r <==>
              exists a :: a in store.termGene && InMode(a, mode) && t == TermId(a.termType, a.term)
    ensures mode != ALL ==> forall t :: t in r ==> t.termType == mode
  {
    Distinct(SelectedIds(store.termGene, mode))
  }

  /** When every stored type is one of the three the ingestion writes, the
      "all" listing is the union of the three single-type listings. */
  lemma ModesPartitionAll(store: Store)
    requires forall a :: a in store.termGene ==> a.termType in {CATEGORY, REGULATIONS, OPERONS}
    ensures Elements(AllTermIdNames(store, ALL)) ==
              Elements(AllTermIdNames(store, CATEGORY))
              + Elements(AllTermIdNames(store, REGULATIONS))
              + Elements(AllTermIdNames(store, OPERONS))
  {
    var all := AllTermIdNames(store, ALL);
    var cat := AllTermIdNames(store, CATEGORY);
    var reg := AllTermIdNames(store, REGULATIONS);
    var op := AllTermIdNames(store, OPERONS);
    forall t | t in all ensures t in cat || t in reg || t in op
    {
      var a :| a in store.termGene && InMode(a, ALL) && t == TermId(a.termType, a.term);
      assert InMode(a, a.termType);
    }
    forall t | t in cat || t in reg || t in op ensures t in all
    {
      var mode := if t in cat then CATEGORY else if t in reg then REGULATIONS else OPERONS;
      var a :| a in store.termGene && InMode(a, mode) && t == TermId(a.termType, a.term);
      assert InMode(a, ALL);
    }
  }

  /** Number of `term_gene` rows with this term name and this gene. */
  function RowCount(rows: seq<Association>, term: string, gene: string): nat
  {
    if rows == [] then 0
    else (if rows[0].term == term && rows[0].gene == gene then 1 else 0) + RowCount(rows[1..], term, gene)
  }

  /** `get_term_genes`: the gene of every row whose term NAME matches,
      whatever its type and level, each as often as it is stored. The
      `threshold` argument is accepted and ignored. */
  function TermGenes(store: Store, term: string, threshold: int := 3): (r: seq<string>)
    ensures forall g :: multiset(r)[g] == RowCount(store.termGene, term, g)
  {
    GenesOf(store.termGene, term)
  }

  function GenesOf(rows: seq<Association>, term: string): (r: seq<string>)
    ensures forall g :: multiset(r)[g] == RowCount(rows, term, g)
  {
    if rows == [] then []
    else
      var rest := GenesOf(rows[1..], term);
      if rows[0].term == term then [rows[0].gene] + rest else rest
  }

  /** The genes of a term name, as a set. */
  ghost function TermGeneSet(store: Store, term: string): set<string>
  {
    set a | a in store.termGene && a.term == term :: a.gene
  }

  lemma {:induction false} RowCountPositive(rows: seq<Association>, term: string, gene: string)
    ensures RowCount(rows, term, gene) > 0 <==> exists a :: a in rows && a.term == term && a.gene == gene
  {
    if rows != [] {
      RowCountPositive(rows[1..], term, gene);
      assert forall a :: a in rows <==> a == rows[0] || a in rows[1..];
    }
  }

  /** The set of `get_term_genes(term)` is the term's gene set. */
  lemma TermGenesElements(store: Store, term: string, threshold: int)
    ensures Elements(TermGenes(store, term, threshold)) == TermGeneSet(store, term)
  {
    var r := TermGenes(store, term, threshold);
    RowCountPositive(store.termGene, term, "");
    forall g ensures g in r <==> g in TermGeneSet(store, term)
    {
      RowCountPositive(store.termGene, term, g);
      assert g in r <==> multiset(r)[g] > 0;
    }
  }

  // ---------------------------------------------------------------- enrichment

  /** A row of the enrichment result: the header, or one term's
      (type, term, p-value, overlapping genes). */
  datatype Row =
    | Header(columns: seq<string>)
    | Cell(termType: string, term: string, pValue: PValue, overlap: seq<string>)

  predicate AllCells(rows: seq<Row>)
  {
    forall c :: c in rows ==> c.Cell?
  }

  /** At most one row per term name. */
  predicate DistinctTerms(rows: seq<Row>)
  {
    forall i, j :: 0 <= i < j < |rows| && rows[i].Cell? && rows[j].Cell? ==> rows[i].term != rows[j].term
  }

  /** The order on p-values the ranking uses; NaN ranks after every number. */
  predicate PLe(p: PValue, q: PValue)
  {
    match (p, q)
    case (Num(x), Num(y)) => x <= y
    case (Num(_), NaN) => true
    case (NaN, Num(_)) => false
    case (NaN, NaN) => true
  }

  lemma PLeTotalPreorder(p: PValue, q: PValue, s: PValue)
    ensures PLe(p, p)
    ensures PLe(p, q) || PLe(q, p)
    ensures PLe(p, q) && PLe(q, s) ==> PLe(p, s)
  {
  }

  /** Ascending by p-value. */
  predicate SortedByPValue(rows: seq<Row>)
  {
    forall i, j :: 0 <= i < j < |rows| && rows[i].Cell? && rows[j].Cell? ==> PLe(rows[i].pValue, rows[j].pValue)
  }

  /** What the test reports for one term: the overlap of the query with the
      term's genes, each once and none missing, never empty, and
      `1 - cdf(k - 1; N, K, n)` with N the size of the gene universe, K the
      number of distinct genes of the term name, n the number of distinct
      query genes and k the size of the overlap. */
  ghost predicate IsEnrichment(store: Store, query: set<string>, c: Row)
  {
    && c.Cell?
    && NoDups(c.overlap)
    && Elements(c.overlap) == query * TermGeneSet(store, c.term)
    && |c.overlap| > 0
    && c.pValue == Complement(HypergeomCdf(|c.overlap| - 1, |Universe(store)|, |TermGeneSet(store, c.term)|, |query|))
  }

  /** The row's (type, term) pair is in `terms`, and no later pair of `terms`
      has the same name: the last of several same-named terms wins. */
  ghost predicate IsLastOfName(terms: seq<TermId>, c: Row)
  {
    && c.Cell?
    && exists j :: 0 <= j < |terms| && terms[j] == TermId(c.termType, c.term)
                   && forall j' :: j < j' < |terms| ==> terms[j'].term != c.term
  }

  lemma LastOfNameKept(terms: seq<TermId>, t: TermId, c: Row)
    requires IsLastOfName(terms, c) && t.term != c.term
    ensures IsLastOfName(terms + [t], c)
  {
    var j :| 0 <= j < |terms| && terms[j] == TermId(c.termType, c.term)
             && forall j' :: j < j' < |terms| ==> terms[j'].term != c.term;
    assert (terms + [t])[j] == terms[j];
  }

  lemma LastOfNameNew(terms: seq<TermId>, t: TermId, c: Row)
    requires c.Cell? && t == TermId(c.termType, c.term)
    ensures IsLastOfName(terms + [t], c)
  {
    assert (terms + [t])[|terms|] == t;
  }

  /** `cells[term] = c` on a Python dict kept as its items in insertion
      order: an existing entry of the same name is replaced where it stands,
      otherwise the entry is appended. */
  function Put(cells: seq<Row>, c: Row): (r: seq<Row>)
    requires c.Cell? && AllCells(cells) && DistinctTerms(cells)
    ensures AllCells(r) && DistinctTerms(r)
    ensures |r| == |cells| || (|r| == |cells| + 1 && r[|cells|] == c)
    ensures forall i :: 0 <= i < |cells| ==> r[i] == if cells[i].term == c.term then c else cells[i]
    ensures |r| == |cells| + 1 <==> forall x :: x in cells ==> x.term != c.term
  {
    if cells == [] then [c]
    else if cells[0].term == c.term then [c] + cells[1..]
    else
      assert AllCells(cells[1..]) && DistinctTerms(cells[1..]);
      var rest := Put(cells[1..], c);
      assert forall x :: x in cells <==> x == cells[0] || x in cells[1..];
      [cells[0]] + rest
  }

  /** `list(s)`: the elements of a set, each once, in an order the set does
      not determine. */
  method ListOf(s: set<string>) returns (r: seq<string>)
    ensures NoDups(r) && Elements(r) == s
  {
    r := [];
    var rest := s;
    while rest != {}
      invariant NoDups(r)
      invariant Elements(r) !! rest && Elements(r) + rest == s
      decreases rest
    {
      var x :| x in rest;
      r := r + [x];
      rest := rest - {x};
    }
  }

  /** Where a row with p-value `p` goes in a sorted sequence so that the
      rows before it are not above it and the rows after it are above it. */
  method InsertionPoint(sorted: seq<Row>, p: PValue) returns (j: nat)
    requires AllCells(sorted) && SortedByPValue(sorted)
    ensures j <= |sorted|
    ensures forall m :: 0 <= m < j ==> PLe(sorted[m].pValue, p)
    ensures forall m :: j <= m < |sorted| ==> !PLe(sorted[m].pValue, p)
  {
    j := |sorted|;
    while j > 0 && !PLe(sorted[j - 1].pValue, p)
      invariant 0 <= j <= |sorted|
      invariant forall m :: j <= m < |sorted| ==> !PLe(sorted[m].pValue, p)
    {
      j := j - 1;
    }
    forall m | 0 <= m < j ensures PLe(sorted[m].pValue, p)
    {
      PLeTotalPreorder(sorted[m].pValue, sorted[j - 1].pValue, p);
    }
  }

  lemma InsertKeepsSorted(sorted: seq<Row>, j: nat, c: Row)
    requires AllCells(sorted) && SortedByPValue(sorted) && c.Cell? && j <= |sorted|
    requires forall m :: 0 <= m < j ==> PLe(sorted[m].pValue, c.pValue)
    requires forall m :: j <= m < |sorted| ==> !PLe(sorted[m].pValue, c.pValue)
    ensures SortedByPValue(sorted[..j] + [c] + sorted[j..])
  {
    forall m | j <= m < |sorted| ensures PLe(c.pValue, sorted[m].pValue)
    {
      PLeTotalPreorder(sorted[m].pValue, c.pValue, c.pValue);
    }
  }

  lemma InsertKeepsDistinct(sorted: seq<Row>, j: nat, c: Row)
    requires AllCells(sorted) && DistinctTerms(sorted) && c.Cell? && j <= |sorted|
    requires forall x :: x in sorted ==> x.term != c.term
    ensures DistinctTerms(sorted[..j] + [c] + sorted[j..])
  {
    var r := sorted[..j] + [c] + sorted[j..];
    forall a, b | 0 <= a < b < |r| && r[a].Cell? && r[b].Cell? ensures r[a].term != r[b].term
    {
      if a != j && b != j {
        var a', b' := if a < j then a else a - 1, if b < j then b else b - 1;
        assert r[a] == sorted[a'] && r[b] == sorted[b'];
      } else if a == j {
        assert r[b] in sorted;
      } else {
        assert r[a] in sorted;
      }
    }
  }

  /** `list.sort(key = p-value)`: a permutation of the rows in ascending order
      of p-value; equal p-values may come in any order. */
  method SortByPValue(cells: seq<Row>) returns (sorted: seq<Row>)
    requires AllCells(cells)
    ensures multiset(sorted) == multiset(cells)
    ensures AllCells(sorted) && SortedByPValue(sorted)
    ensures DistinctTerms(cells) ==> DistinctTerms(sorted)
  {
    sorted := [];
    for i := 0 to |cells|
      invariant multiset(sorted) == multiset(cells[..i])
      invariant AllCells(sorted) && SortedByPValue(sorted)
      invariant DistinctTerms(cells) ==> DistinctTerms(sorted)
    {
      var c := cells[i];
      var j := InsertionPoint(sorted, c.pValue);
      InsertKeepsSorted(sorted, j, c);
      if DistinctTerms(cells) {
        forall x | x in sorted ensures x.term != c.term
        {
          assert x in multiset(cells[..i]);
          var k :| 0 <= k < i && cells[k] == x;
        }
        InsertKeepsDistinct(sorted, j, c);
      }
      assert sorted == sorted[..j] + sorted[j..];
      assert cells[..i + 1] == cells[..i] + [c];
      sorted := sorted[..j] + [c] + sorted[j..];
    }
    assert cells[..|cells|] == cells;
  }

  /** The result rows after the header, if there is one. */
  ghost function Body(r: seq<Row>, withHeader: bool): seq<Row>
  {
    if withHeader && |r| > 0 then r[1..] else r
  }

  /** Every term of `terms` whose genes meet the query has a row of its
      name in `cells`. */
  ghost predicate Covered(store: Store, query: set<string>, terms: seq<TermId>, cells: seq<Row>)
  {
    forall t :: t in terms && query * TermGeneSet(store, t.term) != {} ==>
      exists c :: c in cells && c.Cell? && c.term == t.term
  }

  /** What the dict holds after the terms `terms` have been processed. */
  ghost predicate Tested(store: Store, query: set<string>, terms: seq<TermId>, cells: seq<Row>)
  {
    && AllCells(cells) && DistinctTerms(cells)
    && (forall c :: c in cells ==> IsEnrichment(store, query, c) && IsLastOfName(terms, c))
    && Covered(store, query, terms, cells)
  }

  /** A term whose genes miss the query changes nothing. */
  lemma SkipKeepsTested(store: Store, query: set<string>, terms: seq<TermId>, t: TermId, cells: seq<Row>)
    requires Tested(store, query, terms, cells)
    requires query * TermGeneSet(store, t.term) == {}
    ensures Tested(store, query, terms + [t], cells)
  {
    forall c | c in cells ensures IsLastOfName(terms + [t], c)
    {
      assert c.overlap[0] in Elements(c.overlap);
      LastOfNameKept(terms, t, c);
    }
  }

  /** Storing the row of a term whose genes meet the query, under its name. */
  lemma PutKeepsTested(store: Store, query: set<string>, terms: seq<TermId>, t: TermId, cells: seq<Row>, c: Row)
    requires Tested(store, query, terms, cells)
    requires IsEnrichment(store, query, c) && t == TermId(c.termType, c.term)
    ensures Tested(store, query, terms + [t], Put(cells, c))
  {
    var after := Put(cells, c);
    forall x | x in after ensures x == c || (x in cells && x.term != c.term)
    {
      var m :| 0 <= m < |after| && after[m] == x;
      if m < |cells| && cells[m].term != c.term {
        assert x == cells[m];
      }
    }
    forall x | x in cells && x.term != c.term ensures IsLastOfName(terms + [t], x)
    {
      LastOfNameKept(terms, t, x);
    }
    LastOfNameNew(terms, t, c);
    assert c in after by {
      if |after| == |cells| {
        var m :| 0 <= m < |cells| && cells[m].term == c.term;
        assert after[m] == c;
      }
    }
    forall u | u in terms + [t] && query * TermGeneSet(store, u.term) != {}
      ensures exists x :: x in after && x.Cell? && x.term == u.term
    {
      if u.term != c.term {
        assert u in terms;
        var x :| x in cells && x.Cell? && x.term == u.term;
        var m :| 0 <= m < |cells| && cells[m] == x;
        assert after[m] == x;
      }
    }
  }

  /** `hypergeometric_test`. For every term of the mode whose genes meet the
      deduplicated query, one row per term NAME (the last same-named term
      seen wins), with its overlap and its upper-tail p-value; terms with no
      overlap are left out; rows ascend by p-value; the header comes first
      when asked for. */
  method HypergeometricTest(store: Store, genes: seq<string>, returnHeader: bool := false, mode: string := ALL)
    returns (r: seq<Row>)
    ensures returnHeader ==> |r| > 0 && r[0] == Header(ENRICHMENT_COLUMNS)
    ensures forall c :: c in Body(r, returnHeader) ==> IsEnrichment(store, Elements(genes), c)
    ensures forall c :: c in Body(r, returnHeader) ==> IsLastOfName(AllTermIdNames(store, mode), c)
    ensures Covered(store, Elements(genes), AllTermIdNames(store, mode), Body(r, returnHeader))
    ensures DistinctTerms(Body(r, returnHeader))
    ensures SortedByPValue(Body(r, returnHeader))
    ensures genes == [] ==> Body(r, returnHeader) == []
  {
    var query := set g | g in genes;
    var allTerms := AllTermIdNames(store, mode);
    var allGenes := AllGenes(store);
    var cells: seq<Row> := [];
    for i := 0 to |allTerms|
      invariant Tested(store, query, allTerms[..i], cells)
    {
      var termType, term := allTerms[i].termType, allTerms[i].term;
      assert allTerms[..i + 1] == allTerms[..i] + [allTerms[i]];
      var genesTerm := set x | x in TermGenes(store, term);
      TermGenesElements(store, term, 3);
      var overlapping := query * genesTerm;
      if |overlapping| == 0 {
        SkipKeepsTested(store, query, allTerms[..i], allTerms[i], cells);
        continue;
      }
      var k := |overlapping|;
      var pv := HypergeomCdf(k - 1, |allGenes|, |genesTerm|, |query|);
      var overlap := ListOf(overlapping);
      NoDupsCard(overlap);
      var c := Cell(termType, term, Complement(pv), overlap);
      PutKeepsTested(store, query, allTerms[..i], allTerms[i], cells, c);
      cells := Put(cells, c);
    }
    assert allTerms[..|allTerms|] == allTerms;
    var sorted := SortByPValue(cells);
    SortedKeepsTested(store, query, allTerms, cells, sorted);
    if returnHeader {
      r := [Header(ENRICHMENT_COLUMNS)] + sorted;
      assert Body(r, returnHeader) == sorted;
    } else {
      r := sorted;
    }
  }

  /** Reordering the rows keeps what they say; and with an empty query there
      are none. */
  lemma SortedKeepsTested(store: Store, query: set<string>, terms: seq<TermId>, cells: seq<Row>, sorted: seq<Row>)
    requires Tested(store, query, terms, cells)
    requires multiset(sorted) == multiset(cells) && DistinctTerms(sorted)
    ensures Tested(store, query, terms, sorted)
    ensures query == {} ==> sorted == []
  {
    forall c ensures c in sorted <==> c in cells
    {
      assert c in sorted <==> c in multiset(sorted);
      assert c in cells <==> c in multiset(cells);
    }
    if sorted != [] {
      assert sorted[0] in cells;
      assert sorted[0].overlap[0] in Elements(sorted[0].overlap);
      assert sorted[0].overlap[0] in query;
    }
  }

  /** The counts behind a reported p-value: 1 <= k <= min(K, n), so a term
      is only ever tested with K >= 1. */
  lemma EnrichmentCounts(store: Store, query: set<string>, c: Row)
    requires IsEnrichment(store, query, c)
    ensures 1 <= |c.overlap| <= |TermGeneSet(store, c.term)|
    ensures |c.overlap| <= |query|
  {
    NoDupsCard(c.overlap);
    SubsetCard(Elements(c.overlap), TermGeneSet(store, c.term));
    SubsetCard(Elements(c.overlap), query);
  }

  /** The p-value a row reports, for any store: when N, K and n are valid
      parameters of the distribution it is exactly P(X >= k), between 0 and 1;
      otherwise (more query or term genes than the universe holds) it is NaN. */
  lemma EnrichmentPValue(store: Store, query: set<string>, c: Row)
    requires IsEnrichment(store, query, c)
    ensures var total, marked, draws := |Universe(store)|, |TermGeneSet(store, c.term)|, |query|;
            ValidParams(total, marked, draws) ==>
              && c.pValue == Num(UpperTail(total, marked, draws, |c.overlap|))
              && 0.0 <= c.pValue.value <= 1.0
    ensures !ValidParams(|Universe(store)|, |TermGeneSet(store, c.term)|, |query|) ==> c.pValue == NaN
  {
    var total, marked, draws := |Universe(store)|, |TermGeneSet(store, c.term)|, |query|;
    if ValidParams(total, marked, draws) {
      UpperTailFromCdf(total, marked, draws, |c.overlap|);
    }
  }

  /** When the query and the term's genes all lie in the gene universe, as they
      do for a store whose every symbol has a `gene_info` row, the parameters
      are valid, so the reported p-value is a number. */
  lemma EnrichmentPValueInUniverse(store: Store, query: set<string>, c: Row)
    requires IsEnrichment(store, query, c)
    requires query <= Universe(store) && TermGeneSet(store, c.term) <= Universe(store)
    ensures ValidParams(|Universe(store)|, |TermGeneSet(store, c.term)|, |query|)
    ensures c.pValue == Num(UpperTail(|Universe(store)|, |TermGeneSet(store, c.term)|, |query|, |c.overlap|))
  {
    EnrichmentCounts(store, query, c);
    SubsetCard(query, Universe(store));
    SubsetCard(TermGeneSet(store, c.term), Universe(store));
    EnrichmentPValue(store, query, c);
  }
}
