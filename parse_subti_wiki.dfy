/** The one-shot ingestion that fills the store: one `term_gene` association
    per present category column, per regulation record and per operon member,
    and one `gene_info` row per gene record with its reference fields
    cleaned. CSV reading is replaced by rows whose missing cells are `None`. */
module ParseSubtiWiki {

  import opened Wrappers
  import opened Strings
  import opened Tables
  import Collections
  import Subtiwiki

  /** A row of the category table: a gene and up to five category levels. */
  datatype CategoryRow = CategoryRow(
    gene: string,
    category1: Option<string>, category2: Option<string>, category3: Option<string>,
    category4: Option<string>, category5: Option<string>)

  /** A row of the regulation table: a regulon, its optional mode, a gene. */
  datatype RegulationRow = RegulationRow(regulon: string, mode: Option<string>, gene: string)

  /** A row of the operon table: the member genes are one '-'-joined field. */
  datatype OperonRow = OperonRow(operon: string, genes: string)

  /** A row of the gene description table. */
  datatype GeneNameRow = GeneNameRow(
    name: string, locus: string, description: string,
    reviews: Option<string>, researchPapers: Option<string>)

  /** The characters `str.strip('</pubmed>')` removes: a set, not a word. */
  const PUBMED_CHARS: set<char> := {'<', '/', 'p', 'u', 'b', 'm', 'e', 'd', '>'}

  const OPERON_SEPARATOR := '-'

  // ---------------------------------------------------------------- categories

  /** Category column `level` (1 to 5) of a row. */
  function Column(row: CategoryRow, level: int): Option<string>
  {
    if level == 1 then row.category1
    else if level == 2 then row.category2
    else if level == 3 then row.category3
    else if level == 4 then row.category4
    else if level == 5 then row.category5
    else None
  }

  function Emit(column: Option<string>, gene: string, level: int): seq<Association>
  {
    if column.None? then [] else [Association(column.value, gene, CATEGORY, level)]
  }

  /** The associations of the columns `level` to 5 of a category row. */
  function ColumnsFrom(row: CategoryRow, level: int): seq<Association>
    requires 1 <= level <= 6
    decreases 6 - level
  {
    if level == 6 then [] else Emit(Column(row, level), row.gene, level) + ColumnsFrom(row, level + 1)
  }

  /** Each association of columns `level` to 5 is one of the row's present
      columns, at that column's level. */
  lemma {:induction false} ColumnsFromMembers(row: CategoryRow, level: int)
    requires 1 <= level <= 6
    ensures forall a :: a in ColumnsFrom(row, level) ==>
              a.gene == row.gene && a.termType == CATEGORY && level <= a.level <= 5 && Column(row, a.level) == Some(a.term)
    decreases 6 - level
  {
    if level < 6 {
      ColumnsFromMembers(row, level + 1);
      var here := Emit(Column(row, level), row.gene, level);
      var rest := ColumnsFrom(row, level + 1);
      assert ColumnsFrom(row, level) == here + rest;
      assert forall a :: a in here + rest ==> a in here || a in rest;
    }
  }

  /** Every present column among `level` to 5 gives an association at its
      level, and a missing one gives none. */
  lemma {:induction false} ColumnsFromPresence(row: CategoryRow, level: int)
    requires 1 <= level <= 6
    ensures forall l :: level <= l <= 5 ==> (Column(row, l).Some? <==> exists a :: a in ColumnsFrom(row, level) && a.level == l)
    decreases 6 - level
  {
    if level < 6 {
      ColumnsFromPresence(row, level + 1);
      ColumnsFromMembers(row, level + 1);
      var here := Emit(Column(row, level), row.gene, level);
      var rest := ColumnsFrom(row, level + 1);
      var r := here + rest;
      assert ColumnsFrom(row, level) == r;
      assert forall a :: a in r <==> a in here || a in rest;
      assert forall a :: a in here ==> a.level == level;
      assert Column(row, level).Some? ==> r[0] in r && r[0].level == level;
    }
  }

  /** The associations of columns `level` to 5 come in strictly increasing
      level order. */
  lemma {:induction false} ColumnsFromOrdered(row: CategoryRow, level: int)
    requires 1 <= level <= 6
    ensures forall i, j :: 0 <= i < j < |ColumnsFrom(row, level)| ==> ColumnsFrom(row, level)[i].level < ColumnsFrom(row, level)[j].level
    decreases 6 - level
  {
    if level < 6 {
      ColumnsFromOrdered(row, level + 1);
      ColumnsFromMembers(row, level + 1);
      var here := Emit(Column(row, level), row.gene, level);
      var rest := ColumnsFrom(row, level + 1);
      var r := here + rest;
      assert ColumnsFrom(row, level) == r;
      forall i, j | 0 <= i < j < |r| ensures r[i].level < r[j].level
      {
        if i < |here| {
          assert r[i].level == level;
          assert r[j] == rest[j - |here|];
          assert r[j] in rest;
        } else {
          assert r[i] == rest[i - |here|] && r[j] == rest[j - |here|];
        }
      }
    }
  }

  /** The associations of one category row: one per present column, in
      column order, each at its column's level (1 to 5); a missing column
      gives none. */
  function CategoryAssociations(row: CategoryRow): seq<Association>
  {
    Emit(row.category1, row.gene, 1) + Emit(row.category2, row.gene, 2) + Emit(row.category3, row.gene, 3)
    + Emit(row.category4, row.gene, 4) + Emit(row.category5, row.gene, 5)
  }

  lemma CategoryAssociationsSpec(row: CategoryRow)
    ensures forall a :: a in CategoryAssociations(row) ==>
              a.gene == row.gene && a.termType == CATEGORY && 1 <= a.level <= 5 && Column(row, a.level) == Some(a.term)
    ensures forall level :: 1 <= level <= 5 ==>
              (Column(row, level).Some? <==> exists a :: a in CategoryAssociations(row) && a.level == level)
    ensures forall i, j :: 0 <= i < j < |CategoryAssociations(row)| ==>
              CategoryAssociations(row)[i].level < CategoryAssociations(row)[j].level
  {
    ColumnsFromMembers(row, 1);
    ColumnsFromPresence(row, 1);
    ColumnsFromOrdered(row, 1);
    CategoryAssociationsUnfold(row);
  }

  lemma CategoryAssociationsUnfold(row: CategoryRow)
    ensures ColumnsFrom(row, 1) ==
              Emit(row.category1, row.gene, 1) + Emit(row.category2, row.gene, 2) + Emit(row.category3, row.gene, 3)
              + Emit(row.category4, row.gene, 4) + Emit(row.category5, row.gene, 5)
  {
    assert ColumnsFrom(row, 5) == Emit(row.category5, row.gene, 5);
    assert ColumnsFrom(row, 4) == Emit(row.category4, row.gene, 4) + ColumnsFrom(row, 5);
    assert ColumnsFrom(row, 3) == Emit(row.category3, row.gene, 3) + ColumnsFrom(row, 4);
    assert ColumnsFrom(row, 2) == Emit(row.category2, row.gene, 2) + ColumnsFrom(row, 3);
    assert ColumnsFrom(row, 1) == Emit(row.category1, row.gene, 1) + ColumnsFrom(row, 2);
  }

  /** All category associations, row after row. */
  function CategoryTable(rows: seq<CategoryRow>): seq<Association>
  {
    if rows == [] then [] else CategoryTable(rows[..|rows| - 1]) + CategoryAssociations(rows[|rows| - 1])
  }

  // ---------------------------------------------------------------- regulations

  /** The term of a regulation record: the regulon, followed by a space and
      the mode when there is one. */
  function RegulationTerm(row: RegulationRow): string
  {
    if row.mode.None? then row.regulon else row.regulon + " " + row.mode.value
  }

  function RegulationAssociation(row: RegulationRow): Association
  {
    Association(RegulationTerm(row), row.gene, REGULATIONS, 0)
  }

  /** Reading a regulation term back: the part before the first space, and
      the rest as the mode if there was a space. */
  function RegulationParts(term: string): (string, Option<string>)
  {
    var pieces := Split(term, ' ');
    if |pieces| == 1 then (term, None) else (pieces[0], Some(Join(pieces[1..], ' ')))
  }

  lemma {:induction false} SplitAfterFirst(a: string, sep: char, b: string)
    requires sep !in a
    ensures Split(a + [sep] + b, sep) == [a] + Split(b, sep)
    decreases |a|
  {
    var s := a + [sep] + b;
    if a != [] {
      assert s[1..] == a[1..] + [sep] + b;
      assert sep !in a[1..] by { assert forall c :: c in a[1..] ==> c in a; }
      SplitAfterFirst(a[1..], sep, b);
      assert [a[0]] + a[1..] == a;
    } else {
      assert s[1..] == b;
    }
  }

  /** When the regulon itself has no space, its term determines the regulon
      and the mode. */
  lemma RegulationTermRoundTrip(row: RegulationRow)
    requires ' ' !in row.regulon
    ensures RegulationParts(RegulationTerm(row)) == (row.regulon, row.mode)
  {
    if row.mode.Some? {
      SplitAfterFirst(row.regulon, ' ', row.mode.value);
      var rest := Split(row.mode.value, ' ');
      assert ([row.regulon] + rest)[1..] == rest;
    } else {
      assert |Split(row.regulon, ' ')| == 1 by {
        assert forall c :: c in row.regulon ==> c != ' ';
        NoOccurrences(row.regulon, ' ');
      }
    }
  }

  lemma {:induction false} NoOccurrences(s: string, c: char)
    requires c !in s
    ensures Occurrences(s, c) == 0
  {
    if s != [] {
      assert c !in s[1..] by { assert forall x :: x in s[1..] ==> x in s; }
      NoOccurrences(s[1..], c);
    }
  }

  /** A regulon whose name has a space and no mode gets the same term as a
      shorter regulon with a mode: such terms are merged by name. */
  lemma RegulationTermsCanCollide()
    ensures RegulationTerm(RegulationRow("ComK ComA", None, "g")) == RegulationTerm(RegulationRow("ComK", Some("ComA"), "g"))
  {
  }

  function RegulationTable(rows: seq<RegulationRow>): seq<Association>
  {
    if rows == [] then [] else RegulationTable(rows[..|rows| - 1]) + [RegulationAssociation(rows[|rows| - 1])]
  }

  // ---------------------------------------------------------------- operons

  /** The gene of each association, in order. */
  function GeneColumn(rows: seq<Association>): (r: seq<string>)
    ensures |r| == |rows| && forall i :: 0 <= i < |rows| ==> r[i] == rows[i].gene
  {
    if rows == [] then [] else [rows[0].gene] + GeneColumn(rows[1..])
  }

  /** The associations of one operon: one per '-'-separated member. */
  function OperonAssociations(row: OperonRow): seq<Association>
  {
    var pieces := Split(row.genes, OPERON_SEPARATOR);
    seq(|pieces|, i requires 0 <= i < |pieces| => Association(row.operon, pieces[i], OPERONS, 0))
  }

  /** An operon gives one association per member, in order, so one more than
      there are separators, all with the operon as term at level 0; joining
      the members back gives the field again. */
  lemma OperonAssociationsSpec(row: OperonRow)
    ensures |OperonAssociations(row)| == Occurrences(row.genes, OPERON_SEPARATOR) + 1
    ensures forall a :: a in OperonAssociations(row) ==>
              a.term == row.operon && a.termType == OPERONS && a.level == 0 && OPERON_SEPARATOR !in a.gene
    ensures Join(GeneColumn(OperonAssociations(row)), OPERON_SEPARATOR) == row.genes
  {
    var pieces := Split(row.genes, OPERON_SEPARATOR);
    assert GeneColumn(OperonAssociations(row)) == pieces;
  }

  function OperonTable(rows: seq<OperonRow>): seq<Association>
  {
    if rows == [] then [] else OperonTable(rows[..|rows| - 1]) + OperonAssociations(rows[|rows| - 1])
  }

  // ---------------------------------------------------------------- term_gene

  /** The whole `term_gene` table: category rows, then regulation rows, then
      operon rows, nothing deduplicated. */
  function TermGeneTable(categories: seq<CategoryRow>, regulations: seq<RegulationRow>, operons: seq<OperonRow>): seq<Association>
  {
    CategoryTable(categories) + RegulationTable(regulations) + OperonTable(operons)
  }

  lemma {:induction false} CategoryTableWellFormed(rows: seq<CategoryRow>)
    ensures forall a :: a in CategoryTable(rows) ==> WellFormedAssociation(a)
  {
    if rows != [] {
      CategoryTableWellFormed(rows[..|rows| - 1]);
      CategoryAssociationsSpec(rows[|rows| - 1]);
    }
  }

  lemma {:induction false} RegulationTableWellFormed(rows: seq<RegulationRow>)
    ensures forall a :: a in RegulationTable(rows) ==> WellFormedAssociation(a)
  {
    if rows != [] {
      RegulationTableWellFormed(rows[..|rows| - 1]);
    }
  }

  lemma {:induction false} OperonTableWellFormed(rows: seq<OperonRow>)
    ensures forall a :: a in OperonTable(rows) ==> WellFormedAssociation(a)
  {
    if rows != [] {
      OperonTableWellFormed(rows[..|rows| - 1]);
      OperonAssociationsSpec(rows[|rows| - 1]);
    }
  }

  /** Every association has level 1 to 5 if it is a category and level 0
      otherwise, and its type is one of the three. */
  lemma TermGeneTableWellFormed(categories: seq<CategoryRow>, regulations: seq<RegulationRow>, operons: seq<OperonRow>)
    ensures forall a :: a in TermGeneTable(categories, regulations, operons) ==> WellFormedAssociation(a)
  {
    CategoryTableWellFormed(categories);
    RegulationTableWellFormed(regulations);
    OperonTableWellFormed(operons);
  }

  /** In a store the ingestion built, listing all terms is listing the
      categories, the regulations and the operons together. */
  lemma IngestedModesPartition(categories: seq<CategoryRow>, regulations: seq<RegulationRow>, operons: seq<OperonRow>, geneInfo: seq<GeneInfo>)
    ensures var store := Store(TermGeneTable(categories, regulations, operons), geneInfo);
            Collections.Elements(Subtiwiki.AllTermIdNames(store, Subtiwiki.ALL)) ==
              Collections.Elements(Subtiwiki.AllTermIdNames(store, CATEGORY))
              + Collections.Elements(Subtiwiki.AllTermIdNames(store, REGULATIONS))
              + Collections.Elements(Subtiwiki.AllTermIdNames(store, OPERONS))
  {
    TermGeneTableWellFormed(categories, regulations, operons);
    Subtiwiki.ModesPartitionAll(Store(TermGeneTable(categories, regulations, operons), geneInfo));
  }

  /** The body of the category loop: an insert for each present column. */
  method InsertCategoryRow(table: seq<Association>, row: CategoryRow) returns (result: seq<Association>)
    ensures result == table + CategoryAssociations(row)
  {
    var gene := row.gene;
    result := InsertColumn(table, row.category1, gene, 1);
    ghost var emitted := Emit(row.category1, gene, 1);
    result := InsertColumn(result, row.category2, gene, 2);
    AppendAssoc(table, emitted, Emit(row.category2, gene, 2));
    emitted := emitted + Emit(row.category2, gene, 2);
    result := InsertColumn(result, row.category3, gene, 3);
    AppendAssoc(table, emitted, Emit(row.category3, gene, 3));
    emitted := emitted + Emit(row.category3, gene, 3);
    result := InsertColumn(result, row.category4, gene, 4);
    AppendAssoc(table, emitted, Emit(row.category4, gene, 4));
    emitted := emitted + Emit(row.category4, gene, 4);
    result := InsertColumn(result, row.category5, gene, 5);
    AppendAssoc(table, emitted, Emit(row.category5, gene, 5));
    emitted := emitted + Emit(row.category5, gene, 5);
    assert emitted == CategoryAssociations(row);
  }

  /** One category column: an insert when the cell is present. */
  method InsertColumn(table: seq<Association>, column: Option<string>, gene: string, level: int)
    returns (result: seq<Association>)
    ensures result == table + Emit(column, gene, level)
  {
    result := table;
    if column.Some? {
      result := result + [Association(column.value, gene, CATEGORY, level)];
    }
  }

  lemma AppendAssoc(a: seq<Association>, b: seq<Association>, c: seq<Association>)
    ensures a + b + c == a + (b + c)
  {
  }

  /** The category loop: for each row, an insert per present column. */
  method LoadCategories(termGene: seq<Association>, categories: seq<CategoryRow>) returns (table: seq<Association>)
    ensures table == termGene + CategoryTable(categories)
  {
    table := termGene;
    for i := 0 to |categories|
      invariant table == termGene + CategoryTable(categories[..i])
    {
      table := InsertCategoryRow(table, categories[i]);
      assert categories[..i + 1][..i] == categories[..i];
      assert CategoryTable(categories[..i + 1]) == CategoryTable(categories[..i]) + CategoryAssociations(categories[i]);
      AppendAssoc(termGene, CategoryTable(categories[..i]), CategoryAssociations(categories[i]));
    }
    assert categories[..|categories|] == categories;
  }

  /** The regulation loop: one insert per row. */
  method LoadRegulations(termGene: seq<Association>, regulations: seq<RegulationRow>) returns (table: seq<Association>)
    ensures table == termGene + RegulationTable(regulations)
  {
    table := termGene;
    for i := 0 to |regulations|
      invariant table == termGene + RegulationTable(regulations[..i])
    {
      var row := regulations[i];
      var term: string;
      if row.mode.None? {
        term := row.regulon;
      } else {
        term := row.regulon + " " + row.mode.value;
      }
      var gene := row.gene;
      table := table + [Association(term, gene, REGULATIONS, 0)];
      assert regulations[..i + 1][..i] == regulations[..i];
    }
    assert regulations[..|regulations|] == regulations;
  }

  /** The operon loop: one insert per member of each row. */
  method LoadOperons(termGene: seq<Association>, operons: seq<OperonRow>) returns (table: seq<Association>)
    ensures table == termGene + OperonTable(operons)
  {
    table := termGene;
    for i := 0 to |operons|
      invariant table == termGene + OperonTable(operons[..i])
    {
      var row := operons[i];
      var term := row.operon;
      var genes := Split(row.genes, OPERON_SEPARATOR);
      ghost var before := table;
      ghost var emitted := OperonAssociations(row);
      for j := 0 to |genes|
        invariant table == before + emitted[..j]
      {
        table := table + [Association(term, genes[j], OPERONS, 0)];
        assert emitted[..j + 1] == emitted[..j] + [emitted[j]];
      }
      assert emitted[..|genes|] == emitted;
      assert operons[..i + 1][..i] == operons[..i];
    }
    assert operons[..|operons|] == operons;
  }

  /** The three loading loops in turn, on an empty `term_gene` table. */
  method BuildTermGene(categories: seq<CategoryRow>, regulations: seq<RegulationRow>, operons: seq<OperonRow>)
    returns (termGene: seq<Association>)
    ensures termGene == TermGeneTable(categories, regulations, operons)
    ensures forall a :: a in termGene ==> WellFormedAssociation(a)
  {
    termGene := LoadCategories([], categories);
    assert termGene == CategoryTable(categories);
    termGene := LoadRegulations(termGene, regulations);
    termGene := LoadOperons(termGene, operons);
    TermGeneTableWellFormed(categories, regulations, operons);
  }

  // ---------------------------------------------------------------- gene_info

  /** A reviews cell: missing becomes empty, present is stripped of the
      marker characters at both ends. */
  function CleanReviews(reviews: Option<string>): (r: string)
    ensures reviews.None? ==> r == ""
    ensures reviews.Some? ==> |r| <= |reviews.value|
    ensures r == [] || (r[0] !in PUBMED_CHARS && r[|r| - 1] !in PUBMED_CHARS)
  {
    if reviews.None? then "" else Strip(reviews.value, PUBMED_CHARS)
  }

  /** A reviews cell holding one tagged PMID is cleaned down to the PMID. */
  lemma CleanTaggedPmid(pmid: string)
    requires pmid != [] && forall c :: c in pmid ==> '0' <= c <= '9'
    ensures CleanReviews(Some("<pubmed>" + pmid + "</pubmed>")) == pmid
  {
    OpeningTagStripped(pmid);
    ClosingTagStripped(pmid);
  }

  lemma OpeningTagStripped(pmid: string)
    requires pmid != [] && forall c :: c in pmid ==> '0' <= c <= '9'
    ensures LStrip("<pubmed>" + pmid + "</pubmed>", PUBMED_CHARS) == pmid + "</pubmed>"
  {
    var rest := pmid + "</pubmed>";
    assert rest[0] == pmid[0] && pmid[0] in pmid;
    LStripRun("<pubmed>", rest, PUBMED_CHARS);
    assert "<pubmed>" + pmid + "</pubmed>" == "<pubmed>" + rest;
  }

  lemma ClosingTagStripped(pmid: string)
    requires pmid != [] && forall c :: c in pmid ==> '0' <= c <= '9'
    ensures RStrip(pmid + "</pubmed>", PUBMED_CHARS) == pmid
  {
    assert pmid[|pmid| - 1] in pmid;
    RStripRun(pmid, "</pubmed>", PUBMED_CHARS);
  }

  /** The strip removes characters, not the tag as a word: a cell spelled
      with marker letters only is emptied. */
  lemma StripMarkerWord()
    ensures CleanReviews(Some("dumb")) == ""
  {
    LStripRun("dumb", "", PUBMED_CHARS);
    assert "dumb" + "" == "dumb";
  }

  /** Stripping from the left removes a leading run of `chars` and stops at
      the first other character. */
  lemma {:induction false} LStripRun(run: string, rest: string, chars: set<char>)
    requires forall c :: c in run ==> c in chars
    requires rest == [] || rest[0] !in chars
    ensures LStrip(run + rest, chars) == rest
  {
    if run != [] {
      assert (run + rest)[1..] == run[1..] + rest;
      assert forall c :: c in run[1..] ==> c in run;
      LStripRun(run[1..], rest, chars);
    } else {
      assert run + rest == rest;
    }
  }

  /** Stripping from the right removes a trailing run of `chars` and stops at
      the last other character. */
  lemma {:induction false} RStripRun(rest: string, run: string, chars: set<char>)
    requires forall c :: c in run ==> c in chars
    requires rest == [] || rest[|rest| - 1] !in chars
    ensures RStrip(rest + run, chars) == rest
  {
    if run != [] {
      var shorter := run[..|run| - 1];
      assert (rest + run)[..|rest + run| - 1] == rest + shorter;
      assert forall c :: c in shorter ==> c in run;
      assert run[|run| - 1] in run;
      RStripRun(rest, shorter, chars);
    } else {
      assert rest + run == rest;
    }
  }

  /** A research papers cell: missing becomes empty, present is kept as it is. */
  function CleanPapers(papers: Option<string>): string
  {
    if papers.None? then "" else papers.value
  }

  /** The `gene_info` row of a gene record. */
  function GeneInfoOf(row: GeneNameRow): GeneInfo
  {
    GeneInfo(row.name, row.locus, row.description, CleanReviews(row.reviews), CleanPapers(row.researchPapers))
  }

  /** The gene_info loop: one row per record, in order. When a papers cell is
      present it strips `reviews` a second time and leaves the papers as
      they are; since stripping is idempotent the second strip changes
      nothing, so reviews are cleaned once and papers never. */
  method BuildGeneInfo(rows: seq<GeneNameRow>) returns (geneInfo: seq<GeneInfo>)
    ensures |geneInfo| == |rows|
    ensures forall i :: 0 <= i < |rows| ==> geneInfo[i] == GeneInfoOf(rows[i])
  {
    geneInfo := [];
    for i := 0 to |rows|
      invariant |geneInfo| == i
      invariant forall k :: 0 <= k < i ==> geneInfo[k] == GeneInfoOf(rows[k])
    {
      var row := rows[i];
      var gene := row.name;
      var locus := row.locus;
      var desc := row.description;
      var reviews: string;
      if row.reviews.None? {
        reviews := "";
      } else {
        reviews := Strip(row.reviews.value, PUBMED_CHARS);
      }
      var papers: string;
      if row.researchPapers.None? {
        papers := "";
      } else {
        papers := row.researchPapers.value;
        StripIdempotent(if row.reviews.None? then "" else row.reviews.value, PUBMED_CHARS);
        reviews := Strip(reviews, PUBMED_CHARS);
      }
      geneInfo := geneInfo + [GeneInfo(gene, locus, desc, reviews, papers)];
    }
  }

  /** The ingestion as a whole: the store it builds, whose associations all
      have the levels their type allows. */
  method BuildStore(categories: seq<CategoryRow>, regulations: seq<RegulationRow>, operons: seq<OperonRow>, genes: seq<GeneNameRow>)
    returns (store: Store)
    ensures store.termGene == TermGeneTable(categories, regulations, operons)
    ensures forall a :: a in store.termGene ==> WellFormedAssociation(a)
    ensures |store.geneInfo| == |genes|
    ensures forall i :: 0 <= i < |genes| ==> store.geneInfo[i] == GeneInfoOf(genes[i])
  {
    var termGene := BuildTermGene(categories, regulations, operons);
    var geneInfo := BuildGeneInfo(genes);
    store := Store(termGene, geneInfo);
  }
}
