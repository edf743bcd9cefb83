/** The two tables of the association store, as the ingestion writes them
    and the read side queries them. */
module Tables {

  const CATEGORY := "category"
  const REGULATIONS := "regulations"
  const OPERONS := "operons"

  /** One row of `term_gene(term, gene, type, level)`. */
  datatype Association = Association(term: string, gene: string, termType: string, level: int)

  /** One row of `gene_info(gene, locus, description, reviews, research_papers)`. */
  datatype GeneInfo = GeneInfo(gene: string, locus: string, description: string, reviews: string, researchPapers: string)

  /** The whole store: both tables, in insertion order. It is never changed
      after it is built. */
  datatype Store = Store(termGene: seq<Association>, geneInfo: seq<GeneInfo>)

  /** The levels the ingestion gives each kind of term: 1 to 5 for the
      hierarchical categories, 0 for regulations and operons. */
  predicate WellFormedAssociation(a: Association)
  {
    || (a.termType == CATEGORY && 1 <= a.level <= 5)
    || ((a.termType == REGULATIONS || a.termType == OPERONS) && a.level == 0)
  }
}
