# subtiwiki: gene-set enrichment over SubtiWiki annotations, modelled in Dafny

The `subtiwiki` package answers questions about *Bacillus subtilis* genes
from a two-table association store built once from SubtiWiki exports:

- `term_gene(term, gene, type, level)` links a term to a gene. The type is
  `category`, `regulations` or `operons`. The level is 1 to 5 for a category
  and 0 otherwise.
- `gene_info(gene, locus, description, reviews, research_papers)` holds the
  metadata of each gene.

The read side lists the gene universe, looks up gene metadata, lists the
(type, term) pairs of a mode and the genes of a term. It also ranks terms by a
hypergeometric over-representation test: a term that shares k genes with the
query scores `1 - cdf(k - 1; N, K, n)`, the probability of seeing k or more
shared genes by chance. The one-shot ingestion script turns the category,
regulation, operon and gene tables into the two store tables.

The project has these modules:

- `Tables` (tables.dfy): the store's rows and the levels each kind of term gets.
- `Collections` (collections.dfy): duplicate-free sequences, element sets and
  SQL `DISTINCT`.
- `Strings` (strings.dfy): Python's `str.split` on one character and
  `str.strip` on a set of characters.
- `Hypergeometric` (hypergeometric.dfy): binomial coefficients, the
  distribution's CDF in exact rational arithmetic, and its upper tail.
- `Subtiwiki` (subtiwiki.dfy): the five read-side operations, with
  `hypergeometric_test` as a method whose loop mirrors the source's, the
  result dict as a sequence of rows, and the final sort as an insertion sort.
- `ParseSubtiWiki` (parse_subti_wiki.dfy): the ingestion loops as methods
  proved equal to table-building functions, and the properties of the tables
  they build.
- `Wrappers` (wrappers.dfy): `Option`, used for CSV cells that may be missing.

The store is an immutable value. Each read function takes it as an argument
in place of the database path.

Modelling choices:

- Order. SQL `DISTINCT` is modelled as keeping first occurrences. The order of
  `list(set)` is left open: `ListOf` may return any order.
- p-values are exact reals. scipy's NaN for parameters outside its domain
  becomes the `NaN` case of `PValue`.
- Terms are keyed by name, as in the source. `get_term_genes` and the result
  dict both key on the term name alone. So the last of several same-named
  terms of different types wins, and its gene set is the union over all
  those types.
- Gene records are cleaned as the loop at `parse_subti_wiki.py:85-100`
  does. A missing reviews or papers cell becomes `""`, and a present reviews
  cell is stripped of the characters `<`, `/`, `p`, `u`, `b`, `m`, `e`, `d`
  and `>` at both ends. When the papers cell is present, line 99 strips
  `reviews` a second time and stores `papers` as read. The model does the
  same, and `StripIdempotent` shows that the second strip changes nothing.
  As a result, research papers are never stripped.

## Model

| member | source | states |
|---|---|---|
| Collections.Distinct | subtiwiki/__init__.py:20 | `SELECT DISTINCT`: the result has no duplicates and holds exactly the elements of the input |
| Subtiwiki.AllGenes | subtiwiki/__init__.py:14-23 | every symbol that has a `gene_info` row, each exactly once and nothing else; its length is the size of the gene universe |
| Subtiwiki.Matching | subtiwiki/__init__.py:30-31 | `WHERE gene=?` returns each stored row with that symbol as many times as it is stored, and no other row |
| Subtiwiki.InfoRowsAppend | subtiwiki/__init__.py:29-33 | looking up `a + b` gives the rows of `a` followed by the rows of `b` |
| Subtiwiki.InfoRowsMembers | subtiwiki/__init__.py:29-33 | a row is in the lookup result iff it is stored and its symbol was asked for |
| Subtiwiki.UnknownSymbolAddsNothing | subtiwiki/__init__.py:29-33 | a symbol with no `gene_info` row contributes nothing and raises no error |
| Subtiwiki.GetGeneInfo | subtiwiki/__init__.py:25-37 | the loop returns the header row (only when `returnHeader` is set, the default) followed by `InfoRows`, the rows of each queried symbol in query order |
| Subtiwiki.AllTermIdNames | subtiwiki/__init__.py:40-53 | the distinct (type, term) pairs of `term_gene`, each once; any mode other than "all" returns only pairs of that type, and every stored pair of that type |
| Subtiwiki.ModesPartitionAll | subtiwiki/__init__.py:47-50 | when every stored type is category, regulations or operons, the "all" listing is the union of the three single-type listings |
| Subtiwiki.TermGenes | subtiwiki/__init__.py:56-66 | each gene occurs as often as there are rows with that term name and gene, whatever the type; `threshold` has no effect |
| Subtiwiki.RowCountPositive | subtiwiki/__init__.py:62-64 | a gene is counted for a term name iff some row links them |
| Subtiwiki.TermGenesElements | subtiwiki/__init__.py:91 | `set(get_term_genes(term))` is exactly the set of genes linked to the term name |
| Subtiwiki.PLeTotalPreorder | subtiwiki/__init__.py:100 | the p-value order used for sorting is reflexive, total and transitive; NaN ranks last |
| Subtiwiki.Put | subtiwiki/__init__.py:98 | `cell_p_vals[term] = …`: a cell of the same name is replaced where it stands, otherwise the cell is appended; the result keeps at most one cell per name |
| Subtiwiki.ListOf | subtiwiki/__init__.py:97 | `list(set)`: every element of the set exactly once, in an unspecified order |
| Subtiwiki.SortByPValue | subtiwiki/__init__.py:99-100 | the sort returns a permutation of the cells in ascending p-value order, and keeps one cell per name |
| Subtiwiki.SkipKeepsTested | subtiwiki/__init__.py:93-94 | a term whose genes miss the query leaves the result unchanged, and every invariant of the loop still holds |
| Subtiwiki.PutKeepsTested | subtiwiki/__init__.py:90-98 | storing a term's cell keeps the loop invariant: every stored cell is a correct enrichment of the last term with its name, and every overlapping term seen so far has a cell |
| Subtiwiki.SortedKeepsTested | subtiwiki/__init__.py:99-102 | reordering the cells keeps what they state, and an empty query leaves no cells |
| Subtiwiki.HypergeometricTest | subtiwiki/__init__.py:69-106 | first the header, when asked for. Then one row per term name of the mode whose genes meet the query; the last same-named term wins. Each row carries the exact overlap, each gene once, and `1 - cdf(k-1; N, K, n)`. Terms with no overlap are left out. Rows ascend by p-value. An empty query yields no rows |
| Subtiwiki.EnrichmentCounts | subtiwiki/__init__.py:92-96 | every reported k satisfies `1 <= k <= K` and `k <= n` |
| Subtiwiki.EnrichmentPValue | subtiwiki/__init__.py:96-98 | for any store: when N, K and n are valid parameters the reported value is exactly P(X >= k), in [0, 1]; otherwise it is NaN |
| Subtiwiki.EnrichmentPValueInUniverse | subtiwiki/__init__.py:96-98 | when the query and the term's genes lie in the universe, the parameters are valid, so the reported value is a number |
| Hypergeometric.Choose | subtiwiki/__init__.py:96 | the binomial coefficient is positive inside `0 <= k <= n` |
| Hypergeometric.Vandermonde | subtiwiki/__init__.py:96 | the point probabilities of the hypergeometric distribution sum to one (Vandermonde's identity) |
| Hypergeometric.HypergeomCdf | subtiwiki/__init__.py:96 | `hypergeom.cdf` is NaN iff the parameters are out of range, and otherwise lies in [0, 1] |
| Hypergeometric.ConvPlusTail | subtiwiki/__init__.py:98 | the lower part and the upper tail of the distribution add up to the whole |
| Hypergeometric.UpperTailFromCdf | subtiwiki/__init__.py:96-98 | `1 - cdf(k - 1)` equals the upper tail P(X >= k) exactly, and it lies in [0, 1] |
| Hypergeometric.UpperTailDecreasing | subtiwiki/__init__.py:96-100 | a larger overlap never has a larger p-value, and inside the distribution's support its p-value is strictly smaller |
| Strings.Split | parse_subti_wiki.py:76 | `split('-')` returns one more piece than there are separators, no piece contains the separator, and joining the pieces gives the field back |
| Strings.SplitJoin | parse_subti_wiki.py:76 | splitting a join of separator-free pieces returns those pieces |
| Strings.LStrip | parse_subti_wiki.py:94 | the result is a suffix; everything removed is in the character set, and the result does not start with one |
| Strings.RStrip | parse_subti_wiki.py:94 | the result is a prefix; everything removed is in the character set, and the result does not end with one |
| Strings.Strip | parse_subti_wiki.py:94 | `strip(chars)` is no longer than its input, and neither end of the result is in the set |
| Strings.StripSlice | parse_subti_wiki.py:94 | the result of `strip(chars)` is a contiguous slice of the input, and everything cut off on either side is in the set |
| Strings.StripIdempotent | parse_subti_wiki.py:99 | stripping twice equals stripping once |
| ParseSubtiWiki.ColumnsFromMembers | parse_subti_wiki.py:48-57 | each association from a category row comes from a present column, with that column's level, the row's gene and type `category` |
| ParseSubtiWiki.ColumnsFromPresence | parse_subti_wiki.py:48-57 | a column yields an association at its level iff it is present |
| ParseSubtiWiki.ColumnsFromOrdered | parse_subti_wiki.py:48-57 | the associations of a row come in strictly increasing level order |
| ParseSubtiWiki.CategoryAssociationsSpec | parse_subti_wiki.py:46-57 | the same three facts for the associations one category row inserts |
| ParseSubtiWiki.InsertColumn | parse_subti_wiki.py:48-49 | one `if not isna` insert appends the column's association only when the cell is present |
| ParseSubtiWiki.InsertCategoryRow | parse_subti_wiki.py:47-57 | the five guarded inserts append exactly `CategoryAssociations(row)`, one `Emit` per column |
| ParseSubtiWiki.LoadCategories | parse_subti_wiki.py:46-57 | the category loop appends `CategoryTable`, the `CategoryAssociations` of every row in row order |
| ParseSubtiWiki.RegulationTermRoundTrip | parse_subti_wiki.py:64-67 | when the regulon has no space, splitting the term at its first space recovers the regulon and the optional mode |
| ParseSubtiWiki.RegulationTermsCanCollide | parse_subti_wiki.py:64-67 | a regulon containing a space and no mode gets the same term as a shorter regulon with a mode |
| ParseSubtiWiki.LoadRegulations | parse_subti_wiki.py:63-69 | the regulation loop appends `RegulationTable`: one association per row, with `RegulationTerm` (`regulon`, or `regulon + ' ' + mode`) as term and level 0 |
| ParseSubtiWiki.OperonAssociationsSpec | parse_subti_wiki.py:74-78 | `OperonAssociations`: an operon yields one association per `-`-separated member, in order (one more than there are separators), each with the operon as term at level 0; joining the genes gives the field back |
| ParseSubtiWiki.LoadOperons | parse_subti_wiki.py:74-78 | the operon loop, with its inner loop over members, appends `OperonTable`, the `OperonAssociations` of every row in row order |
| ParseSubtiWiki.CategoryTableWellFormed | parse_subti_wiki.py:46-57 | every category association has type `category` and a level from 1 to 5 |
| ParseSubtiWiki.RegulationTableWellFormed | parse_subti_wiki.py:63-69 | every regulation association has level 0 |
| ParseSubtiWiki.OperonTableWellFormed | parse_subti_wiki.py:74-78 | every operon association has level 0 |
| ParseSubtiWiki.TermGeneTableWellFormed | parse_subti_wiki.py:44-78 | every `term_gene` row has one of the three types, with level 1 to 5 for a category and 0 otherwise |
| ParseSubtiWiki.IngestedModesPartition | parse_subti_wiki.py:44-78 | on an ingested store, the "all" term listing is the union of the category, regulation and operon listings |
| ParseSubtiWiki.BuildTermGene | parse_subti_wiki.py:44-78 | the three loops in turn build the categories, then the regulations, then the operons, with nothing deduplicated; every row is well formed |
| ParseSubtiWiki.CleanReviews | parse_subti_wiki.py:90-94 | a missing reviews cell becomes `""`; a present one is shortened at most, and neither end of the result is a marker character |
| ParseSubtiWiki.CleanTaggedPmid | parse_subti_wiki.py:94 | a cell `<pubmed>ID</pubmed>` holding a numeric ID is cleaned to the ID |
| ParseSubtiWiki.StripMarkerWord | parse_subti_wiki.py:94 | the strip removes characters, not a tag: `"dumb"` is cleaned to `""` |
| ParseSubtiWiki.BuildGeneInfo | parse_subti_wiki.py:84-100 | the gene loop produces one row per record, in order, equal to `GeneInfoOf`: name, locus, description, `CleanReviews`, and `CleanPapers` (the papers as read, or `""`); the second strip of reviews on line 99 changes nothing |
| ParseSubtiWiki.BuildStore | parse_subti_wiki.py:44-100 | the store the ingestion builds: the `term_gene` table above, all rows well formed, and one `gene_info` row per gene record |

## Left out

- SQLite is not modelled. Connections, cursors, the SQL text and the indexes are replaced by the `Store` value. The database path parameter is left out.
- `lru_cache` is transparent: the store never changes after it is built, so cached and uncached calls agree.
- `get_gene_info` prints each symbol and its rows. Printing is left out, and so is the progress print in the gene loop of the ingestion.
- The hypergeometric CDF is exact rational arithmetic rather than scipy's floating point. Rounding, and the order of rows whose double p-values would round to equal, are not captured.
- Subtiwiki.SortByPValue: the order of rows with equal p-values is not stated. Python's sort is stable, so ties keep the dict's insertion order, which follows the order of the `SELECT DISTINCT` rows; SQL leaves that order open.
- Subtiwiki.PLeTotalPreorder: ranking NaN after every number is a choice. A Python sort whose keys include NaN has no defined order. NaN arises only when the query or the term has more distinct genes than the gene universe, which happens when some of them have no `gene_info` row.
- Collections.Distinct: SQL leaves the order of `DISTINCT` rows open. The model fixes first-occurrence order. `Subtiwiki.HypergeometricTest` depends on it, as the next line says.
- Subtiwiki.HypergeometricTest: when one term name occurs under several types, the row reports the type of the pair that comes last in the model's first-occurrence order of `SELECT DISTINCT type, term`. SQLite may return those pairs in another order, for instance when it scans an index, and then reports another type. The overlap and the p-value do not depend on the order, since both are keyed by the term name alone.
- Subtiwiki.ListOf: the order of `list(set)` is left unspecified, as in Python. It orders only the overlap genes inside one row.
- CSV reading with pandas is replaced by rows whose missing cells are `None`. A missing value in a column the loops use unconditionally (gene, regulon, operon, genes, name, locus, description) is not modelled, since the source would fail or store NaN there.
- The interactions table is loaded by the script but never used; it is not part of this model.
- Table creation statements, `commit` and `close` are left out.
- `setup.py` and `test.py` are not part of this model.
