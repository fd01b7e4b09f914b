/**
 * The records the merge layer passes around: bibliography entries, search results,
 * papers and the paper store's matching answer.
 */
module Records {

  /** One bibliography record: field name to field value. */
  type BibEntry = map<string, string>

  /** Provenance tags a search result can carry. */
  const Bibfile: string := "bibfile"
  const Scholar: string := "scholar"

  /** A bibliography entry before it is reconciled with the cache. */
  datatype SearchResult = SearchResult(
    index: nat,
    bib: BibEntry,
    source: string,
    extraData: map<string, string>)

  /** A bibliographic work: its fields and the extra metadata gathered for it. */
  datatype Paper = Paper(bib: BibEntry, extraData: map<string, string>)

  /** A search result the store recognised, with the stored paper it matched. */
  datatype FoundResult = FoundResult(result: SearchResult, paper: Paper)

  /**
   * The paper store, seen only through its matching operation: given the search results it
   * answers `(found, missing)`. How it decides is not visible; see IsPartition.
   */
  datatype PaperStore = PaperStore(
    matchResultsWithPapers: seq<SearchResult> -> (seq<FoundResult>, seq<SearchResult>))

  /** The search results the store matched, in the store's order. */
  function FoundResults(found: seq<FoundResult>): (rs: seq<SearchResult>)
    ensures |rs| == |found|
    ensures forall i :: 0 <= i < |found| ==> rs[i] == found[i].result
  {
    if found == [] then [] else [found[0].result] + FoundResults(found[1..])
  }

  /**
   * The only thing assumed of the store: every result comes back exactly once,
   * either as found or as missing.
   */
  ghost predicate IsPartition(results: seq<SearchResult>, found: seq<FoundResult>, missing: seq<SearchResult>)
  {
    multiset(missing) + multiset(FoundResults(found)) == multiset(results)
  }

  /** A partition hands back as many results as it was given. */
  lemma PartitionSizes(results: seq<SearchResult>, found: seq<FoundResult>, missing: seq<SearchResult>)
    ensures IsPartition(results, found, missing) ==> |missing| + |found| == |results|
  {
    if IsPartition(results, found, missing) {
      assert |multiset(missing) + multiset(FoundResults(found))| == |multiset(results)|;
    }
  }
}
