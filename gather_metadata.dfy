/**
 * gather_metadata.py: turning bibliography entries into search results, and the list
 * construction of its main flow.
 */
module GatherMetadata {
  import opened Wrappers
  import opened Records
  import NotePattern

  /** Position `i` of a list of `count` elements lies before the stop of the slice `[:stop]`. */
  predicate BeforeStop(count: nat, stop: int, i: nat)
  {
    if 0 <= stop then i < stop else i < count + stop
  }

  /** How many entries the slice `entries[:stop]` keeps out of `count`: exactly those before the stop. */
  function SliceLength(count: nat, stop: int): (n: nat)
    ensures n <= count
    ensures forall i: nat :: i < count ==> (i < n <==> BeforeStop(count, stop, i))
  {
    if 0 <= stop then (if stop < count then stop else count)
    else if count + stop < 0 then 0
    else count + stop
  }

  /** `bib.get('note')` is truthy: the field is present and not empty. */
  predicate HasNote(bib: BibEntry)
  {
    "note" in bib && bib["note"] != ""
  }

  /** The entry has a note in which the citation pattern occurs. */
  ghost predicate CitedOnScholar(bib: BibEntry)
  {
    HasNote(bib) && exists m :: NotePattern.IsMatch(bib["note"], m)
  }

  /**
   * The search result built for the bibliography entry at position `index`: a scholar result
   * carrying both captured groups when the note holds the citation pattern, a plain bibfile
   * result with no extra data otherwise.
   */
  function SearchResultFor(index: nat, bib: BibEntry): (r: SearchResult)
    ensures r.index == index && r.bib == bib
    ensures r.source == if CitedOnScholar(bib) then Scholar else Bibfile
    ensures r.source == Bibfile ==> r.extraData == map[]
    ensures r.source == Scholar ==>
      && r.extraData.Keys == {"scholarid", "citedby"}
      && NotePattern.IsNumeral(r.extraData["citedby"])
      && NotePattern.IsNumeral(r.extraData["scholarid"])
      && NotePattern.CitationGroups(bib["note"]) == Some((r.extraData["citedby"], r.extraData["scholarid"]))
  {
    var found := if HasNote(bib) then NotePattern.CitationGroups(bib["note"]) else None;
    if found.Some? then
      SearchResult(index, bib, Scholar, map["scholarid" := found.value.1, "citedby" := found.value.0])
    else
      SearchResult(index, bib, Bibfile, map[])
  }

  /** The search results for the first `maxResults` entries, as the slice picks them. */
  function SearchResultsFromBib(bibEntries: seq<BibEntry>, maxResults: int): (rs: seq<SearchResult>)
    ensures |rs| <= |bibEntries|
    ensures forall i: nat :: i < |bibEntries| ==> (i < |rs| <==> BeforeStop(|bibEntries|, maxResults, i))
    ensures forall i :: 0 <= i < |rs| ==> rs[i].index == i && rs[i].bib == bibEntries[i]
  {
    seq(SliceLength(|bibEntries|, maxResults), i requires 0 <= i < SliceLength(|bibEntries|, maxResults) =>
      SearchResultFor(i, bibEntries[i]))
  }

  /** One iteration of getSearchResultsFromBib: the result for `bib`, filled in step by step. */
  method BuildSearchResult(index: nat, bib: BibEntry) returns (res: SearchResult)
    ensures res == SearchResultFor(index, bib)
  {
    res := SearchResult(index, bib, Bibfile, map[]);
    if "note" in bib && bib["note"] != "" {
      var found := NotePattern.CitationGroups(bib["note"]);
      if found.Some? {
        res := res.(source := Scholar);
        res := res.(extraData := res.extraData["scholarid" := found.value.1]);
        res := res.(extraData := res.extraData["citedby" := found.value.0]);
        assert res.extraData == map["scholarid" := found.value.1, "citedby" := found.value.0];
      }
    }
  }

  /** getSearchResultsFromBib: one search result per entry of `bibEntries[:maxResults]`, in order. */
  method GetSearchResultsFromBib(bibEntries: seq<BibEntry>, maxResults: int) returns (results: seq<SearchResult>)
    ensures results == SearchResultsFromBib(bibEntries, maxResults)
    ensures forall i: nat :: i < |bibEntries| ==> (i < |results| <==> BeforeStop(|bibEntries|, maxResults, i))
    ensures forall i :: 0 <= i < |results| ==> results[i].index == i && results[i].bib == bibEntries[i]
  {
    var entries := bibEntries[..SliceLength(|bibEntries|, maxResults)];
    results := [];
    for index := 0 to |entries|
      invariant |results| == index
      invariant forall i :: 0 <= i < index ==> results[i] == SearchResultFor(i, entries[i])
    {
      var res := BuildSearchResult(index, entries[index]);
      results := results + [res];
    }
  }

  /** `Paper(res.bib, res.extra_data)`: a new paper for a result the store does not hold. */
  function NewPaper(res: SearchResult): Paper
  {
    Paper(res.bib, res.extraData)
  }

  /** `[Paper(res.bib, res.extra_data) for res in missing]`. */
  function NewPapers(missing: seq<SearchResult>): (papers: seq<Paper>)
    ensures |papers| == |missing|
    ensures forall i :: 0 <= i < |missing| ==>
      papers[i].bib == missing[i].bib && papers[i].extraData == missing[i].extraData
  {
    if missing == [] then [] else [NewPaper(missing[0])] + NewPapers(missing[1..])
  }

  /** `[res.paper for res in found]`. */
  function ExistingPapers(found: seq<FoundResult>): (papers: seq<Paper>)
    ensures |papers| == |found|
    ensures forall i :: 0 <= i < |found| ==> papers[i] == found[i].paper
  {
    if found == [] then [] else [found[0].paper] + ExistingPapers(found[1..])
  }

  /** `papers_to_add + papers_existing`: new papers first, then the cached ones. */
  function AllPapers(found: seq<FoundResult>, missing: seq<SearchResult>): (all: seq<Paper>)
    ensures |all| == |missing| + |found|
    ensures forall i :: 0 <= i < |missing| ==> all[i] == NewPaper(missing[i])
    ensures forall i :: 0 <= i < |found| ==> all[|missing| + i] == found[i].paper
  {
    NewPapers(missing) + ExistingPapers(found)
  }

  /**
   * The main flow: read results, ask the store which it holds, build the new papers and
   * concatenate. Without a store the call on the store fails, which is `None` here.
   */
  method Gather(store: Option<PaperStore>, bibEntries: seq<BibEntry>, maxResults: int)
    returns (allPapers: Option<seq<Paper>>)
    ensures store.None? <==> allPapers.None?
    ensures store.Some? ==>
      var results := SearchResultsFromBib(bibEntries, maxResults);
      var (found, missing) := store.value.matchResultsWithPapers(results);
      allPapers == Some(AllPapers(found, missing))
    ensures store.Some? ==>
      var results := SearchResultsFromBib(bibEntries, maxResults);
      var (found, missing) := store.value.matchResultsWithPapers(results);
      IsPartition(results, found, missing) ==> |allPapers.value| == |results|
  {
    var results := GetSearchResultsFromBib(bibEntries, maxResults);
    if store.None? {
      return None;
    }
    var (found, missing) := store.value.matchResultsWithPapers(results);
    var papersToAdd := NewPapers(missing);
    var papersExisting := ExistingPapers(found);
    allPapers := Some(papersToAdd + papersExisting);
    PartitionSizes(results, found, missing);
  }
}
