/**
 * general_utils.py: loading the search results and splitting them between the papers the
 * store already holds and the papers that are new.
 */
module GeneralUtils {
  import opened Wrappers
  import opened Records
  import opened GatherMetadata

  /**
   * `(found, missing)`: the store's answer when there is a store; with no store nothing is
   * found and every result is missing, which is a partition whatever the results are.
   */
  function SplitResults(store: Option<PaperStore>, results: seq<SearchResult>)
    : (split: (seq<FoundResult>, seq<SearchResult>))
    ensures store.None? ==> split.0 == [] && split.1 == results
    ensures store.None? ==> IsPartition(results, split.0, split.1)
    ensures store.Some? ==> split == store.value.matchResultsWithPapers(results)
  {
    if store.Some? then store.value.matchResultsWithPapers(results)
    else
      assert FoundResults([]) == [];
      ([], results)
  }

  /**
   * loadEntriesAndSetUp on entries already read: the new papers, the cached papers and their
   * concatenation, new papers first.
   */
  method LoadEntriesAndSetUp(store: Option<PaperStore>, bibEntries: seq<BibEntry>, maxResults: int)
    returns (papersToAdd: seq<Paper>, papersExisting: seq<Paper>, allPapers: seq<Paper>)
    ensures var (found, missing) := SplitResults(store, SearchResultsFromBib(bibEntries, maxResults));
      && papersToAdd == NewPapers(missing)
      && papersExisting == ExistingPapers(found)
      && allPapers == AllPapers(found, missing)
    ensures var results := SearchResultsFromBib(bibEntries, maxResults);
      var (found, missing) := SplitResults(store, results);
      IsPartition(results, found, missing) ==> |allPapers| == |results|
    ensures store.None? ==>
      && papersExisting == []
      && papersToAdd == allPapers
      && |allPapers| == SliceLength(|bibEntries|, maxResults)
      && forall i :: 0 <= i < |allPapers| ==>
           allPapers[i] == Paper(bibEntries[i], SearchResultFor(i, bibEntries[i]).extraData)
  {
    var results := GetSearchResultsFromBib(bibEntries, maxResults);
    var found, missing;
    if store.Some? {
      found, missing := store.value.matchResultsWithPapers(results).0, store.value.matchResultsWithPapers(results).1;
    } else {
      found := [];
      missing := results;
    }
    papersToAdd := NewPapers(missing);
    papersExisting := ExistingPapers(found);
    allPapers := papersToAdd + papersExisting;
    PartitionSizes(results, found, missing);
  }

  /** The results getSearchResultsFromBib builds: each carries its own position as index. */
  ghost predicate WellIndexed(results: seq<SearchResult>)
  {
    forall i :: 0 <= i < |results| ==> results[i].index == i
  }

  /** Results that carry their positions as indices occur at most once each. */
  lemma {:induction false} WellIndexedOccursOnce(results: seq<SearchResult>)
    requires WellIndexed(results)
    ensures forall x :: multiset(results)[x] <= 1
  {
    if results != [] {
      var n := |results| - 1;
      var init := results[..n];
      assert WellIndexed(init);
      WellIndexedOccursOnce(init);
      assert results == init + [results[n]];
      assert results[n] !in init by {
        forall i | 0 <= i < n ensures init[i] != results[n] {
          assert init[i].index == i;
        }
      }
    }
  }

  /** A value at two positions of a sequence occurs in it at least twice. */
  lemma OccursTwice(s: seq<SearchResult>, a: nat, b: nat)
    requires a < b < |s| && s[a] == s[b]
    ensures multiset(s)[s[a]] >= 2
  {
    assert s == s[..b] + [s[b]] + s[b + 1..];
    assert s[a] in s[..b];
  }

  /** A sequence in which nothing occurs twice holds no value at two positions. */
  lemma NoRepeats(s: seq<SearchResult>)
    requires forall x :: multiset(s)[x] <= 1
    ensures forall a, b :: 0 <= a < b < |s| ==> s[a] != s[b]
  {
    forall a, b | 0 <= a < b < |s| ensures s[a] != s[b] {
      if s[a] == s[b] {
        OccursTwice(s, a, b);
        assert false;
      }
    }
  }

  /** A rearrangement of results that carry their positions holds each of them exactly once. */
  lemma RearrangedResults(results: seq<SearchResult>, origins: seq<SearchResult>)
    requires WellIndexed(results)
    requires multiset(origins) == multiset(results)
    ensures |origins| == |results|
    ensures forall j :: 0 <= j < |origins| ==> origins[j].index < |results| && origins[j] == results[origins[j].index]
    ensures forall a, b :: 0 <= a < b < |origins| ==> origins[a].index != origins[b].index
    ensures forall k :: 0 <= k < |results| ==> results[k] in origins
  {
    assert |multiset(origins)| == |multiset(results)|;
    forall j | 0 <= j < |origins|
      ensures origins[j].index < |results| && origins[j] == results[origins[j].index]
    {
      assert origins[j] in multiset(results);
      var i :| 0 <= i < |results| && results[i] == origins[j];
    }
    forall k | 0 <= k < |results| ensures results[k] in origins {
      assert results[k] in multiset(origins);
    }
    WellIndexedOccursOnce(results);
    NoRepeats(origins);
  }

  /**
   * Every result yields exactly one paper: when the store's answer is a partition of results
   * that carry their positions, the missing results followed by the found ones are those
   * results, each once, missing and found share no index, and the paper at each position
   * of the output is built from, or matched to, the result at the same position.
   */
  lemma EveryResultOnePaper(results: seq<SearchResult>, found: seq<FoundResult>, missing: seq<SearchResult>)
    requires WellIndexed(results)
    requires IsPartition(results, found, missing)
    ensures var origins := missing + FoundResults(found);
      && |origins| == |results| == |AllPapers(found, missing)|
      && (forall j :: 0 <= j < |origins| ==> origins[j].index < |results| && origins[j] == results[origins[j].index])
      && (forall a, b :: 0 <= a < b < |origins| ==> origins[a].index != origins[b].index)
      && (forall k :: 0 <= k < |results| ==> results[k] in origins)
    ensures forall a, b :: 0 <= a < |missing| && 0 <= b < |found| ==> missing[a].index != found[b].result.index
    ensures forall j :: 0 <= j < |missing| ==> AllPapers(found, missing)[j] == NewPaper(missing[j])
    ensures forall j :: 0 <= j < |found| ==> AllPapers(found, missing)[|missing| + j] == found[j].paper
  {
    var origins := missing + FoundResults(found);
    assert multiset(origins) == multiset(results);
    RearrangedResults(results, origins);
    forall a, b | 0 <= a < |missing| && 0 <= b < |found|
      ensures missing[a].index != found[b].result.index
    {
      assert origins[a] == missing[a] && origins[|missing| + b] == found[b].result;
    }
  }

  /** With no store every result yields one new paper, whatever the results hold. */
  lemma NoStoreEveryResultNew(results: seq<SearchResult>)
    ensures var (found, missing) := SplitResults(None, results);
      && found == [] && missing == results
      && AllPapers(found, missing) == NewPapers(results)
      && forall j :: 0 <= j < |results| ==> AllPapers(found, missing)[j] == NewPaper(results[j])
  {
    assert NewPapers(results) + ExistingPapers([]) == NewPapers(results);
  }

  /** Three records, at most two results, no store: two new papers, nothing found. */
  lemma ThreeRecordsNoStoreExample()
    ensures var bibs: seq<BibEntry> := [map["title" := "A"], map["title" := "B"], map["title" := "C"]];
      var results := SearchResultsFromBib(bibs, 2);
      && |results| == 2 && results[0].index == 0 && results[1].index == 1
      && SplitResults(None, results).0 == []
      && |SplitResults(None, results).1| == 2
  {
  }
}
