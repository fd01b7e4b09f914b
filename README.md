# ReviewBuilder metadata merge layer in Dafny

This project models the part of ReviewBuilder that turns bibliography records into papers
ready for enrichment.

- **Search results.** `getSearchResultsFromBib` takes the first `max_results` records. It makes
  one search result per record, tagged `bibfile`. When a record's `note` field carries the
  citation annotation that a scholar export leaves, the result is re-tagged `scholar`. Its
  extra data then records the citation count (`citedby`) and the cluster identifier
  (`scholarid`). Both are read with the regular expression
  `(\d+)\scites:\s.+?scholar\?cites\=(\d+)` under `re.search`.
- **Split.** The results are split by the paper store into `found` (results the cache already
  holds, each with its stored paper) and `missing`. Without a store, nothing is found and
  every result is missing.
- **Papers.** Every missing result becomes a new paper. Every found result contributes its
  stored paper. The output is the new papers followed by the existing ones.

Modules:

- `Wrappers`: the `Option` type.
- `Records`: bibliography entries, search results, papers, the store's matching operation, and
  `IsPartition`. `IsPartition` is the property that the store hands every result back exactly
  once, as found or as missing.
- `NotePattern`: a matcher for the one regular expression, written out as a search over
  candidate start positions. It is proved to return the match that Python's backtracking
  engine reports, which is characterised independently:
  - the leftmost start wins;
  - group 1 is the whole digit run at that start;
  - the lazy `.+?` run is the shortest one that works, without crossing a newline;
  - group 2 is the longest digit run after the anchor.
- `GatherMetadata`:
  - `getSearchResultsFromBib`, as a loop proved against a specification function;
  - the list construction of `main`;
  - `main`'s flow with an optional store.
- `GeneralUtils`: `loadEntriesAndSetUp` with its no-store fallback, and lemmas showing that
  when the store's answer is a partition, every result yields exactly one paper.

## Model

| member | source | states |
|---|---|---|
| NotePattern.DigitRunEnd | gather_metadata.py:15 | the end of the greedy `\d+` run starting at a position: all digits up to it, and no digit at it |
| NotePattern.FindAnchor | gather_metadata.py:15 | the lazy `.+?` run reaches the first `scholar?cites=` followed by a digit, without crossing a newline; no earlier reachable anchor exists; `None` means no reachable anchor at all |
| NotePattern.MatchAt | gather_metadata.py:15 | the match starting at a given position that the engine prefers (shortest lazy run, longest group 2), or `None` exactly when no match starts there |
| NotePattern.SearchFrom | gather_metadata.py:15 | the preferred match among those starting at or after a position; `None` means every match starts earlier |
| NotePattern.SearchFromStart | gather_metadata.py:15 | searching from position 0 yields the match `re.search` reports, or finds nothing only when the pattern occurs nowhere |
| NotePattern.DigitsEndForced | gather_metadata.py:15 | in every match, group 1 is the whole digit run at its start, because `\s` is never a digit |
| NotePattern.GroupsAreNumerals | gather_metadata.py:15 | both captured groups of any match are non-empty digit strings |
| NotePattern.CitationGroups | gather_metadata.py:15-19 | `re.search` plus `group(1)`, `group(2)`: `None` only when the pattern occurs nowhere; otherwise the groups of the match the engine reports, both numerals |
| NotePattern.FirstMatchUnique | gather_metadata.py:15 | the match the engine reports is unique, so its groups are well defined |
| NotePattern.GroupsOfFirstMatch | gather_metadata.py:15-19 | whatever match the engine reports, CitationGroups returns exactly its two groups |
| NotePattern.ScholarNoteMatches | gather_metadata.py:15 | count, blank, `cites:`, blank, newline-free text, anchor, identifier form a match spanning the whole note |
| NotePattern.ScholarNoteFirstMatch | gather_metadata.py:15 | on such a note whose text holds no `?`, that whole-note match is the one the engine reports |
| NotePattern.ScholarNoteGroups | gather_metadata.py:15-19 | such a note yields exactly its count as `citedby` and its identifier as `scholarid` |
| NotePattern.ScholarNoteExample | gather_metadata.py:15-19 | a scholar note for a paper cited 53 times yields `("53", "9184732049183")` |
| NotePattern.PlainNoteExample | gather_metadata.py:15-16 | a note without the annotation yields no groups, so the result stays a bibfile one |
| GatherMetadata.SliceLength | gather_metadata.py:12 | `bib_entries[:max_results]` keeps exactly the positions before the stop, counted from the end when the stop is negative |
| GatherMetadata.SearchResultFor | gather_metadata.py:13-19 | the result keeps its index and record; it is `scholar` exactly when the note is non-empty and holds the pattern, otherwise `bibfile` with no extra data; a scholar result has exactly the keys `scholarid` and `citedby`, both numerals, and they are the pattern's groups 2 and 1 |
| GatherMetadata.SearchResultsFromBib | gather_metadata.py:10-22 | one result per kept record, in order, each carrying its position as index and its own record |
| GatherMetadata.BuildSearchResult | gather_metadata.py:13-19 | the result built by tagging `bibfile` and then updating source and extra data in place is the one SearchResultFor specifies |
| GatherMetadata.GetSearchResultsFromBib | gather_metadata.py:10-22 | the loop returns exactly SearchResultsFromBib: only the positions before the stop, each with its index and record |
| GatherMetadata.NewPapers | gather_metadata.py:36 | one new paper per missing result, in order, with that result's record and extra data |
| GatherMetadata.ExistingPapers | gather_metadata.py:39 | the stored paper of each found result, in order |
| GatherMetadata.AllPapers | gather_metadata.py:44 | new papers first, then existing ones, position by position |
| GatherMetadata.Gather | gather_metadata.py:25-45 | without a store the flow fails (`None`); with one it returns AllPapers of the store's answer, and as many papers as results when that answer is a partition |
| Records.FoundResults | general_utils.py:17 | the search results the store matched, position by position |
| Records.PartitionSizes | general_utils.py:17 | a partition hands back as many results as it was given |
| GeneralUtils.SplitResults | general_utils.py:16-20 | with a store, the store's answer; without one, nothing found and every result missing, which is a partition |
| GeneralUtils.LoadEntriesAndSetUp | general_utils.py:7-27 | the three lists are the new papers, the existing papers and their concatenation for the split; under a partition there is one paper per result; without a store, every paper is new and is built from the record at its own position |
| GeneralUtils.WellIndexedOccursOnce | general_utils.py:14 | results that carry their positions as indices hold no value twice |
| GeneralUtils.RearrangedResults | general_utils.py:16-25 | any rearrangement of such results holds each of them exactly once, and each element is the result at its own index |
| GeneralUtils.EveryResultOnePaper | general_utils.py:16-25 | under a partition, missing followed by found is the results, each exactly once; missing and found share no index; each paper is built from, or matched to, the result at its position |
| GeneralUtils.NoStoreEveryResultNew | general_utils.py:16-25 | without a store, the papers are exactly the new papers of all results |
| GeneralUtils.ThreeRecordsNoStoreExample | general_utils.py:14-20 | three records and a limit of two with no store give two results, indexed 0 and 1, none of them found |

## Left out

- Reading and writing bibtex files (`read_bibtex_file`, `readBibtexFile`, `write_bibtex`), the
  command line and `conf`. These are I/O: records come in as values and papers go out as
  values.
- The choice of store. Both functions decide it from `conf.cache`, and `loadEntriesAndSetUp`
  ignores its `use_cache` argument. Here the store is an explicit `Option` parameter. The
  store is an input, so `loadEntriesAndSetUp` does not return it here.
- `enrichAndUpdateMetadata` and the `force` flag. They fill in metadata of the papers over the
  network, but do not change which papers make up the output. The enriched fields are not
  tracked.
- The paper store's internals and how it decides which results it holds. Its answer is an
  opaque function. The one property relied on, `IsPartition`, is a hypothesis of the lemmas
  that need it, not a fact about the store.
- `if paperstore:`: a present store is taken to be truthy. Its class is not part of this model.
- `getSearchResultsFromBib` in general_utils.py comes from a module `search`, which is not part
  of this model. The definition in gather_metadata.py is used for it.
- GatherMetadata.SliceLength: `max_results` is an integer. A `None` limit, which would keep
  every record, is not modelled.
- GatherMetadata.Gather: the failure on a missing store (an attribute error on `None`) is
  modelled as a `None` result, not as an exception.
- NotePattern.IsDigit: `\d` is limited to the ASCII digits. Python also accepts other Unicode
  decimal digits. `\s` is Python's full `str.isspace` set.
- NotePattern.CitationGroups: stated as "`None` implies no match". The converse follows from
  its second clause, since a reported match is a match.
- The search result is a value, not a mutable object. The source builds a fresh object, sets
  its source and extra data, and appends it. No other reference to it exists, so record
  updates on a fresh value behave the same.
