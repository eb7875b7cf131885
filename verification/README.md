# Near-duplicate text detection of the zijiyou crawler, in Dafny

This project models the duplicate-detection core of the zijiyou crawler,
found in `zijiyou/zijiyou/common/utilities.py`. The core has three parts:

- `getFingerPrint(inputs, isUrl)` turns an ordered list of strings into an
  MD5 hex digest. It returns the integer `0` when there is nothing to hash. In
  URL mode each URL is canonicalised and split at `?`. When that gives a path
  and a query, the query's `&`-pieces are bubble-sorted and placed after the
  path.
- `TxtDuplicateFilter.getTopSentences` (with `getKey`) cuts a text at
  sentence punctuation and keeps the longest segments. The ranking is stable
  and longest first.
- `TxtDuplicateFilter.__init__` / `checkDuplicate` keep a set of
  fingerprints. The set is seeded once at construction and grows by one
  fingerprint per new text.

Files:

- `strings.dfy` (module `Strings`): Python's one-character `split` and its
  inverse `join`, the concatenation a hasher sees, and Python 2's string
  order `<`. It also holds a reference insertion sort for that order, and
  proves that a multiset has exactly one sorted arrangement.
- `fingerprint.dfy` (module `Fingerprints`): the `Fingerprint` datatype
  (`Zero` for the integer `0`, `Hex(digest)` otherwise) and hashlib's
  incremental hasher. It has the URL expansion, the bubble sort with its
  shrinking `lastX` bound, and `getFingerPrint` as the source writes it. A
  reference function states the result as the MD5 of all chunks
  concatenated.
- `segmentation.dfy` (module `Segmentation`): the delimiter class, the
  substitution and split, the stable longest-first sort, and the selection
  loop of `getTopSentences`.
- `duplicate_filter.dfy` (module `DuplicateFilter`): the filter state, its
  three seeding modes, `checkDuplicate`, and the runs of checks built from
  it.

MD5 and scrapy's `canonicalize_url` are not defined here. Every operation
that uses them takes them as parameters (`md5`, `canon: string -> string`).
The database cursor of the constructor is likewise a parameter
`store: string -> seq<Record>` that gives each collection's records. A record
is a map from field names to values.

Four behaviours of the code are easy to misread; the model follows the code:

- A literal seed list is used only when it has more than one element
  (`len(md5Vals) > 1`). A one-element list is ignored, so with no source
  collections the filter starts empty.
- The text is split on the delimiter class `[，。：；？！……\r\n]` (line 68)
  and also on ASCII commas already in the text. The substitution writes a
  comma and the split is on `,`. An ASCII `.` does not split, and empty
  segments are kept.
- `getTopSentences` appends a segment before it tests the counter. It
  therefore returns one segment even when `topNum <= 0`.
- The chunks are fed to the hasher back to back, with no separator
  (lines 53-58). Inputs with non-empty chunk lists that concatenate to the
  same string share a fingerprint whatever the hash. An empty chunk list
  gives `0` instead (lines 51-52), so `[]` and `[""]` differ. The text
  "a,,b" collides with "ab", and the URL `x/a?b=1` with `x/ab=1` when
  canonicalisation leaves both as they are.

## Model

| member | source | states |
|---|---|---|
| Strings.JoinSplit | zijiyou/zijiyou/common/utilities.py:21 | joining the pieces of `s.split(sep)` with `sep` gives back `s` |
| Strings.SplitJoin | zijiyou/zijiyou/common/utilities.py:25 | splitting the join of separator-free pieces gives back the same pieces, so no piece is lost, merged or reordered |
| Strings.SplitLength | zijiyou/zijiyou/common/utilities.py:21-23 | a string splits into one more piece than it has separators, so `len(tokens) == 2` means exactly one `?` |
| Strings.SortStringsSpec | zijiyou/zijiyou/common/utilities.py:27-39 | the reference order for query pieces is a permutation of them, non-decreasing under Python's string `<` |
| Strings.SortedUnique | zijiyou/zijiyou/common/utilities.py:27-39 | two sorted arrangements of the same multiset of strings are equal, so every correct sort of the pieces gives the same list |
| Fingerprints.BubblePass | zijiyou/zijiyou/common/utilities.py:30-39 | one pass of the inner loop permutes the pieces, and its `lastX` is below the old bound; everything after `lastX` is sorted and no smaller than anything before it |
| Fingerprints.BubbleSort | zijiyou/zijiyou/common/utilities.py:28-39 | the bubble sort with the shrinking `lastX` bound terminates and returns a sorted permutation of the query pieces, equal to the reference sort |
| Fingerprints.ExpandOne | zijiyou/zijiyou/common/utilities.py:20-46 | the loop body for one URL, using the bubble sort, produces the pieces that the URL-expansion function assigns to that URL |
| Fingerprints.ExpandUrlSpec | zijiyou/zijiyou/common/utilities.py:20-48 | with exactly one `?`, a URL contributes its `?`-free path first, then its query's `&`-pieces sorted and permuted; otherwise its `?`-pieces unchanged, in order, joining back to the canonical URL |
| Fingerprints.UrlWithQuery | zijiyou/zijiyou/common/utilities.py:23-40 | a canonical URL `path?query` contributes the path followed by the sorted `&`-pieces of the query |
| Fingerprints.UrlWithOneParameter | zijiyou/zijiyou/common/utilities.py:41-43 | a query without `&` is appended as it is, path first and then the one parameter |
| Fingerprints.UrlWithoutQuery | zijiyou/zijiyou/common/utilities.py:44-46 | a canonical URL without `?` is one chunk, and a one-URL list hashes exactly that canonical URL |
| Fingerprints.QueryOrderInvariance | zijiyou/zijiyou/common/utilities.py:23-40 | two URLs with the same path whose queries hold the same parameters in any order expand alike and get the same fingerprint |
| Fingerprints.PathSensitivity | zijiyou/zijiyou/common/utilities.py:44-60 | for a collision-free hash, two query-less URLs with different canonical forms get different fingerprints |
| Fingerprints.ExpandUrlsAppend | zijiyou/zijiyou/common/utilities.py:19-48 | URL mode treats each URL on its own: the chunks of a concatenated list are the chunks of each part, appended |
| Fingerprints.HashChunks | zijiyou/zijiyou/common/utilities.py:51-60 | seeding the hasher with the first chunk and updating it with each later one yields `0` exactly for no chunks, and otherwise the MD5 of all chunks concatenated |
| Fingerprints.GetFingerPrint | zijiyou/zijiyou/common/utilities.py:13-60 | `getFingerPrint` gives `0` exactly when the expanded list is empty, and otherwise the MD5 of the concatenation of the chunks, in order |
| Fingerprints.QueryBoundaryCollision | zijiyou/zijiyou/common/utilities.py:41-58 | `path?query` with a single parameter and the different URL `pathquery` get the same fingerprint for every hash, because the path/query boundary is not fed to the hasher |
| Fingerprints.TextSingle | zijiyou/zijiyou/common/utilities.py:53-55 | in text mode a one-element list hashes just that element |
| Fingerprints.TextChunking | zijiyou/zijiyou/common/utilities.py:53-60 | in text mode cutting a chunk in two leaves the fingerprint unchanged |
| Fingerprints.SameConcatenation | zijiyou/zijiyou/common/utilities.py:51-60 | two inputs whose chunk lists are non-empty and concatenate to the same string get the same fingerprint, for every hash |
| Fingerprints.EmptyChunkIsNotNothing | zijiyou/zijiyou/common/utilities.py:51-55 | no chunks and one empty chunk concatenate alike, yet the first gives `0` and the second the digest of the empty string, in text mode and in URL mode |
| Segmentation.Normalize | zijiyou/zijiyou/common/utilities.py:97 | the substitution keeps the length, leaves no delimiter, puts a comma exactly where the text had a delimiter or a comma, and keeps every other character |
| Segmentation.SegmentsSpec | zijiyou/zijiyou/common/utilities.py:97-99 | the segments number one more than the break characters, contain no break character, and join with commas back to the substituted text |
| Segmentation.InsertByKeySpec | zijiyou/zijiyou/common/utilities.py:100 | inserting into a longest-first list keeps it longest first and adds exactly the inserted segment |
| Segmentation.SortByKeySpec | zijiyou/zijiyou/common/utilities.py:100 | the ranking by `getKey` (the segment length) with `reverse=True` is longest first and a permutation, keeps each length class in text order, and is the only arrangement with these properties |
| Segmentation.StableSortUnique | zijiyou/zijiyou/common/utilities.py:100 | two longest-first lists with the same elements of each length, in the same order, are equal |
| Segmentation.TakeTop | zijiyou/zijiyou/common/utilities.py:101-105 | the selection loop keeps a prefix of the ranked list: one element when `topNum <= 1`, otherwise `min(topNum, len)`; nothing for an empty list |
| Segmentation.TopSentences | zijiyou/zijiyou/common/utilities.py:93-106 | `getTopSentences` never returns an empty list and never more than the number of segments |
| Segmentation.TopSentencesSpec | zijiyou/zijiyou/common/utilities.py:93-106 | the result has `min(topNum, #segments)` elements when `topNum >= 1` and one otherwise; it is a prefix of the stable ranking, drawn from the segments, and no dropped segment is longer than a kept one |
| DuplicateFilter.LoadRecords | zijiyou/zijiyou/common/utilities.py:79-81 | one cursor contributes the `md5` of exactly the records that have that field |
| DuplicateFilter.LoadCollections | zijiyou/zijiyou/common/utilities.py:77-81 | the bulk load holds exactly the `md5` values found in some record of some listed collection |
| DuplicateFilter.Init | zijiyou/zijiyou/common/utilities.py:66-87 | with more than one literal value the set is exactly those values; otherwise, with source collections, exactly their stored `md5` values; otherwise empty; never the `0` sentinel |
| DuplicateFilter.SingleSeedIgnored | zijiyou/zijiyou/common/utilities.py:69-84 | a one-element literal list with no source collections leaves the set empty, so any text whose fingerprint is that very value is reported new |
| DuplicateFilter.BulkSeedEquivalence | zijiyou/zijiyou/common/utilities.py:69-81 | seeding from a literal list of more than one value equals bulk-loading the same values from the store |
| DuplicateFilter.CheckDuplicate | zijiyou/zijiyou/common/utilities.py:108-125 | the fingerprint is the MD5 of the concatenated top 50 segments, never `0`; it is a duplicate exactly when already in the set, in which case nothing changes; otherwise the set gains exactly that fingerprint |
| DuplicateFilter.RepeatIsDuplicate | zijiyou/zijiyou/common/utilities.py:114-125 | checking a text again right away reports a duplicate with the same fingerprint and leaves the set as it is |
| DuplicateFilter.Run | zijiyou/zijiyou/common/utilities.py:120-125 | after a sequence of checks the set is the seed set plus the fingerprints of all checked texts |
| DuplicateFilter.SeenStaysDuplicate | zijiyou/zijiyou/common/utilities.py:120-125 | the set only grows, and a text checked once is reported a duplicate by every later check, whatever came in between |
| DuplicateFilter.SentinelNeverStored | zijiyou/zijiyou/common/utilities.py:114-125 | the sentinel `0` never enters the set, whatever the seed and the texts checked |
| DuplicateFilter.SegmentBoundaryCollision | zijiyou/zijiyou/common/utilities.py:114-122 | the different texts "a,,b" and "ab" collide for every hash: the first is reported new and the second its duplicate, because their top segments concatenate to the same string |

## Left out

- MD5 and `canonicalize_url` are parameters, not definitions. The model
  assumes nothing about them beyond being functions, so hash collisions are
  not excluded. Even an injective hash does not make different content give
  different fingerprints. Fingerprints coincide whenever the chunk lists
  are non-empty and concatenate alike, because the chunks are fed to the hasher without
  separators. `PathSensitivity` is therefore stated only for query-less
  URLs, whose single chunk is the whole canonical URL, and under an
  injective hash.
- hashlib's incremental interface is modelled as the bytes fed so far, with
  the digest being the MD5 of those bytes. This is how hashlib documents
  `update`.
- Character encoding: `unicode()` conversions and the encoding of text to
  bytes before hashing are not modelled. Strings are sequences of characters,
  and the `md5` parameter receives them as they are. Under Python 2's default
  ASCII codec the non-ASCII delimiter class would not decode; the model
  assumes that decoding succeeds.
- The database access of the constructor (`UtilityApt.findMd5sFromCollection`)
  is the `store` parameter. Its failures and its timing are not modelled.
- `print` and `log` output, and the unused `id` argument of `checkDuplicate`,
  are left out.
- The default arguments are left out: `getTopSentences` has a default
  `topNum` of 10 and `getFingerPrint` defaults to text mode. The model passes
  both explicitly. `checkDuplicate` passes 50 (`TopNum`).
- Python's dynamic values are reduced to strings. Literal seeds and stored
  `md5` fields are strings, and a record is a string-to-string map.
- `ProcessBar` (floating-point progress printing) is left out.
- The storage pipeline (MongoDB writes, file output) is left out, because it
  is not part of the duplicate-detection core.
- The exporter tests are left out. They exercise framework serializers that
  are not part of this model.
- Concurrent use of one filter is left out. The model is a pure state
  transition, so each check is atomic by construction.
