# Inverted index builder, in Dafny

This project models the in-memory inverted index of a small BM25 search
engine written in Go (`invertedIndex.go`). The index holds two things:

- a term dictionary, which maps each normalised term to its postings list:
  one `(docID, fdt)` pair per document that contains the term, ascending by
  document ID;
- a roster of the indexed documents, each with its name, its size (the
  number of tokens it gave) and its score.

The model covers the following:

- `NewIndex`.
- The token loop of `IndexDocument`, which works as follows:
  - it splits the text on whitespace;
  - it trims a fixed punctuation set from both ends of each field, then
    lower-cases it;
  - it adds one occurrence to the term's list, either by raising the fdt of
    the list's last posting when that posting is the current document's, or
    by appending `(id, 1)`;
  - it counts the token in the document's size.
- The three statistics scans: `ComputeCollectionSize`, `NumberOfDocuments`
  and `NumOfQueryDocs`.
- The integer first step of `SearchTopKQuery`: the query is split on single
  spaces, and each lower-cased piece is counted.

How the model is laid out:

- `tokenize.dfy` (module `Tokenize`): the Go library helpers the builder
  calls (`bytes.Fields`, `bytes.Trim` with the builder's cutset,
  `strings.ToLower`, `strings.Split` on `" "`), written as pure functions
  over ASCII, with their laws.
- `sums.dfy` (module `Sums`): sums of a weight over the entries of a map,
  which do not depend on key order, and occurrence counts in a sequence.
  Go iterates maps in an unspecified order, and the statistics are defined
  through these sums.
- `postings.dfy` (module `Postings`):
  - the value types `Posting`, `Doc` and `Dictionary`;
  - the index invariant;
  - the effect of one token (`AddOccurrence`, `CountToken`);
  - the effect of a whole document, both as a token-by-token fold
    (`AddAll`) and in closed form (`Indexed`, where every term of the
    document gets exactly one new posting, whose fdt is the term's
    number of occurrences);
  - the lemmas that keep the invariant and tie the scans to the roster.
- `inverted_index.dfy` (module `InvertedIndex`): the class `InvIndex`, with
  `index` and `docsIndexed` as fields that its methods update. This file
  also holds the query-count loop, and module `QueryTerms`, which holds the
  choice of query terms to score, as written and as intended (see
  "## Findings").

Document IDs are 1-based positions in the roster: the document at position
`i` has ID `i + 1`, as in the Go code, which appends the `Doc` and then uses
`x + 1`. `IndexInvariant`, which is `Valid()` of the class, says three things:

- every key is a term: lower-case, with no cutset character at either end;
- every list is non-empty, strictly ascending, has IDs in `1..|docs|` and has
  every fdt at least 1;
- every document's size is its total fdt over the dictionary, and the total
  fdt of the dictionary is the sum of the sizes.

Notes on what the code does, which the model follows:

- Postings are plain `(docID, fdt)` pairs. There is no delta or
  variable-byte compression anywhere in `invertedIndex.go`, so there is no
  codec to model.
- Indexing never skips a document whose name was already indexed: every
  call appends a new `Doc`, so the model does the same.
- Query tokens are not normalised like document tokens. The query is split
  on single spaces and the pieces are only lower-cased, so empty pieces and
  punctuation are kept.
- A field that trims to the empty string is still a token. It counts in the
  document's size and is indexed under the empty term;
  `PunctuationOnlyToken` shows it.

`Valid()` describes the index only up to the first search.
`SearchTopKQuery` sorts `docsIndexed` by score in place
(invertedIndex.go:152). After that the document at position `i` need no
longer have ID `i + 1`, so `SizesMatch` and the roster relations stated
under `Valid()` no longer describe the program's state. The next query's
`inv.docsIndexed[qlist[j].docID-1]` (invertedIndex.go:145, 148) then reads
the size of, and adds score to, a document chosen by position rather than
by ID. The sort is not modelled (see "## Left out").

## Model

| member | source | states |
|---|---|---|
| InvertedIndex.InvIndex.constructor | invertedIndex.go:56-61 | A new index has an empty dictionary and an empty roster, and satisfies the invariant |
| InvertedIndex.InvIndex.IndexDocument | invertedIndex.go:63-93 | Appends exactly one `Doc`: the given name, size equal to the number of whitespace fields of the content (those that trim to nothing included), score 0. Its ID is the old roster length + 1, and earlier documents are unchanged. The dictionary becomes the old one with every token's occurrence added, in order, and the invariant is kept |
| InvertedIndex.InvIndex.IndexTokens | invertedIndex.go:78-91 | The token loop raises the newest document's size by the number of fields and leaves every other document as it was. The dictionary ends as the fold of one occurrence per normalised field |
| InvertedIndex.InvIndex.AddToken | invertedIndex.go:82-90 | One token: if the term's list ends with the current document, that posting's fdt goes up; otherwise `(id, 1)` is appended (the empty list for a new term). The current document's size goes up by one |
| InvertedIndex.InvIndex.ComputeCollectionSize | invertedIndex.go:95-104 | Returns the total fdt over every postings list, whatever the map order. In a valid index this equals the sum of the documents' sizes |
| InvertedIndex.InvIndex.NumberOfDocuments | invertedIndex.go:106-117 | Returns the largest docID in any list, or 0 if there is none. In a valid index it is the ID of the last document with a token, so it is at most the roster length, 0 on a new index, and smaller when the latest documents were empty |
| InvertedIndex.InvIndex.NumOfQueryDocs | invertedIndex.go:119-121 | The length of t's list, 0 for a term never indexed. In a valid index it is the number of distinct documents on t's list, and it is 0 exactly when t was never indexed |
| Postings.DocFrequency | invertedIndex.go:119-121 | In a valid index a term's list has one posting per document containing the term, and it is empty exactly for the terms not in the dictionary |
| InvertedIndex.CountsOfAppend | invertedIndex.go:132-133 | Counting one more piece raises its count by one (from 0 for a missing key) and keeps the counts equal to the occurrence numbers, summing to the number of pieces |
| InvertedIndex.QueryTermCounts | invertedIndex.go:124-134 | The keys are exactly the lower-cased pieces of the query split on single spaces. Each count is that piece's number of occurrences, and the counts sum to the number of pieces |
| QueryTerms.KeysAtMostPieces | invertedIndex.go:131-136 | The count map has at most as many keys as the query has pieces, so the loop's `str[i]` never indexes past the pieces |
| QueryTerms.ScoredTermsAsWritten | invertedIndex.go:136-137 | The loop as written looks at the first `len(query)` raw pieces, one per distinct key, and scores a piece exactly when the raw piece is a key |
| QueryTerms.RepeatedTermScoredTwice | invertedIndex.go:131-137 | For `"a a b"` the loop as written scores `"a"` twice and `"b"` never |
| QueryTerms.CapitalisedTermNeverScored | invertedIndex.go:131-137 | For `"Hello"` the count map holds `"hello"`, and the loop as written scores nothing |
| QueryTerms.ScoredTerms | invertedIndex.go:131-137 | The intended loop scores every distinct lower-cased piece of the query exactly once, and nothing else |
| QueryTerms.DistinctOccursOnce | invertedIndex.go:136-137 | A sequence without repeats holds each of its elements exactly once |
| Postings.CountOccurrenceValid | invertedIndex.go:84-89 | Bumping the last posting or appending `(n, 1)` keeps a list of an index of n documents non-empty, strictly ascending, with IDs in range and every fdt ≥ 1 |
| Postings.WeightCountOccurrence | invertedIndex.go:84-89 | One occurrence adds exactly 1 to the list's total fdt and to the current document's fdt, and nothing to any other document's |
| Postings.CountOccurrenceLast | invertedIndex.go:84-85 | A list ending with the current document's posting gets that posting's fdt raised by one |
| Postings.CountOccurrenceNew | invertedIndex.go:89 | A list whose documents all precede the current one gets `(id, 1)` appended |
| Postings.TotalSizeUpdate | invertedIndex.go:86-90 | Replacing a document changes the sum of sizes by the difference of the two sizes |
| Postings.TotalSizeCountToken | invertedIndex.go:86-90 | Counting a token in a document raises the sum of sizes by exactly one |
| Postings.AddOccurrenceWellFormed | invertedIndex.go:79-89 | Adding an occurrence of a term keeps every key a term and every list well formed |
| Postings.AddOccurrenceSizes | invertedIndex.go:84-90 | After one token, every document's size still equals its total fdt over the dictionary |
| Postings.AddOccurrenceKeepsInvariant | invertedIndex.go:82-90 | One token of the newest document keeps the whole invariant, with that document's size raised by one |
| Postings.NoPostingsYet | invertedIndex.go:69-71 | A newly appended document has no postings yet: the lists stay valid for the larger roster, and the document's total fdt is 0 |
| Postings.NewDocumentKeepsInvariant | invertedIndex.go:69-71 | Appending `Doc(name, 0, 0.0)` keeps the invariant |
| Postings.EmptyInvariant | invertedIndex.go:56-61 | The empty dictionary and the empty roster satisfy the invariant |
| Postings.LookupIndexed | invertedIndex.go:78-91 | After a document, a term of that document has its old list plus exactly one posting for the document, whose fdt is the term's number of occurrences. Any other term's list is unchanged |
| Postings.IndexedStepSeen | invertedIndex.go:84-87 | A repeated token of the document turns the closed form for the shorter prefix into the closed form for the longer one by raising the last fdt |
| Postings.IndexedStepNew | invertedIndex.go:89-90 | A token's first occurrence in the document appends `(id, 1)` to its term's list |
| Postings.IndexedStepOther | invertedIndex.go:82-90 | A token changes no other term's list, and creates no other key |
| Postings.IndexedStep | invertedIndex.go:82-90 | When every posting belongs to an earlier document, one more token is exactly one more step of the builder loop on the closed form |
| Postings.AddAllNext | invertedIndex.go:78-91 | The loop state after k + 1 tokens is one more step from the state after k |
| Postings.AddAllIsIndexed | invertedIndex.go:78-91 | When every posting belongs to an earlier document, the token-by-token loop gives the closed form: exactly one posting per term of the document, appended after the earlier ones, with fdt equal to the term's number of occurrences |
| Postings.AddAllKeepsInvariant | invertedIndex.go:69-91 | Indexing normalised tokens as a new document keeps the invariant, with the document's size equal to the number of tokens |
| Postings.DocumentKeepsInvariant | invertedIndex.go:69-91 | Indexing a whole text as a new document keeps the invariant, with its size equal to the number of its fields |
| Postings.DocumentPostings | invertedIndex.go:78-91 | Indexing a text leaves every earlier document's postings as they were. A term of the text gets exactly one new posting, for the new document, with fdt equal to the number of its fields that normalise to the term; other terms are untouched |
| Postings.InvariantAllBefore | invertedIndex.go:69-70 | In a valid index, every posting belongs to a document before the next ID |
| Postings.ListsBelowAdd | invertedIndex.go:109-115 | The running maximum, once it covers one more list, bounds every list scanned so far |
| Postings.LastNonEmpty | invertedIndex.go:106-117 | The last document with a token: within the roster, with a positive size, and with every later document of size 0 |
| Postings.WeightPositive | invertedIndex.go:84-89 | A document's fdt on a list is positive exactly when the list has a posting for it |
| Postings.PostingHasTokens | invertedIndex.go:84-90 | A document that appears in some list is in the roster and has a positive size |
| Postings.TokensHavePosting | invertedIndex.go:84-90 | A document with a positive size appears in some list |
| Postings.HasPostingIffTokens | invertedIndex.go:84-90 | A document appears in some postings list exactly when it gave at least one token |
| Postings.MaxDocIDIsLastNonEmpty | invertedIndex.go:106-117 | In a valid index, the largest docID in the dictionary is the ID of the last document with a token |
| Postings.AscendingDocCount | invertedIndex.go:119-121 | An ascending list has one posting per document, so its length is the number of documents it mentions |
| Sums.SumOverPick | invertedIndex.go:98-102 | Any key may be taken first: a sum over the map does not depend on iteration order |
| Sums.SumOverAgree | invertedIndex.go:98-102 | Maps that agree on the weight of every key have the same sum |
| Sums.SumUpdate | invertedIndex.go:89 | Storing a new list under a key replaces that key's old contribution to a sum by the new one |
| Sums.SumOverPositive | invertedIndex.go:109-115 | A sum over keys is positive exactly when some entry has a positive weight |
| Sums.OccurrencesBounds | invertedIndex.go:133 | A piece occurs at most as often as there are pieces, and at least once exactly when it is one of them |
| Sums.OccurrencesAbsent | invertedIndex.go:133 | A piece that is not in the sequence occurs zero times |
| Sums.OccurrencesAppend | invertedIndex.go:133 | One more piece adds one to its own count and nothing to the others |
| Tokenize.CutsetIsAsciiPunctuation | invertedIndex.go:79 | The cutset is exactly the 32 ASCII punctuation characters |
| Tokenize.WordLen | invertedIndex.go:78 | The longest whitespace-free prefix is whitespace-free and stops at whitespace or at the end |
| Tokenize.Fields | invertedIndex.go:78 | Every field is a non-empty run of non-whitespace characters |
| Tokenize.WordLenOfWord | invertedIndex.go:78 | A word followed by whitespace or the end is read whole |
| Tokenize.FieldsOfJoin | invertedIndex.go:78 | Splitting words joined by single spaces gives the words back |
| Tokenize.NonSpaceOfWordPrefix | invertedIndex.go:78 | The non-whitespace characters of a text that starts with a word are that word followed by those of the rest |
| Tokenize.FieldsCoverNonSpace | invertedIndex.go:78 | The fields, concatenated, are exactly the non-whitespace characters of the text, in order |
| Tokenize.CountStartsShift | invertedIndex.go:78 | Cutting a text where no run of non-whitespace straddles the cut, the runs before a position are those before the cut plus those of the rest |
| Tokenize.CountStartsInWord | invertedIndex.go:78 | A leading run of non-whitespace characters holds exactly one run start |
| Tokenize.FieldsCount | invertedIndex.go:78 | There are exactly as many fields as maximal runs of non-whitespace characters |
| Tokenize.RunOfSuffix | invertedIndex.go:78 | A maximal run of a suffix is a maximal run of the whole text when the cut does not split a run, and it starts after the runs before the cut plus those before it in the suffix |
| Tokenize.FieldAfterSpace | invertedIndex.go:78 | Leading whitespace yields no field: field k of the text is field k of the rest |
| Tokenize.FieldAfterWord | invertedIndex.go:78 | A text that starts with a word has that whole word, up to whitespace or the end, as its first field, followed by the fields of the rest |
| Tokenize.FieldIsRun | invertedIndex.go:78 | Field k is the slice of the text between whitespace (or its ends) that forms the maximal non-whitespace run starting after exactly k other runs |
| Tokenize.FieldIsRunAfterSpace | invertedIndex.go:78 | The same as `FieldIsRun`, for a text that starts with whitespace |
| Tokenize.FieldIsRunAfterWord | invertedIndex.go:78 | The same as `FieldIsRun`, for a text that starts with a word |
| Tokenize.TrimLeft | invertedIndex.go:79 | The result is no longer than the input, everything dropped is cutset, and the result does not start with a cutset character |
| Tokenize.TrimRight | invertedIndex.go:79 | The result is a prefix, everything dropped is cutset, and the result does not end with a cutset character |
| Tokenize.TrimLeftIsSuffix | invertedIndex.go:79 | Trimming on the left keeps a suffix of the token |
| Tokenize.Trim | invertedIndex.go:79 | The trimmed token neither starts nor ends with a cutset character |
| Tokenize.TrimIsSlice | invertedIndex.go:79 | The trimmed token is one contiguous slice of the original, with its interior unchanged, and everything cut off on either side is cutset |
| Tokenize.TrimIdempotent | invertedIndex.go:79 | Trimming twice is trimming once |
| Tokenize.ToLower | invertedIndex.go:81 | Lower-casing keeps the length and maps each character on its own |
| Tokenize.ToLowerSpec | invertedIndex.go:81 | The result has no upper-case letter, every other character is unchanged, and lower-casing is idempotent |
| Tokenize.LowerKeepsCutset | invertedIndex.go:79-81 | Lower-casing neither creates nor removes a cutset character |
| Tokenize.NormalizeIsTerm | invertedIndex.go:79-81 | A normalised token is a term: lower-case, with no cutset at either end. It is the lower-cased interior slice of the token, and everything trimmed off is cutset |
| Tokenize.TermAt | invertedIndex.go:78-81 | Term k of a text is its field k, trimmed and lower-cased |
| Tokenize.TermsAreTerms | invertedIndex.go:78-81 | A text gives one term per field, and each one is a term |
| Tokenize.TermsOfJoin | invertedIndex.go:78-81 | The terms of words joined by single spaces are the words, normalised |
| Tokenize.TermsOfTwoFields | invertedIndex.go:78-81 | A text with two fields gives the two normalised fields |
| Tokenize.HelloWorldFields | invertedIndex.go:78 | `"Hello, World!!"` has the fields `"Hello,"` and `"World!!"` |
| Tokenize.NormalizeHello | invertedIndex.go:79-81 | `"Hello,"` normalises to `"hello"` |
| Tokenize.NormalizeWorld | invertedIndex.go:79-81 | `"World!!"` normalises to `"world"` |
| Tokenize.HelloWorld | invertedIndex.go:78-81 | `"Hello, World!!"` gives the terms `"hello"` and `"world"` |
| Tokenize.NormalizeDashes | invertedIndex.go:79 | A token made only of cutset characters trims to the empty term |
| Tokenize.PunctuationOnlyToken | invertedIndex.go:78-90 | `"to -- be"` gives three terms, the middle one empty, so that field still counts |
| Tokenize.Split | invertedIndex.go:131 | Splitting gives at least one piece, and no piece contains a space |
| Tokenize.SplitCount | invertedIndex.go:131 | A string with n spaces splits into n + 1 pieces |
| Tokenize.JoinSplit | invertedIndex.go:131 | Joining the pieces with single spaces restores the query |
| Tokenize.SplitWordSpace | invertedIndex.go:131 | A space-free piece followed by a space splits off as one piece |
| Tokenize.SplitJoin | invertedIndex.go:131 | Splitting a single-space join of space-free pieces gives the pieces back |

## Left out

- File access in `IndexDocument` (`os.Open`, `ioutil.ReadAll`, `log.Fatal` on failure, invertedIndex.go:64-76) is I/O. The model takes the content as a string. The `error` result is always `nil` in the code, so it is not modelled.
- `filepath.Base(path)` (invertedIndex.go:70) is path handling. The model takes the document name as given.
- The CSV helpers `WriteHeader`, `SafeOpenFile`, `WriteToFile` and `CloseFile` (invertedIndex.go:33-54) are file I/O and formatting.
- The BM25 part of `SearchTopKQuery` (invertedIndex.go:125-129, 138-150) is `float64` arithmetic with `math.Log`. Only its integer inputs are modelled: the query counts, `NumOfQueryDocs`, the collection size, the document count, and which query terms the loop at invertedIndex.go:136-137 picks for scoring.
- Sorting the roster by score (`sort.Sort(ByScore(...))` with `Len`, `Swap` and `Less`, invertedIndex.go:152, 163-167) and the top-K slice (invertedIndex.go:154-160) are left out with the float scores. The sort also reorders `docsIndexed` in place at the first search, which breaks the rule that a document's ID is its position + 1 from then on. `Valid()` and every clause stated under it describe only the states before the first search.
- main.go is stdin polling in a goroutine, flag parsing, a sleep loop and report writing. It is concurrency and I/O outside the index.
- Go's `int` is at least 32 bits wide, and 64 bits on 64-bit targets. Sizes, frequencies and IDs are unbounded `nat` here, because overflow would need more than 2^31 tokens even on a 32-bit target.
- `bytes.Fields` splits on every Unicode space, `bytes.Trim` works on UTF-8 runes, and `strings.ToLower` folds every Unicode letter. Go works on `[]byte` content and byte-string keys; the model takes the content as already-decoded characters, so invalid UTF-8 cannot be expressed (Go's `strings.ToLower` turns invalid bytes into U+FFFD on its non-ASCII path, which can merge keys). The model treats text as a sequence of characters in which only the six ASCII whitespace characters separate fields and only `A`–`Z` change case.
- `docsIndexed` holds pointers (`[]*Doc`). The model keeps `Doc` values in a sequence and updates the newest one by position, which is the only one the builder changes through `pdoc`.
- `list[l-1].fdt++` changes the postings through a slice that shares its backing array with the map entry. The model stores the updated list back under the term, which has the same effect.
- `IndexTokens` and `AddToken` are the body of the `IndexDocument` loop and the body of one iteration, factored out as methods of their own. `IndexDocument` calls them in that order.

## Findings

| source | as written | input that shows it | evidently intended | confidence | as-written member | corrected member |
|---|---|---|---|---|---|---|
| invertedIndex.go:136-137 | The term loop runs `i` from 0 below `len(query)`, the number of distinct keys, and looks up the raw piece `str[i]`, which is not lower-cased | `"a a b"` scores `"a"` twice and `"b"` never; `"Hello"` is counted under `"hello"` but scores nothing | Every distinct lower-cased query term is scored exactly once, with its count | not executed | QueryTerms.RepeatedTermScoredTwice | QueryTerms.ScoredTerms |
