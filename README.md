# Keyword relevance ranking of a movie catalogue, in Dafny

The repository is a console application over a film database. Its one piece
of algorithmic content is the in-memory keyword ranker of `search_engine.py`:
it splits a query into lower-case words, removes stop words, keeps the
distinct terms, scores each document by how many distinct query terms it
contains, drops documents that score 0, and sorts the rest by descending
score. Python's sort is stable, so tied documents keep their corpus order.
The second piece is the client-side keyword filter of
`search_movies_by_keyword` in `console_interface.py`. Once the film rows have
been fetched, it keeps a row when every lower-cased query word occurs *as a
substring* of the lower-cased `title + " " + description`. It reports the
kept rows as `(film_id, title)` in fetch order.

Files:

- `tokenizer.dfy` (module `Tokenizer`): `split_words`. Lower-casing is ASCII
  lower-casing. Whitespace is the fixed set of characters Python's
  `str.split()` splits on.
- `sequences.dfy` (module `Sequences`): the subsequence relation.
- `search_engine.dfy` (module `SearchEngine`): `remove_stop_words`,
  `parse_query`, `match_document` and `find_documents`.
  - `FindDocuments` is a method with the source's accumulation loop.
  - The stable sort of line 27 is the function `SortByRelevance`.
  - `StableSortIsUnique` shows that sortedness plus stability fix the
    output, so any stable sort gives this result.
- `keyword_search.dfy` (module `KeywordSearch`): the keyword filter after
  translation and fetch, as a pure function of the translated text and the
  fetched rows.
- `ranking_examples.dfy` (module `RankingExamples`): two small corpora
  ranked end to end.

## Model

| member | source | states |
|---|---|---|
| `Tokenizer.Lower` | search_engine.py:2 | each of `A`-`Z` becomes the lower-case letter at the same alphabet position (`A` to `a`, ..., `Z` to `z`), every other character is unchanged, whitespace stays whitespace, and no result is an upper-case letter |
| `Tokenizer.LowerStr` | search_engine.py:2 | `lower()` keeps the length and lower-cases each character in place |
| `Tokenizer.LowerStrIsLowerCase` | search_engine.py:2 | the result of `lower()` is left unchanged by a second `lower()` |
| `Tokenizer.Split` | search_engine.py:2 | every word of `split()` is non-empty and contains no whitespace |
| `Tokenizer.SplitWords` | search_engine.py:1-2 | every word of `split_words` is non-empty, contains no whitespace and equals its own lower-case form |
| `Tokenizer.SplitAtSpace` | search_engine.py:2 | any whitespace character separates words: splitting `a + [c] + b` for whitespace `c` gives the words of `a` followed by the words of `b`, so tabs, newlines, runs of whitespace and leading or trailing whitespace behave as in `str.split()` |
| `Tokenizer.SplitConcat` | search_engine.py:2 | gluing the words back together gives exactly the non-whitespace characters of the text, in order (nothing lost, nothing invented) |
| `Tokenizer.SplitJoin` | search_engine.py:2 | splitting words that were joined with single spaces gives back those words, when each is non-empty and free of whitespace |
| `Tokenizer.BlankSplit` | search_engine.py:2 | a text made only of whitespace (or empty) splits into no words |
| `Tokenizer.SplitWordsBlank` | search_engine.py:1-2 | a text made only of whitespace (or empty) has no words after lower-casing and splitting |
| `Tokenizer.SplitThenLower` | console_interface.py:90 | lower-casing each word after splitting gives the same words as `split_words` (lower-case, then split) |
| `SearchEngine.RemoveStopWords` | search_engine.py:5-6 | a word is in the result iff it is in the input and not a stop word; the result is no longer than the input |
| `SearchEngine.RemoveStopWordsIsSubsequence` | search_engine.py:6 | the result is an order-preserving subsequence of the input |
| `SearchEngine.RemoveStopWordsCounts` | search_engine.py:6 | each non-stop word keeps all its occurrences; each stop word has none left |
| `SearchEngine.RemoveNoStopWords` | search_engine.py:6 | with an empty stop set the input comes back unchanged |
| `SearchEngine.ParseQuery` | search_engine.py:9-12 | the query terms are exactly the words of the query that are not stop words, so the result is disjoint from the stop set; every term is a non-empty, whitespace-free, lower-case word |
| `SearchEngine.ParseQueryEmpty` | search_engine.py:9-12 | a query whose words are all stop words (a blank query included, by `SplitWordsBlank`) has no terms |
| `SearchEngine.MatchDocument` | search_engine.py:15-16 | the score is at most the number of query terms and at most the number of distinct document words; it is 0 iff no document word is a query term |
| `SearchEngine.MatchDocumentCountsDistinctHits` | search_engine.py:16 | the score equals the number of distinct query terms met scanning the document, each counted at its first occurrence |
| `SearchEngine.MatchDocumentIgnoresRepeats` | search_engine.py:16 | repeating a word already in the document does not change the score |
| `SearchEngine.Relevance` | search_engine.py:23-24 | a document's score is at most the number of query terms |
| `SearchEngine.RelevanceZero` | search_engine.py:23-25 | a document scores 0, and so is dropped, iff none of its words is a query term |
| `SearchEngine.Scored` | search_engine.py:21-26 | the list built by the loop is no longer than the corpus and holds only positive relevances |
| `SearchEngine.ScoredIsSubsequence` | search_engine.py:22-26 | the loop's list is a subsequence, in corpus order, of the `(id, score)` pairs of all documents |
| `SearchEngine.ScoredCount` | search_engine.py:22-26 | the loop's list has exactly one entry per document with a positive score |
| `SearchEngine.ScoredIsPositiveScores` | search_engine.py:21-26 | the loop's list is a subsequence of the `(id, score)` pairs of all documents, every entry of it is positive, and its length is the number of positive documents; so it is exactly the positive pairs, once each, in corpus order |
| `SearchEngine.ScoredMembers` | search_engine.py:22-26 | an entry is in the list iff its relevance is positive and is the score of a document with that identifier |
| `SearchEngine.ScoredNoQueryWords` | search_engine.py:20-26 | with no query terms the loop keeps nothing |
| `SearchEngine.SortByRelevance` | search_engine.py:27 | the sort yields non-increasing relevance, is a permutation of its input, and for every relevance value keeps the entries with that value in their input order (stability) |
| `SearchEngine.StableSortIsUnique` | search_engine.py:27 | two sequences that are both sorted by non-increasing relevance and agree on the order of each relevance class are equal |
| `SearchEngine.Rank` | search_engine.py:19-28 | the ranking is sorted by non-increasing relevance, holds only positive relevances, is a permutation of the loop's list, and keeps corpus order among ties |
| `SearchEngine.RankMembers` | search_engine.py:19-28 | an entry is ranked iff its relevance is positive and is the score of a document with that identifier |
| `SearchEngine.RankEmptyCorpus` | search_engine.py:19-28 | an empty corpus gives an empty ranking |
| `SearchEngine.RankWithoutQueryTerms` | search_engine.py:19-28 | a query made only of stop words (a blank query included) gives an empty ranking |
| `SearchEngine.FindDocuments` | search_engine.py:19-28 | the loop and sort compute the ranking: sorted by non-increasing relevance, every relevance positive, ties in corpus order |
| `RankingExamples.GreatAdventureRanking` | search_engine.py:19-28 | query "great adventure" over three films ranks film 1 then film 2 (score 1 each, corpus order) and drops film 3 |
| `RankingExamples.TiedPairRanking` | search_engine.py:19-28 | query "b c" over "a b c" and "b c d" ranks both with score 2, in corpus order |
| `KeywordSearch.Contains` | console_interface.py:93 | the substring test holds iff the keyword occurs at some position of the text |
| `KeywordSearch.Keywords` | console_interface.py:90 | the keywords are the words `split_words` gives for the translated query: non-empty, whitespace-free, lower-case |
| `KeywordSearch.SearchText` | console_interface.py:93 | the matched text is lower-case, as long as title, one space and description together, with the title's characters lowered first, then the space, then the description's |
| `KeywordSearch.MatchesAll` | console_interface.py:93-94 | with no keywords every row matches (`all` of nothing is true); every keyword of a matching row fits inside its text |
| `KeywordSearch.Project` | console_interface.py:92 | the reported pair is the row's id and title; the description is not reported |
| `KeywordSearch.ProjectAll` | console_interface.py:92 | every row projected to `(film_id, title)`, one per row, in fetch order |
| `KeywordSearch.FilterRows` | console_interface.py:91-95 | a `(film_id, title)` pair is reported iff it is the projection of a fetched row whose text contains every keyword |
| `KeywordSearch.FilterRowsAppend` | console_interface.py:91-95 | filtering a concatenation of row lists filters each part and concatenates the results |
| `KeywordSearch.FilterRowsSnoc` | console_interface.py:91-95 | one more fetched row adds its own `(film_id, title)` exactly when it matches, even if an earlier row has the same pair |
| `KeywordSearch.FilterRowsInFetchOrder` | console_interface.py:91-92 | the reported pairs are a subsequence, in fetch order, of the projected rows |
| `KeywordSearch.SearchByKeyword` | console_interface.py:76-99 | an empty translation or no fetched rows gives no results; otherwise a pair is reported iff some fetched row projects to it and every query word is a substring of that row's lower-cased `title + " " + description`; the results are in fetch order and no more than the rows; for a non-empty translation the result is the row-by-row filter of the fetched rows, so a pair appears once per matching row |
| `KeywordSearch.DuplicateRowsBothReported` | console_interface.py:91-95 | two fetched rows with the same `(film_id, title)` are both reported |
| `KeywordSearch.SearchByKeywordBlankQuery` | console_interface.py:90-95 | a non-empty whitespace-only query has no keywords, so every row is reported, in fetch order |
| `KeywordSearch.WholeWordsAreKept` | console_interface.py:90-95 | a row whose words include every query word is always kept |
| `KeywordSearch.SubstringNotToken` | console_interface.py:93 | "cat" keeps the film "Scatter" though "cat" is not one of its words |

## Left out

- Unicode lower-casing: `Lower` changes only `A`-`Z`. Python's `str.lower()` also folds non-ASCII letters, and for a few of them the length changes.
- Whitespace is the fixed set of characters Python's `str.isspace` accepts: `str.split()` with no arguments separates on this whole set, not only on space, tab and newline.
- `list.sort` is Timsort, a library routine, not a loop of the source. It is modelled as the stable insertion-sort function `SortByRelevance`. `StableSortIsUnique` shows that every stable descending sort gives the same list. Sorting in place is modelled by reassigning the local sequence.
- Stop words are a `set<string>`. Python accepts any container that supports `in`.
- Document identifiers are a type parameter; film identifiers are `int`.
- `translate_query` calls the `multilingual_search` module, which is not part of this model. Its output is an input here. A `None` result (falsy, like `""`) is covered by the empty-string case.
- Connections, SQL, commits, printed messages and the `mysql.connector.Error` paths that return `[]` are not modelled. This covers `get_read_connection`, `get_edit_connection`, `create_queries_table`, `save_query`, `search_movies_by_genre_and_year`, `get_popular_movies`, `get_statistics`, `main` and all of `popular_movies.py`. They do I/O only.
- A `NULL` description (Python `None`) would make `title + " " + description` raise `TypeError`. Rows here always carry strings.
- `KeywordSearch.MatchesAll`: its own contract states only the empty-keyword case and a length bound. That a row matches iff every keyword occurs at some position of its text is its definition combined with the contract of `KeywordSearch.Contains`, and is not repeated as a postcondition.
- `SearchEngine.Relevance`: its own contract states only the upper bound. The zero case is stated by `SearchEngine.RelevanceZero`.
