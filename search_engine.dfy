/** The in-memory keyword relevance ranker of search_engine.py: stop-word
    removal, query parsing into a set of terms, overlap scoring and
    `find_documents`, which keeps the documents with a positive score and
    orders them by descending score, ties in corpus order. */
module SearchEngine {
  import opened Tokenizer
  import opened Sequences

  /** A corpus entry: the `(document_id, document_content)` pair. */
  datatype Document<Id> = Document(id: Id, content: string)

  /** A result entry: the `(document_id, relevance)` pair. */
  datatype Ranked<Id> = Ranked(id: Id, relevance: nat)

  /** The distinct elements of a sequence: Python's `set(words)`. */
  function ToSet(words: seq<string>): set<string> {
    set w | w in words
  }

  // ---------------------------------------------------------------------
  // remove_stop_words (search_engine.py:5-6)

  /** `[word for word in words if word not in stop_words]`. */
  function RemoveStopWords(words: seq<string>, stopWords: set<string>): (r: seq<string>)
    ensures |r| <= |words|
    ensures forall w :: w in r <==> w in words && w !in stopWords
  {
    if words == [] then []
    else (if words[0] in stopWords then [] else [words[0]]) + RemoveStopWords(words[1..], stopWords)
  }

  /** The filtered list keeps the surviving words in their input order. */
  lemma {:induction false} RemoveStopWordsIsSubsequence(words: seq<string>, stopWords: set<string>)
    ensures IsSubsequence(RemoveStopWords(words, stopWords), words)
  {
    if words != [] {
      RemoveStopWordsIsSubsequence(words[1..], stopWords);
      var rest := RemoveStopWords(words[1..], stopWords);
      if words[0] in stopWords {
        assert RemoveStopWords(words, stopWords) == rest;
      } else {
        assert RemoveStopWords(words, stopWords) == [words[0]] + rest;
        assert ([words[0]] + rest)[1..] == rest;
      }
    }
  }

  /** Every occurrence of a word that is not a stop word survives, and no
      occurrence of a stop word does. */
  lemma {:induction false} RemoveStopWordsCounts(words: seq<string>, stopWords: set<string>, w: string)
    ensures multiset(RemoveStopWords(words, stopWords))[w]
         == if w in stopWords then 0 else multiset(words)[w]
  {
    if words != [] {
      RemoveStopWordsCounts(words[1..], stopWords, w);
      assert words == [words[0]] + words[1..];
      assert multiset(words) == multiset([words[0]]) + multiset(words[1..]);
    }
  }

  /** With no stop words the input comes back unchanged. */
  lemma {:induction false} RemoveNoStopWords(words: seq<string>)
    ensures RemoveStopWords(words, {}) == words
  {
    if words != [] {
      RemoveNoStopWords(words[1..]);
      assert words == [words[0]] + words[1..];
    }
  }

  // ---------------------------------------------------------------------
  // parse_query (search_engine.py:9-12)

  /** `set(remove_stop_words(split_words(query), stop_words))`. */
  function ParseQuery(query: string, stopWords: set<string>): (r: set<string>)
    ensures forall w :: w in r <==> w in SplitWords(query) && w !in stopWords
    ensures r * stopWords == {}
    ensures forall w :: w in r ==> IsToken(w) && IsLowerCase(w)
  {
    ToSet(RemoveStopWords(SplitWords(query), stopWords))
  }

  /** A query whose words are all stop words has no terms; a blank query
      has no words at all (`SplitWordsBlank`), so it is one of these. */
  lemma ParseQueryEmpty(query: string, stopWords: set<string>)
    requires forall w :: w in SplitWords(query) ==> w in stopWords
    ensures ParseQuery(query, stopWords) == {}
  {
  }

  // ---------------------------------------------------------------------
  // match_document (search_engine.py:15-16)

  /** `len(set(document_words) & query_words)`. */
  function MatchDocument(documentWords: seq<string>, queryWords: set<string>): (r: nat)
    ensures r <= |queryWords| && r <= |ToSet(documentWords)|
    ensures r == 0 <==> forall w :: w in documentWords ==> w !in queryWords
  {
    var common := ToSet(documentWords) * queryWords;
    NoCommonWords(documentWords, queryWords);
    SubsetCardinality(common, queryWords);
    SubsetCardinality(common, ToSet(documentWords));
    |common|
  }

  lemma NoCommonWords(documentWords: seq<string>, queryWords: set<string>)
    ensures ToSet(documentWords) * queryWords == {} <==> forall w :: w in documentWords ==> w !in queryWords
  {
    if ToSet(documentWords) * queryWords != {} {
      var w :| w in ToSet(documentWords) * queryWords;
    } else {
      forall w | w in documentWords ensures w !in queryWords {
        assert w in ToSet(documentWords);
        assert w !in ToSet(documentWords) * queryWords;
      }
    }
  }

  lemma {:induction false} SubsetCardinality(a: set<string>, b: set<string>)
    requires a <= b
    ensures |a| <= |b|
    decreases |b|
  {
    if a != {} {
      var x :| x in a;
      SubsetCardinality(a - {x}, b - {x});
    }
  }

  /** The number of distinct query terms met walking the document from left
      to right, each counted the first time it appears: an independent
      account of "how many query terms the document covers". */
  function DistinctHits(documentWords: seq<string>, queryWords: set<string>): nat {
    if documentWords == [] then 0
    else
      var prefix := documentWords[..|documentWords| - 1];
      var last := documentWords[|documentWords| - 1];
      DistinctHits(prefix, queryWords) + (if last in queryWords && last !in prefix then 1 else 0)
  }

  /** The score counts each query term the document contains exactly once. */
  lemma {:induction false} MatchDocumentCountsDistinctHits(documentWords: seq<string>, queryWords: set<string>)
    ensures MatchDocument(documentWords, queryWords) == DistinctHits(documentWords, queryWords)
  {
    if documentWords != [] {
      var prefix := documentWords[..|documentWords| - 1];
      var last := documentWords[|documentWords| - 1];
      MatchDocumentCountsDistinctHits(prefix, queryWords);
      assert documentWords == prefix + [last];
      var before := ToSet(prefix) * queryWords;
      var after := ToSet(documentWords) * queryWords;
      if last in queryWords && last !in prefix {
        assert after == before + {last};
        assert last !in before;
      } else {
        assert after == before;
      }
    }
  }

  /** Repeating a word already in the document does not change its score. */
  lemma MatchDocumentIgnoresRepeats(documentWords: seq<string>, w: string, queryWords: set<string>)
    requires w in documentWords
    ensures MatchDocument(documentWords + [w], queryWords) == MatchDocument(documentWords, queryWords)
  {
    assert ToSet(documentWords + [w]) == ToSet(documentWords);
  }

  // ---------------------------------------------------------------------
  // find_documents (search_engine.py:19-28)

  /** The score of one document (lines 23-24): at most the number of query
      terms. */
  function Relevance<Id>(d: Document<Id>, queryWords: set<string>): (r: nat)
    ensures r <= |queryWords|
  {
    MatchDocument(SplitWords(d.content), queryWords)
  }

  /** A document scores zero exactly when none of its words is a query term. */
  lemma RelevanceZero<Id>(d: Document<Id>, queryWords: set<string>)
    ensures Relevance(d, queryWords) == 0 <==> forall w :: w in SplitWords(d.content) ==> w !in queryWords
  {
  }

  /** The list the loop of lines 22-26 builds: one entry per document with a
      positive score, in corpus order. */
  function Scored<Id>(documents: seq<Document<Id>>, queryWords: set<string>): (r: seq<Ranked<Id>>)
    ensures |r| <= |documents|
    ensures forall i :: 0 <= i < |r| ==> r[i].relevance > 0
  {
    if documents == [] then []
    else
      var last := documents[|documents| - 1];
      var rel := Relevance(last, queryWords);
      Scored(documents[..|documents| - 1], queryWords) + (if rel > 0 then [Ranked(last.id, rel)] else [])
  }

  /** `e` reports a positive score that some document with its identifier has. */
  ghost predicate ScoresIn<Id>(documents: seq<Document<Id>>, queryWords: set<string>, e: Ranked<Id>) {
    e.relevance > 0
    && exists i :: 0 <= i < |documents| && documents[i].id == e.id && Relevance(documents[i], queryWords) == e.relevance
  }

  /** An entry is in the list iff some document with that identifier has
      that score and the score is positive. */
  lemma {:induction false} ScoredMembers<Id>(documents: seq<Document<Id>>, queryWords: set<string>, e: Ranked<Id>)
    ensures e in Scored(documents, queryWords) <==> ScoresIn(documents, queryWords, e)
  {
    if documents != [] {
      var n := |documents| - 1;
      var prefix := documents[..n];
      ScoredMembers(prefix, queryWords, e);
      assert forall i :: 0 <= i < n ==> prefix[i] == documents[i];
    }
  }

  /** The entry each document would get, positive or not, in corpus order. */
  function AllScores<Id>(documents: seq<Document<Id>>, queryWords: set<string>): (r: seq<Ranked<Id>>)
    ensures |r| == |documents|
    ensures forall i :: 0 <= i < |documents| ==> r[i] == Ranked(documents[i].id, Relevance(documents[i], queryWords))
  {
    seq(|documents|, i requires 0 <= i < |documents| => Ranked(documents[i].id, Relevance(documents[i], queryWords)))
  }

  /** The positions of the documents with a positive score. */
  function PositiveIndices<Id>(documents: seq<Document<Id>>, queryWords: set<string>): set<int> {
    set i | 0 <= i < |documents| && Relevance(documents[i], queryWords) > 0
  }

  lemma AllScoresSnoc<Id>(documents: seq<Document<Id>>, queryWords: set<string>)
    requires documents != []
    ensures var n := |documents| - 1;
      AllScores(documents, queryWords)
      == AllScores(documents[..n], queryWords) + [Ranked(documents[n].id, Relevance(documents[n], queryWords))]
  {
    var n := |documents| - 1;
    assert forall i :: 0 <= i < n ==> documents[..n][i] == documents[i];
  }

  /** The loop keeps positive entries of `AllScores` only, in corpus order. */
  lemma {:induction false} ScoredIsSubsequence<Id>(documents: seq<Document<Id>>, queryWords: set<string>)
    ensures IsSubsequence(Scored(documents, queryWords), AllScores(documents, queryWords))
  {
    if documents != [] {
      var n := |documents| - 1;
      var x := Ranked(documents[n].id, Relevance(documents[n], queryWords));
      var sp, ap := Scored(documents[..n], queryWords), AllScores(documents[..n], queryWords);
      ScoredIsSubsequence(documents[..n], queryWords);
      AllScoresSnoc(documents, queryWords);
      SubsequenceSnoc(sp, ap, x);
      if x.relevance > 0 {
        assert Scored(documents, queryWords) == sp + [x];
      } else {
        assert Scored(documents, queryWords) == sp;
      }
    }
  }

  /** The loop keeps one entry per document with a positive score. */
  lemma {:induction false} ScoredCount<Id>(documents: seq<Document<Id>>, queryWords: set<string>)
    ensures |Scored(documents, queryWords)| == |PositiveIndices(documents, queryWords)|
  {
    if documents != [] {
      var n := |documents| - 1;
      var prefix := documents[..n];
      var rel := Relevance(documents[n], queryWords);
      ScoredCount(prefix, queryWords);
      assert |Scored(documents, queryWords)| == |Scored(prefix, queryWords)| + (if rel > 0 then 1 else 0);
      var before := PositiveIndices(prefix, queryWords);
      var after := PositiveIndices(documents, queryWords);
      forall i ensures i in after <==> i in before || (i == n && rel > 0) {
        if 0 <= i < n {
          assert prefix[i] == documents[i];
        }
      }
      CardinalitySnoc(before, after, n, rel > 0);
    }
  }

  lemma CardinalitySnoc(before: set<int>, after: set<int>, n: int, add: bool)
    requires forall i :: i in before ==> i < n
    requires forall i :: i in after <==> i in before || (i == n && add)
    ensures |after| == |before| + (if add then 1 else 0)
  {
    var added := if add then {n} else {};
    forall i ensures i in after <==> i in before + added {
    }
    assert after == before + added;
    assert before * added == {};
  }

  /** Together: the loop's list is exactly the positive entries of
      `AllScores`, in corpus order. It is a subsequence of `AllScores` made
      of positive entries only, and its length is the number of positive
      entries, so no positive entry is missing and none appears twice. */
  lemma ScoredIsPositiveScores<Id>(documents: seq<Document<Id>>, queryWords: set<string>)
    ensures IsSubsequence(Scored(documents, queryWords), AllScores(documents, queryWords))
    ensures forall i :: 0 <= i < |Scored(documents, queryWords)| ==> Scored(documents, queryWords)[i].relevance > 0
    ensures |Scored(documents, queryWords)| == |PositiveIndices(documents, queryWords)|
  {
    ScoredIsSubsequence(documents, queryWords);
    ScoredCount(documents, queryWords);
  }

  /** Without query terms no document scores, so nothing is kept. */
  lemma {:induction false} ScoredNoQueryWords<Id>(documents: seq<Document<Id>>)
    ensures Scored(documents, {}) == []
  {
    if documents != [] {
      ScoredNoQueryWords(documents[..|documents| - 1]);
    }
  }

  // --- the stable sort of line 27: `results.sort(key=lambda x: x[1], reverse=True)`

  /** Non-increasing relevance from left to right. */
  predicate SortedByRelevance<Id>(s: seq<Ranked<Id>>) {
    forall i, j :: 0 <= i < j < |s| ==> s[i].relevance >= s[j].relevance
  }

  /** The entries with relevance `k`, in their order in `s`. */
  function WithRelevance<Id>(s: seq<Ranked<Id>>, k: nat): (r: seq<Ranked<Id>>)
    ensures |r| <= |s|
  {
    if s == [] then []
    else (if s[0].relevance == k then [s[0]] else []) + WithRelevance(s[1..], k)
  }

  /** Puts `x` in front of the first entry whose relevance is not larger. */
  function InsertByRelevance<Id>(x: Ranked<Id>, s: seq<Ranked<Id>>): seq<Ranked<Id>> {
    if s == [] then [x]
    else if s[0].relevance > x.relevance then [s[0]] + InsertByRelevance(x, s[1..])
    else [x] + s
  }

  /** A stable sort by descending relevance (Python's `list.sort` with
      `reverse=True` is stable: equal keys keep their order). The result is
      a permutation of `s` with non-increasing relevance in which the
      entries of each relevance keep their relative order. */
  function SortByRelevance<Id>(s: seq<Ranked<Id>>): (r: seq<Ranked<Id>>)
    ensures SortedByRelevance(r)
    ensures multiset(r) == multiset(s)
    ensures forall k :: WithRelevance(r, k) == WithRelevance(s, k)
  {
    if s == [] then []
    else
      var rest := SortByRelevance(s[1..]);
      InsertStep(s, rest);
      InsertByRelevance(s[0], rest)
  }

  /** Inserting the head of `s` into a stable sort of its tail gives a stable
      sort of `s`. */
  lemma InsertStep<Id>(s: seq<Ranked<Id>>, rest: seq<Ranked<Id>>)
    requires s != []
    requires SortedByRelevance(rest)
    requires multiset(rest) == multiset(s[1..])
    requires forall k :: WithRelevance(rest, k) == WithRelevance(s[1..], k)
    ensures SortedByRelevance(InsertByRelevance(s[0], rest))
    ensures multiset(InsertByRelevance(s[0], rest)) == multiset(s)
    ensures forall k :: WithRelevance(InsertByRelevance(s[0], rest), k) == WithRelevance(s, k)
  {
    InsertSorted(s[0], rest);
    InsertMultiset(s[0], rest);
    InsertWithRelevance(s[0], rest);
    assert s == [s[0]] + s[1..];
  }

  lemma {:induction false} InsertMultiset<Id>(x: Ranked<Id>, s: seq<Ranked<Id>>)
    ensures multiset(InsertByRelevance(x, s)) == multiset(s) + multiset{x}
  {
    if s != [] && s[0].relevance > x.relevance {
      InsertMultiset(x, s[1..]);
      assert s == [s[0]] + s[1..];
    } else if s != [] {
      assert s == [s[0]] + s[1..];
    }
  }

  lemma {:induction false} InsertBounded<Id>(x: Ranked<Id>, s: seq<Ranked<Id>>, bound: nat)
    requires x.relevance <= bound
    requires forall j :: 0 <= j < |s| ==> s[j].relevance <= bound
    ensures forall j :: 0 <= j < |InsertByRelevance(x, s)| ==> InsertByRelevance(x, s)[j].relevance <= bound
  {
    if s != [] && s[0].relevance > x.relevance {
      InsertBounded(x, s[1..], bound);
      assert InsertByRelevance(x, s) == [s[0]] + InsertByRelevance(x, s[1..]);
    }
  }

  lemma {:induction false} InsertSorted<Id>(x: Ranked<Id>, s: seq<Ranked<Id>>)
    requires SortedByRelevance(s)
    ensures SortedByRelevance(InsertByRelevance(x, s))
  {
    if s != [] && s[0].relevance > x.relevance {
      var t := InsertByRelevance(x, s[1..]);
      InsertSorted(x, s[1..]);
      InsertBounded(x, s[1..], s[0].relevance);
      assert InsertByRelevance(x, s) == [s[0]] + t;
      forall i, j | 0 <= i < j < |t| + 1
        ensures ([s[0]] + t)[i].relevance >= ([s[0]] + t)[j].relevance
      {
        assert ([s[0]] + t)[j] == t[j - 1];
        assert t[j - 1].relevance <= s[0].relevance;
        if i > 0 {
          assert ([s[0]] + t)[i] == t[i - 1];
          assert t[i - 1].relevance >= t[j - 1].relevance;
        } else {
          assert ([s[0]] + t)[i] == s[0];
        }
      }
    }
  }

  lemma {:induction false} InsertWithRelevance<Id>(x: Ranked<Id>, s: seq<Ranked<Id>>)
    ensures forall k :: WithRelevance(InsertByRelevance(x, s), k)
                     == (if x.relevance == k then [x] else []) + WithRelevance(s, k)
  {
    if s != [] && s[0].relevance > x.relevance {
      InsertWithRelevance(x, s[1..]);
      assert ([s[0]] + InsertByRelevance(x, s[1..]))[1..] == InsertByRelevance(x, s[1..]);
    } else if s != [] {
      assert ([x] + s)[1..] == s;
    }
  }

  lemma {:induction false} WithRelevanceNonEmpty<Id>(s: seq<Ranked<Id>>, i: nat)
    requires i < |s|
    ensures WithRelevance(s, s[i].relevance) != []
  {
    if i > 0 {
      WithRelevanceNonEmpty(s[1..], i - 1);
    }
  }

  lemma {:induction false} WithRelevanceMembers<Id>(s: seq<Ranked<Id>>, k: nat)
    ensures forall e :: e in WithRelevance(s, k) ==> e in s && e.relevance == k
  {
    if s != [] {
      WithRelevanceMembers(s[1..], k);
    }
  }

  /** In a sorted sequence no relevance present exceeds that of the head. */
  lemma HeadIsMaximal<Id>(s: seq<Ranked<Id>>, k: nat)
    requires SortedByRelevance(s) && s != []
    requires WithRelevance(s, k) != []
    ensures k <= s[0].relevance
  {
    WithRelevanceMembers(s, k);
    var e := WithRelevance(s, k)[0];
    assert e in WithRelevance(s, k);
    var i :| 0 <= i < |s| && s[i] == e;
    if i > 0 {
      assert s[0].relevance >= s[i].relevance;
    }
  }

  /** Sortedness and stability pin the order down completely: any two
      orderings of the same entries that both satisfy them are equal. So
      `SortByRelevance` is the order Python's stable sort produces, whatever
      algorithm the sort uses. */
  lemma {:induction false} StableSortIsUnique<Id>(a: seq<Ranked<Id>>, b: seq<Ranked<Id>>)
    requires SortedByRelevance(a) && SortedByRelevance(b)
    requires forall k :: WithRelevance(a, k) == WithRelevance(b, k)
    ensures a == b
    decreases |a|
  {
    if a == [] || b == [] {
      // a non-empty side has entries of its head's relevance; the other has none
      var k := if a != [] then a[0].relevance else if b != [] then b[0].relevance else 0;
      assert WithRelevance(a, k) == WithRelevance(b, k);
    } else {
      var k0 := a[0].relevance;
      WithRelevanceNonEmpty(a, 0);
      WithRelevanceNonEmpty(b, 0);
      HeadIsMaximal(b, k0);
      HeadIsMaximal(a, b[0].relevance);
      assert b[0].relevance == k0;
      assert a[0] == WithRelevance(a, k0)[0];
      assert b[0] == WithRelevance(b, k0)[0];
      forall k ensures WithRelevance(a[1..], k) == WithRelevance(b[1..], k) {
        assert WithRelevance(a, k) == WithRelevance(b, k);
        assert WithRelevance(a, k) == (if k == k0 then [a[0]] else []) + WithRelevance(a[1..], k);
        assert WithRelevance(b, k) == (if k == k0 then [b[0]] else []) + WithRelevance(b[1..], k);
        if k == k0 {
          assert WithRelevance(a[1..], k) == WithRelevance(a, k)[1..];
          assert WithRelevance(b[1..], k) == WithRelevance(b, k)[1..];
        } else {
          assert WithRelevance(a[1..], k) == WithRelevance(a, k);
          assert WithRelevance(b[1..], k) == WithRelevance(b, k);
        }
      }
      StableSortIsUnique(a[1..], b[1..]);
      assert a == [a[0]] + a[1..] && b == [b[0]] + b[1..];
    }
  }

  /** `find_documents(documents, query, stop_words)` as a value: only
      positive scores, non-increasing, a permutation of the scored list, and
      ties in corpus order. */
  function Rank<Id>(documents: seq<Document<Id>>, query: string, stopWords: set<string>): (r: seq<Ranked<Id>>)
    ensures SortedByRelevance(r)
    ensures forall i :: 0 <= i < |r| ==> r[i].relevance > 0
    ensures multiset(r) == multiset(Scored(documents, ParseQuery(query, stopWords)))
    ensures forall k :: WithRelevance(r, k) == WithRelevance(Scored(documents, ParseQuery(query, stopWords)), k)
  {
    var scored := Scored(documents, ParseQuery(query, stopWords));
    var r := SortByRelevance(scored);
    assert forall i :: 0 <= i < |r| ==> r[i] in multiset(scored);
    r
  }

  /** Each reported entry is the positive score of a document with that
      identifier, and every document that scores is reported. */
  lemma RankMembers<Id>(documents: seq<Document<Id>>, query: string, stopWords: set<string>)
    ensures forall e :: e in Rank(documents, query, stopWords) <==> ScoresIn(documents, ParseQuery(query, stopWords), e)
  {
    var queryWords := ParseQuery(query, stopWords);
    var scored := Scored(documents, queryWords);
    var r := Rank(documents, query, stopWords);
    forall e ensures e in r <==> ScoresIn(documents, queryWords, e) {
      assert e in r <==> e in multiset(r);
      ScoredMembers(documents, queryWords, e);
    }
  }

  /** An empty corpus gives no results. */
  lemma RankEmptyCorpus<Id>(query: string, stopWords: set<string>)
    ensures Rank<Id>([], query, stopWords) == []
  {
  }

  /** A query made only of stop words, a blank one included, gives no results. */
  lemma RankWithoutQueryTerms<Id>(documents: seq<Document<Id>>, query: string, stopWords: set<string>)
    requires forall w :: w in SplitWords(query) ==> w in stopWords
    ensures Rank(documents, query, stopWords) == []
  {
    ParseQueryEmpty(query, stopWords);
    ScoredNoQueryWords(documents);
  }

  /** `find_documents`: the loop of lines 22-26 appends one entry per
      document with a positive score; line 27 sorts the list stably by
      descending relevance. */
  method FindDocuments<Id>(documents: seq<Document<Id>>, query: string, stopWords: set<string>)
    returns (results: seq<Ranked<Id>>)
    ensures results == Rank(documents, query, stopWords)
    ensures SortedByRelevance(results)
    ensures forall i :: 0 <= i < |results| ==> results[i].relevance > 0
    ensures forall k :: WithRelevance(results, k) == WithRelevance(Scored(documents, ParseQuery(query, stopWords)), k)
  {
    var queryWords := ParseQuery(query, stopWords);
    results := [];
    for i := 0 to |documents|
      invariant results == Scored(documents[..i], queryWords)
    {
      var documentWords := SplitWords(documents[i].content);
      var relevance := MatchDocument(documentWords, queryWords);
      assert documents[..i + 1][..i] == documents[..i];
      if relevance > 0 {
        results := results + [Ranked(documents[i].id, relevance)];
      }
    }
    assert documents[..|documents|] == documents;
    results := SortByRelevance(results);
  }
}
