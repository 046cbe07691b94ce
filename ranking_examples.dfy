/** Worked rankings of small corpora: scores tie and corpus order decides.
    Texts are written as words joined by single spaces, `Join([...])`. */
module RankingExamples {
  import opened Tokenizer
  import opened SearchEngine

  lemma {:induction false} LowerCaseConcat(a: string, b: string)
    requires IsLowerCase(a) && IsLowerCase(b)
    ensures IsLowerCase(a + b)
  {
    forall i | 0 <= i < |a + b| ensures Lower((a + b)[i]) == (a + b)[i] {
      if i < |a| {
        assert (a + b)[i] == a[i];
      } else {
        assert (a + b)[i] == b[i - |a|];
      }
    }
  }

  lemma {:induction false} JoinLowerCase(ws: seq<string>)
    requires forall w :: w in ws ==> IsLowerCase(w)
    ensures IsLowerCase(Join(ws))
  {
    if |ws| > 1 {
      assert ws[0] in ws;
      assert forall w :: w in ws[1..] ==> w in ws;
      JoinLowerCase(ws[1..]);
      LowerCaseConcat(ws[0], " ");
      LowerCaseConcat(ws[0] + " ", Join(ws[1..]));
    } else if |ws| == 1 {
      assert ws[0] in ws;
    }
  }

  /** Lower-case words joined by single spaces split back into those words. */
  lemma WordsOf(ws: seq<string>)
    requires forall w :: w in ws ==> IsToken(w) && IsLowerCase(w)
    ensures SplitWords(Join(ws)) == ws
  {
    JoinLowerCase(ws);
    assert LowerStr(Join(ws)) == Join(ws);
    SplitJoin(ws);
  }

  /** A document's score is the number of query terms among its words. */
  lemma RelevanceFromWords<Id>(d: Document<Id>, q: set<string>, ws: seq<string>)
    requires SplitWords(d.content) == ws
    ensures Relevance(d, q) == |ToSet(ws) * q|
  {
  }

  /** One more document extends the scored list by its entry, if it scores. */
  lemma ScoredSnoc<Id>(docs: seq<Document<Id>>, d: Document<Id>, q: set<string>, rel: nat)
    requires Relevance(d, q) == rel
    ensures Scored(docs + [d], q) == Scored(docs, q) + (if rel > 0 then [Ranked(d.id, rel)] else [])
  {
    assert (docs + [d])[..|docs|] == docs;
  }

  /** Two scoring documents give their two entries, in corpus order. */
  lemma ScoredPair<Id>(d1: Document<Id>, d2: Document<Id>, q: set<string>, rel1: nat, rel2: nat)
    requires Relevance(d1, q) == rel1 > 0 && Relevance(d2, q) == rel2 > 0
    ensures Scored([d1, d2], q) == [Ranked(d1.id, rel1), Ranked(d2.id, rel2)]
  {
    ScoredSnoc([], d1, q, rel1);
    ScoredSnoc([d1], d2, q, rel2);
    assert [] + [d1] == [d1] && [d1] + [d2] == [d1, d2];
  }

  /** `Rank` in two stages: query terms, then scoring. */
  lemma RankFrom<Id>(docs: seq<Document<Id>>, query: string, stopWords: set<string>,
                     q: set<string>, scored: seq<Ranked<Id>>)
    requires ParseQuery(query, stopWords) == q
    requires Scored(docs, q) == scored
    ensures Rank(docs, query, stopWords) == SortByRelevance(scored)
  {
  }

  /** Two entries of equal relevance stay as they are. */
  lemma SortKeepsTies(id1: int, id2: int, k: nat)
    ensures SortByRelevance([Ranked(id1, k), Ranked(id2, k)]) == [Ranked(id1, k), Ranked(id2, k)]
  {
    assert [Ranked(id1, k), Ranked(id2, k)][1..] == [Ranked(id2, k)];
    assert [Ranked(id2, k)][1..] == [];
    assert SortByRelevance([Ranked(id2, k)]) == [Ranked(id2, k)];
  }

  // --- query "great adventure" over three films

  lemma GreatAdventureOverlaps()
    ensures |ToSet(["the", "great", "escape"]) * {"great", "adventure"}| == 1
    ensures |ToSet(["great", "gatsby", "novel"]) * {"great", "adventure"}| == 1
    ensures |ToSet(["space", "odyssey"]) * {"great", "adventure"}| == 0
  {
    assert ToSet(["the", "great", "escape"]) * {"great", "adventure"} == {"great"};
    assert ToSet(["great", "gatsby", "novel"]) * {"great", "adventure"} == {"great"};
    assert ToSet(["space", "odyssey"]) * {"great", "adventure"} == {};
  }

  lemma RelevancesGreatAdventure()
    ensures Relevance(Document(1, Join(["the", "great", "escape"])), {"great", "adventure"}) == 1
    ensures Relevance(Document(2, Join(["great", "gatsby", "novel"])), {"great", "adventure"}) == 1
    ensures Relevance(Document(3, Join(["space", "odyssey"])), {"great", "adventure"}) == 0
  {
    var q: set<string> := {"great", "adventure"};
    WordsOf(["the", "great", "escape"]);
    WordsOf(["great", "gatsby", "novel"]);
    WordsOf(["space", "odyssey"]);
    GreatAdventureOverlaps();
    RelevanceFromWords(Document(1, Join(["the", "great", "escape"])), q, ["the", "great", "escape"]);
    RelevanceFromWords(Document(2, Join(["great", "gatsby", "novel"])), q, ["great", "gatsby", "novel"]);
    RelevanceFromWords(Document(3, Join(["space", "odyssey"])), q, ["space", "odyssey"]);
  }

  lemma ScoredGreatAdventure()
    ensures Scored([Document(1, Join(["the", "great", "escape"])), Document(2, Join(["great", "gatsby", "novel"])),
                    Document(3, Join(["space", "odyssey"]))], {"great", "adventure"})
         == [Ranked(1, 1), Ranked(2, 1)]
  {
    var q: set<string> := {"great", "adventure"};
    var d1, d2, d3 := Document(1, Join(["the", "great", "escape"])), Document(2, Join(["great", "gatsby", "novel"])),
                      Document(3, Join(["space", "odyssey"]));
    RelevancesGreatAdventure();
    ScoredPair(d1, d2, q, 1, 1);
    ScoredSnoc([d1, d2], d3, q, 0);
    assert [d1, d2] + [d3] == [d1, d2, d3];
  }

  /** Query "great adventure" over three films: the two that mention "great"
      score 1 each and keep their corpus order; the third scores 0 and is
      dropped. */
  lemma GreatAdventureRanking()
    ensures Rank([Document(1, Join(["the", "great", "escape"])), Document(2, Join(["great", "gatsby", "novel"])),
                  Document(3, Join(["space", "odyssey"]))], Join(["great", "adventure"]), {})
         == [Ranked(1, 1), Ranked(2, 1)]
  {
    WordsOf(["great", "adventure"]);
    assert ParseQuery(Join(["great", "adventure"]), {}) == {"great", "adventure"};
    ScoredGreatAdventure();
    RankFrom([Document(1, Join(["the", "great", "escape"])), Document(2, Join(["great", "gatsby", "novel"])),
              Document(3, Join(["space", "odyssey"]))],
             Join(["great", "adventure"]), {}, {"great", "adventure"}, [Ranked(1, 1), Ranked(2, 1)]);
    SortKeepsTies(1, 2, 1);
  }

  // --- query "b c" over two documents that both contain both terms

  lemma OverlapsBC()
    ensures |ToSet(["a", "b", "c"]) * {"b", "c"}| == 2
    ensures |ToSet(["b", "c", "d"]) * {"b", "c"}| == 2
  {
    assert ToSet(["a", "b", "c"]) * {"b", "c"} == {"b", "c"};
    assert ToSet(["b", "c", "d"]) * {"b", "c"} == {"b", "c"};
  }

  lemma RelevancesBC()
    ensures Relevance(Document(1, Join(["a", "b", "c"])), {"b", "c"}) == 2
    ensures Relevance(Document(2, Join(["b", "c", "d"])), {"b", "c"}) == 2
  {
    var q: set<string> := {"b", "c"};
    WordsOf(["a", "b", "c"]);
    WordsOf(["b", "c", "d"]);
    OverlapsBC();
    RelevanceFromWords(Document(1, Join(["a", "b", "c"])), q, ["a", "b", "c"]);
    RelevanceFromWords(Document(2, Join(["b", "c", "d"])), q, ["b", "c", "d"]);
  }

  lemma ScoredBC()
    ensures Scored([Document(1, Join(["a", "b", "c"])), Document(2, Join(["b", "c", "d"]))], {"b", "c"})
         == [Ranked(1, 2), Ranked(2, 2)]
  {
    RelevancesBC();
    ScoredPair(Document(1, Join(["a", "b", "c"])), Document(2, Join(["b", "c", "d"])), {"b", "c"}, 2, 2);
  }

  /** Query "b c": both documents contain both terms, score 2, and stay in
      corpus order. */
  lemma TiedPairRanking()
    ensures Rank([Document(1, Join(["a", "b", "c"])), Document(2, Join(["b", "c", "d"]))], Join(["b", "c"]), {})
         == [Ranked(1, 2), Ranked(2, 2)]
  {
    WordsOf(["b", "c"]);
    assert ParseQuery(Join(["b", "c"]), {}) == {"b", "c"};
    ScoredBC();
    RankFrom([Document(1, Join(["a", "b", "c"])), Document(2, Join(["b", "c", "d"]))], Join(["b", "c"]), {},
             {"b", "c"}, [Ranked(1, 2), Ranked(2, 2)]);
    SortKeepsTies(1, 2, 2);
  }
}
