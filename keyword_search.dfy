/** The client-side keyword filter of `search_movies_by_keyword`
    (console_interface.py:76-99), taken once the query has been translated
    and the `(film_id, title, description)` rows have been fetched: a row is
    kept when every lower-cased word of the query occurs, as a substring, in
    the lower-cased `title + " " + description`; kept rows are reported as
    `(film_id, title)` in fetch order. */
module KeywordSearch {
  import opened Tokenizer
  import opened Sequences

  /** One fetched row of `SELECT film_id, title, description FROM film`. */
  datatype FilmRow = FilmRow(filmId: int, title: string, description: string)

  /** `kw` occurs in `text` starting at position `i`. */
  predicate OccursAt(text: string, kw: string, i: int) {
    0 <= i && i + |kw| <= |text| && text[i..i + |kw|] == kw
  }

  /** Python's `kw in text` on strings: holds exactly when `kw` occurs as a
      contiguous block at some position of `text`. */
  function Contains(text: string, kw: string): (r: bool)
    ensures r <==> exists i :: OccursAt(text, kw, i)
    decreases |text|
  {
    if kw <= text then
      assert OccursAt(text, kw, 0);
      true
    else if text == [] then false
    else
      OccursInTail(text, kw);
      Contains(text[1..], kw)
  }

  /** When `kw` is not a prefix of `text`, its occurrences are those in the tail. */
  lemma OccursInTail(text: string, kw: string)
    requires text != [] && !(kw <= text)
    ensures (exists i :: OccursAt(text, kw, i)) <==> exists j :: OccursAt(text[1..], kw, j)
  {
    if exists i :: OccursAt(text, kw, i) {
      var i :| OccursAt(text, kw, i);
      assert i != 0;
      assert text[1..][i - 1..i - 1 + |kw|] == kw;
      assert OccursAt(text[1..], kw, i - 1);
    }
    if exists j :: OccursAt(text[1..], kw, j) {
      var j :| OccursAt(text[1..], kw, j);
      assert text[j + 1..j + 1 + |kw|] == kw;
      assert OccursAt(text, kw, j + 1);
    }
  }

  /** An occurrence in a suffix is an occurrence in the whole text. */
  lemma {:induction false} ContainsInSuffix(p: string, t: string, kw: string)
    requires Contains(t, kw)
    ensures Contains(p + t, kw)
    decreases |p|
  {
    if p != [] {
      ContainsInSuffix(p[1..], t, kw);
      assert (p + t)[1..] == p[1..] + t;
    } else {
      assert p + t == t;
    }
  }

  /** `keywords = [word.lower() for word in translated_keyword.split()]` (line 90). */
  function Keywords(translated: string): (r: seq<string>)
    ensures r == SplitWords(translated)
    ensures forall kw :: kw in r ==> IsToken(kw) && IsLowerCase(kw)
  {
    SplitThenLower(translated);
    LowerAll(Split(translated))
  }

  /** The text a row is matched against: `(title + " " + description).lower()`,
      a lower-case string with the title's characters first, then the
      separating space, then the description's. */
  function SearchText(row: FilmRow): (r: string)
    ensures |r| == |row.title| + 1 + |row.description|
    ensures IsLowerCase(r)
    ensures r[|row.title|] == ' '
    ensures forall i :: 0 <= i < |row.title| ==> r[i] == Lower(row.title[i])
    ensures forall i :: 0 <= i < |row.description| ==> r[|row.title| + 1 + i] == Lower(row.description[i])
  {
    LowerStr(row.title + " " + row.description)
  }

  /** `all(kw in (title + " " + description).lower() for kw in keywords)` (lines 93-94). */
  predicate MatchesAll(row: FilmRow, keywords: seq<string>)
    ensures keywords == [] ==> MatchesAll(row, keywords)
    ensures MatchesAll(row, keywords) ==> forall kw :: kw in keywords ==> |kw| <= |row.title| + 1 + |row.description|
  {
    forall kw :: kw in keywords ==> Contains(SearchText(row), kw)
  }

  /** The projection `(film_id, title)` of line 92: the description is not reported. */
  function Project(row: FilmRow): (r: (int, string))
    ensures r.0 == row.filmId && r.1 == row.title
  {
    (row.filmId, row.title)
  }

  /** Every row projected, in fetch order. */
  function ProjectAll(rows: seq<FilmRow>): (r: seq<(int, string)>)
    ensures |r| == |rows|
    ensures forall i :: 0 <= i < |rows| ==> r[i] == Project(rows[i])
  {
    seq(|rows|, i requires 0 <= i < |rows| => Project(rows[i]))
  }

  /** The comprehension of lines 91-95. */
  function FilterRows(rows: seq<FilmRow>, keywords: seq<string>): (r: seq<(int, string)>)
    ensures |r| <= |rows|
    ensures forall h :: h in r <==> exists i :: 0 <= i < |rows| && MatchesAll(rows[i], keywords) && h == Project(rows[i])
  {
    if rows == [] then []
    else
      var rest := FilterRows(rows[1..], keywords);
      assert forall i :: 1 <= i < |rows| ==> rows[i] == rows[1..][i - 1];
      (if MatchesAll(rows[0], keywords) then [Project(rows[0])] else []) + rest
  }

  /** The filter works row by row: filtering a concatenation filters each part. */
  lemma {:induction false} FilterRowsAppend(a: seq<FilmRow>, b: seq<FilmRow>, keywords: seq<string>)
    ensures FilterRows(a + b, keywords) == FilterRows(a, keywords) + FilterRows(b, keywords)
  {
    if a == [] {
      assert a + b == b;
    } else {
      var head := if MatchesAll(a[0], keywords) then [Project(a[0])] else [];
      assert (a + b)[0] == a[0] && (a + b)[1..] == a[1..] + b;
      assert FilterRows(a + b, keywords) == head + FilterRows(a[1..] + b, keywords);
      FilterRowsAppend(a[1..], b, keywords);
    }
  }

  /** The filter decides row by row: one more fetched row adds its own pair
      when it matches, even if an earlier row has the same `(film_id, title)`. */
  lemma FilterRowsSnoc(rows: seq<FilmRow>, row: FilmRow, keywords: seq<string>)
    ensures FilterRows(rows + [row], keywords)
         == FilterRows(rows, keywords) + (if MatchesAll(row, keywords) then [Project(row)] else [])
  {
    FilterRowsAppend(rows, [row], keywords);
    assert [row][1..] == [];
  }

  /** Kept rows appear in fetch order. */
  lemma {:induction false} FilterRowsInFetchOrder(rows: seq<FilmRow>, keywords: seq<string>)
    ensures IsSubsequence(FilterRows(rows, keywords), ProjectAll(rows))
  {
    if rows != [] {
      FilterRowsInFetchOrder(rows[1..], keywords);
      assert ProjectAll(rows)[1..] == ProjectAll(rows[1..]);
      var rest := FilterRows(rows[1..], keywords);
      var all := ProjectAll(rows);
      if MatchesAll(rows[0], keywords) {
        var r := [Project(rows[0])] + rest;
        assert r[1..] == rest && r[0] == all[0];
        assert IsSubsequence(r[1..], all[1..]);
      } else {
        assert FilterRows(rows, keywords) == rest;
        assert IsSubsequence(rest, all[1..]);
      }
    }
  }

  /** With no keywords every row is kept. */
  lemma {:induction false} FilterRowsNoKeywords(rows: seq<FilmRow>)
    ensures FilterRows(rows, []) == ProjectAll(rows)
  {
    if rows != [] {
      FilterRowsNoKeywords(rows[1..]);
      assert ProjectAll(rows) == [Project(rows[0])] + ProjectAll(rows[1..]);
    }
  }

  /** The post-translation part of `search_movies_by_keyword`: an empty
      translation gives `[]` (lines 76-78), no fetched rows give `[]`
      (lines 86-88), otherwise the filtered rows (lines 90-99): a pair is
      reported iff some fetched row projects to it and every lower-cased
      query word is a substring of that row's search text, in fetch order. */
  function SearchByKeyword(translated: string, rows: seq<FilmRow>): (r: seq<(int, string)>)
    ensures |r| <= |rows|
    ensures translated == [] ==> r == []
    ensures rows == [] ==> r == []
    ensures IsSubsequence(r, ProjectAll(rows))
    ensures translated != [] ==> r == FilterRows(rows, Keywords(translated))
    ensures translated != [] ==>
      forall h :: h in r <==> exists i :: 0 <= i < |rows| && h == Project(rows[i]) && MatchesAll(rows[i], SplitWords(translated))
  {
    FilterRowsInFetchOrder(rows, Keywords(translated));
    EmptyIsSubsequence(ProjectAll(rows));
    if translated == [] then []
    else if rows == [] then []
    else FilterRows(rows, Keywords(translated))
  }

  /** A query that is not empty but holds only whitespace has no keywords,
      so `all(...)` holds vacuously and every row is reported, in order. */
  lemma SearchByKeywordBlankQuery(translated: string, rows: seq<FilmRow>)
    requires translated != []
    requires forall i :: 0 <= i < |translated| ==> IsSpace(translated[i])
    ensures SearchByKeyword(translated, rows) == ProjectAll(rows)
  {
    BlankSplit(translated);
    FilterRowsNoKeywords(rows);
  }

  /** Two fetched rows with the same `(film_id, title)` are both reported. */
  lemma DuplicateRowsBothReported()
    ensures SearchByKeyword(" ", [FilmRow(1, "A", ""), FilmRow(1, "A", "")]) == [(1, "A"), (1, "A")]
  {
    SearchByKeywordBlankQuery(" ", [FilmRow(1, "A", ""), FilmRow(1, "A", "")]);
  }

  lemma {:induction false} SplitFromOccurs(s: string, cur: string)
    ensures forall w :: w in SplitFrom(s, cur) ==> Contains(cur + s, w)
    decreases |s|
  {
    if s == [] {
      assert cur + s == cur;
    } else if IsSpace(s[0]) {
      SplitFromOccurs(s[1..], []);
      assert cur + s == (cur + [s[0]]) + s[1..];
      assert [] + s[1..] == s[1..];
      forall w | w in SplitFrom(s[1..], []) ensures Contains(cur + s, w) {
        ContainsInSuffix(cur + [s[0]], s[1..], w);
      }
    } else {
      SplitFromOccurs(s[1..], cur + [s[0]]);
      assert (cur + [s[0]]) + s[1..] == cur + s;
    }
  }

  /** Substring matching is looser than the ranker's token matching: a row
      whose text contains every keyword as a whole word is always kept. */
  lemma WholeWordsAreKept(row: FilmRow, translated: string)
    requires forall kw :: kw in SplitWords(translated) ==> kw in SplitWords(row.title + " " + row.description)
    ensures MatchesAll(row, Keywords(translated))
  {
    SplitFromOccurs(SearchText(row), []);
    assert [] + SearchText(row) == SearchText(row);
  }

  lemma KeywordsOfCat()
    ensures Keywords("cat") == ["cat"]
  {
    assert LowerStr("cat") == "cat";
    assert Join(["cat"]) == "cat";
    SplitJoin(["cat"]);
  }

  lemma WordsOfScatter()
    ensures SplitWords("Scatter" + " " + "") == ["scatter"]
  {
    assert LowerStr("Scatter" + " " + "") == "scatter" + " ";
    SplitFromWord("scatter", " ", []);
    assert [] + "scatter" == "scatter";
  }

  lemma ScatterContainsCat()
    ensures MatchesAll(FilmRow(1, "Scatter", ""), ["cat"])
  {
    assert SearchText(FilmRow(1, "Scatter", "")) == "scatter ";
    assert "cat" <= "catter ";
    assert Contains("scatter ", "cat");
  }

  /** The converse fails: a keyword inside a longer word still matches, so
      "cat" finds the film titled "Scatter" though no word of it is "cat". */
  lemma SubstringNotToken()
    ensures SearchByKeyword("cat", [FilmRow(1, "Scatter", "")]) == [(1, "Scatter")]
    ensures "cat" !in SplitWords("Scatter" + " " + "")
  {
    KeywordsOfCat();
    WordsOfScatter();
    ScatterContainsCat();
    assert FilterRows([FilmRow(1, "Scatter", "")], ["cat"]) == [(1, "Scatter")] by {
      assert [FilmRow(1, "Scatter", "")][1..] == [];
    }
  }
}
