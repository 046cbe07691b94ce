/** Text normalisation shared by the ranker and the console keyword filter:
    `text.lower().split()` of search_engine.py:1-2. Lower-casing is ASCII
    lower-casing; whitespace is the fixed set of characters Python's
    `str.split()` (no arguments) separates on. */
module Tokenizer {

  /** The characters Python's `str.isspace` accepts, on which `str.split()` splits. */
  predicate IsSpace(c: char) {
    ('\t' <= c <= '\r') || ('\U{1C}' <= c <= ' ')
    || c == '\U{85}' || c == '\U{A0}' || c == '\U{1680}'
    || ('\U{2000}' <= c <= '\U{200A}')
    || c == '\U{2028}' || c == '\U{2029}' || c == '\U{202F}' || c == '\U{205F}' || c == '\U{3000}'
  }

  /** ASCII lower-casing of one character. */
  function Lower(c: char): (d: char)
    ensures 'A' <= c <= 'Z' ==> 'a' <= d <= 'z'
    ensures 'A' <= c <= 'Z' ==> d as int - 'a' as int == c as int - 'A' as int
    ensures !('A' <= c <= 'Z') ==> d == c
    ensures IsSpace(d) <==> IsSpace(c)
    ensures !('A' <= d <= 'Z')
  {
    if 'A' <= c <= 'Z' then (c as int + 32) as char else c
  }

  /** `s.lower()`. */
  function LowerStr(s: string): (r: string)
    ensures |r| == |s|
    ensures forall i :: 0 <= i < |s| ==> r[i] == Lower(s[i])
  {
    seq(|s|, i requires 0 <= i < |s| => Lower(s[i]))
  }

  /** A string that `lower()` leaves unchanged. */
  predicate IsLowerCase(s: string) {
    forall i :: 0 <= i < |s| ==> Lower(s[i]) == s[i]
  }

  /** `s.lower()` is already lower-case: lower-casing twice changes nothing. */
  lemma LowerStrIsLowerCase(s: string)
    ensures IsLowerCase(LowerStr(s))
  {
  }

  predicate HasNoSpace(s: string) {
    forall i :: 0 <= i < |s| ==> !IsSpace(s[i])
  }

  /** `[w.lower() for w in ws]`. */
  function LowerAll(ws: seq<string>): (r: seq<string>)
    ensures |r| == |ws|
    ensures forall i :: 0 <= i < |ws| ==> r[i] == LowerStr(ws[i])
  {
    seq(|ws|, i requires 0 <= i < |ws| => LowerStr(ws[i]))
  }

  /** Python's `s.split()` with the word being built so far in `cur`:
      runs of whitespace separate words, leading and trailing whitespace
      yields no empty word. */
  function SplitFrom(s: string, cur: string): seq<string>
    decreases |s|
  {
    if s == [] then
      (if cur == [] then [] else [cur])
    else if IsSpace(s[0]) then
      (if cur == [] then [] else [cur]) + SplitFrom(s[1..], [])
    else
      SplitFrom(s[1..], cur + [s[0]])
  }

  /** `s.split()`: the words are non-empty and free of whitespace. */
  function Split(s: string): (r: seq<string>)
    ensures forall w :: w in r ==> IsToken(w)
  {
    SplitFromTokens(s, []);
    SplitFrom(s, [])
  }

  /** `split_words(text)`: `text.lower().split()` (search_engine.py:1-2).
      Every word is a token that is its own lower-case form. */
  function SplitWords(text: string): (r: seq<string>)
    ensures forall w :: w in r ==> IsToken(w) && IsLowerCase(w)
  {
    LowerStrIsLowerCase(text);
    SplitLowerCase(LowerStr(text));
    Split(LowerStr(text))
  }

  /** The characters of `s` that are not whitespace, in order. */
  function NonSpace(s: string): (r: string)
    ensures |r| <= |s|
  {
    if s == [] then [] else (if IsSpace(s[0]) then [] else [s[0]]) + NonSpace(s[1..])
  }

  /** The words of `ws` concatenated. */
  function Concat(ws: seq<string>): string {
    if ws == [] then [] else ws[0] + Concat(ws[1..])
  }

  /** The words of `ws` separated by single spaces: `" ".join(ws)`. */
  function Join(ws: seq<string>): string {
    if ws == [] then [] else if |ws| == 1 then ws[0] else ws[0] + " " + Join(ws[1..])
  }

  /** A well-formed token: non-empty and free of whitespace. */
  predicate IsToken(w: string) {
    w != [] && HasNoSpace(w)
  }

  lemma {:induction false} SplitFromTokens(s: string, cur: string)
    requires HasNoSpace(cur)
    ensures forall w :: w in SplitFrom(s, cur) ==> IsToken(w)
    decreases |s|
  {
    if s == [] {
    } else if IsSpace(s[0]) {
      SplitFromTokens(s[1..], []);
    } else {
      SplitFromTokens(s[1..], cur + [s[0]]);
    }
  }

  lemma {:induction false} SplitFromChars(s: string, cur: string)
    ensures forall w, i :: w in SplitFrom(s, cur) && 0 <= i < |w| ==> w[i] in cur || w[i] in s
    decreases |s|
  {
    if s == [] {
    } else if IsSpace(s[0]) {
      SplitFromChars(s[1..], []);
      forall w, i | w in SplitFrom(s, cur) && 0 <= i < |w|
        ensures w[i] in cur || w[i] in s
      {
        if w !in SplitFrom(s[1..], []) {
          assert w == cur;
        } else {
          assert w[i] in s[1..];
        }
      }
    } else {
      SplitFromChars(s[1..], cur + [s[0]]);
      forall w, i | w in SplitFrom(s, cur) && 0 <= i < |w|
        ensures w[i] in cur || w[i] in s
      {
        if w[i] in cur + [s[0]] {
          assert w[i] in cur || w[i] == s[0];
        } else {
          assert w[i] in s[1..];
        }
      }
    }
  }

  /** Splitting a lower-case text gives lower-case words. */
  lemma SplitLowerCase(s: string)
    requires IsLowerCase(s)
    ensures forall w :: w in SplitFrom(s, []) ==> IsLowerCase(w)
  {
    SplitFromChars(s, []);
    forall w | w in SplitFrom(s, []) ensures IsLowerCase(w) {
      forall i | 0 <= i < |w| ensures Lower(w[i]) == w[i] {
        assert w[i] in s;
        var j :| 0 <= j < |s| && s[j] == w[i];
      }
    }
  }

  lemma {:induction false} SplitFromConcat(s: string, cur: string)
    ensures Concat(SplitFrom(s, cur)) == cur + NonSpace(s)
    decreases |s|
  {
    if s == [] {
    } else if IsSpace(s[0]) {
      SplitFromConcat(s[1..], []);
      ConcatAppend(if cur == [] then [] else [cur], SplitFrom(s[1..], []));
    } else {
      SplitFromConcat(s[1..], cur + [s[0]]);
      assert cur + [s[0]] + NonSpace(s[1..]) == cur + NonSpace(s);
    }
  }

  lemma {:induction false} ConcatAppend(a: seq<string>, b: seq<string>)
    ensures Concat(a + b) == Concat(a) + Concat(b)
  {
    if a == [] {
      assert a + b == b;
    } else {
      assert (a + b)[1..] == a[1..] + b;
      ConcatAppend(a[1..], b);
    }
  }

  /** No character is lost or invented by splitting: gluing the words back
      together gives exactly the non-whitespace characters of the text. */
  lemma SplitConcat(s: string)
    ensures Concat(Split(s)) == NonSpace(s)
  {
    SplitFromConcat(s, []);
  }

  lemma {:induction false} SplitFromAtSpace(a: string, c: char, b: string, cur: string)
    requires IsSpace(c)
    ensures SplitFrom(a + [c] + b, cur) == SplitFrom(a, cur) + SplitFrom(b, [])
    decreases |a|
  {
    var s := a + [c] + b;
    if a == [] {
      assert s[0] == c && s[1..] == b;
    } else {
      assert s[0] == a[0] && s[1..] == a[1..] + [c] + b;
      if IsSpace(a[0]) {
        SplitFromAtSpace(a[1..], c, b, []);
      } else {
        SplitFromAtSpace(a[1..], c, b, cur + [a[0]]);
      }
    }
  }

  /** Any whitespace character separates words: the text splits into the
      words before it followed by the words after it. With `SplitJoin` on a
      single word this fixes `split()` on every input: leading, trailing and
      repeated whitespace of any kind yields no empty word. */
  lemma SplitAtSpace(a: string, c: char, b: string)
    requires IsSpace(c)
    ensures Split(a + [c] + b) == Split(a) + Split(b)
  {
    SplitFromAtSpace(a, c, b, []);
  }

  lemma {:induction false} SplitFromWord(w: string, rest: string, cur: string)
    requires HasNoSpace(w)
    ensures SplitFrom(w + rest, cur) == SplitFrom(rest, cur + w)
    decreases |w|
  {
    if w != [] {
      assert (w + rest)[0] == w[0];
      assert (w + rest)[1..] == w[1..] + rest;
      SplitFromWord(w[1..], rest, cur + [w[0]]);
      assert cur + [w[0]] + w[1..] == cur + w;
    } else {
      assert w + rest == rest && cur + w == cur;
    }
  }

  /** Splitting undoes joining with single spaces, for well-formed words:
      `" ".join(ws).split() == ws`. */
  lemma {:induction false} SplitJoin(ws: seq<string>)
    requires forall w :: w in ws ==> IsToken(w)
    ensures Split(Join(ws)) == ws
  {
    if ws == [] {
    } else if |ws| == 1 {
      assert ws[0] in ws;
      SplitFromWord(ws[0], [], []);
      assert ws[0] + [] == ws[0] && [] + ws[0] == ws[0];
      assert SplitFrom([], ws[0]) == [ws[0]];
      assert ws == [ws[0]];
    } else {
      assert ws[0] in ws;
      var rest := Join(ws[1..]);
      assert Join(ws) == ws[0] + (" " + rest);
      SplitFromWord(ws[0], " " + rest, []);
      assert [] + ws[0] == ws[0];
      assert (" " + rest)[1..] == rest;
      assert forall w :: w in ws[1..] ==> w in ws;
      SplitJoin(ws[1..]);
      assert ws == [ws[0]] + ws[1..];
    }
  }

  lemma {:induction false} SplitFromLower(s: string, cur: string)
    ensures SplitFrom(LowerStr(s), LowerStr(cur)) == LowerAll(SplitFrom(s, cur))
    decreases |s|
  {
    var ls := LowerStr(s);
    if s == [] {
    } else if IsSpace(s[0]) {
      assert ls[1..] == LowerStr(s[1..]);
      assert LowerStr([]) == [];
      SplitFromLower(s[1..], []);
      LowerAllAppend(if cur == [] then [] else [cur], SplitFrom(s[1..], []));
    } else {
      assert ls[1..] == LowerStr(s[1..]);
      assert LowerStr(cur) + [ls[0]] == LowerStr(cur + [s[0]]);
      SplitFromLower(s[1..], cur + [s[0]]);
    }
  }

  lemma LowerAllAppend(a: seq<string>, b: seq<string>)
    ensures LowerAll(a + b) == LowerAll(a) + LowerAll(b)
  {
  }

  /** Lower-casing the words after splitting (console_interface.py:90) gives
      the same words as lower-casing before splitting (search_engine.py:2). */
  lemma SplitThenLower(text: string)
    ensures LowerAll(Split(text)) == SplitWords(text)
  {
    SplitFromLower(text, []);
    assert LowerStr([]) == [];
  }

  /** A text holding nothing but whitespace splits into no words. */
  lemma {:induction false} BlankSplit(s: string)
    requires forall i :: 0 <= i < |s| ==> IsSpace(s[i])
    ensures Split(s) == []
  {
    if s != [] {
      BlankSplit(s[1..]);
    }
  }

  /** A text holding nothing but whitespace has no words. */
  lemma SplitWordsBlank(text: string)
    requires forall i :: 0 <= i < |text| ==> IsSpace(text[i])
    ensures SplitWords(text) == []
  {
    BlankSplit(LowerStr(text));
  }
}
