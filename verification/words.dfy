/** Token-level normalisation of a bio: splitting on spaces and dropping
    stop words. */
module Words {

  /** The number of space characters in `s`. */
  function SpaceCount(s: string): nat
    decreases |s|
  {
    if |s| == 0 then 0 else (if s[0] == ' ' then 1 else 0) + SpaceCount(s[1..])
  }

  /** Splitting on the single character `' '`. Runs of spaces are not
      collapsed: two adjacent spaces delimit an empty token, and a leading
      or trailing space yields an empty first or last token. */
  function WordsFromText(s: string): (r: seq<string>)
    ensures |r| == SpaceCount(s) + 1
    ensures forall i :: 0 <= i < |r| ==> ' ' !in r[i]
    ensures forall i, c :: 0 <= i < |r| && c in r[i] ==> c in s
    decreases |s|
  {
    if |s| == 0 then [""]
    else
      var rest := WordsFromText(s[1..]);
      assert forall c :: c in s[1..] ==> c in s;
      if s[0] == ' ' then [""] + rest
      else [[s[0]] + rest[0]] + rest[1..]
  }

  /** Joining tokens with one space between neighbours. */
  function Join(ts: seq<string>): string
    decreases |ts|
  {
    if |ts| == 0 then ""
    else if |ts| == 1 then ts[0]
    else ts[0] + " " + Join(ts[1..])
  }

  /** Splitting loses nothing: joining the tokens with spaces gives the
      text back. */
  lemma {:induction false} JoinWordsFromText(s: string)
    ensures Join(WordsFromText(s)) == s
    decreases |s|
  {
    if |s| > 0 {
      var rest := WordsFromText(s[1..]);
      JoinWordsFromText(s[1..]);
      if s[0] == ' ' {
        assert ([""] + rest)[1..] == rest;
        assert s == " " + s[1..];
      } else if |rest| == 1 {
        assert s == [s[0]] + s[1..];
      } else {
        var r := [[s[0]] + rest[0]] + rest[1..];
        assert r[1..] == rest[1..];
        assert s == [s[0]] + s[1..];
      }
    }
  }

  /** A prefix without spaces glues onto the first token of what follows. */
  lemma {:induction false} WordsFromTextPrefix(a: string, b: string)
    requires ' ' !in a
    ensures WordsFromText(a + b) == [a + WordsFromText(b)[0]] + WordsFromText(b)[1..]
    decreases |a|
  {
    if |a| == 0 {
      var w := WordsFromText(b);
      assert a + b == b;
      assert a + w[0] == w[0];
      assert w == [w[0]] + w[1..];
    } else {
      assert (a + b)[1..] == a[1..] + b;
      assert (a + b)[0] == a[0];
      assert a[0] in a;
      assert ' ' !in a[1..] by {
        assert forall c :: c in a[1..] ==> c in a;
      }
      WordsFromTextPrefix(a[1..], b);
      var rest := WordsFromText(a[1..] + b);
      assert rest == [a[1..] + WordsFromText(b)[0]] + WordsFromText(b)[1..];
      assert WordsFromText(a + b) == [[a[0]] + rest[0]] + rest[1..];
      assert [a[0]] + (a[1..] + WordsFromText(b)[0]) == a + WordsFromText(b)[0];
    }
  }

  /** Splitting undoes joining, provided no token holds a space. */
  lemma {:induction false} WordsFromTextJoin(ts: seq<string>)
    requires |ts| > 0
    requires forall i :: 0 <= i < |ts| ==> ' ' !in ts[i]
    ensures WordsFromText(Join(ts)) == ts
    decreases |ts|
  {
    if |ts| == 1 {
      WordsFromTextPrefix(ts[0], "");
      assert ts[0] + "" == ts[0];
    } else {
      var tail := Join(ts[1..]);
      assert Join(ts) == ts[0] + " " + tail;
      WordsFromTextJoin(ts[1..]);
      assert ts[0] + " " + tail == ts[0] + (" " + tail);
      WordsFromTextPrefix(ts[0], " " + tail);
      assert (" " + tail)[1..] == tail;
      assert (" " + tail)[0] == ' ';
      assert WordsFromText(" " + tail) == [""] + ts[1..];
      assert ts[0] + "" == ts[0];
      assert ts == [ts[0]] + ts[1..];
    }
  }

  /** The tokens that are not stop words, in their original order. */
  function WithoutStopWords(words: seq<string>, stopWords: set<string>): (r: seq<string>)
    ensures |r| <= |words|
    ensures forall i :: 0 <= i < |r| ==> r[i] !in stopWords && r[i] in words
    ensures forall i :: 0 <= i < |words| && words[i] !in stopWords ==> words[i] in r
    decreases |words|
  {
    if |words| == 0 then []
    else
      var last := words[|words| - 1];
      WithoutStopWords(words[..|words| - 1], stopWords)
        + (if last in stopWords then [] else [last])
  }

  /** Filtering distributes over concatenation, so the survivors keep their
      relative order. */
  lemma {:induction false} WithoutStopWordsConcat(a: seq<string>, b: seq<string>, stopWords: set<string>)
    ensures WithoutStopWords(a + b, stopWords)
         == WithoutStopWords(a, stopWords) + WithoutStopWords(b, stopWords)
    decreases |b|
  {
    if |b| == 0 {
      assert a + b == a;
    } else {
      var n := |b| - 1;
      assert (a + b)[..|a + b| - 1] == a + b[..n];
      assert (a + b)[|a + b| - 1] == b[n];
      WithoutStopWordsConcat(a, b[..n], stopWords);
    }
  }

  /** Each non-stop word survives exactly as often as it occurs; a stop
      word never does. */
  lemma {:induction false} WithoutStopWordsCount(words: seq<string>, stopWords: set<string>, w: string)
    ensures multiset(WithoutStopWords(words, stopWords))[w]
         == if w in stopWords then 0 else multiset(words)[w]
    decreases |words|
  {
    if |words| > 0 {
      var n := |words| - 1;
      var init, last := words[..n], words[n];
      var kept := if last in stopWords then [] else [last];
      assert words == init + [last];
      WithoutStopWordsSnoc(init, last, stopWords);
      WithoutStopWordsCount(init, stopWords, w);
      CountConcat(WithoutStopWords(init, stopWords), kept, w);
      CountConcat(init, [last], w);
    }
  }

  /** One more token is kept exactly when it is not a stop word. */
  lemma WithoutStopWordsSnoc(init: seq<string>, last: string, stopWords: set<string>)
    ensures WithoutStopWords(init + [last], stopWords)
         == WithoutStopWords(init, stopWords) + (if last in stopWords then [] else [last])
  {
    assert (init + [last])[..|init|] == init;
  }

  /** Occurrences in a concatenation add up. */
  lemma CountConcat(a: seq<string>, b: seq<string>, w: string)
    ensures multiset(a + b)[w] == multiset(a)[w] + multiset(b)[w]
  {
    assert multiset(a + b) == multiset(a) + multiset(b);
  }

  /** The stop-word filter as `removeStopWords`' loop: one pass that appends each
      token not in the stop-word set. */
  method RemoveStopWords(words: seq<string>, stopWords: set<string>) returns (newWords: seq<string>)
    ensures newWords == WithoutStopWords(words, stopWords)
  {
    newWords := [];
    var i := 0;
    while i < |words|
      invariant 0 <= i <= |words|
      invariant newWords == WithoutStopWords(words[..i], stopWords)
    {
      assert words[..i + 1][..i] == words[..i];
      if words[i] !in stopWords {
        newWords := newWords + [words[i]];
      }
      i := i + 1;
    }
    assert words[..|words|] == words;
  }

  /** The `removeStopWords` example of the test suite, for any stop-word table that holds
      the five function words but not the city name. */
  lemma RemoveStopWordsExample(stopWords: set<string>)
    requires "the" in stopWords && "is" in stopWords && "are" in stopWords
    requires "you" in stopWords && "us" in stopWords && "London" !in stopWords
    ensures WithoutStopWords(["the", "London", "is", "are", "you", "us"], stopWords) == ["London"]
  {
    var ws := ["the", "London", "is", "are", "you", "us"];
    assert WithoutStopWords(ws[..0], stopWords) == [];
    assert ws[..1][..0] == ws[..0];
    assert WithoutStopWords(ws[..1], stopWords) == [];
    assert ws[..2][..1] == ws[..1];
    assert WithoutStopWords(ws[..2], stopWords) == ["London"];
    assert ws[..3][..2] == ws[..2];
    assert WithoutStopWords(ws[..3], stopWords) == ["London"];
    assert ws[..4][..3] == ws[..3];
    assert WithoutStopWords(ws[..4], stopWords) == ["London"];
    assert ws[..5][..4] == ws[..4];
    assert WithoutStopWords(ws[..5], stopWords) == ["London"];
    assert ws[..6][..5] == ws[..5];
    assert ws[..6] == ws;
  }
}
