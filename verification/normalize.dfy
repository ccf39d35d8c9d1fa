/** The two normalisations the scorer consumes: a bio becomes a sequence of
    tokens, a job becomes its lowercase copy. */
module Normalize {
  import opened Domain
  import opened Text
  import opened Words

  /** A character that may occur inside a bio token: a lowercase ASCII
      letter or a whitespace character other than the space itself. */
  predicate IsTokenChar(c: char)
  {
    c != ' ' && IsKept(c) && !IsAsciiUpper(c)
  }

  /** Bio normalisation: remove punctuation, lowercase, split on spaces,
      drop stop words. */
  function NormalizeBio(bio: string, stopWords: set<string>): (r: seq<string>)
    ensures |r| <= SpaceCount(RemovePunctuation(bio)) + 1
    ensures forall i :: 0 <= i < |r| ==> r[i] !in stopWords
    ensures forall i, c :: 0 <= i < |r| && c in r[i] ==> IsTokenChar(c)
    ensures exists ws :: IsSplitOf(ws, ToLowerCase(RemovePunctuation(bio))) && r == WithoutStopWords(ws, stopWords)
  {
    var clean := ToLowerCase(RemovePunctuation(bio));
    assert forall c :: c in clean ==> IsKept(c) && !IsAsciiUpper(c) by {
      var kept := RemovePunctuation(bio);
      forall c | c in clean
        ensures IsKept(c) && !IsAsciiUpper(c)
      {
        var n :| 0 <= n < |clean| && clean[n] == c;
        assert IsKept(kept[n]);
        assert clean[n] == LowerChar(kept[n]);
      }
    }
    var words := WordsFromText(clean);
    assert SpaceCount(clean) == SpaceCount(RemovePunctuation(bio)) by {
      LowerKeepsSpaceCount(RemovePunctuation(bio));
    }
    JoinWordsFromText(clean);
    assert IsSplitOf(words, clean);
    WithoutStopWords(words, stopWords)
  }

  /** `ws` is a split of `text` on spaces: a non-empty list of space-free
      tokens that, joined with single spaces, gives the text back. */
  predicate IsSplitOf(ws: seq<string>, text: string)
  {
    |ws| > 0 && (forall i :: 0 <= i < |ws| ==> ' ' !in ws[i]) && Join(ws) == text
  }

  /** The normalised bio keeps every token of the cleaned text that is not a
      stop word, as often as it occurs there and in order: it is the
      stop-word filter of the text's only split on spaces. */
  lemma NormalizeBioKeepsTokens(bio: string, stopWords: set<string>, ws: seq<string>)
    requires IsSplitOf(ws, ToLowerCase(RemovePunctuation(bio)))
    ensures NormalizeBio(bio, stopWords) == WithoutStopWords(ws, stopWords)
    ensures forall w :: multiset(NormalizeBio(bio, stopWords))[w] == if w in stopWords then 0 else multiset(ws)[w]
  {
    WordsFromTextJoin(ws);
    forall w
      ensures multiset(NormalizeBio(bio, stopWords))[w] == if w in stopWords then 0 else multiset(ws)[w]
    {
      WithoutStopWordsCount(ws, stopWords, w);
    }
  }

  lemma {:induction false} LowerKeepsSpaceCount(s: string)
    ensures SpaceCount(ToLowerCase(s)) == SpaceCount(s)
    decreases |s|
  {
    if |s| > 0 {
      assert ToLowerCase(s)[1..] == ToLowerCase(s[1..]);
      LowerKeepsSpaceCount(s[1..]);
    }
  }

  /** `normalizeMembersBio`: clean and lowercase the bio, split it, and run
      `removeStopWords`' loop over the tokens. */
  method NormalizeMembersBio(bio: string, stopWords: set<string>) returns (bioWords: seq<string>)
    ensures bioWords == NormalizeBio(bio, stopWords)
    ensures exists ws :: IsSplitOf(ws, ToLowerCase(RemovePunctuation(bio))) && bioWords == WithoutStopWords(ws, stopWords)
  {
    var cleanBio := ToLowerCase(RemovePunctuation(bio));
    bioWords := WordsFromText(cleanBio);
    bioWords := RemoveStopWords(bioWords, stopWords);
  }

  /** The lowercase copy of a job used for matching. */
  function NormalizeJob(job: Job): (r: Job)
    ensures |r.title| == |job.title| && |r.location| == |job.location|
    ensures ToLowerCase(r.title) == r.title && ToLowerCase(r.location) == r.location
    ensures ToLowerCase(job.title) == r.title && ToLowerCase(job.location) == r.location
  {
    ToLowerCaseIdempotent(job.title);
    ToLowerCaseIdempotent(job.location);
    Job(ToLowerCase(job.title), ToLowerCase(job.location))
  }

  /** Job normalisation: one lowercase copy per job, in the same order. The
      input sequence is a value and stays as it was. */
  function NormalizeJobs(jobs: seq<Job>): (r: seq<Job>)
    ensures |r| == |jobs|
    ensures forall i :: 0 <= i < |r| ==> r[i] == NormalizeJob(jobs[i])
    ensures forall i :: 0 <= i < |r| ==>
      ToLowerCase(r[i].title) == r[i].title && ToLowerCase(r[i].location) == r[i].location
    ensures forall i :: 0 <= i < |r| ==> |r[i].title| == |jobs[i].title|
  {
    seq(|jobs|, i requires 0 <= i < |jobs| => NormalizeJob(jobs[i]))
  }
}
