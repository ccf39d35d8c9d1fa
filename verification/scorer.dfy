/** The per-member scorer: every bio token is credited to every job, each
    job keeps a running total, and the best job is tracked while the totals
    grow. */
module Scorer {
  import opened Domain
  import opened Text
  import opened Normalize
  import opened Neighbours

  /** `String.prototype.includes`: `w` occurs in `t` at some offset. The
      empty string occurs in every string. */
  predicate IsSubstring(w: string, t: string)
  {
    exists p :: 0 <= p <= |t| - |w| && OccursAt(w, t, p)
  }

  /** `w` occurs in `t` starting at offset `p`. */
  predicate OccursAt(w: string, t: string, p: int)
  {
    0 <= p <= |t| - |w| && t[p..p + |w|] == w
  }

  /** Every job has a non-empty title (`getJobRecomendation` would divide zero by zero
      for an empty title and an empty token). */
  predicate ValidJobs(jobs: seq<Job>)
  {
    forall j :: 0 <= j < |jobs| ==> |jobs[j].title| > 0
  }

  /** Credit of a token for a job title: the share of the title the token
      covers, scaled by the multiplier, when the token occurs in the title.
      Both lengths are JavaScript lengths, counted in UTF-16 code units. */
  function TitleCredit(word: string, title: string, multiplier: real): (r: real)
    requires |title| > 0
    ensures 0.0 <= multiplier ==> 0.0 <= r <= multiplier
    ensures !IsSubstring(word, title) ==> r == 0.0
    ensures word == title ==> r == multiplier
  {
    if IsSubstring(word, title) then
      SubstringUtf16Shorter(word, title);
      ScaledShare(Utf16Length(word), Utf16Length(title), multiplier)
    else
      assert word == title ==> OccursAt(word, title, 0);
      0.0
  }

  /** A token the title includes is no longer than the title, counted in
      UTF-16 code units. */
  lemma SubstringUtf16Shorter(word: string, title: string)
    requires IsSubstring(word, title)
    ensures Utf16Length(word) <= Utf16Length(title)
  {
    var p :| 0 <= p <= |title| - |word| && OccursAt(word, title, p);
    Utf16LengthSlice(title, p, p + |word|);
  }

  /** A token the title includes earns the scaled share of its length in
      the title's, lengths counted in UTF-16 code units; with
      `ScaledShareProduct` the credit is proportional to that length. */
  lemma TitleCreditIsScaled(word: string, title: string, multiplier: real)
    requires |title| > 0 && IsSubstring(word, title)
    ensures Utf16Length(word) <= Utf16Length(title)
    ensures TitleCredit(word, title, multiplier) == ScaledShare(Utf16Length(word), Utf16Length(title), multiplier)
  {
    SubstringUtf16Shorter(word, title);
  }

  /** The share a part of length `part` takes of a whole of length `whole`,
      scaled by `m`. */
  function ScaledShare(part: nat, whole: nat, m: real): (r: real)
    requires part <= whole && 0 < whole
    ensures 0.0 <= m ==> 0.0 <= r <= m
    ensures part == whole ==> r == m
  {
    var share := part as real / whole as real;
    ShareBounds(part, whole);
    ScaledBounds(share, m);
    share * m
  }

  /** The scaled share is proportional: `r · whole == part · m`. */
  lemma ScaledShareProduct(part: nat, whole: nat, m: real)
    requires part <= whole && 0 < whole
    ensures ScaledShare(part, whole, m) * (whole as real) == (part as real) * m
  {
    var share := part as real / whole as real;
    assert share * (whole as real) == part as real;
    assert (share * m) * (whole as real) == (share * (whole as real)) * m;
  }

  /** The share a part of length `a` takes of a whole of length `b`. */
  lemma ShareBounds(a: nat, b: nat)
    requires a <= b && 0 < b
    ensures 0.0 <= a as real / b as real <= 1.0
    ensures a == b ==> a as real / b as real == 1.0
  {
    var q, ar, br := a as real / b as real, a as real, b as real;
    assert q * br == ar;
    assert (1.0 - q) * br == br - ar;
    SignOfProduct(q, br);
    SignOfProduct(1.0 - q, br);
  }

  /** A product with a positive factor has the sign of the other factor. */
  lemma SignOfProduct(x: real, y: real)
    requires 0.0 < y
    ensures 0.0 <= x * y ==> 0.0 <= x
  {
    if x < 0.0 {
      assert x * y < 0.0 * y;
    }
  }

  lemma ScaledBounds(share: real, m: real)
    requires 0.0 <= share <= 1.0
    ensures 0.0 <= m ==> 0.0 <= share * m <= m
    ensures share == 1.0 ==> share * m == m
  {
    if 0.0 <= m {
      assert share * m <= 1.0 * m;
    }
  }

  /** Credit of the token at `i` for a job location: the neighbour-context
      score when the token is exactly the location, nothing otherwise. */
  function LocationCredit(words: seq<string>, i: nat, location: string, cfg: Config): (r: real)
    requires i < |words|
    ensures r != 0.0 <==> words[i] == location
    ensures words[i] == location ==> IsLocationScore(r)
    ensures words[i] == location ==> r == CheckKNeighbours(words, i, cfg.k, cfg)
  {
    if words[i] == location then CheckKNeighbours(words, i, cfg.k, cfg) else 0.0
  }

  /** A location mention is credited with the verdict of its neighbours: the
      negative score when the nearest context word among the `K` tokens
      before it is a negative word, the positive score when it is only a
      positive word, and the neutral score when there is none. */
  lemma LocationCreditNearest(words: seq<string>, i: nat, location: string, cfg: Config)
    requires i < |words| && words[i] == location
    ensures var r := LocationCredit(words, i, location, cfg);
            var lo := WindowStart(i, cfg.k);
            && (r == NegativeLocationScore <==>
                  exists j :: IsNearestContext(words, lo, i - 1, j, cfg) && IsNegativeAt(words, j, cfg))
            && (r == PositiveLocationScore <==>
                  exists j :: IsNearestContext(words, lo, i - 1, j, cfg) && !IsNegativeAt(words, j, cfg))
            && (r == NeutralLocationScore <==>
                  forall j :: lo <= j < i ==> !IsContextAt(words, j, cfg))
  {
    CheckKNeighboursNearest(words, i, cfg.k, cfg);
  }

  /** What the token at `i` adds to a job's running total. */
  function Credit(words: seq<string>, i: nat, job: Job, cfg: Config): real
    requires i < |words| && |job.title| > 0
  {
    TitleCredit(words[i], job.title, cfg.jobScoreMultiplier) + LocationCredit(words, i, job.location, cfg)
  }

  /** A job's running total after the first `n` tokens. */
  function SlotSum(words: seq<string>, n: nat, job: Job, cfg: Config): real
    requires n <= |words| && |job.title| > 0
    decreases n
  {
    if n == 0 then 0.0 else SlotSum(words, n - 1, job, cfg) + Credit(words, n - 1, job, cfg)
  }

  /** A comparison the scorer makes: the pass of token `i` over job `j`,
      for every token but the first. */
  predicate IsComparison(words: seq<string>, jobs: seq<Job>, i: int, j: int)
  {
    1 <= i < |words| && 0 <= j < |jobs|
  }

  /** The value compared in that pass: job `j`'s total over tokens `0..i`. */
  function Compared(words: seq<string>, jobs: seq<Job>, cfg: Config, i: int, j: int): real
    requires ValidJobs(jobs) && 0 <= i < |words| && 0 <= j < |jobs|
  {
    SlotSum(words, i + 1, jobs[j], cfg)
  }

  /** Pass `(i1, j1)` happens before pass `(i2, j2)`. */
  predicate Before(i1: int, j1: int, i2: int, j2: int)
  {
    i1 < i2 || (i1 == i2 && j1 < j2)
  }

  /** Comparison `(i, b)` is the first to reach the highest compared value,
      and that value is positive. */
  ghost predicate IsFirstMaximum(words: seq<string>, jobs: seq<Job>, cfg: Config, i: int, b: int)
    requires ValidJobs(jobs)
  {
    && IsComparison(words, jobs, i, b)
    && Compared(words, jobs, cfg, i, b) > 0.0
    && (forall i', j' :: IsComparison(words, jobs, i', j') ==>
          Compared(words, jobs, cfg, i', j') <= Compared(words, jobs, cfg, i, b))
    && (forall i', j' :: IsComparison(words, jobs, i', j') && Before(i', j', i, b) ==>
          Compared(words, jobs, cfg, i', j') < Compared(words, jobs, cfg, i, b))
  }

  /** The scorer's answer, characterised without its loop: no job when no
      comparison ever exceeds 0, otherwise the job of the first comparison
      that reaches the highest compared value. */
  ghost predicate IsRecommendation(words: seq<string>, jobs: seq<Job>, cfg: Config, best: Option<nat>)
    requires ValidJobs(jobs)
  {
    match best
    case None =>
      forall i, j :: IsComparison(words, jobs, i, j) ==> Compared(words, jobs, cfg, i, j) <= 0.0
    case Some(b) =>
      b < |jobs| && exists i :: IsFirstMaximum(words, jobs, cfg, i, b)
  }

  /** At most one answer satisfies the characterisation. */
  lemma RecommendationUnique(words: seq<string>, jobs: seq<Job>, cfg: Config, b1: Option<nat>, b2: Option<nat>)
    requires ValidJobs(jobs)
    requires IsRecommendation(words, jobs, cfg, b1) && IsRecommendation(words, jobs, cfg, b2)
    ensures b1 == b2
  {
    if b1.Some? && b2.Some? {
      var i1 :| IsFirstMaximum(words, jobs, cfg, i1, b1.value);
      var i2 :| IsFirstMaximum(words, jobs, cfg, i2, b2.value);
      assert !Before(i1, b1.value, i2, b2.value);
      assert !Before(i2, b2.value, i1, b1.value);
    }
  }

  /** A bio with fewer than two tokens, or an empty catalogue, leaves the
      scorer without a single comparison, hence without a recommendation. */
  lemma NoComparisonNoRecommendation(words: seq<string>, jobs: seq<Job>, cfg: Config, best: Option<nat>)
    requires ValidJobs(jobs) && IsRecommendation(words, jobs, cfg, best)
    requires |words| < 2 || |jobs| == 0
    ensures best == None
  {
  }

  /** No token's credit for any job is negative. */
  ghost predicate NonNegativeCredits(words: seq<string>, jobs: seq<Job>, cfg: Config)
    requires ValidJobs(jobs)
  {
    forall i, j :: 0 <= i < |words| && 0 <= j < |jobs| ==> Credit(words, i, jobs[j], cfg) >= 0.0
  }

  /** A non-negative title weight and an empty set of avoidance words make
      every credit non-negative. */
  lemma CreditsNonNegative(words: seq<string>, jobs: seq<Job>, cfg: Config)
    requires ValidJobs(jobs)
    requires cfg.jobScoreMultiplier >= 0.0 && cfg.negativeNeighbours == {}
    ensures NonNegativeCredits(words, jobs, cfg)
  {
    forall i, j | 0 <= i < |words| && 0 <= j < |jobs|
      ensures Credit(words, i, jobs[j], cfg) >= 0.0
    {
      CheckKNeighboursNearest(words, i, cfg.k, cfg);
      assert CheckKNeighbours(words, i, cfg.k, cfg) != NegativeLocationScore;
    }
  }

  /** With non-negative credits a running total never shrinks. */
  lemma {:induction false} SlotSumMonotone(words: seq<string>, jobs: seq<Job>, cfg: Config, j: nat, m: nat, n: nat)
    requires ValidJobs(jobs) && NonNegativeCredits(words, jobs, cfg)
    requires j < |jobs| && m <= n <= |words|
    ensures SlotSum(words, m, jobs[j], cfg) <= SlotSum(words, n, jobs[j], cfg)
    decreases n
  {
    if m < n {
      SlotSumMonotone(words, jobs, cfg, j, m, n - 1);
      assert Credit(words, n - 1, jobs[j], cfg) >= 0.0;
    }
  }

  /** When no credit is negative and the bio has at least two tokens, the
      recommended job is one whose final total is the highest in the
      catalogue, and there is none exactly when no final total is positive. */
  lemma NonNegativeCreditsBestTotal(words: seq<string>, jobs: seq<Job>, cfg: Config, best: Option<nat>)
    requires ValidJobs(jobs) && NonNegativeCredits(words, jobs, cfg)
    requires |words| >= 2 && IsRecommendation(words, jobs, cfg, best)
    ensures best.Some? ==> best.value < |jobs| && SlotSum(words, |words|, jobs[best.value], cfg) > 0.0
    ensures best.Some? ==> forall j :: 0 <= j < |jobs| ==>
      SlotSum(words, |words|, jobs[j], cfg) <= SlotSum(words, |words|, jobs[best.value], cfg)
    ensures best.None? <==> forall j :: 0 <= j < |jobs| ==> SlotSum(words, |words|, jobs[j], cfg) <= 0.0
  {
    var last := |words| - 1;
    if best.Some? {
      var b := best.value;
      var i :| IsFirstMaximum(words, jobs, cfg, i, b);
      SlotSumMonotone(words, jobs, cfg, b, i + 1, |words|);
      assert Compared(words, jobs, cfg, last, b) <= Compared(words, jobs, cfg, i, b);
      forall j | 0 <= j < |jobs|
        ensures SlotSum(words, |words|, jobs[j], cfg) <= SlotSum(words, |words|, jobs[b], cfg)
      {
        assert IsComparison(words, jobs, last, j);
      }
    } else {
      forall j | 0 <= j < |jobs|
        ensures SlotSum(words, |words|, jobs[j], cfg) <= 0.0
      {
        assert IsComparison(words, jobs, last, j);
      }
    }
  }

  /** The running totals: one per job once the first token has been
      scored, each the sum of every token's credit for that job. */
  ghost predicate ScoresAreTotals(words: seq<string>, jobs: seq<Job>, cfg: Config, jobsScore: seq<real>)
    requires ValidJobs(jobs)
  {
    && |jobsScore| == (if |words| == 0 then 0 else |jobs|)
    && forall j :: 0 <= j < |jobsScore| ==> jobsScore[j] == SlotSum(words, |words|, jobs[j], cfg)
  }

  /** The scorer's mutable state: the running totals, the best total seen
      and the job it belongs to. */
  datatype ScanState = ScanState(jobsScore: seq<real>, maxScore: real, maxScoreIndex: Option<nat>)

  /** One pass of token `i` over job `j`. A job without a slot yet gets one
      holding this credit; otherwise the credit is added to its slot and the
      slot competes with the best total so far, winning only when strictly
      greater. */
  function ScoreStep(st: ScanState, words: seq<string>, i: nat, j: nat, jobs: seq<Job>, cfg: Config): (st': ScanState)
    requires ValidJobs(jobs) && i < |words| && j < |jobs|
    ensures st'.maxScore >= st.maxScore
    ensures st'.maxScoreIndex != st.maxScoreIndex ==> st'.maxScoreIndex == Some(j)
    ensures st'.maxScore != st.maxScore ==>
      st'.maxScoreIndex == Some(j) && j < |st'.jobsScore| && st'.maxScore == st'.jobsScore[j]
    ensures |st.jobsScore| <= j ==> st'.maxScore == st.maxScore && st'.maxScoreIndex == st.maxScoreIndex
    ensures |st'.jobsScore| == if |st.jobsScore| <= j then |st.jobsScore| + 1 else |st.jobsScore|
    ensures forall jj :: 0 <= jj < |st.jobsScore| && jj != j ==> st'.jobsScore[jj] == st.jobsScore[jj]
    ensures |st.jobsScore| <= j ==> st'.jobsScore == st.jobsScore + [Credit(words, i, jobs[j], cfg)]
    ensures j < |st.jobsScore| ==> st'.jobsScore[j] == st.jobsScore[j] + Credit(words, i, jobs[j], cfg)
    ensures j < |st.jobsScore| && st'.jobsScore[j] > st.maxScore ==>
      st'.maxScoreIndex == Some(j) && st'.maxScore == st'.jobsScore[j]
    ensures j < |st.jobsScore| && st'.jobsScore[j] <= st.maxScore ==>
      st'.maxScore == st.maxScore && st'.maxScoreIndex == st.maxScoreIndex
  {
    var credit := Credit(words, i, jobs[j], cfg);
    if |st.jobsScore| - 1 < j then
      st.(jobsScore := st.jobsScore + [credit])
    else
      var total := st.jobsScore[j] + credit;
      var scores := st.jobsScore[j := total];
      if total > st.maxScore then ScanState(scores, total, Some(j))
      else st.(jobsScore := scores)
  }

  /** What the best-so-far fields know after every pass before `(i, j)`:
      `maxScore` bounds every comparison made so far and is 0 or attained,
      first, by the comparison `(bestI, maxScoreIndex)`. */
  ghost predicate MaxSoFar(words: seq<string>, jobs: seq<Job>, cfg: Config, i: int, j: int,
                           st: ScanState, bestI: int)
    requires ValidJobs(jobs)
  {
    && st.maxScore >= 0.0
    && (forall ii, jj :: IsComparison(words, jobs, ii, jj) && Before(ii, jj, i, j) ==>
          Compared(words, jobs, cfg, ii, jj) <= st.maxScore)
    && (st.maxScoreIndex.None? ==> st.maxScore == 0.0)
    && (st.maxScoreIndex.Some? ==>
          var b := st.maxScoreIndex.value;
          && IsComparison(words, jobs, bestI, b)
          && Before(bestI, b, i, j)
          && Compared(words, jobs, cfg, bestI, b) == st.maxScore
          && st.maxScore > 0.0
          && forall ii, jj :: IsComparison(words, jobs, ii, jj) && Before(ii, jj, bestI, b) ==>
               Compared(words, jobs, cfg, ii, jj) < st.maxScore)
  }

  lemma MaxSoFarStep(words: seq<string>, jobs: seq<Job>, cfg: Config, i: nat, j: nat,
                     st: ScanState, bestI: int, st': ScanState, bestI': int)
    requires ValidJobs(jobs) && i < |words| && j < |jobs|
    requires MaxSoFar(words, jobs, cfg, i, j, st, bestI)
    requires i == 0 ==> |st.jobsScore| == j
    requires i > 0 ==> |st.jobsScore| == |jobs| && st.jobsScore[j] == SlotSum(words, i, jobs[j], cfg)
    requires st' == ScoreStep(st, words, i, j, jobs, cfg)
    requires bestI' == if st'.maxScore != st.maxScore then i else bestI
    ensures MaxSoFar(words, jobs, cfg, i, j + 1, st', bestI')
  {
    if i > 0 {
      assert st'.jobsScore[j] == Compared(words, jobs, cfg, i, j);
      forall ii, jj | IsComparison(words, jobs, ii, jj) && Before(ii, jj, i, j + 1)
        ensures Compared(words, jobs, cfg, ii, jj) <= st'.maxScore
      {
        if Before(ii, jj, i, j) {
        } else {
          assert ii == i && jj == j;
        }
      }
    }
  }

  lemma MaxSoFarNextToken(words: seq<string>, jobs: seq<Job>, cfg: Config, i: nat, st: ScanState, bestI: int)
    requires ValidJobs(jobs)
    requires MaxSoFar(words, jobs, cfg, i, |jobs|, st, bestI)
    ensures MaxSoFar(words, jobs, cfg, i + 1, 0, st, bestI)
  {
    forall ii, jj | IsComparison(words, jobs, ii, jj) && Before(ii, jj, i + 1, 0)
      ensures Before(ii, jj, i, |jobs|)
    {
    }
  }

  lemma MaxSoFarDone(words: seq<string>, jobs: seq<Job>, cfg: Config, st: ScanState, bestI: int)
    requires ValidJobs(jobs)
    requires MaxSoFar(words, jobs, cfg, |words|, 0, st, bestI)
    ensures IsRecommendation(words, jobs, cfg, st.maxScoreIndex)
  {
    if st.maxScoreIndex.Some? {
      assert IsFirstMaximum(words, jobs, cfg, bestI, st.maxScoreIndex.value);
    }
  }

  /** The inner loop of `getJobRecomendation`: the pass of token `i` over every job. */
  method ScoreToken(st0: ScanState, ghost bestI0: int, words: seq<string>, i: nat, jobs: seq<Job>, cfg: Config)
    returns (st: ScanState, ghost bestI: int)
    requires ValidJobs(jobs) && i < |words|
    requires |st0.jobsScore| == if i == 0 then 0 else |jobs|
    requires forall jj :: 0 <= jj < |st0.jobsScore| ==> st0.jobsScore[jj] == SlotSum(words, i, jobs[jj], cfg)
    requires MaxSoFar(words, jobs, cfg, i, 0, st0, bestI0)
    ensures |st.jobsScore| == |jobs|
    ensures forall jj :: 0 <= jj < |jobs| ==> st.jobsScore[jj] == SlotSum(words, i + 1, jobs[jj], cfg)
    ensures MaxSoFar(words, jobs, cfg, i + 1, 0, st, bestI)
  {
    st, bestI := st0, bestI0;
    var j := 0;
    while j < |jobs|
      invariant 0 <= j <= |jobs|
      invariant |st.jobsScore| == if i == 0 then j else |jobs|
      invariant forall jj :: 0 <= jj < j ==> st.jobsScore[jj] == SlotSum(words, i + 1, jobs[jj], cfg)
      invariant forall jj :: j <= jj < |st.jobsScore| ==> st.jobsScore[jj] == SlotSum(words, i, jobs[jj], cfg)
      invariant MaxSoFar(words, jobs, cfg, i, j, st, bestI)
    {
      var prev := st;
      ghost var prevI := bestI;
      st := ScoreStep(st, words, i, j, jobs, cfg);
      if st.maxScore != prev.maxScore {
        bestI := i;
      }
      MaxSoFarStep(words, jobs, cfg, i, j, prev, prevI, st, bestI);
      j := j + 1;
    }
    MaxSoFarNextToken(words, jobs, cfg, i, st, bestI);
  }

  /** `getJobRecomendation`'s nested loop over an already normalised bio: the totals
      it leaves and the job it picks. */
  method ScoreTokens(words: seq<string>, jobs: seq<Job>, cfg: Config)
    returns (jobsScore: seq<real>, maxScoreIndex: Option<nat>)
    requires ValidJobs(jobs)
    ensures ScoresAreTotals(words, jobs, cfg, jobsScore)
    ensures IsRecommendation(words, jobs, cfg, maxScoreIndex)
    ensures maxScoreIndex.Some? ==> maxScoreIndex.value < |jobs| && |words| >= 2
  {
    var st := ScanState([], 0.0, None);
    ghost var bestI: int := 0;
    var i := 0;
    while i < |words|
      invariant 0 <= i <= |words|
      invariant |st.jobsScore| == if i == 0 then 0 else |jobs|
      invariant forall jj :: 0 <= jj < |st.jobsScore| ==> st.jobsScore[jj] == SlotSum(words, i, jobs[jj], cfg)
      invariant MaxSoFar(words, jobs, cfg, i, 0, st, bestI)
    {
      st, bestI := ScoreToken(st, bestI, words, i, jobs, cfg);
      i := i + 1;
    }
    MaxSoFarDone(words, jobs, cfg, st, bestI);
    jobsScore, maxScoreIndex := st.jobsScore, st.maxScoreIndex;
  }

  /** The per-member scorer: a fresh set of totals for the normalised bio,
      and the index of the recommended job or `None` for `null`. */
  method GetJobRecommendation(bio: string, jobs: seq<Job>, cfg: Config)
    returns (jobsScore: seq<real>, maxScoreIndex: Option<nat>)
    requires ValidJobs(jobs)
    ensures ScoresAreTotals(NormalizeBio(bio, cfg.stopWords), jobs, cfg, jobsScore)
    ensures IsRecommendation(NormalizeBio(bio, cfg.stopWords), jobs, cfg, maxScoreIndex)
    ensures maxScoreIndex.Some? ==> maxScoreIndex.value < |jobs|
    ensures |NormalizeBio(bio, cfg.stopWords)| < 2 ==> maxScoreIndex == None
  {
    var bioWords := NormalizeMembersBio(bio, cfg.stopWords);
    jobsScore, maxScoreIndex := ScoreTokens(bioWords, jobs, cfg);
  }
}
