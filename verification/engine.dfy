/** The driver: normalise the catalogue once, score every member against
    it, and attach the recommended original job. */
module Engine {
  import opened Domain
  import opened Normalize
  import opened Scorer

  /** The job a scorer answer designates in the original catalogue. */
  function JobAt(jobs: seq<Job>, best: Option<nat>): Job
    requires best.Some? && best.value < |jobs|
  {
    jobs[best.value]
  }

  /** `recommendedJob` is what the scorer's characterised answer for this bio
      designates in the original, non-normalised catalogue. */
  ghost predicate RecommendsJob(bio: string, jobs: seq<Job>, cfg: Config, recommended: Option<Job>)
    requires ValidJobs(jobs)
  {
    var words := NormalizeBio(bio, cfg.stopWords);
    var normalized := NormalizeJobs(jobs);
    assert ValidJobs(normalized);
    exists best :: IsRecommendation(words, normalized, cfg, best)
      && recommended == if best.None? then None else Some(JobAt(jobs, best))
  }

  /** One member's result: its own name and bio, the totals of its
      normalised bio, and the recommendation that bio designates. */
  ghost predicate IsScoredMember(member: Member, jobs: seq<Job>, cfg: Config, s: ScoredMember)
    requires ValidJobs(jobs)
  {
    && s.name == member.name
    && s.bio == member.bio
    && (assert ValidJobs(NormalizeJobs(jobs));
        ScoresAreTotals(NormalizeBio(member.bio, cfg.stopWords), NormalizeJobs(jobs), cfg, s.jobsScore))
    && RecommendsJob(member.bio, jobs, cfg, s.recommendedJob)
  }

  /** The outcome of processing a whole member list: same length, same
      members, each carrying its own totals and recommendation. */
  ghost predicate IsRecommendationRun(members: seq<Member>, jobs: seq<Job>, cfg: Config, scored: seq<ScoredMember>)
    requires ValidJobs(jobs)
  {
    && |scored| == |members|
    && forall m :: 0 <= m < |scored| ==> IsScoredMember(members[m], jobs, cfg, scored[m])
  }

  /** The loop body of the driver: score one member against the normalised
      catalogue and look the answer up in the original one. */
  method ScoreMember(member: Member, jobs: seq<Job>, normalizedJobs: seq<Job>, cfg: Config)
    returns (s: ScoredMember)
    requires ValidJobs(jobs) && normalizedJobs == NormalizeJobs(jobs)
    ensures s.name == member.name && s.bio == member.bio
    ensures s.recommendedJob.Some? ==> s.recommendedJob.value in jobs
    ensures IsScoredMember(member, jobs, cfg, s)
  {
    assert ValidJobs(normalizedJobs);
    var jobsScore, recommendedJobIndex := GetJobRecommendation(member.bio, normalizedJobs, cfg);
    var recommendedJob := if recommendedJobIndex != None then Some(jobs[recommendedJobIndex.value]) else None;
    assert RecommendsJob(member.bio, jobs, cfg, recommendedJob) by {
      assert IsRecommendation(NormalizeBio(member.bio, cfg.stopWords), normalizedJobs, cfg, recommendedJobIndex);
    }
    s := ScoredMember(member.name, member.bio, jobsScore, recommendedJob);
  }

  /** Scores every member against the normalised catalogue and attaches the
      recommended job, taken from the original catalogue, or `None`. */
  method GetAllJobRecommendations(members: seq<Member>, jobs: seq<Job>, cfg: Config)
    returns (scored: seq<ScoredMember>)
    requires ValidJobs(jobs)
    ensures |scored| == |members|
    ensures forall m :: 0 <= m < |scored| ==> scored[m].name == members[m].name && scored[m].bio == members[m].bio
    ensures forall m :: 0 <= m < |scored| && scored[m].recommendedJob.Some? ==> scored[m].recommendedJob.value in jobs
    ensures IsRecommendationRun(members, jobs, cfg, scored)
  {
    var normalizedJobs := NormalizeJobs(jobs);
    scored := [];
    var i := 0;
    while i < |members|
      invariant 0 <= i <= |members| && |scored| == i
      invariant forall m :: 0 <= m < i ==> IsScoredMember(members[m], jobs, cfg, scored[m])
      invariant forall m :: 0 <= m < i ==> scored[m].name == members[m].name && scored[m].bio == members[m].bio
      invariant forall m :: 0 <= m < i && scored[m].recommendedJob.Some? ==> scored[m].recommendedJob.value in jobs
    {
      var s := ScoreMember(members[i], jobs, normalizedJobs, cfg);
      AppendScored(members, jobs, cfg, scored, s);
      scored := scored + [s];
      i := i + 1;
    }
  }

  /** Appending the result for the next member extends a run over a prefix
      of the member list to a run over one more member. */
  lemma AppendScored(members: seq<Member>, jobs: seq<Job>, cfg: Config, scored: seq<ScoredMember>, s: ScoredMember)
    requires ValidJobs(jobs) && |scored| < |members|
    requires forall m :: 0 <= m < |scored| ==> IsScoredMember(members[m], jobs, cfg, scored[m])
    requires forall m :: 0 <= m < |scored| ==> scored[m].name == members[m].name && scored[m].bio == members[m].bio
    requires forall m :: 0 <= m < |scored| && scored[m].recommendedJob.Some? ==> scored[m].recommendedJob.value in jobs
    requires IsScoredMember(members[|scored|], jobs, cfg, s)
    requires s.name == members[|scored|].name && s.bio == members[|scored|].bio
    requires s.recommendedJob.Some? ==> s.recommendedJob.value in jobs
    ensures var scored' := scored + [s];
      && (forall m :: 0 <= m < |scored'| ==> IsScoredMember(members[m], jobs, cfg, scored'[m]))
      && (forall m :: 0 <= m < |scored'| ==> scored'[m].name == members[m].name && scored'[m].bio == members[m].bio)
      && (forall m :: 0 <= m < |scored'| && scored'[m].recommendedJob.Some? ==> scored'[m].recommendedJob.value in jobs)
  {
    var scored' := scored + [s];
    forall m | 0 <= m < |scored'|
      ensures IsScoredMember(members[m], jobs, cfg, scored'[m])
      ensures scored'[m].name == members[m].name && scored'[m].bio == members[m].bio
      ensures scored'[m].recommendedJob.Some? ==> scored'[m].recommendedJob.value in jobs
    {
      if m < |scored| {
        assert scored'[m] == scored[m];
      } else {
        assert scored'[m] == s;
      }
    }
  }

  /** Each member's recommendation is a function of its own bio and the
      catalogue: any two admissible answers agree. */
  lemma RecommendsJobUnique(bio: string, jobs: seq<Job>, cfg: Config, r1: Option<Job>, r2: Option<Job>)
    requires ValidJobs(jobs)
    requires RecommendsJob(bio, jobs, cfg, r1) && RecommendsJob(bio, jobs, cfg, r2)
    ensures r1 == r2
  {
    var words := NormalizeBio(bio, cfg.stopWords);
    var normalized := NormalizeJobs(jobs);
    assert ValidJobs(normalized);
    var b1 :| IsRecommendation(words, normalized, cfg, b1)
      && r1 == if b1.None? then None else Some(JobAt(jobs, b1));
    var b2 :| IsRecommendation(words, normalized, cfg, b2)
      && r2 == if b2.None? then None else Some(JobAt(jobs, b2));
    RecommendationUnique(words, normalized, cfg, b1, b2);
  }

  /** Running the driver twice on the same members and catalogue yields the
      same recommendations: the totals start afresh for every call. */
  lemma RecommendationsRepeatable(members: seq<Member>, jobs: seq<Job>, cfg: Config,
                                  first: seq<ScoredMember>, second: seq<ScoredMember>)
    requires ValidJobs(jobs)
    requires IsRecommendationRun(members, jobs, cfg, first)
    requires IsRecommendationRun(members, jobs, cfg, second)
    ensures |first| == |second|
    ensures forall m :: 0 <= m < |first| ==> first[m].recommendedJob == second[m].recommendedJob
  {
    forall m | 0 <= m < |first|
      ensures first[m].recommendedJob == second[m].recommendedJob
    {
      RecommendsJobUnique(members[m].bio, jobs, cfg, first[m].recommendedJob, second[m].recommendedJob);
    }
  }

  /** A member's result depends on nothing but its bio: members with equal
      bios get equal recommendations, whatever else the list holds. */
  lemma RecommendationPerMember(members: seq<Member>, jobs: seq<Job>, cfg: Config,
                                scored: seq<ScoredMember>, m1: nat, m2: nat)
    requires ValidJobs(jobs)
    requires IsRecommendationRun(members, jobs, cfg, scored)
    requires m1 < |members| && m2 < |members| && members[m1].bio == members[m2].bio
    ensures scored[m1].recommendedJob == scored[m2].recommendedJob
  {
    RecommendsJobUnique(members[m1].bio, jobs, cfg, scored[m1].recommendedJob, scored[m2].recommendedJob);
  }
}
