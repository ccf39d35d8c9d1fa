/** The records the recommendation pipeline works on, and the constant
    tables it consults. */
module Domain {

  /** The conventional Some/None datatype, standing for a value or `null`. */
  datatype Option<T> = None | Some(value: T)

  /** A job posting as delivered by the jobs endpoint. */
  datatype Job = Job(title: string, location: string)

  /** A community member as delivered by the members endpoint. */
  datatype Member = Member(name: string, bio: string)

  /** The constant tables of the scorer: how many preceding tokens the
      neighbour classifier looks at, the weight of a title match, the words
      dropped from bios and the two neighbour-context word sets. Their real
      contents live in a module the model does not see, so every operation
      takes them as a parameter. */
  datatype Config = Config(
    k: int,
    jobScoreMultiplier: real,
    stopWords: set<string>,
    positiveNeighbours: set<string>,
    negativeNeighbours: set<string>)

  /** Location credit when a relocation word precedes the location. */
  const PositiveLocationScore: real := 1.5

  /** Location credit when an avoidance word precedes the location. */
  const NegativeLocationScore: real := -1.0

  /** Location credit when no context word precedes the location. */
  const NeutralLocationScore: real := 1.0

  /** A member together with what scoring attached to it: the running
      total per job and the recommended job, if any. */
  datatype ScoredMember = ScoredMember(
    name: string,
    bio: string,
    jobsScore: seq<real>,
    recommendedJob: Option<Job>)
}
