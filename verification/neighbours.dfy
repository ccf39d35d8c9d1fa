/** The neighbour-context classifier: the sentiment of the words just before
    a location mention decides how much that mention is worth. */
module Neighbours {
  import opened Domain

  /** The token at `idx`, or `None` where `checkKNeighbours` reads `undefined`
      (an index past either end of the sequence). */
  function TokenAt(words: seq<string>, idx: int): Option<string>
  {
    if 0 <= idx < |words| then Some(words[idx]) else None
  }

  /** Whether the token at `idx` exists and belongs to `s`; `undefined` is
      in no set of strings. */
  predicate InSetAt(words: seq<string>, idx: int, s: set<string>)
  {
    TokenAt(words, idx).Some? && TokenAt(words, idx).value in s
  }

  predicate IsNegativeAt(words: seq<string>, idx: int, cfg: Config)
  {
    InSetAt(words, idx, cfg.negativeNeighbours)
  }

  predicate IsPositiveAt(words: seq<string>, idx: int, cfg: Config)
  {
    InSetAt(words, idx, cfg.positiveNeighbours)
  }

  /** A token that makes the classifier stop. */
  predicate IsContextAt(words: seq<string>, idx: int, cfg: Config)
  {
    IsNegativeAt(words, idx, cfg) || IsPositiveAt(words, idx, cfg)
  }

  predicate IsLocationScore(r: real)
  {
    r == NegativeLocationScore || r == PositiveLocationScore || r == NeutralLocationScore
  }

  /** The classifier loop from offset `i` on: look at the token `i`
      positions before `pos`, negative words first, and move one further
      back while no context word has been found and `i` has not passed `k`. */
  function ScanFrom(words: seq<string>, pos: int, k: int, i: int, cfg: Config): (r: real)
    ensures IsLocationScore(r)
    ensures pos < i || k < i ==> r == NeutralLocationScore
    decreases k - i
  {
    if i > k then NeutralLocationScore
    else if pos - i >= 0 && IsNegativeAt(words, pos - i, cfg) then NegativeLocationScore
    else if pos - i >= 0 && IsPositiveAt(words, pos - i, cfg) then PositiveLocationScore
    else ScanFrom(words, pos, k, i + 1, cfg)
  }

  /** Classifies the context of the token at `pos` by the up to `k` tokens
      before it, nearest first. */
  function CheckKNeighbours(words: seq<string>, pos: int, k: int, cfg: Config): (r: real)
    ensures IsLocationScore(r)
    ensures pos <= 0 || k <= 0 ==> r == NeutralLocationScore
  {
    ScanFrom(words, pos, k, 1, cfg)
  }

  /** The first index of the window the classifier reads. */
  function WindowStart(pos: int, k: int): int
  {
    if pos - k < 0 then 0 else pos - k
  }

  /** `j` is the context word nearest to the end `hi` of the window `lo..hi`. */
  ghost predicate IsNearestContext(words: seq<string>, lo: int, hi: int, j: int, cfg: Config)
  {
    lo <= j <= hi && IsContextAt(words, j, cfg)
    && forall j' :: j < j' <= hi ==> !IsContextAt(words, j', cfg)
  }

  /** What the scan from offset `i` returns, in terms of the window it has
      left to read. */
  lemma {:induction false} ScanFromNearest(words: seq<string>, pos: int, k: int, i: int, cfg: Config)
    requires 1 <= i
    ensures var r := ScanFrom(words, pos, k, i, cfg);
            var lo, hi := WindowStart(pos, k), pos - i;
            && (r == NegativeLocationScore <==>
                  exists j :: IsNearestContext(words, lo, hi, j, cfg) && IsNegativeAt(words, j, cfg))
            && (r == PositiveLocationScore <==>
                  exists j :: IsNearestContext(words, lo, hi, j, cfg) && !IsNegativeAt(words, j, cfg))
            && (r == NeutralLocationScore <==>
                  forall j :: lo <= j <= hi ==> !IsContextAt(words, j, cfg))
    decreases k - i
  {
    var lo, hi := WindowStart(pos, k), pos - i;
    if i > k {
      assert hi < lo;
    } else if pos - i >= 0 && IsContextAt(words, hi, cfg) {
      assert IsNearestContext(words, lo, hi, hi, cfg);
      forall j | IsNearestContext(words, lo, hi, j, cfg)
        ensures j == hi
      {
      }
    } else {
      ScanFromNearest(words, pos, k, i + 1, cfg);
      assert !IsContextAt(words, hi, cfg);
      forall j | IsNearestContext(words, lo, hi, j, cfg)
        ensures IsNearestContext(words, lo, hi - 1, j, cfg)
      {
      }
      forall j | IsNearestContext(words, lo, hi - 1, j, cfg)
        ensures IsNearestContext(words, lo, hi, j, cfg)
      {
      }
    }
  }

  /** The classifier returns the score of the context word nearest before
      `pos` within `k` tokens (negative when that word is in both sets), and
      the neutral score when the window holds none. */
  lemma CheckKNeighboursNearest(words: seq<string>, pos: int, k: int, cfg: Config)
    ensures var r := CheckKNeighbours(words, pos, k, cfg);
            var lo := WindowStart(pos, k);
            && (r == NegativeLocationScore <==>
                  exists j :: IsNearestContext(words, lo, pos - 1, j, cfg) && IsNegativeAt(words, j, cfg))
            && (r == PositiveLocationScore <==>
                  exists j :: IsNearestContext(words, lo, pos - 1, j, cfg) && !IsNegativeAt(words, j, cfg))
            && (r == NeutralLocationScore <==>
                  forall j :: lo <= j < pos ==> !IsContextAt(words, j, cfg))
  {
    ScanFromNearest(words, pos, k, 1, cfg);
  }

  /** The classifier reads no token outside the window `max(0, pos-k) .. pos-1`:
      two bios that agree there are classified alike. */
  lemma {:induction false} ScanFromFrame(a: seq<string>, b: seq<string>, pos: int, k: int, i: int, cfg: Config)
    requires forall j :: WindowStart(pos, k) <= j <= pos - i ==> TokenAt(a, j) == TokenAt(b, j)
    ensures ScanFrom(a, pos, k, i, cfg) == ScanFrom(b, pos, k, i, cfg)
    decreases k - i
  {
    if i <= k {
      if pos - i >= 0 {
        assert TokenAt(a, pos - i) == TokenAt(b, pos - i);
      }
      ScanFromFrame(a, b, pos, k, i + 1, cfg);
    }
  }

  lemma CheckKNeighboursFrame(a: seq<string>, b: seq<string>, pos: int, k: int, cfg: Config)
    requires forall j :: WindowStart(pos, k) <= j < pos ==> TokenAt(a, j) == TokenAt(b, j)
    ensures CheckKNeighbours(a, pos, k, cfg) == CheckKNeighbours(b, pos, k, cfg)
  {
    ScanFromFrame(a, b, pos, k, 1, cfg);
  }

  /** The three `checkKNeighbours` cases of the test suite, for any word tables that place
      the context words as those tests expect. */
  lemma CheckKNeighboursExamples(cfg: Config)
    requires "relocate" in cfg.positiveNeighbours && "relocate" !in cfg.negativeNeighbours
    requires "outside" in cfg.negativeNeighbours
    requires "living" !in cfg.positiveNeighbours && "living" !in cfg.negativeNeighbours
    ensures CheckKNeighbours(["relocate", "london"], 1, 2, cfg) == PositiveLocationScore
    ensures CheckKNeighbours(["outside", "london"], 1, 2, cfg) == NegativeLocationScore
    ensures CheckKNeighbours(["living", "in", "london"], 1, 2, cfg) == NeutralLocationScore
  {
    assert TokenAt(["relocate", "london"], 0) == Some("relocate");
    assert TokenAt(["outside", "london"], 0) == Some("outside");
    assert TokenAt(["living", "in", "london"], 0) == Some("living");
  }
}
