/**
 * The bookkeeping of one template matcher: it keeps the best-scoring
 * placement seen so far and replaces it only on a strictly better score.
 * The score itself comes from OpenCV's template matching, which is not part
 * of this model; only its order matters here.
 */
module Matching {

  /** A placement as `cv2.minMaxLoc` reports it: (x, y). */
  type Location = (int, int)

  /**
   * What a matcher remembers: the best score so far, the rotation angle and
   * location where it was found, and 1 if the template was mirrored, else 0.
   */
  datatype Hypothesis = Hypothesis(value: real, angle: real, loc: Location, flipped: int)

  /** One scored placement offered to the matcher. */
  datatype Candidate = Candidate(value: real, angle: real, loc: Location, flipped: bool)

  /** A fresh matcher: score 0, angle 0, location (0, 0), not mirrored. */
  const Initial := Hypothesis(0.0, 0.0, (0, 0), 0)

  /** The hypothesis a candidate becomes when it is recorded. */
  function Record(c: Candidate): Hypothesis {
    Hypothesis(c.value, c.angle, c.loc, if c.flipped then 1 else 0)
  }

  /**
   * `check_match_and_update` on the remembered state: the score never goes
   * down, and a candidate that does not beat it changes nothing.
   */
  function Update(h: Hypothesis, c: Candidate): (h': Hypothesis)
    ensures h'.value >= h.value
    ensures c.value <= h.value ==> h' == h
    ensures c.value > h.value ==> h' == Record(c)
    ensures h' == h || h' == Record(c)
  {
    if c.value > h.value then Record(c) else h
  }

  /** The state after offering the candidates one after another, starting from h. */
  function Scan(h: Hypothesis, cs: seq<Candidate>): Hypothesis {
    if cs == [] then h else Update(Scan(h, cs[..|cs| - 1]), cs[|cs| - 1])
  }

  /**
   * After a run of candidates the matcher holds either its starting state,
   * when no candidate beat the starting score, or the earliest candidate of
   * the highest score, which beats the starting score. Its score never goes
   * down.
   */
  lemma {:induction false} ScanSpec(h: Hypothesis, cs: seq<Candidate>)
    ensures Scan(h, cs).value >= h.value
    ensures forall k :: 0 <= k < |cs| ==> cs[k].value <= Scan(h, cs).value
    ensures || (Scan(h, cs) == h && forall k :: 0 <= k < |cs| ==> cs[k].value <= h.value)
            || exists w {:trigger cs[w]} :: 0 <= w < |cs| && Scan(h, cs) == Record(cs[w]) && cs[w].value > h.value &&
                 forall k :: 0 <= k < w ==> cs[k].value < cs[w].value
  {
    if cs != [] {
      var init, last := cs[..|cs| - 1], cs[|cs| - 1];
      ScanSpec(h, init);
      var prev := Scan(h, init);
      assert forall k :: 0 <= k < |init| ==> cs[k] == init[k];
      if last.value > prev.value {
        assert Scan(h, cs) == Record(last);
        assert cs[|cs| - 1] == last;
      } else if prev != h {
        var w :| 0 <= w < |init| && prev == Record(init[w]) && init[w].value > h.value &&
                 forall k :: 0 <= k < w ==> init[k].value < init[w].value;
        assert cs[w] == init[w];
      }
    }
  }

  /** Starting fresh, a candidate whose score is not positive is never recorded. */
  lemma ScanFromInitial(cs: seq<Candidate>)
    ensures Scan(Initial, cs) == Initial ||
            exists w {:trigger cs[w]} :: 0 <= w < |cs| && Scan(Initial, cs) == Record(cs[w]) && cs[w].value > 0.0
  {
    ScanSpec(Initial, cs);
  }

  /** `Matcher`: one matching method and the best placement it has seen. */
  class Matcher {
    /** The OpenCV matching method's identifier. */
    var matchMethod: int
    var value: real
    var angle: real
    var loc: Location
    var flipped: int

    function State(): Hypothesis
      reads this
    {
      Hypothesis(value, angle, loc, flipped)
    }

    constructor (matchMethod: int)
      ensures this.matchMethod == matchMethod && State() == Initial
    {
      this.matchMethod := matchMethod;
      value, angle, loc, flipped := 0.0, 0.0, (0, 0), 0;
    }

    /**
     * `check_match_and_update`: on a strictly higher score take the
     * candidate's score, angle and location, and set `flipped` to 1 or 0
     * from the candidate's flag; otherwise leave every field as it was.
     */
    method CheckMatchAndUpdate(value: real, angle: real, location: Location, flipped: bool)
      modifies this
      ensures State() == Update(old(State()), Candidate(value, angle, location, flipped))
      ensures matchMethod == old(matchMethod)
    {
      if value > this.value {
        this.value, this.angle, this.loc := value, angle, location;
        if flipped {
          this.flipped := 1;
        } else {
          this.flipped := 0;
        }
      }
    }
  }
}
