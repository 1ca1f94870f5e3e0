/** How a run of extractions ends. */
module EventEnd {
  import opened Basics
  import opened WirelessTables
  import opened EventStream
  import opened EventSpec

  /** The first non-positive return from a valid cursor. */
  function RunEnd(src: Stream, s: StreamState): int
    requires Valid(src, s)
    decreases End(src) - Position(s)
  {
    if Step(src, s).ret <= 0 then Step(src, s).ret else
    StepProgress(src, s);
    RunEnd(src, Step(src, s).next)
  }

  /**
    How the event-by-event parser ends: at the end of the stream, at an event too short
    for its own header, or at an event that the end of the stream cuts.
   */
  function ParseEnd(src: Stream, cur: nat): int
    decreases End(src) - cur
  {
    if !HasHeader(src, cur) then 0
    else if LenAt(src, cur) <= LCP then -1
    else if !Whole(src, cur) then -2
    else ParseEnd(src, cur + LenAt(src, cur))
  }

  /** The end of the stream cuts a value. */
  lemma ValueCut(src: Stream, cur: nat, k: nat)
    requires HasHeader(src, cur) && LCP < LenAt(src, cur) && KindAt(src, cur).Fixed()
    requires k == Returned(src, cur) < ValueCount(KindAt(src, cur), LenAt(src, cur))
    ensures var s := if k == 0 then StreamState(cur, None) else OnValue(src, cur, k);
      Valid(src, s) && Step(src, s).ret == -2
  {
    if k > 0 {
      NextValue(src, cur, k);
    }
  }

  /** The end of a run that is k values into the event at cur. */
  lemma {:induction false} ValuesEnd(src: Stream, cur: nat, k: nat)
    requires HasHeader(src, cur) && LCP < LenAt(src, cur) && KindAt(src, cur).Fixed()
    requires 1 <= k <= Returned(src, cur)
    ensures Valid(src, After(src, cur, k))
    ensures RunEnd(src, After(src, cur, k)) ==
      if Whole(src, cur) then RunEnd(src, StreamState(cur + LenAt(src, cur), None)) else -2
    decreases Returned(src, cur) - k
  {
    hide Step, Returned, FirstOffset, ValueCount, EventTokens;
    var count := ValueCount(KindAt(src, cur), LenAt(src, cur));
    if k == Returned(src, cur) {
      if k < count {
        ValueCut(src, cur, k);
      }
    } else {
      NextValue(src, cur, k);
      ValuesEnd(src, cur, k + 1);
    }
  }

  /** The end of a run from the event at cur. */
  lemma {:induction false} EventEnds(src: Stream, cur: nat)
    requires HasHeader(src, cur) && LCP < LenAt(src, cur)
    ensures RunEnd(src, StreamState(cur, None)) ==
      if Whole(src, cur) then RunEnd(src, StreamState(cur + LenAt(src, cur), None)) else -2
  {
    if KindAt(src, cur).Fixed() {
      FirstValue(src, cur);
      if Returned(src, cur) == 0 {
        ValueCut(src, cur, 0);
      } else {
        ValuesEnd(src, cur, 1);
      }
    } else {
      SingleToken(src, cur);
    }
  }

  /** On any bytes, repeated extraction ends as the parser does. */
  lemma {:induction false} RunEndRefinesParse(src: Stream, cur: nat)
    ensures RunEnd(src, StreamState(cur, None)) == ParseEnd(src, cur)
    decreases End(src) - cur
  {
    hide RunEnd, ParseEnd, Whole, LenAt, Step, Valid;
    if HasHeader(src, cur) && LCP < LenAt(src, cur) && Whole(src, cur) {
      var next := cur + LenAt(src, cur);
      WholeEnd(src, cur);
      EventEnds(src, cur);
      RunEndRefinesParse(src, next);
    } else {
      LastEnd(src, cur);
    }
  }

  lemma {:induction false} WholeEnd(src: Stream, cur: nat)
    requires HasHeader(src, cur) && LCP < LenAt(src, cur) && Whole(src, cur)
    ensures ParseEnd(src, cur) == ParseEnd(src, cur + LenAt(src, cur))
  {
    hide Whole;
  }

  lemma {:induction false} LastEnd(src: Stream, cur: nat)
    requires !(HasHeader(src, cur) && LCP < LenAt(src, cur) && Whole(src, cur))
    ensures RunEnd(src, StreamState(cur, None)) == ParseEnd(src, cur)
  {
    hide Whole;
    if HasHeader(src, cur) && LCP < LenAt(src, cur) {
      EventEnds(src, cur);
    }
  }
}
