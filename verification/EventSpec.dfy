/**
  What a whole run of extractions returns: termination on any bytes, refinement of
  an event-by-event parser, and the meaning of pointer payloads.
 */
module EventSpec {
  import opened Basics
  import opened WirelessTables
  import opened EventStream

  /** One positive return, with the event it belongs to and whether more values of that event follow. */
  datatype Token = Token(at: nat, ret: int, len: u16, cmd: u16, body: Body, more: bool)

  /** The next byte the cursor looks at: the current value if there is one, else the event. */
  function Position(s: StreamState): nat {
    if s.value.Some? then s.value.value else s.current
  }

  /** What holds between calls for a caller that stops at the first non-positive return. */
  predicate Valid(src: Stream, s: StreamState) {
    s.value.Some? ==>
      && HasHeader(src, s.current)
      && LCP < LenAt(src, s.current)
      && KindAt(src, s.current).Fixed()
      && s.current + LCP < s.value.value
      && s.value.value + KindAt(src, s.current).Size() <= s.current + LenAt(src, s.current)
  }

  /** Every positive return leaves the cursor valid and at least four bytes further, from a place at most end-4. */
  lemma StepProgress(src: Stream, s: StreamState)
    requires Valid(src, s)
    requires Step(src, s).ret > 0
    ensures Valid(src, Step(src, s).next)
    ensures Position(s) + 4 <= Position(Step(src, s).next)
    ensures Position(s) + 4 <= End(src)
  {
  }

  /** The other returns leave the cursor alone, but for a cut event, which is skipped while its value stays. */
  lemma StopMoves(src: Stream, s: StreamState)
    requires Step(src, s).ret <= 0
    ensures var o := Step(src, s);
      && o.body.Untouched? && o.ret in {0, -1, -2}
      && (o.ret == 0 <==> End(src) < s.current + 4)
      && (o.ret == -1 <==> s.current + 4 <= End(src) && U16(src.mem, s.current) <= 4)
      && o.next ==
        if o.ret == -2 then StreamState(s.current + U16(src.mem, s.current), s.value) else s
  {
  }

  function TokenAt(src: Stream, s: StreamState): Token
    requires Step(src, s).ret > 0
  {
    var o := Step(src, s);
    Token(s.current, o.ret, LenAt(src, s.current), CmdAt(src, s.current), o.body, o.next.value.Some?)
  }

  /** The tokens a caller sees from a valid cursor until the first non-positive return. */
  function Run(src: Stream, s: StreamState): seq<Token>
    decreases End(src) - Position(s)
  {
    if !Valid(src, s) || Step(src, s).ret <= 0 then [] else
    StepProgress(src, s);
    [TokenAt(src, s)] + Run(src, Step(src, s).next)
  }

  lemma {:induction false} RunCons(src: Stream, s: StreamState, t: Token, next: StreamState)
    requires Valid(src, s) && Step(src, s).ret > 0 && TokenAt(src, s) == t && Step(src, s).next == next
    ensures Run(src, s) == [t] + Run(src, next)
  {
    StepProgress(src, s);
  }

  lemma {:induction false} RunBound(src: Stream, s: StreamState)
    requires Valid(src, s)
    ensures 4 * |Run(src, s)| <= if Position(s) <= End(src) then End(src) - Position(s) else 0
    decreases End(src) - Position(s)
  {
    if Step(src, s).ret > 0 {
      StepProgress(src, s);
      RunBound(src, Step(src, s).next);
    }
  }

  /** Any stream of N bytes yields at most N div 4 tokens. */
  lemma {:induction false} TokenBound(src: Stream)
    ensures |Run(src, START)| <= End(src) / 4
  {
    RunBound(src, START);
  }

  // ---- the event-by-event parser

  /** Where value number k of the event at cur starts. */
  function ValueStart(src: Stream, cur: nat, k: nat): nat
    requires HasHeader(src, cur) && LCP < LenAt(src, cur) && KindAt(src, cur).Fixed()
  {
    cur + FirstOffset(KindAt(src, cur), LenAt(src, cur)) + KindAt(src, cur).Times(k)
  }

  /** Value number k of the event at cur, as bytes of the stream. */
  function ValueToken(src: Stream, cur: nat, k: nat): Token
    requires HasHeader(src, cur) && LCP < LenAt(src, cur) && KindAt(src, cur).Fixed()
    requires ValueStart(src, cur, k) + KindAt(src, cur).Size() <= |src.mem|
  {
    var h, len, from := KindAt(src, cur), LenAt(src, cur), ValueStart(src, cur, k);
    Token(cur, 1, len, CmdAt(src, cur), Value(src.mem[from..from + h.Size()]), k + 1 < ValueCount(h, len))
  }

  /** How many values of the event at cur are returned before the stream end cuts it. */
  function Returned(src: Stream, cur: nat): (m: nat)
    requires HasHeader(src, cur) && LCP < LenAt(src, cur) && KindAt(src, cur).Fixed()
    ensures m <= ValueCount(KindAt(src, cur), LenAt(src, cur))
  {
    var h, len := KindAt(src, cur), LenAt(src, cur);
    var whole := h.Div(End(src) - cur - FirstOffset(h, len));
    if End(src) < cur + LCP + h.Size() then 0
    else if ValueCount(h, len) <= whole then ValueCount(h, len)
    else if whole < 1 then 1 else whole
  }

  lemma ReturnedFits(src: Stream, cur: nat, k: nat)
    requires HasHeader(src, cur) && LCP < LenAt(src, cur) && KindAt(src, cur).Fixed()
    requires k < Returned(src, cur)
    ensures ValueStart(src, cur, k) + KindAt(src, cur).Size() <= |src.mem|
    ensures 1 <= k ==> ValueStart(src, cur, k) + KindAt(src, cur).Size() <= End(src)
  {
  }

  /** The tokens of the event at cur. */
  function EventTokens(src: Stream, cur: nat): seq<Token>
    requires HasHeader(src, cur) && LCP < LenAt(src, cur)
  {
    var h, len := KindAt(src, cur), LenAt(src, cur);
    if h.Null? then [Token(cur, 2, len, CmdAt(src, cur), Untouched, false)]
    else if h.Point? then
      if End(src) < cur + 8 then [] else
      [Token(cur, 1, len, CmdAt(src, cur), DecodePoint(src, cur + 4, len, src.descr(CmdAt(src, cur)).value), false)]
    else
      seq(Returned(src, cur), k requires 0 <= k < Returned(src, cur) =>
        ReturnedFits(src, cur, k); ValueToken(src, cur, k))
  }

  /** The event at cur is delivered whole. */
  predicate Whole(src: Stream, cur: nat)
    requires HasHeader(src, cur) && LCP < LenAt(src, cur)
  {
    var h := KindAt(src, cur);
    if h.Null? then true
    else if h.Point? then cur + 8 <= End(src)
    else Returned(src, cur) == ValueCount(h, LenAt(src, cur))
  }

  /** The reference parser: event after event, each stepping by exactly its length. */
  function Parse(src: Stream, cur: nat): seq<Token>
    decreases End(src) - cur
  {
    if !HasHeader(src, cur) || LenAt(src, cur) <= LCP then []
    else if Whole(src, cur) then EventTokens(src, cur) + Parse(src, cur + LenAt(src, cur))
    else EventTokens(src, cur)
  }

  /** The cursor on value number k of the event at cur. */
  function OnValue(src: Stream, cur: nat, k: nat): StreamState
    requires HasHeader(src, cur) && LCP < LenAt(src, cur) && KindAt(src, cur).Fixed()
  {
    StreamState(cur, Some(ValueStart(src, cur, k)))
  }

  /** The cursor after k values of the event at cur. */
  function After(src: Stream, cur: nat, k: nat): StreamState
    requires HasHeader(src, cur) && LCP < LenAt(src, cur) && KindAt(src, cur).Fixed()
  {
    if k < ValueCount(KindAt(src, cur), LenAt(src, cur)) then OnValue(src, cur, k)
    else StreamState(cur + LenAt(src, cur), None)
  }

  /** What the caller sees after the event at cur. */
  function Rest(src: Stream, cur: nat): seq<Token>
    requires HasHeader(src, cur) && LCP < LenAt(src, cur)
  {
    if Whole(src, cur) then Run(src, StreamState(cur + LenAt(src, cur), None)) else []
  }

  /** The first extraction of an event of values. */
  lemma FirstValue(src: Stream, cur: nat)
    requires HasHeader(src, cur) && LCP < LenAt(src, cur) && KindAt(src, cur).Fixed()
    ensures var s := StreamState(cur, None);
      if Returned(src, cur) == 0 then Step(src, s).ret <= 0
      else
        && Step(src, s).ret == 1 && TokenAt(src, s) == EventTokens(src, cur)[0]
        && Step(src, s).next == After(src, cur, 1)
  {
    var h, len := KindAt(src, cur), LenAt(src, cur);
  }

  /** The extraction of a later value. */
  lemma NextValue(src: Stream, cur: nat, k: nat)
    requires HasHeader(src, cur) && LCP < LenAt(src, cur) && KindAt(src, cur).Fixed()
    requires 1 <= k < ValueCount(KindAt(src, cur), LenAt(src, cur)) && k <= Returned(src, cur)
    ensures var s := OnValue(src, cur, k);
      && Valid(src, s)
      && if k == Returned(src, cur) then Step(src, s).ret <= 0
         else
           && Step(src, s).ret == 1 && TokenAt(src, s) == EventTokens(src, cur)[k]
           && Step(src, s).next == After(src, cur, k + 1)
  {
    var h, len := KindAt(src, cur), LenAt(src, cur);
    var off := FirstOffset(h, len);
  }

  /** Inside an event, the remaining values are returned in order, and then the cursor is after the event. */
  lemma {:induction false} RunValues(src: Stream, cur: nat, k: nat)
    requires HasHeader(src, cur) && LCP < LenAt(src, cur) && KindAt(src, cur).Fixed()
    requires 1 <= k <= Returned(src, cur)
    ensures Run(src, After(src, cur, k)) == EventTokens(src, cur)[k..] + Rest(src, cur)
    decreases Returned(src, cur) - k
  {
    hide Run, EventTokens, After, Rest, Returned;
    if k < Returned(src, cur) {
      var tokens, rest := EventTokens(src, cur), Rest(src, cur);
      TokenCount(src, cur);
      var next := Run(src, After(src, cur, k + 1));
      assert Run(src, After(src, cur, k)) == [tokens[k]] + next by {
        RunOneValue(src, cur, k);
      }
      assert next == tokens[k + 1..] + rest by {
        RunValues(src, cur, k + 1);
      }
      ConsDrop(tokens, k, rest);
    } else {
      LastReturned(src, cur);
    }
  }

  lemma TokenCount(src: Stream, cur: nat)
    requires HasHeader(src, cur) && LCP < LenAt(src, cur) && KindAt(src, cur).Fixed()
    ensures |EventTokens(src, cur)| == Returned(src, cur)
  {
  }

  lemma {:induction false} RunOneValue(src: Stream, cur: nat, k: nat)
    requires HasHeader(src, cur) && LCP < LenAt(src, cur) && KindAt(src, cur).Fixed()
    requires 1 <= k < Returned(src, cur)
    ensures Run(src, After(src, cur, k)) == [EventTokens(src, cur)[k]] + Run(src, After(src, cur, k + 1))
  {
    NextValue(src, cur, k);
    RunCons(src, OnValue(src, cur, k), EventTokens(src, cur)[k], After(src, cur, k + 1));
  }

  lemma {:induction false} LastReturned(src: Stream, cur: nat)
    requires HasHeader(src, cur) && LCP < LenAt(src, cur) && KindAt(src, cur).Fixed()
    requires 1 <= Returned(src, cur)
    ensures Run(src, After(src, cur, Returned(src, cur))) ==
        EventTokens(src, cur)[Returned(src, cur)..] + Rest(src, cur)
  {
    assert EventTokens(src, cur)[Returned(src, cur)..] == [];
    if Returned(src, cur) < ValueCount(KindAt(src, cur), LenAt(src, cur)) {
      NextValue(src, cur, Returned(src, cur));
    }
  }

  /** On any bytes, repeated extraction refines the event-by-event parser. */
  lemma {:induction false} RunRefinesParse(src: Stream, cur: nat)
    ensures Run(src, StreamState(cur, None)) == Parse(src, cur)
    decreases End(src) - cur
  {
    hide Step, EventTokens;
    if HasHeader(src, cur) && LCP < LenAt(src, cur) && Whole(src, cur) {
      RunRefinesParse(src, cur + LenAt(src, cur));
      RefineWhole(src, cur);
    } else {
      RefineLast(src, cur);
    }
  }

  lemma RefineWhole(src: Stream, cur: nat)
    requires HasHeader(src, cur) && LCP < LenAt(src, cur) && Whole(src, cur)
    requires var next := cur + LenAt(src, cur); Run(src, StreamState(next, None)) == Parse(src, next)
    ensures Run(src, StreamState(cur, None)) == Parse(src, cur)
  {
    hide Run, Step, Valid, EventTokens, Whole, LenAt, KindAt;
    RunEvent(src, cur);
  }

  lemma {:induction false} RefineLast(src: Stream, cur: nat)
    requires !(HasHeader(src, cur) && LCP < LenAt(src, cur) && Whole(src, cur))
    ensures Run(src, StreamState(cur, None)) == Parse(src, cur)
  {
    if HasHeader(src, cur) && LCP < LenAt(src, cur) {
      RunEvent(src, cur);
    }
  }

  /** An event without values in the stream gives at most one token. */
  lemma {:induction false} RunSingle(src: Stream, cur: nat)
    requires HasHeader(src, cur) && LCP < LenAt(src, cur) && !KindAt(src, cur).Fixed()
    ensures Run(src, StreamState(cur, None)) == EventTokens(src, cur) + Rest(src, cur)
  {
    var s, tokens := StreamState(cur, None), EventTokens(src, cur);
    SingleToken(src, cur);
    hide Step, EventTokens, Whole, LenAt, KindAt;
    if Whole(src, cur) {
      var next := StreamState(cur + LenAt(src, cur), None);
      assert Run(src, s) == tokens + Run(src, next) by {
        RunCons(src, s, tokens[0], next);
      }
    }
  }

  lemma SingleToken(src: Stream, cur: nat)
    requires HasHeader(src, cur) && LCP < LenAt(src, cur) && !KindAt(src, cur).Fixed()
    ensures var s := StreamState(cur, None);
      && Valid(src, s)
      && if Whole(src, cur) then
           && Step(src, s).ret > 0 && EventTokens(src, cur) == [TokenAt(src, s)]
           && Step(src, s).next == StreamState(cur + LenAt(src, cur), None)
         else Step(src, s).ret <= 0 && EventTokens(src, cur) == []
  {
    hide DecodePoint, U16;
  }

  lemma {:induction false} RunEvent(src: Stream, cur: nat)
    requires HasHeader(src, cur) && LCP < LenAt(src, cur)
    ensures Run(src, StreamState(cur, None)) == EventTokens(src, cur) + Rest(src, cur)
  {
    if KindAt(src, cur).Fixed() {
      FirstValue(src, cur);
      if Returned(src, cur) != 0 {
        var tokens := EventTokens(src, cur);
        RunValues(src, cur, 1);
        RunCons(src, StreamState(cur, None), tokens[0], After(src, cur, 1));
        ConsDrop(tokens, 0, Rest(src, cur));
      }
    } else {
      RunSingle(src, cur);
    }
  }

  lemma ConsDrop<T>(s: seq<T>, k: nat, rest: seq<T>)
    requires k < |s|
    ensures [s[k]] + (s[k + 1..] + rest) == s[k..] + rest
  {
  }
}
