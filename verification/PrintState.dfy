/** The state with which the scan printer lays out lists of bit rates over several tokens. */
module PrintState {
  import opened Basics
  import opened WirelessTables
  import opened EventStream
  import opened EventSpec

  /** What is printed before a bit rate: the title, a line break, or a separator. */
  datatype Lead = Nothing | Title | Wrap | Semicolon

  function LeadFor(valIndex: nat): Lead {
    if valIndex == 0 then Title else if valIndex % 5 == 0 then Wrap else Semicolon
  }

  function NextIndex(valIndex: nat, cmd: u16, more: bool): nat {
    if cmd != SIOCGIWRATE then valIndex else if more then valIndex + 1 else 0
  }

  /** The value index when token number i is handled. */
  function IndexBefore(tokens: seq<Token>, i: nat): nat
    requires i <= |tokens|
  {
    if i == 0 then 0 else NextIndex(IndexBefore(tokens, i - 1), tokens[i - 1].cmd, tokens[i - 1].more)
  }

  function LeadOf(tokens: seq<Token>, i: nat): Lead
    requires i < |tokens|
  {
    if tokens[i].cmd == SIOCGIWRATE then LeadFor(IndexBefore(tokens, i)) else Nothing
  }

  /** How many lines the first n rates of an event begin. */
  function LinesBegun(n: nat): nat {
    if n == 0 then 0 else LinesBegun(n - 1) + if LeadFor(n - 1) in {Title, Wrap} then 1 else 0
  }

  /** The title comes first and only once, every rate has a lead, and a line holds five rates. */
  lemma {:induction false} LinesOfFive(n: nat)
    ensures LinesBegun(n) == (n + 4) / 5
    ensures LeadFor(n) != Nothing && (LeadFor(n) == Title <==> n == 0)
  {
    if n == 0 {
    } else {
      LinesOfFive(n - 1);
    }
  }

  class ScanState {
    var apNum: nat
    var valIndex: nat

    constructor ()
      ensures apNum == 1 && valIndex == 0
    {
      apNum, valIndex := 1, 0;
    }

    /** The part of print_scanning_token that carries state. */
    method PrintToken(stream: StreamDescr, event: WirelessEvent) returns (lead: Lead)
      modifies this
      ensures valIndex == NextIndex(old(valIndex), event.cmd, stream.value.Some?)
      ensures event.cmd != SIOCGIWRATE ==> valIndex == old(valIndex)
      ensures lead == if event.cmd == SIOCGIWRATE then LeadFor(old(valIndex)) else Nothing
      ensures apNum == old(apNum) + if event.cmd == SIOCGIWAP then 1 else 0
    {
      lead := Nothing;
      if event.cmd == SIOCGIWAP {
        apNum := apNum + 1;
      } else if event.cmd == SIOCGIWRATE {
        if valIndex == 0 {
          lead := Title;
        } else if valIndex % 5 == 0 {
          lead := Wrap;
        } else {
          lead := Semicolon;
        }
        if stream.value == None {
          valIndex := 0;
        } else {
          valIndex := valIndex + 1;
        }
      }
    }

    /** The token loop of print_scanning_info, with what it prints before each token. */
    method PrintScan(src: Stream) returns (leads: seq<Lead>)
      requires valIndex == 0
      modifies this
      ensures |leads| == |Run(src, START)|
      ensures forall i :: 0 <= i < |leads| ==> leads[i] == LeadOf(Run(src, START), i)
      ensures valIndex == IndexBefore(Run(src, START), |leads|)
    {
      hide Step, Run;
      var stream := new StreamDescr.Init(src);
      var iwe := new WirelessEvent();
      ghost var tokens := Run(src, START);
      leads := [];
      var ret := 1;
      while ret > 0
        invariant stream.src == src && fresh(stream) && fresh(iwe)
        invariant |leads| <= |tokens|
        invariant ret > 0 ==> Valid(src, stream.State())
        invariant if ret > 0 then tokens[|leads|..] == Run(src, stream.State()) else |leads| == |tokens|
        invariant forall i :: 0 <= i < |leads| ==> leads[i] == LeadOf(tokens, i)
        invariant valIndex == IndexBefore(tokens, |leads|)
        decreases |tokens| - |leads|, ret > 0
      {
        ghost var s := stream.State();
        ret := stream.Extract(iwe);
        if ret > 0 {
          NextToken(src, s, tokens, |leads|);
          var lead := PrintToken(stream, iwe);
          leads := leads + [lead];
        } else {
          RunEnds(src, s);
        }
      }
    }
  }

  /** A positive return is the next token of the run. */
  lemma {:induction false} NextToken(src: Stream, s: StreamState, tokens: seq<Token>, n: nat)
    requires Valid(src, s) && n <= |tokens| && tokens[n..] == Run(src, s) && Step(src, s).ret > 0
    ensures n < |tokens| && tokens[n] == TokenAt(src, s)
    ensures tokens[n + 1..] == Run(src, Step(src, s).next) && Valid(src, Step(src, s).next)
  {
    StepProgress(src, s);
    assert tokens[n] == tokens[n..][0];
    assert tokens[n + 1..] == tokens[n..][1..];
  }

  lemma {:induction false} RunEnds(src: Stream, s: StreamState)
    requires Step(src, s).ret <= 0
    ensures Run(src, s) == []
  {
  }

  // ---- the index follows the decoder

  /** For each token of the parser, its place among the tokens of its event. */
  ghost function Places(src: Stream, cur: nat): (r: seq<nat>)
    decreases End(src) - cur
  {
    if !HasHeader(src, cur) || LenAt(src, cur) <= LCP then []
    else
      var own := seq(|EventTokens(src, cur)|, k => k);
      if Whole(src, cur) then own + Places(src, cur + LenAt(src, cur)) else own
  }

  predicate InEvent(src: Stream, t: Token, place: nat) {
    && HasHeader(src, t.at) && LCP < LenAt(src, t.at)
    && place < |EventTokens(src, t.at)| && t == EventTokens(src, t.at)[place]
  }

  predicate Follows(t: Token, place: nat, u: Token, next: nat) {
    if t.more then next == place + 1 && u.cmd == t.cmd else next == 0
  }

  /** Places are places: they start at zero, and continue exactly as long as more values of the event follow. */
  ghost predicate Tracks(src: Stream, tokens: seq<Token>, places: seq<nat>) {
    && |places| == |tokens|
    && (places != [] ==> places[0] == 0)
    && (forall i :: 0 <= i < |tokens| ==> InEvent(src, tokens[i], places[i]))
    && (forall i :: 0 <= i < |tokens| - 1 ==> Follows(tokens[i], places[i], tokens[i + 1], places[i + 1]))
  }

  lemma EventPlaces(src: Stream, cur: nat)
    requires HasHeader(src, cur) && LCP < LenAt(src, cur)
    ensures Tracks(src, EventTokens(src, cur), seq(|EventTokens(src, cur)|, k => k))
    ensures Whole(src, cur) ==> EventTokens(src, cur) != [] && !EventTokens(src, cur)[|EventTokens(src, cur)| - 1].more
  {
    if Whole(src, cur) {
      WholeEnds(src, cur);
    }
    forall k | 0 <= k < |EventTokens(src, cur)|
      ensures var t := EventTokens(src, cur)[k];
        t.at == cur && t.cmd == CmdAt(src, cur) && (k + 1 < |EventTokens(src, cur)| ==> t.more)
    {
      TokenPlace(src, cur, k);
    }
    hide EventTokens, Whole, LenAt, CmdAt;
  }

  lemma WholeEnds(src: Stream, cur: nat)
    requires HasHeader(src, cur) && LCP < LenAt(src, cur) && Whole(src, cur)
    ensures var tokens := EventTokens(src, cur); tokens != [] && !tokens[|tokens| - 1].more
  {
    hide DecodePoint;
  }

  lemma TokenPlace(src: Stream, cur: nat, k: nat)
    requires HasHeader(src, cur) && LCP < LenAt(src, cur) && k < |EventTokens(src, cur)|
    ensures var t := EventTokens(src, cur)[k];
      t.at == cur && t.cmd == CmdAt(src, cur) && (k + 1 < |EventTokens(src, cur)| ==> t.more)
  {
    hide DecodePoint;
  }

  lemma TracksConcat(src: Stream, a: seq<Token>, pa: seq<nat>, b: seq<Token>, pb: seq<nat>)
    requires Tracks(src, a, pa) && Tracks(src, b, pb)
    requires a != [] && !a[|a| - 1].more
    ensures Tracks(src, a + b, pa + pb)
  {
    hide InEvent;
  }

  lemma {:induction false} ParsePlaces(src: Stream, cur: nat)
    ensures Tracks(src, Parse(src, cur), Places(src, cur))
    decreases End(src) - cur
  {
    hide EventTokens, Whole, Tracks;
    if HasHeader(src, cur) && LCP < LenAt(src, cur) {
      EventPlaces(src, cur);
      if Whole(src, cur) {
        var next := cur + LenAt(src, cur);
        ParsePlaces(src, next);
        TracksConcat(src, EventTokens(src, cur), seq(|EventTokens(src, cur)|, k => k), Parse(src, next),
          Places(src, next));
      }
    } else {
      NoTokens(src);
    }
  }

  lemma NoTokens(src: Stream)
    ensures Tracks(src, [], [])
  {
  }

  lemma {:induction false} IndexIsPlace(src: Stream, tokens: seq<Token>, places: seq<nat>, i: nat)
    requires Tracks(src, tokens, places) && i < |tokens|
    ensures IndexBefore(tokens, i) == if tokens[i].cmd == SIOCGIWRATE then places[i] else 0
  {
    hide InEvent;
    if i == 0 {
    } else {
      IndexIsPlace(src, tokens, places, i - 1);
    }
  }

  /**
    On any stream, when a bit rate is handled the value index is the place of that rate
    among the values of its event, and the index is zero after a token that ends its event.
   */
  lemma ValueIndex(src: Stream, i: nat)
    requires i < |Run(src, START)|
    ensures var t, v := Run(src, START)[i], IndexBefore(Run(src, START), i);
      && HasHeader(src, t.at) && LCP < LenAt(src, t.at)
      && (t.cmd == SIOCGIWRATE ==> v < |EventTokens(src, t.at)| && t == EventTokens(src, t.at)[v])
      && (!t.more ==> IndexBefore(Run(src, START), i + 1) == 0)
  {
    RunRefinesParse(src, 0);
    ParsePlaces(src, 0);
    IndexIsPlace(src, Run(src, START), Places(src, 0), i);
  }
}
