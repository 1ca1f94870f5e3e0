/** What a driver reports of access points, encoded in either layout, is what a scan of it returns. */
module ScanWire {
  import opened Basics
  import opened WirelessTables
  import opened PointEvents
  import opened EventStream
  import opened EventSpec
  import opened EventWire
  import opened Scan

  // ---- any events

  /** A value has the size that its command asks for. */
  predicate Proper(v: View) {
    v.ValueView? ==> Shaped(v.cmd, Value(v.bytes))
  }

  predicate Announces(v: View) {
    v.ValueView? && v.cmd == SIOCGIWAP
  }

  const NOWHERE := Input([0, 0, 0, 0], Describe)

  /** What a cell learns from what was sent. Values do not come out of the memory of the stream. */
  function Tell(c: Cell, v: View, layout: Layout): (r: Cell)
    requires ValidCell(c) && Proper(v)
    ensures ValidCell(r)
  {
    match v
    case Unknown(_) => c
    case ValueView(cmd, bytes) => Update(NOWHERE, c, cmd, Value(bytes))
    case PayloadView(cmd, length, flags, payload) =>
      if cmd == SIOCGIWESSID then c.(essid := Some(Network(flags, payload)))
      else if cmd != SIOCGIWENCODE then c
      else if payload == [] && layout.Packed? then
        c.(key := Some(Key(length, NoKey(flags), if c.key.Some? then c.key.value.bytes else [])))
      else c.(key := Some(Key(length, flags, payload)))
  }

  function AddView(cells: seq<Cell>, v: View, layout: Layout): (r: seq<Cell>)
    requires (forall c :: c in cells ==> ValidCell(c)) && Proper(v)
    ensures forall c :: c in r ==> ValidCell(c)
  {
    if Announces(v) then cells + [NewCell(v.bytes)]
    else if cells == [] then []
    else cells[|cells| - 1 := Tell(cells[|cells| - 1], v, layout)]
  }

  predicate AllProper(views: seq<View>) {
    forall v :: v in views ==> Proper(v)
  }

  /** The cells after what was sent. */
  function Told(cells: seq<Cell>, views: seq<View>, layout: Layout): (r: seq<Cell>)
    requires (forall c :: c in cells ==> ValidCell(c)) && AllProper(views)
    ensures forall c :: c in r ==> ValidCell(c)
  {
    if views == [] then cells
    else AddView(Told(cells, views[..|views| - 1], layout), views[|views| - 1], layout)
  }

  /**
    The token of a network name or key: its data pointer is set when there is a payload, and in the padded
    layout always, because the padding is taken for a payload at first.
   */
  predicate Carries(src: Stream, t: Token, v: View, layout: Layout) {
    && ViewOf(src, t) == v && !v.Unknown?
    && (v.PayloadView? && v.cmd in {SIOCGIWESSID, SIOCGIWENCODE} ==>
      && (t.body.data.Some? <==> v.payload != [] || layout.Padded?)
      && (t.body.data.Some? ==> |v.payload| == v.length))
  }

  predicate AllCarry(src: Stream, tokens: seq<Token>, views: seq<View>, layout: Layout) {
    |tokens| == |views| && forall i :: 0 <= i < |tokens| ==> Carries(src, tokens[i], views[i], layout)
  }

  /** A token tells a cell what was sent. */
  lemma TokenTells(src: Stream, t: Token, v: View, layout: Layout, c: Cell)
    requires src.descr == Describe && ValidCell(c) && Shaped(t.cmd, t.body) && Carries(src, t, v, layout)
    ensures Proper(v) && (t.cmd == SIOCGIWAP <==> Announces(v)) && (Announces(v) ==> t.body == Value(v.bytes))
    ensures Update(src, c, t.cmd, t.body) == Tell(c, v, layout)
  {
    if v.PayloadView? && v.cmd in {SIOCGIWESSID, SIOCGIWENCODE} && t.body.data.Some? {
      var at := t.body.data.value;
      assert src.descr(t.cmd).value.tokenSize == 1;
      assert Fetch(src, at, v.length) == v.payload;
    }
  }

  lemma {:induction false} TokensTell(src: Stream, tokens: seq<Token>, views: seq<View>, layout: Layout)
    requires src.descr == Describe && AllShaped(tokens) && AllCarry(src, tokens, views, layout)
    ensures AllProper(views) && Cells(src, tokens) == Told([], views, layout)
  {
    hide Carries, Shaped, Update, Tell, Proper, Announces, ValidCell;
    if tokens == [] {
    } else {
      var last := |tokens| - 1;
      var t, v := tokens[last], views[last];
      TokensTell(src, tokens[..last], views[..last], layout);
      assert views == views[..last] + [v];
      var cells := Cells(src, tokens[..last]);
      FreshCell();
      TokenTells(src, t, v, layout, if cells == [] then NewCell([]) else cells[|cells| - 1]);
    }
  }

  lemma FreshCell()
    ensures ValidCell(NewCell([]))
  {
  }

  lemma EventCarries(src: Stream, cur: nat, e: Wire, layout: Layout)
    requires src.descr == Describe && Sendable(src.descr, e, layout) && Recognisable(src.descr, e, layout)
    requires EventWire.Holds(src, cur, e, layout)
    ensures HasHeader(src, cur) && LCP < LenAt(src, cur)
    ensures AllCarry(src, EventTokens(src, cur), Sent(e), layout)
  {
    hide Encode, Content, EventTokens, U16, DecodePoint, Whole, KindAt, LenAt, CmdAt, LaidOut, DecodeLaidOut;
    EventRoundTrip(src, cur, e, layout);
    var tokens, views := EventTokens(src, cur), Sent(e);
    assert |tokens| == |Views(src, tokens)| == |views|;
    forall i | 0 <= i < |tokens| ensures Carries(src, tokens[i], views[i], layout) {
      assert ViewOf(src, tokens[i]) == Views(src, tokens)[i] == views[i];
      if e.Payload? && e.cmd in {SIOCGIWESSID, SIOCGIWENCODE} {
        PayloadSeen(src, cur, e, layout);
        PayloadCarries(src, cur, e, layout);
      }
    }
  }

  lemma PayloadCarries(src: Stream, cur: nat, e: Wire, layout: Layout)
    requires src.descr == Describe && e.Payload? && e.cmd in {SIOCGIWESSID, SIOCGIWENCODE}
    requires Sendable(src.descr, e, layout) && Recognisable(src.descr, e, layout)
    requires LaidOut(src, cur, if layout.Padded? then 4 else 0, e.length, e.flags, |e.payload|)
    ensures var pad, d := if layout.Padded? then 4 else 0, src.descr(e.cmd).value;
      var b := DecodeLaidOut(src, cur, pad, d, |e.payload|);
      && b.Pointer? && (b.data.Some? <==> e.payload != [] || layout.Padded?)
      && (b.data.Some? ==> |e.payload| == e.length)
  {
    var d, n := Describe(e.cmd).value, |e.payload|;
    var pad := if layout.Padded? then 4 else 0;
    assert d.tokenSize == 1 && d.minTokens == 0;
    hide LaidOut, DecodeLaidOut;
    if n == e.length {
      LengthFits(src, cur, pad, d, e.length, e.flags, n);
    } else {
      PackedMisread(src, cur, d, e.length, e.flags, n);
    }
  }

  lemma StoredHolds(src: Stream, cur: nat, events: seq<Wire>, layout: Layout)
    requires Stored(src, cur, events, layout) && events != []
    ensures Sendable(src.descr, events[0], layout) && Recognisable(src.descr, events[0], layout)
    ensures EventWire.Holds(src, cur, events[0], layout)
  {
    hide Encode, Sendable, Recognisable;
    var bytes := Encode(src.descr, events[0], layout);
    assert src.mem[cur..cur + |bytes|] == src.mem[cur..End(src)][..|bytes|];
  }

  lemma CarriesConcat(
      src: Stream, a: seq<Token>, b: seq<Token>, u: seq<View>, v: seq<View>, layout: Layout)
    requires AllCarry(src, a, u, layout) && AllCarry(src, b, v, layout)
    ensures AllCarry(src, a + b, u + v, layout)
  {
    hide Carries;
  }

  lemma {:induction false} ParseCarries(src: Stream, cur: nat, events: seq<Wire>, layout: Layout)
    requires src.descr == Describe && Stored(src, cur, events, layout)
    ensures AllCarry(src, Parse(src, cur), SentAll(events), layout)
    decreases |events|
  {
    hide EventTokens, Views, Whole, KindAt, Sendable, Recognisable, Sent, LenAt, Stored, AllCarry, EventWire.Holds;
    if events == [] {
      NothingStored(src, cur, layout);
      NothingCarries(src, layout);
    } else {
      StoredHead(src, cur, events, layout);
      StoredHolds(src, cur, events, layout);
      EventCarries(src, cur, events[0], layout);
      var next := cur + LenAt(src, cur);
      ParseCarries(src, next, events[1..], layout);
      CarriesConcat(src, EventTokens(src, cur), Parse(src, next), Sent(events[0]), SentAll(events[1..]), layout);
    }
  }

  lemma NothingCarries(src: Stream, layout: Layout)
    ensures AllCarry(src, [], [], layout)
  {
  }

  /** Whatever was sent, the cells of the decoded tokens are the cells it tells of. */
  lemma {:induction false} ScanTold(src: Stream, events: seq<Wire>, layout: Layout)
    requires src.descr == Describe
    requires forall e :: e in events ==> Sendable(src.descr, e, layout) && Recognisable(src.descr, e, layout)
    requires src.mem[..End(src)] == EncodeAll(src.descr, events, layout)
    ensures AllShaped(Run(src, START)) && AllCarry(src, Run(src, START), SentAll(events), layout)
    ensures AllProper(SentAll(events)) && Cells(src, Run(src, START)) == Told([], SentAll(events), layout)
  {
    assert src.mem[0..End(src)] == src.mem[..End(src)];
    assert Stored(src, 0, events, layout);
    hide Run, Parse, Stored, AllCarry, SentAll, EncodeAll, Told, Cells, AllShaped;
    RunRefinesParse(src, 0);
    ParseCarries(src, 0, events, layout);
    RunShaped(src, START);
    TokensTell(src, Run(src, START), SentAll(events), layout);
  }

  // ---- reports of access points

  datatype KeySent = KeySent(flags: u16, bytes: seq<byte>)

  /** What a driver reports of an access point; None is not reported. */
  datatype Report = Report(
    addr: seq<byte>,
    essid: Option<Network>,
    mode: Option<seq<byte>>,
    freq: Option<seq<byte>>,
    quality: Option<seq<byte>>,
    key: Option<KeySent>,
    nwid: Option<seq<byte>>,
    rates: seq<seq<byte>>)

  predicate Sized(o: Option<seq<byte>>, n: nat) {
    o.Some? ==> |o.value| == n
  }

  /** The sizes that the structs of the source have; a list of rates fits one event. */
  predicate Fits(r: Report) {
    && |r.addr| == 16 && Sized(r.mode, 4) && Sized(r.freq, 8) && Sized(r.quality, 4) && Sized(r.nwid, 8)
    && (r.essid.Some? ==> |r.essid.value.name| <= 33)
    && (r.key.Some? ==> |r.key.value.bytes| <= 64)
    && (forall rate :: rate in r.rates ==> |rate| == 8) && |r.rates| <= 8190
  }

  function OneValue(cmd: u16, o: Option<seq<byte>>): seq<Wire> {
    if o.Some? then [Values(cmd, [o.value])] else []
  }

  function EssidEvents(r: Report): seq<Wire>
    requires Fits(r)
  {
    if r.essid.None? then [] else
    [Wire.Payload(SIOCGIWESSID, |r.essid.value.name|, r.essid.value.on, r.essid.value.name)]
  }

  function KeyEvents(r: Report): seq<Wire>
    requires Fits(r)
  {
    if r.key.None? then [] else
    [Wire.Payload(SIOCGIWENCODE, |r.key.value.bytes|, r.key.value.flags, r.key.value.bytes)]
  }

  function RateEvents(r: Report): seq<Wire> {
    if r.rates == [] then [] else [Values(SIOCGIWRATE, r.rates)]
  }

  /** What comes after the address. */
  function Settings(r: Report): seq<Wire>
    requires Fits(r)
  {
    EssidEvents(r) + OneValue(SIOCGIWMODE, r.mode) + OneValue(SIOCGIWFREQ, r.freq)
      + OneValue(IWEVQUAL, r.quality) + KeyEvents(r) + OneValue(SIOCGIWNWID, r.nwid) + RateEvents(r)
  }

  /** The events of a report. */
  function Events(r: Report): seq<Wire>
    requires Fits(r)
  {
    [Values(SIOCGIWAP, [r.addr])] + Settings(r)
  }

  function AllEvents(reports: seq<Report>): seq<Wire>
    requires forall r :: r in reports ==> Fits(r)
  {
    if reports == [] then [] else AllEvents(reports[..|reports| - 1]) + Events(reports[|reports| - 1])
  }

  /** The first of the greatest rates. */
  function FirstBest(rates: seq<seq<byte>>): (j: nat)
    requires rates != [] && forall rate :: rate in rates ==> |rate| == 8
    ensures j < |rates|
  {
    var last := |rates| - 1;
    if last == 0 then 0 else
    assert forall rate :: rate in rates[..last] ==> rate in rates;
    var j := FirstBest(rates[..last]);
    if RateOf(rates[j]) < RateOf(rates[last]) then last else j
  }

  lemma {:induction false} FirstBestGreatest(rates: seq<seq<byte>>)
    requires rates != [] && forall rate :: rate in rates ==> |rate| == 8
    ensures forall i :: 0 <= i < |rates| ==> RateOf(rates[i]) <= RateOf(rates[FirstBest(rates)])
    ensures forall i :: 0 <= i < FirstBest(rates) ==> RateOf(rates[i]) < RateOf(rates[FirstBest(rates)])
  {
    hide RateOf;
    var last := |rates| - 1;
    if last == 0 {
    } else {
      var before := rates[..last];
      assert forall rate :: rate in before ==> rate in rates;
      FirstBestGreatest(before);
      assert forall i :: 0 <= i < last ==> rates[i] == before[i];
    }
  }

  /** The greatest rate, the first of several, if there are any. */
  function BestRate(rates: seq<seq<byte>>): (r: Option<seq<byte>>)
    requires forall rate :: rate in rates ==> |rate| == 8
    ensures r.Some? ==> |r.value| == 8
  {
    if rates == [] then None else Some(rates[FirstBest(rates)])
  }

  function ModeOf(r: Report): int
    requires Fits(r)
  {
    if r.mode.Some? then S32(r.mode.value, 0) else 0
  }

  predicate HasMode(r: Report)
    requires Fits(r)
  {
    r.mode.Some? && 0 <= S32(r.mode.value, 0) < IW_NUM_OPER_MODE
  }

  function FreqOf(r: Report): Option<Channel>
    requires Fits(r)
  {
    if r.freq.Some? then Some(ChannelOf(r.freq.value)) else None
  }

  /** The cell a report should come back as. */
  function CellOf(r: Report, layout: Layout): Cell
    requires Fits(r)
  {
    Cell(r.addr,
      r.nwid,
      FreqOf(r),
      ModeOf(r),
      HasMode(r),
      r.essid,
      if r.key.Some? then Some(KeyCell(r.key.value, layout)) else None,
      r.quality,
      BestRate(r.rates))
  }

  /** A key without bytes is taken to be absent in the packed layout. */
  function KeyCell(k: KeySent, layout: Layout): Key
    requires |k.bytes| <= 64
  {
    Key(|k.bytes|, if k.bytes == [] && layout.Packed? then NoKey(k.flags) else k.flags, k.bytes)
  }

  /** Both layouts give the same cell exactly when a key without bytes says itself that it is absent. */
  lemma SameCell(r: Report)
    requires Fits(r)
    ensures CellOf(r, Packed) == CellOf(r, Padded) <==>
      (r.key.Some? && r.key.value.bytes == [] ==> r.key.value.flags / IW_ENCODE_NOKEY % 2 == 1)
  {
    hide FirstBest;
  }

  lemma {:induction false} ToldConcat(cells: seq<Cell>, u: seq<View>, v: seq<View>, layout: Layout)
    requires (forall c :: c in cells ==> ValidCell(c)) && AllProper(u) && AllProper(v)
    ensures AllProper(u + v) && Told(cells, u + v, layout) == Told(Told(cells, u, layout), v, layout)
  {
    hide Proper, ValidCell, AddView;
    if v == [] {
      assert u + v == u;
    } else {
      var before, last := v[..|v| - 1], v[|v| - 1];
      ToldConcat(cells, u, before, layout);
      assert (u + v)[..|u + v| - 1] == u + before;
    }
  }

  lemma {:induction false} SentCons(events: seq<Wire>)
    requires events != []
    ensures SentAll(events) == Sent(events[0]) + SentAll(events[1..])
  {
  }

  lemma {:induction false} NothingSent()
    ensures SentAll([]) == []
  {
  }

  lemma Associative<T>(a: seq<T>, b: seq<T>, c: seq<T>)
    ensures a + b + c == a + (b + c)
  {
  }

  lemma {:induction false} SentConcat(a: seq<Wire>, b: seq<Wire>)
    ensures SentAll(a + b) == SentAll(a) + SentAll(b)
  {
    hide SentAll, Sent;
    if a == [] {
      NothingSent();
      assert a + b == b;
    } else {
      SentConcat(a[1..], b);
      assert (a + b)[0] == a[0] && (a + b)[1..] == a[1..] + b;
      SentCons(a);
      SentCons(a + b);
      Associative(Sent(a[0]), SentAll(a[1..]), SentAll(b));
    }
  }

  /** After these events the last cell, c before them, is c'. */
  predicate Turns(cells: seq<Cell>, events: seq<Wire>, c: Cell, c': Cell, layout: Layout) {
    && (forall d :: d in cells + [c] ==> ValidCell(d)) && AllProper(SentAll(events))
    && Told(cells + [c], SentAll(events), layout) == cells + [c']
  }

  lemma TurnsConcat(
      cells: seq<Cell>, a: seq<Wire>, b: seq<Wire>, c: Cell, c1: Cell, c2: Cell, layout: Layout)
    requires Turns(cells, a, c, c1, layout) && Turns(cells, b, c1, c2, layout)
    ensures Turns(cells, a + b, c, c2, layout)
  {
    hide SentAll, Told, ValidCell, Proper;
    SentConcat(a, b);
    ToldConcat(cells + [c], SentAll(a), SentAll(b), layout);
  }

  lemma {:induction false} OneSent(e: Wire, v: View)
    requires Sent(e) == [v]
    ensures SentAll([e]) == [v]
  {
    assert [e][1..] == [] && SentAll([]) == [];
  }

  /** No event, or one view that announces nothing. */
  lemma {:induction false} OneTurns(cells: seq<Cell>, c: Cell, events: seq<Wire>, v: View, layout: Layout)
    requires (forall d :: d in cells + [c] ==> ValidCell(d)) && Proper(v) && !Announces(v)
    requires SentAll(events) == [v]
    ensures Turns(cells, events, c, Tell(c, v, layout), layout)
  {
    hide ValidCell, Tell, Proper, Announces, SentAll;
    assert [v][..0] == [];
    assert Told(cells + [c], [], layout) == cells + [c];
    assert (cells + [c])[|cells| := Tell(c, v, layout)] == cells + [Tell(c, v, layout)];
  }

  lemma {:induction false} NoneTurns(cells: seq<Cell>, c: Cell, layout: Layout)
    requires forall d :: d in cells + [c] ==> ValidCell(d)
    ensures Turns(cells, [], c, c, layout)
  {
    hide ValidCell;
  }

  lemma ValueTurns(cells: seq<Cell>, c: Cell, cmd: u16, o: Option<seq<byte>>, layout: Layout)
    requires (forall d :: d in cells + [c] ==> ValidCell(d)) && HeaderOf(Describe, cmd).Fixed() && cmd != SIOCGIWAP
    requires Sized(o, HeaderOf(Describe, cmd).Size())
    ensures o.Some? ==> Shaped(cmd, Value(o.value))
    ensures var c' := if o.Some? then Update(NOWHERE, c, cmd, Value(o.value)) else c;
      Turns(cells, OneValue(cmd, o), c, c', layout)
  {
    hide Update, ValidCell, Turns;
    if o.Some? {
      var v := ValueView(cmd, o.value);
      assert Sent(Values(cmd, [o.value])) == [v];
      OneSent(Values(cmd, [o.value]), v);
      OneTurns(cells, c, OneValue(cmd, o), v, layout);
    } else {
      NoneTurns(cells, c, layout);
    }
  }

  lemma PayloadsTurn(cells: seq<Cell>, c: Cell, r: Report, layout: Layout)
    requires Fits(r) && (forall d :: d in cells + [c] ==> ValidCell(d)) && c.key.None?
    ensures r.essid.Some? ==> Turns(cells, EssidEvents(r), c, c.(essid := r.essid), layout)
    ensures r.essid.None? ==> Turns(cells, EssidEvents(r), c, c, layout)
    ensures r.key.Some? ==> Turns(cells, KeyEvents(r), c, c.(key := Some(KeyCell(r.key.value, layout))), layout)
    ensures r.key.None? ==> Turns(cells, KeyEvents(r), c, c, layout)
  {
    hide ValidCell, Turns, NoKey;
    NoneTurns(cells, c, layout);
    if r.essid.Some? {
      var name := r.essid.value.name;
      var v := PayloadView(SIOCGIWESSID, |name|, r.essid.value.on, name);
      OneSent(EssidEvents(r)[0], v);
      OneTurns(cells, c, EssidEvents(r), v, layout);
    }
    if r.key.Some? {
      var bytes := r.key.value.bytes;
      var v := PayloadView(SIOCGIWENCODE, |bytes|, r.key.value.flags, bytes);
      OneSent(KeyEvents(r)[0], v);
      OneTurns(cells, c, KeyEvents(r), v, layout);
    }
  }

  lemma BestRateSnoc(rates: seq<seq<byte>>)
    requires rates != [] && forall rate :: rate in rates ==> |rate| == 8
    ensures var before, last := rates[..|rates| - 1], rates[|rates| - 1];
      && (forall rate :: rate in before ==> |rate| == 8)
      && var best := BestRate(before);
      BestRate(rates) == if best.Some? && RateOf(last) <= RateOf(best.value) then best else Some(last)
  {
    hide RateOf;
    var before := rates[..|rates| - 1];
    assert forall rate :: rate in before ==> rate in rates;
  }

  lemma RateTold(c: Cell, rate: seq<byte>, layout: Layout)
    requires ValidCell(c) && |rate| == 8
    ensures Proper(ValueView(SIOCGIWRATE, rate)) && !Announces(ValueView(SIOCGIWRATE, rate))
    ensures Tell(c, ValueView(SIOCGIWRATE, rate), layout) ==
      if c.maxBitrate.Some? && RateOf(rate) <= RateOf(c.maxBitrate.value) then c else c.(maxBitrate := Some(rate))
  {
  }

  lemma LastTold(cells: seq<Cell>, c: Cell, v: View, layout: Layout)
    requires (forall d :: d in cells + [c] ==> ValidCell(d)) && Proper(v) && !Announces(v)
    ensures AddView(cells + [c], v, layout) == cells + [Tell(c, v, layout)]
  {
    hide ValidCell, Tell, Proper, Announces;
  }

  function RateViews(rates: seq<seq<byte>>): seq<View> {
    Sent(Values(SIOCGIWRATE, rates))
  }

  lemma {:induction false} NoRates(cells: seq<Cell>, c: Cell, layout: Layout)
    requires forall d :: d in cells + [c] ==> ValidCell(d)
    ensures RateViews([]) == [] && BestRate([]) == None && Told(cells + [c], [], layout) == cells + [c]
  {
    hide ValidCell;
  }

  lemma {:induction false} ToldSnoc(cells: seq<Cell>, views: seq<View>, v: View, layout: Layout)
    requires (forall d :: d in cells ==> ValidCell(d)) && AllProper(views) && Proper(v)
    ensures AllProper(views + [v])
    ensures Told(cells, views + [v], layout) == AddView(Told(cells, views, layout), v, layout)
  {
    hide ValidCell, Proper, AddView;
    assert (views + [v])[..|views|] == views;
  }

  /** The rates leave the first of the greatest. */
  lemma {:induction false} RatesTold(cells: seq<Cell>, c: Cell, rates: seq<seq<byte>>, layout: Layout)
    requires (forall d :: d in cells + [c] ==> ValidCell(d)) && c.maxBitrate.None?
    requires forall rate :: rate in rates ==> |rate| == 8
    ensures AllProper(RateViews(rates))
    ensures Told(cells + [c], RateViews(rates), layout) == cells + [c.(maxBitrate := BestRate(rates))]
  {
    hide RateOf, Tell, BestRate, ValidCell, AddView, Proper, Announces, Told, RateViews;
    NoRates(cells, c, layout);
    if rates == [] {
      assert c.(maxBitrate := None) == c;
    } else {
      var before, last := rates[..|rates| - 1], rates[|rates| - 1];
      assert forall rate :: rate in before ==> rate in rates;
      RatesTold(cells, c, before, layout);
      BestRateSnoc(rates);
      var c', v := c.(maxBitrate := BestRate(before)), ValueView(SIOCGIWRATE, last);
      WithRate(cells, c, before);
      RateTold(c', last, layout);
      LastTold(cells, c', v, layout);
      RateViewsSnoc(rates);
      ToldSnoc(cells + [c], RateViews(before), v, layout);
    }
  }

  lemma RateViewsSnoc(rates: seq<seq<byte>>)
    requires rates != []
    ensures RateViews(rates) == RateViews(rates[..|rates| - 1]) + [ValueView(SIOCGIWRATE, rates[|rates| - 1])]
  {
  }

  lemma WithRate(cells: seq<Cell>, c: Cell, rates: seq<seq<byte>>)
    requires (forall d :: d in cells + [c] ==> ValidCell(d)) && forall rate :: rate in rates ==> |rate| == 8
    ensures forall d :: d in cells + [c.(maxBitrate := BestRate(rates))] ==> ValidCell(d)
  {
    hide BestRate;
  }

  lemma RatesTurn(cells: seq<Cell>, c: Cell, r: Report, layout: Layout)
    requires Fits(r) && (forall d :: d in cells + [c] ==> ValidCell(d)) && c.maxBitrate.None?
    ensures Turns(cells, RateEvents(r), c, c.(maxBitrate := BestRate(r.rates)), layout)
  {
    hide ValidCell, BestRate, Told, Proper;
    RatesTold(cells, c, r.rates, layout);
    RateEventsSent(r);
  }

  lemma {:induction false} RateEventsSent(r: Report)
    ensures SentAll(RateEvents(r)) == RateViews(r.rates)
  {
    if r.rates != [] {
      var e := Values(SIOCGIWRATE, r.rates);
      assert SentAll([e]) == Sent(e) + SentAll([e][1..]);
    }
  }

  lemma {:induction false} Announced(cells: seq<Cell>, addr: seq<byte>, layout: Layout)
    requires (forall d :: d in cells ==> ValidCell(d)) && |addr| == 16
    ensures var views := SentAll([Values(SIOCGIWAP, [addr])]);
      AllProper(views) && Told(cells, views, layout) == cells + [NewCell(addr)] && ValidCell(NewCell(addr))
  {
    var v := ValueView(SIOCGIWAP, addr);
    OneSent(Values(SIOCGIWAP, [addr]), v);
    assert [v][..0] == [];
    assert Told(cells, [], layout) == cells;
    hide ValidCell, Told;
  }

  lemma TurnsValid(cells: seq<Cell>, events: seq<Wire>, c: Cell, c': Cell, layout: Layout)
    requires Turns(cells, events, c, c', layout)
    ensures forall d :: d in cells + [c'] ==> ValidCell(d)
  {
    hide ValidCell, Told;
  }

  /** One more setting. */
  lemma ThenValue(
      cells: seq<Cell>, events: seq<Wire>, c: Cell, c': Cell, cmd: u16, o: Option<seq<byte>>, layout: Layout)
      returns (next: Cell)
    requires Turns(cells, events, c, c', layout)
    requires HeaderOf(Describe, cmd).Fixed() && cmd != SIOCGIWAP && Sized(o, HeaderOf(Describe, cmd).Size())
    ensures Turns(cells, events + OneValue(cmd, o), c, next, layout)
    ensures ValidCell(c') && (o.Some? ==> Shaped(cmd, Value(o.value)))
    ensures next == if o.Some? then Update(NOWHERE, c', cmd, Value(o.value)) else c'
  {
    hide Turns, Update, ValidCell;
    TurnsValid(cells, events, c, c', layout);
    assert c' in cells + [c'];
    ValueTurns(cells, c', cmd, o, layout);
    next := if o.Some? then Update(NOWHERE, c', cmd, Value(o.value)) else c';
    TurnsConcat(cells, events, OneValue(cmd, o), c, c', next, layout);
  }

  lemma ThenEssid(cells: seq<Cell>, events: seq<Wire>, c: Cell, c': Cell, r: Report, layout: Layout)
    requires Fits(r) && Turns(cells, events, c, c', layout) && c'.essid.None? && c'.key.None?
    ensures Turns(cells, events + EssidEvents(r), c, c'.(essid := r.essid), layout)
  {
    hide Turns, ValidCell;
    TurnsValid(cells, events, c, c', layout);
    PayloadsTurn(cells, c', r, layout);
    assert c'.(essid := None) == c';
    TurnsConcat(cells, events, EssidEvents(r), c, c', c'.(essid := r.essid), layout);
  }

  lemma ThenKey(cells: seq<Cell>, events: seq<Wire>, c: Cell, c': Cell, r: Report, layout: Layout)
    requires Fits(r) && Turns(cells, events, c, c', layout) && c'.key.None?
    ensures var key := if r.key.Some? then Some(KeyCell(r.key.value, layout)) else None;
      Turns(cells, events + KeyEvents(r), c, c'.(key := key), layout)
  {
    hide Turns, ValidCell, NoKey;
    TurnsValid(cells, events, c, c', layout);
    PayloadsTurn(cells, c', r, layout);
    var key := if r.key.Some? then Some(KeyCell(r.key.value, layout)) else None;
    assert c'.(key := None) == c';
    TurnsConcat(cells, events, KeyEvents(r), c, c', c'.(key := key), layout);
  }

  lemma ThenRates(cells: seq<Cell>, events: seq<Wire>, c: Cell, c': Cell, r: Report, layout: Layout)
    requires Fits(r) && Turns(cells, events, c, c', layout) && c'.maxBitrate.None?
    ensures Turns(cells, events + RateEvents(r), c, c'.(maxBitrate := BestRate(r.rates)), layout)
  {
    hide Turns, ValidCell, BestRate;
    TurnsValid(cells, events, c, c', layout);
    RatesTurn(cells, c', r, layout);
    TurnsConcat(cells, events, RateEvents(r), c, c', c'.(maxBitrate := BestRate(r.rates)), layout);
  }

  /** What the four single values do to a cell. */
  lemma ValueEffects(c: Cell, bytes: seq<byte>)
    requires ValidCell(c)
    ensures |bytes| == 4 ==> var mode := S32(bytes, 0);
      && Update(NOWHERE, c, SIOCGIWMODE, Value(bytes))
         == c.(mode := mode, hasMode := c.hasMode || 0 <= mode < IW_NUM_OPER_MODE)
      && Update(NOWHERE, c, IWEVQUAL, Value(bytes)) == c.(quality := Some(bytes))
    ensures |bytes| == 8 ==>
      && Update(NOWHERE, c, SIOCGIWFREQ, Value(bytes)) == c.(freq := Some(ChannelOf(bytes)))
      && Update(NOWHERE, c, SIOCGIWNWID, Value(bytes)) == c.(nwid := Some(bytes))
  {
    hide ChannelOf, S32;
  }

  lemma ThenMode(cells: seq<Cell>, events: seq<Wire>, c: Cell, c': Cell, r: Report, layout: Layout)
    requires Fits(r) && Turns(cells, events, c, c', layout) && c'.mode == 0 && !c'.hasMode
    ensures var next := c'.(mode := ModeOf(r), hasMode := HasMode(r));
      Turns(cells, events + OneValue(SIOCGIWMODE, r.mode), c, next, layout)
  {
    hide Turns, Update, S32, ValidCell;
    var next := ThenValue(cells, events, c, c', SIOCGIWMODE, r.mode, layout);
    if r.mode.Some? {
      ValueEffects(c', r.mode.value);
    } else {
      assert c'.(mode := 0, hasMode := false) == c';
    }
  }

  lemma ThenFreq(cells: seq<Cell>, events: seq<Wire>, c: Cell, c': Cell, r: Report, layout: Layout)
    requires Fits(r) && Turns(cells, events, c, c', layout) && c'.freq.None?
    ensures Turns(cells, events + OneValue(SIOCGIWFREQ, r.freq), c, c'.(freq := FreqOf(r)), layout)
  {
    hide Turns, Update, ChannelOf, ValidCell;
    var next := ThenValue(cells, events, c, c', SIOCGIWFREQ, r.freq, layout);
    if r.freq.Some? {
      ValueEffects(c', r.freq.value);
    } else {
      assert c'.(freq := None) == c';
    }
  }

  lemma ThenQuality(cells: seq<Cell>, events: seq<Wire>, c: Cell, c': Cell, r: Report, layout: Layout)
    requires Fits(r) && Turns(cells, events, c, c', layout) && c'.quality.None?
    ensures Turns(cells, events + OneValue(IWEVQUAL, r.quality), c, c'.(quality := r.quality), layout)
  {
    hide Turns, Update, ValidCell;
    var next := ThenValue(cells, events, c, c', IWEVQUAL, r.quality, layout);
    if r.quality.Some? {
      ValueEffects(c', r.quality.value);
    } else {
      assert c'.(quality := None) == c';
    }
  }

  lemma ThenNwid(cells: seq<Cell>, events: seq<Wire>, c: Cell, c': Cell, r: Report, layout: Layout)
    requires Fits(r) && Turns(cells, events, c, c', layout) && c'.nwid.None?
    ensures Turns(cells, events + OneValue(SIOCGIWNWID, r.nwid), c, c'.(nwid := r.nwid), layout)
  {
    hide Turns, Update, ValidCell;
    var next := ThenValue(cells, events, c, c', SIOCGIWNWID, r.nwid, layout);
    if r.nwid.Some? {
      ValueEffects(c', r.nwid.value);
    } else {
      assert c'.(nwid := None) == c';
    }
  }

  lemma SettingsTurn(cells: seq<Cell>, r: Report, layout: Layout)
    requires Fits(r) && forall d :: d in cells + [NewCell(r.addr)] ==> ValidCell(d)
    ensures Turns(cells, Settings(r), NewCell(r.addr), CellOf(r, layout), layout)
  {
    hide Turns, BestRate, ModeOf, HasMode, FreqOf, ValidCell, EssidEvents, OneValue, KeyEvents, RateEvents, KeyCell;
    var c := NewCell(r.addr);
    NoneTurns(cells, c, layout);
    var c1, t1 := c.(essid := r.essid), EssidEvents(r);
    ThenEssid(cells, [], c, c, r, layout);
    assert [] + t1 == t1;
    var c2, t2 := c1.(mode := ModeOf(r), hasMode := HasMode(r)), t1 + OneValue(SIOCGIWMODE, r.mode);
    ThenMode(cells, t1, c, c1, r, layout);
    var c3, t3 := c2.(freq := FreqOf(r)), t2 + OneValue(SIOCGIWFREQ, r.freq);
    ThenFreq(cells, t2, c, c2, r, layout);
    var c4, t4 := c3.(quality := r.quality), t3 + OneValue(IWEVQUAL, r.quality);
    ThenQuality(cells, t3, c, c3, r, layout);
    var key := if r.key.Some? then Some(KeyCell(r.key.value, layout)) else None;
    var c5, t5 := c4.(key := key), t4 + KeyEvents(r);
    ThenKey(cells, t4, c, c4, r, layout);
    var c6, t6 := c5.(nwid := r.nwid), t5 + OneValue(SIOCGIWNWID, r.nwid);
    ThenNwid(cells, t5, c, c5, r, layout);
    ThenRates(cells, t6, c, c6, r, layout);
  }

  /** A report leaves its cell. */
  lemma {:induction false} ReportTold(cells: seq<Cell>, r: Report, layout: Layout)
    requires Fits(r) && forall d :: d in cells ==> ValidCell(d)
    ensures AllProper(SentAll(Events(r))) && Told(cells, SentAll(Events(r)), layout) == cells + [CellOf(r, layout)]
  {
    hide SentAll, Told, ValidCell, CellOf, Settings, Proper;
    Announced(cells, r.addr, layout);
    SettingsTurn(cells, r, layout);
    var first := [Values(SIOCGIWAP, [r.addr])];
    SentConcat(first, Settings(r));
    ToldConcat(cells, SentAll(first), SentAll(Settings(r)), layout);
  }

  function CellsOf(reports: seq<Report>, layout: Layout): seq<Cell>
    requires forall r :: r in reports ==> Fits(r)
  {
    seq(|reports|, i requires 0 <= i < |reports| => CellOf(reports[i], layout))
  }

  lemma CellsOfSnoc(reports: seq<Report>, layout: Layout)
    requires reports != [] && forall r :: r in reports ==> Fits(r)
    ensures var before, last := reports[..|reports| - 1], reports[|reports| - 1];
      CellsOf(reports, layout) == CellsOf(before, layout) + [CellOf(last, layout)]
  {
    hide Fits, CellOf;
  }

  lemma {:induction false} NothingTold(layout: Layout)
    ensures SentAll(AllEvents([])) == [] && Told([], [], layout) == [] == CellsOf([], layout)
  {
  }

  lemma {:induction false} ReportsTold(reports: seq<Report>, layout: Layout)
    requires forall r :: r in reports ==> Fits(r)
    ensures AllProper(SentAll(AllEvents(reports)))
    ensures Told([], SentAll(AllEvents(reports)), layout) == CellsOf(reports, layout)
  {
    hide SentAll, Told, Fits, CellOf, CellsOf, Events, ValidCell, Proper;
    NothingTold(layout);
    if reports == [] {
    } else {
      var before, last := reports[..|reports| - 1], reports[|reports| - 1];
      ReportsTold(before, layout);
      SentConcat(AllEvents(before), Events(last));
      ReportTold(CellsOf(before, layout), last, layout);
      ToldConcat([], SentAll(AllEvents(before)), SentAll(Events(last)), layout);
      CellsOfSnoc(reports, layout);
    }
  }

  /** An event of these commands, one value or a list of rates or a short payload, can be sent and is recognised. */
  predicate Ready(e: Wire, layout: Layout) {
    Sendable(Describe, e, layout) && Recognisable(Describe, e, layout)
  }

  lemma {:induction false} ValuesReady(cmd: u16, vals: seq<seq<byte>>, layout: Layout)
    requires HeaderOf(Describe, cmd).Fixed() && vals != [] && (|vals| == 1 || cmd == SIOCGIWRATE) && |vals| <= 8190
    requires forall v :: v in vals ==> |v| == HeaderOf(Describe, cmd).Size()
    ensures Ready(Values(cmd, vals), layout)
  {
    FlatLength(HeaderOf(Describe, cmd), vals);
  }

  lemma PayloadReady(e: Wire, layout: Layout)
    requires e.Payload? && |e.payload| == e.length && e.cmd in {SIOCGIWESSID, SIOCGIWENCODE}
    requires e.length <= if e.cmd == SIOCGIWESSID then 33 else 64
    ensures Ready(e, layout)
  {
  }

  predicate ReadyAll(events: seq<Wire>, layout: Layout) {
    forall e :: e in events ==> Ready(e, layout)
  }

  lemma ReadyConcat(a: seq<Wire>, b: seq<Wire>, layout: Layout)
    requires ReadyAll(a, layout) && ReadyAll(b, layout)
    ensures ReadyAll(a + b, layout)
  {
    hide Ready;
  }

  lemma ValueReady(cmd: u16, o: Option<seq<byte>>, layout: Layout)
    requires HeaderOf(Describe, cmd).Fixed() && Sized(o, HeaderOf(Describe, cmd).Size())
    ensures ReadyAll(OneValue(cmd, o), layout)
  {
    hide Ready;
    if o.Some? {
      ValuesReady(cmd, [o.value], layout);
    }
  }

  lemma PayloadsReady(r: Report, layout: Layout)
    requires Fits(r)
    ensures ReadyAll(EssidEvents(r), layout) && ReadyAll(KeyEvents(r), layout) && ReadyAll(RateEvents(r), layout)
  {
    hide Ready;
    if r.essid.Some? {
      PayloadReady(EssidEvents(r)[0], layout);
    }
    if r.key.Some? {
      PayloadReady(KeyEvents(r)[0], layout);
    }
    if r.rates != [] {
      ValuesReady(SIOCGIWRATE, r.rates, layout);
    }
  }

  lemma EventsReady(r: Report, layout: Layout)
    requires Fits(r)
    ensures ReadyAll(Events(r), layout)
  {
    hide ReadyAll, EssidEvents, KeyEvents, RateEvents, OneValue;
    PayloadsReady(r, layout);
    ValueReady(SIOCGIWMODE, r.mode, layout);
    ValueReady(SIOCGIWFREQ, r.freq, layout);
    ValueReady(IWEVQUAL, r.quality, layout);
    ValueReady(SIOCGIWNWID, r.nwid, layout);
    var t1 := EssidEvents(r);
    var t2 := t1 + OneValue(SIOCGIWMODE, r.mode);
    var t3 := t2 + OneValue(SIOCGIWFREQ, r.freq);
    var t4 := t3 + OneValue(IWEVQUAL, r.quality);
    var t5 := t4 + KeyEvents(r);
    var t6 := t5 + OneValue(SIOCGIWNWID, r.nwid);
    ReadyConcat(t1, OneValue(SIOCGIWMODE, r.mode), layout);
    ReadyConcat(t2, OneValue(SIOCGIWFREQ, r.freq), layout);
    ReadyConcat(t3, OneValue(IWEVQUAL, r.quality), layout);
    ReadyConcat(t4, KeyEvents(r), layout);
    ReadyConcat(t5, OneValue(SIOCGIWNWID, r.nwid), layout);
    ReadyConcat(t6, RateEvents(r), layout);
    AnnouncementReady(r, layout);
    ReadyConcat([Values(SIOCGIWAP, [r.addr])], Settings(r), layout);
  }

  lemma AnnouncementReady(r: Report, layout: Layout)
    requires Fits(r)
    ensures ReadyAll([Values(SIOCGIWAP, [r.addr])], layout)
  {
    hide Ready;
    ValuesReady(SIOCGIWAP, [r.addr], layout);
  }

  lemma {:induction false} AllReady(reports: seq<Report>, layout: Layout)
    requires forall r :: r in reports ==> Fits(r)
    ensures ReadyAll(AllEvents(reports), layout)
  {
    hide Ready, Events, Fits;
    if reports == [] {
    } else {
      var before, last := reports[..|reports| - 1], reports[|reports| - 1];
      AllReady(before, layout);
      EventsReady(last, layout);
      ReadyConcat(AllEvents(before), Events(last), layout);
    }
  }

  /** The first event of reports is that of an access point. */
  lemma {:induction false} FirstAnnounces(reports: seq<Report>)
    requires reports != [] && forall r :: r in reports ==> Fits(r)
    ensures AllEvents(reports) != [] && AllEvents(reports)[0] == Values(SIOCGIWAP, [reports[0].addr])
  {
    if |reports| > 1 {
      FirstAnnounces(reports[..|reports| - 1]);
    }
  }

  lemma {:induction false} CountGrows(tokens: seq<Token>, i: nat)
    requires i < |tokens| && tokens[i].cmd == SIOCGIWAP
    ensures CellCount(tokens[..i]) < CellCount(tokens)
    decreases |tokens|
  {
    var before := tokens[..|tokens| - 1];
    if i < |tokens| - 1 {
      CountGrows(before, i);
      assert before[..i] == tokens[..i];
    }
  }

  /** With memory for every cell, a scan that starts with an access point never gives up. */
  lemma {:induction false} NeverGivesUp(tokens: seq<Token>, memory: nat)
    requires CellCount(tokens) <= memory && (tokens != [] ==> tokens[0].cmd == SIOCGIWAP)
    ensures forall i :: 0 <= i < |tokens| ==> !GivesUp(tokens, i, memory)
  {
    forall i | 0 <= i < |tokens| ensures !GivesUp(tokens, i, memory) {
      if tokens[i].cmd == SIOCGIWAP {
        CountGrows(tokens, i);
      }
    }
  }

  /** The stream holds reports, encoded in a layout. */
  ghost predicate Reported(src: Stream, reports: seq<Report>, layout: Layout) {
    && src.descr == Describe && (forall r :: r in reports ==> Fits(r))
    && (AllReady(reports, layout);
        src.mem[..End(src)] == EncodeAll(Describe, AllEvents(reports), layout))
  }

  /** The tokens of reports, and the cells they make. */
  lemma {:induction false} ReportedCells(src: Stream, reports: seq<Report>, layout: Layout)
    requires Reported(src, reports, layout)
    ensures var tokens := Run(src, START);
      && AllShaped(tokens) && Cells(src, tokens) == CellsOf(reports, layout) && CellCount(tokens) == |reports|
      && (tokens != [] ==> tokens[0].cmd == SIOCGIWAP)
  {
    hide Run, EncodeAll, Cells, Told, AllShaped, CellsOf, AllProper, Fits, AllEvents;
    AllReady(reports, layout);
    ScanTold(src, AllEvents(reports), layout);
    ReportsTold(reports, layout);
    FirstToken(src, Run(src, START), reports, layout);
    assert |CellsOf(reports, layout)| == |reports| by {
      CellsLength(reports, layout);
    }
  }

  lemma CellsLength(reports: seq<Report>, layout: Layout)
    requires forall r :: r in reports ==> Fits(r)
    ensures |CellsOf(reports, layout)| == |reports|
  {
    hide Fits, CellOf;
  }

  lemma {:induction false} FirstToken(src: Stream, tokens: seq<Token>, reports: seq<Report>, layout: Layout)
    requires (forall r :: r in reports ==> Fits(r)) && AllCarry(src, tokens, SentAll(AllEvents(reports)), layout)
    ensures tokens != [] ==> tokens[0].cmd == SIOCGIWAP
  {
    if tokens != [] && reports != [] {
      FirstAnnounces(reports);
      hide AllEvents, Fits;
      var events := AllEvents(reports);
      assert SentAll(events)[0] == Sent(events[0])[0] == ValueView(SIOCGIWAP, reports[0].addr);
      assert Carries(src, tokens[0], SentAll(events)[0], layout);
    }
  }

  lemma SourceTables(src: Stream, reports: seq<Report>, layout: Layout)
    requires Reported(src, reports, layout)
    ensures src.descr == Describe && forall r :: r in reports ==> Fits(r)
  {
  }
}
