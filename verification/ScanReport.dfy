/** Access points by the numbers that a driver reports of them, and the cells that a scan of the reports returns. */
module ScanReport {
  import opened Basics
  import opened WirelessTables
  import opened EventStream
  import opened EventSpec
  import opened EventWire
  import opened Frequency
  import opened Scan
  import opened ScanWire

  // ---- what is reported

  /** A channel: m times ten to the e hertz, with the index the driver keeps it under. */
  datatype ChannelSent = ChannelSent(m: int, e: int, index: byte, flags: byte)

  /** A bit rate, with the fixed and disabled bytes and the flags of its struct. */
  datatype Rate = Rate(value: int, rest: seq<byte>)

  /** What a driver reports of an access point; None is not reported. */
  datatype AccessPoint = AccessPoint(
    addr: seq<byte>,
    essid: Option<Network>,
    mode: Option<int>,
    channel: Option<ChannelSent>,
    quality: Option<seq<byte>>,
    key: Option<KeySent>,
    nwid: Option<seq<byte>>,
    rates: seq<Rate>)

  predicate Fits32(v: int) {
    -0x8000_0000 <= v < 0x8000_0000
  }

  /** Numbers and texts fit the fields that the source has for them, and a list of rates fits one event. */
  predicate Reportable(a: AccessPoint) {
    && |a.addr| == 16 && Sized(a.quality, 4) && Sized(a.nwid, 8)
    && (a.essid.Some? ==> |a.essid.value.name| <= 33)
    && (a.mode.Some? ==> Fits32(a.mode.value))
    && (a.channel.Some? ==> Fits32(a.channel.value.m) && -0x8000 <= a.channel.value.e < 0x8000)
    && (a.key.Some? ==> |a.key.value.bytes| <= 64)
    && (forall rate :: rate in a.rates ==> Fits32(rate.value) && |rate.rest| == 4) && |a.rates| <= 8190
  }

  // ---- its bytes

  /** A number in two bytes, the lower one first, modulo 2^16. */
  function Bytes16(v: int): (r: seq<byte>)
    ensures |r| == 2
  {
    [v % 256, v / 256 % 256]
  }

  /** A number in four bytes, the lowest one first, modulo 2^32. */
  function Bytes32(v: int): (r: seq<byte>)
    ensures |r| == 4
  {
    [v % 256, v / 256 % 256, v / 65536 % 256, v / 16777216 % 256]
  }

  function RateBytes(rate: Rate): seq<byte> {
    Bytes32(rate.value) + rate.rest
  }

  function ChannelBytes(c: ChannelSent): (r: seq<byte>)
    ensures |r| == 8
  {
    Bytes32(c.m) + Bytes16(c.e) + [c.index, c.flags]
  }

  function AllRateBytes(rates: seq<Rate>): seq<seq<byte>> {
    seq(|rates|, i requires 0 <= i < |rates| => RateBytes(rates[i]))
  }

  function Raw(a: AccessPoint): Report {
    Report(a.addr, a.essid,
      if a.mode.Some? then Some(Bytes32(a.mode.value)) else None,
      if a.channel.Some? then Some(ChannelBytes(a.channel.value)) else None,
      a.quality, a.key, a.nwid, AllRateBytes(a.rates))
  }

  // ---- its cell

  /** The first of the greatest rates. */
  predicate FirstGreatest(rates: seq<Rate>, j: nat) {
    && j < |rates|
    && (forall i :: 0 <= i < |rates| ==> rates[i].value <= rates[j].value)
    && (forall i :: 0 <= i < j ==> rates[i].value < rates[j].value)
  }

  /** The flags a key comes back with: in the packed layout, a key without bytes gets the flag of an absent one. */
  function FlagsBack(k: KeySent, layout: Layout): u16 {
    if k.bytes == [] && layout.Packed? && k.flags / 2048 % 2 == 0 then
      assert k.flags == 4096 * (k.flags / 4096) + k.flags % 2048;
      k.flags + 2048
    else k.flags
  }

  function ChannelSaid(a: AccessPoint): Option<Channel> {
    match a.channel
    case None => None
    case Some(ch) =>
      Some(Channel(Hertz(ch.m, ch.e), ch.flags))
  }

  function KeySaid(a: AccessPoint, layout: Layout): Option<Key>
    requires Reportable(a)
  {
    match a.key
    case None => None
    case Some(k) => Some(Key(|k.bytes|, FlagsBack(k, layout), k.bytes))
  }

  ghost predicate IsBestRate(o: Option<seq<byte>>, rates: seq<Rate>) {
    if rates == [] then o.None?
    else o.Some? && exists j: nat :: FirstGreatest(rates, j) && o.value == RateBytes(rates[j])
  }

  /** The cell holds what was reported. */
  ghost predicate Holds(c: Cell, a: AccessPoint, layout: Layout)
    requires Reportable(a)
  {
    && c.apAddr == a.addr && c.essid == a.essid && c.quality == a.quality && c.nwid == a.nwid
    && c.mode == (if a.mode.Some? then a.mode.value else 0)
    && (c.hasMode <==> a.mode.Some? && 0 <= a.mode.value <= 6)
    && c.freq == ChannelSaid(a) && c.key == KeySaid(a, layout) && IsBestRate(c.maxBitrate, a.rates)
  }

  lemma Back32(v: int, rest: seq<byte>)
    requires Fits32(v)
    ensures Signed32(Bytes32(v) + rest) == v
  {
    var a, b, c := v / 256, v / 65536, v / 16777216;
    assert v == 256 * a + v % 256 && a == 256 * b + a % 256 && b == 256 * c + b % 256;
    assert -128 <= c < 128;
  }

  lemma Back16(v: int)
    requires -0x8000 <= v < 0x8000
    ensures var b := Bytes16(v); v == b[0] as int + 256 * if b[1] < 128 then b[1] as int else b[1] as int - 256
  {
  }

  lemma RawFits(a: AccessPoint)
    requires Reportable(a)
    ensures Fits(Raw(a))
  {
  }

  lemma ModeBack(v: int)
    requires Fits32(v)
    ensures S32(Bytes32(v), 0) == v
  {
    hide S32, Signed32, Bytes32;
    SignedIs(Bytes32(v));
    Back32(v, []);
    assert Bytes32(v) + [] == Bytes32(v);
  }

  lemma ChannelBack(c: ChannelSent)
    requires Fits32(c.m) && -0x8000 <= c.e < 0x8000
    ensures ChannelOf(ChannelBytes(c)) == Channel(Hertz(c.m, c.e), c.flags)
  {
    hide Hertz, Signed32, Bytes32, Bytes16, ChannelOf;
    var bytes := ChannelBytes(c);
    ChannelIs(bytes);
    assert bytes == Bytes32(c.m) + (Bytes16(c.e) + [c.index, c.flags]);
    Back32(c.m, Bytes16(c.e) + [c.index, c.flags]);
    Back16(c.e);
    assert bytes[4] == Bytes16(c.e)[0] && bytes[5] == Bytes16(c.e)[1];
  }

  lemma RateBack(rate: Rate)
    requires Fits32(rate.value) && |rate.rest| == 4
    ensures RateOf(RateBytes(rate)) == rate.value
  {
    hide RateOf, Signed32, Bytes32;
    RateIs(RateBytes(rate));
    Back32(rate.value, rate.rest);
  }

  /** The rate kept of those reported is the first of the greatest. */
  lemma BestReported(rates: seq<Rate>)
    requires rates != [] && forall rate :: rate in rates ==> Fits32(rate.value) && |rate.rest| == 4
    ensures (forall b :: b in AllRateBytes(rates) ==> |b| == 8)
      && FirstGreatest(rates, FirstBest(AllRateBytes(rates)))
  {
    hide RateOf, RateBytes;
    var all := AllRateBytes(rates);
    forall i | 0 <= i < |rates| ensures |all[i]| == 8 && RateOf(all[i]) == rates[i].value {
      assert rates[i] in rates;
      RateSize(rates[i]);
      RateBack(rates[i]);
    }
    FirstBestGreatest(all);
  }

  lemma RateSize(rate: Rate)
    requires |rate.rest| == 4
    ensures |RateBytes(rate)| == 8
  {
  }

  lemma FlagsAreBack(k: KeySent, layout: Layout)
    requires |k.bytes| <= 64
    ensures KeyCell(k, layout) == Key(|k.bytes|, FlagsBack(k, layout), k.bytes)
  {
    NoKeyIs(k.flags / 4096, k.flags / 2048 % 2, k.flags % 2048);
    assert k.flags == 4096 * (k.flags / 4096) + 2048 * (k.flags / 2048 % 2) + k.flags % 2048;
  }

  lemma RatesBack(a: AccessPoint)
    requires Reportable(a)
    ensures forall b :: b in AllRateBytes(a.rates) ==> |b| == 8
    ensures IsBestRate(BestRate(AllRateBytes(a.rates)), a.rates)
  {
    hide FirstBest, RateBytes, Fits32;
    if a.rates != [] {
      BestReported(a.rates);
    }
  }

  lemma ModesBack(a: AccessPoint)
    requires Reportable(a) && Fits(Raw(a))
    ensures ModeOf(Raw(a)) == if a.mode.Some? then a.mode.value else 0
    ensures HasMode(Raw(a)) <==> a.mode.Some? && 0 <= a.mode.value <= 6
    ensures FreqOf(Raw(a)) == ChannelSaid(a)
  {
    hide Fits, S32, Bytes32, ChannelOf, ChannelBytes, AllRateBytes, Hertz;
    if a.mode.Some? {
      ModeBack(a.mode.value);
    }
    if a.channel.Some? {
      ChannelBack(a.channel.value);
    }
  }

  /** The cell of a report holds what was reported. */
  lemma SaidBack(a: AccessPoint, layout: Layout)
    requires Reportable(a)
    ensures Fits(Raw(a)) && Holds(CellOf(Raw(a), layout), a, layout)
  {
    RawFits(a);
    hide Fits, BestRate, AllRateBytes, IsBestRate, ChannelSaid, ModeOf, HasMode, FreqOf, KeyCell, FlagsBack;
    ModesBack(a);
    RatesBack(a);
    if a.key.Some? {
      FlagsAreBack(a.key.value, layout);
    }
  }

  // ---- the whole scan

  predicate AllReportable(points: seq<AccessPoint>) {
    forall a :: a in points ==> Reportable(a)
  }

  function RawAll(points: seq<AccessPoint>): seq<Report> {
    seq(|points|, i requires 0 <= i < |points| => Raw(points[i]))
  }

  lemma AllFit(points: seq<AccessPoint>)
    requires AllReportable(points)
    ensures forall r :: r in RawAll(points) ==> Fits(r)
  {
    hide Fits, Reportable, Raw;
    forall r | r in RawAll(points) ensures Fits(r) {
      var i :| 0 <= i < |points| && r == Raw(points[i]);
      assert points[i] in points;
      RawFits(points[i]);
    }
  }

  /** The list of a scan holds one cell for each access point, in order, with what was reported of it. */
  ghost predicate AllHeld(cells: seq<Cell>, points: seq<AccessPoint>, layout: Layout)
    requires AllReportable(points)
  {
    |cells| == |points| && forall i :: 0 <= i < |points| ==> Holds(cells[i], points[i], layout)
  }

  lemma AllBack(points: seq<AccessPoint>, layout: Layout)
    requires AllReportable(points)
    ensures (forall r :: r in RawAll(points) ==> Fits(r)) && AllHeld(CellsOf(RawAll(points), layout), points, layout)
  {
    AllFit(points);
    hide Fits, Reportable, Raw, CellOf, Holds;
    forall i | 0 <= i < |points| ensures Holds(CellsOf(RawAll(points), layout)[i], points[i], layout) {
      assert points[i] in points;
      SaidBack(points[i], layout);
    }
  }

  /**
    A scan of what a driver reports, encoded in either layout, returns a list of one cell for each access
    point, in order, that holds just what was reported of it.
   */
  method ScanReports(head: ScanHead, src: Stream, memory: nat, ghost points: seq<AccessPoint>, ghost layout: Layout)
      returns (ret: int, ghost cells: seq<Cell>)
    requires AllReportable(points) && Reported(src, RawAll(points), layout) && |points| <= memory
    modifies head
    ensures ret == 0 && head.Valid(cells) && AllHeld(cells, points, layout)
  {
    hide Reported, Run, Cells, CellsOf, CellCount, AllShaped, GivesUp, ScanHead.Valid, AllReportable, AllHeld;
    ghost var reports := RawAll(points);
    SourceTables(src, reports, layout);
    ReportedCells(src, reports, layout);
    AllBack(points, layout);
    cells := CellsOf(reports, layout);
    NeverGivesUp(Run(src, START), memory);
    ghost var n;
    ret, n := head.ProcessTokens(src, memory);
    assert Run(src, START)[..|Run(src, START)|] == Run(src, START);
  }
}
