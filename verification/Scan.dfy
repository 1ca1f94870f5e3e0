/**
  The scan builder: tokens of the event stream are folded into a linked list of
  cells, one for each access point announced.
 */
module Scan {
  import opened Basics
  import opened WirelessTables
  import opened EventStream
  import opened EventSpec
  import opened Frequency

  const IW_NUM_OPER_MODE := 7
  const IW_ENCODE_NOKEY := 0x0800

  datatype Network = Network(on: u16, name: seq<byte>)
  datatype Key = Key(size: u16, flags: u16, bytes: seq<byte>)
  datatype Channel = Channel(hertz: real, flags: byte)

  /** The contents of one scan entry; None stands for a cleared has_ field. */
  datatype Cell = Cell(
    apAddr: seq<byte>,
    nwid: Option<seq<byte>>,
    freq: Option<Channel>,
    mode: int,
    hasMode: bool,
    essid: Option<Network>,
    key: Option<Key>,
    quality: Option<seq<byte>>,
    maxBitrate: Option<seq<byte>>)

  /** Bytes a payload pointer denotes, as far as the memory goes. */
  function Fetch(src: Stream, at: nat, n: nat): seq<byte> {
    var from := if at <= |src.mem| then at else |src.mem|;
    var to := if at + n <= |src.mem| then at + n else |src.mem|;
    src.mem[from..to]
  }

  /** The payload has the form that the command's descriptor promises. */
  predicate Shaped(cmd: u16, body: Body) {
    var h := HeaderOf(Describe, cmd);
    && (h.Fixed() ==> body.Value? && |body.bytes| == h.Size())
    && (h.Point? ==> body.Pointer?)
  }

  /** The commands whose handling updates the current cell. */
  predicate Updates(cmd: u16) {
    cmd == SIOCGIWNWID || cmd == SIOCGIWFREQ || cmd == SIOCGIWMODE || cmd == SIOCGIWESSID
    || cmd == SIOCGIWENCODE || cmd == IWEVQUAL || cmd == SIOCGIWRATE
  }

  function NewCell(addr: seq<byte>): Cell {
    Cell(addr, None, None, 0, false, None, None, None, None)
  }

  function S16(s: seq<byte>, i: nat): int
    requires i + 2 <= |s|
  {
    var u := U16(s, i);
    if u < 0x8000 then u else u - 0x1_0000
  }

  function ChannelOf(bytes: seq<byte>): Channel
    requires |bytes| == 8
  {
    Channel(Decode(S32(bytes, 0), S16(bytes, 4)), bytes[7])
  }

  function NoKey(flags: u16): u16 {
    if flags / IW_ENCODE_NOKEY % 2 == 1 then flags else flags + IW_ENCODE_NOKEY
  }

  function KeyOf(src: Stream, previous: Option<Key>, body: Body): Key
    requires body.Pointer?
  {
    match body.data
    case Some(at) => Key(body.length, body.flags, Fetch(src, at, body.length))
    case None => Key(body.length, NoKey(body.flags), if previous.Some? then previous.value.bytes else [])
  }

  function NetworkOf(src: Stream, body: Body): Network
    requires body.Pointer?
  {
    Network(body.flags, if body.data.Some? && body.length != 0 then Fetch(src, body.data.value, body.length) else [])
  }

  /** The value of a rate parameter. */
  function RateOf(bytes: seq<byte>): int
    requires |bytes| == 8
  {
    S32(bytes, 0)
  }

  predicate ValidCell(c: Cell) {
    c.maxBitrate.Some? ==> |c.maxBitrate.value| == 8
  }

  /** The effect of a token that is not a new access point. */
  function Update(src: Stream, c: Cell, cmd: u16, body: Body): Cell
    requires ValidCell(c) && Shaped(cmd, body)
  {
    if cmd == SIOCGIWNWID then c.(nwid := Some(body.bytes))
    else if cmd == SIOCGIWFREQ then c.(freq := Some(ChannelOf(body.bytes)))
    else if cmd == SIOCGIWMODE then
      var mode := S32(body.bytes, 0);
      c.(mode := mode, hasMode := c.hasMode || 0 <= mode < IW_NUM_OPER_MODE)
    else if cmd == SIOCGIWESSID then c.(essid := Some(NetworkOf(src, body)))
    else if cmd == SIOCGIWENCODE then c.(key := Some(KeyOf(src, c.key, body)))
    else if cmd == IWEVQUAL then c.(quality := Some(body.bytes))
    else if cmd == SIOCGIWRATE && (c.maxBitrate.None? || RateOf(c.maxBitrate.value) < RateOf(body.bytes)) then
      c.(maxBitrate := Some(body.bytes))
    else c
  }

  class WirelessScan {
    var next: WirelessScan?
    var cell: Cell

    constructor (cell: Cell)
      ensures this.cell == cell && next == null
    {
      this.cell, next := cell, null;
    }
  }

  /** A null-terminated list through `nodes`, in order. */
  ghost predicate Linked(head: WirelessScan?, nodes: seq<WirelessScan>)
    reads nodes
  {
    && head == (if nodes == [] then null else nodes[0])
    && (forall i, j :: 0 <= i < j < |nodes| ==> nodes[i] != nodes[j])
    && (forall i :: 0 <= i < |nodes| - 1 ==> nodes[i].next == nodes[i + 1])
    && (nodes != [] ==> nodes[|nodes| - 1].next == null)
  }

  ghost predicate Holds(nodes: seq<WirelessScan>, cells: seq<Cell>)
    reads nodes
  {
    |nodes| == |cells| && forall i :: 0 <= i < |nodes| ==> nodes[i].cell == cells[i]
  }

  /** Process one token; `granted` tells whether malloc succeeds. */
  method ProcessToken(src: Stream, event: WirelessEvent, wscan: WirelessScan?, granted: bool)
      returns (result: WirelessScan?)
    requires Shaped(event.cmd, event.body)
    requires Updates(event.cmd) ==> wscan != null
    requires wscan != null ==> ValidCell(wscan.cell)
    modifies if wscan == null then {} else {wscan}
    ensures event.cmd == SIOCGIWAP && !granted ==> result == null && (wscan != null ==> unchanged(wscan))
    ensures event.cmd == SIOCGIWAP && granted ==>
      && result != null && fresh(result) && result.next == null && result.cell == NewCell(event.body.bytes)
      && (wscan != null ==> wscan.next == result && wscan.cell == old(wscan.cell))
    ensures event.cmd != SIOCGIWAP ==>
      && result == wscan
      && (wscan != null ==>
        wscan.next == old(wscan.next) && wscan.cell == Update(src, old(wscan.cell), event.cmd, event.body))
  {
    var cmd, body := event.cmd, event.body;
    result := wscan;
    if cmd == SIOCGIWAP {
      if !granted {
        return null;
      }
      result := new WirelessScan(NewCell(body.bytes));
      if wscan != null {
        wscan.next := result;
      }
    } else if cmd == SIOCGIWNWID {
      result.cell := result.cell.(nwid := Some(body.bytes));
    } else if cmd == SIOCGIWFREQ {
      result.cell := result.cell.(freq := Some(ChannelOf(body.bytes)));
    } else if cmd == SIOCGIWMODE {
      result.cell := result.cell.(mode := S32(body.bytes, 0));
      if result.cell.mode < IW_NUM_OPER_MODE && result.cell.mode >= 0 {
        result.cell := result.cell.(hasMode := true);
      }
    } else if cmd == SIOCGIWESSID {
      result.cell := result.cell.(essid := Some(Network(body.flags, [])));
      if body.data.Some? && body.length != 0 {
        result.cell := result.cell.(essid := Some(Network(body.flags, Fetch(src, body.data.value, body.length))));
      }
    } else if cmd == SIOCGIWENCODE {
      result.cell := result.cell.(key := Some(KeyOf(src, result.cell.key, body)));
    } else if cmd == IWEVQUAL {
      result.cell := result.cell.(quality := Some(body.bytes));
    } else if cmd == SIOCGIWRATE {
      if result.cell.maxBitrate.None? || RateOf(body.bytes) > RateOf(result.cell.maxBitrate.value) {
        result.cell := result.cell.(maxBitrate := Some(body.bytes));
      }
    }
  }

  // ---- the whole scan

  function CellCount(tokens: seq<Token>): nat {
    if tokens == [] then 0
    else CellCount(tokens[..|tokens| - 1]) + if tokens[|tokens| - 1].cmd == SIOCGIWAP then 1 else 0
  }

  predicate AllShaped(tokens: seq<Token>) {
    forall t :: t in tokens ==> Shaped(t.cmd, t.body)
  }

  /** One more token, for the last cell or for a new one. */
  function AddToken(src: Stream, cells: seq<Cell>, cmd: u16, body: Body): (r: seq<Cell>)
    requires (forall c :: c in cells ==> ValidCell(c)) && Shaped(cmd, body)
    ensures forall c :: c in r ==> ValidCell(c)
    ensures |r| == |cells| + if cmd == SIOCGIWAP then 1 else 0
  {
    if cmd == SIOCGIWAP then cells + [NewCell(body.bytes)]
    else if cells == [] then []
    else cells[|cells| - 1 := Update(src, cells[|cells| - 1], cmd, body)]
  }

  /** The cells described by tokens, the last one still open. Tokens before the first access point describe none. */
  function Cells(src: Stream, tokens: seq<Token>): (cells: seq<Cell>)
    requires AllShaped(tokens)
    ensures forall c :: c in cells ==> ValidCell(c)
    ensures |cells| == CellCount(tokens)
  {
    if tokens == [] then [] else
    var t := tokens[|tokens| - 1];
    AddToken(src, Cells(src, tokens[..|tokens| - 1]), t.cmd, t.body)
  }

  /** Token number i makes the scan give up: it comes before any access point, or there is no memory for its cell. */
  predicate GivesUp(tokens: seq<Token>, i: nat, memory: nat)
    requires i < |tokens|
  {
    if tokens[i].cmd == SIOCGIWAP then CellCount(tokens[..i]) >= memory else i == 0
  }

  /** The library's own tables give every token the form its command promises. */
  lemma StepShaped(src: Stream, s: StreamState)
    requires src.descr == Describe && Step(src, s).ret > 0
    ensures Shaped(CmdAt(src, s.current), Step(src, s).body)
  {
  }

  lemma {:induction false} RunShaped(src: Stream, s: StreamState)
    requires src.descr == Describe
    ensures AllShaped(Run(src, s))
    decreases End(src) - Position(s)
  {
    if Valid(src, s) && Step(src, s).ret > 0 {
      StepShaped(src, s);
      StepProgress(src, s);
      RunShaped(src, Step(src, s).next);
    }
  }

  /** Only known commands are handled. */
  lemma HandledKnown(cmd: u16)
    requires Updates(cmd) || cmd == SIOCGIWAP
    ensures !HeaderOf(Describe, cmd).Null?
  {
  }

  /** What one positive extraction means for the tokens still to come and for the cells. */
  lemma {:induction false} OneToken(src: Stream, s: StreamState, tokens: seq<Token>, n: nat, cmd: u16, body: Body)
    requires src.descr == Describe && Valid(src, s) && AllShaped(tokens)
    requires n <= |tokens| && tokens[n..] == Run(src, s) && Step(src, s).ret > 0
    requires cmd == CmdAt(src, s.current) && (Step(src, s).ret == 1 ==> body == Step(src, s).body)
    ensures n < |tokens| && tokens[n].cmd == cmd && Shaped(cmd, body)
    ensures tokens[n + 1..] == Run(src, Step(src, s).next) && Valid(src, Step(src, s).next)
    ensures AllShaped(tokens[..n]) && AllShaped(tokens[..n + 1])
    ensures Cells(src, tokens[..n + 1]) == AddToken(src, Cells(src, tokens[..n]), cmd, body)
    ensures CellCount(tokens[..n + 1]) == CellCount(tokens[..n]) + if cmd == SIOCGIWAP then 1 else 0
  {
    StepShaped(src, s);
    StepProgress(src, s);
    assert tokens[n] == tokens[n..][0] == TokenAt(src, s);
    assert tokens[n + 1..] == tokens[n..][1..];
    assert tokens[..n + 1][..n] == tokens[..n];
    if Step(src, s).ret == 2 {
      assert HeaderOf(Describe, cmd).Null?;
    }
    if Updates(cmd) || cmd == SIOCGIWAP {
      HandledKnown(cmd);
    }
  }

  lemma Decision(tokens: seq<Token>, n: nat, memory: nat)
    requires n < |tokens| && (n > 0 ==> 0 < CellCount(tokens[..n]))
    ensures GivesUp(tokens, n, memory) <==>
      if tokens[n].cmd == SIOCGIWAP then CellCount(tokens[..n]) >= memory else CellCount(tokens[..n]) == 0
  {
    if n == 0 {
      assert tokens[..n] == [];
    }
  }

  lemma {:induction false} NoToken(src: Stream, s: StreamState)
    requires Step(src, s).ret <= 0
    ensures Run(src, s) == []
  {
  }

  /** The scan context: the head of the result list. */
  class ScanHead {
    var result: WirelessScan?
    ghost var nodes: seq<WirelessScan>

    constructor ()
      ensures result == null && nodes == []
    {
      result, nodes := null, [];
    }

    ghost predicate Valid(cells: seq<Cell>)
      reads this, nodes
    {
      Linked(result, nodes) && Holds(nodes, cells)
    }

    /** One round of the token loop: process a token and save the head of the list. */
    method Round(src: Stream, iwe: WirelessEvent, wscan: WirelessScan?, granted: bool, ghost cells: seq<Cell>)
        returns (last: WirelessScan?)
      requires Shaped(iwe.cmd, iwe.body)
      requires Valid(cells) && wscan == (if nodes == [] then null else nodes[|nodes| - 1])
      requires forall c :: c in cells ==> ValidCell(c)
      requires nodes == [] ==> !Updates(iwe.cmd)
      modifies this, if wscan == null then {} else {wscan}
      ensures last == null <==> (if iwe.cmd == SIOCGIWAP then !granted else cells == [])
      ensures last == null ==> nodes == old(nodes) && Valid(cells)
      ensures last != null ==> nodes != [] && last == nodes[|nodes| - 1]
      ensures last != null ==> Valid(AddToken(src, cells, iwe.cmd, iwe.body))
      ensures last != null ==> last == wscan || fresh(last)
    {
      hide Update, Shaped, ValidCell;
      last := ProcessToken(src, iwe, wscan, granted);
      if last == null {
        return;
      }
      if result == null {
        result := last;
      }
      if iwe.cmd == SIOCGIWAP {
        nodes := nodes + [last];
      }
    }

    /** Before the first token. */
    lemma {:induction false} Nothing(src: Stream)
      requires result == null && nodes == []
      ensures EventSpec.Valid(src, START)
      ensures AllShaped([]) && Cells(src, []) == [] && CellCount([]) == 0 && Valid([])
    {
    }

    /** The token loop of iw_process_scan; malloc succeeds for the first `memory` cells. */
    method ProcessTokens(src: Stream, memory: nat) returns (ret: int, ghost n: nat)
      requires src.descr == Describe
      requires Run(src, START) == [] || !Updates(Run(src, START)[0].cmd)
      modifies this
      ensures n <= |Run(src, START)| && AllShaped(Run(src, START)[..n])
      ensures forall i :: 0 <= i < n ==> !GivesUp(Run(src, START), i, memory)
      ensures n < |Run(src, START)| ==> GivesUp(Run(src, START), n, memory)
      ensures ret == if n == |Run(src, START)| then 0 else -1
      ensures Valid(Cells(src, Run(src, START)[..n]))
    {
      hide Step, Run, Shaped, AddToken, Update, Linked, Holds, CellCount, GivesUp, Cells, EventSpec.Valid, AllShaped;
      var stream := new StreamDescr.Init(src);
      var iwe := new WirelessEvent();
      ghost var tokens := Run(src, START);
      RunShaped(src, START);
      result, nodes, n := null, [], 0;
      Nothing(src);
      assert tokens[..0] == [];
      var wscan: WirelessScan? := null;
      var cellCount := 0;
      ret := 1;
      while ret > 0
        invariant stream.src == src && fresh(stream) && fresh(iwe) && (wscan != null ==> fresh(wscan))
        invariant n <= |tokens| && (ret > 0 ==> EventSpec.Valid(src, stream.State()))
        invariant if ret > 0 then tokens[n..] == Run(src, stream.State()) else n == |tokens|
        invariant forall i :: 0 <= i < n ==> !GivesUp(tokens, i, memory)
        invariant AllShaped(tokens[..n]) && Valid(Cells(src, tokens[..n]))
        invariant wscan == if nodes == [] then null else nodes[|nodes| - 1]
        invariant n > 0 ==> nodes != [] && 0 < CellCount(tokens[..n])
        invariant cellCount == CellCount(tokens[..n])
        decreases |tokens| - n, ret > 0
      {
        ghost var s := stream.State();
        ret := stream.Extract(iwe);
        if ret > 0 {
          OneToken(src, s, tokens, n, iwe.cmd, iwe.body);
          Decision(tokens, n, memory);
          wscan := Round(src, iwe, wscan, cellCount < memory, Cells(src, tokens[..n]));
          if wscan == null {
            return -1, n;
          }
          if iwe.cmd == SIOCGIWAP {
            cellCount := cellCount + 1;
          }
          n := n + 1;
        } else {
          NoToken(src, s);
        }
      }
      ret := 0;
    }
  }

  // ---- what each cell of the result holds

  /** A cell after the tokens of its segment. */
  function Close(src: Stream, c: Cell, segment: seq<Token>): (r: Cell)
    requires ValidCell(c) && AllShaped(segment)
    ensures ValidCell(r)
  {
    if segment == [] then c else
    var t := segment[|segment| - 1];
    Update(src, Close(src, c, segment[..|segment| - 1]), t.cmd, t.body)
  }

  /** The segment of the access point at a ends at b: with the tokens, or with the next access point. */
  predicate IsSegment(tokens: seq<Token>, a: nat, b: nat) {
    && a < b <= |tokens|
    && tokens[a].cmd == SIOCGIWAP
    && (forall j :: a < j < b ==> tokens[j].cmd != SIOCGIWAP)
    && (b < |tokens| ==> tokens[b].cmd == SIOCGIWAP)
  }

  /** One more token closes no segment but the last: it goes into the segment, or starts another. */
  lemma SegmentGrows(src: Stream, tokens: seq<Token>, a: nat, b: nat)
    requires AllShaped(tokens) && IsSegment(tokens, a, b) && a < |tokens| - 1
    ensures var before, t := tokens[..|tokens| - 1], tokens[|tokens| - 1];
      && AllShaped(before) && before[..a] == tokens[..a] && before[a] == tokens[a]
      && if b == |tokens| then
           && t.cmd != SIOCGIWAP && IsSegment(before, a, b - 1)
           && Close(src, NewCell(tokens[a].body.bytes), tokens[a + 1..b])
              == Update(src, Close(src, NewCell(tokens[a].body.bytes), before[a + 1..b - 1]), t.cmd, t.body)
         else
           IsSegment(before, a, b) && before[a + 1..b] == tokens[a + 1..b] && (b == |before| ==> t.cmd == SIOCGIWAP)
  {
    hide Update, Shaped, ValidCell;
    var last := |tokens| - 1;
    var before := tokens[..last];
    if b == |tokens| {
      var segment := tokens[a + 1..b];
      assert segment[|segment| - 1] == tokens[last] && segment[..|segment| - 1] == before[a + 1..last];
    } else {
      assert before[a + 1..b] == tokens[a + 1..b];
    }
  }

  /** The result has one cell for each access point token, in order, made of exactly the tokens of its segment. */
  lemma {:induction false} CellOfSegment(src: Stream, tokens: seq<Token>, a: nat, b: nat)
    requires AllShaped(tokens) && IsSegment(tokens, a, b)
    ensures var i := CellCount(tokens[..a]);
      && i < |Cells(src, tokens)|
      && (b < |tokens| <==> i + 1 < |Cells(src, tokens)|)
      && Cells(src, tokens)[i] == Close(src, NewCell(tokens[a].body.bytes), tokens[a + 1..b])
    decreases |tokens|
  {
    hide Update, Shaped, ValidCell, Close;
    var last := |tokens| - 1;
    if last == a {
      assert tokens[a + 1..b] == [];
      SegmentStarts(src, tokens[a]);
    } else {
      SegmentGrows(src, tokens, a, b);
      hide IsSegment;
      CellOfSegment(src, tokens[..last], a, if b <= last then b else last);
    }
  }

  lemma {:induction false} SegmentStarts(src: Stream, t: Token)
    requires Shaped(t.cmd, t.body) && t.cmd == SIOCGIWAP
    ensures ValidCell(NewCell(t.body.bytes)) && Close(src, NewCell(t.body.bytes), []) == NewCell(t.body.bytes)
  {
  }

  // ---- numbers, byte by byte

  /** The number in four bytes: the first counts least, the last greatest and with the sign. */
  function Signed32(b: seq<byte>): int
    requires 4 <= |b|
  {
    b[0] as int + 256 * b[1] as int + 65536 * b[2] as int
      + 16777216 * if b[3] < 128 then b[3] as int else b[3] as int - 256
  }

  lemma SignedIs(bytes: seq<byte>)
    requires 4 <= |bytes|
    ensures S32(bytes, 0) == Signed32(bytes)
  {
  }

  lemma RateIs(bytes: seq<byte>)
    requires |bytes| == 8
    ensures RateOf(bytes) == Signed32(bytes)
  {
    SignedIs(bytes);
    hide S32, Signed32;
  }

  /** m times ten to the e */
  function Hertz(m: int, e: int): real {
    if 0 <= e then m as real * Pow10(e) else m as real / Pow10(-e)
  }

  /** A frequency: mantissa in four bytes, exponent in two, then the index, which is not kept, and the flags. */
  lemma ChannelIs(bytes: seq<byte>)
    requires |bytes| == 8
    ensures var m, e := Signed32(bytes), bytes[4] as int + 256 * if bytes[5] < 128 then bytes[5] as int
                                                                 else bytes[5] as int - 256;
      ChannelOf(bytes) == Channel(Hertz(m, e), bytes[7])
  {
    SignedIs(bytes);
    hide Pow10, Signed32, S32;
  }

  /** The flag of an absent key is the twelfth bit, and the bits above and below stay. */
  lemma NoKeyIs(above: nat, flag: nat, below: nat)
    requires above < 16 && flag < 2 && below < 2048
    ensures 4096 * above + 2048 * flag + below < 0x1_0000
    ensures NoKey(4096 * above + 2048 * flag + below) == 4096 * above + 2048 + below
  {
    assert (4096 * above + 2048 * flag + below) / 2048 == 2 * above + flag;
  }

  /** Token number j of the segment is the first with the greatest rate. */
  predicate FirstGreatest(segment: seq<Token>, j: nat)
    requires AllShaped(segment)
  {
    && j < |segment| && segment[j].cmd == SIOCGIWRATE
    && (forall i :: 0 <= i < j && segment[i].cmd == SIOCGIWRATE ==>
        Signed32(segment[i].body.bytes) < Signed32(segment[j].body.bytes))
    && (forall i :: j < i < |segment| && segment[i].cmd == SIOCGIWRATE ==>
        Signed32(segment[i].body.bytes) <= Signed32(segment[j].body.bytes))
  }

  lemma UpdateRate(src: Stream, c: Cell, cmd: u16, body: Body)
    requires ValidCell(c) && Shaped(cmd, body)
    ensures Update(src, c, cmd, body).maxBitrate ==
      if cmd == SIOCGIWRATE && (c.maxBitrate.None? || Signed32(c.maxBitrate.value) < Signed32(body.bytes)) then
        Some(body.bytes)
      else c.maxBitrate
  {
    hide RateOf, Signed32, ChannelOf, S32;
    if cmd == SIOCGIWRATE {
      RateIs(body.bytes);
      if c.maxBitrate.Some? {
        RateIs(c.maxBitrate.value);
      }
    }
  }

  /** Index j holds the greatest rate of the segment, if it has one. */
  predicate Best(segment: seq<Token>, rate: Option<seq<byte>>, j: nat)
    requires AllShaped(segment)
  {
    && (rate.None? <==> forall i :: 0 <= i < |segment| ==> segment[i].cmd != SIOCGIWRATE)
    && (rate.Some? ==> FirstGreatest(segment, j) && rate.value == segment[j].body.bytes)
  }

  lemma BestOfMore(before: seq<Token>, rate: Option<seq<byte>>, j: nat, t: Token)
    requires AllShaped(before + [t]) && AllShaped(before) && Best(before, rate, j)
    ensures t.cmd != SIOCGIWRATE ==> Best(before + [t], rate, j)
    ensures t.cmd == SIOCGIWRATE && rate.Some? && Signed32(t.body.bytes) <= Signed32(rate.value) ==>
        Best(before + [t], rate, j)
    ensures t.cmd == SIOCGIWRATE && (rate.Some? ==> Signed32(rate.value) < Signed32(t.body.bytes)) ==>
      Best(before + [t], Some(t.body.bytes), |before|)
  {
    hide Signed32;
    var segment := before + [t];
    assert segment[|before|] == t;
    assert forall i :: 0 <= i < |before| ==> segment[i] == before[i];
  }

  /** The cell's bit rate is the greatest of its segment's rates, and absent when there is none. */
  lemma {:induction false} GreatestRate(src: Stream, addr: seq<byte>, segment: seq<Token>) returns (j: nat)
    requires AllShaped(segment)
    ensures Best(segment, Close(src, NewCell(addr), segment).maxBitrate, j)
  {
    j := 0;
    if segment == [] {
    } else {
      var last := |segment| - 1;
      var before, t := segment[..last], segment[last];
      hide Update, Signed32, Best;
      j := GreatestRate(src, addr, before);
      var cell := Close(src, NewCell(addr), before);
      UpdateRate(src, cell, t.cmd, t.body);
      BestOfMore(before, cell.maxBitrate, j, t);
      assert before + [t] == segment;
      if t.cmd == SIOCGIWRATE && (cell.maxBitrate.None? || Signed32(cell.maxBitrate.value) < Signed32(t.body.bytes)) {
        j := last;
      }
    }
  }

  /** The network name is that of the last name token. */
  lemma {:induction false} LastNetwork(src: Stream, addr: seq<byte>, segment: seq<Token>, j: nat)
    requires AllShaped(segment) && j < |segment| && segment[j].cmd == SIOCGIWESSID
    requires forall i :: j < i < |segment| ==> segment[i].cmd != SIOCGIWESSID
    ensures Close(src, NewCell(addr), segment).essid == Some(NetworkOf(src, segment[j].body))
  {
    var last := |segment| - 1;
    var before, t := segment[..last], segment[last];
    hide Update, NetworkOf, ValidCell, Shaped;
    UpdateNetwork(src, Close(src, NewCell(addr), before), t.cmd, t.body);
    if j < last {
      LastNetwork(src, addr, before, j);
    }
  }

  lemma UpdateNetwork(src: Stream, c: Cell, cmd: u16, body: Body)
    requires ValidCell(c) && Shaped(cmd, body)
    ensures cmd == SIOCGIWESSID ==> body.Pointer? && Update(src, c, cmd, body).essid == Some(NetworkOf(src, body))
    ensures cmd != SIOCGIWESSID ==> Update(src, c, cmd, body).essid == c.essid
  {
    hide NetworkOf;
  }
}
