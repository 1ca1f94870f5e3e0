/**
  The wireless event stream: a cursor over variable-length events, as driven by
  repeated extraction calls. The stream buffer is followed by four more bytes of
  memory, because a re-alignment of a truncated event reads that far.
 */
module EventStream {
  import opened Basics
  import opened WirelessTables

  datatype Input = Input(mem: seq<byte>, descr: DescrTable)

  /** The stream buffer followed by the four bytes of memory after it, and the descriptor tables in force. */
  type Stream = i: Input | 4 <= |i.mem| witness Input([0, 0, 0, 0], (c: u16) => None)

  function End(src: Stream): nat {
    |src.mem| - 4
  }

  /** The cursor: `current` event, and the next `value` inside it when there is one. */
  datatype StreamState = StreamState(current: nat, value: Option<nat>)

  const START := StreamState(0, None)

  /** What an extraction writes in the payload part of the event. */
  datatype Body =
    | Untouched
    | Value(bytes: seq<byte>)
    | Pointer(length: u16, flags: u16, data: Option<nat>)

  datatype Outcome = Outcome(ret: int, next: StreamState, body: Body)

  predicate HasHeader(src: Stream, cur: nat) {
    cur + LCP <= End(src)
  }

  function LenAt(src: Stream, cur: nat): u16
    requires HasHeader(src, cur)
  {
    U16(src.mem, cur)
  }

  function CmdAt(src: Stream, cur: nat): u16
    requires HasHeader(src, cur)
  {
    U16(src.mem, cur + 2)
  }

  function KindAt(src: Stream, cur: nat): HeaderType
    requires HasHeader(src, cur)
  {
    HeaderOf(src.descr, CmdAt(src, cur))
  }

  /** Where the first value of an event of fixed-size values starts. */
  function FirstOffset(h: HeaderType, len: nat): (off: nat)
    requires h.Fixed() && LCP < len
    ensures off == 4 || (off == 8 && 8 <= len)
  {
    if h.Mod(len - LCP) == 4 || (len == 12 && (h.UInt? || h.Qual?)) then 8 else 4
  }

  /** How many values such an event carries. */
  function ValueCount(h: HeaderType, len: nat): (n: nat)
    requires h.Fixed() && LCP < len
    ensures 1 <= n
  {
    var n := h.Div(len - FirstOffset(h, len));
    if n < 1 then 1 else n
  }

  /** A pointer event: length, flags and where the payload is, if it is accepted. */
  function DecodePoint(src: Stream, at: nat, len: u16, d: Descr): Body
    requires at + 4 <= End(src)
  {
    var length := U16(src.mem, at);
    var extra := Sub32(len, 8);
    if extra == 0 then Pointer(length, U16(src.mem, at + 2), None) else
    var realign := length * d.tokenSize != extra && 4 <= extra && U16(src.mem, at + 4) * d.tokenSize + 8 == extra;
    var fix := if realign then at + 4 else at;
    var data := if realign then at + 12 else at + 4;
    var length := U16(src.mem, fix);
    var bogus := extra < length * d.tokenSize
              || (d.maxTokens < length && !d.noMax)
              || length < d.minTokens;
    Pointer(length, U16(src.mem, fix + 2), if bogus then None else Some(data))
  }

  /** One extraction. */
  function Step(src: Stream, s: StreamState): Outcome {
    if !HasHeader(src, s.current) then Outcome(0, s, Untouched) else
    var len, h := LenAt(src, s.current), KindAt(src, s.current);
    if len <= LCP then Outcome(-1, s, Untouched) else
    var skipped := StreamState(s.current + len, s.value);
    if h.Null? then Outcome(2, skipped, Untouched) else
    var at := if s.value.Some? then s.value.value else s.current + LCP;
    if End(src) < at + h.Size() then Outcome(-2, skipped, Untouched) else
    if h.Point? then Outcome(1, skipped, DecodePoint(src, at, len, src.descr(CmdAt(src, s.current)).value)) else
    var from := if s.value.Some? then at else s.current + FirstOffset(h, len);
    var next := from + h.Size();
    Outcome(1,
      if next + h.Size() <= s.current + len then StreamState(s.current, Some(next))
        else StreamState(s.current + len, None),
      Value(src.mem[from..next]))
  }

  /** The values of an event. */
  lemma StepFixed(src: Stream, s: StreamState)
    requires HasHeader(src, s.current) && LCP < LenAt(src, s.current) && KindAt(src, s.current).Fixed()
    requires
      (if s.value.Some? then s.value.value else s.current + LCP) + KindAt(src, s.current).Size() <= End(src)
    ensures var h, end := KindAt(src, s.current), s.current + LenAt(src, s.current);
      var from := if s.value.Some? then s.value.value else s.current + FirstOffset(h, LenAt(src, s.current));
      var next := from + h.Size();
      && Step(src, s).body == Value(src.mem[from..next])
      && Step(src, s).next
         == if next + h.Size() <= end then StreamState(s.current, Some(next)) else StreamState(end, None)
  {
  }

  /** The struct an extraction fills; what it does not write keeps its old content. */
  class WirelessEvent {
    var len: u16
    var cmd: u16
    var body: Body

    constructor ()
      ensures body == Untouched
    {
      len, cmd, body := 0, 0, Untouched;
    }
  }

  /** The stream descriptor. */
  class StreamDescr {
    const src: Stream
    var current: nat
    var value: Option<nat>

    function State(): StreamState
      reads this
    {
      StreamState(current, value)
    }

    constructor Init(src: Stream)
      ensures this.src == src && State() == START
    {
      this.src := src;
      current, value := 0, None;
    }

    method Extract(iwe: WirelessEvent) returns (ret: int)
      modifies this, iwe
      ensures ret == Step(src, old(State())).ret && State() == Step(src, old(State())).next
      ensures ret == 0 ==> unchanged(iwe)
      ensures ret != 0 ==>
        && HasHeader(src, old(current))
        && iwe.len == LenAt(src, old(current)) && iwe.cmd == CmdAt(src, old(current))
      ensures ret == 1 ==> iwe.body == Step(src, old(State())).body
      ensures ret != 1 ==> iwe.body == old(iwe.body)
    {
      if End(src) < current + LCP {
        return 0;
      }
      iwe.len, iwe.cmd := U16(src.mem, current), U16(src.mem, current + 2);
      if iwe.len <= LCP {
        return -1;
      }
      var descr := src.descr(iwe.cmd);
      var eventType := if descr.Some? then descr.value.header else Null;
      var eventLen := LCP + eventType.Size();
      if eventLen <= LCP {
        current := current + iwe.len;
        return 2;
      }
      eventLen := eventLen - LCP;
      var pointer := if value.Some? then value.value else current + LCP;
      if End(src) < pointer + eventLen {
        current := current + iwe.len;
        return -2;
      }
      pointer := pointer + eventLen;
      if eventType.Point? {
        iwe.body := PointPayload(pointer, iwe.len, descr.value);
        current := current + iwe.len;
      } else {
        FixedPayload(iwe, pointer, eventType);
      }
      return 1;
    }

    /** The values of an event; `after` is past the value just reached. */
    method FixedPayload(iwe: WirelessEvent, after: nat, eventType: HeaderType)
      requires HasHeader(src, current) && iwe.len == LenAt(src, current) && LCP < iwe.len
      requires eventType.Fixed() && eventType == KindAt(src, current)
      requires eventType.Size() <= after <= End(src)
      requires after == (if value.Some? then value.value else current + LCP) + eventType.Size()
      modifies this, iwe`body
      ensures State() == Step(src, old(State())).next && iwe.body == Step(src, old(State())).body
    {
      hide Step;
      StepFixed(src, State());
      var pointer, eventLen := after, eventType.Size();
      eventType.SizeArithmetic(iwe.len - LCP);
      iwe.body := Value(src.mem[pointer - eventLen..pointer]);
      if value.None? && ((iwe.len - LCP) % eventLen == 4 || (iwe.len == 12 && (eventType.UInt? || eventType.Qual?))) {
        pointer := pointer - eventLen;
        pointer := pointer + 4;
        iwe.body := Value(src.mem[pointer..pointer + eventLen]);
        pointer := pointer + eventLen;
      }
      if pointer + eventLen <= current + iwe.len {
        value := Some(pointer);
      } else {
        value := None;
        current := current + iwe.len;
      }
    }

    /** The special processing of pointer events, after their fixed part was copied. */
    method PointPayload(after: nat, len: u16, descr: Descr) returns (body: Body)
      requires 4 <= after <= End(src)
      ensures body == DecodePoint(src, after - 4, len, descr)
    {
      var pointer := after;
      var length, flags := U16(src.mem, pointer - 4), U16(src.mem, pointer - 2);
      var data: Option<nat> := None;
      var extraLen := Sub32(len, 8);
      if extraLen > 0 {
        data := Some(pointer);
        var tokenLen := length * descr.tokenSize;
        if tokenLen != extraLen && extraLen >= 4 {
          var altDlen := U16(src.mem, pointer);
          var altTokenLen := altDlen * descr.tokenSize;
          if altTokenLen + 8 == extraLen {
            pointer := pointer - 4;
            pointer := pointer + 4;
            length, flags := U16(src.mem, pointer), U16(src.mem, pointer + 2);
            pointer := pointer + 4 + 4;
            data := Some(pointer);
            tokenLen := altTokenLen;
          }
        }
        if tokenLen > extraLen {
          data := None;
        }
        if length > descr.maxTokens && !descr.noMax {
          data := None;
        }
        if length < descr.minTokens {
          data := None;
        }
      }
      return Pointer(length, flags, data);
    }
  }
}
