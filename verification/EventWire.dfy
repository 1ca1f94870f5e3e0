/**
  The two layouts in which a kernel writes events (packed, or with the 4+4 bytes of
  padding of a 64-bit kernel under a 32-bit library), and what the decoder makes of them.
 */
module EventWire {
  import opened Basics
  import opened WirelessTables
  import opened EventStream
  import opened EventSpec
  import opened EventEnd
  import opened PointEvents

  /**
    An event lying inside the stream and long enough for one value is delivered whole,
    with as many values as fit after the length and command (but one for a 12-byte event
    of four-byte values, which is taken for a padded one).
   */
  lemma EventInside(src: Stream, cur: nat)
    requires HasHeader(src, cur) && KindAt(src, cur).Fixed()
    requires LCP + KindAt(src, cur).Size() <= LenAt(src, cur) && cur + LenAt(src, cur) <= End(src)
    ensures var s, len := KindAt(src, cur).Size(), LenAt(src, cur);
      && Whole(src, cur)
      && |EventTokens(src, cur)| == if s == 4 && len == 12 then 1 else (len - 4) / s
  {
    var h, len := KindAt(src, cur), LenAt(src, cur);
    CountInside(h, len);
  }

  /**
    Value number k of such an event is the k-th group of bytes, inside the event, from offset 8 when
    four bytes are left over (or in the 12-byte event of four-byte values), and from offset 4 otherwise.
   */
  lemma ValueInside(src: Stream, cur: nat, k: nat)
    requires HasHeader(src, cur) && KindAt(src, cur).Fixed()
    requires LCP + KindAt(src, cur).Size() <= LenAt(src, cur) && cur + LenAt(src, cur) <= End(src)
    requires k < |EventTokens(src, cur)|
    ensures ValueStart(src, cur, k) + KindAt(src, cur).Size() <= cur + LenAt(src, cur)
    ensures EventTokens(src, cur)[k] == ValueToken(src, cur, k)
    ensures var s, len := KindAt(src, cur).Size(), LenAt(src, cur);
      var first := if (len - 4) % s == 4 || (s == 4 && len == 12) then 8 else 4;
      && ValueStart(src, cur, k) == cur + first + k * s
      && EventTokens(src, cur)[k].body == Value(src.mem[ValueStart(src, cur, k)..][..s])
      && (EventTokens(src, cur)[k].more <==> k + 1 < |EventTokens(src, cur)|)
  {
    var h, len := KindAt(src, cur), LenAt(src, cur);
    CountInside(h, len);
    h.SizeArithmetic(len - LCP);
    h.SizeArithmetic(k);
    SliceTwice(src.mem, ValueStart(src, cur, k), h.Size());
  }

  lemma SliceTwice(mem: seq<byte>, from: nat, n: nat)
    requires from + n <= |mem|
    ensures mem[from..][..n] == mem[from..from + n]
  {
  }

  lemma CountInside(h: HeaderType, len: nat)
    requires h.Fixed() && LCP + h.Size() <= len
    ensures ValueCount(h, len) == if h.Size() == 4 && len == 12 then 1 else (len - 4) / h.Size()
    ensures ValueCount(h, len) <= (len - FirstOffset(h, len)) / h.Size()
  {
    match h
    case UInt =>
    case Qual =>
    case Freq =>
    case Param =>
    case Char =>
    case Addr =>
  }

  // ---- encoding

  datatype Layout = Packed | Padded

  datatype Wire =
    | Values(cmd: u16, vals: seq<seq<byte>>)
    | Payload(cmd: u16, length: u16, flags: u16, payload: seq<byte>)

  function Flat(vals: seq<seq<byte>>): seq<byte> {
    if vals == [] then [] else vals[0] + Flat(vals[1..])
  }

  const PAD: seq<byte> := [0, 0, 0, 0]

  /** What follows length and command. */
  function Content(e: Wire, layout: Layout): seq<byte> {
    var pad := if layout.Padded? then PAD else [];
    match e
    case Values(_, vals) => pad + Flat(vals)
    case Payload(_, length, flags, payload) => pad + Word(length) + Word(flags) + pad + payload
  }

  /** The events a driver may send. */
  predicate Sendable(table: DescrTable, e: Wire, layout: Layout) {
    && (match e
        case Values(cmd, vals) =>
          && HeaderOf(table, cmd).Fixed()
          && vals != []
          && forall v :: v in vals ==> |v| == HeaderOf(table, cmd).Size()
        case Payload(cmd, _, _, _) => HeaderOf(table, cmd).Point?)
    && LCP + |Content(e, layout)| < 0x1_0000
  }

  /**
    The event can be told from its bytes: values by a length that the decoder reads as this layout, a payload by
    a length field that is its own size and allowed. Without payload there is nothing to tell in a packed event.
   */
  predicate Recognisable(table: DescrTable, e: Wire, layout: Layout)
    requires Sendable(table, e, layout)
  {
    match e
    case Values(cmd, vals) =>
      HeaderOf(table, cmd).Size() == 4 ==> if layout.Packed? then |vals| != 2 else |vals| == 1
    case Payload(cmd, length, _, payload) =>
      var d := table(cmd).value;
      if payload == [] then layout.Packed? || length * d.tokenSize == 0
      else length * d.tokenSize == |payload| && Allows(d, length)
  }

  function Encode(table: DescrTable, e: Wire, layout: Layout): (r: seq<byte>)
    requires Sendable(table, e, layout)
  {
    var content := Content(e, layout);
    Word(LCP + |content|) + Word(e.cmd) + content
  }

  function EncodeAll(table: DescrTable, events: seq<Wire>, layout: Layout): seq<byte>
    requires forall e :: e in events ==> Sendable(table, e, layout)
  {
    if events == [] then [] else Encode(table, events[0], layout) + EncodeAll(table, events[1..], layout)
  }

  // ---- what a caller reads

  datatype View =
    | ValueView(cmd: u16, bytes: seq<byte>)
    | PayloadView(cmd: u16, length: u16, flags: u16, payload: seq<byte>)
    | Unknown(cmd: u16)

  /** The payload that length and pointer denote. */
  function Fetched(src: Stream, d: Option<Descr>, length: u16, data: Option<nat>): seq<byte> {
    var size := if d.Some? then length * d.value.tokenSize else 0;
    if data.Some? && data.value + size <= |src.mem| then src.mem[data.value..data.value + size] else []
  }

  /** The content of a token, following its payload pointer. */
  function ViewOf(src: Stream, t: Token): View {
    match t.body
    case Untouched => Unknown(t.cmd)
    case Value(bytes) => ValueView(t.cmd, bytes)
    case Pointer(length, flags, data) => PayloadView(t.cmd, length, flags, Fetched(src, src.descr(t.cmd), length, data))
  }

  function Views(src: Stream, tokens: seq<Token>): seq<View> {
    seq(|tokens|, i requires 0 <= i < |tokens| => ViewOf(src, tokens[i]))
  }

  function Sent(e: Wire): seq<View> {
    match e
    case Values(cmd, vals) => seq(|vals|, i requires 0 <= i < |vals| => ValueView(cmd, vals[i]))
    case Payload(cmd, length, flags, payload) => [PayloadView(cmd, length, flags, payload)]
  }

  function SentAll(events: seq<Wire>): seq<View> {
    if events == [] then [] else Sent(events[0]) + SentAll(events[1..])
  }

  // ---- round trip

  /** The stream holds an encoded event at cur. */
  predicate Holds(src: Stream, cur: nat, e: Wire, layout: Layout)
    requires Sendable(src.descr, e, layout)
  {
    var bytes := Encode(src.descr, e, layout);
    cur + |bytes| <= End(src) && src.mem[cur..cur + |bytes|] == bytes
  }

  lemma {:induction false} FlatLength(h: HeaderType, vals: seq<seq<byte>>)
    requires h.Fixed() && forall v :: v in vals ==> |v| == h.Size()
    ensures |Flat(vals)| == h.Times(|vals|)
  {
    if vals == [] {
    } else {
      FlatLength(h, vals[1..]);
    }
  }

  lemma {:induction false} FlatAt(h: HeaderType, vals: seq<seq<byte>>, k: nat)
    requires h.Fixed() && (forall v :: v in vals ==> |v| == h.Size()) && k <= |vals|
    ensures |Flat(vals)| == h.Times(|vals|)
    ensures k < |vals| ==>
      h.Times(k) + h.Size() <= |Flat(vals)| && Flat(vals)[h.Times(k)..h.Times(k) + h.Size()] == vals[k]
  {
    hide Flat;
    FlatLength(h, vals);
    if k < |vals| {
      FlatCons(vals);
      if k == 0 {
        assert Flat(vals)[..h.Size()] == vals[0];
      } else {
        FlatAt(h, vals[1..], k - 1);
        FlatShift(vals, h.Size(), h.Times(k - 1));
      }
    }
  }

  lemma {:induction false} FlatCons(vals: seq<seq<byte>>)
    requires vals != []
    ensures Flat(vals) == vals[0] + Flat(vals[1..])
  {
  }

  lemma {:induction false} FlatShift(vals: seq<seq<byte>>, size: nat, at: nat)
    requires vals != [] && |vals[0]| == size && at + size <= |Flat(vals[1..])|
    ensures |Flat(vals)| == size + |Flat(vals[1..])|
    ensures Flat(vals)[size + at..size + at + size] == Flat(vals[1..])[at..at + size]
  {
    assert Flat(vals) == vals[0] + Flat(vals[1..]);
    hide Flat;
    var flat, rest := Flat(vals), Flat(vals[1..]);
    assert flat[size + at..size + at + size] == rest[at..at + size];
  }

  /** Bytes and words of a piece of memory that is known to be `content`. */
  lemma SameBytes(mem: seq<byte>, at: nat, content: seq<byte>, from: nat, n: nat)
    requires at + |content| <= |mem| && mem[at..at + |content|] == content && from + n <= |content|
    ensures mem[at + from..at + from + n] == content[from..][..n]
    ensures 2 <= n ==> U16(mem, at + from) == U16(content[from..][..n], 0)
  {
    var piece, j := content[from..][..n], at + from;
    assert mem[j..j + n] == mem[at..at + |content|][from..][..n];
    if 2 <= n {
      assert mem[j] == mem[j..j + n][0] == piece[0];
      assert mem[j + 1] == mem[j..j + n][1] == piece[1];
    }
  }

  lemma HeaderBytes(src: Stream, cur: nat, e: Wire, layout: Layout)
    requires Sendable(src.descr, e, layout) && Holds(src, cur, e, layout)
    ensures HasHeader(src, cur) && LenAt(src, cur) == LCP + |Content(e, layout)| && CmdAt(src, cur) == e.cmd
    ensures cur + LenAt(src, cur) <= End(src)
    ensures src.mem[cur + LCP..cur + LCP + |Content(e, layout)|] == Content(e, layout)
  {
    hide Content, Sendable, U16;
    var content, bytes := Content(e, layout), Encode(src.descr, e, layout);
    EncodedPieces(src.descr, e, layout);
    SameBytes(src.mem, cur, bytes, 0, 2);
    SameBytes(src.mem, cur, bytes, 2, 2);
    SameBytes(src.mem, cur, bytes, LCP, |content|);
  }

  lemma EncodedPieces(table: DescrTable, e: Wire, layout: Layout)
    requires Sendable(table, e, layout)
    ensures var content, bytes := Content(e, layout), Encode(table, e, layout);
      && |bytes| == LCP + |content| && bytes[LCP..][..|content|] == content
      && U16(bytes[0..][..2], 0) == LCP + |content| && U16(bytes[2..][..2], 0) == e.cmd
  {
    hide Content, U16;
    var content, bytes := Content(e, layout), Encode(table, e, layout);
    assert bytes[0..][..2] == Word(LCP + |content|) && bytes[2..][..2] == Word(e.cmd);
  }

  /** Where the fields of a payload event are in the stream. */
  lemma PayloadBytes(src: Stream, cur: nat, e: Wire, layout: Layout)
    requires e.Payload? && Sendable(src.descr, e, layout) && Holds(src, cur, e, layout)
    ensures var pad := if layout.Padded? then 4 else 0;
      && HasHeader(src, cur) && LenAt(src, cur) == 2 * pad + 8 + |e.payload| && CmdAt(src, cur) == e.cmd
      && cur + LenAt(src, cur) <= End(src)
      && (layout.Padded? ==> U16(src.mem, cur + 4) == 0 && U16(src.mem, cur + 6) == 0)
      && U16(src.mem, cur + pad + 4) == e.length
      && U16(src.mem, cur + pad + 6) == e.flags
      && src.mem[cur + 2 * pad + 8..][..|e.payload|] == e.payload
  {
    hide Content, U16, Encode, Sendable, Holds, LenAt, CmdAt;
    HeaderBytes(src, cur, e, layout);
    ContentPieces(e, layout);
    var content, pad := Content(e, layout), if layout.Padded? then 4 else 0;
    var mem, at := src.mem, cur + LCP;
    assert layout.Padded? ==> U16(mem, at) == 0 && U16(mem, at + 2) == 0 by {
      SameBytes(mem, at, content, 0, 2);
      SameBytes(mem, at, content, 2, 2);
    }
    assert U16(mem, at + pad) == e.length by {
      SameBytes(mem, at, content, pad, 2);
    }
    assert U16(mem, at + pad + 2) == e.flags by {
      SameBytes(mem, at, content, pad + 2, 2);
    }
    assert mem[cur + 2 * pad + 8..][..|e.payload|] == e.payload by {
      SameBytes(mem, at, content, 2 * pad + 4, |e.payload|);
      SliceTwice(mem, at + 2 * pad + 4, |e.payload|);
    }
  }

  lemma ContentPieces(e: Wire, layout: Layout)
    requires e.Payload?
    ensures var content, pad := Content(e, layout), if layout.Padded? then 4 else 0;
      && |content| == 2 * pad + 4 + |e.payload|
      && (layout.Padded? ==> U16(content[0..][..2], 0) == 0 && U16(content[2..][..2], 0) == 0)
      && U16(content[pad..][..2], 0) == e.length
      && U16(content[pad + 2..][..2], 0) == e.flags
      && content[2 * pad + 4..][..|e.payload|] == e.payload
  {
  }

  /** What a caller reads of a payload event. */
  lemma PayloadSeen(src: Stream, cur: nat, e: Wire, layout: Layout)
    requires e.Payload? && Sendable(src.descr, e, layout) && Holds(src, cur, e, layout)
    ensures var pad := if layout.Padded? then 4 else 0;
      && HasHeader(src, cur) && LCP < LenAt(src, cur) && Whole(src, cur)
      && LaidOut(src, cur, pad, e.length, e.flags, |e.payload|)
      && var b := DecodeLaidOut(src, cur, pad, src.descr(e.cmd).value, |e.payload|);
      && |EventTokens(src, cur)| == 1 && EventTokens(src, cur)[0].cmd == e.cmd && EventTokens(src, cur)[0].body == b
  {
    hide U16, Content, Encode, Holds, DecodePoint;
    PayloadBytes(src, cur, e, layout);
  }

  /** With the right length, what is read is the payload or nothing. */
  lemma FitsSeen(src: Stream, cur: nat, e: Wire, pad: nat, d: Descr, b: Body)
    requires e.Payload? && LaidOut(src, cur, pad, e.length, e.flags, |e.payload|)
    requires src.mem[cur + 2 * pad + 8..][..|e.payload|] == e.payload &&
        b == DecodeLaidOut(src, cur, pad, d, |e.payload|)
    requires |e.payload| == e.length * d.tokenSize
    ensures b.Pointer? && b.length == e.length && b.flags == e.flags
    ensures Fetched(src, Some(d), b.length, b.data) == e.payload <==> e.payload == [] || Allows(d, e.length)
  {
    LengthFits(src, cur, pad, d, e.length, e.flags, |e.payload|);
    hide LaidOut, DecodeLaidOut;
    SliceTwice(src.mem, cur + 2 * pad + 8, |e.payload|);
  }

  /** With a wrong one a padded event is not read as it was sent. */
  lemma PaddedMisreadSeen(src: Stream, cur: nat, e: Wire, d: Descr)
    requires e.Payload? && LaidOut(src, cur, 4, e.length, e.flags, |e.payload|)
    requires |e.payload| != e.length * d.tokenSize
    ensures var b := DecodeLaidOut(src, cur, 4, d, |e.payload|);
      b.Pointer? && !(b.length == e.length && Fetched(src, Some(d), b.length, b.data) == e.payload)
  {
    PaddedMisread(src, cur, d, e.length, e.flags, |e.payload|);
    hide LaidOut, DecodeLaidOut;
    assert 0 * d.tokenSize == 0;
  }

  /** Nor is a packed one, except without payload. */
  lemma PackedMisreadSeen(src: Stream, cur: nat, e: Wire, d: Descr)
    requires e.Payload? && LaidOut(src, cur, 0, e.length, e.flags, |e.payload|)
    requires |e.payload| != e.length * d.tokenSize
    ensures var b := DecodeLaidOut(src, cur, 0, d, |e.payload|);
      && b.Pointer?
      && (b.length == e.length && b.flags == e.flags && Fetched(src, Some(d), b.length, b.data) == e.payload <==>
          e.payload == [])
  {
    var n := |e.payload|;
    PackedMisread(src, cur, d, e.length, e.flags, n);
    hide LaidOut, DecodeLaidOut, U16, Allows;
    var b := DecodeLaidOut(src, cur, 0, d, n);
    FetchedSize(src, d, b.length, b.data);
    hide Fetched;
  }

  lemma FetchedSize(src: Stream, d: Descr, length: u16, data: Option<nat>)
    ensures |Fetched(src, Some(d), length, data)| in {0, length * d.tokenSize}
    ensures data.None? ==> Fetched(src, Some(d), length, data) == []
  {
  }

  /** A payload event decodes to its length, flags and payload exactly when it is recognisable, in either layout. */
  lemma PayloadRoundTrip(src: Stream, cur: nat, e: Wire, layout: Layout)
    requires e.Payload? && Sendable(src.descr, e, layout) && Holds(src, cur, e, layout)
    ensures HasHeader(src, cur) && LCP < LenAt(src, cur) && Whole(src, cur)
    ensures Views(src, EventTokens(src, cur)) == Sent(e) <==> Recognisable(src.descr, e, layout)
  {
    PayloadBytes(src, cur, e, layout);
    PayloadSeen(src, cur, e, layout);
    var pad, d := if layout.Padded? then 4 else 0, src.descr(e.cmd).value;
    hide U16, Content, Encode, Holds, LaidOut, DecodeLaidOut, EventTokens, Whole, LenAt, CmdAt, Fetched, Allows;
    var t := EventTokens(src, cur)[0];
    assert Views(src, EventTokens(src, cur)) == [ViewOf(src, t)];
    if |e.payload| == e.length * d.tokenSize {
      FitsSeen(src, cur, e, pad, d, t.body);
    } else if pad == 4 {
      PaddedMisreadSeen(src, cur, e, d);
    } else {
      PackedMisreadSeen(src, cur, e, d);
    }
  }

  /** The length of an event of values tells how many there are, and where, exactly when it is recognisable. */
  lemma CountEncoded(h: HeaderType, n: nat, layout: Layout)
    requires h.Fixed() && 1 <= n
    ensures var pad := if layout.Padded? then 4 else 0;
      var len := LCP + pad + h.Times(n);
      var clear := h.Size() == 4 ==> if layout.Packed? then n != 2 else n == 1;
      if clear then ValueCount(h, len) == n && FirstOffset(h, len) == LCP + pad else ValueCount(h, len) != n
  {
  }

  /** Value number k in the content of an event of values. */
  lemma ContentValue(h: HeaderType, e: Wire, layout: Layout, k: nat)
    requires e.Values? && h.Fixed() && (forall v :: v in e.vals ==> |v| == h.Size()) && k < |e.vals|
    ensures var from := (if layout.Padded? then 4 else 0) + h.Times(k);
      && 0 <= from && from + h.Size() <= |Content(e, layout)|
      && Content(e, layout)[from..][..h.Size()] == e.vals[k]
  {
    hide Flat, Content;
    FlatAt(h, e.vals, k);
    ContentOfValues(e, layout);
    AfterPad(if layout.Padded? then PAD else [], Flat(e.vals), h.Times(k), h.Size());
  }

  lemma ContentOfValues(e: Wire, layout: Layout)
    requires e.Values?
    ensures Content(e, layout) == (if layout.Padded? then PAD else []) + Flat(e.vals)
  {
  }

  lemma AfterPad(pad: seq<byte>, flat: seq<byte>, at: nat, n: nat)
    requires at + n <= |flat|
    ensures (pad + flat)[|pad| + at..][..n] == flat[at..at + n]
  {
    var left, right := (pad + flat)[|pad| + at..][..n], flat[at..at + n];
    forall i | 0 <= i < n ensures left[i] == right[i] {
    }
  }

  /** Value number k is decoded as it was sent, when the layout was recognised. */
  lemma ValueDecoded(src: Stream, cur: nat, e: Wire, layout: Layout, k: nat)
    requires e.Values? && Sendable(src.descr, e, layout) && Holds(src, cur, e, layout) && k < |e.vals|
    requires HasHeader(src, cur) && CmdAt(src, cur) == e.cmd && LenAt(src, cur) == LCP + |Content(e, layout)|
    requires FirstOffset(KindAt(src, cur), LenAt(src, cur)) == LCP + if layout.Padded? then 4 else 0
    requires k < |EventTokens(src, cur)| && LCP + KindAt(src, cur).Size() <= LenAt(src, cur)
    requires cur + LenAt(src, cur) <= End(src)
    ensures ViewOf(src, EventTokens(src, cur)[k]) == ValueView(e.cmd, e.vals[k])
  {
    hide Content, Encode, U16, EventTokens, Holds, FirstOffset, CmdAt, LenAt;
    var h, content := KindAt(src, cur), Content(e, layout);
    HeaderBytes(src, cur, e, layout);
    ContentValue(h, e, layout, k);
    ValueInside(src, cur, k);
    var from := (if layout.Padded? then 4 else 0) + h.Times(k);
    SameBytes(src.mem, cur + LCP, content, from, h.Size());
    assert ValueStart(src, cur, k) == cur + LCP + from;
    var at := ValueStart(src, cur, k);
    SliceTwice(src.mem, at, h.Size());
    assert EventTokens(src, cur)[k].body == Value(e.vals[k]) && EventTokens(src, cur)[k].cmd == e.cmd;
  }

  /** An event of values decodes to its values exactly when its layout can be recognised. */
  lemma ValuesRoundTrip(src: Stream, cur: nat, e: Wire, layout: Layout)
    requires e.Values? && Sendable(src.descr, e, layout) && Holds(src, cur, e, layout)
    ensures HasHeader(src, cur) && LCP < LenAt(src, cur) && Whole(src, cur)
    ensures Views(src, EventTokens(src, cur)) == Sent(e) <==> Recognisable(src.descr, e, layout)
  {
    hide Encode, U16, Flat, LenAt, CmdAt, Returned, ValueCount, FirstOffset;
    var h, n := HeaderOf(src.descr, e.cmd), |e.vals|;
    HeaderBytes(src, cur, e, layout);
    FlatAt(h, e.vals, 0);
    CountEncoded(h, n, layout);
    EventInside(src, cur);
    assert |EventTokens(src, cur)| == ValueCount(h, LenAt(src, cur));
    if Recognisable(src.descr, e, layout) {
      forall k | 0 <= k < n ensures Views(src, EventTokens(src, cur))[k] == Sent(e)[k] {
        ValueDecoded(src, cur, e, layout, k);
      }
    }
  }

  /** Any event decodes to what was sent exactly when it is recognisable. */
  lemma EventRoundTrip(src: Stream, cur: nat, e: Wire, layout: Layout)
    requires Sendable(src.descr, e, layout) && Holds(src, cur, e, layout)
    ensures HasHeader(src, cur) && LCP < LenAt(src, cur) && Whole(src, cur)
    ensures LenAt(src, cur) == |Encode(src.descr, e, layout)|
    ensures Views(src, EventTokens(src, cur)) == Sent(e) <==> Recognisable(src.descr, e, layout)
  {
    HeaderBytes(src, cur, e, layout);
    hide Views, EventTokens, Sent, Recognisable, Holds, U16, Whole;
    if e.Payload? {
      PayloadRoundTrip(src, cur, e, layout);
    } else {
      ValuesRoundTrip(src, cur, e, layout);
    }
  }

  lemma ViewsConcat(src: Stream, a: seq<Token>, b: seq<Token>)
    ensures Views(src, a + b) == Views(src, a) + Views(src, b)
  {
  }

  /** A stream is a list of encoded events from cur on. */
  predicate Stored(src: Stream, cur: nat, events: seq<Wire>, layout: Layout) {
    && (forall e :: e in events ==> Sendable(src.descr, e, layout) && Recognisable(src.descr, e, layout))
    && cur <= End(src) && src.mem[cur..End(src)] == EncodeAll(src.descr, events, layout)
  }

  lemma StoredHead(src: Stream, cur: nat, events: seq<Wire>, layout: Layout)
    requires Stored(src, cur, events, layout) && events != []
    ensures HasHeader(src, cur) && LCP < LenAt(src, cur) && Whole(src, cur)
    ensures Views(src, EventTokens(src, cur)) == Sent(events[0])
    ensures Stored(src, cur + LenAt(src, cur), events[1..], layout)
  {
    hide Encode, EventTokens, Views, Whole, KindAt, Sendable, Recognisable, Sent, LenAt;
    var bytes := Encode(src.descr, events[0], layout);
    assert src.mem[cur..cur + |bytes|] == src.mem[cur..End(src)][..|bytes|];
    EventRoundTrip(src, cur, events[0], layout);
    var next := cur + LenAt(src, cur);
    assert src.mem[next..End(src)] == src.mem[cur..End(src)][|bytes|..];
    assert EncodeAll(src.descr, events, layout)[|bytes|..] == EncodeAll(src.descr, events[1..], layout);
  }

  lemma {:induction false} ParseEncoded(src: Stream, cur: nat, events: seq<Wire>, layout: Layout)
    requires Stored(src, cur, events, layout)
    ensures Views(src, Parse(src, cur)) == SentAll(events)
    decreases |events|
  {
    hide EventTokens, Views, Whole, KindAt, Sendable, Recognisable, Sent, LenAt, Stored;
    if events == [] {
      NothingStored(src, cur, layout);
      NoViews(src);
    } else {
      StoredHead(src, cur, events, layout);
      var next := cur + LenAt(src, cur);
      ParseEncoded(src, next, events[1..], layout);
      ViewsConcat(src, EventTokens(src, cur), Parse(src, next));
    }
  }

  lemma NoViews(src: Stream)
    ensures Views(src, []) == []
  {
  }

  lemma {:induction false} NothingStored(src: Stream, cur: nat, layout: Layout)
    requires Stored(src, cur, [], layout)
    ensures Parse(src, cur) == [] && ParseEnd(src, cur) == 0
  {
    assert |src.mem[cur..End(src)]| == 0;
  }

  lemma {:induction false} EndEncoded(src: Stream, cur: nat, events: seq<Wire>, layout: Layout)
    requires Stored(src, cur, events, layout)
    ensures ParseEnd(src, cur) == 0
    decreases |events|
  {
    hide EventTokens, Whole, Sendable, Recognisable, Stored, ParseEnd, LenAt, Views, Sent;
    if events == [] {
      NothingStored(src, cur, layout);
    } else {
      StoredHead(src, cur, events, layout);
      WholeEnd(src, cur);
      EndEncoded(src, cur + LenAt(src, cur), events[1..], layout);
    }
  }

  /**
    Repeated extraction inverts the encoding of any list of events, in the packed layout
    and in the padded one, so both give the caller the same values and payloads, and ends
    at the end of the stream.
   */
  lemma {:induction false} StreamRoundTrip(src: Stream, events: seq<Wire>, layout: Layout)
    requires forall e :: e in events ==> Sendable(src.descr, e, layout) && Recognisable(src.descr, e, layout)
    requires src.mem[..End(src)] == EncodeAll(src.descr, events, layout)
    ensures Views(src, Run(src, START)) == SentAll(events)
    ensures RunEnd(src, START) == 0
  {
    assert src.mem[0..End(src)] == src.mem[..End(src)];
    ParseEncoded(src, 0, events, layout);
    EndEncoded(src, 0, events, layout);
    hide Run, Parse, RunEnd, ParseEnd, Stored, Views, SentAll, EncodeAll;
    RunRefinesParse(src, 0);
    RunEndRefinesParse(src, 0);
  }
}
