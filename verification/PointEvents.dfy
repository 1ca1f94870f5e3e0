/** Pointer events: what the decoder makes of them, packed or with the 4+4 bytes of padding of a 64-bit kernel. */
module PointEvents {
  import opened Basics
  import opened WirelessTables
  import opened EventStream

  /** The descriptor allows a payload of this length. */
  predicate Allows(d: Descr, length: u16) {
    d.minTokens <= length && (d.noMax || length <= d.maxTokens)
  }

  /**
    An accepted payload has an allowed length, and it is length*token_size bytes inside
    the event exactly when the event has room for its length and flags. (Shorter events
    make the unsigned payload length wrap around.)
   */
  lemma PointerInside(src: Stream, cur: nat)
    requires HasHeader(src, cur) && LCP < LenAt(src, cur) && KindAt(src, cur).Point? && cur + 8 <= End(src)
    ensures var d := src.descr(CmdAt(src, cur)).value;
      var b := DecodePoint(src, cur + 4, LenAt(src, cur), d);
      b.data.Some? ==>
        && Allows(d, b.length)
        && ((cur + 8 <= b.data.value && b.data.value + b.length * d.tokenSize <= cur + LenAt(src, cur)) <==>
            8 <= LenAt(src, cur))
  {
    AcceptedInside(src, cur + 4, LenAt(src, cur), src.descr(CmdAt(src, cur)).value);
    hide DecodePoint, LenAt, CmdAt, KindAt;
  }

  lemma AcceptedInside(src: Stream, at: nat, len: u16, d: Descr)
    requires LCP < len && at + 4 <= End(src)
    ensures var b := DecodePoint(src, at, len, d);
      b.Pointer? && (b.data.Some? ==>
        && Allows(d, b.length) && at + 4 <= b.data.value
        && (b.data.value + b.length * d.tokenSize <= at - 4 + len <==> 8 <= len))
  {
    hide U16;
  }

  const IWEVCUSTOM := 0x8C02

  /** A custom event of five bytes that is given a payload of three bytes past its end. */
  lemma PointerOutside() returns (src: Stream)
    ensures End(src) == 8 && CmdAt(src, 0) == IWEVCUSTOM && LenAt(src, 0) == 5 && src.descr == Describe
    ensures KindAt(src, 0).Point? && DecodePoint(src, 4, 5, Describe(IWEVCUSTOM).value) == Pointer(3, 0, Some(8))
  {
    src := Input([5, 0, 0x02, 0x8C, 3, 0, 0, 0, 0, 0, 0, 0], Describe);
  }

  /** In an event too short for its length and flags, any payload that is allowed is accepted, whatever its size. */
  lemma ShortAccepted(src: Stream, at: nat, len: u16, d: Descr)
    requires LCP < len < 8 && at + 4 <= End(src)
    ensures var length := U16(src.mem, at);
      DecodePoint(src, at, len, d) ==
        Pointer(length, U16(src.mem, at + 2), if Allows(d, length) then Some(at + 4) else None)
  {
    hide U16;
    Product(U16(src.mem, at), d.tokenSize);
    Product(U16(src.mem, at + 4), d.tokenSize);
  }

  lemma {:induction false} Product(a: nat, b: u16)
    ensures a * b <= 65535 * a
  {
    if a == 0 {
    } else {
      Product(a - 1, b);
      assert a * b == (a - 1) * b + b;
    }
  }

  // ---- the two layouts

  /** The fields of a pointer event with n bytes of payload; in the padded layout four zero bytes come before them. */
  predicate LaidOut(src: Stream, cur: nat, pad: nat, length: u16, flags: u16, n: nat) {
    && pad in {0, 4} && cur + 2 * pad + 8 + n <= End(src) && 2 * pad + 8 + n < 0x1_0000
    && (pad == 4 ==> U16(src.mem, cur + 4) == 0 && U16(src.mem, cur + 6) == 0)
    && U16(src.mem, cur + pad + 4) == length && U16(src.mem, cur + pad + 6) == flags
  }

  /** The decoder's view of such an event. */
  function DecodeLaidOut(src: Stream, cur: nat, pad: nat, d: Descr, n: nat): Body
    requires pad in {0, 4} && cur + 2 * pad + 8 + n <= End(src) && 2 * pad + 8 + n < 0x1_0000
  {
    DecodePoint(src, cur + 4, 2 * pad + 8 + n, d)
  }

  /** A packed event whose payload starts as the fields of a padded one would. */
  predicate LooksPadded(src: Stream, cur: nat, d: Descr, length: u16, n: nat)
    requires cur + 8 + n <= End(src)
  {
    length * d.tokenSize != n && 8 <= n && U16(src.mem, cur + 8) * d.tokenSize + 8 == n
  }

  /** When the length is that of the payload, both layouts decode alike, and the payload is kept if it is allowed. */
  lemma LengthFits(src: Stream, cur: nat, pad: nat, d: Descr, length: u16, flags: u16, n: nat)
    requires LaidOut(src, cur, pad, length, flags, n) && n == length * d.tokenSize
    ensures DecodeLaidOut(src, cur, pad, d, n) ==
      Pointer(length, flags, if Allows(d, length) && (pad == 4 || 0 < n) then Some(cur + 2 * pad + 8) else None)
  {
    hide U16;
    assert 0 * d.tokenSize == 0;
  }

  /** When it is not, the padded layout is not recognised: the padding is taken for length and flags. */
  lemma PaddedMisread(src: Stream, cur: nat, d: Descr, length: u16, flags: u16, n: nat)
    requires LaidOut(src, cur, 4, length, flags, n) && n != length * d.tokenSize
    ensures DecodeLaidOut(src, cur, 4, d, n) == Pointer(0, 0, if d.minTokens == 0 then Some(cur + 8) else None)
  {
    hide U16;
    assert 0 * d.tokenSize == 0;
  }

  /** The packed layout keeps its length and flags, unless it looks padded, and loses a payload that is too short. */
  lemma PackedMisread(src: Stream, cur: nat, d: Descr, length: u16, flags: u16, n: nat)
    requires LaidOut(src, cur, 0, length, flags, n) && n != length * d.tokenSize
    ensures DecodeLaidOut(src, cur, 0, d, n) ==
      if LooksPadded(src, cur, d, length, n) then
        var inner := U16(src.mem, cur + 8);
        Pointer(inner, U16(src.mem, cur + 10), if Allows(d, inner) then Some(cur + 16) else None)
      else
        Pointer(length, flags, if length * d.tokenSize < n && Allows(d, length) then Some(cur + 8) else None)
  {
    hide U16, DecodePoint;
    var inner := U16(src.mem, cur + 8);
    PointDecoded(src, cur + 4, 8 + n, d, length * d.tokenSize, inner * d.tokenSize);
  }

  /** The decoder for an event with something after its fields, by the sizes that the two possible lengths denote. */
  lemma PointDecoded(src: Stream, at: nat, len: u16, d: Descr, size: nat, innerSize: nat)
    requires at + 4 <= End(src) && 8 <= len && (8 < len || size != 0) && size == U16(src.mem, at) * d.tokenSize
    requires innerSize == U16(src.mem, at + 4) * d.tokenSize
    ensures var extra, length, inner := len - 8, U16(src.mem, at), U16(src.mem, at + 4);
      DecodePoint(src, at, len, d) ==
        if size != extra && 4 <= extra && innerSize + 8 == extra then
          Pointer(inner, U16(src.mem, at + 6), if Allows(d, inner) then Some(at + 12) else None)
        else
          Pointer(length, U16(src.mem, at + 2), if size <= extra && Allows(d, length) then Some(at + 4) else None)
  {
    hide U16;
  }

  /**
    The same pointer event in both layouts decodes to the same length and flags exactly when its length is
    that of its payload, or the packed one reads as empty. In the first case a payload that is not empty is
    kept in both or dropped in both, and where it is kept it is found at its place.
   */
  lemma LayoutsAgree(
      src: Stream, cur: nat, src': Stream, cur': nat, d: Descr, length: u16, flags: u16, n: nat)
    requires LaidOut(src, cur, 0, length, flags, n) && LaidOut(src', cur', 4, length, flags, n)
    ensures var p, q := DecodeLaidOut(src, cur, 0, d, n), DecodeLaidOut(src', cur', 4, d, n);
      && p.Pointer? && q.Pointer?
      && (p.length == q.length && p.flags == q.flags <==>
        || n == length * d.tokenSize
        || if LooksPadded(src, cur, d, length, n) then U16(src.mem, cur + 8) == 0 && U16(src.mem, cur + 10) == 0
           else length == 0 && flags == 0)
      && (n == length * d.tokenSize && 0 < n ==>
        && p.length == length && p.flags == flags
        && p.data == (if Allows(d, length) then Some(cur + 8) else None)
        && q.data == (if Allows(d, length) then Some(cur' + 16) else None))
  {
    hide U16, DecodePoint, DecodeLaidOut;
    if n == length * d.tokenSize {
      LengthFits(src, cur, 0, d, length, flags, n);
      LengthFits(src', cur', 4, d, length, flags, n);
    } else {
      PackedMisread(src, cur, d, length, flags, n);
      PaddedMisread(src', cur', d, length, flags, n);
    }
  }

  /** A custom event that claims three bytes and carries one: only the packed one keeps length and flags. */
  lemma LayoutsDiffer() returns (src: Stream, src': Stream)
    ensures LaidOut(src, 0, 0, 3, 7, 1) && LaidOut(src', 0, 4, 3, 7, 1)
    ensures DecodeLaidOut(src, 0, 0, Describe(IWEVCUSTOM).value, 1) == Pointer(3, 7, None)
    ensures DecodeLaidOut(src', 0, 4, Describe(IWEVCUSTOM).value, 1) == Pointer(0, 0, Some(8))
  {
    src := Input([9, 0, 0x02, 0x8C, 3, 0, 7, 0, 65, 0, 0, 0, 0], Describe);
    src' := Input([17, 0, 0x02, 0x8C, 0, 0, 0, 0, 3, 0, 7, 0, 0, 0, 0, 0, 65, 0, 0, 0, 0], Describe);
  }
}
