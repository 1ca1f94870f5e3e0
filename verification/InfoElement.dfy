/**
  Information elements of a beacon, as the scan printer decodes them. An element is
  given as the memory from its first byte on.
 */
module InfoElement {
  import opened Basics

  const RSN_ID: byte := 0x30
  const VENDOR_ID: byte := 0xdd
  const WPA1_OUI: seq<byte> := [0x00, 0x50, 0xf2]
  const WPA2_OUI: seq<byte> := [0x00, 0x0f, 0xac]

  /** A cipher or key management suite, as printed: by its type, or as a foreign one. */
  datatype Suite = Standard(kind: byte) | Proprietary

  /** A line of output; a list is None when the element is too short for its count. */
  datatype Line =
    | Unknown(bytes: seq<byte>)
    | Version(id: byte, number: u16)
    | GroupCipher(suite: Suite)
    | DefaultGroup
    | DefaultPairwise
    | PairwiseCiphers(count: u16, suites: Option<seq<Suite>>)
    | AuthSuites(count: u16, suites: Option<seq<Suite>>)
    | Preauthentication

  function Min(a: nat, b: nat): nat {
    if a < b then a else b
  }

  /** The part of an element the decoder trusts: its claimed length, within the buffer. */
  function Extent(ie: seq<byte>, buflen: nat): nat
    requires 2 <= |ie|
  {
    var claimed: int := ie[1];
    Min(claimed + 2, buflen)
  }

  function SuiteAt(ie: seq<byte>, offset: nat, oui: seq<byte>): Suite
    requires offset + 4 <= |ie|
  {
    if ie[offset..offset + 3] != oui then Proprietary else Standard(ie[offset + 3])
  }

  function SuitesAt(ie: seq<byte>, offset: nat, n: nat, oui: seq<byte>): seq<Suite>
    requires offset + 4 * n <= |ie|
  {
    seq(n, i requires 0 <= i < n => SuiteAt(ie, offset + 4 * i, oui))
  }

  // Each part of the decoder, from its offset on.

  function CapabilitiesAt(ie: seq<byte>, ielen: nat, offset: nat): seq<Line>
    requires ielen <= |ie|
  {
    if ielen < offset + 1 then [] else
    if ie[offset] % 2 == 1 then [Preauthentication] else []
  }

  function Authentication(ie: seq<byte>, ielen: nat, offset: nat, oui: seq<byte>): seq<Line>
    requires ielen <= |ie|
  {
    if ielen < offset + 2 then [] else
    var count: int := U16(ie, offset);
    if ielen < offset + 2 + 4 * count then [AuthSuites(count, None)] else
    [AuthSuites(count, Some(SuitesAt(ie, offset + 2, count, oui)))] + CapabilitiesAt(ie, ielen, offset + 2 + 4 * count)
  }

  function Pairwise(ie: seq<byte>, ielen: nat, offset: nat, oui: seq<byte>): seq<Line>
    requires ielen <= |ie|
  {
    if ielen < offset + 2 then [DefaultPairwise] else
    var count: int := U16(ie, offset);
    if ielen < offset + 2 + 4 * count then [PairwiseCiphers(count, None)] else
    [PairwiseCiphers(count, Some(SuitesAt(ie, offset + 2, count, oui)))] +
      Authentication(ie, ielen, offset + 2 + 4 * count, oui)
  }

  function Group(ie: seq<byte>, ielen: nat, offset: nat, oui: seq<byte>): seq<Line>
    requires ielen <= |ie|
  {
    if ielen < offset + 4 then [DefaultGroup, DefaultPairwise] else
    [GroupCipher(SuiteAt(ie, offset, oui))] + Pairwise(ie, ielen, offset + 4, oui)
  }

  predicate IsWpa1(ie: seq<byte>, ielen: nat)
    requires ielen <= |ie|
  {
    8 <= ielen && ie[2..5] == WPA1_OUI && ie[5] == 1
  }

  /** What is printed for an element of the given extent. */
  function Decode(ie: seq<byte>, ielen: nat): seq<Line>
    requires 2 <= |ie| && ielen <= |ie|
  {
    if ie[0] == RSN_ID && 4 <= ielen then
      [Version(RSN_ID, U16(ie, 2))] + Group(ie, ielen, 4, WPA2_OUI)
    else if ie[0] == VENDOR_ID && IsWpa1(ie, ielen) then
      [Version(VENDOR_ID, U16(ie, 6))] + Group(ie, ielen, 8, WPA1_OUI)
    else [Unknown(ie[..ielen])]
  }

  /** iw_print_ie_unknown */
  method PrintUnknown(ie: seq<byte>, buflen: nat) returns (lines: seq<Line>)
    requires 2 <= |ie| && Extent(ie, buflen) <= |ie|
    ensures lines == [Unknown(ie[..Extent(ie, buflen)])]
  {
    var ielen: int := ie[1];
    ielen := ielen + 2;
    if ielen > buflen {
      ielen := buflen;
    }
    var bytes: seq<byte> := [];
    var i := 0;
    while i < ielen
      invariant 0 <= i <= ielen && bytes == ie[..i]
    {
      bytes := bytes + [ie[i]];
      i := i + 1;
    }
    return [Unknown(bytes)];
  }

  /** A list of suites, and the offset after it. */
  method PrintSuites(ie: seq<byte>, start: nat, cnt: nat, oui: seq<byte>) returns (suites: seq<Suite>, offset: nat)
    requires start + 4 * cnt <= |ie|
    ensures suites == SuitesAt(ie, start, cnt, oui) && offset == start + 4 * cnt
  {
    offset := start;
    suites := [];
    var i := 0;
    while i < cnt
      invariant i <= cnt && offset == start + 4 * i
      invariant |suites| == i && forall j :: 0 <= j < i ==> suites[j] == SuiteAt(ie, start + 4 * j, oui)
    {
      if ie[offset..offset + 3] != oui {
        suites := suites + [Proprietary];
      } else {
        suites := suites + [Standard(ie[offset + 3])];
      }
      offset := offset + 4;
      i := i + 1;
    }
  }

  /** iw_print_ie_wpa, for an element that iw_print_gen_ie passes to it. Its optional parts follow below. */
  method PrintWpa(ie: seq<byte>, buflen: nat) returns (lines: seq<Line>)
    requires 2 <= |ie| && Extent(ie, buflen) <= |ie| && ie[0] in {RSN_ID, VENDOR_ID}
    ensures lines == Decode(ie, Extent(ie, buflen))
  {
    var ielen: int := ie[1];
    ielen := ielen + 2;
    var offset := 2;
    var oui := WPA2_OUI;
    if ielen > buflen {
      ielen := buflen;
    }
    if ie[0] == RSN_ID {
      if ielen < 4 {
        lines := PrintUnknown(ie, buflen);
        return;
      }
    } else {
      oui := WPA1_OUI;
      if ielen < 8 || ie[offset..offset + 3] != oui || ie[offset + 3] != 1 {
        lines := PrintUnknown(ie, buflen);
        return;
      }
      offset := offset + 4;
    }
    var ver := U16(ie, offset);
    offset := offset + 2;
    var rest := PrintGroup(ie, ielen, offset, oui);
    return [Version(ie[0], ver)] + rest;
  }

  // The optional parts, in the order in which iw_print_ie_wpa goes through them.

  method PrintGroup(ie: seq<byte>, ielen: nat, offset: nat, oui: seq<byte>) returns (lines: seq<Line>)
    requires ielen <= |ie|
    ensures lines == Group(ie, ielen, offset, oui)
  {
    if ielen < offset + 4 {
      return [DefaultGroup, DefaultPairwise];
    }
    if ie[offset..offset + 3] != oui {
      lines := [GroupCipher(Proprietary)];
    } else {
      lines := [GroupCipher(Standard(ie[offset + 3]))];
    }
    var rest := PrintPairwise(ie, ielen, offset + 4, oui);
    return lines + rest;
  }

  method PrintPairwise(ie: seq<byte>, ielen: nat, start: nat, oui: seq<byte>) returns (lines: seq<Line>)
    requires ielen <= |ie|
    ensures lines == Pairwise(ie, ielen, start, oui)
  {
    hide SuitesAt, U16, Authentication;
    var offset := start;
    if ielen < offset + 2 {
      return [DefaultPairwise];
    }
    var cnt := U16(ie, offset);
    var n: int := cnt;
    offset := offset + 2;
    if ielen < offset + 4 * n {
      return [PairwiseCiphers(cnt, None)];
    }
    var suites: seq<Suite>;
    suites, offset := PrintSuites(ie, offset, n, oui);
    var rest := PrintAuthentication(ie, ielen, offset, oui);
    return [PairwiseCiphers(cnt, Some(suites))] + rest;
  }

  method PrintAuthentication(ie: seq<byte>, ielen: nat, start: nat, oui: seq<byte>) returns (lines: seq<Line>)
    requires ielen <= |ie|
    ensures lines == Authentication(ie, ielen, start, oui)
  {
    hide SuitesAt, U16;
    var offset := start;
    if ielen < offset + 2 {
      return [];
    }
    var cnt := U16(ie, offset);
    var n: int := cnt;
    offset := offset + 2;
    if ielen < offset + 4 * n {
      return [AuthSuites(cnt, None)];
    }
    var suites: seq<Suite>;
    suites, offset := PrintSuites(ie, offset, n, oui);
    lines := [AuthSuites(cnt, Some(suites))];
    if ielen < offset + 1 {
      return;
    }
    if ie[offset] % 2 == 1 {
      lines := lines + [Preauthentication];
    }
  }

  // ---- nothing else is read

  /** The decoder depends on the two header bytes and on the bytes of the extent only. */
  lemma ReadsExtent(ie: seq<byte>, ielen: nat)
    requires 2 <= |ie| && ielen <= |ie|
    ensures var part := ie[..if ielen < 2 then 2 else ielen]; Decode(part, ielen) == Decode(ie, ielen)
  {
    hide Group;
    if 4 <= ielen {
      var part := ie[..ielen];
      assert part[..ielen] == ie[..ielen];
      if ie[0] == RSN_ID {
        GroupReads(ie, ielen, 4, WPA2_OUI);
      } else if ie[0] == VENDOR_ID && 8 <= ielen {
        SliceRead(ie, ielen, 2, 5);
        GroupReads(ie, ielen, 8, WPA1_OUI);
      }
    } else {
      var part := ie[..if ielen < 2 then 2 else ielen];
      assert part[..ielen] == ie[..ielen];
    }
  }

  lemma SliceRead(ie: seq<byte>, ielen: nat, from: nat, to: nat)
    requires from <= to <= ielen <= |ie|
    ensures ie[..ielen][from..to] == ie[from..to]
  {
  }

  lemma WordRead(ie: seq<byte>, ielen: nat, offset: nat)
    requires offset + 2 <= ielen <= |ie|
    ensures U16(ie[..ielen], offset) == U16(ie, offset)
  {
  }

  lemma SuitesRead(ie: seq<byte>, ielen: nat, offset: nat, n: nat, oui: seq<byte>)
    requires ielen <= |ie| && offset + 4 * n <= ielen
    ensures SuitesAt(ie[..ielen], offset, n, oui) == SuitesAt(ie, offset, n, oui)
  {
    forall i | 0 <= i < n ensures SuiteAt(ie[..ielen], offset + 4 * i, oui) == SuiteAt(ie, offset + 4 * i, oui) {
      var at := offset + 4 * i;
      SliceRead(ie, ielen, at, at + 3);
    }
  }

  lemma GroupReads(ie: seq<byte>, ielen: nat, offset: nat, oui: seq<byte>)
    requires ielen <= |ie|
    ensures Group(ie[..ielen], ielen, offset, oui) == Group(ie, ielen, offset, oui)
  {
    if offset + 4 <= ielen {
      SuitesRead(ie, ielen, offset, 1, oui);
      assert SuiteAt(ie[..ielen], offset, oui) == SuitesAt(ie[..ielen], offset, 1, oui)[0];
      assert SuiteAt(ie, offset, oui) == SuitesAt(ie, offset, 1, oui)[0];
      PairwiseReads(ie, ielen, offset + 4, oui);
    }
  }

  lemma PairwiseReads(ie: seq<byte>, ielen: nat, offset: nat, oui: seq<byte>)
    requires ielen <= |ie|
    ensures Pairwise(ie[..ielen], ielen, offset, oui) == Pairwise(ie, ielen, offset, oui)
  {
    hide SuitesAt, Authentication;
    if offset + 2 <= ielen {
      WordRead(ie, ielen, offset);
      hide U16;
      var count: int := U16(ie, offset);
      if offset + 2 + 4 * count <= ielen {
        SuitesRead(ie, ielen, offset + 2, count, oui);
        AuthenticationReads(ie, ielen, offset + 2 + 4 * count, oui);
      }
    }
  }

  lemma AuthenticationReads(ie: seq<byte>, ielen: nat, offset: nat, oui: seq<byte>)
    requires ielen <= |ie|
    ensures Authentication(ie[..ielen], ielen, offset, oui) == Authentication(ie, ielen, offset, oui)
  {
    hide SuitesAt;
    if offset + 2 <= ielen {
      WordRead(ie, ielen, offset);
      hide U16;
      var count: int := U16(ie, offset);
      if offset + 2 + 4 * count <= ielen {
        SuitesRead(ie, ielen, offset + 2, count, oui);
      }
    }
  }

  // ---- encoding (section 7.3.2.25 of IEEE 802.11-2007, and the vendor form that came before it)

  type Oui = o: seq<byte> | |o| == 3 witness [0, 0, 0]

  datatype RawSuite = RawSuite(oui: Oui, kind: byte)

  /** The capabilities, and what follows them: a count and list of key identifiers, and later additions. */
  datatype Capabilities = NoCapabilities | Capable(flags: u16, more: seq<byte>)

  datatype AuthPart = NoAuth | Auth(suites: seq<RawSuite>, capabilities: Capabilities)

  /** The optional fields after the version, each of which may be the last. */
  datatype Fields =
    | NoFields
    | OnlyGroup(group: RawSuite)
    | Lists(group: RawSuite, pairwise: seq<RawSuite>, auth: AuthPart)

  datatype Security = Security(wpa1: bool, version: u16, fields: Fields) {
    function SuiteOui(): seq<byte> {
      if wpa1 then WPA1_OUI else WPA2_OUI
    }

    function Id(): byte {
      if wpa1 then VENDOR_ID else RSN_ID
    }

    function Content(): seq<byte>
      requires Countable(fields)
    {
      (if wpa1 then WPA1_OUI + [1] else []) + Word(version) + FieldBytes(fields)
    }

    /** The counts fit in two bytes and the element in its length byte. */
    predicate Fits() {
      Countable(fields) && |Content()| < 0x100
    }

    function Encode(): seq<byte>
      requires Fits()
    {
      [Id(), |Content()|] + Content()
    }
  }

  predicate Countable(f: Fields) {
    f.Lists? ==> |f.pairwise| < 0x1_0000 && (f.auth.Auth? ==> |f.auth.suites| < 0x1_0000)
  }

  function SuiteBytes(s: RawSuite): (r: seq<byte>)
    ensures |r| == 4
  {
    s.oui + [s.kind]
  }

  function ListBytes(list: seq<RawSuite>): (r: seq<byte>)
    ensures |r| == 4 * |list|
  {
    if list == [] then [] else SuiteBytes(list[0]) + ListBytes(list[1..])
  }

  function CountedBytes(list: seq<RawSuite>): (r: seq<byte>)
    requires |list| < 0x1_0000
    ensures |r| == 2 + 4 * |list|
  {
    Word(|list|) + ListBytes(list)
  }

  function AuthBytes(a: AuthPart): seq<byte>
    requires a.Auth? ==> |a.suites| < 0x1_0000
  {
    match a
    case NoAuth => []
    case Auth(suites, capabilities) => CountedBytes(suites) + CapabilityBytes(capabilities)
  }

  function CapabilityBytes(c: Capabilities): seq<byte> {
    match c
    case NoCapabilities => []
    case Capable(flags, more) => Word(flags) + more
  }

  function FieldBytes(f: Fields): seq<byte>
    requires Countable(f)
  {
    match f
    case NoFields => []
    case OnlyGroup(g) => SuiteBytes(g)
    case Lists(g, p, a) => SuiteBytes(g) + (CountedBytes(p) + AuthBytes(a))
  }

  // ---- what should be printed

  function Shown(s: RawSuite, oui: seq<byte>): Suite {
    if s.oui == oui then Standard(s.kind) else Proprietary
  }

  function AllShown(list: seq<RawSuite>, oui: seq<byte>): seq<Suite> {
    seq(|list|, i requires 0 <= i < |list| => Shown(list[i], oui))
  }

  function CapabilityLines(c: Capabilities): seq<Line> {
    if c.Capable? && c.flags % 2 == 1 then [Preauthentication] else []
  }

  function AuthLines(a: AuthPart, oui: seq<byte>): seq<Line>
    requires a.Auth? ==> |a.suites| < 0x1_0000
  {
    match a
    case NoAuth => []
    case Auth(suites, capabilities) =>
      [AuthSuites(|suites|, Some(AllShown(suites, oui)))] + CapabilityLines(capabilities)
  }

  function FieldLines(f: Fields, oui: seq<byte>): seq<Line>
    requires Countable(f)
  {
    match f
    case NoFields => [DefaultGroup, DefaultPairwise]
    case OnlyGroup(g) => [GroupCipher(Shown(g, oui)), DefaultPairwise]
    case Lists(g, p, a) =>
      [GroupCipher(Shown(g, oui))] + ([PairwiseCiphers(|p|, Some(AllShown(p, oui)))] + AuthLines(a, oui))
  }

  // ---- the decoder inverts the encoder

  /** Bytes from `offset` up to the extent. */
  predicate At(ie: seq<byte>, ielen: nat, offset: nat, bytes: seq<byte>) {
    offset + |bytes| == ielen <= |ie| && ie[offset..ielen] == bytes
  }

  lemma AtSplit(ie: seq<byte>, ielen: nat, offset: nat, a: seq<byte>, b: seq<byte>)
    requires At(ie, ielen, offset, a + b)
    ensures ie[offset..offset + |a|] == a && At(ie, ielen, offset + |a|, b)
  {
    assert ie[offset..offset + |a|] == ie[offset..ielen][..|a|];
    assert ie[offset + |a|..ielen] == ie[offset..ielen][|a|..];
  }

  lemma WordAt(ie: seq<byte>, offset: nat, n: u16)
    requires offset + 2 <= |ie| && ie[offset..offset + 2] == Word(n)
    ensures U16(ie, offset) == n
  {
    assert ie[offset] == ie[offset..offset + 2][0] && ie[offset + 1] == ie[offset..offset + 2][1];
  }

  lemma SuiteDecoded(ie: seq<byte>, offset: nat, s: RawSuite, oui: seq<byte>)
    requires offset + 4 <= |ie| && ie[offset..offset + 4] == SuiteBytes(s)
    ensures SuiteAt(ie, offset, oui) == Shown(s, oui)
  {
    assert ie[offset..offset + 3] == ie[offset..offset + 4][..3];
    assert ie[offset + 3] == ie[offset..offset + 4][3];
  }

  lemma {:induction false} ListAt(list: seq<RawSuite>, i: nat)
    requires i < |list|
    ensures ListBytes(list)[4 * i..4 * i + 4] == SuiteBytes(list[i])
  {
    if i == 0 {
    } else {
      ListAt(list[1..], i - 1);
      assert ListBytes(list)[4 * i..4 * i + 4] == ListBytes(list[1..])[4 * (i - 1)..4 * (i - 1) + 4];
    }
  }

  lemma SubSlice(ie: seq<byte>, from: nat, to: nat, a: nat, b: nat)
    requires from <= to <= |ie| && a <= b <= to - from
    ensures ie[from..to][a..b] == ie[from + a..from + b]
  {
    var left, right := ie[from..to][a..b], ie[from + a..from + b];
    forall i | 0 <= i < b - a ensures left[i] == right[i] {
      assert left[i] == ie[from..to][a + i];
    }
  }

  lemma {:induction false} ListDecoded(ie: seq<byte>, offset: nat, list: seq<RawSuite>, oui: seq<byte>)
    requires offset + 4 * |list| <= |ie| && ie[offset..offset + 4 * |list|] == ListBytes(list)
    ensures SuitesAt(ie, offset, |list|, oui) == AllShown(list, oui)
  {
    hide ListBytes, SuiteBytes, Shown, SuiteAt;
    forall i | 0 <= i < |list| ensures SuiteAt(ie, offset + 4 * i, oui) == Shown(list[i], oui) {
      ListAt(list, i);
      SubSlice(ie, offset, offset + 4 * |list|, 4 * i, 4 * i + 4);
      SuiteDecoded(ie, offset + 4 * i, list[i], oui);
    }
  }

  /** A counted list and what follows it. */
  lemma CountedDecoded(ie: seq<byte>, ielen: nat, offset: nat, list: seq<RawSuite>, rest: seq<byte>, oui: seq<byte>)
    requires |list| < 0x1_0000 && At(ie, ielen, offset, CountedBytes(list) + rest)
    ensures offset + 2 + 4 * |list| <= ielen && U16(ie, offset) == |list|
    ensures SuitesAt(ie, offset + 2, |list|, oui) == AllShown(list, oui)
    ensures At(ie, ielen, offset + 2 + 4 * |list|, rest)
  {
    AtSplit(ie, ielen, offset, CountedBytes(list), rest);
    var end := offset + 2 + 4 * |list|;
    assert ie[offset..offset + 2] == ie[offset..end][..2];
    assert ie[offset + 2..end] == ie[offset..end][2..];
    WordAt(ie, offset, |list|);
    ListDecoded(ie, offset + 2, list, oui);
  }

  lemma CapabilitiesDecoded(ie: seq<byte>, ielen: nat, offset: nat, c: Capabilities)
    requires At(ie, ielen, offset, CapabilityBytes(c))
    ensures CapabilitiesAt(ie, ielen, offset) == CapabilityLines(c)
  {
    if c.Capable? {
      assert ie[offset] == ie[offset..ielen][0];
    }
  }

  lemma AuthListDecoded(ie: seq<byte>, ielen: nat, offset: nat, list: seq<RawSuite>, c: Capabilities, oui: seq<byte>)
    requires |list| < 0x1_0000 && At(ie, ielen, offset, CountedBytes(list) + CapabilityBytes(c))
    ensures Authentication(ie, ielen, offset, oui) ==
      [AuthSuites(|list|, Some(AllShown(list, oui)))] + CapabilityLines(c)
  {
    hide SuitesAt, AllShown, CountedBytes, CapabilitiesAt, CapabilityLines, CapabilityBytes, U16, At;
    CountedDecoded(ie, ielen, offset, list, CapabilityBytes(c), oui);
    CapabilitiesDecoded(ie, ielen, offset + 2 + 4 * |list|, c);
    AtInside(ie, ielen, offset + 2 + 4 * |list|, CapabilityBytes(c));
  }

  lemma AtInside(ie: seq<byte>, ielen: nat, offset: nat, bytes: seq<byte>)
    requires At(ie, ielen, offset, bytes)
    ensures offset <= ielen <= |ie|
  {
  }

  lemma AuthDecoded(ie: seq<byte>, ielen: nat, offset: nat, a: AuthPart, oui: seq<byte>)
    requires (a.Auth? ==> |a.suites| < 0x1_0000) && At(ie, ielen, offset, AuthBytes(a))
    ensures Authentication(ie, ielen, offset, oui) == AuthLines(a, oui)
  {
    if a.Auth? {
      hide At, Authentication, CountedBytes, CapabilityBytes, AllShown;
      AuthListDecoded(ie, ielen, offset, a.suites, a.capabilities, oui);
    }
  }

  lemma PairwiseDecoded(ie: seq<byte>, ielen: nat, offset: nat, list: seq<RawSuite>, a: AuthPart, oui: seq<byte>)
    requires |list| < 0x1_0000 && (a.Auth? ==> |a.suites| < 0x1_0000)
    requires At(ie, ielen, offset, CountedBytes(list) + AuthBytes(a))
    ensures Pairwise(ie, ielen, offset, oui) == [PairwiseCiphers(|list|, Some(AllShown(list, oui)))] + AuthLines(a, oui)
  {
    hide SuitesAt, AllShown, CountedBytes, AuthLines, Authentication, AuthBytes;
    CountedDecoded(ie, ielen, offset, list, AuthBytes(a), oui);
    AuthDecoded(ie, ielen, offset + 2 + 4 * |list|, a, oui);
  }

  lemma GroupDecoded(ie: seq<byte>, ielen: nat, offset: nat, g: RawSuite, rest: seq<byte>, oui: seq<byte>)
    requires At(ie, ielen, offset, SuiteBytes(g) + rest)
    ensures Group(ie, ielen, offset, oui) == [GroupCipher(Shown(g, oui))] + Pairwise(ie, ielen, offset + 4, oui)
    ensures At(ie, ielen, offset + 4, rest)
  {
    hide SuiteBytes, SuiteAt, Shown, Pairwise;
    AtSplit(ie, ielen, offset, SuiteBytes(g), rest);
    SuiteDecoded(ie, offset, g, oui);
  }

  lemma ListsDecoded(ie: seq<byte>, ielen: nat, offset: nat, g: RawSuite, list: seq<RawSuite>, a: AuthPart,
      oui: seq<byte>)
    requires |list| < 0x1_0000 && (a.Auth? ==> |a.suites| < 0x1_0000)
    requires At(ie, ielen, offset, SuiteBytes(g) + (CountedBytes(list) + AuthBytes(a)))
    ensures Group(ie, ielen, offset, oui) ==
      [GroupCipher(Shown(g, oui))] + ([PairwiseCiphers(|list|, Some(AllShown(list, oui)))] + AuthLines(a, oui))
  {
    hide At, Pairwise, Group, AuthLines, AllShown, CountedBytes, AuthBytes, SuiteBytes, Shown;
    GroupDecoded(ie, ielen, offset, g, CountedBytes(list) + AuthBytes(a), oui);
    PairwiseDecoded(ie, ielen, offset + 4, list, a, oui);
  }

  lemma FieldsDecoded(ie: seq<byte>, ielen: nat, offset: nat, f: Fields, oui: seq<byte>)
    requires Countable(f) && At(ie, ielen, offset, FieldBytes(f))
    ensures Group(ie, ielen, offset, oui) == FieldLines(f, oui)
  {
    match f
    case NoFields =>
    case OnlyGroup(g) =>
      assert SuiteBytes(g) == SuiteBytes(g) + [];
      hide SuiteBytes, Shown, SuiteAt;
      GroupDecoded(ie, ielen, offset, g, [], oui);
    case Lists(g, p, a) =>
      ListsDecoded(ie, ielen, offset, g, p, a, oui);
  }

  /** An element in memory: its header and its content. */
  lemma EncodedInMemory(s: Security, after: seq<byte>)
    requires s.Fits()
    ensures var ie, ielen := s.Encode() + after, |s.Encode()|;
      && ielen == 2 + |s.Content()| && ielen <= |ie| && ie[0] == s.Id() && ie[1] == |s.Content()|
      && At(ie, ielen, 2, s.Content())
  {
    hide FieldBytes, Security.Content;
    var ie, ielen := s.Encode() + after, |s.Encode()|;
    assert ie[2..ielen] == s.Content();
  }

  /** The content: the prefix of the vendor form, the version, the fields. */
  lemma ContentDecoded(s: Security, ie: seq<byte>, ielen: nat)
    requires Countable(s.fields) && At(ie, ielen, 2, s.Content())
    ensures var at := if s.wpa1 then 6 else 2;
      && at + 2 <= ielen <= |ie| && U16(ie, at) == s.version && At(ie, ielen, at + 2, FieldBytes(s.fields))
    ensures s.wpa1 ==> ie[2..5] == WPA1_OUI && ie[5] == 1
  {
    hide FieldBytes, U16;
    var prefix, rest := if s.wpa1 then WPA1_OUI + [1] else [], Word(s.version) + FieldBytes(s.fields);
    assert s.Content() == prefix + rest;
    AtSplit(ie, ielen, 2, prefix, rest);
    AtSplit(ie, ielen, 2 + |prefix|, Word(s.version), FieldBytes(s.fields));
    WordAt(ie, 2 + |prefix|, s.version);
    if s.wpa1 {
      assert ie[2..5] == ie[2..6][..3] && ie[5] == ie[2..6][3];
    }
  }

  /**
    Decoding an encoded element gives its version, suites and lists back, whatever follows it in
    memory, where a suite of another organisation is only known to be proprietary.
   */
  lemma DecodeEncoded(s: Security, after: seq<byte>, buflen: nat)
    requires s.Fits() && |s.Encode()| <= buflen
    ensures Extent(s.Encode() + after, buflen) == |s.Encode()|
    ensures Decode(s.Encode() + after, |s.Encode()|) ==
      [Version(s.Id(), s.version)] + FieldLines(s.fields, s.SuiteOui())
  {
    var ie, ielen := s.Encode() + after, |s.Encode()|;
    EncodedInMemory(s, after);
    hide At, U16, FieldBytes, FieldLines, Group, Security.Content, Security.Encode;
    ContentDecoded(s, ie, ielen);
    FieldsDecoded(ie, ielen, if s.wpa1 then 8 else 4, s.fields, s.SuiteOui());
  }

  // ---- elements that are cut, or something else

  /**
    An element is printed as its bytes exactly when it is neither an RSN element of at least four bytes, nor
    a vendor element of at least eight that goes on with 00-50-F2 and the type 1.
   */
  lemma RefusedExactly(ie: seq<byte>, ielen: nat)
    requires 2 <= |ie| && ielen <= |ie|
    ensures Decode(ie, ielen) == [Unknown(ie[..ielen])] <==>
      && !(ie[0] == 48 && 4 <= ielen)
      && !(ie[0] == 221 && 8 <= ielen && ie[2] == 0 && ie[3] == 80 && ie[4] == 242 && ie[5] == 1)
  {
    hide Group;
    if 8 <= ielen {
      assert ie[2..5] == [ie[2], ie[3], ie[4]];
    }
    if Decode(ie, ielen) == [Unknown(ie[..ielen])] {
      assert Decode(ie, ielen)[0].Unknown?;
    }
  }

  /** The version and the group cipher of the others, where the suites of the standard are 00-0F-AC or 00-50-F2. */
  lemma VersionAndGroup(ie: seq<byte>, ielen: nat)
    requires 2 <= |ie| && ielen <= |ie| && Decode(ie, ielen) != [Unknown(ie[..ielen])]
    ensures var at := if ie[0] == 48 then 2 else 6;
      && at + 2 <= ielen && 2 <= |Decode(ie, ielen)|
      && Decode(ie, ielen)[0] == Version(ie[0], ie[at] as int + 256 * ie[at + 1] as int)
      && Decode(ie, ielen)[1] ==
        if ielen < at + 6 then DefaultGroup
        else if ie[at + 2] == 0 && ie[at + 3] == (if ie[0] == 48 then 15 else 80)
                && ie[at + 4] == (if ie[0] == 48 then 172 else 242) then GroupCipher(Standard(ie[at + 5]))
        else GroupCipher(Proprietary)
  {
    hide Pairwise;
    RefusedExactly(ie, ielen);
    var at := if ie[0] == 48 then 2 else 6;
    if at + 6 <= ielen {
      assert ie[at + 2..at + 5] == [ie[at + 2], ie[at + 3], ie[at + 4]];
    }
  }

  /** Where the parts of a complete element are. */
  datatype Parts = Parts(group: RawSuite, pairwise: seq<RawSuite>, auth: seq<RawSuite>, flags: u16) {
    predicate Fits() {
      |pairwise| < 0x1_0000 && |auth| < 0x1_0000
    }

    function Fields(): Fields {
      Lists(group, pairwise, Auth(auth, Capable(flags, [])))
    }
  }

  /**
    What is printed of the fields when only n bytes of them are there: a count stays, a list is printed whole
    or not at all.
   */
  function CutLines(p: Parts, oui: seq<byte>, n: nat): seq<Line>
    requires p.Fits()
  {
    if n < 4 then [DefaultGroup, DefaultPairwise] else [GroupCipher(Shown(p.group, oui))] + CutPairwiseLines(p, oui, n)
  }

  function CutPairwiseLines(p: Parts, oui: seq<byte>, n: nat): seq<Line>
    requires p.Fits()
  {
    if n < 6 then [DefaultPairwise]
    else if n < 6 + 4 * |p.pairwise| then [PairwiseCiphers(|p.pairwise|, None)]
    else [PairwiseCiphers(|p.pairwise|, Some(AllShown(p.pairwise, oui)))] + CutAuthLines(p, oui, n)
  }

  function CutAuthLines(p: Parts, oui: seq<byte>, n: nat): seq<Line>
    requires p.Fits()
  {
    var counts := 6 + 4 * |p.pairwise| + 2;
    if n < counts then []
    else if n < counts + 4 * |p.auth| then [AuthSuites(|p.auth|, None)]
    else
      [AuthSuites(|p.auth|, Some(AllShown(p.auth, oui)))] +
        if counts + 4 * |p.auth| < n && p.flags % 2 == 1 then [Preauthentication] else []
  }

  /** The parts of complete fields, where they are in memory. */
  lemma PartsAt(p: Parts, ie: seq<byte>, ielen: nat, at: nat, oui: seq<byte>)
    requires p.Fits() && At(ie, ielen, at, FieldBytes(p.Fields()))
    ensures var afterPairwise := 6 + 4 * |p.pairwise|;
      var afterAuth := afterPairwise + 2 + 4 * |p.auth|;
      && at + afterAuth + 2 == ielen <= |ie|
      && SuiteAt(ie, at, oui) == Shown(p.group, oui)
      && U16(ie, at + 4) == |p.pairwise| && SuitesAt(ie, at + 6, |p.pairwise|, oui) == AllShown(p.pairwise, oui)
      && U16(ie, at + afterPairwise) == |p.auth|
      && SuitesAt(ie, at + afterPairwise + 2, |p.auth|, oui) == AllShown(p.auth, oui)
      && ie[at + afterAuth] % 2 == p.flags % 2
  {
    var afterPairwise := 6 + 4 * |p.pairwise|;
    var capability := Word(p.flags);
    hide SuiteBytes, SuiteAt, SuitesAt, Shown, AllShown, CountedBytes, At, U16;
    FieldsAre(p);
    var rest := CountedBytes(p.auth) + capability;
    AtSplit(ie, ielen, at, SuiteBytes(p.group), CountedBytes(p.pairwise) + rest);
    AtInside(ie, ielen, at + 4, CountedBytes(p.pairwise) + rest);
    SuiteDecoded(ie, at, p.group, oui);
    CountedDecoded(ie, ielen, at + 4, p.pairwise, rest, oui);
    CountedDecoded(ie, ielen, at + afterPairwise, p.auth, capability, oui);
    CapabilityAt(ie, ielen, at + afterPairwise + 2 + 4 * |p.auth|, p.flags);
  }

  lemma FieldsAre(p: Parts)
    requires p.Fits()
    ensures FieldBytes(p.Fields()) ==
      SuiteBytes(p.group) + (CountedBytes(p.pairwise) + (CountedBytes(p.auth) + Word(p.flags)))
  {
    hide SuiteBytes, CountedBytes;
    assert Word(p.flags) + [] == Word(p.flags);
  }

  lemma CapabilityAt(ie: seq<byte>, ielen: nat, at: nat, flags: u16)
    requires At(ie, ielen, at, Word(flags))
    ensures at + 2 == ielen <= |ie| && ie[at] % 2 == flags % 2
  {
    assert ie[at] == ie[at..ielen][0];
  }

  lemma CutAuth(p: Parts, ie: seq<byte>, ielen: nat, at: nat, n: nat, oui: seq<byte>)
    requires p.Fits() && At(ie, ielen, at, FieldBytes(p.Fields())) && 6 + 4 * |p.pairwise| <= n && at + n <= ielen
    ensures Authentication(ie, at + n, at + 6 + 4 * |p.pairwise|, oui) == CutAuthLines(p, oui, n)
  {
    hide SuiteAt, SuitesAt, Shown, AllShown, At, U16, FieldBytes;
    PartsAt(p, ie, ielen, at, oui);
  }

  lemma CutPairwise(p: Parts, ie: seq<byte>, ielen: nat, at: nat, n: nat, oui: seq<byte>)
    requires p.Fits() && At(ie, ielen, at, FieldBytes(p.Fields())) && 4 <= n && at + n <= ielen
    ensures Pairwise(ie, at + n, at + 4, oui) == CutPairwiseLines(p, oui, n)
  {
    hide SuiteAt, SuitesAt, Shown, AllShown, At, U16, FieldBytes, Authentication, CutAuthLines;
    PartsAt(p, ie, ielen, at, oui);
    if 6 + 4 * |p.pairwise| <= n {
      CutAuth(p, ie, ielen, at, n, oui);
    }
  }

  /** Cut fields are printed as far as their lists are complete. */
  lemma CutDecoded(p: Parts, ie: seq<byte>, ielen: nat, at: nat, n: nat, oui: seq<byte>)
    requires p.Fits() && At(ie, ielen, at, FieldBytes(p.Fields())) && at + n <= ielen
    ensures Group(ie, at + n, at, oui) == CutLines(p, oui, n)
  {
    hide SuiteAt, SuitesAt, Shown, AllShown, At, U16, FieldBytes, Pairwise, CutPairwiseLines;
    PartsAt(p, ie, ielen, at, oui);
    if 4 <= n {
      CutPairwise(p, ie, ielen, at, n, oui);
    }
  }

  /** A complete element of which the buffer holds the first n bytes, its version among them. */
  lemma CutElement(wpa1: bool, version: u16, p: Parts, after: seq<byte>, n: nat)
    requires p.Fits() && Security(wpa1, version, p.Fields()).Fits()
    requires (if wpa1 then 8 else 4) <= n <= |Security(wpa1, version, p.Fields()).Encode()|
    ensures var s := Security(wpa1, version, p.Fields());
      Decode(s.Encode() + after, n) ==
        [Version(if wpa1 then 221 else 48, version)] +
          CutLines(p, if wpa1 then [0, 80, 242] else [0, 15, 172], n - if wpa1 then 8 else 4)
  {
    hide At, U16, FieldBytes, Group, Security.Content, Security.Encode, CutLines, Parts.Fields;
    var s := Security(wpa1, version, p.Fields());
    var ie, ielen := s.Encode() + after, |s.Encode()|;
    EncodedInMemory(s, after);
    ContentDecoded(s, ie, ielen);
    CutDecoded(p, ie, ielen, if wpa1 then 8 else 4, n - if wpa1 then 8 else 4, s.SuiteOui());
  }

  // ---- a buffer of elements

  /** The elements found from an offset on, each with what is printed for it. */
  function DecodeAll(mem: seq<byte>, buflen: nat, offset: nat): seq<seq<Line>>
    requires buflen + 255 <= |mem|
    decreases buflen - offset
  {
    if buflen < offset + 2 then [] else
    var ie := mem[offset..];
    var next: int := ie[1];
    [Decode(ie, Extent(ie, buflen))] + DecodeAll(mem, buflen, offset + next + 2)
  }

  /** iw_print_gen_ie; the memory goes on after the buffer, for an element whose length runs past its end. */
  method PrintGenIe(mem: seq<byte>, buflen: nat) returns (output: seq<seq<Line>>)
    requires buflen + 255 <= |mem|
    ensures output == DecodeAll(mem, buflen, 0)
  {
    hide Decode, Extent;
    var offset := 0;
    output := [];
    while offset + 2 <= buflen
      invariant output + DecodeAll(mem, buflen, offset) == DecodeAll(mem, buflen, 0)
      decreases buflen - offset
    {
      var ie := mem[offset..];
      ExtentReadable(ie, buflen);
      var lines: seq<Line>;
      if ie[0] == VENDOR_ID || ie[0] == RSN_ID {
        lines := PrintWpa(ie, buflen);
      } else {
        lines := PrintUnknown(ie, buflen);
      }
      var step: int := ie[1];
      Regroup(output, lines, DecodeAll(mem, buflen, offset + step + 2));
      output := output + [lines];
      offset := offset + step + 2;
    }
  }

  lemma ExtentReadable(ie: seq<byte>, buflen: nat)
    requires 257 <= |ie|
    ensures Extent(ie, buflen) <= |ie|
    ensures ie[0] !in {RSN_ID, VENDOR_ID} ==> Decode(ie, Extent(ie, buflen)) == [Unknown(ie[..Extent(ie, buflen)])]
  {
  }

  lemma Regroup<T>(done: seq<T>, x: T, rest: seq<T>)
    ensures done + ([x] + rest) == done + [x] + rest
  {
  }

  // ---- reading within the buffer

  /** Where the walk over the elements ends. */
  function FinalOffset(mem: seq<byte>, buflen: nat, offset: nat): nat
    requires buflen + 255 <= |mem|
    decreases buflen - offset
  {
    if buflen < offset + 2 then offset else
    var next: int := mem[offset + 1];
    FinalOffset(mem, buflen, offset + next + 2)
  }

  /** The extent of every element visited lies inside the buffer. */
  predicate ExtentsInside(mem: seq<byte>, buflen: nat, offset: nat)
    requires buflen + 255 <= |mem|
    decreases buflen - offset
  {
    if buflen < offset + 2 then true else
    var next: int := mem[offset + 1];
    offset + Extent(mem[offset..], buflen) <= buflen && ExtentsInside(mem, buflen, offset + next + 2)
  }

  lemma {:induction false} InsideFrom(mem: seq<byte>, buflen: nat, offset: nat)
    requires buflen + 255 <= |mem| && 0 < offset <= buflen
    ensures ExtentsInside(mem, buflen, offset) <==> FinalOffset(mem, buflen, offset) <= buflen
    decreases buflen - offset
  {
    if offset + 2 <= buflen {
      var next: int := mem[offset + 1];
      if offset + next + 2 <= buflen {
        InsideFrom(mem, buflen, offset + next + 2);
      }
    }
  }

  /**
    The whole buffer length is handed on for every element, so an extent can reach past the buffer: all of
    them lie inside it exactly when the last element ends inside the buffer, or is the only one.
   */
  lemma {:induction false} InsideExactly(mem: seq<byte>, buflen: nat)
    requires buflen + 255 <= |mem|
    ensures ExtentsInside(mem, buflen, 0) <==>
      FinalOffset(mem, buflen, 0) <= buflen || 2 <= buflen <= mem[1] as int + 2
  {
    if 2 <= buflen {
      var next: int := mem[1];
      if next + 2 <= buflen {
        InsideFrom(mem, buflen, next + 2);
      }
    }
  }

  /** A buffer of two elements, the second cut after its length byte, with other bytes behind it. */
  function Overread(x: byte): seq<byte> {
    [0, 0, 0, 2] + seq(255, i => x)
  }

  /** What is printed for it depends on the bytes behind the buffer. */
  lemma {:induction false} OverreadPrinted(x: byte)
    ensures !ExtentsInside(Overread(x), 4, 0)
    ensures DecodeAll(Overread(x), 4, 0) == [[Unknown([0, 0])], [Unknown([0, 2, x, x])]]
  {
    var mem := Overread(x);
    var ie := mem[2..];
    assert mem[0..] == mem && mem[..2] == [0, 0];
    assert ie[0] == 0 && ie[1] == 2 && ie[..4] == [0, 2, x, x];
    assert Decode(ie, 4) == [Unknown([0, 2, x, x])];
    assert DecodeAll(mem, 4, 6) == [];
    assert DecodeAll(mem, 4, 2) == [Decode(ie, 4)];
    assert !ExtentsInside(mem, 4, 2);
  }

  /** Then nothing after the buffer matters. */
  lemma {:induction false} InsideReadsBuffer(mem: seq<byte>, mem': seq<byte>, buflen: nat, offset: nat)
    requires buflen + 255 <= |mem| && buflen + 255 <= |mem'| && mem[..buflen] == mem'[..buflen]
    requires ExtentsInside(mem, buflen, offset)
    ensures DecodeAll(mem, buflen, offset) == DecodeAll(mem', buflen, offset)
    decreases buflen - offset
  {
    hide Decode;
    if offset + 2 <= buflen {
      var ie, ie' := mem[offset..], mem'[offset..];
      assert forall k :: 0 <= k < buflen - offset ==> ie[k] == mem[..buflen][offset + k] == ie'[k];
      var ielen := Extent(ie, buflen);
      assert ie[..if ielen < 2 then 2 else ielen] == ie'[..if ielen < 2 then 2 else ielen];
      ReadsExtent(ie, ielen);
      ReadsExtent(ie', ielen);
      var next: int := ie[1];
      InsideReadsBuffer(mem, mem', buflen, offset + next + 2);
    }
  }

  // ---- elements that tile the buffer

  datatype Element = Element(id: byte, body: seq<byte>)

  predicate ValidElements(elements: seq<Element>) {
    forall e :: e in elements ==> |e.body| < 0x100
  }

  function ElementBytes(e: Element): seq<byte>
    requires |e.body| < 0x100
  {
    [e.id, |e.body|] + e.body
  }

  function AllElementBytes(elements: seq<Element>): seq<byte>
    requires ValidElements(elements)
  {
    if elements == [] then [] else ElementBytes(elements[0]) + AllElementBytes(elements[1..])
  }

  /** What each element says on its own. */
  function AllLines(elements: seq<Element>): seq<seq<Line>>
    requires ValidElements(elements)
  {
    seq(|elements|, i requires 0 <= i < |elements| =>
      Decode(ElementBytes(elements[i]), |ElementBytes(elements[i])|))
  }

  /** The first of several elements: where it ends, and what decoding it takes from it alone. */
  lemma {:induction false} FirstElement(mem: seq<byte>, buflen: nat, offset: nat, elements: seq<Element>)
    requires ValidElements(elements) && elements != [] && buflen + 255 <= |mem|
    requires offset <= buflen && mem[offset..buflen] == AllElementBytes(elements)
    ensures var bytes, ie, next := ElementBytes(elements[0]), mem[offset..], offset + |ElementBytes(elements[0])|;
      && next <= buflen && offset + 2 <= buflen && ie[1] as int + 2 == |bytes|
      && Extent(ie, buflen) == |bytes| && Decode(ie, |bytes|) == Decode(bytes, |bytes|)
      && mem[next..buflen] == AllElementBytes(elements[1..])
  {
    var bytes, ie := ElementBytes(elements[0]), mem[offset..];
    var next := offset + |bytes|;
    assert ie[..|bytes|] == mem[offset..buflen][..|bytes|] == bytes;
    assert ie[0] == bytes[0] && ie[1] == bytes[1];
    assert mem[next..buflen] == mem[offset..buflen][|bytes|..] == AllElementBytes(elements[1..]);
    hide Decode;
    ReadsExtent(ie, |bytes|);
  }

  lemma AllLinesCons(elements: seq<Element>)
    requires ValidElements(elements) && elements != []
    ensures AllLines(elements) ==
        [Decode(ElementBytes(elements[0]), |ElementBytes(elements[0])|)] + AllLines(elements[1..])
  {
    hide Decode, ElementBytes;
  }

  /** When elements tile the buffer, each is visited once, in order, and decoded on its own. */
  lemma {:induction false} ElementsVisited(mem: seq<byte>, buflen: nat, offset: nat, elements: seq<Element>)
    requires ValidElements(elements) && buflen + 255 <= |mem|
    requires offset <= buflen && mem[offset..buflen] == AllElementBytes(elements)
    ensures DecodeAll(mem, buflen, offset) == AllLines(elements)
    decreases |elements|
  {
    if elements == [] {
    } else {
      FirstElement(mem, buflen, offset, elements);
      AllLinesCons(elements);
      hide Decode, Extent, AllLines, AllElementBytes, ElementBytes;
      ElementsVisited(mem, buflen, offset + |ElementBytes(elements[0])|, elements[1..]);
    }
  }
}
