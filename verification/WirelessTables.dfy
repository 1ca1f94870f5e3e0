/**
  The descriptor tables of the wireless extensions: which kind of payload each
  command carries, and the limits the library enforces on pointer payloads.
 */
module WirelessTables {
  import opened Basics

  const SIOCIWFIRST := 0x8B00
  const SIOCIWLAST := 0x8BFF
  const SIOCGIWNWID := 0x8B03
  const SIOCGIWFREQ := 0x8B05
  const SIOCGIWMODE := 0x8B07
  const SIOCGIWAP := 0x8B15
  const SIOCGIWESSID := 0x8B1B
  const SIOCGIWRATE := 0x8B21
  const SIOCGIWENCODE := 0x8B2B
  const IWEVFIRST := 0x8C00
  const IWEVQUAL := 0x8C01

  /** Size of the event prefix (length and command) when packed in the stream. */
  const LCP := 4

  datatype HeaderType = Null | Char | UInt | Freq | Addr | Point | Param | Qual {
    /** Size of the fixed payload in the stream; for a point, length and flags only. */
    function Size(): nat {
      match this
      case Null => 0
      case Char => 16
      case UInt => 4
      case Freq => 8
      case Addr => 16
      case Point => 4
      case Param => 8
      case Qual => 4
    }

    /** The event carries values directly in the stream. */
    predicate Fixed() {
      !Null? && !Point?
    }

    // Arithmetic by the size of a value, which is 4, 8 or 16.

    function Times(k: int): int {
      if Size() == 4 then 4 * k else if Size() == 8 then 8 * k else 16 * k
    }

    function Div(a: int): int {
      if Size() == 4 then a / 4 else if Size() == 8 then a / 8 else a / 16
    }

    function Mod(a: int): int {
      if Size() == 4 then a % 4 else if Size() == 8 then a % 8 else a % 16
    }

    lemma SizeArithmetic(a: int)
      requires Fixed()
      ensures Size() in {4, 8, 16}
      ensures Times(a) == a * Size() && Div(a) == a / Size() && Mod(a) == a % Size()
    {
    }
  }

  datatype Descr = Descr(header: HeaderType, tokenSize: u16, minTokens: u16, maxTokens: u16, noMax: bool)

  function Plain(h: HeaderType): Descr {
    Descr(h, 0, 0, 0, false)
  }

  function Payload(tokenSize: u16, min: u16, max: u16): Descr {
    Descr(Point, tokenSize, min, max, false)
  }

  function Unlimited(tokenSize: u16, max: u16): Descr {
    Descr(Point, tokenSize, 0, max, true)
  }

  /**
    The row of a request, from SIOCSIWCOMMIT (0) to SIOCSIWPMKSA (0x36). Rows the
    table does not name are zero, which is a null header.
   */
  function StandardIoctl(index: nat): Option<Descr> {
    match index
    case 0x01 => Some(Plain(Char))             // name
    case 0x02 | 0x03 => Some(Plain(Param))     // nwid
    case 0x04 | 0x05 => Some(Plain(Freq))
    case 0x06 | 0x07 => Some(Plain(UInt))      // mode
    case 0x08 | 0x09 => Some(Plain(Param))     // sensitivity
    case 0x0B => Some(Payload(1, 0, 588))      // range
    case 0x10 => Some(Payload(16, 0, 8))       // set spy
    case 0x11 => Some(Payload(20, 0, 8))       // get spy
    case 0x12 | 0x13 => Some(Payload(28, 1, 1)) // spy threshold
    case 0x14 | 0x15 => Some(Plain(Addr))      // access point
    case 0x16 => Some(Payload(1, 20, 20))      // mlme
    case 0x17 => Some(Unlimited(20, 64))       // access point list
    case 0x18 => Some(Payload(1, 0, 316))      // set scan
    case 0x19 => Some(Unlimited(1, 4096))      // get scan
    case 0x1A | 0x1B | 0x1C | 0x1D => Some(Payload(1, 0, 33)) // essid, nickname
    case 0x20 | 0x21 | 0x22 | 0x23 | 0x24 | 0x25 => Some(Plain(Param)) // rate, rts, frag
    case 0x26 | 0x27 | 0x28 | 0x29 => Some(Plain(Param)) // transmit power, retry
    case 0x2A | 0x2B => Some(Payload(1, 0, 64)) // encode
    case 0x2C | 0x2D | 0x2E | 0x2F => Some(Plain(Param)) // power, modulation
    case 0x30 | 0x31 => Some(Payload(1, 0, 1024)) // generic element
    case 0x32 | 0x33 => Some(Plain(Param))     // authentication
    case 0x34 | 0x35 => Some(Payload(1, 40, 104)) // extended encode
    case 0x36 => Some(Payload(1, 36, 36))      // pmksa
    case _ => if index < 0x37 then Some(Plain(Null)) else None
  }

  /** The row of an event, from IWEVTXDROP (0) to IWEVPMKIDCAND (9). */
  function StandardEvent(index: nat): Option<Descr> {
    match index
    case 0 | 3 | 4 => Some(Plain(Addr))        // drop, registered, expired
    case 1 => Some(Plain(Qual))
    case 2 => Some(Payload(1, 0, 256))         // custom
    case 5 | 7 | 8 => Some(Payload(1, 0, 1024)) // generic and association elements
    case 6 => Some(Payload(1, 0, 28))          // Michael failure
    case 9 => Some(Payload(1, 0, 24))          // pmkid candidate
    case _ => None
  }

  /** The descriptor of a command. The table index is unsigned, so a command below the first has none. */
  function Describe(cmd: u16): Option<Descr>
  {
    if cmd < SIOCIWFIRST then None
    else if cmd <= SIOCIWLAST then StandardIoctl(cmd - SIOCIWFIRST)
    else StandardEvent(cmd - IWEVFIRST)
  }

  /** A pair of descriptor tables, as one lookup. */
  type DescrTable = u16 -> Option<Descr>

  function HeaderOf(table: DescrTable, cmd: u16): HeaderType {
    match table(cmd)
    case Some(d) => d.header
    case None => Null
  }

  // ---- the tables, by what they give

  /** The commands by the size of their values, the sizes of sockaddr and IFNAMSIZ, iw_freq and iw_param, and 4. */
  lemma ValueSizes(cmd: u16)
    ensures var h := HeaderOf(Describe, cmd);
      && (h.Fixed() && h.Size() == 2 + 14 <==> cmd in {0x8B01, 0x8B14, 0x8B15, 0x8C00, 0x8C03, 0x8C04})
      && (h.Fixed() && h.Size() == 4 + 2 + 1 + 1 <==>
        cmd in {0x8B02, 0x8B03, 0x8B04, 0x8B05, 0x8B08, 0x8B09, 0x8B20, 0x8B21, 0x8B22, 0x8B23, 0x8B24, 0x8B25,
                0x8B26, 0x8B27, 0x8B28, 0x8B29, 0x8B2C, 0x8B2D, 0x8B2E, 0x8B2F, 0x8B32, 0x8B33})
      && (h.Fixed() && h.Size() == 4 <==> cmd in {0x8B06, 0x8B07, 0x8C01})
  {
  }

  /** The kinds that share a size with another. */
  lemma ValueKinds(cmd: u16)
    ensures var h := HeaderOf(Describe, cmd);
      (h.Char? <==> cmd == 0x8B01) && (h.Freq? <==> cmd in {0x8B04, 0x8B05}) && (h.Qual? <==> cmd == 0x8C01)
  {
  }

  /** The commands with a payload. */
  lemma PayloadCommands(cmd: u16)
    ensures HeaderOf(Describe, cmd).Point? <==>
      cmd in {0x8B0B, 0x8B10, 0x8B11, 0x8B12, 0x8B13, 0x8B16, 0x8B17, 0x8B18, 0x8B19, 0x8B1A, 0x8B1B, 0x8B1C, 0x8B1D,
              0x8B2A, 0x8B2B, 0x8B30, 0x8B31, 0x8B34, 0x8B35, 0x8B36, 0x8C02, 0x8C05, 0x8C06, 0x8C07, 0x8C08, 0x8C09}
  {
  }

  /** The most bytes a payload may have, and the fewest tokens; two commands have no limit. */
  lemma PayloadLimits(cmd: u16)
    requires HeaderOf(Describe, cmd).Point?
    ensures var d := Describe(cmd).value;
      && (d.noMax <==> cmd in {0x8B17, 0x8B19})
      && (d.minTokens != 0 <==> cmd in {0x8B12, 0x8B13, 0x8B16, 0x8B34, 0x8B35, 0x8B36})
      && (cmd in {0x8B1A, 0x8B1B, 0x8B1C, 0x8B1D} ==> d.tokenSize == 1 && d.maxTokens == 32 + 1)
      && (cmd in {0x8B2A, 0x8B2B} ==> d.tokenSize == 1 && d.maxTokens == 64)
      && (cmd in {0x8B34, 0x8B35} ==> d.tokenSize == 1 && d.minTokens == 40 && d.maxTokens == 40 + 64)
      && (cmd in {0x8B30, 0x8B31, 0x8C05, 0x8C07, 0x8C08} ==> d.tokenSize == 1 && d.maxTokens == 1024)
      && (cmd == 0x8C02 ==> d.tokenSize == 1 && d.maxTokens == 256)
      && (cmd == 0x8B10 ==> d.tokenSize == 16 && d.maxTokens == 8)
      && (cmd == 0x8B11 ==> d.tokenSize == 16 + 4 && d.maxTokens == 8)
      && (cmd in {0x8B12, 0x8B13} ==> d.tokenSize == 16 + 3 * 4 && d.minTokens == d.maxTokens == 1)
      && (cmd == 0x8B17 ==> d.tokenSize == 16 + 4 && d.maxTokens == 64)
      && (cmd == 0x8B19 ==> d.tokenSize == 1 && d.maxTokens == 4096)
      && (cmd in {0x8B0B, 0x8B16, 0x8B18, 0x8B36, 0x8C06, 0x8C09} ==> d.tokenSize == 1)
      && (cmd == 0x8B0B ==> d.maxTokens == 588) && (cmd == 0x8B16 ==> d.minTokens == d.maxTokens == 20)
      && (cmd == 0x8B18 ==> d.maxTokens == 316) && (cmd == 0x8B36 ==> d.minTokens == d.maxTokens == 36)
      && (cmd == 0x8C06 ==> d.maxTokens == 28) && (cmd == 0x8C09 ==> d.maxTokens == 24)
  {
  }
}
