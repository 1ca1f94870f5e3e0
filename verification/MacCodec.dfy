/** Hardware addresses as text. */
module MacCodec {
  import opened Basics
  import opened Text

  const ETH_ALEN := 6

  /** Character number k of the text of an address. */
  function MacChar(mac: seq<byte>, k: nat): char
    requires k < 3 * |mac|
  {
    if k % 3 == 0 then HexDigit(mac[k / 3] / 16)
    else if k % 3 == 1 then HexDigit(mac[k / 3] % 16)
    else ':'
  }

  lemma MacChars(mac: seq<byte>, i: nat)
    requires i < |mac|
    ensures MacChar(mac, 3 * i) == HexDigit(mac[i] / 16) && MacChar(mac, 3 * i + 1) == HexDigit(mac[i] % 16)
    ensures MacChar(mac, 3 * i + 2) == ':'
  {
  }

  /** The text of an address: pairs of digits joined by colons. */
  function MacText(mac: seq<byte>): string {
    seq(if mac == [] then 0 else 3 * |mac| - 1, k requires 0 <= k < 3 * |mac| - 1 => MacChar(mac, k))
  }

  /** Each place of the text holds a digit or a colon. */
  predicate Placed(s: string) {
    forall k :: 0 <= k < |s| ==> if k % 3 == 2 then s[k] == ':' else IsHex(s[k])
  }

  /** Between 1 and max pairs of hexadecimal digits joined by single colons. */
  predicate IsMacText(s: string, max: nat) {
    2 <= |s| <= 3 * max - 1 && |s| % 3 == 2 && Placed(s)
  }

  /** The bytes such a text denotes. */
  function MacBytes(s: string): seq<byte>
    requires exists max :: IsMacText(s, max)
  {
    seq((|s| + 1) / 3, i requires 0 <= i < (|s| + 1) / 3 => Byte(s[3 * i], s[3 * i + 1]))
  }

  /** sprintf(buf + 3 * i - 1, ":%02X", mac[i]) */
  method PrintPair(buf: array<char>, mac: seq<byte>, i: nat)
    requires 1 <= i < |mac| && 3 * i + 3 <= buf.Length
    modifies buf
    ensures forall k :: 3 * i - 1 <= k < 3 * i + 2 ==> buf[k] == MacChar(mac, k)
    ensures buf[3 * i + 2] == '\0'
    ensures forall k :: 0 <= k < 3 * i - 1 || 3 * i + 3 <= k < buf.Length ==> buf[k] == old(buf[k])
  {
    MacChars(mac, i - 1);
    MacChars(mac, i);
    hide HexDigit, MacChar;
    buf[3 * i - 1], buf[3 * i], buf[3 * i + 1], buf[3 * i + 2] :=
      ':', HexDigit(mac[i] / 16), HexDigit(mac[i] % 16), '\0';
  }

  lemma IsMacTextOf(s: string, mac: seq<byte>)
    requires mac != [] && |s| == 3 * |mac| - 1 && forall k :: 0 <= k < |s| ==> s[k] == MacChar(mac, k)
    ensures s == MacText(mac)
  {
  }

  /** iw_mac_ntop; the result tells whether it is not NULL. An address of no bytes is printed as its first one. */
  method MacNtop(mac: seq<byte>, maclen: nat, buf: array<char>, buflen: nat) returns (ok: bool)
    requires mac != [] && maclen <= |mac| && buflen <= buf.Length && (maclen == 0 ==> 3 <= buf.Length)
    modifies buf
    ensures ok <==> 3 * maclen <= buflen
    ensures !ok ==> buf[..] == old(buf[..])
    ensures ok ==> var end := 3 * |Shown(mac, maclen)| - 1;
      end < buf.Length && buf[..end] == MacText(Shown(mac, maclen)) && buf[end] == '\0'
      && forall k :: end < k < buf.Length ==> buf[k] == old(buf[k])
  {
    if buflen < 3 * maclen - 1 + 1 {
      return false;
    }
    ghost var shown := Shown(mac, maclen);
    hide HexDigit, MacChar, MacText;
    MacChars(shown, 0);
    buf[0], buf[1], buf[2] := HexDigit(mac[0] / 16), HexDigit(mac[0] % 16), '\0';
    var i := 1;
    while i < maclen
      invariant 1 <= i <= |shown|
      invariant forall k :: 0 <= k < 3 * i - 1 ==> buf[k] == MacChar(shown, k)
      invariant buf[3 * i - 1] == '\0'
      invariant forall k :: 3 * i <= k < buf.Length ==> buf[k] == old(buf[k])
    {
      PrintPair(buf, mac[..maclen], i);
      i := i + 1;
    }
    IsMacTextOf(buf[..3 * |shown| - 1], shown);
    return true;
  }

  /** The parser from position p on: whether it accepts, and the bytes stored so far. */
  function Aton(s: CString, p: nat, max: nat, out: seq<byte>): (bool, seq<byte>)
    requires p <= |s|
    decreases |s| - p
  {
    if p == |s| then (false, out) else
    var scan := ScanPair(s, p);
    if scan.count != 2 then (false, out) else
    ScanLength(s, p);
    var out' := out + [16 * scan.high + scan.low];
    if p + 2 == |s| then (true, out')
    else if max <= |out'| || s[p + 2] != ':' then (false, out')
    else Aton(s, p + 3, max, out')
  }

  /** iw_mac_aton */
  method MacAton(orig: CString, mac: array<byte>, macmax: nat) returns (len: nat)
    requires 1 <= macmax <= mac.Length
    modifies mac
    ensures var (ok, out) := Aton(orig, 0, macmax, []);
      && |out| <= macmax
      && len == (if ok then |out| else 0)
      && mac[..|out|] == out
      && mac[|out|..] == old(mac[|out|..])
  {
    hide ScanPair;
    var p := 0;
    var maclen := 0;
    while p < |orig|
      invariant p <= |orig| && maclen <= mac.Length && (p < |orig| ==> maclen < macmax) && maclen <= macmax
      invariant Aton(orig, p, macmax, mac[..maclen]) == Aton(orig, 0, macmax, [])
      invariant forall k :: maclen <= k < mac.Length ==> mac[k] == old(mac[k])
    {
      var scan := ScanPair(orig, p);
      if scan.count != 2 {
        break;
      }
      ScanLength(orig, p);
      mac[maclen] := 16 * scan.high + scan.low;
      assert mac[..maclen + 1] == mac[..maclen] + [mac[maclen]];
      maclen := maclen + 1;
      p := p + 2;
      if p == |orig| {
        return maclen;
      }
      if maclen >= macmax {
        return 0;
      }
      if orig[p] != ':' {
        break;
      }
      p := p + 1;
    }
    return 0;
  }

  /** iw_ether_aton */
  method EtherAton(orig: CString, eth: array<byte>) returns (len: nat)
    requires eth.Length == ETH_ALEN
    modifies eth
    ensures len == if IsMacText(orig, ETH_ALEN) && |orig| == 17 then ETH_ALEN else 0
    ensures len != 0 ==> eth[..] == MacBytes(orig)
  {
    var maclen := MacAton(orig, eth, ETH_ALEN);
    AtonExact(orig, ETH_ALEN);
    if maclen > 0 && maclen < ETH_ALEN {
      maclen := 0;
    }
    if maclen > 0 {
      assert eth[..] == eth[..6];
    }
    return maclen;
  }

  // ---- what is accepted

  /** White space cannot hide in an accepted pair: skipping it would run into what must follow. */
  lemma NoSpace(s: CString, p: nat)
    requires p < |s| && ScanPair(s, p).count == 2
    requires p + 2 == |s| || (p + 2 < |s| && s[p + 2] == ':')
    ensures p + 1 < |s| && IsHex(s[p]) && IsHex(s[p + 1])
  {
  }

  lemma PlacedCons(s: string)
    requires 3 <= |s|
    ensures Placed(s) <==> IsHex(s[0]) && IsHex(s[1]) && s[2] == ':' && Placed(s[3..])
  {
    var t := s[3..];
    if Placed(s) {
      forall k | 0 <= k < |t| ensures if k % 3 == 2 then t[k] == ':' else IsHex(t[k]) {
        assert t[k] == s[k + 3];
      }
    }
    if IsHex(s[0]) && IsHex(s[1]) && s[2] == ':' && Placed(t) {
      forall k | 0 <= k < |s| ensures if k % 3 == 2 then s[k] == ':' else IsHex(s[k]) {
        if k >= 3 {
          assert t[k - 3] == s[k];
        }
      }
    }
  }

  /** An address text is a pair, alone or followed by a colon and an address text. */
  lemma MacTextCons(s: string, max: nat)
    requires 1 <= max
    ensures IsMacText(s, max) <==>
      && 2 <= |s| && IsHex(s[0]) && IsHex(s[1])
      && (|s| == 2 || (1 < max && 3 < |s| && s[2] == ':' && IsMacText(s[3..], max - 1)))
    ensures IsMacText(s, max) ==>
      MacBytes(s) == [Byte(s[0], s[1])] + if |s| == 2 then [] else MacBytes(s[3..])
  {
    if |s| >= 3 {
      PlacedCons(s);
    }
    hide IsHex, MacBytes;
    if IsMacText(s, max) {
      MacBytesCons(s, max);
    }
  }

  lemma MacBytesCons(s: string, max: nat)
    requires 1 <= max && IsMacText(s, max) && (|s| > 2 ==> 1 < max && IsMacText(s[3..], max - 1))
    ensures MacBytes(s) == [Byte(s[0], s[1])] + if |s| == 2 then [] else MacBytes(s[3..])
  {
    hide IsHex, Byte;
    if |s| > 2 {
      var t := s[3..];
      forall i | 0 <= i < (|t| + 1) / 3 ensures MacBytes(s)[i + 1] == MacBytes(t)[i] {
        assert t[3 * i] == s[3 * (i + 1)] && t[3 * i + 1] == s[3 * (i + 1) + 1];
      }
      assert |MacBytes(s)| == |MacBytes(t)| + 1;
    }
  }

  /** From position p, with room left for more bytes, the parser accepts exactly an address text. */
  lemma {:induction false} AtonFrom(s: CString, p: nat, max: nat, out: seq<byte>)
    requires p < |s| && |out| < max
    ensures var (ok, r) := Aton(s, p, max, out);
      && |r| <= max
      && (ok <==> IsMacText(s[p..], max - |out|))
      && (ok ==> r == out + MacBytes(s[p..]))
    decreases |s| - p
  {
    hide ScanPair, IsMacText, MacBytes, HexValue;
    var scan, rest := ScanPair(s, p), s[p..];
    MacTextCons(rest, max - |out|);
    if 2 <= |rest| && IsHex(rest[0]) && IsHex(rest[1]) {
      ScanHere(s, p);
    }
    if scan.count == 2 {
      ScanLength(s, p);
      if p + 2 == |s| || s[p + 2] == ':' {
        NoSpace(s, p);
      }
      var b := 16 * scan.high + scan.low;
      if p + 3 < |s| && |out| + 1 < max {
        AtonFrom(s, p + 3, max, out + [b]);
        assert rest[3..] == s[p + 3..];
      }
    }
  }

  /** iw_mac_aton accepts exactly the texts of 1 to max bytes, and returns those bytes. */
  lemma {:induction false} AtonExact(s: CString, max: nat)
    requires 1 <= max
    ensures var (ok, r) := Aton(s, 0, max, []);
      && |r| <= max
      && (ok <==> IsMacText(s, max))
      && (ok ==> r == MacBytes(s))
  {
    if s != [] {
      AtonFrom(s, 0, max, []);
      assert s[0..] == s;
    }
  }

  /** Printing gives an address text. */
  lemma MacTextIsText(mac: seq<byte>, max: nat)
    requires 1 <= |mac| <= max
    ensures IsMacText(MacText(mac), max)
    ensures forall i :: 0 <= i < |MacText(mac)| ==> 0 < MacText(mac)[i] as int < 256
  {
    var t := MacText(mac);
    forall k | 0 <= k < |t| ensures k % 3 == 2 ==> t[k] == ':' ensures k % 3 != 2 ==> IsHex(t[k]) {
    }
  }

  /** Reading what was printed gives the address back. */
  lemma {:induction false} PrintThenRead(mac: seq<byte>, max: nat)
    requires 1 <= |mac| <= max
    ensures IsMacText(MacText(mac), max) && MacBytes(MacText(mac)) == mac
    ensures Aton(MacText(mac), 0, max, []) == (true, mac)
  {
    hide HexDigit, HexValue;
    var t := MacText(mac);
    MacTextIsText(mac, max);
    forall i | 0 <= i < |mac| ensures MacBytes(t)[i] == mac[i] {
      MacChars(mac, i);
    }
    AtonExact(t, max);
  }

  /** Printing what was read gives the text in upper case. */
  lemma {:induction false} ReadThenPrint(s: CString, max: nat)
    requires 1 <= max && Aton(s, 0, max, []).0
    ensures MacText(Aton(s, 0, max, []).1) == seq(|s|, k requires 0 <= k < |s| => Upper(s[k]))
  {
    AtonExact(s, max);
    hide Upper, Aton, MacChar, MacBytes, IsMacText;
    var mac := MacBytes(s);
    MacSize(s, max);
    forall k | 0 <= k < |s| ensures MacText(mac)[k] == Upper(s[k]) {
      CharUpper(s, max, k);
    }
  }

  lemma MacSize(s: string, max: nat)
    requires IsMacText(s, max)
    ensures |MacBytes(s)| > 0 && |s| == 3 * |MacBytes(s)| - 1
  {
  }

  lemma CharUpper(s: string, max: nat, k: nat)
    requires IsMacText(s, max) && k < |s|
    ensures k < 3 * |MacBytes(s)| && MacChar(MacBytes(s), k) == Upper(s[k])
  {
    hide HexDigit, HexValue, Upper, Byte;
    var i := k / 3;
    if k % 3 == 2 {
      ColonUpper();
    } else {
      DigitOfByte(s[3 * i], s[3 * i + 1]);
    }
  }

  lemma ColonUpper()
    ensures Upper(':') == ':'
  {
  }

  lemma DigitOfByte(high: char, low: char)
    requires IsHex(high) && IsHex(low)
    ensures HexDigit(Byte(high, low) / 16) == Upper(high) && HexDigit(Byte(high, low) % 16) == Upper(low)
  {
    UpperDigit(high);
    UpperDigit(low);
    hide HexDigit, HexValue, Upper;
  }

  lemma UpperDigit(c: char)
    requires IsHex(c)
    ensures HexDigit(HexValue(c)) == Upper(c)
  {
  }
}
