/** C strings, hexadecimal digits, and the "%1X%1X" conversion of sscanf. */
module Text {
  import opened Basics

  /** The characters before the terminating NUL. */
  type CString = s: string | forall i :: 0 <= i < |s| ==> 0 < s[i] as int < 256

  predicate IsHex(c: char) {
    '0' <= c <= '9' || 'A' <= c <= 'F' || 'a' <= c <= 'f'
  }

  function HexValue(c: char): (r: nat)
    requires IsHex(c)
    ensures r < 16
  {
    if c <= '9' then c as int - '0' as int
    else if c <= 'F' then c as int - 'A' as int + 10
    else c as int - 'a' as int + 10
  }

  /** The digit that %X prints. */
  function HexDigit(n: nat): (c: char)
    requires n < 16
    ensures IsHex(c) && HexValue(c) == n
  {
    if n < 10 then '0' + n as char else 'A' + (n - 10) as char
  }

  function Upper(c: char): char {
    if 'a' <= c <= 'f' then HexDigit(HexValue(c)) else c
  }

  /** The bytes that are printed of the first `size`: the first one is printed whatever the size. */
  function Shown(bytes: seq<byte>, size: nat): (r: seq<byte>)
    requires bytes != [] && size <= |bytes|
    ensures |r| == if size == 0 then 1 else size
  {
    if size == 0 then bytes[..1] else bytes[..size]
  }

  /** %.2X */
  function Hex2(b: byte): string {
    [HexDigit(b / 16), HexDigit(b % 16)]
  }

  function Byte(high: char, low: char): byte
    requires IsHex(high) && IsHex(low)
  {
    16 * HexValue(high) + HexValue(low)
  }

  predicate IsSpace(c: char) {
    c == ' ' || '\t' <= c <= '\r'
  }

  function SkipSpace(s: CString, p: nat): (q: nat)
    requires p <= |s|
    ensures p <= q <= |s|
    ensures q < |s| ==> !IsSpace(s[q])
    ensures forall i :: p <= i < q ==> IsSpace(s[i])
    decreases |s| - p
  {
    if p < |s| && IsSpace(s[p]) then SkipSpace(s, p + 1) else p
  }

  /** What sscanf(s + p, "%1X%1X", &high, &low) returns and stores; each conversion skips white space first. */
  datatype Scanned = Scanned(count: int, high: nat, low: nat)

  function ScanPair(s: CString, p: nat): (r: Scanned)
    requires p <= |s|
    ensures r.count <= 2 && r.high < 16 && r.low < 16
  {
    var q := SkipSpace(s, p);
    if q == |s| then Scanned(-1, 0, 0)
    else if !IsHex(s[q]) then Scanned(0, 0, 0)
    else
      var q' := SkipSpace(s, q + 1);
      if q' == |s| || !IsHex(s[q']) then Scanned(1, HexValue(s[q]), 0)
      else Scanned(2, HexValue(s[q]), HexValue(s[q']))
  }

  /** Without white space in the way, the conversion reads the next two characters. */
  lemma ScanHere(s: CString, p: nat)
    requires p < |s| && IsHex(s[p])
    ensures ScanPair(s, p).count >= 1 && ScanPair(s, p).high == HexValue(s[p])
    ensures p + 1 < |s| && IsHex(s[p + 1]) ==> ScanPair(s, p) == Scanned(2, HexValue(s[p]), HexValue(s[p + 1]))
  {
  }

  /** Two conversions succeed only when two characters are left. */
  lemma ScanLength(s: CString, p: nat)
    requires p <= |s|
    ensures ScanPair(s, p).count >= 1 ==> p + 1 <= |s|
    ensures ScanPair(s, p).count == 2 ==> p + 2 <= |s|
  {
  }

  // ---- the characters, written out

  /** The digits and their values. */
  lemma DigitsAre(n: nat)
    requires n < 16
    ensures HexDigit(n) == "0123456789ABCDEF"[n]
    ensures var c := "0123456789abcdef"[n]; IsHex(c) && HexValue(c) == n && Upper(c) == "0123456789ABCDEF"[n]
    ensures var c := "0123456789ABCDEF"[n]; IsHex(c) && HexValue(c) == n && Upper(c) == c
  {
  }

  /** There are no other digits, and the white space of the C locale. */
  lemma ClassesAre(c: char)
    ensures IsHex(c) <==> c in "0123456789ABCDEFabcdef"
    ensures IsSpace(c) <==> c as int in {9, 10, 11, 12, 13, 32}
  {
  }

  /** The first digit of a byte counts sixteen. */
  lemma Hex2Is(high: nat, low: nat)
    requires high < 16 && low < 16
    ensures 16 * high + low < 256 && Hex2(16 * high + low) == ["0123456789ABCDEF"[high], "0123456789ABCDEF"[low]]
    ensures IsHex("0123456789abcdef"[high]) && IsHex("0123456789abcdef"[low])
    ensures Byte("0123456789abcdef"[high], "0123456789abcdef"[low]) == 16 * high + low
  {
    DigitsAre(high);
    DigitsAre(low);
    hide HexDigit, HexValue, IsHex, Upper;
    assert (16 * high + low) / 16 == high && (16 * high + low) % 16 == low;
  }
}
