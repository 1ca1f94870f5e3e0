/** Encryption keys as text. */
module KeyCodec {
  import opened Basics
  import opened Text

  const IW_ENCODING_TOKEN_MAX := 64

  predicate IsSeparator(c: char) {
    c == '-' || c == ':' || c == ';' || c == '.' || c == ','
  }

  /** strcspn(s + p, "-:;.,") */
  function Span(s: CString, p: nat): (n: nat)
    requires p <= |s|
    ensures p + n <= |s|
    ensures forall i :: p <= i < p + n ==> !IsSeparator(s[i])
    ensures p + n < |s| ==> IsSeparator(s[p + n])
    decreases |s| - p
  {
    if p == |s| || IsSeparator(s[p]) then 0 else 1 + Span(s, p + 1)
  }

  // ---- parsing

  /** The state of the hexadecimal loop: position, digits left in the sequence (-1 at the start), bytes so far. */
  datatype Parse = Parse(p: nat, dlen: int, out: seq<byte>) {
    predicate Valid(s: CString) {
      && -1 <= dlen && p <= |s|
      && (0 <= dlen ==> p + dlen <= |s| && (p + dlen < |s| ==> IsSeparator(s[p + dlen])))
    }

    /** Past the separator, and with the length of the sequence worked out. */
    function Entered(s: CString): (r: Parse)
      requires Valid(s) && p < |s|
      ensures r.Valid(s) && 0 <= r.dlen && p <= r.p
    {
      var q := if dlen == 0 then p + 1 else p;
      Parse(q, if dlen <= 0 then Span(s, q) else dlen, out)
    }

    /** One turn of the loop, from an entered state; None when there is no digit. */
    function Turn(s: CString): (r: Option<Parse>)
      requires Valid(s) && 0 <= dlen
      ensures r.Some? ==> p < r.value.p && r.value.Valid(s) && |r.value.out| == |out| + 1
    {
      ReadByteFits(s, p, dlen);
      var (count, value) := ReadByte(s, p, dlen);
      if count < 1 then None else Some(Parse(p + count, dlen - count, out + [value]))
    }
  }

  /**
    One byte of a digit sequence of length dlen: how many digits it took (less than one on an error), and
    its value.
   */
  function ReadByte(s: CString, p: nat, dlen: nat): (int, byte)
    requires p <= |s|
  {
    var scan := ScanPair(s, p);
    var count := if scan.count >= 1 && dlen % 2 == 1 then 1 else scan.count;
    (count, if count == 2 then 16 * scan.high + scan.low else scan.high)
  }

  /** A byte takes at most the digits that are left. */
  lemma ReadByteFits(s: CString, p: nat, dlen: nat)
    requires p + dlen <= |s| && (p + dlen < |s| ==> IsSeparator(s[p + dlen]))
    ensures ReadByte(s, p, dlen).0 >= 1 ==> ReadByte(s, p, dlen).0 <= dlen
  {
  }

  /** The code that reads one byte. */
  method ReadDigits(s: CString, p: nat, dlen: nat) returns (count: int, value: byte)
    requires p <= |s|
    ensures (count, value) == ReadByte(s, p, dlen)
  {
    var scan := ScanPair(s, p);
    count := scan.count;
    if count < 1 {
      return count, scan.high;
    }
    if dlen % 2 == 1 {
      count := 1;
    }
    if count == 2 {
      value := scan.low + 16 * scan.high;
    } else {
      value := scan.high;
    }
  }

  /** The bytes of a sequence of digits, or None on a parse error; long keys are cut. */
  function ParseHex(s: CString, c: Parse): (r: Option<seq<byte>>)
    requires c.Valid(s) && |c.out| < IW_ENCODING_TOKEN_MAX
    ensures r.Some? ==> |r.value| <= IW_ENCODING_TOKEN_MAX
    decreases |s| - c.p
  {
    if c.p == |s| then Some(c.out) else
    match c.Entered(s).Turn(s)
    case None => None
    case Some(n) => if |n.out| >= IW_ENCODING_TOKEN_MAX then Some(n.out) else ParseHex(s, n)
  }

  function CharByte(c: char): byte {
    c as int % 256
  }

  function Bytes(s: string): seq<byte> {
    seq(|s|, i requires 0 <= i < |s| => CharByte(s[i]))
  }

  function Cut<T>(s: seq<T>): (r: seq<T>)
    ensures |r| <= IW_ENCODING_TOKEN_MAX
  {
    if |s| > IW_ENCODING_TOKEN_MAX then s[..IW_ENCODING_TOKEN_MAX] else s
  }

  predicate HasPrefix(s: CString, prefix: string) {
    prefix <= s
  }

  /** The key a text denotes, or None when it denotes none. */
  function KeyOf(input: CString): (r: Option<seq<byte>>)
    ensures r.Some? ==> |r.value| <= IW_ENCODING_TOKEN_MAX
  {
    if HasPrefix(input, "s:") then Some(Bytes(Cut(input[2..])))
    else if HasPrefix(input, "p:") then None
    else ParseHex(input, Parse(0, -1, []))
  }

  /** iw_in_key */
  method InKey(input: CString, key: array<byte>) returns (keylen: int)
    requires IW_ENCODING_TOKEN_MAX <= key.Length
    modifies key
    ensures KeyOf(input).None? ==> keylen == -1 && key[..] == old(key[..])
    ensures KeyOf(input).Some? ==>
      && keylen == |KeyOf(input).value|
      && key[..keylen] == KeyOf(input).value
      && key[keylen..] == old(key[keylen..])
  {
    var bytes: seq<byte> := [];
    if HasPrefix(input, "s:") {
      bytes := Bytes(Cut(input[2..]));
    } else if HasPrefix(input, "p:") {
      return -1;
    } else {
      var out := HexDigits(input);
      if out == None {
        return -1;
      }
      bytes := out.value;
    }
    keylen := |bytes|;
    CopyTo(bytes, key);
  }

  /** The loop over hexadecimal digits, into the temporary output. */
  method HexDigits(input: CString) returns (r: Option<seq<byte>>)
    ensures r == ParseHex(input, Parse(0, -1, []))
  {
    hide ReadByte, Parse.Turn, ParseHex;
    AtTheEnd(input);
    var p, dlen := 0, -1;
    var out: seq<byte> := [];
    while p < |input|
      invariant Parse(p, dlen, out).Valid(input) && |out| < IW_ENCODING_TOKEN_MAX
      invariant ParseHex(input, Parse(p, dlen, out)) == ParseHex(input, Parse(0, -1, []))
      decreases |input| - p
    {
      ghost var c := Parse(p, dlen, out);
      if dlen <= 0 {
        if dlen == 0 {
          p := p + 1;
        }
        dlen := Span(input, p);
      }
      ghost var e := c.Entered(input);
      assert Parse(p, dlen, out) == e;
      NextTurn(input, c);
      var count, templ := ReadDigits(input, p, dlen);
      if count < 1 {
        return None;
      }
      out := out + [templ];
      if |out| >= IW_ENCODING_TOKEN_MAX {
        break;
      }
      p := p + count;
      dlen := dlen - count;
    }
    return Some(out);
  }

  lemma {:induction false} AtTheEnd(s: CString)
    ensures forall c: Parse ::
      c.Valid(s) && c.p == |s| && |c.out| < IW_ENCODING_TOKEN_MAX ==> ParseHex(s, c) == Some(c.out)
  {
  }

  /** What one byte read means for the rest of the parse. */
  lemma {:induction false} NextTurn(s: CString, c: Parse)
    requires c.Valid(s) && c.p < |s| && |c.out| < IW_ENCODING_TOKEN_MAX
    ensures var e := c.Entered(s);
      && e.Valid(s) && 0 <= e.dlen
      && var (count, value) := ReadByte(s, e.p, e.dlen);
      if count < 1 then ParseHex(s, c) == None
      else
        var n := Parse(e.p + count, e.dlen - count, e.out + [value]);
        && n.p <= |s| && n.Valid(s)
        && ParseHex(s, c) == if |n.out| >= IW_ENCODING_TOKEN_MAX then Some(n.out) else ParseHex(s, n)
  {
    TurnReads(s, c.Entered(s));
    hide ReadByte, Parse.Turn;
  }

  lemma TurnReads(s: CString, e: Parse)
    requires e.Valid(s) && 0 <= e.dlen
    ensures var (count, value) := ReadByte(s, e.p, e.dlen);
      if count < 1 then e.Turn(s) == None
      else
        && e.p + count <= |s|
        && e.Turn(s) == Some(Parse(e.p + count, e.dlen - count, e.out + [value]))
        && Parse(e.p + count, e.dlen - count, e.out + [value]).Valid(s)
  {
    ReadByteFits(s, e.p, e.dlen);
  }

  /** memcpy(key, bytes, |bytes|) */
  method CopyTo(bytes: seq<byte>, key: array<byte>)
    requires |bytes| <= key.Length
    modifies key
    ensures key[..|bytes|] == bytes && key[|bytes|..] == old(key[|bytes|..])
  {
    forall i | 0 <= i < |bytes| {
      key[i] := bytes[i];
    }
  }

  // ---- what the hexadecimal form means

  predicate AllHex(s: string) {
    forall i :: 0 <= i < |s| ==> IsHex(s[i])
  }

  /** A digit sequence padded on the left to an even length. */
  function Padded(g: string): (r: string)
    requires AllHex(g)
    ensures AllHex(r) && |r| % 2 == 0
  {
    if |g| % 2 == 1 then "0" + g else g
  }

  /** The bytes of an even number of digits, two each. */
  function Pairs(s: string): seq<byte>
    requires AllHex(s) && |s| % 2 == 0
  {
    seq(|s| / 2, i requires 0 <= i < |s| / 2 => Byte(s[2 * i], s[2 * i + 1]))
  }

  /** The bytes of a digit sequence. */
  function GroupBytes(g: string): seq<byte>
    requires AllHex(g)
  {
    Pairs(Padded(g))
  }

  lemma PairsCons(s: string)
    requires AllHex(s) && |s| % 2 == 0 && s != []
    ensures AllHex(s[2..]) && Pairs(s) == [Byte(s[0], s[1])] + Pairs(s[2..])
  {
    hide IsHex, Byte;
    assert forall i :: 0 <= i < |s| / 2 - 1 ==> Pairs(s)[i + 1] == Pairs(s[2..])[i];
  }

  /** The first byte comes from one digit when their number is odd. */
  lemma GroupCons(g: string)
    requires AllHex(g) && g != []
    ensures GroupBytes(g) ==
      if |g| % 2 == 1 then [HexValue(g[0])] + GroupBytes(g[1..]) else [Byte(g[0], g[1])] + GroupBytes(g[2..])
  {
    ZeroDigit();
    PairsCons(Padded(g));
    hide IsHex, HexValue, Pairs;
    assert |g| % 2 == 1 ==> Padded(g)[2..] == g[1..];
  }

  lemma ZeroDigit()
    ensures IsHex('0') && HexValue('0') == 0
  {
  }

  predicate Groups(groups: seq<string>, seps: seq<char>) {
    && |groups| == |seps| + 1
    && (forall g :: g in groups ==> g != [] && AllHex(g))
    && forall c :: c in seps ==> IsSeparator(c)
  }

  /** Digit sequences joined by separators. */
  function Join(groups: seq<string>, seps: seq<char>): string
    requires |groups| == |seps| + 1
  {
    if seps == [] then groups[0] else groups[0] + [seps[0]] + Join(groups[1..], seps[1..])
  }

  function AllBytes(groups: seq<string>): seq<byte>
    requires forall g :: g in groups ==> AllHex(g)
  {
    if groups == [] then [] else GroupBytes(groups[0]) + AllBytes(groups[1..])
  }

  /** Inside a sequence, the parser reads its bytes, up to the limit, and then goes on after it. */
  lemma {:induction false} ParseGroup(s: CString, c: Parse)
    requires c.Valid(s) && 1 <= c.dlen && AllHex(s[c.p..c.p + c.dlen]) && |c.out| < IW_ENCODING_TOKEN_MAX
    ensures var all := c.out + GroupBytes(s[c.p..c.p + c.dlen]);
      ParseHex(s, c) == if |all| >= IW_ENCODING_TOKEN_MAX then Some(Cut(all))
        else ParseHex(s, Parse(c.p + c.dlen, 0, all))
    decreases c.dlen
  {
    hide Parse.Turn, Parse.Entered, GroupBytes, AllHex, ParseHex;
    var n := ParseOne(s, c);
    if |n.out| >= IW_ENCODING_TOKEN_MAX {
      assert Cut(n.out + GroupBytes(s[n.p..n.p + n.dlen])) == n.out;
    } else if n.dlen > 0 {
      ParseGroup(s, n);
    } else {
      NoBytes();
      assert s[n.p..n.p + n.dlen] == [] && n.out + [] == n.out;
    }
  }

  /** One turn inside a sequence. */
  lemma ParseOne(s: CString, c: Parse) returns (n: Parse)
    requires c.Valid(s) && 1 <= c.dlen && AllHex(s[c.p..c.p + c.dlen]) && |c.out| < IW_ENCODING_TOKEN_MAX
    ensures n.Valid(s) && 0 <= n.dlen < c.dlen && n.p + n.dlen == c.p + c.dlen && |n.out| == |c.out| + 1
    ensures AllHex(s[n.p..n.p + n.dlen])
    ensures n.out + GroupBytes(s[n.p..n.p + n.dlen]) == c.out + GroupBytes(s[c.p..c.p + c.dlen])
    ensures ParseHex(s, c) == if |n.out| >= IW_ENCODING_TOKEN_MAX then Some(n.out) else ParseHex(s, n)
  {
    hide Parse.Turn, Parse.Entered, GroupBytes, IsHex, HexValue, Byte;
    var g := s[c.p..c.p + c.dlen];
    var rest := if c.dlen % 2 == 1 then g[1..] else g[2..];
    TurnGroup(s, c);
    n := c.Turn(s).value;
    hide ParseHex;
    assert s[n.p..n.p + n.dlen] == rest;
    GroupCons(g);
    var first := if c.dlen % 2 == 1 then HexValue(g[0]) else Byte(g[0], g[1]);
    OneByteMore(c.out, first, GroupBytes(rest));
  }

  lemma OneByteMore(out: seq<byte>, first: byte, rest: seq<byte>)
    ensures out + ([first] + rest) == out + [first] + rest
  {
  }

  lemma NoBytes()
    ensures GroupBytes([]) == []
  {
  }

  lemma TurnGroup(s: CString, c: Parse)
    requires c.Valid(s) && 1 <= c.dlen && AllHex(s[c.p..c.p + c.dlen])
    ensures var g := s[c.p..c.p + c.dlen];
      c.Entered(s) == c && c.Turn(s) == Some(
        if c.dlen % 2 == 1 then Parse(c.p + 1, c.dlen - 1, c.out + [HexValue(g[0])])
        else Parse(c.p + 2, c.dlen - 2, c.out + [Byte(g[0], g[1])]))
  {
    var g := s[c.p..c.p + c.dlen];
    assert IsHex(s[c.p]) by { assert g[0] == s[c.p]; }
    if c.dlen >= 2 {
      assert IsHex(s[c.p + 1]) by { assert g[1] == s[c.p + 1]; }
    }
    ScanHere(s, c.p);
  }

  lemma {:induction false} SpanIs(s: CString, p: nat, n: nat)
    requires p + n <= |s| && (forall i :: p <= i < p + n ==> !IsSeparator(s[i]))
    requires p + n < |s| ==> IsSeparator(s[p + n])
    ensures Span(s, p) == n
    decreases n
  {
    if n == 0 {
    } else {
      SpanIs(s, p + 1, n - 1);
    }
  }

  /** At the start of a sequence its length is worked out. */
  lemma {:induction false} EnterSequence(s: CString, p: nat, out: seq<byte>)
    requires p < |s| && 0 < Span(s, p) && |out| < IW_ENCODING_TOKEN_MAX
    ensures ParseHex(s, Parse(p, -1, out)) == ParseHex(s, Parse(p, Span(s, p), out))
  {
    assert Parse(p, -1, out).Entered(s) == Parse(p, Span(s, p), out).Entered(s);
  }

  /** After a sequence the separator is skipped. */
  lemma {:induction false} SkipSeparator(s: CString, p: nat, out: seq<byte>)
    requires p + 1 < |s| && IsSeparator(s[p]) && |out| < IW_ENCODING_TOKEN_MAX
    ensures Parse(p, 0, out).Valid(s)
    ensures ParseHex(s, Parse(p, 0, out)) == ParseHex(s, Parse(p + 1, -1, out))
  {
    assert Parse(p, 0, out).Entered(s) == Parse(p + 1, -1, out).Entered(s);
  }

  /** The first sequence of a joined text. */
  lemma FirstGroup(s: CString, p: nat, groups: seq<string>, seps: seq<char>)
    requires Groups(groups, seps) && p <= |s| && s[p..] == Join(groups, seps)
    ensures var q := p + |groups[0]|;
      && p < q <= |s| && s[p..q] == groups[0] && AllHex(groups[0]) && Span(s, p) == |groups[0]|
      && if seps == [] then q == |s|
         else q + 1 < |s| && IsSeparator(s[q]) && s[q + 1..] == Join(groups[1..], seps[1..])
  {
    var g, text := groups[0], Join(groups, seps);
    var q := p + |g|;
    assert g in groups && text[..|g|] == g;
    assert s[p..q] == s[p..][..|g|];
    forall i | p <= i < q ensures !IsSeparator(s[i]) {
      assert g[i - p] == s[i];
      assert IsHex(g[i - p]);
    }
    if seps != [] {
      assert s[q] == text[|g|] == seps[0];
      assert s[q + 1..] == text[|g| + 1..] == Join(groups[1..], seps[1..]);
      GroupsTail(groups, seps);
      NotEmpty(groups[1..], seps[1..]);
    }
    SpanIs(s, p, |g|);
  }

  lemma GroupsTail(groups: seq<string>, seps: seq<char>)
    requires Groups(groups, seps) && seps != []
    ensures Groups(groups[1..], seps[1..])
  {
    forall g | g in groups[1..] ensures g in groups {
    }
    forall c | c in seps[1..] ensures c in seps {
    }
  }

  lemma {:induction false} NotEmpty(groups: seq<string>, seps: seq<char>)
    requires Groups(groups, seps)
    ensures Join(groups, seps) != []
  {
    assert groups[0] in groups;
  }

  lemma CutPrefix(a: seq<byte>, b: seq<byte>)
    requires |a| >= IW_ENCODING_TOKEN_MAX
    ensures Cut(a + b) == Cut(a)
  {
  }

  /** From the start of a sequence, the parser reads the rest of a joined text up to the limit. */
  lemma {:induction false} ParseJoin(s: CString, p: nat, groups: seq<string>, seps: seq<char>, out: seq<byte>)
    requires Groups(groups, seps) && p <= |s| && s[p..] == Join(groups, seps) && |out| < IW_ENCODING_TOKEN_MAX
    ensures ParseHex(s, Parse(p, -1, out)) == Some(Cut(out + AllBytes(groups)))
    decreases |seps|
  {
    hide Join, Span, IsSeparator, IsHex, GroupBytes, ParseHex;
    var g := groups[0];
    assert g in groups;
    var q, all := p + |g|, out + GroupBytes(g);
    ParseFirst(s, p, groups, seps, out);
    assert all + AllBytes(groups[1..]) == out + AllBytes(groups);
    if |all| >= IW_ENCODING_TOKEN_MAX {
      CutPrefix(all, AllBytes(groups[1..]));
    } else if seps == [] {
      assert groups[1..] == [] && all + [] == all;
    } else {
      FirstGroup(s, p, groups, seps);
      GroupsTail(groups, seps);
      ParseJoin(s, q + 1, groups[1..], seps[1..], all);
    }
  }

  /** The first sequence is read, and the parser is at the start of the next one or at the end. */
  lemma {:induction false} ParseFirst(s: CString, p: nat, groups: seq<string>, seps: seq<char>, out: seq<byte>)
    requires Groups(groups, seps) && p <= |s| && s[p..] == Join(groups, seps) && |out| < IW_ENCODING_TOKEN_MAX
    ensures AllHex(groups[0])
    ensures p + |groups[0]| + (if seps == [] then 0 else 1) <= |s|
    ensures var q, all := p + |groups[0]|, out + GroupBytes(groups[0]);
      ParseHex(s, Parse(p, -1, out)) ==
        if |all| >= IW_ENCODING_TOKEN_MAX then Some(Cut(all))
        else if seps == [] then Some(all)
        else ParseHex(s, Parse(q + 1, -1, all))
  {
    hide Join, GroupBytes, Cut, AllHex, ParseHex, Span;
    var g := groups[0];
    FirstGroup(s, p, groups, seps);
    var c, q, all := Parse(p, |g|, out), p + |g|, out + GroupBytes(g);
    assert c.Valid(s);
    EnterSequence(s, p, out);
    ParseGroup(s, c);
    if |all| < IW_ENCODING_TOKEN_MAX {
      if seps == [] {
        AtEnd(s, Parse(q, 0, all));
      } else {
        SkipSeparator(s, q, all);
      }
    }
  }

  lemma {:induction false} AtEnd(s: CString, c: Parse)
    requires c.Valid(s) && c.p == |s| && |c.out| < IW_ENCODING_TOKEN_MAX
    ensures ParseHex(s, c) == Some(c.out)
  {
  }

  /**
    The key denoted by digit sequences with separators between them is the concatenation
    of the sequences, each padded to an even number of digits, cut to the largest key.
   */
  lemma {:induction false} KeyMeaning(s: CString, groups: seq<string>, seps: seq<char>)
    requires Groups(groups, seps) && s == Join(groups, seps)
    ensures KeyOf(s) == Some(Cut(AllBytes(groups)))
  {
    assert s[0..] == s;
    FirstGroup(s, 0, groups, seps);
    assert groups[0] in groups && IsHex(groups[0][0]) && s[0..|groups[0]|][0] == s[0];
    assert [] + AllBytes(groups) == AllBytes(groups);
    ParseJoin(s, 0, groups, seps, []);
  }

  lemma SeparatorsAre(c: char)
    ensures IsSeparator(c) <==> c in "-:;.,"
  {
  }

  /** A string denotes the codes of its characters, the first 64 of them. */
  lemma StringKey(t: CString)
    ensures KeyOf("s:" + t).Some? && |KeyOf("s:" + t).value| == if |t| < 64 then |t| else 64
    ensures forall i :: 0 <= i < |t| && i < 64 ==> KeyOf("s:" + t).value[i] == t[i] as int
  {
    var input := "s:" + t;
    assert input[..2] == "s:" && input[2..] == t;
  }

  /** A passphrase denotes no key. */
  lemma PassphraseKey(t: CString)
    ensures KeyOf("p:" + t).None?
  {
    assert ("p:" + t)[0] == 'p';
  }

  /** Any other text is read as hexadecimal digits. */
  lemma {:induction false} OtherKey(t: CString)
    requires |t| < 2 || t[1] != ':' || t[0] !in "sp"
    ensures KeyOf(t) == ParseHex(t, Parse(0, -1, []))
  {
    hide ParseHex;
  }

  // ---- which texts are accepted

  predicate GroupedAt(s: CString, i: nat)
    requires i < |s|
  {
    if IsSeparator(s[i]) then 0 < i && IsHex(s[i - 1]) else IsHex(s[i]) || IsSpace(s[i])
  }

  /**
    The first n characters are digits and white space in sequences, and each separator, and the end,
    comes right after a digit: so none is doubled, leading or trailing, and no sequence ends in white space.
   */
  predicate Grouped(s: CString, n: nat)
    requires n <= |s|
  {
    0 < n && IsHex(s[n - 1]) && forall i :: 0 <= i < n ==> GroupedAt(s, i)
  }

  /**
    A byte is read from here on: at the start of a sequence, before an even number of characters of it, and
    after a character that white space before a separator keeps from being read with its neighbour.
   */
  predicate ByteStart(s: CString, i: nat)
    requires i < |s|
  {
    && !IsSeparator(s[i])
    && (i == 0 || IsSeparator(s[i - 1]) || Span(s, i) % 2 == 0 || ScanPair(s, i - 1).count < 2)
  }

  /** How many bytes start in the first n characters. */
  function Starts(s: CString, n: nat): nat
    requires n <= |s|
  {
    if n == 0 then 0 else Starts(s, n - 1) + if ByteStart(s, n - 1) then 1 else 0
  }

  lemma {:induction false} StartsGrow(s: CString, m: nat, n: nat)
    requires m <= n <= |s|
    ensures Starts(s, m) <= Starts(s, n)
    decreases n - m
  {
    if m == n {
    } else {
      StartsGrow(s, m, n - 1);
    }
  }

  /** The first n characters are grouped, and they are the whole text or give a key of the greatest size. */
  predicate Suffices(s: CString, n: nat) {
    n <= |s| && Grouped(s, n) && (n == |s| || IW_ENCODING_TOKEN_MAX <= Starts(s, n))
  }

  /** The state of the parser, as the positions where bytes start tell it. */
  predicate Tracks(s: CString, c: Parse) {
    && c.Valid(s)
    && (forall i :: c.p <= i < c.p + c.dlen ==> !IsSeparator(s[i]))
    && |c.out| == Starts(s, c.p) < IW_ENCODING_TOKEN_MAX
    && if c.p == 0 then c.dlen == -1
       else 0 <= c.dlen && (c.dlen == 0 ==> IsHex(s[c.p - 1])) && (0 < c.dlen ==> ByteStart(s, c.p))
  }

  lemma {:induction false} SkipsToDigit(s: CString, p: nat, digit: nat)
    requires p <= digit < |s| && IsHex(s[digit])
    requires forall i :: p <= i < digit ==> IsHex(s[i]) || IsSpace(s[i])
    ensures SkipSpace(s, p) <= digit && IsHex(s[SkipSpace(s, p)])
    decreases digit - p
  {
    if p < digit && IsSpace(s[p]) {
      SkipsToDigit(s, p + 1, digit);
    }
  }

  /** In grouped characters a byte is read. */
  lemma GroupedReads(s: CString, e: Parse, n: nat)
    requires e.Valid(s) && 1 <= e.dlen && e.p < n <= |s| && Grouped(s, n)
    requires forall i :: e.p <= i < e.p + e.dlen ==> !IsSeparator(s[i])
    ensures ReadByte(s, e.p, e.dlen).0 >= 1
  {
    var end := if e.p + e.dlen < n then e.p + e.dlen else n;
    if end < n {
      assert GroupedAt(s, end) && IsSeparator(s[end]);
    }
    assert IsHex(s[end - 1]);
    hide IsHex, IsSpace, IsSeparator;
    forall i | e.p <= i < end - 1 ensures IsHex(s[i]) || IsSpace(s[i]) {
      assert GroupedAt(s, i);
    }
    SkipsToDigit(s, e.p, end - 1);
  }

  /** A byte is only read off digits and white space, and at the end of a sequence off a digit. */
  lemma {:induction false} ReadsGrouped(s: CString, e: Parse)
    requires e.Valid(s) && 0 <= e.dlen && ReadByte(s, e.p, e.dlen).0 >= 1
    ensures var n, q := e.p + ReadByte(s, e.p, e.dlen).0, SkipSpace(s, e.p);
      && n <= e.p + e.dlen <= |s| && (n == e.p + e.dlen ==> IsHex(s[n - 1]))
      && (forall i :: e.p <= i < n ==> IsHex(s[i]) || IsSpace(s[i]))
      && q < e.p + e.dlen && IsHex(s[q])
  {
    ReadByteFits(s, e.p, e.dlen);
    var q := SkipSpace(s, e.p);
    assert q < |s| && IsHex(s[q]);
  }

  /** Entering a sequence, past its separator, is where a byte starts. */
  lemma {:induction false} EntersStart(s: CString, c: Parse)
    requires Tracks(s, c) && c.p < |s|
    ensures var e := c.Entered(s);
      && e.Valid(s) && c.p <= e.p && (c.dlen == 0 <==> c.p < e.p) && e.p <= c.p + 1
      && (c.dlen == 0 ==> IsSeparator(s[c.p])) && e.out == c.out
      && (forall i :: e.p <= i < e.p + e.dlen ==> !IsSeparator(s[i]))
      && (1 <= e.dlen ==> e.p < |s| && ByteStart(s, e.p) && Starts(s, e.p) == |c.out|)
  {
    hide IsHex, IsSpace;
  }

  /** Inside a sequence, where a byte starts. */
  lemma StartInside(s: CString, p: nat, left: nat)
    requires 0 < p < p + left <= |s| && (p + left < |s| ==> IsSeparator(s[p + left]))
    requires forall i :: p - 1 <= i < p + left ==> !IsSeparator(s[i])
    ensures ByteStart(s, p) <==> left % 2 == 0 || ScanPair(s, p - 1).count < 2
  {
    hide IsSeparator;
    SpanIs(s, p, left);
  }

  /** What is read of a byte is one start, and leads to where the next one is. */
  lemma {:induction false} ReadsOneStart(s: CString, e: Parse)
    requires e.Valid(s) && 1 <= e.dlen && e.p < |s| && ByteStart(s, e.p) && ReadByte(s, e.p, e.dlen).0 >= 1
    requires forall i :: e.p <= i < e.p + e.dlen ==> !IsSeparator(s[i])
    ensures var count := ReadByte(s, e.p, e.dlen).0;
      && 1 <= count <= 2 && count <= e.dlen && e.p + count <= |s|
      && Starts(s, e.p + count) == Starts(s, e.p) + 1
      && (count < e.dlen ==> ByteStart(s, e.p + count))
  {
    hide IsSeparator, ScanPair, ByteStart;
    ReadByteFits(s, e.p, e.dlen);
    assert Starts(s, e.p + 1) == Starts(s, e.p) + 1;
    if 2 <= e.dlen {
      StartInside(s, e.p + 1, e.dlen - 1);
    }
    if 2 < e.dlen {
      StartInside(s, e.p + 2, e.dlen - 2);
    }
  }

  /** One turn that reads a byte. */
  lemma OneTurn(s: CString, c: Parse) returns (n: Parse)
    requires Tracks(s, c) && c.p < |s| && c.Entered(s).dlen >= 1
    requires var e := c.Entered(s); ReadByte(s, e.p, e.dlen).0 >= 1
    ensures c.p < n.p <= |s| && n.Valid(s) && |n.out| == Starts(s, n.p) == |c.out| + 1
    ensures ParseHex(s, c) == if |n.out| >= IW_ENCODING_TOKEN_MAX then Some(n.out) else ParseHex(s, n)
    ensures |n.out| < IW_ENCODING_TOKEN_MAX ==> Tracks(s, n)
    ensures forall i :: c.Entered(s).p <= i < n.p ==> IsHex(s[i]) || IsSpace(s[i])
  {
    hide ParseHex, ReadByte, Parse.Turn, Parse.Entered, IsHex, IsSpace, IsSeparator, ByteStart, Starts;
    var e := c.Entered(s);
    EntersStart(s, c);
    NextTurn(s, c);
    ReadsGrouped(s, e);
    ReadsOneStart(s, e);
    var (count, value) := ReadByte(s, e.p, e.dlen);
    n := Parse(e.p + count, e.dlen - count, e.out + [value]);
  }

  /** The sequence that comes next in grouped characters is not empty. */
  lemma EntersGrouped(s: CString, c: Parse, n: nat)
    requires Tracks(s, c) && c.p < n <= |s| && Grouped(s, n)
    ensures c.Entered(s).dlen >= 1 && c.Entered(s).p < n
  {
    if c.dlen == 0 {
      assert IsSeparator(s[c.p]);
      assert !IsHex(s[c.p]);
      assert c.p + 1 < n;
      assert GroupedAt(s, c.p + 1) && !IsSeparator(s[c.p + 1]);
    } else if c.dlen == -1 {
      assert GroupedAt(s, 0) && !IsSeparator(s[0]);
    }
  }

  /** Characters that suffice are accepted. */
  lemma {:induction false} SufficesAccepted(s: CString, c: Parse, n: nat)
    requires Tracks(s, c) && Suffices(s, n)
    ensures ParseHex(s, c).Some?
    decreases |s| - c.p
  {
    if c.p == |s| {
      AtEnd(s, c);
    } else {
      if n <= c.p {
        StartsGrow(s, n, c.p);
      }
      hide ParseHex, Grouped, Tracks, ReadByte, Parse.Entered, Starts;
      TracksValid(s, c);
      EntersGrouped(s, c, n);
      EntersStart(s, c);
      GroupedReads(s, c.Entered(s), n);
      var next := OneTurn(s, c);
      if |next.out| < IW_ENCODING_TOKEN_MAX {
        SufficesAccepted(s, next, n);
      }
    }
  }

  lemma {:induction false} TracksValid(s: CString, c: Parse)
    requires Tracks(s, c)
    ensures c.Valid(s) && |c.out| == Starts(s, c.p) < IW_ENCODING_TOKEN_MAX
  {
  }

  /** Where the last byte that fits was read. */
  lemma LastRead(s: CString, e: Parse) returns (n: nat)
    requires e.Valid(s) && 0 <= e.dlen && ReadByte(s, e.p, e.dlen).0 >= 1
    requires e.p < |s| && ByteStart(s, e.p) && IW_ENCODING_TOKEN_MAX <= Starts(s, e.p) + 1
    requires forall i :: 0 <= i < e.p ==> GroupedAt(s, i)
    ensures Suffices(s, n)
  {
    hide ByteStart, IsHex, IsSpace, IsSeparator;
    ReadsGrouped(s, e);
    n := SkipSpace(s, e.p) + 1;
    StartsGrow(s, e.p + 1, n);
    forall i | e.p <= i < n ensures GroupedAt(s, i) {
      NoSeparator(s[i]);
    }
  }

  lemma NoSeparator(c: char)
    requires IsHex(c) || IsSpace(c)
    ensures !IsSeparator(c)
  {
  }

  /** At the end of the text, all of it is grouped. */
  lemma EndSuffices(s: CString, c: Parse)
    requires s != [] && Tracks(s, c) && c.p == |s| && forall i :: 0 <= i < c.p ==> GroupedAt(s, i)
    ensures Suffices(s, |s|)
  {
    hide IsHex, IsSpace, IsSeparator, ByteStart;
  }

  /** A turn of a parse that accepts reads a byte, off grouped characters. */
  lemma {:induction false} AcceptedTurn(s: CString, c: Parse)
    requires Tracks(s, c) && c.p < |s| && ParseHex(s, c).Some? && forall i :: 0 <= i < c.p ==> GroupedAt(s, i)
    ensures var e := c.Entered(s);
      && 1 <= e.dlen && e.Valid(s) && e.p < |s| && ReadByte(s, e.p, e.dlen).0 >= 1
      && ByteStart(s, e.p) && Starts(s, e.p) == |c.out|
      && forall i :: 0 <= i < e.p ==> GroupedAt(s, i)
  {
    hide ParseHex, ReadByte, Parse.Entered, Starts, ByteStart, IsHex, IsSpace, IsSeparator;
    EntersStart(s, c);
    NextTurn(s, c);
    ReadsGrouped(s, c.Entered(s));
  }

  lemma StaysGrouped(s: CString, p: nat, n: nat)
    requires p <= n <= |s| && forall i :: 0 <= i < p ==> GroupedAt(s, i)
    requires forall i :: p <= i < n ==> IsHex(s[i]) || IsSpace(s[i])
    ensures forall i :: 0 <= i < n ==> GroupedAt(s, i)
  {
    hide IsHex, IsSpace, IsSeparator;
    forall i | p <= i < n ensures GroupedAt(s, i) {
      NoSeparator(s[i]);
    }
  }

  /** Of an accepted text, what was read suffices. */
  lemma {:induction false} AcceptedSuffices(s: CString, c: Parse) returns (n: nat)
    requires s != [] && Tracks(s, c) && ParseHex(s, c).Some?
    requires forall i :: 0 <= i < c.p ==> GroupedAt(s, i)
    ensures Suffices(s, n)
    decreases |s| - c.p
  {
    TracksValid(s, c);
    hide ParseHex, ReadByte, Parse.Entered, Starts, ByteStart, Tracks, Suffices, GroupedAt;
    if c.p == |s| {
      n := |s|;
      EndSuffices(s, c);
    } else {
      AcceptedTurn(s, c);
      var e := c.Entered(s);
      var next := OneTurn(s, c);
      if |next.out| < IW_ENCODING_TOKEN_MAX {
        StaysGrouped(s, e.p, next.p);
        n := AcceptedSuffices(s, next);
      } else {
        n := LastRead(s, e);
      }
    }
  }

  /**
    iw_in_key takes a text for hexadecimal digits exactly when it is empty, or it is grouped, or so many of its
    first characters are grouped that they give 64 bytes, after which it looks no further.
   */
  lemma {:induction false} HexAccepted(s: CString)
    ensures ParseHex(s, Parse(0, -1, [])).Some? <==> s == [] || exists n: nat :: Suffices(s, n)
  {
    var c := Parse(0, -1, []);
    if s != [] {
      if ParseHex(s, c).Some? {
        var n := AcceptedSuffices(s, c);
      }
      if n: nat :| Suffices(s, n) {
        SufficesAccepted(s, c, n);
      }
    }
  }

  // ---- printing

  /** The digits of some bytes. */
  function Digits(key: seq<byte>): (r: string)
    ensures |r| == 2 * |key| && AllHex(r)
  {
    if key == [] then [] else Digits(key[..|key| - 1]) + Hex2(key[|key| - 1])
  }

  /** The sequences of a printed key: two bytes each, but the last. */
  function KeyGroups(key: seq<byte>): (r: seq<string>)
    requires key != []
    ensures r != [] && forall g :: g in r ==> g != [] && AllHex(g)
  {
    if |key| <= 2 then [Digits(key)] else [Digits(key[..2])] + KeyGroups(key[2..])
  }

  function Dashes(n: nat): (r: seq<char>)
    ensures |r| == n && forall c :: c in r ==> c == '-'
  {
    seq(n, _ => '-')
  }

  /** A printed key: two digits a byte, with a dash after every second byte. */
  function KeyText(key: seq<byte>): string
    requires key != []
  {
    Join(KeyGroups(key), Dashes(|KeyGroups(key)| - 1))
  }

  lemma {:induction false} KeyTextCons(key: seq<byte>)
    requires key != []
    ensures KeyText(key) == if |key| <= 2 then Digits(key) else Digits(key[..2]) + "-" + KeyText(key[2..])
  {
    hide Digits, Join;
    if |key| > 2 {
      JoinFront(Digits(key[..2]), KeyGroups(key[2..]));
    } else {
      JoinOne(Digits(key));
    }
  }

  lemma JoinOne(g: string)
    ensures Join([g], Dashes(0)) == g
  {
  }

  lemma {:induction false} JoinFront(g: string, rest: seq<string>)
    requires rest != []
    ensures Join([g] + rest, Dashes(|rest|)) == g + "-" + Join(rest, Dashes(|rest| - 1))
  {
    hide Join;
    assert Dashes(|rest|) == ['-'] + Dashes(|rest| - 1);
    JoinStep(g, rest, '-', Dashes(|rest| - 1));
  }

  lemma {:induction false} JoinStep(g: string, rest: seq<string>, c: char, seps: seq<char>)
    requires |rest| == |seps| + 1
    ensures Join([g] + rest, [c] + seps) == g + [c] + Join(rest, seps)
  {
    assert ([g] + rest)[1..] == rest && ([c] + seps)[1..] == seps;
  }

  /** One more byte prints two more digits, after a dash when the number of bytes so far is even. */
  lemma {:induction false} KeyTextSnoc(key: seq<byte>, b: byte)
    requires key != []
    ensures KeyText(key + [b]) == KeyText(key) + (if |key| % 2 == 0 then "-" else "") + Hex2(b)
  {
    hide KeyText, KeyGroups, Hex2, Digits;
    KeyTextCons(key);
    if |key| <= 2 {
      KeyTextShort(key, b);
    } else {
      TailSnoc(key, b);
      KeyTextCons(key + [b]);
      KeyTextSnoc(key[2..], b);
      Regroup(Digits(key[..2]) + "-", KeyText(key[2..]), if |key| % 2 == 0 then "-" else "", Hex2(b));
    }
  }

  lemma TailSnoc(key: seq<byte>, b: byte)
    requires 2 < |key|
    ensures (key + [b])[..2] == key[..2] && (key + [b])[2..] == key[2..] + [b]
  {
  }

  lemma Regroup(a: string, b: string, c: string, d: string)
    ensures a + (b + c + d) == a + b + c + d
  {
  }

  lemma {:induction false} KeyTextShort(key: seq<byte>, b: byte)
    requires 1 <= |key| <= 2
    ensures KeyText(key + [b]) == Digits(key) + (if |key| % 2 == 0 then "-" else "") + Hex2(b)
    ensures |Digits(key)| == 2 * |key|
  {
    hide KeyText, KeyGroups, Hex2;
    var more := key + [b];
    KeyTextCons(more);
    if |key| == 1 {
      assert more[..1] == key;
    } else {
      assert more[..2] == key && more[2..] == [b];
      KeyTextCons([b]);
      assert [b][..0] == [];
    }
  }

  /** strcpy(buffer + at, text) */
  method Put(buffer: array<char>, at: nat, text: string)
    requires at + |text| < buffer.Length
    modifies buffer
    ensures buffer[..at + |text|] == old(buffer[..at]) + text && buffer[at + |text|] == '\0'
    ensures forall k :: at + |text| < k < buffer.Length ==> buffer[k] == old(buffer[k])
  {
    forall i | 0 <= i < |text| {
      buffer[at + i] := text[i];
    }
    buffer[at + |text|] := '\0';
  }

  /** The string in a buffer. */
  predicate Contains(buffer: array<char>, text: string)
    reads buffer
  {
    |text| < buffer.Length && buffer[..|text|] == text && buffer[|text|] == '\0'
  }

  /** The first piece of a text. */
  method Start(buffer: array<char>, text: string)
    requires |text| < buffer.Length
    modifies buffer
    ensures Contains(buffer, text)
    ensures forall k :: |text| < k < buffer.Length ==> buffer[k] == old(buffer[k])
  {
    Put(buffer, 0, text);
  }

  /** snprintf(buffer, buflen, "<too big>") */
  method PrintTooBig(buffer: array<char>, buflen: nat)
    requires buflen <= buffer.Length
    modifies buffer
    ensures buflen > 0 ==> Contains(buffer, if buflen <= 9 then "<too big>"[..buflen - 1] else "<too big>")
    ensures forall k :: buflen <= k < buffer.Length ==> buffer[k] == old(buffer[k])
  {
    if buflen > 0 {
      Put(buffer, 0, if buflen <= 9 then "<too big>"[..buflen - 1] else "<too big>");
    }
  }

  /** The text for a key of a size that is not present: "on", or the shape of a printed key. */
  function DummyText(size: nat): string {
    if size == 0 then "on"
    else if size == 1 then "**"
    else DummyText(size - 1) + (if size % 2 == 1 then "-" else "") + "**"
  }

  lemma DummyStarts()
    ensures DummyText(0) == "on" && DummyText(1) == "**"
  {
  }

  lemma DummyStep(size: nat)
    requires 2 <= size
    ensures DummyText(size) == DummyText(size - 1) + (if size % 2 == 1 then "-" else "") + "**"
    ensures |DummyText(size)| == |DummyText(size - 1)| + 2 + size % 2
  {
  }

  function Mask(s: string): string {
    seq(|s|, i requires 0 <= i < |s| => if s[i] == '-' then '-' else '*')
  }

  lemma MaskConcat(a: string, b: string)
    ensures Mask(a + b) == Mask(a) + Mask(b)
  {
  }

  lemma MaskHex(b: byte)
    ensures Mask(Hex2(b)) == "**" && Mask("-") == "-" && Mask("") == ""
  {
  }

  /** The dummy text shows nothing of a key but its size: it is the printed key with every digit starred. */
  lemma {:induction false} DummyMasksKey(key: seq<byte>)
    requires key != []
    ensures DummyText(|key|) == Mask(KeyText(key))
  {
    hide KeyText, Mask, Hex2;
    var last := |key| - 1;
    MaskHex(key[last]);
    if last == 0 {
      KeyTextOne(key[0]);
      assert key == [key[0]];
    } else {
      var before, dash := key[..last], if last % 2 == 0 then "-" else "";
      assert key == before + [key[last]];
      KeyTextSnoc(before, key[last]);
      MaskConcat(KeyText(before) + dash, Hex2(key[last]));
      MaskConcat(KeyText(before), dash);
      DummyMasksKey(before);
    }
  }

  lemma {:induction false} DummyLength(size: nat)
    requires 1 <= size
    ensures |DummyText(size)| == 2 * size + (size - 1) / 2
  {
    if size == 1 {
    } else {
      DummyStep(size);
      hide DummyText;
      DummyLength(size - 1);
    }
  }

  /**
    iw_print_key. What it writes stays within buflen, but for a key of no bytes: that takes three characters,
    and the first byte is printed if the key is said to be present.
   */
  method PrintKey(buffer: array<char>, buflen: nat, key: seq<byte>, size: nat, noKey: bool)
    requires buflen <= buffer.Length && size <= |key| && (noKey || key != [])
    requires size == 0 ==> 3 <= buffer.Length
    modifies buffer
    ensures 3 * size <= buflen && noKey ==> Contains(buffer, DummyText(size))
    ensures 3 * size <= buflen && !noKey ==> Contains(buffer, KeyText(Shown(key, size)))
    ensures 3 * size > buflen > 0 ==> Contains(buffer, if buflen <= 9 then "<too big>"[..buflen - 1] else "<too big>")
    ensures forall k :: buflen <= k < buffer.Length && (size == 0 ==> 3 <= k) ==> buffer[k] == old(buffer[k])
  {
    hide KeyText, DummyText, Contains;
    var reach := if size == 0 && buflen < 3 then 3 else buflen;
    if size * 3 > buflen {
      PrintTooBig(buffer, buflen);
    } else if noKey {
      PrintDummy(buffer, reach, size);
    } else {
      PrintPresent(buffer, reach, Shown(key, size));
    }
  }

  /** The branch for a key that is not present. */
  method PrintDummy(buffer: array<char>, buflen: nat, size: nat)
    requires 3 * size <= buflen <= buffer.Length && (size == 0 ==> 3 <= buflen)
    modifies buffer
    ensures |DummyText(size)| < buflen && Contains(buffer, DummyText(size))
    ensures forall k :: buflen <= k < buffer.Length ==> buffer[k] == old(buffer[k])
  {
    hide DummyText, Contains;
    DummyStarts();
    if size == 0 {
      Start(buffer, "on");
      return;
    }
    Start(buffer, "**");
    var at, i := 2, 1;
    while i < size
      invariant 1 <= i <= size && at == |DummyText(i)|
      invariant Contains(buffer, DummyText(i))
      invariant forall k :: buflen <= k < buffer.Length ==> buffer[k] == old(buffer[k])
    {
      DummyLength(i + 1);
      at := PrintStars(buffer, at, i);
      i := i + 1;
    }
    DummyLength(size);
  }

  /** One turn of the dummy loop. */
  method PrintStars(buffer: array<char>, at: nat, i: nat) returns (next: nat)
    requires 1 <= i && |DummyText(i + 1)| < buffer.Length && at == |DummyText(i)| && Contains(buffer, DummyText(i))
    modifies buffer
    ensures next == |DummyText(i + 1)| && Contains(buffer, DummyText(i + 1))
    ensures forall k :: next < k < buffer.Length ==> buffer[k] == old(buffer[k])
  {
    DummyStep(i + 1);
    hide DummyText, Contains;
    ghost var text := DummyText(i);
    next := at;
    if i % 2 == 0 {
      next := Append(buffer, next, "-", text);
      text := text + "-";
    }
    assert text + "**" == DummyText(i + 1);
    next := Append(buffer, next, "**", text);
  }

  /** Copying a text to the end of the string in a buffer. */
  method Append(buffer: array<char>, at: nat, text: string, ghost soFar: string) returns (next: nat)
    requires at == |soFar| && Contains(buffer, soFar) && at + |text| < buffer.Length
    modifies buffer
    ensures next == at + |text| && Contains(buffer, soFar + text)
    ensures forall k :: next < k < buffer.Length ==> buffer[k] == old(buffer[k])
  {
    Put(buffer, at, text);
    next := at + |text|;
  }

  /** The branch for a key that is present. */
  method PrintPresent(buffer: array<char>, buflen: nat, key: seq<byte>)
    requires key != [] && 3 * |key| <= buflen <= buffer.Length
    modifies buffer
    ensures |KeyText(key)| < buflen && Contains(buffer, KeyText(key))
    ensures forall k :: buflen <= k < buffer.Length ==> buffer[k] == old(buffer[k])
  {
    hide KeyText, Hex2;
    KeyTextOne(key[0]);
    HexLength(key[0]);
    Start(buffer, Hex2(key[0]));
    var at, i := 2, 1;
    assert key[..1] == [key[0]];
    while i < |key|
      invariant 1 <= i <= |key| && at == |KeyText(key[..i])| && at == 2 * i + (i - 1) / 2
      invariant Contains(buffer, KeyText(key[..i]))
      invariant forall k :: buflen <= k < buffer.Length ==> buffer[k] == old(buffer[k])
    {
      KeyTextLength(key[..i] + [key[i]]);
      at := PrintNext(buffer, at, key[i], i, key[..i]);
      assert key[..i + 1] == key[..i] + [key[i]];
      i := i + 1;
    }
    assert key[..i] == key;
    KeyTextLength(key);
  }

  /** One turn of the printing loop; `soFar` is what was printed. */
  method PrintNext(buffer: array<char>, at: nat, b: byte, i: nat, ghost soFar: seq<byte>) returns (next: nat)
    requires i == |soFar| && soFar != [] && at == |KeyText(soFar)| && Contains(buffer, KeyText(soFar))
    requires at + 3 < buffer.Length || (i % 2 == 1 && at + 2 < buffer.Length)
    modifies buffer
    ensures next == |KeyText(soFar + [b])| && Contains(buffer, KeyText(soFar + [b]))
    ensures forall k :: next < k < buffer.Length ==> buffer[k] == old(buffer[k])
  {
    hide KeyText, Hex2;
    KeyTextSnoc(soFar, b);
    HexLength(b);
    next := at;
    if i % 2 == 0 {
      Put(buffer, next, "-");
      next := next + 1;
    }
    Put(buffer, next, Hex2(b));
    next := next + 2;
  }

  lemma HexLength(b: byte)
    ensures |Hex2(b)| == 2
  {
  }

  lemma KeyTextOne(b: byte)
    ensures KeyText([b]) == Hex2(b)
  {
    KeyTextCons([b]);
    assert [b][..0] == [];
  }

  lemma {:induction false} KeyTextLength(key: seq<byte>)
    requires key != []
    ensures |KeyText(key)| == 2 * |key| + (|key| - 1) / 2
  {
    KeyTextCons(key);
    hide KeyText;
    if |key| > 2 {
      KeyTextLength(key[2..]);
    }
  }

  // ---- round trip

  lemma {:induction false} DigitsAt(key: seq<byte>, i: nat)
    requires i < |key|
    ensures Digits(key)[2 * i] == HexDigit(key[i] / 16) && Digits(key)[2 * i + 1] == HexDigit(key[i] % 16)
  {
    hide HexDigit;
    if i < |key| - 1 {
      DigitsAt(key[..|key| - 1], i);
    }
  }

  lemma {:induction false} DigitsBytes(key: seq<byte>)
    ensures GroupBytes(Digits(key)) == key
  {
    hide HexDigit, HexValue;
    forall i | 0 <= i < |key| ensures GroupBytes(Digits(key))[i] == key[i] {
      DigitsAt(key, i);
    }
  }

  lemma {:induction false} KeyGroupsBytes(key: seq<byte>)
    requires key != []
    ensures AllBytes(KeyGroups(key)) == key
  {
    hide GroupBytes, Digits;
    if |key| <= 2 {
      DigitsBytes(key);
    } else {
      DigitsBytes(key[..2]);
      KeyGroupsBytes(key[2..]);
    }
  }

  lemma {:induction false} JoinChars(groups: seq<string>, seps: seq<char>)
    requires Groups(groups, seps)
    ensures forall i :: 0 <= i < |Join(groups, seps)| ==> 0 < Join(groups, seps)[i] as int < 256
  {
    assert groups[0] in groups;
    if seps == [] {
    } else {
      GroupsTail(groups, seps);
      JoinChars(groups[1..], seps[1..]);
      assert seps[0] in seps;
    }
  }

  /** Reading a printed key gives its size and bytes back. */
  lemma KeyRoundTrip(key: seq<byte>)
    requires 1 <= |key| <= IW_ENCODING_TOKEN_MAX
    ensures forall i :: 0 <= i < |KeyText(key)| ==> 0 < KeyText(key)[i] as int < 256
    ensures KeyOf(KeyText(key)) == Some(key)
  {
    var groups, seps := KeyGroups(key), Dashes(|KeyGroups(key)| - 1);
    JoinChars(groups, seps);
    KeyMeaning(KeyText(key), groups, seps);
    KeyGroupsBytes(key);
  }
}
