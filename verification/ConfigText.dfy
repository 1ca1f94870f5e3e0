/** The text of an ifrename configuration, and how it is divided into lines, selectors and values. */
module ConfigText {
  import opened Basics
  import opened Text
  import opened Mapping

  // ---- C strings, a pointer being the rest of its string

  /** strcspn */
  function Cspn(t: CString, stop: string): (n: nat)
    ensures n <= |t| && (forall i :: 0 <= i < n ==> t[i] !in stop) && (n < |t| ==> t[n] in stop)
  {
    if t == [] || t[0] in stop then 0 else 1 + Cspn(t[1..], stop)
  }

  /** strspn */
  function Spn(t: CString, accept: string): (n: nat)
    ensures n <= |t| && (forall i :: 0 <= i < n ==> t[i] in accept) && (n < |t| ==> t[n] !in accept)
  {
    if t == [] || t[0] !in accept then 0 else 1 + Spn(t[1..], accept)
  }

  const BLANK := " \t\n"

  function DropBlank(t: CString): (r: CString)
    ensures |r| <= |t| && (r != [] ==> r[0] !in BLANK)
  {
    t[Spn(t, BLANK)..]
  }

  // ---- selectors

  const NAMES: seq<string> := ["mac", "ethaddr", "arp", "linktype", "driver", "businfo", "firmware", "baseaddress",
    "irq", "interrupt", "iwproto", "pcmciaslot", "sysfs", "prevname"]

  /** Some selectors have two names: the one that names the add function. */
  function AddFn(i: nat): nat
  {
    if i == SELECT_ETHADDR then SELECT_MAC
    else if i == SELECT_LINKTYPE then SELECT_ARP
    else if i == SELECT_INTERRUPT then SELECT_IRQ
    else i
  }

  function Lower(c: char): char {
    if 'A' <= c <= 'Z' then c + 32 as char else c
  }

  /** strncasecmp(name, s, strlen(s)) == 0 */
  predicate Abbreviates(s: string, name: string) {
    |s| <= |name| && forall i :: 0 <= i < |s| ==> Lower(s[i]) == name[i]
  }

  predicate Names(s: string, i: nat)
    requires i < |NAMES|
  {
    Abbreviates(s, NAMES[i])
  }

  /** The loop of selector_find from entry i on. */
  function FindFrom(s: string, i: nat, found: Option<nat>, ambiguous: bool): (r: Option<nat>)
    requires i <= |NAMES| && (found.Some? ==> found.value < |NAMES|)
    ensures r.Some? ==> r.value < |NAMES|
    decreases |NAMES| - i
  {
    if i == |NAMES| then if ambiguous then None else found
    else if !Names(s, i) then FindFrom(s, i + 1, found, ambiguous)
    else if |s| == |NAMES[i]| then Some(i)
    else if found.None? then FindFrom(s, i + 1, Some(i), ambiguous)
    else FindFrom(s, i + 1, found, ambiguous || AddFn(i) != AddFn(found.value))
  }

  function Find(s: string): (r: Option<nat>)
    ensures r.Some? ==> r.value < |NAMES|
  {
    FindFrom(s, 0, None, false)
  }

  /** selector_find */
  method SelectorFind(s: string) returns (r: Option<nat>)
    ensures r == Find(s)
  {
    hide Names;
    var found: Option<nat>, ambiguous, i := None, false, 0;
    while i < |NAMES|
      invariant i <= |NAMES| && (found.Some? ==> found.value < |NAMES|)
      invariant Find(s) == FindFrom(s, i, found, ambiguous)
    {
      if Names(s, i) {
        if |s| == |NAMES[i]| {
          return Some(i);
        }
        if found.None? {
          found := Some(i);
        } else if AddFn(i) != AddFn(found.value) {
          ambiguous := true;
        }
      }
      i := i + 1;
    }
    return if ambiguous then None else found;
  }

  /** The whole name of a selector, in any case. */
  predicate FullName(s: string, i: nat)
    requires i < |NAMES|
  {
    Names(s, i) && |s| == |NAMES[i]|
  }

  /** All names that a text abbreviates, from entry i on, go to one add function. */
  predicate Unambiguous(s: string, i: nat, fn: nat)
    requires i <= |NAMES|
  {
    forall j :: i <= j < |NAMES| && Names(s, j) ==> AddFn(j) == fn
  }

  ghost predicate SomeFullName(s: string, i: nat) {
    exists j :: i <= j < |NAMES| && FullName(s, j)
  }

  /** With a name found already: a whole name still wins, and any other one must go to the same function. */
  lemma {:induction false} FindOther(s: string, i: nat, f: nat, ambiguous: bool)
    requires i <= |NAMES| && f < |NAMES|
    ensures var r := FindFrom(s, i, Some(f), ambiguous);
      if SomeFullName(s, i) then r.Some? && FullName(s, r.value)
      else r == if !ambiguous && Unambiguous(s, i, AddFn(f)) then Some(f) else None
    decreases |NAMES| - i
  {
    hide Names, AddFn;
    if i < |NAMES| {
      if !Names(s, i) {
        FindOther(s, i + 1, f, ambiguous);
      } else if |s| == |NAMES[i]| {
        assert FullName(s, i);
      } else {
        FindOther(s, i + 1, f, ambiguous || AddFn(i) != AddFn(f));
      }
    }
  }

  /** All names that the text abbreviates go to the function of one of them. */
  ghost predicate SomeAgreed(s: string, i: nat) {
    exists j :: i <= j < |NAMES| && Names(s, j) && Unambiguous(s, i, AddFn(j))
  }

  /** An entry that the text does not name makes no difference. */
  lemma NotNamed(s: string, i: nat)
    requires i < |NAMES| && !Names(s, i)
    ensures SomeFullName(s, i) <==> SomeFullName(s, i + 1)
    ensures SomeAgreed(s, i) <==> SomeAgreed(s, i + 1)
    ensures forall fn :: Unambiguous(s, i, fn) <==> Unambiguous(s, i + 1, fn)
  {
    hide Names, AddFn;
  }

  /** With an entry that the text abbreviates, its function is the only candidate. */
  lemma OnlyNamed(s: string, i: nat)
    requires i < |NAMES| && Names(s, i) && |s| != |NAMES[i]|
    ensures SomeFullName(s, i) <==> SomeFullName(s, i + 1)
    ensures SomeAgreed(s, i) <==> Unambiguous(s, i, AddFn(i))
    ensures Unambiguous(s, i, AddFn(i)) <==> Unambiguous(s, i + 1, AddFn(i))
  {
    hide Names, AddFn;
  }

  lemma {:induction false} FindFirst(s: string, i: nat)
    requires i <= |NAMES|
    ensures var r := FindFrom(s, i, None, false);
      && (r.Some? <==> SomeFullName(s, i) || SomeAgreed(s, i))
      && (r.Some? ==> Names(s, r.value) && (FullName(s, r.value) || Unambiguous(s, i, AddFn(r.value))))
      && (SomeFullName(s, i) ==> r.Some? && FullName(s, r.value))
    decreases |NAMES| - i
  {
    hide Names, AddFn, Unambiguous, SomeAgreed;
    if i == |NAMES| {
      NoneLeft(s);
    } else if !Names(s, i) {
      FindFirst(s, i + 1);
      NotNamed(s, i);
    } else if |s| == |NAMES[i]| {
      assert FullName(s, i);
    } else {
      FindOther(s, i + 1, i, false);
      OnlyNamed(s, i);
    }
  }

  lemma NoneLeft(s: string)
    ensures !SomeFullName(s, |NAMES|) && !SomeAgreed(s, |NAMES|)
  {
  }

  /**
    A selector is found exactly when the text is a whole name, or an abbreviation of names that all go to the
    same add function; and what is found is such a name.
   */
  lemma {:induction false} FindMeaning(s: string)
    ensures Find(s).Some? <==>
      || SomeFullName(s, 0)
      || (exists i :: 0 <= i < |NAMES| && Names(s, i) && Unambiguous(s, 0, AddFn(i)))
    ensures Find(s).Some? ==> var i := Find(s).value;
      Names(s, i) && (FullName(s, i) || Unambiguous(s, 0, AddFn(i)))
    ensures SomeFullName(s, 0) ==> Find(s).Some? && FullName(s, Find(s).value)
  {
    hide Names, AddFn;
    FindFirst(s, 0);
  }

  // ---- lines

  /** What a selector makes of its value and modifier. */
  function SettingOf(i: nat, file: Option<CString>, value: CString): Setting
    requires i < |NAMES|
  {
    match AddFn(i)
    case 0 => Mac(value)
    case 2 => Arp(value)
    case 4 => Driver(value)
    case 5 => BusInfo(value)
    case 6 => Firmware(value)
    case 7 => BaseAddr(value)
    case 8 => Irq(value)
    case 10 => IwProto(value)
    case 11 => PcmciaSlot(value)
    case 12 => Sysfs(file, value)
    case _ => PrevName(value)
  }

  /** The setting that goes with the full name of a selector. */
  function ByName(name: string, file: Option<CString>, value: CString): Setting {
    if name == "mac" || name == "ethaddr" then Mac(value)
    else if name == "arp" || name == "linktype" then Arp(value)
    else if name == "driver" then Driver(value)
    else if name == "businfo" then BusInfo(value)
    else if name == "firmware" then Firmware(value)
    else if name == "baseaddress" then BaseAddr(value)
    else if name == "irq" || name == "interrupt" then Irq(value)
    else if name == "iwproto" then IwProto(value)
    else if name == "pcmciaslot" then PcmciaSlot(value)
    else if name == "sysfs" then Sysfs(file, value)
    else if name == "prevname" then PrevName(value)
    else Malformed
  }

  /** Each entry of the table makes the setting of its name, and its add function is that of its selector. */
  lemma SettingNamed(i: nat, file: Option<CString>, value: CString)
    requires i < |NAMES|
    ensures SettingOf(i, file, value) == ByName(NAMES[i], file, value) != Malformed
    ensures SelectorOf(SettingOf(i, file, value)) == AddFn(i)
  {
    hide SelectorOf, SettingOf, ByName;
    SettingSelects(i, file, value);
    if i < SELECT_FIRMWARE {
      FirstNamed(i, file, value);
    } else if i < SELECT_IWPROTO {
      NextNamed(i, file, value);
    } else {
      LastNamed(i, file, value);
    }
  }

  lemma FirstNamed(i: nat, file: Option<CString>, value: CString)
    requires i < SELECT_FIRMWARE
    ensures SettingOf(i, file, value) == ByName(NAMES[i], file, value) != Malformed
  {
  }

  lemma NextNamed(i: nat, file: Option<CString>, value: CString)
    requires SELECT_FIRMWARE <= i < SELECT_IWPROTO
    ensures SettingOf(i, file, value) == ByName(NAMES[i], file, value) != Malformed
  {
  }

  lemma LastNamed(i: nat, file: Option<CString>, value: CString)
    requires SELECT_IWPROTO <= i < |NAMES|
    ensures SettingOf(i, file, value) == ByName(NAMES[i], file, value) != Malformed
  {
  }

  lemma SettingSelects(i: nat, file: Option<CString>, value: CString)
    requires i < |NAMES|
    ensures SelectorOf(SettingOf(i, file, value)) == AddFn(i)
  {
  }

  /** The letters of a selector may be in either case. */
  lemma NamesAre(s: string, i: nat)
    requires i < |NAMES|
    ensures Names(s, i) <==> |s| <= |NAMES[i]| && forall k :: 0 <= k < |s| ==>
      IsLetter(NAMES[i][k]) && (s[k] == NAMES[i][k] || s[k] == "ABCDEFGHIJKLMNOPQRSTUVWXYZ"[(NAMES[i][k] - 'a') as int])
  {
    hide IsLetter;
    forall k | 0 <= k < |s| && k < |NAMES[i]|
      ensures IsLetter(NAMES[i][k])
      ensures Lower(s[k]) == NAMES[i][k] <==>
        s[k] == NAMES[i][k] || s[k] == "ABCDEFGHIJKLMNOPQRSTUVWXYZ"[(NAMES[i][k] - 'a') as int]
    {
      NamesLetters(i, k);
      LowerIs(s[k], NAMES[i][k]);
    }
  }

  lemma LowerIs(c: char, letter: char)
    requires IsLetter(letter)
    ensures Lower(c) == letter <==> c == letter || c == "ABCDEFGHIJKLMNOPQRSTUVWXYZ"[(letter - 'a') as int]
  {
  }

  /** A full name finds its own entry. */
  lemma FullNameFound(i: nat)
    requires i < |NAMES|
    ensures Find(NAMES[i]) == Some(i)
  {
    hide Find, Lower, IsLetter;
    var s := NAMES[i];
    forall k | 0 <= k < |s| ensures Lower(s[k]) == s[k] {
      NamesLetters(i, k);
      LowerLetter(s[k]);
    }
    assert FullName(s, i);
    FindMeaning(s);
    var r := Find(s).value;
    assert NAMES[r] == s;
    NamesDiffer(i, r);
  }

  lemma LowerLetter(c: char)
    requires IsLetter(c)
    ensures Lower(c) == c
  {
  }

  lemma NamesDiffer(i: nat, j: nat)
    requires i < |NAMES| && j < |NAMES| && NAMES[i] == NAMES[j]
    ensures i == j
  {
    var a, b := NAMES[i], NAMES[j];
    assert |a| == |b| && a[0] == b[0];
  }

  /** A modifier in braces at the start, if there is one; it must be closed. */
  function Modifier(t: CString): (r: Option<(Option<CString>, CString)>)
    ensures r.Some? ==> |r.value.1| <= |t|
  {
    if t == [] || t[0] != '{' then Some((None, t)) else
    var e := Cspn(t[1..], "}");
    if 1 + e == |t| then None else Some((Some(t[1..][..e]), t[2 + e..]))
  }

  /** A value, quoted or up to the next blank, and what follows the character after it. */
  function ValueAt(t: CString): (r: Option<(CString, CString)>)
    requires t != [] && t[0] !in BLANK
    ensures r.Some? ==> |r.value.1| < |t|
  {
    if t[0] == '"' then
      var e := Cspn(t[1..], "\"");
      if 1 + e == |t| then None else Some((t[1..][..e], AfterNext(t[2 + e..])))
    else
      var n := Cspn(t, BLANK);
      Some((t[..n], AfterNext(t[n..])))
  }

  /** Past the character at a pointer, but not past the terminating NUL. */
  function AfterNext(t: CString): (r: CString)
    ensures |r| <= |t|
  {
    if t == [] then t else t[1..]
  }

  /** The selector at the start of a text, and the text of the next one; None is a syntax error. */
  function NextSetting(t: CString): (r: Option<(Setting, CString)>)
    ensures r.Some? ==> |r.value.1| < |t|
  {
    var n := Cspn(t, " \t\n{");
    var i := Find(t[..n]);
    if i.None? then None else
    var modifier := Modifier(t[n..]);
    if modifier.None? then None else
    var (file, rest) := modifier.value;
    var p := DropBlank(rest);
    if p == [] then None else
    var value := ValueAt(p);
    if value.None? then None else
    Some((SettingOf(i.value, file, value.value.0), DropBlank(value.value.1)))
  }

  /** The body of the selector loop of mapping_readfile, up to the call of the add function. */
  method ReadSelector(t: CString) returns (r: Option<(Setting, CString)>)
    ensures r == NextSetting(t)
  {
    hide Find, Modifier, ValueAt, DropBlank;
    var n := Cspn(t, " \t\n{");
    var selector := SelectorFind(t[..n]);
    if selector.None? {
      return None;
    }
    var modifier := Modifier(t[n..]);
    if modifier.None? {
      return None;
    }
    var (extra, p) := modifier.value;
    p := DropBlank(p);
    if p == [] {
      return None;
    }
    var value := ValueAt(p);
    if value.None? {
      return None;
    }
    return Some((SettingOf(selector.value, extra, value.value.0), DropBlank(value.value.1)));
  }

  /** The selectors of a line, up to the first that is malformed. */
  function Settings(t: CString): seq<Setting>
    decreases |t|
  {
    if t == [] then [] else
    var next := NextSetting(t);
    if next.None? then [Malformed] else [next.value.0] + Settings(next.value.1)
  }

  /** A line up to its comment, past white space. */
  function Start(linebuf: CString): CString {
    var text := linebuf[..Cspn(linebuf, "#")];
    text[SkipSpace(text, 0)..]
  }

  /** The name and selectors of a line, or None when it is blank. */
  function ParseLine(linebuf: CString): Option<Line> {
    var p := Start(linebuf);
    if p == [] then None else
    var n := Cspn(p, BLANK);
    Some(Line(p[..n], Settings(DropBlank(p[n..]))))
  }

  /** getline: the first line of a text, with its newline. */
  function FirstLine(text: CString): (r: CString)
    ensures |r| <= |text| && text[..|r|] == r && (text != [] ==> r != [])
  {
    var n := Cspn(text, "\n");
    if n < |text| then text[..n + 1] else text
  }

  /** The lines of a configuration that are not blank. */
  function Config(text: CString): seq<Line> {
    if text == [] then [] else
    var linebuf := FirstLine(text);
    var rest := Config(text[|linebuf|..]);
    match ParseLine(linebuf)
    case None => rest
    case Some(line) => [line] + rest
  }

  // ---- a written configuration

  /** A selector as it is written: its name, or an abbreviation; a modifier; and a value, quoted or not. */
  datatype Written = Written(selector: CString, file: Option<CString>, value: CString, quoted: bool)

  /** A line as it is written. */
  datatype Source =
    | Blank(indent: CString, comment: Option<CString>)
    | Entry(indent: CString, name: CString, settings: seq<Written>, comment: Option<CString>)

  predicate Lacks(t: string, chars: string) {
    forall c :: c in t ==> c !in chars
  }

  /** The selector can be written: each part lacks the characters that would end it. */
  predicate Writable(w: Written) {
    && Find(w.selector).Some?
    && (w.file.Some? ==> Lacks(w.file.value, "}#\n"))
    && (if w.quoted then Lacks(w.value, "\"#\n")
        else w.value != [] && w.value[0] != '"' && Lacks(w.value, " \t\n#"))
  }

  predicate WritableLine(l: Source) {
    && (forall c :: c in l.indent ==> IsSpace(c)) && Lacks(l.indent, "\n")
    && (l.comment.Some? ==> Lacks(l.comment.value, "\n"))
    && (l.Entry? ==>
      && l.name != [] && Lacks(l.name, " \t\n#") && !IsSpace(l.name[0])
      && forall w :: w in l.settings ==> Writable(w))
  }

  function Quoted(value: CString): CString {
    "\"" + value + "\""
  }

  function Write(w: Written): CString {
    w.selector + (if w.file.Some? then "{" + w.file.value + "}" else "") + " "
      + (if w.quoted then Quoted(w.value) else w.value) + " "
  }

  function WriteAll(ws: seq<Written>): CString {
    if ws == [] then "" else Write(ws[0]) + WriteAll(ws[1..])
  }

  function WriteLine(l: Source): CString {
    l.indent + (if l.Entry? then l.name + " " + WriteAll(l.settings) else "")
      + (if l.comment.Some? then "#" + l.comment.value else "") + "\n"
  }

  function WriteConfig(lines: seq<Source>): CString {
    if lines == [] then "" else WriteLine(lines[0]) + WriteConfig(lines[1..])
  }

  function Meant(w: Written): Setting
    requires Writable(w)
  {
    ByName(NAMES[Find(w.selector).value], w.file, w.value)
  }

  function MeantLine(l: Source): Line
    requires WritableLine(l) && l.Entry?
  {
    Line(l.name, seq(|l.settings|, i requires 0 <= i < |l.settings| => Meant(l.settings[i])))
  }

  function MeantConfig(lines: seq<Source>): seq<Line>
    requires forall l :: l in lines ==> WritableLine(l)
  {
    if lines == [] then [] else
    (if lines[0].Entry? then [MeantLine(lines[0])] else []) + MeantConfig(lines[1..])
  }

  // ---- it reads back

  predicate IsLetter(c: char) {
    'a' <= c <= 'z'
  }

  lemma NamesLetters(i: nat, k: nat)
    requires i < |NAMES| && k < |NAMES[i]|
    ensures IsLetter(NAMES[i][k])
  {
    hide IsLetter;
    assert forall c :: c in "abcdefghijklmnopqrstuvwxyz" ==> IsLetter(c) by {
      LettersAre();
    }
  }

  lemma LettersAre()
    ensures forall c :: c in "abcdefghijklmnopqrstuvwxyz" ==> IsLetter(c)
  {
  }

  lemma EmptyUnknown()
    ensures Find([]).None?
  {
    FindMeaning([]);
    hide Find;
    assert Names([], 0) && Names([], 2) && AddFn(0) != AddFn(2);
  }

  /** What names a selector is letters, and not empty. */
  lemma SelectorLetters(sel: string)
    requires Find(sel).Some?
    ensures sel != [] && forall k :: 0 <= k < |sel| ==> IsLetter(Lower(sel[k]))
  {
    hide Lower, IsLetter;
    FindMeaning(sel);
    hide Find;
    var i := Find(sel).value;
    forall k | 0 <= k < |sel| ensures IsLetter(Lower(sel[k])) {
      NamesLetters(i, k);
    }
    EmptyUnknown();
  }

  lemma SelectorLacks(sel: string)
    requires Find(sel).Some?
    ensures sel != [] && Lacks(sel, " \t\n{#")
  {
    SelectorLetters(sel);
    hide Find;
  }

  lemma {:induction false} CspnConcat(a: CString, b: CString, stop: string)
    requires Lacks(a, stop) && (b != [] ==> b[0] in stop)
    ensures Cspn(a + b, stop) == |a| && (a + b)[..|a|] == a && (a + b)[|a|..] == b
  {
    var t := a + b;
    assert t[..|a|] == a && t[|a|..] == b;
    assert forall i :: 0 <= i < |a| ==> t[i] == a[i];
    assert |a| < |t| ==> t[|a|] == b[0];
  }

  lemma BlankDropped(t: CString)
    ensures DropBlank(" " + t) == DropBlank(t)
    ensures t == [] || t[0] !in BLANK ==> DropBlank(t) == t
  {
    assert (" " + t)[1..] == t;
    assert Spn(" " + t, BLANK) == 1 + Spn(t, BLANK);
  }

  lemma ValueWritten(w: Written, rest: CString)
    requires Writable(w)
    ensures var v := if w.quoted then Quoted(w.value) else w.value;
      && v != [] && v[0] !in BLANK && ValueAt(v + (" " + rest)) == Some((w.value, rest))
  {
    var v, tail := w.value, " " + rest;
    if w.quoted {
      var t := Quoted(v) + tail;
      assert t[1..] == v + ("\"" + tail);
      CspnConcat(v, "\"" + tail, "\"");
      assert t[2 + |v|..] == tail;
    } else {
      CspnConcat(v, tail, BLANK);
      assert (v + tail)[0] == v[0];
    }
  }

  /** The character after a closing quote is skipped, whatever it is. */
  lemma QuoteSkipsNext(value: CString, c: char, rest: CString)
    requires Lacks(value, "\"") && 0 < c as int < 256
    ensures ValueAt(Quoted(value) + ([c] + rest)) == Some((value, rest))
  {
    var t, tail: CString := Quoted(value) + ([c] + rest), [c] + rest;
    assert t[1..] == value + ("\"" + tail);
    CspnConcat(value, "\"" + tail, "\"");
    assert t[2 + |value|..] == tail;
  }

  /** The steps of reading a selector. */
  lemma {:induction false} NextParts(
      t: CString, n: nat, q: CString, file: Option<CString>, p: CString, value: CString, rest: CString)
    requires n == Cspn(t, " \t\n{") && Find(t[..n]).Some? && t[n..] == q
    requires Modifier(q).Some? && Modifier(q).value.0 == file && DropBlank(Modifier(q).value.1) == p != []
    requires ValueAt(p) == Some((value, rest))
    ensures NextSetting(t) == Some((SettingOf(Find(t[..n]).value, file, value), DropBlank(rest)))
  {
    hide Find, ValueAt, Modifier, DropBlank;
  }

  /** The pieces of a written selector: modifier, value, and the text from each on. */
  lemma WritePieces(w: Written, rest: CString) returns (v: CString, tail: CString, p: CString, q: CString)
    ensures v == if w.quoted then Quoted(w.value) else w.value
    ensures tail == " " + rest && p == v + tail
    ensures q == (if w.file.Some? then "{" + w.file.value + "}" else "") + (" " + p)
    ensures Write(w) + rest == w.selector + q
  {
    v := if w.quoted then Quoted(w.value) else w.value;
    tail := " " + rest;
    p := v + tail;
    q := (if w.file.Some? then "{" + w.file.value + "}" else "") + (" " + p);
  }

  lemma ModifierBefore(w: Written, p: CString, q: CString)
    requires Writable(w) && q == (if w.file.Some? then "{" + w.file.value + "}" else "") + (" " + p)
    ensures Modifier(q) == Some((w.file, " " + p)) && q != [] && q[0] in " {"
  {
    hide Find, Modifier;
    FileLacks(w);
    ModifierSplit(w.file, " " + p);
  }

  /** A selector as it is written, and what follows it. */
  lemma NextWritten(w: Written, rest: CString)
    requires Writable(w)
    ensures NextSetting(Write(w) + rest) == Some((Meant(w), DropBlank(rest)))
  {
    hide Find, ValueAt, Modifier, Lacks, DropBlank, Write, NextSetting, Quoted;
    var v, tail, p, q := WritePieces(w, rest);
    SelectorLacks(w.selector);
    ModifierBefore(w, p, q);
    StopLacked(w.selector, q);
    BlankDropped(p);
    ValueWritten(w, rest);
    NextParts(Write(w) + rest, |w.selector|, q, w.file, p, w.value, rest);
    SettingNamed(Find(w.selector).value, w.file, w.value);
  }

  lemma {:induction false} StopLacked(sel: CString, b: CString)
    requires Lacks(sel, " \t\n{#") && b != [] && b[0] in " {"
    ensures Cspn(sel + b, " \t\n{") == |sel| && (sel + b)[..|sel|] == sel && (sel + b)[|sel|..] == b
  {
    CspnConcat(sel, b, " \t\n{");
  }

  lemma FileLacks(w: Written)
    requires Writable(w)
    ensures w.file.Some? ==> Lacks(w.file.value, "}")
  {
  }

  // ---- syntax errors

  /** A text as selector, modifier, blanks, and the rest from the value on. */
  datatype Split = Split(selector: CString, file: Option<CString>, blanks: CString, rest: CString) {
    function Text(): string {
      selector + ((if file.Some? then "{" + file.value + "}" else "") + (blanks + rest))
    }

    /** The selector is known, the modifier closed, and there is a value, with its quotes closed. */
    predicate WellFormed() {
      && Find(selector).Some?
      && (if file.Some? then Lacks(file.value, "}") else blanks != [])
      && rest != [] && rest[0] !in " \t\n" && (forall c :: c in blanks ==> c in " \t\n")
      && (rest[0] == '"' ==> '"' in rest[1..])
    }
  }

  lemma {:induction false} BlanksDropped(blanks: CString, rest: CString)
    requires (forall c :: c in blanks ==> c in BLANK) && rest != [] && rest[0] !in BLANK
    ensures DropBlank(blanks + rest) == rest
  {
    if blanks == [] {
      assert blanks + rest == rest;
      BlankDropped(rest);
    } else {
      BlanksDropped(blanks[1..], rest);
      assert (blanks + rest)[1..] == blanks[1..] + rest;
    }
  }

  lemma ValueAccepted(t: CString)
    requires t != [] && t[0] !in BLANK
    ensures ValueAt(t).Some? <==> (t[0] == '"' ==> '"' in t[1..])
  {
    if t[0] == '"' {
      var e := Cspn(t[1..], "\"");
      assert 1 + e < |t| ==> t[1..][e] == '"';
    }
  }

  lemma ModifierSplit(file: Option<CString>, rest: CString)
    requires if file.Some? then Lacks(file.value, "}") else rest == [] || rest[0] != '{'
    ensures Modifier((if file.Some? then "{" + file.value + "}" else "") + rest) == Some((file, rest))
  {
    if file.Some? {
      var t := "{" + file.value + "}" + rest;
      assert t[1..] == file.value + ("}" + rest);
      CspnConcat(file.value, "}" + rest, "}");
      assert t[2 + |file.value|..] == rest;
    } else {
      assert "" + rest == rest;
    }
  }

  lemma SplitAccepted(t: CString, d: Split)
    requires d.WellFormed() && t == d.Text()
    ensures NextSetting(t).Some?
  {
    hide Find, ValueAt, Modifier, DropBlank;
    var value := d.blanks + d.rest;
    var m := (if d.file.Some? then "{" + d.file.value + "}" else "") + value;
    SelectorLacks(d.selector);
    CspnConcat(d.selector, m, " \t\n{");
    assert d.file.None? ==> value[0] == d.blanks[0] && d.blanks[0] in " \t\n";
    ModifierSplit(d.file, value);
    BlanksDropped(d.blanks, d.rest);
    ValueAccepted(d.rest);
  }

  /** All selectors of a text are well formed. */
  predicate Clean(t: CString)
    decreases |t|
  {
    t == [] || (NextSetting(t).Some? && Clean(NextSetting(t).value.1))
  }

  /** The settings of a text end with a syntax error exactly when not all of its selectors are well formed. */
  lemma {:induction false} MalformedLast(t: CString)
    ensures Clean(t) <==> Malformed !in Settings(t)
    ensures !Clean(t) ==> Settings(t) != [] && Settings(t)[|Settings(t)| - 1] == Malformed
    decreases |t|
  {
    if t != [] && NextSetting(t).Some? {
      NotMalformed(t);
      hide NextSetting;
      MalformedLast(NextSetting(t).value.1);
    }
  }

  lemma NotMalformed(t: CString)
    requires NextSetting(t).Some?
    ensures NextSetting(t).value.0 != Malformed
  {
    hide Find, Modifier, ValueAt, DropBlank;
  }

  /** The blanks in front, and the rest. */
  lemma BlankSplit(t: CString) returns (blanks: CString)
    ensures t == blanks + DropBlank(t) && forall c :: c in blanks ==> c in " \t\n"
  {
    blanks := t[..Spn(t, BLANK)];
  }

  lemma ModifierFound(t: CString)
    requires Modifier(t).Some?
    ensures var (file, rest) := Modifier(t).value;
      && t == (if file.Some? then "{" + file.value + "}" else "") + rest
      && (if file.Some? then Lacks(file.value, "}") else t == rest && (t == [] || t[0] != '{'))
  {
    if t != [] && t[0] == '{' {
      var e := Cspn(t[1..], "}");
      assert t[1 + e] == t[1..][e] == '}';
      assert t == "{" + t[1..][..e] + "}" + t[2 + e..];
    }
  }

  lemma AcceptedSplit(t: CString) returns (d: Split)
    requires NextSetting(t).Some?
    ensures d.WellFormed() && t == d.Text()
  {
    hide Find, ValueAt, Modifier, DropBlank, Lacks, Cspn;
    var n := Cspn(t, " \t\n{");
    var selector: CString, q: CString := t[..n], t[n..];
    ModifierFound(q);
    var (file, after) := Modifier(q).value;
    var blanks := BlankSplit(after);
    d := Split(selector, file, blanks, DropBlank(after));
    ValueAccepted(d.rest);
    assert t == selector + q;
  }

  /** A selector is read exactly when it is well formed; anything else makes the line malformed. */
  lemma NextAccepted(t: CString)
    ensures NextSetting(t).Some? <==> exists d: Split :: d.WellFormed() && t == d.Text()
  {
    hide NextSetting;
    if NextSetting(t).Some? {
      var d := AcceptedSplit(t);
    }
    if d: Split :| d.WellFormed() && t == d.Text() {
      SplitAccepted(t, d);
    }
  }

  /** All selectors of a line, up to its end. */
  lemma {:induction false} SettingsWritten(ws: seq<Written>, tail: CString)
    requires (forall w :: w in ws ==> Writable(w)) && DropBlank(tail) == []
    ensures var settings := Settings(DropBlank(WriteAll(ws) + tail));
      |settings| == |ws| && forall i :: 0 <= i < |ws| ==> settings[i] == Meant(ws[i])
  {
    hide NextSetting, Write, Meant, Writable, DropBlank;
    if ws == [] {
      assert WriteAll(ws) + tail == tail;
    } else {
      SettingsWritten(ws[1..], tail);
      var rest := WriteAll(ws[1..]) + tail;
      assert WriteAll(ws) + tail == Write(ws[0]) + rest;
      StartsWithLetter(ws[0], rest);
      NextWritten(ws[0], rest);
    }
  }

  lemma StartsWithLetter(w: Written, rest: CString)
    requires Writable(w)
    ensures Write(w) + rest != [] && DropBlank(Write(w) + rest) == Write(w) + rest
  {
    hide Find, DropBlank;
    SelectorLacks(w.selector);
    var t := Write(w) + rest;
    assert t[0] == w.selector[0];
    assert t[0] !in BLANK by {
      assert w.selector[0] !in " \t\n{#";
    }
    BlankDropped(t);
  }

  lemma LacksConcat(a: string, b: string, chars: string)
    requires Lacks(a, chars) && Lacks(b, chars)
    ensures Lacks(a + b, chars)
  {
  }

  /** What is written has neither comment nor newline. */
  lemma WriteLacks(w: Written)
    requires Writable(w)
    ensures Lacks(Write(w), "#\n")
  {
    SelectorLacks(w.selector);
    hide Find;
  }

  lemma {:induction false} WriteAllLacks(ws: seq<Written>)
    requires forall w :: w in ws ==> Writable(w)
    ensures Lacks(WriteAll(ws), "#\n")
  {
    hide Write, Writable;
    if ws == [] {
    } else {
      WriteLacks(ws[0]);
      WriteAllLacks(ws[1..]);
    }
  }

  /** What comes before the comment. */
  function Body(l: Source): CString {
    if l.Entry? then l.name + " " + WriteAll(l.settings) else ""
  }

  function Front(l: Source): CString {
    l.indent + Body(l)
  }

  lemma FrontLacks(l: Source)
    requires WritableLine(l)
    ensures Lacks(Front(l), "#\n")
  {
    hide Writable, WriteAll;
    if l.Entry? {
      WriteAllLacks(l.settings);
    }
  }

  /** Where a line starts when its comment is cut off. */
  lemma {:induction false} CommentCut(text: CString, after: CString)
    requires Lacks(text, "#") && (after != [] ==> after[0] == '#')
    ensures Start(text + after) == text[SkipSpace(text, 0)..]
  {
    hide SkipSpace;
    CspnConcat(text, after, "#");
  }

  /** The two parts of a written line. */
  lemma LineParts(l: Source) returns (tail: CString, after: CString)
    ensures WriteLine(l) == Front(l) + tail + after && tail == if l.comment.Some? then "" else "\n"
    ensures after != [] ==> after[0] == '#'
  {
    LineIs(l);
    hide WriteLine, Front;
    if l.comment.Some? {
      tail, after := "", "#" + l.comment.value + "\n";
      assert Front(l) + tail == Front(l);
      Joined(Front(l), "#" + l.comment.value, "\n");
    } else {
      tail, after := "\n", "";
      assert Front(l) + "" == Front(l);
      assert Front(l) + tail + after == Front(l) + tail;
    }
  }

  lemma Joined(a: string, b: string, c: string)
    ensures a + b + c == a + (b + c)
  {
  }

  lemma LineIs(l: Source)
    ensures WriteLine(l) == Front(l) + (if l.comment.Some? then "#" + l.comment.value else "") + "\n"
  {
  }

  /** White space in front is skipped. */
  lemma {:induction false} IndentSkipped(space: CString, t: CString)
    requires (forall c :: c in space ==> IsSpace(c)) && (t == [] || !IsSpace(t[0]))
    ensures (space + t)[SkipSpace(space + t, 0)..] == t
  {
    var text := space + t;
    var n := SkipSpace(text, 0);
    assert forall i :: 0 <= i < |space| ==> text[i] == space[i];
    assert |space| < |text| ==> text[|space|] == t[0];
    assert n == |space|;
    assert text[n..] == t;
  }

  lemma {:induction false} OnlyNewline(tail: CString)
    requires tail == "" || tail == "\n"
    ensures DropBlank(tail) == [] && Lacks(tail, "#") && forall c :: c in tail ==> IsSpace(c)
  {
  }

  /** A written line starts with its body. */
  lemma LineStarts(l: Source)
    requires WritableLine(l)
    ensures var tail := if l.comment.Some? then "" else "\n";
      Start(WriteLine(l)) == if l.Entry? then Body(l) + tail else []
  {
    hide Writable, WriteAll, Start, WriteLine, Lacks, IsSpace, DropBlank;
    FrontLacksComment(l);
    var tail, after := LineParts(l);
    OnlyNewline(tail);
    var text := Front(l) + tail;
    LacksConcat(Front(l), tail, "#");
    CommentCut(text, after);
    if l.Entry? {
      Joined(l.indent, Body(l), tail);
      IndentSkipped(l.indent, Body(l) + tail);
    } else {
      assert text == l.indent + tail + [];
      IndentSkipped(l.indent + tail, []);
    }
  }

  lemma FrontLacksComment(l: Source)
    requires WritableLine(l)
    ensures Lacks(Front(l), "#")
  {
    FrontLacks(l);
    hide WritableLine, Front;
  }

  lemma LineEnds(l: Source, rest: CString)
    requires WritableLine(l)
    ensures FirstLine(WriteLine(l) + rest) == WriteLine(l)
  {
    hide Writable, WriteAll, WriteLine, Front;
    FrontLacks(l);
    LineIs(l);
    var comment := if l.comment.Some? then "#" + l.comment.value else "";
    var body := Front(l) + comment;
    Joined(body, "\n", rest);
    CspnConcat(body, "\n" + rest, "\n");
  }

  /** The name and selectors of a body. */
  lemma BodyReadsBack(l: Source, tail: CString)
    requires WritableLine(l) && l.Entry? && DropBlank(tail) == []
    ensures var p := Body(l) + tail;
      p != [] && p[..Cspn(p, BLANK)] == l.name && Settings(DropBlank(p[Cspn(p, BLANK)..])) == MeantLine(l).settings
  {
    hide Writable, WriteAll, Settings, Meant, DropBlank;
    var rest := WriteAll(l.settings) + tail;
    assert Body(l) + tail == l.name + (" " + rest);
    NameEnds(l, " " + rest);
    BlankDropped(rest);
    SettingsWritten(l.settings, tail);
    assert Settings(DropBlank(rest)) == MeantLine(l).settings;
  }

  lemma NameEnds(l: Source, rest: CString)
    requires WritableLine(l) && l.Entry? && rest != [] && rest[0] == ' '
    ensures var p := l.name + rest; p[..Cspn(p, BLANK)] == l.name && p[Cspn(p, BLANK)..] == rest
  {
    hide Writable;
    CspnConcat(l.name, rest, BLANK);
  }

  /** A written line is read as it is meant. */
  lemma LineReadsBack(l: Source)
    requires WritableLine(l)
    ensures ParseLine(WriteLine(l)) == if l.Entry? then Some(MeantLine(l)) else None
  {
    hide WritableLine, Settings, Start, WriteLine, DropBlank, Body;
    LineStarts(l);
    if l.Entry? {
      var tail: CString := if l.comment.Some? then "" else "\n";
      OnlyNewline(tail);
      BodyReadsBack(l, tail);
      NamedAsMeant(l);
    }
  }

  lemma NamedAsMeant(l: Source)
    requires WritableLine(l) && l.Entry?
    ensures MeantLine(l).name == l.name
  {
  }

  /**
    A configuration that is written out, with blank lines and comments, abbreviated selectors, modifiers, and
    values in quotes or not, is read as it is meant.
   */
  lemma {:induction false} ConfigReadsBack(lines: seq<Source>)
    requires forall l :: l in lines ==> WritableLine(l)
    ensures Config(WriteConfig(lines)) == MeantConfig(lines)
  {
    hide WriteLine, WritableLine, MeantLine, ParseLine, FirstLine;
    if lines == [] {
    } else {
      var l, rest := lines[0], WriteConfig(lines[1..]);
      ConfigReadsBack(lines[1..]);
      LineEnds(l, rest);
      LineReadsBack(l);
      var text := WriteLine(l) + rest;
      assert text[|WriteLine(l)|..] == rest;
      LineNotEmpty(l);
    }
  }

  lemma LineNotEmpty(l: Source)
    ensures WriteLine(l) != []
  {
  }
}
