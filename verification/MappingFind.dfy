/** Which line of the configuration names an interface. */
module MappingFind {
  import opened Basics
  import opened Text
  import opened MacCodec
  import opened Mapping

  // ---- the search does not depend on how much was extracted

  /** The index of the first mapping all of whose selectors the interface meets, or the length of the list. */
  function FirstMeeting(libc: Libc, k: Kernel, files: Files, ifname: string, list: seq<Mapping>): (n: nat)
    ensures n <= |list|
  {
    if list == [] || MeetsAll(libc, k, files, ifname, list[0]) then 0
    else 1 + FirstMeeting(libc, k, files, ifname, list[1..])
  }

  lemma MatchesMeets(libc: Libc, k: Kernel, files: Files, flags: Flags, ifname: string, m: Mapping, t: Mapping)
    requires Sound(m, flags, files)
    requires Known(k, files, ifname, t) && Learned(k, files, flags, t, SELECT_NUM)
    ensures Matches(libc, files, m, t) <==> MeetsAll(libc, k, files, ifname, m)
  {
    hide Sound, Known, Learned, Compares, Meets;
    forall i | 0 <= i < SELECT_NUM && m.active[i] != 0
      ensures t.active[i] != 0 && Compares(libc, files, m, t, i) <==> Meets(libc, k, files, ifname, m, i)
    {
      ComparesMeets(libc, k, files, flags, ifname, m, t, i);
    }
  }

  lemma {:induction false} FirstIsFirstMeeting(
      libc: Libc, k: Kernel, files: Files, flags: Flags, ifname: string, list: seq<Mapping>, t: Mapping)
    requires forall m :: m in list ==> Sound(m, flags, files)
    requires Known(k, files, ifname, t) && Learned(k, files, flags, t, SELECT_NUM)
    ensures First(libc, files, list, t) == FirstMeeting(libc, k, files, ifname, list)
  {
    hide Sound, Known, Learned, Matches, MeetsAll;
    if list == [] {
    } else {
      MatchesMeets(libc, k, files, flags, ifname, list[0], t);
      FirstIsFirstMeeting(libc, k, files, flags, ifname, list[1..], t);
    }
  }

  /**
    Asking about any selectors that include the selected ones, verbosely or not, finds the first
    mapping of the list that the interface meets.
   */
  lemma {:induction false} FindsFirstMeeting(libc: Libc, k: Kernel, verbose: bool, g: Globals, flags: Flags,
      ifname: string)
    requires Invariant(g) && Covers(flags, g.selected)
    ensures First(libc, g.files, g.list, Extract(k, g.files, verbose, flags, Named(ifname), 0))
            == FirstMeeting(libc, k, g.files, ifname, g.list)
  {
    hide Extract, First, FirstMeeting, Known, Learned, FilesListed;
    var t := Named(ifname);
    NothingKnown(k, g.files, flags, ifname);
    ExtractLearns(k, g.files, verbose, flags, ifname, t, 0);
    FirstIsFirstMeeting(libc, k, g.files, flags, ifname, g.list, Extract(k, g.files, verbose, flags, t, 0));
  }

  lemma NothingKnown(k: Kernel, files: Files, flags: Flags, ifname: string)
    ensures Known(k, files, ifname, Named(ifname)) && Learned(k, files, flags, Named(ifname), 0)
  {
  }

  /** Lazy extraction finds the same mapping as asking everything, for every configuration and interface. */
  lemma {:induction false} LazyIsFull(libc: Libc, k: Kernel, verbose: bool, lines: seq<Line>, full: Flags,
      ifname: string)
    requires full[SELECT_MAC] == HAS_MAC_FILTER && forall i :: 0 <= i < SELECT_NUM ==> full[i] != 0
    ensures var g := ReadLines(libc, lines);
      First(libc, g.files, g.list, Extract(k, g.files, verbose, g.selected, Named(ifname), 0))
      == First(libc, g.files, g.list, Extract(k, g.files, verbose, full, Named(ifname), 0))
  {
    hide ReadLines, Extract, First, Invariant;
    var g := ReadLines(libc, lines);
    LinesKeep(libc, lines);
    FindsFirstMeeting(libc, k, verbose, g, g.selected, ifname);
    FindsFirstMeeting(libc, k, verbose, g, full, ifname);
  }

  // ---- what a line asks for

  /** What a setting is about; each sysfs file is a matter of its own. */
  datatype Key = Selector(index: nat) | File(name: string) | Nothing

  function KeyOf(s: Setting): Key {
    match s
    case Sysfs(file, _) => if file.Some? then File(file.value) else Nothing
    case Malformed => Nothing
    case _ => Selector(SelectorOf(s))
  }

  /** The last of the first i settings about something: a repeated selector overrides. */
  function Latest(settings: seq<Setting>, i: nat, key: Key): Option<Setting>
    requires i <= |settings|
  {
    if i == 0 then None
    else if KeyOf(settings[i - 1]) == key then Some(settings[i - 1])
    else Latest(settings, i - 1, key)
  }

  /** What a setting says of an interface. */
  predicate Holds(libc: Libc, k: Kernel, ifname: string, s: Setting) {
    match s
    case Mac(text) =>
      k.hwaddr.Some? &&
      (if '*' in text then libc.fnmatch(text, MacText(k.hwaddr.value.Bytes()))
       else IsMacText(text, MAX_MAC_LEN) && MacBytes(text) == k.hwaddr.value.Bytes())
    case Arp(text) =>
      k.hwaddr.Some? && libc.decimal(text).Some? && libc.decimal(text).value % 0x1_0000 == k.hwaddr.value.family
    case Driver(text) => k.drvinfo.Some? && libc.fnmatch(text, k.drvinfo.value.driver)
    case BusInfo(text) => k.drvinfo.Some? && libc.fnmatch(text, k.drvinfo.value.busInfo)
    case Firmware(text) => k.drvinfo.Some? && libc.fnmatch(text, k.drvinfo.value.fwVersion)
    case BaseAddr(text) =>
      k.ifmap.Some? && k.ifmap.value.baseAddr >= 0x100 &&
      libc.hexadecimal(text).Some? && libc.hexadecimal(text).value % 0x1_0000 == k.ifmap.value.baseAddr
    case Irq(text) =>
      k.ifmap.Some? && libc.decimal(text).Some? && libc.decimal(text).value % 0x100 == k.ifmap.value.irq
    case IwProto(text) => k.wireless.Some? && libc.fnmatch(text, k.wireless.value)
    case PcmciaSlot(text) => k.slot.Some? && libc.decimal(text) == k.slot
    case Sysfs(file, text) =>
      file.Some? && k.sysfs(file.value).Some? && libc.fnmatch(text, k.sysfs(file.value).value)
    case PrevName(text) => libc.fnmatch(text, ifname)
    case Malformed => false
  }

  /** Everything the line still says about the interface holds. */
  ghost predicate LineHolds(libc: Libc, k: Kernel, ifname: string, line: Line) {
    forall key ::
      Latest(line.settings, |line.settings|, key).Some? ==>
        Holds(libc, k, ifname, Latest(line.settings, |line.settings|, key).value)
  }

  /** The mapping says about one selector what its last setting says. */
  predicate SaysSelector(libc: Libc, m: Mapping, s: Setting) {
    KeyOf(s).Selector? && m.active[KeyOf(s).index] != 0 &&
    match s
    case Mac(text) =>
      if '*' in text then m.active[SELECT_MAC] == HAS_MAC_FILTER && m.macFilter == text
      else m.active[SELECT_MAC] == HAS_MAC_EXACT && IsMacText(text, MAX_MAC_LEN) && m.mac == MacBytes(text)
    case Arp(text) => libc.decimal(text).Some? && m.hwType == libc.decimal(text).value % 0x1_0000
    case Driver(text) => m.driver == text
    case BusInfo(text) => m.busInfo == text
    case Firmware(text) => m.fwVersion == text
    case BaseAddr(text) => libc.hexadecimal(text).Some? && m.baseAddr == libc.hexadecimal(text).value % 0x1_0000
    case Irq(text) => libc.decimal(text).Some? && m.irq == libc.decimal(text).value % 0x100
    case IwProto(text) => m.iwproto == text
    case PcmciaSlot(text) => libc.decimal(text) == Some(m.pcmciaSlot)
    case PrevName(text) => m.prevname == text
    case _ => false
  }

  predicate Distinct(files: Files) {
    forall i, j :: 0 <= i < j < |files| ==> files[i] != files[j]
  }

  /** The mapping being read says what the settings read so far say, each key apart. */
  predicate SaysSelectors(libc: Libc, m: Mapping, settings: seq<Setting>, i: nat)
    requires i <= |settings|
  {
    forall c :: 0 <= c < SELECT_NUM && c != SELECT_SYSFS ==>
      var last := Latest(settings, i, Selector(c));
      if last.None? then m.active[c] == 0 else SaysSelector(libc, m, last.value)
  }

  predicate SaysFiles(m: Mapping, files: Files, settings: seq<Setting>, i: nat)
    requires i <= |settings|
  {
    forall n :: 0 <= n < |files| ==>
      var last := Latest(settings, i, File(files[n]));
      if last.None? then m.sysfs[n].None? else last.value.Sysfs? && m.sysfs[n] == Some(last.value.text)
  }

  ghost predicate KnowsFiles(m: Mapping, files: Files, settings: seq<Setting>, i: nat)
    requires i <= |settings|
  {
    forall name :: Latest(settings, i, File(name)).Some? ==> name in files && m.active[SELECT_SYSFS] != 0
  }

  ghost predicate Says(libc: Libc, r: Reading, settings: seq<Setting>, i: nat)
    requires i <= |settings|
  {
    && Distinct(r.files)
    && SaysSelectors(libc, r.node, settings, i)
    && SaysFiles(r.node, r.files, settings, i)
    && KnowsFiles(r.node, r.files, settings, i)
    && (forall j :: 0 <= j < i ==> KeyOf(settings[j]) != Nothing)
  }

  lemma AddMacSays(libc: Libc, r: Reading, text: CString)
    requires AddMac(r, text).1
    ensures SaysSelector(libc, AddMac(r, text).0.node, Mac(text))
  {
    AtonExact(text, MAX_MAC_LEN);
    hide Aton, IsMacText, MacBytes, Spans;
  }

  /** An accepted setting is said by the mapping. */
  lemma AddSays(libc: Libc, r: Reading, s: Setting)
    requires AddSetting(libc, r, s).1 && KeyOf(s).Selector?
    ensures SaysSelector(libc, AddSetting(libc, r, s).0.node, s)
  {
    hide Aton, IsMacText, MacBytes, Spans;
    if s.Mac? {
      AddMacSays(libc, r, s.text);
      hide AddMac;
    }
  }

  /** What the mapping says about other selectors stays. */
  lemma AddStays(libc: Libc, r: Reading, s: Setting, other: Setting)
    requires AddSetting(libc, r, s).1 && KeyOf(other) != KeyOf(s) && SaysSelector(libc, r.node, other)
    ensures SaysSelector(libc, AddSetting(libc, r, s).0.node, other)
  {
    hide Aton, IsMacText, MacBytes, Spans, Number, FileIndex;
  }

  /** An add function changes the flag of its own selector, and only that of sysfs changes the files. */
  lemma AddFrame(libc: Libc, r: Reading, s: Setting)
    requires AddSetting(libc, r, s).1
    ensures var r' := AddSetting(libc, r, s).0;
      && r'.node.ifname == r.node.ifname
      && (forall c :: 0 <= c < SELECT_NUM && c != SelectorOf(s) ==> r'.node.active[c] == r.node.active[c])
      && (!s.Sysfs? ==> r'.node.sysfs == r.node.sysfs && r'.files == r.files)
      && KeyOf(s) != Nothing
  {
    hide Aton, Spans, Number, FileIndex;
  }

  lemma SelectorsStep(libc: Libc, r: Reading, settings: seq<Setting>, i: nat)
    requires i < |settings| && SaysSelectors(libc, r.node, settings, i) && AddSetting(libc, r, settings[i]).1
    ensures SaysSelectors(libc, AddSetting(libc, r, settings[i]).0.node, settings, i + 1)
  {
    hide AddSetting, SaysSelector;
    var s, m := settings[i], AddSetting(libc, r, settings[i]).0.node;
    AddFrame(libc, r, s);
    if KeyOf(s).Selector? {
      AddSays(libc, r, s);
    }
    forall c | 0 <= c < SELECT_NUM && c != SELECT_SYSFS
      ensures var last := Latest(settings, i + 1, Selector(c));
        if last.None? then m.active[c] == 0 else SaysSelector(libc, m, last.value)
    {
      var before := Latest(settings, i, Selector(c));
      if KeyOf(s) != Selector(c) && before.Some? {
        LatestKey(settings, i, Selector(c));
        AddStays(libc, r, s, before.value);
      }
    }
  }

  lemma {:induction false} LatestKey(settings: seq<Setting>, i: nat, key: Key)
    requires i <= |settings| && Latest(settings, i, key).Some?
    ensures KeyOf(Latest(settings, i, key).value) == key
    ensures exists j :: 0 <= j < i && settings[j] == Latest(settings, i, key).value
  {
    if KeyOf(settings[i - 1]) != key {
      LatestKey(settings, i - 1, key);
    }
  }

  /** An accepted sysfs setting names a file, that is listed then, and gets its value there. */
  lemma AddSysfsEffect(r: Reading, name: CString, text: CString)
    requires AddSysfs(r, Some(name), text).1 && Distinct(r.files)
    ensures var r' := AddSysfs(r, Some(name), text).0;
      && Distinct(r'.files) && r.files <= r'.files && name in r'.files && |r'.files| <= |r.files| + 1
      && (forall n :: 0 <= n < |r'.files| ==>
        r'.node.sysfs[n] == if r'.files[n] == name then Some(text) else r.node.sysfs[n])
      && (|r'.files| > |r.files| ==> r'.files == r.files + [name] && name !in r.files)
  {
    NotListed(r.files, name);
    var i := FileIndex(r.files, name);
    if i == |r.files| {
      assert (r.files + [name])[i] == name;
    }
  }

  lemma {:induction false} NotListed(files: seq<string>, name: string)
    ensures FileIndex(files, name) == |files| <==> name !in files
  {
    if files != [] && files[0] != name {
      NotListed(files[1..], name);
      assert files == [files[0]] + files[1..];
    }
  }

  lemma FilesStep(libc: Libc, r: Reading, settings: seq<Setting>, i: nat)
    requires i < |settings| && AddSetting(libc, r, settings[i]).1
    requires Distinct(r.files) && SaysFiles(r.node, r.files, settings, i) && KnowsFiles(r.node, r.files, settings, i)
    requires FilesListed(r.node, r.files)
    ensures var r' := AddSetting(libc, r, settings[i]).0;
      Distinct(r'.files) && SaysFiles(r'.node, r'.files, settings, i + 1) &&
        KnowsFiles(r'.node, r'.files, settings, i + 1)
  {
    hide AddSetting, AddSysfs;
    var s, r' := settings[i], AddSetting(libc, r, settings[i]).0;
    AddFrame(libc, r, s);
    if s.Sysfs? {
      SysfsSetting(libc, r, s);
      AddSysfsEffect(r, s.file.value, s.text);
    }
  }

  lemma SysfsSetting(libc: Libc, r: Reading, s: Setting)
    requires s.Sysfs? && AddSetting(libc, r, s).1
    ensures s.file.Some? && AddSetting(libc, r, s) == AddSysfs(r, s.file, s.text)
    ensures AddSetting(libc, r, s).0.node.active[SELECT_SYSFS] != 0
  {
  }

  lemma {:induction false} SettingsSay(libc: Libc, r: Reading, settings: seq<Setting>, i: nat)
    requires i <= |settings| && Says(libc, r, settings, i) && Sound(r.node, r.selected, r.files)
    ensures var (r', ok) := AddSettings(libc, r, settings, i);
      && Distinct(r'.files)
      && (ok ==> Says(libc, r', settings, |settings|) && r'.node.ifname == r.node.ifname)
    decreases |settings| - i
  {
    hide AddSetting, SaysSelectors, SaysFiles, KnowsFiles, Distinct, FilesListed;
    if i < |settings| {
      var (r', ok) := AddSetting(libc, r, settings[i]);
      AddKeeps(libc, r, settings[i]);
      if ok {
        SelectorsStep(libc, r, settings, i);
        FilesStep(libc, r, settings, i);
        AddFrame(libc, r, settings[i]);
        SettingsSay(libc, r', settings, i + 1);
      } else {
        RefusedFiles(libc, r, settings[i]);
      }
    }
  }

  lemma RefusedFiles(libc: Libc, r: Reading, s: Setting)
    requires !AddSetting(libc, r, s).1
    ensures AddSetting(libc, r, s).0.files == r.files
  {
    hide Aton, Spans, Number, FileIndex;
  }

  lemma SaysMeets(libc: Libc, k: Kernel, files: Files, ifname: string, m: Mapping, s: Setting)
    requires SaysSelector(libc, m, s)
    ensures Meets(libc, k, files, ifname, m, KeyOf(s).index) <==> Holds(libc, k, ifname, s)
  {
    hide MacText, IsMacText, MacBytes, HwAddr.Bytes;
  }

  /** The sysfs values a mapping compares are the last value given for each file. */
  lemma {:induction false} FilesMeet(libc: Libc, k: Kernel, r: Reading, files: Files, ifname: string,
      settings: seq<Setting>)
    requires Says(libc, r, settings, |settings|) && FilesListed(r.node, r.files) && r.files <= files
    ensures Meets(libc, k, files, ifname, r.node, SELECT_SYSFS) <==>
      forall name ::
        Latest(settings, |settings|, File(name)).Some? ==>
          Holds(libc, k, ifname, Latest(settings, |settings|, File(name)).value)
  {
    hide SaysSelectors, Distinct;
    var m := r.node;
    forall n | 0 <= n < |r.files|
      ensures var last := Latest(settings, |settings|, File(r.files[n]));
        last.Some? ==>
          KeyOf(last.value) == File(files[n]) && last.value.Sysfs? && m.sysfs[n] == Some(last.value.text)
      ensures Latest(settings, |settings|, File(r.files[n])).None? ==> m.sysfs[n].None?
    {
      if Latest(settings, |settings|, File(r.files[n])).Some? {
        LatestKey(settings, |settings|, File(r.files[n]));
      }
    }
    forall name | Latest(settings, |settings|, File(name)).Some?
      ensures exists n :: 0 <= n < |r.files| && r.files[n] == name
    {
    }
  }

  /** Whether the interface meets an accepted mapping is whether its line holds of the interface. */
  lemma MeetsLine(libc: Libc, k: Kernel, r: Reading, files: Files, ifname: string, line: Line)
    requires Says(libc, r, line.settings, |line.settings|) && Sound(r.node, r.selected, r.files) && r.files <= files
    ensures MeetsAll(libc, k, files, ifname, r.node) <==> LineHolds(libc, k, ifname, line)
  {
    var settings, m := line.settings, r.node;
    FilesMeet(libc, k, r, files, ifname, settings);
    hide Meets, Holds, SaysSelector, SaysFiles, FilesListed, Distinct;
    forall c | 0 <= c < SELECT_NUM && c != SELECT_SYSFS
      ensures var last := Latest(settings, |settings|, Selector(c));
        if last.None? then m.active[c] == 0
        else m.active[c] != 0 && (Meets(libc, k, files, ifname, m, c) <==> Holds(libc, k, ifname, last.value))
    {
      var last := Latest(settings, |settings|, Selector(c));
      if last.Some? {
        LatestKey(settings, |settings|, Selector(c));
        assert SaysSelector(libc, m, last.value);
        SaysActive(libc, m, last.value);
        SaysMeets(libc, k, files, ifname, m, last.value);
      }
    }
    if MeetsAll(libc, k, files, ifname, m) {
      forall key | Latest(settings, |settings|, key).Some?
        ensures Holds(libc, k, ifname, Latest(settings, |settings|, key).value)
      {
        LatestKey(settings, |settings|, key);
        KeyInRange(Latest(settings, |settings|, key).value);
      }
    }
  }

  lemma SaysActive(libc: Libc, m: Mapping, s: Setting)
    requires SaysSelector(libc, m, s)
    ensures m.active[KeyOf(s).index] != 0
  {
  }

  lemma KeyInRange(s: Setting)
    ensures KeyOf(s).Selector? ==> KeyOf(s).index < SELECT_NUM && KeyOf(s).index != SELECT_SYSFS
  {
  }

  // ---- the configuration as a whole

  /** What is true between lines. */
  predicate Consistent(g: Globals) {
    Invariant(g) && Distinct(g.files)
  }

  /** What a line does: at most one mapping, that speaks for the line. */
  lemma LineAdds(libc: Libc, g: Globals, line: Line)
    requires Consistent(g)
    ensures var g' := ReadLine(libc, g, line);
      && Consistent(g') && g.files <= g'.files
      && (g'.list == g.list ||
          exists r: Reading ::
            && g'.list == [r.node] + g.list && r.files == g'.files && r.selected == g'.selected
            && r.node.ifname == line.name && Sound(r.node, r.selected, r.files)
            && Says(libc, r, line.settings, |line.settings|))
  {
    LineKeeps(libc, g, line);
    hide AddSettings, Sound, Invariant, Distinct;
    if !TooLong(line.name) {
      var r := Reading(Named(line.name), g.selected, g.files);
      NamedSound(line.name, g.selected, g.files);
      NamedSays(libc, r, line);
      SettingsKeep(libc, r, line.settings, 0);
      SettingsSay(libc, r, line.settings, 0);
    }
  }

  lemma NamedSays(libc: Libc, r: Reading, line: Line)
    requires r.node == Named(line.name) && Distinct(r.files)
    ensures Says(libc, r, line.settings, 0)
  {
  }

  lemma {:induction false} LinesConsistent(libc: Libc, lines: seq<Line>)
    ensures Consistent(ReadLines(libc, lines))
  {
    if lines == [] {
    } else {
      var before := lines[..|lines| - 1];
      LinesConsistent(libc, before);
      hide Consistent, ReadLine;
      LineAdds(libc, ReadLines(libc, before), lines[|lines| - 1]);
    }
  }

  // ---- which lines are accepted

  /** A value that the add function of its selector accepts, as far as that depends on the value alone. */
  predicate Acceptable(libc: Libc, s: Setting) {
    match s
    case Mac(text) =>
      |text| < 49 && Spans(text, "0123456789ABCDEFabcdef:*") &&
        ('*' in text || IsMacText(text, 16))
    case Arp(text) => Spans(text, "0123456789") && libc.decimal(text).Some?
    case Driver(text) => |text| <= 31
    case BusInfo(text) => |text| <= 31
    case Firmware(text) => |text| <= 31
    case BaseAddr(text) => Spans(text, "0123456789ABCDEFabcdefx") && libc.hexadecimal(text).Some?
    case Irq(text) => Spans(text, "0123456789") && libc.decimal(text).Some?
    case IwProto(text) => |text| <= 16
    case PcmciaSlot(text) => Spans(text, "0123456789") && libc.decimal(text).Some?
    case Sysfs(file, _) => file.Some?
    case PrevName(text) => |text| <= 16
    case Malformed => false
  }

  /** The sysfs files in use after the settings from number i on, however many. */
  function FilesAfter(files: seq<string>, settings: seq<Setting>, i: nat): (r: seq<string>)
    requires i <= |settings|
    ensures |files| <= |r|
    decreases |settings| - i
  {
    if i == |settings| then files else
    match settings[i]
    case Sysfs(Some(file), _) => FilesAfter(if file in files then files else files + [file], settings, i + 1)
    case _ => FilesAfter(files, settings, i + 1)
  }

  lemma SettingAccepted(libc: Libc, r: Reading, s: Setting)
    ensures AddSetting(libc, r, s).1 <==>
      Acceptable(libc, s) && (s.Sysfs? && s.file.Some? && s.file.value !in r.files ==> |r.files| < SYSFS_MAX_FILE)
    ensures AddSetting(libc, r, s).1 ==>
      AddSetting(libc, r, s).0.files ==
        if s.Sysfs? && s.file.Some? && s.file.value !in r.files then r.files + [s.file.value] else r.files
  {
    if s.Mac? {
      AtonExact(s.text, MAX_MAC_LEN);
    } else if s.Sysfs? && s.file.Some? {
      NotListed(r.files, s.file.value);
    }
    hide Spans, Aton, IsMacText, FileIndex;
  }

  /** Settings are all accepted exactly when each is acceptable and the sysfs files in use stay at most eight. */
  lemma {:induction false} SettingsAccepted(libc: Libc, r: Reading, settings: seq<Setting>, i: nat)
    requires i <= |settings|
    ensures AddSettings(libc, r, settings, i).1 <==>
      (forall j :: i <= j < |settings| ==> Acceptable(libc, settings[j])) &&
        |FilesAfter(r.files, settings, i)| <= SYSFS_MAX_FILE
    decreases |settings| - i
  {
    hide AddSetting, Acceptable;
    if i < |settings| {
      SettingAccepted(libc, r, settings[i]);
      var (r', ok) := AddSetting(libc, r, settings[i]);
      if ok {
        SettingsAccepted(libc, r', settings, i + 1);
      }
    }
  }

  /** A line is accepted exactly when its name fits, it has settings, and all of them are accepted. */
  lemma {:induction false} LineAccepted(libc: Libc, lines: seq<Line>, n: nat)
    requires n < |lines|
    ensures Accepted(libc, lines, n).Some? <==>
      && (|lines[n].name| <= if '*' in lines[n].name then 15 else 16) && lines[n].settings != []
      && (forall s :: s in lines[n].settings ==> Acceptable(libc, s))
      && |FilesAfter(ReadLines(libc, lines[..n]).files, lines[n].settings, 0)| <= 8
  {
    var g, line := ReadLines(libc, lines[..n]), lines[n];
    var before := lines[..n + 1];
    assert before[..n] == lines[..n] && before[n] == line;
    assert ReadLines(libc, before) == ReadLine(libc, g, line);
    hide ReadLines, AddSettings, Acceptable;
    SettingsAccepted(libc, Reading(Named(line.name), g.selected, g.files), line.settings, 0);
  }

  // ---- which selectors are in use

  /** From setting number k on there is one of selector i, and it and all before it are good. */
  predicate Reaches(libc: Libc, files: seq<string>, settings: seq<Setting>, k: nat, i: nat)
    requires k <= |settings|
    decreases |settings| - k
  {
    k < |settings| && Acceptable(libc, settings[k]) &&
      var s := settings[k];
      var files' := if s.Sysfs? && s.file.Some? && s.file.value !in files then files + [s.file.value] else files;
      |files'| <= 8 && (SelectorOf(s) == i || Reaches(libc, files', settings, k + 1, i))
  }

  /** A good setting puts its selector in use, and one that is refused puts none. */
  lemma AddSelects(libc: Libc, r: Reading, s: Setting, i: nat)
    requires i < SELECT_NUM
    ensures var (r', ok) := AddSetting(libc, r, s);
      r'.selected[i] != 0 <==> r.selected[i] != 0 || (ok && SelectorOf(s) == i)
  {
    hide Spans, Aton, Number, FileIndex;
  }

  lemma {:induction false} SettingsSelect(libc: Libc, r: Reading, settings: seq<Setting>, k: nat, i: nat)
    requires i < SELECT_NUM && k <= |settings|
    ensures AddSettings(libc, r, settings, k).0.selected[i] != 0 <==>
      r.selected[i] != 0 || Reaches(libc, r.files, settings, k, i)
    decreases |settings| - k
  {
    hide AddSetting, Acceptable;
    if k < |settings| {
      var (r', ok) := AddSetting(libc, r, settings[k]);
      SettingAccepted(libc, r, settings[k]);
      AddSelects(libc, r, settings[k], i);
      if ok {
        SettingsSelect(libc, r', settings, k + 1, i);
      }
    }
  }

  /** The line has a good setting of selector i before any bad one. */
  predicate Selects(libc: Libc, lines: seq<Line>, n: nat, i: nat)
    requires n < |lines|
  {
    && (|lines[n].name| <= if '*' in lines[n].name then 15 else 16)
    && Reaches(libc, ReadLines(libc, lines[..n]).files, lines[n].settings, 0, i)
  }

  /**
    The selectors in use are exactly those of which some line has a good setting before any bad one, whether
    the line is accepted or not; and nothing else is asked about an interface.
   */
  lemma {:induction false} SelectedExactly(libc: Libc, lines: seq<Line>, i: nat)
    requires i < SELECT_NUM
    ensures ReadLines(libc, lines).selected[i] != 0 <==> exists n :: 0 <= n < |lines| && Selects(libc, lines, n, i)
  {
    hide AddSettings, Reaches;
    if lines == [] {
    } else {
      var last := |lines| - 1;
      var before, line := lines[..last], lines[last];
      var g := ReadLines(libc, before);
      SelectedExactly(libc, before, i);
      SettingsSelect(libc, Reading(Named(line.name), g.selected, g.files), line.settings, 0, i);
      assert ReadLines(libc, lines).selected[i] != 0 <==> g.selected[i] != 0 || Selects(libc, lines, last, i);
      forall n | 0 <= n < last ensures Selects(libc, lines, n, i) <==> Selects(libc, before, n, i) {
        assert before[..n] == lines[..n];
      }
    }
  }

  /** The last accepted line that holds of the interface. */
  ghost predicate LastHolding(libc: Libc, k: Kernel, ifname: string, lines: seq<Line>, n: nat) {
    && n < |lines| && Accepted(libc, lines, n).Some? && LineHolds(libc, k, ifname, lines[n])
    && forall later :: n < later < |lines| && Accepted(libc, lines, later).Some? ==>
        !LineHolds(libc, k, ifname, lines[later])
  }

  ghost predicate NoneHolds(libc: Libc, k: Kernel, ifname: string, lines: seq<Line>) {
    forall n :: 0 <= n < |lines| && Accepted(libc, lines, n).Some? ==> !LineHolds(libc, k, ifname, lines[n])
  }

  lemma AcceptedBefore(libc: Libc, lines: seq<Line>, n: nat)
    requires n + 1 < |lines|
    ensures Accepted(libc, lines, n) == Accepted(libc, lines[..|lines| - 1], n)
  {
    var before := lines[..|lines| - 1];
    assert before[..n] == lines[..n] && before[..n + 1] == lines[..n + 1];
  }

  /** One more line: it is the last that holds, or the answer stays what it was. */
  lemma OneMoreLine(libc: Libc, k: Kernel, ifname: string, lines: seq<Line>)
    requires lines != []
    ensures var last := |lines| - 1;
      var before := lines[..last];
      if Accepted(libc, lines, last).Some? && LineHolds(libc, k, ifname, lines[last]) then
        LastHolding(libc, k, ifname, lines, last)
      else
        && (NoneHolds(libc, k, ifname, before) ==> NoneHolds(libc, k, ifname, lines))
        && (forall n: nat :: LastHolding(libc, k, ifname, before, n) ==>
          n < last && LastHolding(libc, k, ifname, lines, n) && Accepted(libc, lines, n) == Accepted(libc, before, n))
  {
    hide LineHolds, Accepted;
    var last := |lines| - 1;
    forall n | 0 <= n < last ensures Accepted(libc, lines, n) == Accepted(libc, lines[..last], n) {
      AcceptedBefore(libc, lines, n);
    }
  }

  /** The mapping at index i of the list, or its absence, answers for the lines. */
  ghost predicate Answers(libc: Libc, k: Kernel, ifname: string, lines: seq<Line>, list: seq<Mapping>, i: nat)
    requires i <= |list|
  {
    if i == |list| then NoneHolds(libc, k, ifname, lines)
    else exists n: nat ::
      && LastHolding(libc, k, ifname, lines, n)
      && Accepted(libc, lines, n) == Some(list[i]) && list[i].ifname == lines[n].name
  }

  /** The first mapping met in the list built from the lines is that of the last line that holds. */
  lemma {:induction false} FirstMeetingAnswers(libc: Libc, k: Kernel, files: Files, ifname: string, lines: seq<Line>)
    requires ReadLines(libc, lines).files <= files
    ensures var list := ReadLines(libc, lines).list;
      Answers(libc, k, ifname, lines, list, FirstMeeting(libc, k, files, ifname, list))
  {
    if lines == [] {
    } else {
      var last := |lines| - 1;
      var before := lines[..last];
      var g, g' := ReadLines(libc, before), ReadLines(libc, lines);
      LinesConsistent(libc, before);
      LineAdds(libc, g, lines[last]);
      hide ReadLine, Consistent, LineHolds, Says, Sound, MeetsAll, Answers, FirstMeeting;
      FirstMeetingAnswers(libc, k, files, ifname, before);
      if g'.list == g.list {
        SameAnswer(libc, k, ifname, lines, g.list, FirstMeeting(libc, k, files, ifname, g.list));
      } else {
        var r: Reading :|
          && g'.list == [r.node] + g.list && r.files == g'.files && r.node.ifname == lines[last].name
          && Sound(r.node, r.selected, r.files) && Says(libc, r, lines[last].settings, |lines[last].settings|);
        MeetsLine(libc, k, r, files, ifname, lines[last]);
        NewAnswer(libc, k, files, ifname, lines, r.node, g.list);
      }
    }
  }

  lemma {:induction false} SameAnswer(libc: Libc, k: Kernel, ifname: string, lines: seq<Line>, list: seq<Mapping>,
      i: nat)
    requires lines != [] && i <= |list| && Answers(libc, k, ifname, lines[..|lines| - 1], list, i)
    requires ReadLines(libc, lines).list == ReadLines(libc, lines[..|lines| - 1]).list
    ensures Answers(libc, k, ifname, lines, list, i)
  {
    hide ReadLines, NoneHolds, LastHolding, LineHolds;
    assert lines[..|lines|] == lines;
    assert Accepted(libc, lines, |lines| - 1) == None;
    OneMoreLine(libc, k, ifname, lines);
    hide Accepted;
  }

  lemma {:induction false} NewAnswer(libc: Libc, k: Kernel, files: Files, ifname: string, lines: seq<Line>,
      m: Mapping, list: seq<Mapping>)
    requires lines != [] && m.ifname == lines[|lines| - 1].name
    requires ReadLines(libc, lines).list == [m] + list && ReadLines(libc, lines[..|lines| - 1]).list == list
    requires MeetsAll(libc, k, files, ifname, m) <==> LineHolds(libc, k, ifname, lines[|lines| - 1])
    requires Answers(libc, k, ifname, lines[..|lines| - 1], list, FirstMeeting(libc, k, files, ifname, list))
    ensures Answers(libc, k, ifname, lines, [m] + list, FirstMeeting(libc, k, files, ifname, [m] + list))
  {
    hide ReadLines, NoneHolds, LastHolding, LineHolds, MeetsAll;
    assert lines[..|lines|] == lines;
    assert Accepted(libc, lines, |lines| - 1) == Some(m);
    OneMoreLine(libc, k, ifname, lines);
    hide Accepted;
    assert ([m] + list)[1..] == list;
    var i := FirstMeeting(libc, k, files, ifname, [m] + list);
    assert i > 0 ==> i == 1 + FirstMeeting(libc, k, files, ifname, list);
  }

  /**
    For any configuration and any interface, whatever is asked beyond the selected selectors, the
    mapping found is that of the last accepted line that holds of the interface, and none is found
    exactly when no such line holds.
   */
  lemma {:induction false} FoundIsLastHolding(libc: Libc, k: Kernel, verbose: bool, lines: seq<Line>, flags: Flags,
      ifname: string)
    requires Covers(flags, ReadLines(libc, lines).selected)
    ensures var g := ReadLines(libc, lines);
      var t := Extract(k, g.files, verbose, flags, Named(ifname), 0);
      Answers(libc, k, ifname, lines, g.list, First(libc, g.files, g.list, t))
  {
    hide ReadLines, Extract, First, FirstMeeting, Covers, Answers, Invariant;
    var g := ReadLines(libc, lines);
    LinesKeep(libc, lines);
    FindsFirstMeeting(libc, k, verbose, g, flags, ifname);
    FirstMeetingAnswers(libc, k, g.files, ifname, lines);
  }
}
