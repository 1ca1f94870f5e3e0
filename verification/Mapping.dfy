/**
  Interface mappings of ifrename: what a configuration builds, what is asked about a live
  interface, and which mapping is found for it.
 */
module Mapping {
  import opened Basics
  import opened Text
  import opened MacCodec

  const SELECT_MAC := 0
  const SELECT_ETHADDR := 1
  const SELECT_ARP := 2
  const SELECT_LINKTYPE := 3
  const SELECT_DRIVER := 4
  const SELECT_BUSINFO := 5
  const SELECT_FIRMWARE := 6
  const SELECT_BASEADDR := 7
  const SELECT_IRQ := 8
  const SELECT_INTERRUPT := 9
  const SELECT_IWPROTO := 10
  const SELECT_PCMCIASLOT := 11
  const SELECT_SYSFS := 12
  const SELECT_PREVNAME := 13
  const SELECT_NUM := 14

  const HAS_MAC_EXACT := 1
  const HAS_MAC_FILTER := 2
  const MAX_MAC_LEN := 16
  const MAC_FILTER_SIZE := 49
  const IFNAMSIZ := 16
  const SYSFS_MAX_FILE := 8

  const NO_FLAGS: Flags := [0, 0, 0, 0, 0, 0, 0, 0, 0, 0, 0, 0, 0, 0]

  /** One flag for each selector. */
  type Flags = f: seq<int> | |f| == 14 witness [0, 0, 0, 0, 0, 0, 0, 0, 0, 0, 0, 0, 0, 0]

  /** Names of the sysfs files that some line of the configuration used. */
  type Files = f: seq<string> | |f| <= 8

  type SysfsValues = s: seq<Option<string>> | |s| == 8 witness [None, None, None, None, None, None, None, None]

  /** The library calls: a case-insensitive fnmatch, and the numbers that sscanf reads from a text. */
  datatype Libc = Libc(
    fnmatch: (string, string) -> bool,
    decimal: string -> Option<int>,
    hexadecimal: string -> Option<int>)

  /** struct if_mapping; the address is held with its length. */
  datatype Mapping = Mapping(
    ifname: string,
    active: Flags,
    mac: seq<byte>,
    macFilter: string,
    hwType: u16,
    driver: string,
    busInfo: string,
    fwVersion: string,
    baseAddr: u16,
    irq: byte,
    iwproto: string,
    pcmciaSlot: int,
    sysfs: SysfsValues,
    prevname: string)

  /** A mapping as calloc and the copy of its name leave it. */
  function Named(ifname: string): Mapping {
    Mapping(ifname, NO_FLAGS, [], "", 0, "", "", "", 0, 0, "", 0, [None, None, None, None, None, None, None, None], "")
  }

  // ---- reading the configuration

  /** A selector with its value, or whatever the line parser complains about. */
  datatype Setting =
    | Mac(text: CString)
    | Arp(text: CString)
    | Driver(text: CString)
    | BusInfo(text: CString)
    | Firmware(text: CString)
    | BaseAddr(text: CString)
    | Irq(text: CString)
    | IwProto(text: CString)
    | PcmciaSlot(text: CString)
    | Sysfs(file: Option<CString>, text: CString)
    | PrevName(text: CString)
    | Malformed

  /** The place of a setting's selector in the flags. */
  function SelectorOf(s: Setting): nat {
    match s
    case Mac(_) => SELECT_MAC
    case Arp(_) => SELECT_ARP
    case Driver(_) => SELECT_DRIVER
    case BusInfo(_) => SELECT_BUSINFO
    case Firmware(_) => SELECT_FIRMWARE
    case BaseAddr(_) => SELECT_BASEADDR
    case Irq(_) => SELECT_IRQ
    case IwProto(_) => SELECT_IWPROTO
    case PcmciaSlot(_) => SELECT_PCMCIASLOT
    case Sysfs(_, _) => SELECT_SYSFS
    case PrevName(_) => SELECT_PREVNAME
    case Malformed => SELECT_NUM
  }

  datatype Line = Line(name: CString, settings: seq<Setting>)

  /** The mapping being filled in, and the globals that go with it. */
  datatype Reading = Reading(node: Mapping, selected: Flags, files: Files)

  /** strspn(text, allowed) covers the whole text. */
  predicate Spans(text: string, allowed: string) {
    forall c :: c in text ==> c in allowed
  }

  function Activate(r: Reading, node: Mapping, i: nat): Reading
    requires i < SELECT_NUM
  {
    r.(node := node.(active := node.active[i := 1]), selected := r.selected[i := 1])
  }

  /** mapping_addmac */
  function AddMac(r: Reading, text: CString): (Reading, bool) {
    if |text| >= MAC_FILTER_SIZE || !Spans(text, "0123456789ABCDEFabcdef:*") then (r, false) else
    var copied := r.node.(macFilter := text);
    if '*' in text then
      (r.(node := copied.(active := copied.active[SELECT_MAC := HAS_MAC_FILTER]),
          selected := r.selected[SELECT_MAC := HAS_MAC_FILTER]), true)
    else
      var (ok, mac) := Aton(text, 0, MAX_MAC_LEN, []);
      if !ok then (r.(node := copied.(mac := [])), false)
      else
        var selected := if r.selected[SELECT_MAC] == 0 then r.selected[SELECT_MAC := HAS_MAC_EXACT] else r.selected;
        (r.(node := copied.(mac := mac, active := copied.active[SELECT_MAC := HAS_MAC_EXACT]),
          selected := selected), true)
  }

  /** The place of a name in a list, or the length of the list. */
  function FileIndex(files: seq<string>, file: string): (i: nat)
    ensures i <= |files| && (i < |files| ==> files[i] == file)
  {
    if files == [] || files[0] == file then 0 else 1 + FileIndex(files[1..], file)
  }

  /** mapping_addsysfs */
  function AddSysfs(r: Reading, file: Option<CString>, text: CString): (Reading, bool) {
    if file.None? then (r, false) else
    var i := FileIndex(r.files, file.value);
    if i == |r.files| == SYSFS_MAX_FILE then (r, false) else
    var r' := if i == |r.files| then r.(files := r.files + [file.value]) else r;
    (Activate(r', r'.node.(sysfs := r'.node.sysfs[i := Some(text)]), SELECT_SYSFS), true)
  }

  /** The text selectors: mapping_adddriver, businfo, firmware, iwproto and prevname. */
  function AddText(r: Reading, i: nat, size: nat, text: CString, node: Mapping): (Reading, bool)
    requires i < SELECT_NUM
  {
    if |text| >= size then (r, false) else (Activate(r, node, i), true)
  }

  /** What a number selector reads from a text of the allowed characters. */
  function Number(text: CString, allowed: string, sscanf: string -> Option<int>): Option<int> {
    if Spans(text, allowed) then sscanf(text) else None
  }

  /** The add function of a selector: the state after it, and whether it accepts its value. */
  function AddSetting(libc: Libc, r: Reading, s: Setting): (Reading, bool) {
    match s
    case Mac(text) => AddMac(r, text)
    case Arp(text) =>
      var n := Number(text, "0123456789", libc.decimal);
      if n.None? then (r, false) else (Activate(r, r.node.(hwType := n.value % 0x1_0000), SELECT_ARP), true)
    case Driver(text) => AddText(r, SELECT_DRIVER, 32, text, r.node.(driver := text))
    case BusInfo(text) => AddText(r, SELECT_BUSINFO, 32, text, r.node.(busInfo := text))
    case Firmware(text) => AddText(r, SELECT_FIRMWARE, 32, text, r.node.(fwVersion := text))
    case BaseAddr(text) =>
      var n := Number(text, "0123456789ABCDEFabcdefx", libc.hexadecimal);
      if n.None? then (r, false) else (Activate(r, r.node.(baseAddr := n.value % 0x1_0000), SELECT_BASEADDR), true)
    case Irq(text) =>
      var n := Number(text, "0123456789", libc.decimal);
      if n.None? then (r, false) else (Activate(r, r.node.(irq := n.value % 0x100), SELECT_IRQ), true)
    case IwProto(text) => AddText(r, SELECT_IWPROTO, IFNAMSIZ + 1, text, r.node.(iwproto := text))
    case PcmciaSlot(text) =>
      var n := Number(text, "0123456789", libc.decimal);
      if n.None? then (r, false) else (Activate(r, r.node.(pcmciaSlot := n.value), SELECT_PCMCIASLOT), true)
    case Sysfs(file, text) => AddSysfs(r, file, text)
    case PrevName(text) => AddText(r, SELECT_PREVNAME, IFNAMSIZ + 1, text, r.node.(prevname := text))
    case Malformed => (r, false)
  }

  /** The settings of a line from number i on, up to the first that is refused. */
  function AddSettings(libc: Libc, r: Reading, settings: seq<Setting>, i: nat): (Reading, bool)
    requires i <= |settings|
    decreases |settings| - i
  {
    if i == |settings| then (r, true) else
    var (r', ok) := AddSetting(libc, r, settings[i]);
    if ok then AddSettings(libc, r', settings, i + 1) else (r', false)
  }

  /** The program's globals: the mappings, newest first, the selectors some line used, the sysfs files. */
  datatype Globals = Globals(list: seq<Mapping>, selected: Flags, files: Files)

  const START := Globals([], NO_FLAGS, [])

  /** mapping_create refuses a name that would not fit with its wildcard expanded. */
  predicate TooLong(name: CString) {
    |name| + (if '*' in name then 1 else 0) > IFNAMSIZ
  }

  /** The state after a line: a refused line adds no mapping, but its good selectors stay selected. */
  function ReadLine(libc: Libc, g: Globals, line: Line): Globals {
    if TooLong(line.name) then g else
    var (r, ok) := AddSettings(libc, Reading(Named(line.name), g.selected, g.files), line.settings, 0);
    Globals(if ok && line.settings != [] then [r.node] + g.list else g.list, r.selected, r.files)
  }

  function ReadLines(libc: Libc, lines: seq<Line>): Globals {
    if lines == [] then START
    else ReadLine(libc, ReadLines(libc, lines[..|lines| - 1]), lines[|lines| - 1])
  }

  /** The mapping that line number n adds to the list, if any. */
  function Accepted(libc: Libc, lines: seq<Line>, n: nat): Option<Mapping>
    requires n < |lines|
  {
    var before, after := ReadLines(libc, lines[..n]), ReadLines(libc, lines[..n + 1]);
    if |after.list| > |before.list| then Some(after.list[0]) else None
  }

  // ---- asking about an interface

  type SockData = s: seq<byte> | |s| == 14 witness [0, 0, 0, 0, 0, 0, 0, 0, 0, 0, 0, 0, 0, 0]

  datatype HwAddr = HwAddr(family: u16, data: SockData) {
    /** The address, whose length goes with the type of the hardware. */
    function Bytes(): (r: seq<byte>)
      ensures |r| in {4, 6, 8}
    {
      if family == 24 || family == 27 then data[..8] else if family == 783 then data[..4] else data[..6]
    }
  }

  /** An address is the first bytes of the data: eight for FireWire, four for IrDA, and six for anything else. */
  lemma AddressLength(a: HwAddr)
    ensures a.Bytes() <= a.data
    ensures |a.Bytes()| == 8 <==> a.family in {24, 27}
    ensures |a.Bytes()| == 4 <==> a.family == 783
    ensures |a.Bytes()| == 6 <==> a.family !in {24, 27, 783}
  {
  }

  datatype DrvInfo = DrvInfo(driver: string, busInfo: string, fwVersion: string)

  datatype IfMap = IfMap(baseAddr: u16, irq: byte)

  /** What the system answers about an interface; the same question gets the same answer. */
  datatype Kernel = Kernel(
    hwaddr: Option<HwAddr>,
    drvinfo: Option<DrvInfo>,
    ifmap: Option<IfMap>,
    wireless: Option<string>,
    slot: Option<int>,
    sysfs: string -> Option<string>)

  /** mapping_getmac */
  function GetMac(k: Kernel, verbose: bool, t: Mapping, flag: int): Mapping {
    if k.hwaddr.None? then t else
    var mac := k.hwaddr.value.Bytes();
    t.(hwType := k.hwaddr.value.family, mac := mac,
       macFilter := if flag == HAS_MAC_FILTER || verbose then MacText(mac) else t.macFilter,
       active := t.active[SELECT_MAC := flag][SELECT_ARP := 1])
  }

  /** mapping_getdriverbusinfo */
  function GetDriver(k: Kernel, t: Mapping): Mapping {
    if t.active[SELECT_DRIVER] != 0 || t.active[SELECT_BUSINFO] != 0 || t.active[SELECT_FIRMWARE] != 0 then t
    else if k.drvinfo.None? then t
    else
      t.(driver := k.drvinfo.value.driver, busInfo := k.drvinfo.value.busInfo, fwVersion := k.drvinfo.value.fwVersion,
         active := t.active[SELECT_DRIVER := 1][SELECT_BUSINFO := 1][SELECT_FIRMWARE := 1])
  }

  /** mapping_getbaseaddrirq */
  function GetBaseIrq(k: Kernel, t: Mapping): Mapping {
    if t.active[SELECT_BASEADDR] != 0 || t.active[SELECT_IRQ] != 0 || k.ifmap.None? then t else
    var based := if k.ifmap.value.baseAddr < 0x100 then t
                 else t.(baseAddr := k.ifmap.value.baseAddr, active := t.active[SELECT_BASEADDR := 1]);
    based.(irq := k.ifmap.value.irq, active := based.active[SELECT_IRQ := 1])
  }

  /** mapping_getsysfs, from file number i on */
  function GetSysfs(k: Kernel, files: Files, t: Mapping, i: nat): Mapping
    requires i <= |files|
    decreases |files| - i
  {
    if i == |files| then t
    else if k.sysfs(files[i]).None? then GetSysfs(k, files, t, i + 1)
    else GetSysfs(k, files, t.(sysfs := t.sysfs[i := k.sysfs(files[i])], active := t.active[SELECT_SYSFS := 1]), i + 1)
  }

  /** The get function of a selector. */
  function Get(k: Kernel, files: Files, verbose: bool, t: Mapping, i: nat, flag: int): Mapping
    requires i < SELECT_NUM
  {
    if i <= SELECT_ETHADDR then GetMac(k, verbose, t, flag)
    else if i <= SELECT_LINKTYPE then (if t.active[SELECT_MAC] != 0 then t else GetMac(k, verbose, t, flag))
    else if i <= SELECT_FIRMWARE then GetDriver(k, t)
    else if i <= SELECT_INTERRUPT then GetBaseIrq(k, t)
    else if i == SELECT_IWPROTO then
      if k.wireless.None? then t else t.(iwproto := k.wireless.value, active := t.active[i := 1])
    else if i == SELECT_PCMCIASLOT then
      if k.slot.None? then t else t.(pcmciaSlot := k.slot.value, active := t.active[i := 1])
    else if i == SELECT_SYSFS then GetSysfs(k, files, t, 0)
    else t.(active := t.active[i := 1])
  }

  /** The loop of mapping_extract from selector i on, for the selectors that have a flag. */
  function Extract(k: Kernel, files: Files, verbose: bool, flags: Flags, t: Mapping, i: nat): Mapping
    requires i <= SELECT_NUM
    decreases SELECT_NUM - i
  {
    if i == SELECT_NUM then t
    else Extract(k, files, verbose, flags, if flags[i] != 0 then Get(k, files, verbose, t, i, flags[i]) else t, i + 1)
  }

  // ---- finding a mapping

  predicate SysfsMatches(libc: Libc, files: Files, m: Mapping, t: Mapping) {
    forall i :: 0 <= i < |files| && m.sysfs[i].Some? ==>
      t.sysfs[i].Some? && libc.fnmatch(m.sysfs[i].value, t.sysfs[i].value)
  }

  /** Whether the comparison function of a selector says that two mappings match. */
  predicate Compares(libc: Libc, files: Files, m: Mapping, t: Mapping, i: nat)
    requires i < SELECT_NUM
  {
    if i <= SELECT_ETHADDR then
      if m.active[SELECT_MAC] == HAS_MAC_FILTER then libc.fnmatch(m.macFilter, t.macFilter) else m.mac == t.mac
    else if i <= SELECT_LINKTYPE then m.hwType == t.hwType
    else if i == SELECT_DRIVER then libc.fnmatch(m.driver, t.driver)
    else if i == SELECT_BUSINFO then libc.fnmatch(m.busInfo, t.busInfo)
    else if i == SELECT_FIRMWARE then libc.fnmatch(m.fwVersion, t.fwVersion)
    else if i == SELECT_BASEADDR then m.baseAddr == t.baseAddr
    else if i <= SELECT_INTERRUPT then m.irq == t.irq
    else if i == SELECT_IWPROTO then libc.fnmatch(m.iwproto, t.iwproto)
    else if i == SELECT_PCMCIASLOT then m.pcmciaSlot == t.pcmciaSlot
    else if i == SELECT_SYSFS then SysfsMatches(libc, files, m, t)
    else libc.fnmatch(m.prevname, t.ifname)
  }

  /** Every selector of the mapping is known of the target and matches. */
  predicate Matches(libc: Libc, files: Files, m: Mapping, t: Mapping) {
    forall i :: 0 <= i < SELECT_NUM && m.active[i] != 0 ==> t.active[i] != 0 && Compares(libc, files, m, t, i)
  }

  /** The index of the first mapping in the list that matches, or the length of the list. */
  function First(libc: Libc, files: Files, list: seq<Mapping>, t: Mapping): (n: nat)
    ensures n <= |list|
  {
    if list == [] || Matches(libc, files, list[0], t) then 0 else 1 + First(libc, files, list[1..], t)
  }

  // ---- what a selector asks of an interface, without extraction

  /** The interface has what a selector of the mapping asks for. */
  predicate Meets(libc: Libc, k: Kernel, files: Files, ifname: string, m: Mapping, i: nat)
    requires i < SELECT_NUM
  {
    if i == SELECT_MAC then
      k.hwaddr.Some? && var mac := k.hwaddr.value.Bytes();
      if m.active[SELECT_MAC] == HAS_MAC_FILTER then libc.fnmatch(m.macFilter, MacText(mac)) else m.mac == mac
    else if i == SELECT_ARP then k.hwaddr.Some? && m.hwType == k.hwaddr.value.family
    else if i == SELECT_DRIVER then k.drvinfo.Some? && libc.fnmatch(m.driver, k.drvinfo.value.driver)
    else if i == SELECT_BUSINFO then k.drvinfo.Some? && libc.fnmatch(m.busInfo, k.drvinfo.value.busInfo)
    else if i == SELECT_FIRMWARE then k.drvinfo.Some? && libc.fnmatch(m.fwVersion, k.drvinfo.value.fwVersion)
    else if i == SELECT_BASEADDR then
      k.ifmap.Some? && k.ifmap.value.baseAddr >= 0x100 && m.baseAddr == k.ifmap.value.baseAddr
    else if i == SELECT_IRQ then k.ifmap.Some? && m.irq == k.ifmap.value.irq
    else if i == SELECT_IWPROTO then k.wireless.Some? && libc.fnmatch(m.iwproto, k.wireless.value)
    else if i == SELECT_PCMCIASLOT then k.slot.Some? && m.pcmciaSlot == k.slot.value
    else if i == SELECT_SYSFS then
      forall n :: 0 <= n < |files| && m.sysfs[n].Some? ==>
        k.sysfs(files[n]).Some? && libc.fnmatch(m.sysfs[n].value, k.sysfs(files[n]).value)
    else i == SELECT_PREVNAME && libc.fnmatch(m.prevname, ifname)
  }

  predicate MeetsAll(libc: Libc, k: Kernel, files: Files, ifname: string, m: Mapping) {
    forall i :: 0 <= i < SELECT_NUM && m.active[i] != 0 ==> Meets(libc, k, files, ifname, m, i)
  }

  // ---- invariants of the configuration

  /** Every selector in use is selected, and the text form of the address is, once some mapping has a filter. */
  predicate Covers(flags: Flags, used: Flags) {
    (forall i :: 0 <= i < SELECT_NUM && used[i] != 0 ==> flags[i] != 0) &&
    (used[SELECT_MAC] == HAS_MAC_FILTER ==> flags[SELECT_MAC] == HAS_MAC_FILTER)
  }

  /** A mapping uses no sysfs file but listed ones, and one at least when the selector is on. */
  predicate FilesListed(m: Mapping, files: Files) {
    (forall i :: |files| <= i < SYSFS_MAX_FILE ==> m.sysfs[i].None?) &&
    (m.active[SELECT_SYSFS] != 0 ==> exists i :: 0 <= i < |files| && m.sysfs[i].Some?)
  }

  predicate Sound(m: Mapping, selected: Flags, files: Files) {
    Covers(selected, m.active) && FilesListed(m, files)
  }

  predicate Invariant(g: Globals) {
    forall m :: m in g.list ==> Sound(m, g.selected, g.files)
  }

  /** Reading never unselects, never gives up the text form of the address, never renumbers files. */
  predicate Grows(r: Reading, r': Reading) {
    Covers(r'.selected, r.selected) && r.files <= r'.files
  }

  /** What every add function keeps, whether or not it accepts its value. */
  lemma AddKeeps(libc: Libc, r: Reading, s: Setting)
    requires Sound(r.node, r.selected, r.files)
    ensures var (r', ok) := AddSetting(libc, r, s);
      Grows(r, r') && (ok ==> Sound(r'.node, r'.selected, r'.files))
  {
    hide Spans, Aton, Number, Sound, Grows, AddMac, AddSysfs;
    NothingKept(r);
    var (r', ok) := AddSetting(libc, r, s);
    if s.Mac? {
      AddMacKeeps(r, s.text);
    } else if s.Sysfs? {
      AddSysfsKeeps(r, s.file, s.text);
    } else if ok {
      OneMoreKept(r, r', SelectorOf(s));
    }
  }

  lemma NothingKept(r: Reading)
    requires Sound(r.node, r.selected, r.files)
    ensures Grows(r, r)
  {
  }

  lemma OneMoreKept(r: Reading, r': Reading, i: nat)
    requires Sound(r.node, r.selected, r.files)
    requires i < SELECT_NUM && i != SELECT_MAC && i != SELECT_SYSFS
    requires r'.node.active == r.node.active[i := 1] && r'.selected == r.selected[i := 1]
    requires r'.node.sysfs == r.node.sysfs && r'.files == r.files
    ensures Grows(r, r') && Sound(r'.node, r'.selected, r'.files)
  {
  }

  /** A filter, once in use, is never given up for an exact address. */
  lemma AddMacKeeps(r: Reading, text: CString)
    requires Sound(r.node, r.selected, r.files)
    ensures var (r', ok) := AddMac(r, text);
      Grows(r, r') && (ok ==> Sound(r'.node, r'.selected, r'.files))
  {
    hide Spans, Aton;
  }

  lemma AddSysfsKeeps(r: Reading, file: Option<CString>, text: CString)
    requires Sound(r.node, r.selected, r.files)
    ensures var (r', ok) := AddSysfs(r, file, text);
      Grows(r, r') && (ok ==> Sound(r'.node, r'.selected, r'.files))
  {
    var (r', ok) := AddSysfs(r, file, text);
    if ok {
      assert r'.node.sysfs[FileIndex(r.files, file.value)].Some?;
    }
  }

  lemma {:induction false} SettingsKeep(libc: Libc, r: Reading, settings: seq<Setting>, i: nat)
    requires i <= |settings| && Sound(r.node, r.selected, r.files)
    ensures var (r', ok) := AddSettings(libc, r, settings, i);
      Grows(r, r') && (ok ==> Sound(r'.node, r'.selected, r'.files))
    decreases |settings| - i
  {
    hide AddSetting, Sound;
    if i < |settings| {
      AddKeeps(libc, r, settings[i]);
      var (r', ok) := AddSetting(libc, r, settings[i]);
      if ok {
        SettingsKeep(libc, r', settings, i + 1);
      }
    }
  }

  /** More selectors and more files do not hurt a mapping already listed. */
  lemma SoundGrows(m: Mapping, r: Reading, r': Reading)
    requires Sound(m, r.selected, r.files) && Grows(r, r')
    ensures Sound(m, r'.selected, r'.files)
  {
  }

  /** Every line, accepted or refused, keeps the invariant. */
  lemma LineKeeps(libc: Libc, g: Globals, line: Line)
    requires Invariant(g)
    ensures Invariant(ReadLine(libc, g, line))
  {
    hide AddSettings, Sound;
    if !TooLong(line.name) {
      var r := Reading(Named(line.name), g.selected, g.files);
      NamedSound(line.name, g.selected, g.files);
      SettingsKeep(libc, r, line.settings, 0);
      var (r', ok) := AddSettings(libc, r, line.settings, 0);
      forall m | m in g.list ensures Sound(m, r'.selected, r'.files) {
        SoundGrows(m, r, r');
      }
    }
  }

  lemma NamedSound(name: string, selected: Flags, files: Files)
    ensures Sound(Named(name), selected, files)
  {
  }

  /** Every configuration gives a sound list. */
  lemma {:induction false} LinesKeep(libc: Libc, lines: seq<Line>)
    ensures Invariant(ReadLines(libc, lines))
  {
    if lines == [] {
    } else {
      LinesKeep(libc, lines[..|lines| - 1]);
      LineKeeps(libc, ReadLines(libc, lines[..|lines| - 1]), lines[|lines| - 1]);
    }
  }

  // ---- what extraction learns

  /** Every value the target claims to know is the system's answer, and answers come in whole. */
  predicate Known(k: Kernel, files: Files, ifname: string, t: Mapping) {
    var a := t.active;
    && t.ifname == ifname
    && a[SELECT_ETHADDR] == a[SELECT_LINKTYPE] == a[SELECT_INTERRUPT] == 0
    && (a[SELECT_MAC] != 0 <==> a[SELECT_ARP] != 0)
    && (a[SELECT_MAC] != 0 ==>
      k.hwaddr.Some? && t.mac == k.hwaddr.value.Bytes() && t.hwType == k.hwaddr.value.family)
    && (a[SELECT_DRIVER] != 0 <==> a[SELECT_BUSINFO] != 0) && (a[SELECT_DRIVER] != 0 <==> a[SELECT_FIRMWARE] != 0)
    && (a[SELECT_DRIVER] != 0 ==> k.drvinfo == Some(DrvInfo(t.driver, t.busInfo, t.fwVersion)))
    && (a[SELECT_IRQ] != 0 ==> k.ifmap.Some? && t.irq == k.ifmap.value.irq)
    && (a[SELECT_BASEADDR] != 0 <==> a[SELECT_IRQ] != 0 && k.ifmap.value.baseAddr >= 0x100)
    && (a[SELECT_BASEADDR] != 0 ==> t.baseAddr == k.ifmap.value.baseAddr)
    && (a[SELECT_IWPROTO] != 0 ==> k.wireless == Some(t.iwproto))
    && (a[SELECT_PCMCIASLOT] != 0 ==> k.slot == Some(t.pcmciaSlot))
    && SysfsKnown(k, files, t)
  }

  predicate SysfsKnown(k: Kernel, files: Files, t: Mapping) {
    forall n :: 0 <= n < |files| && t.sysfs[n].Some? ==> t.sysfs[n] == k.sysfs(files[n])
  }

  predicate SysfsAll(k: Kernel, files: Files, t: Mapping) {
    forall n :: 0 <= n < |files| ==> t.sysfs[n] == k.sysfs(files[n])
  }

  /** The system has an answer for a selector. */
  predicate Available(k: Kernel, files: Files, i: nat) {
    if i == SELECT_MAC || i == SELECT_ARP then k.hwaddr.Some?
    else if SELECT_DRIVER <= i <= SELECT_FIRMWARE then k.drvinfo.Some?
    else if i == SELECT_BASEADDR then k.ifmap.Some? && k.ifmap.value.baseAddr >= 0x100
    else if i == SELECT_IRQ then k.ifmap.Some?
    else if i == SELECT_IWPROTO then k.wireless.Some?
    else if i == SELECT_PCMCIASLOT then k.slot.Some?
    else if i == SELECT_SYSFS then exists n :: 0 <= n < |files| && k.sysfs(files[n]).Some?
    else i == SELECT_PREVNAME
  }

  predicate HasText(k: Kernel, t: Mapping) {
    k.hwaddr.Some? ==> t.macFilter == MacText(k.hwaddr.value.Bytes())
  }

  /** The selectors below i that have a flag are known, if the system has an answer for them. */
  predicate Learned(k: Kernel, files: Files, flags: Flags, t: Mapping, i: nat) {
    (forall j :: 0 <= j < i && j < SELECT_NUM && flags[j] != 0 && Available(k, files, j) ==> t.active[j] != 0) &&
    (0 < i && flags[SELECT_MAC] == HAS_MAC_FILTER ==> HasText(k, t)) &&
    (SELECT_SYSFS < i && flags[SELECT_SYSFS] != 0 ==> SysfsAll(k, files, t))
  }

  lemma {:induction false} SysfsLearns(k: Kernel, files: Files, t: Mapping, i: nat)
    requires i <= |files| && SysfsKnown(k, files, t)
    requires forall n :: 0 <= n < i ==> t.sysfs[n] == k.sysfs(files[n])
    requires forall n :: 0 <= n < i && k.sysfs(files[n]).Some? ==> t.active[SELECT_SYSFS] != 0
    ensures var t' := GetSysfs(k, files, t, i);
      && t' == t.(sysfs := t'.sysfs, active := t.active[SELECT_SYSFS := t'.active[SELECT_SYSFS]])
      && (t.active[SELECT_SYSFS] != 0 ==> t'.active[SELECT_SYSFS] != 0)
      && SysfsKnown(k, files, t') && SysfsAll(k, files, t')
      && (Available(k, files, SELECT_SYSFS) ==> t'.active[SELECT_SYSFS] != 0)
    decreases |files| - i
  {
    if i < |files| {
      var t' := if k.sysfs(files[i]).None? then t
                else t.(sysfs := t.sysfs[i := k.sysfs(files[i])], active := t.active[SELECT_SYSFS := 1]);
      SysfsLearns(k, files, t', i + 1);
    }
  }

  /** From one target to another: what is known stays known and true, and selector i is asked. */
  predicate Improves(k: Kernel, files: Files, ifname: string, t: Mapping, t': Mapping, i: nat)
    requires i < SELECT_NUM
  {
    && Known(k, files, ifname, t')
    && (forall j :: 0 <= j < SELECT_NUM && t.active[j] != 0 ==> t'.active[j] != 0)
    && (Available(k, files, i) ==> t'.active[i] != 0)
    && (HasText(k, t) ==> HasText(k, t'))
    && (SysfsAll(k, files, t) || i == SELECT_SYSFS ==> SysfsAll(k, files, t'))
  }

  lemma SameSysfs(k: Kernel, files: Files, t: Mapping, t': Mapping)
    requires t.sysfs == t'.sysfs
    ensures SysfsKnown(k, files, t) ==> SysfsKnown(k, files, t')
    ensures SysfsAll(k, files, t) ==> SysfsAll(k, files, t')
  {
  }

  lemma MacImproves(k: Kernel, files: Files, verbose: bool, ifname: string, t: Mapping, flag: int, i: nat)
    requires i <= SELECT_LINKTYPE && flag != 0 && Known(k, files, ifname, t)
    ensures Improves(k, files, ifname, t, GetMac(k, verbose, t, flag), i)
    ensures flag == HAS_MAC_FILTER ==> HasText(k, GetMac(k, verbose, t, flag))
  {
    hide SysfsKnown, SysfsAll, MacText, HwAddr.Bytes;
    SameSysfs(k, files, t, GetMac(k, verbose, t, flag));
  }

  lemma DriverImproves(k: Kernel, files: Files, ifname: string, t: Mapping, i: nat)
    requires SELECT_DRIVER <= i <= SELECT_FIRMWARE && Known(k, files, ifname, t)
    ensures Improves(k, files, ifname, t, GetDriver(k, t), i)
  {
    hide SysfsKnown, SysfsAll, MacText, HwAddr.Bytes;
    SameSysfs(k, files, t, GetDriver(k, t));
  }

  lemma BaseIrqImproves(k: Kernel, files: Files, ifname: string, t: Mapping, i: nat)
    requires SELECT_BASEADDR <= i <= SELECT_INTERRUPT && Known(k, files, ifname, t)
    ensures Improves(k, files, ifname, t, GetBaseIrq(k, t), i)
  {
    hide SysfsKnown, SysfsAll, MacText, HwAddr.Bytes;
    SameSysfs(k, files, t, GetBaseIrq(k, t));
  }

  lemma {:induction false} SysfsImproves(k: Kernel, files: Files, ifname: string, t: Mapping)
    requires Known(k, files, ifname, t)
    ensures Improves(k, files, ifname, t, GetSysfs(k, files, t, 0), SELECT_SYSFS)
  {
    SysfsLearns(k, files, t, 0);
    hide SysfsKnown, SysfsAll, MacText, HwAddr.Bytes, GetSysfs, Available;
  }

  /** One get function adds true knowledge and forgets none. */
  lemma GetImproves(k: Kernel, files: Files, verbose: bool, ifname: string, t: Mapping, i: nat, flag: int)
    requires i < SELECT_NUM && flag != 0 && Known(k, files, ifname, t)
    ensures var t' := Get(k, files, verbose, t, i, flag);
      && Improves(k, files, ifname, t, t', i)
      && (i == SELECT_MAC && flag == HAS_MAC_FILTER ==> HasText(k, t'))
  {
    hide GetMac, GetDriver, GetBaseIrq, GetSysfs, HasText, HwAddr.Bytes, SysfsKnown, SysfsAll;
    if i <= SELECT_LINKTYPE {
      MacImproves(k, files, verbose, ifname, t, flag, i);
    } else if i <= SELECT_FIRMWARE {
      DriverImproves(k, files, ifname, t, i);
    } else if i <= SELECT_INTERRUPT {
      BaseIrqImproves(k, files, ifname, t, i);
    } else if i == SELECT_SYSFS {
      SysfsImproves(k, files, ifname, t);
    } else {
      OwnImproves(k, files, verbose, ifname, t, i, flag);
    }
  }

  lemma OwnImproves(k: Kernel, files: Files, verbose: bool, ifname: string, t: Mapping, i: nat, flag: int)
    requires i in {SELECT_IWPROTO, SELECT_PCMCIASLOT, SELECT_PREVNAME} && Known(k, files, ifname, t)
    ensures Improves(k, files, ifname, t, Get(k, files, verbose, t, i, flag), i)
  {
    hide SysfsKnown, SysfsAll, MacText, HwAddr.Bytes;
    SameSysfs(k, files, t, Get(k, files, verbose, t, i, flag));
  }

  /** After one round of the loop, one more selector is learned. */
  lemma LearnsOne(k: Kernel, files: Files, verbose: bool, flags: Flags, ifname: string, t: Mapping, i: nat)
    requires i < SELECT_NUM && Known(k, files, ifname, t) && Learned(k, files, flags, t, i)
    ensures var t' := if flags[i] != 0 then Get(k, files, verbose, t, i, flags[i]) else t;
      Known(k, files, ifname, t') && Learned(k, files, flags, t', i + 1)
  {
    hide Get, Known, HasText, SysfsAll, Available;
    if flags[i] != 0 {
      GetImproves(k, files, verbose, ifname, t, i, flags[i]);
    }
  }

  lemma {:induction false} ExtractLearns(k: Kernel, files: Files, verbose: bool, flags: Flags, ifname: string,
      t: Mapping, i: nat)
    requires i <= SELECT_NUM && Known(k, files, ifname, t) && Learned(k, files, flags, t, i)
    ensures var t' := Extract(k, files, verbose, flags, t, i);
      Known(k, files, ifname, t') && Learned(k, files, flags, t', SELECT_NUM)
    decreases SELECT_NUM - i
  {
    if i < SELECT_NUM {
      LearnsOne(k, files, verbose, flags, ifname, t, i);
      hide Get, Known, Learned;
      var next := if flags[i] != 0 then Get(k, files, verbose, t, i, flags[i]) else t;
      ExtractLearns(k, files, verbose, flags, ifname, next, i + 1);
    }
  }

  /** Comparing with what was learned is asking the system directly. */
  lemma ComparesMeets(libc: Libc, k: Kernel, files: Files, flags: Flags, ifname: string, m: Mapping, t: Mapping, i: nat)
    requires i < SELECT_NUM && m.active[i] != 0 && Sound(m, flags, files)
    requires Known(k, files, ifname, t) && Learned(k, files, flags, t, SELECT_NUM)
    ensures t.active[i] != 0 && Compares(libc, files, m, t, i) <==> Meets(libc, k, files, ifname, m, i)
  {
  }
}
