/** The mappings of ifrename as the program keeps them: records filled in place, and its globals. */
module IfRename {
  import opened Basics
  import opened Text
  import opened MacCodec
  import opened Mapping
  import opened MappingFind
  import opened ConfigText
  import Spec = Mapping
  import IfName

  /** The text that iw_mac_ntop leaves in a filter. */
  method MacAscii(mac: seq<byte>) returns (text: string)
    requires 1 <= |mac| <= MAX_MAC_LEN
    ensures text == MacText(mac)
  {
    hide MacText;
    var buf := new char[MAC_FILTER_SIZE];
    var printed := MacNtop(mac, |mac|, buf, MAC_FILTER_SIZE);
    assert mac[..|mac|] == mac;
    text := buf[..3 * |mac| - 1];
  }

  /** The address that iw_mac_aton reads into a mapping, and its length, zero when there is none. */
  method ParseMac(text: CString) returns (mac: seq<byte>, len: nat)
    ensures |mac| == len && (len != 0 <==> Aton(text, 0, MAX_MAC_LEN, []).0)
    ensures len != 0 ==> mac == Aton(text, 0, MAX_MAC_LEN, []).1
  {
    AtonExact(text, MAX_MAC_LEN);
    var buf := new byte[MAX_MAC_LEN];
    len := MacAton(text, buf, MAX_MAC_LEN);
    mac := buf[..len];
  }

  /** struct if_mapping; the mappings of the configuration are kept in a sequence. */
  class IfMapping {
    var ifname: string
    var active: Flags
    var mac: seq<byte>
    var macFilter: string
    var hwType: u16
    var driver: string
    var busInfo: string
    var fwVersion: string
    var baseAddr: u16
    var irq: byte
    var iwproto: string
    var pcmciaSlot: int
    var sysfs: SysfsValues
    var prevname: string

    ghost function View(): Mapping
      reads this
    {
      Mapping(ifname, active, mac, macFilter, hwType, driver, busInfo, fwVersion, baseAddr, irq, iwproto,
        pcmciaSlot, sysfs, prevname)
    }

    constructor (name: string)
      ensures View() == Named(name)
    {
      ifname := name;
      active, mac, macFilter, hwType := NO_FLAGS, [], "", 0;
      driver, busInfo, fwVersion, baseAddr, irq := "", "", "", 0, 0;
      iwproto, pcmciaSlot, prevname := "", 0, "";
      sysfs := [None, None, None, None, None, None, None, None];
    }

    // ---- extraction

    /** mapping_getmac */
    method GetMac(k: Kernel, verbose: bool, flag: int)
      modifies this
      ensures View() == Spec.GetMac(k, verbose, old(View()), flag)
    {
      hide MacText;
      if k.hwaddr.None? {
        return;
      }
      hwType := k.hwaddr.value.family;
      var macLen := 6;
      if hwType == 24 || hwType == 27 {
        macLen := 8;
      } else if hwType == 783 {
        macLen := 4;
      }
      mac := k.hwaddr.value.data[..macLen];
      if flag == HAS_MAC_FILTER || verbose {
        macFilter := MacAscii(mac);
      }
      active := active[SELECT_MAC := flag][SELECT_ARP := 1];
    }

    /** mapping_getarp */
    method GetArp(k: Kernel, verbose: bool, flag: int)
      modifies this
      ensures View() == if old(active[SELECT_MAC]) != 0 then old(View()) else Spec.GetMac(k, verbose, old(View()), flag)
    {
      if active[SELECT_MAC] != 0 {
        return;
      }
      GetMac(k, verbose, flag);
    }

    /** mapping_getdriverbusinfo */
    method GetDriverBusInfo(k: Kernel)
      modifies this
      ensures View() == GetDriver(k, old(View()))
    {
      if active[SELECT_DRIVER] != 0 || active[SELECT_BUSINFO] != 0 || active[SELECT_FIRMWARE] != 0 {
        return;
      }
      if k.drvinfo.None? {
        return;
      }
      driver, busInfo, fwVersion := k.drvinfo.value.driver, k.drvinfo.value.busInfo, k.drvinfo.value.fwVersion;
      active := active[SELECT_DRIVER := 1][SELECT_BUSINFO := 1][SELECT_FIRMWARE := 1];
    }

    /** mapping_getbaseaddrirq */
    method GetBaseAddrIrq(k: Kernel)
      modifies this
      ensures View() == GetBaseIrq(k, old(View()))
    {
      if active[SELECT_BASEADDR] != 0 || active[SELECT_IRQ] != 0 {
        return;
      }
      if k.ifmap.None? {
        return;
      }
      if k.ifmap.value.baseAddr >= 0x100 {
        baseAddr := k.ifmap.value.baseAddr;
        active := active[SELECT_BASEADDR := 1];
      }
      irq := k.ifmap.value.irq;
      active := active[SELECT_IRQ := 1];
    }

    /** The loop of mapping_getsysfs over the files. */
    method GetSysfsValues(k: Kernel, files: Files)
      modifies this
      ensures View() == GetSysfs(k, files, old(View()), 0)
    {
      var findex := 0;
      while findex < |files|
        invariant findex <= |files| && GetSysfs(k, files, View(), findex) == GetSysfs(k, files, old(View()), 0)
      {
        var answer := k.sysfs(files[findex]);
        if answer.Some? {
          sysfs := sysfs[findex := answer];
          active := active[SELECT_SYSFS := 1];
        }
        findex := findex + 1;
      }
    }

    /** The get function of selector i. */
    method GetSelector(k: Kernel, files: Files, verbose: bool, i: nat, flag: int)
      requires i < SELECT_NUM
      modifies this
      ensures View() == Get(k, files, verbose, old(View()), i, flag)
    {
      hide Spec.GetMac, GetDriver, GetBaseIrq, GetSysfs;
      if i <= SELECT_ETHADDR {
        GetMac(k, verbose, flag);
      } else if i <= SELECT_LINKTYPE {
        GetArp(k, verbose, flag);
      } else if i <= SELECT_FIRMWARE {
        GetDriverBusInfo(k);
      } else if i <= SELECT_INTERRUPT {
        GetBaseAddrIrq(k);
      } else if i == SELECT_IWPROTO {
        if k.wireless.Some? {
          iwproto := k.wireless.value;
          active := active[i := 1];
        }
      } else if i == SELECT_PCMCIASLOT {
        if k.slot.Some? {
          pcmciaSlot := k.slot.value;
          active := active[i := 1];
        }
      } else if i == SELECT_SYSFS {
        GetSysfsValues(k, files);
      } else {
        active := active[i := 1];
      }
    }
  }

  ghost function Views(list: seq<IfMapping>): seq<Mapping>
    reads list
  {
    if list == [] then [] else [list[0].View()] + Views(list[1..])
  }

  lemma {:induction false} ViewsAt(list: seq<IfMapping>, i: nat)
    requires i <= |list|
    ensures |Views(list)| == |list|
    ensures i < |list| ==> Views(list)[i] == list[i].View()
    ensures Views(list[i..]) == Views(list)[i..]
  {
    if i > 0 {
      ViewsAt(list[1..], i - 1);
      assert list[1..][i - 1..] == list[i..];
    } else if list != [] {
      ViewsAt(list[1..], 0);
    }
  }

  /** The program: its mappings, newest first, the selectors in use, and the sysfs files. */
  class Program {
    const libc: Libc
    var list: seq<IfMapping>
    var selectorActive: Flags
    var files: Files

    ghost function State(): Globals
      reads this, list
    {
      Globals(Views(list), selectorActive, files)
    }

    ghost function Reads(node: IfMapping): Reading
      reads this, node
    {
      Reading(node.View(), selectorActive, files)
    }

    constructor (libc: Libc)
      ensures this.libc == libc && State() == START && list == []
    {
      this.libc := libc;
      list, selectorActive, files := [], NO_FLAGS, [];
    }

    /** mapping_addmac */
    method AddMac(node: IfMapping, text: CString) returns (ok: bool)
      modifies this`selectorActive, node
      ensures (Reads(node), ok) == Spec.AddMac(old(Reads(node)), text)
    {
      if |text| >= MAC_FILTER_SIZE {
        return false;
      }
      if !Spans(text, "0123456789ABCDEFabcdef:*") {
        return false;
      }
      hide Spans, Aton;
      node.macFilter := text;
      if '*' in text {
        node.active := node.active[SELECT_MAC := HAS_MAC_FILTER];
        selectorActive := selectorActive[SELECT_MAC := HAS_MAC_FILTER];
      } else {
        var len: nat;
        node.mac, len := ParseMac(text);
        if len == 0 {
          return false;
        }
        node.active := node.active[SELECT_MAC := HAS_MAC_EXACT];
        if selectorActive[SELECT_MAC] == 0 {
          selectorActive := selectorActive[SELECT_MAC := HAS_MAC_EXACT];
        }
      }
      return true;
    }

    /** mapping_addsysfs */
    method AddSysfs(node: IfMapping, file: Option<CString>, text: CString) returns (ok: bool)
      modifies this`selectorActive, this`files, node
      ensures (Reads(node), ok) == Spec.AddSysfs(old(Reads(node)), file, text)
    {
      if file.None? {
        return false;
      }
      var findex := 0;
      while findex < |files|
        invariant findex <= |files| && FileIndex(files, file.value) == findex + FileIndex(files[findex..], file.value)
      {
        if files[findex] == file.value {
          break;
        }
        assert files[findex..][1..] == files[findex + 1..];
        findex := findex + 1;
      }
      if findex == |files| {
        if findex == SYSFS_MAX_FILE {
          return false;
        }
        files := files + [file.value];
      }
      node.sysfs := node.sysfs[findex := Some(text)];
      node.active := node.active[SELECT_SYSFS := 1];
      selectorActive := selectorActive[SELECT_SYSFS := 1];
      return true;
    }

    method Activate(node: IfMapping, i: nat)
      requires i < SELECT_NUM
      modifies this`selectorActive, node`active
      ensures Reads(node) == Spec.Activate(old(Reads(node)), old(node.View()), i)
    {
      node.active := node.active[i := 1];
      selectorActive := selectorActive[i := 1];
    }

    /** The add function of a setting's selector. */
    method AddSetting(node: IfMapping, s: Setting) returns (ok: bool)
      modifies this`selectorActive, this`files, node
      ensures (Reads(node), ok) == Spec.AddSetting(libc, old(Reads(node)), s)
    {
      hide Number, Spec.AddMac, Spec.AddSysfs;
      match s
      case Mac(text) =>
        ok := AddMac(node, text);
      case Sysfs(file, text) =>
        ok := AddSysfs(node, file, text);
      case Malformed =>
        ok := false;
      case Arp(text) =>
        ok := AddArp(node, text);
      case Driver(text) =>
        ok := AddDriver(node, text);
      case BusInfo(text) =>
        ok := AddBusInfo(node, text);
      case Firmware(text) =>
        ok := AddFirmware(node, text);
      case BaseAddr(text) =>
        ok := AddBaseAddr(node, text);
      case Irq(text) =>
        ok := AddIrq(node, text);
      case IwProto(text) =>
        ok := AddIwProto(node, text);
      case PcmciaSlot(text) =>
        ok := AddPcmciaSlot(node, text);
      case PrevName(text) =>
        ok := AddPrevName(node, text);
    }

    /** mapping_addarp */
    method AddArp(node: IfMapping, text: CString) returns (ok: bool)
      modifies this`selectorActive, node
      ensures (Reads(node), ok) == Spec.AddSetting(libc, old(Reads(node)), Arp(text))
    {
      hide Spans;
      if !Spans(text, "0123456789") {
        return false;
      }
      var n := libc.decimal(text);
      if n.None? {
        return false;
      }
      node.hwType := n.value % 0x1_0000;
      Activate(node, SELECT_ARP);
      return true;
    }

    /** mapping_adddriver */
    method AddDriver(node: IfMapping, text: CString) returns (ok: bool)
      modifies this`selectorActive, node
      ensures (Reads(node), ok) == Spec.AddSetting(libc, old(Reads(node)), Driver(text))
    {
      if |text| >= 32 {
        return false;
      }
      node.driver := text;
      Activate(node, SELECT_DRIVER);
      return true;
    }

    /** mapping_addbusinfo */
    method AddBusInfo(node: IfMapping, text: CString) returns (ok: bool)
      modifies this`selectorActive, node
      ensures (Reads(node), ok) == Spec.AddSetting(libc, old(Reads(node)), BusInfo(text))
    {
      if |text| >= 32 {
        return false;
      }
      node.busInfo := text;
      Activate(node, SELECT_BUSINFO);
      return true;
    }

    /** mapping_addfirmware */
    method AddFirmware(node: IfMapping, text: CString) returns (ok: bool)
      modifies this`selectorActive, node
      ensures (Reads(node), ok) == Spec.AddSetting(libc, old(Reads(node)), Firmware(text))
    {
      if |text| >= 32 {
        return false;
      }
      node.fwVersion := text;
      Activate(node, SELECT_FIRMWARE);
      return true;
    }

    /** mapping_addbaseaddr */
    method AddBaseAddr(node: IfMapping, text: CString) returns (ok: bool)
      modifies this`selectorActive, node
      ensures (Reads(node), ok) == Spec.AddSetting(libc, old(Reads(node)), BaseAddr(text))
    {
      hide Spans;
      if !Spans(text, "0123456789ABCDEFabcdefx") {
        return false;
      }
      var n := libc.hexadecimal(text);
      if n.None? {
        return false;
      }
      node.baseAddr := n.value % 0x1_0000;
      Activate(node, SELECT_BASEADDR);
      return true;
    }

    /** mapping_addirq */
    method AddIrq(node: IfMapping, text: CString) returns (ok: bool)
      modifies this`selectorActive, node
      ensures (Reads(node), ok) == Spec.AddSetting(libc, old(Reads(node)), Irq(text))
    {
      hide Spans;
      if !Spans(text, "0123456789") {
        return false;
      }
      var n := libc.decimal(text);
      if n.None? {
        return false;
      }
      node.irq := n.value % 0x100;
      Activate(node, SELECT_IRQ);
      return true;
    }

    /** mapping_addiwproto */
    method AddIwProto(node: IfMapping, text: CString) returns (ok: bool)
      modifies this`selectorActive, node
      ensures (Reads(node), ok) == Spec.AddSetting(libc, old(Reads(node)), IwProto(text))
    {
      if |text| >= IFNAMSIZ + 1 {
        return false;
      }
      node.iwproto := text;
      Activate(node, SELECT_IWPROTO);
      return true;
    }

    /** mapping_addpcmciaslot */
    method AddPcmciaSlot(node: IfMapping, text: CString) returns (ok: bool)
      modifies this`selectorActive, node
      ensures (Reads(node), ok) == Spec.AddSetting(libc, old(Reads(node)), PcmciaSlot(text))
    {
      hide Spans;
      if !Spans(text, "0123456789") {
        return false;
      }
      var n := libc.decimal(text);
      if n.None? {
        return false;
      }
      node.pcmciaSlot := n.value;
      Activate(node, SELECT_PCMCIASLOT);
      return true;
    }

    /** mapping_addprevname */
    method AddPrevName(node: IfMapping, text: CString) returns (ok: bool)
      modifies this`selectorActive, node
      ensures (Reads(node), ok) == Spec.AddSetting(libc, old(Reads(node)), PrevName(text))
    {
      if |text| >= IFNAMSIZ + 1 {
        return false;
      }
      node.prevname := text;
      Activate(node, SELECT_PREVNAME);
      return true;
    }

    /** The selector loop of mapping_readfile: the last result, or -13 when there was no selector. */
    method ReadSelectors(node: IfMapping, text: CString) returns (ret: int)
      modifies this`selectorActive, this`files, node
      ensures var (r, ok) := AddSettings(libc, old(Reads(node)), Settings(text), 0);
        Reads(node) == r && ret == if text == [] then -13 else if ok then 0 else -1
    {
      hide Spec.AddSetting, NextSetting, Settings;
      ghost var settings, i := Settings(text), 0;
      var p := text;
      ret := -13;
      SettingsStep(p);
      while p != []
        invariant i <= |settings| && Settings(p) == settings[i..]
        invariant p == [] ==> i == |settings|
        invariant ret == if i == 0 then -13 else 0
        invariant i == 0 ==> p == text
        invariant AddSettings(libc, Reads(node), settings, i) == AddSettings(libc, old(Reads(node)), settings, 0)
        decreases |p|
      {
        SettingsStep(p);
        var next := ReadSelector(p);
        if next.None? {
          MalformedRefused(libc, Reads(node), settings, i);
          return -1;
        }
        var (setting, rest) := next.value;
        var ok := AddSetting(node, setting);
        if !ok {
          return -1;
        }
        ret, p, i := 0, rest, i + 1;
        SettingsStep(p);
      }
    }

    /** One line of mapping_readfile. */
    method ReadLine(linebuf: CString)
      modifies this
      ensures State() == ReadText(libc, old(State()), linebuf)
      ensures forall m :: m in list ==> m in old(list) || fresh(m)
    {
      hide AddSettings, Settings, TooLong, ReadText, DropBlank, SkipSpace, Cspn;
      TextRead(libc, State(), linebuf);
      var text := linebuf[..Cspn(linebuf, "#")];
      var p := text[SkipSpace(text, 0)..];
      if p == [] {
        return;
      }
      var n := Cspn(p, BLANK);
      if TooLong(p[..n]) {
        return;
      }
      ghost var before := State();
      var node := new IfMapping(p[..n]);
      p := DropBlank(p[n..]);
      var ret := ReadSelectors(node, p);
      if ret >= 0 {
        assert ([node] + list)[1..] == list;
        list := [node] + list;
      }
    }

    /** mapping_readfile, on the text of the file. */
    method ReadFile(text: CString)
      requires State() == START
      modifies this
      ensures State() == ReadLines(libc, Config(text))
    {
      hide Spec.ReadLine, ReadText, FirstLine, ParseLine;
      var p := text;
      ghost var done: seq<Line> := [];
      while p != []
        invariant Config(text) == done + Config(p)
        invariant State() == ReadLines(libc, done)
        decreases |p|
      {
        var linebuf := FirstLine(p);
        ReadLine(linebuf);
        ReadTextStep(libc, done, linebuf);
        done := done + if ParseLine(linebuf).Some? then [ParseLine(linebuf).value] else [];
        p := p[|linebuf|..];
      }
      assert done + [] == done;
    }

    /** mapping_extract */
    method ExtractTarget(k: Kernel, verbose: bool, ifname: string) returns (target: IfMapping)
      ensures fresh(target)
      ensures target.View() == Extract(k, files, verbose, selectorActive, Named(ifname), 0)
    {
      hide Get;
      target := new IfMapping(ifname);
      var i := 0;
      while i < SELECT_NUM
        invariant i <= SELECT_NUM && fresh(target)
        invariant Extract(k, files, verbose, selectorActive, target.View(), i)
                  == Extract(k, files, verbose, selectorActive, Named(ifname), 0)
      {
        if selectorActive[i] != 0 {
          target.GetSelector(k, files, verbose, i, selectorActive[i]);
        }
        i := i + 1;
      }
    }

    /** mapping_find; null when nothing matches. */
    method Find(target: IfMapping) returns (found: IfMapping?)
      ensures var n := First(libc, files, Views(list), target.View());
        && |Views(list)| == |list|
        && found == if n < |list| then list[n] else null
    {
      hide Matches;
      ViewsAt(list, 0);
      var at := 0;
      while at < |list|
        invariant at <= |list|
        invariant First(libc, files, Views(list), target.View()) ==
            at + First(libc, files, Views(list[at..]), target.View())
      {
        assert list[at..][0] == list[at] && list[at..][1..] == list[at + 1..];
        var matches := AllMatch(list[at], target);
        if matches {
          return list[at];
        }
        at := at + 1;
      }
      return null;
    }

    /** Asking about an interface and finding its mapping, and the line that gave it. */
    method Lookup(k: Kernel, verbose: bool, ifname: string, ghost lines: seq<Line>)
      returns (mapping: IfMapping?, ghost n: nat)
      requires State() == ReadLines(libc, lines)
      ensures mapping == null ==> NoneHolds(libc, k, ifname, lines)
      ensures mapping != null ==>
        && mapping in list && LastHolding(libc, k, ifname, lines, n)
        && Accepted(libc, lines, n) == Some(mapping.View()) && mapping.ifname == lines[n].name
    {
      ListCovered(libc, lines);
      hide ReadLines, Extract, First, NoneHolds, LastHolding, Accepted, Covers, Answers;
      var target := ExtractTarget(k, verbose, ifname);
      mapping := Find(target);
      ghost var g, i := State(), First(libc, files, Views(list), target.View());
      assert Answers(libc, k, ifname, lines, g.list, i) by {
        FoundIsLastHolding(libc, k, verbose, lines, selectorActive, ifname);
      }
      ViewsAt(list, i);
      n := Answer(libc, k, ifname, lines, g.list, i);
    }

    /**
      process_ifname up to the renaming: the mapping of the last accepted line that holds of the interface,
      and null when there is none, or when a new name was asked for and is not one that the line gives.
     */
    method ProcessIfname(k: Kernel, verbose: bool, ifname: string, newName: Option<CString>, ghost lines: seq<Line>)
      returns (mapping: IfMapping?)
      requires State() == ReadLines(libc, lines)
      ensures mapping != null ==>
        && mapping in list
        && exists n: nat :: LastHolding(libc, k, ifname, lines, n) && Gives(lines, n, newName)
                            && Accepted(libc, lines, n) == Some(mapping.View()) && mapping.ifname == lines[n].name
      ensures mapping == null ==>
        || NoneHolds(libc, k, ifname, lines)
        || exists n: nat :: LastHolding(libc, k, ifname, lines, n) && !Gives(lines, n, newName)
    {
      hide ReadLines, NoneHolds, LastHolding, Accepted;
      ghost var n;
      mapping, n := Lookup(k, verbose, ifname, lines);
      if mapping == null {
        return;
      }
      LastHoldingInRange(libc, k, ifname, lines, n);
      if newName.Some? {
        var ret := IfName.IfMatchIfname(mapping.ifname, newName.value);
        if ret != 0 {
          return null;
        }
      }
    }

    /** The loop of mapping_find over the selectors of one mapping. */
    method AllMatch(ifnode: IfMapping, target: IfMapping) returns (matches: bool)
      ensures matches <==> Matches(libc, files, ifnode.View(), target.View())
    {
      hide Compares;
      matches := true;
      var i := 0;
      while i < SELECT_NUM
        invariant i <= SELECT_NUM && matches
        invariant forall j :: 0 <= j < i && ifnode.active[j] != 0 ==>
          target.active[j] != 0 && Compares(libc, files, ifnode.View(), target.View(), j)
      {
        if ifnode.active[i] != 0 {
          if target.active[i] == 0 {
            return false;
          }
          var same := CompareSelector(ifnode, target, i);
          if !same {
            return false;
          }
        }
        i := i + 1;
      }
    }

    /** The comparison function of selector i. */
    method CompareSelector(ifnode: IfMapping, target: IfMapping, i: nat) returns (same: bool)
      requires i < SELECT_NUM
      ensures same == Compares(libc, files, ifnode.View(), target.View(), i)
    {
      if i <= SELECT_ETHADDR {
        if ifnode.active[SELECT_MAC] == HAS_MAC_FILTER {
          return libc.fnmatch(ifnode.macFilter, target.macFilter);
        }
        return ifnode.mac == target.mac;
      } else if i <= SELECT_LINKTYPE {
        return ifnode.hwType == target.hwType;
      } else if i == SELECT_DRIVER {
        return libc.fnmatch(ifnode.driver, target.driver);
      } else if i == SELECT_BUSINFO {
        return libc.fnmatch(ifnode.busInfo, target.busInfo);
      } else if i == SELECT_FIRMWARE {
        return libc.fnmatch(ifnode.fwVersion, target.fwVersion);
      } else if i == SELECT_BASEADDR {
        return ifnode.baseAddr == target.baseAddr;
      } else if i <= SELECT_INTERRUPT {
        return ifnode.irq == target.irq;
      } else if i == SELECT_IWPROTO {
        return libc.fnmatch(ifnode.iwproto, target.iwproto);
      } else if i == SELECT_PCMCIASLOT {
        return ifnode.pcmciaSlot == target.pcmciaSlot;
      } else if i == SELECT_SYSFS {
        same := CompareSysfs(ifnode, target);
        return;
      } else {
        return libc.fnmatch(ifnode.prevname, target.ifname);
      }
    }

    /** mapping_cmpsysfs */
    method CompareSysfs(ifnode: IfMapping, target: IfMapping) returns (same: bool)
      ensures same == SysfsMatches(libc, files, ifnode.View(), target.View())
    {
      same := true;
      var findex := 0;
      while findex < |files|
        invariant findex <= |files|
        invariant same <==> forall i :: 0 <= i < findex && ifnode.sysfs[i].Some? ==>
          target.sysfs[i].Some? && libc.fnmatch(ifnode.sysfs[i].value, target.sysfs[i].value)
      {
        if ifnode.sysfs[findex].Some? {
          if target.sysfs[findex].None? || !libc.fnmatch(ifnode.sysfs[findex].value, target.sysfs[findex].value) {
            same := false;
          }
        }
        findex := findex + 1;
      }
    }
  }

  /** The name on a line matches the name asked for, if any. */
  predicate Gives(lines: seq<Line>, n: nat, newName: Option<CString>) {
    n < |lines| && (newName.Some? ==> IfName.MatchIfname(lines[n].name, newName.value) == 0)
  }

  /** The name of a line gives a new name: it is that name, or a number in place of its star makes it that name. */
  lemma {:induction false} GivesExactly(lines: seq<Line>, n: nat, newName: CString)
    requires n < |lines|
    ensures var name := lines[n].name;
      Gives(lines, n, Some(newName)) <==>
        if '*' in name then
          IfName.Instance(name, newName)
            && IfName.CharAt(name, IfName.Star(name, 0) + 1) !in "0123456789"
        else name == newName
  {
    var name := lines[n].name;
    hide IfName.MatchIfname, IfName.Instance;
    if IfName.Star(name, 0) < |name| {
      IfName.MatchesInstances(name, newName);
    } else {
      IfName.MatchesName(name, newName);
    }
  }

  lemma {:induction false} ListCovered(libc: Libc, lines: seq<Line>)
    ensures Covers(ReadLines(libc, lines).selected, ReadLines(libc, lines).selected)
  {
  }

  /** The line that an answer comes from. */
  lemma {:induction false} Answer(libc: Libc, k: Kernel, ifname: string, lines: seq<Line>, list: seq<Mapping>, i: nat)
    returns (n: nat)
    requires i <= |list| && Answers(libc, k, ifname, lines, list, i)
    ensures i == |list| ==> NoneHolds(libc, k, ifname, lines)
    ensures i < |list| ==>
      && LastHolding(libc, k, ifname, lines, n)
      && Accepted(libc, lines, n) == Some(list[i]) && list[i].ifname == lines[n].name
  {
    n := 0;
    if i < |list| {
      n :| && LastHolding(libc, k, ifname, lines, n)
           && Accepted(libc, lines, n) == Some(list[i]) && list[i].ifname == lines[n].name;
    }
  }

  lemma LastHoldingInRange(libc: Libc, k: Kernel, ifname: string, lines: seq<Line>, n: nat)
    requires LastHolding(libc, k, ifname, lines, n)
    ensures n < |lines|
  {
  }

  /** ifrename for one interface: the configuration is read, the interface asked about, and its mapping found. */
  method Resolve(libc: Libc, config: CString, k: Kernel, verbose: bool, ifname: string, newName: Option<CString>)
    returns (mapping: IfMapping?)
    ensures var lines := Config(config);
      && (mapping != null ==>
        exists n: nat :: LastHolding(libc, k, ifname, lines, n) && Gives(lines, n, newName)
                         && Accepted(libc, lines, n) == Some(mapping.View()) && mapping.ifname == lines[n].name)
      && (mapping == null ==>
        || NoneHolds(libc, k, ifname, lines)
        || exists n: nat :: LastHolding(libc, k, ifname, lines, n) && !Gives(lines, n, newName))
  {
    hide ReadLines, Accepted, NoneHolds, LastHolding, Config;
    var program := new Program(libc);
    program.ReadFile(config);
    mapping := program.ProcessIfname(k, verbose, ifname, newName, Config(config));
  }

  // ---- lines of text

  /** The state after a line of text; a blank line changes nothing. */
  function ReadText(libc: Libc, g: Globals, linebuf: CString): Globals {
    var line := ParseLine(linebuf);
    if line.None? then g else Spec.ReadLine(libc, g, line.value)
  }

  lemma {:induction false} ReadTextStep(libc: Libc, done: seq<Line>, linebuf: CString)
    ensures var more := if ParseLine(linebuf).Some? then [ParseLine(linebuf).value] else [];
      ReadText(libc, ReadLines(libc, done), linebuf) == ReadLines(libc, done + more)
  {
    hide ParseLine, Spec.ReadLine;
    if ParseLine(linebuf).Some? {
      var line := ParseLine(linebuf).value;
      assert (done + [line])[..|done|] == done;
    } else {
      assert done + [] == done;
    }
  }

  /** The cases of a line of text, by the steps that read it. */
  lemma {:induction false} TextRead(libc: Libc, g: Globals, linebuf: CString)
    ensures var p := Start(linebuf);
      var name, q := p[..Cspn(p, BLANK)], DropBlank(p[Cspn(p, BLANK)..]);
      var (r, ok) := AddSettings(libc, Reading(Named(name), g.selected, g.files), Settings(q), 0);
      ReadText(libc, g, linebuf) ==
        if p == [] || TooLong(name) then g
        else Globals(if ok && q != [] then [r.node] + g.list else g.list, r.selected, r.files)
  {
    hide AddSettings, Settings, TooLong, Start, DropBlank;
    SettingsStep(DropBlank(Start(linebuf)[Cspn(Start(linebuf), BLANK)..]));
  }

  lemma {:induction false} MalformedRefused(libc: Libc, r: Reading, settings: seq<Setting>, i: nat)
    requires i < |settings| && settings[i] == Malformed
    ensures AddSettings(libc, r, settings, i) == (r, false)
  {
  }

  lemma {:induction false} SettingsStep(p: CString)
    ensures p == [] ==> Settings(p) == []
    ensures p != [] ==>
      Settings(p) ==
        if NextSetting(p).None? then [Malformed] else [NextSetting(p).value.0] + Settings(NextSetting(p).value.1)
  {
    hide NextSetting;
  }
}
