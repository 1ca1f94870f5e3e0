/**
  Reference-counted device address lists, and the synchronisation of one device's
  multicast list with another's.
 */
module DevAddr {
  import opened Basics

  const ENOENT := 2
  const ENOMEM := 12

  /** da_addr (with its length), da_users and da_gusers. */
  datatype Entry = Entry(addr: seq<byte>, users: int, gusers: int)

  /** Where the first entry for an address is, or the length of the list. */
  function Index(list: seq<Entry>, addr: seq<byte>): (i: nat)
    ensures i <= |list|
    ensures i < |list| ==> list[i].addr == addr
    ensures forall j :: 0 <= j < i ==> list[j].addr != addr
  {
    if list == [] || list[0].addr == addr then 0 else 1 + Index(list[1..], addr)
  }

  predicate Listed(list: seq<Entry>, addr: seq<byte>) {
    Index(list, addr) < |list|
  }

  /** Addresses are listed once, and only while they have users. */
  predicate WellFormed(list: seq<Entry>) {
    && (forall i :: 0 <= i < |list| ==> 1 <= list[i].users && list[i].gusers in {0, 1})
    && (forall i, j :: 0 <= i < j < |list| ==> list[i].addr != list[j].addr)
  }

  function Lookup(list: seq<Entry>, addr: seq<byte>): Option<Entry> {
    if Listed(list, addr) then Some(list[Index(list, addr)]) else None
  }

  function AddTo(list: seq<Entry>, addr: seq<byte>, glbl: bool, granted: bool): (int, seq<Entry>) {
    var i := Index(list, addr);
    if i < |list| then
      var e := list[i];
      if glbl && e.gusers != 0 then (0, list[i := e.(gusers := 1)])
      else (0, list[i := Entry(addr, e.users + 1, if glbl then 1 else e.gusers)])
    else if granted then (0, [Entry(addr, 1, if glbl then 1 else 0)] + list)
    else (-ENOMEM, list)
  }

  function DeleteFrom(list: seq<Entry>, addr: seq<byte>, glbl: bool): (int, seq<Entry>) {
    var i := Index(list, addr);
    if i == |list| then (-ENOENT, list) else
    var e := list[i];
    if glbl && e.gusers == 0 then (-ENOENT, list)
    else if e.users == 1 then (0, list[..i] + list[i + 1..])
    else (0, list[i := Entry(addr, e.users - 1, if glbl then 0 else e.gusers)])
  }

  class AddrList {
    var list: seq<Entry>
    var count: int

    ghost predicate Valid()
      reads this
    {
      WellFormed(list) && count == |list|
    }

    constructor ()
      ensures Valid() && list == []
    {
      list, count := [], 0;
    }

    method Delete(addr: seq<byte>, glbl: bool) returns (err: int)
      requires Valid()
      modifies this
      ensures Valid() && (err, list) == DeleteFrom(old(list), addr, glbl)
    {
      DeleteEffect(list, addr, glbl, []);
      hide WellFormed, Lookup, Listed;
      ghost var before := list;
      var i := 0;
      while i < |list|
        invariant i <= |list| && list == before && count == old(count)
        invariant forall j :: 0 <= j < i ==> list[j].addr != addr
      {
        if list[i].addr == addr {
          assert Index(before, addr) == i;
          hide Index;
          if glbl {
            var oldGlbl := list[i].gusers;
            list := list[i := list[i].(gusers := 0)];
            if oldGlbl == 0 {
              assert list == before;
              break;
            }
          }
          list := list[i := list[i].(users := list[i].users - 1)];
          assert list == before[i := Entry(addr, before[i].users - 1, if glbl then 0 else before[i].gusers)];
          if list[i].users != 0 {
            return 0;
          }
          list := list[..i] + list[i + 1..];
          assert list == before[..i] + before[i + 1..];
          count := count - 1;
          return 0;
        }
        i := i + 1;
      }
      return -ENOENT;
    }

    method Add(addr: seq<byte>, glbl: bool, granted: bool) returns (err: int)
      requires Valid()
      modifies this
      ensures Valid() && (err, list) == AddTo(old(list), addr, glbl, granted)
    {
      AddEffect(list, addr, glbl, granted, []);
      hide WellFormed, Lookup, Listed;
      ghost var before := list;
      var i := 0;
      while i < |list|
        invariant i <= |list| && list == before && count == old(count)
        invariant forall j :: 0 <= j < i ==> list[j].addr != addr
      {
        if list[i].addr == addr {
          assert Index(before, addr) == i;
          hide Index;
          if glbl {
            var oldGlbl := list[i].gusers;
            list := list[i := list[i].(gusers := 1)];
            if oldGlbl != 0 {
              return 0;
            }
          }
          list := list[i := list[i].(users := list[i].users + 1)];
          assert list == before[i := Entry(addr, before[i].users + 1, if glbl then 1 else before[i].gusers)];
          return 0;
        }
        i := i + 1;
      }
      if !granted {
        return -ENOMEM;
      }
      list := [Entry(addr, 1, if glbl then 1 else 0)] + list;
      count := count + 1;
      return 0;
    }
  }

  // ---- the effect of one call on every address

  lemma LookupUpdated(list: seq<Entry>, i: nat, e: Entry, a: seq<byte>)
    requires WellFormed(list) && i < |list| && e.addr == list[i].addr && 1 <= e.users && e.gusers in {0, 1}
    ensures WellFormed(list[i := e])
    ensures Lookup(list[i := e], a) == if a == e.addr then Some(e) else Lookup(list, a)
  {
    assert forall m :: 0 <= m < |list| ==> list[i := e][m].addr == list[m].addr;
  }

  lemma RemovedWellFormed(list: seq<Entry>, i: nat)
    requires WellFormed(list) && i < |list|
    ensures WellFormed(list[..i] + list[i + 1..])
  {
  }

  lemma LookupRemoved(list: seq<Entry>, i: nat, a: seq<byte>)
    requires WellFormed(list) && i < |list|
    ensures WellFormed(list[..i] + list[i + 1..])
    ensures Lookup(list[..i] + list[i + 1..], a) == if a == list[i].addr then None else Lookup(list, a)
  {
    var rest := list[..i] + list[i + 1..];
    RemovedWellFormed(list, i);
    assert forall k :: 0 <= k < |rest| ==> rest[k] == list[if k < i then k else k + 1];
    var j := Index(list, a);
    if j < |list| && j != i {
      assert rest[if j < i then j else j - 1] == list[j];
      assert Index(rest, a) == if j < i then j else j - 1;
    } else {
      assert Index(rest, a) == |rest|;
    }
  }

  lemma LookupPrepended(list: seq<Entry>, e: Entry, a: seq<byte>)
    requires WellFormed(list) && !Listed(list, e.addr) && 1 <= e.users && e.gusers in {0, 1}
    ensures WellFormed([e] + list)
    ensures Lookup([e] + list, a) == if a == e.addr then Some(e) else Lookup(list, a)
  {
    assert ([e] + list)[1..] == list;
  }

  /** What adding does to the entry of an address. */
  function EntryAdded(e: Option<Entry>, addr: seq<byte>, glbl: bool): Entry {
    match e
    case None => Entry(addr, 1, if glbl then 1 else 0)
    case Some(e) =>
      if glbl && e.gusers != 0 then e else Entry(addr, e.users + 1, if glbl then 1 else e.gusers)
  }

  /** Adding changes the entry of that address only, and nothing at all when it fails. */
  lemma AddEffect(list: seq<Entry>, addr: seq<byte>, glbl: bool, granted: bool, a: seq<byte>)
    requires WellFormed(list)
    ensures var (err, r) := AddTo(list, addr, glbl, granted);
      && WellFormed(r)
      && (err == 0 <==> Listed(list, addr) || granted)
      && (err != 0 ==> err == -12 && r == list)
      && Lookup(r, a) == if err == 0 &&
          a == addr then Some(EntryAdded(Lookup(list, a), addr, glbl)) else Lookup(list, a)
  {
    var i := Index(list, addr);
    if i < |list| {
      var e := AddTo(list, addr, glbl, granted).1[i];
      LookupUpdated(list, i, e, a);
    } else if granted {
      LookupPrepended(list, Entry(addr, 1, if glbl then 1 else 0), a);
    }
  }

  /** What deleting does to the entry of an address. */
  function EntryDeleted(e: Entry, glbl: bool): Option<Entry> {
    if e.users == 1 then None else Some(Entry(e.addr, e.users - 1, if glbl then 0 else e.gusers))
  }

  /** Deleting changes the entry of that address only, and nothing at all when it fails. */
  lemma DeleteEffect(list: seq<Entry>, addr: seq<byte>, glbl: bool, a: seq<byte>)
    requires WellFormed(list)
    ensures var (err, r) := DeleteFrom(list, addr, glbl);
      && WellFormed(r)
      && (err == 0 <==> Listed(list, addr) && (glbl ==> Lookup(list, addr).value.gusers != 0))
      && (err != 0 ==> err == -2 && r == list)
      && Lookup(r, a) == if err == 0 && a == addr then EntryDeleted(Lookup(list, a).value, glbl) else Lookup(list, a)
  {
    var i := Index(list, addr);
    if DeleteFrom(list, addr, glbl).0 == 0 {
      if list[i].users == 1 {
        LookupRemoved(list, i, a);
      } else {
        LookupUpdated(list, i, DeleteFrom(list, addr, glbl).1[i], a);
      }
    }
  }

  // ---- the order of the list

  lemma {:induction false} IndexIs(list: seq<Entry>, addr: seq<byte>, i: nat)
    requires WellFormed(list) && i < |list| && list[i].addr == addr
    ensures Index(list, addr) == i
  {
  }

  /** The list changed in place, grew in front, or lost the entry at a place. */
  predicate Shifted(list: seq<Entry>, r: seq<Entry>, at: nat) {
    || (|r| == |list| && forall j :: 0 <= j < |list| ==> r[j].addr == list[j].addr)
    || (|r| == |list| + 1 && r[1..] == list)
    || (at < |list| && r == list[..at] + list[at + 1..])
  }

  lemma {:induction false} ExecShifts(list: seq<Entry>, call: Call)
    requires WellFormed(list)
    ensures var r := Exec(list, call).1; WellFormed(r) && Shifted(list, r, Index(list, call.addr))
    ensures var r := Exec(list, call).1; |r| > |list| ==> Index(r, call.addr) == 0
    ensures !Listed(list, call.addr) && |Exec(list, call).1| <= |list| ==> Exec(list, call).1 == list
  {
    match call
    case Add(addr, glbl, granted) => AddEffect(list, addr, glbl, granted, addr);
    case Delete(addr, glbl) => DeleteEffect(list, addr, glbl, addr);
  }

  /** Where an address that stays is then. */
  lemma {:induction false} IndexShifted(list: seq<Entry>, r: seq<Entry>, at: nat, a: seq<byte>)
    requires WellFormed(list) && WellFormed(r) && Shifted(list, r, at) && Listed(list, a) && Listed(r, a)
    ensures var i := Index(list, a);
      Index(r, a) == if |r| == |list| then i else if |r| > |list| then i + 1 else if i < at then i else i - 1
  {
    var i, k := Index(list, a), Index(r, a);
    hide Index;
    if |r| == |list| {
      IndexIs(r, a, i);
    } else if |r| > |list| {
      assert r[i + 1] == r[1..][i];
      IndexIs(r, a, i + 1);
    } else {
      assert r[k] == list[if k < at then k else k + 1];
      IndexIs(list, a, if k < at then k else k + 1);
    }
  }

  /** A new address comes first, and no call changes the order of the addresses that stay. */
  lemma {:induction false} OrderKept(list: seq<Entry>, call: Call, a: seq<byte>, b: seq<byte>)
    requires WellFormed(list) && Listed(list, a) && Listed(list, b)
    ensures var r := Exec(list, call).1;
      && (Listed(r, a) && Listed(r, b) ==> (Index(r, a) < Index(r, b) <==> Index(list, a) < Index(list, b)))
      && (Listed(r, call.addr) && !Listed(list, call.addr) ==> Index(r, call.addr) == 0)
  {
    hide Exec, WellFormed, Shifted;
    ExecShifts(list, call);
    var r, at := Exec(list, call).1, Index(list, call.addr);
    if Listed(r, a) && Listed(r, b) {
      IndexShifted(list, r, at, a);
      IndexShifted(list, r, at, b);
      if |r| < |list| {
        Distinct(list, a, b);
        Lost(list, r, at, a);
        Lost(list, r, at, b);
      }
    }
  }

  lemma {:induction false} Distinct(list: seq<Entry>, a: seq<byte>, b: seq<byte>)
    requires Listed(list, a) && Listed(list, b)
    ensures Index(list, a) == Index(list, b) ==> a == b
  {
  }

  /** The place of the lost entry is that of no address that stays. */
  lemma {:induction false} Lost(list: seq<Entry>, r: seq<Entry>, at: nat, a: seq<byte>)
    requires WellFormed(list) && Shifted(list, r, at) && |r| < |list| && Listed(list, a) && Listed(r, a)
    ensures Index(list, a) != at
  {
    var k := Index(r, a);
    hide Index;
    assert r[k] == list[if k < at then k else k + 1];
  }

  // ---- histories of one list

  datatype Call = Add(addr: seq<byte>, glbl: bool, granted: bool) | Delete(addr: seq<byte>, glbl: bool)

  function Exec(list: seq<Entry>, call: Call): (int, seq<Entry>) {
    match call
    case Add(addr, glbl, granted) => AddTo(list, addr, glbl, granted)
    case Delete(addr, glbl) => DeleteFrom(list, addr, glbl)
  }

  function Run(calls: seq<Call>): seq<Entry> {
    if calls == [] then [] else Exec(Run(calls[..|calls| - 1]), calls[|calls| - 1]).1
  }

  /** The last call of a history succeeded. */
  predicate Succeeded(calls: seq<Call>)
    requires calls != []
  {
    Exec(Run(calls[..|calls| - 1]), calls[|calls| - 1]).0 == 0
  }

  /** Successful non-global adds of an address minus successful non-global deletes of it. */
  function Net(calls: seq<Call>, addr: seq<byte>): int {
    if calls == [] then 0 else
    var last := calls[|calls| - 1];
    Net(calls[..|calls| - 1], addr) +
      if last.addr == addr && !last.glbl && Succeeded(calls) then if last.Add? then 1 else -1 else 0
  }

  /** The last successful global call for the address was an add. */
  predicate Global(calls: seq<Call>, addr: seq<byte>) {
    if calls == [] then false else
    var last := calls[|calls| - 1];
    if last.addr == addr && last.glbl && Succeeded(calls) then last.Add? else Global(calls[..|calls| - 1], addr)
  }

  /** The list says about an address what the history says. */
  predicate Agrees(calls: seq<Call>, addr: seq<byte>) {
    var list, i, n, g := Run(calls), Index(Run(calls), addr), Net(calls, addr), if Global(calls, addr) then 1 else 0;
    && 0 <= n
    && (Listed(list, addr) <==> 0 < n || g == 1)
    && (Listed(list, addr) ==> list[i].users == n + g && list[i].gusers == g)
  }

  /** Non-global deletes are made only against non-global adds (or when they find nothing). */
  predicate Balanced(calls: seq<Call>) {
    calls != [] ==>
      var before, last := calls[..|calls| - 1], calls[|calls| - 1];
      && Balanced(before)
      && (last.Delete? && !last.glbl ==> 0 < Net(before, last.addr) || !Global(before, last.addr))
  }

  lemma {:induction false} RunWellFormed(calls: seq<Call>)
    ensures WellFormed(Run(calls))
  {
    if calls == [] {
    } else {
      var before, last := calls[..|calls| - 1], calls[|calls| - 1];
      RunWellFormed(before);
      match last
      case Add(addr, glbl, granted) => AddEffect(Run(before), addr, glbl, granted, []);
      case Delete(addr, glbl) => DeleteEffect(Run(before), addr, glbl, []);
    }
  }

  /** The entry of an address after a call: the call acts on the entry of its own address only. */
  lemma {:induction false} CallEffect(calls: seq<Call>, a: seq<byte>)
    requires calls != []
    ensures var before, last := Run(calls[..|calls| - 1]), calls[|calls| - 1];
      && (last.Add? ==> (Succeeded(calls) <==> Lookup(before, last.addr).Some? || last.granted))
      && (last.Delete? ==>
        (Succeeded(calls) <==>
          Lookup(before, last.addr).Some? && (last.glbl ==> Lookup(before, last.addr).value.gusers != 0)))
      && Lookup(Run(calls), a) ==
        if !Succeeded(calls) || a != last.addr then Lookup(before, a)
        else if last.Add? then Some(EntryAdded(Lookup(before, a), a, last.glbl))
        else EntryDeleted(Lookup(before, a).value, last.glbl)
  {
    var before, last := calls[..|calls| - 1], calls[|calls| - 1];
    RunWellFormed(before);
    match last
    case Add(addr, glbl, granted) => AddEffect(Run(before), addr, glbl, granted, a);
    case Delete(addr, glbl) => DeleteEffect(Run(before), addr, glbl, a);
  }

  lemma {:induction false} AgreesEntry(calls: seq<Call>, a: seq<byte>)
    ensures var e, n, g := Lookup(Run(calls), a), Net(calls, a), if Global(calls, a) then 1 else 0;
      Agrees(calls, a) <==>
        0 <= n && (e.Some? <==> 0 < n || g == 1) && (e.Some? ==> e.value.users == n + g && e.value.gusers == g)
  {
  }

  /**
    One more call keeps the agreement, unless it is a non-global delete of an address with only its global
    user left.
   */
  lemma {:induction false} CallAgrees(calls: seq<Call>, a: seq<byte>)
    requires calls != []
    requires var before := calls[..|calls| - 1]; Agrees(before, a) && Agrees(before, calls[|calls| - 1].addr)
    ensures var before, last := calls[..|calls| - 1], calls[|calls| - 1];
      Agrees(calls, a) <==>
        !(last.Delete? && !last.glbl && last.addr == a && Net(before, a) == 0 && Global(before, a))
  {
    hide Run, Lookup, Agrees, Succeeded;
    CallEffect(calls, a);
    AgreesEntry(calls, a);
    AgreesEntry(calls[..|calls| - 1], a);
  }

  /**
    In every balanced history an address is listed exactly when its net count is positive or its
    global flag is set, with the net count plus the flag as its users.
   */
  lemma {:induction false} HistoryAgrees(calls: seq<Call>, a: seq<byte>)
    requires Balanced(calls)
    ensures Agrees(calls, a) && WellFormed(Run(calls))
  {
    RunWellFormed(calls);
    if calls == [] {
    } else {
      var before, last := calls[..|calls| - 1], calls[|calls| - 1];
      HistoryAgrees(before, a);
      HistoryAgrees(before, last.addr);
      CallAgrees(calls, a);
    }
  }

  /** So is every history before it. */
  lemma {:induction false} BalancedPrefix(calls: seq<Call>, k: nat)
    requires Balanced(calls) && k <= |calls|
    ensures Balanced(calls[..k])
  {
    if k == |calls| {
      assert calls[..k] == calls;
    } else {
      var before := calls[..|calls| - 1];
      BalancedPrefix(before, k);
      assert before[..k] == calls[..k];
    }
  }

  /** A history is balanced exactly when list and history agree about every address all the way. */
  lemma {:induction false} BalancedExactly(calls: seq<Call>)
    ensures Balanced(calls) <==> forall k: nat, a :: k <= |calls| ==> Agrees(calls[..k], a)
  {
    if Balanced(calls) {
      forall k: nat, a | k <= |calls| ensures Agrees(calls[..k], a) {
        BalancedPrefix(calls, k);
        HistoryAgrees(calls[..k], a);
      }
    } else {
      var n := |calls| - 1;
      var before, last := calls[..n], calls[n];
      hide Agrees, Net, Global;
      if forall k: nat, a :: k <= |calls| ==> Agrees(calls[..k], a) {
        BalancedExactly(before);
        forall k: nat, a | k <= |before| ensures Agrees(before[..k], a) {
          assert before[..k] == calls[..k];
        }
        assert calls[..n + 1] == calls;
        CallAgrees(calls, last.addr);
        assert false;
      }
    }
  }

  /** The call that breaks it: the global add is undone by a delete that is not global, and its flag stays. */
  lemma {:induction false} GlobalUserDeleted(a: seq<byte>)
    ensures var calls := [Add(a, true, true), Delete(a, false)];
      Run(calls) == [] && Global(calls, a) && !Agrees(calls, a)
  {
    var calls := [Add(a, true, true), Delete(a, false)];
    assert calls[..1] == [Add(a, true, true)] && calls[..1][..0] == [];
    assert Run(calls[..1]) == [Entry(a, 1, 1)];
    assert Succeeded(calls[..1]);
    assert Global(calls[..1], a);
  }
}
