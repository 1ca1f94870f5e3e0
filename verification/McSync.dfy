/** Multicast lists moved between two devices, one source entry after another. */
module McSync {
  import opened Basics
  import opened DevAddr

  /** The users of an address; none when it is not listed. */
  function Users(list: seq<Entry>, addr: seq<byte>): int {
    match Lookup(list, addr)
    case Some(e) => e.users
    case None => 0
  }

  /** The address counts as synced when it heads the destination list, the only entry that is compared. */
  predicate AtHead(to: seq<Entry>, addr: seq<byte>) {
    to != [] && to[0].addr == addr
  }

  function WithUsers(e: Entry, users: int): Entry {
    e.(users := users)
  }

  /**
    A synchronisation under way: both lists, the source entry it has reached, and how many allocations still
    succeed.
   */
  datatype Cursor = Cursor(to: seq<Entry>, from: seq<Entry>, i: nat, memory: nat) {
    predicate Valid() {
      WellFormed(to) && WellFormed(from) && i <= |from|
    }

    /** Entries still to visit. */
    function Left(): int {
      |from| - i
    }
  }

  /** One turn of the loop of dev_mc_sync; a negative number is the error that ends it. */
  function SyncStep(c: Cursor): (int, Cursor)
    requires c.i < |c.from|
  {
    var da := c.from[c.i];
    if !AtHead(c.to, da.addr) then
      var (err, to') := AddTo(c.to, da.addr, false, 0 < c.memory);
      if err < 0 then (err, c) else
      (0, Cursor(to', c.from[c.i := WithUsers(da, da.users + 1)], c.i + 1,
        if Listed(c.to, da.addr) || c.memory == 0 then c.memory else c.memory - 1))
    else if da.users == 1 then
      (0, Cursor(DeleteFrom(c.to, da.addr, false).1, DeleteFrom(c.from, da.addr, false).1, c.i, c.memory))
    else (0, c.(i := c.i + 1))
  }

  /** One turn of the loop of dev_mc_unsync. */
  function UnsyncStep(c: Cursor): Cursor
    requires c.i < |c.from|
  {
    var da := c.from[c.i];
    if !AtHead(c.to, da.addr) then c.(i := c.i + 1)
    else Cursor(DeleteFrom(c.to, da.addr, false).1, DeleteFrom(c.from, da.addr, false).1,
      if da.users == 1 then c.i else c.i + 1, c.memory)
  }

  /** The quantity that no synchronisation changes. */
  function Balance(to: seq<Entry>, from: seq<Entry>, addr: seq<byte>): int {
    Users(to, addr) - Users(from, addr)
  }

  lemma OneMoreUser(list: seq<Entry>, i: nat, a: seq<byte>)
    requires WellFormed(list) && i < |list|
    ensures var r := list[i := WithUsers(list[i], list[i].users + 1)];
      WellFormed(r) && Users(r, a) == Users(list, a) + if a == list[i].addr then 1 else 0
  {
    assert Index(list, list[i].addr) == i;
    LookupUpdated(list, i, WithUsers(list[i], list[i].users + 1), a);
  }

  lemma OneUserLess(list: seq<Entry>, i: nat, a: seq<byte>)
    requires WellFormed(list) && i < |list|
    ensures var (err, r) := DeleteFrom(list, list[i].addr, false);
      && WellFormed(r)
      && r == (if list[i].users == 1 then list[..i] + list[i + 1..]
          else list[i := WithUsers(list[i], list[i].users - 1)])
      && Users(r, a) == Users(list, a) - (if a == list[i].addr then 1 else 0)
      && (a != list[i].addr ==> Listed(r, a) == Listed(list, a))
  {
    assert Index(list, list[i].addr) == i;
    DeleteEffect(list, list[i].addr, false, a);
  }

  lemma OneUserAdded(list: seq<Entry>, addr: seq<byte>, granted: bool, a: seq<byte>)
    requires WellFormed(list)
    ensures var (err, r) := AddTo(list, addr, false, granted);
      && WellFormed(r)
      && (err >= 0 ==> Users(r, a) == Users(list, a) + if a == addr then 1 else 0)
      && (err < 0 ==> r == list)
      && (Listed(list, a) ==> Listed(r, a)) && (err >= 0 ==> Listed(r, addr))
  {
    AddEffect(list, addr, false, granted, a);
    AddEffect(list, addr, false, granted, addr);
  }

  /** One turn keeps both lists well-formed and the balance of every address, and brings the end nearer. */
  lemma SyncStepConserves(c: Cursor, a: seq<byte>)
    requires c.Valid() && c.i < |c.from|
    ensures var (err, n) := SyncStep(c);
      && n.Valid() && Balance(n.to, n.from, a) == Balance(c.to, c.from, a)
      && if err < 0 then n == c else n.Left() < c.Left()
  {
    hide AddTo, DeleteFrom, Users;
    var da := c.from[c.i];
    if !AtHead(c.to, da.addr) {
      OneUserAdded(c.to, da.addr, 0 < c.memory, a);
      OneMoreUser(c.from, c.i, a);
    } else if da.users == 1 {
      OneUserLess(c.to, 0, a);
      OneUserLess(c.from, c.i, a);
    }
  }

  lemma UnsyncStepConserves(c: Cursor, a: seq<byte>)
    requires c.Valid() && c.i < |c.from|
    ensures var n := UnsyncStep(c);
      && n.Valid() && Balance(n.to, n.from, a) == Balance(c.to, c.from, a)
      && n.Left() < c.Left()
  {
    hide DeleteFrom, Users;
    if AtHead(c.to, c.from[c.i].addr) {
      OneUserLess(c.to, 0, a);
      OneUserLess(c.from, c.i, a);
    }
  }

  /** dev_mc_sync from a cursor on: the result and both lists. */
  function SyncFrom(c: Cursor): (int, Cursor)
    requires c.Valid()
    decreases c.Left()
  {
    if c.i == |c.from| then (0, c) else
    SyncStepConserves(c, []);
    var (err, n) := SyncStep(c);
    if err < 0 then (err, n) else SyncFrom(n)
  }

  /** dev_mc_unsync from a cursor on. */
  function UnsyncFrom(c: Cursor): Cursor
    requires c.Valid()
    decreases c.Left()
  {
    if c.i == |c.from| then c else
    UnsyncStepConserves(c, []);
    UnsyncFrom(UnsyncStep(c))
  }

  // ---- conservation

  /**
    dev_mc_sync keeps, for every address, the users in the destination minus those in the source, even when
    memory runs out.
   */
  lemma {:induction false} SyncConserves(c: Cursor, a: seq<byte>)
    requires c.Valid()
    ensures var r := SyncFrom(c).1; r.Valid() && Balance(r.to, r.from, a) == Balance(c.to, c.from, a)
    decreases c.Left()
  {
    hide SyncStep, Balance;
    if c.i < |c.from| {
      SyncStepConserves(c, a);
      var (err, n) := SyncStep(c);
      if err >= 0 {
        SyncConserves(n, a);
      }
    }
  }

  /** So does dev_mc_unsync. */
  lemma {:induction false} UnsyncConserves(c: Cursor, a: seq<byte>)
    requires c.Valid()
    ensures var r := UnsyncFrom(c); r.Valid() && Balance(r.to, r.from, a) == Balance(c.to, c.from, a)
    decreases c.Left()
  {
    hide UnsyncStep, Balance;
    if c.i < |c.from| {
      UnsyncStepConserves(c, a);
      UnsyncConserves(UnsyncStep(c), a);
    }
  }

  datatype Transfer = Sync(memory: nat) | Unsync

  /** Both lists after a sequence of synchronisations. */
  function DoAll(to: seq<Entry>, from: seq<Entry>, transfers: seq<Transfer>): (r: Cursor)
    requires WellFormed(to) && WellFormed(from)
    ensures r.Valid()
  {
    if transfers == [] then Cursor(to, from, 0, 0) else
    var before := DoAll(to, from, transfers[..|transfers| - 1]);
    match transfers[|transfers| - 1]
    case Sync(memory) =>
      var c := before.(i := 0, memory := memory);
      SyncConserves(c, []);
      SyncFrom(c).1
    case Unsync =>
      var c := before.(i := 0);
      UnsyncConserves(c, []);
      UnsyncFrom(c)
  }

  /** Any sequence of synchronisations, complete or cut short, conserves the balance of every address. */
  lemma {:induction false} TransfersConserve(to: seq<Entry>, from: seq<Entry>, transfers: seq<Transfer>, a: seq<byte>)
    requires WellFormed(to) && WellFormed(from)
    ensures var r := DoAll(to, from, transfers); Balance(r.to, r.from, a) == Balance(to, from, a)
  {
    if transfers == [] {
    } else {
      var most := transfers[..|transfers| - 1];
      TransfersConserve(to, from, most, a);
      var before := DoAll(to, from, most);
      match transfers[|transfers| - 1]
      case Sync(memory) => SyncConserves(before.(i := 0, memory := memory), a);
      case Unsync => UnsyncConserves(before.(i := 0), a);
    }
  }

  // ---- coverage

  /** The visited entries of the source are listed in the destination. */
  predicate Covered(c: Cursor)
    requires c.i <= |c.from|
  {
    forall j :: 0 <= j < c.i ==> Listed(c.to, c.from[j].addr)
  }

  lemma SyncStepCovers(c: Cursor)
    requires c.Valid() && c.i < |c.from| && Covered(c) && SyncStep(c).0 >= 0
    ensures SyncStep(c).1.Valid() && Covered(SyncStep(c).1)
  {
    SyncStepConserves(c, []);
    hide AddTo, DeleteFrom, Users, Listed;
    var da, n := c.from[c.i], SyncStep(c).1;
    if !AtHead(c.to, da.addr) {
      forall j | 0 <= j < n.i ensures Listed(n.to, n.from[j].addr) {
        OneUserAdded(c.to, da.addr, 0 < c.memory, n.from[j].addr);
      }
    } else if da.users == 1 {
      forall j | 0 <= j < n.i ensures Listed(n.to, n.from[j].addr) {
        OneUserLess(c.to, 0, c.from[j].addr);
        OneUserLess(c.from, c.i, da.addr);
      }
    } else {
      HeadListed(c.to);
    }
  }

  lemma HeadListed(list: seq<Entry>)
    requires list != []
    ensures Listed(list, list[0].addr)
  {
  }

  /** After a successful dev_mc_sync every address left in the source is in the destination. */
  lemma {:induction false} SyncCovers(c: Cursor)
    requires c.Valid() && Covered(c)
    ensures var (err, r) := SyncFrom(c); err == 0 ==> forall e :: e in r.from ==> Listed(r.to, e.addr)
    decreases c.Left()
  {
    if c.i < |c.from| {
      SyncStepConserves(c, []);
      hide SyncStep;
      if SyncStep(c).0 >= 0 {
        SyncStepCovers(c);
        SyncCovers(SyncStep(c).1);
      }
    }
  }

  // ---- the operations on devices

  /**
    The inner loop over the destination: it stops after the first entry, whatever that holds, and so
    finds an address only when its entry comes first.
   */
  method Synced(to: AddrList, addr: seq<byte>) returns (synced: bool)
    ensures synced <==> AtHead(to.list, addr)
    ensures synced <==> Listed(to.list, addr) && Index(to.list, addr) == 0
  {
    synced := false;
    var k, stop := 0, false; // the loop's break
    while k < |to.list| && !stop
      invariant k == 0 && (synced <==> stop && AtHead(to.list, addr))
      invariant stop ==> to.list != []
      decreases !stop
    {
      if to.list[k].addr == addr {
        synced := true;
      }
      stop := true;
    }
  }

  /** dev_mc_sync; kmalloc succeeds for the first `memory` new entries. */
  method DevMcSync(to: AddrList, from: AddrList, memory: nat) returns (err: int)
    requires to != from && to.Valid() && from.Valid()
    modifies to, from
    ensures to.Valid() && from.Valid()
    ensures var (e, r) := SyncFrom(Cursor(old(to.list), old(from.list), 0, memory));
      err == e && to.list == r.to && from.list == r.from
  {
    hide DeleteFrom, Users, Balance, Index, Listed;
    var i, left := 0, memory;
    err := 0;
    ghost var start := Cursor(to.list, from.list, 0, memory);
    while i < |from.list|
      invariant to.Valid() && from.Valid() && i <= |from.list| && err == 0
      invariant SyncFrom(Cursor(to.list, from.list, i, left)) == SyncFrom(start)
      decreases |from.list| - i
    {
      ghost var c := Cursor(to.list, from.list, i, left);
      SyncStepConserves(c, []);
      var da := from.list[i];
      var synced := Synced(to, da.addr);
      if !synced {
        var isNew := !Listed(to.list, da.addr);
        err := to.Add(da.addr, false, 0 < left);
        if err < 0 {
          break;
        }
        left := if isNew && left > 0 then left - 1 else left;
        from.list := from.list[i := WithUsers(da, da.users + 1)];
        i := i + 1;
      } else if da.users == 1 {
        OneUserLess(from.list, i, []);
        var _ := to.Delete(da.addr, false);
        var _ := from.Delete(da.addr, false);
      } else {
        i := i + 1;
      }
      assert Cursor(to.list, from.list, i, left) == SyncStep(c).1;
    }
  }

  /** dev_mc_unsync. */
  method DevMcUnsync(to: AddrList, from: AddrList)
    requires to != from && to.Valid() && from.Valid()
    modifies to, from
    ensures to.Valid() && from.Valid()
    ensures var r := UnsyncFrom(Cursor(old(to.list), old(from.list), 0, 0)); to.list == r.to && from.list == r.from
  {
    var i := 0;
    ghost var start := Cursor(to.list, from.list, 0, 0);
    while i < |from.list|
      invariant to.Valid() && from.Valid() && i <= |from.list|
      invariant UnsyncFrom(Cursor(to.list, from.list, i, 0)) == UnsyncFrom(start)
      decreases |from.list| - i
    {
      ghost var c := Cursor(to.list, from.list, i, 0);
      UnsyncStepConserves(c, []);
      var da := from.list[i];
      var synced := Synced(to, da.addr);
      if !synced {
        i := i + 1;
        continue;
      }
      OneUserLess(from.list, i, []);
      var _ := to.Delete(da.addr, false);
      var _ := from.Delete(da.addr, false);
      i := if da.users == 1 then i else i + 1;
    }
  }
}
