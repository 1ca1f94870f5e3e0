/** When dev_mc_unsync undoes dev_mc_sync. */
module McUndo {
  import opened Basics
  import opened DevAddr
  import opened McSync

  // ---- what a run leaves alone

  /** The source entries already visited stay as they are, and no entry comes back. */
  lemma {:induction false} SyncPrefix(c: Cursor)
    requires c.Valid()
    ensures var r := SyncFrom(c).1;
      r.Valid() && c.i <= |r.from| <= |c.from| && r.from[..c.i] == c.from[..c.i]
    decreases c.Left()
  {
    if c.i < |c.from| {
      SyncStepConserves(c, []);
      SyncStepPrefix(c);
      hide SyncStep;
      if SyncStep(c).0 >= 0 {
        var n := SyncStep(c).1;
        SyncPrefix(n);
        assert SyncFrom(c).1.from[..c.i] == SyncFrom(c).1.from[..n.i][..c.i];
      }
    }
  }

  lemma SyncStepPrefix(c: Cursor)
    requires c.Valid() && c.i < |c.from|
    ensures var n := SyncStep(c).1;
      c.i <= n.i <= |n.from| <= |c.from| && n.from[..c.i] == c.from[..c.i] && n.from[..n.i][..c.i] == c.from[..c.i]
  {
    SyncStepConserves(c, []);
    OneUserLess(c.from, c.i, []);
    hide AddTo, DeleteFrom, Users, WellFormed, Listed;
  }

  lemma {:induction false} UnsyncPrefix(c: Cursor)
    requires c.Valid()
    ensures var r := UnsyncFrom(c);
      r.Valid() && c.i <= |r.from| <= |c.from| && r.from[..c.i] == c.from[..c.i]
    decreases c.Left()
  {
    if c.i < |c.from| {
      UnsyncStepConserves(c, []);
      UnsyncStepPrefix(c);
      hide UnsyncStep;
      var n := UnsyncStep(c);
      UnsyncPrefix(n);
      assert UnsyncFrom(c).from[..c.i] == UnsyncFrom(c).from[..n.i][..c.i];
    }
  }

  lemma UnsyncStepPrefix(c: Cursor)
    requires c.Valid() && c.i < |c.from|
    ensures var n := UnsyncStep(c);
      c.i <= n.i <= |n.from| <= |c.from| && n.from[..c.i] == c.from[..c.i] && n.from[..n.i][..c.i] == c.from[..c.i]
  {
    UnsyncStepConserves(c, []);
    OneUserLess(c.from, c.i, []);
    hide DeleteFrom, Users, WellFormed, Listed;
  }

  // ---- single turns

  /** A list with one more user of an address. */
  function WithOneMore(to: seq<Entry>, addr: seq<byte>): seq<Entry> {
    if Listed(to, addr) then to[Index(to, addr) := WithUsers(Lookup(to, addr).value, Lookup(to, addr).value.users + 1)]
    else [Entry(addr, 1, 0)] + to
  }

  /** An entry that does not head the destination gains a user at both ends. */
  lemma {:induction false} Gains(c: Cursor)
    requires c.Valid() && c.i < |c.from| && !AtHead(c.to, c.from[c.i].addr) && SyncFrom(c).0 == 0
    ensures var da, n := c.from[c.i], SyncStep(c).1;
      && n.Valid() && SyncFrom(n) == SyncFrom(c)
      && n.to == WithOneMore(c.to, da.addr) && n.i == c.i + 1
      && n.from == c.from[c.i := WithUsers(da, da.users + 1)]
  {
    SyncStepConserves(c, []);
    hide WellFormed, Users;
  }

  /** One that does, and has other users, is passed over. */
  lemma Passes(c: Cursor)
    requires c.Valid() && c.i < |c.from| && AtHead(c.to, c.from[c.i].addr) && 2 <= c.from[c.i].users
    ensures SyncFrom(c) == SyncFrom(c.(i := c.i + 1))
  {
    hide WellFormed;
  }

  /** One that does, and has no other users, is gone. */
  lemma {:induction false} Goes(c: Cursor)
    requires c.Valid() && c.i < |c.from| && AtHead(c.to, c.from[c.i].addr) && c.from[c.i].users == 1
    ensures |SyncFrom(c).1.from| < |c.from|
  {
    SyncStepConserves(c, []);
    OneUserLess(c.from, c.i, []);
    hide WellFormed, DeleteFrom, Users, Listed;
    SyncPrefix(SyncStep(c).1);
  }

  /** dev_mc_unsync passes over an entry that does not head the destination. */
  lemma {:induction false} Misses(c: Cursor)
    requires c.Valid() && c.i < |c.from| && !AtHead(c.to, c.from[c.i].addr)
    ensures UnsyncFrom(c) == UnsyncFrom(c.(i := c.i + 1))
    ensures var r := UnsyncFrom(c).from; c.i < |r| && r[c.i] == c.from[c.i]
  {
    var n := c.(i := c.i + 1);
    UnsyncPrefix(n);
    var r := UnsyncFrom(n).from;
    assert r[..n.i][c.i] == c.from[..n.i][c.i];
  }

  /** The state after releasing an entry that does. */
  function Released(c: Cursor): Cursor
    requires c.i < |c.from| && c.to != []
  {
    Cursor(if c.to[0].users == 1 then c.to[1..] else c.to[0 := WithUsers(c.to[0], c.to[0].users - 1)],
      c.from[c.i := WithUsers(c.from[c.i], c.from[c.i].users - 1)], c.i + 1, c.memory)
  }

  lemma ReleaseStep(c: Cursor)
    requires c.Valid() && c.i < |c.from| && AtHead(c.to, c.from[c.i].addr) && 2 <= c.from[c.i].users
    ensures UnsyncStep(c) == Released(c)
  {
    hide WellFormed, DeleteFrom, Users, Listed;
    OneUserLess(c.from, c.i, []);
    OneUserLess(c.to, 0, []);
    assert c.to[..0] + c.to[1..] == c.to[1..];
  }

  lemma {:induction false} Releases(c: Cursor)
    requires c.Valid() && c.i < |c.from| && AtHead(c.to, c.from[c.i].addr) && 2 <= c.from[c.i].users
    ensures Released(c).Valid() && UnsyncFrom(c) == UnsyncFrom(Released(c))
    ensures var r := UnsyncFrom(c).from; c.i < |r| && r[c.i] == WithUsers(c.from[c.i], c.from[c.i].users - 1)
  {
    ReleaseStep(c);
    UnsyncStepConserves(c, []);
    hide UnsyncStep, WellFormed;
    var n := Released(c);
    UnsyncPrefix(n);
    var r := UnsyncFrom(n).from;
    assert r[..n.i][c.i] == n.from[..n.i][c.i];
  }

  // ---- which entry heads the destination after dev_mc_sync

  /** The address is that of a source entry still to visit. */
  predicate InRest(c: Cursor, addr: seq<byte>) {
    exists m :: c.i <= m < |c.from| && c.from[m].addr == addr
  }

  /**
    Unless a source entry went on the way, the destination is headed by what headed it, or by an entry
    visited since.
   */
  predicate Headed(c: Cursor, r: Cursor)
    requires c.to != []
  {
    |r.from| == |c.from| ==> r.to != [] && (r.to[0].addr == c.to[0].addr || InRest(c, r.to[0].addr))
  }

  lemma {:induction false} HeadAfter(c: Cursor)
    requires c.Valid() && c.to != []
    ensures Headed(c, SyncFrom(c).1)
    decreases c.Left()
  {
    hide SyncStep, WellFormed, Headed;
    if c.i < |c.from| {
      SyncStepConserves(c, []);
    }
    if c.i < |c.from| && SyncStep(c).0 >= 0 {
      var n := SyncStep(c).1;
      SyncPrefix(n);
      HeadStep(c);
      if |n.from| == |c.from| {
        HeadAfter(n);
        HeadedBefore(c, n, SyncFrom(c).1);
      } else {
        WentBefore(c, SyncFrom(c).1);
      }
    } else {
      WentBefore(c, c);
    }
  }

  lemma WentBefore(c: Cursor, r: Cursor)
    requires c.to != [] && (|r.from| < |c.from| || r == c)
    ensures Headed(c, r)
  {
  }

  lemma HeadedBefore(c: Cursor, n: Cursor, r: Cursor)
    requires c.to != [] && n.to != [] && |n.from| == |c.from| && n.i == c.i + 1 && Headed(n, r)
    requires n.to[0].addr == c.to[0].addr || InRest(c, n.to[0].addr)
    requires forall m :: 0 <= m < |c.from| ==> n.from[m].addr == c.from[m].addr
    ensures Headed(c, r)
  {
    if r.to != [] && InRest(n, r.to[0].addr) {
      var m :| n.i <= m < |n.from| && n.from[m].addr == r.to[0].addr;
      assert c.from[m].addr == r.to[0].addr;
    }
  }

  lemma HeadStep(c: Cursor)
    requires c.Valid() && c.to != [] && c.i < |c.from| && SyncStep(c).0 >= 0
    ensures |SyncStep(c).1.from| <= |c.from|
    ensures var n := SyncStep(c).1;
      |n.from| == |c.from| ==>
        && n.i == c.i + 1 && n.to != [] && (n.to[0].addr == c.to[0].addr || n.to[0].addr == c.from[c.i].addr)
        && (n.to[0].addr == c.from[c.i].addr ==> InRest(c, n.to[0].addr))
        && forall m :: 0 <= m < |c.from| ==> n.from[m].addr == c.from[m].addr
  {
    SyncStepConserves(c, []);
    OneUserLess(c.from, c.i, []);
    hide DeleteFrom, Users, WellFormed;
  }

  /**
    Nothing but numbers of users changes in the destination as long as its head is an entry that is not
    visited again.
   */
  predicate SameUnder(to: seq<Entry>, r: seq<Entry>) {
    && |r| == |to| && (to != [] ==> r[0] == to[0])
    && forall k :: 0 <= k < |to| ==> r[k].addr == to[k].addr && to[k].users <= r[k].users
  }

  lemma {:induction false} StaysUnder(c: Cursor)
    requires c.Valid() && c.to != [] && !InRest(c, c.to[0].addr) && SyncFrom(c).0 == 0
    requires var r := SyncFrom(c).1; |r.from| == |c.from| && r.to != [] && r.to[0].addr == c.to[0].addr
    ensures SameUnder(c.to, SyncFrom(c).1.to)
    decreases c.Left()
  {
    if c.i < |c.from| {
      assert !AtHead(c.to, c.from[c.i].addr);
      Gains(c);
      var da, n := c.from[c.i], SyncStep(c).1;
      hide SyncFrom, SyncStep, WellFormed, WithOneMore;
      if Listed(c.to, da.addr) {
        OneMoreUnder(c.to, da.addr);
        StaysUnder(n);
      } else {
        NewHead(c.to, da.addr);
        HeadAfter(n);
        assert false;
      }
    }
  }

  lemma OneMoreUnder(to: seq<Entry>, addr: seq<byte>)
    requires Listed(to, addr) && !AtHead(to, addr)
    ensures SameUnder(to, WithOneMore(to, addr)) && WithOneMore(to, addr) != []
  {
  }

  lemma NewHead(to: seq<Entry>, addr: seq<byte>)
    requires !Listed(to, addr)
    ensures WithOneMore(to, addr) == [Entry(addr, 1, 0)] + to
  {
  }

  /** An entry already visited stays, and does not come to head the destination again. */
  lemma {:induction false} Buried(c: Cursor, j: nat)
    requires c.Valid() && c.to != [] && j < c.i && c.to[0].addr != c.from[j].addr
    ensures var r := SyncFrom(c).1;
      |r.from| == |c.from| ==> r.from[j] == c.from[j] && !AtHead(r.to, c.from[j].addr)
  {
    HeadAfter(c);
    Stays(c, j);
    hide SyncFrom;
  }

  lemma {:induction false} Stays(c: Cursor, j: nat)
    requires c.Valid() && j < c.i
    ensures j < |SyncFrom(c).1.from| && SyncFrom(c).1.from[j] == c.from[j] && !InRest(c, c.from[j].addr)
  {
    SyncPrefix(c);
    hide SyncFrom;
    var r := SyncFrom(c).1.from;
    assert r[..c.i][j] == c.from[..c.i][j];
  }

  // ---- what spoils the undoing

  /** dev_mc_unsync brings both lists back to what they were. */
  predicate Undone(to: seq<Entry>, from: seq<Entry>, s: Cursor)
    requires s.Valid()
  {
    var r := UnsyncFrom(s.(i := 0));
    r.to == to && r.from == from
  }

  lemma EntryGone(to: seq<Entry>, from: seq<Entry>, s: Cursor)
    requires s.Valid() && |s.from| < |from|
    ensures !Undone(to, from, s)
  {
    UnsyncPrefix(s.(i := 0));
  }

  lemma FirstMissed(to: seq<Entry>, from: seq<Entry>, s: Cursor)
    requires s.Valid() && 1 <= |s.from| == |from| && s.from[0] != from[0] && !AtHead(s.to, s.from[0].addr)
    ensures !Undone(to, from, s)
  {
    Misses(s.(i := 0));
  }

  lemma SecondMissed(to: seq<Entry>, from: seq<Entry>, s: Cursor)
    requires s.Valid() && 2 <= |s.from| == |from| && s.from[1] != from[1]
    requires !AtHead(s.to, s.from[0].addr) && !AtHead(s.to, s.from[1].addr)
    ensures !Undone(to, from, s)
  {
    Misses(s.(i := 0));
    Misses(s.(i := 1));
  }

  lemma FirstReleasedToo(to: seq<Entry>, from: seq<Entry>, s: Cursor)
    requires s.Valid() && 1 <= |s.from| == |from| && s.from[0] == from[0] && 2 <= from[0].users
    requires AtHead(s.to, s.from[0].addr)
    ensures !Undone(to, from, s)
  {
    Releases(s.(i := 0));
  }

  /** Three entries that gained a user: at most the first two are released. */
  lemma ThirdMissed(to: seq<Entry>, from: seq<Entry>, s: Cursor)
    requires s.Valid() && 3 <= |s.from| == |from| && s.to != [] && s.to[0].users == 1 && AtHead(s.to, s.from[0].addr)
    requires forall j :: 0 <= j < 3 ==> s.from[j] == WithUsers(from[j], from[j].users + 1) && 1 <= from[j].users
    requires AtHead(s.to[1..], s.from[1].addr) ==> 2 <= s.to[1].users
    ensures !Undone(to, from, s)
  {
    assert s.from[1].addr != s.from[2].addr;
    hide WellFormed;
    var c := s.(i := 0);
    Releases(c);
    var n := Released(c);
    if AtHead(n.to, n.from[1].addr) {
      Releases(n);
      Misses(Released(n));
    } else {
      Misses(n);
    }
  }

  /** The second and third entry gained a user: the third is missed when the first comes to head the destination. */
  lemma ThirdMissedAfterSecond(to: seq<Entry>, from: seq<Entry>, s: Cursor)
    requires s.Valid() && 3 <= |s.from| == |from| && s.to != [] && s.to[0].users == 1 && AtHead(s.to, s.from[1].addr)
    requires forall j :: 1 <= j < 3 ==> s.from[j] == WithUsers(from[j], from[j].users + 1) && 1 <= from[j].users
    requires AtHead(s.to[1..], s.from[0].addr)
    ensures !Undone(to, from, s)
  {
    Misses(s.(i := 0));
    var c := s.(i := 1);
    Releases(c);
    Misses(Released(c));
  }

  // ---- the cases

  /**
    What a caller can see before the call: at most one new address, and beside it at most the head of the
    destination.
   */
  predicate Undoable(to: seq<Entry>, from: seq<Entry>) {
    || from == []
    || (|from| == 1 && !Listed(to, from[0].addr))
    || (|from| == 2 && !Listed(to, from[0].addr) && AtHead(to, from[1].addr))
    || (|from| == 2 && !Listed(to, from[1].addr) && AtHead(to, from[0].addr) && 2 <= from[0].users)
  }

  /** The first address is in the destination, but not at its head. */
  lemma FirstListed(to: seq<Entry>, from: seq<Entry>, memory: nat)
    requires var c := Cursor(to, from, 0, memory); c.Valid() && SyncFrom(c).0 == 0
    requires from != [] && Listed(to, from[0].addr) && !AtHead(to, from[0].addr)
    ensures var s := SyncFrom(Cursor(to, from, 0, memory)).1; s.Valid() && !Undone(to, from, s)
  {
    var c := Cursor(to, from, 0, memory);
    Gains(c);
    var n, s := SyncStep(c).1, SyncFrom(c).1;
    SyncPrefix(c);
    SyncPrefix(n);
    hide SyncStep, SyncFrom, Undone, WellFormed;
    OneMoreUnder(to, from[0].addr);
    Buried(n, 0);
    if |s.from| < |from| {
      EntryGone(to, from, s);
    } else {
      FirstMissed(to, from, s);
    }
  }

  function OneMore(e: Entry): Entry {
    WithUsers(e, e.users + 1)
  }

  lemma GainUnder(to: seq<Entry>, e: Entry, addr: seq<byte>)
    requires e.addr != addr
    ensures Listed([e] + to, addr) <==> Listed(to, addr)
    ensures Listed(to, addr) ==> WithOneMore([e] + to, addr) == [e] + WithOneMore(to, addr)
  {
    assert ([e] + to)[1..] == to;
  }

  /** A single new address. */
  lemma OneNew(to: seq<Entry>, from: seq<Entry>, s: Cursor)
    requires s.Valid() && |from| == 1 && 1 <= from[0].users
    requires s.to == [Entry(from[0].addr, 1, 0)] + to && s.from == [OneMore(from[0])]
    ensures Undone(to, from, s)
  {
    hide WellFormed;
    var c := s.(i := 0);
    Releases(c);
    assert Released(c).to == to && Released(c).from == from;
  }

  /** A new address, and then one of the destination. */
  lemma NewThenListed(to: seq<Entry>, from: seq<Entry>, s: Cursor)
    requires s.Valid() && |from| == 2 && 1 <= from[0].users && 1 <= from[1].users && Listed(to, from[1].addr)
    requires s.to == [Entry(from[0].addr, 1, 0)] + WithOneMore(to, from[1].addr)
    requires s.from == [OneMore(from[0]), OneMore(from[1])]
    requires WellFormed(to)
    ensures Undone(to, from, s) <==> AtHead(to, from[1].addr)
  {
    assert AtHead(to, from[1].addr) ==> 1 <= to[0].users;
    hide WellFormed;
    var c := s.(i := 0);
    Releases(c);
    var n := Released(c);
    assert n.to == WithOneMore(to, from[1].addr) && n.from == [from[0], OneMore(from[1])];
    if AtHead(to, from[1].addr) {
      Releases(n);
      assert Released(n).to == to && Released(n).from == from;
    } else {
      Misses(n);
    }
  }

  /** The head of the destination, and then a new address. */
  lemma HeadThenNew(to: seq<Entry>, from: seq<Entry>, s: Cursor)
    requires s.Valid() && |from| == 2 && 1 <= from[1].users && from[0].addr != from[1].addr
    requires s.to == [Entry(from[1].addr, 1, 0)] + to && s.from == [from[0], OneMore(from[1])]
    ensures Undone(to, from, s)
  {
    hide WellFormed;
    Misses(s.(i := 0));
    var c := s.(i := 1);
    Releases(c);
    assert Released(c).to == to && Released(c).from == from;
  }

  /** The entries a cursor has visited stay as they are, up to the third. */
  lemma {:induction false} StayToThird(c: Cursor)
    requires c.Valid() && c.i == 3
    ensures var r := SyncFrom(c).1;
      r.Valid() && 3 <= |r.from| <= |c.from| && forall j :: 0 <= j < 3 ==> r.from[j] == c.from[j]
  {
    SyncPrefix(c);
    forall j | 0 <= j < 3 ensures SyncFrom(c).1.from[j] == c.from[j] {
      Stays(c, j);
    }
  }

  lemma ListedHead(to: seq<Entry>, addr: seq<byte>)
    requires Listed(to, addr) && WellFormed(to)
    ensures to != [] && WithOneMore(to, addr) != [] && WithOneMore(to, addr)[0].addr == to[0].addr
    ensures AtHead(to, addr) ==> 2 <= WithOneMore(to, addr)[0].users
  {
  }

  lemma ThreeEntries(from: seq<Entry>)
    requires 3 <= |from| && WellFormed(from)
    ensures from[0].addr != from[2].addr && forall j :: 0 <= j < 3 ==> 1 <= from[j].users
  {
  }

  /** A new address, one of the destination, and more. */
  lemma {:induction false} NewListedMore(to: seq<Entry>, from: seq<Entry>, n: Cursor)
    requires n.Valid() && SyncFrom(n).0 == 0 && n.i == 2 && 3 <= |from| && WellFormed(from) && WellFormed(to)
    requires Listed(to, from[1].addr)
    requires n.to == [Entry(from[0].addr, 1, 0)] + WithOneMore(to, from[1].addr)
    requires n.from == from[0 := OneMore(from[0])][1 := OneMore(from[1])]
    ensures SyncFrom(n).1.Valid() && !Undone(to, from, SyncFrom(n).1)
  {
    hide SyncStep, SyncFrom, Undone, WellFormed, WithOneMore, Listed;
    ThreeEntries(from);
    Gains(n);
    StayToThird(SyncStep(n).1);
    Stays(n, 0);
    ListedHead(to, from[1].addr);
    var s := SyncFrom(n).1;
    if |s.from| < |from| {
      EntryGone(to, from, s);
    } else if !AtHead(s.to, from[0].addr) {
      FirstMissed(to, from, s);
    } else {
      StaysUnder(n);
      ThirdMissed(to, from, s);
    }
  }

  /** The head of the destination, a new address, and more. */
  lemma {:induction false} HeadNewMore(to: seq<Entry>, from: seq<Entry>, n: Cursor)
    requires n.Valid() && SyncFrom(n).0 == 0 && n.i == 2 && 3 <= |from| && WellFormed(from)
    requires AtHead(to, from[0].addr) && n.to == [Entry(from[1].addr, 1, 0)] + to
    requires n.from == from[1 := OneMore(from[1])]
    ensures SyncFrom(n).1.Valid() && !Undone(to, from, SyncFrom(n).1)
  {
    assert from[1].addr != from[2].addr && from[0].addr != from[1].addr;
    assert forall j :: 0 <= j < 3 ==> 1 <= from[j].users;
    Gains(n);
    StayToThird(SyncStep(n).1);
    Stays(n, 1);
    Buried(n, 0);
    hide SyncStep, SyncFrom, Undone, WellFormed, WithOneMore, Listed;
    var s := SyncFrom(n).1;
    if |s.from| < |from| {
      EntryGone(to, from, s);
    } else if !AtHead(s.to, from[1].addr) {
      SecondMissed(to, from, s);
    } else {
      StaysUnder(n);
      ThirdMissedAfterSecond(to, from, s);
    }
  }

  /** The rest of dev_mc_sync after a new address. */
  lemma {:induction false} AfterNew(to: seq<Entry>, from: seq<Entry>, n: Cursor)
    requires n.Valid() && SyncFrom(n).0 == 0 && n.i == 1 && 2 <= |from| && WellFormed(from) && WellFormed(to)
    requires n.to == [Entry(from[0].addr, 1, 0)] + to && n.from == from[0 := OneMore(from[0])]
    ensures var s := SyncFrom(n).1; s.Valid() && (Undone(to, from, s) <==> |from| == 2 && AtHead(to, from[1].addr))
  {
    var addr := from[1].addr;
    assert from[0].addr != addr && 1 <= from[0].users && 1 <= from[1].users;
    Gains(n);
    SyncPrefix(n);
    var more, s := SyncStep(n).1, SyncFrom(n).1;
    GainUnder(to, n.to[0], addr);
    hide SyncStep, Undone, WellFormed;
    if !Listed(to, addr) {
      assert !AtHead(to, addr);
      Buried(more, 0);
      if |s.from| < |from| {
        EntryGone(to, from, s);
      } else {
        FirstMissed(to, from, s);
      }
    } else if |from| == 2 {
      assert s == more;
      NewThenListed(to, from, s);
    } else {
      NewListedMore(to, from, more);
    }
  }

  /** The rest of dev_mc_sync after passing over the head of the destination. */
  lemma {:induction false} AfterHead(to: seq<Entry>, from: seq<Entry>, n: Cursor)
    requires n.Valid() && SyncFrom(n).0 == 0 && n.i == 1 && 2 <= |from| && n.to == to && n.from == from
    requires AtHead(to, from[0].addr) && 2 <= from[0].users
    ensures var s := SyncFrom(n).1; s.Valid() && (Undone(to, from, s) <==> |from| == 2 && !Listed(to, from[1].addr))
  {
    var addr := from[1].addr;
    assert from[0].addr != addr && 1 <= from[1].users;
    Gains(n);
    SyncPrefix(n);
    var more, s := SyncStep(n).1, SyncFrom(n).1;
    hide SyncStep, Undone, WellFormed;
    if !Listed(to, addr) {
      NewHead(to, addr);
      if |from| == 2 {
        assert s == more;
        HeadThenNew(to, from, s);
      } else {
        HeadNewMore(to, from, more);
      }
    } else {
      OneMoreUnder(to, addr);
      Buried(more, 1);
      Stays(more, 0);
      if |s.from| < |from| {
        EntryGone(to, from, s);
      } else if AtHead(s.to, from[0].addr) {
        FirstReleasedToo(to, from, s);
      } else {
        SecondMissed(to, from, s);
      }
    }
  }

  /** The first address is new. */
  lemma FirstNew(to: seq<Entry>, from: seq<Entry>, memory: nat)
    requires var c := Cursor(to, from, 0, memory); c.Valid() && SyncFrom(c).0 == 0
    requires from != [] && !Listed(to, from[0].addr)
    ensures var s := SyncFrom(Cursor(to, from, 0, memory)).1;
      s.Valid() && (Undone(to, from, s) <==> |from| == 1 || (|from| == 2 && AtHead(to, from[1].addr)))
  {
    var c := Cursor(to, from, 0, memory);
    assert !AtHead(to, from[0].addr);
    Gains(c);
    NewHead(to, from[0].addr);
    var n := SyncStep(c).1;
    hide SyncStep, Undone;
    if |from| == 1 {
      assert SyncFrom(n).1 == n;
      OneNew(to, from, n);
    } else {
      AfterNew(to, from, n);
    }
  }

  /**
    After a successful dev_mc_sync, dev_mc_unsync brings both lists back exactly when there was nothing to
    synchronise, or one address that the destination did not know and beside it at most the address that
    headed the destination, coming later or with at least two users.
   */
  lemma UnsyncUndoes(to: seq<Entry>, from: seq<Entry>, memory: nat)
    requires WellFormed(to) && WellFormed(from)
    requires SyncFrom(Cursor(to, from, 0, memory)).0 == 0
    ensures var s := SyncFrom(Cursor(to, from, 0, memory)).1;
      s.Valid() && (Undone(to, from, s) <==> Undoable(to, from))
  {
    var c := Cursor(to, from, 0, memory);
    SyncPrefix(c);
    if from == [] {
      assert SyncFrom(c).1 == c;
    } else if !Listed(to, from[0].addr) {
      FirstNew(to, from, memory);
    } else if !AtHead(to, from[0].addr) {
      FirstListed(to, from, memory);
    } else if from[0].users == 1 {
      Goes(c);
      EntryGone(to, from, SyncFrom(c).1);
    } else {
      Passes(c);
      if |from| == 1 {
        assert SyncFrom(c).1 == c.(i := 1);
        FirstReleasedToo(to, from, c.(i := 1));
      } else {
        AfterHead(to, from, c.(i := 1));
      }
    }
  }

  // ---- enough memory, and addresses that are all new

  lemma {:induction false} EnoughMemory(c: Cursor)
    requires c.Valid() && c.Left() <= c.memory
    ensures SyncFrom(c).0 == 0
    decreases c.Left()
  {
    if c.i < |c.from| {
      SyncStepConserves(c, []);
      MemoryStep(c);
      hide SyncStep, WellFormed;
      EnoughMemory(SyncStep(c).1);
    }
  }

  lemma MemoryStep(c: Cursor)
    requires c.Valid() && c.i < |c.from| && c.Left() <= c.memory
    ensures SyncStep(c).0 == 0 && SyncStep(c).1.Left() <= SyncStep(c).1.memory
  {
    SyncStepConserves(c, []);
    hide DeleteFrom, Users, WellFormed;
  }

  /** The entries that dev_mc_sync puts in front of a destination that knows none of the addresses. */
  function NewHeads(from: seq<Entry>): (r: seq<Entry>)
    ensures |r| == |from|
    ensures from != [] ==> r[0] == Entry(from[|from| - 1].addr, 1, 0)
  {
    if from == [] then [] else NewHeads(from[1..]) + [Entry(from[0].addr, 1, 0)]
  }

  function AllOneMore(from: seq<Entry>): seq<Entry> {
    seq(|from|, j requires 0 <= j < |from| => WithUsers(from[j], from[j].users + 1))
  }

  /** No source entry still to visit is known to the destination, and there is memory for all of them. */
  predicate Fresh(c: Cursor) {
    c.Valid() && c.Left() <= c.memory && forall j :: c.i <= j < |c.from| ==> !Listed(c.to, c.from[j].addr)
  }

  lemma FreshStep(c: Cursor)
    requires Fresh(c) && c.i < |c.from|
    ensures var da := c.from[c.i];
      SyncStep(c) == (0, Cursor([Entry(da.addr, 1, 0)] + c.to,
                                c.from[c.i := WithUsers(da, da.users + 1)], c.i + 1, c.memory - 1))
    ensures Fresh(SyncStep(c).1)
  {
    var n := SyncStep(c).1;
    SyncStepConserves(c, []);
    forall j | n.i <= j < |n.from| ensures !Listed(n.to, n.from[j].addr) {
      AddEffect(c.to, c.from[c.i].addr, false, true, c.from[j].addr);
    }
  }

  lemma {:induction false} SyncFresh(c: Cursor)
    requires Fresh(c)
    ensures var (err, r) := SyncFrom(c);
      err == 0 && r.to == NewHeads(c.from[c.i..]) + c.to && r.from == c.from[..c.i] + AllOneMore(c.from[c.i..])
    decreases c.Left()
  {
    if c.i < |c.from| {
      FreshStep(c);
      hide SyncStep, Fresh, WellFormed;
      SyncFresh(SyncStep(c).1);
      FreshLists(c.to, c.from, c.i);
    } else {
      assert c.from[c.i..] == [];
      assert c.from[..c.i] == c.from;
    }
  }

  lemma FreshLists(to: seq<Entry>, from: seq<Entry>, i: nat)
    requires i < |from|
    ensures var da := from[i];
      var to', from' := [Entry(da.addr, 1, 0)] + to, from[i := WithUsers(da, da.users + 1)];
      && NewHeads(from'[i + 1..]) + to' == NewHeads(from[i..]) + to
      && from'[..i + 1] + AllOneMore(from'[i + 1..]) == from[..i] + AllOneMore(from[i..])
  {
    var from' := from[i := WithUsers(from[i], from[i].users + 1)];
    assert from[i..][1..] == from[i + 1..] == from'[i + 1..];
    assert from'[..i + 1] == from[..i] + [from'[i]];
    assert AllOneMore(from[i..]) == [from'[i]] + AllOneMore(from[i + 1..]);
  }

  /** Among addresses that are all new only a single one is ever released again. */
  lemma FreshUndone(to: seq<Entry>, from: seq<Entry>, memory: nat)
    requires Fresh(Cursor(to, from, 0, memory))
    ensures var s := SyncFrom(Cursor(to, from, 0, memory)).1;
      s.Valid() && (Undone(to, from, s) <==> |from| <= 1)
  {
    SyncFresh(Cursor(to, from, 0, memory));
    UnsyncUndoes(to, from, memory);
    hide SyncFrom, Undone;
    if |from| == 2 && AtHead(to, from[1].addr) {
      HeadListed(to);
    }
  }

  lemma {:induction false} ReleaseTwo(a: seq<byte>, b: seq<byte>, memory: nat)
    requires a != b
    ensures var c := Cursor([Entry(b, 1, 0), Entry(a, 1, 0)], [Entry(a, 2, 0), Entry(b, 2, 0)], 0, memory);
      && c.Valid() && UnsyncFrom(c).to == [Entry(a, 1, 0)] && UnsyncFrom(c).from == [Entry(a, 2, 0), Entry(b, 1, 0)]
  {
    var c := Cursor([Entry(b, 1, 0), Entry(a, 1, 0)], [Entry(a, 2, 0), Entry(b, 2, 0)], 0, memory);
    var c1, c2 := UnsyncStep(c), Cursor([Entry(a, 1, 0)], [Entry(a, 2, 0), Entry(b, 1, 0)], 2, memory);
    assert c1 == c.(i := 1);
    assert Index(c1.to, b) == 0 && Index(c1.from, b) == 1;
    assert DeleteFrom(c1.to, b, false).1 == c2.to;
    assert DeleteFrom(c1.from, b, false).1 == c2.from;
    assert UnsyncStep(c1) == c2;
    assert UnsyncFrom(c1) == UnsyncFrom(c2) == c2;
  }

  /** Two new addresses: only the second one is released, and the first one keeps its users in both lists. */
  lemma {:induction false} SecondOnlyReleased(a: seq<byte>, b: seq<byte>)
    requires a != b
    ensures var from := [Entry(a, 1, 0), Entry(b, 1, 0)];
      && Cursor([], from, 0, 2).Valid() && SyncFrom(Cursor([], from, 0, 2)).0 == 0
      && var s := SyncFrom(Cursor([], from, 0, 2)).1;
      && s.Valid() && UnsyncFrom(s.(i := 0)).to == [Entry(a, 1, 0)]
      && UnsyncFrom(s.(i := 0)).from == [Entry(a, 2, 0), Entry(b, 1, 0)]
  {
    hide SyncFrom, UnsyncFrom, NewHeads;
    var from := [Entry(a, 1, 0), Entry(b, 1, 0)];
    var c := Cursor([], from, 0, 2);
    SyncFresh(c);
    SyncPrefix(c);
    var s := SyncFrom(c).1;
    TwoHeads(a, b);
    assert c.from[..0] == [] && c.from[0..] == from;
    assert s.from == [Entry(a, 2, 0), Entry(b, 2, 0)];
    ReleaseTwo(a, b, s.memory);
    assert s.(i := 0) == Cursor([Entry(b, 1, 0), Entry(a, 1, 0)], [Entry(a, 2, 0), Entry(b, 2, 0)], 0, s.memory);
  }

  lemma {:induction false} TwoHeads(a: seq<byte>, b: seq<byte>)
    ensures NewHeads([Entry(a, 1, 0), Entry(b, 1, 0)]) == [Entry(b, 1, 0), Entry(a, 1, 0)]
  {
    var from := [Entry(a, 1, 0), Entry(b, 1, 0)];
    assert from[1..] == [from[1]] && [from[1]][1..] == [];
    assert NewHeads([from[1]]) == [from[1]];
  }
}
