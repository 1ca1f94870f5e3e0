/**
  The same operations called by any number of threads. The lock is released between
  the change of the list and the recomputation of the target, and the notifiers are
  called without it, so each operation takes up to three steps.
 */
module PmQosThreads {
  import opened PmQos

  /** Where a thread is: outside any call, before update_target, or before the notifier call with its value. */
  datatype Pc = Idle | Owes | Notifying(value: s32)

  datatype World = World(s: State, pcs: seq<Pc>)

  datatype Action =
    | Begin(op: Op)      // the critical section that changes the list
    | Recompute          // the critical section of update_target
    | Notify             // the notifier call

  predicate Init(c: Class, w: World) {
    w.s == State([], c.defaultValue, []) && forall t :: 0 <= t < |w.pcs| ==> w.pcs[t] == Idle
  }

  /** The list after the first critical section of an operation. */
  function Listed(c: Class, list: seq<Requirement>, op: Op): seq<Requirement> {
    match op
    case Add(name, value) => [Requirement(name, c.Requested(value))] + list
    case Update(name, value) => ChangeFirst(list, name, c.Requested(value))
    case Remove(name) => RemoveFirst(list, name)
  }

  /** The operation changes the list, and so goes on to update_target. */
  predicate Pending(list: seq<Requirement>, op: Op) {
    op.Add? || Named(list, op.name)
  }

  predicate Step(c: Class, w: World, t: nat, a: Action, w': World) {
    && t < |w.pcs|
    && (match a
        case Begin(op) =>
          && w.pcs[t] == Idle
          && if Pending(w.s.list, op) then w' == World(w.s.(list := Listed(c, w.s.list, op)), w.pcs[t := Owes])
              else w' == w
        case Recompute =>
          && w.pcs[t] == Owes
          && var extreme := c.Fold(w.s.list);
          && w' == World(w.s.(target := extreme),
              w.pcs[t := if w.s.target != extreme then Notifying(extreme) else Idle])
        case Notify =>
          && w.pcs[t].Notifying?
          && w' == World(w.s.(log := w.s.log + [w.pcs[t].value]), w.pcs[t := Idle]))
  }

  /** One scheduling choice: which thread does what. */
  datatype Choice = Choice(thread: nat, action: Action)

  /** worlds is a run that makes the given choices. */
  predicate IsRun(c: Class, choices: seq<Choice>, worlds: seq<World>) {
    && |worlds| == |choices| + 1
    && Init(c, worlds[0])
    && forall i :: 0 <= i < |choices| ==> Step(c, worlds[i], choices[i].thread, choices[i].action, worlds[i + 1])
  }

  predicate SomeoneOwes(w: World) {
    exists t :: 0 <= t < |w.pcs| && w.pcs[t] == Owes
  }

  predicate Quiescent(w: World) {
    forall t :: 0 <= t < |w.pcs| ==> w.pcs[t] == Idle
  }

  lemma {:induction false} StepKeepsDebt(c: Class, w: World, t: nat, a: Action, w': World)
    requires Step(c, w, t, a, w') && (w.s.target == c.Fold(w.s.list) || SomeoneOwes(w))
    ensures w'.s.target == c.Fold(w'.s.list) || SomeoneOwes(w')
  {
    match a
    case Begin(op) =>
      if Pending(w.s.list, op) {
        assert w'.pcs[t] == Owes;
      }
    case Recompute =>
    case Notify =>
      if SomeoneOwes(w) {
        var u :| 0 <= u < |w.pcs| && w.pcs[u] == Owes;
        assert w'.pcs[u] == Owes;
      }
  }

  /** At every point of every run, the target is exact or some thread still owes an update of it. */
  lemma {:induction false} TargetExactOrOwed(c: Class, choices: seq<Choice>, worlds: seq<World>, i: nat)
    requires IsRun(c, choices, worlds) && i < |worlds|
    ensures worlds[i].s.target == c.Fold(worlds[i].s.list) || SomeoneOwes(worlds[i])
  {
    if i == 0 {
    } else {
      TargetExactOrOwed(c, choices, worlds, i - 1);
      StepKeepsDebt(c, worlds[i - 1], choices[i - 1].thread, choices[i - 1].action, worlds[i]);
    }
  }

  /** When no call is under way, the target is the extreme of the default and all listed values. */
  lemma QuiescentExact(c: Class, choices: seq<Choice>, worlds: seq<World>, i: nat)
    requires IsRun(c, choices, worlds) && i < |worlds| && Quiescent(worlds[i])
    ensures IsExtreme(c, worlds[i].s.list, worlds[i].s.target)
  {
    TargetExactOrOwed(c, choices, worlds, i);
    FoldExtreme(c, worlds[i].s.list);
  }

  /** A call that nobody interrupts does what the sequential operation does. */
  lemma SoloCall(c: Class, w: World, t: nat, op: Op) returns (w1: World, w2: World, w3: World)
    requires t < |w.pcs| && w.pcs[t] == Idle
    ensures Step(c, w, t, Begin(op), w1)
    ensures if w1.pcs[t] == Owes then Step(c, w1, t, Recompute, w2) else w2 == w1
    ensures if w2.pcs[t].Notifying? then Step(c, w2, t, Notify, w3) else w3 == w2
    ensures w3 == World(Do(c, w.s, op), w.pcs)
  {
    w1 := if Pending(w.s.list, op) then World(w.s.(list := Listed(c, w.s.list, op)), w.pcs[t := Owes]) else w;
    w2, w3 := w1, w1;
    if w1.pcs[t] == Owes {
      var extreme := c.Fold(w1.s.list);
      w2 := World(w1.s.(target := extreme), w1.pcs[t := if w1.s.target != extreme then Notifying(extreme) else Idle]);
      w3 := if w2.pcs[t].Notifying? then World(w2.s.(log := w2.s.log + [extreme]), w2.pcs[t := Idle]) else w2;
      assert w3.pcs == w.pcs;
    }
  }

  // ---- the notifications

  /** The new targets of the first i steps of a run, in order. */
  function Changes(worlds: seq<World>, i: nat): seq<s32>
    requires i < |worlds|
  {
    if i == 0 then []
    else if worlds[i].s.target == worlds[i - 1].s.target then Changes(worlds, i - 1)
    else Changes(worlds, i - 1) + [worlds[i].s.target]
  }

  /** The value that a thread is about to report. */
  function Report(pc: Pc): multiset<s32> {
    if pc.Notifying? then multiset{pc.value} else multiset{}
  }

  /** The values that threads are about to report. */
  function Unreported(pcs: seq<Pc>): multiset<s32> {
    if pcs == [] then multiset{} else Report(pcs[0]) + Unreported(pcs[1..])
  }

  lemma {:induction false} UnreportedChanged(pcs: seq<Pc>, t: nat, pc: Pc)
    requires t < |pcs|
    ensures Unreported(pcs[t := pc]) + Report(pcs[t]) == Unreported(pcs) + Report(pc)
  {
    hide Report;
    if t == 0 {
      assert pcs[0 := pc][1..] == pcs[1..];
    } else {
      var rest := pcs[1..];
      UnreportedChanged(rest, t - 1, pc);
      assert pcs[t := pc][1..] == rest[t - 1 := pc];
      assert Unreported(pcs[t := pc]) + Report(pcs[t])
          == Report(pcs[0]) + (Unreported(rest[t - 1 := pc]) + Report(rest[t - 1]));
    }
  }

  lemma {:induction false} NothingUnreported(pcs: seq<Pc>)
    requires forall t :: 0 <= t < |pcs| ==> !pcs[t].Notifying?
    ensures Unreported(pcs) == multiset{}
  {
    if pcs == [] {
    } else {
      NothingUnreported(pcs[1..]);
    }
  }

  /** The changes reported, with those about to be reported, are all the changes. */
  predicate Accounted(w: World, changes: seq<s32>) {
    multiset(w.s.log) + Unreported(w.pcs) == multiset(changes)
  }

  /** A step reports a pending change, makes a change pending, or does neither. */
  lemma {:induction false} StepReports(c: Class, w: World, t: nat, a: Action, w': World, changes: seq<s32>)
    requires Step(c, w, t, a, w') && Accounted(w, changes)
    ensures Accounted(w', if w'.s.target == w.s.target then changes else changes + [w'.s.target])
  {
    hide Unreported, Class.Fold, Listed, Pending;
    if w' != w {
      var log, u, u' := multiset(w.s.log), Unreported(w.pcs), Unreported(w'.pcs);
      UnreportedChanged(w.pcs, t, w'.pcs[t]);
      assert w'.pcs == w.pcs[t := w'.pcs[t]];
      if a == Notify {
        var v := w.pcs[t].value;
        assert u' + multiset{v} == u;
        Moved(log, u', v);
      } else if w'.s.target != w.s.target {
        var v := w'.s.target;
        assert u' == u + multiset{v};
        Grown(log, u, v);
      } else {
        assert Report(w.pcs[t]) == multiset{} == Report(w'.pcs[t]);
        assert u' == u' + multiset{} == u + multiset{} == u;
      }
    }
  }

  lemma Moved(log: multiset<s32>, u: multiset<s32>, v: s32)
    ensures log + multiset{v} + u == log + (u + multiset{v})
  {
  }

  lemma Grown(log: multiset<s32>, u: multiset<s32>, v: s32)
    ensures log + (u + multiset{v}) == log + u + multiset{v}
  {
  }

  /** In every run each change of the target is reported exactly once, or some thread is about to report it. */
  lemma {:induction false} EveryChangeReported(c: Class, choices: seq<Choice>, worlds: seq<World>, i: nat)
    requires IsRun(c, choices, worlds) && i < |worlds|
    ensures Accounted(worlds[i], Changes(worlds, i))
  {
    if i == 0 {
      NothingUnreported(worlds[0].pcs);
    } else {
      EveryChangeReported(c, choices, worlds, i - 1);
      hide Accounted, Step;
      StepReports(c, worlds[i - 1], choices[i - 1].thread, choices[i - 1].action, worlds[i], Changes(worlds, i - 1));
    }
  }

  /** When no call is under way, every change has been reported exactly once, in some order. */
  lemma {:induction false} QuiescentReported(c: Class, choices: seq<Choice>, worlds: seq<World>, i: nat)
    requires IsRun(c, choices, worlds) && i < |worlds| && Quiescent(worlds[i])
    ensures multiset(worlds[i].s.log) == multiset(Changes(worlds, i))
  {
    EveryChangeReported(c, choices, worlds, i);
    hide IsRun;
    NothingUnreported(worlds[i].pcs);
  }

  lemma NoRepeatsSnoc(log: seq<s32>, v: s32, start: s32)
    requires NoRepeats(log)
    ensures LastOr(log + [v], start) == v
    ensures v != LastOr(log, start) ==> NoRepeats(log + [v])
  {
  }

  /** Changes are changes: neighbours differ, and the last one is the target. */
  lemma {:induction false} ChangesEndAtTarget(c: Class, choices: seq<Choice>, worlds: seq<World>, i: nat)
    requires IsRun(c, choices, worlds) && i < |worlds|
    ensures NoRepeats(Changes(worlds, i)) && LastOr(Changes(worlds, i), c.defaultValue) == worlds[i].s.target
  {
    if i == 0 {
    } else {
      ChangesEndAtTarget(c, choices, worlds, i - 1);
      hide Step, IsRun;
      NoRepeatsSnoc(Changes(worlds, i - 1), worlds[i].s.target, c.defaultValue);
    }
  }

  predicate NonePending(w: World) {
    forall t :: 0 <= t < |w.pcs| ==> !w.pcs[t].Notifying?
  }

  predicate OnlyPending(w: World, t: nat) {
    && t < |w.pcs| && w.pcs[t].Notifying?
    && forall u :: 0 <= u < |w.pcs| && u != t ==> !w.pcs[u].Notifying?
  }

  /** The notifiers were told the changes so far, in order, but for the last one if a thread is about to report it. */
  predicate Told(w: World, changes: seq<s32>) {
    || (NonePending(w) && w.s.log == changes)
    || exists t :: 0 <= t < |w.pcs| && OnlyPending(w, t) && w.s.log + [w.pcs[t].value] == changes
  }

  /** No target is changed while the report of an earlier change is still to come. */
  predicate NoOvertake(choices: seq<Choice>, worlds: seq<World>)
    requires |worlds| == |choices| + 1
  {
    forall i :: 0 <= i < |choices| && choices[i].action == Recompute ==>
      NonePending(worlds[i]) || worlds[i + 1].s.target == worlds[i].s.target
  }

  lemma StepKeepsTold(c: Class, w: World, t: nat, a: Action, w': World, changes: seq<s32>)
    requires Step(c, w, t, a, w') && Told(w, changes)
    requires a == Recompute ==> NonePending(w) || w'.s.target == w.s.target
    ensures Told(w', if w'.s.target == w.s.target then changes else changes + [w'.s.target])
  {
    if NonePending(w) {
      if a == Recompute && w'.s.target != w.s.target {
        assert OnlyPending(w', t);
      }
    } else {
      var u :| 0 <= u < |w.pcs| && OnlyPending(w, u) && w.s.log + [w.pcs[u].value] == changes;
      if a != Notify {
        assert OnlyPending(w', u);
      }
    }
  }

  /** Overtaking leaves two reports to come. */
  lemma OvertakenNotTold(c: Class, w: World, t: nat, w': World, changes: seq<s32>)
    requires Step(c, w, t, Recompute, w') && !NonePending(w) && w'.s.target != w.s.target
    ensures !Told(w', changes)
  {
    var u :| 0 <= u < |w.pcs| && w.pcs[u].Notifying?;
    assert w'.pcs[u] == w.pcs[u] && w'.pcs[t].Notifying? && u != t;
  }

  lemma {:induction false} NoOvertakeTold(c: Class, choices: seq<Choice>, worlds: seq<World>, i: nat)
    requires IsRun(c, choices, worlds) && NoOvertake(choices, worlds) && i < |worlds|
    ensures Told(worlds[i], Changes(worlds, i))
  {
    if i == 0 {
    } else {
      NoOvertakeTold(c, choices, worlds, i - 1);
      hide Told, NonePending;
      StepKeepsTold(c, worlds[i - 1], choices[i - 1].thread, choices[i - 1].action, worlds[i], Changes(worlds, i - 1));
    }
  }

  /** Whichever report is made next, the notifiers have then been told a prefix of the changes. */
  ghost predicate SafeNext(c: Class, w: World, changes: seq<s32>) {
    forall t: nat, w' :: Step(c, w, t, Notify, w') ==> w'.s.log <= changes
  }

  lemma ToldSafe(c: Class, w: World, changes: seq<s32>)
    requires Told(w, changes)
    ensures SafeNext(c, w, changes)
  {
    forall t: nat, w' | Step(c, w, t, Notify, w') ensures w'.s.log <= changes {
      assert w.pcs[t].Notifying?;
      assert w.s.log + [w.pcs[t].value] == changes;
    }
  }

  /** After an overtake the later change may be reported before the earlier one. */
  lemma OvertakenUnsafe(c: Class, w: World, t: nat, w': World, changes: seq<s32>)
    requires Step(c, w, t, Recompute, w') && !NonePending(w) && w'.s.target != w.s.target
    requires Told(w, changes) && LastOr(changes, c.defaultValue) == w.s.target
    ensures !SafeNext(c, w', changes + [w'.s.target])
  {
    var v := w'.s.target;
    var u :| 0 <= u < |w.pcs| && OnlyPending(w, u) && w.s.log + [w.pcs[u].value] == changes;
    assert w.pcs[u].value == w.s.target;
    var w2 := World(w'.s.(log := w'.s.log + [v]), w'.pcs[t := Idle]);
    assert Step(c, w', t, Notify, w2);
    var n := |w.s.log|;
    assert w2.s.log[n] == v && (changes + [v])[n] == w.s.target;
  }

  /** The first n steps overtake nothing. */
  predicate NoneBefore(choices: seq<Choice>, worlds: seq<World>, n: nat)
    requires |worlds| == |choices| + 1 && n <= |choices|
  {
    NoOvertake(choices[..n], worlds[..n + 1])
  }

  lemma RunPrefix(c: Class, choices: seq<Choice>, worlds: seq<World>, n: nat)
    requires IsRun(c, choices, worlds) && n <= |choices|
    ensures IsRun(c, choices[..n], worlds[..n + 1])
  {
    hide Step;
  }

  lemma {:induction false} ChangesPrefix(worlds: seq<World>, n: nat, i: nat)
    requires i < n <= |worlds|
    ensures Changes(worlds[..n], i) == Changes(worlds, i)
  {
    if i == 0 {
    } else {
      ChangesPrefix(worlds, n, i - 1);
    }
  }

  /** Where the first overtake is. */
  lemma {:induction false} FirstOvertake(choices: seq<Choice>, worlds: seq<World>, n: nat) returns (i: nat)
    requires |worlds| == |choices| + 1 && n <= |choices| && !NoneBefore(choices, worlds, n)
    ensures i < n && NoneBefore(choices, worlds, i)
    ensures choices[i].action == Recompute && !NonePending(worlds[i]) && worlds[i + 1].s.target != worlds[i].s.target
  {
    if NoneBefore(choices, worlds, n - 1) {
      i := n - 1;
      hide NonePending;
      var k :| 0 <= k < n && choices[..n][k].action == Recompute && !NonePending(worlds[..n + 1][k])
               && worlds[..n + 1][k + 1].s.target != worlds[..n + 1][k].s.target;
      assert k == n - 1;
    } else {
      i := FirstOvertake(choices, worlds, n - 1);
    }
  }

  /**
    In every run: whichever report is made next, the notifiers have been told the changes of the target in
    order, exactly when no target is changed while a report is still to come.
   */
  lemma {:induction false} ToldInOrder(c: Class, choices: seq<Choice>, worlds: seq<World>)
    requires IsRun(c, choices, worlds)
    ensures (forall i :: 0 <= i < |worlds| ==> SafeNext(c, worlds[i], Changes(worlds, i)))
      <==> NoOvertake(choices, worlds)
  {
    hide Step, IsRun, Told, SafeNext, NonePending, Changes;
    RunLength(c, choices, worlds);
    if NoOvertake(choices, worlds) {
      forall i | 0 <= i < |worlds| ensures SafeNext(c, worlds[i], Changes(worlds, i)) {
        NoOvertakeTold(c, choices, worlds, i);
        ToldSafe(c, worlds[i], Changes(worlds, i));
      }
    } else {
      var n := |choices|;
      assert choices[..n] == choices && worlds[..n + 1] == worlds;
      var i := FirstOvertake(choices, worlds, n);
      RunPrefix(c, choices, worlds, i);
      NoOvertakeTold(c, choices[..i], worlds[..i + 1], i);
      ChangesPrefix(worlds, i + 1, i);
      ChangesEndAtTarget(c, choices, worlds, i);
      RunStep(c, choices, worlds, i);
      OvertakenUnsafe(c, worlds[i], choices[i].thread, worlds[i + 1], Changes(worlds, i));
      NextChanges(worlds, i);
    }
  }

  lemma RunLength(c: Class, choices: seq<Choice>, worlds: seq<World>)
    requires IsRun(c, choices, worlds)
    ensures |worlds| == |choices| + 1
  {
  }

  lemma RunStep(c: Class, choices: seq<Choice>, worlds: seq<World>, i: nat)
    requires IsRun(c, choices, worlds) && i < |choices|
    ensures Step(c, worlds[i], choices[i].thread, choices[i].action, worlds[i + 1])
  {
  }

  lemma NextChanges(worlds: seq<World>, i: nat)
    requires i + 1 < |worlds|
    ensures i == 0 ==> Changes(worlds, i) == []
    ensures var u, v := worlds[i].s.target, worlds[i + 1].s.target;
      Changes(worlds, i + 1) == if v == u then Changes(worlds, i) else Changes(worlds, i) + [v]
  {
  }

  /** The same condition is that of at most one report to come at any time. */
  lemma {:induction false} ToldPromptly(c: Class, choices: seq<Choice>, worlds: seq<World>)
    requires IsRun(c, choices, worlds)
    ensures (forall i :: 0 <= i < |worlds| ==> Told(worlds[i], Changes(worlds, i))) <==> NoOvertake(choices, worlds)
  {
    if NoOvertake(choices, worlds) {
      forall i | 0 <= i < |worlds| ensures Told(worlds[i], Changes(worlds, i)) {
        NoOvertakeTold(c, choices, worlds, i);
      }
    } else {
      var i :| 0 <= i < |choices| && choices[i].action == Recompute && !NonePending(worlds[i])
               && worlds[i + 1].s.target != worlds[i].s.target;
      hide Told, NonePending;
      OvertakenNotTold(c, worlds[i], choices[i].thread, worlds[i + 1], Changes(worlds, i + 1));
    }
  }

  lemma {:induction false} LateFolds(c: Class, a: Requirement, b: Requirement)
    requires c == CPU_DMA_LATENCY && a.value == 20 && b.value == 10
    ensures c.Fold([]) == c.defaultValue && c.Fold([a]) == 20 && c.Fold([b, a]) == 10
  {
    assert c.Fold([a]) == 20 by {
      assert [a][..0] == [];
    }
    FoldCons(c, b, [a]);
    assert [b] + [a] == [b, a];
  }

  lemma RunSnoc(c: Class, choices: seq<Choice>, worlds: seq<World>, choice: Choice, w: World)
    requires IsRun(c, choices, worlds)
    requires worlds != [] && Step(c, worlds[|worlds| - 1], choice.thread, choice.action, w)
    ensures IsRun(c, choices + [choice], worlds + [w])
  {
    hide Step;
  }

  const A20 := Requirement("a", 20)
  const B10 := Requirement("b", 10)

  /** Thread 1 changes the target while thread 0 is about to report its own change. */
  function Overtaking(): (seq<Choice>, seq<World>) {
    var d := CPU_DMA_LATENCY.defaultValue;
    ([Choice(0, Begin(Add("a", 20))), Choice(0, Recompute), Choice(1, Begin(Add("b", 10))), Choice(1, Recompute)],
     [World(State([], d, []), [Idle, Idle]),
      World(State([A20], d, []), [Owes, Idle]),
      World(State([A20], 20, []), [Notifying(20), Idle]),
      World(State([B10, A20], 20, []), [Notifying(20), Owes]),
      World(State([B10, A20], 10, []), [Notifying(20), Notifying(10)])])
  }

  lemma OvertakingRun()
    ensures IsRun(CPU_DMA_LATENCY, Overtaking().0, Overtaking().1)
  {
    hide Class.Fold, Told;
    var c := CPU_DMA_LATENCY;
    LateFolds(c, A20, B10);
    var (choices, worlds) := Overtaking();
    assert Listed(c, [], Add("a", 20)) == [A20];
    assert Listed(c, [A20], Add("b", 10)) == [B10, A20];
    assert Step(c, worlds[0], 0, choices[0].action, worlds[1]);
    assert Step(c, worlds[1], 0, choices[1].action, worlds[2]);
    assert Step(c, worlds[2], 1, choices[2].action, worlds[3]);
    assert Step(c, worlds[3], 1, choices[3].action, worlds[4]);
  }

  /** Then the two reports are made, by thread t first. */
  lemma BothReport(t: nat) returns (choices: seq<Choice>, worlds: seq<World>)
    requires t < 2
    ensures IsRun(CPU_DMA_LATENCY, choices, worlds)
    ensures choices == Overtaking().0 + [Choice(t, Notify), Choice(1 - t, Notify)]
    ensures |worlds| == 7 && worlds[..5] == Overtaking().1
    ensures worlds[5].s == State([B10, A20], 10, [if t == 0 then 20 else 10])
    ensures worlds[6] == World(State([B10, A20], 10, if t == 0 then [20, 10] else [10, 20]), [Idle, Idle])
  {
    hide IsRun;
    var c := CPU_DMA_LATENCY;
    OvertakingRun();
    var (start, before) := Overtaking();
    var first, second := Choice(t, Notify), Choice(1 - t, Notify);
    var pcs := [Notifying(20), Notifying(10)];
    var w5 := World(State([B10, A20], 10, [pcs[t].value]), pcs[t := Idle]);
    var w6 := World(w5.s.(log := w5.s.log + [pcs[1 - t].value]), [Idle, Idle]);
    RunSnoc(c, start, before, first, w5);
    RunSnoc(c, start + [first], before + [w5], second, w6);
    choices, worlds := start + [first] + [second], before + [w5] + [w6];
  }

  /**
    Overtaken reports can come in the wrong order: all calls are over, the target is 10,
    and the last value the notifiers were told is 20.
   */
  lemma LateNotification() returns (choices: seq<Choice>, worlds: seq<World>)
    ensures IsRun(CPU_DMA_LATENCY, choices, worlds)
    ensures var last := worlds[|worlds| - 1]; Quiescent(last) && last.s.target == 10 && LastOr(last.s.log, 0) == 20
  {
    hide IsRun;
    choices, worlds := BothReport(1);
  }

  lemma {:induction false} ChangesOfSix(worlds: seq<World>, d: s32)
    requires |worlds| == 7 && d != 20 && worlds[0].s.target == d && worlds[1].s.target == d
    requires worlds[2].s.target == worlds[3].s.target == 20
    requires worlds[4].s.target == worlds[5].s.target == worlds[6].s.target == 10
    ensures forall i :: 0 <= i < 7 ==> Changes(worlds, i) == if i < 2 then [] else if i < 4 then [20] else [20, 10]
  {
    hide Changes;
    NextChanges(worlds, 0);
    NextChanges(worlds, 1);
    NextChanges(worlds, 2);
    NextChanges(worlds, 3);
    NextChanges(worlds, 4);
    NextChanges(worlds, 5);
  }

  /** But they need not: with the same overtake, the two changes happen to be told in order. */
  lemma LuckyNotification() returns (choices: seq<Choice>, worlds: seq<World>)
    ensures IsRun(CPU_DMA_LATENCY, choices, worlds) && !NoOvertake(choices, worlds)
    ensures forall i :: 0 <= i < |worlds| ==> worlds[i].s.log <= Changes(worlds, i)
    ensures Quiescent(worlds[|worlds| - 1]) && worlds[|worlds| - 1].s.log == Changes(worlds, |worlds| - 1)
  {
    hide IsRun, Changes, Step;
    choices, worlds := BothReport(0);
    var before := Overtaking().1;
    forall i | 0 <= i < 5 ensures worlds[i] == before[i] {
      assert worlds[i] == worlds[..5][i];
    }
    assert choices[3].action == Recompute && worlds[3].pcs[0].Notifying?;
    ChangesOfSix(worlds, CPU_DMA_LATENCY.defaultValue);
  }
}
